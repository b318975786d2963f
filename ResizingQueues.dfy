/**
 * MyResizingArrayQueue (Ch1/1_3/MyResizingArrayQueue.java): a FIFO queue
 * held in the window a[first..last) of an array that doubles when full,
 * halves when a quarter full, and re-centres the window when it reaches
 * the end of the array.
 */
module ResizingQueues {
  import opened Outcomes

  class MyResizingArrayQueue<Item(0)> {
    var a: array<Item>
    var first: nat   // index of the first element in the queue
    var last: nat    // one past the last element in the queue

    /** The window lies inside the array, whose capacity never drops below 2. */
    ghost predicate Valid()
      reads this
    {
      first <= last <= a.Length && 2 <= a.Length
    }

    /** The queue's items, least recently added first. */
    ghost function Contents(): seq<Item>
      reads this, a
      requires Valid()
    {
      a[first..last]
    }

    /** An empty queue over an array of capacity 2. */
    constructor ()
      ensures Valid() && fresh(a) && a.Length == 2
      ensures Contents() == []
    {
      a := new Item[2];
      first := 0;
      last := 0;
    }

    /** isEmpty(): the window is empty. */
    method IsEmpty() returns (empty: bool)
      requires Valid()
      ensures empty <==> Contents() == []
    {
      return (last - first) == 0;
    }

    /** size(): the width of the window, last - first. */
    method Size() returns (size: int)
      requires Valid()
      ensures size == |Contents()| && size == last - first
    {
      return last - first;
    }

    /**
     * peek(): the item least recently added; on an empty queue, throws
     * NoSuchElementException.
     */
    method Peek() returns (r: Result<Item>)
      requires Valid()
      ensures Contents() == [] ==> r == Err(NoSuchElement)
      ensures Contents() != [] ==> r == Ok(Contents()[0])
    {
      if last - first == 0 {
        return Err(NoSuchElement);
      }
      return Ok(a[first]);
    }

    /**
     * resize(capacity): copies the window into a new array of the given
     * capacity, centred at offset (capacity - size) / 2.
     */
    method Resize(capacity: int)
      requires Valid()
      requires last - first <= capacity && 2 <= capacity
      modifies this
      ensures Valid() && fresh(a) && a.Length == capacity
      ensures first == (capacity - (old(last) - old(first))) / 2
      ensures last - first == old(last) - old(first)
      ensures Contents() == old(Contents())
    {
      var arraySize := last - first;
      var offset := (capacity - arraySize) / 2;
      var temp := new Item[capacity];
      for i := 0 to arraySize
        modifies temp
        invariant temp[offset..offset + i] == a[first..first + i]
      {
        temp[offset + i] := a[first + i];
      }
      first := offset;
      last := offset + arraySize;
      a := temp;
    }

    /**
     * enqueue(item): appends item. A full array first doubles; an array
     * whose window reaches its end is first re-centred at the same capacity.
     */
    method Enqueue(item: Item)
      requires Valid()
      modifies this, a
      ensures Valid() && (a == old(a) || fresh(a))
      ensures Contents() == old(Contents()) + [item]
      ensures old(last - first == a.Length) ==> a.Length == 2 * old(a.Length)
      ensures old(last - first < a.Length) ==> a.Length == old(a.Length)
      ensures old(last - first < a.Length && last == a.Length) ==>
        first == (a.Length - old(last - first)) / 2
      ensures old(last < a.Length) ==> a == old(a) && first == old(first)
    {
      if a.Length == last - first {
        Resize(2 * a.Length);
      } else if last == a.Length {
        Resize(a.Length);
      }
      a[last] := item;
      last := last + 1;
    }

    /**
     * dequeue(): removes and returns the item least recently added; on an
     * empty queue, throws NoSuchElementException and changes nothing. The
     * array halves when the remaining size is positive and a quarter of
     * the capacity.
     */
    method Dequeue() returns (r: Result<Item>)
      requires Valid()
      modifies this
      ensures Valid() && (a == old(a) || fresh(a))
      ensures old(Contents()) == [] ==> r == Err(NoSuchElement) && unchanged(this)
      ensures old(Contents()) != [] ==>
        && r == Ok(old(Contents())[0])
        && Contents() == old(Contents())[1..]
      ensures old(Contents()) != [] ==>
        var remaining := old(last - first) - 1;
        a.Length == if 0 < remaining && remaining == old(a.Length) / 4 then old(a.Length) / 2 else old(a.Length)
    {
      if last - first == 0 {
        return Err(NoSuchElement);
      } else if last - first - 1 > 0 && last - first - 1 == a.Length / 4 {
        Resize(a.Length / 2);
      }
      r := Ok(a[first]);
      first := first + 1;
    }
  }

  /**
   * A client's run: three items enqueued (the array doubles once) come
   * out in the order they went in.
   */
  method FirstInFirstOut() returns (head: Result<int>, second: Result<int>, size: int)
    ensures head == Ok(1) && second == Ok(2) && size == 1
  {
    var q := new MyResizingArrayQueue<int>();
    q.Enqueue(1);
    q.Enqueue(2);
    q.Enqueue(3);
    head := q.Dequeue();
    second := q.Dequeue();
    size := q.Size();
  }
}
