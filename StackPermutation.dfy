/**
 * CheckPermutation (Ch1/1_3/CheckPermutation.java): can a sequence be
 * output by pushing 0, 1, ..., N-1 onto a stack in order, with pops
 * intermixed, where N is the length of the sequence?
 *
 * The algs4 Queue and Stack are modelled as sequences: the caller's queue
 * is the sequence `sequence`, front first, and what the method leaves in
 * it is returned as `remaining`; the stack's top is its last element.
 */
module StackPermutation {

  /** One step of a stack run: push the next integer, or pop to the output. */
  datatype Op = Push | Pop

  /**
   * Running `ops` from a stack holding `stack` (top last), with `next` the
   * next integer to push, pushes only integers below n, pops exactly the
   * sequence `out`, and ends with all of 0..n-1 pushed and the stack empty.
   */
  ghost predicate Produces(ops: seq<Op>, stack: seq<int>, next: int, n: int, out: seq<int>)
    decreases |ops|
  {
    if ops == [] then
      stack == [] && next == n && out == []
    else match ops[0]
      case Push =>
        next < n && Produces(ops[1..], stack + [next], next + 1, n, out)
      case Pop =>
        stack != [] && out != [] && out[0] == stack[|stack| - 1] &&
        Produces(ops[1..], stack[..|stack| - 1], next, n, out[1..])
  }

  /** Some run from the given state outputs exactly `out`. */
  ghost predicate CanFinish(stack: seq<int>, next: int, n: int, out: seq<int>)
  {
    exists ops :: Produces(ops, stack, next, n, out)
  }

  /**
   * p can be produced by pushing 0..|p|-1 in order with intermixed pops:
   * the property isPermutationPossible decides.
   */
  ghost predicate StackPermutable(p: seq<int>)
  {
    CanFinish([], 0, |p|, p)
  }

  /** The entries of a sequence strictly increase (as the pushed integers do). */
  ghost predicate Increasing(s: seq<int>)
  {
    forall p, q :: 0 <= p < q < |s| ==> s[p] < s[q]
  }

  /** Every entry of the stack is below `next`, so pushing `next` keeps it increasing. */
  ghost predicate AllBelow(s: seq<int>, next: int)
  {
    forall k :: 0 <= k < |s| ==> s[k] < next
  }

  /**
   * An output whose first value lies under the top of an increasing stack
   * can never be produced: everything above it would have to be popped first.
   */
  lemma {:induction false} BuriedHeadIsStuck(ops: seq<Op>, stack: seq<int>, next: int, n: int, out: seq<int>, k: nat)
    requires Increasing(stack) && AllBelow(stack, next)
    requires out != [] && k + 1 < |stack| && out[0] == stack[k]
    ensures !Produces(ops, stack, next, n, out)
    decreases |ops|
  {
    if ops != [] && ops[0] == Push {
      var pushed := stack + [next];
      assert pushed[k] == stack[k];
      assert AllBelow(pushed, next + 1);
      BuriedHeadIsStuck(ops[1..], pushed, next + 1, n, out, k);
    }
  }

  /** When the head of the output is on top of the stack, popping it is forced. */
  lemma PopIsForced(stack: seq<int>, next: int, n: int, out: seq<int>)
    requires Increasing(stack) && AllBelow(stack, next)
    requires stack != [] && out != [] && out[0] == stack[|stack| - 1]
    ensures CanFinish(stack, next, n, out) <==> CanFinish(stack[..|stack| - 1], next, n, out[1..])
  {
    if CanFinish(stack, next, n, out) {
      var ops :| Produces(ops, stack, next, n, out);
      if ops[0] == Push {
        var pushed := stack + [next];
        assert pushed[|stack| - 1] == stack[|stack| - 1];
        assert AllBelow(pushed, next + 1);
        BuriedHeadIsStuck(ops[1..], pushed, next + 1, n, out, |stack| - 1);
        assert false;
      }
      assert Produces(ops[1..], stack[..|stack| - 1], next, n, out[1..]);
    }
    PopExtends(stack, next, n, out);
  }

  /** A run that finishes after popping the matching top finishes from before the pop. */
  lemma PopExtends(stack: seq<int>, next: int, n: int, out: seq<int>)
    requires stack != [] && out != [] && out[0] == stack[|stack| - 1]
    ensures CanFinish(stack[..|stack| - 1], next, n, out[1..]) ==> CanFinish(stack, next, n, out)
  {
    if CanFinish(stack[..|stack| - 1], next, n, out[1..]) {
      var ops :| Produces(ops, stack[..|stack| - 1], next, n, out[1..]);
      assert ([Pop] + ops)[1..] == ops;
      assert Produces([Pop] + ops, stack, next, n, out);
    }
  }

  /** When the head of the output is not on top of the stack, pushing is forced. */
  lemma PushIsForced(stack: seq<int>, next: int, n: int, out: seq<int>)
    requires out != [] && (stack == [] || out[0] != stack[|stack| - 1])
    ensures CanFinish(stack, next, n, out) <==> next < n && CanFinish(stack + [next], next + 1, n, out)
  {
    if CanFinish(stack, next, n, out) {
      var ops :| Produces(ops, stack, next, n, out);
      assert ops[0] == Push;
      assert Produces(ops[1..], stack + [next], next + 1, n, out);
    }
    PushExtends(stack, next, n, out);
  }

  /** A run that finishes after pushing next finishes from before the push. */
  lemma PushExtends(stack: seq<int>, next: int, n: int, out: seq<int>)
    ensures next < n && CanFinish(stack + [next], next + 1, n, out) ==> CanFinish(stack, next, n, out)
  {
    if next < n && CanFinish(stack + [next], next + 1, n, out) {
      var ops :| Produces(ops, stack + [next], next + 1, n, out);
      assert ([Push] + ops)[1..] == ops;
      assert Produces([Push] + ops, stack, next, n, out);
    }
  }

  /** Once the whole output is produced, the run can only stop, with the stack empty. */
  lemma FinishIsForced(stack: seq<int>, next: int, n: int)
    ensures CanFinish(stack, next, n, []) <==> stack == [] && next == n
  {
    if CanFinish(stack, next, n, []) {
      var ops :| Produces(ops, stack, next, n, []);
      if ops != [] {
        NothingLeftToPop(ops[1..], stack + [next], next + 1, n);
      }
    }
    if stack == [] && next == n {
      assert Produces([], stack, next, n, []);
    }
  }

  lemma {:induction false} NothingLeftToPop(ops: seq<Op>, stack: seq<int>, next: int, n: int)
    requires stack != []
    ensures !Produces(ops, stack, next, n, [])
    decreases |ops|
  {
    if ops != [] && ops[0] == Push {
      NothingLeftToPop(ops[1..], stack + [next], next + 1, n);
    }
  }

  /**
   * isPermutationPossible(sequence): the greedy simulation. Pops while the
   * head of the queue is on top of the stack, pushes the next integer
   * otherwise, and stops when the queue is empty or N has been pushed.
   */
  method IsPermutationPossible(sequence: seq<int>) returns (possible: bool, remaining: seq<int>)
    ensures possible <==> StackPermutable(sequence)
    ensures |remaining| <= |sequence| && remaining == sequence[|sequence| - |remaining|..]
    ensures possible ==> remaining == []
    ensures possible ==> multiset(sequence) == multiset(Range(0, |sequence|))
  {
    var checkStack: seq<int> := [];
    var j := 0;
    var sequenceSize := |sequence|;
    remaining := sequence;
    while remaining != [] && j <= sequenceSize
      invariant 0 <= j <= sequenceSize + 1
      invariant |remaining| <= |sequence| && remaining == sequence[|sequence| - |remaining|..]
      invariant Increasing(checkStack) && AllBelow(checkStack, j)
      invariant |checkStack| + (|sequence| - |remaining|) == j
      invariant j <= sequenceSize ==>
        (StackPermutable(sequence) <==> CanFinish(checkStack, j, sequenceSize, remaining))
      invariant j > sequenceSize ==> !StackPermutable(sequence) && checkStack != []
      decreases |remaining| + sequenceSize + 1 - j
    {
      if checkStack != [] && remaining[0] == checkStack[|checkStack| - 1] {
        PopIsForced(checkStack, j, sequenceSize, remaining);
        checkStack := checkStack[..|checkStack| - 1];
        remaining := remaining[1..];
      } else {
        PushIsForced(checkStack, j, sequenceSize, remaining);
        checkStack := checkStack + [j];
        j := j + 1;
      }
    }
    if remaining == [] && j <= sequenceSize {
      FinishIsForced(checkStack, j, sequenceSize);
    }
    possible := checkStack == [];
    if possible {
      PermutableIsPermutation(sequence);
    }
  }

  /** The integers lo, lo+1, ..., hi-1 in order. */
  function Range(lo: int, hi: int): (r: seq<int>)
    ensures |r| == if lo < hi then hi - lo else 0
    decreases hi - lo
  {
    if lo >= hi then [] else [lo] + Range(lo + 1, hi)
  }

  /** A run outputs exactly what was on the stack plus what was still to be pushed. */
  lemma {:induction false} ProducedValues(ops: seq<Op>, stack: seq<int>, next: int, n: int, out: seq<int>)
    requires Produces(ops, stack, next, n, out)
    ensures multiset(out) == multiset(stack) + multiset(Range(next, n))
    decreases |ops|
  {
    if ops == [] {
    } else if ops[0] == Push {
      assert next < n && Produces(ops[1..], stack + [next], next + 1, n, out);
      ProducedValues(ops[1..], stack + [next], next + 1, n, out);
      assert multiset(stack + [next]) == multiset(stack) + multiset{next};
      assert Range(next, n) == [next] + Range(next + 1, n);
      assert multiset(Range(next, n)) == multiset{next} + multiset(Range(next + 1, n));
    } else {
      var top := stack[|stack| - 1];
      var below := stack[..|stack| - 1];
      assert Produces(ops[1..], below, next, n, out[1..]);
      ProducedValues(ops[1..], below, next, n, out[1..]);
      assert stack == below + [top];
      assert multiset(stack) == multiset(below) + multiset{top};
      assert out == [top] + out[1..];
      assert multiset(out) == multiset{top} + multiset(out[1..]);
    }
  }

  /** Every stack-producible sequence is a permutation of 0..N-1. */
  lemma PermutableIsPermutation(p: seq<int>)
    requires StackPermutable(p)
    ensures multiset(p) == multiset(Range(0, |p|))
  {
    var ops :| Produces(ops, [], 0, |p|, p);
    ProducedValues(ops, [], 0, |p|, p);
  }

  /** The empty sequence is always possible. */
  lemma EmptyIsPermutable()
    ensures StackPermutable([])
  {
    assert Produces([], [], 0, 0, []);
  }

  // ---------------------------------------------------------------------
  // The comparison as written: == on two boxed Integers.
  // ---------------------------------------------------------------------

  /**
   * Java's == on two Integer objects boxed separately (the queue's by the
   * caller, the stack's by push(j++)): the same object, hence true, only
   * for equal values inside the Integer cache, -128..127.
   */
  predicate BoxedSame(x: int, y: int)
  {
    x == y && -128 <= x <= 127
  }

  /**
   * The loop of isPermutationPossible as written, comparing the queue's
   * head with the stack's top by reference: whether the stack ends empty.
   * Every pop it makes is a genuine pop, so what it accepts can be
   * produced (from a state where the pops still due match the stack plus
   * the pushes still due); its error is to reject, never to accept.
   */
  function GreedyAsWritten(stack: seq<int>, j: int, rest: seq<int>, n: int): (accepted: bool)
    requires j <= n + 1
    ensures accepted && j <= n && |rest| == |stack| + n - j ==> CanFinish(stack, j, n, rest)
    decreases |rest|, n + 1 - j
  {
    if rest == [] || j > n then
      FinishIsForced(stack, j, n);
      stack == []
    else if stack != [] && BoxedSame(rest[0], stack[|stack| - 1]) then
      PopExtends(stack, j, n, rest);
      GreedyAsWritten(stack[..|stack| - 1], j, rest[1..], n)
    else
      PushExtends(stack, j, n, rest);
      GreedyAsWritten(stack + [j], j + 1, rest, n)
  }

  /** As written, a queue whose head is at least 128 is never popped, so it is rejected. */
  lemma {:induction false} LargeHeadIsRejected(stack: seq<int>, j: int, rest: seq<int>, n: int)
    requires j <= n && rest != [] && rest[0] > 127
    ensures !GreedyAsWritten(stack, j, rest, n)
    decreases n - j
  {
    if j + 1 <= n {
      LargeHeadIsRejected(stack + [j], j + 1, rest, n);
    }
  }

  /** The reverse of a sequence. */
  function Reversed(s: seq<int>): (r: seq<int>)
    ensures |r| == |s|
  {
    if s == [] then [] else [s[|s| - 1]] + Reversed(s[..|s| - 1])
  }

  /** k copies of one step. */
  function Repeat(op: Op, k: nat): (r: seq<Op>)
    ensures |r| == k && forall i :: 0 <= i < k ==> r[i] == op
  {
    if k == 0 then [] else [op] + Repeat(op, k - 1)
  }

  /** With nothing left to push, popping everything outputs the stack from the top down. */
  lemma {:induction false} PopAll(stack: seq<int>, n: int)
    ensures Produces(Repeat(Pop, |stack|), stack, n, n, Reversed(stack))
    decreases |stack|
  {
    if stack != [] {
      PopAll(stack[..|stack| - 1], n);
      assert Repeat(Pop, |stack|)[1..] == Repeat(Pop, |stack| - 1);
    }
  }

  /** Pushing everything that is left and then popping everything outputs it all reversed. */
  lemma {:induction false} PushAllThenPopAll(stack: seq<int>, next: int, n: int)
    requires next <= n
    ensures Produces(Repeat(Push, n - next) + Repeat(Pop, |stack| + n - next), stack, next, n,
                     Reversed(stack + Range(next, n)))
    decreases n - next
  {
    if next == n {
      assert Repeat(Push, 0) + Repeat(Pop, |stack|) == Repeat(Pop, |stack|);
      assert stack + Range(next, n) == stack;
      PopAll(stack, n);
    } else {
      PushAllThenPopAll(stack + [next], next + 1, n);
      PushStep(stack, next, n);
    }
  }

  /** The sequence identities behind one push step of PushAllThenPopAll. */
  lemma PushStep(stack: seq<int>, next: int, n: int)
    requires next < n
    ensures (Repeat(Push, n - next) + Repeat(Pop, |stack| + n - next))[1..]
            == Repeat(Push, n - (next + 1)) + Repeat(Pop, |stack + [next]| + n - (next + 1))
    ensures stack + Range(next, n) == (stack + [next]) + Range(next + 1, n)
  {
    assert Repeat(Push, n - next) == [Push] + Repeat(Push, n - next - 1);
  }

  /** n-1, n-2, ..., 0. */
  function Descending(n: nat): (r: seq<int>)
    ensures |r| == n
  {
    if n == 0 then [] else [n - 1] + Descending(n - 1)
  }

  lemma {:induction false} ReversedRange(n: nat)
    ensures Reversed(Range(0, n)) == Descending(n)
  {
    if n > 0 {
      RangeSplitsAtEnd(0, n);
      assert Range(0, n)[..n - 1] == Range(0, n - 1);
      ReversedRange(n - 1);
    }
  }

  lemma {:induction false} RangeSplitsAtEnd(lo: int, hi: int)
    requires lo < hi
    ensures Range(lo, hi) == Range(lo, hi - 1) + [hi - 1]
    decreases hi - lo
  {
    if lo + 1 < hi {
      RangeSplitsAtEnd(lo + 1, hi);
    }
  }

  /**
   * For N >= 129 the descending sequence N-1, ..., 0 is produced by pushing
   * everything and popping everything, yet the comparison as written
   * rejects it, while the value comparison accepts it.
   */
  lemma BoxedComparisonRejectsDescending(n: nat)
    requires n >= 129
    ensures StackPermutable(Descending(n))
    ensures !GreedyAsWritten([], 0, Descending(n), n)
  {
    PushAllThenPopAll([], 0, n);
    assert [] + Range(0, n) == Range(0, n);
    ReversedRange(n);
    LargeHeadIsRejected([], 0, Descending(n), n);
  }
}
