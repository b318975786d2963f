/**
 * The sorting helpers of Ch2/Example.java: less, exch and isSorted.
 *
 * The Java helpers are generic over T extends Comparable<T>; here the
 * comparison is the function `compare`, standing for v.compareTo(w).
 */
module Sorting {

  /** The sign of an integer, as the Comparable contract speaks of it. */
  function Sign(x: int): int
  {
    if x < 0 then -1 else if x == 0 then 0 else 1
  }

  /**
   * The general contract of Comparable.compareTo: sgn(x.compareTo(y)) ==
   * -sgn(y.compareTo(x)), transitivity of ">", and elements that compare
   * equal compare the same way to everything else.
   */
  ghost predicate ComparableContract<T(!new)>(compare: (T, T) -> int)
  {
    && (forall x, y :: Sign(compare(x, y)) == -Sign(compare(y, x)))
    && (forall x, y, z :: compare(x, y) > 0 && compare(y, z) > 0 ==> compare(x, z) > 0)
    && (forall x, y, z :: compare(x, y) == 0 ==> Sign(compare(x, z)) == Sign(compare(y, z)))
  }

  /**
   * less(v, w): v.compareTo(w) < 0. Where compareTo is antisymmetric on
   * the pair, as the Comparable contract demands, this is seen the same
   * way from w: w.compareTo(v) > 0.
   */
  predicate Less<T>(compare: (T, T) -> int, v: T, w: T): (r: bool)
    ensures Sign(compare(v, w)) == -Sign(compare(w, v)) ==> (r <==> compare(w, v) > 0)
  {
    compare(v, w) < 0
  }

  /** Under the Comparable contract, Less is a strict order. */
  lemma LessIsStrictOrder<T(!new)>(compare: (T, T) -> int, x: T, y: T, z: T)
    requires ComparableContract(compare)
    ensures !Less(compare, x, x)
    ensures Less(compare, x, y) ==> !Less(compare, y, x)
    ensures Less(compare, x, y) && Less(compare, y, z) ==> Less(compare, x, z)
  {
    assert Sign(compare(x, x)) == -Sign(compare(x, x));
    assert Sign(compare(x, y)) == -Sign(compare(y, x));
    assert Sign(compare(y, z)) == -Sign(compare(z, y));
    assert Sign(compare(x, z)) == -Sign(compare(z, x));
    if Less(compare, x, y) && Less(compare, y, z) {
      assert compare(z, y) > 0 && compare(y, x) > 0;
    }
  }

  /** Under the Comparable contract, "not less" is transitive. */
  lemma NotLessTransitive<T(!new)>(compare: (T, T) -> int, x: T, y: T, z: T)
    requires ComparableContract(compare)
    requires !Less(compare, y, x) && !Less(compare, z, y)
    ensures !Less(compare, z, x)
  {
    assert Sign(compare(x, y)) == -Sign(compare(y, x));
    assert Sign(compare(y, z)) == -Sign(compare(z, y));
    if compare(y, x) == 0 {
      assert Sign(compare(x, z)) == Sign(compare(y, z));
      assert Sign(compare(x, z)) == -Sign(compare(z, x));
    } else if compare(z, y) == 0 {
      assert Sign(compare(z, x)) == Sign(compare(y, x));
    } else {
      assert compare(z, y) > 0 && compare(y, x) > 0;
    }
  }

  /** No entry is less than the one before it: what isSorted checks. */
  ghost predicate NoDescent<T>(compare: (T, T) -> int, s: seq<T>)
  {
    forall i :: 1 <= i < |s| ==> !Less(compare, s[i], s[i - 1])
  }

  /** Every pair of entries is in order. */
  ghost predicate InOrder<T>(compare: (T, T) -> int, s: seq<T>)
  {
    forall i, j :: 0 <= i < j < |s| ==> !Less(compare, s[j], s[i])
  }

  /**
   * Under the Comparable contract, checking adjacent entries, as isSorted
   * does, decides whether every pair of entries is in order.
   */
  lemma {:induction false} NoDescentIffInOrder<T(!new)>(compare: (T, T) -> int, s: seq<T>)
    requires ComparableContract(compare)
    ensures NoDescent(compare, s) <==> InOrder(compare, s)
  {
    if NoDescent(compare, s) {
      forall i, j | 0 <= i < j < |s| ensures !Less(compare, s[j], s[i]) {
        NoDescentReaches(compare, s, i, j);
      }
    }
  }

  lemma {:induction false} NoDescentReaches<T(!new)>(compare: (T, T) -> int, s: seq<T>, i: nat, j: nat)
    requires ComparableContract(compare)
    requires NoDescent(compare, s)
    requires i <= j < |s|
    ensures !Less(compare, s[j], s[i])
    decreases j - i
  {
    if i == j {
      LessIsStrictOrder(compare, s[i], s[i], s[i]);
    } else {
      NoDescentReaches(compare, s, i, j - 1);
      NotLessTransitive(compare, s[i], s[j - 1], s[j]);
    }
  }

  /** isSorted(a): the early-exit scan for an entry less than its predecessor. */
  method IsSorted<T>(compare: (T, T) -> int, a: array<T>) returns (sorted: bool)
    ensures sorted <==> NoDescent(compare, a[..])
  {
    var i := 1;
    while i < a.Length
      invariant 1 <= i
      invariant forall k :: 1 <= k < i && k < a.Length ==> !Less(compare, a[k], a[k - 1])
    {
      if Less(compare, a[i], a[i - 1]) {
        return false;
      }
      i := i + 1;
    }
    return true;
  }

  /** The sequence with the entries at i and j exchanged. */
  function Swapped<T>(s: seq<T>, i: nat, j: nat): (r: seq<T>)
    requires i < |s| && j < |s|
    ensures |r| == |s| && r[i] == s[j] && r[j] == s[i]
    ensures forall k :: 0 <= k < |s| && k != i && k != j ==> r[k] == s[k]
  {
    s[i := s[j]][j := s[i]]
  }

  /** Exchanging preserves the multiset of entries. */
  lemma SwappedIsPermutation<T>(s: seq<T>, i: nat, j: nat)
    requires i < |s| && j < |s|
    ensures multiset(Swapped(s, i, j)) == multiset(s)
  {
  }

  /** exch(a, i, j): swaps a[i] and a[j] in place. */
  method Exch<T>(a: array<T>, i: int, j: int)
    requires 0 <= i < a.Length && 0 <= j < a.Length
    modifies a
    ensures a[..] == Swapped(old(a[..]), i, j)
    ensures multiset(a[..]) == multiset(old(a[..]))
  {
    var t := a[i];
    a[i] := a[j];
    a[j] := t;
    SwappedIsPermutation(old(a[..]), i, j);
  }
}
