/**
 * ThreeSumFaster (Ch1/1_3/ThreeSumFaster.java): sort the array in place,
 * reject duplicates, then count the zero-sum triples with one two-pointer
 * scan per first index.
 *
 * Integers are mathematical: Java's 32-bit overflow in -(a[front] + a[i])
 * is not modelled.
 */
module ThreeSum {
  import opened Outcomes
  import Sorting

  /** Every pair of entries is in ascending order. */
  ghost predicate Ascending(s: seq<int>)
  {
    forall p, q :: 0 <= p < q < |s| ==> s[p] <= s[q]
  }

  /** Every pair of entries is in strictly ascending order. */
  ghost predicate StrictlyAscending(s: seq<int>)
  {
    forall p, q :: 0 <= p < q < |s| ==> s[p] < s[q]
  }

  /** Some entry equals the one before it. */
  ghost predicate HasAdjacentEqual(s: seq<int>)
  {
    exists i :: 1 <= i < |s| && s[i] == s[i - 1]
  }

  /** Some value occurs at two different positions. */
  ghost predicate HasRepeat(s: seq<int>)
  {
    exists p, q :: 0 <= p < q < |s| && s[p] == s[q]
  }

  /** In an ascending sequence, a repeated value shows as two equal neighbours. */
  lemma AdjacentEqualIffRepeat(s: seq<int>)
    requires Ascending(s)
    ensures HasAdjacentEqual(s) <==> HasRepeat(s)
  {
    if HasRepeat(s) {
      var p, q :| 0 <= p < q < |s| && s[p] == s[q];
      assert s[p] <= s[p + 1] <= s[q];
      assert s[p + 1] == s[p + 1 - 1];
    }
    if HasAdjacentEqual(s) {
      var i :| 1 <= i < |s| && s[i] == s[i - 1];
      assert 0 <= i - 1 < i < |s|;
    }
  }

  /** An ascending sequence without equal neighbours is strictly ascending. */
  lemma NoAdjacentEqualIsStrict(s: seq<int>)
    requires Ascending(s) && !HasAdjacentEqual(s)
    ensures StrictlyAscending(s)
  {
    forall p, q | 0 <= p < q < |s| ensures s[p] < s[q] {
      assert s[q] != s[q - 1];
    }
  }

  /** A value repeats exactly when some value occurs more than once in the multiset. */
  lemma {:induction false} RepeatIffMultiplicity(s: seq<int>)
    ensures HasRepeat(s) <==> exists x :: multiset(s)[x] > 1
  {
    if s == [] {
    } else {
      var h, t := s[0], s[1..];
      assert s == [h] + t;
      RepeatIffMultiplicity(t);
      if HasRepeat(s) {
        var p, q :| 0 <= p < q < |s| && s[p] == s[q];
        if p == 0 {
          assert t[q - 1] == h;
          assert multiset(s)[h] > 1;
        } else {
          assert t[p - 1] == t[q - 1];
          assert HasRepeat(t);
          var x :| multiset(t)[x] > 1;
          assert multiset(s)[x] > 1;
        }
      }
      if exists x :: multiset(s)[x] > 1 {
        var x :| multiset(s)[x] > 1;
        if x == h {
          assert x in multiset(t);
          var q :| 0 <= q < |t| && t[q] == x;
          assert s[0] == s[q + 1];
        } else {
          assert multiset(t)[x] > 1;
          var p, q :| 0 <= p < q < |t| && t[p] == t[q];
          assert s[p + 1] == s[q + 1];
        }
      }
    }
  }

  /** Two arrangements of the same multiset agree on whether a value repeats. */
  lemma RepeatIsPermutationInvariant(s: seq<int>, t: seq<int>)
    requires multiset(s) == multiset(t)
    ensures HasRepeat(s) <==> HasRepeat(t)
  {
    RepeatIffMultiplicity(s);
    RepeatIffMultiplicity(t);
  }

  // ---------------------------------------------------------------------
  // The number of zero-sum index triples, as nested sums over i < j < k.
  // ---------------------------------------------------------------------

  /** The number of k with j < k < hi and s[i] + s[j] + s[k] == 0. */
  function Thirds(s: seq<int>, i: nat, j: nat, hi: nat): nat
    requires i < |s| && j < |s| && hi <= |s|
    decreases hi
  {
    if hi <= j + 1 then 0
    else Thirds(s, i, j, hi - 1) + (if s[i] + s[j] + s[hi - 1] == 0 then 1 else 0)
  }

  /** The number of pairs (j, k) with lo <= j < k < hi and s[i] + s[j] + s[k] == 0. */
  function Pairs(s: seq<int>, i: nat, lo: nat, hi: nat): nat
    requires i < |s| && lo <= hi <= |s|
    decreases hi - lo
  {
    if lo == hi then 0 else Thirds(s, i, lo, hi) + Pairs(s, i, lo + 1, hi)
  }

  /** The number of triples i < j < k < |s| with i < hi and a zero sum. */
  function TriplesBelow(s: seq<int>, hi: nat): nat
    requires hi <= |s|
  {
    if hi == 0 then 0 else TriplesBelow(s, hi - 1) + Pairs(s, hi - 1, hi, |s|)
  }

  /** The number of index triples i < j < k with s[i] + s[j] + s[k] == 0. */
  function ZeroTriples(s: seq<int>): nat
  {
    TriplesBelow(s, |s|)
  }

  /** No third index up to hi completes a zero sum when the largest candidate is too small. */
  lemma {:induction false} ThirdsNoneBelow(s: seq<int>, i: nat, j: nat, hi: nat)
    requires Ascending(s)
    requires i < |s| && j < hi <= |s|
    requires s[i] + s[j] + s[hi - 1] < 0
    ensures Thirds(s, i, j, hi) == 0
    decreases hi
  {
    if hi > j + 1 {
      if hi - 1 > j + 1 {
        assert s[hi - 2] <= s[hi - 1];
        ThirdsNoneBelow(s, i, j, hi - 1);
      }
    }
  }

  /** A sum that is too large at back rules back out for every front in [lo, back]. */
  lemma {:induction false} DropBack(s: seq<int>, i: nat, front: nat, lo: nat, back: nat)
    requires Ascending(s)
    requires i < front <= lo <= back < |s|
    requires s[i] + s[front] + s[back] > 0
    ensures Pairs(s, i, lo, back + 1) == Pairs(s, i, lo, back)
    decreases back - lo
  {
    if lo < back {
      assert s[front] <= s[lo];
      DropBack(s, i, front, lo + 1, back);
    }
  }

  /** A sum that is too small at front rules front out. */
  lemma DropFront(s: seq<int>, i: nat, front: nat, back: nat)
    requires Ascending(s)
    requires i < front < back < |s|
    requires s[i] + s[front] + s[back] < 0
    ensures Pairs(s, i, front, back + 1) == Pairs(s, i, front + 1, back + 1)
  {
    ThirdsNoneBelow(s, i, front, back + 1);
  }

  /** With distinct entries, a zero sum at (front, back) is the only one using front. */
  lemma MatchAtFront(s: seq<int>, i: nat, front: nat, back: nat)
    requires StrictlyAscending(s)
    requires i < front < back < |s|
    requires s[i] + s[front] + s[back] == 0
    ensures Pairs(s, i, front, back + 1) == 1 + Pairs(s, i, front + 1, back + 1)
  {
    if back > front + 1 {
      ThirdsNoneBelow(s, i, front, back);
    }
  }

  // ---------------------------------------------------------------------
  // The operations.
  // ---------------------------------------------------------------------

  /**
   * Stands in for java.util.Arrays.sort, whose algorithm is not part of
   * this model: only its postcondition (an ascending permutation) matters.
   */
  method Sort(a: array<int>)
    modifies a
    ensures Ascending(a[..])
    ensures multiset(a[..]) == multiset(old(a[..]))
  {
    var i := 1;
    while i < a.Length
      invariant 1 <= i || a.Length == 0
      invariant forall p, q :: 0 <= p < q < i && q < a.Length ==> a[p] <= a[q]
      invariant multiset(a[..]) == multiset(old(a[..]))
    {
      var j := i;
      while j > 0 && a[j - 1] > a[j]
        invariant 0 <= j <= i < a.Length
        invariant forall p, q :: 0 <= p < q <= i && p != j && q != j ==> a[p] <= a[q]
        invariant forall q :: j < q <= i ==> a[j] < a[q]
        invariant multiset(a[..]) == multiset(old(a[..]))
      {
        Sorting.Exch(a, j - 1, j);
        j := j - 1;
      }
      i := i + 1;
    }
  }

  /** containsDuplicates(a): the early-exit scan for two equal neighbours. */
  method ContainsDuplicates(a: array<int>) returns (dup: bool)
    ensures dup <==> HasAdjacentEqual(a[..])
    ensures Ascending(a[..]) ==> (dup <==> HasRepeat(a[..]))
  {
    dup := false;
    var i := 1;
    while i < a.Length
      invariant 1 <= i
      invariant forall k :: 1 <= k < i && k < a.Length ==> a[k] != a[k - 1]
    {
      if a[i] == a[i - 1] {
        dup := true;
        break;
      }
      i := i + 1;
    }
    if Ascending(a[..]) {
      AdjacentEqualIffRepeat(a[..]);
    }
  }

  /**
   * count(a): sorts a in place; throws IllegalArgumentException when a
   * value repeats, and otherwise returns the number of zero-sum triples.
   */
  method Count(a: array<int>) returns (r: Result<nat>)
    modifies a
    ensures Ascending(a[..])
    ensures multiset(a[..]) == multiset(old(a[..]))
    ensures r.Err? <==> HasRepeat(old(a[..]))
    ensures r.Err? ==> r.error == IllegalArgument
    ensures r.Ok? ==> r.value == ZeroTriples(a[..])
  {
    Sort(a);
    RepeatIsPermutationInvariant(a[..], old(a[..]));
    var dup := ContainsDuplicates(a);
    if dup {
      return Err(IllegalArgument);
    }
    NoAdjacentEqualIsStrict(a[..]);
    var count := CountSorted(a);
    return Ok(count);
  }

  /**
   * The two nested loops of count(a), run on an array already sorted
   * without repeats: for each i, two pointers close in from both ends.
   */
  method CountSorted(a: array<int>) returns (count: nat)
    requires StrictlyAscending(a[..])
    ensures count == ZeroTriples(a[..])
  {
    var n := a.Length;
    ghost var s := a[..];
    count := 0;
    var i := 0;
    while i < n
      invariant 0 <= i <= n
      invariant a[..] == s
      invariant count == TriplesBelow(s, i)
    {
      var front, back := i + 1, n - 1;
      while front < back
        invariant a[..] == s
        invariant i < front <= back + 1 <= n
        invariant count + Pairs(s, i, front, back + 1) == TriplesBelow(s, i + 1)
        decreases back - front
      {
        if back == i {
          back := back - 1;
        } else if front == i {
          front := front + 1;
        } else {
          if a[back] > -(a[front] + a[i]) {
            DropBack(s, i, front, front, back);
            back := back - 1;
          } else if a[back] < -(a[front] + a[i]) {
            DropFront(s, i, front, back);
            front := front + 1;
          } else {
            MatchAtFront(s, i, front, back);
            count := count + 1;
            front := front + 1;
          }
        }
      }
      i := i + 1;
    }
  }
}
