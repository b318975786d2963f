/**
 * Weighted quick-union by height, without path compression
 * (Ch1/1_3/WeightedByHeightUF.java).
 *
 * The forest lives in the arrays id (parent links) and height. Two ghost
 * sequences make its shape explicit: root[i] is the root reached from i by
 * following id links, and dist[i] the number of links followed. Because
 * dist strictly decreases along every link, the id links have no cycle, so
 * find terminates.
 */
module UnionFind {

  function Pow2(h: nat): (r: nat)
    ensures r >= 1
  {
    if h == 0 then 1 else 2 * Pow2(h - 1)
  }

  lemma {:induction false} Pow2Monotone(a: nat, b: nat)
    requires a <= b
    ensures Pow2(a) <= Pow2(b)
    decreases b
  {
    if a < b {
      Pow2Monotone(a, b - 1);
    }
  }

  // ---------------------------------------------------------------------
  // The forest, as sequences.
  // ---------------------------------------------------------------------

  /**
   * id is a forest over the sites 0..|id|-1: root[i] is a site that links
   * to itself, reached from i after dist[i] links.
   */
  ghost predicate Forest(id: seq<int>, root: seq<int>, dist: seq<nat>)
  {
    && |root| == |id| && |dist| == |id|
    && (forall i :: 0 <= i < |id| ==> 0 <= id[i] < |id| && 0 <= root[i] < |id|)
    && (forall i :: 0 <= i < |id| ==> SiteLinked(id, root, dist, i))
  }

  /**
   * Site i links inside the forest: a root links to itself at distance 0,
   * and any other site shares its parent's root one link further away.
   */
  ghost predicate SiteLinked(id: seq<int>, root: seq<int>, dist: seq<nat>, i: int)
    requires |root| == |id| && |dist| == |id| && 0 <= i < |id|
  {
    && 0 <= id[i] < |id|
    && 0 <= root[i] < |id| && id[root[i]] == root[i]
    && (id[i] == i ==> root[i] == i && dist[i] == 0)
    && (id[i] != i ==> root[i] == root[id[i]] && dist[i] == dist[id[i]] + 1)
  }

  /** The sites that link to themselves: one per component. */
  ghost function Roots(id: seq<int>): set<int>
  {
    set r | 0 <= r < |id| && id[r] == r
  }

  /** The sites of the tree rooted at r. */
  ghost function Members(root: seq<int>, r: int): set<int>
  {
    set i | 0 <= i < |root| && root[i] == r
  }

  /** h is the maximum number of links from any site of r's tree to r. */
  ghost predicate IsTreeHeight(root: seq<int>, dist: seq<nat>, r: int, h: int)
  {
    && |dist| == |root|
    && (forall i :: 0 <= i < |root| && root[i] == r ==> dist[i] <= h)
    && (exists i :: 0 <= i < |root| && root[i] == r && dist[i] == h)
  }

  /**
   * The invariant of the structure: a forest, each root's height entry is
   * its tree's height, a tree of height h has at least 2^h sites, and count
   * is the number of roots.
   */
  ghost predicate ForestInvariant(id: seq<int>, height: seq<int>, root: seq<int>, dist: seq<nat>, count: int)
  {
    && |height| == |id|
    && Forest(id, root, dist)
    && (forall r {:trigger TreeFacts(height, root, dist, r)} ::
          0 <= r < |id| && id[r] == r ==> TreeFacts(height, root, dist, r))
    && count == |Roots(id)|
  }

  /** The height entry of root r is its tree's height, and the tree has at least 2^height sites. */
  ghost predicate TreeFacts(height: seq<int>, root: seq<int>, dist: seq<nat>, r: int)
  {
    && 0 <= r < |height|
    && IsTreeHeight(root, dist, r, height[r])
    && 0 <= height[r]
    && Pow2(height[r]) <= |Members(root, r)|
  }

  /** root with the tree of loser re-rooted at winner. */
  ghost function Relinked(root: seq<int>, loser: int, winner: int): seq<int>
  {
    seq(|root|, i requires 0 <= i < |root| => if root[i] == loser then winner else root[i])
  }

  /** dist with every site of loser's tree one link further from its root. */
  ghost function Deepened(root: seq<int>, dist: seq<nat>, loser: int): seq<nat>
    requires |dist| == |root|
  {
    seq(|dist|, i requires 0 <= i < |dist| => if root[i] == loser then dist[i] + 1 else dist[i])
  }

  /** A set of sites below n has at most n elements. */
  lemma {:induction false} SitesAtMost(s: set<int>, n: nat)
    requires forall x :: x in s ==> 0 <= x < n
    ensures |s| <= n
    decreases n
  {
    if n == 0 {
      assert forall x :: x !in s;
      assert s == {};
    } else {
      var s' := s - {n - 1};
      SitesAtMost(s', n - 1);
      if n - 1 in s {
        assert s == s' + {n - 1};
      } else {
        assert s == s';
      }
    }
  }

  /** A set holding every site below n has at least n elements. */
  lemma {:induction false} SitesAtLeast(s: set<int>, n: nat)
    requires forall x :: 0 <= x < n ==> x in s
    ensures |s| >= n
    decreases n
  {
    if n > 0 {
      var s' := s - {n - 1};
      SitesAtLeast(s', n - 1);
      assert s == s' + {n - 1};
    }
  }

  /** Linking one root under another keeps id a forest. */
  lemma LinkKeepsForest(id: seq<int>, root: seq<int>, dist: seq<nat>, loser: int, winner: int)
    requires Forest(id, root, dist)
    requires 0 <= loser < |id| && id[loser] == loser
    requires 0 <= winner < |id| && id[winner] == winner
    requires loser != winner
    ensures Forest(id[loser := winner], Relinked(root, loser, winner), Deepened(root, dist, loser))
  {
    var id', root', dist' := id[loser := winner], Relinked(root, loser, winner), Deepened(root, dist, loser);
    forall i | 0 <= i < |id'|
      ensures SiteLinked(id', root', dist', i)
    {
      assert SiteLinked(id, root, dist, i);
      assert SiteLinked(id, root, dist, winner);
      if i != loser && id[i] != i {
        assert SiteLinked(id, root, dist, id[i]);
      }
    }
  }

  /** Linking one root under another removes exactly that root. */
  lemma LinkRemovesRoot(id: seq<int>, loser: int, winner: int)
    requires 0 <= loser < |id| && id[loser] == loser
    requires 0 <= winner < |id| && loser != winner
    ensures Roots(id[loser := winner]) == Roots(id) - {loser}
    ensures |Roots(id[loser := winner])| == |Roots(id)| - 1
  {
    var id' := id[loser := winner];
    forall r ensures r in Roots(id') <==> r in Roots(id) - {loser} {
      if 0 <= r < |id| {
        assert id'[r] == if r == loser then winner else id[r];
      }
    }
    assert loser in Roots(id);
  }

  /** A tree other than the two linked ones keeps its sites and its height. */
  lemma OtherTreeUnchanged(root: seq<int>, dist: seq<nat>, loser: int, winner: int, r: int, h: int)
    requires r != loser && r != winner
    requires IsTreeHeight(root, dist, r, h)
    ensures Members(Relinked(root, loser, winner), r) == Members(root, r)
    ensures IsTreeHeight(Relinked(root, loser, winner), Deepened(root, dist, loser), r, h)
  {
    var root', dist' := Relinked(root, loser, winner), Deepened(root, dist, loser);
    var w :| 0 <= w < |root| && root[w] == r && dist[w] == h;
    assert root'[w] == r && dist'[w] == h;
  }

  /** The merged tree holds the sites of both trees. */
  lemma MergedMembers(root: seq<int>, loser: int, winner: int)
    requires loser != winner
    ensures Members(Relinked(root, loser, winner), winner) == Members(root, loser) + Members(root, winner)
    ensures |Members(Relinked(root, loser, winner), winner)| == |Members(root, loser)| + |Members(root, winner)|
  {
    assert Members(root, loser) * Members(root, winner) == {};
  }

  /**
   * Linking the root loser under the root winner, where loser's tree is
   * no higher, keeps the forest invariant with one component fewer,
   * provided the winner's height grows by one exactly on a tie.
   */
  lemma LinkKeepsInvariant(id: seq<int>, height: seq<int>, root: seq<int>, dist: seq<nat>, count: int,
                           loser: int, winner: int, height': seq<int>)
    requires ForestInvariant(id, height, root, dist, count)
    requires 0 <= loser < |id| && id[loser] == loser
    requires 0 <= winner < |id| && id[winner] == winner
    requires loser != winner && height[loser] <= height[winner]
    requires |height'| == |height|
    requires height'[winner] == if height[loser] == height[winner] then height[winner] + 1 else height[winner]
    requires forall r :: 0 <= r < |height| && r != loser && r != winner ==> height'[r] == height[r]
    ensures ForestInvariant(id[loser := winner], height', Relinked(root, loser, winner),
                            Deepened(root, dist, loser), count - 1)
  {
    var id', root', dist' := id[loser := winner], Relinked(root, loser, winner), Deepened(root, dist, loser);
    LinkKeepsForest(id, root, dist, loser, winner);
    LinkRemovesRoot(id, loser, winner);
    forall r | 0 <= r < |id'| && id'[r] == r
      ensures TreeFacts(height', root', dist', r)
    {
      assert id[r] == r;
      if r == winner {
        WinnerFacts(height, root, dist, loser, winner, height');
      } else {
        assert TreeFacts(height, root, dist, r);
        OtherTreeUnchanged(root, dist, loser, winner, r, height[r]);
      }
    }
  }

  /** The merged tree satisfies the height and size facts. */
  lemma WinnerFacts(height: seq<int>, root: seq<int>, dist: seq<nat>, loser: int, winner: int, height': seq<int>)
    requires TreeFacts(height, root, dist, loser) && TreeFacts(height, root, dist, winner)
    requires loser != winner && height[loser] <= height[winner]
    requires |height'| == |height|
    requires height'[winner] == if height[loser] == height[winner] then height[winner] + 1 else height[winner]
    ensures TreeFacts(height', Relinked(root, loser, winner), Deepened(root, dist, loser), winner)
  {
    WinnerTree(root, dist, loser, winner, height[loser], height[winner], height'[winner]);
    MergedMembers(root, loser, winner);
    if height[loser] == height[winner] {
      assert Pow2(height'[winner]) == Pow2(height[loser]) + Pow2(height[winner]);
    }
  }

  /** The merged tree's height is the winner's, or one more on a tie. */
  lemma WinnerTree(root: seq<int>, dist: seq<nat>, loser: int, winner: int, hl: int, hw: int, h: int)
    requires loser != winner && hl <= hw
    requires IsTreeHeight(root, dist, loser, hl) && IsTreeHeight(root, dist, winner, hw)
    requires h == if hl == hw then hw + 1 else hw
    ensures IsTreeHeight(Relinked(root, loser, winner), Deepened(root, dist, loser), winner, h)
  {
    var root', dist' := Relinked(root, loser, winner), Deepened(root, dist, loser);
    if hl == hw {
      var w :| 0 <= w < |root| && root[w] == loser && dist[w] == hl;
      assert root'[w] == winner && dist'[w] == h;
    } else {
      var w :| 0 <= w < |root| && root[w] == winner && dist[w] == hw;
      assert root'[w] == winner && dist'[w] == h;
    }
  }

  /** The root of every site is fixed by the id links alone. */
  lemma RootsAreDetermined(id: seq<int>, root: seq<int>, dist: seq<nat>, root2: seq<int>, dist2: seq<nat>)
    requires Forest(id, root, dist) && Forest(id, root2, dist2)
    ensures root == root2 && dist == dist2
  {
    forall i | 0 <= i < |id| ensures root[i] == root2[i] && dist[i] == dist2[i] {
      SameRootAt(id, root, dist, root2, dist2, i);
    }
  }

  lemma {:induction false} SameRootAt(id: seq<int>, root: seq<int>, dist: seq<nat>, root2: seq<int>, dist2: seq<nat>, i: int)
    requires Forest(id, root, dist) && Forest(id, root2, dist2)
    requires 0 <= i < |id|
    ensures root[i] == root2[i] && dist[i] == dist2[i]
    decreases dist[i]
  {
    assert SiteLinked(id, root, dist, i) && SiteLinked(id, root2, dist2, i);
    if id[i] != i {
      SameRootAt(id, root, dist, root2, dist2, id[i]);
    }
  }

  /** N isolated sites, each its own root of height 0, form N components. */
  lemma InitialInvariant(n: nat)
    ensures ForestInvariant(seq(n, i => i), seq(n, i => 0), seq(n, i => i), seq(n, i => 0), n)
  {
    var id: seq<int> := seq(n, i => i);
    var root: seq<int> := seq(n, i => i);
    var dist: seq<nat> := seq(n, i => 0);
    forall i | 0 <= i < n ensures SiteLinked(id, root, dist, i) {
      assert id[i] == i && root[i] == i && dist[i] == 0;
    }
    var height: seq<int> := seq(n, i => 0);
    forall r | 0 <= r < n && id[r] == r ensures TreeFacts(height, root, dist, r) {
      assert root[r] == r && dist[r] == 0;
      assert r in Members(root, r);
    }
    SitesAtMost(Roots(id), n);
    SitesAtLeast(Roots(id), n);
  }

  /** There are at most N components, and at least one when N >= 1. */
  lemma CountBounds(id: seq<int>, height: seq<int>, root: seq<int>, dist: seq<nat>, count: int)
    requires ForestInvariant(id, height, root, dist, count)
    ensures count <= |id|
    ensures |id| >= 1 ==> count >= 1
  {
    SitesAtMost(Roots(id), |id|);
    if |id| >= 1 {
      assert SiteLinked(id, root, dist, 0);
      assert root[0] in Roots(id);
    }
  }

  /**
   * Every tree of height h has at least 2^h of the N sites, so no site is
   * more than log2(N) links from its root: the logarithmic bound on find.
   */
  lemma HeightIsLogarithmic(id: seq<int>, height: seq<int>, root: seq<int>, dist: seq<nat>, count: int, i: int)
    requires ForestInvariant(id, height, root, dist, count)
    requires 0 <= i < |id|
    ensures 0 <= root[i] < |id| && dist[i] <= height[root[i]]
    ensures Pow2(height[root[i]]) <= |id|
    ensures Pow2(dist[i]) <= |id|
  {
    var r := root[i];
    assert SiteLinked(id, root, dist, i);
    assert TreeFacts(height, root, dist, r);
    SitesAtMost(Members(root, r), |id|);
    Pow2Monotone(dist[i], height[r]);
  }

  /**
   * After linking the root of p's tree with the root of q's, two sites are
   * in one tree iff they were before, or each was in p's or in q's tree.
   */
  lemma LinkMergesClasses(root: seq<int>, loser: int, winner: int, p: int, q: int)
    requires 0 <= p < |root| && 0 <= q < |root|
    requires (loser == root[p] && winner == root[q]) || (loser == root[q] && winner == root[p])
    ensures forall x, y :: 0 <= x < |root| && 0 <= y < |root| ==>
      (Relinked(root, loser, winner)[x] == Relinked(root, loser, winner)[y] <==>
        root[x] == root[y] ||
        ((root[x] == root[p] || root[x] == root[q]) && (root[y] == root[p] || root[y] == root[q])))
  {
  }

  // ---------------------------------------------------------------------
  // The class.
  // ---------------------------------------------------------------------

  class WeightedByHeightUF {
    var id: array<int>       // id[i] = parent of i
    var height: array<int>   // height[r] = height of the tree rooted at r
    var count: int           // number of components
    ghost var root: seq<int>
    ghost var dist: seq<nat>

    ghost predicate Valid()
      reads this, id, height
    {
      id != height && ForestInvariant(id[..], height[..], root, dist, count)
    }

    /** Sites p and q are in the same component. */
    ghost predicate SameComponent(p: int, q: int)
      reads this
      requires 0 <= p < |root| && 0 <= q < |root|
    {
      root[p] == root[q]
    }

    /** N isolated components 0 through N-1. */
    constructor (n: nat)
      ensures Valid() && fresh(id) && fresh(height)
      ensures id.Length == n && count == n
      ensures forall i :: 0 <= i < n ==> id[i] == i && height[i] == 0
      ensures forall i :: 0 <= i < n ==> root[i] == i
    {
      var ids := new int[n];
      var heights := new int[n];
      for i := 0 to n
        invariant forall k :: 0 <= k < i ==> ids[k] == k && heights[k] == 0
      {
        ids[i] := i;
        heights[i] := 0;
      }
      count, id, height := n, ids, heights;
      root := seq(n, i => i);
      dist := seq(n, i => 0);
      InitialInvariant(n);
      assert ids[..] == seq(n, i => i);
      assert heights[..] == seq(n, i => 0);
    }

    /** count(): the number of components, between 1 and N when N >= 1. */
    method Count() returns (c: int)
      requires Valid()
      ensures c == |Roots(id[..])|
      ensures c <= id.Length && (id.Length >= 1 ==> c >= 1)
    {
      CountBounds(id[..], height[..], root, dist, count);
      return count;
    }

    /** find(p): follows id links from p to its root; changes nothing. */
    method Find(p: int) returns (r: int)
      requires Valid() && 0 <= p < id.Length
      ensures 0 <= r < id.Length && r == root[p] && id[r] == r
    {
      r := p;
      assert SiteLinked(id[..], root, dist, r);
      while r != id[r]
        invariant 0 <= r < id.Length && root[r] == root[p]
        invariant SiteLinked(id[..], root, dist, r)
        decreases dist[r]
      {
        r := id[r];
        assert SiteLinked(id[..], root, dist, r);
      }
    }

    /** connected(p, q): p and q have the same root. */
    method Connected(p: int, q: int) returns (c: bool)
      requires Valid() && 0 <= p < id.Length && 0 <= q < id.Length
      ensures c <==> SameComponent(p, q)
    {
      var rootP := Find(p);
      var rootQ := Find(q);
      return rootP == rootQ;
    }

    /**
     * union(p, q): links the root of the lower tree under the root of the
     * higher one; on a tie, q's root goes under p's, whose height grows by one.
     */
    method Union(p: int, q: int)
      requires Valid() && 0 <= p < id.Length && 0 <= q < id.Length
      modifies this, id, height
      ensures Valid() && id == old(id) && height == old(height)
      ensures old(root[p] == root[q]) ==>
        id[..] == old(id[..]) && height[..] == old(height[..]) && count == old(count) && root == old(root)
      ensures var rp, rq := old(root[p]), old(root[q]);
        var hp, hq := old(height[rp]), old(height[rq]);
        rp != rq ==>
          && count == old(count) - 1
          && (hp < hq ==> id[..] == old(id[..])[rp := rq] && height[..] == old(height[..])[rp := hq])
          && (hp == hq ==> id[..] == old(id[..])[rq := rp] && height[..] == old(height[..])[rq := hq + 1][rp := hq + 1])
          && (hp > hq ==> id[..] == old(id[..])[rq := rp] && height[..] == old(height[..])[rq := hp])
      ensures forall x, y :: 0 <= x < id.Length && 0 <= y < id.Length ==>
        (SameComponent(x, y) <==>
          old(SameComponent(x, y)) ||
          (old(SameComponent(x, p) || SameComponent(x, q)) && old(SameComponent(y, p) || SameComponent(y, q))))
    {
      var rootP := Find(p);
      var rootQ := Find(q);
      if rootP == rootQ {
        return;
      }
      ghost var id0, height0 := id[..], height[..];
      if height[rootP] < height[rootQ] {
        id[rootP] := rootQ;
        height[rootP] := height[rootQ];
        assert id[..] == id0[rootP := rootQ];
        LinkKeepsInvariant(id0, height0, root, dist, count, rootP, rootQ, height[..]);
        LinkMergesClasses(root, rootP, rootQ, p, q);
        root, dist := Relinked(root, rootP, rootQ), Deepened(root, dist, rootP);
      } else if height[rootP] == height[rootQ] {
        id[rootQ] := rootP;
        height[rootQ] := height[rootQ] + 1;
        height[rootP] := height[rootQ];
        assert id[..] == id0[rootQ := rootP];
        LinkKeepsInvariant(id0, height0, root, dist, count, rootQ, rootP, height[..]);
        LinkMergesClasses(root, rootQ, rootP, p, q);
        root, dist := Relinked(root, rootQ, rootP), Deepened(root, dist, rootQ);
      } else {
        id[rootQ] := rootP;
        height[rootQ] := height[rootP];
        assert id[..] == id0[rootQ := rootP];
        LinkKeepsInvariant(id0, height0, root, dist, count, rootQ, rootP, height[..]);
        LinkMergesClasses(root, rootQ, rootP, p, q);
        root, dist := Relinked(root, rootQ, rootP), Deepened(root, dist, rootQ);
      }
      count := count - 1;
    }
  }
}
