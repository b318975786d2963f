# Verified model of six algorithms and data-structure exercises

This project models six small exercises from a course on algorithms and
data structures (chapters 1.3 and 2 of Sedgewick and Wayne's *Algorithms*),
each in the form the Java code takes, and proves what each promises:

- **Weighted quick-union by height** (`UnionFind.dfy`, class
  `WeightedByHeightUF`): a forest of sites kept in the arrays `id` and
  `height` plus a component counter. `union` hangs the root of the lower
  tree under the root of the higher one, with no path compression. The
  ghost sequences `root` and `dist` give each site's root and its number
  of links to that root; they witness that `id` has no cycles, so `find`
  terminates. The invariant says that `count` is the number of roots, that
  `height[r]` is the exact height of r's tree, and that a tree of height h
  has at least 2^h sites. From this the model proves the logarithmic bound
  on `find`.
- **Deque** (`Deques.dfy`): a doubly linked list with pushes and pops at
  both ends. It is specified against a ghost sequence of items and a ghost
  sequence of nodes, with a `Repr` footprint.
- **Resizing-array queue** (`ResizingQueues.dfy`): a FIFO held in the
  window `a[first..last)` of an array. The array is doubled when full,
  re-centred when the window reaches its end, and halved when a dequeue
  leaves it a quarter full.
- **Three-sum counter** (`ThreeSum.dfy`): sort, reject repeated values,
  then count zero-sum triples with two pointers. The count is proved equal
  to the number of index triples i < j < k whose entries sum to 0.
- **Stack-permutation check** (`StackPermutation.dfy`): the greedy stack
  simulation of exercise 1.3.46. It is proved to decide, for every input
  sequence, whether the sequence can be output by pushing 0..N-1 in order
  with intermixed pops. A run of such pushes and pops is a sequence of
  `Op`s; `Produces` states what a run outputs.
- **Sorting helpers** (`Sorting.dfy`): `less`, `exch` and `isSorted` from
  the template of chapter 2, generic over a `compareTo` function.

`Outcomes.dfy` holds the `Result` type. The Java exceptions
(`NoSuchElementException`, `IllegalArgumentException`) are returned as
`Err` values. When `peek`, `dequeue`, `popLeft` or `popRight` throws, the
model states that nothing changes. `count` in `ThreeSumFaster` throws only
after it has sorted the caller's array in place, and the model states
that sorted array in the error case too.

Where the code and its comments disagree, the model follows the code:

- The header of `MyResizingArrayQueue` says that the array grows once the
  queue is more than half full. It also says that a queue dequeued to 0 is
  re-centred. The code grows the array only when it is full. A dequeue
  re-centres the window only when it halves the array; dequeuing to 0
  leaves the window where it is, and the next enqueue re-centres it if it
  has reached the array's end.
- In `CheckPermutation`, the comment says the loop stops when N-1 has been
  pushed. The loop can push N as well.

## Model

| member | source | states |
|---|---|---|
| Sorting.Less | Ch2/Example.java:22-25 | `less(v, w)` is `v.compareTo(w) < 0`; where `compareTo` is antisymmetric on the pair, this holds iff `w.compareTo(v) > 0` |
| Sorting.LessIsStrictOrder | Ch2/Example.java:22-25 | `less(v, w)` is `v.compareTo(w) < 0`; under the `Comparable` contract this is irreflexive, asymmetric and transitive |
| Sorting.NotLessTransitive | Ch2/Example.java:22-25 | "not less" is transitive, which lets a check of neighbours stand for a check of all pairs |
| Sorting.Swapped | Ch2/Example.java:27-32 | the swapped sequence has entry i of the original at j, entry j at i, and every other entry unchanged |
| Sorting.SwappedIsPermutation | Ch2/Example.java:27-32 | a swap preserves the multiset of entries |
| Sorting.Exch | Ch2/Example.java:27-32 | `exch` swaps `a[i]` and `a[j]` in place, keeps every other entry and the multiset |
| Sorting.IsSorted | Ch2/Example.java:43-52 | true iff no `a[i]` is less than `a[i-1]`; the array is not modified |
| Sorting.NoDescentIffInOrder | Ch2/Example.java:43-52 | no descent between neighbours holds iff every pair i <= j is in order |
| Sorting.NoDescentReaches | Ch2/Example.java:43-52 | with no descent between neighbours, no later entry is less than an earlier one |
| ThreeSum.AdjacentEqualIffRepeat | Ch1/1_3/ThreeSumFaster.java:20-25 | on a sorted array, two equal neighbours exist iff some value repeats |
| ThreeSum.NoAdjacentEqualIsStrict | Ch1/1_3/ThreeSumFaster.java:35-38 | a sorted array with no equal neighbours strictly increases |
| ThreeSum.RepeatIffMultiplicity | Ch1/1_3/ThreeSumFaster.java:35-38 | a value repeats iff some value occurs more than once in the multiset |
| ThreeSum.RepeatIsPermutationInvariant | Ch1/1_3/ThreeSumFaster.java:34-38 | sorting does not change whether a value repeats, so the check on the sorted array answers for the input |
| ThreeSum.ContainsDuplicates | Ch1/1_3/ThreeSumFaster.java:21-25 | true iff two neighbours are equal; on a sorted array, iff some value repeats |
| ThreeSum.Sort | Ch1/1_3/ThreeSumFaster.java:34 | the array ends ascending and a permutation of its old contents |
| ThreeSum.ThirdsNoneBelow | Ch1/1_3/ThreeSumFaster.java:54-55 | when the largest candidate third entry is too small, no third entry completes a zero sum |
| ThreeSum.DropBack | Ch1/1_3/ThreeSumFaster.java:51-52 | a sum too large at `back` rules `back` out for every remaining `front` |
| ThreeSum.DropFront | Ch1/1_3/ThreeSumFaster.java:54-55 | a sum too small at `front` rules `front` out |
| ThreeSum.MatchAtFront | Ch1/1_3/ThreeSumFaster.java:57-60 | with distinct entries, a zero sum at (`front`, `back`) is the only triple that uses `front`, so it counts once |
| ThreeSum.Count | Ch1/1_3/ThreeSumFaster.java:32-66 | sorts the caller's array in place; throws `IllegalArgumentException` iff a value repeats; otherwise returns the number of triples i < j < k with zero sum |
| ThreeSum.CountSorted | Ch1/1_3/ThreeSumFaster.java:39-65 | on a strictly ascending array, the two-pointer loops return exactly the number of zero-sum index triples |
| StackPermutation.BuriedHeadIsStuck | Ch1/1_3/CheckPermutation.java:29-35 | an output whose next value lies under the stack's top can never be produced |
| StackPermutation.PopExtends | Ch1/1_3/CheckPermutation.java:29-32 | popping the stack's top when it matches the queue's head is a legal first step: a run that finishes afterwards finishes from before |
| StackPermutation.PushExtends | Ch1/1_3/CheckPermutation.java:33-35 | pushing `j` (when `j < N`) is a legal first step: a run that finishes afterwards finishes from before |
| StackPermutation.PopIsForced | Ch1/1_3/CheckPermutation.java:29-32 | when the queue's head is on top of the stack, a run that finishes from here exists iff one does after popping it |
| StackPermutation.PushIsForced | Ch1/1_3/CheckPermutation.java:33-35 | otherwise, a run that finishes from here exists iff one does after pushing `j` |
| StackPermutation.FinishIsForced | Ch1/1_3/CheckPermutation.java:28-37 | once the whole output is produced, a run can finish iff the stack is empty and everything has been pushed |
| StackPermutation.NothingLeftToPop | Ch1/1_3/CheckPermutation.java:28-37 | with a non-empty stack, no run finishes without producing more output |
| StackPermutation.IsPermutationPossible | Ch1/1_3/CheckPermutation.java:19-38 | true iff the input can be output by pushing 0..N-1 in order with intermixed pops; leaves a suffix of the queue, and empties the queue when true; a true result implies a permutation of 0..N-1 |
| StackPermutation.Range | Ch1/1_3/CheckPermutation.java:6-8 | the integers lo..hi-1 that are pushed, with their count |
| StackPermutation.ProducedValues | Ch1/1_3/CheckPermutation.java:6-8 | a run outputs exactly the stack's values plus those still to be pushed |
| StackPermutation.PermutableIsPermutation | Ch1/1_3/CheckPermutation.java:6-8 | every sequence produced this way is a permutation of 0..N-1 |
| StackPermutation.EmptyIsPermutable | Ch1/1_3/CheckPermutation.java:28-37 | the empty sequence can be produced, so an empty queue yields true |
| StackPermutation.GreedyAsWritten | Ch1/1_3/CheckPermutation.java:28-37 | the loop as written, comparing boxed `Integer`s by reference; whatever it accepts can really be produced by pushes and pops, so its error is only ever a wrong rejection |
| StackPermutation.LargeHeadIsRejected | Ch1/1_3/CheckPermutation.java:29 | with `==` on boxed `Integer`s, a queue whose head is at least 128 is always rejected |
| StackPermutation.BoxedComparisonRejectsDescending | Ch1/1_3/CheckPermutation.java:29 | for N >= 129, the sequence N-1, ..., 0 can be produced, but the comparison as written rejects it |
| UnionFind.Pow2Monotone | Ch1/1_3/WeightedByHeightUF.java:23-28 | 2^h grows with h, the step from tree size to height |
| UnionFind.InitialInvariant | Ch1/1_3/WeightedByHeightUF.java:45-53 | N singleton trees of height 0 satisfy the forest invariant, with N roots |
| UnionFind.LinkKeepsForest | Ch1/1_3/WeightedByHeightUF.java:105-118 | hanging one root under another keeps `id` acyclic: afterwards every site of the losing tree has the winner as its root and is one link further from it, and every other site keeps its root and distance |
| UnionFind.LinkRemovesRoot | Ch1/1_3/WeightedByHeightUF.java:105-119 | linking removes exactly the losing root from the roots, so the number of roots drops by one |
| UnionFind.OtherTreeUnchanged | Ch1/1_3/WeightedByHeightUF.java:105-118 | a tree not involved keeps its sites and its height |
| UnionFind.MergedMembers | Ch1/1_3/WeightedByHeightUF.java:105-118 | the winner's new tree holds exactly the sites of the two old trees |
| UnionFind.WinnerTree | Ch1/1_3/WeightedByHeightUF.java:105-118 | the merged tree's height is the higher of the two, or one more on a tie |
| UnionFind.WinnerFacts | Ch1/1_3/WeightedByHeightUF.java:105-118 | the merged tree keeps height exact and at least 2^height sites |
| UnionFind.LinkKeepsInvariant | Ch1/1_3/WeightedByHeightUF.java:98-120 | linking the lower root under the higher, with the height update of `union`, preserves the whole invariant, with one root fewer |
| UnionFind.RootsAreDetermined | Ch1/1_3/WeightedByHeightUF.java:69-74 | `id` alone determines each site's root and distance, so `find`'s answer is well defined |
| UnionFind.SameRootAt | Ch1/1_3/WeightedByHeightUF.java:69-74 | the same, for one site |
| UnionFind.SitesAtMost | Ch1/1_3/WeightedByHeightUF.java:57 | a set of sites below N has at most N elements |
| UnionFind.SitesAtLeast | Ch1/1_3/WeightedByHeightUF.java:23-28 | a set holding all of 0..N-1 has at least N elements |
| UnionFind.CountBounds | Ch1/1_3/WeightedByHeightUF.java:55-61 | the component count is at most N, and at least 1 when N >= 1 |
| UnionFind.HeightIsLogarithmic | Ch1/1_3/WeightedByHeightUF.java:23-28 | every site is at most `height[root]` links from its root, and 2^height is at most N, so `find` takes at most lg N steps |
| UnionFind.LinkMergesClasses | Ch1/1_3/WeightedByHeightUF.java:90-119 | after linking p's and q's roots, two sites share a root iff they did before, or one was with p and the other with q |
| UnionFind.WeightedByHeightUF.constructor | Ch1/1_3/WeightedByHeightUF.java:45-53 | N sites, each its own root with height 0, and `count == N` |
| UnionFind.WeightedByHeightUF.Count | Ch1/1_3/WeightedByHeightUF.java:55-61 | returns the number of roots, between 1 and N when N >= 1 |
| UnionFind.WeightedByHeightUF.Find | Ch1/1_3/WeightedByHeightUF.java:69-74 | returns p's root, a site with `id[r] == r`, reached along the `id` links; changes nothing |
| UnionFind.WeightedByHeightUF.Connected | Ch1/1_3/WeightedByHeightUF.java:85-87 | true iff p and q have the same root |
| UnionFind.WeightedByHeightUF.Union | Ch1/1_3/WeightedByHeightUF.java:98-120 | a no-op when p and q share a root; otherwise the lower root goes under the higher one (on a tie q's root goes under p's, and p's root's height grows by one), exactly one `id` entry changes, `count` drops by one, and the classes of p and q merge |
| Deques.DoubleNode.constructor | Ch1/1_3/Deque.java:29-33 | a node holding the item and linked to nothing |
| Deques.Deque.constructor | Ch1/1_3/Deque.java:38-42 | an empty deque with `N == 0` |
| Deques.Deque.IsEmpty | Ch1/1_3/Deque.java:48-51 | true iff there are no items, iff `N == 0` |
| Deques.Deque.Size | Ch1/1_3/Deque.java:57-60 | the number of items |
| Deques.Deque.PushLeft | Ch1/1_3/Deque.java:66-83 | the items become `[item] + old items`; `N` grows by one; the links stay consistent |
| Deques.Deque.PushRight | Ch1/1_3/Deque.java:89-106 | the items become `old items + [item]`; `N` grows by one |
| Deques.Deque.PopLeft | Ch1/1_3/Deque.java:112-130 | on an empty deque, `NoSuchElementException` and no change; otherwise returns the first item and removes it, `N` drops by one |
| Deques.Deque.PopRight | Ch1/1_3/Deque.java:136-154 | on an empty deque, `NoSuchElementException` and no change; otherwise returns the last item and removes it, `N` drops by one |
| Deques.Deque.Items | Ch1/1_3/Deque.java:177-205 | iterating along the `next` links yields exactly the items, first to last |
| ResizingQueues.MyResizingArrayQueue.constructor | Ch1/1_3/MyResizingArrayQueue.java:26-33 | an empty queue over an array of capacity 2 |
| ResizingQueues.MyResizingArrayQueue.IsEmpty | Ch1/1_3/MyResizingArrayQueue.java:38-40 | true iff the queue holds no items |
| ResizingQueues.MyResizingArrayQueue.Size | Ch1/1_3/MyResizingArrayQueue.java:46-48 | the number of items, `last - first` |
| ResizingQueues.MyResizingArrayQueue.Peek | Ch1/1_3/MyResizingArrayQueue.java:55-60 | on an empty queue `NoSuchElementException`; otherwise the least recently added item, with no change |
| ResizingQueues.MyResizingArrayQueue.Resize | Ch1/1_3/MyResizingArrayQueue.java:92-106 | a fresh array of the given capacity holds the same items in order, starting at offset `(capacity - size) / 2` |
| ResizingQueues.MyResizingArrayQueue.Enqueue | Ch1/1_3/MyResizingArrayQueue.java:66-74 | appends the item; a full array doubles; a window at the array's end is re-centred at the same capacity; otherwise nothing moves; the array afterwards is the old one or a fresh one |
| ResizingQueues.FirstInFirstOut | Ch1/1_3/MyResizingArrayQueue.java:55-89 | across a sequence of calls on one queue (three enqueues, with one doubling, then two dequeues), the items come out in the order they went in and one is left |
| ResizingQueues.MyResizingArrayQueue.Dequeue | Ch1/1_3/MyResizingArrayQueue.java:81-89 | on an empty queue `NoSuchElementException` and no change; otherwise returns and removes the head; the capacity halves iff the remaining size is positive and a quarter of it; the array afterwards is the old one or a fresh one |

## Left out

- The `main` drivers, `show`, `toString` and all reading and printing are
  I/O and are not modelled.
- `Ch1/1_3/DoubleLinked.java` is not part of this model: its list never
  updates its size and never links its ends, so it has no behaviour worth
  stating.
- `Example.sort` is an empty stub and is not modelled.
- ThreeSum.Sort: `java.util.Arrays.sort` is a library routine. The model
  sorts with an insertion sort built on `Sorting.Exch`, and only its
  postcondition (ascending, a permutation) is used.
- ThreeSum.Count: the result is tied to the array as sorted. That the
  number of zero-sum triples does not depend on the order of the input is
  not proved.
- Java's 32-bit `int` is modelled by unbounded integers. The overflow of
  `-(a[front] + a[i])` and of `count` in `ThreeSumFaster` is therefore not
  modelled.
- The algs4 `Queue` and `Stack` are modelled as sequences. The part of the
  caller's queue that `isPermutationPossible` leaves behind is returned as
  `remaining`.
- StackPermutation.IsPermutationPossible compares the queue's head and the
  stack's top by value. The code compares boxed `Integer`s by reference;
  that behaviour is modelled separately by `GreedyAsWritten` (see
  Findings).
- UnionFind.WeightedByHeightUF.constructor requires N >= 0, and every
  operation requires its sites to lie in 0..N-1. The Java code would throw
  on a negative array size or an index out of range; those errors are not
  modelled.
- Deques.Deque.Items returns the whole traversal at once. The iterator's
  `remove()`, which throws `UnsupportedOperationException`, and `next()`
  on an exhausted iterator are not modelled.
- The slots that `dequeue`, `popLeft` and `popRight` leave behind
  (loitering references) and garbage collection are not modelled.
- Running time is not modelled, except for the logarithmic bound on the
  depth of union-find trees.

## Findings

| source | as written | input that shows it | evidently intended | confidence | as-written member | corrected member |
|---|---|---|---|---|---|---|
| Ch1/1_3/CheckPermutation.java:29 | `sequence.peek() == checkStack.peek()` compares two `Integer` objects by reference. Values boxed separately are the same object only inside the `Integer` cache (-128..127), so a value of at least 128 at the queue's head never matches the stack's top. | N = 129 and the queue 128, 127, ..., 0. This is producible by 129 pushes followed by 129 pops, but the method returns false. | compare the values (`equals`, or `intValue()` on both sides) | high (not executed) | StackPermutation.GreedyAsWritten, StackPermutation.BoxedComparisonRejectsDescending | StackPermutation.IsPermutationPossible |
