/**
 The state of the buddy allocator as values: the page array and the ten free lists,
 the invariant they keep, and the theorem that the free lists are canonical.
 */
module BuddySpec {
  import opened Common
  import opened BuddyBlocks

  /* The largest order, BUDDY_MAX_ORDER - 1: a 2M block. */
  const TOP := 9

  /* A frame whose `free` flag is set is the head of a free block of 2^order frames. */
  datatype PageInfo = PageInfo(order: nat, free: bool, ref: nat)

  type Pages = seq<PageInfo>
  type Lists = seq<seq<nat>>

  predicate Head(pages: Pages, x: int) {
    0 <= x < |pages| && pages[x].free
  }

  /* Free blocks are aligned and disjoint. */
  ghost predicate Blocks(pages: Pages) {
    && Aligned(|pages|, TOP)
    && (forall x :: Head(pages, x) ==> pages[x].order <= TOP && Aligned(x, pages[x].order))
    && (forall x, y :: Head(pages, x) && Head(pages, y) && x < y ==> x + Pow2(pages[x].order) <= y)
  }

  /* Free list k holds exactly the heads of order k, each once, except the heads `off`
     that are in transit between two lists. */
  ghost predicate Listed(pages: Pages, lists: Lists, off: set<int>) {
    && |lists| == TOP + 1
    && (forall k, x :: 0 <= k <= TOP && x in lists[k] ==> Head(pages, x) && pages[x].order == k && x !in off)
    && (forall x :: Head(pages, x) && x !in off && pages[x].order <= TOP ==> x in lists[pages[x].order])
    && (forall k :: 0 <= k <= TOP ==> Distinct(lists[k]))
  }

  /* x and its buddy are both free, with the same order below the top. */
  ghost predicate FreeBuddies(pages: Pages, x: int) {
    && Head(pages, x)
    && pages[x].order < TOP
    && Head(pages, BuddyOf(x, pages[x].order))
    && pages[BuddyOf(x, pages[x].order)].order == pages[x].order
  }

  /* No two free buddies of equal order, except where one of them is `e`. */
  ghost predicate Coalesced(pages: Pages, e: int) {
    forall x :: FreeBuddies(pages, x) ==> x == e || BuddyOf(x, pages[x].order) == e
  }

  ghost predicate Valid(pages: Pages, lists: Lists) {
    Blocks(pages) && Listed(pages, lists, {}) && Coalesced(pages, -1)
  }

  /* Frame f lies in the free block headed by x. */
  predicate Covers(pages: Pages, x: int, f: int) {
    Head(pages, x) && x <= f < x + Pow2(pages[x].order)
  }

  ghost predicate Covered(pages: Pages, f: int) {
    exists x :: Covers(pages, x, f)
  }

  ghost function FreeFrames(pages: Pages): set<int> {
    set f | 0 <= f < |pages| && Covered(pages, f)
  }

  predicate Within(x: int, k: nat, f: int) {
    x <= f < x + Pow2(k)
  }

  ghost function Block(x: int, k: nat): set<int> {
    set f | x <= f < x + Pow2(k) && Within(x, k, f)
  }

  /* All frames of block (x, k) are in `free`. */
  ghost predicate AllIn(x: int, k: nat, free: set<int>) {
    forall f :: x <= f < x + Pow2(k) ==> f in free
  }

  // ------------------------------------------------------------- canonical free lists

  /* Block (x, k) is a maximal aligned block of free frames: the definition of the
     canonical decomposition, in terms of the set of free frames alone. */
  ghost predicate Maximal(free: set<int>, x: nat, k: nat) {
    && k <= TOP
    && Aligned(x, k)
    && AllIn(x, k, free)
    && (k == TOP || !(AllIn(ParentOf(x, k), k + 1, free)))
  }

  lemma HeadBlockFree(pages: Pages, x: int)
    requires Blocks(pages) && Head(pages, x)
    ensures x + Pow2(pages[x].order) <= |pages|
    ensures AllIn(x, pages[x].order, FreeFrames(pages))
  {
    hide Aligned, Pow2;
    BlockInRange(x, pages[x].order, |pages|, TOP);
    forall f | x <= f < x + Pow2(pages[x].order)
      ensures f in FreeFrames(pages)
    {
      assert Covers(pages, x, f);
    }
  }

  /* Every aligned block of free frames lies inside one free block: by induction on the
     order, since its two halves cannot be separate free buddies. */
  lemma {:induction false} InsideOneBlock(pages: Pages, x: nat, k: nat) returns (y: nat)
    requires Blocks(pages) && Coalesced(pages, -1)
    requires k <= TOP && Aligned(x, k) && AllIn(x, k, FreeFrames(pages))
    ensures Head(pages, y) && y <= x && x + Pow2(k) <= y + Pow2(pages[y].order)
    ensures k <= pages[y].order
    decreases k
  {
    hide Aligned, Pow2;
    if k == 0 {
      BlockOfOne(x);
      assert x in FreeFrames(pages);
      y :| Covers(pages, y, x);
    } else {
      Doubles(k - 1);
      hide FreeFrames;
      SplitHalves(x, k - 1);
      var z := x + Pow2(k - 1);
      y := InsideOneBlock(pages, x, k - 1);
      if pages[y].order == k - 1 {
        var w := InsideOneBlock(pages, z, k - 1);
        assert !FreeBuddies(pages, x);
        Nested(x, k, w, pages[w].order);
        y := w;
      } else {
        Nested(x, k, y, pages[y].order);
      }
    }
  }

  lemma ListedIsMaximal(pages: Pages, lists: Lists, x: nat, k: nat)
    requires Valid(pages, lists) && k <= TOP && x in lists[k]
    ensures Maximal(FreeFrames(pages), x, k)
  {
    hide Aligned, Pow2, FreeFrames, Distinct;
    Doubles(k);
    HeadBlockFree(pages, x);
    Halves(x, k);
    if k < TOP && AllIn(ParentOf(x, k), k + 1, FreeFrames(pages)) {
      var y := InsideOneBlock(pages, ParentOf(x, k), k + 1);
      assert false;
    }
  }

  lemma MaximalIsListed(pages: Pages, lists: Lists, x: nat, k: nat)
    requires Valid(pages, lists) && Maximal(FreeFrames(pages), x, k)
    ensures x in lists[k]
  {
    hide Aligned, Pow2, FreeFrames, Distinct;
    Doubles(k);
    var y := InsideOneBlock(pages, x, k);
    if pages[y].order > k {
      Halves(x, k);
      Nested(ParentOf(x, k), k + 1, y, pages[y].order);
      HeadBlockFree(pages, y);
    }
  }

  /* The free lists are a function of the set of free frames: list k holds exactly the
     maximal aligned blocks of order k. */
  lemma Canonical(pages: Pages, lists: Lists, x: nat, k: nat)
    requires Valid(pages, lists) && k <= TOP
    ensures x in lists[k] <==> Maximal(FreeFrames(pages), x, k)
  {
    hide Aligned, Pow2;
    if x in lists[k] {
      ListedIsMaximal(pages, lists, x, k);
    }
    if Maximal(FreeFrames(pages), x, k) {
      MaximalIsListed(pages, lists, x, k);
    }
  }

  /* Two reachable states with the same free frames have the same blocks on every list,
     each once. */
  lemma CanonicalLists(pages: Pages, lists: Lists, pages': Pages, lists': Lists)
    requires Valid(pages, lists) && Valid(pages', lists')
    requires FreeFrames(pages) == FreeFrames(pages')
    ensures forall k :: 0 <= k <= TOP ==> multiset(lists[k]) == multiset(lists'[k])
  {
    hide Aligned, Pow2;
    forall k | 0 <= k <= TOP
      ensures multiset(lists[k]) == multiset(lists'[k])
    {
      forall x: nat
        ensures x in lists[k] <==> x in lists'[k]
      {
        Canonical(pages, lists, x, k);
        Canonical(pages', lists', x, k);
      }
      DistinctSameMultiset(lists[k], lists'[k]);
    }
  }

  lemma {:induction false} DistinctMultiset(s: seq<nat>, x: nat)
    requires Distinct(s)
    ensures multiset(s)[x] == if x in s then 1 else 0
  {
    if s != [] {
      DistinctMultiset(s[1..], x);
      assert s == [s[0]] + s[1..];
    }
  }

  lemma DistinctSameMultiset(s: seq<nat>, t: seq<nat>)
    requires Distinct(s) && Distinct(t) && forall x: nat :: x in s <==> x in t
    ensures multiset(s) == multiset(t)
  {
    forall x: nat
      ensures multiset(s)[x] == multiset(t)[x]
    {
      DistinctMultiset(s, x);
      DistinctMultiset(t, x);
    }
  }

  // ------------------------------------------------------------------ one split, one merge

  function SetOrder(pages: Pages, x: nat, k: nat, free: bool): (r: Pages)
    requires x < |pages|
    ensures |r| == |pages|
    ensures forall i :: 0 <= i < |r| ==> r[i].ref == pages[i].ref
  {
    pages[x := pages[x].(order := k, free := free)]
  }

  function Split(pages: Pages, x: nat): (r: Pages)
    requires Head(pages, x) && pages[x].order > 0
    requires x + Pow2(pages[x].order - 1) < |pages|
    ensures |r| == |pages|
    ensures forall i :: 0 <= i < |r| ==> r[i].ref == pages[i].ref
  {
    var k := pages[x].order - 1;
    SetOrder(SetOrder(pages, x, k, true), x + Pow2(k), k, true)
  }

  /* Splitting a block keeps alignment and disjointness. */
  lemma SplitBlocks(pages: Pages, x: nat)
    requires Blocks(pages) && Head(pages, x) && pages[x].order > 0
    ensures x + Pow2(pages[x].order - 1) < |pages|
    ensures Blocks(Split(pages, x))
    ensures x in FreeFrames(pages) && x + Pow2(pages[x].order - 1) in FreeFrames(pages)
  {
    hide Aligned;
    var k := pages[x].order - 1;
    HeadBlockFree(pages, x);
    SplitHalves(x, k);
    var p := Split(pages, x);
    var b := x + Pow2(k);
    forall y | Head(p, y)
      ensures y == b || (Head(pages, y) && (y == x || p[y] == pages[y]))
    {
    }
  }

  /* Splitting a block keeps the free frames. */
  lemma SplitFrames(pages: Pages, x: nat)
    requires Blocks(pages) && Head(pages, x) && pages[x].order > 0
    requires x + Pow2(pages[x].order - 1) < |pages|
    ensures FreeFrames(Split(pages, x)) == FreeFrames(pages)
  {
    hide Aligned, Pow2;
    var k := pages[x].order - 1;
    var p := Split(pages, x);
    var b := x + Pow2(k);
    Doubles(k);
    assert !Head(pages, b) && Head(p, x) && Head(p, b) && p[x].order == k && p[b].order == k;
    assert forall y :: y != x && y != b ==> (Head(p, y) <==> Head(pages, y)) && (Head(pages, y) ==> p[y] == pages[y]);
    hide Blocks, Split;
    forall f
      ensures Covered(p, f) <==> Covered(pages, f)
    {
      if Covered(p, f) {
        var y :| Covers(p, y, f);
        assert Covers(pages, if y == b then x else y, f);
      }
      if Covered(pages, f) {
        var y :| Covers(pages, y, f);
        assert Covers(p, if y == x && f >= b then b else y, f);
      }
    }
  }

  /* After a split the only free buddies are the block and its new buddy. */
  lemma SplitCoalesced(pages: Pages, x: nat)
    requires Blocks(pages) && Coalesced(pages, x) && Head(pages, x) && pages[x].order > 0
    requires x + Pow2(pages[x].order - 1) < |pages|
    ensures Coalesced(Split(pages, x), x)
  {
    hide Aligned;
    var k := pages[x].order - 1;
    SplitHalves(x, k);
    var p := Split(pages, x);
    forall y | FreeBuddies(p, y)
      ensures y == x || BuddyOf(y, p[y].order) == x
    {
      if y != x && y != x + Pow2(k) {
        Halves(y, p[y].order);
      }
    }
  }

  /* Joining the halves (x, k) and (x + 2^k, k): the left half takes the higher order. */
  function Merge(pages: Pages, x: nat, k: nat): (r: Pages)
    requires x + Pow2(k) < |pages|
    ensures |r| == |pages|
    ensures forall i :: 0 <= i < |r| ==> r[i].ref == pages[i].ref
  {
    var b := x + Pow2(k);
    SetOrder(SetOrder(pages, b, pages[b].order, false), x, k + 1, true)
  }

  ghost predicate Mergeable(pages: Pages, x: nat, k: nat) {
    && Blocks(pages)
    && k < TOP
    && Aligned(x, k + 1)
    && Head(pages, x) && pages[x].order == k
    && Head(pages, x + Pow2(k)) && pages[x + Pow2(k)].order == k
  }

  lemma MergeBlocks(pages: Pages, x: nat, k: nat)
    requires Mergeable(pages, x, k)
    ensures Blocks(Merge(pages, x, k))
  {
    hide Aligned;
    var p := Merge(pages, x, k);
    assert Pow2(k + 1) == Pow2(k) + Pow2(k);
    forall y | Head(p, y)
      ensures Head(pages, y) && y != x + Pow2(k) && (y == x || p[y] == pages[y])
    {
    }
  }

  lemma MergeFrames(pages: Pages, x: nat, k: nat)
    requires Mergeable(pages, x, k)
    ensures FreeFrames(Merge(pages, x, k)) == FreeFrames(pages)
  {
    hide Aligned, Pow2;
    var p := Merge(pages, x, k);
    var b := x + Pow2(k);
    Doubles(k);
    assert p[x] == pages[x].(order := k + 1, free := true) && !Head(p, b);
    assert forall y :: y != x && y != b ==> (Head(p, y) <==> Head(pages, y)) && (Head(pages, y) ==> p[y] == pages[y]);
    hide Blocks, Merge;
    forall f
      ensures Covered(p, f) <==> Covered(pages, f)
    {
      if Covered(p, f) {
        var y :| Covers(p, y, f);
        assert Covers(pages, if y == x && f >= b then b else y, f);
      }
      if Covered(pages, f) {
        var y :| Covers(pages, y, f);
        assert Covers(p, if y == b then x else y, f);
      }
    }
  }

  /* After a merge the only block that can still have a free buddy is the merged one. */
  lemma MergeCoalesced(pages: Pages, x: nat, k: nat, e: int)
    requires Mergeable(pages, x, k) && Coalesced(pages, e) && (e == x || e == x + Pow2(k))
    ensures Coalesced(Merge(pages, x, k), x)
  {
    hide Aligned;
    SplitHalves(x, k);
    var p := Merge(pages, x, k);
    forall y | FreeBuddies(p, y)
      ensures y == x || BuddyOf(y, p[y].order) == x
    {
      assert y == x || BuddyOf(y, p[y].order) == x || FreeBuddies(pages, y);
    }
  }

  // ------------------------------------------------------------------ list bookkeeping

  function Without(s: seq<nat>, x: nat): (r: seq<nat>)
    ensures forall y :: y in r ==> y in s
    ensures forall y :: y in s && y != x ==> y in r
  {
    if s == [] then [] else if s[0] == x then s[1..] else [s[0]] + Without(s[1..], x)
  }

  lemma DistinctCons(a: nat, s: seq<nat>)
    requires Distinct(s) && a !in s
    ensures Distinct([a] + s)
  {
    forall i, j | 0 <= i < j < |[a] + s|
      ensures ([a] + s)[i] != ([a] + s)[j]
    {
      assert ([a] + s)[j] == s[j - 1];
    }
  }

  lemma {:induction false} WithoutDistinct(s: seq<nat>, x: nat)
    requires Distinct(s)
    ensures Distinct(Without(s, x)) && x !in Without(s, x)
  {
    if s != [] {
      var t := s[1..];
      assert s[0] !in t;
      assert Distinct(t);
      WithoutDistinct(t, x);
      if s[0] != x {
        DistinctCons(s[0], Without(t, x));
      }
    }
  }

  /* list_del on a page: unlinks it from the list of its order, if it is on it. */
  function Drop(lists: Lists, k: nat, x: nat): (r: Lists)
    requires k < |lists|
    ensures |r| == |lists|
  {
    lists[k := Without(lists[k], x)]
  }

  /* list_add: links the page right after the list head. */
  function Push(lists: Lists, k: nat, x: nat): (r: Lists)
    requires k < |lists|
    ensures |r| == |lists|
  {
    lists[k := [x] + lists[k]]
  }

  lemma DropListed(pages: Pages, lists: Lists, off: set<int>, x: nat)
    requires Listed(pages, lists, off) && x < |pages| && pages[x].order <= TOP
    requires Head(pages, x)
    ensures Listed(pages, Drop(lists, pages[x].order, x), off + {x})
  {
    hide Aligned, Pow2;
    WithoutDistinct(lists[pages[x].order], x);
  }

  lemma PushListed(pages: Pages, lists: Lists, off: set<int>, x: nat)
    requires Listed(pages, lists, off) && x in off && Head(pages, x) && pages[x].order <= TOP
    ensures Listed(pages, Push(lists, pages[x].order, x), off - {x})
  {
    hide Aligned, Pow2;
    DistinctCons(x, lists[pages[x].order]);
  }

  /* Changing a page that is on no list. */
  lemma TouchListed(pages: Pages, lists: Lists, off: set<int>, x: nat, k: nat, free: bool)
    requires Listed(pages, lists, off) && x < |pages| && (x in off || !Head(pages, x))
    ensures Listed(SetOrder(pages, x, k, free), lists, if free then off + {x} else off - {x})
  {
    hide Aligned, Pow2;
    var p := SetOrder(pages, x, k, free);
    var off' := if free then off + {x} else off - {x};
    forall j, y | 0 <= j <= TOP && y in lists[j]
      ensures Head(p, y) && p[y].order == j && y !in off'
    {
      assert Head(pages, y) && y != x;
    }
    forall y | Head(p, y) && y !in off' && p[y].order <= TOP
      ensures y in lists[p[y].order]
    {
      assert y != x && Head(pages, y) && y !in off;
    }
  }

  // ------------------------------------------------------- taking and returning a block

  /* Clearing the free flag of a head takes exactly its block out of the free frames. */
  lemma TakeBlock(pages: Pages, x: nat)
    requires Blocks(pages) && Head(pages, x) && Coalesced(pages, x)
    ensures var p := SetOrder(pages, x, pages[x].order, false);
      Blocks(p) && Coalesced(p, -1) && FreeFrames(p) == FreeFrames(pages) - Block(x, pages[x].order)
  {
    hide Aligned, Pow2;
    var p := SetOrder(pages, x, pages[x].order, false);
    assert forall y :: Head(p, y) ==> Head(pages, y) && y != x && p[y] == pages[y];
    forall f
      ensures Covered(p, f) <==> Covered(pages, f) && !Within(x, pages[x].order, f)
    {
      if Covered(p, f) {
        var y :| Covers(p, y, f);
        assert Covers(pages, y, f);
      }
      if Covered(pages, f) && !Within(x, pages[x].order, f) {
        var y :| Covers(pages, y, f);
        assert Covers(p, y, f);
      }
    }
  }

  /* Page x is the head of a block of `order` frames none of which is free. */
  ghost predicate Live(pages: Pages, x: int) {
    && 0 <= x < |pages|
    && !pages[x].free
    && pages[x].order <= TOP
    && Aligned(x, pages[x].order)
    && Block(x, pages[x].order) !! FreeFrames(pages)
  }

  /* Setting the free flag of a live block adds exactly its frames. */
  lemma ReturnBlock(pages: Pages, x: nat)
    requires Blocks(pages) && Live(pages, x) && Coalesced(pages, -1)
    ensures var p := SetOrder(pages, x, pages[x].order, true);
      Blocks(p) && Coalesced(p, x) && FreeFrames(p) == FreeFrames(pages) + Block(x, pages[x].order)
  {
    hide Aligned, Pow2, Blocks, Coalesced, FreeFrames, Block, Live, SetOrder;
    ReturnedHead(pages, x);
    ReturnedBlocks(pages, x);
    ReturnedCoalesced(pages, x);
    ReturnedFrames(pages, x);
  }

  /* Setting the free flag of x makes x a head, and no other frame. */
  lemma ReturnedHead(pages: Pages, x: nat)
    requires Live(pages, x)
    ensures var p := SetOrder(pages, x, pages[x].order, true);
      && Head(p, x) && p[x].order == pages[x].order
      && forall y :: y != x ==> (Head(p, y) <==> Head(pages, y)) && (Head(pages, y) ==> p[y] == pages[y])
  {
  }

  lemma ReturnedBlocks(pages: Pages, x: nat)
    requires Blocks(pages) && Live(pages, x)
    ensures Blocks(SetOrder(pages, x, pages[x].order, true))
  {
    hide Aligned, Pow2, FreeFrames, Block;
    ReturnedHead(pages, x);
    forall y | Head(pages, y)
      ensures y + Pow2(pages[y].order) <= x || x + Pow2(pages[x].order) <= y
    {
      DisjointBlocks(pages, x, y);
    }
    hide SetOrder;
  }

  lemma ReturnedCoalesced(pages: Pages, x: nat)
    requires Coalesced(pages, -1) && Live(pages, x)
    ensures Coalesced(SetOrder(pages, x, pages[x].order, true), x)
  {
    ReturnedHead(pages, x);
    hide Aligned, Pow2, FreeFrames, Block, SetOrder, BuddyOf, Live;
    var p := SetOrder(pages, x, pages[x].order, true);
    forall y | FreeBuddies(p, y)
      ensures y == x || BuddyOf(y, p[y].order) == x
    {
      assert y == x || BuddyOf(y, p[y].order) == x || FreeBuddies(pages, y);
    }
  }

  lemma ReturnedFrames(pages: Pages, x: nat)
    requires Blocks(pages) && Live(pages, x)
    ensures FreeFrames(SetOrder(pages, x, pages[x].order, true)) == FreeFrames(pages) + Block(x, pages[x].order)
  {
    var k := pages[x].order;
    var p := SetOrder(pages, x, k, true);
    BlockInRange(x, k, |pages|, TOP);
    ReturnedHead(pages, x);
    hide Aligned, Pow2, SetOrder, Blocks, Live;
    forall f
      ensures Covered(p, f) <==> Covered(pages, f) || Within(x, k, f)
    {
      if Covered(p, f) {
        var y :| Covers(p, y, f);
        assert y == x || Covers(pages, y, f);
      }
      if Within(x, k, f) {
        assert Covers(p, x, f);
      } else if Covered(pages, f) {
        var y :| Covers(pages, y, f);
        assert y != x ==> Covers(p, y, f);
      }
    }
  }

  lemma DisjointBlocks(pages: Pages, x: nat, y: nat)
    requires Blocks(pages) && Live(pages, x) && Head(pages, y)
    ensures y + Pow2(pages[y].order) <= x || x + Pow2(pages[x].order) <= y
  {
    hide Aligned, Pow2;
    HeadBlockFree(pages, y);
    assert x in Block(x, pages[x].order);
    assert y in FreeFrames(pages) && y !in Block(x, pages[x].order);
  }

  lemma BlockSize(x: int, k: nat)
    ensures |Block(x, k)| == Pow2(k)
  {
    IntervalSize(x, Pow2(k));
    assert Block(x, k) == Interval(x, Pow2(k));
  }

  ghost function Interval(x: int, n: nat): set<int> {
    if n == 0 then {} else Interval(x, n - 1) + {x + n - 1}
  }

  lemma {:induction false} IntervalSize(x: int, n: nat)
    ensures |Interval(x, n)| == n
    ensures forall f :: f in Interval(x, n) <==> x <= f < x + n
  {
    if n > 0 {
      IntervalSize(x, n - 1);
    }
  }

  // --------------------------------------------------------- list effects of split and merge

  function SplitLists(pages: Pages, lists: Lists, x: nat): Lists
    requires |lists| == TOP + 1 && x < |pages| && 0 < pages[x].order <= TOP
  {
    var k := pages[x].order;
    Push(Push(Drop(lists, k, x), k - 1, x), k - 1, x + Pow2(k - 1))
  }

  lemma Doubles(k: nat)
    ensures Pow2(k + 1) == 2 * Pow2(k)
  {
  }

  lemma OrderInRange(pages: Pages, lists: Lists, off: set<int>, x: int)
    requires Blocks(pages) && Listed(pages, lists, off) && Head(pages, x)
    ensures |lists| == TOP + 1 && pages[x].order <= TOP
  {
  }

  lemma SplitListed(pages: Pages, lists: Lists, off: set<int>, x: nat)
    requires Blocks(pages) && Listed(pages, lists, off) && off <= {x}
    requires Head(pages, x) && 0 < pages[x].order
    requires x + Pow2(pages[x].order - 1) < |pages|
    ensures Listed(Split(pages, x), SplitLists(pages, lists, x), {})
  {
    hide Aligned, Pow2, Listed, Blocks;
    var k := pages[x].order;
    OrderInRange(pages, lists, off, x);
    var b, p, l := x + Pow2(k - 1), Split(pages, x), Drop(lists, k, x);
    assert {x, b} - {x} == {b} && {b} - {b} == {};
    assert Listed(p, l, {x, b}) by { SplitInTransit(pages, lists, off, x); }
    assert Listed(p, Push(l, k - 1, x), {b}) by { PushListed(p, l, {x, b}, x); }
    assert Listed(p, SplitLists(pages, lists, x), {}) by { PushListed(p, Push(l, k - 1, x), {b}, b); }
  }

  lemma SplitInTransit(pages: Pages, lists: Lists, off: set<int>, x: nat)
    requires Blocks(pages) && Listed(pages, lists, off) && off <= {x}
    requires Head(pages, x) && 0 < pages[x].order
    requires x + Pow2(pages[x].order - 1) < |pages|
    ensures Listed(Split(pages, x), Drop(lists, pages[x].order, x), {x, x + Pow2(pages[x].order - 1)})
  {
    hide Aligned, Pow2, Listed, Blocks, Drop;
    var k := pages[x].order;
    var b := x + Pow2(k - 1);
    NotAHead(pages, x);
    OrderInRange(pages, lists, off, x);
    var l := Drop(lists, k, x);
    assert off + {x} == {x} && {x} + {x} == {x} && {x} + {b} == {x, b};
    assert Listed(pages, l, {x}) by { DropListed(pages, lists, off, x); }
    assert Listed(SetOrder(pages, x, k - 1, true), l, {x}) by { TouchListed(pages, l, {x}, x, k - 1, true); }
    assert Listed(Split(pages, x), l, {x, b}) by { TouchListed(SetOrder(pages, x, k - 1, true), l, {x}, b, k - 1, true); }
  }

  /* The middle of a free block is no head. */
  lemma NotAHead(pages: Pages, x: nat)
    requires Blocks(pages) && Head(pages, x) && 0 < pages[x].order
    ensures !Head(pages, x + Pow2(pages[x].order - 1)) && pages[x].order <= TOP
  {
    hide Aligned;
    assert Pow2(pages[x].order) == 2 * Pow2(pages[x].order - 1);
  }

  /* The lists after joining p with its buddy b into the left half x. */
  function MergeLists(lists: Lists, p: nat, b: nat, x: nat, k: nat): Lists
    requires |lists| == TOP + 1 && k < TOP
  {
    Push(Drop(Drop(lists, k, b), k, p), k + 1, x)
  }

  lemma MergeListed(pages: Pages, lists: Lists, off: set<int>, p: nat, b: nat, x: nat, k: nat)
    requires Mergeable(pages, x, k) && Listed(pages, lists, off) && off <= {p}
    requires (p == x && b == x + Pow2(k)) || (b == x && p == x + Pow2(k))
    ensures Listed(Merge(pages, x, k), MergeLists(lists, p, b, x, k), {})
  {
    assert |lists| == TOP + 1;
    hide Aligned, Pow2, Listed, Blocks, Without;
    var y, l := x + Pow2(k), Drop(Drop(lists, k, b), k, p);
    assert {p, b} == {x, y} && {x} - {x} == {};
    assert Listed(pages, l, {x, y}) by { BothInTransit(pages, lists, off, p, b, k); }
    assert Listed(Merge(pages, x, k), l, {x}) by { MergeInTransit(pages, l, x, k); }
    assert Listed(Merge(pages, x, k), MergeLists(lists, p, b, x, k), {}) by { PushListed(Merge(pages, x, k), l, {x}, x); }
  }

  lemma MergeInTransit(pages: Pages, lists: Lists, x: nat, k: nat)
    requires x + Pow2(k) < |pages| && pages[x + Pow2(k)].order == k
    requires Listed(pages, lists, {x, x + Pow2(k)})
    ensures Listed(Merge(pages, x, k), lists, {x})
  {
    hide Aligned, Listed;
    var y := x + Pow2(k);
    TouchListed(pages, lists, {x, y}, y, k, false);
    assert {x, y} - {y} == {x} && {x} + {x} == {x};
    TouchListed(SetOrder(pages, y, k, false), lists, {x}, x, k + 1, true);
  }

  lemma BothInTransit(pages: Pages, lists: Lists, off: set<int>, p: nat, b: nat, k: nat)
    requires Listed(pages, lists, off) && off <= {p} && k <= TOP
    requires Head(pages, p) && pages[p].order == k && Head(pages, b) && pages[b].order == k
    ensures Listed(pages, Drop(Drop(lists, k, b), k, p), {p, b})
  {
    assert |lists| == TOP + 1;
    hide Listed, Without;
    DropListed(pages, lists, off, b);
    DropListed(pages, Drop(lists, k, b), off + {b}, p);
    assert off + {b} + {p} == {p, b};
  }

  /* If p has no free buddy of its order, nothing is left to join. */
  lemma NothingToJoin(pages: Pages, p: nat)
    requires Blocks(pages) && Coalesced(pages, p) && !FreeBuddies(pages, p)
    ensures Coalesced(pages, -1)
  {
    hide Aligned, Pow2;
    forall x | FreeBuddies(pages, x)
      ensures false
    {
      Halves(x, pages[x].order);
    }
  }

  /* A free buddy would be on the list of p's order. */
  lemma EmptyListNoBuddy(pages: Pages, lists: Lists, off: set<int>, p: nat)
    requires Blocks(pages) && Listed(pages, lists, off) && off <= {p} && Head(pages, p)
    requires pages[p].order < TOP && lists[pages[p].order] == []
    ensures !FreeBuddies(pages, p)
  {
    hide Aligned, Pow2;
    Halves(p, pages[p].order);
  }

  /* The index arithmetic of buddy_merge stays inside the page array. */
  lemma BuddyInRange(pages: Pages, p: nat)
    requires Blocks(pages) && Head(pages, p) && pages[p].order < TOP
    ensures p % (Pow2(pages[p].order) * 2) == 0 <==> Aligned(p, pages[p].order + 1)
    ensures 0 <= BuddyOf(p, pages[p].order) < |pages|
    ensures ParentOf(p, pages[p].order) >= 0 && Aligned(ParentOf(p, pages[p].order), pages[p].order + 1)
  {
    hide Aligned, Pow2;
    var k := pages[p].order;
    Doubles(k);
    AlignedIsMod(p, k + 1);
    Halves(p, k);
    BlockInRange(ParentOf(p, k), k + 1, |pages|, TOP);
  }

  /* list_pop leaves the last block of list k in transit. */
  lemma PopListed(pages: Pages, lists: Lists, k: nat)
    requires Valid(pages, lists) && k <= TOP && lists[k] != []
    ensures var p := lists[k][|lists[k]| - 1];
      && Head(pages, p) && pages[p].order == k && Coalesced(pages, p)
      && Listed(pages, lists[k := lists[k][..|lists[k]| - 1]], {p})
  {
    hide Aligned, Pow2;
    var n := |lists[k]| - 1;
    var p := lists[k][n];
    var l := lists[k := lists[k][..n]];
    assert lists[k] == lists[k][..n] + [p];
    assert Coalesced(pages, p);
    forall j, x | 0 <= j <= TOP && x in l[j]
      ensures Head(pages, x) && pages[x].order == j && x != p
    {
      assert x in lists[j];
    }
    forall x | Head(pages, x) && x != p && pages[x].order <= TOP
      ensures x in l[pages[x].order]
    {
      assert x in lists[pages[x].order];
    }
  }

  /* page_alloc's last two steps: the head leaves its list, if it is on one, and stops being
     free. */
  lemma TakeListed(pages: Pages, lists: Lists, x: nat, k: nat)
    requires Blocks(pages) && Head(pages, x) && pages[x].order == k
    requires Listed(pages, lists, {x}) || Listed(pages, lists, {})
    ensures Listed(SetOrder(pages, x, k, false), Drop(lists, k, x), {})
  {
    assert k <= TOP && |lists| == TOP + 1;
    hide Aligned, Pow2, Blocks, Listed;
    if Listed(pages, lists, {}) {
      DropListed(pages, lists, {}, x);
      assert {} + {x} == {x};
    } else {
      DropListed(pages, lists, {x}, x);
      assert {x} + {x} == {x};
    }
    TouchListed(pages, Drop(lists, k, x), {x}, x, k, false);
    assert {x} - {x} == {};
  }

  lemma BlockOfOne(x: nat)
    ensures Block(x, 0) == {x} && Pow2(0) == 1 && Aligned(x, 0)
  {
    assert Within(x, 0, x);
  }

  /* All lists are empty exactly when no frame is free. */
  lemma EmptyLists(pages: Pages, lists: Lists)
    requires Valid(pages, lists)
    ensures (forall k :: 0 <= k <= TOP ==> lists[k] == []) <==> FreeFrames(pages) == {}
  {
    hide Aligned, Pow2;
    if k :| 0 <= k <= TOP && lists[k] != [] {
      assert lists[k][0] in lists[k];
      HeadBlockFree(pages, lists[k][0]);
      assert lists[k][0] in FreeFrames(pages);
    } else if f :| f in FreeFrames(pages) {
      var x :| Covers(pages, x, f);
      assert x in lists[pages[x].order];
    }
  }

  /* The reference count of a page plays no part in the free lists. */
  lemma RefOnly(pages: Pages, lists: Lists, x: nat, n: nat)
    requires x < |pages|
    ensures var p := pages[x := pages[x].(ref := n)];
      && (Valid(pages, lists) ==> Valid(p, lists))
      && FreeFrames(p) == FreeFrames(pages)
      && forall y :: Live(pages, y) ==> Live(p, y)
  {
    hide Aligned, Pow2, Valid, FreeFrames;
    var p := pages[x := pages[x].(ref := n)];
    assert SameHeads(pages, p);
    RefFrames(pages, p);
    if Valid(pages, lists) {
      RefValid(pages, p, lists);
    }
  }

  /* The pages agree in all but their reference counts. */
  ghost predicate SameHeads(p: Pages, q: Pages) {
    |q| == |p| && forall i :: 0 <= i < |p| ==> q[i].order == p[i].order && q[i].free == p[i].free
  }

  lemma RefFrames(p: Pages, q: Pages)
    requires SameHeads(p, q)
    ensures FreeFrames(q) == FreeFrames(p)
  {
    hide Aligned, Pow2;
    forall f
      ensures Covered(p, f) <==> Covered(q, f)
    {
      if y :| Covers(p, y, f) {
        assert Covers(q, y, f);
      }
      if y :| Covers(q, y, f) {
        assert Covers(p, y, f);
      }
    }
  }

  lemma RefValid(p: Pages, q: Pages, lists: Lists)
    requires SameHeads(p, q) && Valid(p, lists)
    ensures Valid(q, lists)
  {
    hide Aligned, Pow2, BuddyOf, Distinct;
    forall y
      ensures Head(q, y) <==> Head(p, y)
    {
    }
    assert Blocks(q);
    forall k, x | 0 <= k <= TOP && x in lists[k]
      ensures Head(q, x) && q[x].order == k
    {
      assert Head(p, x) && p[x].order == k;
    }
    forall x | Head(q, x) && q[x].order <= TOP
      ensures x in lists[q[x].order]
    {
      assert Head(p, x) && p[x].order == q[x].order && x !in {};
    }
    forall y | FreeBuddies(q, y)
      ensures FreeBuddies(p, y)
    {
      assert Head(p, y) && p[y].order == q[y].order;
      assert Head(p, BuddyOf(y, p[y].order));
    }
  }

  // ------------------------------------------------------------------ what a step leaves alone

  /* Reference counts are kept, and so is the whole record of a frame that is in use before
     and after. */
  ghost predicate Undisturbed(p: Pages, q: Pages) {
    && |p| == |q|
    && (forall i :: 0 <= i < |p| ==> q[i].ref == p[i].ref)
    && (forall i :: 0 <= i < |p| && i !in FreeFrames(p) && i !in FreeFrames(q) ==> q[i] == p[i])
  }

  lemma UndisturbedTrans(p: Pages, q: Pages, r: Pages)
    requires Undisturbed(p, q) && Undisturbed(q, r)
    requires FreeFrames(q) <= FreeFrames(p) || FreeFrames(q) <= FreeFrames(r)
    ensures Undisturbed(p, r)
  {
    hide FreeFrames;
    forall i | 0 <= i < |p| && i !in FreeFrames(p) && i !in FreeFrames(r)
      ensures r[i] == p[i]
    {
      assert i !in FreeFrames(q);
    }
  }

  /* Changing the order and flag of frames that are free before or after. */
  lemma UndisturbedSet(p: Pages, x: nat, k: nat, free: bool)
    requires x < |p| && (x in FreeFrames(p) || x in FreeFrames(SetOrder(p, x, k, free)))
    ensures Undisturbed(p, SetOrder(p, x, k, free))
  {
    hide FreeFrames;
  }

  lemma UndisturbedSet2(p: Pages, x: nat, k: nat, f: bool, y: nat, m: nat, g: bool)
    requires x < |p| && y < |p| && x in FreeFrames(p) && y in FreeFrames(p)
    ensures Undisturbed(p, SetOrder(SetOrder(p, x, k, f), y, m, g))
  {
    hide FreeFrames;
  }

  /* Everything buddy_split relies on at one level. */
  lemma SplitStep(pages: Pages, lists: Lists, off: set<int>, x: nat)
    requires Blocks(pages) && Listed(pages, lists, off) && off <= {x}
    requires Head(pages, x) && Coalesced(pages, x) && 0 < pages[x].order
    ensures |lists| == TOP + 1 && pages[x].order <= TOP
    ensures x + Pow2(pages[x].order - 1) < |pages|
    ensures Pow2(pages[x].order) == 2 * Pow2(pages[x].order - 1)
    ensures var p := Split(pages, x);
      && Blocks(p) && Coalesced(p, x) && Listed(p, SplitLists(pages, lists, x), {})
      && FreeFrames(p) == FreeFrames(pages) && Undisturbed(pages, p)
      && Head(p, x) && p[x].order == pages[x].order - 1
  {
    hide Aligned, Blocks, Listed, Coalesced, FreeFrames, Undisturbed, SplitLists, Pow2;
    OrderInRange(pages, lists, off, x);
    var k := pages[x].order - 1;
    Doubles(k);
    assert x + Pow2(k) < |pages| by { SplitBlocks(pages, x); }
    var p := Split(pages, x);
    assert Blocks(p) by { SplitBlocks(pages, x); }
    assert FreeFrames(p) == FreeFrames(pages) by { SplitFrames(pages, x); }
    assert Coalesced(p, x) by { SplitCoalesced(pages, x); }
    assert Listed(p, SplitLists(pages, lists, x), {}) by { SplitListed(pages, lists, off, x); }
    assert Undisturbed(pages, p) by {
      SplitBlocks(pages, x);
      UndisturbedSet2(pages, x, k, true, x + Pow2(k), k, true);
    }
  }

  /* Everything buddy_merge relies on at one level. */
  lemma MergeStep(pages: Pages, lists: Lists, off: set<int>, p: nat, b: nat, x: nat, k: nat)
    requires Mergeable(pages, x, k) && Listed(pages, lists, off) && off <= {p} && Coalesced(pages, p)
    requires (p == x && b == x + Pow2(k)) || (b == x && p == x + Pow2(k))
    ensures |lists| == TOP + 1
    ensures var q := Merge(pages, x, k);
      && Blocks(q) && Coalesced(q, x) && Listed(q, MergeLists(lists, p, b, x, k), {})
      && FreeFrames(q) == FreeFrames(pages) && Undisturbed(pages, q)
      && Head(q, x) && q[x].order == k + 1
  {
    hide Aligned, Pow2, Blocks, Listed, Coalesced, FreeFrames, Undisturbed, MergeLists;
    OrderInRange(pages, lists, off, x);
    var q := Merge(pages, x, k);
    assert Blocks(q) by { MergeBlocks(pages, x, k); }
    assert FreeFrames(q) == FreeFrames(pages) by { MergeFrames(pages, x, k); }
    assert Coalesced(q, x) by { MergeCoalesced(pages, x, k, p); }
    assert Listed(q, MergeLists(lists, p, b, x, k), {}) by { MergeListed(pages, lists, off, p, b, x, k); }
    assert Undisturbed(pages, q) by { UndisturbedMerge(pages, x, k); }
  }

  lemma UndisturbedMerge(pages: Pages, x: nat, k: nat)
    requires Mergeable(pages, x, k)
    ensures Undisturbed(pages, Merge(pages, x, k))
  {
    hide Aligned, Blocks, FreeFrames, Undisturbed;
    var y := x + Pow2(k);
    HeadBlockFree(pages, x);
    HeadBlockFree(pages, y);
    assert x in FreeFrames(pages) && y in FreeFrames(pages);
    UndisturbedSet2(pages, y, k, false, x, k + 1, true);
  }

  /* Everything page_alloc relies on once it has its page. */
  lemma TakeStep(pages: Pages, lists: Lists, x: nat)
    requires Blocks(pages) && Coalesced(pages, x) && Head(pages, x) && pages[x].order == 0
    requires Listed(pages, lists, {x}) || Listed(pages, lists, {})
    ensures |lists| == TOP + 1 && x in FreeFrames(pages)
    ensures var p := SetOrder(pages, x, 0, false);
      && Valid(p, Drop(lists, 0, x)) && Undisturbed(pages, p)
      && FreeFrames(p) == FreeFrames(pages) - {x} && InUse(p, x)
  {
    assert |lists| == TOP + 1;
    hide Aligned, Blocks, Listed, Coalesced, FreeFrames, Undisturbed, Without;
    TakeBlock(pages, x);
    TakeListed(pages, lists, x, 0);
    BlockOfOne(x);
    HeadBlockFree(pages, x);
    UndisturbedSet(pages, x, 0, false);
  }

  /* Everything page_free relies on when it sets the free flag. */
  lemma ReturnStep(pages: Pages, lists: Lists, x: nat)
    requires Valid(pages, lists) && Live(pages, x)
    ensures var p := SetOrder(pages, x, pages[x].order, true);
      && Blocks(p) && Coalesced(p, x) && Head(p, x) && Listed(p, lists, {x}) && Undisturbed(pages, p)
      && FreeFrames(p) == FreeFrames(pages) + Block(x, pages[x].order)
      && (pages[x].order == TOP ==> Coalesced(p, -1))
    ensures |lists| == TOP + 1
  {
    assert |lists| == TOP + 1;
    hide Aligned, Blocks, Listed, Coalesced, FreeFrames, Undisturbed;
    var k := pages[x].order;
    ReturnBlock(pages, x);
    if k == TOP {
      NothingToJoin(SetOrder(pages, x, k, true), x);
    }
    TouchListed(pages, lists, {}, x, k, true);
    assert {} + {x} == {x};
    assert Within(x, k, x) && x in Block(x, k);
    UndisturbedSet(pages, x, k, true);
  }

  /* Returning a block raises the number of free frames by its size. */
  lemma ReturnCount(pages: Pages, x: nat)
    requires Live(pages, x)
    ensures |FreeFrames(pages) + Block(x, pages[x].order)| == |FreeFrames(pages)| + Pow2(pages[x].order)
  {
    hide Aligned, Pow2, FreeFrames, Block;
    BlockSize(x, pages[x].order);
  }

  /* A single frame handed out by page_alloc. */
  ghost predicate InUse(pages: Pages, x: int) {
    0 <= x < |pages| && !pages[x].free && pages[x].order == 0 && x !in FreeFrames(pages)
  }

  lemma InUseIsLive(pages: Pages, x: nat)
    requires InUse(pages, x)
    ensures Live(pages, x) && Block(x, pages[x].order) == {x} && Pow2(pages[x].order) == 1
  {
    BlockOfOne(x);
  }

  lemma InUseKept(p: Pages, q: Pages)
    ensures Undisturbed(p, q) ==> forall x :: InUse(p, x) && x !in FreeFrames(q) ==> InUse(q, x)
    ensures Undisturbed(p, q) ==> |p| == |q| && forall x :: 0 <= x < |p| ==> q[x].ref == p[x].ref
    ensures Undisturbed(p, p)
  {
    hide FreeFrames;
  }

  lemma TenLists(pages: Pages, lists: Lists)
    requires Valid(pages, lists)
    ensures |lists| == TOP + 1
  {
  }
}
