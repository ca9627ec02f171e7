/**
 The buddy allocator of kernel/mem/buddy.c: splitting, merging, page_alloc and page_free
 over the page array and the free lists, which are updated in place.
 */
module Buddy {
  import opened Common
  import opened BuddyBlocks
  import opened BuddySpec
  import opened BuddyCount

  class Allocator {
    var pages: Pages
    /* buddy_free_list: element 0 of a list is head->next, the last element head->prev. */
    var lists: Lists

    ghost predicate Valid()
      reads this
    {
      BuddySpec.Valid(pages, lists)
    }

    ghost function Free(): set<int>
      reads this
    {
      FreeFrames(pages)
    }

    /* A machine with n frames, none of them handed to the allocator yet. */
    constructor (n: nat)
      requires Aligned(n, TOP)
      ensures Valid() && Free() == {} && |pages| == n
      ensures forall x :: 0 <= x < n ==> Live(pages, x) && pages[x] == PageInfo(0, false, 0)
    {
      pages := seq(n, _ => PageInfo(0, false, 0));
      lists := seq(TOP + 1, _ => []);
    }

    /* Splits the free block lhs down to order req. Each right half goes to its free list;
       so does the left half, unless no split was needed. */
    method BuddySplit(lhs: nat, req: nat, ghost off: set<int>) returns (r: nat)
      requires Blocks(pages) && Listed(pages, lists, off) && off <= {lhs}
      requires Head(pages, lhs) && Coalesced(pages, lhs) && req <= pages[lhs].order
      modifies this
      ensures r == lhs
      ensures Blocks(pages) && Head(pages, lhs) && Coalesced(pages, lhs) && pages[lhs].order == req
      ensures Listed(pages, lists, if req == old(pages[lhs].order) then off else {})
      ensures Free() == old(Free()) && Undisturbed(old(pages), pages)
      decreases pages[lhs].order - req
    {
      InUseKept(pages, pages);
      hide Aligned, Pow2, Blocks, Listed, Coalesced, FreeFrames, Undisturbed, Without;
      if pages[lhs].order == req {
        return lhs;
      }
      SplitStep(pages, lists, off, lhs);
      var blockSize := Pow2(pages[lhs].order);
      var buddy := lhs + blockSize / 2;

      lists := Drop(lists, pages[lhs].order, lhs);
      pages := pages[lhs := pages[lhs].(order := pages[lhs].order - 1)];
      pages := pages[buddy := pages[buddy].(order := pages[lhs].order, free := true)];
      lists := Push(lists, pages[lhs].order, lhs);
      lists := Push(lists, pages[lhs].order, buddy);

      ghost var mid := pages;
      assert mid == Split(old(pages), lhs);
      r := BuddySplit(lhs, req, {});
      UndisturbedTrans(old(pages), mid, pages);
    }
  
    /* The body of the merging branch: both halves leave their list, the right half stops
       being a head, the left half moves to the next order. */
    method Join(p: nat, buddy: nat, lhs: nat, ghost off: set<int>)
      requires Head(pages, p) && Mergeable(pages, lhs, pages[p].order)
      requires (p == lhs && buddy == lhs + Pow2(pages[p].order)) || (buddy == lhs && p == lhs + Pow2(pages[p].order))
      requires Listed(pages, lists, off) && off <= {p} && Coalesced(pages, p)
      modifies this
      ensures Blocks(pages) && Coalesced(pages, lhs) && Listed(pages, lists, {})
      ensures Head(pages, lhs) && pages[lhs].order == old(pages[p].order) + 1
      ensures Free() == old(Free()) && Undisturbed(old(pages), pages)
    {
      hide Aligned, Pow2, Blocks, Listed, Coalesced, FreeFrames, Undisturbed, Without;
      ghost var k := pages[p].order;
      MergeStep(pages, lists, off, p, buddy, lhs, k);
      if buddy == lhs {
        Relink(p, buddy, lhs, p, k);
      } else {
        Relink(p, buddy, lhs, buddy, k);
      }
    }

    method Relink(p: nat, buddy: nat, lhs: nat, rhs: nat, ghost k: nat)
      requires p < |pages| && buddy < |pages| && lhs < |pages| && rhs == lhs + Pow2(k) < |pages|
      requires pages[p].order == pages[buddy].order == pages[lhs].order == k < TOP && |lists| == TOP + 1
      requires pages[lhs].free
      modifies this
      ensures pages == Merge(old(pages), lhs, k)
      ensures lists == MergeLists(old(lists), p, buddy, lhs, k)
    {
      hide Pow2, Without;
      lists := Drop(lists, pages[buddy].order, buddy);
      lists := Drop(lists, pages[p].order, p);
      pages := pages[rhs := pages[rhs].(free := false)];
      pages := pages[lhs := pages[lhs].(order := pages[lhs].order + 1)];
      lists := Push(lists, pages[lhs].order, lhs);
    }

    /* Joins the free block p with its buddy for as long as the buddy is free. Returns p if
       nothing could be joined, None if the block is already on a list. */
    method BuddyMerge(p: nat, ghost off: set<int>) returns (r: Option<nat>)
      requires Blocks(pages) && Listed(pages, lists, off) && off <= {p}
      requires Head(pages, p) && Coalesced(pages, p)
      requires pages[p].order == TOP ==> off == {}
      modifies this
      ensures Blocks(pages) && Coalesced(pages, -1)
      ensures Free() == old(Free()) && Undisturbed(old(pages), pages)
      ensures r.Some? ==> r.value == p && pages == old(pages) && lists == old(lists)
      ensures r.None? ==> Listed(pages, lists, {})
      decreases TOP - pages[p].order
    {
      hide Aligned, Pow2, Blocks, Listed, Coalesced, FreeFrames, Undisturbed;
      OrderInRange(pages, lists, off, p);
      InUseKept(pages, pages);
      var blockSize := Pow2(pages[p].order);
      if pages[p].order == TOP {
        NothingToJoin(pages, p);
        return None;
      }
      if lists[pages[p].order] == [] {
        EmptyListNoBuddy(pages, lists, off, p);
        NothingToJoin(pages, p);
        return Some(p);
      }
      BuddyInRange(pages, p);
      var buddy, lhs;
      if p % (blockSize * 2) == 0 {
        buddy, lhs := p + blockSize, p;
      } else {
        buddy := p - blockSize;
        lhs := buddy;
      }
      if pages[p].free && pages[buddy].free && pages[p].order == pages[buddy].order {
        Join(p, buddy, lhs, off);
        ghost var mid := pages;
        var _ := BuddyMerge(lhs, {});
        UndisturbedTrans(old(pages), mid, pages);
        return None;
      }
      NothingToJoin(pages, p);
      return Some(p);
    }

    /* Finds a free block of order req, splitting a larger one if need be. A block taken
       straight from its list has left it; a split block is on list req. */
    method BuddyFind(req: nat) returns (r: Option<nat>)
      requires Valid() && req <= TOP
      modifies this
      ensures r.None? <==> forall k :: req <= k <= TOP ==> old(lists)[k] == []
      ensures r.None? ==> pages == old(pages) && lists == old(lists)
      ensures r.Some? ==> Blocks(pages) && Coalesced(pages, r.value)
      ensures r.Some? ==> Head(pages, r.value) && pages[r.value].order == req
      ensures r.Some? ==> Listed(pages, lists, if old(lists)[req] != [] then {r.value} else {})
      ensures r.Some? ==> exists m :: BestFit(old(lists), req, m) && r.value == Oldest(old(lists)[m])
      ensures Free() == old(Free()) && Undisturbed(old(pages), pages)
    {
      if lists[req] != [] {
        assert BestFit(lists, req, req);
        var p := Pop(req);
        return Some(p);
      }
      var order := req + 1;
      while order <= TOP
        invariant req < order <= TOP + 1
        invariant forall k :: req <= k < order ==> lists[k] == []
        invariant pages == old(pages) && lists == old(lists)
      {
        if lists[order] != [] {
          assert BestFit(lists, req, order);
          var p := Pop(order);
          p := BuddySplit(p, req, {p});
          return Some(p);
        }
        order := order + 1;
      }
      return None;
    }

    /* list_pop: takes head->prev, the block that has been on the list longest. */
    method Pop(k: nat) returns (p: nat)
      requires Valid() && k <= TOP && lists[k] != []
      modifies `lists
      ensures p == Oldest(old(lists[k]))
      ensures Head(pages, p) && pages[p].order == k
      ensures Listed(pages, lists, {p}) && Coalesced(pages, p)
    {
      p := lists[k][|lists[k]| - 1];
      PopListed(pages, lists, k);
      lists := lists[k := lists[k][..|lists[k]| - 1]];
    }

    /* page_alloc: takes one frame. The source stops with a failed assertion where this
       returns None. */
    method PageAlloc() returns (r: Option<nat>)
      requires Valid()
      modifies this
      ensures Valid() && Undisturbed(old(pages), pages)
      ensures r.None? <==> old(Free()) == {}
      ensures r.None? ==> Free() == {}
      ensures r.Some? ==> exists m :: BestFit(old(lists), 0, m) && r.value == Oldest(old(lists)[m])
      ensures r.Some? ==> r.value in old(Free()) && Free() == old(Free()) - {r.value}
      ensures r.Some? ==> |Free()| == |old(Free())| - 1
      ensures r.Some? ==> InUse(pages, r.value)
    {
      r := BuddyFind(0);
      EmptyLists(old(pages), old(lists));
      if r.None? {
        return;
      }
      var p := r.value;
      ghost var mid := pages;
      TakeStep(pages, lists, p);
      UndisturbedTrans(old(pages), mid, SetOrder(mid, p, 0, false));
      hide Aligned, Pow2, Blocks, Listed, Coalesced, FreeFrames, Undisturbed, Without;
      pages := pages[p := pages[p].(free := false)];
      lists := Drop(lists, pages[p].order, p);
      assert pages == SetOrder(mid, p, 0, false);
    }

    /* page_free: returns a live block and joins it with its free buddies. */
    method PageFree(p: nat)
      requires Valid() && Live(pages, p) && pages[p].ref == 0
      modifies this
      ensures Valid() && Undisturbed(old(pages), pages)
      ensures Free() == old(Free()) + Block(p, old(pages[p].order))
      ensures |Free()| == |old(Free())| + Pow2(old(pages[p].order))
    {
      ReturnStep(pages, lists, p);
      ReturnCount(pages, p);
      ghost var mid := SetOrder(pages, p, pages[p].order, true);
      hide Aligned, Pow2, Block, Blocks, Listed, Coalesced, FreeFrames, Undisturbed, Without;
      pages := pages[p := pages[p].(free := true)];
      assert pages == mid;
      var r := Some(p);
      if pages[p].order != TOP {
        r := BuddyMerge(p, {p});
        UndisturbedTrans(old(pages), mid, pages);
      }
      if r.None? {
        return;
      }
      PushListed(pages, lists, {p}, p);
      assert {p} - {p} == {};
      lists := Push(lists, pages[p].order, p);
    }

    /* page_decref: a 16-bit decrement, then page_free when the count reaches 0. */
    method PageDecref(p: nat)
      requires Valid() && p < |pages| && pages[p].ref < 0x10000
      requires pages[p].ref == 1 ==> Live(pages, p)
      modifies this
      ensures Valid() && |pages| == |old(pages)|
      ensures pages[p].ref == if old(pages[p].ref) == 0 then 0xffff else old(pages[p].ref) - 1
      ensures forall i :: 0 <= i < |pages| && i != p ==> pages[i].ref == old(pages)[i].ref
      ensures Free() == old(Free()) + if old(pages[p].ref) == 1 then Block(p, old(pages[p].order)) else {}
      ensures forall i :: 0 <= i < |pages| && i != p && i !in Free() ==> pages[i] == old(pages)[i]
      ensures old(pages[p].ref) != 1 ==> pages[p] == old(pages[p]).(ref := pages[p].ref)
    {
      hide FreeFrames, BuddySpec.Live, Block, BuddySpec.Valid, Pow2;
      var n := if pages[p].ref == 0 then 0xffff else pages[p].ref - 1;
      RefOnly(pages, lists, p, n);
      pages := pages[p := pages[p].(ref := n)];
      if pages[p].ref == 0 {
        ghost var mid := pages;
        PageFree(p);
        assert forall i :: 0 <= i < |pages| && i != p ==> mid[i] == old(pages)[i];
      }
    }

    /* count_free_pages: walks one free list. */
    method CountFreePages(order: nat) returns (n: nat)
      requires Valid()
      ensures n == if order <= TOP then |lists[order]| else 0
    {
      n := 0;
      if order > TOP {
        return;
      }
      var node := 0;
      while node < |lists[order]|
        invariant 0 <= node <= |lists[order]| && n == node
      {
        n := n + 1;
        node := node + 1;
      }
    }

    /* count_total_free_pages: the weighted sum over the lists is the number of free frames. */
    method CountTotalFreePages() returns (nfree: nat)
      requires Valid()
      ensures nfree == |Free()|
    {
      nfree := 0;
      var order := 0;
      while order <= TOP
        invariant 0 <= order <= TOP + 1
        invariant nfree == Total(lists, order)
      {
        var n := CountFreePages(order);
        nfree := nfree + n * Pow2(order);
        order := order + 1;
      }
      TotalIsFreeFrames(pages, lists);
    }

    /* One request of a client that holds the frames `held`. A request to free a frame that
       is not held is ignored. */
    method Serve(held: set<int>, op: Op) returns (r: Option<nat>, held': set<int>)
      requires Valid() && held !! Free() && HeldInUse(held) && Unreferenced(held + Free())
      modifies this
      ensures Valid() && held' !! Free() && HeldInUse(held')
      ensures held' + Free() == held + old(Free()) && held' == Holding(held, op, r)
      ensures op.Alloc? ==> (r.None? <==> old(Free()) == {}) && (r.Some? ==> r.value in old(Free()))
      ensures op.Free? ==> r.None?
      ensures |pages| == |old(pages)| && forall x :: 0 <= x < |pages| ==> pages[x].ref == old(pages)[x].ref
    {
      hide BuddySpec.Valid, FreeFrames, Block, Undisturbed, InUse, Pow2, Live;
      r, held' := None, held;
      match op {
        case Alloc =>
          r := PageAlloc();
          if r.Some? {
            held' := held + {r.value};
          }
        case Free(p) =>
          if p in held {
            assert InUse(pages, p);
            InUseIsLive(pages, p);
            PageFree(p);
            held' := held - {p};
          }
      }
      InUseKept(old(pages), pages);
    }

    ghost predicate HeldInUse(held: set<int>)
      reads this
    {
      forall x :: x in held ==> InUse(pages, x)
    }

    ghost predicate Unreferenced(s: set<int>)
      reads this
    {
      forall x :: x in s && 0 <= x < |pages| ==> pages[x].ref == 0
    }

    /* Any run of page_alloc and page_free calls: what is held follows from the requests and
       their results, a request fails if and only if everything is held, the frames held and the
       free frames always partition the initial free frames, and the free lists are the canonical
       decomposition of what is not held. */
    method Run(ops: seq<Op>) returns (results: seq<Option<nat>>, held: set<int>)
      requires Valid() && Unreferenced(Free())
      modifies this
      ensures |results| == |ops| && held == HeldAfter(ops, results) && Answered(old(Free()), ops, results)
      ensures Valid() && |lists| == TOP + 1
      ensures held !! Free() && held + Free() == old(Free())
      ensures forall k, x: nat :: 0 <= k <= TOP ==> (x in lists[k] <==> Maximal(old(Free()) - held, x, k))
    {
      hide BuddySpec.Valid, FreeFrames, Undisturbed, InUse, Maximal, Holding, HeldAfter, Answered;
      held, results := {}, [];
      NothingYet(Free());
      for i := 0 to |ops|
        invariant Valid() && HeldInUse(held)
        invariant |results| == i && held == HeldAfter(ops[..i], results) && Answered(old(Free()), ops[..i], results)
        invariant held !! Free() && held + Free() == old(Free())
        invariant |pages| == |old(pages)| && forall x :: 0 <= x < |pages| ==> pages[x].ref == old(pages)[x].ref
      {
        ghost var held0 := held;
        assert Free() == old(Free()) - held0;
        var r;
        r, held := Serve(held, ops[i]);
        assert ops[..i + 1] == ops[..i] + [ops[i]];
        OneMore(old(Free()), ops[..i], results, ops[i], r);
        results := results + [r];
      }
      assert ops[..|ops|] == ops;
      assert old(Free()) - held == Free();
      TenLists(pages, lists);
      forall k, x: nat | 0 <= k <= TOP
        ensures x in lists[k] <==> Maximal(Free(), x, k)
      {
        Canonical(pages, lists, x, k);
      }
    }

    /* Taking a frame and returning it leaves every free list with the same blocks. */
    method AllocThenFree() returns (r: Option<nat>)
      requires Valid() && Unreferenced(Free())
      modifies this
      ensures Valid() && Free() == old(Free()) && (r.None? <==> Free() == {}) && (r.Some? ==> r.value in Free())
      ensures forall k :: 0 <= k <= TOP ==> multiset(lists[k]) == multiset(old(lists)[k])
    {
      hide BuddySpec.Valid, FreeFrames, Block, InUse, Pow2, Live;
      r := PageAlloc();
      if r.Some? {
        InUseIsLive(pages, r.value);
        PageFree(r.value);
      }
      CanonicalLists(pages, lists, old(pages), old(lists));
    }
  }

  datatype Op = Alloc | Free(p: nat)

  /* What a client holds after one request, and after a run of them. */
  function Holding(held: set<int>, op: Op, r: Option<nat>): set<int> {
    match op
    case Alloc => if r.Some? then held + {r.value} else held
    case Free(p) => held - {p}
  }

  function HeldAfter(ops: seq<Op>, results: seq<Option<nat>>): set<int>
    requires |results| == |ops|
  {
    var n := |ops| - 1;
    if ops == [] then {} else Holding(HeldAfter(ops[..n], results[..n]), ops[n], results[n])
  }

  /* Every allocation gives a frame of the pool that is not held, and fails if and only if there
     is none. */
  ghost predicate Answered(pool: set<int>, ops: seq<Op>, results: seq<Option<nat>>)
    requires |results| == |ops|
  {
    forall i :: 0 <= i < |ops| ==> AnsweredAt(pool, ops, results, i)
  }

  ghost predicate AnsweredAt(pool: set<int>, ops: seq<Op>, results: seq<Option<nat>>, i: int)
    requires 0 <= i < |results| == |ops|
  {
    var held := HeldAfter(ops[..i], results[..i]);
    if ops[i].Alloc? then (results[i].None? <==> pool <= held) && (results[i].Some? ==> results[i].value in pool - held)
    else results[i].None?
  }

  lemma NothingYet(pool: set<int>)
    ensures HeldAfter([], []) == {} && Answered(pool, [], [])
  {
  }

  lemma OneMore(pool: set<int>, ops: seq<Op>, results: seq<Option<nat>>, op: Op, r: Option<nat>)
    requires |results| == |ops| && Answered(pool, ops, results)
    requires var held := HeldAfter(ops, results);
      if op.Alloc? then (r.None? <==> pool <= held) && (r.Some? ==> r.value in pool - held) else r.None?
    ensures HeldAfter(ops + [op], results + [r]) == Holding(HeldAfter(ops, results), op, r)
    ensures Answered(pool, ops + [op], results + [r])
  {
    hide Holding;
    var n, ops', results' := |ops|, ops + [op], results + [r];
    assert ops'[..n] == ops && results'[..n] == results;
    forall i | 0 <= i < |ops'|
      ensures AnsweredAt(pool, ops', results', i)
    {
      if i < n {
        assert ops'[..i] == ops[..i] && results'[..i] == results[..i];
        assert AnsweredAt(pool, ops, results, i);
      }
    }
  }

  /* Order m is the smallest from req up whose list has a block. */
  ghost predicate BestFit(lists: Lists, req: nat, m: int) {
    |lists| == TOP + 1 && req <= m <= TOP && lists[m] != [] && forall k :: req <= k < m ==> lists[k] == []
  }

  function Oldest(s: seq<nat>): nat
    requires s != []
  {
    s[|s| - 1]
  }

  /* A free list is a queue: Oldest keeps naming the same block while blocks are pushed, and names
     the pushed one when all that were there have been popped. */
  lemma FirstInFirstOut(lists: Lists, k: nat, x: nat)
    requires k < |lists|
    ensures var q := Push(lists, k, x)[k];
      && q != [] && Oldest(q) == (if lists[k] == [] then x else Oldest(lists[k]))
      && (lists[k] != [] ==> q[..|q| - 1] == Push(lists[k := lists[k][..|lists[k]| - 1]], k, x)[k])
  {
  }
}
