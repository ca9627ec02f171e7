/**
 The weighted sum over the free lists that count_total_free_pages computes is the number
 of free frames.
 */
module BuddyCount {
  import opened Common
  import opened BuddyBlocks
  import opened BuddySpec

  /* Frames of the blocks of order k headed by the elements of s. */
  ghost function Union(s: seq<nat>, k: nat): set<int> {
    if s == [] then {} else Block(s[0], k) + Union(s[1..], k)
  }

  /* Frames of the blocks on the lists below order j. */
  ghost function UnionBelow(lists: Lists, j: nat): set<int>
    requires j <= |lists|
  {
    if j == 0 then {} else UnionBelow(lists, j - 1) + Union(lists[j - 1], j - 1)
  }

  /* What the loop over the orders has added up before order j. */
  function Total(lists: Lists, j: nat): nat
    requires j <= |lists|
  {
    if j == 0 then 0 else Total(lists, j - 1) + |lists[j - 1]| * Pow2(j - 1)
  }

  lemma {:induction false} InUnion(s: seq<nat>, k: nat, f: int)
    ensures f in Union(s, k) <==> exists x :: x in s && Within(x, k, f)
  {
    hide Aligned, Pow2, Coalesced;
    if s != [] {
      InUnion(s[1..], k, f);
      assert s == [s[0]] + s[1..];
    }
  }

  lemma {:induction false} InUnionBelow(lists: Lists, j: nat, f: int)
    requires j <= |lists|
    ensures f in UnionBelow(lists, j) <==> exists k, x :: 0 <= k < j && x in lists[k] && Within(x, k, f)
  {
    hide Aligned, Pow2, Coalesced;
    if j > 0 {
      InUnionBelow(lists, j - 1, f);
      InUnion(lists[j - 1], j - 1, f);
    }
  }

  lemma Apart(pages: Pages, x: int, y: int, f: int)
    requires Blocks(pages) && Head(pages, x) && Head(pages, y) && x != y
    requires Within(x, pages[x].order, f)
    ensures !Within(y, pages[y].order, f)
  {
    hide Aligned, Pow2, Coalesced;
  }

  lemma {:induction false} UnionSize(pages: Pages, s: seq<nat>, k: nat)
    requires Blocks(pages) && Distinct(s)
    requires forall x :: x in s ==> Head(pages, x) && pages[x].order == k
    ensures |Union(s, k)| == |s| * Pow2(k)
  {
    hide Aligned, Pow2, Coalesced;
    if s != [] {
      var t := s[1..];
      UnionSize(pages, t, k);
      BlockSize(s[0], k);
      assert s[0] !in t && forall x :: x in t ==> x in s;
      forall f | f in Block(s[0], k)
        ensures f !in Union(t, k)
      {
        InUnion(t, k, f);
        forall x | x in t
          ensures !Within(x, k, f)
        {
          Apart(pages, s[0], x, f);
        }
      }
      assert Block(s[0], k) !! Union(t, k);
      Distribute(|t|, Pow2(k));
    }
  }

  lemma Distribute(n: nat, s: nat)
    ensures n * s + s == (n + 1) * s
  {
  }

  lemma {:induction false} TotalBelow(pages: Pages, lists: Lists, j: nat)
    requires Valid(pages, lists) && j <= |lists|
    ensures Total(lists, j) == |UnionBelow(lists, j)|
  {
    hide Aligned, Pow2, Coalesced, Blocks, Listed, Union;
    if j > 0 {
      TotalBelow(pages, lists, j - 1);
      ListSize(pages, lists, j - 1);
      BelowApart(pages, lists, j - 1);
      hide Valid, UnionBelow;
      SumSize(UnionBelow(lists, j - 1), Union(lists[j - 1], j - 1));
    }
  }

  lemma ListSize(pages: Pages, lists: Lists, j: nat)
    requires Valid(pages, lists) && j < |lists|
    ensures |Union(lists[j], j)| == |lists[j]| * Pow2(j)
  {
    hide Aligned, Pow2, Coalesced, Blocks, Union;
    UnionSize(pages, lists[j], j);
  }

  lemma SumSize(a: set<int>, b: set<int>)
    requires a !! b
    ensures |a + b| == |a| + |b|
  {
  }

  lemma BelowApart(pages: Pages, lists: Lists, j: nat)
    requires Valid(pages, lists) && j < |lists|
    ensures UnionBelow(lists, j) !! Union(lists[j], j)
  {
    hide Aligned, Pow2, Coalesced, Blocks, Union, UnionBelow, Distinct;
    var u := Union(lists[j], j);
    forall f | f in u
      ensures f !in UnionBelow(lists, j)
    {
      InUnion(lists[j], j, f);
      var y :| y in lists[j] && Within(y, j, f);
      NotBelow(pages, lists, j, y, f);
    }
  }

  lemma {:induction false} NotBelow(pages: Pages, lists: Lists, j: nat, y: nat, f: int)
    requires Valid(pages, lists) && Head(pages, y) && j <= pages[y].order
    requires Within(y, pages[y].order, f)
    ensures f !in UnionBelow(lists, j)
  {
    hide Aligned, Pow2, Coalesced;
    if j > 0 {
      NotBelow(pages, lists, j - 1, y, f);
      var l := lists[j - 1];
      InUnion(l, j - 1, f);
      forall x | x in l
        ensures !Within(x, j - 1, f)
      {
        Apart(pages, y, x, f);
      }
    }
  }

  lemma TotalIsFreeFrames(pages: Pages, lists: Lists)
    requires Valid(pages, lists)
    ensures Total(lists, TOP + 1) == |FreeFrames(pages)|
  {
    hide Aligned, Pow2, Coalesced;
    TotalBelow(pages, lists, TOP + 1);
    forall f
      ensures f in UnionBelow(lists, TOP + 1) <==> f in FreeFrames(pages)
    {
      InUnionBelow(lists, TOP + 1, f);
      if f in FreeFrames(pages) {
        var x :| Covers(pages, x, f);
        assert x in lists[pages[x].order] && Within(x, pages[x].order, f);
      }
      if k, x :| 0 <= k < TOP + 1 && x in lists[k] && Within(x, k, f) {
        HeadBlockFree(pages, x);
      }
    }
    assert UnionBelow(lists, TOP + 1) == FreeFrames(pages);
  }
}
