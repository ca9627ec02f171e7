/**
 Clients of the buddy allocator: the frames a client holds and the free frames, with the rest
 of the allocator's state hidden.
 */
module FrameOwner {
  import opened Common
  import opened BuddyBlocks
  import opened BuddySpec
  import opened Buddy

  /* The client holds `held`; free frames have no references. */
  ghost predicate Owns(a: Allocator, held: set<int>)
    reads a
  {
    && a.Valid() && held !! a.Free()
    && (forall x :: x in held ==> InUse(a.pages, x))
    && (forall x :: x in a.Free() && 0 <= x < |a.pages| ==> a.pages[x].ref == 0)
  }

  ghost predicate SameRefs(p: Pages, q: Pages) {
    |p| == |q| && forall x :: 0 <= x < |p| ==> q[x].ref == p[x].ref
  }

  method Take(a: Allocator, ghost held: set<int>) returns (r: Option<nat>)
    requires Owns(a, held)
    modifies a
    ensures SameRefs(old(a.pages), a.pages) && a.Valid()
    ensures r.None? <==> old(a.Free()) == {}
    ensures r.None? ==> Owns(a, held) && a.Free() == old(a.Free())
    ensures r.Some? ==> Owns(a, held + {r.value}) && r.value in old(a.Free()) && a.Free() == old(a.Free()) - {r.value}
    ensures r.Some? ==> r.value < |a.pages| && a.pages[r.value].ref == 0 && r.value !in held
  {
    hide BuddySpec.Valid, FreeFrames, Undisturbed, InUse;
    r := a.PageAlloc();
    InUseKept(old(a.pages), a.pages);
    if r.Some? {
      InUseInRange(a.pages, r.value);
    }
  }

  lemma InUseInRange(pages: Pages, x: int)
    requires InUse(pages, x)
    ensures 0 <= x < |pages|
  {
  }

  method Give(a: Allocator, ghost held: set<int>, p: nat)
    requires Owns(a, held) && p in held && p < |a.pages| && a.pages[p].ref == 0
    modifies a
    ensures SameRefs(old(a.pages), a.pages) && a.Valid()
    ensures Owns(a, held - {p}) && a.Free() == old(a.Free()) + {p}
  {
    hide BuddySpec.Valid, FreeFrames, Undisturbed, InUse, Live, Block, Pow2;
    InUseIsLive(a.pages, p);
    a.PageFree(p);
    InUseKept(old(a.pages), a.pages);
  }

  /* The reference count of p becomes n; everything else stays. */
  ghost predicate RefSet(q: Pages, r: Pages, p: nat, n: nat) {
    |r| == |q| && p < |r| && r[p].ref == n && forall x :: 0 <= x < |r| && x != p ==> r[x].ref == q[x].ref
  }

  /* A 16-bit increment of pp_ref. It does not look at whether the page is free. */
  method IncRef(a: Allocator, p: nat, ghost held: set<int>)
    requires a.Valid() && p < |a.pages|
    modifies a
    ensures a.Valid() && a.Free() == old(a.Free())
    ensures RefSet(old(a.pages), a.pages, p, (old(a.pages[p].ref) + 1) % 0x10000)
    ensures old(Owns(a, held)) && p in held ==> Owns(a, held)
  {
    var n := (a.pages[p].ref + 1) % 0x10000;
    RefOnly(a.pages, a.lists, p, n);
    InUseRef(a.pages, p, n);
    hide BuddySpec.Valid, FreeFrames, InUse;
    a.pages := a.pages[p := a.pages[p].(ref := n)];
  }

  lemma InUseRef(pages: Pages, p: nat, n: nat)
    requires p < |pages| && FreeFrames(pages[p := pages[p].(ref := n)]) == FreeFrames(pages)
    ensures forall x :: InUse(pages, x) ==> InUse(pages[p := pages[p].(ref := n)], x)
  {
    hide FreeFrames;
  }

  /* page_decref on a page the client holds and that has references. */
  method Decref(a: Allocator, p: nat, ghost held: set<int>)
    requires Owns(a, held) && p in held && p < |a.pages| && a.pages[p].ref > 0
    modifies a
    ensures RefSet(old(a.pages), a.pages, p, old(a.pages[p].ref) - 1) && a.Valid()
    ensures if old(a.pages[p].ref) == 1 then Owns(a, held - {p}) && a.Free() == old(a.Free()) + {p}
            else Owns(a, held) && a.Free() == old(a.Free())
  {
    var n := a.pages[p].ref - 1;
    RefOnly(a.pages, a.lists, p, n);
    InUseRef(a.pages, p, n);
    hide BuddySpec.Valid, FreeFrames, InUse;
    a.pages := a.pages[p := a.pages[p].(ref := n)];
    if n == 0 {
      Give(a, held, p);
    }
  }

  lemma OwnsValid(a: Allocator, held: set<int>)
    requires Owns(a, held)
    ensures a.Valid()
  {
  }

  lemma HeldNotFree(a: Allocator, held: set<int>, p: int)
    requires Owns(a, held) && p in held
    ensures p !in a.Free()
  {
  }
}
