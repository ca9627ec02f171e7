/**
 kmalloc and kfree of kernel/mem/kmem.c over the slabs of one CPU, with their pages taken from
 and returned to the buddy allocator.
 */
module Slab {
  import opened Common
  import opened SlabSpec
  import BuddySpec
  import Buddy
  import FrameOwner

  const WORD := 0x1_0000_0000_0000_0000

  class Kmem {
    const buddy: Buddy.Allocator
    var slabs: seq<SlabSpec.Slab>
    /* The footers, and the info field of every object header. */
    var infos: Infos
    var owner: map<nat, nat>

    /* Lists, footers and headers are right, but for pages in `idle`, whose objects are all
       free; the pages are held from the buddy allocator. */
    ghost predicate ValidBut(idle: set<nat>)
      reads this, buddy
    {
      && ListsOk(slabs, infos) && InfosOk(infos, idle) && OwnersOk(infos, owner)
      && Held(buddy, infos)
    }

    ghost predicate Valid()
      reads this, buddy
    {
      ValidBut({})
    }

    /* The frames that are slab pages or free. */
    ghost function Pool(): set<int>
      reads this, buddy
    {
      SetOfKeys(infos) + buddy.Free()
    }

    /* kmem_init */
    constructor (buddy: Buddy.Allocator)
      requires FrameOwner.Owns(buddy, {})
      ensures Valid() && this.buddy == buddy && infos == map[]
    {
      this.buddy := buddy;
      infos, owner := map[], map[];
      new;
      var s := [];
      for i := 0 to SLABS
        invariant |s| == i && forall j :: 0 <= j < i ==> s[j] == Slab(ShapeOf(j), [], [])
      {
        s := s + [Slab(Setup((i + 1) * ALIGN), [], [])];
      }
      slabs := s;
      assert SetOfKeys(map[]) == {};
    }

    /* The loop of slab_alloc_chunk over the objects of the new page f. */
    method InitObjects(i: nat, f: nat) returns (info: Info)
      requires i < SLABS && i < |slabs| && slabs[i].shape == ShapeOf(i) && f !in infos
      requires OwnersOk(infos, owner)
      modifies `owner
      ensures info.slab == i && info.freeCount == |info.free| == ShapeOf(i).count && InfoOk(f, info)
      ensures OwnersOk(infos[f := info], owner)
    {
      hide IsObj, ShapeOf, OwnersOk, Obj;
      info := Info(i, [], 0);
      var s := slabs[i].shape;
      ghost var owner0 := owner;
      OwnersStart(infos, f, owner);
      var j := 0;
      while j < s.count
        invariant j <= s.count && info.slab == i && info.freeCount == |info.free| == j && InfoOk(f, info)
        invariant forall h :: h in info.free ==> h < Obj(s, f, j)
        invariant OwnersOk(infos, owner) && OwnersUpTo(s, f, j, owner)
      {
        var obj := Obj(s, f, j);
        OwnersNext(infos, s, f, j, owner, i);
        BuddySpec.DistinctCons(obj, info.free);
        owner := owner[obj := f];
        info := info.(free := [obj] + info.free);
        info := info.(freeCount := info.freeCount + 1);
        j := j + 1;
      }
      OwnersEnd(infos, f, info, owner);
    }

    /* slab_alloc_chunk: a page becomes a slab page with all its objects free. */
    method SlabAllocChunk(i: nat) returns (ok: bool)
      requires Valid() && i < SLABS
      modifies this, buddy
      ensures |slabs| == SLABS && Pool() == old(Pool()) && SameLive(old(infos), infos)
      ensures ok <==> old(buddy.Free()) != {}
      ensures !ok ==> Valid() && infos == old(infos) && buddy.Free() == {}
      ensures ok ==> slabs[i].partial != [] && slabs[i].partial[0] !in old(infos) && ValidBut({slabs[i].partial[0]})
      ensures ok ==> OneFrame(old(infos), infos, old(buddy.Free()), buddy.Free())
    {
      hide ShapeOf, InfoOk, Live, OwnersOk, Buddy.Allocator.Free, FrameOwner.Owns, InfosOk, ListsOk;
      ListsShape(slabs, infos, i);
      ghost var held := SetOfKeys(infos);
      var r := FrameOwner.Take(buddy, held);
      HeldKept(old(buddy.pages), buddy.pages, infos);
      if r.None? {
        return false;
      }
      var f := r.value;
      NotHeld(infos, f);
      var info := InitObjects(i, f);
      AddPage(slabs, infos, i, f, info.free) by { InfoParts(f, info); }
      HeldAdded(infos, f, info);
      infos := infos[f := info];
      slabs := slabs[i := slabs[i].(partial := [f] + slabs[i].partial)];
      ok := true;
    }

    /* The part of slab_alloc after a partial page is there: its first free object is taken,
       and the page moves to the full list when that was the last one. */
    method TakeObject(i: nat, ghost idle: set<nat>) returns (h: nat)
      requires ValidBut(idle) && i < SLABS && |slabs| == SLABS && slabs[i].partial != [] && idle <= {slabs[i].partial[0]}
      modifies this
      ensures Valid() && Pool() == old(Pool()) && infos.Keys == old(infos.Keys) && Gained(old(infos), infos, h, i)
      ensures FirstFree(old(slabs), old(infos), i, h)
    {
      hide ShapeOf, InfoOk, Live, OwnersOk, Buddy.Allocator.Free, FrameOwner.Owns, InfosOk, ListsOk, IsObj;
      ListsShape(slabs, infos, i);
      var f := slabs[i].partial[0];
      InfosAt(infos, idle, f);
      TakeInfos(infos, idle, f);
      TakeLists(slabs, infos, f);
      forall g: nat
        ensures Live(TakeInfo(infos, f), g) <==> Live(infos, g) || g == infos[f].free[0]
      {
        TakeLive(infos, f, g);
      }
      TakeLive(infos, f, 0);
      OwnersSame(infos, TakeInfo(infos, f), owner);
      var info := infos[f];
      h := info.free[0];
      infos := infos[f := Info(info.slab, info.free[1..], info.freeCount - 1)];
      if infos[f].free == [] {
        slabs := slabs[i := slabs[i].(partial := BuddySpec.Without(slabs[i].partial, f), full := [f] + slabs[i].full)];
      }
    }

    /* slab_alloc: the address just after the header of an object that was not live. A page of
       the slab with a free object serves the request, and otherwise a new page. */
    method SlabAlloc(i: nat) returns (r: Option<nat>)
      requires Valid() && i < SLABS
      modifies this, buddy
      ensures Valid() && Pool() == old(Pool())
      ensures Served(old(infos), old(buddy.Free()), infos, buddy.Free(), i, r)
      ensures r.Some? && HasRoom(old(infos), i) ==> r.value >= OBJ && FirstFree(old(slabs), old(infos), i, r.value - OBJ)
    {
      PartialRoom(slabs, infos, i);
      hide ShapeOf, InfoOk, Live, OwnersOk, Buddy.Allocator.Free, FrameOwner.Owns, InfosOk, ListsOk, IsObj, HasRoom, OneFrame, Gained, SameLive, Served;
      if slabs[i].partial == [] {
        r := AllocNew(i);
        return;
      }
      ghost var infos0 := infos;
      var h := TakeObject(i, {});
      r := Some(h + OBJ);
      ServedOld(infos0, infos, buddy.Free(), i, h);
    }

    method AllocNew(i: nat) returns (r: Option<nat>)
      requires Valid() && i < SLABS && !HasRoom(infos, i)
      modifies this, buddy
      ensures Valid() && Pool() == old(Pool())
      ensures Served(old(infos), old(buddy.Free()), infos, buddy.Free(), i, r)
    {
      hide ShapeOf, InfoOk, Live, OwnersOk, Buddy.Allocator.Free, FrameOwner.Owns, InfosOk, ListsOk, IsObj, HasRoom, OneFrame, Gained, SameLive, Served;
      ghost var infos0, free0 := infos, buddy.Free();
      var ok := SlabAllocChunk(i);
      if !ok {
        ServedNot(infos0, i);
        return None;
      }
      ghost var infos1 := infos;
      var h := TakeObject(i, {slabs[i].partial[0]});
      r := Some(h + OBJ);
      ServedNew(infos0, infos1, infos, free0, buddy.Free(), i, h);
    }

    /* slab_free: the object goes back to its page's free list, and the page to the buddy
       allocator when no other object of it is live. */
    method SlabFree(p: nat)
      requires Valid() && p >= OBJ && Live(infos, p - OBJ)
      modifies this, buddy
      ensures Valid() && Pool() == old(Pool()) && Lost(old(infos), old(buddy.Free()), infos, buddy.Free(), p - OBJ)
      ensures BackInFront(old(slabs), old(infos), slabs, infos, p - OBJ)
    {
      hide ShapeOf, InfoOk, OwnersOk, Buddy.Allocator.Free, FrameOwner.Owns, InfosOk, ListsOk, IsObj;
      var h := p - OBJ;
      LiveOwner(infos, owner, h);
      var f := owner[h];
      var info := infos[f];
      var i := info.slab;
      hide Live;
      ListsShape(slabs, infos, i);
      PutInfos(infos, f, h);
      PutLists(slabs, infos, f, h);
      forall g: nat
        ensures Live(PutInfo(infos, f, h), g) <==> Live(infos, g) && g != h
      {
        PutLive(infos, f, h, g);
      }
      OwnersSame(infos, PutInfo(infos, f, h), owner);
      LastObject(infos, f, h);
      if info.free == [] {
        slabs := slabs[i := slabs[i].(full := BuddySpec.Without(slabs[i].full, f), partial := [f] + slabs[i].partial)];
      }
      infos := infos[f := Info(i, [h] + info.free, info.freeCount + 1)];
      assert infos.Keys == old(infos.Keys);
      if infos[f].freeCount >= slabs[i].shape.count {
        SlabFreeChunk(i, f);
      }
    }

    /* slab_free_chunk: an idle page leaves the partial list and goes back. The address of the
       page is that of the footer less infoOff. */
    method SlabFreeChunk(i: nat, f: nat)
      requires ValidBut({f}) && f in infos && infos[f].slab == i < SLABS
      modifies this, buddy
      ensures Valid() && infos == old(infos) - {f} && buddy.Free() == old(buddy.Free()) + {f}
      ensures forall g :: Live(infos, g) <==> Live(old(infos), g)
    {
      hide ShapeOf, InfoOk, Live, OwnersOk, Buddy.Allocator.Free, FrameOwner.Owns, InfosOk, ListsOk, IsObj;
      ListsShape(slabs, infos, i);
      DropPage(slabs, infos, f);
      OwnersDrop(infos, f, owner);
      slabs := slabs[i := slabs[i].(partial := BuddySpec.Without(slabs[i].partial, f))];
      var foot := f * 4096 + slabs[i].shape.infoOff;
      var page := (foot - slabs[i].shape.infoOff) / 4096;
      ghost var held := SetOfKeys(infos);
      FrameOwner.Give(buddy, held, page);
      HeldKept(old(buddy.pages), buddy.pages, infos);
      infos := infos - {f};
      assert SetOfKeys(infos) == held - {f};
    }

    /* kmalloc, in 64-bit arithmetic. The smallest slab that fits serves the request; the
       largest serves 1024 bytes. */
    method Kmalloc(size: nat) returns (r: Option<nat>)
      requires Valid() && size < WORD
      modifies this, buddy
      ensures Valid() && Pool() == old(Pool())
      ensures !(0 < size <= 1024) ==> r.None? && infos == old(infos) && buddy.Free() == old(buddy.Free())
      ensures 0 < size <= 1024 ==> Served(old(infos), old(buddy.Free()), infos, buddy.Free(), (size - 1) / ALIGN, r)
      ensures r.Some? ==> size + OBJ <= ShapeOf((size - 1) / ALIGN).objSize
    {
      hide Gained, ShapeOf, ListsOk, InfosOk, OwnersOk, Held, Buddy.Allocator.Free, Served;
      if size == 0 {
        return None;
      }
      var rounded := (size + ALIGN - 1) % WORD / ALIGN * ALIGN;
      var index := (rounded / ALIGN + WORD - 1) % WORD;
      if index >= SLABS {
        return None;
      }
      assert index == (size - 1) / ALIGN;
      r := SlabAlloc(index);
    }

    /* kfree */
    method Kfree(p: nat)
      requires Valid() && p >= OBJ && Live(infos, p - OBJ)
      modifies this, buddy
      ensures Valid() && Pool() == old(Pool()) && Lost(old(infos), old(buddy.Free()), infos, buddy.Free(), p - OBJ)
    {
      SlabFree(p);
    }

    /* Any run of kmalloc and kfree calls from an empty state; a kfree of an address that is
       not held is skipped. Every call does what `Step` says. What is held is what is live, and
       blocks have the bytes asked for, clear of every other block and its header. */
    method Run(ops: seq<Op>) returns (results: seq<Option<nat>>, held: map<nat, nat>, ghost snaps: seq<Snap>)
      requires Valid() && infos == map[]
      modifies this, buddy
      ensures |results| == |ops| && |snaps| == |ops| + 1 && snaps[0] == Snap(map[], old(buddy.Free()), map[])
      ensures snaps[|ops|] == Snap(infos, buddy.Free(), held)
      ensures forall i :: 0 <= i < |ops| ==> Step(snaps[i], ops[i], results[i], snaps[i + 1])
      ensures Valid() && Pool() == old(Pool()) && HeldIsLive(held, infos) && Roomy(held, infos)
      ensures forall p, q :: p in held && q in held && p < q ==> p + held[p] + OBJ <= q
    {
      hide Live, ShapeOf, ListsOk, InfosOk, OwnersOk, Held, Buddy.Allocator.Free, HeldIsLive, Roomy, Step;
      held, results, snaps := map[], [], [Snap(infos, buddy.Free(), map[])];
      NothingHeld();
      for n := 0 to |ops|
        invariant Valid() && Pool() == old(Pool()) && HeldIsLive(held, infos) && Roomy(held, infos)
        invariant |results| == n && |snaps| == n + 1 && snaps[0] == Snap(map[], old(buddy.Free()), map[])
        invariant snaps[n] == Snap(infos, buddy.Free(), held)
        invariant forall i :: 0 <= i < n ==> Step(snaps[i], ops[i], results[i], snaps[i + 1])
      {
        var r;
        r, held := Do(ops[n], held);
        results := results + [r];
        snaps := snaps + [Snap(infos, buddy.Free(), held)];
      }
      forall p, q | p in held && q in held && p < q
        ensures p + held[p] + OBJ <= q
      {
        HeldApart(held, infos, p, q);
      }
    }

    method Do(op: Op, held: map<nat, nat>) returns (r: Option<nat>, held': map<nat, nat>)
      requires Valid() && HeldIsLive(held, infos) && Roomy(held, infos)
      modifies this, buddy
      ensures Valid() && Pool() == old(Pool()) && HeldIsLive(held', infos) && Roomy(held', infos)
      ensures Step(Snap(old(infos), old(buddy.Free()), held), op, r, Snap(infos, buddy.Free(), held'))
    {
      hide Live, ShapeOf, ListsOk, InfosOk, OwnersOk, Held, Buddy.Allocator.Free, HeldIsLive, Roomy, Served, Lost;
      r, held' := None, held;
      ghost var infos0, free0 := infos, buddy.Free();
      match op {
        case Alloc(size) =>
          if size < WORD {
            r := Kmalloc(size);
            if r.Some? {
              ServedGained(infos0, free0, infos, buddy.Free(), (size - 1) / ALIGN, r);
              HeldGained(held, infos0, infos, r.value, size);
              held' := held[r.value := size];
            } else if 0 < size <= 1024 {
              ServedGained(infos0, free0, infos, buddy.Free(), (size - 1) / ALIGN, r);
            }
          }
        case Free(p) =>
          if p in held {
            HeldAt(held, infos, p);
            Kfree(p);
            LostLive(infos0, free0, infos, buddy.Free(), p - OBJ);
            HeldLost(held, infos0, infos, p);
            held' := held - {p};
          }
      }
    }
  }

  /* The slab pages, the free frames and the blocks held with their sizes. */
  datatype Snap = Snap(infos: Infos, free: set<int>, held: map<nat, nat>)

  /* What a call does to what is held, to the slab pages and to the free frames. */
  ghost predicate Step(s: Snap, op: Op, r: Option<nat>, s': Snap) {
    match op
    case Alloc(size) =>
      if 0 < size <= 1024 then
        && Served(s.infos, s.free, s'.infos, s'.free, (size - 1) / ALIGN, r)
        && s'.held == if r.Some? then s.held[r.value := size] else s.held
      else r.None? && s' == s
    case Free(p) =>
      && r.None?
      && if p in s.held && p >= OBJ then s'.held == s.held - {p} && Lost(s.infos, s.free, s'.infos, s'.free, p - OBJ) else s' == s
  }

  /* Exactly the object h has stopped being live, and its page has gone back if it was alone. */
  ghost predicate Lost(infos: Infos, free: set<int>, infos': Infos, free': set<int>, h: nat) {
    && Extends(infos', infos) && (forall g :: Live(infos', g) <==> Live(infos, g) && g != h)
    && if AloneOnPage(infos, h) then infos'.Keys == infos.Keys - {h / 4096} && free' == free + {h / 4096}
       else infos'.Keys == infos.Keys && free' == free
  }

  lemma LostLive(infos: Infos, free: set<int>, infos': Infos, free': set<int>, h: nat)
    requires Lost(infos, free, infos', free', h)
    ensures Extends(infos', infos) && forall g :: Live(infos', g) <==> Live(infos, g) && g != h
  {
  }

  lemma ServedGained(infos: Infos, free: set<int>, infos': Infos, free': set<int>, i: nat, r: Option<nat>)
    requires Served(infos, free, infos', free', i, r)
    ensures r.Some? ==> r.value >= OBJ && Gained(infos, infos', r.value - OBJ, i)
    ensures r.None? ==> infos' == infos && free' == free
  {
    hide Gained, HasRoom, OneFrame;
  }

  datatype Op = Alloc(size: nat) | Free(p: nat)

  ghost function SetOfKeys(infos: Infos): set<int> {
    infos.Keys
  }

  ghost predicate NoRefs(pages: BuddySpec.Pages, infos: Infos) {
    forall f :: f in infos ==> f < |pages| && pages[f].ref == 0
  }

  ghost predicate Held(buddy: Buddy.Allocator, infos: Infos)
    reads buddy
  {
    FrameOwner.Owns(buddy, SetOfKeys(infos)) && NoRefs(buddy.pages, infos)
  }

  lemma HeldKept(p: BuddySpec.Pages, q: BuddySpec.Pages, infos: Infos)
    requires NoRefs(p, infos) && FrameOwner.SameRefs(p, q)
    ensures NoRefs(q, infos)
  {
  }

  lemma NotHeld(infos: Infos, f: nat)
    requires f !in SetOfKeys(infos)
    ensures f !in infos
  {
  }

  lemma HeldAdded(infos: Infos, f: nat, info: Info)
    ensures SetOfKeys(infos[f := info]) == SetOfKeys(infos) + {f}
  {
  }

  lemma ListsShape(slabs: seq<SlabSpec.Slab>, infos: Infos, i: nat)
    requires ListsOk(slabs, infos) && i < SLABS
    ensures |slabs| == SLABS && slabs[i].shape == ShapeOf(i)
    ensures forall f :: f in slabs[i].partial ==> f in infos && infos[f].slab == i && infos[f].free != []
    ensures forall f :: f in infos && infos[f].slab == i && infos[f].free != [] ==> f in slabs[i].partial
  {
    hide ShapeOf;
  }

  lemma InfoParts(f: nat, info: Info)
    requires InfoOk(f, info)
    ensures Distinct(info.free) && info.slab < SLABS && forall h :: h in info.free ==> IsObj(ShapeOf(info.slab), f, h)
  {
  }

  /* The first j objects of page f point to its footer. */
  ghost predicate OwnersUpTo(s: Shape, f: nat, j: nat, owner: map<nat, nat>) {
    forall k: nat :: k < j ==> Obj(s, f, k) in owner && owner[Obj(s, f, k)] == f
  }

  lemma OwnersStart(infos: Infos, f: nat, owner: map<nat, nat>)
    ensures forall s: Shape :: OwnersUpTo(s, f, 0, owner)
  {
  }

  lemma OwnersNext(infos: Infos, s: Shape, f: nat, j: nat, owner: map<nat, nat>, i: nat)
    requires i < SLABS && s == ShapeOf(i) && j < s.count && f !in infos
    requires OwnersOk(infos, owner) && OwnersUpTo(s, f, j, owner)
    ensures var obj := Obj(s, f, j);
      && OwnersOk(infos, owner[obj := f]) && OwnersUpTo(s, f, j + 1, owner[obj := f])
      && IsObj(s, f, obj) && obj < Obj(s, f, j + 1)
  {
    hide ShapeOf;
    var obj := Obj(s, f, j);
    assert IsObj(s, f, obj);
    ObjInPage(s, f, obj);
    Multiple(j, j + 1, s.objSize);
    hide Obj;
    forall g, h | g in infos && infos[g].slab < SLABS && IsObj(ShapeOf(infos[g].slab), g, h)
      ensures h != obj
    {
      ObjInPage(ShapeOf(infos[g].slab), g, h);
    }
  }

  lemma OwnersEnd(infos: Infos, f: nat, info: Info, owner: map<nat, nat>)
    requires info.slab < SLABS && OwnersOk(infos, owner) && OwnersUpTo(ShapeOf(info.slab), f, ShapeOf(info.slab).count, owner)
    ensures OwnersOk(infos[f := info], owner)
  {
    hide ShapeOf, Obj;
  }

  /* A page of slab i has a free object. */
  ghost predicate HasRoom(infos: Infos, i: nat) {
    exists f :: f in infos && infos[f].slab == i && infos[f].free != []
  }

  /* h is the first free object of the first partial page of slab i. */
  ghost predicate FirstFree(slabs: seq<SlabSpec.Slab>, infos: Infos, i: nat, h: nat) {
    && i < |slabs| && slabs[i].partial != []
    && var f := slabs[i].partial[0]; f in infos && infos[f].free != [] && h == infos[f].free[0]
  }

  /* If the page of h has stayed, h is its first free object, and a page that was full is now the
     first partial page. */
  ghost predicate BackInFront(slabs: seq<SlabSpec.Slab>, infos: Infos, slabs': seq<SlabSpec.Slab>, infos': Infos, h: nat) {
    var f := h / 4096;
    f in infos && f in infos' ==>
      && infos'[f].free == [h] + infos[f].free
      && (infos[f].free == [] ==> FirstFree(slabs', infos', infos[f].slab, h))
  }

  lemma PartialRoom(slabs: seq<Slab>, infos: Infos, i: nat)
    requires ListsOk(slabs, infos) && i < SLABS
    ensures |slabs| == SLABS && (slabs[i].partial != [] <==> HasRoom(infos, i))
  {
    hide ShapeOf, Distinct;
    if slabs[i].partial != [] {
      var f := slabs[i].partial[0];
      assert f in slabs[i].partial;
      assert f in infos && infos[f].slab == i && infos[f].free != [];
    }
    if f :| f in infos && infos[f].slab == i && infos[f].free != [] {
      assert f in slabs[i].partial;
    }
  }

  /* One frame has left the free frames and become a slab page. */
  ghost predicate OneFrame(infos: Infos, infos': Infos, free: set<int>, free': set<int>) {
    exists f: nat :: f in free && free' == free - {f} && infos'.Keys == infos.Keys + {f}
  }

  lemma OneFrameKeys(infos: Infos, infos1: Infos, infos2: Infos, free: set<int>, free': set<int>)
    requires OneFrame(infos, infos1, free, free') && infos2.Keys == infos1.Keys
    ensures OneFrame(infos, infos2, free, free')
  {
  }

  /* Exactly the object h, of slab i, has become live. */
  ghost predicate Gained(infos: Infos, infos': Infos, h: nat, i: nat) {
    && i < SLABS && h / 4096 in infos' && infos'[h / 4096].slab == i && IsObj(ShapeOf(i), h / 4096, h)
    && !Live(infos, h) && (forall g :: Live(infos', g) <==> Live(infos, g) || g == h) && Extends(infos, infos')
  }

  /* What slab_alloc does: it fails if and only if no frame is free and no page of the slab has a
     free object. It takes a frame only if no page has one. */
  ghost predicate Served(infos: Infos, free: set<int>, infos': Infos, free': set<int>, i: nat, r: Option<nat>) {
    && (r.None? <==> free == {} && !HasRoom(infos, i))
    && (if r.None? then infos' == infos && free' == free
        else
          && r.value >= OBJ && Gained(infos, infos', r.value - OBJ, i)
          && if HasRoom(infos, i) then infos'.Keys == infos.Keys && free' == free else OneFrame(infos, infos', free, free'))
  }

  lemma ServedNot(infos: Infos, i: nat)
    requires !HasRoom(infos, i)
    ensures Served(infos, {}, infos, {}, i, None)
  {
  }

  lemma ServedOld(infos: Infos, infos': Infos, free: set<int>, i: nat, h: nat)
    requires HasRoom(infos, i) && Gained(infos, infos', h, i) && infos'.Keys == infos.Keys
    ensures Served(infos, free, infos', free, i, Some(h + OBJ))
  {
    hide Gained, HasRoom;
  }

  lemma ServedNew(infos0: Infos, infos1: Infos, infos2: Infos, free: set<int>, free': set<int>, i: nat, h: nat)
    requires !HasRoom(infos0, i) && free != {} && SameLive(infos0, infos1) && Gained(infos1, infos2, h, i)
    requires OneFrame(infos0, infos1, free, free') && infos2.Keys == infos1.Keys
    ensures Served(infos0, free, infos2, free', i, Some(h + OBJ))
  {
    GainedThen(infos0, infos1, infos2, h, i);
    OneFrameKeys(infos0, infos1, infos2, free, free');
    hide Gained, HasRoom, OneFrame, SameLive;
  }

  /* The same objects are live, and slab pages have stayed. */
  ghost predicate SameLive(infos: Infos, infos': Infos) {
    Extends(infos, infos') && forall h :: Live(infos', h) <==> Live(infos, h)
  }

  lemma GainedThen(infos0: Infos, infos1: Infos, infos2: Infos, h: nat, i: nat)
    requires SameLive(infos0, infos1) && Gained(infos1, infos2, h, i)
    ensures Gained(infos0, infos2, h, i)
  {
    hide Live, IsObj, ShapeOf;
  }

  /* The slab pages of infos are slab pages of the same slabs in infos'. */
  ghost predicate Extends(infos: Infos, infos': Infos) {
    forall f :: f in infos ==> f in infos' && infos'[f].slab == infos[f].slab
  }

  /* No other object of h's page is live. */
  ghost predicate AloneOnPage(infos: Infos, h: nat) {
    forall g: nat :: Live(infos, g) && g / 4096 == h / 4096 ==> g == h
  }

  lemma InfosAt(infos: Infos, idle: set<nat>, f: nat)
    requires InfosOk(infos, idle) && f in infos
    ensures infos[f].slab < SLABS && infos[f].freeCount == |infos[f].free| && InfoOk(f, infos[f])
  {
  }

  lemma OwnersSame(infos: Infos, infos': Infos, owner: map<nat, nat>)
    requires OwnersOk(infos, owner) && infos'.Keys == infos.Keys && forall f :: f in infos ==> infos'[f].slab == infos[f].slab
    ensures OwnersOk(infos', owner)
  {
    hide IsObj, ShapeOf;
  }

  lemma OwnersDrop(infos: Infos, f: nat, owner: map<nat, nat>)
    requires OwnersOk(infos, owner)
    ensures OwnersOk(infos - {f}, owner)
  {
    hide IsObj, ShapeOf;
  }

  lemma LiveOwner(infos: Infos, owner: map<nat, nat>, h: nat)
    requires OwnersOk(infos, owner) && Live(infos, h)
    ensures h in owner && owner[h] == h / 4096 && h / 4096 in infos && infos[h / 4096].slab < SLABS
  {
    hide IsObj, ShapeOf;
  }

  lemma LastObject(infos: Infos, f: nat, h: nat)
    requires InfosOk(infos, {}) && f in infos && Live(infos, h) && h / 4096 == f
    ensures infos[f].slab < SLABS
    ensures infos[f].freeCount + 1 == ShapeOf(infos[f].slab).count <==> AloneOnPage(infos, h)
    ensures infos[f].freeCount + 1 <= ShapeOf(infos[f].slab).count
  {
    PutInfos(infos, f, h);
    hide IsObj, ShapeOf, Live;
    var after := PutInfo(infos, f, h);
    assert InfoOk(f, after[f]);
    IdleIffNoneLive(after, f);
    forall g: nat
      ensures Live(after, g) <==> Live(infos, g) && g != h
    {
      PutLive(infos, f, h, g);
    }
  }

  lemma LivePage(infos: Infos, h: nat)
    requires Live(infos, h)
    ensures h / 4096 in infos
  {
    hide ShapeOf, IsObj;
  }

  ghost predicate HeldIsLive(held: map<nat, nat>, infos: Infos) {
    forall p: nat :: p in held <==> p >= OBJ && Live(infos, p - OBJ)
  }

  /* The page of every held block belongs to a slab whose objects have room for it. */
  ghost predicate Roomy(held: map<nat, nat>, infos: Infos) {
    forall p :: p in held ==> RoomFor(infos, p, held[p])
  }

  ghost predicate RoomFor(infos: Infos, p: nat, size: nat) {
    && p >= OBJ && (p - OBJ) / 4096 in infos && infos[(p - OBJ) / 4096].slab < SLABS
    && size + OBJ <= ShapeOf(infos[(p - OBJ) / 4096].slab).objSize
  }

  lemma NothingHeld()
    ensures HeldIsLive(map[], map[]) && Roomy(map[], map[])
  {
  }

  lemma HeldAt(held: map<nat, nat>, infos: Infos, p: nat)
    requires HeldIsLive(held, infos) && p in held
    ensures p >= OBJ && Live(infos, p - OBJ)
  {
    hide Live;
  }

  lemma HeldGained(held: map<nat, nat>, infos: Infos, infos': Infos, p: nat, size: nat)
    requires HeldIsLive(held, infos) && Roomy(held, infos) && p >= OBJ && 0 < size <= 1024
    requires Gained(infos, infos', p - OBJ, (size - 1) / ALIGN) && size + OBJ <= ShapeOf((size - 1) / ALIGN).objSize
    ensures HeldIsLive(held[p := size], infos') && Roomy(held[p := size], infos')
  {
    hide Live, ShapeOf, IsObj;
  }

  lemma HeldLost(held: map<nat, nat>, infos: Infos, infos': Infos, p: nat)
    requires HeldIsLive(held, infos) && Roomy(held, infos) && p >= OBJ && Extends(infos', infos)
    requires forall g :: Live(infos', g) <==> Live(infos, g) && g != p - OBJ
    ensures HeldIsLive(held - {p}, infos') && Roomy(held - {p}, infos')
  {
    hide Live, ShapeOf, IsObj;
    var held' := held - {p};
    forall q | q in held'
      ensures RoomFor(infos', q, held'[q])
    {
      assert RoomFor(infos, q, held[q]) && Live(infos', q - OBJ);
      LivePage(infos', q - OBJ);
    }
  }

  lemma HeldApart(held: map<nat, nat>, infos: Infos, p: nat, q: nat)
    requires HeldIsLive(held, infos) && Roomy(held, infos) && p in held && q in held && p < q
    ensures p + held[p] + OBJ <= q
  {
    hide Live, ShapeOf, IsObj;
    assert RoomFor(infos, p, held[p]);
    BlocksDisjoint(infos, p - OBJ, q - OBJ);
  }
}
