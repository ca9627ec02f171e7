/**
 The slab allocator of kernel/mem/slab.c as values: how objects, their headers and the footer
 lie in a page, and the state of the free lists and slab lists.
 */
module SlabSpec {
  import opened Common
  import opened BuddySpec

  const OBJ := 24      // sizeof(struct slab_obj)
  const INFO := 48     // sizeof(struct slab_info)
  const SLABS := 32
  const ALIGN := 32

  /* The sizes in struct slab. */
  datatype Shape = Shape(objSize: nat, count: nat, infoOff: nat)

  /* struct slab; element 0 of a list is head->next. A slab page is named by its frame. */
  datatype Slab = Slab(shape: Shape, partial: seq<nat>, full: seq<nat>)

  /* struct slab_info, the footer of a slab page: the owning slab, the free objects and their
     number. */
  datatype Info = Info(slab: nat, free: seq<nat>, freeCount: nat)

  type Infos = map<nat, Info>

  function RoundUp(n: nat, align: nat): nat
    requires align > 0
  {
    (n + align - 1) / align * align
  }

  /* The sizes slab_setup computes. */
  function Setup(size: nat): Shape
    requires size <= SLABS * ALIGN
  {
    var objSize := RoundUp(size + OBJ, 32);
    var count := (4096 - INFO) / objSize;
    Shape(objSize, count, objSize * count)
  }

  /* A page holds count objects of objSize bytes and then the footer. */
  ghost predicate Geometry(s: Shape) {
    OBJ < s.objSize && 0 < s.count && s.infoOff == s.objSize * s.count && s.infoOff + INFO <= 4096
  }

  lemma SetupFits(size: nat)
    requires size <= SLABS * ALIGN
    ensures Geometry(Setup(size))
    ensures var d := Setup(size).objSize; d % 32 == 0 && d - 32 < size + OBJ <= d
    ensures Setup(size).objSize * (Setup(size).count + 1) + INFO > 4096
  {
    RoundUpBounds(size + OBJ);
    hide RoundUp;
    Quotient(4096 - INFO, RoundUp(size + OBJ, 32));
  }

  lemma RoundUpBounds(n: nat)
    ensures n <= RoundUp(n, 32) < n + 32 && RoundUp(n, 32) % 32 == 0
  {
  }

  lemma Quotient(n: nat, d: nat)
    requires 0 < d <= n
    ensures 0 < n / d && d * (n / d) <= n < d * (n / d + 1)
  {
    var q, r := n / d, n % d;
    assert n == d * q + r && r < d;
  }

  // ------------------------------------------------------------------ the layout of a page

  /* The header of object j in frame f. */
  function Obj(s: Shape, f: nat, j: nat): nat {
    f * 4096 + j * s.objSize
  }

  ghost predicate IsObj(s: Shape, f: nat, h: nat) {
    exists j: nat :: j < s.count && h == Obj(s, f, j)
  }

  lemma Multiple(a: nat, b: nat, d: nat)
    requires a < b
    ensures a * d + d <= b * d
    decreases b
  {
    Succ(b - 1, d);
    if a + 1 < b {
      Multiple(a, b - 1, d);
    }
  }

  lemma Succ(n: nat, d: nat)
    ensures (n + 1) * d == n * d + d
  {
  }

  /* Objects lie in their page, before the footer, and objSize apart. */
  lemma ObjInPage(s: Shape, f: nat, h: nat)
    requires Geometry(s) && IsObj(s, f, h)
    ensures f * 4096 <= h && h + s.objSize <= f * 4096 + s.infoOff && h / 4096 == f
  {
    var j: nat :| j < s.count && h == Obj(s, f, j);
    Multiple(j, s.count, s.objSize);
    Commute(s.count, s.objSize);
    Fits(f, j * s.objSize, s.objSize, s.infoOff, h);
  }

  lemma Commute(a: nat, b: nat)
    ensures a * b == b * a
  {
  }

  /* Offset p with room for d bytes before the footer. */
  lemma Fits(f: nat, p: nat, d: nat, footer: nat, h: nat)
    requires h == f * 4096 + p && p + d <= footer <= 4096 && 0 < d
    ensures f * 4096 <= h && h + d <= f * 4096 + footer && h / 4096 == f
  {
    InPage(f, p);
  }

  lemma InPage(f: nat, d: nat)
    requires d < 4096
    ensures (f * 4096 + d) / 4096 == f
  {
  }

  lemma ObjsAscend(s: Shape, f: nat, i: nat, j: nat)
    requires i < j && s.objSize > 0
    ensures Obj(s, f, i) < Obj(s, f, j)
  {
    Multiple(i, j, s.objSize);
  }

  lemma ObjsApart(s: Shape, f: nat, g: nat, h: nat)
    requires IsObj(s, f, g) && IsObj(s, f, h) && g < h
    ensures g + s.objSize <= h
  {
    var i: nat :| i < s.count && g == Obj(s, f, i);
    var j: nat :| j < s.count && h == Obj(s, f, j);
    if i < j {
      Multiple(i, j, s.objSize);
    } else if j < i {
      Multiple(j, i, s.objSize);
    }
  }

  /* The headers of the first n objects. */
  ghost function Objs(s: Shape, f: nat, n: nat): set<nat> {
    if n == 0 then {} else Objs(s, f, n - 1) + {Obj(s, f, n - 1)}
  }

  lemma {:induction false} ObjsMember(s: Shape, f: nat, n: nat, h: nat)
    ensures h in Objs(s, f, n) <==> exists j: nat :: j < n && h == Obj(s, f, j)
  {
    hide Obj;
    if n > 0 {
      ObjsMember(s, f, n - 1, h);
      if h != Obj(s, f, n - 1) && h in Objs(s, f, n) {
        var j: nat :| j < n - 1 && h == Obj(s, f, j);
        assert j < n;
      }
    }
  }

  lemma {:induction false} ObjsCount(s: Shape, f: nat, n: nat)
    requires s.objSize > 0
    ensures |Objs(s, f, n)| == n
  {
    hide Obj;
    if n > 0 {
      ObjsCount(s, f, n - 1);
      ObjNew(s, f, n - 1, n - 1);
    }
  }

  lemma {:induction false} ObjNew(s: Shape, f: nat, n: nat, m: nat)
    requires s.objSize > 0 && n <= m
    ensures Obj(s, f, m) !in Objs(s, f, n)
  {
    hide Obj;
    if n > 0 {
      ObjNew(s, f, n - 1, m);
      ObjsAscend(s, f, n - 1, m);
    }
  }

  // ------------------------------------------------------------------ the state

  /* The shape of slab i, for objects of (i + 1) * 32 bytes. */
  function ShapeOf(i: nat): (s: Shape)
    requires i < SLABS
    ensures Geometry(s) && s.objSize >= (i + 1) * ALIGN + OBJ
  {
    SetupFits((i + 1) * ALIGN);
    Setup((i + 1) * ALIGN)
  }

  ghost predicate InfoOk(f: nat, info: Info) {
    && info.slab < SLABS && info.freeCount == |info.free| && Distinct(info.free)
    && (forall h :: h in info.free ==> IsObj(ShapeOf(info.slab), f, h))
  }

  /* Footers are right, and no page but those in `idle` has all its objects free. */
  ghost predicate InfosOk(infos: Infos, idle: set<nat>) {
    && (forall f :: f in infos ==> InfoOk(f, infos[f]))
    && (forall f :: f in infos ==> (infos[f].freeCount == ShapeOf(infos[f].slab).count <==> f in idle))
    && (forall f :: f in infos ==> infos[f].freeCount <= ShapeOf(infos[f].slab).count)
  }

  /* A page is on its slab's full list exactly when its free list is empty, and on the partial
     list exactly when it is not. */
  ghost predicate ListsOk(slabs: seq<Slab>, infos: Infos) {
    && |slabs| == SLABS
    && (forall i :: 0 <= i < SLABS ==> slabs[i].shape == ShapeOf(i) && Distinct(slabs[i].partial) && Distinct(slabs[i].full))
    && (forall i, f :: 0 <= i < SLABS ==> (f in slabs[i].partial <==> f in infos && infos[f].slab == i && infos[f].free != []))
    && (forall i, f :: 0 <= i < SLABS ==> (f in slabs[i].full <==> f in infos && infos[f].slab == i && infos[f].free == []))
  }

  /* Every object of a slab page points back to the page's footer. */
  ghost predicate OwnersOk(infos: Infos, owner: map<nat, nat>) {
    forall f, h :: f in infos && infos[f].slab < SLABS && IsObj(ShapeOf(infos[f].slab), f, h) ==> h in owner && owner[h] == f
  }

  /* The object with header h is allocated. */
  ghost predicate Live(infos: Infos, h: nat) {
    var f := h / 4096;
    f in infos && infos[f].slab < SLABS && IsObj(ShapeOf(infos[f].slab), f, h) && h !in infos[f].free
  }

  // ------------------------------------------------------------------ blocks do not overlap

  /* Live blocks are disjoint from each other. */
  lemma BlocksDisjoint(infos: Infos, g: nat, h: nat)
    requires Live(infos, g) && Live(infos, h) && g < h
    ensures g + ShapeOf(infos[g / 4096].slab).objSize <= h
  {
    hide ShapeOf, IsObj;
    ObjInPage(ShapeOf(infos[g / 4096].slab), g / 4096, g);
    ObjInPage(ShapeOf(infos[h / 4096].slab), h / 4096, h);
    if g / 4096 == h / 4096 {
      ObjsApart(ShapeOf(infos[g / 4096].slab), g / 4096, g, h);
    }
  }

  /* The bytes [h + OBJ, h + objSize) of a live block meet neither the header of any object of
     any slab page nor any footer. */
  lemma BlockAvoidsMetadata(infos: Infos, h: nat, f: nat, x: nat)
    requires Live(infos, h) && f in infos && infos[f].slab < SLABS && h / 4096 in infos
    requires h + OBJ <= x < h + ShapeOf(infos[h / 4096].slab).objSize
    ensures forall g: nat :: IsObj(ShapeOf(infos[f].slab), f, g) ==> !(g <= x < g + OBJ)
    ensures var foot := f * 4096 + ShapeOf(infos[f].slab).infoOff; !(foot <= x < foot + INFO)
  {
    hide ShapeOf, IsObj;
    var e := h / 4096;
    var s, t := ShapeOf(infos[e].slab), ShapeOf(infos[f].slab);
    ObjInPage(s, e, h);
    forall g: nat | IsObj(t, f, g)
      ensures !(g <= x < g + OBJ)
    {
      ObjInPage(t, f, g);
      if e == f && g < h { ObjsApart(s, f, g, h); }
      if e == f && h < g { ObjsApart(s, f, h, g); }
    }
  }

  // ------------------------------------------------------------------ pigeonhole

  /* The free list is full exactly when it has every object. */
  lemma AllFree(i: nat, f: nat, free: seq<nat>)
    requires i < SLABS && Distinct(free) && forall h :: h in free ==> IsObj(ShapeOf(i), f, h)
    ensures |free| <= ShapeOf(i).count
    ensures |free| == ShapeOf(i).count <==> forall h: nat :: IsObj(ShapeOf(i), f, h) ==> h in free
  {
    hide ShapeOf, IsObj, Objs, Geometry;
    var s := ShapeOf(i);
    var all, mine := Objs(s, f, s.count), SetOf(free);
    ObjsOfPage(s, f);
    DistinctSize(free);
    assert mine <= all;
    SubsetSize(mine, all);
    if |free| == s.count {
      SubsetEqual(mine, all);
    }
    if forall h: nat :: IsObj(s, f, h) ==> h in free {
      assert all == mine;
    }
  }

  lemma ObjsOfPage(s: Shape, f: nat)
    requires Geometry(s)
    ensures |Objs(s, f, s.count)| == s.count && forall h: nat :: h in Objs(s, f, s.count) <==> IsObj(s, f, h)
  {
    ObjsCount(s, f, s.count);
    forall h: nat
      ensures h in Objs(s, f, s.count) <==> IsObj(s, f, h)
    {
      ObjsMember(s, f, s.count, h);
    }
  }

  ghost function SetOf(s: seq<nat>): set<nat> {
    set x | x in s
  }

  lemma {:induction false} DistinctSize(s: seq<nat>)
    requires Distinct(s)
    ensures |SetOf(s)| == |s|
  {
    if s != [] {
      var t := s[1..];
      DistinctSize(t);
      assert s == [s[0]] + t && s[0] !in t;
      assert SetOf(s) == {s[0]} + SetOf(t);
    }
  }

  lemma SubsetEqual(a: set<nat>, b: set<nat>)
    requires a <= b && |a| == |b|
    ensures a == b
  {
    assert b == a + (b - a) && |b| == |a| + |b - a|;
  }

  // ------------------------------------------------------------------ one object

  /* The first free object of page f is handed out. */
  function TakeInfo(infos: Infos, f: nat): Infos
    requires f in infos && infos[f].free != [] && infos[f].freeCount > 0
  {
    infos[f := Info(infos[f].slab, infos[f].free[1..], infos[f].freeCount - 1)]
  }

  /* Object h of page f is put in front of the free list. */
  function PutInfo(infos: Infos, f: nat, h: nat): Infos
    requires f in infos
  {
    infos[f := Info(infos[f].slab, [h] + infos[f].free, infos[f].freeCount + 1)]
  }

  function ToFull(slabs: seq<Slab>, i: nat, f: nat): seq<Slab>
    requires i < |slabs|
  {
    slabs[i := slabs[i].(partial := Without(slabs[i].partial, f), full := [f] + slabs[i].full)]
  }

  function ToPartial(slabs: seq<Slab>, i: nat, f: nat): seq<Slab>
    requires i < |slabs|
  {
    slabs[i := slabs[i].(full := Without(slabs[i].full, f), partial := [f] + slabs[i].partial)]
  }

  lemma TakeInfos(infos: Infos, idle: set<nat>, f: nat)
    requires InfosOk(infos, idle) && f in infos && infos[f].free != [] && idle <= {f}
    ensures infos[f].freeCount > 0 && InfosOk(TakeInfo(infos, f), {})
  {
    hide IsObj, ShapeOf;
    var free := infos[f].free;
    assert forall h :: h in free[1..] ==> h in free;
    assert InfoOk(f, infos[f]);
  }

  lemma TakeLists(slabs: seq<Slab>, infos: Infos, f: nat)
    requires ListsOk(slabs, infos) && f in infos && infos[f].free != [] && infos[f].slab < SLABS && infos[f].freeCount > 0
    ensures ListsOk(if infos[f].free[1..] == [] then ToFull(slabs, infos[f].slab, f) else slabs, TakeInfo(infos, f))
  {
    hide ShapeOf, Distinct;
    var i := infos[f].slab;
    if infos[f].free[1..] == [] {
      WithoutDistinct(slabs[i].partial, f);
      assert f !in slabs[i].full;
      DistinctCons(f, slabs[i].full);
    }
  }

  lemma TakeLive(infos: Infos, f: nat, g: nat)
    requires f in infos && infos[f].free != [] && infos[f].freeCount > 0 && InfoOk(f, infos[f])
    ensures var h := infos[f].free[0];
      h / 4096 == f && IsObj(ShapeOf(infos[f].slab), f, h) && !Live(infos, h)
      && (Live(TakeInfo(infos, f), g) <==> Live(infos, g) || g == h)
  {
    hide IsObj, ShapeOf;
    var free := infos[f].free;
    ObjInPage(ShapeOf(infos[f].slab), f, free[0]);
    assert free[0] !in free[1..];
    assert g in free <==> g == free[0] || g in free[1..];
  }

  lemma PutInfos(infos: Infos, f: nat, h: nat)
    requires InfosOk(infos, {}) && f in infos && Live(infos, h) && h / 4096 == f
    ensures InfosOk(PutInfo(infos, f, h), if infos[f].freeCount + 1 == ShapeOf(infos[f].slab).count then {f} else {})
  {
    hide IsObj, ShapeOf;
    DistinctCons(h, infos[f].free);
    assert InfoOk(f, infos[f]);
  }

  lemma PutLists(slabs: seq<Slab>, infos: Infos, f: nat, h: nat)
    requires ListsOk(slabs, infos) && f in infos && infos[f].slab < SLABS
    ensures ListsOk(if infos[f].free == [] then ToPartial(slabs, infos[f].slab, f) else slabs, PutInfo(infos, f, h))
  {
    hide ShapeOf, Distinct;
    var i := infos[f].slab;
    if infos[f].free == [] {
      WithoutDistinct(slabs[i].full, f);
      assert f !in slabs[i].partial;
      DistinctCons(f, slabs[i].partial);
    }
  }

  lemma PutLive(infos: Infos, f: nat, h: nat, g: nat)
    requires f in infos && h / 4096 == f
    ensures Live(PutInfo(infos, f, h), g) <==> Live(infos, g) && g != h
  {
    hide IsObj, ShapeOf;
  }

  // ------------------------------------------------------------------ one page

  /* A page whose objects are all free. */
  lemma AddPage(slabs: seq<Slab>, infos: Infos, i: nat, f: nat, free: seq<nat>)
    requires ListsOk(slabs, infos) && InfosOk(infos, {}) && i < SLABS && f !in infos
    requires Distinct(free) && |free| == ShapeOf(i).count && forall h :: h in free ==> IsObj(ShapeOf(i), f, h)
    ensures var infos' := infos[f := Info(i, free, |free|)];
      && ListsOk(slabs[i := slabs[i].(partial := [f] + slabs[i].partial)], infos') && InfosOk(infos', {f})
      && forall g :: Live(infos', g) <==> Live(infos, g)
  {
    hide IsObj, ShapeOf, Distinct;
    assert f !in slabs[i].partial;
    DistinctCons(f, slabs[i].partial);
    assert free != [];
    AllFree(i, f, free);
  }

  lemma DropPage(slabs: seq<Slab>, infos: Infos, f: nat)
    requires ListsOk(slabs, infos) && InfosOk(infos, {f}) && f in infos && infos[f].slab < SLABS
    ensures var i := infos[f].slab;
      && ListsOk(slabs[i := slabs[i].(partial := Without(slabs[i].partial, f))], infos - {f}) && InfosOk(infos - {f}, {})
      && forall g :: Live(infos - {f}, g) <==> Live(infos, g)
  {
    hide IsObj, ShapeOf, Distinct, ListsOk;
    var i := infos[f].slab;
    assert InfoOk(f, infos[f]) && infos[f].freeCount == ShapeOf(i).count > 0;
    AllFree(i, f, infos[f].free);
    DropLists(slabs, infos, f);
    assert InfosOk(infos - {f}, {});
    hide InfosOk;
    assert forall g :: Live(infos - {f}, g) <==> Live(infos, g);
  }

  lemma DropLists(slabs: seq<Slab>, infos: Infos, f: nat)
    requires ListsOk(slabs, infos) && f in infos && infos[f].slab < SLABS && infos[f].free != []
    ensures ListsOk(slabs[infos[f].slab := slabs[infos[f].slab].(partial := Without(slabs[infos[f].slab].partial, f))], infos - {f})
  {
    hide ShapeOf, Distinct;
    WithoutDistinct(slabs[infos[f].slab].partial, f);
  }

  /* A page is idle exactly when none of its objects is live. */
  lemma IdleIffNoneLive(infos: Infos, f: nat)
    requires f in infos && InfoOk(f, infos[f])
    ensures infos[f].freeCount == ShapeOf(infos[f].slab).count <==> forall h: nat :: Live(infos, h) ==> h / 4096 != f
  {
    hide IsObj, ShapeOf;
    AllFree(infos[f].slab, f, infos[f].free);
    forall h: nat | IsObj(ShapeOf(infos[f].slab), f, h)
      ensures h / 4096 == f
    {
      ObjInPage(ShapeOf(infos[f].slab), f, h);
    }
    if forall h: nat :: Live(infos, h) ==> h / 4096 != f {
      forall h: nat | IsObj(ShapeOf(infos[f].slab), f, h)
        ensures h in infos[f].free
      {
        assert !Live(infos, h);
      }
    }
  }
}
