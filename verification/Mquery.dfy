/**
 sys_mquery (kernel/vma/syscall.c) and the loop of print_vmas (lib/vma.c): asking again and
 again, each time at the end of the last answer, tiles the user address space.
 */
module Mquery {
  import opened Common
  import opened RbTree
  import opened VmaTree
  import opened Vmas
  import opened VmaOps

  /* struct vma_info; a free range has used == false and no attributes. */
  datatype Info = Info(base: nat, end: nat, used: bool, flags: nat, name: nat)

  function Used(r: Region): Info {
    Info(r.base, r.end, true, r.flags, r.name)
  }

  function Unused(base: nat, end: nat): Info {
    Info(base, end, false, 0, 0)
  }

  /* The index of the first region that ends above addr. */
  function FirstIdx(rs: seq<Region>, addr: nat): (i: nat)
    ensures i <= |rs| && (i < |rs| ==> addr < rs[i].end)
    ensures forall j :: 0 <= j < i ==> rs[j].end <= addr
  {
    if rs == [] || addr < rs[0].end then 0 else 1 + FirstIdx(rs[1..], addr)
  }

  /* What sys_mquery reports, from the list of regions. */
  function Query(rs: seq<Region>, addr: nat): Info {
    var i := FirstIdx(rs, addr);
    var gap := if i == 0 then 0 else rs[i - 1].end;
    if i == |rs| then Unused(gap, USER_LIM)
    else if addr < rs[i].base then Unused(gap, rs[i].base)
    else Used(rs[i])
  }

  /* find_vma, in terms of regions. */
  method FindIdx(task: Task, addr: nat) returns (vma: RbNode?)
    requires task.Valid()
    ensures task.Valid() && Regions(task.mmap) == old(Regions(task.mmap))
    ensures if vma == null then FirstIdx(Regions(task.mmap), addr) == |task.mmap|
            else vma in task.mmap && FirstIdx(Regions(task.mmap), addr) == IndexOf<RbNode>(task.mmap, vma)
  {
    hide Task.Linked, RbRoot.Realises, Regions, RedBlack, Pow2, FirstAbove, FirstIdx, IndexOf;
    task.TreeNodes();
    ghost var s, rs := task.mmap, Regions(task.mmap);
    ghost var steps;
    RegionsAt(s);
    vma, steps := task.FindVma(addr);
    RegionsAt(s);
    assert Regions(s) == rs;
    FoundIdx(s, addr, vma);
  }

  method SysMquery(task: Task, addr: nat) returns (r: Option<Info>)
    requires task.Valid()
    ensures task.Valid() && Regions(task.mmap) == old(Regions(task.mmap))
    ensures r.None? <==> addr >= USER_LIM
    ensures r.Some? ==> r.value == Query(Regions(task.mmap), addr)
    ensures r.Some? && Inside(Regions(task.mmap)) ==> Honest(Regions(task.mmap), r.value) && r.value.base <= addr < r.value.end
  {
    hide Task.Valid, Regions, FirstIdx, Honest, Inside;
    if addr >= USER_LIM {
      return None;
    }
    var vma := FindIdx(task, addr);
    RegionsAt(task.mmap);
    if Inside(Regions(task.mmap)) {
      QueryHonest(Regions(task.mmap), addr);
    }
    if vma == null {
      return Some(Unused(if |task.mmap| == 0 then 0 else task.mmap[|task.mmap| - 1].vma.end, USER_LIM));
    }
    var i := IndexOf<RbNode>(task.mmap, vma);
    if addr < vma.vma.base {
      return Some(Unused(if i == 0 then 0 else task.mmap[i - 1].vma.end, vma.vma.base));
    }
    r := Some(Info(vma.vma.base, vma.vma.end, true, vma.vma.flags, vma.vma.name));
  }

  lemma FoundIdx(s: seq<RbNode>, addr: nat, v: RbNode?)
    requires FirstAbove(s, addr, v)
    ensures v != null ==> v in s
    ensures FirstIdx(Regions(s), addr) == if v == null then |s| else IndexOf<RbNode>(s, v)
  {
    RegionsAt(s);
    hide Regions, IndexOf, FirstIdx;
    var rs := Regions(s);
    var i := if v == null then |s| else IndexOf<RbNode>(s, v);
    forall j | 0 <= j < i
      ensures rs[j].end <= addr
    {
      assert s[j] in s;
    }
  }

  // ------------------------------------------------------------------ the tiling

  /* A maximal range that no region meets: it starts at 0 or at the end of a region, and ends
     at USER_LIM or at the base of a region. */
  ghost predicate Gap(rs: seq<Region>, base: nat, end: nat) {
    && (base == 0 || exists j :: 0 <= j < |rs| && rs[j].end == base)
    && (end == USER_LIM || exists j :: 0 <= j < |rs| && rs[j].base == end)
    && (forall j :: 0 <= j < |rs| ==> !Meets(rs[j], base, end))
  }

  /* A correct answer about a list of regions. */
  ghost predicate Honest(rs: seq<Region>, i: Info) {
    if i.used then exists j :: 0 <= j < |rs| && i == Used(rs[j]) && rs[j].base < rs[j].end
    else i.base < i.end && Gap(rs, i.base, i.end) && i == Unused(i.base, i.end)
  }

  /* An address where the next answer starts. */
  ghost predicate Boundary(rs: seq<Region>, a: nat) {
    a == 0 || exists j :: 0 <= j < |rs| && (rs[j].base == a || rs[j].end == a)
  }

  ghost predicate Inside(rs: seq<Region>) {
    SortedRegions(rs) && forall j :: 0 <= j < |rs| ==> rs[j].end <= USER_LIM
  }

  /* Every answer is the VMA that holds the address, or the whole gap around it. */
  lemma QueryHonest(rs: seq<Region>, a: nat)
    requires Inside(rs) && a < USER_LIM
    ensures Honest(rs, Query(rs, a)) && Query(rs, a).base <= a < Query(rs, a).end
  {
    var i := FirstIdx(rs, a);
    hide FirstIdx;
    if !(i < |rs| && rs[i].base <= a) {
      GapFound(rs, a, i);
    }
  }

  lemma GapFound(rs: seq<Region>, a: nat, i: nat)
    requires Inside(rs) && i == FirstIdx(rs, a) && a < USER_LIM && (i < |rs| ==> a < rs[i].base)
    ensures var (base, end) := (if i == 0 then 0 else rs[i - 1].end, if i < |rs| then rs[i].base else USER_LIM);
      base <= a < end && Gap(rs, base, end)
  {
    hide FirstIdx;
    var base, end := if i == 0 then 0 else rs[i - 1].end, if i < |rs| then rs[i].base else USER_LIM;
    assert forall j :: 0 <= j < i ==> rs[j].end <= base;
    assert forall j :: i <= j < |rs| ==> end <= rs[j].base;
  }

  /* One answer at a boundary starts there, moves on to another boundary and is correct. */
  lemma QueryStep(rs: seq<Region>, a: nat)
    requires Inside(rs) && Boundary(rs, a) && a < USER_LIM
    ensures var q := Query(rs, a);
      && q.base == a < q.end <= USER_LIM
      && (q.end == USER_LIM || Boundary(rs, q.end))
      && Honest(rs, q)
  {
    var i := FirstIdx(rs, a);
    QueryHonest(rs, a);
    hide FirstIdx;
    if i < |rs| && rs[i].base <= a {
      StartsAt(rs, a, i);
    } else {
      GapStartsAt(rs, a, i);
    }
  }

  lemma StartsAt(rs: seq<Region>, a: nat, i: nat)
    requires Inside(rs) && Boundary(rs, a) && i == FirstIdx(rs, a) < |rs| && rs[i].base <= a
    ensures rs[i].base == a
  {
    if a != 0 {
      var j :| 0 <= j < |rs| && (rs[j].base == a || rs[j].end == a);
      assert j < i || j == i || j > i;
    }
  }

  lemma GapStartsAt(rs: seq<Region>, a: nat, i: nat)
    requires Inside(rs) && Boundary(rs, a) && i == FirstIdx(rs, a) && (i < |rs| ==> a < rs[i].base)
    ensures a == if i == 0 then 0 else rs[i - 1].end
  {
    hide FirstIdx;
    if a != 0 {
      var j :| 0 <= j < |rs| && (rs[j].base == a || rs[j].end == a);
      assert rs[j].base <= rs[j].end;
      if i <= j {
        assert i < j ==> rs[i].end <= rs[j].base;
        assert false;
      }
      assert rs[j].end == a && rs[i - 1].end <= a;
      assert j < i - 1 ==> rs[j].end <= rs[i - 1].base;
    }
  }

  /* Where the first k answers end. */
  function EndOf(infos: seq<Info>, k: nat): nat
    requires k <= |infos|
  {
    if k == 0 then 0 else infos[k - 1].end
  }

  /* The answers cover [0, a) without gap or overlap. */
  ghost predicate Tiles(infos: seq<Info>, a: nat) {
    (forall k :: 0 <= k < |infos| ==> infos[k].base == EndOf(infos, k)) && a == EndOf(infos, |infos|)
  }

  lemma TilesStep(infos: seq<Info>, i: Info)
    requires Tiles(infos, i.base)
    ensures Tiles(infos + [i], i.end)
  {
    var t := infos + [i];
    forall k | 0 <= k < |t|
      ensures t[k].base == EndOf(t, k)
    {
      assert EndOf(t, k) == EndOf(infos, k);
    }
  }

  /* Every non-empty region that ends at or below a has been reported. */
  ghost predicate Complete(rs: seq<Region>, infos: seq<Info>, a: nat) {
    forall j :: 0 <= j < |rs| && rs[j].base < rs[j].end <= a ==> Used(rs[j]) in infos
  }

  lemma CompleteStep(rs: seq<Region>, infos: seq<Info>, a: nat)
    requires Inside(rs) && Boundary(rs, a) && a < USER_LIM && Complete(rs, infos, a)
    ensures Complete(rs, infos + [Query(rs, a)], Query(rs, a).end)
  {
    var q := Query(rs, a);
    var i := FirstIdx(rs, a);
    QueryStep(rs, a);
    forall j | 0 <= j < |rs| && rs[j].base < rs[j].end <= q.end
      ensures Used(rs[j]) in infos + [q]
    {
      if rs[j].end <= a {
        assert Used(rs[j]) in infos;
      } else {
        assert j >= i;
        assert j == i;
      }
    }
  }

  /* print_vmas: the answers tile [0, USER_LIM) exactly with the non-empty VMAs and the maximal
     gaps between them. */
  method PrintVmas(task: Task) returns (infos: seq<Info>)
    requires task.Valid() && forall n :: n in task.mmap ==> n.vma.end <= USER_LIM
    ensures Tiles(infos, USER_LIM)
    ensures forall k :: 0 <= k < |infos| ==> Honest(Regions(task.mmap), infos[k])
    ensures Complete(Regions(task.mmap), infos, USER_LIM)
  {
    hide Task.Valid, Regions, Query, Honest, Boundary;
    ghost var rs := Regions(task.mmap);
    RegionsAt(task.mmap);
    ValidSorted(task);
    StartBoundary(rs);
    infos := [];
    var addr := 0;
    while addr < USER_LIM
      invariant task.Valid() && Regions(task.mmap) == rs
      invariant addr <= USER_LIM && (addr == USER_LIM || Boundary(rs, addr))
      invariant Tiles(infos, addr) && Complete(rs, infos, addr)
      invariant forall k :: 0 <= k < |infos| ==> Honest(rs, infos[k])
    {
      QueryStep(rs, addr);
      CompleteStep(rs, infos, addr);
      var r := SysMquery(task, addr);
      addr := r.value.end;
      TilesStep(infos, r.value);
      infos := infos + [r.value];
    }
  }

  lemma StartBoundary(rs: seq<Region>)
    ensures Boundary(rs, 0)
  {
  }
}
