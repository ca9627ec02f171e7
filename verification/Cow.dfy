/**
 Copy-on-write: the sharing half in kernel/sched/fork.c, the copying half in
 kernel/vma/pfault.c, and the steps around them. Page tables are the flat maps that the
 four-level tables implement.
 */
module Cow {
  import opened Common
  import opened CowSpec
  import RbTree
  import RbFree

  /* Stopped: page_alloc's assertion that there is a page. */
  datatype Outcome = Done | Killed | Stopped

  const ZERO: Data := seq(4096, _ => 0)

  class Kernel {
    var tasks: Tasks
    /* How the VMAs of each task are linked in its task_rb. */
    var trees: Trees
    var ptes: Ptes
    var data: seq<Data>
    var refs: seq<nat>
    var free: set<nat>

    ghost predicate Valid(out: set<nat>)
      reads this
    {
      Sound(tasks, ptes, refs, free, out) && |data| == |refs|
    }

    ghost predicate Rooted()
      reads this
    {
      trees.Keys == tasks.Keys && forall t :: t in trees ==> RbTree.IsBlack(trees[t])
    }

    /* No task can write what another task reads. */
    ghost predicate Good()
      reads this
    {
      Isolated(ptes) && Allowed(tasks, ptes)
    }

    ghost function Memory(): map<Key, Data>
      requires Valid({})
      reads this
    {
      View(ptes, data)
    }

    constructor (n: nat)
      ensures Valid({}) && Good() && Rooted() && tasks == map[] && Memory() == map[] && |free| == n
    {
      tasks, trees, ptes := map[], map[], map[];
      data, refs := seq(n, _ => ZERO), seq(n, _ => 0);
      free := Frames(n);
      new;
      NoUsers(refs);
    }

    method PageAlloc() returns (r: Option<nat>)
      requires Valid({})
      modifies `free, `data
      ensures r.None? <==> old(free) == {}
      ensures r.None? ==> Valid({}) && free == old(free) && data == old(data)
      ensures r.Some? ==> r.value in old(free) && Valid({r.value}) && free == old(free) - {r.value}
      ensures r.Some? ==> r.value < |old(data)| && data == old(data)[r.value := ZERO]
    {
      hide Placed, Counted, OneAddress, TasksOk;
      if free == {} {
        return None;
      }
      var f :| f in free;
      free := free - {f};
      data := data[f := ZERO];
      r := Some(f);
    }

    /* page_decref, for a page that is not yet out of references. */
    method PageDecref(f: nat)
      requires f < |refs|
      modifies `refs, `free
      ensures refs == Dec(old(refs), f)
      ensures free == if refs[f] == 0 then old(free) + {f} else old(free)
    {
      refs := Dec(refs, f);
      if refs[f] == 0 {
        free := free + {f};
      }
    }

    /* insert_pte on entry k: a page that is there loses a reference, then the new one gains
       one and the entry is written. */
    method PageInsert(k: Key, f: nat, flags: Flags, ghost out: set<nat>)
      requires Valid(out) && f !in free && f < |refs| && k.task in tasks && Covered(tasks[k.task], k.va)
      requires forall l :: l in Users(ptes, f) ==> l.va == k.va
      requires k in ptes ==> ptes[k].frame != f && ptes[k].frame !in out
      modifies `ptes, `refs, `free
      ensures Valid(out - {f}) && ptes == old(ptes)[k := Pte(f, flags.write, flags.exec)]
    {
      hide Placed, Counted, OneAddress, TasksOk, FreeOk, Covered;
      ghost var rest := ptes - {k};
      if k in ptes {
        InUse(tasks, ptes, refs, free, out, k);
        UnmapEntry(tasks, ptes, refs, free, out, k);
        PageDecref(ptes[k].frame);
      } else {
        assert rest == ptes;
      }
      var pte := Pte(f, flags.write, flags.exec);
      assert Users(rest, f) <= Users(ptes, f);
      MapEntry(tasks, rest, refs, free, out, k, pte);
      assert rest[k := pte] == ptes[k := pte];
      refs := Inc(refs, f);
      ptes := ptes[k := pte];
    }

    /* One page of copy_page_range: page_insert into the child, protect_region on the parent. */
    method SharePage(p: nat, c: nat, va: nat, flags: Flags)
      requires Valid({}) && p != c && Key(p, va) in ptes && Key(c, va) !in ptes
      requires c in tasks && Covered(tasks[c], va)
      modifies `ptes, `refs, `free
      ensures Valid({}) && ptes == Share(old(ptes), p, c, va, flags)
    {
      hide Placed, Counted, OneAddress, TasksOk, FreeOk, Covered;
      var k := Key(p, va);
      var f := ptes[k].frame;
      ShareFacts(tasks, ptes, refs, free, k);
      PageInsert(Key(c, va), f, flags, {});
      assert {} - {f} == {};
      FlagEntry(tasks, ptes, refs, free, {}, k, Pte(f, flags.write, flags.exec));
      ptes := ptes[k := Pte(f, flags.write, flags.exec)];
    }

    /* copy_page_range: shares the pages of p in the range with c. garbage is what page_flags
       holds before it is assigned: its write and execute bits, all others taken to be zero,
       since insert_pte ors the whole value into the entry and an address bit would change the
       frame. */
    method CopyPageRange(p: nat, c: nat, start: nat, end: nat, garbage: Flags) returns (ghost first: nat)
      requires Valid({}) && p != c && c in tasks && start <= end
      requires forall va: nat :: start <= va < end ==> Covered(tasks[c], va) && Key(c, va) !in ptes
      modifies `ptes, `refs, `free
      ensures Valid({}) && RangeShared(old(ptes), ptes, p, c, start, end)
      ensures SharedPages(old(ptes), ptes, p, c, start, end, garbage)
      ensures Copied(Memory(), old(Memory()), p, c, start, end)
      ensures garbage.write && Stale(old(ptes), p, start, end) ==> start <= first < end && Leaky(ptes, p, c, first)
      ensures old(Good()) && !(garbage.write && Stale(old(ptes), p, start, end)) ==> Good()
    {
      hide Sound, Covered, Stale, Isolated, Allowed, Share, View, Copied, RangeShared, Progress, Framed, SharedPages, Carried, NextFlags;
      ghost var ptes0, data0 := ptes, data;
      SoundFramed(tasks, ptes, refs, free, {}, |data|);
      RangeStart(tasks, ptes, data, p, c, start, garbage);
      CarriedStart(ptes, p, c, start, garbage);
      first := start;
      var flags := garbage;
      var va := start;
      while va < end
        invariant start <= va <= end && Valid({}) && data == data0 && |refs| == |old(refs)|
        invariant Framed(ptes, |data|) && Framed(ptes0, |data|)
        invariant forall u: nat :: va <= u < end ==> Key(c, u) !in ptes
        invariant RangeShared(ptes0, ptes, p, c, start, va)
        invariant Carried(ptes0, p, start, va, garbage, flags) && SharedPages(ptes0, ptes, p, c, start, va, garbage)
        invariant Copied(View(ptes, data), View(ptes0, data), p, c, start, va)
        invariant Progress(tasks, ptes0, ptes, p, c, start, va, first, garbage, flags)
      {
        StillThere(ptes0, ptes, p, c, start, va);
        CarriedStep(ptes0, p, start, va, garbage, flags);
        if Key(p, va) in ptes {
          ghost var before, flags0 := ptes, flags;
          SharedPagesStep(ptes0, ptes, p, c, start, va, garbage, flags);
          flags := NextFlags(flags, ptes[Key(p, va)]);
          SharePage(p, c, va, flags);
          SoundFramed(tasks, ptes, refs, free, {}, |data|);
          SharedStep(ptes0, before, p, c, start, va, flags);
          ViewStep(ptes0, before, data, p, c, start, va, flags);
          ProgressShare(tasks, ptes0, before, p, c, start, va, first, garbage, flags0);
        } else {
          SharedPagesSkip(ptes0, ptes, p, c, start, va, garbage);
          SharedSkip(ptes0, ptes, data, p, c, start, va);
          ProgressSkip(tasks, ptes0, ptes, p, c, start, va, first, garbage, flags);
        }
        first := if first == va && Key(p, va) !in ptes0 then va + 1 else first;
        va := va + 1;
      }
      ProgressEnd(tasks, ptes0, ptes, p, c, start, end, first, garbage, flags);
    }

    /* task_clone: the child gets the parent's VMAs one by one, and with them a tree built in
       ascending order, and each VMA's pages shared. garbage(i) is the unassigned page_flags of
       the i-th call of copy_page_range, with all bits but write and execute taken to be zero. */
    method TaskClone(p: nat, c: nat, garbage: nat -> Flags)
      requires Valid({}) && Rooted() && p in tasks && c !in tasks && |tasks| < MAX_TASKS
      modifies this
      ensures Valid({}) && tasks == old(tasks)[c := old(tasks)[p]] && data == old(data)
      ensures Rooted() && trees == old(trees)[c := RbFree.Ascending(|old(tasks)[p]|)] && RbFree.CanFree(trees[c])
      ensures Memory() == Forked(old(Memory()), p, c)
      ensures SharedVmas(old(ptes), ptes, p, c, old(tasks)[p], |old(tasks)[p]|, garbage)
      ensures forall k :: k in old(ptes) && k.task != p ==> k in ptes && ptes[k] == old(ptes)[k]
      ensures old(Good()) ==> (Good() <==> NoneStale(old(ptes), p, old(tasks)[p], garbage))
      ensures old(Good()) ==> (Isolated(ptes) <==> NoneStale(old(ptes), p, old(tasks)[p], garbage))
    {
      hide Sound, Isolated, Allowed, View, Forked, NoneStale, SharedVmas, RbFree.CanFree;
      var tree := RbFree.Ascending(|tasks[p]|);
      RbFree.AscendingFree(|tasks[p]|);
      hide RbFree.Ascending;
      CopyVmas(p, c, garbage);
      trees := trees[c := tree];
    }

    method CopyVmas(p: nat, c: nat, garbage: nat -> Flags)
      requires Valid({}) && p in tasks && c !in tasks && |tasks| < MAX_TASKS
      modifies `tasks, `ptes, `data, `refs, `free
      ensures Valid({}) && tasks == old(tasks)[c := old(tasks)[p]] && data == old(data)
      ensures Memory() == Forked(old(Memory()), p, c)
      ensures SharedVmas(old(ptes), ptes, p, c, old(tasks)[p], |old(tasks)[p]|, garbage)
      ensures forall k :: k in old(ptes) && k.task != p ==> k in ptes && ptes[k] == old(ptes)[k]
      ensures old(Good()) ==> (Good() <==> NoneStale(old(ptes), p, old(tasks)[p], garbage))
      ensures old(Good()) ==> (Isolated(ptes) <==> NoneStale(old(ptes), p, old(tasks)[p], garbage))
    {
      hide Sound, Isolated, Allowed, View, Covered, Copied, RangeShared, Stale, Sorted, Bound, Leaky, Cloning, Placed, Forked, NoneStale, SharedPages, SharedVmas;
      SoundFramed(tasks, ptes, refs, free, {}, |data|);
      ghost var tasks0, ptes0, m0 := tasks, ptes, View(ptes, data);
      var vmas := tasks[p];
      CloneStart(tasks, ptes, data, refs, free, p, c, garbage);
      CloneFacts(tasks, ptes, data, refs, free, p, c);
      ghost var leak := 0;
      SharedNone(ptes, p, c, vmas, garbage);
      tasks := tasks[c := []];
      for i := 0 to |vmas|
        invariant Valid({}) && data == old(data) && Framed(ptes, |data|)
        invariant tasks == tasks0[c := vmas[..i]]
        invariant RangeShared(ptes0, ptes, p, c, 0, Bound(vmas, i))
        invariant Copied(View(ptes, data), m0, p, c, 0, Bound(vmas, i))
        invariant Cloning(tasks0, tasks, ptes0, ptes, p, c, vmas, i, garbage, leak)
        invariant SharedVmas(ptes0, ptes, p, c, vmas, i, garbage)
      {
        var vma := vmas[i];
        ghost var before, m := ptes, View(ptes, data);
        CloneStep(tasks0, tasks, ptes0, ptes, refs, free, p, c, vmas, i);
        CloningTasks(tasks0, tasks, tasks[c := tasks[c] + [vma]], ptes0, ptes, p, c, vmas, i, garbage, leak);
        tasks := tasks[c := tasks[c] + [vma]];
        ghost var first := CopyPageRange(p, c, vma.base, vma.end, garbage(i));
        SoundFramed(tasks, ptes, refs, free, {}, |data|);
        SharedNext(ptes0, before, ptes, p, c, vmas, i, garbage);
        CloneJoin(tasks0, ptes0, before, ptes, p, c, vmas, i, |data|);
        CopyJoin(tasks0, ptes0, m0, m, View(ptes, data), p, c, vmas, i, |data|);
        CloneProgress(tasks0, tasks, ptes0, before, ptes, p, c, vmas, i, garbage, leak, first);
        leak := if garbage(i).write && Stale(before, p, vma.base, vma.end) then first else leak;
      }
      assert vmas[..|vmas|] == vmas;
      OthersKept(ptes0, ptes, p, c, Bound(vmas, |vmas|));
      CloneEnd(tasks0, ptes0, m0, View(ptes, data), p, c, |data|);
      if old(Good()) {
        CloneVerdict(tasks0, tasks, ptes0, ptes, p, c, vmas, garbage, leak);
      }
    }

    /* copy_on_write: a page with one reference becomes writable in place, otherwise the task
       gets a writable copy. */
    method CopyOnWrite(k: Key, vma: Vma) returns (r: Outcome)
      requires Valid({}) && Good() && k in ptes && !ptes[k].write && Writable(tasks, k) && vma.write
      modifies `ptes, `data, `refs, `free
      ensures Valid({}) && Good() && Memory() == old(Memory()) && ptes.Keys == old(ptes.Keys)
      ensures r != Killed && (r == Stopped <==> old(free) == {} && Shared(old(ptes), k))
      ensures r == Stopped ==> ptes == old(ptes) && free == {}
      ensures !Shared(old(ptes), k) ==> ptes == old(ptes)[k := old(ptes[k]).(write := true)] && free == old(free) && refs == old(refs)
      ensures r == Done && Shared(old(ptes), k) ==> Renewed(old(ptes), old(free), ptes, k, vma)
    {
      hide Sound, Isolated, Allowed, Writable, View;
      SoundFramed(tasks, ptes, refs, free, {}, |refs|);
      AloneIffOne(tasks, ptes, refs, free, k);
      if refs[ptes[k].frame] == 1 {
        var pte := ptes[k].(write := true);
        FlagEntry(tasks, ptes, refs, free, {}, k, pte);
        FreshEntry(tasks, ptes, k, pte);
        FreshView(ptes, data, data, k, pte);
        ptes := ptes[k := pte];
        return Done;
      }
      r := CopyPage(k, vma);
    }

    method CopyPage(k: Key, vma: Vma) returns (r: Outcome)
      requires Valid({}) && Good() && k in ptes && Writable(tasks, k) && vma.write
      modifies `ptes, `data, `refs, `free
      ensures Valid({}) && Good() && Memory() == old(Memory()) && ptes.Keys == old(ptes.Keys)
      ensures r != Killed && (r == Stopped <==> old(free) == {})
      ensures r == Stopped ==> ptes == old(ptes) && free == {}
      ensures r == Done ==> Renewed(old(ptes), old(free), ptes, k, vma)
    {
      hide Sound, Isolated, Allowed, Writable, View, Covered, Users;
      SoundFramed(tasks, ptes, refs, free, {}, |data|);
      ghost var ptes0, data0, free0 := ptes, data, free;
      var f := ptes[k].frame;
      WritableCovered(tasks, k);
      var a := PageAlloc();
      if a.None? {
        return Stopped;
      }
      var g := a.value;
      FreshFrame(tasks, ptes0, refs, free0, g);
      data := data[g := data[f]];
      PageInsert(k, g, Flags(vma.write, vma.exec), {g});
      assert {g} - {g} == {};
      FreshEntry(tasks, ptes0, k, Pte(g, vma.write, vma.exec));
      FreshView(ptes0, data0, data, k, Pte(g, vma.write, vma.exec));
      r := Done;
    }

    /* populate_vma_range on one page: a zeroed page, if the VMA allows the access. */
    method Populate(k: Key, vma: Vma, write: bool) returns (r: Outcome)
      requires Valid({}) && Good() && k.task in tasks && Covered(tasks[k.task], k.va)
      requires vma == tasks[k.task][FindVma(tasks[k.task], k.va)]
      requires k in ptes ==> write && !vma.write
      modifies `ptes, `data, `refs, `free
      ensures Valid({}) && Good()
      ensures r == Killed <==> !vma.read || (write && !vma.write)
      ensures r == Stopped <==> r != Killed && old(free) == {}
      ensures r != Done ==> ptes == old(ptes) && free == old(free) && Memory() == old(Memory())
      ensures r == Done ==> k !in old(ptes) && Renewed(old(ptes), old(free), ptes, k, vma)
      ensures r == Done ==> Memory() == old(Memory())[k := ZERO]
    {
      hide Placed, Counted, OneAddress, TasksOk, Isolated, Allowed, Covered, Sorted;
      if !vma.read || (write && !vma.write) {
        return Killed;
      }
      // populate_pte's assertion
      assert k !in ptes;
      SoundFramed(tasks, ptes, refs, free, {}, |data|);
      ghost var ptes0, data0 := ptes, data;
      var a := PageAlloc();
      if a.None? {
        return Stopped;
      }
      var g := a.value;
      hide FreeOk;
      FreshFrame(tasks, ptes0, refs, free + {g}, g);
      PageInsert(k, g, Flags(vma.write, vma.exec), {g});
      assert {g} - {g} == {};
      FreshEntry(tasks, ptes0, k, Pte(g, vma.write, vma.exec));
      FreshView(ptes0, data0, data, k, Pte(g, vma.write, vma.exec));
      r := Done;
    }

    /* task_page_fault_handler, for a read or write that really faults. It stops if and only if
       the access is permitted, the page is missing or shared, and no frame is free. */
    method PageFault(k: Key, write: bool) returns (r: Outcome)
      requires Valid({}) && Good() && k.task in tasks
      requires k in ptes ==> write && !ptes[k].write
      modifies `ptes, `data, `refs, `free
      ensures Valid({}) && Good()
      ensures r == Killed <==> !Permitted(tasks, k, k in old(ptes), write)
      ensures r == Stopped <==> r != Killed && old(free) == {} && NeedsFrame(old(ptes), k)
      ensures r != Done ==> ptes == old(ptes) && free == old(free) && Memory() == old(Memory())
      ensures r == Done ==> Resolved(tasks, old(ptes), old(free), ptes, k)
      ensures r == Done ==> k in ptes && (write ==> ptes[k].write)
      ensures r == Done ==> Memory() == if k in old(ptes) then old(Memory()) else old(Memory())[k := ZERO]
    {
      hide Sound, Isolated, Allowed, Sorted, View;
      var i := FindVma(tasks[k.task], k.va);
      if i == |tasks[k.task]| {
        return Killed;
      }
      var vma := tasks[k.task][i];
      if k in ptes && vma.write && !ptes[k].write {
        r := CopyOnWrite(k, vma);
      } else {
        r := Populate(k, vma, write);
      }
    }

    /* page_remove on a present entry. */
    method PageRemove(k: Key)
      requires Valid({}) && k in ptes
      modifies `ptes, `refs, `free
      ensures Valid({}) && ptes == old(ptes) - {k} && Memory() == old(Memory()) - {k}
      ensures old(Good()) ==> Good()
    {
      hide Sound, Isolated, Allowed;
      SoundFramed(tasks, ptes, refs, free, {}, |data|);
      InUse(tasks, ptes, refs, free, {}, k);
      UnmapEntry(tasks, ptes, refs, free, {}, k);
      FewerEntries(tasks, ptes, ptes - {k});
      RemovedView(ptes, data, k);
      PageDecref(ptes[k].frame);
      ptes := ptes - {k};
    }

    /* task_free: unmap_user_pages, and the PID becomes free; then free_vmas, which returns if and
       only if it can take the task's tree apart. */
    method TaskFree(t: nat) returns (ok: bool)
      requires Valid({}) && Good() && Rooted() && t in tasks
      modifies this
      ensures Valid({}) && Good() && Rooted() && data == old(data)
      ensures tasks == old(tasks) - {t} && trees == old(trees) - {t} && Memory() == WithoutTask(old(Memory()), t)
      ensures forall k :: k in ptes ==> k in old(ptes) && ptes[k] == old(ptes)[k]
      ensures ok <==> RbFree.CanFree(old(trees)[t])
    {
      hide Sound, Isolated, Allowed, View;
      ghost var ptes0 := ptes;
      SoundFramed(tasks, ptes, refs, free, {}, |data|);
      var keys := set k | k in ptes && k.task == t;
      while keys != {}
        invariant Valid({}) && Good() && Framed(ptes, |data|) && tasks == old(tasks) && trees == old(trees) && data == old(data)
        invariant forall k :: k in keys <==> k in ptes && k.task == t
        invariant forall k :: k in ptes ==> k in ptes0 && ptes[k] == ptes0[k]
        invariant forall k :: k in ptes0 && k.task != t ==> k in ptes
        decreases |keys|
      {
        var k :| k in keys;
        PageRemove(k);
        SoundFramed(tasks, ptes, refs, free, {}, |data|);
        keys := keys - {k};
      }
      DropTask(tasks, ptes, refs, free, t);
      TaskView(ptes0, ptes, data, t);
      tasks := tasks - {t};
      ok := RbFree.CanFree(trees[t]);
      trees := trees - {t};
    }

    /* A task created with VMAs and no pages. Its VMAs may have been inserted in any order. */
    method Create(t: nat, vmas: seq<Vma>, tree: RbTree.Tree<()>)
      requires Valid({}) && Good() && Rooted() && t !in tasks && |tasks| < MAX_TASKS && Sorted(vmas) && HoldsVmas(tree, |vmas|)
      modifies `tasks, `trees
      ensures Valid({}) && Good() && Rooted() && tasks == old(tasks)[t := vmas] && trees == old(trees)[t := tree]
    {
      hide Covered, Sorted;
      assert forall k :: k in ptes ==> k.task != t;
      tasks := tasks[t := vmas];
      trees := trees[t := tree];
    }

    /* A load: a missing page faults in, and the faulting instruction runs again. */
    method DoLoad(k: Key) returns (r: Outcome, d: Data)
      requires Valid({}) && Good() && k.task in tasks
      modifies `ptes, `data, `refs, `free
      ensures Valid({}) && Good()
      ensures r == Killed <==> k !in old(Memory()) && !Permitted(tasks, k, false, false)
      ensures r == Stopped <==> r != Killed && k !in old(ptes) && old(free) == {}
      ensures r != Done || k in old(ptes) ==> ptes == old(ptes) && free == old(free)
      ensures r == Done && k !in old(ptes) ==> Resolved(tasks, old(ptes), old(free), ptes, k)
      ensures r != Done ==> Memory() == old(Memory())
      ensures r == Done ==> Memory() == if k in old(Memory()) then old(Memory()) else old(Memory())[k := ZERO]
      ensures r == Done ==> k in Memory() && d == Memory()[k]
    {
      hide Sound, Isolated, Allowed;
      r, d := Done, [];
      SoundFramed(tasks, ptes, refs, free, {}, |data|);
      if k !in ptes {
        r := PageFault(k, false);
      }
      SoundFramed(tasks, ptes, refs, free, {}, |data|);
      if r == Done {
        d := data[ptes[k].frame];
      }
    }

    /* A store: a page that is missing or not writable faults, and the instruction runs
       again; it cannot fault twice. */
    method DoStore(k: Key, d: Data) returns (r: Outcome)
      requires Valid({}) && Good() && k.task in tasks
      modifies `ptes, `data, `refs, `free
      ensures Valid({}) && Good()
      ensures r == Killed <==> !Permitted(tasks, k, k in old(Memory()), true)
      ensures r == Stopped <==> r != Killed && old(free) == {} && NeedsFrame(old(ptes), k)
      ensures r != Done || (k in old(ptes) && old(ptes[k].write)) ==> ptes == old(ptes) && free == old(free)
      ensures r == Done && !(k in old(ptes) && old(ptes[k].write)) ==> Resolved(tasks, old(ptes), old(free), ptes, k)
      ensures r != Done ==> Memory() == old(Memory())
      ensures r == Done ==> Memory() == old(Memory())[k := d]
    {
      hide Sound, Isolated, Allowed;
      r := Done;
      SoundFramed(tasks, ptes, refs, free, {}, |data|);
      if k !in ptes || !ptes[k].write {
        r := PageFault(k, true);
      } else {
        WritablePermits(tasks, ptes, k);
        WriterAlone(ptes, k);
      }
      if r == Done {
        SoundFramed(tasks, ptes, refs, free, {}, |data|);
        StoreIsLocal(ptes, data, k, d);
        data := data[ptes[k].frame := d];
      }
    }

    method ServeLoad(k: Key, log: seq<Data>) returns (stopped: bool, fault: bool, log': seq<Data>)
      requires Valid({}) && Good() && Rooted()
      modifies this
      ensures Valid({}) && Good() && Rooted()
      ensures var w := World(old(tasks), old(trees), old(Memory()), log);
        && World(tasks, trees, Memory(), log') == (if stopped then w else Eager(w, Load(k), ZERO))
        && (fault <==> Doomed(w, Load(k)))
      ensures stopped <==> Starved(old(tasks), old(ptes), old(free), Load(k))
      ensures stopped ==> !fault && ptes == old(ptes) && free == old(free)
    {
      hide Sound, Isolated, Allowed, View, WithoutTask, Permitted, RbFree.CanFree;
      log', stopped, fault := log, false, false;
      SoundFramed(tasks, ptes, refs, free, {}, |data|);
      ViewKeys(ptes, data);
      if k.task in tasks {
        var r, d := DoLoad(k);
        stopped := r == Stopped;
        if r == Killed {
          var ok := TaskFree(k.task);
          fault := !ok;
        } else if r == Done {
          log' := log + [d];
        }
      }
    }

    method ServeStore(k: Key, d: Data, ghost log: seq<Data>) returns (stopped: bool, fault: bool)
      requires Valid({}) && Good() && Rooted()
      modifies this
      ensures Valid({}) && Good() && Rooted()
      ensures var w := World(old(tasks), old(trees), old(Memory()), log);
        && World(tasks, trees, Memory(), log) == (if stopped then w else Eager(w, Store(k, d), ZERO))
        && (fault <==> Doomed(w, Store(k, d)))
      ensures stopped <==> Starved(old(tasks), old(ptes), old(free), Store(k, d))
      ensures stopped ==> !fault && ptes == old(ptes) && free == old(free)
    {
      hide Sound, Isolated, Allowed, View, WithoutTask, Permitted, RbFree.CanFree;
      stopped, fault := false, false;
      SoundFramed(tasks, ptes, refs, free, {}, |data|);
      ViewKeys(ptes, data);
      if k.task in tasks {
        var r := DoStore(k, d);
        stopped := r == Stopped;
        if r == Killed {
          var ok := TaskFree(k.task);
          fault := !ok;
        }
      }
    }

    method ServeSpawn(t: nat, vmas: seq<Vma>, tree: RbTree.Tree<()>, ghost log: seq<Data>)
      requires Valid({}) && Good() && Rooted()
      modifies this
      ensures Valid({}) && Good() && Rooted()
      ensures World(tasks, trees, Memory(), log) == Eager(World(old(tasks), old(trees), old(Memory()), log), Spawn(t, vmas, tree), ZERO)
    {
      hide Sound, Isolated, Allowed, View, Sorted, HoldsVmas;
      if t !in tasks && |tasks| < MAX_TASKS && Sorted(vmas) && HoldsVmas(tree, |vmas|) {
        Create(t, vmas, tree);
      }
    }

    method ServeFork(p: nat, c: nat, garbage: nat -> Flags, ghost log: seq<Data>)
      requires Valid({}) && Good() && Rooted() && forall i: nat :: !garbage(i).write
      modifies this
      ensures Valid({}) && Good() && Rooted()
      ensures World(tasks, trees, Memory(), log) == Eager(World(old(tasks), old(trees), old(Memory()), log), Fork(p, c, garbage), ZERO)
    {
      hide Sound, Isolated, Allowed, View, Forked, NoneStale, RbFree.CanFree, RbFree.Ascending;
      if p in tasks && c !in tasks && |tasks| < MAX_TASKS {
        ReadOnlyGarbage(ptes, p, tasks[p], garbage);
        TaskClone(p, c, garbage);
      }
    }

    method ServeUnmap(k: Key, ghost log: seq<Data>)
      requires Valid({}) && Good() && Rooted()
      modifies this
      ensures Valid({}) && Good() && Rooted()
      ensures World(tasks, trees, Memory(), log) == Eager(World(old(tasks), old(trees), old(Memory()), log), Unmap(k), ZERO)
    {
      hide Sound, Isolated, Allowed, View;
      SoundFramed(tasks, ptes, refs, free, {}, |data|);
      ViewKeys(ptes, data);
      if k in ptes {
        PageRemove(k);
      } else {
        assert Memory() - {k} == Memory();
      }
    }

    method ServeExit(t: nat, ghost log: seq<Data>) returns (fault: bool)
      requires Valid({}) && Good() && Rooted()
      modifies this
      ensures Valid({}) && Good() && Rooted()
      ensures var w := World(old(tasks), old(trees), old(Memory()), log);
        World(tasks, trees, Memory(), log) == Eager(w, Exit(t), ZERO) && (fault <==> Doomed(w, Exit(t)))
    {
      hide Sound, Isolated, Allowed, View, WithoutTask, RbFree.CanFree;
      fault := false;
      if t in tasks {
        var ok := TaskFree(t);
        fault := !ok;
      }
    }

    /* One step. stopped: page_alloc's assertion failed; fault: free_vmas read through a null
       pointer. */
    method Serve(op: Op, log: seq<Data>) returns (stopped: bool, fault: bool, log': seq<Data>)
      requires Valid({}) && Good() && Rooted() && (op.Fork? ==> forall i: nat :: !op.garbage(i).write)
      modifies this
      ensures Valid({}) && Good() && Rooted()
      ensures var w := World(old(tasks), old(trees), old(Memory()), log);
        && World(tasks, trees, Memory(), log') == (if stopped then w else Eager(w, op, ZERO))
        && (fault <==> Doomed(w, op))
      ensures stopped <==> Starved(old(tasks), old(ptes), old(free), op)
      ensures stopped ==> !fault && ptes == old(ptes) && free == old(free)
    {
      NeverDoomed(World(tasks, trees, Memory(), log), op);
      NeverStarved(tasks, ptes, free, op);
      hide Sound, Isolated, Allowed, View, Eager, Doomed, Starved;
      log', stopped, fault := log, false, false;
      match op {
        case Spawn(t, vmas, tree) =>
          ServeSpawn(t, vmas, tree, log);
        case Fork(p, c, garbage) =>
          ServeFork(p, c, garbage, log);
        case Load(k) =>
          stopped, fault, log' := ServeLoad(k, log);
        case Store(k, d) =>
          stopped, fault := ServeStore(k, d, log);
        case Unmap(k) =>
          ServeUnmap(k, log);
        case Exit(t) =>
          fault := ServeExit(t, log);
      }
    }

    /* Any run: copy-on-write cannot be told from eager copying, neither by what is in memory nor
       by what the loads return. The run goes on until a step needs a frame and none is free, or
       until a task ends whose VMAs cannot be removed. */
    method Run(ops: seq<Op>) returns (n: nat, fault: bool, log: seq<Data>)
      requires Valid({}) && Good() && Rooted()
      requires forall i: nat, j: nat :: i < |ops| && ops[i].Fork? ==> !ops[i].garbage(j).write
      modifies this
      ensures Valid({}) && Good() && Rooted() && n <= |ops|
      ensures var w := World(old(tasks), old(trees), old(Memory()), []);
        && World(tasks, trees, Memory(), log) == EagerRun(w, ops[..n], ZERO)
        && (n < |ops| ==> fault || Starved(tasks, ptes, free, ops[n]))
        && (fault <==> n > 0 && DoomedAt(w, ops, ZERO, n - 1))
        && (forall i :: 0 <= i < n - 1 ==> !DoomedAt(w, ops, ZERO, i))
    {
      hide Sound, Isolated, Allowed, View, Eager, Doomed, EagerRun, Starved;
      ghost var w0 := World(tasks, trees, Memory(), []);
      n, log, fault := 0, [], false;
      var stopped := false;
      FirstRun(w0, ZERO);
      assert ops[..0] == [];
      while n < |ops| && !stopped && !fault
        invariant n <= |ops| && Valid({}) && Good() && Rooted() && (stopped ==> n < |ops| && Starved(tasks, ptes, free, ops[n]))
        invariant World(tasks, trees, Memory(), log) == EagerRun(w0, ops[..n], ZERO)
        invariant fault <==> n > 0 && DoomedAt(w0, ops, ZERO, n - 1)
        invariant forall i :: 0 <= i < n - 1 ==> !DoomedAt(w0, ops, ZERO, i)
        decreases |ops| - n, !stopped
      {
        stopped, fault, log := Serve(ops[n], log);
        if !stopped {
          NextRun(w0, ops, ZERO, n);
          n := n + 1;
        }
      }
    }
  }

  lemma NoUsers(refs: seq<nat>)
    requires forall f :: 0 <= f < |refs| ==> refs[f] == 0
    ensures Counted(map[], refs)
  {
    forall f: nat | f < |refs|
      ensures |Users(map[], f)| == 0
    {
      assert Users(map[], f) == {};
    }
  }

  /* The frames 0 to n - 1. */
  function Frames(n: nat): (s: set<nat>)
    ensures |s| == n && forall f: nat :: f in s <==> f < n
  {
    if n == 0 then {} else Frames(n - 1) + {n - 1}
  }

  lemma InUse(tasks: Tasks, ptes: Ptes, refs: seq<nat>, free: set<nat>, out: set<nat>, k: Key)
    requires Sound(tasks, ptes, refs, free, out) && k in ptes
    ensures ptes[k].frame < |refs| && refs[ptes[k].frame] > 0 && ptes[k].frame !in free
  {
    hide Covered, Sorted;
    assert k in Users(ptes, ptes[k].frame);
  }

  lemma ShareFacts(tasks: Tasks, ptes: Ptes, refs: seq<nat>, free: set<nat>, k: Key)
    requires Sound(tasks, ptes, refs, free, {}) && k in ptes
    ensures ptes[k].frame < |refs| && ptes[k].frame !in free
    ensures forall l :: l in Users(ptes, ptes[k].frame) ==> l.va == k.va
  {
    hide Covered, Sorted;
    InUse(tasks, ptes, refs, free, {}, k);
  }

  lemma FewerEntries(tasks: Tasks, ptes: Ptes, ptes': Ptes)
    requires forall k :: k in ptes' ==> k in ptes && ptes'[k] == ptes[k]
    ensures Isolated(ptes) ==> Isolated(ptes')
    ensures Allowed(tasks, ptes) ==> Allowed(tasks, ptes')
  {
  }

  lemma RemovedView(ptes: Ptes, data: seq<Data>, k: Key)
    requires Framed(ptes, |data|)
    ensures Framed(ptes - {k}, |data|) && View(ptes - {k}, data) == View(ptes, data) - {k}
  {
  }

  lemma ViewKeys(ptes: Ptes, data: seq<Data>)
    requires Framed(ptes, |data|)
    ensures View(ptes, data).Keys == ptes.Keys
  {
  }

  lemma DropTask(tasks: Tasks, ptes: Ptes, refs: seq<nat>, free: set<nat>, t: nat)
    requires Sound(tasks, ptes, refs, free, {}) && t in tasks && forall k :: k in ptes ==> k.task != t
    ensures Sound(tasks - {t}, ptes, refs, free, {})
    ensures Allowed(tasks, ptes) ==> Allowed(tasks - {t}, ptes)
  {
    hide Counted, FreeOk, OneAddress, Covered, Sorted;
    var tasks' := tasks - {t};
    assert tasks'.Keys == tasks.Keys - {t} && |tasks'| == |tasks'.Keys| && |tasks| == |tasks.Keys|;
    assert forall k :: k in ptes && Writable(tasks, k) ==> Writable(tasks', k);
  }

  lemma TaskView(ptes0: Ptes, ptes: Ptes, data: seq<Data>, t: nat)
    requires Framed(ptes0, |data|) && Framed(ptes, |data|)
    requires forall k :: k in ptes <==> k in ptes0 && k.task != t
    requires forall k :: k in ptes ==> ptes[k] == ptes0[k]
    ensures View(ptes, data) == WithoutTask(View(ptes0, data), t)
  {
  }

  lemma WriterAlone(ptes: Ptes, k: Key)
    requires Isolated(ptes) && k in ptes && ptes[k].write
    ensures !NeedsFrame(ptes, k)
  {
  }

  lemma WritablePermits(tasks: Tasks, ptes: Ptes, k: Key)
    requires Allowed(tasks, ptes) && k in ptes && ptes[k].write
    ensures k.task in tasks && Permitted(tasks, k, true, true)
  {
    assert Writable(tasks, k);
  }

  lemma ReadOnlyGarbage(ptes: Ptes, p: nat, vmas: seq<Vma>, garbage: nat -> Flags)
    requires forall i: nat :: !garbage(i).write
    ensures NoneStale(ptes, p, vmas, garbage)
  {
  }

  /* A parent with one page that is neither writable nor executable, as every data page is
     after a fork: with a writable page_flags both tasks end up with a writable entry. */
  lemma StaleExample()
    ensures var ptes := map[Key(1, 0) := Pte(7, false, false)];
      && Isolated(ptes) && Stale(ptes, 1, 0, 1)
      && !Isolated(Share(ptes, 1, 2, 0, NextFlags(Flags(true, false), ptes[Key(1, 0)])))
  {
    var ptes := map[Key(1, 0) := Pte(7, false, false)];
    assert FirstAt(ptes, 1, 0, 0);
    LeakyNotIsolated(Share(ptes, 1, 2, 0, NextFlags(Flags(true, false), ptes[Key(1, 0)])), 1, 2, 0);
  }

  lemma WritableCovered(tasks: Tasks, k: Key)
    requires Writable(tasks, k)
    ensures k.task in tasks && Covered(tasks[k.task], k.va)
  {
  }

  lemma FreshFrame(tasks: Tasks, ptes: Ptes, refs: seq<nat>, free: set<nat>, g: nat)
    requires Sound(tasks, ptes, refs, free, {}) && g in free
    ensures g < |refs| && Users(ptes, g) == {} && forall k :: k in ptes ==> ptes[k].frame != g
  {
    hide Placed, OneAddress, TasksOk;
    assert refs[g] == |Users(ptes, g)|;
    forall k | k in ptes
      ensures ptes[k].frame != g
    {
      assert k !in Users(ptes, g);
    }
  }

  /* Entry k gets a frame that no other entry has: the others read what they read, and k reads
     the frame's contents. */
  lemma FreshEntry(tasks: Tasks, ptes: Ptes, k: Key, pte: Pte)
    requires forall l :: l in ptes && l != k ==> ptes[l].frame != pte.frame
    requires Isolated(ptes) && Allowed(tasks, ptes) && (pte.write ==> Writable(tasks, k))
    ensures Isolated(ptes[k := pte]) && Allowed(tasks, ptes[k := pte])
  {
    hide Writable;
  }

  lemma FreshView(ptes: Ptes, data: seq<Data>, data': seq<Data>, k: Key, pte: Pte)
    requires Framed(ptes, |data|) && |data'| == |data| && pte.frame < |data|
    requires forall l :: l in ptes && l != k ==> data'[ptes[l].frame] == data[ptes[l].frame]
    ensures Framed(ptes[k := pte], |data'|)
    ensures View(ptes[k := pte], data') == View(ptes, data)[k := data'[pte.frame]]
    ensures k in ptes ==> View(ptes, data)[k] == data[ptes[k].frame]
    ensures k in ptes && data'[pte.frame] == data[ptes[k].frame] ==> View(ptes[k := pte], data') == View(ptes, data)
  {
  }

  // ------------------------------------------------------------------ sharing a range

  lemma SoundFramed(tasks: Tasks, ptes: Ptes, refs: seq<nat>, free: set<nat>, out: set<nat>, n: nat)
    requires Sound(tasks, ptes, refs, free, out) && n == |refs|
    ensures Framed(ptes, n)
  {
    hide Covered, Sorted;
  }

  /* The entries c has got, and the ones that may have changed. */
  ghost predicate RangeShared(ptes0: Ptes, ptes: Ptes, p: nat, c: nat, start: nat, va: nat) {
    && (forall k :: k in ptes <==> k in ptes0 || (k.task == c && start <= k.va < va && Key(p, k.va) in ptes0))
    && (forall k :: k in ptes0 && !(k.task == p && start <= k.va < va) ==> ptes[k] == ptes0[k])
  }

  /* A frame that p can write and c can read. */
  ghost predicate Leaky(ptes: Ptes, p: nat, c: nat, va: nat) {
    && Key(p, va) in ptes && Key(c, va) in ptes && p != c
    && ptes[Key(p, va)].write && ptes[Key(c, va)].frame == ptes[Key(p, va)].frame
  }

  /* The first present entry up to va leaves page_flags unassigned. */
  predicate Unassigned(ptes0: Ptes, p: nat, first: nat, va: nat) {
    first < va && Key(p, first) in ptes0 && !ptes0[Key(p, first)].write && !ptes0[Key(p, first)].exec
  }

  ghost predicate Progress(tasks: Tasks, ptes0: Ptes, ptes: Ptes, p: nat, c: nat, start: nat, va: nat, first: nat,
                           garbage: Flags, flags: Flags) {
    && start <= first <= va && (forall u: nat :: start <= u < first ==> Key(p, u) !in ptes0)
    && (first < va ==> Key(p, first) in ptes0)
    && (first == va ==> flags == garbage)
    && (if garbage.write && Unassigned(ptes0, p, first, va) then Leaky(ptes, p, c, first)
        else (first < va ==> !flags.write) && (Isolated(ptes0) && Allowed(tasks, ptes0) ==> Isolated(ptes) && Allowed(tasks, ptes)))
  }

  /* A page that has not been reached is as it was. */
  lemma StillThere(ptes0: Ptes, ptes: Ptes, p: nat, c: nat, start: nat, va: nat)
    requires RangeShared(ptes0, ptes, p, c, start, va) && p != c
    ensures Key(p, va) in ptes <==> Key(p, va) in ptes0
    ensures Key(p, va) in ptes0 ==> ptes[Key(p, va)] == ptes0[Key(p, va)]
  {
  }

  lemma SharedPagesSkip(ptes0: Ptes, ptes: Ptes, p: nat, c: nat, start: nat, va: nat, garbage: Flags)
    requires SharedPages(ptes0, ptes, p, c, start, va, garbage) && Key(p, va) !in ptes0
    ensures SharedPages(ptes0, ptes, p, c, start, va + 1, garbage)
  {
    hide SharedPage;
  }

  lemma RangeStart(tasks: Tasks, ptes: Ptes, data: seq<Data>, p: nat, c: nat, start: nat, garbage: Flags)
    requires Framed(ptes, |data|)
    ensures RangeShared(ptes, ptes, p, c, start, start)
    ensures Copied(View(ptes, data), View(ptes, data), p, c, start, start)
    ensures Progress(tasks, ptes, ptes, p, c, start, start, start, garbage, garbage)
  {
  }

  lemma SharedStep(ptes0: Ptes, ptes: Ptes, p: nat, c: nat, start: nat, va: nat, flags: Flags)
    requires RangeShared(ptes0, ptes, p, c, start, va) && start <= va
    requires Key(p, va) in ptes && Key(c, va) !in ptes && p != c
    ensures var ptes' := Share(ptes, p, c, va, flags);
      && RangeShared(ptes0, ptes', p, c, start, va + 1)
      && forall k :: k in ptes' <==> k in ptes || k == Key(c, va)
  {
  }

  lemma ViewStep(ptes0: Ptes, ptes: Ptes, data: seq<Data>, p: nat, c: nat, start: nat, va: nat, flags: Flags)
    requires Framed(ptes0, |data|) && Framed(ptes, |data|) && RangeShared(ptes0, ptes, p, c, start, va) && start <= va
    requires Copied(View(ptes, data), View(ptes0, data), p, c, start, va)
    requires Key(p, va) in ptes && Key(c, va) !in ptes && p != c
    ensures var ptes' := Share(ptes, p, c, va, flags);
      Framed(ptes', |data|) && Copied(View(ptes', data), View(ptes0, data), p, c, start, va + 1)
  {
    hide Share, Copied;
    ShareView(ptes, data, p, c, va, flags);
    var m, m0 := View(ptes, data), View(ptes0, data);
    assert Key(p, va) in m0 && m[Key(p, va)] == m0[Key(p, va)];
    hide View, Framed, RangeShared;
    CopiedStep(m, m0, p, c, start, va);
  }

  lemma CopiedStep(m': map<Key, Data>, m: map<Key, Data>, p: nat, c: nat, start: nat, va: nat)
    requires start <= va && p != c && Copied(m', m, p, c, start, va) && Key(p, va) in m
    ensures Copied(m'[Key(c, va) := m[Key(p, va)]], m, p, c, start, va + 1)
  {
    forall k: Key
      ensures CopyOf(m, p, c, start, va + 1, k) <==> CopyOf(m, p, c, start, va, k) || k == Key(c, va)
    {
    }
  }

  lemma SharedSkip(ptes0: Ptes, ptes: Ptes, data: seq<Data>, p: nat, c: nat, start: nat, va: nat)
    requires Framed(ptes0, |data|) && Framed(ptes, |data|) && RangeShared(ptes0, ptes, p, c, start, va) && start <= va
    requires Copied(View(ptes, data), View(ptes0, data), p, c, start, va)
    requires Key(p, va) !in ptes && p != c
    ensures RangeShared(ptes0, ptes, p, c, start, va + 1)
    ensures Copied(View(ptes, data), View(ptes0, data), p, c, start, va + 1)
  {
    assert Key(p, va) !in ptes0 && Key(p, va) !in View(ptes0, data);
    hide View, Framed;
    CopiedSkip(View(ptes, data), View(ptes0, data), p, c, start, va);
  }

  lemma CopiedSkip(m': map<Key, Data>, m: map<Key, Data>, p: nat, c: nat, start: nat, va: nat)
    requires Copied(m', m, p, c, start, va) && Key(p, va) !in m
    ensures Copied(m', m, p, c, start, va + 1)
  {
    assert forall k :: CopyOf(m, p, c, start, va + 1, k) <==> CopyOf(m, p, c, start, va, k);
  }

  lemma ProgressSkip(tasks: Tasks, ptes0: Ptes, ptes: Ptes, p: nat, c: nat, start: nat, va: nat, first: nat,
                     garbage: Flags, flags: Flags)
    requires Progress(tasks, ptes0, ptes, p, c, start, va, first, garbage, flags)
    requires RangeShared(ptes0, ptes, p, c, start, va) && Key(p, va) !in ptes
    ensures Progress(tasks, ptes0, ptes, p, c, start, va + 1, if first == va then va + 1 else first, garbage, flags)
    ensures Key(p, va) !in ptes0
  {
    hide Isolated, Allowed, Leaky;
  }

  lemma ProgressShare(tasks: Tasks, ptes0: Ptes, ptes: Ptes, p: nat, c: nat, start: nat, va: nat, first: nat,
                      garbage: Flags, flags: Flags)
    requires Progress(tasks, ptes0, ptes, p, c, start, va, first, garbage, flags) && p != c
    requires RangeShared(ptes0, ptes, p, c, start, va) && Key(p, va) in ptes && Key(c, va) !in ptes
    ensures var flags' := NextFlags(flags, ptes[Key(p, va)]);
      Progress(tasks, ptes0, Share(ptes, p, c, va, flags'), p, c, start, va + 1, first, garbage, flags')
    ensures Key(p, va) in ptes0
  {
    var flags' := NextFlags(flags, ptes[Key(p, va)]);
    if !flags'.write && Isolated(ptes) && Allowed(tasks, ptes) {
      ShareIsolates(tasks, ptes, p, c, va, flags');
    }
    hide Isolated, Allowed;
    assert ptes[Key(p, va)] == ptes0[Key(p, va)];
  }

  lemma ProgressEnd(tasks: Tasks, ptes0: Ptes, ptes: Ptes, p: nat, c: nat, start: nat, end: nat, first: nat,
                    garbage: Flags, flags: Flags)
    requires Progress(tasks, ptes0, ptes, p, c, start, end, first, garbage, flags)
    ensures garbage.write && Stale(ptes0, p, start, end) ==> first < end && Leaky(ptes, p, c, first)
    ensures Isolated(ptes0) && Allowed(tasks, ptes0) && !(garbage.write && Stale(ptes0, p, start, end)) ==>
      Isolated(ptes) && Allowed(tasks, ptes)
    ensures start <= first
  {
    hide Isolated, Allowed;
    if Unassigned(ptes0, p, first, end) {
      assert FirstAt(ptes0, p, start, first);
    }
  }

  // ------------------------------------------------------------------ cloning

  /* No VMA of the parent makes copy_page_range use a writable value of page_flags before
     assigning it. */
  ghost predicate NoneStale(ptes: Ptes, p: nat, vmas: seq<Vma>, garbage: nat -> Flags) {
    forall i :: 0 <= i < |vmas| ==> !(garbage(i).write && Stale(ptes, p, vmas[i].base, vmas[i].end))
  }

  /* The end of the first i VMAs. */
  function Bound(vmas: seq<Vma>, i: nat): nat
    requires i <= |vmas|
  {
    if i == 0 then 0 else vmas[i - 1].end
  }

  ghost predicate Cloning(tasks0: Tasks, tasks: Tasks, ptes0: Ptes, ptes: Ptes, p: nat, c: nat, vmas: seq<Vma>, i: nat,
                          garbage: nat -> Flags, leak: nat)
    requires i <= |vmas|
  {
    if NoneStale(ptes0, p, vmas[..i], garbage)
    then Isolated(ptes0) && Allowed(tasks0, ptes0) ==> Isolated(ptes) && Allowed(tasks, ptes)
    else leak < Bound(vmas, i) && Leaky(ptes, p, c, leak)
  }

  /* The pages of each of the first n VMAs have been shared. */
  ghost predicate SharedVmas(ptes0: Ptes, ptes: Ptes, p: nat, c: nat, vmas: seq<Vma>, n: nat, garbage: nat -> Flags)
    requires n <= |vmas|
  {
    forall i: nat :: i < n ==> SharedPages(ptes0, ptes, p, c, vmas[i].base, vmas[i].end, garbage(i))
  }

  lemma OthersKept(ptes0: Ptes, ptes: Ptes, p: nat, c: nat, end: nat)
    requires RangeShared(ptes0, ptes, p, c, 0, end)
    ensures forall k :: k in ptes0 && k.task != p ==> k in ptes && ptes[k] == ptes0[k]
  {
  }

  lemma SharedNone(ptes: Ptes, p: nat, c: nat, vmas: seq<Vma>, garbage: nat -> Flags)
    ensures SharedVmas(ptes, ptes, p, c, vmas, 0, garbage)
  {
  }

  lemma SharedNext(ptes0: Ptes, before: Ptes, ptes: Ptes, p: nat, c: nat, vmas: seq<Vma>, n: nat, garbage: nat -> Flags)
    requires n < |vmas| && Sorted(vmas) && p != c && SharedVmas(ptes0, before, p, c, vmas, n, garbage)
    requires RangeShared(ptes0, before, p, c, 0, Bound(vmas, n)) && RangeShared(before, ptes, p, c, vmas[n].base, vmas[n].end)
    requires SharedPages(before, ptes, p, c, vmas[n].base, vmas[n].end, garbage(n))
    ensures SharedVmas(ptes0, ptes, p, c, vmas, n + 1, garbage)
  {
    hide SharedPage;
    BoundStep(vmas, n);
    SharedPagesFrom(ptes0, before, ptes, p, c, vmas[n].base, vmas[n].end, garbage(n));
    forall i: nat | i < n
      ensures SharedPages(ptes0, ptes, p, c, vmas[i].base, vmas[i].end, garbage(i))
    {
      assert SharedPages(ptes0, before, p, c, vmas[i].base, vmas[i].end, garbage(i));
      forall v: nat | vmas[i].base <= v < vmas[i].end && Key(p, v) in ptes0
        ensures SharedPage(ptes0, ptes, p, c, vmas[i].base, v, garbage(i))
      {
        BothThere(ptes0, before, p, c, vmas[i].base, v, garbage(i));
        SharedPageKept(ptes0, before, ptes, p, c, vmas[i].base, v, garbage(i));
      }
    }
  }

  lemma BothThere(ptes0: Ptes, ptes: Ptes, p: nat, c: nat, start: nat, v: nat, garbage: Flags)
    requires Key(p, v) in ptes0 && SharedPage(ptes0, ptes, p, c, start, v, garbage)
    ensures Key(p, v) in ptes && Key(c, v) in ptes
  {
  }

  lemma CloneStart(tasks: Tasks, ptes: Ptes, data: seq<Data>, refs: seq<nat>, free: set<nat>, p: nat, c: nat,
                   garbage: nat -> Flags)
    requires Sound(tasks, ptes, refs, free, {}) && |data| == |refs| && p in tasks && c !in tasks && |tasks| < MAX_TASKS
    ensures Sound(tasks[c := []], ptes, refs, free, {}) && Framed(ptes, |data|) && Bound(tasks[p], 0) == 0
    ensures RangeShared(ptes, ptes, p, c, 0, 0) && Copied(View(ptes, data), View(ptes, data), p, c, 0, 0)
    ensures Cloning(tasks, tasks[c := []], ptes, ptes, p, c, tasks[p], 0, garbage, 0)
  {
    hide Covered, Counted, FreeOk, OneAddress, Isolated;
    var tasks' := tasks[c := []];
    assert forall k :: k in ptes ==> k.task in tasks && k.task != c;
    assert |tasks'| == |tasks| + 1;
    forall k | k in ptes && ptes[k].write && Writable(tasks, k)
      ensures Writable(tasks', k)
    {
    }
  }

  lemma AppendFind(vmas: seq<Vma>, v: Vma, va: nat)
    ensures var i := FindVma(vmas, va);
      FindVma(vmas + [v], va) == if i < |vmas| then i else if Within(v, va) then |vmas| else |vmas| + 1
  {
    if vmas != [] {
      assert (vmas + [v])[1..] == vmas[1..] + [v];
      AppendFind(vmas[1..], v, va);
    }
  }

  lemma GrowTask(tasks: Tasks, ptes: Ptes, refs: seq<nat>, free: set<nat>, c: nat, v: Vma)
    requires Sound(tasks, ptes, refs, free, {}) && c in tasks && Sorted(tasks[c] + [v])
    ensures var tasks' := tasks[c := tasks[c] + [v]];
      Sound(tasks', ptes, refs, free, {}) && (Allowed(tasks, ptes) ==> Allowed(tasks', ptes))
  {
    hide Counted, FreeOk, OneAddress, Sorted;
    var tasks' := tasks[c := tasks[c] + [v]];
    assert tasks'.Keys == tasks.Keys && |tasks'| == |tasks'.Keys| && |tasks| == |tasks.Keys|;
    forall k: Key
      ensures k.task in tasks && Covered(tasks[k.task], k.va) ==> Covered(tasks'[k.task], k.va)
      ensures Writable(tasks, k) ==> Writable(tasks', k)
    {
      if k.task == c {
        AppendFind(tasks[c], v, k.va);
      }
    }
  }

  /* The pages of p are inside its VMAs. */
  lemma Gap(vmas: seq<Vma>, i: nat, va: nat)
    requires Sorted(vmas) && Covered(vmas, va) && i <= |vmas| && Bound(vmas, i) <= va
    ensures i < |vmas| && vmas[i].base <= va
  {
    var j := FindVma(vmas, va);
    assert Within(vmas[j], va);
  }

  lemma BoundStep(vmas: seq<Vma>, i: nat)
    requires Sorted(vmas) && i < |vmas|
    ensures Bound(vmas, i) <= vmas[i].base <= vmas[i].end == Bound(vmas, i + 1)
    ensures vmas[..i + 1] == vmas[..i] + [vmas[i]] && Sorted(vmas[..i + 1])
  {
  }

  lemma CloneStep(tasks0: Tasks, tasks: Tasks, ptes0: Ptes, ptes: Ptes, refs: seq<nat>, free: set<nat>, p: nat, c: nat,
                  vmas: seq<Vma>, i: nat)
    requires Sound(tasks, ptes, refs, free, {}) && i < |vmas| && tasks == tasks0[c := vmas[..i]] && Sorted(vmas)
    requires RangeShared(ptes0, ptes, p, c, 0, Bound(vmas, i)) && forall k :: k in ptes0 ==> k.task != c
    ensures var (v, tasks') := (vmas[i], tasks[c := tasks[c] + [vmas[i]]]);
      && tasks' == tasks0[c := vmas[..i + 1]] && Sound(tasks', ptes, refs, free, {}) && v.base <= v.end
      && (forall va: nat :: v.base <= va < v.end ==> Covered(tasks'[c], va) && Key(c, va) !in ptes)
      && (Allowed(tasks, ptes) ==> Allowed(tasks', ptes))
  {
    hide Sound, Sorted, Allowed, Bound;
    BoundStep(vmas, i);
    GrowTask(tasks, ptes, refs, free, c, vmas[i]);
    var vmas' := vmas[..i + 1];
    forall va: nat | vmas[i].base <= va < vmas[i].end
      ensures Covered(vmas', va)
    {
      AppendFind(vmas[..i], vmas[i], va);
    }
  }

  lemma CloneJoin(tasks0: Tasks, ptes0: Ptes, before: Ptes, ptes: Ptes, p: nat, c: nat, vmas: seq<Vma>, i: nat, n: nat)
    requires Placed(tasks0, ptes0, n) && p in tasks0 && tasks0[p] == vmas && Sorted(vmas) && i < |vmas| && p != c
    requires RangeShared(ptes0, before, p, c, 0, Bound(vmas, i))
    requires RangeShared(before, ptes, p, c, vmas[i].base, vmas[i].end)
    ensures RangeShared(ptes0, ptes, p, c, 0, Bound(vmas, i + 1))
  {
    hide Covered, Sorted, Bound;
    BoundStep(vmas, i);
    forall va: nat | Key(p, va) in ptes0 && Bound(vmas, i) <= va
      ensures vmas[i].base <= va
    {
      Gap(vmas, i, va);
    }
  }

  lemma CopyJoin(tasks0: Tasks, ptes0: Ptes, m0: map<Key, Data>, before: map<Key, Data>, m: map<Key, Data>,
                 p: nat, c: nat, vmas: seq<Vma>, i: nat, n: nat)
    requires Placed(tasks0, ptes0, n) && p in tasks0 && tasks0[p] == vmas && Sorted(vmas) && i < |vmas| && p != c
    requires m0.Keys == ptes0.Keys
    requires Copied(before, m0, p, c, 0, Bound(vmas, i)) && Copied(m, before, p, c, vmas[i].base, vmas[i].end)
    ensures Copied(m, m0, p, c, 0, Bound(vmas, i + 1))
  {
    hide Covered, Sorted, Bound;
    BoundStep(vmas, i);
    var b, v := Bound(vmas, i), vmas[i];
    forall k: Key
      ensures CopyOf(m0, p, c, 0, v.end, k) <==> CopyOf(m0, p, c, 0, b, k) || CopyOf(before, p, c, v.base, v.end, k)
    {
      if Key(p, k.va) in m0 && b <= k.va {
        assert Key(p, k.va) in ptes0;
        Gap(vmas, i, k.va);
      }
    }
  }

  lemma StaleSame(ptes0: Ptes, ptes: Ptes, p: nat, c: nat, b: nat, start: nat, end: nat)
    requires RangeShared(ptes0, ptes, p, c, 0, b) && b <= start && p != c
    ensures Stale(ptes, p, start, end) <==> Stale(ptes0, p, start, end)
  {
    if v: nat :| FirstAt(ptes, p, start, v) && v < end && !ptes[Key(p, v)].write && !ptes[Key(p, v)].exec {
      assert FirstAt(ptes0, p, start, v);
    }
    if v: nat :| FirstAt(ptes0, p, start, v) && v < end && !ptes0[Key(p, v)].write && !ptes0[Key(p, v)].exec {
      assert FirstAt(ptes, p, start, v);
    }
  }

  lemma LeakKept(before: Ptes, ptes: Ptes, p: nat, c: nat, start: nat, end: nat, leak: nat)
    requires Leaky(before, p, c, leak) && leak < start && RangeShared(before, ptes, p, c, start, end)
    ensures Leaky(ptes, p, c, leak)
  {
  }

  lemma CloneProgress(tasks0: Tasks, tasks: Tasks, ptes0: Ptes, before: Ptes, ptes: Ptes, p: nat, c: nat,
                      vmas: seq<Vma>, i: nat, garbage: nat -> Flags, leak: nat, first: nat)
    requires i < |vmas| && Sorted(vmas) && p != c
    requires Cloning(tasks0, tasks, ptes0, before, p, c, vmas, i, garbage, leak)
    requires RangeShared(ptes0, before, p, c, 0, Bound(vmas, i))
    requires RangeShared(before, ptes, p, c, vmas[i].base, vmas[i].end)
    requires garbage(i).write && Stale(before, p, vmas[i].base, vmas[i].end) ==> first < vmas[i].end && Leaky(ptes, p, c, first)
    requires Isolated(before) && Allowed(tasks, before) && !(garbage(i).write && Stale(before, p, vmas[i].base, vmas[i].end)) ==>
      Isolated(ptes) && Allowed(tasks, ptes)
    ensures var leak' := if garbage(i).write && Stale(before, p, vmas[i].base, vmas[i].end) then first else leak;
      Cloning(tasks0, tasks, ptes0, ptes, p, c, vmas, i + 1, garbage, leak')
  {
    hide Isolated, Allowed, RangeShared, Leaky, Stale, Sorted, Bound;
    BoundStep(vmas, i);
    var v := vmas[i];
    StaleSame(ptes0, before, p, c, Bound(vmas, i), v.base, v.end);
    NoneStaleStep(ptes0, p, vmas, i, garbage);
    hide NoneStale;
    if !NoneStale(ptes0, p, vmas[..i], garbage) {
      LeakKept(before, ptes, p, c, v.base, v.end, leak);
    }
  }

  lemma NoneStaleStep(ptes: Ptes, p: nat, vmas: seq<Vma>, i: nat, garbage: nat -> Flags)
    requires i < |vmas|
    ensures NoneStale(ptes, p, vmas[..i + 1], garbage)
       <==> NoneStale(ptes, p, vmas[..i], garbage) && !(garbage(i).write && Stale(ptes, p, vmas[i].base, vmas[i].end))
  {
    hide Stale;
    var a, b := vmas[..i], vmas[..i + 1];
    assert forall j :: 0 <= j < i ==> a[j] == b[j];
    if NoneStale(ptes, p, b, garbage) {
      assert b[i] == vmas[i];
      forall j | 0 <= j < i
        ensures !(garbage(j).write && Stale(ptes, p, a[j].base, a[j].end))
      {
        assert a[j] == b[j];
      }
    }
  }

  lemma CloneEnd(tasks0: Tasks, ptes0: Ptes, m0: map<Key, Data>, m: map<Key, Data>, p: nat, c: nat, n: nat)
    requires Placed(tasks0, ptes0, n) && p in tasks0 && c !in tasks0 && Sorted(tasks0[p]) && m0.Keys == ptes0.Keys
    requires forall k :: k in m0 ==> k.task != c
    requires Copied(m, m0, p, c, 0, Bound(tasks0[p], |tasks0[p]|))
    ensures m == Forked(m0, p, c)
  {
    hide Covered, Sorted, Bound, Forked;
    var vmas, f := tasks0[p], Forked(m0, p, c);
    forall k: Key
      ensures k in f <==> k in m
      ensures k in f ==> f[k] == m[k]
    {
      assert m0.Keys == ptes0.Keys;
      ForkedAt(m0, p, c, k);
      assert k in m <==> k in m0 || CopyOf(m0, p, c, 0, Bound(vmas, |vmas|), k);
      if Key(p, k.va) in m0 && Bound(vmas, |vmas|) <= k.va {
        assert Key(p, k.va) in ptes0;
        Gap(vmas, |vmas|, k.va);
      }
    }
  }

  lemma ForkedAt(m: map<Key, Data>, p: nat, c: nat, k: Key)
    requires forall l :: l in m ==> l.task != c
    ensures k in Forked(m, p, c) <==> k in m || (k.task == c && Key(p, k.va) in m)
    ensures k in Forked(m, p, c) ==> Forked(m, p, c)[k] == if k.task == c then m[Key(p, k.va)] else m[k]
  {
    var g := map l | l in m && l.task == p :: Key(c, l.va) := m[l];
    if k.task == c && Key(p, k.va) in m {
      assert k == Key(c, Key(p, k.va).va) && k in g;
    }
  }

  lemma CloneFacts(tasks: Tasks, ptes: Ptes, data: seq<Data>, refs: seq<nat>, free: set<nat>, p: nat, c: nat)
    requires Sound(tasks, ptes, refs, free, {}) && |data| == |refs| && p in tasks && c !in tasks
    ensures Framed(ptes, |data|) && View(ptes, data).Keys == ptes.Keys
    ensures forall k :: k in View(ptes, data) ==> k.task != c
    ensures Sorted(tasks[p]) && Placed(tasks, ptes, |data|) && forall k :: k in ptes ==> k.task != c
  {
    hide Covered, Sorted;
  }

  lemma CloningTasks(tasks0: Tasks, tasks: Tasks, tasks': Tasks, ptes0: Ptes, ptes: Ptes, p: nat, c: nat,
                     vmas: seq<Vma>, i: nat, garbage: nat -> Flags, leak: nat)
    requires i <= |vmas| && Cloning(tasks0, tasks, ptes0, ptes, p, c, vmas, i, garbage, leak)
    requires Allowed(tasks, ptes) ==> Allowed(tasks', ptes)
    ensures Cloning(tasks0, tasks', ptes0, ptes, p, c, vmas, i, garbage, leak)
  {
    hide Allowed, Isolated, Leaky, Bound, NoneStale;
  }

  lemma CloneVerdict(tasks0: Tasks, tasks: Tasks, ptes0: Ptes, ptes: Ptes, p: nat, c: nat,
                     vmas: seq<Vma>, garbage: nat -> Flags, leak: nat)
    requires Cloning(tasks0, tasks, ptes0, ptes, p, c, vmas, |vmas|, garbage, leak)
    requires Isolated(ptes0) && Allowed(tasks0, ptes0)
    ensures Isolated(ptes) <==> NoneStale(ptes0, p, vmas, garbage)
    ensures Isolated(ptes) ==> Allowed(tasks, ptes)
  {
    hide Allowed, Isolated, Leaky, Bound, NoneStale;
    assert vmas[..|vmas|] == vmas;
    if !NoneStale(ptes0, p, vmas, garbage) {
      LeakyNotIsolated(ptes, p, c, leak);
    }
  }

  lemma LeakyNotIsolated(ptes: Ptes, p: nat, c: nat, leak: nat)
    requires Leaky(ptes, p, c, leak)
    ensures !Isolated(ptes)
  {
    assert Key(p, leak) != Key(c, leak);
  }
}
