/**
 Page sharing as values: the leaf entries of all tasks, the reference counts, and what a task
 reads through them.
 */
module CowSpec {
  import opened Common
  import RbTree
  import RbFree

  /* A task and a page of its address space. */
  datatype Key = Key(task: nat, va: nat)

  /* A present leaf entry. */
  datatype Pte = Pte(frame: nat, write: bool, exec: bool)

  /* A VMA in pages, base up to end. */
  datatype Vma = Vma(base: nat, end: nat, read: bool, write: bool, exec: bool)

  /* The contents of a frame. */
  type Data = seq<bv8>

  type Ptes = map<Key, Pte>
  type Tasks = map<nat, seq<Vma>>

  /* PIDs are 1 to 65535, so that there are never more tasks than this. */
  const MAX_TASKS := 65535

  /* The entries that point to frame f. */
  ghost function Users(ptes: Ptes, f: nat): set<Key> {
    set k | k in ptes && ptes[k].frame == f
  }

  predicate Within(v: Vma, va: nat) {
    v.base <= va < v.end
  }

  /* A task's list of VMAs, sorted and disjoint. */
  predicate Sorted(vmas: seq<Vma>) {
    && (forall i :: 0 <= i < |vmas| ==> vmas[i].base <= vmas[i].end)
    && (forall i, j :: 0 <= i < j < |vmas| ==> vmas[i].end <= vmas[j].base)
  }

  /* task_find_vma */
  function FindVma(vmas: seq<Vma>, va: nat): (i: nat)
    ensures i <= |vmas| && (i < |vmas| ==> Within(vmas[i], va))
    ensures i == |vmas| ==> forall j :: 0 <= j < |vmas| ==> !Within(vmas[j], va)
  {
    if vmas == [] then 0 else if Within(vmas[0], va) then 0 else 1 + FindVma(vmas[1..], va)
  }

  ghost predicate Covered(vmas: seq<Vma>, va: nat) {
    FindVma(vmas, va) < |vmas|
  }

  /* Every entry is inside a VMA of a live task. */
  ghost predicate Placed(tasks: Tasks, ptes: Ptes, n: nat) {
    forall k :: k in ptes ==> k.task in tasks && Covered(tasks[k.task], k.va) && ptes[k].frame < n
  }

  /* Counts are exact. */
  ghost predicate Counted(ptes: Ptes, refs: seq<nat>) {
    forall f: nat :: f < |refs| ==> refs[f] == |Users(ptes, f)|
  }

  /* The free frames are those with count 0, but for frames `out` that were just allocated. */
  ghost predicate FreeOk(refs: seq<nat>, free: set<nat>, out: set<nat>) {
    forall f: nat :: f in free <==> f < |refs| && refs[f] == 0 && f !in out
  }

  /* A frame is mapped at one address only. */
  ghost predicate OneAddress(ptes: Ptes) {
    forall k, l :: k in ptes && l in ptes && ptes[k].frame == ptes[l].frame ==> k.va == l.va
  }

  ghost predicate TasksOk(tasks: Tasks) {
    |tasks| <= MAX_TASKS && forall t :: t in tasks ==> Sorted(tasks[t])
  }

  ghost predicate Sound(tasks: Tasks, ptes: Ptes, refs: seq<nat>, free: set<nat>, out: set<nat>) {
    TasksOk(tasks) && Placed(tasks, ptes, |refs|) && Counted(ptes, refs) && FreeOk(refs, free, out) && OneAddress(ptes)
  }

  /* A frame with a writable entry has no other entry: its count is 1. */
  ghost predicate Isolated(ptes: Ptes) {
    forall k, l :: k in ptes && l in ptes && ptes[k].write && ptes[l].frame == ptes[k].frame ==> k == l
  }

  /* The VMA of a covered page is writable. */
  ghost predicate Writable(tasks: Tasks, k: Key) {
    k.task in tasks && Covered(tasks[k.task], k.va) && tasks[k.task][FindVma(tasks[k.task], k.va)].write
  }

  /* Writable entries are in writable VMAs. */
  ghost predicate Allowed(tasks: Tasks, ptes: Ptes) {
    forall k :: k in ptes && ptes[k].write ==> Writable(tasks, k)
  }

  ghost predicate Framed(ptes: Ptes, n: nat) {
    forall k :: k in ptes ==> ptes[k].frame < n
  }

  /* What the tasks read. */
  ghost function View(ptes: Ptes, data: seq<Data>): map<Key, Data>
    requires Framed(ptes, |data|)
  {
    map k | k in ptes :: data[ptes[k].frame]
  }

  // ------------------------------------------------------------------ counting

  lemma UsersSet(ptes: Ptes, k: Key, pte: Pte, f: nat)
    ensures Users(ptes[k := pte], f) == (Users(ptes, f) - {k}) + if pte.frame == f then {k} else {}
  {
  }

  lemma UsersDrop(ptes: Ptes, k: Key, f: nat)
    ensures Users(ptes - {k}, f) == Users(ptes, f) - {k}
  {
  }

  lemma {:induction false} TasksOf(s: set<Key>, va: nat) returns (ts: set<nat>)
    requires forall k :: k in s ==> k.va == va
    ensures |ts| == |s| && forall t :: t in ts <==> Key(t, va) in s
    decreases |s|
  {
    if s == {} {
      ts := {};
    } else {
      var k :| k in s;
      ts := TasksOf(s - {k}, va);
      ts := ts + {k.task};
    }
  }

  /* A frame has at most one entry per task, so its count stays below 2^16. */
  lemma UsersBound(tasks: Tasks, ptes: Ptes, f: nat)
    requires |tasks| <= MAX_TASKS && forall k :: k in ptes ==> k.task in tasks
    requires forall k, l :: k in Users(ptes, f) && l in Users(ptes, f) ==> k.va == l.va
    ensures |Users(ptes, f)| < 0x10000
  {
    var u := Users(ptes, f);
    if u != {} {
      var k :| k in u;
      var ts := TasksOf(u, k.va);
      forall t | t in ts ensures t in tasks.Keys { assert Key(t, k.va) in u; }
      SubsetSize(ts, tasks.Keys);
      assert |tasks.Keys| == |tasks|;
    }
  }

  // ------------------------------------------------------------------ one entry changes

  /* Incrementing a 16-bit count. */
  function Inc(refs: seq<nat>, f: nat): (r: seq<nat>)
    requires f < |refs|
    ensures |r| == |refs|
  {
    refs[f := (refs[f] + 1) % 0x10000]
  }

  /* Decrementing one. */
  function Dec(refs: seq<nat>, f: nat): (r: seq<nat>)
    requires f < |refs|
    ensures |r| == |refs|
  {
    refs[f := (refs[f] + 0xffff) % 0x10000]
  }

  /* Pointing a clear entry k to frame f, whose other entries are at the same address. */
  lemma MapEntry(tasks: Tasks, ptes: Ptes, refs: seq<nat>, free: set<nat>, out: set<nat>, k: Key, pte: Pte)
    requires Sound(tasks, ptes, refs, free, out) && k !in ptes && pte.frame !in free && pte.frame < |refs|
    requires k.task in tasks && Covered(tasks[k.task], k.va)
    requires forall l :: l in Users(ptes, pte.frame) ==> l.va == k.va
    ensures Sound(tasks, ptes[k := pte], Inc(refs, pte.frame), free, out - {pte.frame})
    ensures Inc(refs, pte.frame)[pte.frame] == refs[pte.frame] + 1
  {
    hide Covered, Sorted, Counted, FreeOk, Inc;
    var f, p := pte.frame, ptes[k := pte];
    forall a, b | a in p && b in p && p[a].frame == p[b].frame
      ensures a.va == b.va
    {
      if a == k && b != k { assert b in Users(ptes, f); }
      if b == k && a != k { assert a in Users(ptes, f); }
    }
    UsersBound(tasks, p, f);
    CountMapped(ptes, refs, k, pte);
    MappedNotFree(refs, free, out, f);
    assert |Inc(refs, f)| == |refs|;
  }

  lemma CountMapped(ptes: Ptes, refs: seq<nat>, k: Key, pte: Pte)
    requires Counted(ptes, refs) && k !in ptes && pte.frame < |refs| && |Users(ptes[k := pte], pte.frame)| < 0x10000
    ensures Counted(ptes[k := pte], Inc(refs, pte.frame)) && Inc(refs, pte.frame)[pte.frame] == refs[pte.frame] + 1
  {
    hide Inc, Users;
    var f, p := pte.frame, ptes[k := pte];
    UsersSet(ptes, k, pte, f);
    NotUser(ptes, k, f);
    assert Users(p, f) == Users(ptes, f) + {k};
    assert |Users(p, f)| == refs[f] + 1;
    IncIs(refs, f);
    forall g: nat | g < |refs|
      ensures Inc(refs, f)[g] == |Users(p, g)|
    {
      UsersSet(ptes, k, pte, g);
      NotUser(ptes, k, g);
    }
  }

  lemma NotUser(ptes: Ptes, k: Key, f: nat)
    requires k !in ptes
    ensures k !in Users(ptes, f) && Users(ptes, f) - {k} == Users(ptes, f)
  {
  }

  lemma IncIs(refs: seq<nat>, f: nat)
    requires f < |refs| && refs[f] < 0xffff
    ensures Inc(refs, f) == refs[f := refs[f] + 1]
  {
  }

  lemma MappedNotFree(refs: seq<nat>, free: set<nat>, out: set<nat>, f: nat)
    requires FreeOk(refs, free, out) && f < |refs| && f !in free && Inc(refs, f)[f] == refs[f] + 1
    ensures FreeOk(Inc(refs, f), free, out - {f})
  {
    var r := Inc(refs, f);
    forall g: nat
      ensures g in free <==> g < |r| && r[g] == 0 && g !in out - {f}
    {
      if g != f && g < |r| { assert r[g] == refs[g]; }
    }
  }

  /* Clearing an entry. */
  lemma UnmapEntry(tasks: Tasks, ptes: Ptes, refs: seq<nat>, free: set<nat>, out: set<nat>, k: Key)
    requires Sound(tasks, ptes, refs, free, out) && k in ptes && ptes[k].frame !in out
    ensures var (f, r) := (ptes[k].frame, Dec(refs, ptes[k].frame));
      r[f] + 1 == refs[f] && Sound(tasks, ptes - {k}, r, if r[f] == 0 then free + {f} else free, out)
  {
    hide Covered, Sorted, Counted, FreeOk, Dec;
    var f := ptes[k].frame;
    UsersBound(tasks, ptes, f);
    CountUnmapped(ptes, refs, k);
    UnmappedFree(refs, free, out, f);
    assert |Dec(refs, f)| == |refs|;
  }

  lemma CountUnmapped(ptes: Ptes, refs: seq<nat>, k: Key)
    requires Counted(ptes, refs) && k in ptes && ptes[k].frame < |refs| && |Users(ptes, ptes[k].frame)| < 0x10000
    ensures var (f, r) := (ptes[k].frame, Dec(refs, ptes[k].frame));
      r[f] + 1 == refs[f] && Counted(ptes - {k}, r)
  {
    var f, p := ptes[k].frame, ptes - {k};
    assert k in Users(ptes, f) && refs[f] == |Users(ptes, f)|;
    UsersDrop(ptes, k, f);
    assert |Users(p, f)| + 1 == refs[f];
    forall g: nat | g < |refs|
      ensures Dec(refs, f)[g] == |Users(p, g)|
    {
      UsersDrop(ptes, k, g);
      if g != f {
        assert k !in Users(ptes, g);
        assert Users(ptes, g) - {k} == Users(ptes, g);
      }
    }
  }

  lemma UnmappedFree(refs: seq<nat>, free: set<nat>, out: set<nat>, f: nat)
    requires FreeOk(refs, free, out) && f < |refs| && f !in out && Dec(refs, f)[f] + 1 == refs[f]
    ensures FreeOk(Dec(refs, f), if Dec(refs, f)[f] == 0 then free + {f} else free, out)
  {
    var r := Dec(refs, f);
    var s := if r[f] == 0 then free + {f} else free;
    forall g: nat
      ensures g in s <==> g < |r| && r[g] == 0 && g !in out
    {
      if g != f && g < |r| { assert r[g] == refs[g]; }
    }
  }

  /* Changing the flags of an entry. */
  lemma FlagEntry(tasks: Tasks, ptes: Ptes, refs: seq<nat>, free: set<nat>, out: set<nat>, k: Key, pte: Pte)
    requires Sound(tasks, ptes, refs, free, out) && k in ptes && pte.frame == ptes[k].frame
    ensures Sound(tasks, ptes[k := pte], refs, free, out)
  {
    hide Covered, Sorted;
    var p := ptes[k := pte];
    forall g: nat
      ensures Users(p, g) == Users(ptes, g)
    {
      UsersSet(ptes, k, pte, g);
    }
  }

  /* The count tells whether an entry is alone. */
  lemma AloneIffOne(tasks: Tasks, ptes: Ptes, refs: seq<nat>, free: set<nat>, k: Key)
    requires Sound(tasks, ptes, refs, free, {}) && k in ptes
    ensures refs[ptes[k].frame] == 1 <==> forall l :: l in ptes && ptes[l].frame == ptes[k].frame ==> l == k
    ensures ptes[k].frame !in free
  {
    hide Covered, Sorted;
    var u := Users(ptes, ptes[k].frame);
    assert k in u;
    if |u| == 1 {
      assert |u - {k}| == 0;
      assert u == {k};
      forall l | l in ptes && ptes[l].frame == ptes[k].frame ensures l == k { assert l in u; }
    }
    if forall l :: l in ptes && ptes[l].frame == ptes[k].frame ==> l == k {
      assert u == {k};
    }
  }

  /* Storing through a writable entry changes what its own task reads there and nothing else. */
  lemma StoreIsLocal(ptes: Ptes, data: seq<Data>, k: Key, d: Data)
    requires Framed(ptes, |data|) && Isolated(ptes) && k in ptes && ptes[k].write
    ensures View(ptes, data[ptes[k].frame := d]) == View(ptes, data)[k := d]
  {
  }

  /* Without isolation a store is seen elsewhere. */
  lemma StoreLeaks(ptes: Ptes, data: seq<Data>, k: Key, l: Key, d: Data)
    requires Framed(ptes, |data|) && k in ptes && l in ptes
    requires k != l && ptes[k].write && ptes[l].frame == ptes[k].frame && d != data[ptes[k].frame]
    ensures View(ptes, data[ptes[k].frame := d])[l] != View(ptes, data)[l]
  {
  }

  // ------------------------------------------------------------------ sharing a range

  datatype Flags = Flags(write: bool, exec: bool)

  /* page_flags of copy_page_range after an entry: unchanged for one that is neither writable
     nor executable. */
  function NextFlags(flags: Flags, pte: Pte): Flags {
    if pte.write then Flags(false, false) else if pte.exec then Flags(false, true) else flags
  }

  /* The first present entry of task p in the range is neither writable nor executable: then
     copy_page_range uses page_flags before it assigns it. */
  ghost predicate Stale(ptes: Ptes, p: nat, start: nat, end: nat) {
    exists v: nat :: FirstAt(ptes, p, start, v) && v < end && !ptes[Key(p, v)].write && !ptes[Key(p, v)].exec
  }

  ghost predicate FirstAt(ptes: Ptes, p: nat, start: nat, v: nat) {
    start <= v && Key(p, v) in ptes && forall u: nat :: start <= u < v ==> Key(p, u) !in ptes
  }

  /* The body of copy_page_range for one page: the child's entry and the parent's entry get the
     same frame and flags. */
  function Share(ptes: Ptes, p: nat, c: nat, va: nat, flags: Flags): Ptes
    requires Key(p, va) in ptes
  {
    var pte := Pte(ptes[Key(p, va)].frame, flags.write, flags.exec);
    ptes[Key(c, va) := pte][Key(p, va) := pte]
  }

  /* Page u of p has an entry that assigns page_flags. */
  predicate Assigns(ptes: Ptes, p: nat, u: nat) {
    Key(p, u) in ptes && (ptes[Key(p, u)].write || ptes[Key(p, u)].exec)
  }

  /* u is the nearest such page before v, from start on. */
  ghost predicate Nearest(ptes: Ptes, p: nat, start: nat, v: nat, u: nat) {
    start <= u < v && Assigns(ptes, p, u) && forall w: nat :: u < w < v ==> !Assigns(ptes, p, w)
  }

  ghost predicate NoneAssigns(ptes: Ptes, p: nat, start: nat, v: nat) {
    forall w: nat :: start <= w < v ==> !Assigns(ptes, p, w)
  }

  /* What p and c have at page v after the range from start on was shared: the frame of p, for
     reading. A page that could be executed still can; one that could be written cannot be
     executed. A page that was neither goes by the nearest page before it that was one of
     them, and without such a page it gets what page_flags held at first. */
  ghost predicate SharedPage(ptes0: Ptes, ptes: Ptes, p: nat, c: nat, start: nat, v: nat, garbage: Flags)
    requires Key(p, v) in ptes0
  {
    && Key(p, v) in ptes && Key(c, v) in ptes && ptes[Key(c, v)] == ptes[Key(p, v)]
    && var (e0, e) := (ptes0[Key(p, v)], ptes[Key(c, v)]);
    && e.frame == e0.frame
    && (e0.write ==> !e.write && !e.exec)
    && (!e0.write && e0.exec ==> !e.write && e.exec)
    && (!e0.write && !e0.exec ==>
          && (forall u: nat :: Nearest(ptes0, p, start, v, u) ==> !e.write && (e.exec <==> !ptes0[Key(p, u)].write))
          && (NoneAssigns(ptes0, p, start, v) ==> e.write == garbage.write && e.exec == garbage.exec))
  }

  ghost predicate SharedPages(ptes0: Ptes, ptes: Ptes, p: nat, c: nat, start: nat, end: nat, garbage: Flags) {
    forall v: nat :: start <= v < end && Key(p, v) in ptes0 ==> SharedPage(ptes0, ptes, p, c, start, v, garbage)
  }

  /* What page_flags holds before page v. */
  ghost predicate Carried(ptes0: Ptes, p: nat, start: nat, v: nat, garbage: Flags, flags: Flags) {
    && (forall u: nat :: Nearest(ptes0, p, start, v, u) ==> flags == Flags(false, !ptes0[Key(p, u)].write))
    && (NoneAssigns(ptes0, p, start, v) ==> flags == garbage)
  }

  lemma CarriedStart(ptes0: Ptes, p: nat, c: nat, start: nat, garbage: Flags)
    ensures Carried(ptes0, p, start, start, garbage, garbage) && SharedPages(ptes0, ptes0, p, c, start, start, garbage)
  {
  }

  lemma CarriedStep(ptes0: Ptes, p: nat, start: nat, v: nat, garbage: Flags, flags: Flags)
    requires Carried(ptes0, p, start, v, garbage, flags) && start <= v
    ensures Carried(ptes0, p, start, v + 1, garbage, if Key(p, v) in ptes0 then NextFlags(flags, ptes0[Key(p, v)]) else flags)
  {
    if !Assigns(ptes0, p, v) {
      assert forall u: nat :: Nearest(ptes0, p, start, v + 1, u) ==> Nearest(ptes0, p, start, v, u);
      assert NoneAssigns(ptes0, p, start, v + 1) ==> NoneAssigns(ptes0, p, start, v);
    } else {
      assert Nearest(ptes0, p, start, v + 1, v) && !NoneAssigns(ptes0, p, start, v + 1);
    }
  }

  lemma SharedPagesStep(ptes0: Ptes, ptes: Ptes, p: nat, c: nat, start: nat, v: nat, garbage: Flags, flags: Flags)
    requires Carried(ptes0, p, start, v, garbage, flags) && SharedPages(ptes0, ptes, p, c, start, v, garbage) && start <= v && p != c
    requires Key(p, v) in ptes0 && Key(p, v) in ptes && ptes[Key(p, v)] == ptes0[Key(p, v)]
    ensures SharedPages(ptes0, Share(ptes, p, c, v, NextFlags(flags, ptes0[Key(p, v)])), p, c, start, v + 1, garbage)
  {
    var ptes' := Share(ptes, p, c, v, NextFlags(flags, ptes0[Key(p, v)]));
    assert SharedPage(ptes0, ptes', p, c, start, v, garbage);
    forall w: nat | start <= w < v && Key(p, w) in ptes0
      ensures SharedPage(ptes0, ptes', p, c, start, w, garbage)
    {
      SharedPageKept(ptes0, ptes, ptes', p, c, start, w, garbage);
    }
  }

  lemma SharedPageKept(ptes0: Ptes, ptes: Ptes, ptes': Ptes, p: nat, c: nat, start: nat, v: nat, garbage: Flags)
    requires Key(p, v) in ptes0 && SharedPage(ptes0, ptes, p, c, start, v, garbage)
    requires Key(p, v) in ptes' && Key(c, v) in ptes' && ptes'[Key(p, v)] == ptes[Key(p, v)] && ptes'[Key(c, v)] == ptes[Key(c, v)]
    ensures SharedPage(ptes0, ptes', p, c, start, v, garbage)
  {
  }

  /* Only the entries of the range matter to how it is shared. */
  lemma SharedPagesFrom(ptes0: Ptes, ptes1: Ptes, ptes: Ptes, p: nat, c: nat, start: nat, end: nat, garbage: Flags)
    requires SharedPages(ptes1, ptes, p, c, start, end, garbage)
    requires forall v: nat :: start <= v < end ==>
      (Key(p, v) in ptes1 <==> Key(p, v) in ptes0) && (Key(p, v) in ptes0 ==> ptes1[Key(p, v)] == ptes0[Key(p, v)])
    ensures SharedPages(ptes0, ptes, p, c, start, end, garbage)
  {
    assert forall u: nat :: start <= u < end ==> (Assigns(ptes0, p, u) <==> Assigns(ptes1, p, u));
    forall v: nat | start <= v < end && Key(p, v) in ptes0
      ensures SharedPage(ptes0, ptes, p, c, start, v, garbage)
    {
      assert forall u: nat :: Nearest(ptes0, p, start, v, u) ==> Nearest(ptes1, p, start, v, u);
      assert NoneAssigns(ptes0, p, start, v) ==> NoneAssigns(ptes1, p, start, v);
      assert SharedPage(ptes1, ptes, p, c, start, v, garbage);
    }
  }

  lemma ShareIsolates(tasks: Tasks, ptes: Ptes, p: nat, c: nat, va: nat, flags: Flags)
    requires Key(p, va) in ptes && Key(c, va) !in ptes && p != c && !flags.write
    requires Isolated(ptes) && Allowed(tasks, ptes)
    ensures Isolated(Share(ptes, p, c, va, flags)) && Allowed(tasks, Share(ptes, p, c, va, flags))
  {
  }

  lemma ShareView(ptes: Ptes, data: seq<Data>, p: nat, c: nat, va: nat, flags: Flags)
    requires Key(p, va) in ptes && Key(c, va) !in ptes && p != c
    requires Framed(ptes, |data|)
    ensures Framed(Share(ptes, p, c, va, flags), |data|)
    ensures View(Share(ptes, p, c, va, flags), data) == View(ptes, data)[Key(c, va) := View(ptes, data)[Key(p, va)]]
  {
  }

  /* m with the memory of p in the range copied to c. */
  ghost predicate Copied(m': map<Key, Data>, m: map<Key, Data>, p: nat, c: nat, start: nat, end: nat) {
    && (forall k :: k in m' <==> k in m || CopyOf(m, p, c, start, end, k))
    && (forall k :: k in m' ==> m'[k] == if CopyOf(m, p, c, start, end, k) then m[Key(p, k.va)] else m[k])
  }

  predicate CopyOf(m: map<Key, Data>, p: nat, c: nat, start: nat, end: nat, k: Key) {
    k.task == c && start <= k.va < end && Key(p, k.va) in m
  }

  // ------------------------------------------------------------------ the eager machine

  /* The shapes of the red-black trees that hold the tasks' VMAs. */
  type Trees = map<nat, RbTree.Tree<()>>

  /* Memory as if fork copied every page at once: what each task reads, and what reads have
     returned so far. */
  datatype World = World(tasks: Tasks, trees: Trees, mem: map<Key, Data>, log: seq<Data>)

  datatype Op =
    | Spawn(t: nat, vmas: seq<Vma>, tree: RbTree.Tree<()>)
    | Fork(p: nat, c: nat, garbage: nat -> Flags)
    | Load(k: Key)
    | Store(k: Key, d: Data)
    | Unmap(k: Key)
    | Exit(t: nat)

  ghost function Forked(m: map<Key, Data>, p: nat, c: nat): map<Key, Data> {
    m + map k | k in m && k.task == p :: Key(c, k.va) := m[k]
  }

  ghost function WithoutTask(m: map<Key, Data>, t: nat): map<Key, Data> {
    map k | k in m && k.task != t :: m[k]
  }

  /* Whether an access may go ahead: only a page that is not there is checked for read
     permission. */
  predicate Permitted(tasks: Tasks, k: Key, present: bool, write: bool)
    requires k.task in tasks
  {
    var i := FindVma(tasks[k.task], k.va);
    i < |tasks[k.task]| && (write ==> tasks[k.task][i].write) && (!present ==> tasks[k.task][i].read)
  }

  ghost function Kill(w: World, t: nat): World {
    World(w.tasks - {t}, w.trees - {t}, WithoutTask(w.mem, t), w.log)
  }

  /* A tree that can hold n VMAs. */
  predicate HoldsVmas(tree: RbTree.Tree<()>, n: nat) {
    RbTree.IsBlack(tree) && |RbTree.Inorder(tree)| == n
  }

  ghost function Eager(w: World, op: Op, zero: Data): World {
    match op
    case Spawn(t, vmas, tree) =>
      if t !in w.tasks && |w.tasks| < MAX_TASKS && Sorted(vmas) && HoldsVmas(tree, |vmas|)
      then w.(tasks := w.tasks[t := vmas], trees := w.trees[t := tree]) else w
    case Fork(p, c, _) =>
      if p in w.tasks && c !in w.tasks && |w.tasks| < MAX_TASKS
      then w.(tasks := w.tasks[c := w.tasks[p]], trees := w.trees[c := RbFree.Ascending(|w.tasks[p]|)],
              mem := Forked(w.mem, p, c)) else w
    case Load(k) =>
      if k.task !in w.tasks then w
      else if k in w.mem then w.(log := w.log + [w.mem[k]])
      else if Permitted(w.tasks, k, false, false) then w.(mem := w.mem[k := zero], log := w.log + [zero])
      else Kill(w, k.task)
    case Store(k, d) =>
      if k.task !in w.tasks then w
      else if Permitted(w.tasks, k, k in w.mem, true) then w.(mem := w.mem[k := d])
      else Kill(w, k.task)
    case Unmap(k) => w.(mem := w.mem - {k})
    case Exit(t) => if t in w.tasks then Kill(w, t) else w
  }

  ghost function EagerRun(w: World, ops: seq<Op>, zero: Data): World {
    if ops == [] then w else Eager(EagerRun(w, ops[..|ops| - 1], zero), ops[|ops| - 1], zero)
  }

  /* The task that an operation ends, if it ends one. */
  ghost function Ends(w: World, op: Op): Option<nat> {
    match op
    case Exit(t) => if t in w.tasks then Some(t) else None
    case Load(k) =>
      if k.task in w.tasks && k !in w.mem && !Permitted(w.tasks, k, false, false) then Some(k.task) else None
    case Store(k, _) =>
      if k.task in w.tasks && !Permitted(w.tasks, k, k in w.mem, true) then Some(k.task) else None
    case _ => None
  }

  /* The operation ends a task whose VMAs free_vmas cannot remove. */
  ghost predicate Doomed(w: World, op: Op) {
    var t := Ends(w, op);
    t.Some? && t.value in w.trees && RbTree.IsBlack(w.trees[t.value]) && !RbFree.CanFree(w.trees[t.value])
  }

  lemma NeverDoomed(w: World, op: Op)
    ensures op.Spawn? || op.Fork? || op.Unmap? ==> !Doomed(w, op)
  {
  }

  /* The i-th operation, where the machine that copies at fork does it, ends a task whose VMAs
     cannot be removed. */
  ghost predicate DoomedAt(w: World, ops: seq<Op>, zero: Data, i: int)
    requires 0 <= i < |ops|
  {
    Doomed(EagerRun(w, ops[..i], zero), ops[i])
  }

  lemma FirstRun(w: World, zero: Data)
    ensures EagerRun(w, [], zero) == w
  {
  }

  lemma NextRun(w: World, ops: seq<Op>, zero: Data, n: nat)
    requires n < |ops|
    ensures EagerRun(w, ops[..n + 1], zero) == Eager(EagerRun(w, ops[..n], zero), ops[n], zero)
  {
    hide Eager;
    assert ops[..n + 1][..n] == ops[..n];
  }

  /* Another entry has the frame of k. */
  ghost predicate Shared(ptes: Ptes, k: Key)
    requires k in ptes
  {
    exists l :: l in ptes && l != k && ptes[l].frame == ptes[k].frame
  }

  /* A fault on page k takes a frame: the page is missing, or not the task's alone. */
  ghost predicate NeedsFrame(ptes: Ptes, k: Key) {
    k in ptes ==> Shared(ptes, k)
  }

  /* Entry k has got a frame that was free and the rights of the VMA; no other entry changed. */
  ghost predicate Renewed(ptes0: Ptes, free0: set<nat>, ptes: Ptes, k: Key, vma: Vma) {
    k in ptes && ptes[k].frame in free0 && ptes == ptes0[k := Pte(ptes[k].frame, vma.write, vma.exec)]
  }

  /* What a page fault makes of entry k. */
  ghost predicate Resolved(tasks: Tasks, ptes0: Ptes, free0: set<nat>, ptes: Ptes, k: Key)
    requires k.task in tasks
  {
    var i := FindVma(tasks[k.task], k.va);
    if NeedsFrame(ptes0, k) then i < |tasks[k.task]| && Renewed(ptes0, free0, ptes, k, tasks[k.task][i])
    else ptes == ptes0[k := ptes0[k].(write := true)]
  }

  /* The operation is permitted, needs a frame, and none is free. */
  ghost predicate Starved(tasks: Tasks, ptes: Ptes, free: set<nat>, op: Op) {
    && free == {}
    && match op
       case Load(k) => k.task in tasks && k !in ptes && Permitted(tasks, k, false, false)
       case Store(k, _) => k.task in tasks && Permitted(tasks, k, k in ptes, true) && NeedsFrame(ptes, k)
       case _ => false
  }

  lemma NeverStarved(tasks: Tasks, ptes: Ptes, free: set<nat>, op: Op)
    ensures !op.Load? && !op.Store? ==> !Starved(tasks, ptes, free, op)
  {
  }
}
