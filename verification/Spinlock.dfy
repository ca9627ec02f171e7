/**
 The spinlock of kernel/spinlock.c with DEBUG_SPINLOCK, and vcprintf's use of it, as
 interleaved steps of any number of CPUs. Each step is one read or write of a field of the
 lock; clients may call lock, trylock, unlock and vcprintf at any time, rightly or wrongly.
 */
module Spinlock {
  import opened Common

  /* The place in the source where the lock is taken. */
  datatype Site = Site(file: nat, line: nat)

  /* struct spinlock */
  datatype Lock = Lock(locked: bool, cpu: Option<nat>, file: Option<nat>, line: nat)

  /* Where a CPU is. `held` records where the CPU took the lock, if it held it when it made the
     call: locking with held.Some? and unlocking with held.None? are client errors. */
  datatype Pc =
    | Outside
    | Print(site: Site, held: Option<Site>)                       // vcprintf: about to read `cpu`
    | TestLocked(site: Site, try: bool, held: Option<Site>)       // holding: about to read `locked`
    | TestCpu(site: Site, try: bool, held: Option<Site>)          // holding: about to read `cpu`
    | Acquire(site: Site, try: bool, held: Option<Site>)          // about to compare-and-swap `locked`
    | SetCpu(site: Site) | SetFile(site: Site) | SetLine(site: Site)
    | Inside(site: Site)
    | CheckLocked(held: Option<Site>)                             // unlock: about to read `locked`
    | HoldLocked(held: Option<Site>) | HoldCpu(held: Option<Site>) // unlock: the reads of holding
    | ClearCpu(held: Option<Site>) | ClearFile(held: Option<Site>) | ClearLine(held: Option<Site>)
    | Release(held: Option<Site>)
    | LockPanic(held: Option<Site>)                               // "attempt to lock twice"
    | UnlockPanic(held: Option<Site>)                             // "not locked", "attempt to unlock"

  datatype State = State(lock: Lock, pcs: seq<Pc>)

  ghost predicate Init(s: State) {
    s.lock == Lock(false, None, None, 0) && forall c :: 0 <= c < |s.pcs| ==> s.pcs[c] == Outside
  }

  /* Back from a call that left the lock alone. */
  function Back(held: Option<Site>): Pc {
    if held.Some? then Inside(held.value) else Outside
  }

  /* A client that holds the lock, taken at held.value, or does not, calls an operation. */
  predicate Call(pc': Pc, held: Option<Site>) {
    (pc'.TestLocked? || pc'.Print? || pc'.CheckLocked?) && pc'.held == held
  }

  /* One read or write by CPU c inside an operation. */
  function Act(l: Lock, c: nat, pc: Pc): (Lock, Pc)
    requires !pc.Outside? && !pc.Inside?
  {
    match pc
    case Print(site, held) => (l, if l.cpu != Some(c) then TestLocked(site, false, held) else Back(held))
    case TestLocked(site, try, held) => (l, if l.locked then TestCpu(site, try, held) else Acquire(site, try, held))
    case TestCpu(site, try, held) => (l, if l.cpu == Some(c) then LockPanic(held) else Acquire(site, try, held))
    case Acquire(site, try, held) =>
      if !l.locked then (l.(locked := true), SetCpu(site)) else if try then (l, Back(held)) else (l, pc)
    case SetCpu(site) => (l.(cpu := Some(c)), SetFile(site))
    case SetFile(site) => (l.(file := Some(site.file)), SetLine(site))
    case SetLine(site) => (l.(line := site.line), Inside(site))
    case CheckLocked(held) => (l, if l.locked then HoldLocked(held) else UnlockPanic(held))
    case HoldLocked(held) => (l, if l.locked then HoldCpu(held) else UnlockPanic(held))
    case HoldCpu(held) => (l, if l.cpu == Some(c) then ClearCpu(held) else UnlockPanic(held))
    case ClearCpu(held) => (l.(cpu := None), ClearFile(held))
    case ClearFile(held) => (l.(file := None), ClearLine(held))
    case ClearLine(held) => (l.(line := 0), Release(held))
    case Release(_) => (l.(locked := false), Outside)
    case LockPanic(_) => (l, pc)
    case UnlockPanic(_) => (l, pc)
  }

  /* From l and pc, CPU c can get to l' and pc'. */
  predicate Moves(l: Lock, pc: Pc, l': Lock, pc': Pc, c: nat) {
    match pc
    case Outside => l' == l && Call(pc', None)
    case Inside(site) => l' == l && Call(pc', Some(site))
    case _ => (l', pc') == Act(l, c, pc)
  }

  ghost predicate Step(s: State, s': State, c: nat) {
    && c < |s.pcs| == |s'.pcs| && s'.pcs == s.pcs[c := s'.pcs[c]]
    && Moves(s.lock, s.pcs[c], s'.lock, s'.pcs[c], c)
  }

  // ------------------------------------------------------------------ what is claimed

  /* Between the compare-and-swap that takes the lock and the write that releases it. */
  predicate Holds(pc: Pc) {
    match pc
    case Outside => false
    case SetCpu(_) => true
    case SetFile(_) => true
    case SetLine(_) => true
    case Inside(_) => true
    case _ => pc.held.Some?
  }

  /* The part of holding during which `cpu` names the CPU. */
  predicate Named(pc: Pc) {
    Holds(pc) && !pc.SetCpu? && !pc.ClearFile? && !pc.ClearLine? && !pc.Release?
  }

  /* What `file` and `line` are while the CPU holds the lock: where it was taken, or nothing
     before they are set and after they are cleared. */
  predicate Shown(l: Lock, pc: Pc) {
    match pc
    case Inside(site) => l.file == Some(site.file) && l.line == site.line
    case SetLine(site) => l.file == Some(site.file) && l.line == 0
    case Outside => true
    case SetCpu(_) => l.file.None? && l.line == 0
    case SetFile(_) => l.file.None? && l.line == 0
    case ClearLine(held) => held.Some? ==> l.file.None?
    case Release(held) => held.Some? ==> l.file.None? && l.line == 0
    case _ => pc.held.Some? ==> l.file == Some(pc.held.value.file) && l.line == pc.held.value.line
  }

  /* Only a CPU that holds the lock fails to lock, only one that does not fails to unlock, and
     neither gets past the tests. */
  predicate Deserved(pc: Pc) {
    && (pc.LockPanic? ==> pc.held.Some?)
    && (pc.UnlockPanic? ==> pc.held.None?)
    && (pc.Acquire? ==> pc.held.None?)
    && (pc.ClearCpu? || pc.ClearFile? || pc.ClearLine? || pc.Release? ==> pc.held.Some?)
  }

  /* A free lock names no place. */
  predicate Blank(l: Lock) {
    !l.locked ==> l.file.None? && l.line == 0
  }

  ghost predicate Safe(s: State) {
    // at most one CPU is between acquire and release
    && (forall c, d :: 0 <= c < |s.pcs| && 0 <= d < |s.pcs| && Holds(s.pcs[c]) && Holds(s.pcs[d]) ==> c == d)
    // the lock is locked exactly while some CPU is
    && (s.lock.locked <==> exists c :: 0 <= c < |s.pcs| && Holds(s.pcs[c]))
    // lock->cpu names c exactly while c holds the lock and has recorded itself
    && (forall c: nat :: s.lock.cpu == Some(c) <==> c < |s.pcs| && Named(s.pcs[c]))
    // the place reported as "currently locked here" is where the holder took the lock
    && Blank(s.lock)
    && (forall c :: 0 <= c < |s.pcs| ==> Shown(s.lock, s.pcs[c]))
    // each panic, and each success of a test, is deserved
    && (forall c :: 0 <= c < |s.pcs| ==> Deserved(s.pcs[c]))
  }

  // ------------------------------------------------------------------ one step

  /* What Safe says to one CPU. */
  predicate Local(l: Lock, pc: Pc, c: nat) {
    (l.cpu == Some(c) <==> Named(pc)) && (Holds(pc) ==> l.locked) && Shown(l, pc) && Deserved(pc)
  }

  lemma MoveIsSafe(l: Lock, pc: Pc, l': Lock, pc': Pc, c: nat)
    requires Local(l, pc, c) && Blank(l) && Moves(l, pc, l', pc', c)
    ensures Shown(l', pc') && Deserved(pc') && Blank(l')
  {
  }

  /* What the other CPUs see of a step: which fields change, and when. */
  lemma MoveIsFair(l: Lock, pc: Pc, l': Lock, pc': Pc, c: nat)
    requires Local(l, pc, c) && Moves(l, pc, l', pc', c)
    ensures if Holds(pc) == Holds(pc') then l'.locked == l.locked else l'.locked == Holds(pc') != l.locked
    ensures if Named(pc) == Named(pc') then l'.cpu == l.cpu else l'.cpu == if Named(pc') then Some(c) else None
    ensures !Holds(pc) ==> l'.file == l.file && l'.line == l.line
  {
    hide Shown;
  }

  lemma HolderShown(pc: Pc)
    ensures Named(pc) ==> Holds(pc)
    ensures !Holds(pc) ==> forall l :: Shown(l, pc)
  {
  }

  lemma ShownByFields(l: Lock, l': Lock, pc: Pc)
    requires Shown(l, pc) && l'.file == l.file && l'.line == l.line
    ensures Shown(l', pc)
  {
  }

  lemma OtherShown(s: State, s': State, c: nat, d: nat)
    requires Safe(s) && Step(s, s', c) && d < |s.pcs| && d != c
    ensures Shown(s'.lock, s.pcs[d])
  {
    hide Holds, Named, Shown, Deserved, Moves;
    MoveIsFair(s.lock, s.pcs[c], s'.lock, s'.pcs[c], c);
    HolderShown(s.pcs[d]);
    if Holds(s.pcs[d]) {
      ShownByFields(s.lock, s'.lock, s.pcs[d]);
    }
  }

  lemma LockedKept(s: State, s': State, c: nat)
    requires Safe(s) && Step(s, s', c)
    ensures forall d, e :: 0 <= d < |s'.pcs| && 0 <= e < |s'.pcs| && Holds(s'.pcs[d]) && Holds(s'.pcs[e]) ==> d == e
    ensures s'.lock.locked <==> exists d :: 0 <= d < |s'.pcs| && Holds(s'.pcs[d])
  {
    hide Holds, Named, Shown, Deserved, Moves;
    MoveIsFair(s.lock, s.pcs[c], s'.lock, s'.pcs[c], c);
    if s'.lock.locked && s.lock.locked {
      var d :| 0 <= d < |s.pcs| && Holds(s.pcs[d]);
      assert Holds(s'.pcs[d]);
    } else if s'.lock.locked {
      assert Holds(s'.pcs[c]);
    }
  }

  lemma NamedKept(s: State, s': State, c: nat, d: nat)
    requires Safe(s) && Step(s, s', c)
    ensures s'.lock.cpu == Some(d) <==> d < |s'.pcs| && Named(s'.pcs[d])
  {
    hide Holds, Named, Shown, Deserved, Moves;
    MoveIsFair(s.lock, s.pcs[c], s'.lock, s'.pcs[c], c);
    HolderShown(s.pcs[c]);
    HolderShown(s'.pcs[c]);
    assert s.lock.cpu == Some(d) <==> d < |s.pcs| && Named(s.pcs[d]);
    if d < |s.pcs| && d != c {
      HolderShown(s.pcs[d]);
    }
  }

  lemma StepKeeps(s: State, s': State, c: nat)
    requires Safe(s) && Step(s, s', c)
    ensures Safe(s')
  {
    hide Holds, Named, Shown, Deserved, Moves;
    LockedKept(s, s', c);
    MoveIsSafe(s.lock, s.pcs[c], s'.lock, s'.pcs[c], c);
    forall d: nat
      ensures s'.lock.cpu == Some(d) <==> d < |s'.pcs| && Named(s'.pcs[d])
    {
      NamedKept(s, s', c, d);
    }
    forall d: nat | d < |s'.pcs|
      ensures Shown(s'.lock, s'.pcs[d])
    {
      if d != c {
        OtherShown(s, s', c, d);
      }
    }
  }

  // ------------------------------------------------------------------ any interleaving

  /* schedule[i] is the CPU that takes the step from states[i]. */
  ghost predicate Trace(states: seq<State>, schedule: seq<nat>) {
    && |states| == |schedule| + 1 && Init(states[0])
    && forall i :: 0 <= i < |schedule| ==> Step(states[i], states[i + 1], schedule[i])
  }

  lemma {:induction false} AlwaysSafe(states: seq<State>, schedule: seq<nat>, i: nat)
    requires Trace(states, schedule) && i < |states|
    ensures Safe(states[i])
  {
    if i > 0 {
      hide Step, Safe;
      AlwaysSafe(states, schedule, i - 1);
      assert Step(states[i - 1], states[i - 1 + 1], schedule[i - 1]);
      StepKeeps(states[i - 1], states[i], schedule[i - 1]);
    }
  }

  /* The unlocked reads of lock->cpu decide what they are meant to decide, whatever the other
     CPUs do: vcprintf takes the lock unless its caller already has it, and the tests for
     double locking and foreign unlocking fire exactly on such calls. */
  lemma TestsDoNotMisfire(states: seq<State>, schedule: seq<nat>, i: nat, c: nat)
    requires Trace(states, schedule) && i < |schedule| && c == schedule[i]
    ensures c < |states[i].pcs| == |states[i + 1].pcs|
    ensures var (pc, pc') := (states[i].pcs[c], states[i + 1].pcs[c]);
      && (pc.Print? ==> (pc'.TestLocked? <==> pc.held.None?))
      && (pc.TestLocked? && pc.held.Some? ==> pc'.TestCpu?)
      && (pc.TestCpu? ==> (pc'.LockPanic? <==> pc.held.Some?))
      && (pc.CheckLocked? || pc.HoldLocked? ==> (pc'.UnlockPanic? ==> pc.held.None?))
      && (pc.HoldCpu? ==> (pc'.UnlockPanic? <==> pc.held.None?))
  {
    AlwaysSafe(states, schedule, i);
    assert Step(states[i], states[i + 1], schedule[i]);
    var s := states[i];
    assert s.lock.cpu == Some(c) <==> Named(s.pcs[c]);
    assert Holds(s.pcs[c]) ==> s.lock.locked;
  }

  // ------------------------------------------------------------------ what a call returns

  /* Not inside any operation of the lock. */
  predicate Idle(pc: Pc) {
    pc.Outside? || pc.Inside?
  }

  ghost predicate HeldByOther(s: State, c: nat) {
    exists d :: 0 <= d < |s.pcs| && d != c && Holds(s.pcs[d])
  }

  /* Inside a call of lock or trylock that began with these arguments. */
  predicate Locking(pc: Pc, site: Site, try: bool, held: Option<Site>) {
    match pc
    case TestLocked(s, t, h) => (s, t, h) == (site, try, held)
    case TestCpu(s, t, h) => (s, t, h) == (site, try, held)
    case Acquire(s, t, h) => (s, t, h) == (site, try, held)
    case SetCpu(s) => s == site && held.None?
    case SetFile(s) => s == site && held.None?
    case SetLine(s) => s == site && held.None?
    case LockPanic(h) => h == held
    case _ => false
  }

  /* On a free lock the compare-and-swap takes it, for lock and trylock alike. On a taken lock
     lock tries again and trylock gives up. */
  lemma SwapTakes(s: State, s': State, c: nat)
    requires Safe(s) && Step(s, s', c) && s.pcs[c].Acquire?
    ensures Holds(s'.pcs[c]) <==> !s.lock.locked
    ensures !s.lock.locked ==> s'.lock == s.lock.(locked := true)
    ensures s.lock.locked ==> s'.lock == s.lock && s'.pcs[c] == if s.pcs[c].try then Outside else s.pcs[c]
  {
  }

  /* One step inside such a call. */
  lemma LockingStep(l: Lock, pc: Pc, l': Lock, pc': Pc, c: nat, site: Site, try: bool, held: Option<Site>)
    requires Locking(pc, site, try, held) && Deserved(pc) && Moves(l, pc, l', pc', c)
    ensures if Idle(pc') then held.None? && (pc' == Inside(site) || (pc' == Outside && try && l.locked && !Holds(pc)))
            else Locking(pc', site, try, held)
  {
  }

  /* CPU c is in one call from state i to state j. */
  ghost predicate Busy(states: seq<State>, i: nat, j: nat, c: nat) {
    && i < j <= |states|
    && forall k :: i <= k < j ==> c < |states[k].pcs| && !Idle(states[k].pcs[c])
  }

  lemma {:induction false} StillLocking(states: seq<State>, schedule: seq<nat>, i: nat, j: nat, c: nat, site: Site, try: bool, held: Option<Site>)
    requires Trace(states, schedule) && Busy(states, i, j + 1, c) && states[i].pcs[c] == TestLocked(site, try, held)
    ensures Locking(states[j].pcs[c], site, try, held)
    decreases j
  {
    if i < j {
      StillLocking(states, schedule, i, j - 1, c, site, try, held);
      LockingOn(states, schedule, j - 1, c, site, try, held);
    }
  }

  /* The same for a step of any CPU in a run. */
  lemma LockingOn(states: seq<State>, schedule: seq<nat>, k: nat, c: nat, site: Site, try: bool, held: Option<Site>)
    requires Trace(states, schedule) && k < |schedule|
    requires c < |states[k].pcs| && Locking(states[k].pcs[c], site, try, held)
    ensures c < |states[k + 1].pcs|
    ensures var pc := states[k + 1].pcs[c];
      if Idle(pc) then
        held.None? && (pc == Inside(site) || (pc == Outside && try && HeldByOther(states[k], c)))
      else Locking(pc, site, try, held)
  {
    hide Locking, Deserved, Moves, Shown, Named;
    AlwaysSafe(states, schedule, k);
    var s, s' := states[k], states[k + 1];
    assert Step(s, s', schedule[k]);
    if schedule[k] == c {
      LockingStep(s.lock, s.pcs[c], s'.lock, s'.pcs[c], c, site, try, held);
    } else {
      NotIdle(s.pcs[c], site, try, held);
    }
  }

  lemma NotIdle(pc: Pc, site: Site, try: bool, held: Option<Site>)
    requires Locking(pc, site, try, held)
    ensures !Idle(pc)
  {
  }

  /* In every run, a call of lock that returns was made without the lock and returns with it,
     taken at the place of the call. A call of trylock that returns without it found another CPU
     holding it. A call by the holder does not return. */
  lemma LockReturns(states: seq<State>, schedule: seq<nat>, i: nat, j: nat, c: nat, site: Site, try: bool, held: Option<Site>)
    requires Trace(states, schedule) && Busy(states, i, j, c) && states[i].pcs[c] == TestLocked(site, try, held)
    requires j < |states| && c < |states[j].pcs| && Idle(states[j].pcs[c])
    ensures held.None?
    ensures !try ==> states[j].pcs[c] == Inside(site)
    ensures states[j].pcs[c] == Inside(site) || states[j].pcs[c] == Outside
    ensures states[j].pcs[c] == Outside ==> HeldByOther(states[j - 1], c)
  {
    hide Locking, Holds;
    StillLocking(states, schedule, i, j - 1, c, site, try, held);
    LockingOn(states, schedule, j - 1, c, site, try, held);
  }
}
