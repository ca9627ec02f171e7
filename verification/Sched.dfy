/**
 The run queues of kernel/sched with the big kernel lock held during each step: one global
 queue, and per CPU a run queue, a queue for the next round, a length and a current task.
 */
module Sched {
  import opened Common

  type Tid = nat

  /* The part of struct cpuinfo the scheduler uses; element 0 of a queue is head->next. */
  datatype Cpu = Cpu(runq: seq<Tid>, nextq: seq<Tid>, len: nat, cur: Option<Tid>)

  datatype Outcome = Ran | Idle | Halted

  function CurSeq(c: Cpu): seq<Tid> {
    if c.cur.Some? then [c.cur.value] else []
  }

  /* The tasks of one CPU, in the order they will run. */
  function Order(c: Cpu): seq<Tid> {
    CurSeq(c) + c.runq + c.nextq
  }

  predicate LenOk(c: Cpu) {
    c.len == |c.runq| + |c.nextq|
  }

  // ------------------------------------------------------------------ load balancing

  /* What migrate_tasks_runq leaves on a local queue q and the global queue g, when each CPU
     should have k tasks. */
  function Balanced(q: seq<Tid>, g: seq<Tid>, k: nat): (seq<Tid>, seq<Tid>) {
    if |q| < k then
      var m := if k - |q| < |g| then k - |q| else |g|;
      (q + g[..m], g[m..])
    else
      (q[|q| - k..], g + q[..|q| - k])
  }

  /* How often t occurs in a queue. */
  function Times(s: seq<Tid>, t: Tid): nat {
    if s == [] then 0 else (if s[0] == t then 1 else 0) + Times(s[1..], t)
  }

  lemma {:induction false} TimesConcat(a: seq<Tid>, b: seq<Tid>, t: Tid)
    ensures Times(a + b, t) == Times(a, t) + Times(b, t)
  {
    if a == [] {
      assert a + b == b;
    } else {
      assert (a + b)[1..] == a[1..] + b;
      TimesConcat(a[1..], b, t);
    }
  }

  lemma BalancedSize(q: seq<Tid>, g: seq<Tid>, k: nat)
    ensures var b := Balanced(q, g, k);
      && |b.0| + |b.1| == |q| + |g|
      && (|b.0| == k || (|b.0| < k && b.1 == []))
      && (q != [] && k > 0 ==> b.0 != [])
  {
  }

  /* Tasks leave the source queue from its front and join the end of the other, in order: with
     too few local tasks the front of the global queue follows them, with too many the front of
     the local queue goes to the end of the global one. */
  lemma BalancedOrder(q: seq<Tid>, g: seq<Tid>, k: nat)
    ensures var b := Balanced(q, g, k);
      if |q| < k then q <= b.0 && b.0 + b.1 == q + g else g <= b.1 && b.1 + b.0 == g + q
  {
    if |q| < k {
      var m := if k - |q| < |g| then k - |q| else |g|;
      assert g == g[..m] + g[m..];
    } else {
      assert q == q[..|q| - k] + q[|q| - k..];
    }
  }

  /* After m tasks were taken from the front of the queue from and appended to the queue to. */
  ghost predicate Moved(from: seq<Tid>, to: seq<Tid>, m: nat, from': seq<Tid>, to': seq<Tid>) {
    m <= |from| && from' == from[m..] && to' == to + from[..m]
  }

  lemma NoneMoved(from: seq<Tid>, to: seq<Tid>)
    ensures Moved(from, to, 0, from, to)
  {
  }

  lemma OneMoved(from: seq<Tid>, to: seq<Tid>, m: nat, from': seq<Tid>, to': seq<Tid>)
    requires Moved(from, to, m, from', to') && from' != []
    ensures Moved(from, to, m + 1, from'[1..], to' + [from'[0]])
  {
    assert from[..m + 1] == from[..m] + [from[m]];
  }

  lemma MovedBalances(q: seq<Tid>, g: seq<Tid>, k: nat, m: nat, g': seq<Tid>, q': seq<Tid>)
    requires Moved(g, q, m, g', q') && if |q| < k then |q| + m <= k && (|q'| >= k || g' == []) else m == 0
    ensures |q| < k ==> (q', g') == Balanced(q, g, k)
    ensures |q| >= k ==> q' == q && g' == g
  {
  }

  lemma MovedBack(q: seq<Tid>, g: seq<Tid>, k: nat, q': seq<Tid>, g': seq<Tid>)
    requires |q| >= k && Moved(q, g, |q| - k, q', g')
    ensures (q', g') == Balanced(q, g, k)
  {
  }

  lemma BalancedKeeps(q: seq<Tid>, g: seq<Tid>, k: nat, t: Tid)
    ensures var b := Balanced(q, g, k);
      Times(b.0, t) + Times(b.1, t) == Times(q, t) + Times(g, t)
  {
    hide Times;
    if |q| < k {
      var m := if k - |q| < |g| then k - |q| else |g|;
      assert g == g[..m] + g[m..];
      TimesConcat(g[..m], g[m..], t);
      TimesConcat(q, g[..m], t);
    } else {
      var m := |q| - k;
      assert q == q[..m] + q[m..];
      TimesConcat(q[..m], q[m..], t);
      TimesConcat(g, q[..m], t);
    }
  }

  // ------------------------------------------------------------------ one yield

  /* The number of tasks each CPU should run. */
  function Share(nuser: nat, ncpus: nat): nat
    requires ncpus > 0
  {
    (nuser + (ncpus - 1)) / ncpus
  }

  /* The least number such that all CPUs together have room for all tasks. */
  lemma ShareLeast(nuser: nat, ncpus: nat)
    requires ncpus > 0
    ensures var k := Share(nuser, ncpus);
      && k * ncpus >= nuser && forall j: nat :: j * ncpus >= nuser ==> j >= k
  {
    var k := Share(nuser, ncpus);
    DivisionBounds(nuser + (ncpus - 1), ncpus);
    forall j: nat | j * ncpus >= nuser
      ensures j >= k
    {
      if j < k {
        Fewer(j, k, ncpus);
      }
    }
  }

  lemma DivisionBounds(a: nat, b: nat)
    requires b > 0
    ensures (a / b) * b <= a < (a / b) * b + b
  {
  }

  lemma {:induction false} Fewer(j: nat, k: nat, n: nat)
    requires j < k
    ensures j * n + n <= k * n
    decreases k
  {
    if j + 1 < k {
      Fewer(j, k - 1, n);
    }
    assert k * n == (k - 1) * n + n;
  }

  /* What sched_yield does to one CPU and the global queue. */
  function Yield(c: Cpu, g: seq<Tid>, k: nat): (Cpu, seq<Tid>, Outcome) {
    var next := c.nextq + CurSeq(c);
    if c.runq != [] then
      (Cpu(c.runq[1..], next, |c.runq| - 1 + |next|, Some(c.runq[0])), g, Ran)
    else
      var b := Balanced(next, g, k);
      if b.0 != [] then (Cpu(b.0[1..], [], |b.0| - 1, Some(b.0[0])), b.1, Ran)
      else (Cpu([], [], 0, c.cur), b.1, Idle)
  }

  /* How often t is placed on a CPU, and how many tasks a CPU has. */
  function Placed(c: Cpu, t: Tid): nat {
    Times(CurSeq(c), t) + Times(c.runq, t) + Times(c.nextq, t)
  }

  function Load(c: Cpu): nat {
    |CurSeq(c)| + |c.runq| + |c.nextq|
  }

  lemma YieldLoad(c: Cpu, g: seq<Tid>, k: nat)
    requires LenOk(c) && k > 0
    ensures var y := Yield(c, g, k);
      && LenOk(y.0) && Load(y.0) + |y.1| == Load(c) + |g|
      && (y.2 == Idle ==> c.cur.None? && y.0.cur.None?)
  {
    BalancedSize(c.nextq + CurSeq(c), g, k);
  }

  /* While a round lasts, the next task of the run queue runs, the current one waits for the
     next round, and the global queue is left alone. */
  lemma YieldInRound(c: Cpu, g: seq<Tid>, k: nat)
    requires c.runq != []
    ensures var y := Yield(c, g, k);
      && y.2 == Ran && y.1 == g && y.0.cur == Some(c.runq[0])
      && c.runq == [c.runq[0]] + y.0.runq && y.0.nextq == c.nextq + CurSeq(c)
  {
  }

  /* At the end of a round the waiting tasks, with the current one last, form the new round. As
     many of them and of the global tasks as make k, if there are k, stay on the CPU, in order.
     It idles exactly if there is no task at all. */
  lemma YieldNewRound(c: Cpu, g: seq<Tid>, k: nat)
    requires c.runq == [] && k > 0
    ensures var y := Yield(c, g, k);
      var n := c.nextq + CurSeq(c);
      && y.0.nextq == [] && y.2 == (if n + g == [] then Idle else Ran) && y.0.cur.Some? == (n + g != [])
      && |Order(y.0)| == (if k < |n + g| then k else |n + g|)
      && if |n| < k then n <= Order(y.0) && Order(y.0) + y.1 == n + g else g <= y.1 && y.1 + Order(y.0) == g + n
  {
    hide Balanced;
    var n := c.nextq + CurSeq(c);
    var b := Balanced(n, g, k);
    BalancedSize(n, g, k);
    BalancedOrder(n, g, k);
    if b.0 != [] {
      assert [b.0[0]] + b.0[1..] + [] == b.0;
    }
    assert Order(Yield(c, g, k).0) == b.0;
  }

  /* A yield moves tasks around and loses or duplicates none. */
  lemma YieldKeeps(c: Cpu, g: seq<Tid>, k: nat, t: Tid)
    requires LenOk(c) && k > 0
    ensures var y := Yield(c, g, k);
      Placed(y.0, t) + Times(y.1, t) == Placed(c, t) + Times(g, t)
  {
    YieldLoad(c, g, k);
    var next := c.nextq + CurSeq(c);
    TimesConcat(c.nextq, CurSeq(c), t);
    if c.runq != [] {
      HeadTail(c.runq, t);
    } else {
      BalancedKeeps(next, g, k, t);
      var b := Balanced(next, g, k);
      if b.0 != [] {
        HeadTail(b.0, t);
      }
    }
  }

  lemma HeadTail(s: seq<Tid>, t: Tid)
    requires s != []
    ensures Times([s[0]], t) + Times(s[1..], t) == Times(s, t)
  {
    assert s == [s[0]] + s[1..];
    TimesConcat([s[0]], s[1..], t);
  }

  // ------------------------------------------------------------------ all CPUs

  function LocalTimes(cpus: seq<Cpu>, t: Tid): nat {
    if cpus == [] then 0 else Placed(cpus[0], t) + LocalTimes(cpus[1..], t)
  }

  function LocalLoad(cpus: seq<Cpu>): nat {
    if cpus == [] then 0 else Load(cpus[0]) + LocalLoad(cpus[1..])
  }

  lemma {:induction false} LocalUpdate(cpus: seq<Cpu>, i: nat, x: Cpu, t: Tid)
    requires i < |cpus|
    ensures LocalTimes(cpus[i := x], t) + Placed(cpus[i], t) == LocalTimes(cpus, t) + Placed(x, t)
    ensures LocalLoad(cpus[i := x]) + Load(cpus[i]) == LocalLoad(cpus) + Load(x)
    ensures Placed(cpus[i], t) <= LocalTimes(cpus, t) && Load(cpus[i]) <= LocalLoad(cpus)
  {
    hide Placed, Load;
    if i == 0 {
      assert cpus[0 := x][1..] == cpus[1..];
    } else {
      assert cpus[i := x][1..] == cpus[1..][i - 1 := x];
      LocalUpdate(cpus[1..], i - 1, x, t);
    }
  }

  /* In how many places task t is: the global queue, a local queue, a next queue, or running. */
  function Places(g: seq<Tid>, cpus: seq<Cpu>, t: Tid): nat {
    Times(g, t) + LocalTimes(cpus, t)
  }

  /* Every task is in at most one place, every CPU's length is that of its two queues, nuser
     counts all tasks and nkernel the kernel tasks among them. */
  ghost predicate Consistent(g: seq<Tid>, cpus: seq<Cpu>, kernel: set<Tid>, nuser: nat, nkernel: nat) {
    && |cpus| > 0
    && (forall i :: 0 <= i < |cpus| ==> LenOk(cpus[i]))
    && (forall t :: Places(g, cpus, t) <= 1)
    && nuser == |g| + LocalLoad(cpus)
    && nkernel == |kernel| && (forall t :: t in kernel ==> Places(g, cpus, t) == 1)
  }

  /* What a Scheduler holds. */
  datatype Queues = Queues(runq: seq<Tid>, cpus: seq<Cpu>, kernel: set<Tid>, nuser: nat, nkernel: nat)

  class Scheduler {
    var runq: seq<Tid>
    var cpus: seq<Cpu>
    /* The tasks with task_type TASK_TYPE_KERNEL. */
    var kernel: set<Tid>
    var nuser: nat
    var nkernel: nat

    ghost predicate Valid()
      reads this
    {
      Consistent(runq, cpus, kernel, nuser, nkernel)
    }

    ghost function State(): Queues
      reads this
    {
      Queues(runq, cpus, kernel, nuser, nkernel)
    }

    constructor (ncpus: nat)
      requires ncpus > 0
      ensures Valid() && |cpus| == ncpus && forall t :: Places(runq, cpus, t) == 0
    {
      runq, kernel, nuser, nkernel := [], {}, 0, 0;
      cpus := seq(ncpus, _ => Cpu([], [], 0, None));
      new;
      NoTasks(cpus);
    }

    /* move_cur_task_to_nextq */
    method MoveCurToNextq(c: nat)
      requires c < |cpus| && LenOk(cpus[c])
      modifies `cpus
      ensures |cpus| == |old(cpus)| && cpus == old(cpus)[c := cpus[c]] && LenOk(cpus[c])
      ensures cpus[c].nextq == old(cpus[c].nextq) + CurSeq(old(cpus[c]))
      ensures cpus[c].runq == old(cpus[c].runq) && cpus[c].cur == old(cpus[c].cur)
    {
      var x := cpus[c];
      if x.cur.None? {
        return;
      }
      cpus := cpus[c := x.(nextq := x.nextq + [x.cur.value], len := x.len + 1)];
    }

    /* try_run_next_task; running the task does not return in the source. */
    method TryRunNextTask(c: nat) returns (ok: bool)
      requires c < |cpus| && LenOk(cpus[c])
      modifies `cpus
      ensures ok <==> old(cpus[c].runq) != []
      ensures !ok ==> cpus == old(cpus)
      ensures ok ==> |cpus| == |old(cpus)| && cpus == old(cpus)[c := cpus[c]] && LenOk(cpus[c])
      ensures ok ==> cpus[c].runq == old(cpus[c].runq)[1..] && cpus[c].nextq == old(cpus[c].nextq)
      ensures ok ==> cpus[c].cur == Some(old(cpus[c].runq)[0])
    {
      var x := cpus[c];
      if x.runq == [] {
        return false;
      }
      var task := x.runq[0];
      assert x.len >= 1;
      cpus := cpus[c := x.(runq := x.runq[1..], len := x.len - 1, cur := Some(task))];
      ok := true;
    }

    /* move_nextq_to_runq: the head of nextq is cut out and the head of runq put in its place,
       so whatever runq held is lost; it is only called when runq is empty. */
    method MoveNextqToRunq(c: nat)
      requires c < |cpus| && LenOk(cpus[c]) && cpus[c].runq == []
      modifies `cpus
      ensures cpus == old(cpus)[c := old(cpus[c]).(runq := old(cpus[c].nextq), nextq := [])]
    {
      var x := cpus[c];
      if x.nextq == [] {
        assert x.(runq := x.nextq, nextq := []) == x;
        return;
      }
      cpus := cpus[c := x.(runq := x.nextq, nextq := [])];
    }

    /* migrate_tasks_runq */
    method MigrateTasks(c: nat, k: nat)
      requires c < |cpus| && LenOk(cpus[c]) && cpus[c].nextq == []
      modifies `cpus, `runq
      ensures |cpus| == |old(cpus)| && cpus == old(cpus)[c := cpus[c]] && LenOk(cpus[c])
      ensures cpus[c].nextq == [] && cpus[c].cur == old(cpus[c].cur)
      ensures (cpus[c].runq, runq) == Balanced(old(cpus[c].runq), old(runq), k)
    {
      hide Balanced, Moved;
      ghost var q, g := cpus[c].runq, runq;
      ghost var m := 0;
      NoneMoved(g, q);
      NoneMoved(q, g);
      while cpus[c].len < k
        invariant |cpus| == |old(cpus)| && cpus == old(cpus)[c := cpus[c]] && LenOk(cpus[c])
        invariant cpus[c].nextq == [] && cpus[c].cur == old(cpus[c].cur)
        invariant Moved(g, q, m, runq, cpus[c].runq) && |cpus[c].runq| == |q| + m
        invariant if |q| < k then |q| + m <= k else m == 0
        decreases k - cpus[c].len
      {
        if runq == [] {
          break;
        }
        var task := runq[0];
        OneMoved(g, q, m, runq, cpus[c].runq);
        runq := runq[1..];
        var x := cpus[c];
        cpus := cpus[c := x.(runq := x.runq + [task], len := x.len + 1)];
        m := m + 1;
      }
      MovedBalances(q, g, k, m, runq, cpus[c].runq);
      ghost var n := 0;
      while cpus[c].len > k
        invariant |cpus| == |old(cpus)| && cpus == old(cpus)[c := cpus[c]] && LenOk(cpus[c])
        invariant cpus[c].nextq == [] && cpus[c].cur == old(cpus[c].cur)
        invariant |q| < k ==> n == 0 && cpus[c].len <= k && (cpus[c].runq, runq) == Balanced(q, g, k)
        invariant |q| >= k ==> Moved(q, g, n, cpus[c].runq, runq) && n + |cpus[c].runq| == |q| && n <= |q| - k
        decreases cpus[c].len
      {
        var x := cpus[c];
        assert x.runq != [];
        var task := x.runq[0];
        assert x.len >= 1;
        OneMoved(q, g, n, x.runq, runq);
        cpus := cpus[c := x.(runq := x.runq[1..], len := x.len - 1)];
        runq := runq + [task];
        n := n + 1;
      }
      if |q| >= k {
        MovedBack(q, g, k, cpus[c].runq, runq);
      }
    }

    /* sched_yield up to the point where a task runs, the CPU finds none and tries again, or
       the machine stops because only kernel tasks are left. */
    method SchedYield(c: nat) returns (outcome: Outcome)
      requires Valid() && c < |cpus|
      modifies `cpus, `runq
      ensures Valid() && forall t :: Places(runq, cpus, t) == old(Places(runq, cpus, t))
      ensures outcome == Halted <==> nuser == nkernel
      ensures outcome == Halted ==> cpus == old(cpus) && runq == old(runq)
      ensures outcome != Halted ==>
        && |cpus| == |old(cpus)| && cpus == old(cpus)[c := cpus[c]]
        && (cpus[c], runq, outcome) == Yield(old(cpus[c]), old(runq), Share(nuser, |cpus|))
      ensures outcome == Idle ==> cpus[c].cur.None? && old(cpus[c].cur).None?
      ensures State() == Yielded(old(State()), c)
    {
      if nuser == nkernel {
        return Halted;
      }
      assert LenOk(cpus[c]) && |cpus| > 0;
      SomeTask(runq, cpus, kernel, nuser, nkernel);
      ghost var y := Yield(cpus[c], runq, Share(nuser, |cpus|));
      YieldConsistent(runq, cpus, kernel, nuser, nkernel, c);
      hide Yield, Places, LocalLoad, LenOk, Share, Consistent;
      outcome := Dispatch(c);
      assert cpus == old(cpus)[c := y.0] && runq == y.1;
    }

    /* The part of sched_yield after the test for remaining tasks. */
    method Dispatch(c: nat) returns (outcome: Outcome)
      requires |cpus| > 0 && c < |cpus| && LenOk(cpus[c])
      modifies `cpus, `runq
      ensures |cpus| == |old(cpus)| && cpus == old(cpus)[c := cpus[c]]
      ensures (cpus[c], runq, outcome) == Yield(old(cpus[c]), old(runq), Share(nuser, |cpus|))
    {
      ghost var x, g := cpus[c], runq;
      MoveCurToNextq(c);
      ghost var y := cpus[c];
      var ok := TryRunNextTask(c);
      if ok {
        assert cpus[c] == Cpu(x.runq[1..], y.nextq, |x.runq| - 1 + |y.nextq|, Some(x.runq[0]));
        return Ran;
      }
      ok := Refill(c, Share(nuser, |cpus|));
      outcome := if ok then Ran else Idle;
    }

    /* The second half of sched_yield: the next round becomes the current one, the load is
       balanced against the global queue, and a task is tried again. */
    method Refill(c: nat, k: nat) returns (ok: bool)
      requires c < |cpus| && LenOk(cpus[c]) && cpus[c].runq == []
      modifies `cpus, `runq
      ensures |cpus| == |old(cpus)| && cpus == old(cpus)[c := cpus[c]]
      ensures var b := Balanced(old(cpus[c].nextq), old(runq), k);
        && runq == b.1 && (ok <==> b.0 != [])
        && cpus[c] == if ok then Cpu(b.0[1..], [], |b.0| - 1, Some(b.0[0])) else Cpu([], [], 0, old(cpus[c].cur))
    {
      ghost var x, g := cpus[c], runq;
      MoveNextqToRunq(c);
      if cpus[c].len != k {
        MigrateTasks(c, k);
      } else {
        assert x.nextq[0..] == x.nextq && g + x.nextq[..0] == g;
      }
      ok := TryRunNextTask(c);
    }

    /* lock_runq_add, task_create and the end of sys_fork: a new task joins the global queue. */
    method AddTask(t: Tid, isKernel: bool)
      requires Valid() && Places(runq, cpus, t) == 0
      modifies this
      ensures Valid() && cpus == old(cpus) && runq == old(runq) + [t] && nuser == old(nuser) + 1
      ensures kernel == old(kernel) + (if isKernel then {t} else {})
      ensures nkernel == old(nkernel) + if isKernel then 1 else 0
      ensures forall u :: Places(runq, cpus, u) == old(Places(runq, cpus, u)) + if u == t then 1 else 0
    {
      AddStep(cpus, runq, t);
      hide Places, LocalLoad;
      runq := runq + [t];
      nuser := nuser + 1;
      if isKernel {
        kernel := kernel + {t};
        nkernel := nkernel + 1;
      }
    }

    /* The self-exit path of task_destroy, for a user task whose parent does not wait and for which
       task_free returns: if free_vmas cannot take the task's tree apart, there is no such step. */
    method Exit(c: nat) returns (outcome: Outcome)
      requires Valid() && c < |cpus| && cpus[c].cur.Some? && cpus[c].cur.value !in kernel
      modifies this
      ensures Valid() && kernel == old(kernel) && nkernel == old(nkernel)
      ensures State() == Exited(old(State()), c)
      ensures nuser == old(nuser) - 1 && |cpus| == |old(cpus)|
      ensures outcome == Halted <==> nuser == nkernel
      ensures outcome == Halted ==> runq == old(runq) && cpus == old(cpus[c := cpus[c].(cur := None)])
      ensures outcome != Halted ==>
        && cpus == old(cpus)[c := cpus[c]]
        && (cpus[c], runq, outcome) == Yield(old(cpus[c]).(cur := None), old(runq), Share(nuser, |cpus|))
      ensures forall u :: Places(runq, cpus, u) == old(Places(runq, cpus, u)) - One(old(cpus[c].cur), u)
    {
      hide Places, LocalLoad, LenOk, Yield, Share, Consistent;
      ExitConsistent(runq, cpus, kernel, nuser, nkernel, c);
      nuser := nuser - 1;
      cpus := cpus[c := cpus[c].(cur := None)];
      if nuser > nkernel {
        outcome := SchedYield(c);
      } else {
        outcome := Halted;
      }
    }
  }

  // ------------------------------------------------------------------ any run

  datatype Op = Create(t: Tid, isKernel: bool) | Fork(cpu: nat, t: Tid) | DoYield(cpu: nat) | DoExit(cpu: nat)

  /* The queues after a yield of CPU c, or a new task, or the exit of the task that CPU c runs. */
  ghost function Yielded(s: Queues, c: nat): Queues
    requires c < |s.cpus|
  {
    if s.nuser == s.nkernel then s
    else
      var y := Yield(s.cpus[c], s.runq, Share(s.nuser, |s.cpus|));
      s.(runq := y.1, cpus := s.cpus[c := y.0])
  }

  ghost function Added(s: Queues, t: Tid, isKernel: bool): Queues {
    s.(runq := s.runq + [t], nuser := s.nuser + 1,
       kernel := s.kernel + (if isKernel then {t} else {}), nkernel := s.nkernel + if isKernel then 1 else 0)
  }

  ghost function Exited(s: Queues, c: nat): Queues
    requires c < |s.cpus|
  {
    Yielded(s.(nuser := if s.nuser > 0 then s.nuser - 1 else 0, cpus := s.cpus[c := s.cpus[c].(cur := None)]), c)
  }

  /* The task that a step creates, or the one that it ends. Steps that cannot happen (a CPU that
     does not exist or runs nothing, a task that exists already) do neither and change nothing. */
  ghost function Born(s: Queues, op: Op): Option<Tid> {
    match op
    case Create(t, _) => if Places(s.runq, s.cpus, t) == 0 then Some(t) else None
    case Fork(c, t) =>
      if c < |s.cpus| && s.cpus[c].cur.Some? && Places(s.runq, s.cpus, t) == 0 then Some(t) else None
    case _ => None
  }

  ghost function Died(s: Queues, op: Op): Option<Tid> {
    if op.DoExit? && op.cpu < |s.cpus| && s.cpus[op.cpu].cur.Some?
       && s.cpus[op.cpu].cur.value !in s.kernel then s.cpus[op.cpu].cur
    else None
  }

  ghost function Step(s: Queues, op: Op): Queues {
    match op
    case Create(t, isKernel) => if Born(s, op).Some? then Added(s, t, isKernel) else s
    case Fork(_, t) => if Born(s, op).Some? then Added(s, t, false) else s
    case DoYield(c) => if c < |s.cpus| then Yielded(s, c) else s
    case DoExit(c) => if Died(s, op).Some? then Exited(s, c) else s
  }

  function One(o: Option<Tid>, t: Tid): nat {
    if o == Some(t) then 1 else 0
  }

  /* The queues after some steps, and how often t was created and ended on the way. */
  ghost function After(s: Queues, ops: seq<Op>): Queues {
    if ops == [] then s else Step(After(s, Front(ops)), ops[|ops| - 1])
  }

  ghost function Births(s: Queues, ops: seq<Op>, t: Tid): nat {
    if ops == [] then 0 else Births(s, Front(ops), t) + One(Born(After(s, Front(ops)), ops[|ops| - 1]), t)
  }

  ghost function Deaths(s: Queues, ops: seq<Op>, t: Tid): nat {
    if ops == [] then 0 else Deaths(s, Front(ops), t) + One(Died(After(s, Front(ops)), ops[|ops| - 1]), t)
  }

  function Front(ops: seq<Op>): seq<Op>
    requires ops != []
  {
    ops[..|ops| - 1]
  }

  /* One step on some CPU. */
  method Do(s: Scheduler, op: Op)
    requires s.Valid()
    modifies s
    ensures s.Valid() && s.State() == Step(old(s.State()), op)
    ensures forall t ::
      Places(s.runq, s.cpus, t) + One(Died(old(s.State()), op), t) == old(Places(s.runq, s.cpus, t)) + One(Born(old(s.State()), op), t)
  {
    hide Places, Consistent, Yield, Yielded, Share;
    match op {
      case Create(t, isKernel) =>
        if Places(s.runq, s.cpus, t) == 0 {
          s.AddTask(t, isKernel);
        }
      case Fork(c, t) =>
        if c < |s.cpus| && s.cpus[c].cur.Some? && Places(s.runq, s.cpus, t) == 0 {
          s.AddTask(t, false);
        }
      case DoYield(c) =>
        if c < |s.cpus| {
          var _ := s.SchedYield(c);
        }
      case DoExit(c) =>
        if c < |s.cpus| && s.cpus[c].cur.Some? && s.cpus[c].cur.value !in s.kernel {
          var _ := s.Exit(c);
        }
    }
  }

  /* Any interleaving of steps on any CPUs: a task is in a place for each time it was there at
     first or was created, less the times it ended. */
  method Run(s: Scheduler, ops: seq<Op>)
    requires s.Valid()
    modifies s
    ensures s.Valid() && s.State() == After(old(s.State()), ops)
    ensures forall t ::
      Places(s.runq, s.cpus, t) + Deaths(old(s.State()), ops, t) == old(Places(s.runq, s.cpus, t)) + Births(old(s.State()), ops, t)
  {
    hide Places, Consistent, Step, Born, Died, One;
    ghost var was := s.State();
    for i := 0 to |ops|
      invariant s.Valid() && s.State() == After(was, ops[..i])
      invariant forall t ::
        Places(s.runq, s.cpus, t) + Deaths(was, ops[..i], t) == old(Places(s.runq, s.cpus, t)) + Births(was, ops[..i], t)
    {
      assert Front(ops[..i + 1]) == ops[..i];
      Do(s, ops[i]);
    }
    assert ops[..|ops|] == ops;
  }

  // ------------------------------------------------------------------ round robin

  function Rotated(s: seq<Tid>): seq<Tid>
    requires s != []
  {
    s[1..] + [s[0]]
  }

  /* With an empty global queue and room for all its tasks, a CPU's two queues behave as one
     FIFO queue: the current task goes to the end and the first one runs. */
  lemma YieldRotates(c: Cpu, k: nat)
    requires LenOk(c) && c.cur.Some? && k == |Order(c)|
    ensures var y := Yield(c, [], k);
      y.1 == [] && y.2 == Ran && y.0.cur.Some? && LenOk(y.0) && Order(y.0) == Rotated(Order(c))
  {
    var next := c.nextq + CurSeq(c);
    if c.runq != [] {
      assert Order(c)[1..] == c.runq + c.nextq;
    } else {
      var none: seq<Tid> := [];
      assert next[0..] == next && none + next[..0] == none;
      assert Balanced(next, none, k) == (next, none);
      assert Order(c)[1..] == c.nextq;
    }
  }

  /* A CPU after n yields, alone with its tasks. */
  function Yields(c: Cpu, n: nat): Cpu {
    if n == 0 then c else Yield(Yields(c, n - 1), [], |Order(c)|).0
  }

  /* The place in a queue of m that is first after n rotations. */
  function Place(n: nat, m: nat): (p: nat)
    requires m > 0
    ensures p < m
  {
    if n == 0 then 0 else if Place(n - 1, m) + 1 < m then Place(n - 1, m) + 1 else 0
  }

  /* The sequence s started at index j. */
  function From(s: seq<Tid>, j: nat): seq<Tid>
    requires j <= |s|
  {
    s[j..] + s[..j]
  }

  lemma RotatedFrom(s: seq<Tid>, j: nat)
    requires j < |s|
    ensures Rotated(From(s, j)) == From(s, if j + 1 < |s| then j + 1 else 0)
  {
    var t := From(s, j);
    assert t[0] == s[j];
    if j + 1 < |s| {
      assert t[1..] == s[j + 1..] + s[..j] && s[..j + 1] == s[..j] + [s[j]];
    } else {
      assert t[1..] == s[..j] && s == s[..j] + [s[j]];
    }
  }

  lemma {:induction false} YieldsRotate(c: Cpu, n: nat)
    requires LenOk(c) && c.cur.Some?
    ensures Order(c) != [] && LenOk(Yields(c, n)) && Yields(c, n).cur.Some?
    ensures Order(Yields(c, n)) == From(Order(c), Place(n, |Order(c)|))
  {
    hide Yield, Order, LenOk, Rotated, From;
    var s := Order(c);
    RunningNonEmpty(c);
    if n == 0 {
      FromStart(s);
    } else {
      YieldsRotate(c, n - 1);
      var x, j := Yields(c, n - 1), Place(n - 1, |s|);
      FromLength(s, j);
      YieldRotates(x, |s|);
      RotatedFrom(s, j);
    }
  }

  lemma RunningNonEmpty(c: Cpu)
    requires c.cur.Some?
    ensures Order(c) != []
  {
  }

  lemma FromStart(s: seq<Tid>)
    ensures From(s, 0) == s
  {
  }

  lemma FromLength(s: seq<Tid>, j: nat)
    requires j <= |s|
    ensures |From(s, j)| == |s|
    ensures j < |s| ==> From(s, j)[0] == s[j]
  {
  }

  /* Among n tasks alone on one CPU, every task runs within any n consecutive yields. */
  lemma RoundRobin(c: Cpu, t: Tid, m: nat) returns (j: nat)
    requires LenOk(c) && c.cur.Some? && t in Order(c)
    ensures m < j <= m + |Order(c)| && Yields(c, j).cur == Some(t)
  {
    var n := |Order(c)|;
    var i :| 0 <= i < n && Order(c)[i] == t;
    j := NextHit(m, n, i);
    YieldsRotate(c, j);
    FromLength(Order(c), i);
    assert Order(Yields(c, j))[0] == Order(c)[i];
  }

  /* Counting on from m, the place i comes up within the next n numbers. */
  lemma NextHit(m: nat, n: nat, i: nat) returns (j: nat)
    requires i < n
    ensures m < j <= m + n && Place(j, n) == i
  {
    var r := Place(m, n);
    var d := if r < i then i - r else i - r + n;
    j := m + d;
    Advance(m, n, d);
  }

  lemma {:induction false} Advance(a: nat, n: nat, d: nat)
    requires n > 0 && d <= n
    ensures Place(a + d, n) == if Place(a, n) + d < n then Place(a, n) + d else Place(a, n) + d - n
  {
    if d > 0 {
      Advance(a, n, d - 1);
    }
  }

  /* The scheduler really takes these steps: n yields of a single CPU that has all tasks. */
  method YieldMany(s: Scheduler, n: nat)
    requires s.Valid() && |s.cpus| == 1 && s.runq == [] && s.cpus[0].cur.Some? && s.nuser != s.nkernel
    modifies s
    ensures s.Valid() && |s.cpus| == 1 && s.runq == [] && s.cpus[0] == Yields(old(s.cpus[0]), n)
  {
    hide Yield, Consistent, Order, LenOk, From, Share, Places, Yields, Place;
    ghost var c := s.cpus[0];
    AloneCpu(s.cpus, s.kernel, s.nuser, s.nkernel);
    NoYields(c);
    for i := 0 to n
      invariant s.Valid() && |s.cpus| == 1 && s.runq == [] && s.cpus[0] == Yields(c, i)
      invariant s.nuser == |Order(c)| != s.nkernel
    {
      OneYield(c, i);
      var _ := s.SchedYield(0);
    }
  }

  lemma AloneCpu(cpus: seq<Cpu>, kernel: set<Tid>, nuser: nat, nkernel: nat)
    requires |cpus| == 1 && Consistent([], cpus, kernel, nuser, nkernel)
    ensures LenOk(cpus[0]) && nuser == |Order(cpus[0])|
  {
    hide Places, LocalLoad, Order;
    OnlyCpu(cpus);
  }

  lemma NoYields(c: Cpu)
    ensures Yields(c, 0) == c
  {
  }

  lemma OneYield(c: Cpu, i: nat)
    requires LenOk(c) && c.cur.Some?
    ensures Yield(Yields(c, i), [], Share(|Order(c)|, 1)) == (Yields(c, i + 1), [], Ran)
  {
    hide Yield, Order, LenOk, From, Share, Place;
    YieldsRotate(c, i);
    FromLength(Order(c), Place(i, |Order(c)|));
    YieldRotates(Yields(c, i), |Order(c)|);
    ShareOne(|Order(c)|);
  }

  lemma ShareOne(nuser: nat)
    ensures Share(nuser, 1) == nuser
  {
  }

  lemma OnlyCpu(cpus: seq<Cpu>)
    requires |cpus| == 1
    ensures LocalLoad(cpus) == |Order(cpus[0])|
  {
    assert LocalLoad(cpus[1..]) == 0;
  }

  lemma {:induction false} NoTasks(cpus: seq<Cpu>)
    requires forall i :: 0 <= i < |cpus| ==> cpus[i] == Cpu([], [], 0, None)
    ensures LocalLoad(cpus) == 0 && forall t :: LocalTimes(cpus, t) == 0
  {
    if cpus != [] {
      NoTasks(cpus[1..]);
    }
  }

  lemma {:induction false} NoLoad(cpus: seq<Cpu>)
    requires LocalLoad(cpus) == 0
    ensures forall t :: LocalTimes(cpus, t) == 0
  {
    if cpus != [] {
      NoLoad(cpus[1..]);
      assert Load(cpus[0]) == 0;
      assert forall t :: Placed(cpus[0], t) == 0;
    }
  }

  lemma SharePositive(nuser: nat, ncpus: nat)
    requires nuser > 0 && ncpus > 0
    ensures Share(nuser, ncpus) > 0
  {
  }

  lemma YieldStep(cpus: seq<Cpu>, g: seq<Tid>, c: nat, k: nat)
    requires c < |cpus| && LenOk(cpus[c]) && k > 0
    ensures var y := Yield(cpus[c], g, k);
      && LenOk(y.0) && |y.1| + LocalLoad(cpus[c := y.0]) == |g| + LocalLoad(cpus)
      && (y.2 == Idle ==> cpus[c].cur.None? && y.0.cur.None?) && y.2 != Halted
      && forall t :: Places(y.1, cpus[c := y.0], t) == Places(g, cpus, t)
  {
    YieldLoad(cpus[c], g, k);
    var y := Yield(cpus[c], g, k);
    assert y.2 != Halted;
    hide Yield, Placed, Load, LocalLoad, LocalTimes, Times;
    LocalUpdate(cpus, c, y.0, 0);
    forall t: Tid
      ensures Places(y.1, cpus[c := y.0], t) == Places(g, cpus, t)
    {
      YieldKeeps(cpus[c], g, k, t);
      LocalUpdate(cpus, c, y.0, t);
    }
  }

  lemma AddStep(cpus: seq<Cpu>, g: seq<Tid>, t: Tid)
    ensures forall u :: Places(g + [t], cpus, u) == Places(g, cpus, u) + if u == t then 1 else 0
  {
    forall u: Tid
      ensures Places(g + [t], cpus, u) == Places(g, cpus, u) + if u == t then 1 else 0
    {
      TimesConcat(g, [t], u);
    }
  }

  lemma ExitStep(cpus: seq<Cpu>, g: seq<Tid>, c: nat)
    requires c < |cpus| && cpus[c].cur.Some?
    ensures var x := cpus[c].(cur := None);
      && (LenOk(cpus[c]) ==> LenOk(x))
      && LocalLoad(cpus[c := x]) == LocalLoad(cpus) - 1
      && forall u :: Places(g, cpus[c := x], u) == Places(g, cpus, u) - if u == cpus[c].cur.value then 1 else 0
  {
    var x := cpus[c].(cur := None);
    LocalUpdate(cpus, c, x, 0);
    forall u: Tid
      ensures Places(g, cpus[c := x], u) == Places(g, cpus, u) - if u == cpus[c].cur.value then 1 else 0
    {
      LocalUpdate(cpus, c, x, u);
      assert CurSeq(cpus[c])[1..] == [];
      assert Placed(cpus[c], u) == Placed(x, u) + if u == cpus[c].cur.value then 1 else 0;
    }
  }

  /* If no task is placed anywhere, there are no kernel tasks either. */
  lemma SomeTask(g: seq<Tid>, cpus: seq<Cpu>, kernel: set<Tid>, nuser: nat, nkernel: nat)
    requires Consistent(g, cpus, kernel, nuser, nkernel) && nuser != nkernel
    ensures nuser > 0
  {
    if nuser == 0 {
      NoLoad(cpus);
    }
  }

  /* All tasks of all CPUs. */
  function Locals(cpus: seq<Cpu>): seq<Tid> {
    if cpus == [] then [] else Order(cpus[0]) + Locals(cpus[1..])
  }

  lemma {:induction false} LocalsTimes(cpus: seq<Cpu>, t: Tid)
    ensures |Locals(cpus)| == LocalLoad(cpus) && Times(Locals(cpus), t) == LocalTimes(cpus, t)
  {
    if cpus != [] {
      var c := cpus[0];
      TimesConcat(CurSeq(c), c.runq, t);
      TimesConcat(CurSeq(c) + c.runq, c.nextq, t);
      TimesConcat(Order(c), Locals(cpus[1..]), t);
      LocalsTimes(cpus[1..], t);
    }
  }

  /* A queue is no shorter than a set of tasks that occur in it. */
  lemma {:induction false} NoShorter(s: seq<Tid>, ts: set<Tid>)
    requires forall t :: t in ts ==> Times(s, t) > 0
    ensures |ts| <= |s|
  {
    if s == [] {
      assert ts == {};
    } else {
      assert |ts| <= |ts - {s[0]}| + 1 by {
        assert s[0] in ts ==> ts == ts - {s[0]} + {s[0]};
        assert s[0] !in ts ==> ts == ts - {s[0]};
      }
      NoShorter(s[1..], ts - {s[0]});
    }
  }

  lemma KernelTasks(g: seq<Tid>, cpus: seq<Cpu>, kernel: set<Tid>, nuser: nat, nkernel: nat)
    requires Consistent(g, cpus, kernel, nuser, nkernel)
    ensures nkernel <= nuser
  {
    var s := g + Locals(cpus);
    LocalsTimes(cpus, 0);
    forall t | t in kernel
      ensures Times(s, t) > 0
    {
      LocalsTimes(cpus, t);
      TimesConcat(g, Locals(cpus), t);
    }
    NoShorter(s, kernel);
  }

  lemma YieldConsistent(g: seq<Tid>, cpus: seq<Cpu>, kernel: set<Tid>, nuser: nat, nkernel: nat, c: nat)
    requires Consistent(g, cpus, kernel, nuser, nkernel) && c < |cpus| && nuser > 0
    ensures var y := Yield(cpus[c], g, Share(nuser, |cpus|));
      && Consistent(y.1, cpus[c := y.0], kernel, nuser, nkernel)
      && (forall t :: Places(y.1, cpus[c := y.0], t) == Places(g, cpus, t))
      && (y.2 == Idle ==> cpus[c].cur.None? && y.0.cur.None?) && y.2 != Halted
  {
    var k := Share(nuser, |cpus|);
    SharePositive(nuser, |cpus|);
    YieldStep(cpus, g, c, k);
    hide Yield, Places, LocalLoad, LenOk, Share;
    var y := Yield(cpus[c], g, k);
    var cpus' := cpus[c := y.0];
    assert forall i :: 0 <= i < |cpus'| ==> LenOk(cpus'[i]);
    forall t: Tid
      ensures Places(y.1, cpus', t) <= 1
    {
      assert Places(y.1, cpus', t) == Places(g, cpus, t);
    }
  }

  lemma ExitConsistent(g: seq<Tid>, cpus: seq<Cpu>, kernel: set<Tid>, nuser: nat, nkernel: nat, c: nat)
    requires Consistent(g, cpus, kernel, nuser, nkernel) && c < |cpus|
    requires cpus[c].cur.Some? && cpus[c].cur.value !in kernel
    ensures nkernel < nuser && Consistent(g, cpus[c := cpus[c].(cur := None)], kernel, nuser - 1, nkernel)
    ensures forall u :: Places(g, cpus[c := cpus[c].(cur := None)], u) == Places(g, cpus, u) - One(cpus[c].cur, u)
  {
    ExitStep(cpus, g, c);
    hide Places, LocalLoad, LenOk;
    var cpus' := cpus[c := cpus[c].(cur := None)];
    assert forall i :: 0 <= i < |cpus'| ==> LenOk(cpus'[i]);
    forall t: Tid
      ensures Places(g, cpus', t) <= 1
    {
      assert Places(g, cpus', t) <= Places(g, cpus, t);
    }
    KernelTasks(g, cpus', kernel, nuser - 1, nkernel);
  }
}
