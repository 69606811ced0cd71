// Sleeping and waking: __schedule, try_to_wake_up and wakelist draining racing
// over state, on_rq, on_cpu and task_cpu. A section under a runqueue lock is one
// action, except that __schedule exposes on_rq and on_cpu to a waker, which holds
// only the task's own lock, in three.
module Wakeup {

  datatype RunState = Running | Sleeping | Waking
  datatype OnRq = Off | OnQueue | Migrating

  // How far the one waker that holds the task's lock has got: it has seen a
  // matching state; it has set TASK_WAKING; it has seen on_cpu clear and chosen
  // a CPU.
  datatype Waker = Nobody | Matched | Claimed | Placed

  datatype Task = Task(state: RunState, onRq: OnRq, onCpu: bool, cpu: nat, waker: Waker)

  // Where a CPU is in __schedule, which holds the runqueue lock and keeps
  // interrupts off: not in it; prev dealt with; next is current, prev not yet
  // finished. Task -1 is the idle task.
  datatype Phase = Outside | Choosing | Switching(prev: int)

  datatype Cpu = Cpu(queue: set<int>, curr: int, phase: Phase, wakelist: set<int>)

  datatype State = State(tasks: seq<Task>, cpus: seq<Cpu>)

  datatype Action =
    | SetState(c: nat, sleep: bool)
    | SchedStart(c: nat, preempt: bool, signal: bool)
    | SchedPick(c: nat, next: int)
    | SchedFinish(c: nat)
    | Match(p: nat)
    | WakeRunnable(p: nat)
    | Claim(p: nat)
    | QueueOnOwnCpu(p: nat)
    | Place(p: nat, cpu: nat)
    | QueueRemote(p: nat)
    | ActivateNow(p: nat)
    | Drain(c: nat, p: nat)
    | MigrateOut(p: nat, cpu: nat)
    | MigrateIn(p: nat)

  ghost predicate IsTask(s: State, p: int) { 0 <= p < |s.tasks| }
  ghost predicate IsCpu(s: State, c: int) { 0 <= c < |s.cpus| }

  ghost function SetTask(s: State, p: nat, t: Task): State
    requires p < |s.tasks|
  {
    s.(tasks := s.tasks[p := t])
  }

  ghost function SetCpu(s: State, c: nat, u: Cpu): State
    requires c < |s.cpus|
  {
    s.(cpus := s.cpus[c := u])
  }

  // The lock of the runqueue the task is accounted to is free.
  ghost predicate RqFree(s: State, p: nat)
    requires p < |s.tasks|
  {
    IsCpu(s, s.tasks[p].cpu) && s.cpus[s.tasks[p].cpu].phase == Outside
  }

  ghost predicate Enabled(s: State, a: Action) {
    match a
    case SetState(c, _) => IsCpu(s, c) && s.cpus[c].phase == Outside && IsTask(s, s.cpus[c].curr)
    case SchedStart(c, _, _) => IsCpu(s, c) && s.cpus[c].phase == Outside && -1 <= s.cpus[c].curr < |s.tasks|
    case SchedPick(c, next) =>
      IsCpu(s, c) && s.cpus[c].phase == Choosing
      && (next == -1 || (IsTask(s, next) && next in s.cpus[c].queue))
    case SchedFinish(c) => IsCpu(s, c) && s.cpus[c].phase.Switching? && -1 <= s.cpus[c].phase.prev < |s.tasks|
    case Match(p) => IsTask(s, p) && s.tasks[p].waker == Nobody && s.tasks[p].state == Sleeping
    case WakeRunnable(p) => IsTask(s, p) && s.tasks[p].waker == Matched && s.tasks[p].onRq == OnQueue && RqFree(s, p)
    case Claim(p) => IsTask(s, p) && s.tasks[p].waker == Matched && s.tasks[p].onRq == Off
    case QueueOnOwnCpu(p) =>
      IsTask(s, p) && s.tasks[p].waker == Claimed && s.tasks[p].onCpu && IsCpu(s, s.tasks[p].cpu)
    case Place(p, cpu) => IsTask(s, p) && s.tasks[p].waker == Claimed && !s.tasks[p].onCpu && IsCpu(s, cpu)
    case QueueRemote(p) => IsTask(s, p) && s.tasks[p].waker == Placed && IsCpu(s, s.tasks[p].cpu)
    case ActivateNow(p) => IsTask(s, p) && s.tasks[p].waker == Placed && RqFree(s, p)
    case Drain(c, p) => IsCpu(s, c) && IsTask(s, p) && p in s.cpus[c].wakelist && s.cpus[c].phase == Outside
    case MigrateOut(p, cpu) =>
      IsTask(s, p) && IsCpu(s, cpu) && RqFree(s, p) && s.tasks[p].onRq == OnQueue && !s.tasks[p].onCpu
    case MigrateIn(p) => IsTask(s, p) && s.tasks[p].onRq == Migrating && RqFree(s, p)
  }

  // Put p on the queue of the CPU it is accounted to, runnable.
  ghost function Enqueue(s: State, p: nat, t: Task): State
    requires p < |s.tasks| && t.cpu < |s.cpus|
  {
    SetCpu(SetTask(s, p, t.(onRq := OnQueue)), t.cpu,
           s.cpus[t.cpu].(queue := s.cpus[t.cpu].queue + {p}))
  }

  ghost function ToWakelist(s: State, p: nat): State
    requires p < |s.tasks| && s.tasks[p].cpu < |s.cpus|
  {
    var c := s.tasks[p].cpu;
    SetCpu(SetTask(s, p, s.tasks[p].(waker := Nobody)), c,
           s.cpus[c].(wakelist := s.cpus[c].wakelist + {p}))
  }

  // prev goes to sleep unless it was preempted, is runnable, or a signal is
  // pending, in which case its state is reset.
  ghost function DoSchedStart(s: State, c: nat, preempt: bool, signal: bool): State
    requires c < |s.cpus| && -1 <= s.cpus[c].curr < |s.tasks|
  {
    var u := s.cpus[c].(phase := Choosing);
    if u.curr == -1 || preempt || s.tasks[u.curr].state == Running then SetCpu(s, c, u)
    else if signal then SetCpu(SetTask(s, u.curr, s.tasks[u.curr].(state := Running)), c, u)
    else SetCpu(SetTask(s, u.curr, s.tasks[u.curr].(onRq := Off)), c, u.(queue := u.queue - {u.curr}))
  }

  ghost function DoSchedPick(s: State, c: nat, next: int): State
    requires c < |s.cpus| && -1 <= next < |s.tasks|
  {
    var u := s.cpus[c];
    if next == u.curr then SetCpu(s, c, u.(phase := Outside))
    else
      var s1 := SetCpu(s, c, u.(phase := Switching(u.curr), curr := next));
      if next == -1 then s1 else SetTask(s1, next, s.tasks[next].(onCpu := true))
  }

  ghost function DoSchedFinish(s: State, c: nat): State
    requires c < |s.cpus| && s.cpus[c].phase.Switching? && -1 <= s.cpus[c].phase.prev < |s.tasks|
  {
    var u, prev := s.cpus[c], s.cpus[c].phase.prev;
    var s1 := SetCpu(s, c, u.(phase := Outside));
    if prev == -1 then s1 else SetTask(s1, prev, s.tasks[prev].(onCpu := false))
  }

  ghost function Do(s: State, a: Action): State
    requires Enabled(s, a)
  {
    match a
    case SetState(c, sleep) =>
      var p := s.cpus[c].curr;
      SetTask(s, p, s.tasks[p].(state := if sleep then Sleeping else Running))
    case SchedStart(c, preempt, signal) => DoSchedStart(s, c, preempt, signal)
    case SchedPick(c, next) => DoSchedPick(s, c, next)
    case SchedFinish(c) => DoSchedFinish(s, c)
    case Match(p) => SetTask(s, p, s.tasks[p].(waker := Matched))
    case WakeRunnable(p) => SetTask(s, p, s.tasks[p].(waker := Nobody, state := Running))
    case Claim(p) => SetTask(s, p, s.tasks[p].(waker := Claimed, state := Waking))
    case QueueOnOwnCpu(p) => ToWakelist(s, p)
    case Place(p, cpu) => SetTask(s, p, s.tasks[p].(waker := Placed, cpu := cpu))
    case QueueRemote(p) => ToWakelist(s, p)
    case ActivateNow(p) => Enqueue(s, p, s.tasks[p].(state := Running, waker := Nobody))
    case Drain(c, p) =>
      var s1 := SetCpu(s, c, s.cpus[c].(wakelist := s.cpus[c].wakelist - {p}));
      Enqueue(s1, p, s.tasks[p].(state := Running, cpu := c))
    case MigrateOut(p, cpu) =>
      var c := s.tasks[p].cpu;
      SetCpu(SetTask(s, p, s.tasks[p].(onRq := Migrating, cpu := cpu)), c,
             s.cpus[c].(queue := s.cpus[c].queue - {p}))
    case MigrateIn(p) => Enqueue(s, p, s.tasks[p])
  }

  ghost predicate Next(s: State, a: Action, s': State) {
    Enabled(s, a) && s' == Do(s, a)
  }

  // Every task asleep, every CPU idle.
  ghost predicate Init(s: State) {
    && (forall p :: 0 <= p < |s.tasks| ==>
          s.tasks[p].state == Sleeping && s.tasks[p].onRq == Off && !s.tasks[p].onCpu
          && s.tasks[p].waker == Nobody && s.tasks[p].cpu < |s.cpus|)
    && (forall c :: 0 <= c < |s.cpus| ==> s.cpus[c] == Cpu({}, -1, Outside, {}))
  }

  // ---- Invariant ----

  // A task by itself: what its waker has seen stays true.
  ghost predicate TaskInv(s: State, p: int)
    requires IsTask(s, p)
  {
    var t := s.tasks[p];
    && IsCpu(s, t.cpu)
    && (t.waker == Matched ==> t.state != Waking)
    && (t.waker == Claimed || t.waker == Placed ==> t.state == Waking && t.onRq == Off)
    && (t.waker == Placed ==> !t.onCpu)
    && (t.state == Waking ==> t.onRq == Off)
    && (t.onRq == Migrating ==> !t.onCpu)
    && (t.onCpu ==> OnCpuAt(s, t.cpu, p))
  }

  // The CPU is running p, or is still switching away from it.
  ghost predicate OnCpuAt(s: State, c: nat, p: int)
    requires IsCpu(s, c)
  {
    s.cpus[c].curr == p || s.cpus[c].phase == Switching(p)
  }

  // A task seen from a CPU.
  ghost predicate PairInv(s: State, c: int, p: int)
    requires IsCpu(s, c) && IsTask(s, p)
  {
    var u, t := s.cpus[c], s.tasks[p];
    && (p in u.queue <==> t.onRq == OnQueue && t.cpu == c)
    && (u.curr == p ==> t.onCpu && t.cpu == c)
    && (u.curr == p && u.phase != Choosing ==> t.onRq == OnQueue)
    && (u.phase == Switching(p) ==> t.onCpu && t.cpu == c && u.curr != p)
    && (p in u.wakelist ==> t.state == Waking && t.cpu == c && t.waker == Nobody)
    && (p in u.wakelist && t.onCpu ==> u.phase != Outside)
  }

  ghost predicate CpuInv(s: State, c: int)
    requires IsCpu(s, c)
  {
    && -1 <= s.cpus[c].curr < |s.tasks|
    && (s.cpus[c].phase.Switching? ==> -1 <= s.cpus[c].phase.prev < |s.tasks|)
  }

  ghost predicate Inv(s: State) {
    && (forall p :: IsTask(s, p) ==> TaskInv(s, p))
    && (forall c :: IsCpu(s, c) ==> CpuInv(s, c))
    && (forall c, p :: IsCpu(s, c) && IsTask(s, p) ==> PairInv(s, c, p))
  }

  lemma InitInv(s: State)
    requires Init(s)
    ensures Inv(s)
  {
  }

  // The task a CPU is running between calls of __schedule is on its queue.
  lemma CurrentIsQueued(s: State, c: nat)
    requires Inv(s) && IsCpu(s, c) && s.cpus[c].phase == Outside && IsTask(s, s.cpus[c].curr)
    ensures s.tasks[s.cpus[c].curr].onRq == OnQueue && s.tasks[s.cpus[c].curr].cpu == c
  {
    assert PairInv(s, c, s.cpus[c].curr);
  }

  // The actions of __schedule, as against those of a waker or a migration.
  ghost predicate Scheduling(a: Action) {
    a.SetState? || a.SchedStart? || a.SchedPick? || a.SchedFinish?
  }

  lemma ScheduleKeepsTask(s: State, a: Action, s': State, p: int)
    requires Inv(s) && Next(s, a, s') && Scheduling(a) && IsTask(s', p)
    ensures TaskInv(s', p)
  {
    match a {
      case SetState(c, _) => CurrentIsQueued(s, c);
      case SchedStart(c, _, _) => if s.cpus[c].curr != -1 { CurrentIsQueued(s, c); }
      case _ =>
    }
    assert TaskInv(s, p);
  }

  lemma WakeKeepsTask(s: State, a: Action, s': State, p: int)
    requires Inv(s) && Next(s, a, s') && !Scheduling(a) && IsTask(s', p)
    ensures TaskInv(s', p)
  {
    if a.Drain? { assert PairInv(s, a.c, a.p); }
    assert TaskInv(s, p);
  }

  lemma StartKeepsPair(s: State, a: Action, s': State, c: int, p: int)
    requires Inv(s) && Next(s, a, s') && (a.SetState? || a.SchedStart?) && IsCpu(s', c) && IsTask(s', p)
    ensures PairInv(s', c, p)
  {
    assert CpuInv(s, a.c);
    if s.cpus[a.c].curr != -1 { CurrentIsQueued(s, a.c); }
    assert PairInv(s, c, p) && TaskInv(s, p);
  }

  lemma SwitchKeepsPair(s: State, a: Action, s': State, c: int, p: int)
    requires Inv(s) && Next(s, a, s') && (a.SchedPick? || a.SchedFinish?) && IsCpu(s', c) && IsTask(s', p)
    ensures PairInv(s', c, p)
  {
    var q := if a.SchedPick? then a.next else s.cpus[a.c].phase.prev;
    if q != -1 { assert PairInv(s, a.c, q); }
    assert PairInv(s, c, p) && TaskInv(s, p);
  }

  // Claiming and placing a task that is off every queue.
  lemma WakerKeepsPair(s: State, a: Action, s': State, c: int, p: int)
    requires Inv(s) && Next(s, a, s') && IsCpu(s', c) && IsTask(s', p)
    requires a.Match? || a.WakeRunnable? || a.Claim? || a.QueueOnOwnCpu? || a.Place? || a.QueueRemote?
    ensures PairInv(s', c, p)
  {
    assert PairInv(s, c, p) && TaskInv(s, p);
  }

  lemma EnqueueKeepsPair(s: State, a: Action, s': State, c: int, p: int)
    requires Inv(s) && Next(s, a, s') && IsCpu(s', c) && IsTask(s', p)
    requires a.ActivateNow? || a.Drain? || a.MigrateOut? || a.MigrateIn?
    ensures PairInv(s', c, p)
  {
    if a.Drain? { assert PairInv(s, a.c, a.p); }
    assert PairInv(s, c, p) && TaskInv(s, p);
  }

  lemma PairKept(s: State, a: Action, s': State, c: int, p: int)
    requires Inv(s) && Next(s, a, s') && IsCpu(s', c) && IsTask(s', p)
    ensures PairInv(s', c, p)
  {
    if a.SetState? || a.SchedStart? {
      StartKeepsPair(s, a, s', c, p);
    } else if Scheduling(a) {
      SwitchKeepsPair(s, a, s', c, p);
    } else if a.ActivateNow? || a.Drain? || a.MigrateOut? || a.MigrateIn? {
      EnqueueKeepsPair(s, a, s', c, p);
    } else {
      WakerKeepsPair(s, a, s', c, p);
    }
  }

  lemma StepInv(s: State, a: Action, s': State)
    requires Inv(s) && Next(s, a, s')
    ensures Inv(s')
  {
    forall p | IsTask(s', p) ensures TaskInv(s', p) {
      if Scheduling(a) { ScheduleKeepsTask(s, a, s', p); } else { WakeKeepsTask(s, a, s', p); }
    }
    forall c, p | IsCpu(s', c) && IsTask(s', p) ensures PairInv(s', c, p) {
      PairKept(s, a, s', c, p);
    }
    forall c | IsCpu(s', c) ensures CpuInv(s', c) {
      assert CpuInv(s, c);
    }
  }

  // ---- Every run ----

  ghost predicate Run(ss: seq<State>, acts: seq<Action>) {
    && |ss| == |acts| + 1
    && Init(ss[0])
    && forall i :: 0 <= i < |acts| ==> Next(ss[i], acts[i], ss[i + 1])
  }

  lemma {:induction false} RunInv(ss: seq<State>, acts: seq<Action>, n: nat)
    requires Run(ss, acts) && n < |ss|
    ensures Inv(ss[n])
  {
    if n == 0 {
      InitInv(ss[0]);
    } else {
      RunInv(ss, acts, n - 1);
      StepInv(ss[n - 1], acts[n - 1], ss[n - 1 + 1]);
    }
  }

  // A task is on at most one runqueue, and runs on at most one CPU.
  lemma OneQueueOneCpu(ss: seq<State>, acts: seq<Action>, n: nat, p: int, c: int, d: int)
    requires Run(ss, acts) && n < |ss| && IsTask(ss[n], p) && IsCpu(ss[n], c) && IsCpu(ss[n], d)
    ensures p in ss[n].cpus[c].queue && p in ss[n].cpus[d].queue ==> c == d
    ensures OnCpuAt(ss[n], c, p) && OnCpuAt(ss[n], d, p) ==> c == d
    ensures p in ss[n].cpus[c].wakelist && p in ss[n].cpus[d].wakelist ==> c == d
  {
    RunInv(ss, acts, n);
    assert PairInv(ss[n], c, p) && PairInv(ss[n], d, p);
  }

  // Draining a wakelist never finds a task whose on_cpu is still set or that is
  // accounted elsewhere: neither warning of sched_ttwu_pending can fire.
  lemma DrainFindsTaskOff(ss: seq<State>, acts: seq<Action>, n: nat, c: nat, p: nat)
    requires Run(ss, acts) && n < |acts| && acts[n] == Drain(c, p)
    ensures p < |ss[n].tasks|
    ensures !ss[n].tasks[p].onCpu && ss[n].tasks[p].cpu == c && ss[n].tasks[p].onRq == Off
  {
    RunInv(ss, acts, n);
    assert Next(ss[n], acts[n], ss[n + 1]);
    assert PairInv(ss[n], c, p) && TaskInv(ss[n], p);
  }

  // Whatever puts a task on a runqueue that was off it finds on_cpu clear.
  lemma ActivatedOnlyOffCpu(ss: seq<State>, acts: seq<Action>, n: nat, p: nat)
    requires Run(ss, acts) && n < |acts| && p < |ss[n].tasks| == |ss[n + 1].tasks|
    requires ss[n].tasks[p].onRq != OnQueue && ss[n + 1].tasks[p].onRq == OnQueue
    ensures !ss[n].tasks[p].onCpu && !ss[n + 1].tasks[p].onCpu
  {
    RunInv(ss, acts, n);
    var s := ss[n];
    assert Next(s, acts[n], ss[n + 1]) && TaskInv(s, p);
    match acts[n] {
      case Drain(c, q) => assert PairInv(s, c, q);
      case _ =>
    }
  }

  // A wake-up in progress is never lost: a task in TASK_WAKING is off every queue
  // and either on the wakelist of its own CPU, to be drained there, or in the
  // hands of the one waker.
  ghost predicate WakingAccounted(s: State) {
    forall p :: IsTask(s, p) && s.tasks[p].state == Waking ==> WakingAt(s, p)
  }

  ghost predicate WakingAt(s: State, p: int)
    requires IsTask(s, p)
  {
    var t := s.tasks[p];
    t.waker == Claimed || t.waker == Placed || (IsCpu(s, t.cpu) && p in s.cpus[t.cpu].wakelist)
  }

  lemma {:induction false} WakeNeverLost(ss: seq<State>, acts: seq<Action>, n: nat)
    requires Run(ss, acts) && n < |ss|
    ensures WakingAccounted(ss[n])
  {
    if n > 0 {
      var s, a, s' := ss[n - 1], acts[n - 1], ss[n - 1 + 1];
      WakeNeverLost(ss, acts, n - 1);
      RunInv(ss, acts, n - 1);
      assert Next(s, a, s');
      forall p | IsTask(s', p) && s'.tasks[p].state == Waking ensures WakingAt(s', p) {
        WakingKept(s, a, s', p);
      }
    }
  }

  lemma WakingKept(s: State, a: Action, s': State, p: int)
    requires Inv(s) && WakingAccounted(s) && Next(s, a, s') && IsTask(s', p) && s'.tasks[p].state == Waking
    ensures WakingAt(s', p)
  {
    assert TaskInv(s, p);
    assert s.tasks[p].state == Waking ==> WakingAt(s, p);
  }

  // ---- A finished wake-up is not undone ----

  // The action that ends a wake-up of p.
  ghost predicate Completes(a: Action, p: int) {
    (a.WakeRunnable? || a.ActivateNow? || a.Drain?) && a.p == p
  }

  // It leaves p running and on the queue of its own CPU, whichever way it went.
  lemma WakeCompletes(s: State, a: Action, s': State, p: nat)
    requires Inv(s) && Next(s, a, s') && Completes(a, p)
    ensures IsTask(s', p) && IsCpu(s', s'.tasks[p].cpu)
    ensures s'.tasks[p].state == Running && s'.tasks[p].onRq == OnQueue && s'.tasks[p].waker == Nobody
    ensures p in s'.cpus[s'.tasks[p].cpu].queue
    ensures forall c :: IsCpu(s', c) ==> p !in s'.cpus[c].wakelist
  {
    StepInv(s, a, s');
    if a.Drain? { assert PairInv(s, a.c, p); }
    assert TaskInv(s', p);
    assert PairInv(s', s'.tasks[p].cpu, p);
    forall c | IsCpu(s', c) ensures p !in s'.cpus[c].wakelist {
      assert PairInv(s', c, p);
    }
  }

  // p, being current, declares that it is about to sleep.
  ghost predicate Declares(s: State, a: Action, p: int) {
    a.SetState? && a.sleep && IsCpu(s, a.c) && s.cpus[a.c].curr == p
  }

  // p has declared so and nobody has woken it since.
  ghost predicate AsleepSince(ss: seq<State>, acts: seq<Action>, n: nat, p: int)
    requires n <= |acts| < |ss|
  {
    exists i :: 0 <= i < n && Declares(ss[i], acts[i], p) && Unwoken(acts, i, n, p)
  }

  ghost predicate Unwoken(acts: seq<Action>, i: nat, n: nat, p: int)
    requires n <= |acts|
  {
    forall j :: i < j < n ==> !Completes(acts[j], p)
  }

  // Still queued, or on the way to another queue, although not runnable.
  ghost predicate Dozing(s: State, p: int) {
    IsTask(s, p) && s.tasks[p].state != Running && s.tasks[p].onRq != Off
  }

  lemma DozingStep(s: State, a: Action, s': State, p: int)
    requires Inv(s) && Next(s, a, s') && Dozing(s', p)
    ensures Declares(s, a, p) || (Dozing(s, p) && !Completes(a, p))
  {
    assert IsTask(s, p) && TaskInv(s, p);
  }

  ghost predicate DozeLog(ss: seq<State>, acts: seq<Action>, p: int) {
    && |ss| == |acts| + 1 && !Dozing(ss[0], p)
    && forall i :: 0 <= i < |acts| ==> DozesOn(ss[i], acts[i], ss[i + 1], p)
  }

  ghost predicate DozesOn(s: State, a: Action, s': State, p: int) {
    Dozing(s', p) ==> Declares(s, a, p) || (Dozing(s, p) && !Completes(a, p))
  }

  lemma RunDozes(ss: seq<State>, acts: seq<Action>, p: int)
    requires Run(ss, acts)
    ensures DozeLog(ss, acts, p)
  {
    forall i | 0 <= i < |acts| ensures DozesOn(ss[i], acts[i], ss[i + 1], p) {
      RunInv(ss, acts, i);
      assert Next(ss[i], acts[i], ss[i + 1]);
      if Dozing(ss[i + 1], p) { DozingStep(ss[i], acts[i], ss[i + 1], p); }
    }
  }

  lemma {:induction false} DozingSince(ss: seq<State>, acts: seq<Action>, n: nat, p: int)
    requires DozeLog(ss, acts, p) && n <= |acts| && Dozing(ss[n], p)
    ensures AsleepSince(ss, acts, n, p)
  {
    if n > 0 {
      assert DozesOn(ss[n - 1], acts[n - 1], ss[n - 1 + 1], p);
      if Declares(ss[n - 1], acts[n - 1], p) {
        assert Unwoken(acts, n - 1, n, p);
      } else {
        DozingSince(ss, acts, n - 1, p);
        var i :| 0 <= i < n - 1 && Declares(ss[i], acts[i], p) && Unwoken(acts, i, n - 1, p);
        assert Unwoken(acts, i, n, p);
      }
    }
  }

  // __schedule takes the current task off its queue exactly when it was not
  // preempted, is not runnable and no signal is pending.
  lemma SleepsIff(s: State, c: nat, preempt: bool, signal: bool, s': State)
    requires Inv(s) && Next(s, SchedStart(c, preempt, signal), s') && IsTask(s, s.cpus[c].curr)
    ensures var p := s.cpus[c].curr;
            && IsTask(s', p) && IsCpu(s', c) && s.tasks[p].onRq == OnQueue
            && (s'.tasks[p].onRq == Off <==> !preempt && !signal && s.tasks[p].state != Running)
            && (p in s'.cpus[c].queue <==> s'.tasks[p].onRq == OnQueue)
  {
    CurrentIsQueued(s, c);
    StepInv(s, SchedStart(c, preempt, signal), s');
    assert PairInv(s', c, s.cpus[c].curr);
  }

  // When __schedule puts a task to sleep, no wake-up of it has completed since it
  // last declared that it would.
  lemma NoWakeupUndone(ss: seq<State>, acts: seq<Action>, n: nat, p: int)
    requires Run(ss, acts) && n < |acts| && IsTask(ss[n], p) && IsTask(ss[n + 1], p)
    requires ss[n].tasks[p].onRq == OnQueue && ss[n + 1].tasks[p].onRq == Off
    ensures AsleepSince(ss, acts, n, p)
  {
    RunInv(ss, acts, n);
    assert Next(ss[n], acts[n], ss[n + 1]);
    RunDozes(ss, acts, p);
    LeavesDozing(ss[n], acts[n], ss[n + 1], p);
    DozingSince(ss, acts, n, p);
  }

  lemma LeavesDozing(s: State, a: Action, s': State, p: int)
    requires Inv(s) && Next(s, a, s') && IsTask(s, p) && IsTask(s', p)
    requires s.tasks[p].onRq == OnQueue && s'.tasks[p].onRq == Off
    ensures Dozing(s, p)
  {
  }

  // ---- What changes a task, and nothing else does ----

  // p, being current, calls off its sleep, or __schedule does for a pending signal.
  ghost predicate CallsOff(s: State, a: Action, p: int) {
    || (a.SetState? && !a.sleep && IsCpu(s, a.c) && s.cpus[a.c].curr == p)
    || (a.SchedStart? && !a.preempt && a.signal && IsCpu(s, a.c) && s.cpus[a.c].curr == p)
  }

  // The state is the last word of the task itself, a signal, or its waker.
  lemma StateAfter(s: State, a: Action, s': State, p: int)
    requires Next(s, a, s') && IsTask(s, p)
    ensures IsTask(s', p)
    ensures s'.tasks[p].state == if Declares(s, a, p) then Sleeping
                                 else if Completes(a, p) || CallsOff(s, a, p) then Running
                                 else if a.Claim? && a.p == p then Waking
                                 else s.tasks[p].state
  {
  }

  // p goes to sleep in __schedule.
  ghost predicate FallsAsleep(s: State, a: Action, p: int) {
    && a.SchedStart? && !a.preempt && !a.signal && IsCpu(s, a.c) && s.cpus[a.c].curr == p
    && IsTask(s, p) && s.tasks[p].state != Running
  }

  // A task joins a queue when it has been woken or migrated, and leaves it to sleep
  // or to migrate.
  lemma OnRqAfter(s: State, a: Action, s': State, p: int)
    requires Next(s, a, s') && IsTask(s, p)
    ensures IsTask(s', p)
    ensures s'.tasks[p].onRq == if Completes(a, p) || (a.MigrateIn? && a.p == p) then OnQueue
                                else if a.MigrateOut? && a.p == p then Migrating
                                else if FallsAsleep(s, a, p) then Off
                                else s.tasks[p].onRq
  {
  }

  // A task changes CPU only when its waker places it or a migration takes it there.
  lemma CpuAfter(s: State, a: Action, s': State, p: int)
    requires Inv(s) && Next(s, a, s') && IsTask(s, p)
    ensures IsTask(s', p)
    ensures s'.tasks[p].cpu == if (a.Place? || a.MigrateOut?) && a.p == p then a.cpu else s.tasks[p].cpu
  {
    if a.Drain? { assert PairInv(s, a.c, a.p); }
  }

  // How far a waker has got.
  lemma WakerAfter(s: State, a: Action, s': State, p: int)
    requires Inv(s) && Next(s, a, s') && IsTask(s, p)
    ensures IsTask(s', p)
    ensures s'.tasks[p].waker == if a.Match? && a.p == p then Matched
                                 else if a.Claim? && a.p == p then Claimed
                                 else if a.Place? && a.p == p then Placed
                                 else if Completes(a, p) || ((a.QueueOnOwnCpu? || a.QueueRemote?) && a.p == p) then Nobody
                                 else s.tasks[p].waker
  {
    if a.Drain? { assert PairInv(s, a.c, a.p) && TaskInv(s, a.p); }
  }

  // __schedule ends with the task it chose as the CPU's current one, on the CPU and
  // on its queue; it has left the critical section unless prev has to be finished.
  lemma PickRuns(s: State, c: nat, next: int, s': State)
    requires Inv(s) && Next(s, SchedPick(c, next), s')
    ensures IsCpu(s', c) && s'.cpus[c].curr == next
    ensures s'.cpus[c].phase == if next == s.cpus[c].curr then Outside else Switching(s.cpus[c].curr)
    ensures next != -1 ==> IsTask(s', next) && s'.tasks[next].onCpu && next in s'.cpus[c].queue
  {
    if next != -1 { assert PairInv(s, c, next); }
  }

  // finish_task lets go of prev, which then no CPU runs, and of nobody else.
  lemma FinishFrees(s: State, c: nat, s': State, p: int)
    requires Inv(s) && Next(s, SchedFinish(c), s') && IsTask(s, p)
    ensures IsTask(s', p) && IsCpu(s', c) && s'.cpus[c].phase == Outside
    ensures s'.tasks[p].onCpu == (s.tasks[p].onCpu && p != s.cpus[c].phase.prev)
    ensures !s'.tasks[p].onCpu ==> forall d :: IsCpu(s', d) ==> !OnCpuAt(s', d, p)
  {
    StepInv(s, SchedFinish(c), s');
    forall d | IsCpu(s', d) && !s'.tasks[p].onCpu ensures !OnCpuAt(s', d, p) {
      assert PairInv(s', d, p);
    }
  }
}
