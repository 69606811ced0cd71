// Changing a task's CPU affinity while it may run, sleep, migrate or be
// migration-disabled: the protocol around the shared on-stack pending record.
// Every section run under the task's and the runqueue's lock is one action.
module Affinity {

  import opened Options

  // Where a record's stop work is: not in use, about to be queued on a CPU by the
  // caller that set stop_pending, about to be queued on the task's CPU by a
  // stopper that missed it, or queued.
  datatype StopWork = NotInUse | Launching(on: nat) | Chasing | Queued(on: nat)

  // struct set_affinity_pending; completing says that somebody has uninstalled
  // the record and still has to call complete_all on it.
  datatype Record = Record(refs: nat, stopPending: bool, done: bool, dest: nat, stop: StopWork, completing: bool)

  // A caller of set_cpus_allowed_ptr: blocked on a record's completion, owner
  // blocked until its own record has no references, or gone.
  datatype Caller = Waiting(record: nat) | Draining | Returned

  // The target task. pin is what cpus_ptr points at instead of cpus_mask;
  // enabling marks the preemption-disabled stretch of migrate_enable between
  // resetting cpus_ptr and clearing migration_disabled.
  datatype Task = Task(cpu: nat, queued: bool, running: bool, waking: bool,
                       mask: set<nat>, pin: Option<nat>, disabled: nat, enabling: bool,
                       pending: Option<nat>)

  // A caller's number is also the number of the record on its stack.
  datatype State = State(task: Task, records: map<nat, Record>, callers: map<nat, Caller>)

  datatype Action =
    | Request(caller: nat, self: bool, mask: set<nat>, dest: nat)
    | MigrateDisable
    | MigrateEnable
    | FinishEnable
    | SchedOut(block: bool)
    | SchedIn
    | Wake(cpu: nat)
    | Activate
    | Balance(cpu: nat)
    | Launch(record: nat)
    | Stopper(record: nat)
    | Complete(record: nat)
    | SeeDone(caller: nat)
    | Return(caller: nat)

  // The CPUs *cpus_ptr allows.
  ghost function InForce(p: Task): set<nat> {
    if p.pin.Some? then {p.pin.value} else p.mask
  }

  ghost predicate Enabled(s: State, a: Action) {
    var p := s.task;
    match a
    case Request(c, self, mask, dest) => c !in s.callers && dest in mask && (self ==> p.running)
    case MigrateDisable => p.running && !p.enabling
    case MigrateEnable => p.running && !p.enabling && p.disabled > 0
    case FinishEnable => p.enabling
    case SchedOut(_) => p.running && !p.enabling
    case SchedIn => p.queued && !p.running
    case Wake(cpu) => !p.queued && !p.running && !p.waking && cpu in InForce(p)
    case Activate => p.waking
    case Balance(cpu) => p.queued && !p.running && cpu in InForce(p)
    case Launch(r) => r in s.records && (s.records[r].stop.Launching? || s.records[r].stop.Chasing?)
    case Stopper(r) => r in s.records && s.records[r].stop.Queued? && !(p.running && p.cpu == s.records[r].stop.on)
    case Complete(r) => r in s.records && s.records[r].completing
    case SeeDone(c) => c in s.callers && s.callers[c].Waiting? && s.callers[c].record in s.records
                       && s.records[s.callers[c].record].done && s.records[s.callers[c].record].refs > 0
    case Return(c) => c in s.callers && s.callers[c].Draining? && c in s.records && s.records[c].refs == 0
  }

  // ---- The locked sections ----

  ghost function Uninstall(s: State, r: nat): State
    requires r in s.records
  {
    s.(task := s.task.(pending := None), records := s.records[r := s.records[r].(completing := true)])
  }

  // Set stop_pending and promise to queue the work, unless somebody already has.
  ghost function Punt(s: State, r: nat): State
    requires r in s.records
  {
    if s.records[r].stopPending then s
    else s.(records := s.records[r := s.records[r].(stopPending := true, stop := Launching(s.task.cpu))])
  }

  ghost function StopDone(s: State, r: nat): State
    requires r in s.records
  {
    s.(records := s.records[r := s.records[r].(stopPending := false, stop := NotInUse)])
  }

  // Complete now if there are waiters but no stop work.
  ghost function SettleIfIdle(s: State): State
    requires PendingKnown(s)
  {
    if s.task.pending.Some? && !s.records[s.task.pending.value].stopPending
    then Uninstall(s, s.task.pending.value) else s
  }

  ghost predicate PendingKnown(s: State) {
    s.task.pending.Some? ==> s.task.pending.value in s.records
  }

  // Install the caller's own record.
  ghost function Install(s: State, c: nat, dest: nat): State {
    State(s.task.(pending := Some(c)),
          s.records[c := Record(1, false, false, dest, NotInUse, false)],
          s.callers[c := Waiting(c)])
  }

  // Take a reference on the record already installed.
  ghost function Share(s: State, r: nat, c: nat, dest: nat): State
    requires r in s.records
  {
    State(s.task,
          s.records[r := s.records[r].(refs := s.records[r].refs + 1, dest := dest)],
          s.callers[c := Waiting(r)])
  }

  ghost function Join(s: State, c: nat, dest: nat): State
    requires PendingKnown(s)
  {
    if s.task.pending.None? then Install(s, c, dest) else Share(s, s.task.pending.value, c, dest)
  }

  // The rest of affine_move_task, with a record installed.
  ghost function Move(s: State, dest: nat): State
    requires s.task.pending.Some? && PendingKnown(s)
  {
    var p, r := s.task, s.task.pending.value;
    if p.running || p.waking then Punt(s, r)
    else if p.disabled > 0 then s
    else
      var s1 := s.(task := if p.queued then p.(cpu := dest) else p);
      if s.records[r].stopPending then s1 else Uninstall(s1, r)
  }

  ghost function DoRequest(s: State, c: nat, self: bool, mask: set<nat>, dest: nat): State
    requires PendingKnown(s)
  {
    var p := s.task;
    if mask == p.mask || (self && p.disabled > 0 && p.cpu !in mask) then
      s.(callers := s.callers[c := Returned])
    else
      var s1 := s.(task := p.(mask := mask));
      if p.cpu in mask then
        var s2 := SettleIfIdle(s1);
        s2.(callers := s2.callers[c := Returned])
      else
        Move(Join(s1, c, dest), dest)
  }

  ghost function DoEnable(s: State): State
    requires PendingKnown(s)
  {
    var p := s.task;
    if p.disabled != 1 then s.(task := p.(disabled := if p.disabled > 1 then p.disabled - 1 else 0))
    else if p.pin.None? then s.(task := p.(disabled := 0))
    else
      var s1 := s.(task := p.(pin := None, enabling := true));
      if p.cpu in p.mask then SettleIfIdle(s1)
      else if p.pending.None? then s1
      else Punt(s1, p.pending.value)
  }

  ghost function DoStopper(s: State, r: nat): State
    requires r in s.records && s.records[r].stop.Queued?
  {
    var p := s.task;
    if p.cpu == s.records[r].stop.on then
      if p.disabled > 0 then StopDone(s, r)
      else
        var s1 := StopDone(Uninstall(s, r), r);
        if p.cpu !in p.mask && p.queued && s.records[r].dest in InForce(p)
        then s1.(task := s1.task.(cpu := s.records[r].dest)) else s1
    else if p.cpu in InForce(p) then StopDone(Uninstall(s, r), r)
    else s.(records := s.records[r := s.records[r].(stop := Chasing)])
  }

  ghost function DoSeeDone(s: State, c: nat): State
    requires c in s.callers && s.callers[c].Waiting? && s.callers[c].record in s.records
    requires s.records[s.callers[c].record].refs > 0
  {
    var r := s.callers[c].record;
    s.(records := s.records[r := s.records[r].(refs := s.records[r].refs - 1)],
       callers := s.callers[c := if c == r then Draining else Returned])
  }

  ghost function Do(s: State, a: Action): State
    requires PendingKnown(s) && Enabled(s, a)
  {
    var p := s.task;
    match a
    case Request(c, self, mask, dest) => DoRequest(s, c, self, mask, dest)
    case MigrateDisable => s.(task := p.(disabled := p.disabled + 1))
    case MigrateEnable => DoEnable(s)
    case FinishEnable => s.(task := p.(enabling := false, disabled := 0))
    case SchedOut(block) =>
      s.(task := p.(running := false, queued := !block,
                    pin := if p.disabled > 0 && p.pin.None? then Some(p.cpu) else p.pin))
    case SchedIn => s.(task := p.(running := true))
    case Wake(cpu) => s.(task := p.(waking := true, cpu := cpu))
    case Activate => s.(task := p.(waking := false, queued := true))
    case Balance(cpu) => s.(task := p.(cpu := cpu))
    case Launch(r) =>
      s.(records := s.records[r := s.records[r].(stop :=
        Queued(if s.records[r].stop.Launching? then s.records[r].stop.on else p.cpu))])
    case Stopper(r) => DoStopper(s, r)
    case Complete(r) => s.(records := s.records[r := s.records[r].(done := true, completing := false)])
    case SeeDone(c) => DoSeeDone(s, c)
    case Return(c) => s.(callers := s.callers[c := Returned])
  }

  // A task asleep or queued or running on an allowed CPU, nobody changing anything.
  ghost predicate Init(s: State) {
    && s.records == map[] && s.callers == map[]
    && s.task.pending.None? && s.task.pin.None? && s.task.disabled == 0 && !s.task.enabling
    && !s.task.waking && s.task.cpu in s.task.mask
    && (s.task.running ==> s.task.queued)
  }

  ghost predicate Next(s: State, a: Action, s': State) {
    PendingKnown(s) && Enabled(s, a) && s' == Do(s, a)
  }

  // ---- Invariants ----

  ghost predicate TaskInv(p: Task) {
    && (p.pin.Some? ==> p.pin.value == p.cpu && p.disabled > 0 && !p.enabling)
    && (p.disabled > 0 && !p.running ==> p.pin.Some?)
    && (p.enabling ==> p.running && p.disabled == 1)
    && (p.running ==> p.queued)
    && (p.waking ==> !p.queued)
  }

  ghost function Waiters(s: State, r: nat): set<nat> {
    set c | c in s.callers && s.callers[c] == Waiting(r)
  }

  // One record and its owner: alive until the owner returns; while installed not
  // yet completed and not being completed; once uninstalled, one of the two.
  ghost predicate RecordInv(s: State, r: nat)
    requires r in s.records
  {
    var d := s.records[r];
    && r in s.callers
    && (s.callers[r] == Waiting(r) || s.callers[r] == Draining || s.callers[r] == Returned)
    && d.refs == |Waiters(s, r)|
    && (d.stopPending <==> d.stop != NotInUse)
    && (d.stopPending ==> s.task.pending == Some(r))
    && (s.task.pending == Some(r) ==> !d.done && !d.completing && s.callers[r] == Waiting(r))
    && (s.task.pending != Some(r) ==> d.done != d.completing)
    && (s.callers[r] != Waiting(r) ==> d.done)
    && (s.callers[r] == Returned ==> d.refs == 0)
  }

  // A caller waits only on a record that exists and whose owner is still there.
  ghost predicate CallerInv(s: State, c: nat)
    requires c in s.callers
  {
    match s.callers[c]
    case Waiting(r) => r in s.records && r in s.callers && s.callers[r] != Returned
    case Draining => c in s.records
    case Returned => true
  }

  // Either the task may stay where it is or its request says where it may go.
  ghost predicate DestInv(s: State) {
    s.task.pending.Some? && s.task.pending.value in s.records ==>
      s.task.cpu in s.task.mask || s.records[s.task.pending.value].dest in s.task.mask
  }

  // An installed request without stop work waits for the end of a pinned region.
  ghost predicate NotStranded(s: State) {
    s.task.pending.Some? && s.task.pending.value in s.records
    && s.records[s.task.pending.value].stop == NotInUse ==>
      s.task.disabled > 0 && s.task.pin.Some?
  }

  ghost predicate Core(s: State) {
    && TaskInv(s.task)
    && PendingKnown(s)
    && (forall r :: r in s.records ==> RecordInv(s, r))
    && (forall c :: c in s.callers ==> CallerInv(s, c))
  }

  ghost predicate Inv(s: State) {
    Core(s) && DestInv(s) && NotStranded(s)
  }

  lemma InitInv(s: State)
    requires Init(s)
    ensures Inv(s)
  {
  }

  // ---- What each locked section keeps ----

  lemma WaitersSame(s: State, s': State, c: nat)
    requires c in s'.callers && !s'.callers[c].Waiting? && (c in s.callers ==> !s.callers[c].Waiting?)
    requires s'.callers == s.callers[c := s'.callers[c]]
    ensures forall r :: Waiters(s', r) == Waiters(s, r)
  {
  }

  // A caller that did not wait and does not wait changes nothing for the records.
  lemma LeaveCore(s: State, c: nat)
    requires Core(s) && c !in s.callers
    ensures Core(s.(callers := s.callers[c := Returned]))
  {
    var s' := s.(callers := s.callers[c := Returned]);
    WaitersSame(s, s', c);
    forall r | r in s'.records ensures RecordInv(s', r) {
      assert RecordInv(s, r);
    }
    forall d | d in s'.callers ensures CallerInv(s', d) {
      if d != c { assert CallerInv(s, d); }
    }
  }

  // Rewriting one record, without touching callers.
  lemma RecordCore(s: State, s': State, r: nat)
    requires Core(s) && r in s.records && r in s'.records
    requires s'.callers == s.callers && s'.records == s.records[r := s'.records[r]]
    requires TaskInv(s'.task) && PendingKnown(s')
    requires s'.task.pending == s.task.pending || (s.task.pending == Some(r) && s'.task.pending == None)
    requires RecordInv(s', r)
    ensures Core(s')
  {
    assert forall q :: Waiters(s', q) == Waiters(s, q);
    forall q | q in s'.records ensures RecordInv(s', q) {
      assert RecordInv(s, q);
    }
    forall d | d in s'.callers ensures CallerInv(s', d) {
      assert CallerInv(s, d);
    }
  }

  // Changing only the task's own fields.
  lemma TaskCore(s: State, p: Task)
    requires Core(s) && TaskInv(p) && p.pending == s.task.pending
    ensures Core(s.(task := p))
  {
    var s' := s.(task := p);
    assert forall q :: Waiters(s', q) == Waiters(s, q);
    forall q | q in s'.records ensures RecordInv(s', q) {
      assert RecordInv(s, q);
    }
    forall d | d in s'.callers ensures CallerInv(s', d) {
      assert CallerInv(s, d);
    }
  }

  lemma UninstallCore(s: State, r: nat)
    requires Core(s) && r in s.records && s.task.pending == Some(r) && !s.records[r].stopPending
    ensures Core(Uninstall(s, r))
  {
    var s' := Uninstall(s, r);
    assert RecordInv(s, r);
    assert Waiters(s', r) == Waiters(s, r);
    RecordCore(s, s', r);
  }

  lemma PuntCore(s: State, r: nat)
    requires Core(s) && r in s.records && s.task.pending == Some(r)
    ensures Core(Punt(s, r))
  {
    var s' := Punt(s, r);
    assert RecordInv(s, r);
    assert Waiters(s', r) == Waiters(s, r);
    RecordCore(s, s', r);
  }

  lemma SettleCore(s: State)
    requires Core(s)
    ensures Core(SettleIfIdle(s))
  {
    if s.task.pending.Some? && !s.records[s.task.pending.value].stopPending {
      UninstallCore(s, s.task.pending.value);
    }
  }

  // A new caller waits on r and on nothing else.
  lemma NewWaiter(s: State, s': State, c: nat, r: nat)
    requires Core(s) && c !in s.callers && s'.callers == s.callers[c := Waiting(r)]
    ensures c !in s.records
    ensures c !in Waiters(s, r) && Waiters(s', r) == Waiters(s, r) + {c}
    ensures forall q :: q != r ==> Waiters(s', q) == Waiters(s, q)
    ensures r == c ==> Waiters(s, r) == {}
  {
    forall q | q in s.records ensures q in s.callers {
      assert RecordInv(s, q);
    }
    forall d | d in Waiters(s, r) ensures r in s.callers {
      assert CallerInv(s, d);
    }
  }

  lemma InstallCore(s: State, c: nat, dest: nat)
    requires Core(s) && c !in s.callers && s.task.pending.None?
    ensures Core(Install(s, c, dest))
  {
    var s' := Install(s, c, dest);
    NewWaiter(s, s', c, c);
    forall q | q in s'.records ensures RecordInv(s', q) {
      if q != c { assert RecordInv(s, q); }
    }
    forall d | d in s'.callers ensures CallerInv(s', d) {
      if d != c { assert CallerInv(s, d); }
    }
  }

  lemma ShareCore(s: State, r: nat, c: nat, dest: nat)
    requires Core(s) && c !in s.callers && r in s.records && s.task.pending == Some(r)
    ensures Core(Share(s, r, c, dest))
  {
    var s' := Share(s, r, c, dest);
    NewWaiter(s, s', c, r);
    forall q | q in s'.records ensures RecordInv(s', q) {
      assert RecordInv(s, q);
    }
    forall d | d in s'.callers ensures CallerInv(s', d) {
      if d != c { assert CallerInv(s, d); } else { assert RecordInv(s, r); }
    }
  }

  lemma JoinCore(s: State, c: nat, dest: nat)
    requires Core(s) && c !in s.callers
    ensures Core(Join(s, c, dest))
  {
    if s.task.pending.None? {
      InstallCore(s, c, dest);
    } else {
      ShareCore(s, s.task.pending.value, c, dest);
    }
  }

  lemma MoveCore(s: State, dest: nat)
    requires Core(s) && s.task.pending.Some?
    ensures Core(Move(s, dest))
  {
    var p, r := s.task, s.task.pending.value;
    if p.running || p.waking {
      PuntCore(s, r);
    } else if p.disabled == 0 {
      var p1 := if p.queued then p.(cpu := dest) else p;
      TaskCore(s, p1);
      if !s.records[r].stopPending {
        UninstallCore(s.(task := p1), r);
      }
    }
  }

  lemma RequestInv(s: State, c: nat, self: bool, mask: set<nat>, dest: nat)
    requires Inv(s) && c !in s.callers && dest in mask
    ensures Inv(DoRequest(s, c, self, mask, dest))
  {
    var p := s.task;
    if mask == p.mask || (self && p.disabled > 0 && p.cpu !in mask) {
      LeaveCore(s, c);
    } else {
      var s1 := s.(task := p.(mask := mask));
      TaskCore(s, s1.task);
      if p.cpu in mask {
        SettleCore(s1);
        LeaveCore(SettleIfIdle(s1), c);
      } else {
        JoinCore(s1, c, dest);
        MoveCore(Join(s1, c, dest), dest);
      }
    }
  }

  lemma EnableInv(s: State)
    requires Inv(s) && s.task.running && !s.task.enabling && s.task.disabled > 0
    ensures Inv(DoEnable(s))
  {
    var p := s.task;
    if p.disabled != 1 {
      TaskCore(s, p.(disabled := p.disabled - 1));
    } else if p.pin.None? {
      TaskCore(s, p.(disabled := 0));
    } else {
      var s1 := s.(task := p.(pin := None, enabling := true));
      TaskCore(s, s1.task);
      if p.cpu in p.mask {
        SettleCore(s1);
      } else if p.pending.Some? {
        PuntCore(s1, p.pending.value);
      }
    }
  }

  lemma StopperInv(s: State, r: nat)
    requires Inv(s) && Enabled(s, Stopper(r))
    ensures Inv(DoStopper(s, r))
  {
    var s' := DoStopper(s, r);
    assert RecordInv(s, r);
    assert Waiters(s', r) == Waiters(s, r);
    RecordCore(s, s', r);
  }

  lemma SeeDoneInv(s: State, c: nat)
    requires Inv(s) && Enabled(s, SeeDone(c))
    ensures Inv(DoSeeDone(s, c))
  {
    var s', r := DoSeeDone(s, c), s.callers[c].record;
    assert Waiters(s', r) == Waiters(s, r) - {c} && c in Waiters(s, r);
    assert forall q :: q != r ==> Waiters(s', q) == Waiters(s, q);
    assert CallerInv(s, c);
    forall q | q in s'.records ensures RecordInv(s', q) {
      assert RecordInv(s, q);
    }
    forall d | d in s'.callers ensures CallerInv(s', d) {
      assert CallerInv(s, d);
      if d == c { assert RecordInv(s, r); }
    }
  }

  lemma ReturnInv(s: State, c: nat)
    requires Inv(s) && Enabled(s, Return(c))
    ensures Inv(Do(s, Return(c)))
  {
    var s' := Do(s, Return(c));
    WaitersSame(s, s', c);
    assert RecordInv(s, c);
    forall q | q in s'.records ensures RecordInv(s', q) {
      assert RecordInv(s, q);
    }
    forall d | d in s'.callers ensures CallerInv(s', d) {
      assert CallerInv(s, d);
      assert d !in Waiters(s, c);
    }
  }

  // ---- Every run ----

  lemma StepInv(s: State, a: Action, s': State)
    requires Inv(s) && Next(s, a, s')
    ensures Inv(s')
  {
    match a
    case Request(c, self, mask, dest) => RequestInv(s, c, self, mask, dest);
    case MigrateEnable => EnableInv(s);
    case Stopper(r) => StopperInv(s, r);
    case SeeDone(c) => SeeDoneInv(s, c);
    case Return(c) => ReturnInv(s, c);
    case Launch(r) =>
      assert RecordInv(s, r) && Waiters(s', r) == Waiters(s, r);
      RecordCore(s, s', r);
    case Complete(r) =>
      assert RecordInv(s, r) && Waiters(s', r) == Waiters(s, r);
      RecordCore(s, s', r);
    case MigrateDisable => TaskCore(s, s'.task);
    case FinishEnable => TaskCore(s, s'.task);
    case SchedOut(_) => TaskCore(s, s'.task);
    case SchedIn => TaskCore(s, s'.task);
    case Wake(_) => TaskCore(s, s'.task);
    case Activate => TaskCore(s, s'.task);
    case Balance(_) => TaskCore(s, s'.task);
  }

  ghost predicate Run(ss: seq<State>, acts: seq<Action>) {
    && |ss| == |acts| + 1
    && Init(ss[0])
    && forall i :: 0 <= i < |acts| ==> Next(ss[i], acts[i], ss[i + 1])
  }

  lemma {:induction false} RunInv(ss: seq<State>, acts: seq<Action>, n: nat)
    requires Run(ss, acts) && n < |ss|
    ensures Inv(ss[n])
  {
    if n == 0 {
      InitInv(ss[0]);
    } else {
      RunInv(ss, acts, n - 1);
      StepInv(ss[n - 1], acts[n - 1], ss[n - 1 + 1]);
    }
  }

  // Whenever a stopper is about to run, its record is still installed and still
  // marked stop_pending: neither warning of the stopper can fire.
  lemma StopperFindsItsRecord(ss: seq<State>, acts: seq<Action>, n: nat, r: nat)
    requires Run(ss, acts) && n < |ss| && r in ss[n].records && ss[n].records[r].stop != NotInUse
    ensures ss[n].task.pending == Some(r) && ss[n].records[r].stopPending
  {
    RunInv(ss, acts, n);
    assert RecordInv(ss[n], r);
  }

  // When an owner returns, its record has no references, is uninstalled, has no
  // stop work and no outstanding completion, and nobody waits on it.
  lemma OwnerReturnsLast(ss: seq<State>, acts: seq<Action>, n: nat, r: nat)
    requires Run(ss, acts) && n < |acts| && acts[n] == Return(r)
    ensures r in ss[n].records
    ensures ss[n].records[r].refs == 0 && !ss[n].records[r].stopPending && ss[n].records[r].stop == NotInUse
    ensures !ss[n].records[r].completing && ss[n].task.pending != Some(r) && Waiters(ss[n], r) == {}
  {
    RunInv(ss, acts, n);
    assert Next(ss[n], acts[n], ss[n + 1]);
    assert RecordInv(ss[n], r);
  }

  // From then on no action reads or writes it: the record never changes again.
  lemma ReturnedRecordIsLeftAlone(ss: seq<State>, acts: seq<Action>, n: nat, r: nat)
    requires Run(ss, acts) && n < |acts|
    requires r in ss[n].records && r in ss[n].callers && ss[n].callers[r] == Returned
    ensures r in ss[n + 1].records && ss[n + 1].records[r] == ss[n].records[r]
    ensures r in ss[n + 1].callers && ss[n + 1].callers[r] == Returned
  {
    RunInv(ss, acts, n);
    assert Next(ss[n], acts[n], ss[n + 1]);
    ReturnedIsRetired(ss[n], r);
    ReturnedStays(ss[n], acts[n], ss[n + 1], r);
  }

  // A returned record is not installed, not being completed, without stop work,
  // and has no waiter; so none of the actions that write records picks it.
  ghost predicate Retired(s: State, r: nat) {
    && r in s.records && r in s.callers && s.callers[r] == Returned
    && s.task.pending != Some(r) && s.records[r].stop == NotInUse && !s.records[r].completing
    && forall c :: c in s.callers ==> s.callers[c] != Waiting(r)
  }

  ghost predicate LeftAlone(s: State, s': State, r: nat) {
    && r in s.records && r in s'.records && s'.records[r] == s.records[r]
    && r in s'.callers && s'.callers[r] == Returned
  }

  lemma ReturnedIsRetired(s: State, r: nat)
    requires Inv(s) && r in s.records && r in s.callers && s.callers[r] == Returned
    ensures Retired(s, r)
  {
    assert RecordInv(s, r);
    forall c | c in s.callers ensures s.callers[c] != Waiting(r) {
      assert CallerInv(s, c);
    }
  }

  lemma RequestLeavesAlone(s: State, a: Action, s': State, r: nat)
    requires Next(s, a, s') && a.Request? && Retired(s, r)
    ensures LeftAlone(s, s', r)
  {
  }

  lemma EnableLeavesAlone(s: State, a: Action, s': State, r: nat)
    requires Next(s, a, s') && a.MigrateEnable? && Retired(s, r)
    ensures LeftAlone(s, s', r)
  {
  }

  lemma ReturnedStays(s: State, a: Action, s': State, r: nat)
    requires Next(s, a, s') && Retired(s, r)
    ensures LeftAlone(s, s', r)
  {
    match a {
      case Request(_, _, _, _) => RequestLeavesAlone(s, a, s', r);
      case MigrateEnable => EnableLeavesAlone(s, a, s', r);
      case _ =>
    }
  }

  // ---- What changes, and when ----

  // The caller of the request is the task itself, migration-disabled, and asks to
  // leave its CPU: refused.
  ghost predicate Refused(s: State, a: Action) {
    a.Request? && a.self && s.task.disabled > 0 && s.task.cpu !in a.mask
  }

  // cpus_mask is always what the last request that was not refused asked for.
  lemma MaskAfter(s: State, a: Action, s': State)
    requires Next(s, a, s')
    ensures s'.task.mask == if a.Request? && !Refused(s, a) then a.mask else s.task.mask
  {
  }

  // A request or a stopper moves the task only away from a CPU that cpus_mask does
  // not allow, only while it is queued and not migration-disabled, and to the
  // destination asked for; otherwise only waking and balancing move it, and never
  // outside the mask in force.
  lemma MovesOnlyIf(s: State, a: Action, s': State)
    requires Inv(s) && Next(s, a, s') && s'.task.cpu != s.task.cpu
    ensures a.Wake? || a.Balance? || a.Request? || a.Stopper?
    ensures s.task.disabled == 0 && s'.task.cpu in InForce(s'.task)
    ensures a.Request? || a.Stopper? ==> s.task.queued && s.task.cpu !in s'.task.mask
    ensures a.Request? ==> s'.task.cpu == a.dest
    ensures a.Stopper? ==> a.record in s.records && s'.task.cpu == s.records[a.record].dest
  {
    if a.Stopper? { assert RecordInv(s, a.record); }
  }

  // The life of a record's stop work: promised for the CPU the task is on, queued
  // there, and when it runs either finished, or, if the task is elsewhere on a CPU
  // not allowed, sent after it.
  ghost predicate StopCycle(s: State, s': State, d: StopWork, d': StopWork) {
    match d
    case NotInUse => d' == NotInUse || d' == Launching(s.task.cpu)
    case Launching(on) => d' == d || d' == Queued(on)
    case Queued(on) =>
      || d' == d || d' == NotInUse
      || (d' == Chasing && s.task.cpu != on && s.task.cpu !in InForce(s.task))
    case Chasing => d' == d || d' == Queued(s.task.cpu)
  }

  lemma StopWorkCycle(s: State, a: Action, s': State, r: nat)
    requires Inv(s) && Next(s, a, s') && r in s.records
    ensures r in s'.records && StopCycle(s, s', s.records[r].stop, s'.records[r].stop)
    ensures a == Stopper(r) ==> s'.records[r].stop != s.records[r].stop
  {
    assert RecordInv(s, r);
  }

  // A request that allows the task's CPU leaves no waiter that nobody will serve.
  lemma AllowedRequestSettles(s: State, a: Action, s': State)
    requires Inv(s) && Next(s, a, s') && a.Request? && a.mask != s.task.mask && s.task.cpu in a.mask
    ensures s'.task.pending.Some? ==> s'.task.pending.value in s'.records && s'.records[s'.task.pending.value].stopPending
    ensures s.task.pending.Some? && s'.task.pending.None? ==>
              s.task.pending.value in s'.records && s'.records[s.task.pending.value].completing
    ensures a.caller in s'.callers && s'.callers[a.caller] == Returned
  {
  }

  // ---- Migration-disabled sections ----

  // How many sections the task is in after the first n actions: one more for each
  // migrate_disable, one less for each migrate_enable that has run to its end.
  ghost function Depth(ss: seq<State>, acts: seq<Action>, n: nat): int
    requires n <= |acts| < |ss|
  {
    if n == 0 then 0
    else Depth(ss, acts, n - 1) + Delta(acts[n - 1], ss[n])
  }

  ghost function Delta(a: Action, s': State): int {
    match a
    case MigrateDisable => 1
    case MigrateEnable => if s'.task.enabling then 0 else -1
    case FinishEnable => -1
    case _ => 0
  }

  // What a section keeps from one moment to the next.
  ghost predicate Stays(p: Task, q: Task) {
    p.cpu == q.cpu && (p.pin.Some? ==> q.pin == p.pin)
  }

  // What one action does to the count and, inside a section, to the task.
  ghost predicate Counts(s: State, a: Action, s': State) {
    && s'.task.disabled == s.task.disabled + Delta(a, s')
    && (a == MigrateDisable ==> !s'.task.enabling && Stays(s.task, s'.task))
    && (a == FinishEnable ==> s.task.enabling)
    && (s.task.disabled > 0 && !s.task.enabling && !(a == MigrateEnable && s.task.disabled == 1) ==>
          !s'.task.enabling && s'.task.disabled > 0 && Stays(s.task, s'.task))
  }

  lemma RequestCounts(s: State, a: Action, s': State)
    requires Inv(s) && Next(s, a, s') && a.Request?
    ensures Counts(s, a, s')
  {
  }

  lemma StepCounts(s: State, a: Action, s': State)
    requires Inv(s) && Next(s, a, s')
    ensures Counts(s, a, s')
  {
    if a.Request? { RequestCounts(s, a, s'); }
  }

  ghost predicate CountLog(ss: seq<State>, acts: seq<Action>) {
    && |ss| == |acts| + 1 && ss[0].task.disabled == 0
    && forall i :: 0 <= i < |acts| ==> Counts(ss[i], acts[i], ss[i + 1])
  }

  lemma RunCounts(ss: seq<State>, acts: seq<Action>)
    requires Run(ss, acts)
    ensures CountLog(ss, acts)
  {
    forall i | 0 <= i < |acts| ensures Counts(ss[i], acts[i], ss[i + 1]) {
      RunInv(ss, acts, i);
      StepCounts(ss[i], acts[i], ss[i + 1]);
    }
  }

  lemma {:induction false} LogCountsSections(ss: seq<State>, acts: seq<Action>, n: nat)
    requires CountLog(ss, acts) && n < |ss|
    ensures ss[n].task.disabled == Depth(ss, acts, n)
  {
    if n > 0 {
      LogCountsSections(ss, acts, n - 1);
      assert Counts(ss[n - 1], acts[n - 1], ss[n - 1 + 1]);
    }
  }

  // migration_disabled counts the open sections.
  lemma DisabledCountsSections(ss: seq<State>, acts: seq<Action>, n: nat)
    requires Run(ss, acts) && n < |ss|
    ensures ss[n].task.disabled == Depth(ss, acts, n)
  {
    RunCounts(ss, acts);
    LogCountsSections(ss, acts, n);
  }

  // Section i, opened by action i, is still open before action j: no
  // migrate_enable has been entered at its own level.
  ghost predicate Open(ss: seq<State>, acts: seq<Action>, i: nat, j: nat)
    requires i < j <= |acts| < |ss|
  {
    && acts[i] == MigrateDisable
    && forall k :: i < k < j && acts[k] == MigrateEnable ==> Depth(ss, acts, k) != Depth(ss, acts, i) + 1
  }

  lemma {:induction false} LogSectionHolds(ss: seq<State>, acts: seq<Action>, i: nat, h: nat, j: nat)
    requires CountLog(ss, acts) && i < h <= j <= |acts| && Open(ss, acts, i, j)
    ensures ss[i].task.cpu == ss[j].task.cpu && Stays(ss[h].task, ss[j].task)
    ensures ss[j].task.disabled > ss[i].task.disabled && !ss[j].task.enabling
    decreases j
  {
    var k := j - 1;
    assert Counts(ss[k], acts[k], ss[k + 1]);
    if k > i {
      LogCountsSections(ss, acts, i);
      LogCountsSections(ss, acts, k);
      LogSectionHolds(ss, acts, i, if h < j then h else k, k);
    }
  }

  // From a migrate_disable to its matching migrate_enable the task stays on its
  // CPU, and once pinned there stays pinned, whatever else happens and however
  // sections nest.
  lemma SectionHolds(ss: seq<State>, acts: seq<Action>, i: nat, h: nat, j: nat)
    requires Run(ss, acts) && i < h <= j <= |acts| && Open(ss, acts, i, j)
    ensures ss[i].task.cpu == ss[j].task.cpu && Stays(ss[h].task, ss[j].task)
    ensures ss[j].task.disabled > ss[i].task.disabled && !ss[j].task.enabling
  {
    RunCounts(ss, acts);
    LogSectionHolds(ss, acts, i, h, j);
  }

  // ---- No stranded waiter ----

  // An installed record without stop work belongs to a pinned region, and the
  // outermost migrate_enable that ends it completes the record or sends a stopper.
  lemma EnableServesWaiters(ss: seq<State>, acts: seq<Action>, n: nat)
    requires Run(ss, acts) && n < |acts| && acts[n] == MigrateEnable
    requires ss[n].task.disabled == 1 && ss[n].task.pending.Some?
    ensures var r := ss[n].task.pending.value;
            r in ss[n + 1].records && (ss[n + 1].records[r].completing || ss[n + 1].records[r].stop != NotInUse)
  {
    RunInv(ss, acts, n);
    var s, r := ss[n], ss[n].task.pending.value;
    assert Next(s, acts[n], ss[n + 1]);
    assert RecordInv(s, r);
  }

  lemma WaiterNeverStranded(ss: seq<State>, acts: seq<Action>, n: nat)
    requires Run(ss, acts) && n < |ss| && ss[n].task.pending.Some?
    ensures var r := ss[n].task.pending.value;
            r in ss[n].records
            && (ss[n].records[r].stop == NotInUse ==> ss[n].task.disabled > 0 && ss[n].task.pin.Some?)
  {
    RunInv(ss, acts, n);
  }

  // ---- Completion ----

  // The action takes r from installed to completed-to-be.
  ghost predicate Uninstalls(s: State, s': State, r: nat) {
    s.task.pending == Some(r) && s'.task.pending == None
  }

  // Completion is never decided while the task is queued on a CPU that the mask
  // in force does not allow.
  lemma CompletionRespectsMaskInForce(ss: seq<State>, acts: seq<Action>, n: nat, r: nat)
    requires Run(ss, acts) && n < |acts| && Uninstalls(ss[n], ss[n + 1], r)
    ensures ss[n + 1].task.queued ==> ss[n + 1].task.cpu in InForce(ss[n + 1].task)
  {
    RunInv(ss, acts, n);
    assert Next(ss[n], acts[n], ss[n + 1]);
    assert RecordInv(ss[n], r);
    match acts[n] {
      case Stopper(q) => assert RecordInv(ss[n], q);
      case _ =>
    }
  }

  // ---- What completion does not promise ----

  // Nobody is left on, or on the way to, a CPU outside cpus_mask without an
  // installed record that will see to it.
  ghost predicate Promise(s: State) {
    s.task.cpu !in s.task.mask && (s.task.queued || s.task.waking || s.task.pin.Some?) ==> s.task.pending.Some?
  }

  // The two completions that come too early: the chasing stopper accepts a task
  // pinned outside cpus_mask because it asks the mask in force, and the local
  // stopper accepts a task that is waking towards a CPU no longer allowed.
  ghost predicate Premature(s: State, a: Action) {
    && a.Stopper? && a.record in s.records && s.records[a.record].stop.Queued?
    && s.task.cpu !in s.task.mask
    && (if s.task.cpu == s.records[a.record].stop.on
        then s.task.disabled == 0 && s.task.waking
        else s.task.pin.Some?)
  }

  // Every action keeps the promise except exactly those two.
  lemma PromiseKeptIff(s: State, a: Action, s': State)
    requires Inv(s) && Promise(s) && Next(s, a, s')
    ensures Promise(s') <==> !Premature(s, a)
  {
    match a {
      case Stopper(r) => assert RecordInv(s, r);
      case _ =>
    }
  }

  // migrate_enable warns that it found no pending record.
  ghost predicate EnableWarns(s: State) {
    && s.task.running && !s.task.enabling && s.task.disabled == 1 && s.task.pin.Some?
    && s.task.cpu !in s.task.mask && s.task.pending.None?
  }

  // In a run without premature completions, that warning never fires.
  lemma {:induction false} NoPrematureNoWarning(ss: seq<State>, acts: seq<Action>, n: nat)
    requires Run(ss, acts) && n < |ss|
    requires forall i :: 0 <= i < n ==> !Premature(ss[i], acts[i])
    ensures Promise(ss[n]) && !EnableWarns(ss[n])
  {
    if n > 0 {
      NoPrematureNoWarning(ss, acts, n - 1);
      RunInv(ss, acts, n - 1);
      PromiseKeptIff(ss[n - 1], acts[n - 1], ss[n - 1 + 1]);
    }
  }

  // ---- A run that reaches the warning ----

  lemma Extend(ss: seq<State>, acts: seq<Action>, a: Action, s': State)
    requires Run(ss, acts) && Next(ss[|acts|], a, s')
    ensures Run(ss + [s'], acts + [a])
  {
    var ss', acts' := ss + [s'], acts + [a];
    forall i | 0 <= i < |acts'| ensures Next(ss'[i], acts'[i], ss'[i + 1]) {
      if i < |acts| {
        assert Next(ss[i], acts[i], ss[i + 1]);
      }
    }
  }

  // The task runs on CPU 0; request 1 restricts it to CPU 1 and queues a stopper
  // on CPU 0, but the task is preempted and moved to CPU 1 before that runs.
  lemma MovedBeforeStopper() returns (ss: seq<State>, acts: seq<Action>, s: State)
    ensures s == State(Task(1, true, false, false, {1}, None, 0, false, Some(1)),
                       map[1 := Record(1, true, false, 1, Queued(0), false)], map[1 := Waiting(1)])
    ensures Run(ss, acts) && ss[|acts|] == s
  {
    var p := Task(0, true, true, false, {0, 1}, None, 0, false, None);
    var d := Record(1, true, false, 1, Launching(0), false);
    s := State(p, map[], map[]);
    ss, acts := [s], [];
    assert Run(ss, acts);
    assert 0 in {0, 1} && 0 !in {1};
    var s1 := State(p.(mask := {1}, pending := Some(1)), map[1 := d], map[1 := Waiting(1)]);
    assert s1 == Do(s, Request(1, false, {1}, 1));
    Extend(ss, acts, Request(1, false, {1}, 1), s1);
    ss, acts := ss + [s1], acts + [Request(1, false, {1}, 1)];
    var s2 := s1.(records := map[1 := d.(stop := Queued(0))]);
    Extend(ss, acts, Launch(1), s2);
    ss, acts := ss + [s2], acts + [Launch(1)];
    var s3 := s2.(task := s2.task.(running := false));
    Extend(ss, acts, SchedOut(false), s3);
    ss, acts := ss + [s3], acts + [SchedOut(false)];
    s := s3.(task := s3.task.(cpu := 1));
    Extend(ss, acts, Balance(1), s);
    ss, acts := ss + [s], acts + [Balance(1)];
  }

  // There it runs, disables migration and is preempted, pinned to CPU 1; request
  // 2 now asks for CPU 0 and joins the same record.
  lemma PinnedThenRestricted() returns (ss: seq<State>, acts: seq<Action>, s: State)
    ensures s == State(Task(1, true, false, false, {0}, Some(1), 1, false, Some(1)),
                       map[1 := Record(2, true, false, 0, Queued(0), false)],
                       map[1 := Waiting(1), 2 := Waiting(1)])
    ensures Run(ss, acts) && ss[|acts|] == s
  {
    ss, acts, s := MovedBeforeStopper();
    var s1 := s.(task := s.task.(running := true));
    Extend(ss, acts, SchedIn, s1);
    ss, acts := ss + [s1], acts + [SchedIn];
    var s2 := s1.(task := s1.task.(disabled := 1));
    Extend(ss, acts, MigrateDisable, s2);
    ss, acts := ss + [s2], acts + [MigrateDisable];
    var s3 := s2.(task := s2.task.(running := false, pin := Some(1)));
    Extend(ss, acts, SchedOut(false), s3);
    ss, acts := ss + [s3], acts + [SchedOut(false)];
    var r := Record(2, true, false, 0, Queued(0), false);
    s := State(s3.task.(mask := {0}), map[1 := r], map[1 := Waiting(1), 2 := Waiting(1)]);
    assert 1 !in {0} && 1 in {1};
    assert s == Do(s3, Request(2, false, {0}, 0));
    Extend(ss, acts, Request(2, false, {0}, 0), s);
    ss, acts := ss + [s], acts + [Request(2, false, {0}, 0)];
  }

  // The stopper finds the task elsewhere, on a CPU the mask in force allows, and
  // completes both requests; the task's own migrate_enable then warns.
  lemma WarningReachable()
    ensures exists ss, acts :: Run(ss, acts) && EnableWarns(ss[|acts|])
  {
    var ss, acts, s := PinnedThenRestricted();
    var r := Record(2, false, false, 0, NotInUse, true);
    var s1 := s.(task := s.task.(pending := None), records := map[1 := r]);
    assert s1 == Do(s, Stopper(1));
    Extend(ss, acts, Stopper(1), s1);
    ss, acts := ss + [s1], acts + [Stopper(1)];
    var s2 := s1.(task := s1.task.(running := true));
    Extend(ss, acts, SchedIn, s2);
    ss, acts := ss + [s2], acts + [SchedIn];
    assert Run(ss, acts) && EnableWarns(ss[|acts|]);
  }

  // ---- A run through the other early completion ----

  // The task runs on CPU 0; request 1 restricts it to CPU 1 and queues a stopper
  // on CPU 0; the task blocks; request 2 allows both CPUs again.
  lemma BlockedThenWidened() returns (ss: seq<State>, acts: seq<Action>, s: State)
    ensures s == State(Task(0, false, false, false, {0, 1}, None, 0, false, Some(1)),
                       map[1 := Record(1, true, false, 1, Queued(0), false)],
                       map[1 := Waiting(1), 2 := Returned])
    ensures Run(ss, acts) && ss[|acts|] == s
  {
    var p := Task(0, true, true, false, {0, 1}, None, 0, false, None);
    var d := Record(1, true, false, 1, Launching(0), false);
    s := State(p, map[], map[]);
    ss, acts := [s], [];
    assert Run(ss, acts);
    assert 0 in {0, 1} && 0 !in {1};
    var s1 := State(p.(mask := {1}, pending := Some(1)), map[1 := d], map[1 := Waiting(1)]);
    assert s1 == Do(s, Request(1, false, {1}, 1));
    Extend(ss, acts, Request(1, false, {1}, 1), s1);
    ss, acts := ss + [s1], acts + [Request(1, false, {1}, 1)];
    var s2 := s1.(records := map[1 := d.(stop := Queued(0))]);
    Extend(ss, acts, Launch(1), s2);
    ss, acts := ss + [s2], acts + [Launch(1)];
    var s3 := s2.(task := s2.task.(running := false, queued := false));
    Extend(ss, acts, SchedOut(true), s3);
    ss, acts := ss + [s3], acts + [SchedOut(true)];
    s := State(s3.task.(mask := {0, 1}), s3.records, map[1 := Waiting(1), 2 := Returned]);
    assert s == Do(s3, Request(2, false, {0, 1}, 0));
    Extend(ss, acts, Request(2, false, {0, 1}, 0), s);
    ss, acts := ss + [s], acts + [Request(2, false, {0, 1}, 0)];
  }

  ghost predicate Misplaced(s: State) {
    !Promise(s) && s.task.queued && s.task.cpu !in InForce(s.task)
  }

  // It is woken towards CPU 0, which request 3 then forbids.
  lemma WokenThenNarrowed() returns (ss: seq<State>, acts: seq<Action>, s: State)
    ensures s == State(Task(0, false, false, true, {1}, None, 0, false, Some(1)),
                       map[1 := Record(2, true, false, 1, Queued(0), false)],
                       map[1 := Waiting(1), 2 := Returned, 3 := Waiting(1)])
    ensures Run(ss, acts) && ss[|acts|] == s
  {
    ss, acts, s := BlockedThenWidened();
    var s1 := s.(task := s.task.(waking := true));
    Extend(ss, acts, Wake(0), s1);
    ss, acts := ss + [s1], acts + [Wake(0)];
    var d := Record(2, true, false, 1, Queued(0), false);
    s := State(s1.task.(mask := {1}), map[1 := d], map[1 := Waiting(1), 2 := Returned, 3 := Waiting(1)]);
    assert 0 !in {1} && 0 in {0, 1};
    assert s == Do(s1, Request(3, false, {1}, 1));
    Extend(ss, acts, Request(3, false, {1}, 1), s);
    ss, acts := ss + [s], acts + [Request(3, false, {1}, 1)];
  }

  // The stopper on CPU 0 completes the record before the wake-up has arrived, and
  // the task ends up queued on a forbidden CPU with nobody left to move it.
  lemma LeftOnForbiddenCpu()
    ensures exists ss, acts :: Run(ss, acts) && Misplaced(ss[|acts|])
  {
    var ss, acts, s := WokenThenNarrowed();
    var done := Record(2, false, false, 1, NotInUse, true);
    var s1 := s.(task := s.task.(pending := None), records := map[1 := done]);
    assert s1 == Do(s, Stopper(1));
    Extend(ss, acts, Stopper(1), s1);
    ss, acts := ss + [s1], acts + [Stopper(1)];
    var s2 := s1.(task := s1.task.(waking := false, queued := true));
    Extend(ss, acts, Activate, s2);
    ss, acts := ss + [s2], acts + [Activate];
    assert Run(ss, acts) && Misplaced(ss[|acts|]);
  }
}
