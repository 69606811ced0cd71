// Exit and reaping: exiting threads, reparenting, the last thread of a group and
// waiting parents race to release dead tasks and to fold their context-switch
// counts into the parent. A section under the tasklist lock held for writing is
// one action; a waiter, which holds it for reading, takes its look at a zombie
// and its compare-and-exchange in two.
module Reaping {

  import opened Options

  // exit_state.
  datatype Phase = Running | Zombie | Dead

  // Where a thread is in wait_task_zombie: it has seen p a zombie and holds the
  // tasklist lock for reading; it has won p and not yet folded its counts.
  datatype Doing = Idle | Saw(p: nat) | Owns(p: nat)

  // A task. A thread group is known by its leader. toRelease is what the thread
  // still has to pass to release_task; claim and releases record who made the
  // task dead and how often it was released.
  datatype Task = Task(
    leader: nat, parent: nat, exiting: bool, phase: Phase, hashed: bool,
    doing: Doing, toRelease: seq<nat>, claim: Option<nat>, releases: nat)

  // The context switches of a task and, for a leader, the counters of the shared
  // signal structure: of its released threads, and of the processes it reaped.
  // taken and folded record how many switches were counted for the task, and the
  // group its whole group was folded into.
  datatype Book = Book(switches: nat, ownTotal: nat, childTotal: nat, taken: nat, folded: Option<nat>)

  type Tasks = seq<Task>
  type Books = seq<Book>

  datatype Action =
    | NewThread(w: nat)
    | NewProcess(w: nat)
    | Switch(w: nat)
    | StartExit(w: nat)
    | ExitNotify(w: nat, reaper: nat, dead: seq<nat>, notify: bool)
    | Look(w: nat, p: nat)
    | Try(w: nat)
    | Fold(w: nat)
    | Release(w: nat, notify: bool)

  // thread_group_empty for a leader.
  ghost predicate Alone(s: Tasks, p: nat) {
    forall t :: 0 <= t < |s| && t != p && s[t].leader == p ==> !s[t].hashed
  }

  // Nobody holds the tasklist lock for reading.
  ghost predicate NoReader(s: Tasks) {
    forall w :: 0 <= w < |s| ==> !s[w].doing.Saw?
  }

  // w runs user code, or enters the kernel from it.
  ghost predicate Calm(s: Tasks, w: nat) {
    w < |s| && s[w].phase == Running && !s[w].exiting && s[w].doing == Idle && s[w].toRelease == []
  }

  // A child process of thread w.
  ghost predicate IsChild(s: Tasks, w: nat, p: nat) {
    p < |s| && s[p].leader == p && s[p].parent == w && s[p].hashed && p != w
  }

  // find_new_reaper: a thread of w's own group if one is not exiting, otherwise
  // some thread of another, which may be a child_reaper on its way out.
  ghost predicate CanAdopt(s: Tasks, w: nat, reaper: nat)
    requires w < |s|
  {
    && reaper < |s| && reaper != w && s[reaper].phase == Running
    && (s[reaper].leader == s[w].leader ==> !s[reaper].exiting)
    && (s[reaper].leader != s[w].leader ==>
          forall t :: 0 <= t < |s| && t != w && s[t].leader == s[w].leader && s[t].hashed ==> s[t].exiting)
  }

  // dead lists, in the order they will be released, the zombie children whose
  // new parent does not want to hear of them.
  ghost predicate Unwanted(s: Tasks, w: nat, reaper: nat, dead: seq<nat>)
    requires w < |s| && reaper < |s|
  {
    && (s[reaper].leader == s[w].leader ==> dead == [])
    && (forall i, j :: 0 <= i < j < |dead| ==> dead[i] != dead[j])
    && (forall i :: 0 <= i < |dead| ==> IsChild(s, w, dead[i]) && s[dead[i]].phase == Zombie && Alone(s, dead[i]))
  }

  ghost predicate Enabled(s: Tasks, a: Action) {
    match a
    case NewThread(w) => Calm(s, w) && NoReader(s)
    case NewProcess(w) => Calm(s, w) && NoReader(s)
    case Switch(w) => w < |s|
    case StartExit(w) => Calm(s, w)
    case ExitNotify(w, reaper, dead, _) =>
      && w < |s| && s[w].phase == Running && s[w].exiting && s[w].doing == Idle && s[w].toRelease == []
      && NoReader(s) && CanAdopt(s, w, reaper) && Unwanted(s, w, reaper, dead)
    case Look(w, p) =>
      && Calm(s, w) && p < |s| && s[p].leader == p && s[p].hashed
      && s[p].parent < |s| && s[s[p].parent].leader == s[w].leader
      && s[p].phase == Zombie && Alone(s, p)
    case Try(w) => w < |s| && s[w].doing.Saw? && s[w].doing.p < |s|
    case Fold(w) => w < |s| && s[w].doing.Owns? && s[w].doing.p < |s| && s[w].leader < |s|
    case Release(w, _) =>
      && w < |s| && s[w].toRelease != [] && NoReader(s)
      && s[w].toRelease[0] < |s| && s[s[w].toRelease[0]].leader < |s|
  }

  ghost function Fresh(leader: nat, parent: nat): Task {
    Task(leader, parent, false, Running, true, Idle, [], None, 0)
  }

  // exit_notify, with forget_original_parent and reparent_leader: what becomes
  // of task t when w exits.
  ghost function AfterExit(s: Tasks, w: nat, reaper: nat, dead: seq<nat>, notify: bool, t: nat): Task
    requires w < |s| && t < |s|
  {
    if t == w then
      var autoreap := s[w].leader != w || (Alone(s, w) && notify);
      s[w].(phase := if autoreap then Dead else Zombie, claim := if autoreap then Some(w) else None,
            toRelease := if autoreap then [w] + dead else dead)
    else if t in dead then s[t].(parent := reaper, phase := Dead, claim := Some(w))
    else if s[t].parent == w then s[t].(parent := reaper)
    else s[t]
  }

  // __exit_signal for the first task w has to release: it leaves the lists.
  ghost function Unhashed(s: Tasks, w: nat): Tasks
    requires w < |s| && s[w].toRelease != [] && s[w].toRelease[0] < |s|
  {
    var p := s[w].toRelease[0];
    var s1 := s[w := s[w].(toRelease := s[w].toRelease[1..])];
    s1[p := s1[p].(hashed := false, releases := s1[p].releases + 1)]
  }

  // The last thread of a group whose leader is a zombie takes the leader along
  // if the parent does not want to hear of it.
  ghost predicate Zaps(s: Tasks, p: nat, notify: bool)
    requires p < |s| && s[p].leader < |s|
  {
    var l := s[p].leader;
    l != p && Alone(s, l) && s[l].phase == Zombie && notify
  }

  // w takes the zombie leader l along.
  ghost function Zapped(s: Tasks, w: nat, l: nat): Tasks
    requires w < |s| && l < |s|
  {
    var s' := s[l := s[l].(phase := Dead, claim := Some(w))];
    s'[w := s'[w].(toRelease := [l] + s'[w].toRelease)]
  }

  ghost function DoRelease(s: Tasks, w: nat, notify: bool): Tasks
    requires w < |s| && s[w].toRelease != []
    requires s[w].toRelease[0] < |s| && s[s[w].toRelease[0]].leader < |s|
  {
    var p := s[w].toRelease[0];
    var s' := Unhashed(s, w);
    if Zaps(s', p, notify) then Zapped(s', w, s[p].leader) else s'
  }

  // The exchange succeeds for w.
  ghost function Won(s: Tasks, w: nat, p: nat): Tasks
    requires w < |s| && p < |s|
  {
    var s1 := s[w := s[w].(doing := Owns(p))];
    s1[p := s1[p].(phase := Dead, claim := Some(w))]
  }

  ghost function Do(s: Tasks, a: Action): Tasks
    requires Enabled(s, a)
  {
    match a
    case NewThread(w) => s + [Fresh(s[w].leader, s[w].parent)]
    case NewProcess(w) => s + [Fresh(|s|, w)]
    case Switch(_) => s
    case StartExit(w) => s[w := s[w].(exiting := true)]
    case ExitNotify(w, reaper, dead, notify) =>
      seq(|s|, t requires 0 <= t < |s| => AfterExit(s, w, reaper, dead, notify, t))
    case Look(w, p) => s[w := s[w].(doing := Saw(p))]
    case Try(w) =>
      var p := s[w].doing.p;
      if s[p].phase == Zombie then Won(s, w, p) else s[w := s[w].(doing := Idle)]
    case Fold(w) => s[w := s[w].(doing := Idle, toRelease := [s[w].doing.p])]
    case Release(w, notify) => DoRelease(s, w, notify)
  }

  ghost predicate Next(s: Tasks, a: Action, s': Tasks) {
    Enabled(s, a) && s' == Do(s, a)
  }

  // ---- Who releases whom ----

  // p is dead, not yet released, and w is the one to do it.
  ghost predicate Held(s: Tasks, w: nat, p: nat) {
    p < |s| && s[p].phase == Dead && s[p].hashed && s[p].claim == Some(w)
  }

  ghost predicate Links(s: Tasks, t: nat)
    requires t < |s|
  {
    && s[t].leader < |s| && s[s[t].leader].leader == s[t].leader && s[t].parent < |s|
    && (s[t].leader != t ==> s[t].phase != Zombie)
  }

  ghost predicate Life(s: Tasks, t: nat)
    requires t < |s|
  {
    && s[t].releases == (if s[t].hashed then 0 else 1)
    && (!s[t].hashed ==> s[t].phase == Dead)
    && (s[t].phase == Dead <==> s[t].claim.Some?)
    && (s[t].phase == Dead && s[t].leader == t ==> Alone(s, t))
  }

  // What thread w has in hand.
  ghost predicate Hands(s: Tasks, w: nat)
    requires w < |s|
  {
    && (s[w].doing != Idle ==> s[w].phase == Running && !s[w].exiting && s[w].toRelease == [])
    && (s[w].doing.Saw? ==>
          var p := s[w].doing.p;
          p < |s| && s[p].leader == p && s[p].phase != Running && s[p].hashed && Alone(s, p))
    && (s[w].doing.Owns? ==>
          var p := s[w].doing.p; Held(s, w, p) && s[p].leader == p)
    && (forall i :: 0 <= i < |s[w].toRelease| ==> Held(s, w, s[w].toRelease[i]))
    && (forall i, j :: 0 <= i < j < |s[w].toRelease| ==> s[w].toRelease[i] != s[w].toRelease[j])
  }

  // A dead task that is still hashed is in somebody's hands.
  ghost predicate InHand(s: Tasks, t: nat)
    requires t < |s|
  {
    s[t].phase == Dead && s[t].hashed ==>
      s[t].claim.Some? && s[t].claim.value < |s|
      && var w := s[t].claim.value; s[w].doing == Owns(t) || t in s[w].toRelease
  }

  ghost predicate TaskInv(s: Tasks, t: nat)
    requires t < |s|
  {
    Links(s, t) && Life(s, t) && Hands(s, t) && InHand(s, t)
  }

  ghost predicate Inv(s: Tasks) {
    forall t :: 0 <= t < |s| ==> TaskInv(s, t)
  }

  // Nobody in the group of a dead leader can act any more.
  lemma DeadGroup(s: Tasks, l: nat, t: nat)
    requires Inv(s) && l < |s| && t < |s| && s[l].phase == Dead && s[t].leader == l
    ensures s[t].phase == Dead && (t == l || !s[t].hashed)
  {
    assert TaskInv(s, t) && TaskInv(s, l);
  }

  lemma CreateInv(s: Tasks, a: Action, s': Tasks)
    requires Inv(s) && Next(s, a, s') && (a.NewThread? || a.NewProcess?)
    ensures Inv(s')
  {
    var n := |s|;
    assert TaskInv(s, a.w);
    forall l | 0 <= l < n && (s[l].phase == Dead) ensures l != s'[n].leader {
      if l == s'[n].leader { DeadGroup(s, l, a.w); }
    }
    forall l: nat | l < n && l != s'[n].leader && Alone(s, l) ensures Alone(s', l) {}
    forall t | 0 <= t < |s'| ensures TaskInv(s', t) {
      if t < n {
        assert TaskInv(s, t);
      }
    }
  }

  lemma LookInv(s: Tasks, a: Action, s': Tasks)
    requires Inv(s) && Next(s, a, s') && (a.Switch? || a.StartExit? || a.Look?)
    ensures Inv(s')
  {
    AloneKept(s, s');
    forall t | 0 <= t < |s'| ensures TaskInv(s', t) {
      assert TaskInv(s, t);
    }
  }

  lemma WonInv(s: Tasks, w: nat, p: nat, t: nat)
    requires w < |s| && p < |s| && t < |s| && TaskInv(s, t)
    requires Hands(s, w) && Life(s, p) && s[w].doing == Saw(p) && s[p].phase == Zombie
    ensures TaskInv(Won(s, w, p), t)
  {
    AloneKept(s, Won(s, w, p));
  }

  lemma TryInv(s: Tasks, w: nat, s': Tasks)
    requires Inv(s) && Next(s, Try(w), s')
    ensures Inv(s')
  {
    assert TaskInv(s, w) && TaskInv(s, s[w].doing.p);
    AloneKept(s, s');
    forall t | 0 <= t < |s'| ensures TaskInv(s', t) {
      assert TaskInv(s, t);
      if s[s[w].doing.p].phase == Zombie {
        WonInv(s, w, s[w].doing.p, t);
      }
    }
  }

  // A waiter's own group is alive, and not the one it has won.
  lemma WaiterAlive(s: Tasks, w: nat)
    requires Inv(s) && w < |s| && s[w].doing.Owns?
    ensures s[w].leader < |s| && s[w].leader != s[w].doing.p && w != s[w].doing.p
    ensures s[s[w].leader].phase != Dead
  {
    assert TaskInv(s, w) && TaskInv(s, s[w].leader);
    if s[s[w].leader].phase == Dead {
      DeadGroup(s, s[w].leader, w);
    }
  }

  lemma FoldInv(s: Tasks, w: nat, s': Tasks)
    requires Inv(s) && Next(s, Fold(w), s')
    ensures Inv(s')
  {
    assert TaskInv(s, w);
    WaiterAlive(s, w);
    AloneKept(s, s');
    forall t | 0 <= t < |s'| ensures TaskInv(s', t) {
      assert TaskInv(s, t);
    }
  }

  // A step that hashes nobody keeps groups alone.
  lemma AloneKept(s: Tasks, s': Tasks)
    requires |s| == |s'|
    requires forall t :: 0 <= t < |s| ==> s'[t].leader == s[t].leader && (s'[t].hashed ==> s[t].hashed)
    ensures forall l: nat :: Alone(s, l) ==> Alone(s', l)
  {
  }

  lemma ExitLife(s: Tasks, a: Action, s': Tasks, t: nat)
    requires Inv(s) && Next(s, a, s') && a.ExitNotify? && t < |s|
    requires forall l: nat :: Alone(s, l) ==> Alone(s', l)
    ensures Links(s', t) && Life(s', t)
  {
    assert TaskInv(s, t) && TaskInv(s, a.w);
  }

  // The exiting thread has itself and the unwanted children to release; nobody
  // else's hands change.
  lemma ExitHandsOwn(s: Tasks, a: Action, s': Tasks)
    requires Inv(s) && Next(s, a, s') && a.ExitNotify?
    ensures Hands(s', a.w)
  {
    assert TaskInv(s, a.w);
    var list := s'[a.w].toRelease;
    forall i | 0 <= i < |list| ensures Held(s', a.w, list[i]) {
      assert list[i] == a.w || list[i] in a.dead;
      assert TaskInv(s, list[i]);
    }
    assert forall i, j :: 0 <= i < j < |list| ==> list[i] != list[j];
  }

  lemma ExitHandsOther(s: Tasks, a: Action, s': Tasks, t: nat)
    requires Inv(s) && Next(s, a, s') && a.ExitNotify? && t < |s| && t != a.w
    ensures Hands(s', t)
  {
    assert TaskInv(s, t);
    assert s'[t].toRelease == s[t].toRelease && s'[t].doing == s[t].doing;
    AloneKept(s, s');
    forall i | 0 <= i < |s[t].toRelease| ensures Held(s', t, s[t].toRelease[i]) {
      assert Held(s, t, s[t].toRelease[i]);
    }
  }

  lemma ExitInHand(s: Tasks, w: nat, reaper: nat, dead: seq<nat>, notify: bool, s': Tasks, t: nat)
    requires w < |s| == |s'| && t < |s| && InHand(s, t) && Life(s, t)
    requires s[w].phase == Running && s[w].doing == Idle && s[w].toRelease == []
    requires forall u :: 0 <= u < |s| ==> s'[u] == AfterExit(s, w, reaper, dead, notify, u)
    ensures InHand(s', t)
  {
    if t == w {
      assert s'[w].phase == Dead ==> s'[w].toRelease[0] == w;
    } else if t in dead {
      assert t in s'[w].toRelease;
    } else if s[t].phase == Dead && s[t].hashed {
      assert s[t].claim.value != w;
    }
  }

  lemma ExitInv(s: Tasks, a: Action, s': Tasks)
    requires Inv(s) && Next(s, a, s') && a.ExitNotify?
    ensures Inv(s')
  {
    AloneKept(s, s');
    forall t | 0 <= t < |s'| ensures TaskInv(s', t) {
      ExitLife(s, a, s', t);
      if t == a.w { ExitHandsOwn(s, a, s'); } else { ExitHandsOther(s, a, s', t); }
      assert TaskInv(s, t);
      ExitInHand(s, a.w, a.reaper, a.dead, a.notify, s', t);
    }
  }

  // Before __exit_signal the lists name only tasks that are still hashed; after
  // it p is gone from them.
  lemma ReleaseReady(s: Tasks, w: nat)
    requires Inv(s) && w < |s| && s[w].toRelease != []
    ensures var p := s[w].toRelease[0];
            && Held(s, w, p) && s[p].releases == 0 && s[p].leader < |s|
            && (p != s[p].leader ==> s[s[p].leader].phase != Dead)
  {
    var p := s[w].toRelease[0];
    assert TaskInv(s, w) && TaskInv(s, p) && TaskInv(s, s[p].leader);
    if s[s[p].leader].phase == Dead {
      DeadGroup(s, s[p].leader, p);
    }
  }

  ghost predicate CanRelease(s: Tasks, w: nat) {
    && Inv(s) && NoReader(s) && w < |s| && s[w].toRelease != []
    && s[w].toRelease[0] < |s| && s[s[w].toRelease[0]].leader < |s|
  }

  lemma UnhashLife(s: Tasks, w: nat, t: nat)
    requires CanRelease(s, w) && t < |s|
    ensures Links(Unhashed(s, w), t) && Life(Unhashed(s, w), t)
  {
    ReleaseReady(s, w);
    AloneKept(s, Unhashed(s, w));
    assert TaskInv(s, t);
  }

  // Two threads never have the same task to release.
  lemma HandsApart(s: Tasks, w: nat, t: nat, i: nat)
    requires Inv(s) && w < |s| && s[w].toRelease != [] && t < |s| && i < |s[t].toRelease|
    requires t != w || i > 0
    ensures s[t].toRelease[i] != s[w].toRelease[0]
  {
    assert TaskInv(s, w) && TaskInv(s, t);
    assert Held(s, w, s[w].toRelease[0]) && Held(s, t, s[t].toRelease[i]);
  }

  lemma UnhashHands(s: Tasks, w: nat, t: nat)
    requires CanRelease(s, w) && t < |s|
    ensures Hands(Unhashed(s, w), t)
  {
    ReleaseReady(s, w);
    var s' := Unhashed(s, w);
    assert TaskInv(s, t) && TaskInv(s, w);
    forall i | 0 <= i < |s'[t].toRelease| ensures Held(s', t, s'[t].toRelease[i]) {
      var k := if t == w then i + 1 else i;
      HandsApart(s, w, t, k);
      assert Held(s, t, s[t].toRelease[k]);
    }
  }

  lemma UnhashInHand(s: Tasks, w: nat, t: nat)
    requires CanRelease(s, w) && t < |s|
    ensures InHand(Unhashed(s, w), t)
  {
    ReleaseReady(s, w);
    assert TaskInv(s, t);
  }

  lemma UnhashInv(s: Tasks, w: nat)
    requires CanRelease(s, w)
    ensures Inv(Unhashed(s, w))
  {
    forall t | 0 <= t < |s|
      ensures TaskInv(Unhashed(s, w), t)
    {
      UnhashLife(s, w, t);
      UnhashHands(s, w, t);
      UnhashInHand(s, w, t);
    }
  }

  ghost predicate CanZap(s: Tasks, w: nat, l: nat) {
    && Inv(s) && w < |s| && l < |s| && s[l].leader == l && Alone(s, l) && s[l].phase == Zombie
    && s[w].doing == Idle
  }

  lemma ZapLife(s: Tasks, w: nat, l: nat, t: nat)
    requires CanZap(s, w, l) && t < |s|
    ensures Links(Zapped(s, w, l), t) && Life(Zapped(s, w, l), t)
  {
    AloneKept(s, Zapped(s, w, l));
    assert TaskInv(s, t);
  }

  lemma ZapHands(s: Tasks, w: nat, l: nat, t: nat)
    requires CanZap(s, w, l) && t < |s|
    ensures Hands(Zapped(s, w, l), t)
  {
    var s' := Zapped(s, w, l);
    AloneKept(s, s');
    assert TaskInv(s, t) && TaskInv(s, l);
    forall i | 0 <= i < |s'[t].toRelease| ensures Held(s', t, s'[t].toRelease[i]) {
      var k := if t == w then i - 1 else i;
      if k >= 0 { assert Held(s, t, s[t].toRelease[k]); }
    }
  }

  lemma ZapInv(s: Tasks, w: nat, l: nat)
    requires CanZap(s, w, l)
    ensures Inv(Zapped(s, w, l))
  {
    var s' := Zapped(s, w, l);
    forall t | 0 <= t < |s| ensures TaskInv(s', t) {
      ZapLife(s, w, l, t);
      ZapHands(s, w, l, t);
      assert TaskInv(s, t);
    }
  }

  lemma ReleaseInv(s: Tasks, w: nat, notify: bool, s': Tasks)
    requires Inv(s) && Next(s, Release(w, notify), s')
    ensures Inv(s')
  {
    UnhashInv(s, w);
    var p := s[w].toRelease[0];
    var s1 := Unhashed(s, w);
    if Zaps(s1, p, notify) {
      assert TaskInv(s, w) && TaskInv(s, p);
      ZapInv(s1, w, s[p].leader);
    }
  }

  lemma StepInv(s: Tasks, a: Action, s': Tasks)
    requires Inv(s) && Next(s, a, s')
    ensures Inv(s')
  {
    match a
    case NewThread(_) => CreateInv(s, a, s');
    case NewProcess(_) => CreateInv(s, a, s');
    case ExitNotify(_, _, _, _) => ExitInv(s, a, s');
    case Try(w) => TryInv(s, w, s');
    case Fold(w) => FoldInv(s, w, s');
    case Release(w, notify) => ReleaseInv(s, w, notify, s');
    case _ => LookInv(s, a, s');
  }

  // ---- Folding the counts ----

  // The counters after an action. wait_task_zombie, having won p, adds the counts
  // of p, of its dead threads and of the children it reaped to the waiter's
  // group; __exit_signal adds a task's count to its own group.
  ghost function DoBooks(s: Tasks, b: Books, a: Action): Books
    requires |b| == |s| && Enabled(s, a)
  {
    match a
    case NewThread(_) => b + [Book(0, 0, 0, 0, None)]
    case NewProcess(_) => b + [Book(0, 0, 0, 0, None)]
    case Switch(w) => b[w := b[w].(switches := b[w].switches + 1)]
    case Fold(w) =>
      var p, g := s[w].doing.p, s[w].leader;
      var b1 := b[g := b[g].(childTotal := b[g].childTotal + b[p].switches + b[p].ownTotal + b[p].childTotal)];
      b1[p := b1[p].(taken := b1[p].switches, folded := Some(g))]
    case Release(w, _) =>
      var p := s[w].toRelease[0];
      var l := s[p].leader;
      var b1 := b[l := b[l].(ownTotal := b[l].ownTotal + b[p].switches)];
      if l == p then b1 else b1[p := b1[p].(taken := b1[p].switches)]
    case _ => b
  }

  ghost function Sum(q: seq<nat>): nat {
    if q == [] then 0 else Sum(q[..|q| - 1]) + q[|q| - 1]
  }

  lemma SumAppend(q: seq<nat>, x: nat)
    ensures Sum(q + [x]) == Sum(q) + x
  {
    assert (q + [x])[..|q|] == q;
  }

  lemma {:induction false} SumUpdate(q: seq<nat>, i: nat, x: nat)
    requires i < |q|
    ensures Sum(q[i := x]) + q[i] == Sum(q) + x
  {
    var n := |q| - 1;
    if i == n {
      assert q[i := x][..n] == q[..n];
    } else {
      assert q[i := x][..n] == q[..n][i := x];
      SumUpdate(q[..n], i, x);
    }
  }

  lemma {:induction false} SumZero(q: seq<nat>)
    requires forall i :: 0 <= i < |q| ==> q[i] == 0
    ensures Sum(q) == 0
  {
    if q != [] { SumZero(q[..|q| - 1]); }
  }

  lemma {:induction false} SumAdd(q: seq<nat>, r: seq<nat>, u: seq<nat>)
    requires |q| == |r| == |u| && forall i :: 0 <= i < |q| ==> u[i] == q[i] + r[i]
    ensures Sum(u) == Sum(q) + Sum(r)
  {
    if q != [] {
      var n := |q| - 1;
      SumAdd(q[..n], r[..n], u[..n]);
    }
  }

  // What was counted for each member of group g.
  ghost function Counted(s: Tasks, b: Books, g: nat): seq<nat>
    requires |b| == |s|
  {
    seq(|s|, t requires 0 <= t < |s| => if s[t].leader == g then b[t].taken else 0)
  }

  // What each process folded into g brought along: the counts of all its
  // members, and of the processes folded into it.
  ghost function Brought(s: Tasks, b: Books, g: nat): seq<nat>
    requires |b| == |s|
  {
    seq(|s|, q requires 0 <= q < |s| =>
      if b[q].folded == Some(g) then Sum(Counted(s, b, q)) + b[q].childTotal else 0)
  }

  ghost predicate NotFolded(b: Books, p: nat) {
    p < |b| && b[p].folded == None
  }

  ghost predicate BookInv(s: Tasks, b: Books, t: nat)
    requires t < |b| == |s|
  {
    && (b[t].folded.Some? ==> s[t].phase == Dead && s[t].leader == t && b[t].folded.value < |s|)
    && (s[t].doing.Owns? ==> NotFolded(b, s[t].doing.p))
    && (s[t].leader == t && b[t].folded == None ==> b[t].taken == 0)
    && (s[t].leader != t && s[t].hashed ==> b[t].taken == 0)
  }

  // The group's own total is what was counted for its members.
  ghost predicate OwnLaw(s: Tasks, b: Books, g: nat)
    requires g < |b| == |s|
  {
    s[g].leader == g && s[g].hashed ==> b[g].ownTotal + b[g].taken == Sum(Counted(s, b, g))
  }

  // The group's child total is what the processes folded into it brought.
  ghost predicate ChildLaw(s: Tasks, b: Books, g: nat)
    requires g < |b| == |s|
  {
    b[g].childTotal == Sum(Brought(s, b, g))
  }

  ghost predicate Balanced(s: Tasks, b: Books) {
    |b| == |s| && forall t :: 0 <= t < |s| ==> BookInv(s, b, t) && OwnLaw(s, b, t) && ChildLaw(s, b, t)
  }

  // ---- Every step keeps the books balanced ----

  lemma ReleaseDeadStays(s: Tasks, a: Action, s': Tasks, t: nat)
    requires Next(s, a, s') && a.Release? && t < |s|
    ensures |s'| == |s| && s'[t].leader == s[t].leader && s'[t].doing == s[t].doing
    ensures s[t].phase == Dead ==> s'[t].phase == Dead && s'[t].claim == s[t].claim
    ensures s'[t].hashed ==> s[t].hashed
  {
    var s1 := Unhashed(s, a.w);
    assert s1[t] == s[t].(hashed := s1[t].hashed, releases := s1[t].releases, toRelease := s1[t].toRelease);
  }

  lemma ExitDeadStays(s: Tasks, a: Action, s': Tasks, t: nat)
    requires Next(s, a, s') && a.ExitNotify? && t < |s|
    ensures |s'| == |s| && s'[t].leader == s[t].leader && s'[t].doing == s[t].doing
    ensures s[t].phase == Dead ==> s'[t].phase == Dead && s'[t].claim == s[t].claim
    ensures s'[t].hashed ==> s[t].hashed
  {
    assert s'[t] == AfterExit(s, a.w, a.reaper, a.dead, a.notify, t);
  }

  // A dead task stays dead, in the same hands, and no task is hashed again.
  lemma DeadStays(s: Tasks, a: Action, s': Tasks, t: nat)
    requires Next(s, a, s') && t < |s|
    ensures |s'| >= |s| && s'[t].leader == s[t].leader
    ensures s[t].phase == Dead ==> s'[t].phase == Dead && s'[t].claim == s[t].claim
    ensures s'[t].hashed ==> s[t].hashed
  {
    match a {
      case ExitNotify(_, _, _, _) => ExitDeadStays(s, a, s', t);
      case Release(_, _) => ReleaseDeadStays(s, a, s', t);
      case _ =>
    }
  }

  ghost predicate SameLeaders(s: Tasks, s': Tasks) {
    |s'| == |s| && forall t :: 0 <= t < |s| ==> s'[t].leader == s[t].leader
  }

  // What has been counted and folded is the same.
  ghost predicate SameBooks(b: Books, b': Books) {
    && |b'| == |b|
    && forall t :: 0 <= t < |b| ==>
         b'[t].taken == b[t].taken && b'[t].childTotal == b[t].childTotal && b'[t].folded == b[t].folded
  }

  lemma CountedKept(s: Tasks, s': Tasks, b: Books, b': Books, g: nat)
    requires SameLeaders(s, s') && SameBooks(b, b') && |b| == |s|
    ensures Counted(s', b', g) == Counted(s, b, g)
  {
  }

  lemma BroughtKept(s: Tasks, s': Tasks, b: Books, b': Books, g: nat)
    requires SameLeaders(s, s') && SameBooks(b, b') && |b| == |s|
    ensures Brought(s', b', g) == Brought(s, b, g)
  {
    forall q | 0 <= q < |s| ensures Brought(s', b', g)[q] == Brought(s, b, g)[q] {
      CountedKept(s, s', b, b', q);
    }
  }

  // The actions that touch none of what has been counted.
  ghost predicate Quiet(a: Action) {
    a.Switch? || a.StartExit? || a.ExitNotify? || a.Look? || a.Try?
  }

  lemma TryTask(s: Tasks, b: Books, w: nat, s': Tasks, t: nat)
    requires Inv(s) && Next(s, Try(w), s') && |b| == |s| && t < |s| && BookInv(s, b, t)
    requires forall p :: 0 <= p < |s| ==> (b[p].folded.Some? ==> s[p].phase == Dead)
    ensures |s'| == |s| && BookInv(s', b, t)
  {
    assert TaskInv(s, w);
  }

  lemma QuietTask(s: Tasks, b: Books, a: Action, s': Tasks, t: nat)
    requires Inv(s) && Next(s, a, s') && Quiet(a) && |b| == |s| && t < |s| && BookInv(s, b, t)
    requires forall p :: 0 <= p < |s| ==> (b[p].folded.Some? ==> s[p].phase == Dead)
    ensures |s'| == |s| && BookInv(s', DoBooks(s, b, a), t)
  {
    match a {
      case ExitNotify(_, _, _, _) => ExitDeadStays(s, a, s', t);
      case Try(w) => TryTask(s, b, w, s', t);
      case _ => DeadStays(s, a, s', t);
    }
  }

  lemma QuietBooks(s: Tasks, b: Books, a: Action, s': Tasks)
    requires Inv(s) && Next(s, a, s') && Quiet(a) && Balanced(s, b)
    ensures Balanced(s', DoBooks(s, b, a))
  {
    var b' := DoBooks(s, b, a);
    forall t | 0 <= t < |s| ensures |s'| == |s| && s'[t].leader == s[t].leader && (s'[t].hashed ==> s[t].hashed) {
      DeadStays(s, a, s', t);
      if a.ExitNotify? { ExitDeadStays(s, a, s', t); }
    }
    forall p | 0 <= p < |s| ensures b[p].folded.Some? ==> s[p].phase == Dead {
      assert BookInv(s, b, p);
    }
    forall t | 0 <= t < |s'| ensures BookInv(s', b', t) && OwnLaw(s', b', t) && ChildLaw(s', b', t) {
      assert BookInv(s, b, t) && OwnLaw(s, b, t) && ChildLaw(s, b, t);
      QuietTask(s, b, a, s', t);
      CountedKept(s, s', b, b', t);
      BroughtKept(s, s', b, b', t);
    }
  }

  lemma GrownCounted(s: Tasks, b: Books, t: Task, g: nat)
    requires |b| == |s|
    ensures Sum(Counted(s + [t], b + [Book(0, 0, 0, 0, None)], g)) == Sum(Counted(s, b, g))
  {
    SumAppend(Counted(s, b, g), 0);
    assert Counted(s + [t], b + [Book(0, 0, 0, 0, None)], g) == Counted(s, b, g) + [0];
  }

  lemma GrownBrought(s: Tasks, b: Books, t: Task, g: nat)
    requires |b| == |s|
    ensures Sum(Brought(s + [t], b + [Book(0, 0, 0, 0, None)], g)) == Sum(Brought(s, b, g))
  {
    var s', b' := s + [t], b + [Book(0, 0, 0, 0, None)];
    forall q | 0 <= q < |s| ensures Brought(s', b', g)[q] == Brought(s, b, g)[q] {
      GrownCounted(s, b, t, q);
    }
    assert Brought(s', b', g) == Brought(s, b, g) + [0];
    SumAppend(Brought(s, b, g), 0);
  }

  lemma GrownBooks(s: Tasks, b: Books, a: Action, s': Tasks)
    requires Inv(s) && Next(s, a, s') && (a.NewThread? || a.NewProcess?) && Balanced(s, b)
    ensures Balanced(s', DoBooks(s, b, a))
  {
    var n, b' := |s|, DoBooks(s, b, a);
    forall t | 0 <= t < |s'| ensures BookInv(s', b', t) && OwnLaw(s', b', t) && ChildLaw(s', b', t) {
      GrownCounted(s, b, s'[n], t);
      GrownBrought(s, b, s'[n], t);
      if t < n {
        assert BookInv(s, b, t) && OwnLaw(s, b, t) && ChildLaw(s, b, t);
      } else {
        forall q | 0 <= q < n ensures Counted(s, b, n)[q] == 0 && Brought(s, b, n)[q] == 0 {
          assert TaskInv(s, q) && BookInv(s, b, q);
        }
        SumZero(Counted(s, b, n));
        SumZero(Brought(s, b, n));
      }
    }
  }

  // What the books say of a waiter that has won p.
  lemma FoldReady(s: Tasks, b: Books, w: nat)
    requires Inv(s) && Balanced(s, b) && w < |s| && s[w].doing.Owns?
    ensures var p, g := s[w].doing.p, s[w].leader;
            && p < |s| && g < |s| && p != g && p != w
            && s[p].leader == p && s[p].hashed && s[p].phase == Dead
            && b[p].folded == None && b[g].folded == None && b[p].taken == 0
            && b[p].ownTotal == Sum(Counted(s, b, p))
  {
    WaiterAlive(s, w);
    assert TaskInv(s, w);
    assert BookInv(s, b, w) && BookInv(s, b, s[w].leader) && BookInv(s, b, s[w].doing.p) && OwnLaw(s, b, s[w].doing.p);
  }

  lemma FoldCounted(s: Tasks, b: Books, w: nat, q: nat)
    requires Inv(s) && Balanced(s, b) && Enabled(s, Fold(w))
    ensures var p, s', b' := s[w].doing.p, Do(s, Fold(w)), DoBooks(s, b, Fold(w));
            Sum(Counted(s', b', q)) == Sum(Counted(s, b, q)) + if q == p then b[p].switches else 0
  {
    FoldReady(s, b, w);
    var p, s', b' := s[w].doing.p, Do(s, Fold(w)), DoBooks(s, b, Fold(w));
    if q == p {
      SumUpdate(Counted(s, b, p), p, b[p].switches);
      assert Counted(s', b', p) == Counted(s, b, p)[p := b[p].switches];
    } else {
      assert Counted(s', b', q) == Counted(s, b, q);
    }
  }

  lemma FoldBrought(s: Tasks, b: Books, w: nat, h: nat)
    requires Inv(s) && Balanced(s, b) && Enabled(s, Fold(w)) && h < |s|
    ensures ChildLaw(Do(s, Fold(w)), DoBooks(s, b, Fold(w)), h)
  {
    FoldReady(s, b, w);
    var p, g, s', b' := s[w].doing.p, s[w].leader, Do(s, Fold(w)), DoBooks(s, b, Fold(w));
    var was := Brought(s, b, h);
    var x := b[p].switches + b[p].ownTotal + b[p].childTotal;
    forall q | 0 <= q < |s| ensures Brought(s', b', h)[q] == if q == p && h == g then x else was[q] {
      FoldCounted(s, b, w, q);
    }
    assert ChildLaw(s, b, h);
    if h == g {
      SumUpdate(was, p, x);
      assert Brought(s', b', h) == was[p := x];
    } else {
      assert Brought(s', b', h) == was;
    }
  }

  lemma FoldBooks(s: Tasks, b: Books, w: nat)
    requires Inv(s) && Balanced(s, b) && Enabled(s, Fold(w))
    ensures Balanced(Do(s, Fold(w)), DoBooks(s, b, Fold(w)))
  {
    FoldReady(s, b, w);
    var s', b' := Do(s, Fold(w)), DoBooks(s, b, Fold(w));
    forall t | 0 <= t < |s'| ensures BookInv(s', b', t) && OwnLaw(s', b', t) && ChildLaw(s', b', t) {
      FoldTask(s, b, w, t);
      FoldCounted(s, b, w, t);
      assert OwnLaw(s, b, t);
      FoldBrought(s, b, w, t);
    }
  }

  lemma FoldTask(s: Tasks, b: Books, w: nat, t: nat)
    requires Inv(s) && Balanced(s, b) && Enabled(s, Fold(w)) && t < |s|
    ensures BookInv(Do(s, Fold(w)), DoBooks(s, b, Fold(w)), t)
  {
    FoldReady(s, b, w);
    assert BookInv(s, b, t) && TaskInv(s, t) && TaskInv(s, w);
  }

  // p, about to be released by w, and its group.
  lemma CountReady(s: Tasks, b: Books, w: nat)
    requires Inv(s) && Balanced(s, b) && w < |s| && s[w].toRelease != []
    ensures var p := s[w].toRelease[0];
            && p < |s| && s[p].leader < |s| && s[p].hashed && s[s[p].leader].leader == s[p].leader
            && (s[p].leader != p ==> b[p].taken == 0 && b[s[p].leader].folded == None)
  {
    ReleaseReady(s, w);
    var p := s[w].toRelease[0];
    assert TaskInv(s, p);
    assert BookInv(s, b, p) && BookInv(s, b, s[p].leader);
  }

  lemma ReleaseCounted(s: Tasks, b: Books, a: Action, s': Tasks, q: nat)
    requires Inv(s) && Balanced(s, b) && Next(s, a, s') && a.Release?
    ensures |s'| == |s|
    ensures var p, b' := s[a.w].toRelease[0], DoBooks(s, b, a);
            Sum(Counted(s', b', q))
            == Sum(Counted(s, b, q)) + if s[p].leader != p && q == s[p].leader then b[p].switches else 0
  {
    CountReady(s, b, a.w);
    forall t | 0 <= t < |s| ensures |s'| == |s| && s'[t].leader == s[t].leader {
      ReleaseDeadStays(s, a, s', t);
    }
    var p, b' := s[a.w].toRelease[0], DoBooks(s, b, a);
    if s[p].leader != p && q == s[p].leader {
      SumUpdate(Counted(s, b, q), p, b[p].switches);
      assert Counted(s', b', q) == Counted(s, b, q)[p := b[p].switches];
    } else {
      assert Counted(s', b', q) == Counted(s, b, q);
    }
  }

  lemma ReleaseBrought(s: Tasks, b: Books, a: Action, s': Tasks, h: nat)
    requires Inv(s) && Balanced(s, b) && Next(s, a, s') && a.Release? && h < |s|
    ensures |s'| == |s| && ChildLaw(s', DoBooks(s, b, a), h)
  {
    CountReady(s, b, a.w);
    var b' := DoBooks(s, b, a);
    ReleaseCounted(s, b, a, s', h);
    forall q | 0 <= q < |s| ensures Brought(s', b', h)[q] == Brought(s, b, h)[q] {
      ReleaseCounted(s, b, a, s', q);
    }
    assert Brought(s', b', h) == Brought(s, b, h);
    assert ChildLaw(s, b, h);
  }

  lemma ReleaseTask(s: Tasks, b: Books, a: Action, s': Tasks, t: nat)
    requires Inv(s) && Balanced(s, b) && Next(s, a, s') && a.Release? && t < |s|
    ensures |s'| == |s| && BookInv(s', DoBooks(s, b, a), t)
  {
    CountReady(s, b, a.w);
    ReleaseDeadStays(s, a, s', t);
    assert !s'[s[a.w].toRelease[0]].hashed;
    assert BookInv(s, b, t);
  }

  lemma ReleaseOwn(s: Tasks, b: Books, a: Action, s': Tasks, t: nat)
    requires Inv(s) && Balanced(s, b) && Next(s, a, s') && a.Release? && t < |s|
    ensures |s'| == |s| && OwnLaw(s', DoBooks(s, b, a), t)
  {
    CountReady(s, b, a.w);
    ReleaseDeadStays(s, a, s', t);
    ReleaseCounted(s, b, a, s', t);
    assert !s'[s[a.w].toRelease[0]].hashed;
    assert OwnLaw(s, b, t);
  }

  lemma ReleaseBooks(s: Tasks, b: Books, a: Action, s': Tasks)
    requires Inv(s) && Balanced(s, b) && Next(s, a, s') && a.Release?
    ensures Balanced(s', DoBooks(s, b, a))
  {
    forall t | 0 <= t < |s|
      ensures |s'| == |s| && BookInv(s', DoBooks(s, b, a), t) && OwnLaw(s', DoBooks(s, b, a), t)
              && ChildLaw(s', DoBooks(s, b, a), t)
    {
      ReleaseTask(s, b, a, s', t);
      ReleaseOwn(s, b, a, s', t);
      ReleaseBrought(s, b, a, s', t);
    }
  }

  lemma StepBooks(s: Tasks, b: Books, a: Action, s': Tasks)
    requires Inv(s) && Balanced(s, b) && Next(s, a, s')
    ensures Balanced(s', DoBooks(s, b, a))
  {
    match a
    case NewThread(_) => GrownBooks(s, b, a, s');
    case NewProcess(_) => GrownBooks(s, b, a, s');
    case Fold(w) => FoldBooks(s, b, w);
    case Release(_, _) => ReleaseBooks(s, b, a, s');
    case _ => QuietBooks(s, b, a, s');
  }

  // ---- Nothing lost, nothing twice ----

  // The child totals of the groups not folded into another one.
  ghost function Standing(b: Books): seq<nat> {
    seq(|b|, g requires 0 <= g < |b| => if b[g].folded == None then b[g].childTotal else 0)
  }

  // The counts of all tasks whose group a waiter has folded.
  ghost function Reaped(s: Tasks, b: Books): seq<nat>
    requires |b| == |s|
  {
    seq(|s|, t requires 0 <= t < |s| =>
      if s[t].leader < |b| && b[s[t].leader].folded.Some? then b[t].taken else 0)
  }

  ghost predicate Conserved(s: Tasks, b: Books)
    requires |b| == |s|
  {
    Sum(Standing(b)) == Sum(Reaped(s, b))
  }

  lemma FoldStanding(s: Tasks, b: Books, w: nat)
    requires Inv(s) && Balanced(s, b) && Enabled(s, Fold(w))
    ensures var p := s[w].doing.p;
            Sum(Standing(DoBooks(s, b, Fold(w)))) == Sum(Standing(b)) + b[p].switches + b[p].ownTotal
  {
    FoldReady(s, b, w);
    var p, g, b' := s[w].doing.p, s[w].leader, DoBooks(s, b, Fold(w));
    var q := Standing(b);
    SumUpdate(q, g, b'[g].childTotal);
    SumUpdate(q[g := b'[g].childTotal], p, 0);
    assert Standing(b') == q[g := b'[g].childTotal][p := 0];
  }

  lemma FoldReapedAt(s: Tasks, b: Books, w: nat, t: nat)
    requires Inv(s) && Balanced(s, b) && Enabled(s, Fold(w)) && t < |s|
    ensures var p, s', b' := s[w].doing.p, Do(s, Fold(w)), DoBooks(s, b, Fold(w));
            Reaped(s', b')[t] == Reaped(s, b)[t] + Counted(s', b', p)[t]
  {
    FoldReady(s, b, w);
    assert TaskInv(s, t);
  }

  lemma FoldReaped(s: Tasks, b: Books, w: nat)
    requires Inv(s) && Balanced(s, b) && Enabled(s, Fold(w))
    ensures var p := s[w].doing.p;
            Sum(Reaped(Do(s, Fold(w)), DoBooks(s, b, Fold(w)))) == Sum(Reaped(s, b)) + b[p].switches + b[p].ownTotal
  {
    FoldReady(s, b, w);
    var p, s', b' := s[w].doing.p, Do(s, Fold(w)), DoBooks(s, b, Fold(w));
    FoldCounted(s, b, w, p);
    forall t | 0 <= t < |s| ensures Reaped(s', b')[t] == Reaped(s, b)[t] + Counted(s', b', p)[t] {
      FoldReapedAt(s, b, w, t);
    }
    SumAdd(Reaped(s, b), Counted(s', b', p), Reaped(s', b'));
  }

  lemma ReleaseConserves(s: Tasks, b: Books, a: Action, s': Tasks)
    requires Inv(s) && Balanced(s, b) && Next(s, a, s') && a.Release? && Conserved(s, b)
    ensures |s'| == |s| && Conserved(s', DoBooks(s, b, a))
  {
    var b' := DoBooks(s, b, a);
    CountReady(s, b, a.w);
    forall t | 0 <= t < |s| ensures |s'| == |s| && s'[t].leader == s[t].leader {
      ReleaseDeadStays(s, a, s', t);
    }
    assert Standing(b') == Standing(b);
    assert Reaped(s', b') == Reaped(s, b);
  }

  lemma QuietConserves(s: Tasks, b: Books, a: Action, s': Tasks)
    requires Next(s, a, s') && Quiet(a) && |b| == |s| && Conserved(s, b)
    ensures |s'| == |s| && Conserved(s', DoBooks(s, b, a))
  {
    var b' := DoBooks(s, b, a);
    forall t | 0 <= t < |s| ensures |s'| == |s| && s'[t].leader == s[t].leader {
      DeadStays(s, a, s', t);
    }
    assert Standing(b') == Standing(b);
    assert Reaped(s', b') == Reaped(s, b);
  }

  lemma GrownConserves(s: Tasks, b: Books, a: Action, s': Tasks)
    requires Inv(s) && Next(s, a, s') && (a.NewThread? || a.NewProcess?) && |b| == |s| && Conserved(s, b)
    ensures |s'| == |s| + 1 && Conserved(s', DoBooks(s, b, a))
  {
    var b' := DoBooks(s, b, a);
    forall t | 0 <= t < |s| ensures Reaped(s', b')[t] == Reaped(s, b)[t] {
      assert TaskInv(s, t);
    }
    assert Standing(b') == Standing(b) + [0];
    assert Reaped(s', b') == Reaped(s, b) + [0];
    SumAppend(Standing(b), 0);
    SumAppend(Reaped(s, b), 0);
  }

  lemma StepConserves(s: Tasks, b: Books, a: Action, s': Tasks)
    requires Inv(s) && Balanced(s, b) && Next(s, a, s') && Conserved(s, b)
    ensures |DoBooks(s, b, a)| == |s'| && Conserved(s', DoBooks(s, b, a))
  {
    match a
    case NewThread(_) => GrownConserves(s, b, a, s');
    case NewProcess(_) => GrownConserves(s, b, a, s');
    case Fold(w) => FoldStanding(s, b, w); FoldReaped(s, b, w);
    case Release(_, _) => ReleaseConserves(s, b, a, s');
    case _ => QuietConserves(s, b, a, s');
  }

  // ---- Every run ----

  ghost predicate Step(s: Tasks, b: Books, a: Action, s': Tasks, b': Books) {
    |b| == |s| && Next(s, a, s') && b' == DoBooks(s, b, a)
  }

  // From the first process alone.
  ghost predicate Run(ss: seq<Tasks>, bs: seq<Books>, acts: seq<Action>) {
    && |ss| == |bs| == |acts| + 1
    && ss[0] == [Fresh(0, 0)] && bs[0] == [Book(0, 0, 0, 0, None)]
    && forall i :: 0 <= i < |acts| ==> Step(ss[i], bs[i], acts[i], ss[i + 1], bs[i + 1])
  }

  lemma InitInv(s: Tasks, b: Books)
    requires s == [Fresh(0, 0)] && b == [Book(0, 0, 0, 0, None)]
    ensures Inv(s) && Balanced(s, b) && Conserved(s, b)
  {
    SumZero(Counted(s, b, 0));
    SumZero(Brought(s, b, 0));
    SumZero(Standing(b));
    SumZero(Reaped(s, b));
  }

  lemma {:induction false} RunInv(ss: seq<Tasks>, bs: seq<Books>, acts: seq<Action>, n: nat)
    requires Run(ss, bs, acts) && n < |ss|
    ensures Inv(ss[n]) && Balanced(ss[n], bs[n]) && Conserved(ss[n], bs[n])
  {
    if n == 0 {
      InitInv(ss[0], bs[0]);
    } else {
      RunInv(ss, bs, acts, n - 1);
      assert Step(ss[n - 1], bs[n - 1], acts[n - 1], ss[n - 1 + 1], bs[n - 1 + 1]);
      StepInv(ss[n - 1], acts[n - 1], ss[n]);
      StepBooks(ss[n - 1], bs[n - 1], acts[n - 1], ss[n]);
      StepConserves(ss[n - 1], bs[n - 1], acts[n - 1], ss[n]);
    }
  }

  // ---- Who becomes a zombie, who is dead, who is released next ----

  // A new thread joins its creator's group and has the same parent; a new process
  // leads its own group and is its creator's child. Both start out alive and listed.
  lemma NewTaskIs(s: Tasks, a: Action, s': Tasks)
    requires Next(s, a, s') && (a.NewThread? || a.NewProcess?)
    ensures |s'| == |s| + 1 && s'[..|s|] == s
    ensures var t := s'[|s|];
            && t.phase == Running && t.hashed && !t.exiting && t.doing == Idle && t.toRelease == []
            && (a.NewThread? ==> t.leader == s[a.w].leader && t.parent == s[a.w].parent)
            && (a.NewProcess? ==> t.leader == |s| && t.parent == a.w)
  {
  }

  // Besides p no thread of its group but the leader is on the lists.
  ghost predicate LastThread(s: Tasks, p: nat)
    requires p < |s|
  {
    forall t :: 0 <= t < |s| && t != p && s[t].leader == s[p].leader && t != s[p].leader ==> !s[t].hashed
  }

  // Dead at once: threads that are not leaders; a leader that is alone and whose
  // parent does not want to hear of it; zombie children that a new parent does not.
  ghost predicate DiesAtExit(s: Tasks, a: Action, t: nat) {
    && a.ExitNotify? && t < |s| && a.w < |s|
    && (t in a.dead || (t == a.w && (s[t].leader != t || (Alone(s, t) && a.notify))))
  }

  // Taken along: the zombie leader, by the last other thread of its group, again
  // if the parent does not want to hear of it.
  ghost predicate DiesAtRelease(s: Tasks, a: Action, t: nat) {
    && a.Release? && a.w < |s| && s[a.w].toRelease != [] && t < |s| && a.notify && s[t].phase == Zombie
    && var p := s[a.w].toRelease[0];
    p < |s| && p != t && s[p].leader == t && LastThread(s, p)
  }

  // Won: by the waiter whose exchange finds it a zombie still.
  ghost predicate DiesAtWait(s: Tasks, a: Action, t: nat) {
    a.Try? && a.w < |s| && s[a.w].doing == Saw(t) && t < |s| && s[t].phase == Zombie
  }

  lemma ExitPhases(s: Tasks, a: Action, s': Tasks, t: nat)
    requires Next(s, a, s') && a.ExitNotify? && t < |s|
    ensures |s'| == |s|
    ensures s'[t].phase == if DiesAtExit(s, a, t) then Dead else if t == a.w then Zombie else s[t].phase
    ensures s'[t].toRelease == if t != a.w then s[t].toRelease
                               else if DiesAtExit(s, a, t) then [t] + a.dead else a.dead
  {
    assert s'[t] == AfterExit(s, a.w, a.reaper, a.dead, a.notify, t);
    assert t in a.dead ==> t != a.w;
  }

  lemma ReleasePhases(s: Tasks, a: Action, s': Tasks, t: nat)
    requires Inv(s) && Next(s, a, s') && a.Release? && t < |s|
    ensures |s'| == |s|
    ensures s'[t].phase == if DiesAtRelease(s, a, t) then Dead else s[t].phase
    ensures t != a.w ==> s'[t].toRelease == s[t].toRelease
    ensures t == s[s[a.w].toRelease[0]].leader ==>
              s'[a.w].toRelease == (if DiesAtRelease(s, a, t) then [t] else []) + s[a.w].toRelease[1..]
  {
    ReleaseReady(s, a.w);
    var p := s[a.w].toRelease[0];
    var l := s[p].leader;
    assert TaskInv(s, p);
    LastThreadAlone(s, a.w);
  }

  // After p has left the lists its leader is alone exactly if p was the last.
  lemma LastThreadAlone(s: Tasks, w: nat)
    requires Inv(s) && w < |s| && s[w].toRelease != [] && s[w].toRelease[0] < |s|
    ensures var p := s[w].toRelease[0];
            s[p].leader != p ==> (Alone(Unhashed(s, w), s[p].leader) <==> LastThread(s, p))
  {
    var p, s1 := s[w].toRelease[0], Unhashed(s, w);
    forall t | 0 <= t < |s| ensures s1[t].leader == s[t].leader && s1[t].hashed == (s[t].hashed && t != p) {
    }
  }

  // A task becomes a zombie or dead in no other way, and never comes back.
  lemma PhaseAfter(s: Tasks, a: Action, s': Tasks, t: nat)
    requires Inv(s) && Next(s, a, s') && t < |s|
    ensures t < |s'|
    ensures s'[t].phase == if DiesAtExit(s, a, t) || DiesAtRelease(s, a, t) || DiesAtWait(s, a, t) then Dead
                           else if a.ExitNotify? && t == a.w then Zombie
                           else s[t].phase
  {
    match a {
      case ExitNotify(_, _, _, _) => ExitPhases(s, a, s', t);
      case Release(_, _) => ReleasePhases(s, a, s', t);
      case Try(w) => assert TaskInv(s, w);
      case _ =>
    }
  }

  // ---- Whose child is whose ----

  // Only exit_notify changes parents, and only those of the exiting thread's own
  // children, which all go to the new reaper.
  lemma ParentsAfter(s: Tasks, a: Action, s': Tasks, t: nat)
    requires Next(s, a, s') && t < |s|
    ensures |s| <= |s'|
    ensures s'[t].parent == if a.ExitNotify? && t != a.w && s[t].parent == a.w then a.reaper else s[t].parent
  {
    match a {
      case ExitNotify(w, reaper, dead, notify) =>
        assert s'[t] == AfterExit(s, w, reaper, dead, notify, t);
      case Release(w, notify) =>
        var s1 := Unhashed(s, w);
        assert s1[t].parent == s[t].parent;
      case _ =>
    }
  }

  // The parent of a task on the lists has not exited; the first process is its own.
  ghost predicate ParentRuns(s: Tasks, t: nat) {
    t < |s| && s[t].hashed && s[t].parent != t ==> s[t].parent < |s| && s[s[t].parent].phase == Running
  }

  lemma ExitParents(s: Tasks, a: Action, s': Tasks, t: nat)
    requires Next(s, a, s') && a.ExitNotify? && t < |s| && ParentRuns(s, t)
    ensures ParentRuns(s', t)
  {
    ParentsAfter(s, a, s', t);
    ExitDeadStays(s, a, s', t);
    var p := s'[t].parent;
    if s[t].hashed && p != t {
      assert p != a.w && p < |s|;
      assert s'[p] == AfterExit(s, a.w, a.reaper, a.dead, a.notify, p);
      assert p !in a.dead;
    }
  }

  lemma StepParents(s: Tasks, a: Action, s': Tasks, t: nat)
    requires Inv(s) && Next(s, a, s') && t < |s'| && (forall u :: 0 <= u < |s| ==> ParentRuns(s, u))
    ensures ParentRuns(s', t)
  {
    if t < |s| {
      assert ParentRuns(s, t);
      if a.ExitNotify? {
        ExitParents(s, a, s', t);
      } else {
        ParentsAfter(s, a, s', t);
        DeadStays(s, a, s', t);
        RunningStays(s, a, s', s[t].parent);
      }
    } else {
      SizeAfter(s, a, s');
      NewTaskIs(s, a, s');
      assert TaskInv(s, a.w) && ParentRuns(s, a.w);
    }
  }

  // Nobody else can make a running task exit.
  lemma RunningStays(s: Tasks, a: Action, s': Tasks, p: nat)
    requires Inv(s) && Next(s, a, s') && !a.ExitNotify?
    ensures p < |s| && s[p].phase == Running ==> p < |s'| && s'[p].phase == Running
  {
    if p < |s| && s[p].phase == Running {
      match a {
        case Try(w) => assert TaskInv(s, w);
        case Release(w, notify) => ReleaseRunning(s, w, notify, p);
        case _ =>
      }
    }
  }

  lemma ReleaseRunning(s: Tasks, w: nat, notify: bool, p: nat)
    requires Inv(s) && Enabled(s, Release(w, notify)) && p < |s| && s[p].phase == Running
    ensures Do(s, Release(w, notify))[p].phase == Running
  {
    var s1 := Unhashed(s, w);
    assert s1[p].phase == Running;
  }

  lemma {:induction false} RunParents(ss: seq<Tasks>, bs: seq<Books>, acts: seq<Action>, n: nat, t: nat)
    requires Run(ss, bs, acts) && n < |ss|
    ensures ParentRuns(ss[n], t)
  {
    if n > 0 && t < |ss[n]| {
      RunInv(ss, bs, acts, n - 1);
      var s := ss[n - 1];
      forall u | 0 <= u < |s| ensures ParentRuns(s, u) {
        RunParents(ss, bs, acts, n - 1, u);
      }
      assert Step(ss[n - 1], bs[n - 1], acts[n - 1], ss[n - 1 + 1], bs[n - 1 + 1]);
      StepParents(ss[n - 1], acts[n - 1], ss[n], t);
    }
  }

  // A zombie that can be reaped has a parent that has not exited, and any thread of
  // the parent's group that is free to wait can find it.
  lemma ZombieCanBeFound(ss: seq<Tasks>, bs: seq<Books>, acts: seq<Action>, n: nat, p: nat)
    requires Run(ss, bs, acts) && n < |ss| && p < |ss[n]|
    requires ss[n][p].leader == p != ss[n][p].parent && ss[n][p].hashed
    requires ss[n][p].phase == Zombie && Alone(ss[n], p)
    ensures ss[n][p].parent < |ss[n]| && ss[n][ss[n][p].parent].phase == Running && ss[n][ss[n][p].parent].hashed
    ensures forall w: nat :: Calm(ss[n], w) && ss[n][w].leader == ss[n][ss[n][p].parent].leader ==>
              Enabled(ss[n], Look(w, p))
  {
    RunInv(ss, bs, acts, n);
    RunParents(ss, bs, acts, n, p);
    assert TaskInv(ss[n], p) && TaskInv(ss[n], ss[n][p].parent);
  }

  // No task is ever released twice, and release_task is only ever entered for a
  // dead task that is still on the lists.
  lemma ReleasedAtMostOnce(ss: seq<Tasks>, bs: seq<Books>, acts: seq<Action>, n: nat)
    requires Run(ss, bs, acts) && n < |ss|
    ensures forall t: nat :: t < |ss[n]| ==> ss[n][t].releases <= 1
    ensures n < |acts| && acts[n].Release? ==>
              && acts[n].w < |ss[n]| && ss[n][acts[n].w].toRelease != []
              && var p := ss[n][acts[n].w].toRelease[0];
                 p < |ss[n]| && ss[n][p].hashed && ss[n][p].phase == Dead && ss[n][p].releases == 0
  {
    RunInv(ss, bs, acts, n);
    forall t: nat | t < |ss[n]| ensures ss[n][t].releases <= 1 {
      assert TaskInv(ss[n], t);
    }
    if n < |acts| && acts[n].Release? {
      assert Step(ss[n], bs[n], acts[n], ss[n + 1], bs[n + 1]);
      ReleaseReady(ss[n], acts[n].w);
    }
  }

  // A dead task that has not been released is in exactly one thread's hands.
  lemma DeadTaskInOneHand(ss: seq<Tasks>, bs: seq<Books>, acts: seq<Action>, n: nat, p: nat)
    requires Run(ss, bs, acts) && n < |ss| && p < |ss[n]| && ss[n][p].phase == Dead && ss[n][p].hashed
    ensures ss[n][p].claim.Some? && ss[n][p].claim.value < |ss[n]|
    ensures forall w: nat :: w < |ss[n]| ==>
              (w == ss[n][p].claim.value <==> ss[n][w].doing == Owns(p) || p in ss[n][w].toRelease)
  {
    RunInv(ss, bs, acts, n);
    var s := ss[n];
    assert TaskInv(s, p);
    forall w: nat | w < |s| && (s[w].doing == Owns(p) || p in s[w].toRelease) ensures w == s[p].claim.value {
      assert TaskInv(s, w);
      assert Held(s, w, p);
    }
  }

  // Whoever made a task dead stays the one: no later waiter, exiting parent or
  // last thread can take it over.
  lemma {:induction false} ClaimIsFinal(ss: seq<Tasks>, bs: seq<Books>, acts: seq<Action>, i: nat, j: nat, p: nat)
    requires Run(ss, bs, acts) && i <= j < |ss| && p < |ss[i]| && ss[i][p].phase == Dead
    ensures p < |ss[j]| && ss[j][p].phase == Dead && ss[j][p].claim == ss[i][p].claim
    decreases j - i
  {
    if i < j {
      assert Step(ss[i], bs[i], acts[i], ss[i + 1], bs[i + 1]);
      DeadStays(ss[i], acts[i], ss[i + 1], p);
      ClaimIsFinal(ss, bs, acts, i + 1, j, p);
    }
  }

  // Between winning the exchange and folding, nobody changes the counters that
  // the waiter reads without a lock.
  lemma OwnedGroupIsFrozen(s: Tasks, b: Books, a: Action, s': Tasks, w: nat)
    requires Inv(s) && Balanced(s, b) && Next(s, a, s') && w < |s| && s[w].doing.Owns? && a != Fold(w)
    ensures var p := s[w].doing.p;
            && p < |s| <= |s'| && s'[w].doing == s[w].doing
            && DoBooks(s, b, a)[p].ownTotal == b[p].ownTotal && DoBooks(s, b, a)[p].childTotal == b[p].childTotal
            && forall t: nat :: t < |s'| && s'[t].leader == p ==> t < |s| && s[t].leader == p
  {
    FoldReady(s, b, w);
    var p := s[w].doing.p;
    OwnedHands(s, a, s', w);
    OwnedTotals(s, b, a, w);
    if a.NewThread? || a.NewProcess? {
      assert TaskInv(s, a.w);
      if s[a.w].leader == p { DeadGroup(s, p, a.w); }
    }
    forall t: nat | t < |s| ensures s'[t].leader == s[t].leader {
      DeadStays(s, a, s', t);
    }
  }

  lemma OwnedTotals(s: Tasks, b: Books, a: Action, w: nat)
    requires Inv(s) && Balanced(s, b) && Enabled(s, a) && w < |s| && s[w].doing.Owns? && a != Fold(w)
    ensures var p := s[w].doing.p;
            && p < |s| <= |DoBooks(s, b, a)|
            && DoBooks(s, b, a)[p].ownTotal == b[p].ownTotal && DoBooks(s, b, a)[p].childTotal == b[p].childTotal
  {
    FoldReady(s, b, w);
    assert TaskInv(s, w);
    if a.Release? {
      ReleaseReady(s, a.w);
    } else if a.Fold? {
      FoldReady(s, b, a.w);
      WaiterAlive(s, a.w);
    }
  }

  lemma OwnedHands(s: Tasks, a: Action, s': Tasks, w: nat)
    requires Next(s, a, s') && w < |s| && s[w].doing.Owns? && a != Fold(w)
    ensures w < |s'| && s'[w].doing == s[w].doing
  {
    match a {
      case ExitNotify(_, _, _, _) => ExitDeadStays(s, a, s', w);
      case Release(_, _) => ReleaseDeadStays(s, a, s', w);
      case _ =>
    }
  }

  lemma {:induction false} FoldedStays(ss: seq<Tasks>, bs: seq<Books>, acts: seq<Action>, i: nat, j: nat, p: nat)
    requires Run(ss, bs, acts) && i <= j < |ss| && p < |bs[i]| && bs[i][p].folded.Some?
    ensures p < |bs[j]| && bs[j][p].folded == bs[i][p].folded
    decreases j - i
  {
    if i < j {
      RunInv(ss, bs, acts, i);
      assert Step(ss[i], bs[i], acts[i], ss[i + 1], bs[i + 1]);
      if acts[i].Fold? { FoldReady(ss[i], bs[i], acts[i].w); }
      FoldedStays(ss, bs, acts, i + 1, j, p);
    }
  }

  // The waiter's own group gains the counts of p, of its dead threads and of the
  // children it reaped; no other action and no other group's child total changes.
  lemma ChildTotalAfter(s: Tasks, b: Books, a: Action, s': Tasks, g: nat)
    requires Inv(s) && Balanced(s, b) && Next(s, a, s') && g < |s|
    ensures g < |DoBooks(s, b, a)|
    ensures DoBooks(s, b, a)[g].childTotal ==
            if a.Fold? && s[a.w].leader == g then
              var p := s[a.w].doing.p;
              b[g].childTotal + b[p].switches + b[p].ownTotal + b[p].childTotal
            else b[g].childTotal
  {
    if a.Fold? { FoldReady(s, b, a.w); }
  }

  // A process is folded into a parent at most once in a run.
  lemma FoldedAtMostOnce(ss: seq<Tasks>, bs: seq<Books>, acts: seq<Action>, i: nat, j: nat)
    requires Run(ss, bs, acts) && i < j < |acts| && acts[i].Fold? && acts[j].Fold?
    ensures acts[i].w < |ss[i]| && acts[j].w < |ss[j]|
    ensures ss[i][acts[i].w].doing.Owns? && ss[j][acts[j].w].doing.Owns?
    ensures ss[i][acts[i].w].doing.p != ss[j][acts[j].w].doing.p
  {
    assert Step(ss[i], bs[i], acts[i], ss[i + 1], bs[i + 1]);
    assert Step(ss[j], bs[j], acts[j], ss[j + 1], bs[j + 1]);
    RunInv(ss, bs, acts, j);
    FoldReady(ss[j], bs[j], acts[j].w);
    var p := ss[i][acts[i].w].doing.p;
    assert bs[i + 1][p].folded.Some?;
    FoldedStays(ss, bs, acts, i + 1, j, p);
  }

  // At every moment a process's child total is the sum, over the processes its
  // threads reaped, of what was counted for every thread of each and of that
  // process's own child total; and all standing child totals together are what
  // was counted for all tasks of reaped processes, each once.
  lemma CountsAreConserved(ss: seq<Tasks>, bs: seq<Books>, acts: seq<Action>, n: nat)
    requires Run(ss, bs, acts) && n < |ss|
    ensures |bs[n]| == |ss[n]|
    ensures forall g: nat :: g < |bs[n]| ==> bs[n][g].childTotal == Sum(Brought(ss[n], bs[n], g))
    ensures Sum(Standing(bs[n])) == Sum(Reaped(ss[n], bs[n]))
  {
    RunInv(ss, bs, acts, n);
    forall g: nat | g < |bs[n]| ensures bs[n][g].childTotal == Sum(Brought(ss[n], bs[n], g)) {
      assert ChildLaw(ss[n], bs[n], g);
    }
  }

  // ---- Counted and made ----

  // The count of t has been read for good: by the waiter for a leader, by
  // __exit_signal for any other thread.
  ghost predicate IsRead(s: Tasks, b: Books, t: nat) {
    t < |b| == |s| && if s[t].leader == t then b[t].folded.Some? else !s[t].hashed
  }

  // The action is that read.
  ghost predicate Reads(s: Tasks, a: Action, t: nat) {
    match a
    case Fold(w) => w < |s| && s[w].doing == Owns(t)
    case Release(w, _) => w < |s| && s[w].toRelease != [] && s[w].toRelease[0] == t < |s| && s[t].leader != t
    case _ => false
  }

  // What one action does to the count of an old task and to what was read of it.
  ghost predicate ReadStep(s: Tasks, b: Books, a: Action, s': Tasks, b': Books, t: nat) {
    && t < |b| == |s| && t < |b'| == |s'|
    && (IsRead(s', b', t) <==> IsRead(s, b, t) || Reads(s, a, t))
    && !(IsRead(s, b, t) && Reads(s, a, t))
    && (IsRead(s, b, t) ==> b'[t].taken == b[t].taken)
    && (Reads(s, a, t) ==> b'[t].taken == b[t].switches)
    && b'[t].switches == b[t].switches + if a == Switch(t) then 1 else 0
  }

  lemma FoldReads(s: Tasks, b: Books, w: nat, s': Tasks, t: nat)
    requires Inv(s) && Balanced(s, b) && Next(s, Fold(w), s') && t < |s|
    ensures ReadStep(s, b, Fold(w), s', DoBooks(s, b, Fold(w)), t)
  {
    FoldReady(s, b, w);
  }

  lemma ReleaseReads(s: Tasks, b: Books, a: Action, s': Tasks, t: nat)
    requires Inv(s) && Balanced(s, b) && Next(s, a, s') && a.Release? && t < |s|
    ensures ReadStep(s, b, a, s', DoBooks(s, b, a), t)
  {
    CountReady(s, b, a.w);
    ReleaseDeadStays(s, a, s', t);
    ReleaseUnhashes(s, a, s', t);
  }

  lemma ReleaseUnhashes(s: Tasks, a: Action, s': Tasks, t: nat)
    requires Next(s, a, s') && a.Release? && t < |s|
    ensures |s'| == |s| && s'[t].hashed == (s[t].hashed && t != s[a.w].toRelease[0])
  {
    var s1 := Unhashed(s, a.w);
    assert s1[t].hashed == (s[t].hashed && t != s[a.w].toRelease[0]);
  }

  lemma OtherReads(s: Tasks, b: Books, a: Action, s': Tasks, t: nat)
    requires Balanced(s, b) && Next(s, a, s') && !a.Fold? && !a.Release? && t < |s|
    ensures ReadStep(s, b, a, s', DoBooks(s, b, a), t)
  {
    if a.ExitNotify? {
      assert s'[t] == AfterExit(s, a.w, a.reaper, a.dead, a.notify, t);
    }
  }

  lemma StepReads(s: Tasks, b: Books, a: Action, s': Tasks, t: nat)
    requires Inv(s) && Balanced(s, b) && Next(s, a, s') && t < |s|
    ensures ReadStep(s, b, a, s', DoBooks(s, b, a), t)
  {
    match a
    case Fold(w) => FoldReads(s, b, w, s', t);
    case Release(_, _) => ReleaseReads(s, b, a, s', t);
    case _ => OtherReads(s, b, a, s', t);
  }

  // A task of the next state is an old one, or brand-new and not read.
  lemma NewTaskUnread(s: Tasks, b: Books, a: Action, s': Tasks, t: nat)
    requires Balanced(s, b) && Next(s, a, s') && |s| <= t < |s'|
    ensures t < |DoBooks(s, b, a)| && DoBooks(s, b, a)[t] == Book(0, 0, 0, 0, None)
    ensures !IsRead(s', DoBooks(s, b, a), t)
  {
    SizeAfter(s, a, s');
  }

  lemma SizeAfter(s: Tasks, a: Action, s': Tasks)
    requires Next(s, a, s')
    ensures |s'| == |s| + if a.NewThread? || a.NewProcess? then 1 else 0
  {
  }

  lemma ReadsOld(s: Tasks, a: Action, t: nat)
    requires Inv(s) && Enabled(s, a) && Reads(s, a, t)
    ensures t < |s|
  {
    assert TaskInv(s, a.w);
  }

  // ReadStep, for a task that need not exist yet.
  ghost predicate Logs(s: Tasks, b: Books, a: Action, s': Tasks, b': Books, t: nat) {
    && |b| == |s| <= |s'| == |b'|
    && (if t < |s| then ReadStep(s, b, a, s', b', t) else !Reads(s, a, t) && !IsRead(s', b', t))
    && (t < |s'| && !IsRead(s', b', t) ==> b'[t].taken == 0)
  }

  // What a run does to the count of one task.
  ghost predicate Log(ss: seq<Tasks>, bs: seq<Books>, acts: seq<Action>, t: nat) {
    && |ss| == |bs| == |acts| + 1 && |bs[0]| == |ss[0]| && !IsRead(ss[0], bs[0], t)
    && (t < |bs[0]| ==> bs[0][t].taken == 0)
    && forall i :: 0 <= i < |acts| ==> Logs(ss[i], bs[i], acts[i], ss[i + 1], bs[i + 1], t)
  }

  lemma StepLogs(s: Tasks, b: Books, a: Action, s': Tasks, t: nat)
    requires Inv(s) && Balanced(s, b) && Next(s, a, s')
    ensures Logs(s, b, a, s', DoBooks(s, b, a), t)
  {
    SizeAfter(s, a, s');
    StepBooks(s, b, a, s');
    if t < |s| {
      StepReads(s, b, a, s', t);
    } else {
      if Reads(s, a, t) { ReadsOld(s, a, t); }
      if t < |s'| { NewTaskUnread(s, b, a, s', t); }
    }
    if t < |s'| { assert BookInv(s', DoBooks(s, b, a), t); }
  }

  lemma RunIsLog(ss: seq<Tasks>, bs: seq<Books>, acts: seq<Action>, t: nat)
    requires Run(ss, bs, acts)
    ensures Log(ss, bs, acts, t)
  {
    forall i | 0 <= i < |acts| ensures Logs(ss[i], bs[i], acts[i], ss[i + 1], bs[i + 1], t) {
      RunInv(ss, bs, acts, i);
      assert Step(ss[i], bs[i], acts[i], ss[i + 1], bs[i + 1]);
      StepLogs(ss[i], bs[i], acts[i], ss[i + 1], t);
    }
  }

  // The switches t made, among the first n actions, after its count was read.
  ghost function Late(ss: seq<Tasks>, bs: seq<Books>, acts: seq<Action>, n: nat, t: nat): nat
    requires n <= |acts| < |ss| == |bs|
  {
    if n == 0 then 0
    else Late(ss, bs, acts, n - 1, t)
         + if acts[n - 1] == Switch(t) && IsRead(ss[n - 1], bs[n - 1], t) then 1 else 0
  }

  // Of a task that was read, all switches but the late ones were counted; of any
  // other, none.
  lemma {:induction false} LateIsUncounted(ss: seq<Tasks>, bs: seq<Books>, acts: seq<Action>, n: nat, t: nat)
    requires Log(ss, bs, acts, t) && n < |ss|
    ensures |bs[n]| == |ss[n]|
    ensures IsRead(ss[n], bs[n], t) ==> bs[n][t].switches == bs[n][t].taken + Late(ss, bs, acts, n, t)
    ensures !IsRead(ss[n], bs[n], t) ==> Late(ss, bs, acts, n, t) == 0
    ensures t < |ss[n]| && !IsRead(ss[n], bs[n], t) ==> bs[n][t].taken == 0
  {
    if n > 0 {
      LateIsUncounted(ss, bs, acts, n - 1, t);
      assert Logs(ss[n - 1], bs[n - 1], acts[n - 1], ss[n - 1 + 1], bs[n - 1 + 1], t);
    }
  }

  // t belongs to a group that a waiter has folded.
  ghost predicate InFolded(s: Tasks, b: Books, t: nat) {
    t < |s| && s[t].leader < |b| && b[s[t].leader].folded.Some?
  }

  // The switches made by all tasks of folded groups, and the late ones of them.
  ghost function Made(s: Tasks, b: Books): seq<nat>
    requires |b| == |s|
  {
    seq(|s|, t requires 0 <= t < |s| => if InFolded(s, b, t) then b[t].switches else 0)
  }

  ghost function Lost(ss: seq<Tasks>, bs: seq<Books>, acts: seq<Action>, n: nat): seq<nat>
    requires n <= |acts| < |ss| == |bs|
  {
    seq(|ss[n]|, t requires 0 <= t < |ss[n]| => if InFolded(ss[n], bs[n], t) then Late(ss, bs, acts, n, t) else 0)
  }

  // In a folded group every count has been read.
  lemma FoldedIsRead(s: Tasks, b: Books, t: nat)
    requires Inv(s) && Balanced(s, b) && InFolded(s, b, t)
    ensures IsRead(s, b, t)
  {
    var l := s[t].leader;
    assert BookInv(s, b, l);
    DeadGroup(s, l, t);
  }

  // At every moment of every run the child totals that stand, together with the
  // switches made too late to be counted, are all the switches that the tasks of
  // reaped processes have made.
  lemma SwitchesAreConserved(ss: seq<Tasks>, bs: seq<Books>, acts: seq<Action>, n: nat)
    requires Run(ss, bs, acts) && n < |ss|
    ensures |bs[n]| == |ss[n]|
    ensures Sum(Standing(bs[n])) + Sum(Lost(ss, bs, acts, n)) == Sum(Made(ss[n], bs[n]))
  {
    RunInv(ss, bs, acts, n);
    var s, b := ss[n], bs[n];
    forall t | 0 <= t < |s| ensures Made(s, b)[t] == Reaped(s, b)[t] + Lost(ss, bs, acts, n)[t] {
      if InFolded(s, b, t) {
        FoldedIsRead(s, b, t);
        RunIsLog(ss, bs, acts, t);
        LateIsUncounted(ss, bs, acts, n, t);
      }
    }
    SumAdd(Reaped(s, b), Lost(ss, bs, acts, n), Made(s, b));
  }

  // ---- Exactly when nothing is lost ----

  lemma {:induction false} SumIsZero(q: seq<nat>)
    ensures Sum(q) == 0 <==> forall i :: 0 <= i < |q| ==> q[i] == 0
  {
    if q != [] {
      var n := |q| - 1;
      SumIsZero(q[..n]);
      assert forall i :: 0 <= i < n ==> q[..n][i] == q[i];
    }
  }

  // t switches, among the first n actions, after its count has been read.
  ghost predicate SwitchesLate(ss: seq<Tasks>, acts: seq<Action>, n: nat, t: nat)
    requires n <= |acts| < |ss|
  {
    exists i, j :: 0 <= i < j < n && Reads(ss[i], acts[i], t) && acts[j] == Switch(t)
  }

  // A count has been read exactly when some earlier action read it.
  lemma {:induction false} IsReadIff(ss: seq<Tasks>, bs: seq<Books>, acts: seq<Action>, n: nat, t: nat)
    requires Log(ss, bs, acts, t) && n < |ss|
    ensures IsRead(ss[n], bs[n], t) <==> exists i :: 0 <= i < n && Reads(ss[i], acts[i], t)
  {
    if n > 0 {
      IsReadIff(ss, bs, acts, n - 1, t);
      assert Logs(ss[n - 1], bs[n - 1], acts[n - 1], ss[n - 1 + 1], bs[n - 1 + 1], t);
    }
  }

  lemma {:induction false} LateIff(ss: seq<Tasks>, bs: seq<Books>, acts: seq<Action>, n: nat, t: nat)
    requires Log(ss, bs, acts, t) && n <= |acts|
    ensures Late(ss, bs, acts, n, t) > 0 <==> SwitchesLate(ss, acts, n, t)
  {
    if n > 0 {
      LateIff(ss, bs, acts, n - 1, t);
      IsReadIff(ss, bs, acts, n - 1, t);
    }
  }

  // The child totals account for every switch of every task of the processes that
  // were reaped if and only if none of those tasks switched after its count was read.
  lemma NothingLostIff(ss: seq<Tasks>, bs: seq<Books>, acts: seq<Action>, n: nat)
    requires Run(ss, bs, acts) && n < |ss|
    ensures |bs[n]| == |ss[n]|
    ensures Sum(Standing(bs[n])) == Sum(Made(ss[n], bs[n])) <==>
            forall t :: 0 <= t < |ss[n]| && InFolded(ss[n], bs[n], t) ==> !SwitchesLate(ss, acts, n, t)
  {
    SwitchesAreConserved(ss, bs, acts, n);
    var lost := Lost(ss, bs, acts, n);
    SumIsZero(lost);
    forall t | 0 <= t < |ss[n]|
      ensures lost[t] == 0 <==> (InFolded(ss[n], bs[n], t) ==> !SwitchesLate(ss, acts, n, t))
    {
      RunIsLog(ss, bs, acts, t);
      LateIff(ss, bs, acts, n, t);
    }
  }

  // ---- A run that loses a switch ----

  lemma Extend(ss: seq<Tasks>, bs: seq<Books>, acts: seq<Action>, a: Action, s': Tasks, b': Books)
    requires Run(ss, bs, acts) && Step(ss[|acts|], bs[|acts|], a, s', b')
    ensures Run(ss + [s'], bs + [b'], acts + [a])
  {
    var ss', bs', acts' := ss + [s'], bs + [b'], acts + [a];
    forall i | 0 <= i < |acts'| ensures Step(ss'[i], bs'[i], acts'[i], ss'[i + 1], bs'[i + 1]) {
      if i < |acts| {
        assert Step(ss[i], bs[i], acts[i], ss[i + 1], bs[i + 1]);
      }
    }
  }

  const NO_BOOK: Book := Book(0, 0, 0, 0, None)

  // The first process has a child, which exits and is left a zombie.
  lemma ChildBecomesZombie() returns (ss: seq<Tasks>, bs: seq<Books>, acts: seq<Action>)
    ensures Run(ss, bs, acts) && bs[|acts|] == [NO_BOOK, NO_BOOK]
    ensures ss[|acts|] == [Fresh(0, 0), Fresh(1, 0).(exiting := true, phase := Zombie)]
  {
    var s0, b0 := [Fresh(0, 0)], [NO_BOOK];
    ss, bs, acts := [s0], [b0], [];
    assert Run(ss, bs, acts);
    var s1, b1 := [Fresh(0, 0), Fresh(1, 0)], [NO_BOOK, NO_BOOK];
    assert s1 == Do(s0, NewProcess(0)) && b1 == DoBooks(s0, b0, NewProcess(0));
    Extend(ss, bs, acts, NewProcess(0), s1, b1);
    ss, bs, acts := ss + [s1], bs + [b1], acts + [NewProcess(0)];
    var s2 := [Fresh(0, 0), Fresh(1, 0).(exiting := true)];
    assert s2 == Do(s1, StartExit(1));
    Extend(ss, bs, acts, StartExit(1), s2, b1);
    ss, bs, acts := ss + [s2], bs + [b1], acts + [StartExit(1)];
    var s3 := [Fresh(0, 0), Fresh(1, 0).(exiting := true, phase := Zombie)];
    assert Enabled(s2, ExitNotify(1, 0, [], false));
    assert s3 == Do(s2, ExitNotify(1, 0, [], false));
    Extend(ss, bs, acts, ExitNotify(1, 0, [], false), s3, b1);
    ss, bs, acts := ss + [s3], bs + [b1], acts + [ExitNotify(1, 0, [], false)];
  }

  // Its parent waits for it and folds its counts.
  lemma ChildIsFolded() returns (ss: seq<Tasks>, bs: seq<Books>, acts: seq<Action>)
    ensures Run(ss, bs, acts) && bs[|acts|] == [NO_BOOK, NO_BOOK.(folded := Some(0))]
    ensures |ss[|acts|]| == 2 && ss[|acts|][1].leader == 1 && ss[|acts|][0].leader == 0
  {
    ss, bs, acts := ChildBecomesZombie();
    var s3, b := ss[|acts|], [NO_BOOK, NO_BOOK];
    var s4 := s3[0 := s3[0].(doing := Saw(1))];
    Extend(ss, bs, acts, Look(0, 1), s4, b);
    ss, bs, acts := ss + [s4], bs + [b], acts + [Look(0, 1)];
    var s5 := Won(s4, 0, 1);
    Extend(ss, bs, acts, Try(0), s5, b);
    ss, bs, acts := ss + [s5], bs + [b], acts + [Try(0)];
    var s6 := s5[0 := s5[0].(doing := Idle, toRelease := [1])];
    var b6 := [NO_BOOK, NO_BOOK.(folded := Some(0))];
    assert b6 == DoBooks(s5, b, Fold(0));
    Extend(ss, bs, acts, Fold(0), s6, b6);
    ss, bs, acts := ss + [s6], bs + [b6], acts + [Fold(0)];
  }

  // Then the child switches once more, on its way off the CPU: one switch made,
  // none counted.
  lemma SwitchCanBeLost()
    ensures exists ss, bs, acts :: Run(ss, bs, acts) && Loses(ss[|acts|], bs[|acts|])
  {
    var ss, bs, acts := ChildIsFolded();
    var s, b := ss[|acts|], [NO_BOOK, NO_BOOK.(folded := Some(0), switches := 1)];
    assert b == DoBooks(s, bs[|acts|], Switch(1));
    Extend(ss, bs, acts, Switch(1), s, b);
    ss, bs, acts := ss + [s], bs + [b], acts + [Switch(1)];
    assert Standing(b) == [0, 0] && Made(s, b) == [0, 1];
    SumZero([0, 0]);
    SumAppend([0], 1);
    assert [0] + [1] == [0, 1];
    assert Run(ss, bs, acts) && Loses(ss[|acts|], bs[|acts|]);
  }

  ghost predicate Loses(s: Tasks, b: Books) {
    |b| == |s| && Sum(Standing(b)) < Sum(Made(s, b))
  }
}
