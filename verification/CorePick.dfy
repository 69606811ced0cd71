// Core scheduling's core-wide task selection: one pick per hyperthread sibling,
// started over whenever a better, incompatible task turns up.
module CorePick {

  import opened Options
  import Collections

  // rq is the sibling the task is queued on; kernelPrio is __task_prio, less is
  // more: -2 stop, -1 deadline, 0..99 real-time, 120 fair, 140 idle; vruntime
  // stands for what cfs_prio_less compares.
  datatype Task = Task(rq: nat, id: nat, idle: bool, cookie: nat, kernelPrio: int, deadline: int, vruntime: int)

  // "a has lower priority than b"
  predicate PrioLess(a: Task, b: Task) {
    if -a.kernelPrio < -b.kernelPrio then true
    else if -b.kernelPrio < -a.kernelPrio then false
    else if a.kernelPrio == -1 then !(a.deadline < b.deadline)
    else if a.kernelPrio == 120 then a.vruntime > b.vruntime
    else false
  }

  predicate CookieEquals(a: Task, cookie: nat) {
    a.idle || a.cookie == cookie
  }

  predicate CookieMatch(a: Task, b: Task) {
    a.idle || b.idle || a.cookie == b.cookie
  }

  // The order the priorities stand for: the smaller kernel priority first, then the
  // earlier deadline, or in the fair class the smaller vruntime.
  ghost predicate Outranks(a: Task, b: Task) {
    || a.kernelPrio < b.kernelPrio
    || (a.kernelPrio == b.kernelPrio == -1 && a.deadline < b.deadline)
    || (a.kernelPrio == b.kernelPrio == 120 && a.vruntime < b.vruntime)
  }

  ghost predicate SameDeadline(a: Task, b: Task) {
    a.kernelPrio == b.kernelPrio == -1 && a.deadline == b.deadline
  }

  // prio_less is that order, except that it puts equal deadlines below each other.
  lemma PrioIsRank(a: Task, b: Task)
    ensures PrioLess(a, b) <==> Outranks(b, a) || SameDeadline(a, b)
    ensures Lower(a, b) <==> Outranks(b, a)
  {
  }

  // Two tasks with the same deadline are each of lower priority than the other.
  lemma EqualDeadlinesAreNotOrdered(a: Task, b: Task)
    requires a.kernelPrio == -1 && b.kernelPrio == -1
    ensures PrioLess(a, b) && PrioLess(b, a) <==> a.deadline == b.deadline
  {
  }

  // No two tagged tasks of different cookies have the same deadline.
  ghost predicate DistinctDeadlines(tasks: set<Task>) {
    forall a, b :: a in tasks && b in tasks ==> !Tied(a, b)
  }

  ghost predicate Tied(a: Task, b: Task) {
    && a.kernelPrio == -1 && b.kernelPrio == -1 && a.deadline == b.deadline
    && a.cookie != b.cookie && a.cookie != 0 && b.cookie != 0
  }

  ghost predicate Lower(a: Task, b: Task) {
    PrioLess(a, b) && !PrioLess(b, a)
  }

  // t can replace m as the task the core is built around: it is higher, or as high
  // and, of two tasks with one deadline, the untagged one, of others the tagged.
  ghost predicate Beats(t: Task, m: Task) {
    Lower(m, t) || (!Lower(t, m) && Favoured(t) && !Favoured(m))
  }

  ghost predicate Favoured(t: Task) {
    (t.kernelPrio == -1) == (t.cookie == 0)
  }

  ghost function Above(tasks: set<Task>, m: Task): set<Task> {
    set t | t in tasks && Beats(t, m)
  }

  // Restarting moves strictly up, so it can happen only finitely often.
  lemma RestartRises(tasks: set<Task>, m: Task, p: Task)
    requires p in tasks && Beats(p, m)
    ensures |Above(tasks, p)| < |Above(tasks, m)|
  {
    forall t | t in Above(tasks, p) ensures t in Above(tasks, m) {
    }
    assert p in Above(tasks, m) && p !in Above(tasks, p);
    assert Above(tasks, p) <= Above(tasks, m) - {p};
    Collections.SubsetSize(Above(tasks, p), Above(tasks, m) - {p});
  }

  // What the scheduling classes and the cookie tree offer, fixed while the core
  // is locked. Class numbers run from the highest to idle, the last.
  datatype Offers = Offers(classPick: (nat, nat) -> Option<Task>, coreFind: (nat, nat) -> Task,
                           idle: nat -> Task, classes: nat)

  ghost predicate GoodOffers(o: Offers, siblings: nat, tasks: set<Task>) {
    && 0 < o.classes
    && DistinctDeadlines(tasks)
    && (forall i :: 0 <= i < siblings ==> GoodIdle(o, i, tasks))
    && (forall i, c :: 0 <= i < siblings && 0 <= c < o.classes ==> GoodClassPick(o, i, c, tasks))
    && (forall i, cookie :: 0 <= i < siblings && 0 <= cookie ==> GoodFind(o, i, cookie, tasks))
    && (forall i, c, j, d :: 0 <= i < siblings && 0 <= j < siblings && 0 <= c < d < o.classes ==> Ranked(o, i, c, j, d))
  }

  // A higher class's task has the higher kernel priority, on whatever siblings.
  ghost predicate Ranked(o: Offers, i: nat, c: nat, j: nat, d: nat) {
    o.classPick(i, c).Some? && o.classPick(j, d).Some? ==>
      o.classPick(i, c).value.kernelPrio < o.classPick(j, d).value.kernelPrio
  }

  ghost predicate GoodIdle(o: Offers, i: nat, tasks: set<Task>) {
    o.idle(i) in tasks && o.idle(i).idle && o.idle(i).rq == i
  }

  // The idle class always offers the idle task; the others offer real tasks.
  ghost predicate GoodClassPick(o: Offers, i: nat, c: nat, tasks: set<Task>)
    requires 0 < o.classes
  {
    if c == o.classes - 1 then o.classPick(i, c) == Some(o.idle(i))
    else o.classPick(i, c).Some? ==>
           o.classPick(i, c).value in tasks && !o.classPick(i, c).value.idle && o.classPick(i, c).value.rq == i
  }

  // The cookie tree offers a task with that cookie, or the idle task.
  ghost predicate GoodFind(o: Offers, i: nat, cookie: nat, tasks: set<Task>) {
    var t := o.coreFind(i, cookie);
    t == o.idle(i) || (t in tasks && t.rq == i && !t.idle && t.cookie == cookie)
  }

  function PickTask(o: Offers, i: nat, c: nat, cookie: nat, max: Option<Task>): Option<Task> {
    if o.classPick(i, c).None? then None
    else
      var classPick := o.classPick(i, c).value;
      if cookie == 0 then
        if max.Some? && classPick.cookie != 0 && PrioLess(classPick, max.value) then Some(o.idle(i))
        else Some(classPick)
      else if CookieEquals(classPick, cookie) then Some(classPick)
      else
        var cookiePick := o.coreFind(i, cookie);
        if PrioLess(cookiePick, classPick) && (max.None? || PrioLess(max.value, classPick)) then Some(classPick)
        else Some(cookiePick)
  }

  // What pick_task makes of the class's offer t, without prio_less: on an untagged
  // core t stands unless it is tagged and does not outrank max; on a tagged one it
  // stands if it matches, or outranks both max and the best task that matches.
  lemma PickTaskMeans(o: Offers, i: nat, c: nat, cookie: nat, m: Task)
    ensures o.classPick(i, c).None? <==> PickTask(o, i, c, cookie, Some(m)).None?
    ensures o.classPick(i, c).Some? ==>
              var t, f, p := o.classPick(i, c).value, o.coreFind(i, cookie), PickTask(o, i, c, cookie, Some(m)).value;
              if cookie == 0 then
                p == if t.cookie == 0 || !(Outranks(m, t) || SameDeadline(m, t)) then t else o.idle(i)
              else if t.idle || t.cookie == cookie then p == t
              else p == if (Outranks(t, f) || SameDeadline(t, f)) && (Outranks(t, m) || SameDeadline(t, m)) then t else f
  {
    if o.classPick(i, c).Some? {
      PrioIsRank(o.classPick(i, c).value, m);
      PrioIsRank(m, o.classPick(i, c).value);
      PrioIsRank(o.coreFind(i, cookie), o.classPick(i, c).value);
    }
  }

  // ---- The selection loop on values ----

  datatype Visited = Visited(max: Option<Task>, cookie: nat, picks: seq<Option<Task>>, restart: bool)

  // Only sibling i keeps a pick.
  ghost function Only(siblings: nat, i: nat, p: Task): (picks: seq<Option<Task>>)
    ensures |picks| == siblings
    ensures forall h :: 0 <= h < siblings ==> picks[h] == if h == i then Some(p) else None
  {
    seq(siblings, h requires 0 <= h < siblings => if h == i then Some(p) else None)
  }

  // What asking for a task for sibling i does.
  ghost function VisitOf(o: Offers, i: nat, c: nat, max: Option<Task>, cookie: nat, picks: seq<Option<Task>>): Visited
    requires i < |picks|
  {
    var p := PickTask(o, i, c, cookie, max);
    if p.None? then Visited(max, cookie, picks, false)
    else if max.None? then Visited(p, p.value.cookie, picks[i := p], false)
    else if CookieMatch(max.value, p.value) then Visited(max, cookie, picks[i := p], false)
    else Visited(p, p.value.cookie, Only(|picks|, i, p.value), true)
  }

  // The state of the loop over the siblings for one class, at its head; it ends
  // when j has reached the number of siblings.
  datatype Round = Round(j: nat, max: Option<Task>, cookie: nat, picks: seq<Option<Task>>)

  ghost function Turn(o: Offers, cpu: nat, c: nat, r: Round): (r': Round)
    requires cpu < |r.picks|
    ensures |r'.picks| == |r.picks|
  {
    if r.j >= |r.picks| then r
    else
      var i := Wrap(cpu, r.j, |r.picks|);
      if r.picks[i].Some? then r.(j := r.j + 1)
      else
        var v := VisitOf(o, i, c, r.max, r.cookie, r.picks);
        Round(if v.restart then 0 else r.j + 1, v.max, v.cookie, v.picks)
  }

  ghost function Turns(o: Offers, cpu: nat, c: nat, r: Round, n: nat): (r': Round)
    requires cpu < |r.picks|
    ensures |r'.picks| == |r.picks|
  {
    if n == 0 then r else Turn(o, cpu, c, Turns(o, cpu, c, r, n - 1))
  }

  // ---- Two deadline tasks on two siblings ----

  // Each sibling is offered one deadline task, and neither has another task that
  // would go with the other's cookie.
  ghost predicate Duel(o: Offers, c: nat, a: Task, b: Task) {
    && a.rq == 0 && b.rq == 1 && a.kernelPrio == -1 && b.kernelPrio == -1 && !a.idle && !b.idle
    && o.classPick(0, c) == Some(a) && o.classPick(1, c) == Some(b)
    && (forall i :: 0 <= i < 2 ==> o.idle(i).idle && o.idle(i).kernelPrio > -1)
    && (a.cookie != b.cookie ==> o.coreFind(0, b.cookie) == o.idle(0) && o.coreFind(1, a.cookie) == o.idle(1))
  }

  // The loop for class c, entered with nothing picked yet, ends.
  ghost predicate Ends(o: Offers, cpu: nat, c: nat)
    requires cpu < 2
  {
    exists n :: Turns(o, cpu, c, Round(0, None, 0, [None, None]), n).j == 2
  }

  // The three states a loop over tied tasks can be in after its first turn: x, the
  // task of the sibling asked first, leads and is asked past or not, or y leads.
  ghost predicate Cycling(cpu: nat, x: Task, y: Task, r: Round)
    requires cpu < 2
  {
    || r == Round(1, Some(x), x.cookie, Only(2, cpu, x))
    || r == Round(0, Some(y), y.cookie, Only(2, 1 - cpu, y))
    || r == Round(0, Some(x), x.cookie, Only(2, cpu, x))
  }

  ghost function AskedFirst(cpu: nat, a: Task, b: Task): Task {
    if cpu == 0 then a else b
  }

  lemma FirstTurn(o: Offers, cpu: nat, c: nat, a: Task, b: Task)
    requires cpu < 2 && Duel(o, c, a, b)
    ensures var x := AskedFirst(cpu, a, b);
            Turn(o, cpu, c, Round(0, None, 0, [None, None])) == Round(1, Some(x), x.cookie, Only(2, cpu, x))
  {
    assert [None, None][cpu := Some(AskedFirst(cpu, a, b))] == Only(2, cpu, AskedFirst(cpu, a, b));
  }

  lemma TiedTurn(o: Offers, cpu: nat, c: nat, a: Task, b: Task, r: Round)
    requires cpu < 2 && Duel(o, c, a, b) && Tied(a, b)
    requires Cycling(cpu, AskedFirst(cpu, a, b), AskedFirst(1 - cpu, a, b), r)
    ensures Cycling(cpu, AskedFirst(cpu, a, b), AskedFirst(1 - cpu, a, b), Turn(o, cpu, c, r))
  {
  }

  lemma {:induction false} TiedNeverEnds(o: Offers, cpu: nat, c: nat, a: Task, b: Task, n: nat)
    requires cpu < 2 && Duel(o, c, a, b) && Tied(a, b) && 0 < n
    ensures Cycling(cpu, AskedFirst(cpu, a, b), AskedFirst(1 - cpu, a, b), Turns(o, cpu, c, Round(0, None, 0, [None, None]), n))
  {
    var start := Round(0, None, 0, [None, None]);
    if n == 1 {
      FirstTurn(o, cpu, c, a, b);
      assert Turns(o, cpu, c, start, 0) == start;
    } else {
      TiedNeverEnds(o, cpu, c, a, b, n - 1);
      TiedTurn(o, cpu, c, a, b, Turns(o, cpu, c, start, n - 1));
    }
  }

  // Without a tie the second task either fits in or takes over for good.
  lemma UntiedEnds(o: Offers, cpu: nat, c: nat, a: Task, b: Task)
    requires cpu < 2 && Duel(o, c, a, b) && !Tied(a, b)
    ensures Ends(o, cpu, c)
  {
    var start := Round(0, None, 0, [None, None]);
    FirstTurn(o, cpu, c, a, b);
    assert Turns(o, cpu, c, start, 0) == start;
    var r1 := Turns(o, cpu, c, start, 1);
    var r2 := Turns(o, cpu, c, start, 2);
    assert r2 == Turn(o, cpu, c, r1);
    if r2.j != 2 {
      var y := AskedFirst(1 - cpu, a, b);
      assert r2 == Round(0, Some(y), y.cookie, Only(2, 1 - cpu, y));
      var r3 := Turns(o, cpu, c, start, 3);
      assert r3 == Turn(o, cpu, c, r2) && r3.j == 1 && r3.picks[1 - cpu].Some?;
      assert Turns(o, cpu, c, start, 4) == Turn(o, cpu, c, r3);
    }
  }

  // The loop over two siblings with a deadline task each ends if and only if the
  // two are not tied: they have different deadlines, or the same cookie, or one of
  // them is untagged.
  lemma DuelEndsIff(o: Offers, cpu: nat, c: nat, a: Task, b: Task)
    requires cpu < 2 && Duel(o, c, a, b)
    ensures Ends(o, cpu, c) <==> !Tied(a, b)
  {
    if Tied(a, b) {
      forall n: nat ensures Turns(o, cpu, c, Round(0, None, 0, [None, None]), n).j != 2 {
        if n > 0 { TiedNeverEnds(o, cpu, c, a, b, n); }
      }
    } else {
      UntiedEnds(o, cpu, c, a, b);
    }
  }

  // The picks so far all belong with max.
  ghost predicate Compatible(picks: seq<Option<Task>>, cookie: nat, max: Option<Task>, tasks: set<Task>) {
    match max
    case None => cookie == 0 && forall i :: 0 <= i < |picks| ==> picks[i].None?
    case Some(m) =>
      && m in tasks && cookie == m.cookie && m.rq < |picks| && picks[m.rq] == Some(m)
      && forall i :: 0 <= i < |picks| && picks[i].Some? ==>
           picks[i].value in tasks && picks[i].value.rq == i && CookieMatch(m, picks[i].value)
           && (m.idle ==> picks[i].value.idle)
  }

  // pick_task keeps its promise: what it returns fits max or beats it.
  lemma PickFitsOrBeats(o: Offers, siblings: nat, tasks: set<Task>, i: nat, c: nat,
                        picks: seq<Option<Task>>, cookie: nat, max: Option<Task>)
    requires GoodOffers(o, siblings, tasks) && |picks| == siblings && i < siblings && c < o.classes
    requires Compatible(picks, cookie, max, tasks) && picks[i].None?
    requires max.Some? && max.value.idle ==> c == o.classes - 1
    ensures var p := PickTask(o, i, c, cookie, max);
            && (c == o.classes - 1 ==> p.Some?)
            && (p.Some? ==> p.value in tasks && p.value.rq == i)
            && (p.Some? && max.Some? ==> CookieMatch(max.value, p.value) || Beats(p.value, max.value))
            && (p.Some? && max.Some? && max.value.idle ==> p.value.idle)
            && (p.Some? && max.None? && p.value.idle ==> c == o.classes - 1)
  {
    assert GoodIdle(o, i, tasks) && GoodClassPick(o, i, c, tasks) && GoodFind(o, i, cookie, tasks);
  }

  // ---- Nobody is passed over for less ----

  ghost predicate AtLeast(a: Task, b: Task) {
    !Lower(a, b)
  }

  // Whatever the first c classes offer sibling i is no higher than its own pick,
  // or no higher than max.
  ghost predicate Fair(o: Offers, i: nat, c: nat, pick: Option<Task>, max: Option<Task>) {
    forall d :: 0 <= d < c && o.classPick(i, d).Some? ==> FairTo(o.classPick(i, d).value, pick, max)
  }

  ghost predicate FairTo(t: Task, pick: Option<Task>, max: Option<Task>) {
    max.Some? && (AtLeast(max.value, t) || (pick.Some? && AtLeast(pick.value, t)))
  }

  // A sibling with a pick has been treated fairly for good, one without so far.
  ghost predicate FairSoFar(o: Offers, i: nat, c: nat, pick: Option<Task>, max: Option<Task>) {
    Fair(o, i, if pick.Some? then o.classes else c, pick, max)
  }

  // No sibling was offered anything before class d, where m comes from.
  ghost predicate NoneBefore(o: Offers, siblings: nat, d: nat) {
    forall i, c :: 0 <= i < siblings && 0 <= c < d ==> o.classPick(i, c).None?
  }

  ghost predicate Leads(o: Offers, siblings: nat, m: Task, d: nat) {
    m.rq < siblings && d < o.classes && o.classPick(m.rq, d) == Some(m) && NoneBefore(o, siblings, d)
  }

  lemma LaterOffersAreFair(o: Offers, siblings: nat, tasks: set<Task>, i: nat, c: nat, pick: Option<Task>, max: Option<Task>)
    requires GoodOffers(o, siblings, tasks) && i < siblings && c < o.classes
    requires Fair(o, i, c + 1, pick, max) && o.classPick(i, c).Some?
    ensures Fair(o, i, o.classes, pick, max)
  {
    assert FairTo(o.classPick(i, c).value, pick, max);
    forall d | 0 <= d < o.classes && o.classPick(i, d).Some? ensures FairTo(o.classPick(i, d).value, pick, max) {
      if d > c { assert Ranked(o, i, c, i, d); }
    }
  }

  // What pick_task returns is fair to the sibling it is for.
  lemma PickIsFair(o: Offers, siblings: nat, tasks: set<Task>, i: nat, c: nat, cookie: nat, max: Option<Task>)
    requires GoodOffers(o, siblings, tasks) && i < siblings && c < o.classes && Fair(o, i, c, None, max)
    requires o.classPick(i, c).Some? && (max.Some? ==> max.value in tasks) && (max.None? ==> cookie == 0)
    ensures var p := PickTask(o, i, c, cookie, max);
            Fair(o, i, o.classes, p, if max.None? then p else max)
  {
    assert GoodIdle(o, i, tasks) && GoodClassPick(o, i, c, tasks) && GoodFind(o, i, cookie, tasks);
    var t, p := o.classPick(i, c).value, PickTask(o, i, c, cookie, max);
    var max' := if max.None? then p else max;
    assert FairTo(t, p, max');
    forall d | 0 <= d < c && o.classPick(i, d).Some? ensures FairTo(o.classPick(i, d).value, p, max') {
      assert FairTo(o.classPick(i, d).value, None, max);
    }
    LaterOffersAreFair(o, siblings, tasks, i, c, p, max');
  }

  // A pick that does not go with max comes from its class, and only from the one
  // max came from.
  lemma BeatenLeader(o: Offers, siblings: nat, tasks: set<Task>, i: nat, c: nat, cookie: nat, m: Task, d: nat)
    requires GoodOffers(o, siblings, tasks) && i < siblings && d <= c < o.classes
    requires Leads(o, siblings, m, d) && cookie == m.cookie
    requires PickTask(o, i, c, cookie, Some(m)).Some? && !CookieMatch(m, PickTask(o, i, c, cookie, Some(m)).value)
    ensures PickTask(o, i, c, cookie, Some(m)) == o.classPick(i, c) && d == c
  {
    assert GoodIdle(o, i, tasks) && GoodClassPick(o, i, c, tasks) && GoodFind(o, i, cookie, tasks);
    if d < c { assert Ranked(o, m.rq, d, i, c); }
  }

  ghost predicate Fairly(o: Offers, c: nat, picks: seq<Option<Task>>, max: Option<Task>) {
    && (max.Some? ==> exists d :: 0 <= d <= c && Leads(o, |picks|, max.value, d))
    && (forall h :: 0 <= h < |picks| ==> FairSoFar(o, h, c, picks[h], max))
  }

  // The three ways a visit can end with a pick, and moving on to the next class.
  lemma FairFit(o: Offers, tasks: set<Task>, c: nat, picks: seq<Option<Task>>, max: Option<Task>, i: nat, cookie: nat)
    requires GoodOffers(o, |picks|, tasks) && c < o.classes && Fairly(o, c, picks, max) && max.Some? && max.value in tasks
    requires i < |picks| && picks[i].None? && o.classPick(i, c).Some?
    ensures Fairly(o, c, picks[i := PickTask(o, i, c, cookie, max)], max)
  {
    assert FairSoFar(o, i, c, picks[i], max);
    PickIsFair(o, |picks|, tasks, i, c, cookie, max);
    var picks' := picks[i := PickTask(o, i, c, cookie, max)];
    forall h | 0 <= h < |picks'| ensures FairSoFar(o, h, c, picks'[h], max) {
      assert FairSoFar(o, h, c, picks[h], max);
    }
  }

  // p leads a core on which nobody was offered anything before its class.
  lemma FairAlone(o: Offers, tasks: set<Task>, c: nat, picks: seq<Option<Task>>, i: nat, p: Task)
    requires GoodOffers(o, |picks|, tasks) && c < o.classes && NoneBefore(o, |picks|, c)
    requires i < |picks| && picks[i] == Some(p) == o.classPick(i, c) && p.rq == i
    requires forall j :: 0 <= j < |picks| && j != i ==> picks[j] == None
    ensures Fairly(o, c, picks, Some(p))
  {
    assert Leads(o, |picks|, p, c);
    assert FairTo(p, Some(p), Some(p));
    assert Fair(o, i, c + 1, Some(p), Some(p));
    LaterOffersAreFair(o, |picks|, tasks, i, c, Some(p), Some(p));
  }

  lemma NothingYet(o: Offers, c: nat, picks: seq<Option<Task>>)
    requires Fairly(o, c, picks, None) && forall i :: 0 <= i < |picks| ==> picks[i].None?
    ensures NoneBefore(o, |picks|, c)
  {
    forall i, d | 0 <= i < |picks| && 0 <= d < c ensures o.classPick(i, d).None? {
      assert FairSoFar(o, i, c, picks[i], None);
      assert o.classPick(i, d).Some? ==> FairTo(o.classPick(i, d).value, picks[i], None);
    }
  }

  lemma NextClassFair(o: Offers, c: nat, picks: seq<Option<Task>>, max: Option<Task>)
    requires Fairly(o, c, picks, max)
    requires forall i :: 0 <= i < |picks| ==> picks[i].Some? || o.classPick(i, c).None?
    ensures Fairly(o, c + 1, picks, max)
  {
    forall h | 0 <= h < |picks| ensures FairSoFar(o, h, c + 1, picks[h], max) {
      assert FairSoFar(o, h, c, picks[h], max);
    }
  }

  lemma EveryOfferRanked(o: Offers, picks: seq<Option<Task>>, lead: Task)
    requires Fairly(o, o.classes, picks, Some(lead)) && forall i :: 0 <= i < |picks| ==> picks[i].Some?
    ensures forall i, c :: 0 <= i < |picks| && 0 <= c < o.classes && o.classPick(i, c).Some? ==>
              !Outranks(o.classPick(i, c).value, lead) || !Outranks(o.classPick(i, c).value, picks[i].value)
  {
    forall i, c | 0 <= i < |picks| && 0 <= c < o.classes && o.classPick(i, c).Some?
      ensures !Outranks(o.classPick(i, c).value, lead) || !Outranks(o.classPick(i, c).value, picks[i].value)
    {
      assert FairSoFar(o, i, o.classes, picks[i], Some(lead));
      assert FairTo(o.classPick(i, c).value, picks[i], Some(lead));
      PrioIsRank(lead, o.classPick(i, c).value);
      PrioIsRank(picks[i].value, o.classPick(i, c).value);
    }
  }

  // ---- Where every pick comes from ----

  ghost predicate NoOffer(o: Offers, i: nat, c: nat) {
    forall d :: 0 <= d < c ==> o.classPick(i, d).None?
  }

  ghost predicate FirstOffer(o: Offers, i: nat, d: nat) {
    o.classPick(i, d).Some? && NoOffer(o, i, d)
  }

  // A sibling without a pick has been offered nothing; max's sibling has max; any
  // other has what pick_task made of its highest class's offer.
  ghost predicate ExplainedAt(o: Offers, c: nat, h: nat, pick: Option<Task>, cookie: nat, max: Option<Task>) {
    if pick.None? then NoOffer(o, h, c)
    else if max.None? then false
    else if h == max.value.rq then pick == max
    else exists d :: 0 <= d <= c && FirstOffer(o, h, d) && pick == PickTask(o, h, d, cookie, max)
  }

  ghost predicate Explained(o: Offers, c: nat, picks: seq<Option<Task>>, cookie: nat, max: Option<Task>) {
    forall h :: 0 <= h < |picks| ==> ExplainedAt(o, c, h, picks[h], cookie, max)
  }

  lemma ExplainedFit(o: Offers, c: nat, picks: seq<Option<Task>>, cookie: nat, max: Option<Task>, i: nat)
    requires Explained(o, c, picks, cookie, max) && max.Some? && i < |picks| && i != max.value.rq
    requires picks[i].None? && o.classPick(i, c).Some?
    ensures Explained(o, c, picks[i := PickTask(o, i, c, cookie, max)], cookie, max)
  {
    var picks' := picks[i := PickTask(o, i, c, cookie, max)];
    forall h | 0 <= h < |picks'| ensures ExplainedAt(o, c, h, picks'[h], cookie, max) {
      assert ExplainedAt(o, c, h, picks[h], cookie, max);
      if h == i { assert FirstOffer(o, i, c); }
    }
  }

  lemma ExplainedAlone(o: Offers, c: nat, picks: seq<Option<Task>>, i: nat, p: Task)
    requires NoneBefore(o, |picks|, c) && i < |picks| && picks[i] == Some(p) && p.rq == i
    requires forall j :: 0 <= j < |picks| && j != i ==> picks[j] == None
    ensures Explained(o, c, picks, p.cookie, Some(p))
  {
  }

  lemma NextClassExplained(o: Offers, c: nat, picks: seq<Option<Task>>, cookie: nat, max: Option<Task>)
    requires Explained(o, c, picks, cookie, max)
    requires forall i :: 0 <= i < |picks| ==> picks[i].Some? || o.classPick(i, c).None?
    ensures Explained(o, c + 1, picks, cookie, max)
  {
    forall h | 0 <= h < |picks| ensures ExplainedAt(o, c + 1, h, picks[h], cookie, max) {
      assert ExplainedAt(o, c, h, picks[h], cookie, max);
    }
  }

  // The pick of a sibling other than lead's, once everybody has one.
  lemma PickExplained(o: Offers, c: nat, picks: seq<Option<Task>>, cookie: nat, lead: Task, i: nat, d: nat)
    requires Explained(o, c, picks, cookie, Some(lead)) && i < |picks| && picks[i].Some?
    requires i != lead.rq && FirstOffer(o, i, d)
    ensures picks[i] == PickTask(o, i, d, cookie, Some(lead))
  {
    assert ExplainedAt(o, c, i, picks[i], cookie, Some(lead));
    var e :| 0 <= e <= c && FirstOffer(o, i, e) && picks[i] == PickTask(o, i, e, cookie, Some(lead));
    assert d == e;
  }

  // The siblings that got something to do.
  ghost function Busy(picks: seq<Option<Task>>): set<int> {
    set i | 0 <= i < |picks| && picks[i].Some? && !picks[i].value.idle
  }

  lemma BusyGrows(picks: seq<Option<Task>>, i: nat, p: Task)
    requires i < |picks| && picks[i].None?
    ensures |Busy(picks[i := Some(p)])| == |Busy(picks)| + if p.idle then 0 else 1
  {
    assert Busy(picks[i := Some(p)]) == if p.idle then Busy(picks) else Busy(picks) + {i};
  }

  // A pick that goes with max joins the others.
  lemma FitJoins(picks: seq<Option<Task>>, cookie: nat, max: Option<Task>, tasks: set<Task>, i: nat, p: Task)
    requires Compatible(picks, cookie, max, tasks) && max.Some? && i < |picks| && picks[i].None?
    requires p in tasks && p.rq == i && CookieMatch(max.value, p) && (max.value.idle ==> p.idle)
    ensures Compatible(picks[i := Some(p)], cookie, max, tasks)
  {
  }

  // A pick on its own is compatible with itself.
  lemma AloneCompatible(picks: seq<Option<Task>>, tasks: set<Task>, i: nat, p: Task)
    requires i < |picks| && picks[i] == Some(p) && p in tasks && p.rq == i
    requires forall j :: 0 <= j < |picks| && j != i ==> picks[j] == None
    ensures Compatible(picks, p.cookie, Some(p), tasks)
    ensures !p.idle ==> |Busy(picks)| == 1
  {
    if !p.idle {
      assert Busy(picks) == {i};
    }
  }

  // The i-th sibling in the order that starts at cpu and wraps around.
  function Wrap(cpu: nat, j: nat, siblings: nat): (i: nat)
    requires cpu < siblings && j < siblings
    ensures i < siblings && i == (cpu + j) % siblings
  {
    if cpu + j < siblings then cpu + j else cpu + j - siblings
  }

  // How many restarts are still possible.
  ghost function Room(tasks: set<Task>, max: Option<Task>): nat {
    if max.None? then |tasks| + 1 else |Above(tasks, max.value)|
  }

  class Core {
    const siblings: nat
    const corePick: array<Option<Task>>
    var coreCookie: nat

    constructor (n: nat)
      ensures siblings == n && corePick.Length == n && fresh(corePick)
    {
      siblings := n;
      corePick := new Option<Task>[n](_ => None);
      coreCookie := 0;
    }

    ghost predicate Consistent(o: Offers, c: nat, max: Option<Task>, occ: nat, tasks: set<Task>)
      reads this, corePick
    {
      && corePick.Length == siblings && c < o.classes
      && Compatible(corePick[..], coreCookie, max, tasks)
      && occ == |Busy(corePick[..])|
      && (max.Some? && max.value.idle ==> c == o.classes - 1)
      && Fairly(o, c, corePick[..], max)
      && Explained(o, c, corePick[..], coreCookie, max)
    }

    // Drop every pick but sibling i's.
    method WipeOthers(i: nat)
      requires i < siblings == corePick.Length
      modifies corePick
      ensures corePick[i] == old(corePick[i])
      ensures forall j :: 0 <= j < siblings && j != i ==> corePick[j] == None
    {
      for j := 0 to siblings
        invariant corePick[i] == old(corePick[i])
        invariant forall h :: 0 <= h < j && h != i ==> corePick[h] == None
      {
        if j != i {
          corePick[j] := None;
        }
      }
    }

    // One sibling without a pick: ask for one, and if it does not go with max make
    // it the new max, starting over if there was one.
    method Visit(o: Offers, i: nat, c: nat, max: Option<Task>, occ: nat, ghost tasks: set<Task>)
      returns (max': Option<Task>, occ': nat, restart: bool)
      requires GoodOffers(o, siblings, tasks)
      requires Consistent(o, c, max, occ, tasks) && i < siblings && corePick[i].None?
      modifies this, corePick
      ensures Consistent(o, c, max', occ', tasks)
      ensures Visited(max', coreCookie, corePick[..], restart)
              == VisitOf(o, i, c, max, old(coreCookie), old(corePick[..]))
      ensures restart ==> max.Some? && max'.Some? && Beats(max'.value, max.value)
      ensures !restart ==> (forall j :: 0 <= j < siblings && j != i ==> corePick[j] == old(corePick[j]))
      ensures !restart ==> max' == max || max.None?
      ensures !restart ==> corePick[i].Some? || o.classPick(i, c).None?
    {
      max', occ', restart := max, occ, false;
      PickFitsOrBeats(o, siblings, tasks, i, c, corePick[..], coreCookie, max);
      ghost var cookie := coreCookie;
      var p := PickTask(o, i, c, coreCookie, max);
      if p.None? {
        return;
      }
      ghost var before := corePick[..];
      BusyGrows(before, i, p.value);
      if !p.value.idle {
        occ' := occ' + 1;
      }
      corePick[i] := p;
      assert corePick[..] == before[i := p];
      if max.None? || !CookieMatch(max.value, p.value) {
        coreCookie := p.value.cookie;
        max' := p;
        if max.Some? {
          WipeOthers(i);
          assert corePick[..] == Only(siblings, i, p.value);
          occ' := 1;
          restart := true;
        }
        AloneCompatible(corePick[..], tasks, i, p.value);
        if max.None? {
          NothingYet(o, c, before);
        } else {
          ghost var d :| 0 <= d <= c && Leads(o, |before|, max.value, d);
          BeatenLeader(o, siblings, tasks, i, c, cookie, max.value, d);
        }
        FairAlone(o, tasks, c, corePick[..], i, p.value);
        ExplainedAlone(o, c, corePick[..], i, p.value);
      } else {
        FitJoins(before, coreCookie, max, tasks, i, p.value);
        FairFit(o, tasks, c, before, max, i, cookie);
        ExplainedFit(o, c, before, cookie, max, i);
      }
    }

    // One turn of the loop over the siblings, as Turn describes it.
    method TakeTurn(o: Offers, cpu: nat, c: nat, j: nat, max: Option<Task>, occ: nat, ghost tasks: set<Task>)
      returns (j': nat, max': Option<Task>, occ': nat)
      requires GoodOffers(o, siblings, tasks)
      requires Consistent(o, c, max, occ, tasks) && cpu < siblings && j < siblings
      requires Asked(o, cpu, c, j)
      modifies this, corePick
      ensures Consistent(o, c, max', occ', tasks) && j' <= siblings && Asked(o, cpu, c, j')
      ensures Round(j', max', coreCookie, corePick[..])
              == Turn(o, cpu, c, Round(j, max, old(coreCookie), old(corePick[..])))
      ensures Room(tasks, max') < Room(tasks, max) || (max' == max && j' == j + 1)
    {
      var i := Wrap(cpu, j, siblings);
      j', max', occ' := j + 1, max, occ;
      if corePick[i].None? {
        var restart;
        max', occ', restart := Visit(o, i, c, max, occ, tasks);
        if max.None? && max'.Some? {
          Collections.SubsetSize(Above(tasks, max'.value), tasks);
        }
        if restart {
          RestartRises(tasks, max.value, max'.value);
          j' := 0;
        }
      }
    }

    // The first j siblings have a pick, or nothing to offer in this class.
    ghost predicate Asked(o: Offers, cpu: nat, c: nat, j: nat)
      requires cpu < siblings == corePick.Length && j <= siblings
      reads this, corePick
    {
      forall h :: 0 <= h < j ==> corePick[Wrap(cpu, h, siblings)].Some? || o.classPick(Wrap(cpu, h, siblings), c).None?
    }

    // The loop over the siblings for one class.
    method PickClass(o: Offers, cpu: nat, c: nat, max: Option<Task>, occ: nat, ghost tasks: set<Task>)
      returns (max': Option<Task>, occ': nat)
      requires GoodOffers(o, siblings, tasks)
      requires Consistent(o, c, max, occ, tasks) && cpu < siblings
      modifies this, corePick
      ensures Consistent(o, c, max', occ', tasks)
      ensures forall i :: 0 <= i < siblings ==> corePick[i].Some? || o.classPick(i, c).None?
    {
      var j: nat := 0;
      max', occ' := max, occ;
      while j < siblings
        invariant j <= siblings && Consistent(o, c, max', occ', tasks) && Asked(o, cpu, c, j)
        decreases Room(tasks, max'), siblings - j
      {
        j, max', occ' := TakeTurn(o, cpu, c, j, max', occ', tasks);
      }
      forall i | 0 <= i < siblings ensures corePick[i].Some? || o.classPick(i, c).None? {
        assert i == Wrap(cpu, if i >= cpu then i - cpu else i - cpu + siblings, siblings);
      }
    }

    method PickNextTask(o: Offers, cpu: nat, ghost tasks: set<Task>)
      returns (next: Option<Task>, occ: nat, ghost lead: Task)
      requires corePick.Length == siblings && cpu < siblings && GoodOffers(o, siblings, tasks)
      modifies this, corePick
      ensures forall i :: 0 <= i < siblings ==> corePick[i].Some? && corePick[i].value.rq == i
      ensures forall i :: 0 <= i < siblings && !corePick[i].value.idle ==> corePick[i].value.cookie == coreCookie
      ensures next == corePick[cpu] && occ == |Busy(corePick[..])|
      ensures lead.rq < siblings && corePick[lead.rq] == Some(lead) && coreCookie == lead.cookie
      ensures exists d :: 0 <= d < o.classes && Leads(o, siblings, lead, d)
      ensures forall i, c :: 0 <= i < siblings && 0 <= c < o.classes && o.classPick(i, c).Some? ==>
                !Outranks(o.classPick(i, c).value, lead) || !Outranks(o.classPick(i, c).value, corePick[i].value)
      ensures forall i, d :: 0 <= i < siblings && i != lead.rq && 0 <= d < o.classes && FirstOffer(o, i, d) ==>
                corePick[i] == PickTask(o, i, d, coreCookie, Some(lead))
    {
      var max: Option<Task> := None;
      occ := 0;
      coreCookie := 0;
      for i := 0 to siblings
        invariant coreCookie == 0 && forall h :: 0 <= h < i ==> corePick[h] == None
      {
        corePick[i] := None;
      }
      assert Busy(corePick[..]) == {};
      for c := 0 to o.classes
        invariant corePick.Length == siblings
        invariant Compatible(corePick[..], coreCookie, max, tasks) && occ == |Busy(corePick[..])|
        invariant max.Some? && max.value.idle ==> c == o.classes
        invariant c == o.classes ==> forall i :: 0 <= i < siblings ==> corePick[i].Some?
        invariant Fairly(o, c, corePick[..], max) && Explained(o, c, corePick[..], coreCookie, max)
      {
        max, occ := PickClass(o, cpu, c, max, occ, tasks);
        forall i | 0 <= i < siblings && c == o.classes - 1 ensures corePick[i].Some? {
          assert GoodClassPick(o, i, c, tasks);
        }
        NextClassFair(o, c, corePick[..], max);
        NextClassExplained(o, c, corePick[..], coreCookie, max);
      }
      next, lead := corePick[cpu], max.value;
      EveryOfferRanked(o, corePick[..], lead);
      forall i, d | 0 <= i < siblings && i != lead.rq && 0 <= d < o.classes && FirstOffer(o, i, d)
        ensures corePick[i] == PickTask(o, i, d, coreCookie, Some(lead))
      {
        PickExplained(o, o.classes, corePick[..], coreCookie, lead, i, d);
      }
    }
  }
}
