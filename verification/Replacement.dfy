// What one simulated reference does to memory under each of the four algorithms,
// stated on values; the Simulator module proves its array code against this.
module Replacement {
  import opened Paging
  import opened Collections
  import Belady

  datatype Algorithm = Optimal | Fifo | Lru | SecondChance

  // frames[f] is the page in frame f, for the frames loaded so far (frames are
  // filled in order and never emptied); queue holds frame numbers, oldest first;
  // marked holds the pages whose reference bit is 1.
  datatype Memory = Memory(frames: seq<int>, queue: seq<int>, marked: set<int>)

  const EMPTY: Memory := Memory([], [], {})

  ghost predicate WellFormed(alg: Algorithm, k: nat, m: Memory) {
    && |m.frames| <= k
    && Distinct(m.frames)
    && (if alg.SecondChance? then m.marked <= Elements(m.frames) else m.marked == {})
    && (if alg.Lru? then m.queue == [] else FrameQueue(m))
  }

  // The queue lists every loaded frame exactly once.
  ghost predicate FrameQueue(m: Memory) {
    && |m.queue| == |m.frames|
    && Distinct(m.queue)
    && forall j :: 0 <= j < |m.queue| ==> 0 <= m.queue[j] < |m.frames|
  }

  // No loaded page is used later than the victim's, and of the pages never used
  // again the victim's is the one loaded first.
  ghost predicate OptimalVictim(t: seq<int>, i: nat, m: Memory, v: int)
    requires i < |t|
    requires FrameQueue(m)
  {
    && 0 <= v < |m.frames|
    && (forall f :: 0 <= f < |m.frames| ==> NextUse(t, i, m.frames[f]) <= NextUse(t, i, m.frames[v]))
    && (NextUse(t, i, m.frames[v]) == |t| ==> OldestUnused(t, i, m, v))
  }

  ghost predicate OldestUnused(t: seq<int>, i: nat, m: Memory, v: int)
    requires i < |t|
    requires FrameQueue(m)
  {
    forall a, b | 0 <= a < |m.queue| && 0 <= b < |m.queue| ::
      m.queue[a] == v && NextUse(t, i, m.frames[m.queue[b]]) == |t| ==> a <= b
  }

  ghost predicate LruVictim(t: seq<int>, i: nat, m: Memory, v: int)
    requires i < |t|
  {
    && 0 <= v < |m.frames|
    && forall f :: 0 <= f < |m.frames| ==> LastUse(t, i, m.frames[v]) <= LastUse(t, i, m.frames[f])
  }

  // Give every marked page at the front another round, until an unmarked one is.
  ghost function Scan(m: Memory): (m': Memory)
    requires FrameQueue(m) && m.queue != []
    decreases |m.marked|
  {
    var page := m.frames[m.queue[0]];
    if page in m.marked then Scan(Memory(m.frames, Rotate(m.queue), m.marked - {page})) else m
  }

  ghost function Rotate(q: seq<int>): seq<int>
    requires q != []
  {
    q[1..] + [q[0]]
  }

  ghost function Load(alg: Algorithm, m: Memory, page: int): Memory {
    Memory(m.frames + [page], if alg.Lru? then m.queue else m.queue + [|m.frames|], m.marked - {page})
  }

  ghost predicate Evict(alg: Algorithm, t: seq<int>, i: nat, m: Memory, m': Memory)
    requires i < |t| && m.frames != [] && (if alg.Lru? then m.queue == [] else FrameQueue(m))
  {
    match alg
    case Optimal =>
      exists v :: OptimalVictim(t, i, m, v)
                  && m' == Memory(m.frames[v := t[i]], Without(m.queue, v) + [v], m.marked)
    case Fifo =>
      m' == Memory(m.frames[m.queue[0] := t[i]], Rotate(m.queue), m.marked)
    case Lru =>
      exists v :: LruVictim(t, i, m, v) && m' == m.(frames := m.frames[v := t[i]])
    case SecondChance =>
      var s := Scan(m);
      && FrameQueue(s) && s.queue != []
      && m' == Memory(s.frames[s.queue[0] := t[i]], Rotate(s.queue), s.marked - {t[i]})
  }

  ghost predicate Step(alg: Algorithm, t: seq<int>, k: nat, i: nat, m: Memory, m': Memory)
    requires i < |t|
  {
    && 0 < k
    && WellFormed(alg, k, m)
    && (if t[i] in m.frames then
          m' == if alg.SecondChance? then m.(marked := m.marked + {t[i]}) else m
        else if |m.frames| < k then
          m' == Load(alg, m, t[i])
        else
          Evict(alg, t, i, m, m'))
  }

  // ms[i] is the memory just before reference i.
  ghost predicate Run(alg: Algorithm, t: seq<int>, k: nat, ms: seq<Memory>) {
    && |ms| == |t| + 1
    && ms[0] == EMPTY
    && forall i :: 0 <= i < |t| ==> Step(alg, t, k, i, ms[i], ms[i + 1])
  }

  ghost function Resident(m: Memory): set<int> {
    Elements(m.frames)
  }

  ghost function Residents(ms: seq<Memory>): (rs: seq<set<int>>)
    ensures |rs| == |ms| && forall i :: 0 <= i < |ms| ==> rs[i] == Resident(ms[i])
  {
    seq(|ms|, i requires 0 <= i < |ms| => Resident(ms[i]))
  }

  ghost function FaultCount(t: seq<int>, ms: seq<Memory>, n: nat): nat
    requires n <= |t| <= |ms|
  {
    Faults(t, Residents(ms), n)
  }

  // ---- What every step keeps ----

  lemma RotateKeepsQueue(m: Memory, m': Memory)
    requires FrameQueue(m) && m.queue != []
    requires |m'.frames| == |m.frames| && m'.queue == Rotate(m.queue)
    ensures FrameQueue(m')
  {
  }

  lemma {:induction false} ScanKeeps(m: Memory)
    requires FrameQueue(m) && m.queue != []
    ensures FrameQueue(Scan(m)) && Scan(m).queue != []
    ensures Scan(m).frames == m.frames && Scan(m).marked <= m.marked
    ensures m.frames[Scan(m).queue[0]] !in Scan(m).marked
    decreases |m.marked|
  {
    var page := m.frames[m.queue[0]];
    if page in m.marked {
      ScanKeeps(Memory(m.frames, Rotate(m.queue), m.marked - {page}));
    }
  }

  // Replacing one page by an absent one replaces it in the resident set.
  lemma ReplaceResident(frames: seq<int>, v: nat, page: int)
    requires Distinct(frames) && v < |frames| && page !in frames
    ensures Distinct(frames[v := page])
    ensures Elements(frames[v := page]) == Elements(frames) - {frames[v]} + {page}
  {
    var after := frames[v := page];
    assert after[v] == page;
    forall x | x in Elements(frames) - {frames[v]} ensures x in after {
      var j :| 0 <= j < |frames| && frames[j] == x;
      assert after[j] == x;
    }
  }

  lemma QueueHolds(m: Memory, v: int)
    requires FrameQueue(m) && 0 <= v < |m.frames|
    ensures v in m.queue
  {
    var all := seq(|m.frames|, i => i);
    forall x | x in Elements(m.queue) ensures x in all {
      assert all[x] == x;
    }
    SameElements(m.queue, all);
    assert all[v] == v && v in Elements(all);
  }

  lemma OptimalQueueKept(m: Memory, m': Memory, v: int)
    requires FrameQueue(m) && 0 <= v < |m.frames|
    requires |m'.frames| == |m.frames| && m'.queue == Without(m.queue, v) + [v]
    ensures FrameQueue(m')
  {
    QueueHolds(m, v);
    WithoutKeepsRest(m.queue, v);
    var w := Without(m.queue, v);
    assert forall j :: 0 <= j < |w| ==> w[j] in Elements(w);
  }

  // An eviction exchanges exactly one resident page for the requested one.
  lemma EvictExchanges(alg: Algorithm, t: seq<int>, k: nat, i: nat, m: Memory, m': Memory) returns (v: nat)
    requires i < |t| && 0 < k && WellFormed(alg, k, m)
    requires t[i] !in m.frames && |m.frames| == k && Evict(alg, t, i, m, m')
    ensures WellFormed(alg, k, m')
    ensures v < k && m'.frames == m.frames[v := t[i]]
    ensures Resident(m') == Resident(m) - {m.frames[v]} + {t[i]}
    ensures alg.Optimal? ==> OptimalVictim(t, i, m, v) && m'.queue == Without(m.queue, v) + [v]
    ensures alg.Lru? ==> LruVictim(t, i, m, v)
    ensures alg.Fifo? ==> v == m.queue[0]
    ensures alg.SecondChance? ==> Scan(m).queue != [] && v == Scan(m).queue[0]
  {
    match alg {
      case Optimal =>
        v :| OptimalVictim(t, i, m, v)
             && m' == Memory(m.frames[v := t[i]], Without(m.queue, v) + [v], m.marked);
        OptimalQueueKept(m, m', v);
      case Fifo =>
        v := m.queue[0];
        RotateKeepsQueue(m, m');
      case Lru =>
        v :| LruVictim(t, i, m, v) && m' == m.(frames := m.frames[v := t[i]]);
      case SecondChance =>
        ScanKeeps(m);
        v := Scan(m).queue[0];
        RotateKeepsQueue(Scan(m), m');
    }
    ReplaceResident(m.frames, v, t[i]);
  }

  lemma LoadKeeps(alg: Algorithm, k: nat, m: Memory, page: int)
    requires WellFormed(alg, k, m) && page !in m.frames && |m.frames| < k
    ensures WellFormed(alg, k, Load(alg, m, page))
    ensures Resident(Load(alg, m, page)) == Resident(m) + {page}
  {
    var frames := m.frames + [page];
    assert Elements(frames) == Elements(m.frames) + {page};
    assert Distinct(frames);
    if !alg.Lru? {
      var q := m.queue + [|m.frames|];
      assert Distinct(q);
    }
  }

  lemma StepKeeps(alg: Algorithm, t: seq<int>, k: nat, i: nat, m: Memory, m': Memory)
    requires i < |t| && Step(alg, t, k, i, m, m')
    ensures WellFormed(alg, k, m')
    ensures t[i] in m.frames ==> Resident(m') == Resident(m)
    ensures t[i] !in m.frames && |m.frames| < k ==> Resident(m') == Resident(m) + {t[i]}
    ensures t[i] !in m.frames && |m.frames| == k ==>
              exists p :: p in Resident(m) && Resident(m') == Resident(m) - {p} + {t[i]}
  {
    if t[i] !in m.frames {
      if |m.frames| < k {
        LoadKeeps(alg, k, m, t[i]);
      } else {
        var v := EvictExchanges(alg, t, k, i, m, m');
        var p := m.frames[v];
        assert p in Resident(m) && Resident(m') == Resident(m) - {p} + {t[i]};
      }
    }
  }

  lemma StepServes(alg: Algorithm, t: seq<int>, k: nat, i: nat, m: Memory, m': Memory)
    requires i < |t| && Step(alg, t, k, i, m, m')
    ensures Serves(k, t[i], Resident(m), Resident(m'))
  {
    StepKeeps(alg, t, k, i, m, m');
    DistinctSize(m'.frames);
  }

  // Every run of every algorithm is a demand-paging schedule, and the memory
  // stays well formed throughout.
  lemma RunIsSchedule(alg: Algorithm, t: seq<int>, k: nat, ms: seq<Memory>)
    requires Run(alg, t, k, ms)
    ensures Schedule(t, k, Residents(ms))
  {
    forall i | 0 <= i < |t|
      ensures Serves(k, t[i], Resident(ms[i]), Resident(ms[i + 1]))
    {
      StepServes(alg, t, k, i, ms[i], ms[i + 1]);
    }
  }

  lemma RunStaysWellFormed(alg: Algorithm, t: seq<int>, k: nat, ms: seq<Memory>, n: nat)
    requires Run(alg, t, k, ms) && n <= |t|
    ensures WellFormed(alg, k, ms[n])
  {
    if n > 0 {
      StepKeeps(alg, t, k, n - 1, ms[n - 1], ms[n - 1 + 1]);
    }
  }

  // ---- Every trace has a run ----

  // The first of the pages with the furthest next use, in queue order.
  lemma {:induction false} FirstFurthest(t: seq<int>, i: nat, m: Memory, n: nat) returns (a: nat)
    requires i < |t| && FrameQueue(m) && 0 < n <= |m.queue|
    ensures a < n
    ensures forall b :: 0 <= b < n ==> NextUse(t, i, m.frames[m.queue[b]]) <= NextUse(t, i, m.frames[m.queue[a]])
    ensures forall b :: 0 <= b < a ==> NextUse(t, i, m.frames[m.queue[b]]) < NextUse(t, i, m.frames[m.queue[a]])
  {
    a := 0;
    if n > 1 {
      a := FirstFurthest(t, i, m, n - 1);
      if NextUse(t, i, m.frames[m.queue[a]]) < NextUse(t, i, m.frames[m.queue[n - 1]]) {
        a := n - 1;
      }
    }
  }

  lemma OptimalVictimExists(t: seq<int>, i: nat, m: Memory) returns (v: int)
    requires i < |t| && FrameQueue(m) && m.queue != []
    ensures OptimalVictim(t, i, m, v)
  {
    var a := FirstFurthest(t, i, m, |m.queue|);
    v := m.queue[a];
    forall f | 0 <= f < |m.frames| ensures NextUse(t, i, m.frames[f]) <= NextUse(t, i, m.frames[v]) {
      QueueHolds(m, f);
      var b :| 0 <= b < |m.queue| && m.queue[b] == f;
    }
  }

  lemma {:induction false} LruVictimExists(t: seq<int>, i: nat, m: Memory, n: nat) returns (v: nat)
    requires i < |t| && 0 < n <= |m.frames|
    ensures v < n && forall f :: 0 <= f < n ==> LastUse(t, i, m.frames[v]) <= LastUse(t, i, m.frames[f])
  {
    v := 0;
    if n > 1 {
      v := LruVictimExists(t, i, m, n - 1);
      if LastUse(t, i, m.frames[n - 1]) < LastUse(t, i, m.frames[v]) {
        v := n - 1;
      }
    }
  }

  lemma StepExists(alg: Algorithm, t: seq<int>, k: nat, i: nat, m: Memory) returns (m': Memory)
    requires i < |t| && 0 < k && WellFormed(alg, k, m)
    ensures Step(alg, t, k, i, m, m')
  {
    if t[i] in m.frames {
      m' := if alg.SecondChance? then m.(marked := m.marked + {t[i]}) else m;
    } else if |m.frames| < k {
      m' := Load(alg, m, t[i]);
    } else {
      match alg {
        case Optimal =>
          var v := OptimalVictimExists(t, i, m);
          m' := Memory(m.frames[v := t[i]], Without(m.queue, v) + [v], m.marked);
          assert OptimalVictim(t, i, m, v);
        case Fifo =>
          m' := Memory(m.frames[m.queue[0] := t[i]], Rotate(m.queue), m.marked);
        case Lru =>
          var v := LruVictimExists(t, i, m, k);
          m' := m.(frames := m.frames[v := t[i]]);
          assert LruVictim(t, i, m, v);
        case SecondChance =>
          ScanKeeps(m);
          var s := Scan(m);
          m' := Memory(s.frames[s.queue[0] := t[i]], Rotate(s.queue), s.marked - {t[i]});
      }
    }
  }

  lemma {:induction false} RunUpto(alg: Algorithm, t: seq<int>, k: nat, n: nat) returns (ms: seq<Memory>)
    requires 0 < k && n <= |t|
    ensures |ms| == n + 1 && ms[0] == EMPTY && WellFormed(alg, k, ms[n])
    ensures forall i :: 0 <= i < n ==> Step(alg, t, k, i, ms[i], ms[i + 1])
  {
    if n == 0 {
      ms := [EMPTY];
      assert Elements(EMPTY.frames) == {};
    } else {
      var was := RunUpto(alg, t, k, n - 1);
      var m := StepExists(alg, t, k, n - 1, was[n - 1]);
      StepKeeps(alg, t, k, n - 1, was[n - 1], m);
      ms := was + [m];
      forall i | 0 <= i < n ensures Step(alg, t, k, i, ms[i], ms[i + 1]) {
        if i < n - 1 { assert Step(alg, t, k, i, was[i], was[i + 1]); }
      }
    }
  }

  // Under every algorithm, with any number of frames.
  lemma RunExists(alg: Algorithm, t: seq<int>, k: nat) returns (ms: seq<Memory>)
    requires 0 < k
    ensures Run(alg, t, k, ms)
  {
    ms := RunUpto(alg, t, k, |t|);
  }

  // ---- Optimality ----

  lemma OptimalStepIsFurthest(t: seq<int>, k: nat, i: nat, m: Memory, m': Memory)
    requires i < |t| && Step(Optimal, t, k, i, m, m')
    ensures Belady.FurthestStep(t, k, i, Resident(m), Resident(m'))
  {
    StepKeeps(Optimal, t, k, i, m, m');
    DistinctSize(m.frames);
    if t[i] !in m.frames && |m.frames| == k {
      var v := EvictExchanges(Optimal, t, k, i, m, m');
      assert Belady.Furthest(t, i, Resident(m), m.frames[v]);
    }
  }

  // After every prefix, replacePageOptimal has taken no more faults than any
  // demand-paging schedule that starts from empty memory.
  lemma OptimalIsOptimal(t: seq<int>, k: nat, ms: seq<Memory>, other: seq<set<int>>, n: nat)
    requires 0 < k && Run(Optimal, t, k, ms) && Schedule(t, k, other) && n <= |t|
    ensures FaultCount(t, ms, n) <= Faults(t, other, n)
  {
    forall i | 0 <= i < |t|
      ensures Belady.FurthestStep(t, k, i, Resident(ms[i]), Resident(ms[i + 1]))
    {
      OptimalStepIsFurthest(t, k, i, ms[i], ms[i + 1]);
    }
    Belady.FurthestIsOptimal(t, k, Residents(ms), other, n);
  }

  lemma OptimalBeatsEveryAlgorithm(alg: Algorithm, t: seq<int>, k: nat, ms: seq<Memory>, other: seq<Memory>, n: nat)
    requires 0 < k && Run(Optimal, t, k, ms) && Run(alg, t, k, other) && n <= |t|
    ensures FaultCount(t, ms, n) <= FaultCount(t, other, n)
  {
    RunIsSchedule(alg, t, k, other);
    OptimalIsOptimal(t, k, ms, Residents(other), n);
  }

  // Distinct pages have distinct finite next uses, so the victim is determined.
  lemma OptimalVictimIsUnique(t: seq<int>, i: nat, m: Memory, v: int, w: int)
    requires i < |t| && FrameQueue(m) && Distinct(m.frames)
    requires OptimalVictim(t, i, m, v) && OptimalVictim(t, i, m, w)
    ensures v == w
  {
    QueueHolds(m, v);
    QueueHolds(m, w);
    if NextUse(t, i, m.frames[v]) == |t| {
      var a :| 0 <= a < |m.queue| && m.queue[a] == v;
      var b :| 0 <= b < |m.queue| && m.queue[b] == w;
      assert a <= b && b <= a;
    } else {
      assert m.frames[v] == m.frames[w];
    }
  }
}
