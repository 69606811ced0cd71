// How Second-Chance compares with Optimal. A page is loaded with its bit clear, so
// it can be evicted before older pages that were hit: Second-Chance takes up to
// 2k - 1 times the faults of Optimal, and no smaller factor will do.
module ClockBounds {
  import opened Paging
  import opened Collections
  import opened Replacement
  import opened Competitive

  // The resident pages in queue order, oldest first, and those with their bit set.
  datatype Line = Line(pages: seq<int>, marked: set<int>)

  // Every marked page at the front goes to the rear, its bit cleared.
  ghost function Settle(l: Line): Line
    decreases |l.marked|
  {
    if l.pages != [] && l.pages[0] in l.marked then Settle(Passed(l)) else l
  }

  ghost function Passed(l: Line): Line
    requires l.pages != []
  {
    Line(Rotate(l.pages), l.marked - {l.pages[0]})
  }

  // One reference.
  ghost function Serve(k: nat, l: Line, page: int): Line {
    if page in l.pages then l.(marked := l.marked + {page})
    else if |l.pages| < k then Line(l.pages + [page], l.marked - {page})
    else
      var s := Settle(l);
      if s.pages == [] then s else Line(s.pages[1..] + [page], s.marked - {page})
  }

  // ---- Every run is this ----

  ghost function LineOf(m: Memory): (l: Line)
    requires FrameQueue(m)
    ensures |l.pages| == |m.queue| && l.marked == m.marked
    ensures forall j :: 0 <= j < |m.queue| ==> l.pages[j] == m.frames[m.queue[j]]
  {
    Line(seq(|m.queue|, j requires 0 <= j < |m.queue| => m.frames[m.queue[j]]), m.marked)
  }

  lemma LineHoldsResident(m: Memory)
    requires FrameQueue(m) && Distinct(m.frames)
    ensures Distinct(LineOf(m).pages) && Elements(LineOf(m).pages) == Resident(m)
  {
    var s := LineOf(m).pages;
    forall x | x in Resident(m) ensures x in s {
      var h :| 0 <= h < |m.frames| && m.frames[h] == x;
      QueueHolds(m, h);
      var j :| 0 <= j < |m.queue| && m.queue[j] == h;
      assert s[j] == x;
    }
  }

  lemma {:induction false} ScanSettles(m: Memory)
    requires FrameQueue(m) && m.queue != []
    ensures FrameQueue(Scan(m)) && LineOf(Scan(m)) == Settle(LineOf(m))
    decreases |m.marked|
  {
    var page := m.frames[m.queue[0]];
    if page in m.marked {
      var m' := Memory(m.frames, Rotate(m.queue), m.marked - {page});
      ScanSettles(m');
      assert LineOf(m').pages == Rotate(LineOf(m).pages);
      assert LineOf(m') == Passed(LineOf(m));
    }
  }

  lemma EvictServes(k: nat, m: Memory, m': Memory, page: int)
    requires FrameQueue(m) && Distinct(m.frames) && |m.frames| == k && 0 < k && page !in m.frames
    requires FrameQueue(Scan(m)) && Scan(m).frames == m.frames && Scan(m).queue != []
    requires m' == Memory(m.frames[Scan(m).queue[0] := page], Rotate(Scan(m).queue), Scan(m).marked - {page})
    ensures FrameQueue(m') && LineOf(m') == Serve(k, LineOf(m), page)
  {
    ScanSettles(m);
    LineHoldsResident(m);
    assert page in LineOf(m).pages <==> page in Elements(LineOf(m).pages);
    var s := LineOf(Scan(m));
    RotateKeepsQueue(Scan(m), m');
    assert LineOf(m').pages == s.pages[1..] + [page];
  }

  lemma StepServesLine(t: seq<int>, k: nat, i: nat, m: Memory, m': Memory)
    requires i < |t| && Step(SecondChance, t, k, i, m, m')
    ensures FrameQueue(m') && LineOf(m') == Serve(k, LineOf(m), t[i])
    ensures t[i] in m.frames <==> t[i] in LineOf(m).pages
  {
    StepKeeps(SecondChance, t, k, i, m, m');
    LineHoldsResident(m);
    assert t[i] in LineOf(m).pages <==> t[i] in Elements(LineOf(m).pages);
    if t[i] in m.frames {
      assert LineOf(m').pages == LineOf(m).pages;
    } else if |m.frames| < k {
      assert LineOf(m').pages == LineOf(m).pages + [t[i]];
    } else {
      ScanKeeps(m);
      EvictServes(k, m, m', t[i]);
    }
  }

  // ---- The upper bound ----

  // What page x at place j of a full line may still cost, if Optimal lacks it: the
  // faults until it is evicted, a set bit sending it round once more.
  ghost function Cost(x: int, j: nat, marked: set<int>, held: set<int>, k: nat): nat {
    if x in held then 0 else if x in marked then k + j else j + 1
  }

  ghost function Burden(q: seq<int>, j: nat, marked: set<int>, held: set<int>, k: nat): nat {
    if q == [] then 0 else Cost(q[0], j, marked, held, k) + Burden(q[1..], j + 1, marked, held, k)
  }

  lemma {:induction false} BurdenAppend(q: seq<int>, x: int, j: nat, marked: set<int>, held: set<int>, k: nat)
    ensures Burden(q + [x], j, marked, held, k) == Burden(q, j, marked, held, k) + Cost(x, j + |q|, marked, held, k)
  {
    if q != [] {
      BurdenAppend(q[1..], x, j + 1, marked, held, k);
      assert (q + [x])[1..] == q[1..] + [x];
    }
  }

  // One place further to the front is lighter, strictly if anything counts.
  lemma {:induction false} BurdenAdvances(q: seq<int>, j: nat, marked: set<int>, held: set<int>, k: nat)
    ensures Burden(q, j, marked, held, k) <= Burden(q, j + 1, marked, held, k)
    ensures (exists h :: 0 <= h < |q| && q[h] !in held) ==> Burden(q, j, marked, held, k) < Burden(q, j + 1, marked, held, k)
  {
    if q != [] {
      BurdenAdvances(q[1..], j + 1, marked, held, k);
      if h :| 0 < h < |q| && q[h] !in held {
        assert q[1..][h - 1] !in held;
      }
    }
  }

  // Only the bits of pages in the line that Optimal lacks matter.
  lemma {:induction false} BurdenOfMarks(q: seq<int>, j: nat, marked: set<int>, marked': set<int>, held: set<int>, k: nat)
    requires forall h :: 0 <= h < |q| && q[h] !in held ==> (q[h] in marked <==> q[h] in marked')
    ensures Burden(q, j, marked, held, k) == Burden(q, j, marked', held, k)
  {
    if q != [] {
      BurdenOfMarks(q[1..], j + 1, marked, marked', held, k);
    }
  }

  lemma {:induction false} BurdenAntitone(q: seq<int>, j: nat, marked: set<int>, held: set<int>, held': set<int>, k: nat)
    requires forall h :: 0 <= h < |q| && q[h] in held ==> q[h] in held'
    ensures Burden(q, j, marked, held', k) <= Burden(q, j, marked, held, k)
  {
    if q != [] {
      BurdenAntitone(q[1..], j + 1, marked, held, held', k);
    }
  }

  // A page that Optimal gives up adds at most 2k - 1.
  lemma {:induction false} BurdenOfDropped(q: seq<int>, j: nat, marked: set<int>, held: set<int>, held': set<int>, p: int, k: nat)
    requires Distinct(q) && j + |q| <= k && held - {p} <= held' && 0 < k
    ensures Burden(q, j, marked, held', k) <= Burden(q, j, marked, held, k) + 2 * k - 1
  {
    if q != [] {
      if q[0] == p {
        BurdenAntitone(q[1..], j + 1, marked, held, held', k);
      } else {
        BurdenOfDropped(q[1..], j + 1, marked, held, held', p, k);
      }
    }
  }

  lemma {:induction false} BurdenNone(q: seq<int>, j: nat, marked: set<int>, held: set<int>, k: nat)
    requires forall h :: 0 <= h < |q| ==> q[h] in held
    ensures Burden(q, j, marked, held, k) == 0
  {
    if q != [] {
      BurdenNone(q[1..], j + 1, marked, held, k);
    }
  }

  ghost function LineBurden(l: Line, held: set<int>, k: nat): nat {
    Burden(l.pages, 0, l.marked, held, k)
  }

  // Passing a marked page over takes back what its bit had added.
  lemma PassedIsLighter(l: Line, held: set<int>, k: nat)
    requires Distinct(l.pages) && |l.pages| == k && 0 < k && l.pages[0] in l.marked
    ensures LineBurden(Passed(l), held, k) <= LineBurden(l, held, k)
  {
    var x, rest := l.pages[0], l.pages[1..];
    var marked' := l.marked - {x};
    BurdenAppend(rest, x, 0, marked', held, k);
    BurdenOfMarks(rest, 0, l.marked, marked', held, k);
    BurdenAdvances(rest, 0, l.marked, held, k);
  }

  lemma PassedElements(q: seq<int>)
    requires q != []
    ensures Elements(Rotate(q)) == Elements(q) && (Distinct(q) ==> Distinct(Rotate(q)))
  {
    ElementsConcat(q[1..], [q[0]]);
    ElementsConcat([q[0]], q[1..]);
    assert [q[0]] + q[1..] == q;
  }

  lemma {:induction false} SettleIsLighter(l: Line, held: set<int>, k: nat)
    requires Distinct(l.pages) && |l.pages| == k && 0 < k
    ensures var s := Settle(l);
            && Distinct(s.pages) && |s.pages| == k && Elements(s.pages) == Elements(l.pages)
            && s.pages[0] !in s.marked && LineBurden(s, held, k) <= LineBurden(l, held, k)
    decreases |l.marked|
  {
    if l.pages[0] in l.marked {
      PassedIsLighter(l, held, k);
      PassedElements(l.pages);
      SettleIsLighter(Passed(l), held, k);
    }
  }

  // A fault on a full line, when Optimal lacks one of its pages, frees at least one.
  lemma EvictionPays(l: Line, page: int, held: set<int>, k: nat)
    requires Distinct(l.pages) && |l.pages| == k && 0 < k && page !in l.pages && page in held && |held| <= k
    ensures LineBurden(Serve(k, l, page), held, k) < LineBurden(l, held, k)
  {
    SettleIsLighter(l, held, k);
    var s := Settle(l);
    var rest := s.pages[1..];
    var x := MissingPage(s.pages, page, held, k) by {
      assert page !in Elements(l.pages);
    }
    BurdenAppend(rest, page, 0, s.marked - {page}, held, k);
    BurdenOfMarks(rest, 0, s.marked, s.marked - {page}, held, k);
    BurdenAdvances(rest, 0, s.marked, held, k);
    if x > 0 { assert rest[x - 1] !in held; }
  }

  lemma MissingPage(q: seq<int>, page: int, held: set<int>, k: nat) returns (h: nat)
    requires Distinct(q) && |q| == k && page !in Elements(q) && page in held && |held| <= k
    ensures h < |q| && q[h] !in held
  {
    if forall i :: 0 <= i < |q| ==> q[i] in held {
      DistinctSize(q);
      SubsetSize(Elements(q) + {page}, held);
    }
    h :| 0 <= h < |q| && q[h] !in held;
  }

  lemma OptimalBurdens(k: nat, page: int, held: set<int>, held': set<int>, l: Line)
    requires Exchange(k, page, held, held') && Distinct(l.pages) && |l.pages| <= k && 0 < k
    ensures LineBurden(l, held', k) <= LineBurden(l, held, k) + if page in held then 0 else 2 * k - 1
  {
    if page !in held {
      if held' == held + {page} {
        BurdenAntitone(l.pages, 0, l.marked, held, held', k);
      } else {
        var p :| held' == held - {p} + {page};
        BurdenOfDropped(l.pages, 0, l.marked, held, held', p, k);
      }
    }
  }

  // One reference, served by Optimal and then by Second-Chance.
  lemma RoundPaid(k: nat, page: int, held: set<int>, held': set<int>, l: Line)
    requires 0 < k && Exchange(k, page, held, held') && page in held' && Distinct(l.pages) && |l.pages| <= k
    requires |l.pages| < k ==> held == Elements(l.pages) && held' == held + {page}
    ensures (if page in l.pages then 0 else 1) + LineBurden(Serve(k, l, page), held', k)
            <= LineBurden(l, held, k) + if page in held then 0 else 2 * k - 1
  {
    OptimalBurdens(k, page, held, held', l);
    if page in l.pages {
      BurdenOfMarks(l.pages, 0, l.marked, l.marked + {page}, held', k);
    } else if |l.pages| < k {
      assert page !in Elements(l.pages);
      var q := l.pages + [page];
      forall h | 0 <= h < |q| ensures q[h] in held' {
        if h < |l.pages| { assert q[h] in Elements(l.pages); }
      }
      BurdenNone(q, 0, l.marked - {page}, held', k);
    } else {
      EvictionPays(l, page, held', k);
    }
  }

  // Until memory is full nobody evicts anything, and both hold the same pages.
  lemma {:induction false} StartTogether(t: seq<int>, k: nat, opt: seq<Memory>, sc: seq<Memory>, n: nat)
    requires Run(Optimal, t, k, opt) && Run(SecondChance, t, k, sc) && n <= |t|
    ensures |sc[n].frames| < k ==> Resident(opt[n]) == Resident(sc[n])
  {
    if n > 0 {
      var i := n - 1;
      StartTogether(t, k, opt, sc, i);
      assert Step(Optimal, t, k, i, opt[i], opt[i + 1]) && Step(SecondChance, t, k, i, sc[i], sc[i + 1]);
      if |sc[n].frames| < k {
        TogetherStep(t, k, i, opt[i], opt[i + 1], sc[i], sc[i + 1]);
      }
    }
  }

  lemma TogetherStep(t: seq<int>, k: nat, i: nat, o: Memory, o': Memory, m: Memory, m': Memory)
    requires i < |t| && Step(Optimal, t, k, i, o, o') && Step(SecondChance, t, k, i, m, m')
    requires |m'.frames| < k && (|m.frames| < k ==> Resident(o) == Resident(m))
    ensures |m.frames| < k && Resident(o') == Resident(m') == Resident(m) + {t[i]}
  {
    FramesGrow(t, k, i, m, m');
    StepKeeps(SecondChance, t, k, i, m, m');
    StepKeeps(Optimal, t, k, i, o, o');
    DistinctSize(o.frames);
    DistinctSize(m.frames);
    assert t[i] in o.frames <==> t[i] in Resident(o);
    assert t[i] in m.frames <==> t[i] in Resident(m);
  }

  lemma FramesGrow(t: seq<int>, k: nat, i: nat, m: Memory, m': Memory)
    requires i < |t| && Step(SecondChance, t, k, i, m, m')
    ensures |m.frames| <= |m'.frames|
  {
    if t[i] !in m.frames && |m.frames| == k {
      var v := EvictExchanges(SecondChance, t, k, i, m, m');
    }
  }

  // What RoundPaid needs to know of the two runs.
  lemma RoundReady(t: seq<int>, k: nat, opt: seq<Memory>, sc: seq<Memory>, i: nat)
    requires 0 < k && Run(Optimal, t, k, opt) && Run(SecondChance, t, k, sc) && i < |t|
    ensures FrameQueue(sc[i]) && FrameQueue(sc[i + 1])
    ensures var l, held, held' := LineOf(sc[i]), Resident(opt[i]), Resident(opt[i + 1]);
            && Exchange(k, t[i], held, held') && t[i] in held' && Distinct(l.pages) && |l.pages| <= k
            && (|l.pages| < k ==> held == Elements(l.pages) && held' == held + {t[i]})
            && LineOf(sc[i + 1]) == Serve(k, l, t[i])
            && (t[i] in l.pages <==> t[i] in Resident(sc[i])) && (t[i] in sc[i].frames <==> t[i] in l.pages)
  {
    assert Step(Optimal, t, k, i, opt[i], opt[i + 1]) && Step(SecondChance, t, k, i, sc[i], sc[i + 1]);
    StepServesLine(t, k, i, sc[i], sc[i + 1]);
    LineHoldsResident(sc[i]);
    OptimalExchanges(t, k, i, opt[i], opt[i + 1]);
    StepServes(Optimal, t, k, i, opt[i], opt[i + 1]);
    StartTogether(t, k, opt, sc, i);
    if |sc[i].frames| < k {
      OptimalAdds(t, k, i, opt[i], opt[i + 1], sc[i]);
    }
  }

  lemma OptimalAdds(t: seq<int>, k: nat, i: nat, o: Memory, o': Memory, m: Memory)
    requires i < |t| && Step(Optimal, t, k, i, o, o') && Resident(o) == Resident(m)
    requires Distinct(m.frames) && |m.frames| < k
    ensures Resident(o') == Resident(o) + {t[i]}
  {
    StepKeeps(Optimal, t, k, i, o, o');
    DistinctSize(o.frames);
    DistinctSize(m.frames);
    assert t[i] in o.frames <==> t[i] in Resident(o);
  }

  lemma RoundCounted(t: seq<int>, k: nat, opt: seq<Memory>, sc: seq<Memory>, i: nat)
    requires 0 < k && Run(Optimal, t, k, opt) && Run(SecondChance, t, k, sc) && i < |t|
    ensures FrameQueue(sc[i]) && FrameQueue(sc[i + 1])
    ensures Miss(t[i], Resident(sc[i])) + LineBurden(LineOf(sc[i + 1]), Resident(opt[i + 1]), k)
            <= LineBurden(LineOf(sc[i]), Resident(opt[i]), k) + if t[i] in Resident(opt[i]) then 0 else 2 * k - 1
  {
    RoundReady(t, k, opt, sc, i);
    RoundPaid(k, t[i], Resident(opt[i]), Resident(opt[i + 1]), LineOf(sc[i]));
  }

  lemma {:induction false} ClockPotential(t: seq<int>, k: nat, opt: seq<Memory>, sc: seq<Memory>, n: nat)
    requires 0 < k && Run(Optimal, t, k, opt) && Run(SecondChance, t, k, sc) && n <= |t|
    ensures FrameQueue(sc[n])
    ensures FaultCount(t, sc, n) + LineBurden(LineOf(sc[n]), Resident(opt[n]), k) <= (2 * k - 1) * FaultCount(t, opt, n)
  {
    if n > 0 {
      var i := n - 1;
      ClockPotential(t, k, opt, sc, i);
      RoundCounted(t, k, opt, sc, i);
      OneMore(2 * k - 1, FaultCount(t, opt, i), FaultCount(t, opt, n), t[i] in Resident(opt[i]));
    }
  }

  // After every prefix Second-Chance has taken at most 2k - 1 times the faults of
  // Optimal.
  lemma SecondChanceCompetitive(t: seq<int>, k: nat, opt: seq<Memory>, sc: seq<Memory>, n: nat)
    requires 0 < k && Run(Optimal, t, k, opt) && Run(SecondChance, t, k, sc) && n <= |t|
    ensures FaultCount(t, sc, n) <= (2 * k - 1) * FaultCount(t, opt, n)
  {
    ClockPotential(t, k, opt, sc, n);
  }
}
