// Belady's theorem: evicting the page whose next use lies furthest in the future
// never takes more faults than any other demand-paging schedule.
module Belady {
  import opened Paging
  import opened Collections

  // One step of a furthest-next-use policy. A page is evicted only by a fault on
  // a full memory, and no resident page is used later than the evicted one.
  ghost predicate FurthestStep(t: seq<int>, k: nat, i: nat, before: set<int>, after: set<int>)
    requires i < |t|
  {
    if t[i] in before then
      after == before
    else if |before| < k then
      after == before + {t[i]}
    else
      exists victim :: Furthest(t, i, before, victim) && after == before - {victim} + {t[i]}
  }

  ghost predicate Furthest(t: seq<int>, i: nat, resident: set<int>, victim: int)
    requires i < |t|
  {
    && victim in resident
    && forall p :: p in resident ==> NextUse(t, i, p) <= NextUse(t, i, victim)
  }

  ghost predicate FurthestRun(t: seq<int>, k: nat, residents: seq<set<int>>) {
    && |residents| == |t| + 1
    && residents[0] == {}
    && forall i :: 0 <= i < |t| ==> FurthestStep(t, k, i, residents[i], residents[i + 1])
  }

  // The pages of a resident set that are requested again, from i on, before d.
  ghost function Soon(t: seq<int>, i: nat, d: nat, resident: set<int>): set<int>
    requires i <= |t|
  {
    set p | p in resident && NextUse(t, i, p) < d
  }

  // Up to every horizon d, `ours` holds at most `deficit` fewer of the pages
  // needed before d than `theirs` does.
  ghost predicate Trails(t: seq<int>, i: nat, ours: set<int>, theirs: set<int>, deficit: int)
    requires i <= |t|
  {
    forall d :: i <= d <= |t| ==> |Soon(t, i, d, theirs)| <= |Soon(t, i, d, ours)| + deficit
  }

  // Serving request i moves every horizon past i but changes no other next use.
  lemma SoonAdvances(t: seq<int>, i: nat, d: nat, resident: set<int>)
    requires i < |t| && i < d <= |t| && t[i] in resident
    ensures |Soon(t, i + 1, d, resident)|
            == |Soon(t, i, d, resident - {t[i]})| + if NextUse(t, i + 1, t[i]) < d then 1 else 0
  {
    var rest := Soon(t, i, d, resident - {t[i]});
    if NextUse(t, i + 1, t[i]) < d {
      assert Soon(t, i + 1, d, resident) == rest + {t[i]};
    } else {
      assert Soon(t, i + 1, d, resident) == rest;
    }
  }

  lemma SoonDrops(t: seq<int>, i: nat, d: nat, resident: set<int>, page: int)
    requires i <= |t|
    ensures |Soon(t, i, d, resident - {page})|
            == |Soon(t, i, d, resident)| - if page in resident && NextUse(t, i, page) < d then 1 else 0
  {
    var rest := Soon(t, i, d, resident - {page});
    if page in resident && NextUse(t, i, page) < d {
      assert Soon(t, i, d, resident) == rest + {page};
    } else {
      assert Soon(t, i, d, resident) == rest;
    }
  }

  // The heart of the argument: what the furthest-next-use policy keeps, besides
  // the page just served, trails what anyone else keeps by the old deficit
  // adjusted by who missed.
  lemma KeptTrails(t: seq<int>, k: nat, i: nat, d: nat,
                   ours: set<int>, ours': set<int>, theirs: set<int>, theirs': set<int>, deficit: nat)
    requires i < |t| && i < d <= |t|
    requires |ours| <= k && FurthestStep(t, k, i, ours, ours') && Serves(k, t[i], theirs, theirs')
    requires Trails(t, i, ours, theirs, deficit)
    ensures t[i] in ours'
    ensures |Soon(t, i, d, theirs' - {t[i]})|
            <= |Soon(t, i, d, ours' - {t[i]})| + deficit + Miss(t[i], theirs) - Miss(t[i], ours)
  {
    var page := t[i];
    SubsetSize(Soon(t, i, d, theirs' - {page}), Soon(t, i, d, theirs - {page}));
    SoonDrops(t, i, d, theirs, page);
    if page in ours || |ours| < k {
      SoonDrops(t, i, d, ours, page);
      assert ours' - {page} == ours - {page};
    } else {
      var victim :| Furthest(t, i, ours, victim) && ours' == ours - {victim} + {page};
      assert ours' - {page} == ours - {victim};
      if NextUse(t, i, victim) < d {
        AllSoon(t, i, d, ours, victim);
        SubsetSize(Soon(t, i, d, theirs' - {page}), theirs' - {page});
        DeficitCoversMiss(t, i, ours, theirs, deficit);
      } else {
        SoonDrops(t, i, d, ours, victim);
      }
    }
  }

  // When even the victim is needed before d, so is everything that stays.
  lemma AllSoon(t: seq<int>, i: nat, d: nat, resident: set<int>, victim: int)
    requires i < |t| && Furthest(t, i, resident, victim) && NextUse(t, i, victim) < d
    ensures |Soon(t, i, d, resident - {victim})| == |resident| - 1
  {
    assert Soon(t, i, d, resident - {victim}) == resident - {victim};
  }

  // If they hit where we miss, the horizon just past the request shows a deficit.
  lemma DeficitCoversMiss(t: seq<int>, i: nat, ours: set<int>, theirs: set<int>, deficit: nat)
    requires i < |t| && Trails(t, i, ours, theirs, deficit)
    ensures deficit + Miss(t[i], theirs) - Miss(t[i], ours) >= 0
  {
    if t[i] in theirs && t[i] !in ours {
      assert t[i] in Soon(t, i, i + 1, theirs);
      assert Soon(t, i, i + 1, ours) == {};
    }
  }

  lemma TrailsAdvances(t: seq<int>, k: nat, i: nat,
                       ours: set<int>, ours': set<int>, theirs: set<int>, theirs': set<int>, deficit: nat)
    requires i < |t| && |ours| <= k
    requires FurthestStep(t, k, i, ours, ours') && Serves(k, t[i], theirs, theirs')
    requires Trails(t, i, ours, theirs, deficit)
    ensures Trails(t, i + 1, ours', theirs', deficit + Miss(t[i], theirs) - Miss(t[i], ours))
  {
    var n := i + 1;
    forall d | n <= d <= |t|
      ensures |Soon(t, n, d, theirs')|
              <= |Soon(t, n, d, ours')| + deficit + Miss(t[i], theirs) - Miss(t[i], ours)
    {
      KeptTrails(t, k, i, d, ours, ours', theirs, theirs', deficit);
      SoonAdvances(t, i, d, ours');
      SoonAdvances(t, i, d, theirs');
    }
  }

  lemma FurthestStepFits(t: seq<int>, k: nat, i: nat, before: set<int>, after: set<int>)
    requires i < |t| && 0 < k && |before| <= k && FurthestStep(t, k, i, before, after)
    ensures Serves(k, t[i], before, after)
  {
    if t[i] !in before && |before| == k {
      var victim :| Furthest(t, i, before, victim) && after == before - {victim} + {t[i]};
      assert |before - {victim}| == |before| - 1;
    }
  }

  // Invariant over the whole run: our lead in faults bounds what we are missing.
  lemma {:induction false} LeadInvariant(t: seq<int>, k: nat, ours: seq<set<int>>, theirs: seq<set<int>>, n: nat)
    requires 0 < k && FurthestRun(t, k, ours) && Schedule(t, k, theirs) && n <= |t|
    ensures |ours[n]| <= k
    ensures Faults(t, ours, n) <= Faults(t, theirs, n)
    ensures Trails(t, n, ours[n], theirs[n], Faults(t, theirs, n) - Faults(t, ours, n))
  {
    if n == 0 {
    } else {
      var i := n - 1;
      LeadInvariant(t, k, ours, theirs, i);
      var lead := Faults(t, theirs, i) - Faults(t, ours, i);
      assert FurthestStep(t, k, i, ours[i], ours[i + 1]) && Serves(k, t[i], theirs[i], theirs[i + 1]);
      FurthestStepFits(t, k, i, ours[i], ours[i + 1]);
      DeficitCoversMiss(t, i, ours[i], theirs[i], lead);
      TrailsAdvances(t, k, i, ours[i], ours[i + 1], theirs[i], theirs[i + 1], lead);
    }
  }

  // Belady optimality, at the end of the trace and after every prefix of it.
  lemma FurthestIsOptimal(t: seq<int>, k: nat, ours: seq<set<int>>, theirs: seq<set<int>>, n: nat)
    requires 0 < k && FurthestRun(t, k, ours) && Schedule(t, k, theirs) && n <= |t|
    ensures Faults(t, ours, n) <= Faults(t, theirs, n)
  {
    LeadInvariant(t, k, ours, theirs, n);
  }
}
