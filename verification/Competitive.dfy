// LRU and FIFO never take more than k times the faults of Optimal. Both keep the
// resident pages as a list; a page at depth j of the list that Optimal does not
// hold carries weight k - j, and the total weight pays for the faults.
module Competitive {
  import opened Collections
  import opened Replacement
  import opened LruStack

  // Weight of the pages of s missing from held, the front of s weighing w.
  ghost function Weight(s: seq<int>, held: set<int>, w: nat): nat
    requires |s| <= w
  {
    if s == [] then 0
    else (if s[0] in held then 0 else w) + Weight(s[1..], held, w - 1)
  }

  // A list algorithm: a fault pushes the page to the front and drops what no
  // longer fits; a hit leaves the list alone or moves the page to the front.
  ghost predicate ListStep(k: nat, page: int, s: seq<int>, s': seq<int>) {
    if page in s then s' == s || s' == [page] + Without(s, page)
    else 0 < k && s' == [page] + Top(s, k - 1)
  }

  ghost predicate ListRun(t: seq<int>, k: nat, lists: seq<seq<int>>) {
    && |lists| == |t| + 1
    && lists[0] == []
    && forall i :: 0 <= i < |t| ==>
         Distinct(lists[i]) && |lists[i]| <= k && ListStep(k, t[i], lists[i], lists[i + 1])
  }

  ghost function ListFaults(t: seq<int>, lists: seq<seq<int>>, n: nat): nat
    requires n <= |t| <= |lists|
  {
    if n == 0 then 0
    else ListFaults(t, lists, n - 1) + if t[n - 1] in lists[n - 1] then 0 else 1
  }

  // ---- How the weight moves ----

  lemma {:induction false} WeightAntitone(s: seq<int>, held: set<int>, held': set<int>, w: nat)
    requires |s| <= w
    requires forall j :: 0 <= j < |s| && s[j] in held ==> s[j] in held'
    ensures Weight(s, held', w) <= Weight(s, held, w)
  {
    if s != [] {
      WeightAntitone(s[1..], held, held', w - 1);
    }
  }

  // Giving up one page costs at most its weight.
  lemma {:induction false} WeightOfDropped(s: seq<int>, held: set<int>, held': set<int>, p: int, w: nat)
    requires |s| <= w && Distinct(s) && held - {p} <= held'
    ensures Weight(s, held', w) <= Weight(s, held, w) + w
  {
    if s != [] {
      if s[0] == p {
        WeightAntitone(s[1..], held, held', w - 1);
      } else {
        WeightOfDropped(s[1..], held, held', p, w - 1);
      }
    }
  }

  // Pushing the list one deeper lightens it, strictly if anything in it counts.
  lemma {:induction false} WeightOfPushed(s: seq<int>, held: set<int>, w: nat)
    requires |s| <= w && 0 < w
    ensures Weight(Top(s, w - 1), held, w - 1) <= Weight(s, held, w)
    ensures (exists x :: x in s && x !in held) ==>
              Weight(Top(s, w - 1), held, w - 1) < Weight(s, held, w)
  {
    if s != [] && w > 1 {
      WeightOfPushed(s[1..], held, w - 1);
      assert Top(s, w - 1)[1..] == Top(s[1..], w - 2);
    }
  }

  lemma {:induction false} WeightOfMoved(s: seq<int>, held: set<int>, page: int, w: nat)
    requires |s| <= w && page in s && page in held
    ensures |Without(s, page)| == |s| - 1
    ensures Weight(Without(s, page), held, w - 1) <= Weight(s, held, w)
  {
    if s[0] != page {
      WeightOfMoved(s[1..], held, page, w - 1);
      assert Without(s, page)[1..] == Without(s[1..], page);
    }
  }

  // ---- One reference ----

  // How a demand-paging step of an algorithm changes its resident set.
  ghost predicate Exchange(k: nat, page: int, held: set<int>, held': set<int>) {
    && |held'| <= k
    && (if page in held then held' == held
        else held' == held + {page} || exists p :: held' == held - {p} + {page})
  }

  lemma OptimalExchanges(t: seq<int>, k: nat, i: nat, m: Memory, m': Memory)
    requires i < |t| && Step(Optimal, t, k, i, m, m')
    ensures Exchange(k, t[i], Resident(m), Resident(m'))
  {
    StepKeeps(Optimal, t, k, i, m, m');
    StepServes(Optimal, t, k, i, m, m');
  }

  // Optimal serves the reference first: it adds at most k to the weight.
  lemma OptimalPays(k: nat, page: int, held: set<int>, held': set<int>, s: seq<int>)
    requires Exchange(k, page, held, held')
    requires Distinct(s) && |s| <= k
    ensures Weight(s, held', k) <= Weight(s, held, k) + if page in held then 0 else k
  {
    if page !in held {
      if held' == held + {page} {
        WeightAntitone(s, held, held', k);
      } else {
        var p :| held' == held - {p} + {page};
        WeightOfDropped(s, held, held', p, k);
      }
    }
  }

  // Then the list serves it: a hit adds no weight, and a fault that finds memory
  // full, or finds anything Optimal lacks, is paid for by the weight it frees.
  lemma ListEarns(k: nat, page: int, held: set<int>, s: seq<int>, s': seq<int>)
    requires Distinct(s) && |s| <= k && ListStep(k, page, s, s')
    requires page in held && |held| <= k
    ensures |s'| <= k
    ensures page in s ==> Weight(s', held, k) <= Weight(s, held, k)
    ensures page !in s ==> Weight(s', held, k) <= Weight(s, held, k)
    ensures page !in s && (|s| == k || exists x :: x in s && x !in held) ==>
              Weight(s', held, k) < Weight(s, held, k)
  {
    if page in s {
      WeightOfMoved(s, held, page, k);
      assert ([page] + Without(s, page))[1..] == Without(s, page);
    } else {
      assert s'[1..] == Top(s, k - 1);
      if |s| == k && forall x :: x in s ==> x in held {
        DistinctSize(s);
        SubsetSize(Elements(s) + {page}, held);
      }
      WeightOfPushed(s, held, k);
    }
  }

  // While the list is not full it still holds every page seen, so whatever faults
  // in it faults under Optimal too.
  ghost predicate NothingLostYet(k: nat, s: seq<int>, held: set<int>) {
    |s| < k ==> held <= Elements(s)
  }

  lemma NothingLostKept(k: nat, page: int, s: seq<int>, s': seq<int>, held: set<int>, held': set<int>)
    requires ListStep(k, page, s, s') && NothingLostYet(k, s, held) && held' <= held + {page}
    requires Distinct(s) && |s| <= k
    ensures |s'| <= k && NothingLostYet(k, s', held')
  {
    if page in s {
      WithoutKeepsRest(s, page);
      ElementsConcat([page], Without(s, page));
    } else {
      ElementsConcat([page], Top(s, k - 1));
    }
  }

  // One reference, served by Optimal and by the list: the faults of the list
  // and the gain in weight stay within k for each fault of Optimal.
  lemma ReferencePaid(k: nat, page: int, held: set<int>, held': set<int>, s: seq<int>, s': seq<int>)
    requires Exchange(k, page, held, held') && ListStep(k, page, s, s')
    requires Distinct(s) && |s| <= k && NothingLostYet(k, s, held)
    ensures |s'| <= k
    ensures (if page in s then 0 else 1) + Weight(s', held', k)
            <= Weight(s, held, k) + if page in held then 0 else k
  {
    OptimalPays(k, page, held, held', s);
    ListEarns(k, page, held', s, s');
    if page !in s && |s| < k && forall x :: x in s ==> x in held' {
      assert page !in held;
      WeightNone(s, held', k);
    }
  }

  lemma {:induction false} NothingLostInvariant(t: seq<int>, k: nat, opt: seq<Memory>, lists: seq<seq<int>>, n: nat)
    requires Run(Optimal, t, k, opt) && ListRun(t, k, lists) && n <= |t|
    ensures |lists[n]| <= k && NothingLostYet(k, lists[n], Resident(opt[n]))
  {
    if n > 0 {
      var i := n - 1;
      NothingLostInvariant(t, k, opt, lists, i);
      OptimalExchanges(t, k, i, opt[i], opt[i + 1]);
      NothingLostKept(k, t[i], lists[i], lists[i + 1], Resident(opt[i]), Resident(opt[i + 1]));
    }
  }

  lemma {:induction false} PotentialInvariant(t: seq<int>, k: nat, opt: seq<Memory>, lists: seq<seq<int>>, n: nat)
    requires Run(Optimal, t, k, opt) && ListRun(t, k, lists) && n <= |t|
    ensures |lists[n]| <= k
    ensures ListFaults(t, lists, n) + Weight(lists[n], Resident(opt[n]), k) <= k * FaultCount(t, opt, n)
  {
    NothingLostInvariant(t, k, opt, lists, n);
    if n > 0 {
      var i := n - 1;
      var held, held', s, s' := Resident(opt[i]), Resident(opt[i + 1]), lists[i], lists[i + 1];
      PotentialInvariant(t, k, opt, lists, i);
      assert (if t[i] in s then 0 else 1) + Weight(s', held', k)
             <= Weight(s, held, k) + if t[i] in held then 0 else k by {
        NothingLostInvariant(t, k, opt, lists, i);
        OptimalExchanges(t, k, i, opt[i], opt[i + 1]);
        ReferencePaid(k, t[i], held, held', s, s');
      }
      OneMore(k, FaultCount(t, opt, i), FaultCount(t, opt, n), t[i] in held);
    }
  }

  lemma OneMore(k: nat, faults: nat, faults': nat, hit: bool)
    requires faults' == faults + if hit then 0 else 1
    ensures k * faults' == k * faults + if hit then 0 else k
  {
  }

  lemma {:induction false} WeightNone(s: seq<int>, held: set<int>, w: nat)
    requires |s| <= w && forall j :: 0 <= j < |s| ==> s[j] in held
    ensures Weight(s, held, w) == 0
  {
    if s != [] {
      WeightNone(s[1..], held, w - 1);
    }
  }

  // ---- LRU ----

  ghost function LruLists(t: seq<int>, k: nat): (lists: seq<seq<int>>)
    ensures |lists| == |t| + 1
    ensures forall n :: 0 <= n <= |t| ==> lists[n] == Top(Stack(t, n), k)
  {
    seq(|t| + 1, n requires 0 <= n <= |t| => Top(Stack(t, n), k))
  }

  lemma TopOfTouched(s: seq<int>, k: nat, j: nat)
    requires Distinct(s) && j < |Top(s, k)|
    ensures Top([s[j]] + Without(s, s[j]), k) == [s[j]] + Without(Top(s, k), s[j])
  {
    var top := Top(s, k);
    assert top[j] == s[j];
    WithoutAt(s, j);
    WithoutAt(top, j);
  }

  lemma TouchIsListStep(s: seq<int>, k: nat, page: int)
    requires 0 < k && Distinct(s)
    ensures Distinct(Top(s, k)) && ListStep(k, page, Top(s, k), Top([page] + Without(s, page), k))
  {
    var top := Top(s, k);
    if page in top {
      var j :| 0 <= j < |top| && top[j] == page;
      TopOfTouched(s, k, j);
    } else {
      PushTop(s, k, page);
    }
  }

  lemma LruListsRun(t: seq<int>, k: nat)
    requires 0 < k
    ensures ListRun(t, k, LruLists(t, k))
  {
    forall i | 0 <= i < |t|
      ensures Distinct(Top(Stack(t, i), k)) && ListStep(k, t[i], Top(Stack(t, i), k), Top(Stack(t, i + 1), k))
    {
      StackByRecency(t, i);
      TouchIsListStep(Stack(t, i), k, t[i]);
    }
  }

  lemma {:induction false} LruListFaults(t: seq<int>, k: nat, ms: seq<Memory>, n: nat)
    requires Run(Lru, t, k, ms) && n <= |t|
    ensures ListFaults(t, LruLists(t, k), n) == FaultCount(t, ms, n)
  {
    if n > 0 {
      LruListFaults(t, k, ms, n - 1);
      assert t[n - 1] in Resident(ms[n - 1]) <==> t[n - 1] in LruLists(t, k)[n - 1] by {
        LruHoldsMostRecent(t, k, ms, n - 1);
      }
    }
  }

  // LRU is k-competitive, after every prefix.
  lemma LruCompetitive(t: seq<int>, k: nat, opt: seq<Memory>, lru: seq<Memory>, n: nat)
    requires 0 < k && Run(Optimal, t, k, opt) && Run(Lru, t, k, lru) && n <= |t|
    ensures FaultCount(t, lru, n) <= k * FaultCount(t, opt, n)
  {
    LruListsRun(t, k);
    PotentialInvariant(t, k, opt, LruLists(t, k), n);
    LruListFaults(t, k, lru, n);
  }
}
