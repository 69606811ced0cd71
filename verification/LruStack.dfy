// The LRU stack property: what LRU keeps in k frames are the k most recently
// used pages, so more frames never hold less and never fault more.
module LruStack {
  import opened Paging
  import opened Collections
  import opened Replacement

  // The pages of the first n references, most recently used first.
  ghost function Stack(t: seq<int>, n: nat): seq<int>
    requires n <= |t|
  {
    if n == 0 then [] else [t[n - 1]] + Without(Stack(t, n - 1), t[n - 1])
  }

  ghost function Top(s: seq<int>, k: nat): seq<int> {
    if |s| <= k then s else s[..k]
  }

  // The pages referenced since the last reference to page.
  ghost function Since(t: seq<int>, n: nat, page: int): set<int>
    requires n <= |t|
  {
    Elements(t[LastUse(t, n, page)..n])
  }

  ghost predicate ByRecency(t: seq<int>, n: nat, s: seq<int>)
    requires n <= |t|
  {
    && Elements(s) == Elements(t[..n])
    && Descending(t, n, s)
  }

  // Strictly descending in last use, hence without repetitions.
  ghost predicate Descending(t: seq<int>, n: nat, s: seq<int>)
    requires n <= |t|
  {
    forall a, b :: 0 <= a < b < |s| ==> LastUse(t, n, s[b]) < LastUse(t, n, s[a])
  }

  lemma DescendingSkip(t: seq<int>, n: nat, s: seq<int>, j: nat)
    requires n <= |t| && Descending(t, n, s) && Distinct(s) && j < |s|
    ensures Descending(t, n, Without(s, s[j]))
  {
    WithoutIndex(s, j);
  }

  lemma DescendingWithout(t: seq<int>, n: nat, s: seq<int>, r: int)
    requires n <= |t| && Descending(t, n, s)
    ensures Descending(t, n, Without(s, r))
    ensures Elements(Without(s, r)) == Elements(s) - {r}
  {
    DescendingIsDistinct(t, n, s);
    if r in s {
      var j :| 0 <= j < |s| && s[j] == r;
      DescendingSkip(t, n, s, j);
      WithoutKeepsRest(s, r);
    } else {
      WithoutAbsent(s, r);
    }
  }

  // Touching page n - 1 puts it first and keeps the order of the others.
  lemma TouchDescends(t: seq<int>, n: nat, w: seq<int>)
    requires 0 < n <= |t| && Descending(t, n - 1, w) && t[n - 1] !in w
    ensures Descending(t, n, [t[n - 1]] + w)
  {
    assert forall a :: 0 <= a < |w| ==> LastUse(t, n, w[a]) == LastUse(t, n - 1, w[a]);
  }

  lemma DescendingIsDistinct(t: seq<int>, n: nat, s: seq<int>)
    requires n <= |t| && Descending(t, n, s)
    ensures Distinct(s)
  {
  }

  lemma TouchElements(t: seq<int>, n: nat, w: seq<int>)
    requires 0 < n <= |t| && Elements(w) == Elements(t[..n - 1]) - {t[n - 1]}
    ensures Elements([t[n - 1]] + w) == Elements(t[..n])
  {
    assert t[..n] == t[..n - 1] + [t[n - 1]];
    ElementsConcat(t[..n - 1], [t[n - 1]]);
    ElementsConcat([t[n - 1]], w);
  }

  lemma TouchByRecency(t: seq<int>, n: nat, s: seq<int>)
    requires 0 < n <= |t| && ByRecency(t, n - 1, s)
    ensures ByRecency(t, n, [t[n - 1]] + Without(s, t[n - 1]))
  {
    var w := Without(s, t[n - 1]);
    DescendingWithout(t, n - 1, s, t[n - 1]);
    assert t[n - 1] !in Elements(w);
    TouchDescends(t, n, w);
    TouchElements(t, n, w);
  }

  lemma {:induction false} StackByRecency(t: seq<int>, n: nat)
    requires n <= |t|
    ensures ByRecency(t, n, Stack(t, n))
    ensures Distinct(Stack(t, n))
  {
    if n > 0 {
      StackByRecency(t, n - 1);
      TouchByRecency(t, n, Stack(t, n - 1));
    }
    DescendingIsDistinct(t, n, Stack(t, n));
  }

  // Where the pages are once page j has moved to the front.
  lemma MovedToFront(s: seq<int>, j: nat)
    requires Distinct(s) && j < |s|
    ensures var u := [s[j]] + Without(s, s[j]);
            |u| == |s| && forall a :: 0 <= a < |s| ==> u[a] == s[if a == 0 then j else if a <= j then a - 1 else a]
  {
    WithoutIndex(s, j);
  }

  lemma SameTop(s: seq<int>, u: seq<int>, k: nat, j: nat)
    requires |u| == |s| && j < |Top(s, k)|
    requires forall a :: 0 <= a < |s| ==> u[a] == s[if a == 0 then j else if a <= j then a - 1 else a]
    ensures Elements(Top(u, k)) == Elements(Top(s, k))
  {
    var top, now := Top(s, k), Top(u, k);
    forall a | 0 <= a < |now| ensures now[a] in top {
      assert now[a] == top[if a == 0 then j else if a <= j then a - 1 else a];
    }
    forall a | 0 <= a < |top| ensures top[a] in now {
      assert top[a] == now[if a == j then 0 else if a < j then a + 1 else a];
    }
  }

  // A hit in the top k only reorders the top k.
  lemma TouchTop(s: seq<int>, k: nat, j: nat)
    requires Distinct(s) && j < |Top(s, k)|
    ensures Elements(Top([s[j]] + Without(s, s[j]), k)) == Elements(Top(s, k))
  {
    MovedToFront(s, j);
    SameTop(s, [s[j]] + Without(s, s[j]), k, j);
  }

  // A miss in the top k pushes the last of them out, if there are k.
  lemma PushTop(s: seq<int>, k: nat, page: int)
    requires 0 < k && Distinct(s) && page !in Top(s, k)
    ensures Top([page] + Without(s, page), k) == [page] + Top(s, k - 1)
  {
    if page in s {
      var j :| 0 <= j < |s| && s[j] == page;
      assert forall h :: 0 <= h < k && h < |s| ==> s[h] == Top(s, k)[h];
      WithoutAt(s, j);
    } else {
      WithoutAbsent(s, page);
    }
  }

  // The least recently used resident page is the last of the top k.
  lemma VictimIsLast(t: seq<int>, k: nat, n: nat, m: Memory, v: nat)
    requires 0 < k && n < |t| && LruVictim(t, n, m, v)
    requires |m.frames| == k && Resident(m) == Elements(Top(Stack(t, n), k))
    requires |Stack(t, n)| >= k
    ensures m.frames[v] == Stack(t, n)[k - 1]
  {
    StackByRecency(t, n);
    LastOfTop(t, k, n, Stack(t, n), m, v);
  }

  lemma LastOfTop(t: seq<int>, k: nat, n: nat, s: seq<int>, m: Memory, v: nat)
    requires 0 < k <= |s| && n < |t| && Descending(t, n, s) && LruVictim(t, n, m, v)
    requires Resident(m) == Elements(Top(s, k))
    ensures m.frames[v] == s[k - 1]
  {
    var top := Top(s, k);
    assert m.frames[v] in Resident(m) && top[k - 1] in Elements(top);
    var j :| 0 <= j < |top| && top[j] == m.frames[v];
    var f :| 0 <= f < |m.frames| && m.frames[f] == top[k - 1];
    assert LastUse(t, n, m.frames[v]) <= LastUse(t, n, m.frames[f]);
    assert top[j] == s[j] && top[k - 1] == s[k - 1];
  }

  lemma LruHitFollowsStack(t: seq<int>, k: nat, n: nat, m: Memory)
    requires n < |t| && t[n] in m.frames
    requires Resident(m) == Elements(Top(Stack(t, n), k))
    ensures Resident(m) == Elements(Top(Stack(t, n + 1), k))
  {
    var s := Stack(t, n);
    StackByRecency(t, n);
    assert t[n] in Elements(Top(s, k));
    var j :| 0 <= j < |Top(s, k)| && Top(s, k)[j] == t[n];
    TouchTop(s, k, j);
  }

  lemma DropLast(s: seq<int>, k: nat)
    requires 0 < k <= |s| && Distinct(s)
    ensures Elements(Top(s, k - 1)) == Elements(Top(s, k)) - {s[k - 1]}
  {
    assert s[..k] == s[..k - 1] + [s[k - 1]];
    ElementsConcat(s[..k - 1], [s[k - 1]]);
  }

  lemma LruMissFollowsStack(t: seq<int>, k: nat, n: nat, m: Memory, m': Memory)
    requires n < |t| && Step(Lru, t, k, n, m, m') && t[n] !in m.frames
    requires Resident(m) == Elements(Top(Stack(t, n), k))
    ensures Resident(m') == Elements([t[n]] + Top(Stack(t, n), k - 1))
  {
    var s, r := Stack(t, n), t[n];
    ElementsConcat([r], Top(s, k - 1));
    assert Distinct(s) && |m.frames| == |Top(s, k)| by {
      StackByRecency(t, n);
      DistinctSize(m.frames);
      DistinctSize(Top(s, k));
    }
    if |m.frames| == k {
      var v := EvictExchanges(Lru, t, k, n, m, m');
      VictimIsLast(t, k, n, m, v);
      DropLast(s, k);
    } else {
      StepKeeps(Lru, t, k, n, m, m');
    }
  }

  lemma LruStepFollowsStack(t: seq<int>, k: nat, n: nat, m: Memory, m': Memory)
    requires n < |t| && Step(Lru, t, k, n, m, m')
    requires Resident(m) == Elements(Top(Stack(t, n), k))
    ensures Resident(m') == Elements(Top(Stack(t, n + 1), k))
  {
    if t[n] in m.frames {
      LruHitFollowsStack(t, k, n, m);
    } else {
      LruMissFollowsStack(t, k, n, m, m');
      StackByRecency(t, n);
      assert t[n] !in Elements(Top(Stack(t, n), k));
      PushTop(Stack(t, n), k, t[n]);
    }
  }

  // After any prefix, k frames hold exactly the min(k, distinct) most recently
  // used pages.
  lemma {:induction false} LruHoldsMostRecent(t: seq<int>, k: nat, ms: seq<Memory>, n: nat)
    requires Run(Lru, t, k, ms) && n <= |t|
    ensures Resident(ms[n]) == Elements(Top(Stack(t, n), k))
  {
    if n > 0 {
      var i := n - 1;
      LruHoldsMostRecent(t, k, ms, i);
      LruStepFollowsStack(t, k, i, ms[i], ms[i + 1]);
    }
  }

  lemma InStack(t: seq<int>, n: nat, h: nat)
    requires h < n <= |t|
    ensures t[h] in Stack(t, n) && LastUse(t, n, t[h]) > h
  {
    StackByRecency(t, n);
    assert t[..n][h] in Elements(t[..n]);
    assert t[h] in Elements(Stack(t, n));
  }

  lemma UsedSince(t: seq<int>, n: nat, last: nat, page: int)
    requires n <= |t| && last < LastUse(t, n, page)
    ensures page in Elements(t[last..n])
  {
    assert t[last..n][LastUse(t, n, page) - 1 - last] == page;
  }

  // A page's depth in the stack counts the pages referenced since it was.
  lemma DepthCountsSince(t: seq<int>, n: nat, j: nat)
    requires n <= |t| && j < |Stack(t, n)|
    ensures |Since(t, n, Stack(t, n)[j])| == j
  {
    var s := Stack(t, n);
    StackByRecency(t, n);
    var last := LastUse(t, n, s[j]);
    forall x | x in Since(t, n, s[j]) ensures x in s[..j] {
      var h :| last <= h < n && t[h] == x;
      InStack(t, n, h);
      var a :| 0 <= a < |s| && s[a] == x;
    }
    forall a | 0 <= a < j ensures s[a] in Since(t, n, s[j]) {
      UsedSince(t, n, last, s[a]);
    }
    assert Since(t, n, s[j]) == Elements(s[..j]);
    DistinctSize(s[..j]);
  }

  // The same said without the stack: a page is resident exactly when it has been
  // used and fewer than k other pages have been used since.
  lemma LruResidentIff(t: seq<int>, k: nat, ms: seq<Memory>, n: nat, page: int)
    requires Run(Lru, t, k, ms) && n <= |t|
    ensures page in ms[n].frames <==> page in t[..n] && |Since(t, n, page)| < k
  {
    LruHoldsMostRecent(t, k, ms, n);
    StackByRecency(t, n);
    var s := Stack(t, n);
    assert page in ms[n].frames <==> page in Resident(ms[n]);
    assert page in t[..n] <==> page in Elements(s);
    if page in s {
      var j :| 0 <= j < |s| && s[j] == page;
      DepthCountsSince(t, n, j);
      assert page in Top(s, k) <==> j < k;
    }
  }

  // Inclusion: a larger memory holds at least what a smaller one holds.
  lemma LruInclusion(t: seq<int>, k: nat, small: seq<Memory>, k': nat, large: seq<Memory>, n: nat)
    requires k <= k' && Run(Lru, t, k, small) && Run(Lru, t, k', large) && n <= |t|
    ensures Resident(small[n]) <= Resident(large[n])
  {
    LruHoldsMostRecent(t, k, small, n);
    LruHoldsMostRecent(t, k', large, n);
    var s := Stack(t, n);
    assert forall j :: 0 <= j < |Top(s, k)| ==> Top(s, k)[j] == Top(s, k')[j];
  }

  // Adding frames never adds faults: LRU has no Belady anomaly.
  lemma {:induction false} LruFaultsNeverRise(t: seq<int>, k: nat, small: seq<Memory>, k': nat, large: seq<Memory>, n: nat)
    requires k <= k' && Run(Lru, t, k, small) && Run(Lru, t, k', large) && n <= |t|
    ensures FaultCount(t, large, n) <= FaultCount(t, small, n)
  {
    if n > 0 {
      LruFaultsNeverRise(t, k, small, k', large, n - 1);
      LruInclusion(t, k, small, k', large, n - 1);
    }
  }
}
