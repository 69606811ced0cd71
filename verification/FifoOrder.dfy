// FIFO in closed form: the m-th fault (from 0) loads frame m mod k, and memory
// holds exactly the pages of the last k faults.
module FifoOrder {
  import opened Collections
  import opened Replacement
  import opened Competitive

  // The pages that faulted among the first n references, in order.
  ghost function FaultPages(t: seq<int>, ms: seq<Memory>, n: nat): seq<int>
    requires n <= |t| <= |ms|
  {
    if n == 0 then []
    else if t[n - 1] in ms[n - 1].frames then FaultPages(t, ms, n - 1)
    else FaultPages(t, ms, n - 1) + [t[n - 1]]
  }

  // Memory as a function of the faults so far: position j of the queue holds the
  // frame of fault first + j, where first is the oldest fault still resident.
  ghost predicate ClosedForm(k: nat, faulted: seq<int>, m: Memory)
    requires 0 < k
  {
    var size := if |faulted| <= k then |faulted| else k;
    var first := |faulted| - size;
    && |m.queue| == |m.frames| == size
    && forall j :: 0 <= j < size ==>
         && m.queue[j] == Slot(first + j, k)
         && m.queue[j] < size
         && m.frames[m.queue[j]] == faulted[first + j]
  }

  lemma NextFrame(k: nat, faulted: seq<int>, m: Memory)
    requires 0 < k && ClosedForm(k, faulted, m)
    ensures |m.frames| < k ==> |m.frames| == |faulted| % k
    ensures |m.frames| == k ==> m.queue[0] == |faulted| % k
  {
    SlotIsMod(|faulted|, k);
  }

  // x mod k, by repeated subtraction.
  ghost function Slot(x: nat, k: nat): (r: nat)
    requires 0 < k
    ensures r < k
  {
    if x < k then x else Slot(x - k, k)
  }

  lemma {:induction false} SlotsApart(a: nat, b: nat, k: nat)
    requires 0 < k && a < b < a + k
    ensures Slot(a, k) != Slot(b, k)
  {
    if a >= k {
      SlotsApart(a - k, b - k, k);
    }
  }

  lemma {:induction false} SlotIsMod(x: nat, k: nat)
    requires 0 < k
    ensures Slot(x, k) == x % k
  {
    if x >= k {
      SlotIsMod(x - k, k);
      Remainder(x, k, (x - k) / k + 1, (x - k) % k);
    } else {
      Remainder(x, k, 0, x);
    }
  }

  lemma Remainder(x: nat, k: nat, q: nat, r: nat)
    requires 0 < k && x == q * k + r && r < k
    ensures x % k == r
  {
    var d := x / k - q;
    assert x / k * k + x % k == x;
    assert d * k == r - x % k by {
      assert d * k == x / k * k - q * k;
    }
    AtLeast(d, k);
  }

  lemma AtLeast(d: int, k: nat)
    ensures d >= 1 ==> d * k >= k
    ensures d <= -1 ==> d * k + k <= 0
  {
  }

  lemma FillKeepsForm(k: nat, faulted: seq<int>, m: Memory, page: int)
    requires 0 < k && ClosedForm(k, faulted, m) && |m.frames| < k
    ensures ClosedForm(k, faulted + [page], Load(Fifo, m, page))
  {
    assert |faulted| == |m.frames|;
    assert Slot(|faulted|, k) == |faulted|;
  }

  lemma RotateKeepsForm(k: nat, faulted: seq<int>, m: Memory, page: int)
    requires 0 < k && ClosedForm(k, faulted, m) && |m.frames| == k
    ensures ClosedForm(k, faulted + [page], Memory(m.frames[m.queue[0] := page], Rotate(m.queue), m.marked))
  {
    var first := |faulted| - k;
    assert Slot(|faulted|, k) == Slot(first, k);
    forall j | 1 <= j < k ensures m.queue[j] != m.queue[0] {
      SlotsApart(first, first + j, k);
    }
  }

  // The closed form holds after every prefix of every FIFO run.
  lemma {:induction false} FifoClosedForm(t: seq<int>, k: nat, ms: seq<Memory>, n: nat)
    requires 0 < k && Run(Fifo, t, k, ms) && n <= |t|
    ensures ClosedForm(k, FaultPages(t, ms, n), ms[n])
  {
    if n > 0 {
      var i := n - 1;
      FifoClosedForm(t, k, ms, i);
      assert Step(Fifo, t, k, i, ms[i], ms[i + 1]);
      if t[i] !in ms[i].frames {
        if |ms[i].frames| < k {
          FillKeepsForm(k, FaultPages(t, ms, i), ms[i], t[i]);
        } else {
          RotateKeepsForm(k, FaultPages(t, ms, i), ms[i], t[i]);
        }
      }
    }
  }

  lemma {:induction false} FaultPagesCount(t: seq<int>, ms: seq<Memory>, n: nat)
    requires n <= |t| <= |ms|
    ensures |FaultPages(t, ms, n)| == FaultCount(t, ms, n)
  {
    if n > 0 {
      FaultPagesCount(t, ms, n - 1);
      assert t[n - 1] in ms[n - 1].frames <==> t[n - 1] in Resident(ms[n - 1]);
    }
  }

  // A fault that has m faults before it puts its page in frame m mod k.
  lemma FifoFaultLoadsFrame(t: seq<int>, k: nat, ms: seq<Memory>, i: nat)
    requires 0 < k && Run(Fifo, t, k, ms) && i < |t| && t[i] !in ms[i].frames
    ensures FaultCount(t, ms, i) % k < |ms[i + 1].frames|
    ensures ms[i + 1].frames[FaultCount(t, ms, i) % k] == t[i]
  {
    FifoClosedForm(t, k, ms, i);
    FaultPagesCount(t, ms, i);
    NextFrame(k, FaultPages(t, ms, i), ms[i]);
    assert Step(Fifo, t, k, i, ms[i], ms[i + 1]);
  }

  // Memory holds the pages of the last min(k, faults) faults and no others.
  lemma FifoHoldsLastFaults(t: seq<int>, k: nat, ms: seq<Memory>, n: nat)
    requires 0 < k && Run(Fifo, t, k, ms) && n <= |t|
    ensures var f := FaultPages(t, ms, n);
            Resident(ms[n]) == Elements(f[if |f| <= k then 0 else |f| - k..])
  {
    var m, f := ms[n], FaultPages(t, ms, n);
    FifoClosedForm(t, k, ms, n);
    RunStaysWellFormed(Fifo, t, k, ms, n);
    var recent := f[if |f| <= k then 0 else |f| - k..];
    assert forall j :: 0 <= j < |recent| ==> recent[j] == m.frames[m.queue[j]];
    forall x | x in Resident(m) ensures x in recent {
      var h :| 0 <= h < |m.frames| && m.frames[h] == x;
      QueueHolds(m, h);
      var j :| 0 <= j < |m.queue| && m.queue[j] == h;
      assert recent[j] == x;
    }
  }

  // ---- Competitiveness ----

  // The resident pages, most recently loaded first.
  ghost function Newest(m: Memory): (s: seq<int>)
    requires FrameQueue(m)
    ensures |s| == |m.queue|
    ensures forall j :: 0 <= j < |s| ==> s[j] == m.frames[m.queue[|s| - 1 - j]]
  {
    seq(|m.queue|, j requires 0 <= j < |m.queue| => m.frames[m.queue[|m.queue| - 1 - j]])
  }

  lemma NewestHoldsResident(m: Memory)
    requires FrameQueue(m) && Distinct(m.frames)
    ensures Distinct(Newest(m)) && Elements(Newest(m)) == Resident(m)
  {
    var s := Newest(m);
    forall x | x in Resident(m) ensures x in s {
      var h :| 0 <= h < |m.frames| && m.frames[h] == x;
      QueueHolds(m, h);
      var j :| 0 <= j < |m.queue| && m.queue[j] == h;
      assert s[|s| - 1 - j] == x;
    }
  }

  lemma FifoIsListStep(t: seq<int>, k: nat, i: nat, m: Memory, m': Memory)
    requires i < |t| && Step(Fifo, t, k, i, m, m')
    ensures FrameQueue(m') && ListStep(k, t[i], Newest(m), Newest(m'))
  {
    NewestHoldsResident(m);
    StepKeeps(Fifo, t, k, i, m, m');
    assert t[i] in m.frames <==> t[i] in Elements(Newest(m));
    if t[i] !in m.frames {
      if |m.frames| < k {
        NewestAfterLoad(m, m', t[i]);
      } else {
        NewestAfterRotate(m, m', t[i]);
      }
    }
  }

  lemma NewestAfterLoad(m: Memory, m': Memory, page: int)
    requires FrameQueue(m) && FrameQueue(m') && m' == Load(Fifo, m, page)
    ensures Newest(m') == [page] + Newest(m)
  {
  }

  lemma NewestAfterRotate(m: Memory, m': Memory, page: int)
    requires FrameQueue(m) && FrameQueue(m') && m.queue != []
    requires m' == Memory(m.frames[m.queue[0] := page], Rotate(m.queue), m.marked)
    ensures Newest(m') == [page] + Newest(m)[..|m.queue| - 1]
  {
  }

  ghost function FifoLists(ms: seq<Memory>): (lists: seq<seq<int>>)
    requires forall n :: 0 <= n < |ms| ==> FrameQueue(ms[n])
    ensures |lists| == |ms|
    ensures forall n :: 0 <= n < |ms| ==> lists[n] == Newest(ms[n])
  {
    seq(|ms|, n requires 0 <= n < |ms| => Newest(ms[n]))
  }

  lemma FifoListsRun(t: seq<int>, k: nat, ms: seq<Memory>)
    requires Run(Fifo, t, k, ms)
    ensures forall n :: 0 <= n < |ms| ==> FrameQueue(ms[n])
    ensures ListRun(t, k, FifoLists(ms))
  {
    forall n | 0 <= n < |ms| ensures FrameQueue(ms[n]) {
      RunStaysWellFormed(Fifo, t, k, ms, n);
    }
    var lists := FifoLists(ms);
    forall i | 0 <= i < |t|
      ensures Distinct(lists[i]) && |lists[i]| <= k && ListStep(k, t[i], lists[i], lists[i + 1])
    {
      FifoIsListStep(t, k, i, ms[i], ms[i + 1]);
      NewestHoldsResident(ms[i]);
    }
  }

  lemma {:induction false} FifoListFaults(t: seq<int>, k: nat, ms: seq<Memory>, n: nat)
    requires Run(Fifo, t, k, ms) && n <= |t|
    requires forall j :: 0 <= j < |ms| ==> FrameQueue(ms[j])
    ensures ListFaults(t, FifoLists(ms), n) == FaultCount(t, ms, n)
  {
    if n > 0 {
      FifoListFaults(t, k, ms, n - 1);
      RunStaysWellFormed(Fifo, t, k, ms, n - 1);
      NewestHoldsResident(ms[n - 1]);
      assert t[n - 1] in Resident(ms[n - 1]) <==> t[n - 1] in Elements(Newest(ms[n - 1]));
    }
  }

  // FIFO is k-competitive, after every prefix.
  lemma FifoCompetitive(t: seq<int>, k: nat, opt: seq<Memory>, fifo: seq<Memory>, n: nat)
    requires 0 < k && Run(Optimal, t, k, opt) && Run(Fifo, t, k, fifo) && n <= |t|
    ensures FaultCount(t, fifo, n) <= k * FaultCount(t, opt, n)
  {
    FifoListsRun(t, k, fifo);
    PotentialInvariant(t, k, opt, FifoLists(fifo), n);
    FifoListFaults(t, k, fifo, n);
  }
}
