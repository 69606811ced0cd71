// Second-Chance as the simulator runs it, on a queue of frame numbers, is the
// one-handed clock: a hand sweeping a ring of frames that each carry one bit.
module Clock {
  import opened Collections
  import opened Replacement

  datatype Ring = Ring(frames: seq<int>, bits: seq<bool>, hand: nat)

  ghost predicate ValidRing(k: nat, c: Ring) {
    && |c.bits| == |c.frames| <= k
    && (if |c.frames| < k then c.hand == 0 else c.hand < k)
  }

  ghost function Advance(c: Ring): nat
    requires c.frames != []
  {
    if c.hand + 1 == |c.frames| then 0 else c.hand + 1
  }

  ghost function SetBits(bits: seq<bool>): nat {
    if bits == [] then 0 else (if bits[0] then 1 else 0) + SetBits(bits[1..])
  }

  lemma {:induction false} ClearingCounts(bits: seq<bool>, f: nat)
    requires f < |bits| && bits[f]
    ensures SetBits(bits[f := false]) == SetBits(bits) - 1
  {
    if f > 0 {
      ClearingCounts(bits[1..], f - 1);
      assert bits[f := false][1..] == bits[1..][f - 1 := false];
    } else {
      assert bits[f := false][1..] == bits[1..];
    }
  }

  // The hand clears set bits until it points at a frame whose bit is clear.
  ghost function Sweep(k: nat, c: Ring): (c': Ring)
    requires ValidRing(k, c) && 0 < k == |c.frames|
    ensures ValidRing(k, c') && c'.frames == c.frames
    decreases SetBits(c.bits)
  {
    if c.bits[c.hand] then
      ClearingCounts(c.bits, c.hand);
      Sweep(k, Ring(c.frames, c.bits[c.hand := false], Advance(c)))
    else c
  }

  ghost function IndexOf(s: seq<int>, x: int): (i: nat)
    requires x in s
    ensures i < |s| && s[i] == x
  {
    if s[0] == x then 0 else 1 + IndexOf(s[1..], x)
  }

  ghost function Tick(k: nat, c: Ring, page: int): (c': Ring)
    requires 0 < k && ValidRing(k, c)
    ensures ValidRing(k, c')
  {
    if page in c.frames then
      c.(bits := c.bits[IndexOf(c.frames, page) := true])
    else if |c.frames| < k then
      Ring(c.frames + [page], c.bits + [false], 0)
    else
      var s := Sweep(k, c);
      Ring(s.frames[s.hand := page], s.bits[s.hand := false], Advance(s))
  }

  ghost function ClockRun(t: seq<int>, k: nat, n: nat): (c: Ring)
    requires 0 < k && n <= |t|
    ensures ValidRing(k, c)
  {
    if n == 0 then Ring([], [], 0) else Tick(k, ClockRun(t, k, n - 1), t[n - 1])
  }

  // The queue read from its front is the ring read from the hand.
  ghost predicate Refines(k: nat, m: Memory, c: Ring) {
    && ValidRing(k, c)
    && m.frames == c.frames
    && |m.queue| == |c.frames|
    && (forall f :: 0 <= f < |c.frames| ==> (c.bits[f] <==> m.frames[f] in m.marked))
    && (forall j :: 0 <= j < |m.queue| ==> m.queue[j] == Around(c.hand, j, |c.frames|))
  }

  ghost function Around(hand: nat, j: nat, n: nat): int {
    if hand + j < n then hand + j else hand + j - n
  }

  lemma {:induction false} SweepFollowsScan(k: nat, m: Memory, c: Ring)
    requires 0 < k == |c.frames| && Refines(k, m, c) && FrameQueue(m) && Distinct(m.frames)
    ensures FrameQueue(Scan(m)) && Refines(k, Scan(m), Sweep(k, c))
    decreases SetBits(c.bits)
  {
    if c.bits[c.hand] {
      var page := m.frames[m.queue[0]];
      var m' := Memory(m.frames, Rotate(m.queue), m.marked - {page});
      var c' := Ring(c.frames, c.bits[c.hand := false], Advance(c));
      ClearingCounts(c.bits, c.hand);
      RotateKeepsQueue(m, m');
      assert Refines(k, m', c');
      SweepFollowsScan(k, m', c');
    }
  }

  lemma TickFollowsStep(t: seq<int>, k: nat, i: nat, m: Memory, m': Memory, c: Ring)
    requires i < |t| && Step(SecondChance, t, k, i, m, m') && Refines(k, m, c)
    ensures Refines(k, m', Tick(k, c, t[i]))
  {
    if t[i] !in m.frames && |m.frames| == k {
      SweepFollowsScan(k, m, c);
    }
  }

  // After every prefix, queue-based Second-Chance and the clock hold the same
  // pages in the same frames with the same bits, and the queue's front is the hand.
  lemma {:induction false} SecondChanceIsClock(t: seq<int>, k: nat, ms: seq<Memory>, n: nat)
    requires 0 < k && Run(SecondChance, t, k, ms) && n <= |t|
    ensures Refines(k, ms[n], ClockRun(t, k, n))
  {
    if n > 0 {
      var i := n - 1;
      SecondChanceIsClock(t, k, ms, i);
      TickFollowsStep(t, k, i, ms[i], ms[i + 1], ClockRun(t, k, i));
    }
  }

  // ---- Which frame the scan picks ----

  // Number of marked pages in front of the first unmarked one, in queue order.
  ghost function MarkedAhead(m: Memory): (j: nat)
    requires FrameQueue(m)
    ensures j <= |m.queue|
    ensures forall h :: 0 <= h < j ==> m.frames[m.queue[h]] in m.marked
    ensures j < |m.queue| ==> m.frames[m.queue[j]] !in m.marked
  {
    MarkedFrom(m, 0)
  }

  ghost function MarkedFrom(m: Memory, from: nat): (j: nat)
    requires FrameQueue(m) && from <= |m.queue|
    ensures from <= j <= |m.queue|
    ensures forall h :: from <= h < j ==> m.frames[m.queue[h]] in m.marked
    ensures j < |m.queue| ==> m.frames[m.queue[j]] !in m.marked
    decreases |m.queue| - from
  {
    if from == |m.queue| || m.frames[m.queue[from]] !in m.marked then from else MarkedFrom(m, from + 1)
  }

  ghost function PagesOf(frames: seq<int>, q: seq<int>): set<int>
    requires forall j :: 0 <= j < |q| ==> 0 <= q[j] < |frames|
  {
    set j | 0 <= j < |q| :: frames[q[j]]
  }

  // Memory after the first j queue entries have been given their second chance.
  ghost function Turned(m: Memory, j: nat): Memory
    requires FrameQueue(m) && j <= |m.queue|
  {
    Memory(m.frames, m.queue[j..] + m.queue[..j], m.marked - PagesOf(m.frames, m.queue[..j]))
  }

  lemma TurnedOnce(m: Memory, j: nat)
    requires FrameQueue(m) && Distinct(m.frames) && j < |m.queue|
    requires m.frames[m.queue[j]] in m.marked
    ensures FrameQueue(Turned(m, j)) && FrameQueue(Turned(m, j + 1))
    ensures Scan(Turned(m, j)) == Scan(Turned(m, j + 1))
  {
    var u, q := Turned(m, j), m.queue;
    var page := m.frames[q[j]];
    assert u.queue[0] == q[j];
    assert page !in PagesOf(m.frames, q[..j]);
    assert Rotate(u.queue) == q[j + 1..] + q[..j + 1];
    assert PagesOf(m.frames, q[..j + 1]) == PagesOf(m.frames, q[..j]) + {page} by {
      assert q[..j + 1] == q[..j] + [q[j]];
    }
    assert u.marked - {page} == Turned(m, j + 1).marked;
  }

  lemma {:induction false} TurnPast(m: Memory, j: nat)
    requires FrameQueue(m) && Distinct(m.frames) && m.queue != [] && j <= |m.queue|
    requires forall h :: 0 <= h < j ==> m.frames[m.queue[h]] in m.marked
    ensures FrameQueue(Turned(m, j)) && Scan(m) == Scan(Turned(m, j))
  {
    if j == 0 {
      assert Turned(m, 0) == m;
    } else {
      TurnPast(m, j - 1);
      TurnedOnce(m, j - 1);
    }
  }

  // The scan turns the queue exactly past the marked pages at its front, clearing
  // their bits; when every page is marked it comes back to where it started.
  lemma ScanPicksFirstUnmarked(m: Memory)
    requires FrameQueue(m) && Distinct(m.frames) && m.queue != []
    ensures Scan(m) == Turned(m, MarkedAhead(m))
    ensures MarkedAhead(m) < |m.queue| ==> Scan(m).queue[0] == m.queue[MarkedAhead(m)]
    ensures MarkedAhead(m) == |m.queue| ==> Scan(m).queue == m.queue
  {
    var j := MarkedAhead(m);
    TurnPast(m, j);
    var u := Turned(m, j);
    if j < |m.queue| {
      assert u.queue[0] == m.queue[j];
    } else {
      assert u.queue == m.queue && m.queue[..j] == m.queue;
      assert m.frames[m.queue[0]] in PagesOf(m.frames, m.queue);
    }
  }

  // ---- When Second-Chance does what FIFO does ----

  ghost predicate Agree(m: Memory, f: Memory) {
    m.frames == f.frames && m.queue == f.queue
  }

  // The scan settles on the front of the queue: its page is unmarked, or all are
  // marked and the scan comes round.
  ghost predicate PicksFront(m: Memory)
    requires FrameQueue(m) && m.queue != []
  {
    m.frames[m.queue[0]] !in m.marked || forall h :: 0 <= h < |m.queue| ==> m.frames[m.queue[h]] in m.marked
  }

  // The reference does not make the scan pass the front for another frame.
  ghost predicate KeepsOrder(k: nat, m: Memory, page: int) {
    WellFormed(SecondChance, k, m) && page !in m.frames && |m.frames| == k && m.queue != [] ==> PicksFront(m)
  }

  lemma ScanFront(m: Memory)
    requires FrameQueue(m) && Distinct(m.frames) && m.queue != []
    ensures FrameQueue(Scan(m)) && Scan(m).queue != [] && Scan(m).frames == m.frames
    ensures PicksFront(m) ==> Scan(m).queue == m.queue
    ensures !PicksFront(m) ==> Scan(m).queue[0] != m.queue[0]
  {
    ScanKeeps(m);
    ScanPicksFirstUnmarked(m);
  }

  lemma StepAgrees(t: seq<int>, k: nat, i: nat, m: Memory, m': Memory, f: Memory, f': Memory)
    requires i < |t| && Step(SecondChance, t, k, i, m, m') && Step(Fifo, t, k, i, f, f') && Agree(m, f)
    ensures Agree(m', f') <==> KeepsOrder(k, m, t[i])
  {
    if t[i] !in m.frames && |m.frames| == k {
      ScanFront(m);
      var v, w := Scan(m).queue[0], m.queue[0];
      assert m'.frames == m.frames[v := t[i]] && f'.frames == m.frames[w := t[i]];
      if v != w {
        assert m'.frames[w] != f'.frames[w];
      }
    }
  }

  // Second-Chance and FIFO hold the same pages in the same frames and queue order
  // throughout a prefix if and only if no scan in it passes the front of the queue
  // for another frame; hits in between, and the bits they set, do not matter.
  lemma {:induction false} FifoIff(t: seq<int>, k: nat, sc: seq<Memory>, fifo: seq<Memory>, n: nat)
    requires Run(SecondChance, t, k, sc) && Run(Fifo, t, k, fifo) && n <= |t|
    ensures (forall i :: 0 <= i <= n ==> Agree(sc[i], fifo[i])) <==> (forall i :: 0 <= i < n ==> KeepsOrder(k, sc[i], t[i]))
  {
    if n > 0 {
      var i := n - 1;
      FifoIff(t, k, sc, fifo, i);
      assert Step(SecondChance, t, k, i, sc[i], sc[i + 1]) && Step(Fifo, t, k, i, fifo[i], fifo[i + 1]);
      if Agree(sc[i], fifo[i]) {
        StepAgrees(t, k, i, sc[i], sc[i + 1], fifo[i], fifo[i + 1]);
      }
    }
  }
}
