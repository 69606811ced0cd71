// Utilization clamps: per-runqueue buckets that count runnable tasks by their
// clamp, and a cached maximum kept up to date by enqueue, dequeue and re-clamp.
module Uclamp {

  const CAPACITY: int := 1024

  // The bucket of a clamp value.
  function Bucket(v: int, buckets: nat, delta: nat): (b: int)
    requires 0 < buckets && 0 < delta
  {
    if v / delta < buckets - 1 then v / delta else buckets - 1
  }

  // One clamp index of a runqueue, with the clamps its tasks were counted under.
  datatype Clamps = Clamps(value: int, count: seq<nat>, top: seq<int>, active: map<nat, int>)

  ghost function In(active: map<nat, int>, b: int, buckets: nat, delta: nat): set<nat>
    requires 0 < buckets && 0 < delta
  {
    set t | t in active && Bucket(active[t], buckets, delta) == b
  }

  // b is the topmost bucket with tasks in it.
  ghost predicate IsTop(count: seq<nat>, b: int) {
    && 0 <= b < |count| && count[b] > 0
    && forall h :: b < h < |count| ==> count[h] == 0
  }

  ghost predicate Counted(c: Clamps, delta: nat)
    requires 0 < delta
  {
    && 0 < |c.count| == |c.top|
    && (forall b :: 0 <= b < |c.count| ==> c.count[b] == |In(c.active, b, |c.count|, delta)|)
    && (forall t :: t in c.active ==> 0 <= c.active[t] <= CAPACITY)
  }

  // A bucket with tasks remembers a clamp of its own range that none of them
  // exceeds.
  ghost predicate Tracked(c: Clamps, delta: nat)
    requires 0 < delta && 0 < |c.count| == |c.top|
  {
    && (forall t :: t in c.active ==>
          0 <= Bucket(c.active[t], |c.count|, delta)
          && c.active[t] <= c.top[Bucket(c.active[t], |c.count|, delta)])
    && (forall b :: 0 <= b < |c.count| && c.count[b] > 0 ==>
          0 <= c.top[b] <= CAPACITY && Bucket(c.top[b], |c.count|, delta) == b)
  }

  // The cached value is the topmost nonempty bucket's.
  ghost predicate Cached(c: Clamps)
    requires |c.count| == |c.top|
  {
    forall b :: IsTop(c.count, b) ==> c.value == c.top[b]
  }

  ghost predicate Good(c: Clamps, delta: nat)
    requires 0 < delta
  {
    Counted(c, delta) && Tracked(c, delta) && Cached(c)
  }

  // ---- What the invariant means ----

  lemma {:induction false} BucketMonotone(v: int, w: int, buckets: nat, delta: nat)
    requires 0 < buckets && 0 < delta && 0 <= v <= w
    ensures 0 <= Bucket(v, buckets, delta) <= Bucket(w, buckets, delta) < buckets
  {
    Quotient(v, delta);
    Quotient(w, delta);
    if v / delta > w / delta {
      Product(v / delta, w / delta + 1, delta);
    }
  }

  lemma Quotient(v: int, delta: nat)
    requires 0 < delta && 0 <= v
    ensures 0 <= v / delta && v / delta * delta <= v < v / delta * delta + delta
  {
  }

  lemma Product(a: int, b: int, delta: nat)
    requires a >= b
    ensures a * delta >= b * delta
  {
  }

  lemma TaskCounted(c: Clamps, delta: nat, t: nat)
    requires 0 < delta && Counted(c, delta) && t in c.active
    ensures var b := Bucket(c.active[t], |c.count|, delta); 0 <= b < |c.count| && c.count[b] > 0
  {
    var b := Bucket(c.active[t], |c.count|, delta);
    BucketMonotone(c.active[t], c.active[t], |c.count|, delta);
    assert t in In(c.active, b, |c.count|, delta);
  }

  lemma {:induction false} TopExists(count: seq<nat>, b: nat) returns (top: nat)
    requires b < |count| && count[b] > 0
    ensures IsTop(count, top) && b <= top
    decreases |count| - b
  {
    if h :| b < h < |count| && count[h] > 0 {
      top := TopExists(count, h);
    } else {
      top := b;
    }
  }

  // The cached value is at least every active clamp.
  lemma ValueCovers(c: Clamps, delta: nat, t: nat)
    requires 0 < delta && Good(c, delta) && t in c.active
    ensures c.active[t] <= c.value
  {
    TaskCounted(c, delta, t);
    var b := Bucket(c.active[t], |c.count|, delta);
    var top := TopExists(c.count, b);
    if c.top[top] < c.active[t] {
      BucketMonotone(c.top[top], c.active[t], |c.count|, delta);
    }
  }

  // The range of clamp values a bucket covers; the last takes what is left.
  ghost function Width(b: int, buckets: nat, delta: nat): int {
    if b < buckets - 1 then delta else CAPACITY - (buckets - 1) * delta + 1
  }

  // It exceeds the largest active clamp by less than the width of its bucket.
  lemma ValueIsTight(c: Clamps, delta: nat, t: nat)
    requires 0 < delta && Good(c, delta) && t in c.active
    requires forall u :: u in c.active ==> c.active[u] <= c.active[t]
    ensures c.value - c.active[t] < Width(Bucket(c.active[t], |c.count|, delta), |c.count|, delta)
  {
    TaskCounted(c, delta, t);
    var buckets := |c.count|;
    var b := Bucket(c.active[t], buckets, delta);
    var top := TopExists(c.count, b);
    assert In(c.active, top, buckets, delta) != {};
    var u :| u in In(c.active, top, buckets, delta);
    BucketMonotone(c.active[u], c.active[t], buckets, delta);
    assert top == b;
    Quotient(c.active[t], delta);
    Quotient(c.top[b], delta);
    if b == buckets - 1 {
      Product(c.active[t] / delta, buckets - 1, delta);
    }
  }

  // ---- Counting a task in and out ----

  lemma InAfterAdd(active: map<nat, int>, p: nat, v: int, buckets: nat, delta: nat, b: int)
    requires 0 < buckets && 0 < delta && p !in active
    ensures |In(active[p := v], b, buckets, delta)|
            == |In(active, b, buckets, delta)| + if Bucket(v, buckets, delta) == b then 1 else 0
  {
    var was, now := In(active, b, buckets, delta), In(active[p := v], b, buckets, delta);
    assert now == if Bucket(v, buckets, delta) == b then was + {p} else was;
  }

  lemma InAfterRemove(active: map<nat, int>, p: nat, buckets: nat, delta: nat, b: int)
    requires 0 < buckets && 0 < delta && p in active
    ensures |In(active - {p}, b, buckets, delta)|
            == |In(active, b, buckets, delta)| - if Bucket(active[p], buckets, delta) == b then 1 else 0
  {
    var was, now := In(active, b, buckets, delta), In(active - {p}, b, buckets, delta);
    assert was == if Bucket(active[p], buckets, delta) == b then now + {p} else now;
  }

  // The cache before a task is counted in: right, or idle and about to be reset.
  ghost predicate Ready(c: Clamps, delta: nat, reset: bool)
    requires 0 < delta
  {
    Good(c, delta) && (c.active == map[] && !reset ==> c.value == 0)
  }

  // uclamp_rq_inc_id, on values; reset says the idle flag is set.
  ghost function Added(c: Clamps, delta: nat, p: nat, v: int, reset: bool): Clamps
    requires 0 < delta && 0 < |c.count| == |c.top| && 0 <= Bucket(v, |c.count|, delta)
  {
    var b := Bucket(v, |c.count|, delta);
    var count := c.count[b := c.count[b] + 1];
    var top := if count[b] == 1 || v > c.top[b] then c.top[b := v] else c.top;
    var value := if reset then v else c.value;
    Clamps(if v > value then v else value, count, top, c.active[p := v])
  }

  lemma AddedCounted(c: Clamps, delta: nat, p: nat, v: int, reset: bool)
    requires 0 < delta && Counted(c, delta) && p !in c.active && 0 <= v <= CAPACITY
    ensures 0 <= Bucket(v, |c.count|, delta)
    ensures Counted(Added(c, delta, p, v, reset), delta)
  {
    BucketMonotone(v, v, |c.count|, delta);
    var c' := Added(c, delta, p, v, reset);
    forall h | 0 <= h < |c'.count| ensures c'.count[h] == |In(c'.active, h, |c'.count|, delta)| {
      InAfterAdd(c.active, p, v, |c.count|, delta, h);
    }
  }

  lemma AddedTracked(c: Clamps, delta: nat, p: nat, v: int, reset: bool)
    requires 0 < delta && Counted(c, delta) && Tracked(c, delta) && p !in c.active && 0 <= v <= CAPACITY
    ensures 0 <= Bucket(v, |c.count|, delta)
    ensures Tracked(Added(c, delta, p, v, reset), delta)
  {
    BucketMonotone(v, v, |c.count|, delta);
    var c' := Added(c, delta, p, v, reset);
    forall t | t in c'.active
      ensures 0 <= Bucket(c'.active[t], |c'.count|, delta)
              && c'.active[t] <= c'.top[Bucket(c'.active[t], |c'.count|, delta)]
    {
      if t != p { TaskCounted(c, delta, t); }
    }
  }

  lemma EmptyCounts(c: Clamps, delta: nat)
    requires 0 < delta && Counted(c, delta) && c.active == map[]
    ensures forall h :: 0 <= h < |c.count| ==> c.count[h] == 0
  {
    forall h | 0 <= h < |c.count| ensures c.count[h] == 0 {
      assert In(c.active, h, |c.count|, delta) == {};
    }
  }

  // Counting in the first task.
  lemma FirstCached(c: Clamps, delta: nat, p: nat, v: int, reset: bool)
    requires 0 < delta && Ready(c, delta, reset) && c.active == map[] && 0 <= v <= CAPACITY
    ensures 0 <= Bucket(v, |c.count|, delta)
    ensures Cached(Added(c, delta, p, v, reset))
  {
    BucketMonotone(v, v, |c.count|, delta);
    EmptyCounts(c, delta);
    var c' := Added(c, delta, p, v, reset);
    assert forall h :: IsTop(c'.count, h) ==> h == Bucket(v, |c.count|, delta);
  }

  // Counting in one more: the top bucket stays, unless the new one is above it.
  lemma NextCached(c: Clamps, delta: nat, p: nat, v: int, top: nat)
    requires 0 < delta && Good(c, delta) && 0 <= v <= CAPACITY && IsTop(c.count, top)
    ensures 0 <= Bucket(v, |c.count|, delta)
    ensures Cached(Added(c, delta, p, v, false))
  {
    var b := Bucket(v, |c.count|, delta);
    BucketMonotone(if v > c.value then c.value else v, if v > c.value then v else c.value, |c.count|, delta);
    var c' := Added(c, delta, p, v, false);
    assert v > c.value ==> top <= b;
    assert v <= c.value ==> b <= top;
    forall h | IsTop(c'.count, h) ensures h == if b > top then b else top {
      assert c'.count[if b > top then b else top] > 0;
    }
  }

  lemma AddedCached(c: Clamps, delta: nat, p: nat, v: int, reset: bool)
    requires 0 < delta && Ready(c, delta, reset) && (reset ==> c.active == map[])
    requires p !in c.active && 0 <= v <= CAPACITY
    ensures 0 <= Bucket(v, |c.count|, delta)
    ensures Cached(Added(c, delta, p, v, reset))
  {
    if c.active == map[] {
      FirstCached(c, delta, p, v, reset);
    } else {
      var t :| t in c.active;
      TaskCounted(c, delta, t);
      var top := TopExists(c.count, Bucket(c.active[t], |c.count|, delta));
      NextCached(c, delta, p, v, top);
    }
  }

  lemma AddedGood(c: Clamps, delta: nat, p: nat, v: int, reset: bool)
    requires 0 < delta && Ready(c, delta, reset) && (reset ==> c.active == map[])
    requires p !in c.active && 0 <= v <= CAPACITY
    ensures 0 <= Bucket(v, |c.count|, delta) && Good(Added(c, delta, p, v, reset), delta)
  {
    AddedCounted(c, delta, p, v, reset);
    AddedTracked(c, delta, p, v, reset);
    AddedCached(c, delta, p, v, reset);
  }

  // Value of the topmost nonempty of the first n buckets, or the idle value.
  ghost function TopValue(count: seq<nat>, top: seq<int>, n: nat, idle: int): int
    requires n <= |count| == |top|
  {
    if n == 0 then idle else if count[n - 1] != 0 then top[n - 1] else TopValue(count, top, n - 1, idle)
  }

  ghost predicate AllEmpty(count: seq<nat>) {
    forall b :: 0 <= b < |count| ==> count[b] == 0
  }

  lemma {:induction false} TopValueIsTop(count: seq<nat>, top: seq<int>, n: nat, idle: int)
    requires n <= |count| == |top|
    requires forall h :: n <= h < |count| ==> count[h] == 0
    ensures forall b :: IsTop(count, b) ==> TopValue(count, top, n, idle) == top[b]
    ensures AllEmpty(count) ==> TopValue(count, top, n, idle) == idle
  {
    if n > 0 && count[n - 1] == 0 {
      TopValueIsTop(count, top, n - 1, idle);
    }
  }

  // uclamp_rq_dec_id looks for a new top only when this holds.
  ghost predicate Stale(c: Clamps, b: int)
    requires 0 <= b < |c.count| == |c.top|
  {
    c.count[b] == 0 && c.top[b] >= c.value
  }

  // p leaves bucket b; the cache is not refreshed yet.
  ghost function Left(c: Clamps, b: int, p: nat): Clamps
    requires 0 <= b < |c.count| && c.count[b] > 0
  {
    Clamps(c.value, c.count[b := c.count[b] - 1], c.top, c.active - {p})
  }

  // uclamp_rq_dec_id, on values.
  ghost function Removed(c: Clamps, b: int, p: nat, idle: int): Clamps
    requires 0 <= b < |c.count| == |c.top| && c.count[b] > 0
  {
    var l := Left(c, b, p);
    if Stale(l, b) then l.(value := TopValue(l.count, l.top, |l.count|, idle)) else l
  }

  lemma LeftKeeps(c: Clamps, delta: nat, p: nat, b: int)
    requires 0 < delta && Counted(c, delta) && Tracked(c, delta) && p in c.active
    requires b == Bucket(c.active[p], |c.count|, delta) && 0 <= b && c.count[b] > 0
    ensures Counted(Left(c, b, p), delta) && Tracked(Left(c, b, p), delta)
  {
    var c' := Left(c, b, p);
    forall h | 0 <= h < |c'.count| ensures c'.count[h] == |In(c'.active, h, |c'.count|, delta)| {
      InAfterRemove(c.active, p, |c.count|, delta, h);
    }
  }

  // No refresh is needed while the bucket keeps tasks or lies below the cache.
  lemma LeftStillCached(c: Clamps, b: int, p: nat)
    requires 0 <= b < |c.count| == |c.top| && c.count[b] > 0 && Cached(c)
    requires !Stale(Left(c, b, p), b)
    ensures Cached(Left(c, b, p)) && !AllEmpty(Left(c, b, p).count)
  {
    var c' := Left(c, b, p);
    var top := TopExists(c.count, b);
    assert c'.count[top] > 0;
    assert forall h :: IsTop(c'.count, h) ==> h == top;
  }

  lemma EmptyIff(c: Clamps, delta: nat)
    requires 0 < delta && Counted(c, delta)
    ensures AllEmpty(c.count) <==> c.active == map[]
  {
    if c.active == map[] {
      EmptyCounts(c, delta);
    } else {
      var t :| t in c.active;
      TaskCounted(c, delta, t);
    }
  }

  // Counting a task out keeps the invariant; the idle value is taken over
  // exactly when nobody is left.
  lemma RemovedGood(c: Clamps, delta: nat, p: nat, b: int, idle: int)
    requires 0 < delta && Good(c, delta) && p in c.active && b == Bucket(c.active[p], |c.count|, delta)
    ensures 0 <= b < |c.count| && c.count[b] > 0
    ensures Good(Removed(c, b, p, idle), delta)
    ensures c.active - {p} == map[] <==> Stale(Left(c, b, p), b) && AllEmpty(Removed(c, b, p, idle).count)
    ensures c.active - {p} == map[] ==> Removed(c, b, p, idle).value == idle
  {
    TaskCounted(c, delta, p);
    LeftKeeps(c, delta, p, b);
    var l := Left(c, b, p);
    EmptyIff(l, delta);
    if Stale(l, b) {
      TopValueIsTop(l.count, l.top, |l.count|, idle);
    } else {
      LeftStillCached(c, b, p);
    }
  }

  // The smallest clamp of a bucket.
  function Base(b: nat, delta: nat): nat { b * delta }

  // Counting a task out never writes a bucket's value: a bucket that its last task
  // has left holds its base value if and only if it did before, and not when that
  // task's clamp lies above the base.
  lemma EmptiedBucketKeepsValue(c: Clamps, delta: nat, p: nat, b: nat, idle: int)
    requires 0 < delta && Good(c, delta) && p in c.active && b == Bucket(c.active[p], |c.count|, delta)
    ensures b < |c.count| && c.count[b] > 0
    ensures Removed(c, b, p, idle).top == c.top
    ensures c.count[b] == 1 ==>
              && Removed(c, b, p, idle).count[b] == 0
              && (Removed(c, b, p, idle).top[b] == Base(b, delta) <==> c.top[b] == Base(b, delta))
              && (c.active[p] > Base(b, delta) ==> Removed(c, b, p, idle).top[b] != Base(b, delta))
  {
    TaskCounted(c, delta, p);
  }

  // A good index whose emptied bucket is left at 100 although its base is 0.
  lemma ResetDoesNotHappen()
    ensures var c := Clamps(600, [1, 1], [100, 600], map[0 := 100, 1 := 600]);
            && Good(c, 512) && Removed(c, 0, 0, 0).count[0] == 0
            && Removed(c, 0, 0, 0).top[0] == 100 && Base(0, 512) == 0
  {
    var c := Clamps(600, [1, 1], [100, 600], map[0 := 100, 1 := 600]);
    assert Bucket(100, 2, 512) == 0 && Bucket(600, 2, 512) == 1;
    assert In(c.active, 0, 2, 512) == {0} && In(c.active, 1, 2, 512) == {1};
  }

  // The warning of uclamp_rq_dec_id never fires: no bucket's value exceeds the
  // cached one.
  lemma BucketBelowCache(c: Clamps, delta: nat, b: int)
    requires 0 < delta && Good(c, delta) && 0 <= b < |c.count| && c.count[b] > 0
    ensures c.top[b] <= c.value
  {
    var top := TopExists(c.count, b);
    if c.value < c.top[b] {
      BucketMonotone(c.value, c.top[b], |c.count|, delta);
    }
  }

  lemma EmptyGood(c: Clamps, delta: nat)
    requires 0 < delta && 0 < |c.count| == |c.top| && AllEmpty(c.count) && c.active == map[]
    ensures Good(c, delta)
  {
    forall b | 0 <= b < |c.count| ensures |In(c.active, b, |c.count|, delta)| == 0 {
      assert In(c.active, b, |c.count|, delta) == {};
    }
  }

  // ---- Both indexes of a runqueue ----

  ghost predicate Sound(min: Clamps, max: Clamps, idle: bool, delta: nat)
    requires 0 < delta
  {
    && Good(min, delta) && Good(max, delta)
    && min.active.Keys == max.active.Keys
    && (idle <==> max.active == map[])
    && (min.active == map[] ==> min.value == 0)
  }

  lemma EmptyTogether(a: map<nat, int>, b: map<nat, int>)
    requires a.Keys == b.Keys
    ensures a == map[] <==> b == map[]
  {
    assert a == map[] <==> a.Keys == {};
    assert b == map[] <==> b.Keys == {};
  }

  ghost predicate Fits(v: int) { 0 <= v <= CAPACITY }

  lemma AddedKeys(a: map<nat, int>, b: map<nat, int>, p: nat, v: int, w: int)
    requires a.Keys == b.Keys
    ensures a[p := v].Keys == b[p := w].Keys && a[p := v] != map[] && b[p := w] != map[]
  {
    assert p in a[p := v] && p in b[p := w];
  }

  // p is counted in a bucket that can be decremented.
  ghost predicate Leavable(c: Clamps, delta: nat, p: nat) {
    && 0 < delta && 0 < |c.count| == |c.top| && p in c.active
    && var b := Bucket(c.active[p], |c.count|, delta);
    0 <= b && c.count[b] > 0
  }

  // What uclamp_rq_dec_id does: the new index, and whether it set the idle flag.
  ghost predicate Leaves(c: Clamps, c': Clamps, delta: nat, p: nat, isMax: bool, wentIdle: bool) {
    && Leavable(c, delta, p)
    && var b := Bucket(c.active[p], |c.count|, delta);
    && c' == Removed(c, b, p, if isMax then c.active[p] else 0)
    && (wentIdle <==> isMax && Stale(Left(c, b, p), b) && AllEmpty(c'.count))
  }

  // What uclamp_rq_inc_id does.
  ghost predicate Joins(c: Clamps, c': Clamps, delta: nat, p: nat, v: int, reset: bool) {
    && 0 < delta && 0 < |c.count| == |c.top| && 0 <= Bucket(v, |c.count|, delta)
    && c' == Added(c, delta, p, v, reset)
  }

  lemma IncSound(min: Clamps, min': Clamps, max: Clamps, max': Clamps, idle: bool, delta: nat, p: nat,
                 vmin: int, vmax: int)
    requires 0 < delta && Sound(min, max, idle, delta) && p !in min.active && Fits(vmin) && Fits(vmax)
    requires Joins(min, min', delta, p, vmin, idle) && Joins(max, max', delta, p, vmax, idle)
    ensures Sound(min', max', false, delta)
  {
    EmptyTogether(min.active, max.active);
    AddedGood(min, delta, p, vmin, idle);
    AddedGood(max, delta, p, vmax, idle);
    AddedKeys(min.active, max.active, p, vmin, vmax);
  }

  lemma LeavesGood(c: Clamps, c': Clamps, delta: nat, p: nat, isMax: bool, wentIdle: bool)
    requires Leaves(c, c', delta, p, isMax, wentIdle) && Good(c, delta)
    ensures Good(c', delta) && c'.active == c.active - {p}
    ensures c'.active == map[] ==> c'.value == if isMax then c.active[p] else 0
    ensures wentIdle <==> isMax && c'.active == map[]
  {
    RemovedGood(c, delta, p, Bucket(c.active[p], |c.count|, delta), if isMax then c.active[p] else 0);
  }

  lemma DecReady(min: Clamps, max: Clamps, idle: bool, delta: nat, p: nat)
    requires 0 < delta && Sound(min, max, idle, delta) && p in min.active
    ensures Leavable(min, delta, p) && Leavable(max, delta, p) && !idle
  {
    TaskCounted(min, delta, p);
    TaskCounted(max, delta, p);
    EmptyTogether(min.active, max.active);
  }

  lemma DecSound(min: Clamps, min': Clamps, max: Clamps, max': Clamps, idle: bool, minIdle: bool,
                 maxIdle: bool, delta: nat, p: nat)
    requires 0 < delta && Sound(min, max, idle, delta)
    requires Leaves(min, min', delta, p, false, minIdle) && Leaves(max, max', delta, p, true, maxIdle)
    ensures Sound(min', max', maxIdle, delta)
    ensures min'.active == min.active - {p} && max'.active == max.active - {p}
  {
    LeavesGood(min, min', delta, p, false, minIdle);
    LeavesGood(max, max', delta, p, true, maxIdle);
    assert (min.active - {p}).Keys == min.active.Keys - {p} == (max.active - {p}).Keys;
  }

  lemma Untouched(a: map<nat, int>, p: nat)
    requires p !in a
    ensures a - {p} == a
  {
  }

  lemma Replaced(a: map<nat, int>, p: nat, v: int)
    ensures (a - {p})[p := v] == a[p := v]
  {
  }

  lemma ReclampedKeys(a: map<nat, int>, p: nat, v: int)
    requires p in a
    ensures a[p := v].Keys == a.Keys && a[p := v] != map[]
  {
    assert p in a[p := v];
  }

  // uclamp_rq_reinc_id at the minimum: the flag is clear, as p is counted.
  lemma ReclampMinSound(min: Clamps, min': Clamps, min'': Clamps, max: Clamps, delta: nat, p: nat, v: int,
                        minIdle: bool)
    requires 0 < delta && Sound(min, max, false, delta) && Fits(v)
    requires Leaves(min, min', delta, p, false, minIdle) && Joins(min', min'', delta, p, v, false)
    ensures Sound(min'', max, false, delta) && min''.active == min.active[p := v]
  {
    LeavesGood(min, min', delta, p, false, minIdle);
    AddedGood(min', delta, p, v, false);
    Replaced(min.active, p, v);
    ReclampedKeys(min.active, p, v);
  }

  // At the maximum the flag may be set on the way, and is cleared again.
  lemma ReclampMaxSound(min: Clamps, max: Clamps, max': Clamps, max'': Clamps, delta: nat, p: nat, v: int,
                        maxIdle: bool)
    requires 0 < delta && Sound(min, max, false, delta) && Fits(v)
    requires Leaves(max, max', delta, p, true, maxIdle) && Joins(max', max'', delta, p, v, maxIdle)
    ensures Sound(min, max'', false, delta) && max''.active == max.active[p := v]
  {
    LeavesGood(max, max', delta, p, true, maxIdle);
    AddedGood(max', delta, p, v, maxIdle);
    Replaced(max.active, p, v);
    ReclampedKeys(max.active, p, v);
  }

  // ---- When the cache is exact ----

  datatype Op = Count(p: nat, v: int, reset: bool) | Uncount(p: nat, idle: int)

  ghost predicate OpStep(c: Clamps, op: Op, c': Clamps, delta: nat)
    requires 0 < delta
  {
    match op
    case Count(p, v, reset) =>
      && Ready(c, delta, reset) && (reset ==> c.active == map[]) && p !in c.active && Fits(v)
      && Joins(c, c', delta, p, v, reset)
    case Uncount(p, idle) =>
      Leavable(c, delta, p) && c' == Removed(c, Bucket(c.active[p], |c.count|, delta), p, idle)
  }

  ghost predicate IndexRun(cs: seq<Clamps>, ops: seq<Op>, delta: nat)
    requires 0 < delta
  {
    && |cs| == |ops| + 1 && Good(cs[0], delta)
    && forall i :: 0 <= i < |ops| ==> OpStep(cs[i], ops[i], cs[i + 1], delta)
  }

  lemma OpGood(c: Clamps, op: Op, c': Clamps, delta: nat)
    requires 0 < delta && OpStep(c, op, c', delta) && Good(c, delta)
    ensures Good(c', delta) && |c'.count| == |c.count|
  {
    match op
    case Count(p, v, reset) => AddedGood(c, delta, p, v, reset);
    case Uncount(p, idle) => RemovedGood(c, delta, p, Bucket(c.active[p], |c.count|, delta), idle);
  }

  lemma {:induction false} IndexRunGood(cs: seq<Clamps>, ops: seq<Op>, delta: nat, n: nat)
    requires 0 < delta && IndexRun(cs, ops, delta) && n < |cs|
    ensures Good(cs[n], delta) && |cs[n].count| == |cs[0].count|
  {
    if n > 0 {
      IndexRunGood(cs, ops, delta, n - 1);
      assert OpStep(cs[n - 1], ops[n - 1], cs[n - 1 + 1], delta);
      OpGood(cs[n - 1], ops[n - 1], cs[n], delta);
    }
  }

  // Every clamp that the operation counts into bucket b is v.
  ghost predicate CountsOnly(op: Op, b: int, v: int, buckets: nat, delta: nat)
    requires 0 < buckets && 0 < delta
  {
    op.Count? && Bucket(op.v, buckets, delta) == b ==> op.v == v
  }

  lemma ExactStep(c: Clamps, op: Op, c': Clamps, delta: nat, b: int, v: int)
    requires 0 < delta && OpStep(c, op, c', delta) && Good(c, delta) && 0 <= b < |c.count|
    requires CountsOnly(op, b, v, |c.count|, delta) && (c.count[b] == 0 || c.top[b] == v)
    ensures |c'.count| == |c'.top| == |c.count| && (c'.count[b] > 0 ==> c'.top[b] == v)
  {
  }

  // Bucket b has been in use since it was last empty at i.
  ghost predicate InUse(cs: seq<Clamps>, i: nat, n: nat, b: int) {
    && i < n < |cs|
    && (forall j :: i <= j <= n ==> 0 <= b < |cs[j].count|)
    && cs[i].count[b] == 0 && (forall j :: i < j <= n ==> cs[j].count[b] > 0)
  }

  // One step of a bucket that only ever sees clamp v.
  ghost predicate KeepsExact(c: Clamps, c': Clamps, b: int, v: int) {
    && 0 <= b < |c.count| == |c.top| == |c'.count| == |c'.top|
    && (c.count[b] == 0 || c.top[b] == v ==> c'.count[b] > 0 ==>
          c'.top[b] == v && (IsTop(c'.count, b) ==> c'.value == v))
  }

  lemma RunKeepsExact(cs: seq<Clamps>, ops: seq<Op>, delta: nat, k: nat, b: int, v: int)
    requires 0 < delta && IndexRun(cs, ops, delta) && k < |ops| && 0 <= b < |cs[0].count|
    requires CountsOnly(ops[k], b, v, |cs[0].count|, delta)
    ensures KeepsExact(cs[k], cs[k + 1], b, v)
  {
    IndexRunGood(cs, ops, delta, k);
    assert OpStep(cs[k], ops[k], cs[k + 1], delta);
    OpGood(cs[k], ops[k], cs[k + 1], delta);
    if cs[k].count[b] == 0 || cs[k].top[b] == v {
      ExactStep(cs[k], ops[k], cs[k + 1], delta, b, v);
    }
  }

  lemma {:induction false} StaysExact(cs: seq<Clamps>, i: nat, n: nat, b: int, v: int)
    requires InUse(cs, i, n, b) && forall k :: i <= k < n ==> KeepsExact(cs[k], cs[k + 1], b, v)
    ensures |cs[n].top| == |cs[n].count| && cs[n].top[b] == v
    ensures IsTop(cs[n].count, b) ==> cs[n].value == v
  {
    if n - 1 > i {
      StaysExact(cs, i, n - 1, b, v);
    }
    assert KeepsExact(cs[n - 1], cs[n - 1 + 1], b, v);
  }

  // While all tasks counted in a bucket since it was last empty ask for the same
  // clamp, the bucket remembers exactly that clamp, and so does the cache if the
  // bucket is the topmost in use.
  lemma UniformBucketIsExact(cs: seq<Clamps>, ops: seq<Op>, delta: nat, i: nat, n: nat, b: int, v: int)
    requires 0 < delta && IndexRun(cs, ops, delta) && InUse(cs, i, n, b) && 0 <= b < |cs[0].count|
    requires forall j :: i <= j < n ==> CountsOnly(ops[j], b, v, |cs[0].count|, delta)
    ensures |cs[n].top| == |cs[n].count| && cs[n].top[b] == v
    ensures IsTop(cs[n].count, b) ==> cs[n].value == v
  {
    forall k | i <= k < n ensures KeepsExact(cs[k], cs[k + 1], b, v) {
      RunKeepsExact(cs, ops, delta, k, b, v);
    }
    StaysExact(cs, i, n, b, v);
  }

  // ---- The operations in place ----

  class ClampIndex {
    const isMax: bool
    const delta: nat
    const count: array<nat>
    const top: array<int>
    var value: int
    var active: map<nat, int>

    constructor (max: bool, buckets: nat, width: nat)
      requires 0 < buckets && 0 < width
      ensures isMax == max && delta == width && count.Length == buckets && top.Length == buckets
      ensures View() == Clamps(if max then CAPACITY else 0, seq(buckets, _ => 0), seq(buckets, _ => 0), map[])
      ensures fresh(count) && fresh(top)
    {
      isMax, delta := max, width;
      count := new nat[buckets](_ => 0);
      top := new int[buckets](_ => 0);
      value := if max then CAPACITY else 0;
      active := map[];
    }

    ghost function View(): Clamps
      reads this, count, top
    {
      Clamps(value, count[..], top[..], active)
    }

    ghost predicate Shape() {
      0 < delta && 0 < count.Length == top.Length
    }

    // Value of the topmost bucket with tasks, or the idle value.
    method MaxValue(clampValue: int) returns (v: int, wentIdle: bool)
      requires Shape()
      ensures v == TopValue(count[..], top[..], count.Length, if isMax then clampValue else 0)
      ensures wentIdle <==> isMax && AllEmpty(count[..])
    {
      ghost var idle := if isMax then clampValue else 0;
      var b := count.Length - 1;
      while b >= 0
        invariant -1 <= b < count.Length
        invariant forall h :: b < h < count.Length ==> count[h] == 0
        invariant TopValue(count[..], top[..], b + 1, idle) == TopValue(count[..], top[..], count.Length, idle)
      {
        if count[b] != 0 {
          assert count[..][b] != 0;
          return top[b], false;
        }
        b := b - 1;
      }
      if isMax {
        return clampValue, true;
      }
      return 0, false;
    }

    method IncId(p: nat, v: int, idle: bool)
      requires Shape() && Fits(v)
      modifies this, count, top
      ensures Joins(old(View()), View(), delta, p, v, idle)
    {
      BucketMonotone(v, v, count.Length, delta);
      var b := Bucket(v, count.Length, delta);
      count[b] := count[b] + 1;
      active := active[p := v];
      if idle {
        value := v;
      }
      if count[b] == 1 || v > top[b] {
        top[b] := v;
      }
      if v > value {
        value := v;
      }
    }

    method DecId(p: nat) returns (wentIdle: bool)
      requires Leavable(View(), delta, p)
      modifies this, count
      ensures Leaves(old(View()), View(), delta, p, isMax, wentIdle)
    {
      var clampValue := active[p];
      var b := Bucket(clampValue, count.Length, delta);
      count[b] := count[b] - 1;
      active := active - {p};
      assert View() == Left(old(View()), b, p);
      if count[b] != 0 || top[b] < value {
        return false;
      }
      value, wentIdle := MaxValue(clampValue);
    }
  }

  class RunQueue {
    const min: ClampIndex
    const max: ClampIndex
    var idle: bool

    constructor (buckets: nat, width: nat)
      requires 0 < buckets && 0 < width
      ensures Valid() && min.active == map[] && max.active == map[]
    {
      min := new ClampIndex(false, buckets, width);
      max := new ClampIndex(true, buckets, width);
      idle := true;
      new;
      EmptyGood(min.View(), min.delta);
      EmptyGood(max.View(), max.delta);
    }

    ghost predicate Valid()
      reads this, min, min.count, min.top, max, max.count, max.top
    {
      && min != max && min.count != max.count && min.top != max.top
      && !min.isMax && max.isMax && min.Shape() && max.Shape() && min.delta == max.delta
      && Sound(min.View(), max.View(), idle, min.delta)
    }

    // uclamp_rq_inc.
    method Inc(p: nat, vmin: int, vmax: int)
      requires Valid() && p !in min.active && Fits(vmin) && Fits(vmax)
      modifies this, min, min.count, min.top, max, max.count, max.top
      ensures Valid() && min.active == old(min.active)[p := vmin] && max.active == old(max.active)[p := vmax]
    {
      ghost var wasMin, wasMax := min.View(), max.View();
      min.IncId(p, vmin, idle);
      max.IncId(p, vmax, idle);
      idle := false;
      IncSound(wasMin, min.View(), wasMax, max.View(), old(idle), min.delta, p, vmin, vmax);
    }

    // uclamp_rq_dec: nothing happens unless p is counted.
    method Dec(p: nat)
      requires Valid()
      modifies this, min, min.count, max, max.count
      ensures Valid() && min.active == old(min.active) - {p} && max.active == old(max.active) - {p}
    {
      if p !in min.active {
        Untouched(min.active, p);
        Untouched(max.active, p);
      } else {
        ghost var wasMin, wasMax := min.View(), max.View();
        DecReady(wasMin, wasMax, idle, min.delta, p);
        var minIdle := min.DecId(p);
        var maxIdle := max.DecId(p);
        idle := maxIdle;
        DecSound(wasMin, min.View(), wasMax, max.View(), old(idle), minIdle, maxIdle, min.delta, p);
      }
    }

    // uclamp_rq_reinc_id for the minimum, if p is counted.
    method ReclampMin(p: nat, v: int)
      requires Valid() && Fits(v)
      modifies min, min.count, min.top
      ensures Valid()
      ensures min.active == if p in old(min.active) then old(min.active)[p := v] else old(min.active)
    {
      if p in min.active {
        ghost var was := min.View();
        DecReady(was, max.View(), idle, min.delta, p);
        var wentIdle := min.DecId(p);
        ghost var left := min.View();
        min.IncId(p, v, idle);
        ReclampMinSound(was, left, min.View(), max.View(), min.delta, p, v, wentIdle);
      }
    }

    method ReclampMax(p: nat, v: int)
      requires Valid() && Fits(v)
      modifies this, max, max.count, max.top
      ensures Valid()
      ensures max.active == if p in old(max.active) then old(max.active)[p := v] else old(max.active)
    {
      if p in max.active {
        ghost var was := max.View();
        DecReady(min.View(), was, idle, max.delta, p);
        var wentIdle := max.DecId(p);
        ghost var left := max.View();
        max.IncId(p, v, wentIdle);
        idle := false;
        ReclampMaxSound(min.View(), was, left, max.View(), max.delta, p, v, wentIdle);
      }
    }

    // uclamp_update_active: re-clamp a task, if it is counted.
    method Reclamp(p: nat, vmin: int, vmax: int)
      requires Valid() && Fits(vmin) && Fits(vmax)
      modifies this, min, min.count, min.top, max, max.count, max.top
      ensures Valid()
      ensures min.active == if p in old(min.active) then old(min.active)[p := vmin] else old(min.active)
      ensures max.active == if p in old(max.active) then old(max.active)[p := vmax] else old(max.active)
    {
      ReclampMin(p, vmin);
      ReclampMax(p, vmax);
    }
  }
}
