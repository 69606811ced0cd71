// The task-group tree, its iterative walk, and the hierarchical quota check
// that runs on top of it.
module GroupTree {

  import opened Options

  // Groups are numbered. A group knows its children in list order, its parent,
  // its place in the parent's list, and its distance from the root.
  datatype Tree = Tree(kids: seq<seq<nat>>, up: seq<Option<nat>>, slot: seq<nat>, depth: seq<nat>)

  ghost predicate KidsLinked(t: Tree, n: nat)
    requires |t.kids| == |t.up| == |t.slot| == |t.depth| && n < |t.kids|
  {
    && t.depth[n] < |t.kids|
    && forall i :: 0 <= i < |t.kids[n]| ==>
         var c := t.kids[n][i];
         c < |t.kids| && t.up[c] == Some(n) && t.slot[c] == i && t.depth[c] == t.depth[n] + 1
  }

  ghost predicate ParentLinked(t: Tree, n: nat)
    requires |t.kids| == |t.up| == |t.slot| == |t.depth| && n < |t.kids|
  {
    t.up[n].Some? ==>
      var p := t.up[n].value;
      p < |t.kids| && t.slot[n] < |t.kids[p]| && t.kids[p][t.slot[n]] == n && t.depth[n] == t.depth[p] + 1
  }

  // Child lists and parent links are inverse to each other, without cycles.
  ghost predicate WellFormed(t: Tree) {
    && |t.kids| == |t.up| == |t.slot| == |t.depth|
    && (forall n :: 0 <= n < |t.kids| ==> KidsLinked(t, n))
    && (forall n :: 0 <= n < |t.kids| ==> ParentLinked(t, n))
  }

  // m is n or lies below it.
  ghost predicate Under(t: Tree, n: nat, m: nat)
    requires WellFormed(t) && n < |t.kids| && m < |t.kids|
    decreases t.depth[m]
  {
    m == n || (assert ParentLinked(t, m); t.up[m].Some? && Under(t, n, t.up[m].value))
  }

  // ---- The reference: a recursive traversal that stops at the first error ----

  datatype Outcome<S> = Outcome(state: S, ret: int)

  // A visitor updates the state it is handed and returns zero to go on.
  type Visitor<!S> = (nat, S) -> Outcome<S>

  ghost function Visit<S>(t: Tree, n: nat, down: Visitor<S>, up: Visitor<S>, s: S): Outcome<S>
    requires WellFormed(t) && n < |t.kids|
    decreases |t.kids| - t.depth[n], 1, 0
  {
    var o := down(n, s);
    if o.ret != 0 then o else Leave(t, n, 0, down, up, o.state)
  }

  // Traverse the children of n from the i-th on.
  ghost function VisitKids<S>(t: Tree, n: nat, i: nat, down: Visitor<S>, up: Visitor<S>, s: S): Outcome<S>
    requires WellFormed(t) && n < |t.kids| && i <= |t.kids[n]|
    decreases |t.kids| - t.depth[n], 0, |t.kids[n]| - i
  {
    if i == |t.kids[n]| then Outcome(s, 0) else
      assert KidsLinked(t, n) && KidsLinked(t, t.kids[n][i]);
      var o := Visit(t, t.kids[n][i], down, up, s);
      if o.ret != 0 then o else VisitKids(t, n, i + 1, down, up, o.state)
  }

  // Traverse the children of n from the i-th on, then n itself for the last time.
  ghost function Leave<S>(t: Tree, n: nat, i: nat, down: Visitor<S>, up: Visitor<S>, s: S): Outcome<S>
    requires WellFormed(t) && n < |t.kids| && i <= |t.kids[n]|
    decreases |t.kids| - t.depth[n], 0, |t.kids[n]| - i + 1
  {
    var o := VisitKids(t, n, i, down, up, s);
    if o.ret != 0 then o else up(n, o.state)
  }

  // ---- The walk ----

  // What is left to do once the subtree of n has ended with o.
  ghost function Resume<S>(t: Tree, from: nat, n: nat, down: Visitor<S>, up: Visitor<S>, o: Outcome<S>): Outcome<S>
    requires WellFormed(t) && from < |t.kids| && n < |t.kids| && Under(t, from, n)
    decreases t.depth[n]
  {
    if o.ret != 0 || n == from then o else
      assert ParentLinked(t, n);
      var p := t.up[n].value;
      Resume(t, from, p, down, up, Leave(t, p, t.slot[n] + 1, down, up, o.state))
  }

  // The steps of a subtree, and of what follows it.
  ghost function Work(t: Tree, n: nat): nat
    requires WellFormed(t) && n < |t.kids|
    decreases |t.kids| - t.depth[n], 1, 0
  {
    1 + WorkKids(t, n, 0)
  }

  ghost function WorkKids(t: Tree, n: nat, i: nat): nat
    requires WellFormed(t) && n < |t.kids| && i <= |t.kids[n]|
    decreases |t.kids| - t.depth[n], 0, |t.kids[n]| - i
  {
    if i == |t.kids[n]| then 1 else
      assert KidsLinked(t, n) && KidsLinked(t, t.kids[n][i]);
      1 + Work(t, t.kids[n][i]) + WorkKids(t, n, i + 1)
  }

  ghost function WorkAfter(t: Tree, from: nat, n: nat): nat
    requires WellFormed(t) && from < |t.kids| && n < |t.kids| && Under(t, from, n)
    decreases t.depth[n]
  {
    if n == from then 0 else
      assert ParentLinked(t, n);
      WorkKids(t, t.up[n].value, t.slot[n] + 1) + WorkAfter(t, from, t.up[n].value)
  }

  lemma {:induction false} UnderIsDeeper(t: Tree, n: nat, m: nat)
    requires WellFormed(t) && n < |t.kids| && m < |t.kids| && Under(t, n, m)
    ensures t.depth[n] <= t.depth[m]
    decreases t.depth[m]
  {
    if m != n {
      assert ParentLinked(t, m);
      UnderIsDeeper(t, n, t.up[m].value);
    }
  }

  // Going down to a child: the walk still has the rest of n's list to come back to.
  lemma StepDown<S>(t: Tree, from: nat, n: nat, i: nat, down: Visitor<S>, up: Visitor<S>, s: S)
    requires WellFormed(t) && from < |t.kids| && n < |t.kids| && Under(t, from, n) && i < |t.kids[n]|
    ensures var c := t.kids[n][i];
            && c < |t.kids| && Under(t, from, c)
            && Resume(t, from, c, down, up, Visit(t, c, down, up, s))
               == Resume(t, from, n, down, up, Leave(t, n, i, down, up, s))
            && Work(t, c) + WorkAfter(t, from, c) < WorkKids(t, n, i) + WorkAfter(t, from, n)
  {
    assert KidsLinked(t, n);
    UnderIsDeeper(t, from, n);
  }

  // walk_tg_tree_from computes what the recursive traversal computes, whatever
  // the visitors do and keep: the same calls, in the same order, up to the
  // first error.
  method WalkFrom<S>(t: Tree, from: nat, down: Visitor<S>, up: Visitor<S>, start: S) returns (s: S, ret: int)
    requires WellFormed(t) && from < |t.kids|
    ensures Outcome(s, ret) == Visit(t, from, down, up, start)
  {
    s := start;
    var parent: nat, i: nat, entering := from, 0, true;
    while true
      invariant parent < |t.kids| && Under(t, from, parent) && i <= |t.kids[parent]|
      invariant Visit(t, from, down, up, start)
                == Resume(t, from, parent, down, up, if entering then Visit(t, parent, down, up, s)
                                                     else Leave(t, parent, i, down, up, s))
      decreases (if entering then Work(t, parent) else WorkKids(t, parent, i)) + WorkAfter(t, from, parent)
    {
      if entering {
        var o := down(parent, s);
        s, ret := o.state, o.ret;
        if ret != 0 {
          return;
        }
        i, entering := 0, false;
      } else if i < |t.kids[parent]| {
        StepDown(t, from, parent, i, down, up, s);
        parent, i, entering := t.kids[parent][i], 0, true;
      } else {
        var o := up(parent, s);
        s, ret := o.state, o.ret;
        if ret != 0 || parent == from {
          return;
        }
        assert ParentLinked(t, parent);
        parent, i := t.up[parent].value, t.slot[parent] + 1;
      }
    }
  }

  // ---- Hierarchical quotas ----

  datatype Quota = Finite(amount: nat) | Unlimited

  // Period and quota of a group, in nanoseconds.
  datatype Bandwidth = Bandwidth(period: nat, quota: Quota)

  const NSEC_PER_USEC: nat := 1000
  const BW_UNIT: nat := 0x10_0000
  const EINVAL: int := 22

  // Quota over period, in units of 1 / BW_UNIT.
  function Ratio(b: Bandwidth): (q: Quota) {
    if b.quota.Unlimited? then Unlimited
    else if b.period / NSEC_PER_USEC == 0 then Finite(0)
    else Finite(b.quota.amount / NSEC_PER_USEC * BW_UNIT / (b.period / NSEC_PER_USEC))
  }

  // The bandwidths the check looks at: those in force, with tg's replaced.
  datatype Request = Request(groups: seq<Bandwidth>, tg: nat, proposed: Bandwidth)

  function Own(r: Request, n: nat): (q: Quota)
    requires n < |r.groups|
  {
    Ratio(if n == r.tg then r.proposed else r.groups[n])
  }

  predicate AtMost(a: Quota, b: Quota) {
    b.Unlimited? || (a.Finite? && a.amount <= b.amount)
  }

  // The group and its parent have an entry in every table; so has every group
  // that the walk visits.
  predicate InRange(t: Tree, r: Request, s: seq<Quota>, n: nat) {
    n < |t.up| == |r.groups| == |s| && (t.up[n].Some? ==> t.up[n].value < |s|)
  }

  // tg_cfs_schedulable_down, legacy hierarchy.
  function SchedulableDown(t: Tree, r: Request, n: nat, s: seq<Quota>): (o: Outcome<seq<Quota>>) {
    if !InRange(t, r, s, n) then Outcome(s, 0)
    else if t.up[n].None? then Outcome(s[n := Unlimited], 0)
    else
      var quota, parentQuota := Own(r, n), s[t.up[n].value];
      if quota == Unlimited then Outcome(s[n := parentQuota], 0)
      else if parentQuota != Unlimited && quota.amount > parentQuota.amount then Outcome(s, -EINVAL)
      else Outcome(s[n := quota], 0)
  }

  // The quota a group is held to: its own, or the nearest one above it.
  ghost function Effective(t: Tree, r: Request, n: nat): Quota
    requires WellFormed(t) && n < |t.kids| == |r.groups|
    decreases t.depth[n]
  {
    if t.up[n].None? then Unlimited
    else if Own(r, n).Finite? then Own(r, n)
    else assert ParentLinked(t, n); Effective(t, r, t.up[n].value)
  }

  // A group's own quota stays within what its parent is held to.
  ghost predicate Fits(t: Tree, r: Request, n: nat)
    requires WellFormed(t) && n < |t.kids| == |r.groups|
  {
    t.up[n].Some? && Own(r, n).Finite? ==>
      (assert ParentLinked(t, n); AtMost(Own(r, n), Effective(t, r, t.up[n].value)))
  }

  // The parent of n has been dealt with.
  ghost predicate ParentSet(t: Tree, r: Request, n: nat, s: seq<Quota>)
    requires WellFormed(t) && n < |t.kids| == |r.groups| == |s|
  {
    t.up[n].Some? ==> (assert ParentLinked(t, n); s[t.up[n].value] == Effective(t, r, t.up[n].value))
  }

  // m is under one of n's children from the i-th on.
  ghost predicate UnderKids(t: Tree, n: nat, i: nat, m: nat)
    requires WellFormed(t) && n < |t.kids| && m < |t.kids|
  {
    exists j :: i <= j < |t.kids[n]| && (assert KidsLinked(t, n); Under(t, t.kids[n][j], m))
  }

  lemma {:induction false} UnderSplits(t: Tree, n: nat, m: nat)
    requires WellFormed(t) && n < |t.kids| && m < |t.kids|
    ensures Under(t, n, m) <==> m == n || UnderKids(t, n, 0, m)
    decreases t.depth[m]
  {
    assert ParentLinked(t, m) && KidsLinked(t, n);
    if m != n && t.up[m].Some? {
      var p := t.up[m].value;
      UnderSplits(t, n, p);
      if p == n {
        assert Under(t, t.kids[n][t.slot[m]], m);
      } else if UnderKids(t, n, 0, p) {
        var j :| 0 <= j < |t.kids[n]| && Under(t, t.kids[n][j], p);
        assert Under(t, t.kids[n][j], m);
      }
      if UnderKids(t, n, 0, m) {
        var j :| 0 <= j < |t.kids[n]| && Under(t, t.kids[n][j], m);
        if t.kids[n][j] != m {
          assert Under(t, t.kids[n][j], p);
        }
      }
    }
  }

  ghost function Subtree(t: Tree, n: nat): set<nat>
    requires WellFormed(t) && n < |t.kids|
  {
    set m: nat | m < |t.kids| && Under(t, n, m)
  }

  ghost function KidTrees(t: Tree, n: nat, i: nat): set<nat>
    requires WellFormed(t) && n < |t.kids|
  {
    set m: nat | m < |t.kids| && UnderKids(t, n, i, m)
  }

  lemma KidTreesUnfold(t: Tree, n: nat, i: nat)
    requires WellFormed(t) && n < |t.kids| && i < |t.kids[n]|
    ensures t.kids[n][i] < |t.kids| && KidTrees(t, n, i) == Subtree(t, t.kids[n][i]) + KidTrees(t, n, i + 1)
  {
    assert KidsLinked(t, n);
    forall m: nat | m < |t.kids|
      ensures UnderKids(t, n, i, m) <==> Under(t, t.kids[n][i], m) || UnderKids(t, n, i + 1, m)
    {
      if UnderKids(t, n, i, m) {
        var j :| i <= j < |t.kids[n]| && Under(t, t.kids[n][j], m);
      }
    }
  }

  lemma SubtreeUnfold(t: Tree, n: nat)
    requires WellFormed(t) && n < |t.kids|
    ensures Subtree(t, n) == {n} + KidTrees(t, n, 0) && n !in KidTrees(t, n, 0)
  {
    forall m: nat | m < |t.kids| ensures Under(t, n, m) <==> m == n || UnderKids(t, n, 0, m) {
      UnderSplits(t, n, m);
    }
    assert KidsLinked(t, n);
    forall j | 0 <= j < |t.kids[n]| ensures !Under(t, t.kids[n][j], n) {
      if Under(t, t.kids[n][j], n) {
        UnderIsDeeper(t, t.kids[n][j], n);
      }
    }
  }

  // What a pass over the groups in part leaves behind: those it reached are at
  // their effective quota, the others as they were; it stops early exactly
  // when one of them does not fit.
  ghost predicate Settled(t: Tree, r: Request, s: seq<Quota>, o: Outcome<seq<Quota>>, part: set<nat>)
    requires WellFormed(t) && |t.kids| == |r.groups| == |s|
    requires forall m :: m in part ==> m < |t.kids|
  {
    && |o.state| == |s|
    && (forall m :: 0 <= m < |s| ==> o.state[m] == s[m] || (m in part && o.state[m] == Effective(t, r, m)))
    && (o.ret == 0 ==> forall m :: m in part ==> o.state[m] == Effective(t, r, m) && Fits(t, r, m))
    && (o.ret != 0 ==> o.ret == -EINVAL && exists m :: m in part && !Fits(t, r, m))
  }

  function DownVisitor(t: Tree, r: Request): Visitor<seq<Quota>> {
    (n: nat, s: seq<Quota>) => SchedulableDown(t, r, n, s)
  }

  // tg_nop.
  function Nop(): Visitor<seq<Quota>> {
    (n, s) => Outcome(s, 0)
  }

  lemma DownSettles(t: Tree, r: Request, n: nat, s: seq<Quota>)
    requires WellFormed(t) && n < |t.kids| == |r.groups| == |s| && ParentSet(t, r, n, s)
    ensures Settled(t, r, s, SchedulableDown(t, r, n, s), {n})
  {
    assert ParentLinked(t, n);
  }

  lemma SettledJoin(t: Tree, r: Request, s: seq<Quota>, o: Outcome<seq<Quota>>, o': Outcome<seq<Quota>>,
                    a: set<nat>, b: set<nat>)
    requires WellFormed(t) && |t.kids| == |r.groups| == |s| == |o.state|
    requires (forall m :: m in a ==> m < |t.kids|) && forall m :: m in b ==> m < |t.kids|
    requires Settled(t, r, s, o, a) && o.ret == 0 && Settled(t, r, o.state, o', b)
    ensures Settled(t, r, s, o', a + b)
  {
  }

  lemma SettledGrow(t: Tree, r: Request, s: seq<Quota>, o: Outcome<seq<Quota>>, a: set<nat>, b: set<nat>)
    requires WellFormed(t) && |t.kids| == |r.groups| == |s| && a <= b
    requires forall m :: m in b ==> m < |t.kids|
    requires Settled(t, r, s, o, a) && o.ret != 0
    ensures Settled(t, r, s, o, b)
  {
  }

  lemma {:induction false} VisitSettles(t: Tree, r: Request, n: nat, s: seq<Quota>)
    requires WellFormed(t) && n < |t.kids| == |r.groups| == |s| && ParentSet(t, r, n, s)
    ensures Settled(t, r, s, Visit(t, n, DownVisitor(t, r), Nop(), s), Subtree(t, n))
    decreases |t.kids| - t.depth[n], 1, 0
  {
    DownSettles(t, r, n, s);
    SubtreeUnfold(t, n);
    var o := SchedulableDown(t, r, n, s);
    if o.ret != 0 {
      SettledGrow(t, r, s, o, {n}, Subtree(t, n));
    } else {
      assert n in {n};
      KidsSettle(t, r, n, 0, o.state);
      SettledJoin(t, r, s, o, VisitKids(t, n, 0, DownVisitor(t, r), Nop(), o.state), {n}, KidTrees(t, n, 0));
    }
  }

  lemma {:induction false} KidsSettle(t: Tree, r: Request, n: nat, i: nat, s: seq<Quota>)
    requires WellFormed(t) && n < |t.kids| == |r.groups| == |s| && i <= |t.kids[n]|
    requires s[n] == Effective(t, r, n)
    ensures Settled(t, r, s, VisitKids(t, n, i, DownVisitor(t, r), Nop(), s), KidTrees(t, n, i))
    decreases |t.kids| - t.depth[n], 0, |t.kids[n]| - i
  {
    if i < |t.kids[n]| {
      var c := t.kids[n][i];
      assert KidsLinked(t, n) && KidsLinked(t, c);
      KidTreesUnfold(t, n, i);
      VisitSettles(t, r, c, s);
      var o := Visit(t, c, DownVisitor(t, r), Nop(), s);
      if o.ret != 0 {
        SettledGrow(t, r, s, o, Subtree(t, c), KidTrees(t, n, i));
      } else {
        assert o.state[n] == Effective(t, r, n);
        KidsSettle(t, r, n, i + 1, o.state);
        SettledJoin(t, r, s, o, VisitKids(t, n, i + 1, DownVisitor(t, r), Nop(), o.state),
                    Subtree(t, c), KidTrees(t, n, i + 1));
      }
    }
  }

  // The root of the whole hierarchy: the one group without a parent.
  ghost predicate IsRoot(t: Tree, root: nat) {
    root < |t.up| && forall n :: 0 <= n < |t.up| ==> (t.up[n].None? <==> n == root)
  }

  lemma {:induction false} RootIsAbove(t: Tree, root: nat, m: nat)
    requires WellFormed(t) && IsRoot(t, root) && m < |t.kids|
    ensures Under(t, root, m)
    decreases t.depth[m]
  {
    if m != root {
      assert ParentLinked(t, m);
      RootIsAbove(t, root, t.up[m].value);
    }
  }

  // When every group fits, no group is held to more than any of its ancestors.
  lemma {:induction false} EffectiveDescends(t: Tree, r: Request, a: nat, m: nat)
    requires WellFormed(t) && a < |t.kids| == |r.groups| && m < |t.kids| && Under(t, a, m)
    requires forall n: nat :: n < |t.kids| ==> Fits(t, r, n)
    ensures AtMost(Effective(t, r, m), Effective(t, r, a))
    decreases t.depth[m]
  {
    if m != a {
      assert ParentLinked(t, m) && Fits(t, r, m);
      EffectiveDescends(t, r, a, t.up[m].value);
    }
  }

  lemma {:induction false} EffectiveSource(t: Tree, r: Request, n: nat) returns (a: nat)
    requires WellFormed(t) && n < |t.kids| == |r.groups| && Effective(t, r, n).Finite?
    ensures a < |t.kids| && Under(t, a, n) && t.up[a].Some? && Own(r, a) == Effective(t, r, n)
    decreases t.depth[n]
  {
    a := n;
    if Own(r, n).Unlimited? {
      assert ParentLinked(t, n);
      a := EffectiveSource(t, r, t.up[n].value);
    }
  }

  // No group's own limit exceeds the own limit of a group above it, however
  // many unlimited ones lie between them. The root's own limit is not looked at.
  ghost predicate LimitsNest(t: Tree, r: Request)
    requires WellFormed(t) && |t.kids| == |r.groups|
  {
    forall a: nat, m: nat :: a < |t.kids| && m < |t.kids| && Under(t, a, m) && t.up[a].Some? && Own(r, m).Finite?
      ==> AtMost(Own(r, m), Own(r, a))
  }

  lemma FitsIff(t: Tree, r: Request)
    requires WellFormed(t) && |t.kids| == |r.groups|
    ensures (forall n: nat :: n < |t.kids| ==> Fits(t, r, n)) <==> LimitsNest(t, r)
  {
    if forall n: nat :: n < |t.kids| ==> Fits(t, r, n) {
      forall a: nat, m: nat | a < |t.kids| && m < |t.kids| && Under(t, a, m) && t.up[a].Some? && Own(r, m).Finite?
        ensures AtMost(Own(r, m), Own(r, a))
      {
        EffectiveDescends(t, r, a, m);
      }
    }
    if LimitsNest(t, r) {
      forall n: nat | n < |t.kids| ensures Fits(t, r, n) {
        assert ParentLinked(t, n);
        if t.up[n].Some? && Effective(t, r, t.up[n].value).Finite? {
          var a := EffectiveSource(t, r, t.up[n].value);
          assert Under(t, a, n);
        }
      }
    }
  }

  // ---- The check in terms of quotas and periods ----

  // A limit as a fraction, in microseconds. A period below a microsecond counts as
  // no quota at all.
  ghost function Num(b: Bandwidth): nat
    requires b.quota.Finite?
  {
    if b.period / NSEC_PER_USEC == 0 then 0 else b.quota.amount / NSEC_PER_USEC
  }

  ghost function Den(b: Bandwidth): (d: nat)
    ensures 0 < d
  {
    if b.period / NSEC_PER_USEC == 0 then 1 else b.period / NSEC_PER_USEC
  }

  // r is the limit in whole units of 1 / BW_UNIT, rounded down.
  ghost predicate IsShare(r: nat, b: Bandwidth)
    requires b.quota.Finite?
  {
    r * Den(b) <= Num(b) * BW_UNIT < r * Den(b) + Den(b)
  }

  lemma RatioIsShare(b: Bandwidth)
    requires b.quota.Finite?
    ensures Ratio(b).Finite? && IsShare(Ratio(b).amount, b)
  {
    Division(Num(b) * BW_UNIT, Den(b));
  }

  lemma Division(x: nat, d: nat)
    requires 0 < d
    ensures x / d * d <= x < x / d * d + d
  {
  }

  // x exceeds y by enough to tell: some whole number of units is within x's share
  // and beyond y's.
  ghost predicate Exceeds(x: Bandwidth, y: Bandwidth)
    requires x.quota.Finite? && y.quota.Finite?
  {
    exists k: nat :: UnitBetween(k, x, y)
  }

  ghost predicate UnitBetween(k: nat, x: Bandwidth, y: Bandwidth)
    requires x.quota.Finite? && y.quota.Finite?
  {
    k * Den(x) <= Num(x) * BW_UNIT && Num(y) * BW_UNIT < k * Den(y)
  }

  // k fits in x as often as its share says, and not more.
  lemma UnitsFit(k: nat, r: nat, d: nat, x: nat)
    requires 0 < d && r * d <= x < r * d + d
    ensures k * d <= x <==> k <= r
  {
    if k <= r {
      Scale(k, r, d);
    } else {
      Scale(r + 1, k, d);
      assert (r + 1) * d == r * d + d;
    }
  }

  lemma Scale(a: nat, b: nat, c: nat)
    requires a <= b
    ensures a * c <= b * c
  {
  }

  lemma ExceedsIff(x: Bandwidth, y: Bandwidth)
    requires x.quota.Finite? && y.quota.Finite?
    ensures Ratio(x).Finite? && Ratio(y).Finite?
    ensures Exceeds(x, y) <==> Ratio(x).amount > Ratio(y).amount
  {
    RatioIsShare(x);
    RatioIsShare(y);
    var r, q := Ratio(x).amount, Ratio(y).amount;
    forall k: nat ensures UnitBetween(k, x, y) <==> q < k <= r {
      UnitsFit(k, r, Den(x), Num(x) * BW_UNIT);
      UnitsFit(k, q, Den(y), Num(y) * BW_UNIT);
    }
    if q < r {
      assert UnitBetween(r, x, y);
    }
  }

  ghost predicate NoLarger(x: Bandwidth, y: Bandwidth)
    requires x.quota.Finite? && y.quota.Finite?
  {
    Num(x) * Den(y) <= Num(y) * Den(x)
  }

  ghost predicate UnitLarger(x: Bandwidth, y: Bandwidth)
    requires x.quota.Finite? && y.quota.Finite?
  {
    Num(x) * BW_UNIT * Den(y) >= Num(y) * BW_UNIT * Den(x) + Den(x) * Den(y)
  }

  // A fraction no larger never exceeds; one larger by a whole unit always does.
  lemma SmallerNeverExceeds(x: Bandwidth, y: Bandwidth)
    requires x.quota.Finite? && y.quota.Finite? && NoLarger(x, y)
    ensures !Exceeds(x, y)
  {
    forall k: nat ensures !UnitBetween(k, x, y) {
      if UnitBetween(k, x, y) {
        CrossMultiply(k, Num(x), Den(x), Num(y), Den(y));
      }
    }
  }

  lemma CrossMultiply(k: nat, n: nat, d: nat, m: nat, e: nat)
    requires 0 < d && 0 < e && k * d <= n * BW_UNIT && m * BW_UNIT < k * e
    ensures m * d < n * e
  {
    Scale(k * d, n * BW_UNIT, e);
    assert m * BW_UNIT * d < k * e * d;
    assert k * d * e == k * e * d;
    assert (m * d) * BW_UNIT < (n * e) * BW_UNIT;
  }

  lemma UnitMoreExceeds(x: Bandwidth, y: Bandwidth)
    requires x.quota.Finite? && y.quota.Finite? && UnitLarger(x, y)
    ensures Exceeds(x, y)
  {
    RatioIsShare(x);
    var r := Ratio(x).amount;
    WholeUnit(r, Num(x) * BW_UNIT, Den(x), Num(y) * BW_UNIT, Den(y));
    assert UnitBetween(r, x, y);
  }

  lemma WholeUnit(r: nat, n: nat, d: nat, m: nat, e: nat)
    requires 0 < d && 0 < e && n < r * d + d && n * e >= m * d + d * e
    ensures m < r * e
  {
    Scale(n + 1, r * d + d, e);
    assert (n + 1) * e == n * e + e;
    assert (r * d + d) * e == r * e * d + d * e;
    assert m * d < r * e * d;
    if r * e <= m {
      Scale(r * e, m, d);
    }
  }

  // The bandwidths as they would be with the proposal in force.
  ghost function Proposed(r: Request): (g: seq<Bandwidth>)
    ensures |g| == |r.groups|
  {
    if r.tg < |r.groups| then r.groups[r.tg := r.proposed] else r.groups
  }

  // No limit exceeds that of any group above it, but for the root's, which is not
  // looked at.
  ghost predicate SharesNest(t: Tree, g: seq<Bandwidth>)
    requires WellFormed(t) && |t.kids| == |g|
  {
    forall a: nat, m: nat :: LimitedPair(t, g, a, m) ==> !Exceeds(g[m], g[a])
  }

  // m is or lies below a, and both have a limit that is looked at.
  ghost predicate LimitedPair(t: Tree, g: seq<Bandwidth>, a: nat, m: nat)
    requires WellFormed(t) && |t.kids| == |g|
  {
    && a < |g| && m < |g| && Under(t, a, m) && t.up[a].Some?
    && g[m].quota.Finite? && g[a].quota.Finite?
  }

  lemma OwnIsProposed(r: Request, n: nat)
    requires n < |r.groups|
    ensures Own(r, n) == Ratio(Proposed(r)[n])
    ensures Own(r, n).Finite? <==> Proposed(r)[n].quota.Finite?
  {
  }

  lemma NestIff(t: Tree, r: Request)
    requires WellFormed(t) && |t.kids| == |r.groups|
    ensures LimitsNest(t, r) <==> SharesNest(t, Proposed(r))
  {
    var g := Proposed(r);
    forall a: nat, m: nat | a < |g| && m < |g|
      ensures Own(r, m).Finite? && !AtMost(Own(r, m), Own(r, a)) <==>
              g[m].quota.Finite? && g[a].quota.Finite? && Exceeds(g[m], g[a])
    {
      OwnIsProposed(r, m);
      OwnIsProposed(r, a);
      if g[m].quota.Finite? && g[a].quota.Finite? {
        ExceedsIff(g[m], g[a]);
      }
    }
  }

  // A group with a limit is held to its share, one without to what its parent is,
  // and the root to nothing.
  ghost predicate HeldRight(t: Tree, g: seq<Bandwidth>, quotas: seq<Quota>, n: nat)
    requires WellFormed(t) && n < |t.kids| == |g| == |quotas|
  {
    if t.up[n].None? then quotas[n] == Unlimited
    else if g[n].quota.Finite? then quotas[n].Finite? && IsShare(quotas[n].amount, g[n])
    else assert ParentLinked(t, n); quotas[n] == quotas[t.up[n].value]
  }

  lemma EffectiveIsRight(t: Tree, r: Request, quotas: seq<Quota>, n: nat)
    requires WellFormed(t) && n < |t.kids| == |r.groups| == |quotas|
    requires forall m: nat :: m < |quotas| ==> quotas[m] == Effective(t, r, m)
    ensures HeldRight(t, Proposed(r), quotas, n)
  {
    OwnIsProposed(r, n);
    assert ParentLinked(t, n);
    if Proposed(r)[n].quota.Finite? {
      RatioIsShare(Proposed(r)[n]);
    }
  }

  // __cfs_schedulable: accept a bandwidth for one group, or refuse it.
  method CfsSchedulable(t: Tree, root: nat, r: Request, hierarchical: seq<Quota>)
    returns (quotas: seq<Quota>, ret: int)
    requires WellFormed(t) && IsRoot(t, root) && |t.kids| == |r.groups| == |hierarchical|
    ensures ret == 0 || ret == -EINVAL
    ensures ret == 0 <==> SharesNest(t, Proposed(r))
    ensures |quotas| == |hierarchical|
    ensures forall n: nat :: n < |quotas| ==> quotas[n] == hierarchical[n] || quotas[n] == Effective(t, r, n)
    ensures ret == 0 ==> forall n: nat :: n < |quotas| ==> HeldRight(t, Proposed(r), quotas, n)
    ensures ret == 0 ==> forall a: nat, m: nat :: a < |quotas| && m < |quotas| && Under(t, a, m) ==>
                           AtMost(quotas[m], quotas[a])
  {
    quotas, ret := WalkFrom(t, root, DownVisitor(t, r), Nop(), hierarchical);
    FitsIff(t, r);
    NestIff(t, r);
    VisitSettles(t, r, root, hierarchical);
    forall m: nat | m < |t.kids| ensures m in Subtree(t, root) {
      RootIsAbove(t, root, m);
    }
    if ret == 0 {
      forall n: nat | n < |quotas| ensures HeldRight(t, Proposed(r), quotas, n) {
        EffectiveIsRight(t, r, quotas, n);
      }
      forall a: nat, m: nat | a < |quotas| && m < |quotas| && Under(t, a, m) ensures AtMost(quotas[m], quotas[a]) {
        EffectiveDescends(t, r, a, m);
      }
    }
  }

  // What that means without units: limits that nest as fractions are accepted, and
  // a limit a whole unit over an ancestor's is refused.
  lemma AcceptedAndRefused(t: Tree, g: seq<Bandwidth>)
    requires WellFormed(t) && |t.kids| == |g|
    ensures (forall a: nat, m: nat :: LimitedPair(t, g, a, m) ==> NoLarger(g[m], g[a])) ==> SharesNest(t, g)
    ensures (exists a: nat, m: nat :: LimitedPair(t, g, a, m) && UnitLarger(g[m], g[a])) ==> !SharesNest(t, g)
  {
    forall a: nat, m: nat | LimitedPair(t, g, a, m)
      ensures NoLarger(g[m], g[a]) ==> !Exceeds(g[m], g[a])
      ensures UnitLarger(g[m], g[a]) ==> Exceeds(g[m], g[a])
    {
      if NoLarger(g[m], g[a]) { SmallerNeverExceeds(g[m], g[a]); }
      if UnitLarger(g[m], g[a]) { UnitMoreExceeds(g[m], g[a]); }
    }
  }
}
