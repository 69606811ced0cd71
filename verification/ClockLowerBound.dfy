// Traces on which Second-Chance takes 2k - 1 faults for each fault of Optimal. A
// page is hit right after it was loaded last; the scan then spares it, and evicts
// in its place a page that was loaded after it and is needed next.
module ClockLowerBound {
  import opened Paging
  import opened Collections
  import opened Replacement
  import opened ClockBounds

  // ---- Serving a sequence of references ----

  ghost function ServeAll(k: nat, l: Line, r: seq<int>): Line {
    if r == [] then l else Serve(k, ServeAll(k, l, r[..|r| - 1]), r[|r| - 1])
  }

  ghost function LineFaults(k: nat, l: Line, r: seq<int>): nat {
    if r == [] then 0
    else
      var before := r[..|r| - 1];
      LineFaults(k, l, before) + if r[|r| - 1] in ServeAll(k, l, before).pages then 0 else 1
  }

  lemma {:induction false} ServeConcat(k: nat, l: Line, r: seq<int>, u: seq<int>)
    ensures ServeAll(k, l, r + u) == ServeAll(k, ServeAll(k, l, r), u)
    ensures LineFaults(k, l, r + u) == LineFaults(k, l, r) + LineFaults(k, ServeAll(k, l, r), u)
  {
    if u == [] {
      assert r + u == r;
    } else {
      var n := |u| - 1;
      ServeConcat(k, l, r, u[..n]);
      assert (r + u)[..|r + u| - 1] == r + u[..n];
    }
  }

  lemma ServeOne(k: nat, l: Line, page: int)
    ensures ServeAll(k, l, [page]) == Serve(k, l, page)
    ensures LineFaults(k, l, [page]) == if page in l.pages then 0 else 1
  {
    assert [page][..0] == [];
    assert ServeAll(k, l, []) == l;
  }

  // Without a marked page at the front a full line moves like FIFO.
  ghost predicate Slides(k: nat, q: seq<int>, r: seq<int>, marked: set<int>) {
    |q| == k && forall i :: 0 <= i < |r| ==> SlidesAt(k, q + r, r[i], i, marked)
  }

  ghost predicate SlidesAt(k: nat, all: seq<int>, page: int, i: nat, marked: set<int>) {
    0 < k && i + k <= |all| && all[i] !in marked && page !in marked && page !in all[i..i + k]
  }

  lemma SlideOne(k: nat, l: Line, page: int)
    requires 0 < k == |l.pages| && l.pages[0] !in l.marked && page !in l.marked && page !in l.pages
    ensures Serve(k, l, page) == Line(l.pages[1..] + [page], l.marked)
  {
  }

  lemma {:induction false} Slide(k: nat, q: seq<int>, r: seq<int>, marked: set<int>)
    requires 0 < k && Slides(k, q, r, marked)
    ensures ServeAll(k, Line(q, marked), r) == Line((q + r)[|r|..], marked)
    ensures LineFaults(k, Line(q, marked), r) == |r|
  {
    if r == [] {
      assert q + r == q;
    } else {
      var n := |r| - 1;
      SlidesPrefix(k, q, r, marked);
      Slide(k, q, r[..n], marked);
      SlideLast(k, q, r, marked);
    }
  }

  lemma SlideLast(k: nat, q: seq<int>, r: seq<int>, marked: set<int>)
    requires 0 < k && r != [] && Slides(k, q, r, marked)
    ensures var n := |r| - 1;
            var l := Line((q + r[..n])[n..], marked);
            r[n] !in l.pages && Serve(k, l, r[n]) == Line((q + r)[|r|..], marked)
  {
    var n := |r| - 1;
    var l := Line((q + r[..n])[n..], marked);
    assert SlidesAt(k, q + r, r[n], n, marked);
    assert l.pages == (q + r)[n..n + k];
    SlideOne(k, l, r[n]);
    assert (q + r)[|r|..] == l.pages[1..] + [r[n]];
  }

  lemma SlidesPrefix(k: nat, q: seq<int>, r: seq<int>, marked: set<int>)
    requires 0 < k && r != [] && Slides(k, q, r, marked)
    ensures Slides(k, q, r[..|r| - 1], marked)
  {
    var u := r[..|r| - 1];
    forall i | 0 <= i < |u| ensures SlidesAt(k, q + u, u[i], i, marked) {
      assert SlidesAt(k, q + r, r[i], i, marked);
      assert (q + u)[i..i + k] == (q + r)[i..i + k];
    }
  }

  // ---- One phase ----

  // k + 1 pages, and the first k of them in memory in this order: a, then c, which
  // has just been hit, with d missing.
  ghost predicate Cast(k: nat, a: seq<int>, c: int, d: int) {
    2 <= k && |a| == k - 1 && Distinct([d] + a + [c])
  }

  // The references repeated in a phase.
  ghost function Round(a: seq<int>, d: int): seq<int>
    requires a != []
  {
    [d] + a[..|a| - 1]
  }

  ghost function Phase(a: seq<int>, d: int): seq<int>
    requires a != []
  {
    var w := Round(a, d);
    w + [a[|a| - 1]] + w + [w[|w| - 1]]
  }

  ghost function NextA(a: seq<int>, d: int): seq<int>
    requires a != []
  {
    var w := Round(a, d);
    [a[|a| - 1]] + w[..|w| - 1]
  }

  ghost function NextC(a: seq<int>, d: int): int
    requires a != []
  {
    Round(a, d)[|a| - 1]
  }

  // The parts of a phase. First the k - 1 oldest pages go, for those of w.
  lemma FirstSweep(k: nat, a: seq<int>, c: int, d: int)
    requires Cast(k, a, c, d)
    ensures var w := Round(a, d);
            && ServeAll(k, Line(a + [c], {c}), w) == Line([c] + w, {c})
            && LineFaults(k, Line(a + [c], {c}), w) == k - 1
  {
    var q, w := a + [c], Round(a, d);
    forall i | 0 <= i < |w| ensures SlidesAt(k, q + w, w[i], i, {c}) {
      FirstSweepAt(k, a, c, d, i);
    }
    Slide(k, q, w, {c});
    assert (q + w)[|w|..] == [c] + w;
  }

  lemma FirstSweepAt(k: nat, a: seq<int>, c: int, d: int, i: nat)
    requires Cast(k, a, c, d) && i < |Round(a, d)|
    ensures SlidesAt(k, a + [c] + Round(a, d), Round(a, d)[i], i, {c})
  {
    var w, u := Round(a, d), [d] + a + [c];
    assert u[i] == w[i] && u[k] == c && u[i + 1] == a[i];
    var all := a + [c] + w;
    assert all[i] == a[i];
    var window := all[i..i + k];
    forall h | 0 <= h < k ensures window[h] != w[i] {
      if i + h < k - 1 {
        assert window[h] == a[i + h] == u[i + h + 1];
      } else if i + h == k - 1 {
        assert window[h] == c;
      } else {
        assert window[h] == w[i + h - k] == u[i + h - k];
      }
    }
  }

  // Then c is at the front and passed over, and the page just loaded goes instead.
  lemma PassOver(k: nat, a: seq<int>, c: int, d: int)
    requires Cast(k, a, c, d)
    ensures var w, z := Round(a, d), a[|a| - 1];
            && z !in [c] + w
            && Serve(k, Line([c] + w, {c}), z) == Line(w[1..] + [c, z], {})
  {
    var w, z, u := Round(a, d), a[|a| - 1], [d] + a + [c];
    assert u[k - 1] == z && u[k] == c && u[0] == d;
    forall h | 0 <= h < |w| ensures w[h] != z && w[h] != c {
      assert u[h] == w[h];
    }
    var l := Line([c] + w, {c});
    var p := Line(w + [c], {});
    assert Rotate(l.pages) == p.pages && {c} - {c} == {};
    assert Passed(l) == p && Settle(p) == p;
    assert Settle(l) == p;
    assert (w + [c])[1..] + [z] == w[1..] + [c, z];
  }

  // So the same references fault all over again.
  lemma SecondSweep(k: nat, a: seq<int>, c: int, d: int)
    requires Cast(k, a, c, d)
    ensures var w, z := Round(a, d), a[|a| - 1];
            && ServeAll(k, Line(w[1..] + [c, z], {}), w) == Line([z] + w, {})
            && LineFaults(k, Line(w[1..] + [c, z], {}), w) == k - 1
  {
    var w, z := Round(a, d), a[|a| - 1];
    var q := w[1..] + [c, z];
    forall i | 0 <= i < |w| ensures SlidesAt(k, q + w, w[i], i, {}) {
      SecondSweepAt(k, a, c, d, i);
    }
    Slide(k, q, w, {});
    SecondWindow(w, c, z);
  }

  lemma SecondWindow(w: seq<int>, c: int, z: int)
    requires w != []
    ensures (w[1..] + [c, z] + w)[|w|..] == [z] + w
  {
  }

  lemma SecondSweepAt(k: nat, a: seq<int>, c: int, d: int, i: nat)
    requires Cast(k, a, c, d) && i < |Round(a, d)|
    ensures var w, z := Round(a, d), a[|a| - 1]; SlidesAt(k, w[1..] + [c, z] + w, w[i], i, {})
  {
    var w, z, u := Round(a, d), a[|a| - 1], [d] + a + [c];
    assert u[i] == w[i] && u[k] == c && u[k - 1] == z;
    var all := w[1..] + [c, z] + w;
    var window := all[i..i + k];
    forall h | 0 <= h < k ensures window[h] != w[i] {
      if i + h < k - 2 {
        assert window[h] == w[i + h + 1] == u[i + h + 1];
      } else if i + h >= k {
        assert window[h] == w[i + h - k] == u[i + h - k];
      } else {
        assert window[h] == c || window[h] == z;
      }
    }
  }

  lemma HalfPhase(k: nat, a: seq<int>, c: int, d: int)
    requires Cast(k, a, c, d)
    ensures var w, z, l := Round(a, d), a[|a| - 1], Line(a + [c], {c});
            ServeAll(k, l, w + [z]) == Line(w[1..] + [c, z], {}) && LineFaults(k, l, w + [z]) == k
  {
    var w, z, l := Round(a, d), a[|a| - 1], Line(a + [c], {c});
    FirstSweep(k, a, c, d);
    PassOver(k, a, c, d);
    ServeConcat(k, l, w, [z]);
    ServeOne(k, Line([c] + w, {c}), z);
  }

  lemma HitLast(k: nat, a: seq<int>, d: int)
    requires a != []
    ensures var w, z := Round(a, d), a[|a| - 1];
            var c', l := w[|w| - 1], Line([z] + w, {});
            && ServeAll(k, l, [c']) == Line(NextA(a, d) + [c'], {c'}) && LineFaults(k, l, [c']) == 0
  {
    var w, z := Round(a, d), a[|a| - 1];
    var c', l := w[|w| - 1], Line([z] + w, {});
    ServeOne(k, l, c');
    assert l.pages[|w|] == c';
    assert [z] + w == NextA(a, d) + [c'];
    assert {} + {c'} == {c'};
  }

  // Altogether 2k - 1 faults, and the same situation with d and c exchanged.
  lemma PhaseFaults(k: nat, a: seq<int>, c: int, d: int)
    requires Cast(k, a, c, d)
    ensures var l, l' := Line(a + [c], {c}), Line(NextA(a, d) + [NextC(a, d)], {NextC(a, d)});
            && ServeAll(k, l, Phase(a, d)) == l' && LineFaults(k, l, Phase(a, d)) == 2 * k - 1
  {
    var w, z, l := Round(a, d), a[|a| - 1], Line(a + [c], {c});
    HalfPhase(k, a, c, d);
    SecondSweep(k, a, c, d);
    HitLast(k, a, d);
    ServeConcat(k, l, w + [z], w);
    ServeConcat(k, l, w + [z] + w, [w[|w| - 1]]);
  }

  lemma NextCast(k: nat, a: seq<int>, c: int, d: int)
    requires Cast(k, a, c, d)
    ensures Cast(k, NextA(a, d), NextC(a, d), c)
  {
    var w, z, u := Round(a, d), a[|a| - 1], [d] + a + [c];
    var u' := [c] + NextA(a, d) + [NextC(a, d)];
    assert u[k] == c && u[k - 1] == z;
    forall i | 0 <= i < |w| ensures w[i] == u[i] {}
    assert u' == [c, z] + w;
    forall i, j | 0 <= i < j < |u'| ensures u'[i] != u'[j] {
      assert u'[i] == u[if i == 0 then k else if i == 1 then k - 1 else i - 2];
      assert u'[j] == u[if j == 1 then k - 1 else j - 2];
    }
  }

  // ---- Many phases ----

  ghost function Phases(a: seq<int>, c: int, d: int, m: nat): seq<int>
    requires a != []
    decreases m
  {
    if m == 0 then [] else Phase(a, d) + Phases(NextA(a, d), NextC(a, d), c, m - 1)
  }

  // Serving r takes l to l' with f faults.
  ghost predicate Takes(k: nat, l: Line, r: seq<int>, l': Line, f: nat) {
    ServeAll(k, l, r) == l' && LineFaults(k, l, r) == f
  }

  lemma TakesConcat(k: nat, l: Line, r: seq<int>, l': Line, f: nat, u: seq<int>, l'': Line, g: nat)
    requires Takes(k, l, r, l', f) && Takes(k, l', u, l'', g)
    ensures Takes(k, l, r + u, l'', f + g)
  {
    ServeConcat(k, l, r, u);
  }

  lemma OneMorePhase(k: nat, m: nat)
    requires 0 < k && 0 < m
    ensures (2 * k - 1) + (2 * k - 1) * (m - 1) == (2 * k - 1) * m
  {
  }

  lemma {:induction false} PhasesFaults(k: nat, a: seq<int>, c: int, d: int, m: nat) returns (l: Line)
    requires Cast(k, a, c, d)
    ensures Takes(k, Line(a + [c], {c}), Phases(a, c, d, m), l, (2 * k - 1) * m)
    decreases m
  {
    var start := Line(a + [c], {c});
    if m == 0 {
      l := start;
    } else {
      var a', c' := NextA(a, d), NextC(a, d);
      PhaseFaults(k, a, c, d);
      NextCast(k, a, c, d);
      l := PhasesFaults(k, a', c', c, m - 1);
      TakesConcat(k, start, Phase(a, d), Line(a' + [c'], {c'}), 2 * k - 1,
                  Phases(a', c', c, m - 1), l, (2 * k - 1) * (m - 1));
      OneMorePhase(k, m);
    }
  }

  // ---- Another schedule for the same references ----

  ghost predicate Path(k: nat, t: seq<int>, rs: seq<set<int>>) {
    |rs| == |t| + 1 && forall i :: 0 <= i < |t| ==> Serves(k, t[i], rs[i], rs[i + 1])
  }

  ghost predicate Meet(t: seq<int>, rs: seq<set<int>>, u: seq<int>, ss: seq<set<int>>) {
    |rs| == |t| + 1 && |ss| == |u| + 1 && rs[|t|] == ss[0]
  }

  lemma PathConcat(k: nat, t: seq<int>, rs: seq<set<int>>, u: seq<int>, ss: seq<set<int>>)
    requires Path(k, t, rs) && Path(k, u, ss) && Meet(t, rs, u, ss)
    ensures Path(k, t + u, rs + ss[1..])
  {
    var tu, rss := t + u, rs + ss[1..];
    forall i | 0 <= i < |tu| ensures Serves(k, tu[i], rss[i], rss[i + 1]) {
      if i < |t| {
        assert Serves(k, t[i], rs[i], rs[i + 1]);
      } else {
        var h := i - |t|;
        assert rss[i] == ss[h] && rss[i + 1] == ss[h + 1];
        assert Serves(k, u[h], ss[h], ss[h + 1]);
      }
    }
  }

  lemma {:induction false} FaultsOfPrefix(t: seq<int>, rs: seq<set<int>>, u: seq<int>, ss: seq<set<int>>, n: nat)
    requires n <= |t| <= |rs| && |t| <= |u| <= |ss|
    requires forall i :: 0 <= i < |t| ==> u[i] == t[i] && ss[i] == rs[i]
    ensures Faults(u, ss, n) == Faults(t, rs, n)
  {
    if n > 0 { FaultsOfPrefix(t, rs, u, ss, n - 1); }
  }

  lemma {:induction false} FaultsConcat(t: seq<int>, rs: seq<set<int>>, u: seq<int>, ss: seq<set<int>>, n: nat)
    requires Meet(t, rs, u, ss) && n <= |u|
    ensures Faults(t + u, rs + ss[1..], |t| + n) == Faults(t, rs, |t|) + Faults(u, ss, n)
  {
    var rss := rs + ss[1..];
    if n == 0 {
      FaultsOfPrefix(t, rs, t + u, rss, |t|);
    } else {
      FaultsConcat(t, rs, u, ss, n - 1);
      assert rss[|t| + n - 1] == ss[n - 1];
    }
  }

  // During a phase it suffices to give up c for d and keep that.
  ghost function PhasePath(k: nat, a: seq<int>, c: int, d: int): seq<set<int>> {
    [Elements(a) + {c}] + seq(2 * k, _ => Elements(a) + {d})
  }

  lemma PhaseStays(k: nat, a: seq<int>, c: int, d: int, i: nat)
    requires Cast(k, a, c, d) && i < 2 * k
    ensures |Phase(a, d)| == 2 * k && Phase(a, d)[i] in Elements(a) + {d}
  {
    var w := Round(a, d);
    assert forall h :: 0 <= h < |w| ==> w[h] == d || w[h] in a;
  }

  lemma HeldSize(k: nat, a: seq<int>, c: int, d: int)
    requires Cast(k, a, c, d)
    ensures |Elements(a) + {d}| <= k && d !in Elements(a) + {c}
  {
    var u := [d] + a + [c];
    forall i | 0 <= i < |a| ensures a[i] == u[i + 1] {}
    assert Distinct(a);
    DistinctSize(a);
    assert u[0] == d && u[k] == c;
  }

  lemma {:induction false} FaultsAllHit(t: seq<int>, rs: seq<set<int>>, n: nat)
    requires 0 < n <= |t| <= |rs| && forall i :: 1 <= i < |t| ==> t[i] in rs[i]
    ensures Faults(t, rs, n) == Miss(t[0], rs[0])
  {
    if n > 1 {
      FaultsAllHit(t, rs, n - 1);
    } else {
      assert Faults(t, rs, 0) == 0;
    }
  }

  lemma PhasePathFaults(k: nat, a: seq<int>, c: int, d: int)
    requires Cast(k, a, c, d)
    ensures |Phase(a, d)| == 2 * k && Path(k, Phase(a, d), PhasePath(k, a, c, d))
    ensures Faults(Phase(a, d), PhasePath(k, a, c, d), 2 * k) == 1
  {
    var t, rs := Phase(a, d), PhasePath(k, a, c, d);
    HeldSize(k, a, c, d);
    forall i: nat | i < 2 * k ensures |t| == 2 * k && t[i] in Elements(a) + {d} {
      PhaseStays(k, a, c, d, i);
    }
    FaultsAllHit(t, rs, 2 * k);
  }

  lemma NextHeld(k: nat, a: seq<int>, c: int, d: int)
    requires Cast(k, a, c, d)
    ensures Elements(NextA(a, d)) + {NextC(a, d)} == Elements(a) + {d}
  {
    var w, z, n := Round(a, d), a[|a| - 1], |a| - 1;
    assert NextA(a, d) + [NextC(a, d)] == [z] + w;
    ElementsConcat(NextA(a, d), [NextC(a, d)]);
    ElementsConcat([z], w);
    ElementsConcat([d], a[..n]);
    ElementsConcat(a[..n], [z]);
    assert a[..n] + [z] == a;
  }

  // A schedule for the references of t, from one resident set to another, with f
  // faults.
  ghost predicate Tour(k: nat, t: seq<int>, rs: seq<set<int>>, from: set<int>, to: set<int>, f: nat) {
    Path(k, t, rs) && rs[0] == from && rs[|t|] == to && Faults(t, rs, |t|) == f
  }

  lemma TourConcat(k: nat, t: seq<int>, rs: seq<set<int>>, u: seq<int>, ss: seq<set<int>>,
                   x: set<int>, y: set<int>, z: set<int>, f: nat, g: nat)
    requires Tour(k, t, rs, x, y, f) && Tour(k, u, ss, y, z, g)
    ensures Tour(k, t + u, rs + ss[1..], x, z, f + g)
  {
    PathConcat(k, t, rs, u, ss);
    FaultsConcat(t, rs, u, ss, |u|);
    assert |t + u| == |t| + |u|;
    if u == [] {
      assert rs + ss[1..] == rs;
    }
  }

  lemma PhaseTour(k: nat, a: seq<int>, c: int, d: int)
    requires Cast(k, a, c, d)
    ensures Tour(k, Phase(a, d), PhasePath(k, a, c, d), Elements(a) + {c}, Elements(NextA(a, d)) + {NextC(a, d)}, 1)
  {
    PhasePathFaults(k, a, c, d);
    NextHeld(k, a, c, d);
  }

  lemma {:induction false} PhasesTour(k: nat, a: seq<int>, c: int, d: int, m: nat)
    returns (rs: seq<set<int>>, to: set<int>)
    requires Cast(k, a, c, d)
    ensures Tour(k, Phases(a, c, d, m), rs, Elements(a) + {c}, to, m)
    decreases m
  {
    var from := Elements(a) + {c};
    if m == 0 {
      rs, to := [from], from;
      assert Faults([], rs, 0) == 0;
    } else {
      var a', c' := NextA(a, d), NextC(a, d);
      PhaseTour(k, a, c, d);
      NextCast(k, a, c, d);
      var ss;
      ss, to := PhasesTour(k, a', c', c, m - 1);
      TourConcat(k, Phase(a, d), PhasePath(k, a, c, d), Phases(a', c', c, m - 1), ss,
                 from, Elements(a') + {c'}, to, 1, m - 1);
      rs := PhasePath(k, a, c, d) + ss[1..];
    }
  }

  // ---- From empty memory ----

  ghost function Upto(n: nat): (s: seq<int>)
    ensures |s| == n && forall i :: 0 <= i < n ==> s[i] == i
  {
    seq(n, i => i)
  }

  const NOTHING: Line := Line([], {})

  lemma {:induction false} FillLine(k: nat, n: nat)
    requires n <= k
    ensures ServeAll(k, NOTHING, Upto(n)) == Line(Upto(n), {}) && LineFaults(k, NOTHING, Upto(n)) == n
  {
    if n > 0 {
      FillLine(k, n - 1);
      assert Upto(n)[..n - 1] == Upto(n - 1);
      assert Upto(n - 1) + [n - 1] == Upto(n);
    }
  }

  ghost function FillPath(n: nat): (rs: seq<set<int>>)
    ensures |rs| == n + 1 && forall i :: 0 <= i <= n ==> rs[i] == Elements(Upto(i))
  {
    seq(n + 1, i requires 0 <= i <= n => Elements(Upto(i)))
  }

  lemma FillPathServes(k: nat, n: nat)
    requires n <= k
    ensures Path(k, Upto(n), FillPath(n))
  {
    forall i | 0 <= i < n ensures Serves(k, Upto(n)[i], FillPath(n)[i], FillPath(n)[i + 1]) {
      DistinctSize(Upto(i + 1));
      assert Upto(i) + [i] == Upto(i + 1);
      ElementsConcat(Upto(i), [i]);
    }
  }

  lemma {:induction false} FaultsAtMost(t: seq<int>, rs: seq<set<int>>, n: nat)
    requires n <= |t| <= |rs|
    ensures Faults(t, rs, n) <= n
  {
    if n > 0 { FaultsAtMost(t, rs, n - 1); }
  }

  // Load k pages, hit the last, then m phases.
  ghost function Trace(k: nat, m: nat): seq<int>
    requires 2 <= k
  {
    Upto(k) + [k - 1] + Phases(Upto(k - 1), k - 1, k, m)
  }

  lemma FirstCast(k: nat)
    requires 2 <= k
    ensures Cast(k, Upto(k - 1), k - 1, k) && Upto(k - 1) + [k - 1] == Upto(k)
  {
  }

  // What the warm-up does to Second-Chance, and costs another schedule.
  lemma WarmUp(k: nat)
    requires 2 <= k
    ensures Takes(k, NOTHING, Upto(k) + [k - 1], Line(Upto(k - 1) + [k - 1], {k - 1}), k)
  {
    FirstCast(k);
    FillLine(k, k);
    var l := Line(Upto(k), {});
    ServeOne(k, l, k - 1);
    assert l.pages[k - 1] == k - 1;
    assert {} + {k - 1} == {k - 1};
    TakesConcat(k, NOTHING, Upto(k), l, k, [k - 1], Line(Upto(k), {k - 1}), 0);
  }

  lemma WarmTour(k: nat) returns (rs: seq<set<int>>, f: nat)
    requires 2 <= k
    ensures f <= k && Tour(k, Upto(k) + [k - 1], rs, {}, Elements(Upto(k - 1)) + {k - 1}, f)
  {
    FirstCast(k);
    ElementsConcat(Upto(k - 1), [k - 1]);
    FillPathServes(k, k);
    f := Faults(Upto(k), FillPath(k), k);
    FaultsAtMost(Upto(k), FillPath(k), k);
    HitPath(k);
    var full := Elements(Upto(k));
    TourConcat(k, Upto(k), FillPath(k), [k - 1], [full, full], {}, full, full, f, 0);
    rs := FillPath(k) + [full, full][1..];
  }

  lemma TraceFaults(k: nat, m: nat)
    requires 2 <= k
    ensures LineFaults(k, NOTHING, Trace(k, m)) == k + (2 * k - 1) * m
  {
    WarmUp(k);
    FirstCast(k);
    var l := PhasesFaults(k, Upto(k - 1), k - 1, k, m);
    TakesConcat(k, NOTHING, Upto(k) + [k - 1], Line(Upto(k - 1) + [k - 1], {k - 1}), k,
                Phases(Upto(k - 1), k - 1, k, m), l, (2 * k - 1) * m);
  }

  // A schedule with at most k + m faults.
  lemma TraceSchedule(k: nat, m: nat) returns (rs: seq<set<int>>)
    requires 2 <= k
    ensures Schedule(Trace(k, m), k, rs) && Faults(Trace(k, m), rs, |Trace(k, m)|) <= k + m
  {
    FirstCast(k);
    var warm, f := WarmTour(k);
    var ss, to := PhasesTour(k, Upto(k - 1), k - 1, k, m);
    TourConcat(k, Upto(k) + [k - 1], warm, Phases(Upto(k - 1), k - 1, k, m), ss,
               {}, Elements(Upto(k - 1)) + {k - 1}, to, f, m);
    rs := warm + ss[1..];
  }

  lemma HitPath(k: nat)
    requires 0 < k
    ensures var full := Elements(Upto(k)); Tour(k, [k - 1], [full, full], full, full, 0)
  {
    DistinctSize(Upto(k));
    assert Upto(k)[k - 1] == k - 1;
    assert Faults([k - 1], [Elements(Upto(k)), Elements(Upto(k))], 0) == 0;
  }

  // ---- The bound ----

  // A run of Second-Chance serves its trace as the line does.
  lemma {:induction false} RunServesLine(t: seq<int>, k: nat, sc: seq<Memory>, n: nat)
    requires Run(SecondChance, t, k, sc) && n <= |t|
    ensures FrameQueue(sc[n]) && LineOf(sc[n]) == ServeAll(k, NOTHING, t[..n])
    ensures FaultCount(t, sc, n) == LineFaults(k, NOTHING, t[..n])
  {
    if n > 0 {
      var i := n - 1;
      RunServesLine(t, k, sc, i);
      assert Step(SecondChance, t, k, i, sc[i], sc[i + 1]);
      StepServesLine(t, k, i, sc[i], sc[i + 1]);
      assert t[..n][..i] == t[..i];
      assert t[i] in Resident(sc[i]) <==> t[i] in sc[i].frames;
    }
  }

  // With two frames or more the factor 2k - 1 cannot be lowered: for every m there
  // is a trace on which Second-Chance faults 2k - 1 times for each of m faults of
  // Optimal, but for k faults of each at the start.
  lemma SecondChanceLowerBound(k: nat, m: nat, opt: seq<Memory>, sc: seq<Memory>)
    requires 2 <= k && Run(Optimal, Trace(k, m), k, opt) && Run(SecondChance, Trace(k, m), k, sc)
    ensures var t := Trace(k, m);
            && FaultCount(t, sc, |t|) == k + (2 * k - 1) * m
            && m <= FaultCount(t, opt, |t|) <= k + m
  {
    var t := Trace(k, m);
    assert t[..|t|] == t;
    RunServesLine(t, k, sc, |t|);
    TraceFaults(k, m);
    var rs := TraceSchedule(k, m);
    OptimalIsOptimal(t, k, opt, rs, |t|);
    SecondChanceCompetitive(t, k, opt, sc, |t|);
    AtLeastPhases(k, m, FaultCount(t, opt, |t|));
  }

  lemma AtLeastPhases(k: nat, m: nat, f: nat)
    requires 2 <= k && k + (2 * k - 1) * m <= (2 * k - 1) * f
    ensures m <= f
  {
    Grows(2 * k - 1, f + 1, m);
    assert (2 * k - 1) * (f + 1) == (2 * k - 1) * f + (2 * k - 1);
  }

  lemma Grows(c: nat, a: int, b: int)
    ensures a <= b ==> c * a <= c * b
  {
  }

  // Second-Chance is within factor times Optimal, up to a constant, on this trace.
  ghost predicate Within(t: seq<int>, k: nat, factor: nat, slack: nat) {
    forall opt, sc :: Run(Optimal, t, k, opt) && Run(SecondChance, t, k, sc) ==>
      FaultCount(t, sc, |t|) <= factor * FaultCount(t, opt, |t|) + slack
  }

  ghost predicate Bounds(k: nat, factor: nat, slack: nat) {
    forall t: seq<int> :: Within(t, k, factor, slack)
  }

  // Enough phases outrun any smaller factor and any slack.
  lemma Outrun(k: nat, m: nat, slack: nat, factor: nat, f: nat)
    requires 2 <= k && factor <= 2 * k - 2 && f <= k + m && m == factor * k + slack
    ensures k + (2 * k - 1) * m > factor * f + slack
  {
    Grows(factor, f, k + m);
    Grows(m, factor, 2 * k - 2);
    Distribute(factor, k, m);
    Distribute(m, 2 * k - 2, 1);
  }

  lemma Distribute(c: int, a: int, b: int)
    ensures c * (a + b) == c * a + c * b
  {
  }

  lemma SmallerFactorFails(k: nat, factor: nat, slack: nat)
    requires 2 <= k && factor < 2 * k - 1
    ensures !Within(Trace(k, factor * k + slack), k, factor, slack)
  {
    var m := factor * k + slack;
    var t := Trace(k, m);
    var opt := RunExists(Optimal, t, k);
    var sc := RunExists(SecondChance, t, k);
    SecondChanceLowerBound(k, m, opt, sc);
    Outrun(k, m, slack, factor, FaultCount(t, opt, |t|));
  }

  // A factor bounds Second-Chance on every trace, with some constant to spare, if
  // and only if it is at least 2k - 1; in particular k will do only for k = 1.
  lemma FactorIff(k: nat, factor: nat)
    requires 0 < k && 0 < factor
    ensures (exists slack: nat :: Bounds(k, factor, slack)) <==> 2 * k - 1 <= factor
  {
    if 2 * k - 1 <= factor {
      forall t: seq<int> ensures Within(t, k, factor, 0) {
        forall opt, sc | Run(Optimal, t, k, opt) && Run(SecondChance, t, k, sc)
          ensures FaultCount(t, sc, |t|) <= factor * FaultCount(t, opt, |t|) + 0
        {
          SecondChanceCompetitive(t, k, opt, sc, |t|);
          Grows(FaultCount(t, opt, |t|), 2 * k - 1, factor);
        }
      }
      assert Bounds(k, factor, 0);
    } else {
      forall slack: nat ensures !Bounds(k, factor, slack) {
        SmallerFactorFails(k, factor, slack);
      }
    }
  }
}
