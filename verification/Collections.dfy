// Facts about finite sets and sequences that the other modules share.
module Collections {

  lemma {:induction false} SubsetSize<T>(small: set<T>, large: set<T>)
    requires small <= large
    ensures |small| <= |large|
    ensures small != large ==> |small| < |large|
  {
    assert large == small + (large - small);
    if small != large {
      assert large - small != {};
    }
  }

  // A sequence without repetitions has as many elements as positions.
  ghost predicate Distinct<T>(s: seq<T>) {
    forall i, j :: 0 <= i < j < |s| ==> s[i] != s[j]
  }

  ghost function Elements<T>(s: seq<T>): set<T> {
    set x | x in s
  }

  lemma ElementsConcat<T>(s: seq<T>, u: seq<T>)
    ensures Elements(s + u) == Elements(s) + Elements(u)
  {
    assert forall x :: x in s + u <==> x in s || x in u;
  }

  lemma {:induction false} DistinctSize<T>(s: seq<T>)
    requires Distinct(s)
    ensures |Elements(s)| == |s|
  {
    if s != [] {
      var init, last := s[..|s| - 1], s[|s| - 1];
      DistinctSize(init);
      assert last !in init;
      assert Elements(s) == Elements(init) + {last};
    }
  }

  // Two repetition-free sequences of the same length, one of whose elements all
  // occur in the other, have the same elements.
  lemma SameElements<T>(s: seq<T>, u: seq<T>)
    requires Distinct(s) && Distinct(u)
    requires |s| == |u| && Elements(s) <= Elements(u)
    ensures Elements(s) == Elements(u)
  {
    DistinctSize(s);
    DistinctSize(u);
    if Elements(s) != Elements(u) {
      SubsetSize(Elements(s), Elements(u));
    }
  }

  // q without its first occurrence of v.
  function Without(q: seq<int>, v: int): seq<int> {
    if q == [] then [] else if q[0] == v then q[1..] else [q[0]] + Without(q[1..], v)
  }

  lemma {:induction false} WithoutFirst(q: seq<int>, j: nat)
    requires j < |q| && forall h :: 0 <= h < j ==> q[h] != q[j]
    ensures Without(q, q[j]) == q[..j] + q[j + 1..]
  {
    if j > 0 {
      assert q[1..][j - 1] == q[j];
      WithoutFirst(q[1..], j - 1);
      assert q[..j] == [q[0]] + q[1..][..j - 1];
    }
  }

  lemma WithoutAt(q: seq<int>, j: nat)
    requires Distinct(q) && j < |q|
    ensures Without(q, q[j]) == q[..j] + q[j + 1..]
  {
    WithoutFirst(q, j);
  }

  lemma WithoutIndex(q: seq<int>, j: nat)
    requires Distinct(q) && j < |q|
    ensures |Without(q, q[j])| == |q| - 1
    ensures forall a :: 0 <= a < |q| - 1 ==> Without(q, q[j])[a] == q[if a < j then a else a + 1]
  {
    WithoutAt(q, j);
  }

  lemma {:induction false} WithoutAbsent(q: seq<int>, v: int)
    requires v !in q
    ensures Without(q, v) == q
  {
    if q != [] {
      WithoutAbsent(q[1..], v);
    }
  }

  lemma {:induction false} WithoutKeepsRest(q: seq<int>, v: int)
    requires Distinct(q) && v in q
    ensures |Without(q, v)| == |q| - 1 && Distinct(Without(q, v))
    ensures Elements(Without(q, v)) == Elements(q) - {v}
  {
    if q[0] == v {
      assert Elements(q[1..]) == Elements(q) - {v};
    } else {
      WithoutKeepsRest(q[1..], v);
      assert Elements(q) == {q[0]} + Elements(q[1..]);
      var w := Without(q[1..], v);
      assert forall x :: x in w ==> x in Elements(w);
      assert Elements([q[0]] + w) == {q[0]} + Elements(w);
    }
  }
}
