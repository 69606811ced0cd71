// The simulator's circular queue of frame numbers.
module PageQueue {
  import opened Collections

  // x mod n, for an index at most one turn past the end of the ring.
  function Wrap(x: nat, n: nat): (r: nat)
    requires x < 2 * n
    ensures r == x % n
  {
    if x < n then x else x - n
  }

  // The size elements of a ring that start at front.
  ghost function Unroll(ring: seq<int>, front: nat, size: nat): (s: seq<int>)
    requires front < |ring| && size <= |ring|
    ensures |s| == size
    ensures forall j :: 0 <= j < size ==> s[j] == ring[Wrap(front + j, |ring|)]
  {
    seq(size, j requires 0 <= j < size => ring[Wrap(front + j, |ring|)])
  }

  lemma UnrollTail(ring: seq<int>, front: nat, size: nat)
    requires front < |ring| && 1 < size <= |ring|
    ensures Unroll(ring, Wrap(front + 1, |ring|), size - 1) == Unroll(ring, front, size)[1..]
  {
  }

  // s with the elements after p, up to and including j, moved one place down.
  ghost function Shifted(s: seq<int>, p: nat, j: nat): (r: seq<int>)
    requires p <= j < |s|
    ensures |r| == |s|
    ensures forall h :: 0 <= h < |s| ==> r[h] == if p <= h < j then s[h + 1] else s[h]
  {
    seq(|s|, h requires 0 <= h < |s| => if p <= h < j then s[h + 1] else s[h])
  }

  lemma ShiftOne(ring: seq<int>, front: nat, s: seq<int>, p: nat, j: nat)
    requires front < |ring| && |s| <= |ring| && p <= j < |s| - 1
    requires Unroll(ring, front, |s|) == Shifted(s, p, j)
    ensures Unroll(ring[Wrap(front + j, |ring|) := ring[Wrap(front + j + 1, |ring|)]], front, |s|)
            == Shifted(s, p, j + 1)
  {
    var ring' := ring[Wrap(front + j, |ring|) := ring[Wrap(front + j + 1, |ring|)]];
    var was := Unroll(ring, front, |s|);
    assert was[j + 1] == s[j + 1];
    forall h | 0 <= h < |s|
      ensures Unroll(ring', front, |s|)[h] == if h == j then was[j + 1] else was[h]
    {
    }
  }

  lemma UnrollDrops(ring: seq<int>, front: nat, size: nat, value: int)
    requires front < |ring| && 0 < size <= |ring|
    ensures Unroll(ring[Wrap(front + size - 1, |ring|) := value], front, size - 1)
            == Unroll(ring, front, size)[..size - 1]
  {
  }

  // Shifting the first occurrence of a value away, then dropping the last place,
  // removes exactly that occurrence.
  lemma ShiftedRemoves(s: seq<int>, p: nat)
    requires p < |s| && forall h :: 0 <= h < p ==> s[h] != s[p]
    ensures Shifted(s, p, |s| - 1)[..|s| - 1] == Without(s, s[p])
  {
    WithoutFirst(s, p);
    GapClosed(s, p);
  }

  lemma GapClosed(s: seq<int>, p: nat)
    requires p < |s|
    ensures Shifted(s, p, |s| - 1)[..|s| - 1] == s[..p] + s[p + 1..]
  {
  }

  // What removal does to a queue of a given capacity. The code takes meeting ends
  // to mean that nothing is left, so of a queue of two both elements go, and a
  // lone element leaves the ring looking full.
  ghost predicate Removes(capacity: nat, s: seq<int>, value: int, s': seq<int>)
    requires 0 < capacity
  {
    if value !in s then s' == s
    else if |s| >= 3 then s' == Without(s, value)
    else if |s| == 2 || capacity == 1 then s' == []
    else |s'| == capacity && s'[0] == -1
  }

  // Removal deletes exactly the first occurrence, and keeps the order of the
  // rest, if and only if the value is absent or three or more are queued (or the
  // ring has a single place).
  lemma RemovalExactIff(capacity: nat, s: seq<int>, value: int, s': seq<int>)
    requires |s| <= capacity && 0 < capacity && Removes(capacity, s, value, s')
    ensures s' == Without(s, value) <==> value !in s || |s| >= 3 || capacity == 1
  {
    if value !in s {
      WithoutAbsent(s, value);
    } else {
      var p := FirstIndex(s, value);
      WithoutFirst(s, p);
    }
  }

  ghost function FirstIndex(s: seq<int>, value: int): (p: nat)
    requires value in s
    ensures p < |s| && s[p] == value && forall h :: 0 <= h < p ==> s[h] != value
  {
    if s[0] == value then 0 else 1 + FirstIndex(s[1..], value)
  }

  class Queue {
    var items: array<int>
    var front: int
    var rear: int
    const maxSize: nat

    ghost predicate Valid()
      reads this
    {
      && items.Length == maxSize
      && 0 < maxSize
      && (front == -1 <==> rear == -1)
      && -1 <= front < maxSize
      && -1 <= rear < maxSize
    }

    ghost function Size(): nat
      requires Valid()
      reads this
    {
      if front == -1 then 0
      else if front <= rear then rear - front + 1
      else rear - front + 1 + maxSize
    }

    // Position in items of the j-th element.
    ghost function At(j: nat): (i: nat)
      requires Valid() && front != -1 && j < maxSize
      reads this
      ensures i < maxSize
    {
      Wrap(front + j, maxSize)
    }

    ghost function Contents(): (s: seq<int>)
      requires Valid()
      reads this, items
      ensures |s| == Size()
    {
      if front == -1 then [] else Unroll(items[..], front, Size())
    }

    constructor (capacity: nat)
      requires 0 < capacity
      ensures Valid() && Contents() == [] && maxSize == capacity
      ensures fresh(items)
    {
      items := new int[capacity];
      maxSize := capacity;
      front, rear := -1, -1;
    }

    method IsFull() returns (full: bool)
      requires Valid()
      ensures full <==> Size() == maxSize
    {
      full := Wrap(rear + 1, maxSize) == front;
    }

    method IsEmpty() returns (empty: bool)
      requires Valid()
      ensures empty <==> Contents() == []
    {
      empty := front == -1;
    }

    method Enqueue(value: int) returns (status: int)
      requires Valid()
      modifies this, items
      ensures Valid() && items == old(items)
      ensures old(Size()) == maxSize ==> status == -1 && Contents() == old(Contents()) && front == old(front)
      ensures old(Size()) < maxSize ==> status == 0 && Contents() == old(Contents()) + [value]
      ensures old(Size()) < maxSize ==> front == if old(front) == -1 then 0 else old(front)
    {
      var full := IsFull();
      if full {
        return -1;
      }
      if front == -1 {
        front := 0;
      }
      rear := Wrap(rear + 1, maxSize);
      items[rear] := value;
      status := 0;
    }

    // initializePageQueue once more: a new ring, empty.
    method Reset()
      requires 0 < maxSize
      modifies this
      ensures Valid() && fresh(items) && Contents() == []
    {
      items := new int[maxSize];
      front, rear := -1, -1;
    }

    method StepFront()
      requires Valid() && Size() > 1
      modifies this`front
      ensures Valid() && Contents() == old(Contents())[1..]
    {
      UnrollTail(items[..], front, Size());
      front := Wrap(front + 1, maxSize);
    }

    method Dequeue() returns (item: int)
      requires Valid()
      modifies this
      ensures Valid() && (if old(Size()) == 1 then fresh(items) else items == old(items))
      ensures old(Contents()) == [] ==> item == -1 && Contents() == []
      ensures old(Contents()) != [] ==> item == old(Contents())[0] && Contents() == old(Contents())[1..]
    {
      var empty := IsEmpty();
      if empty {
        return -1;
      }
      item := items[front];
      if front == rear {
        Reset();
      } else {
        StepFront();
      }
    }

    // Index into items, not into Contents, of the first occurrence of value.
    method FindPosition(value: int) returns (pos: int, ghost j: nat)
      requires Valid()
      ensures pos == -1 <==> value !in Contents()
      ensures pos != -1 ==> FirstAt(value, j) && pos == At(j)
    {
      j := 0;
      if front == -1 {
        return -1, j;
      }
      var i := front;
      while true
        invariant 0 <= j < Size() && i == At(j)
        invariant forall h :: 0 <= h < j ==> Contents()[h] != value
        decreases Size() - j
      {
        if items[i] == value {
          assert Contents()[j] == value;
          return i, j;
        }
        if i == rear {
          assert j == Size() - 1;
          return -1, j;
        }
        i := Wrap(i + 1, maxSize);
        j := j + 1;
      }
    }

    ghost predicate FirstAt(value: int, j: nat)
      requires Valid()
      reads this, items
    {
      && j < Size() && Contents()[j] == value
      && forall h :: 0 <= h < j ==> Contents()[h] != value
    }

    method CopyDown(i: nat, next: nat, ghost before: seq<int>, ghost p: nat, ghost j: nat)
      requires Valid() && |before| == Size() && p <= j < Size() - 1
      requires i == At(j) && next == At(j + 1) && Contents() == Shifted(before, p, j)
      modifies items
      ensures Contents() == Shifted(before, p, j + 1)
    {
      ghost var ring := items[..];
      items[i] := items[next];
      assert items[..] == ring[i := ring[next]];
      ShiftOne(ring, front, before, p, j);
    }

    method ShiftDown(pos: nat, ghost p: nat)
      requires Valid() && p < Size() && pos == At(p)
      modifies items
      ensures Contents() == Shifted(old(Contents()), p, Size() - 1)
    {
      ghost var before := Contents();
      var i := pos;
      ghost var j := p;
      while i != rear
        invariant p <= j < Size() && i == At(j)
        invariant Contents() == Shifted(before, p, j)
        decreases Size() - j
      {
        var next := Wrap(i + 1, maxSize);
        CopyDown(i, next, before, p, j);
        i := next;
        j := j + 1;
      }
    }

    method ShiftOut(pos: nat, ghost p: nat)
      requires Valid() && p < Size() && pos == At(p)
      modifies items
      ensures Unroll(items[..], front, Size() - 1) == Shifted(old(Contents()), p, Size() - 1)[..Size() - 1]
      ensures items[rear] == -1
    {
      ShiftDown(pos, p);
      ghost var ring := items[..];
      items[rear] := -1;
      assert items[..] == ring[rear := -1];
      UnrollDrops(ring, front, Size(), -1);
    }

    method CloseGap(value: int, pos: nat, ghost p: nat)
      requires Valid() && FirstAt(value, p) && pos == At(p)
      modifies items
      ensures Unroll(items[..], front, Size() - 1) == Without(old(Contents()), value)
      ensures items[rear] == -1
    {
      ShiftedRemoves(Contents(), p);
      ShiftOut(pos, p);
    }

    // Move rear back over the place that CloseGap has freed.
    method DropRear(ghost s: seq<int>, ghost value: int)
      requires Valid() && front != -1 && |s| == Size() && value in s && items[rear] == -1
      requires Unroll(items[..], front, Size() - 1) == Without(s, value)
      modifies this
      ensures Valid() && items == old(items) && Removes(maxSize, s, value, Contents())
      ensures |s| >= 3 ==> front == old(front)
    {
      rear := Wrap(rear - 1 + maxSize, maxSize);
      if rear == front {
        front, rear := -1, -1;
      }
    }

    method RemoveFrame(value: int)
      requires Valid()
      modifies this, items
      ensures Valid() && items == old(items)
      ensures Removes(maxSize, old(Contents()), value, Contents())
      ensures value !in old(Contents()) || old(Size()) >= 3 ==> front == old(front)
    {
      ghost var p;
      var pos;
      pos, p := FindPosition(value);
      if pos == -1 {
        return;
      }
      CloseGap(value, pos, p);
      DropRear(old(Contents()), value);
    }
  }
}
