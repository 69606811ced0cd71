// The page-replacement simulator: the four replacement functions on the frame
// table, the page table and the frame queue, and the loop that drives them.
module Simulator {
  import opened Collections
  import opened Paging
  import opened Replacement
  import opened Tables
  import PageQueue

  lemma PageInRange(address: int, pageSize: nat, totalPage: nat)
    requires 0 < pageSize && 0 <= address < totalPage * pageSize
    ensures 0 <= address / pageSize < totalPage
  {
    Monotone(totalPage, address / pageSize, pageSize);
  }

  lemma Monotone(a: nat, b: nat, k: nat)
    ensures a <= b ==> a * k <= b * k
  {
  }

  lemma AddressInMemory(f: nat, offset: nat, k: nat, pageSize: nat)
    requires f < k && offset < pageSize
    ensures 0 <= f * pageSize + offset < k * pageSize
  {
    Monotone(f + 1, k, pageSize);
    assert (f + 1) * pageSize == f * pageSize + pageSize;
  }

  ghost function Ahead(t: seq<int>, i: nat, page: int): int
    requires i <= |t|
  {
    if NextUse(t, i, page) == |t| then |t| else NextUse(t, i, page) - i
  }

  ghost function Count(s: seq<int>, x: int): nat {
    if s == [] then 0 else Count(s[..|s| - 1], x) + if s[|s| - 1] == x then 1 else 0
  }

  // v is the first in the queue among the frames below n whose distance is never.
  ghost predicate FirstUnused(distances: seq<int>, q: seq<int>, never: int, n: nat, v: int)
    requires n <= |distances|
  {
    && 0 <= v < n && distances[v] == never
    && forall a, b | 0 <= a < |q| && 0 <= b < |q| && 0 <= q[b] < n ::
         q[a] == v && distances[q[b]] == never ==> a <= b
  }

  lemma CountNext(s: seq<int>, i: nat, x: int)
    requires i < |s|
    ensures Count(s[..i + 1], x) == Count(s[..i], x) + if s[i] == x then 1 else 0
  {
    assert s[..i + 1][..i] == s[..i];
  }

  lemma {:induction false} CountSome(s: seq<int>, x: int)
    ensures Count(s, x) > 0 ==> x in s
    ensures Count(s, x) == 0 ==> x !in s
  {
    if s != [] {
      CountSome(s[..|s| - 1], x);
    }
  }

  lemma {:induction false} CountOne(s: seq<int>, x: int, a: nat, b: nat)
    requires Count(s, x) <= 1 && a < b < |s|
    ensures !(s[a] == x && s[b] == x)
  {
    var init := s[..|s| - 1];
    if b < |s| - 1 {
      CountOne(init, x, a, b);
    } else {
      CountSome(init, x);
      assert init[a] == s[a];
    }
  }

  // Distances order the frames as next uses do.
  lemma AheadOrder(t: seq<int>, i: nat, p: int, q: int)
    requires i < |t|
    ensures Ahead(t, i, p) <= Ahead(t, i, q) <==> NextUse(t, i, p) <= NextUse(t, i, q)
    ensures Ahead(t, i, p) == |t| <==> NextUse(t, i, p) == |t|
  {
  }

  // The branch the code takes on the number of pages that never appear again
  // always ends at the optimal victim.
  lemma ChosenVictim(t: seq<int>, i: nat, m: Memory, ahead: seq<int>, v: int)
    requires i < |t| && FrameQueue(m) && |ahead| == |m.frames|
    requires forall f :: 0 <= f < |ahead| ==> ahead[f] == Ahead(t, i, m.frames[f])
    requires if Count(ahead, |t|) > 1 then FirstUnused(ahead, m.queue, |t|, |ahead|, v)
             else 0 <= v < |ahead| && forall f :: 0 <= f < |ahead| ==> ahead[f] <= ahead[v]
    ensures OptimalVictim(t, i, m, v)
  {
    forall f | 0 <= f < |ahead| ensures NextUse(t, i, m.frames[f]) <= NextUse(t, i, m.frames[v]) {
      AheadOrder(t, i, m.frames[f], m.frames[v]);
    }
    if NextUse(t, i, m.frames[v]) == |t| {
      forall a, b | 0 <= a < |m.queue| && 0 <= b < |m.queue| && m.queue[a] == v
                    && NextUse(t, i, m.frames[m.queue[b]]) == |t|
        ensures a <= b
      {
        var w := m.queue[b];
        assert ahead[v] == |t| && ahead[w] == |t|;
        if Count(ahead, |t|) <= 1 && v != w {
          CountOne(ahead, |t|, if v < w then v else w, if v < w then w else v);
        }
      }
    }
  }

  // One line of the output file.
  datatype Row = Row(virtualAddress: int, pageNum: int, frameNum: int, physicalAddress: int, fault: bool)

  // The line is what serving the reference, from m to m', should print: the
  // frame holds the page, and the address keeps its offset within that frame and
  // lies in the k frames of physical memory.
  ghost predicate RowCorrect(row: Row, info: VirtualAddressInfo, k: nat, pageSize: nat, m: Memory, m': Memory)
    requires 0 < pageSize
  {
    && row.virtualAddress == info.virtualAddress && row.pageNum == info.pageNum
    && 0 <= row.frameNum < |m'.frames| && m'.frames[row.frameNum] == info.pageNum
    && row.physicalAddress == row.frameNum * pageSize + info.virtualAddress % pageSize
    && 0 <= row.physicalAddress < k * pageSize
    && (row.fault <==> info.pageNum !in m.frames)
  }

  ghost function FaultRows(rows: seq<Row>): nat {
    if rows == [] then 0 else FaultRows(rows[..|rows| - 1]) + if rows[|rows| - 1].fault then 1 else 0
  }

  lemma {:induction false} FaultRowsCount(t: seq<int>, ms: seq<Memory>, rows: seq<Row>, n: nat)
    requires n <= |t| == |rows| && |ms| == |t| + 1
    requires forall i :: 0 <= i < |t| ==> (rows[i].fault <==> t[i] !in ms[i].frames)
    ensures FaultRows(rows[..n]) == FaultCount(t, ms, n)
  {
    if n > 0 {
      FaultRowsCount(t, ms, rows, n - 1);
      assert rows[..n][..n - 1] == rows[..n - 1];
      assert t[n - 1] in ms[n - 1].frames <==> t[n - 1] in Resident(ms[n - 1]);
    }
  }

  // The memories and the output lines after |rows| references.
  ghost predicate History(alg: Algorithm, vs: seq<VirtualAddressInfo>, t: seq<int>, k: nat, pageSize: nat,
                          ms: seq<Memory>, rows: seq<Row>)
    requires 0 < pageSize && |rows| <= |vs| == |t|
  {
    && |ms| == |rows| + 1 && ms[0] == EMPTY
    && forall j :: 0 <= j < |rows| ==> Recorded(alg, vs, t, k, pageSize, ms[j], ms[j + 1], rows[j], j)
  }

  ghost predicate Recorded(alg: Algorithm, vs: seq<VirtualAddressInfo>, t: seq<int>, k: nat, pageSize: nat,
                           m: Memory, m': Memory, row: Row, j: nat)
    requires 0 < pageSize && j < |vs| == |t|
  {
    && Step(alg, t, k, j, m, m')
    && RowCorrect(row, vs[j], k, pageSize, m, m')
  }

  lemma HistoryGrows(alg: Algorithm, vs: seq<VirtualAddressInfo>, t: seq<int>, k: nat, pageSize: nat,
                     ms: seq<Memory>, rows: seq<Row>, m: Memory, row: Row)
    requires 0 < pageSize && |rows| < |vs| == |t| && History(alg, vs, t, k, pageSize, ms, rows)
    requires Recorded(alg, vs, t, k, pageSize, ms[|rows|], m, row, |rows|)
    ensures History(alg, vs, t, k, pageSize, ms + [m], rows + [row])
  {
    var ms', rows' := ms + [m], rows + [row];
    forall j | 0 <= j < |rows'| ensures Recorded(alg, vs, t, k, pageSize, ms'[j], ms'[j + 1], rows'[j], j) {
      if j < |rows| {
        assert Recorded(alg, vs, t, k, pageSize, ms[j], ms[j + 1], rows[j], j);
      }
    }
  }

  lemma FaultRowsGrow(rows: seq<Row>, row: Row)
    ensures FaultRows(rows + [row]) == FaultRows(rows) + if row.fault then 1 else 0
  {
    assert (rows + [row])[..|rows|] == rows;
  }

  lemma HistoryFaults(alg: Algorithm, vs: seq<VirtualAddressInfo>, t: seq<int>, k: nat, pageSize: nat,
                      ms: seq<Memory>, rows: seq<Row>)
    requires 0 < pageSize && |rows| == |vs| == |t| && History(alg, vs, t, k, pageSize, ms, rows)
    requires forall j :: 0 <= j < |t| ==> t[j] == vs[j].pageNum
    ensures Run(alg, t, k, ms) && FaultRows(rows) == FaultCount(t, ms, |t|)
    ensures forall j :: 0 <= j < |t| ==> RowCorrect(rows[j], vs[j], k, pageSize, ms[j], ms[j + 1])
  {
    forall j | 0 <= j < |t|
      ensures Step(alg, t, k, j, ms[j], ms[j + 1]) && RowCorrect(rows[j], vs[j], k, pageSize, ms[j], ms[j + 1])
      ensures rows[j].fault <==> t[j] !in ms[j].frames
    {
      assert Recorded(alg, vs, t, k, pageSize, ms[j], ms[j + 1], rows[j], j);
    }
    FaultRowsCount(t, ms, rows, |t|);
    assert rows[..|t|] == rows;
  }

  // History, and the counters kept along with it.
  ghost predicate Chronicle(alg: Algorithm, vs: seq<VirtualAddressInfo>, t: seq<int>, k: nat, pageSize: nat,
                            ms: seq<Memory>, rows: seq<Row>, pageFaults: nat, pageHits: nat)
  {
    && 0 < pageSize && |rows| <= |vs| == |t|
    && History(alg, vs, t, k, pageSize, ms, rows)
    && pageFaults == FaultRows(rows) && pageFaults + pageHits == |rows|
  }

  lemma ChronicleGrows(alg: Algorithm, vs: seq<VirtualAddressInfo>, t: seq<int>, k: nat, pageSize: nat,
                       ms: seq<Memory>, rows: seq<Row>, pageFaults: nat, pageHits: nat, m: Memory, row: Row)
    requires Chronicle(alg, vs, t, k, pageSize, ms, rows, pageFaults, pageHits) && |rows| < |t|
    requires Recorded(alg, vs, t, k, pageSize, ms[|rows|], m, row, |rows|)
    ensures Chronicle(alg, vs, t, k, pageSize, ms + [m], rows + [row],
                      if row.fault then pageFaults + 1 else pageFaults, if row.fault then pageHits else pageHits + 1)
  {
    HistoryGrows(alg, vs, t, k, pageSize, ms, rows, m, row);
    FaultRowsGrow(rows, row);
  }

  // Every loaded page has been referenced.
  ghost predicate Seen(t: seq<int>, n: nat, m: Memory)
    requires n <= |t|
  {
    forall f :: 0 <= f < |m.frames| ==> LastUse(t, n, m.frames[f]) > 0
  }

  lemma SeenStep(alg: Algorithm, t: seq<int>, k: nat, i: nat, m: Memory, m': Memory)
    requires i < |t| && Step(alg, t, k, i, m, m') && Seen(t, i, m)
    ensures Seen(t, i + 1, m')
  {
    StepServes(alg, t, k, i, m, m');
    forall f | 0 <= f < |m'.frames| ensures LastUse(t, i + 1, m'.frames[f]) > 0 {
      assert m'.frames[f] in Resident(m');
      if m'.frames[f] != t[i] {
        assert m'.frames[f] in Resident(m);
      }
    }
  }

  class Simulation {
    const totalFrame: nat
    const totalPage: nat
    const pageSize: nat
    const infos: array<VirtualAddressInfo>
    const pageTable: array<PageEntry>
    const frames: array<FrameEntry>
    const queue: PageQueue.Queue
    const alg: Algorithm

    // The abstract memory that the tables and the queue represent.
    ghost var mem: Memory

    // Allocation as main does it: nothing loaded, every address split into its
    // page number beforehand.
    constructor (algorithm: Algorithm, addresses: seq<int>, frameCount: nat, pageCount: nat, pageBytes: nat)
      requires 3 <= frameCount && 0 < pageBytes
      requires forall i :: 0 <= i < |addresses| ==> 0 <= addresses[i] < pageCount * pageBytes
      ensures Valid() && mem == EMPTY
      ensures alg == algorithm && totalFrame == frameCount && totalPage == pageCount && pageSize == pageBytes
      ensures infos.Length == |addresses|
      ensures forall i :: 0 <= i < |addresses| ==> infos[i].virtualAddress == addresses[i]
      ensures fresh(infos) && fresh(pageTable) && fresh(frames) && fresh(queue) && fresh(queue.items)
    {
      alg, totalFrame, totalPage, pageSize := algorithm, frameCount, pageCount, pageBytes;
      infos := new VirtualAddressInfo[|addresses|](i requires 0 <= i < |addresses| =>
        VirtualAddressInfo(addresses[i], addresses[i] / pageBytes));
      pageTable := new PageEntry[pageCount](_ => PageEntry(-1, -1, 0));
      frames := new FrameEntry[frameCount](_ => FrameEntry(false, -1, -1));
      queue := new PageQueue.Queue(frameCount);
      mem := EMPTY;
      new;
      forall i | 0 <= i < infos.Length ensures 0 <= infos[i].pageNum < totalPage {
        PageInRange(addresses[i], pageSize, totalPage);
      }
    }

    // The page-number column, which main fills in before the first reference.
    ghost function Trace(): (t: seq<int>)
      reads infos
      ensures |t| == infos.Length
      ensures forall i :: 0 <= i < |t| ==> t[i] == infos[i].pageNum
    {
      seq(infos.Length, i requires 0 <= i < infos.Length reads infos => infos[i].pageNum)
    }

    ghost predicate InfosValid()
      reads infos
    {
      && 0 < pageSize
      && forall i :: 0 <= i < infos.Length ==>
           && 0 <= infos[i].virtualAddress
           && infos[i].pageNum == infos[i].virtualAddress / pageSize
           && 0 <= infos[i].pageNum < totalPage
    }

    ghost predicate TablesValid()
      reads this, pageTable, frames
    {
      && pageTable.Length == totalPage
      && frames.Length == totalFrame
      && TableLinked(pageTable[..], mem.frames)
      && BitsLinked(pageTable[..], mem.marked)
      && FramesLinked(frames[..], |mem.frames|, pageSize)
    }

    ghost predicate QueueValid()
      reads this, queue, queue.items
    {
      && queue.Valid()
      && queue.maxSize == totalFrame
      && queue.Contents() == mem.queue
      && (alg.Optimal? && mem.queue != [] ==> queue.front == 0)
    }

    ghost predicate Valid()
      reads this, infos, pageTable, frames, queue, queue.items
    {
      && 3 <= totalFrame
      && InfosValid()
      && TablesValid()
      && QueueValid()
      && WellFormed(alg, totalFrame, mem)
    }

    // ---- Code shared by the four replacement functions ----

    // The page of the frame whose number is frameNum, as the hit scan looks it up:
    // the last matching entry wins.
    method LookUpPage(frameNum: int) returns (pageNum: int)
      requires TablesValid()
      ensures 0 <= frameNum < |mem.frames| ==> pageNum == mem.frames[frameNum]
      ensures frameNum == -1 ==> pageNum == -1
    {
      pageNum := -1;
      ghost var table := pageTable[..];
      for j := 0 to totalPage
        invariant 0 <= frameNum < |mem.frames| ==>
                    pageNum == if mem.frames[frameNum] < j then mem.frames[frameNum] else -1
        invariant frameNum == -1 ==> pageNum == -1
      {
        if pageTable[j].frameNum == frameNum {
          pageNum := pageTable[j].pageNum;
        }
      }
    }

    // The frame that holds the referenced page, or -1 on a fault.
    method FindHit(current: nat) returns (hit: int)
      requires InfosValid() && TablesValid() && current < infos.Length
      ensures hit == -1 <==> infos[current].pageNum !in mem.frames
      ensures hit != -1 ==> 0 <= hit < |mem.frames| && mem.frames[hit] == infos[current].pageNum
    {
      for i := 0 to totalFrame
        invariant forall f :: 0 <= f < i && f < |mem.frames| ==> mem.frames[f] != infos[current].pageNum
      {
        var pageNumFromFrame := LookUpPage(frames[i].frameNum);
        if frames[i].isOccupied && infos[current].pageNum == pageNumFromFrame {
          return i;
        }
      }
      return -1;
    }

    // The first frame not yet occupied, or -1 when memory is full.
    method FindFree() returns (free: int)
      requires TablesValid()
      ensures free == if |mem.frames| < totalFrame then |mem.frames| else -1
    {
      for i := 0 to totalFrame
        invariant i <= |mem.frames|
      {
        if !frames[i].isOccupied {
          return i;
        }
      }
      return -1;
    }

    // The address that frame f gives the referenced location.
    ghost function Physical(f: int, current: nat): int
      requires 0 < pageSize && current < infos.Length
      reads infos
    {
      f * pageSize + infos[current].virtualAddress % pageSize
    }

    // What a reference leaves behind: its page resident at its own address.
    ghost predicate Served(current: nat)
      requires 0 < pageSize && current < infos.Length && frames.Length == totalFrame
      reads this, infos, frames
    {
      && |mem.frames| <= totalFrame
      && exists f :: 0 <= f < |mem.frames| && mem.frames[f] == infos[current].pageNum
                     && frames[f].physicalAddress == Physical(f, current)
    }

    // Record that frame f is in use and where the referenced location lies in it.
    method Occupy(f: nat, current: nat)
      requires InfosValid() && current < infos.Length && frames.Length == totalFrame
      requires FramesLinked(frames[..], if f < |mem.frames| then |mem.frames| else f, pageSize)
      requires f < totalFrame && f <= |mem.frames|
      modifies frames
      ensures FramesLinked(frames[..], if f < |mem.frames| then |mem.frames| else f + 1, pageSize)
      ensures frames[f].physicalAddress == Physical(f, current)
    {
      var offset := infos[current].virtualAddress % pageSize;
      frames[f] := FrameEntry(true, f, f * pageSize + offset);
    }

    method Install(page: nat, f: nat)
      requires page < pageTable.Length
      modifies pageTable
      ensures pageTable[..] == Installed(old(pageTable[..]), page, f)
    {
      pageTable[page] := pageTable[page].(pageNum := page);
      pageTable[page] := pageTable[page].(frameNum := f);
    }

    method SetBit(page: nat, bit: int)
      requires page < pageTable.Length && (bit == 0 || bit == 1)
      requires TableLinked(pageTable[..], mem.frames) && BitsLinked(pageTable[..], mem.marked)
      modifies pageTable
      ensures TableLinked(pageTable[..], mem.frames)
      ensures BitsLinked(pageTable[..], if bit == 1 then mem.marked + {page} else mem.marked - {page})
    {
      pageTable[page] := pageTable[page].(referenceBit := bit);
    }

    method Hit(hit: nat, current: nat)
      requires Valid() && current < infos.Length
      requires hit < |mem.frames| && mem.frames[hit] == infos[current].pageNum
      modifies this`mem, pageTable, frames
      ensures Valid() && Step(alg, Trace(), totalFrame, current, old(mem), mem) && Served(current)
    {
      Occupy(hit, current);
      if alg.SecondChance? {
        SetBit(infos[current].pageNum, 1);
        mem := mem.(marked := mem.marked + {infos[current].pageNum});
      }
    }

    method LoadTables(free: nat, current: nat)
      requires Valid() && current < infos.Length
      requires infos[current].pageNum !in mem.frames && free == |mem.frames| < totalFrame
      modifies this`mem, pageTable, frames
      ensures TablesValid() && Served(current) && pageTable[infos[current].pageNum].frameNum == free
      ensures mem == Memory(old(mem).frames + [infos[current].pageNum], old(mem).queue,
                            old(mem).marked - {infos[current].pageNum})
    {
      var pageNum := infos[current].virtualAddress / pageSize;
      LoadLinks(pageTable[..], mem.frames, pageNum);
      Install(pageNum, free);
      Occupy(free, current);
      mem := mem.(frames := mem.frames + [pageNum]);
      if alg.SecondChance? {
        SetBit(pageNum, 0);
      }
      mem := mem.(marked := mem.marked - {pageNum});
    }

    method LoadFree(free: nat, current: nat)
      requires Valid() && current < infos.Length
      requires infos[current].pageNum !in mem.frames && free == |mem.frames| < totalFrame
      modifies this`mem, pageTable, frames, queue, queue.items
      ensures queue.items == old(queue.items)
      ensures Valid() && mem == Load(alg, old(mem), infos[current].pageNum) && Served(current)
    {
      LoadKeeps(alg, totalFrame, mem, infos[current].pageNum);
      LoadTables(free, current);
      if !alg.Lru? {
        var status := queue.Enqueue(frames[pageTable[infos[current].pageNum].frameNum].frameNum);
        mem := mem.(queue := mem.queue + [free]);
      }
    }

    // The part of the replacement functions that is the same in all four: a hit
    // returns 1, a fault that finds a free frame returns 0, and a fault on a full
    // memory is left to the algorithm.
    method HitOrLoad(current: nat) returns (result: int)
      requires Valid() && current < infos.Length
      modifies this`mem, pageTable, frames, queue, queue.items
      ensures Valid()
      ensures result == if infos[current].pageNum in old(mem).frames then 1
                        else if |old(mem).frames| < totalFrame then 0 else -1
      ensures result != -1 ==> Step(alg, Trace(), totalFrame, current, old(mem), mem) && Served(current)
      ensures result == -1 ==> mem == old(mem)
      ensures queue.items == old(queue.items)
    {
      var hit := FindHit(current);
      if hit != -1 {
        Hit(hit, current);
        return 1;
      }
      var free := FindFree();
      if free != -1 {
        LoadFree(free, current);
        return 0;
      }
      return -1;
    }

    // Reset every entry that names frame v on behalf of a page other than page.
    method ClearOthers(v: int, page: int)
      modifies pageTable
      ensures pageTable[..] == Cleared(old(pageTable[..]), v, page)
    {
      for i := 0 to pageTable.Length
        invariant forall j :: 0 <= j < i ==> pageTable[j] == ClearEntry(old(pageTable[j]), v, page)
        invariant forall j :: i <= j < pageTable.Length ==> pageTable[j] == old(pageTable[j])
      {
        if v == pageTable[i].frameNum && page != pageTable[i].pageNum {
          pageTable[i] := pageTable[i].(frameNum := -1);
          pageTable[i] := pageTable[i].(pageNum := -1);
        }
      }
    }

    // Give frame v to the referenced page and clear the entry of the page it held.
    method ReplaceThenClear(v: nat, current: nat)
      requires Valid() && current < infos.Length && !alg.SecondChance?
      requires infos[current].pageNum !in mem.frames && v < |mem.frames|
      modifies this`mem, pageTable, frames
      ensures TablesValid() && mem == old(mem).(frames := old(mem).frames[v := infos[current].pageNum])
      ensures Served(current)
    {
      var pageNum := infos[current].virtualAddress / pageSize;
      EvictLinks(pageTable[..], mem.frames, v, pageNum);
      ClearKeepsBits(Installed(pageTable[..], pageNum, v), mem.marked, v, pageNum);
      Install(pageNum, v);
      Occupy(v, current);
      ClearOthers(frames[v].frameNum, pageNum);
      mem := mem.(frames := mem.frames[v := pageNum]);
    }

    // The first of the largest distances.
    method FirstMaximum(distances: array<int>) returns (v: nat)
      requires 0 < distances.Length && forall f :: 0 <= f < distances.Length ==> distances[f] >= 0
      ensures v < distances.Length
      ensures forall f :: 0 <= f < distances.Length ==> distances[f] <= distances[v]
      ensures forall f :: 0 <= f < v ==> distances[f] < distances[v]
    {
      var maxDistance := -1;
      v := 0;
      for i := 0 to distances.Length
        invariant if i == 0 then v == 0 && maxDistance == -1 else v < i && maxDistance == distances[v]
        invariant forall f :: 0 <= f < i ==> distances[f] <= distances[v]
        invariant forall f :: 0 <= f < v ==> distances[f] < distances[v]
      {
        if maxDistance < distances[i] {
          maxDistance := distances[i];
          v := i;
        }
      }
    }

    // ---- LRU ----

    // The page of frame f, as the distance scan looks it up: first match.
    method PageOfFrame(f: nat) returns (page: int)
      requires TablesValid() && f < |mem.frames|
      ensures page == mem.frames[f]
    {
      page := 0;
      for j := 0 to totalPage
        invariant mem.frames[f] >= j
      {
        if frames[f].frameNum == pageTable[j].frameNum {
          return pageTable[j].pageNum;
        }
      }
      assert false;
    }

    // How many references ago the page was last used. The test for the last index
    // of the trace never decides: every loaded page has been used before.
    method DistanceBack(page: int, current: nat) returns (distance: int)
      requires InfosValid() && current < infos.Length && infos[current].pageNum != page
      requires LastUse(Trace(), current, page) > 0
      ensures distance == current - LastUse(Trace(), current, page) + 1
    {
      distance := 0;
      var j := current;
      while -1 < j
        invariant 0 <= LastUse(Trace(), current, page) - 1 <= j <= current
      {
        if infos[j].pageNum == page {
          return current - j;
        } else if j == infos.Length - 1 {
          distance := infos.Length;
        }
        j := j - 1;
      }
      assert false;
    }

    // Pages in memory have been referenced before.
    ghost predicate UsedBefore(current: nat)
      requires current <= infos.Length
      reads this, infos
    {
      Seen(Trace(), current, mem)
    }

    // For each frame, when its page was last used.
    ghost function LastUses(current: nat): (last: seq<nat>)
      requires current <= infos.Length
      reads this, infos
      ensures |last| == |mem.frames|
      ensures forall f :: 0 <= f < |last| ==> last[f] == LastUse(Trace(), current, mem.frames[f])
    {
      seq(|mem.frames|, f requires 0 <= f < |mem.frames| reads this, infos
        => LastUse(Trace(), current, mem.frames[f]))
    }

    method FrameDistanceBack(f: nat, current: nat) returns (distance: int)
      requires InfosValid() && TablesValid() && current < infos.Length && UsedBefore(current)
      requires infos[current].pageNum !in mem.frames && f < |mem.frames|
      ensures distance == current - LastUses(current)[f] + 1
    {
      var page := PageOfFrame(f);
      assert page in mem.frames;
      distance := DistanceBack(page, current);
    }

    method RecordBack(distances: array<int>, f: nat, current: nat, ghost last: seq<nat>)
      requires InfosValid() && TablesValid() && current < infos.Length && UsedBefore(current)
      requires infos[current].pageNum !in mem.frames && f < |mem.frames| == distances.Length
      requires last == LastUses(current)
      modifies distances
      ensures distances[..] == old(distances[..])[f := current - last[f] + 1]
    {
      distances[f] := FrameDistanceBack(f, current);
    }

    method DistancesBack(current: nat) returns (distances: array<int>)
      requires Valid() && current < infos.Length && UsedBefore(current)
      requires infos[current].pageNum !in mem.frames && |mem.frames| == totalFrame
      ensures fresh(distances) && distances.Length == totalFrame
      ensures forall f :: 0 <= f < totalFrame ==> distances[f] == current - LastUses(current)[f] + 1
    {
      distances := new int[totalFrame];
      ghost var last := LastUses(current);
      for i := 0 to totalFrame
        invariant LastUses(current) == last
        invariant forall f :: 0 <= f < i ==> distances[..][f] == current - last[f] + 1
      {
        RecordBack(distances, i, current, last);
      }
    }

    method LeastRecentlyUsed(current: nat) returns (v: nat)
      requires Valid() && current < infos.Length && UsedBefore(current)
      requires infos[current].pageNum !in mem.frames && |mem.frames| == totalFrame
      ensures LruVictim(Trace(), current, mem, v)
    {
      var distances := DistancesBack(current);
      v := FirstMaximum(distances);
      ghost var last := LastUses(current);
      assert forall f :: 0 <= f < totalFrame ==> distances[f] == current - last[f] + 1;
    }

    method EvictLru(current: nat)
      requires Valid() && current < infos.Length && alg.Lru? && UsedBefore(current)
      requires infos[current].pageNum !in mem.frames && |mem.frames| == totalFrame
      modifies this`mem, pageTable, frames
      ensures Valid() && Step(alg, Trace(), totalFrame, current, old(mem), mem) && Served(current)
    {
      var v := LeastRecentlyUsed(current);
      ReplaceResident(mem.frames, v, infos[current].pageNum);
      ReplaceThenClear(v, current);
    }

    method ReplaceLru(current: nat) returns (result: int)
      requires Valid() && current < infos.Length && alg.Lru? && UsedBefore(current)
      modifies this`mem, pageTable, frames, queue, queue.items
      ensures queue.items == old(queue.items)
      ensures result == if infos[current].pageNum in old(mem).frames then 1 else 0
      ensures Valid() && Step(alg, Trace(), totalFrame, current, old(mem), mem) && Served(current)
    {
      result := HitOrLoad(current);
      if result == -1 {
        EvictLru(current);
        result := 0;
      }
    }

    // ---- FIFO ----

    // Reset the entries naming frame v, reached through the page number they hold.
    method ClearByPage(v: int, page: int)
      requires TablesValid() && 0 <= v
      modifies pageTable
      ensures pageTable[..] == Cleared(old(pageTable[..]), v, page)
    {
      ghost var table := pageTable[..];
      for j := 0 to totalPage
        invariant forall h :: 0 <= h < j ==> pageTable[h] == ClearEntry(table[h], v, page)
        invariant forall h :: j <= h < totalPage ==> pageTable[h] == table[h]
      {
        if v == pageTable[j].frameNum && pageTable[j].pageNum != page {
          assert pageTable[j] == table[j];
          var victimPage := pageTable[j].pageNum;
          pageTable[victimPage] := pageTable[victimPage].(frameNum := -1);
          pageTable[victimPage] := pageTable[victimPage].(pageNum := -1);
        }
      }
    }

    // Clear the entry of the page in frame v, then give the frame to the
    // referenced page.
    method ClearThenReplace(v: nat, current: nat)
      requires InfosValid() && TablesValid() && WellFormed(alg, totalFrame, mem)
      requires current < infos.Length && alg.Fifo?
      requires infos[current].pageNum !in mem.frames && v < |mem.frames|
      modifies this`mem, pageTable, frames
      ensures TablesValid() && mem == old(mem).(frames := old(mem).frames[v := infos[current].pageNum])
      ensures Served(current)
    {
      var pageNum := infos[current].virtualAddress / pageSize;
      ghost var table := pageTable[..];
      EvictLinks(table, mem.frames, v, pageNum);
      ClearKeepsBits(table, mem.marked, v, pageNum);
      ClearByPage(v, pageNum);
      Install(pageNum, v);
      Occupy(v, current);
      mem := mem.(frames := mem.frames[v := pageNum]);
    }

    // Give the frame at the front of the queue to the referenced page, and queue it
    // again.
    method SwapFront(current: nat)
      requires Valid() && current < infos.Length && alg.Fifo?
      requires infos[current].pageNum !in mem.frames && |mem.frames| == totalFrame
      modifies this`mem, pageTable, frames, queue, queue.items
      ensures TablesValid() && QueueValid() && Served(current)
      ensures mem == Memory(old(mem).frames[old(mem).queue[0] := infos[current].pageNum],
                            Rotate(old(mem).queue), old(mem).marked)
      ensures queue.items == old(queue.items)
    {
      var victim := queue.Dequeue();
      ClearThenReplace(victim, current);
      var status := queue.Enqueue(victim);
      mem := mem.(queue := Rotate(mem.queue));
    }

    method EvictFifo(current: nat)
      requires Valid() && current < infos.Length && alg.Fifo?
      requires infos[current].pageNum !in mem.frames && |mem.frames| == totalFrame
      modifies this`mem, pageTable, frames, queue, queue.items
      ensures Valid() && Step(alg, Trace(), totalFrame, current, old(mem), mem) && Served(current)
      ensures queue.items == old(queue.items)
    {
      ghost var page, m := infos[current].pageNum, mem;
      ghost var m' := Memory(m.frames[m.queue[0] := page], Rotate(m.queue), m.marked);
      assert WellFormed(alg, totalFrame, m') by {
        var v := EvictExchanges(alg, Trace(), totalFrame, current, m, m');
      }
      SwapFront(current);
    }

    method ReplaceFifo(current: nat) returns (result: int)
      requires Valid() && current < infos.Length && alg.Fifo?
      modifies this`mem, pageTable, frames, queue, queue.items
      ensures result == if infos[current].pageNum in old(mem).frames then 1 else 0
      ensures Valid() && Step(alg, Trace(), totalFrame, current, old(mem), mem) && Served(current)
      ensures queue.items == old(queue.items)
    {
      result := HitOrLoad(current);
      if result == -1 {
        EvictFifo(current);
        result := 0;
      }
    }

    // ---- Optimal ----

    // References from now until the page is used again, or the trace length if it
    // is not.
    method DistanceAhead(page: int, current: nat) returns (distance: int)
      requires current < infos.Length
      ensures distance == Ahead(Trace(), current, page)
    {
      distance := 0;
      ghost var t := Trace();
      for j := current to infos.Length
        invariant forall h :: current <= h < j ==> t[h] != page
        invariant j == infos.Length ==> distance == infos.Length
      {
        if infos[j].pageNum == page {
          return j - current;
        } else if j == infos.Length - 1 {
          distance := infos.Length;
        }
      }
    }

    // For each frame, the distance to the next use of its page.
    ghost function Aheads(current: nat): (ahead: seq<int>)
      requires current <= infos.Length
      reads this, infos
      ensures |ahead| == |mem.frames|
      ensures forall f :: 0 <= f < |ahead| ==> ahead[f] == Ahead(Trace(), current, mem.frames[f])
    {
      seq(|mem.frames|, f requires 0 <= f < |mem.frames| reads this, infos
        => Ahead(Trace(), current, mem.frames[f]))
    }

    method FrameDistanceAhead(f: nat, current: nat) returns (distance: int)
      requires InfosValid() && TablesValid() && current < infos.Length && f < |mem.frames|
      ensures distance == Aheads(current)[f]
    {
      var page := PageOfFrame(f);
      distance := DistanceAhead(page, current);
    }

    method RecordAhead(distances: array<int>, f: nat, current: nat, ghost ahead: seq<int>)
      requires InfosValid() && TablesValid() && current < infos.Length && f < |mem.frames| == distances.Length
      requires ahead == Aheads(current)
      modifies distances
      ensures distances[..] == old(distances[..])[f := ahead[f]]
    {
      distances[f] := FrameDistanceAhead(f, current);
    }

    method DistancesAhead(current: nat) returns (distances: array<int>, notAppear: nat)
      requires InfosValid() && TablesValid() && current < infos.Length && |mem.frames| == totalFrame
      ensures fresh(distances) && distances[..] == Aheads(current)
      ensures notAppear == Count(distances[..], infos.Length)
    {
      distances := new int[totalFrame];
      notAppear := 0;
      ghost var ahead := Aheads(current);
      for i := 0 to totalFrame
        invariant Aheads(current) == ahead
        invariant forall f :: 0 <= f < i ==> distances[..][f] == ahead[f]
        invariant notAppear == Count(ahead[..i], infos.Length)
      {
        RecordAhead(distances, i, current, ahead);
        CountNext(ahead, i, infos.Length);
        assert distances[i] == ahead[i];
        if distances[i] == infos.Length {
          notAppear := notAppear + 1;
        }
      }
      assert ahead[..totalFrame] == ahead == distances[..];
    }

    // Of the frames whose pages never appear again, the one queued first. The code
    // compares raw ring positions, which is right because front is 0.
    method FirstOut(distances: array<int>) returns (firstOut: int)
      requires Valid() && alg.Optimal? && |mem.frames| == totalFrame == distances.Length
      requires infos.Length in distances[..]
      ensures FirstUnused(distances[..], mem.queue, infos.Length, totalFrame, firstOut)
    {
      firstOut := -1;
      var firstOutPos := -1;
      for k := 0 to totalFrame
        invariant firstOutPos == -1 ==> forall f :: 0 <= f < k ==> distances[f] != infos.Length
        invariant firstOutPos != -1 ==> 0 <= firstOutPos < |mem.queue| && mem.queue[firstOutPos] == firstOut
        invariant firstOutPos != -1 ==> FirstUnused(distances[..], mem.queue, infos.Length, k, firstOut)
      {
        if distances[k] == infos.Length {
          var pos, j := queue.FindPosition(k);
          QueueHolds(mem, k);
          assert pos == j;
          if pos != -1 {
            if firstOutPos == -1 {
              firstOutPos := pos;
              firstOut := k;
            }
            if pos < firstOutPos {
              firstOutPos := pos;
              firstOut := k;
            }
          }
        }
      }
    }

    method ChooseOptimal(current: nat) returns (v: int)
      requires Valid() && current < infos.Length && alg.Optimal? && |mem.frames| == totalFrame
      ensures OptimalVictim(Trace(), current, mem, v)
    {
      var distances, notAppear := DistancesAhead(current);
      ghost var ahead := distances[..];
      assert forall f :: 0 <= f < totalFrame ==> distances[f] == ahead[f];
      v := FirstMaximum(distances);
      if notAppear > 1 {
        assert infos.Length in ahead by { CountSome(ahead, infos.Length); }
        v := FirstOut(distances);
      }
      assert OptimalVictim(Trace(), current, mem, v) by {
        ChosenVictim(Trace(), current, mem, ahead, v);
      }
    }

    // Take frame v out of the queue and put it back at the rear; front stays put.
    method Requeue(v: int)
      requires queue.Valid() && queue.maxSize == totalFrame && 3 <= totalFrame && |mem.frames| == totalFrame
      requires FrameQueue(mem) && queue.Contents() == mem.queue && 0 <= v < totalFrame && queue.front == 0
      modifies queue, queue.items
      ensures queue.Valid() && queue.items == old(queue.items) && queue.front == 0
      ensures queue.Contents() == Without(mem.queue, v) + [v]
    {
      QueueHolds(mem, v);
      WithoutKeepsRest(mem.queue, v);
      queue.RemoveFrame(v);
      var status := queue.Enqueue(v);
    }

    method SwapChosen(v: nat, current: nat)
      requires Valid() && current < infos.Length && alg.Optimal? && v < totalFrame
      requires infos[current].pageNum !in mem.frames && |mem.frames| == totalFrame
      modifies this`mem, pageTable, frames, queue, queue.items
      ensures TablesValid() && QueueValid() && Served(current)
      ensures mem == Memory(old(mem).frames[v := infos[current].pageNum],
                            Without(old(mem).queue, v) + [v], old(mem).marked)
      ensures queue.items == old(queue.items)
    {
      ReplaceThenClear(v, current);
      Requeue(v);
      mem := mem.(queue := Without(mem.queue, v) + [v]);
    }

    method EvictOptimal(current: nat)
      requires Valid() && current < infos.Length && alg.Optimal?
      requires infos[current].pageNum !in mem.frames && |mem.frames| == totalFrame
      modifies this`mem, pageTable, frames, queue, queue.items
      ensures Valid() && Step(alg, Trace(), totalFrame, current, old(mem), mem) && Served(current)
      ensures queue.items == old(queue.items)
    {
      var v := ChooseOptimal(current);
      ghost var page, m := infos[current].pageNum, mem;
      ghost var m' := Memory(m.frames[v := page], Without(m.queue, v) + [v], m.marked);
      assert Evict(alg, Trace(), current, m, m');
      assert WellFormed(alg, totalFrame, m') by {
        var w := EvictExchanges(alg, Trace(), totalFrame, current, m, m');
      }
      SwapChosen(v, current);
    }

    method ReplaceOptimal(current: nat) returns (result: int)
      requires Valid() && current < infos.Length && alg.Optimal?
      modifies this`mem, pageTable, frames, queue, queue.items
      ensures result == if infos[current].pageNum in old(mem).frames then 1 else 0
      ensures Valid() && Step(alg, Trace(), totalFrame, current, old(mem), mem) && Served(current)
      ensures queue.items == old(queue.items)
    {
      result := HitOrLoad(current);
      if result == -1 {
        EvictOptimal(current);
        result := 0;
      }
    }

    // ---- Second-Chance ----

    // Between dequeueing a candidate and settling on it, the candidate is the
    // front of the abstract queue and the ring holds the rest.
    ghost predicate Holding(victim: int)
      reads this, pageTable, frames, queue, queue.items
    {
      && TablesValid() && FrameQueue(mem) && Distinct(mem.frames)
      && queue.Valid() && queue.maxSize == totalFrame == |mem.frames|
      && mem.queue != [] && victim == mem.queue[0] && queue.Contents() == mem.queue[1..]
    }

    // Give the candidate its second chance and take the next one.
    method PassOver(victim: int, victimPage: nat) returns (next: int)
      requires Holding(victim) && 3 <= totalFrame
      requires victimPage == mem.frames[victim] && victimPage in mem.marked
      modifies this`mem, pageTable, queue, queue.items
      ensures Holding(next) && queue.items == old(queue.items)
      ensures Scan(mem) == Scan(old(mem)) && mem.marked < old(mem).marked
    {
      ghost var m := mem;
      ghost var m' := Memory(m.frames, Rotate(m.queue), m.marked - {victimPage});
      RotateKeepsQueue(m, m');
      SetBit(victimPage, 0);
      var status := queue.Enqueue(victim);
      next := queue.Dequeue();
      mem := m';
    }

    method TakeFirst() returns (victim: int)
      requires Valid() && alg.SecondChance? && |mem.frames| == totalFrame
      modifies queue
      ensures Holding(victim) && queue.items == old(queue.items)
    {
      victim := queue.Dequeue();
    }

    method FindVictim() returns (victim: int)
      requires Valid() && alg.SecondChance? && |mem.frames| == totalFrame
      modifies this`mem, pageTable, queue, queue.items
      ensures Holding(victim) && mem == Scan(old(mem))
      ensures queue.items == old(queue.items)
    {
      victim := TakeFirst();
      var j := 0;
      while j < totalPage
        invariant Holding(victim) && 0 <= j <= mem.frames[victim]
        invariant queue.items == old(queue.items)
        invariant Scan(mem) == Scan(old(mem))
        decreases mem.marked, totalPage - j
      {
        if victim == pageTable[j].frameNum {
          var victimPage := pageTable[j].pageNum;
          if pageTable[victimPage].referenceBit == 1 {
            victim := PassOver(victim, victimPage);
            j := -1;
          } else {
            return;
          }
        }
        j := j + 1;
      }
      assert false;
    }

    method ReplaceMarked(v: nat, current: nat)
      requires InfosValid() && TablesValid() && Distinct(mem.frames)
      requires current < infos.Length
      requires infos[current].pageNum !in mem.frames && v < |mem.frames| == totalFrame
      modifies this`mem, pageTable, frames
      ensures TablesValid() && Served(current)
      ensures mem == Memory(old(mem).frames[v := infos[current].pageNum], old(mem).queue,
                            old(mem).marked - {infos[current].pageNum})
    {
      var pageNum := infos[current].virtualAddress / pageSize;
      ghost var table := pageTable[..];
      EvictLinks(table, mem.frames, v, pageNum);
      ClearKeepsBits(table, mem.marked, v, pageNum);
      ClearOthers(v, pageNum);
      Install(pageNum, v);
      mem := mem.(frames := mem.frames[v := pageNum]);
      SetBit(pageNum, 0);
      mem := mem.(marked := mem.marked - {pageNum});
      Occupy(v, current);
    }

    // Give the candidate's frame to the referenced page, and queue it again.
    method SwapHeld(victim: int, current: nat)
      requires Holding(victim) && InfosValid() && 3 <= totalFrame && current < infos.Length && alg.SecondChance?
      requires infos[current].pageNum !in mem.frames
      modifies this`mem, pageTable, frames, queue, queue.items
      ensures TablesValid() && QueueValid() && Served(current)
      ensures mem == Memory(old(mem).frames[victim := infos[current].pageNum], Rotate(old(mem).queue),
                            old(mem).marked - {infos[current].pageNum})
      ensures queue.items == old(queue.items)
    {
      ReplaceMarked(victim, current);
      var status := queue.Enqueue(victim);
      mem := mem.(queue := Rotate(mem.queue));
    }

    method EvictSecondChance(current: nat)
      requires Valid() && current < infos.Length && alg.SecondChance?
      requires infos[current].pageNum !in mem.frames && |mem.frames| == totalFrame
      modifies this`mem, pageTable, frames, queue, queue.items
      ensures Valid() && Step(alg, Trace(), totalFrame, current, old(mem), mem) && Served(current)
      ensures queue.items == old(queue.items)
    {
      ghost var page, s := infos[current].pageNum, Scan(mem);
      ScanKeeps(mem);
      ghost var m' := Memory(s.frames[s.queue[0] := page], Rotate(s.queue), s.marked - {page});
      assert WellFormed(alg, totalFrame, m') by {
        var v := EvictExchanges(alg, Trace(), totalFrame, current, mem, m');
      }
      var victim := FindVictim();
      SwapHeld(victim, current);
    }

    method ReplaceSecondChance(current: nat) returns (result: int)
      requires Valid() && current < infos.Length && alg.SecondChance?
      modifies this`mem, pageTable, frames, queue, queue.items
      ensures result == if infos[current].pageNum in old(mem).frames then 1 else 0
      ensures Valid() && Step(alg, Trace(), totalFrame, current, old(mem), mem) && Served(current)
      ensures queue.items == old(queue.items)
    {
      result := HitOrLoad(current);
      if result == -1 {
        EvictSecondChance(current);
        result := 0;
      }
    }

    // ---- Address translation ----

    // The frame number printed for an address: first matching page entry.
    method FrameNumber(current: nat) returns (f: int)
      requires Valid() && current < infos.Length && infos[current].pageNum in mem.frames
      ensures 0 <= f < |mem.frames| && mem.frames[f] == infos[current].pageNum
    {
      var page := infos[current].virtualAddress / pageSize;
      for i := 0 to totalPage
        invariant i <= page
      {
        if pageTable[i].pageNum == page {
          return pageTable[i].frameNum;
        }
      }
      assert false;
    }

    // The physical address printed for an address: last matching page entry, then
    // the first frame with its number.
    method PhysicalAddress(current: nat) returns (address: int)
      requires Valid() && current < infos.Length && Served(current)
      ensures exists f :: 0 <= f < totalFrame && f < |mem.frames| && mem.frames[f] == infos[current].pageNum
                          && address == Physical(f, current)
    {
      var page := infos[current].virtualAddress / pageSize;
      var matched := -1;
      for i := 0 to totalPage
        invariant matched == if page < i then page else -1
      {
        if pageTable[i].pageNum == page {
          matched := i;
        }
      }
      ghost var f :| 0 <= f < |mem.frames| && mem.frames[f] == page
                     && frames[f].physicalAddress == Physical(f, current);
      for i := 0 to totalFrame
        invariant i <= f
      {
        if pageTable[matched].frameNum == frames[i].frameNum {
          return frames[i].physicalAddress;
        }
      }
      assert false;
    }

    // ---- The driving loop ----

    method Reference(i: nat) returns (result: int)
      requires Valid() && i < infos.Length && UsedBefore(i)
      modifies this`mem, pageTable, frames, queue, queue.items
      ensures result == if infos[i].pageNum in old(mem).frames then 1 else 0
      ensures Valid() && Step(alg, Trace(), totalFrame, i, old(mem), mem) && Served(i)
      ensures queue.items == old(queue.items)
    {
      match alg {
        case Optimal => result := ReplaceOptimal(i);
        case Fifo => result := ReplaceFifo(i);
        case Lru => result := ReplaceLru(i);
        case SecondChance => result := ReplaceSecondChance(i);
      }
    }

    method Report(i: nat, fault: bool) returns (row: Row)
      requires Valid() && i < infos.Length && Served(i)
      ensures row.virtualAddress == infos[i].virtualAddress && row.pageNum == infos[i].pageNum
      ensures 0 <= row.frameNum < |mem.frames| && mem.frames[row.frameNum] == infos[i].pageNum
      ensures row.physicalAddress == Physical(row.frameNum, i) && row.fault == fault
      ensures 0 <= row.physicalAddress < totalFrame * pageSize
    {
      var f := FrameNumber(i);
      AddressInMemory(f, infos[i].virtualAddress % pageSize, totalFrame, pageSize);
      var address := PhysicalAddress(i);
      row := Row(infos[i].virtualAddress, infos[i].pageNum, f, address, fault);
    }

    method ReferenceRow(i: nat) returns (row: Row)
      requires Valid() && i < infos.Length && UsedBefore(i)
      modifies this`mem, pageTable, frames, queue, queue.items
      ensures Valid() && Step(alg, Trace(), totalFrame, i, old(mem), mem) && UsedBefore(i + 1)
      ensures RowCorrect(row, infos[i], totalFrame, pageSize, old(mem), mem)
      ensures queue.items == old(queue.items)
    {
      var result := Reference(i);
      SeenStep(alg, Trace(), totalFrame, i, old(mem), mem);
      row := Report(i, result == 0);
    }

    method Advance(i: nat, rows: seq<Row>, pageFaults: nat, pageHits: nat, ghost ms: seq<Memory>,
                   ghost vs: seq<VirtualAddressInfo>, ghost t: seq<int>)
      returns (rows': seq<Row>, pageFaults': nat, pageHits': nat, ghost ms': seq<Memory>)
      requires Valid() && i < infos.Length && UsedBefore(i) && vs == infos[..] && t == Trace()
      requires Chronicle(alg, vs, t, totalFrame, pageSize, ms, rows, pageFaults, pageHits)
      requires i == |rows| && ms[i] == mem
      modifies this`mem, pageTable, frames, queue, queue.items
      ensures Valid() && UsedBefore(i + 1) && |rows'| == i + 1
      ensures Chronicle(alg, vs, t, totalFrame, pageSize, ms', rows', pageFaults', pageHits') && ms'[i + 1] == mem
      ensures queue.items == old(queue.items)
    {
      ghost var m := mem;
      var row := ReferenceRow(i);
      assert Recorded(alg, vs, t, totalFrame, pageSize, m, mem, row, i);
      ChronicleGrows(alg, vs, t, totalFrame, pageSize, ms, rows, pageFaults, pageHits, mem, row);
      pageFaults', pageHits' := pageFaults, pageHits;
      if row.fault {
        pageFaults' := pageFaults + 1;
      } else {
        pageHits' := pageHits + 1;
      }
      rows', ms' := rows + [row], ms + [mem];
    }

    // Run the whole trace. The memories passed through form a run of the chosen
    // algorithm, every printed line is correct, and the counts are the run's.
    method Simulate() returns (rows: seq<Row>, pageFaults: nat, pageHits: nat, ghost ms: seq<Memory>)
      requires Valid() && mem == EMPTY
      modifies this`mem, pageTable, frames, queue, queue.items
      ensures Valid() && Run(alg, Trace(), totalFrame, ms) && ms[infos.Length] == mem
      ensures |rows| == infos.Length
      ensures forall i :: 0 <= i < |rows| ==> RowCorrect(rows[i], infos[i], totalFrame, pageSize, ms[i], ms[i + 1])
      ensures pageFaults == FaultCount(Trace(), ms, infos.Length)
      ensures pageFaults + pageHits == infos.Length
    {
      ghost var vs, t := infos[..], Trace();
      rows, pageFaults, pageHits, ms := [], 0, 0, [EMPTY];
      for i := 0 to infos.Length
        invariant Valid() && UsedBefore(i) && vs == infos[..] && t == Trace() && |rows| == i
        invariant Chronicle(alg, vs, t, totalFrame, pageSize, ms, rows, pageFaults, pageHits) && ms[i] == mem
        invariant queue.items == old(queue.items)
      {
        rows, pageFaults, pageHits, ms := Advance(i, rows, pageFaults, pageHits, ms, vs, t);
      }
      HistoryFaults(alg, vs, t, totalFrame, pageSize, ms, rows);
    }
  }
}
