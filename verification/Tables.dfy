// The simulator's page table and frame table as values: when they agree with the
// abstract memory, and what loading, evicting and clearing do to them.
module Tables {
  import opened Collections

  datatype VirtualAddressInfo = VirtualAddressInfo(virtualAddress: int, pageNum: int)
  datatype PageEntry = PageEntry(pageNum: int, frameNum: int, referenceBit: int)
  datatype FrameEntry = FrameEntry(isOccupied: bool, frameNum: int, physicalAddress: int)

  // The page table and the loaded frames are inverse to each other; pages that
  // are not loaded have -1 in both columns.
  ghost predicate TableLinked(table: seq<PageEntry>, loaded: seq<int>) {
    && (forall f :: 0 <= f < |loaded| ==>
          && 0 <= loaded[f] < |table|
          && table[loaded[f]].pageNum == loaded[f]
          && table[loaded[f]].frameNum == f)
    && (forall p :: 0 <= p < |table| ==> Absent(table[p]) || At(table, loaded, p))
  }

  ghost predicate Absent(e: PageEntry) {
    e.pageNum == -1 && e.frameNum == -1
  }

  ghost predicate At(table: seq<PageEntry>, loaded: seq<int>, p: int)
    requires 0 <= p < |table|
  {
    0 <= table[p].frameNum < |loaded| && loaded[table[p].frameNum] == p
  }

  ghost predicate BitsLinked(table: seq<PageEntry>, marked: set<int>) {
    forall p :: 0 <= p < |table| ==> table[p].referenceBit == if p in marked then 1 else 0
  }

  // Occupied frames know their own number and hold an address inside themselves.
  ghost predicate FramesLinked(frames: seq<FrameEntry>, loaded: nat, pageSize: nat) {
    && loaded <= |frames|
    && (forall f :: 0 <= f < |frames| ==>
          && (frames[f].isOccupied <==> f < loaded)
          && frames[f].frameNum == if f < loaded then f else -1)
    && (forall f :: 0 <= f < loaded ==> InFrame(frames[f].physicalAddress, f, pageSize))
  }

  ghost predicate InFrame(address: int, f: int, pageSize: nat) {
    f * pageSize <= address < f * pageSize + pageSize
  }

  ghost function ClearEntry(e: PageEntry, v: int, page: int): PageEntry {
    if e.frameNum == v && e.pageNum != page then e.(pageNum := -1, frameNum := -1) else e
  }

  // Every entry that points at frame v on behalf of another page is cleared.
  ghost function Cleared(table: seq<PageEntry>, v: int, page: int): (r: seq<PageEntry>)
    ensures |r| == |table|
    ensures forall j :: 0 <= j < |table| ==> r[j] == ClearEntry(table[j], v, page)
  {
    seq(|table|, j requires 0 <= j < |table| => ClearEntry(table[j], v, page))
  }

  ghost function Installed(table: seq<PageEntry>, page: int, f: int): seq<PageEntry>
    requires 0 <= page < |table|
  {
    table[page := table[page].(pageNum := page, frameNum := f)]
  }

  lemma AbsentPage(table: seq<PageEntry>, loaded: seq<int>, page: int)
    requires TableLinked(table, loaded) && 0 <= page < |table| && page !in loaded
    ensures Absent(table[page])
  {
  }

  lemma LoadLinks(table: seq<PageEntry>, loaded: seq<int>, page: int)
    requires TableLinked(table, loaded) && 0 <= page < |table| && page !in loaded
    ensures TableLinked(Installed(table, page, |loaded|), loaded + [page])
  {
    var table', loaded' := Installed(table, page, |loaded|), loaded + [page];
    AbsentPage(table, loaded, page);
    forall f | 0 <= f < |loaded'|
      ensures 0 <= loaded'[f] < |table'| && table'[loaded'[f]].pageNum == loaded'[f] && table'[loaded'[f]].frameNum == f
    {
    }
    forall p | 0 <= p < |table'| ensures Absent(table'[p]) || At(table', loaded', p) {
    }
  }

  // Clearing the victim's entry and installing the new page, in either order,
  // keeps the tables inverse to each other.
  lemma EvictLinks(table: seq<PageEntry>, loaded: seq<int>, v: nat, page: int)
    requires TableLinked(table, loaded) && Distinct(loaded) && v < |loaded|
    requires 0 <= page < |table| && page !in loaded
    ensures TableLinked(Cleared(Installed(table, page, v), v, page), loaded[v := page])
    ensures Installed(Cleared(table, v, page), page, v) == Cleared(Installed(table, page, v), v, page)
  {
    AbsentPage(table, loaded, page);
    var table', loaded' := Cleared(Installed(table, page, v), v, page), loaded[v := page];
    forall f | 0 <= f < |loaded'|
      ensures 0 <= loaded'[f] < |table'| && table'[loaded'[f]].pageNum == loaded'[f] && table'[loaded'[f]].frameNum == f
    {
      if f != v {
        assert loaded[f] != page;
      }
    }
    forall p | 0 <= p < |table'| ensures Absent(table'[p]) || At(table', loaded', p) {
    }
  }

  lemma ClearKeepsBits(table: seq<PageEntry>, marked: set<int>, v: int, page: int)
    requires BitsLinked(table, marked)
    ensures BitsLinked(Cleared(table, v, page), marked)
  {
  }
}
