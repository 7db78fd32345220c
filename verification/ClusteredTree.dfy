/** The clustered B+ tree (src/storage/bplustree.cpp) as an object whose pages are updated in place. */
module ClusteredTree {
  import opened Bytes
  import opened PageLists
  import opened ClusteredIndex
  import opened ClusteredScan
  import opened ClusteredEdits
  import opened ClusteredLoad

  const MAX_FREE_PAGES := 1893     // what is left of page 0, four bytes each

  /** Pages 0 and 1 of the file are not part of the tree, all others are there. */
  predicate Paged(f: File, count: nat) {
    2 <= count <= NO_PAGE && forall id: PageId :: id in f <==> 2 <= id < count
  }

  class BPlusTree {
    var pages: File
    var root: PageId        // on page 0
    var pageCount: nat      // of the file
    var free: seq<PageId>   // on page 0

    /** No free page belongs to the index. */
    ghost predicate Sound(h: nat)
      reads this
    {
      && Paged(pages, pageCount)
      && (forall id :: id in pages && pages[id].LeafNode? ==> LeafFits(pages[id].leaf))
      && Distinct(free) && (forall id :: id in free ==> id in pages)
      && (root != NO_PAGE ==> ClusteredIndex.Index(pages, [root], h) && TreeSound(pages, root, h, free))
    }

    /** The table: the live rows by key. */
    ghost function Rows(h: nat): map<seq<Byte>, seq<Byte>>
      requires root != NO_PAGE ==> ClusteredIndex.Index(pages, [root], h)
      reads this
    {
      if root == NO_PAGE then map[] else Contents(Records(pages, All(h)))
    }

    ghost function All(h: nat): seq<PageId>
      requires ClusteredIndex.Index(pages, [root], h)
      reads this
    {
      Leaves(pages, [root], h)
    }

    /** The leaf chain, empty without a root. */
    ghost function Chain(h: nat): seq<PageId>
      requires root != NO_PAGE ==> ClusteredIndex.Index(pages, [root], h)
      reads this
    {
      if root == NO_PAGE then [] else All(h)
    }

    /** Every leaf page that holds a record is on the chain. */
    ghost predicate Covered(h: nat)
      requires root != NO_PAGE ==> ClusteredIndex.Index(pages, [root], h)
      reads this
    {
      OnChain(pages, Chain(h))
    }

    /** A new table: its file has pages 0 and 1 only. */
    constructor ()
      ensures root == NO_PAGE && free == [] && pageCount == 2
      ensures Sound(0) && Lean(pages) && Covered(0) && Rows(0) == map[]
    {
      pages, root, pageCount, free := map[], NO_PAGE, 2, [];
    }

    /** From the root to a leaf: everything on the chain before that leaf is below `key`. */
    method Descend(key: seq<Byte>, ghost h: nat)
      returns (current: PageId, parent: PageId, ghost before: seq<PageId>, ghost after: seq<PageId>)
      requires root != NO_PAGE && WellFormed(pages, root, h)
      ensures All(h) == before + [current] + after
      ensures AllLeaves(pages, before) && AllBelow(Records(pages, before), key)
      ensures AllLeaves(pages, after) && NoneBelow(Records(pages, after), key)
      ensures ClusteredIndex.Index(pages, [root], h) && current == Destination(pages, root, h, key)
      ensures (h == 0 ==> parent == 0) && (h == 1 ==> parent == root)
    {
      hide Leaves, ClusteredIndex.Index, Separated, Separates, Ascending, Records;
      ghost var ls := All(h);
      ghost var below: nat := h;
      before, after := [], [];
      current, parent := root, 0;
      NoLeaves(pages, 0);
      TopIs(pages, current, below);
      assert ls == before + Leaves(pages, [current], below) + after;
      while !pages[current].LeafNode?
        invariant Reached(pages, ls, before, current, after, below, key)
        invariant Destination(pages, root, h, key) == Destination(pages, current, below, key)
        invariant below <= h && (below == h ==> parent == 0 && current == root) && (below + 1 == h ==> parent == root)
        decreases below
      {
        var node := pages[current].internal;
        var slot := FirstSlot(CellKeys(node.cells), key);
        var child := if slot >= |node.cells| then node.rightmost else node.cells[slot].child;
        before, after := GoDown(pages, ls, before, current, after, below, key, slot);
        below := below - 1;
        parent, current := current, child;
      }
      LeafIs(pages, current);
    }

    /** The first place on the leaf chain whose key is not below `key`, or none.  `j` is the number
        of that leaf on the chain. */
    method Search(key: seq<Byte>, ghost h: nat) returns (pos: Option<ScanPosition>, ghost j: nat)
      requires root != NO_PAGE ==> WellFormed(pages, root, h)
      ensures root == NO_PAGE ==> pos == None
      ensures root != NO_PAGE && pos == None ==> AllBelow(Records(pages, All(h)), key)
      ensures root != NO_PAGE && pos != None ==>
        && j < |All(h)| && pos.value.page == All(h)[j] && pos.value.slot < |pages[All(h)[j]].leaf.records|
        && FirstAtLeast(Keys(Records(pages, All(h))), key, |Records(pages, All(h)[..j])| + pos.value.slot)
    {
      hide Leaves, ClusteredIndex.Index, Separated, Ascending, Records, Less, AllBelow, NoneBelow;
      hide Chained, FirstAtLeast;
      if root == NO_PAGE {
        return None, 0;
      }
      ChainFacts(h);
      ghost var ls := All(h);
      var current, parent, before, after := Descend(key, h);
      j := |before|;
      assert ls[..j] == before && ls[j] == current;
      while true
        invariant j < |ls| && ls[j] == current && AllLeaves(pages, ls[..j]) && AllBelow(Records(pages, ls[..j]), key)
        decreases |ls| - j
      {
        var leaf := pages[current].leaf;
        RecordsAround(pages, ls, j);
        FirstInStretch(Records(pages, ls[..j]), leaf.records, Records(pages, ls[j + 1..]), key);
        var slot := FirstSlot(Keys(leaf.records), key);
        if slot < |leaf.records| {
          return Some(ScanPosition(current, slot)), j;
        }
        if leaf.next == NO_PAGE {
          NoNext(pages, ls, j);
          return None, j;
        }
        HasNext(pages, ls, j);
        j := j + 1;
        current := leaf.next;
      }
    }

    lemma ChainFacts(h: nat)
      requires root != NO_PAGE && WellFormed(pages, root, h)
      ensures AllLeaves(pages, All(h)) && Chained(pages, All(h)) && Ascending(Keys(Records(pages, All(h))))
      ensures NO_PAGE !in pages
    {
    }

    /** Whether the first record at `key` or above has that key and is not deleted: whether the table
        has a row with it. */
    method KeyExists(key: seq<Byte>, ghost h: nat) returns (found: bool)
      requires Sound(h)
      ensures found <==> key in Rows(h)
    {
      hide Leaves, ClusteredIndex.Index, Separated, Chained, Ascending, Records, Less, WellFormed;
      hide TreeSound, FirstAtLeast, Contents, AllBelow;
      if root != NO_PAGE {
        SoundRoot(h);
      }
      var pos, j := Search(key, h);
      if pos == None {
        NoneFound(key, h);
        return false;
      }
      FoundFirst(key, h, j, pos.value.slot);
      var r := pages[pos.value.page].leaf.records[pos.value.slot];
      return r.key == key && !r.Deleted();
    }

    /** The first place of the leaf chain. */
    method FindLeftmost(ghost h: nat) returns (pos: Option<ScanPosition>)
      requires root != NO_PAGE ==> WellFormed(pages, root, h)
      ensures root == NO_PAGE <==> pos == None
      ensures root != NO_PAGE ==> All(h) != [] && pos.value == ScanPosition(All(h)[0], 0)
    {
      hide Leaves, ClusteredIndex.Index, Separated, Ascending, Records;
      if root == NO_PAGE {
        return None;
      }
      ghost var ls := All(h);
      ghost var below: nat := h;
      ghost var after: seq<PageId> := [];
      var current: PageId := root;
      assert ls == Leaves(pages, [current], below) + after;
      TopIs(pages, current, below);
      while !pages[current].LeafNode?
        invariant ClusteredIndex.Index(pages, [current], below) && Separated(pages, [current], below)
        invariant ls == Leaves(pages, [current], below) + after
        invariant current in pages && (pages[current].LeafNode? <==> below == 0)
        invariant (pages[current].InternalNode? <==> below > 0)
        decreases below
      {
        var node := pages[current].internal;
        LevelDown(pages, current, below - 1);
        var child := node.cells[0].child;
        ghost var ks := Kids(node);
        StepDown(pages, current, below - 1, 0);
        assert ks[..0] == [];
        NoLeaves(pages, below - 1);
        assert ls == Leaves(pages, [child], below - 1) + (Leaves(pages, ks[1..], below - 1) + after);
        after := Leaves(pages, ks[1..], below - 1) + after;
        below := below - 1;
        current := child;
        TopIs(pages, current, below);
      }
      LeafIs(pages, current);
      return Some(ScanPosition(current, 0));
    }

    /** The next live record from a place on the chain on. */
    method NextEntryFrom(page: PageId, slot: nat, ghost ls: seq<PageId>, ghost j: nat)
      returns (r: Step<(seq<Byte>, seq<Byte>)>, ghost nextJ: nat)
      requires AllLeaves(pages, ls) && Chained(pages, ls) && NO_PAGE !in pages
      requires j < |ls| && ls[j] == page && slot <= |pages[page].leaf.records|
      ensures r.Done? ==> LiveRows(Tail(pages, ls, j, slot)) == []
      ensures r.Thrown? ==> !RowIds(Tail(pages, ls, j, slot))
      ensures r.Entry? ==>
        nextJ < |ls| && r.next.page == ls[nextJ] && 0 < r.next.slot <= |pages[ls[nextJ]].leaf.records|
      ensures r.Entry? ==>
        var x := pages[ls[nextJ]].leaf.records[r.next.slot - 1]; !x.Deleted() && r.value == (x.key, Stripped(x.row))
      ensures r.Entry? ==> var rs := Tail(pages, ls, j, slot); var rest := Tail(pages, ls, nextJ, r.next.slot);
        && |rest| < |rs|
        && LiveRows(rs) == [r.value.1] + LiveRows(rest)
        && (RowIds(rs) <==> RowIds(rest))
      decreases |ls| - j
    {
      hide Tail, LiveRows, RowIds, Records;
      ghost var rs := Tail(pages, ls, j, slot);
      var leaf := pages[page].leaf;
      var at: nat := slot;
      while at < |leaf.records| && leaf.records[at].Deleted()
        invariant slot <= at <= |leaf.records| && |Tail(pages, ls, j, at)| <= |rs|
        invariant LiveRows(Tail(pages, ls, j, at)) == LiveRows(rs)
        invariant RowIds(Tail(pages, ls, j, at)) <==> RowIds(rs)
      {
        TailStep(pages, ls, j, at);
        at := at + 1;
      }
      if at >= |leaf.records| {
        TailNext(pages, ls, j);
        if leaf.next == NO_PAGE {
          NoNext(pages, ls, j);
          NoRows();
          return Done, j;
        }
        HasNext(pages, ls, j);
        r, nextJ := NextEntryFrom(leaf.next, 0, ls, j + 1);
        return r, nextJ;
      }
      TailStep(pages, ls, j, at);
      var record := leaf.records[at];
      if |record.row| < ROW_ID_SIZE {
        return Thrown, j;
      }
      return Entry((record.key, record.row[ROW_ID_SIZE..]), ScanPosition(page, at + 1)), j;
    }

    /** Draining the index from its leftmost place yields the live rows in key order. */
    method DrainIndex(ghost h: nat) returns (rows: seq<seq<Byte>>, thrown: bool)
      requires root != NO_PAGE ==> WellFormed(pages, root, h)
      ensures root == NO_PAGE ==> !thrown && rows == []
      ensures root != NO_PAGE ==> (thrown <==> !RowIds(Records(pages, All(h))))
      ensures root != NO_PAGE && !thrown ==> rows == LiveRows(Records(pages, All(h)))
    {
      hide Records, LiveRows, RowIds, Leaves, Separated, ClusteredIndex.Index, Tail;
      rows := [];
      var pos := FindLeftmost(h);
      if pos == None {
        return [], false;
      }
      ghost var ls := All(h);
      ghost var rs := Records(pages, ls);
      ghost var j: nat := 0;
      var at := pos.value;
      TailWhole(pages, ls);
      while true
        invariant j < |ls| && at.page == ls[j] && at.slot <= |pages[ls[j]].leaf.records|
        invariant rows + LiveRows(Tail(pages, ls, j, at.slot)) == LiveRows(rs)
        invariant RowIds(Tail(pages, ls, j, at.slot)) <==> RowIds(rs)
        decreases |Tail(pages, ls, j, at.slot)|
      {
        var r, nextJ := NextEntryFrom(at.page, at.slot, ls, j);
        if r.Done? {
          RowIdsDone(Tail(pages, ls, j, at.slot));
          return rows, false;
        }
        if r.Thrown? {
          return rows, true;
        }
        rows := rows + [r.value.1];
        j := nextJ;
        at := r.next;
      }
    }

    /** The next live record from a place in the file on. */
    method NextRowFrom(page: nat, slot: nat) returns (r: Step<seq<Byte>>)
      requires page <= pageCount <= NO_PAGE && forall id: PageId :: page <= id < pageCount ==> id in pages
      requires page < pageCount ==> slot <= |PageRecords(pages, page)|
      requires page == pageCount ==> slot == 0
      ensures var rs := Remaining(page, slot);
        && (r.Done? ==> LiveRows(rs) == [] && RowIds(rs))
        && (r.Thrown? ==> !RowIds(rs))
        && (r.Entry? ==>
            && page <= r.next.page < pageCount && r.next.slot <= |PageRecords(pages, r.next.page)|
            && (r.next.page > page || r.next.slot > slot)
            && LiveRows(rs) == [r.value] + LiveRows(Remaining(r.next.page, r.next.slot))
            && (RowIds(rs) <==> RowIds(Remaining(r.next.page, r.next.slot))))
    {
      hide LiveRows, RowIds, FileRecords, Remaining;
      ghost var all := Remaining(page, slot);
      var id: nat, at: nat := page, slot;
      while id < pageCount
        invariant page <= id <= pageCount
        invariant id < pageCount ==> at <= |PageRecords(pages, id)|
        invariant id == pageCount ==> at == 0
        invariant id == page ==> at >= slot
        invariant LiveRows(Remaining(id, at)) == LiveRows(all)
        invariant RowIds(Remaining(id, at)) <==> RowIds(all)
        decreases pageCount - id
      {
        var node := pages[id];
        NextPage(id);
        if !node.LeafNode? || at >= |node.leaf.records| {
          id, at := id + 1, 0;
          continue;
        }
        while at < |node.leaf.records| && node.leaf.records[at].Deleted()
          invariant at <= |node.leaf.records| && (id == page ==> at >= slot)
          invariant LiveRows(Remaining(id, at)) == LiveRows(all)
          invariant RowIds(Remaining(id, at)) <==> RowIds(all)
        {
          NextRecord(id, at);
          at := at + 1;
        }
        if at >= |node.leaf.records| {
          id, at := id + 1, 0;
          continue;
        }
        NextRecord(id, at);
        var row := node.leaf.records[at].row;
        if |row| < ROW_ID_SIZE {
          return Thrown;
        }
        return Entry(row[ROW_ID_SIZE..], ScanPosition(id, at + 1));
      }
      RemainingEnd();
      NoRows();
      return Done;
    }

    /** The records of the file from a place on. */
    ghost function Remaining(page: nat, slot: nat): seq<Record>
      requires page <= pageCount <= NO_PAGE && forall id: PageId :: page <= id < pageCount ==> id in pages
      requires page < pageCount ==> slot <= |PageRecords(pages, page)|
      reads this
    {
      if page == pageCount then [] else PageRecords(pages, page)[slot..] + FileRecords(pages, page + 1, pageCount)
    }

    lemma RemainingEnd()
      requires pageCount <= NO_PAGE
      ensures Remaining(pageCount, 0) == []
    {
    }

    lemma RemainingWhole()
      requires 2 <= pageCount <= NO_PAGE && forall id: PageId :: 2 <= id < pageCount ==> id in pages
      ensures Remaining(2, 0) == FileRecords(pages, 2, pageCount)
    {
      if 2 < pageCount {
        FileRecordsSplit(pages, 2, 2, pageCount);
      }
    }

    lemma NextPage(page: nat)
      requires page < pageCount <= NO_PAGE && forall id: PageId :: page <= id < pageCount ==> id in pages
      ensures Remaining(page, |PageRecords(pages, page)|) == Remaining(page + 1, 0)
    {
      if page + 1 < pageCount {
        FileRecordsSplit(pages, page + 1, page + 1, pageCount);
      }
    }

    lemma NextRecord(page: nat, slot: nat)
      requires page < pageCount <= NO_PAGE && forall id: PageId :: page <= id < pageCount ==> id in pages
      requires slot < |PageRecords(pages, page)|
      ensures var r := PageRecords(pages, page)[slot];
        var rs := Remaining(page, slot); var rest := Remaining(page, slot + 1);
        && LiveRows(rs) == (if r.Deleted() then [] else [Stripped(r.row)]) + LiveRows(rest)
        && (RowIds(rs) <==> (r.Deleted() || ROW_ID_SIZE <= |r.row|) && RowIds(rest))
    {
      hide LiveRows, RowIds, PageRecords, FileRecords;
      var rs := Remaining(page, slot);
      var here := PageRecords(pages, page);
      assert here[slot..] == [here[slot]] + here[slot + 1..];
      assert rs == [here[slot]] + Remaining(page, slot + 1);
      LiveRowsFirst(here[slot], Remaining(page, slot + 1));
    }

    /** Draining the file from page 2 yields the live rows in page order. */
    method DrainFile() returns (rows: seq<seq<Byte>>, thrown: bool)
      requires 2 <= pageCount <= NO_PAGE && forall id: PageId :: 2 <= id < pageCount ==> id in pages
      ensures thrown <==> !RowIds(FileRecords(pages, 2, pageCount))
      ensures !thrown ==> rows == LiveRows(FileRecords(pages, 2, pageCount))
    {
      hide LiveRows, RowIds, FileRecords, Remaining;
      ghost var all := FileRecords(pages, 2, pageCount);
      rows := [];
      var page: nat, slot: nat := 2, 0;
      RemainingWhole();
      NoRows();
      while true
        invariant 2 <= page <= pageCount
        invariant page < pageCount ==> slot <= |PageRecords(pages, page)|
        invariant page == pageCount ==> slot == 0
        invariant rows + LiveRows(Remaining(page, slot)) == LiveRows(all)
        invariant RowIds(Remaining(page, slot)) <==> RowIds(all)
        decreases pageCount - page, if page < pageCount then |PageRecords(pages, page)| - slot else 0
      {
        var r := NextRowFrom(page, slot);
        if r.Done? {
          return rows, false;
        }
        if r.Thrown? {
          return rows, true;
        }
        rows := rows + [r.value];
        page, slot := r.next.page, r.next.slot;
      }
    }

    // ---- Inserting ----

    /** A page from the free list, or else a new one at the end of the file. */
    method AllocatePage() returns (id: PageId)
      requires free != [] || pageCount < NO_PAGE
      requires Paged(pages, pageCount) && forall id :: id in free ==> id in pages
      modifies this
      ensures root == old(root) && Paged(pages, pageCount) && id in pages
      ensures old(free) != [] ==>
        id == old(free)[0] && free == old(free)[1..] && pages == old(pages) && pageCount == old(pageCount)
      ensures old(free) == [] ==>
        id == old(pageCount) && free == [] && pages == old(pages)[id := OtherPage] && pageCount == old(pageCount) + 1
    {
      if free != [] {
        id := free[0];
        free := free[1..];
        return id;
      }
      id := pageCount;
      pages := pages[id := OtherPage];
      pageCount := pageCount + 1;
    }

    /** The pages from `mid` on, copied to a new leaf one by one. */
    method CopyUpper(leaf: Leaf, mid: nat, next: PageId, prev: PageId) returns (upper: Leaf)
      requires LeafFits(leaf) && mid <= |leaf.records|
      ensures SLOT_ENTRY_SIZE * |leaf.records| <= PAGE_SIZE
      ensures upper == Packed(Revived(leaf.records[mid..]), next, prev) && LeafFits(upper)
    {
      hide Total, Revived;
      upper := EMPTY_LEAF.(next := next, prev := prev);
      var i := mid;
      assert leaf.records[mid..mid] == [];
      EmptyFits();
      while i < |leaf.records|
        invariant mid <= i <= |leaf.records|
        invariant upper == Packed(Revived(leaf.records[mid..i]), next, prev) && LeafFits(upper)
      {
        var r := leaf.records[i];
        PartRoom(leaf, mid, i);
        RevivedTotal(leaf.records[mid..i]);
        PackedInsert(upper, i - mid, r.key, r.row);
        upper := LeafInsert(upper, i - mid, r.key, r.row);
        assert Revived(leaf.records[mid..i + 1])
          == Inserted(Revived(leaf.records[mid..i]), i - mid, Record(0, r.key, r.row));
        i := i + 1;
      }
      assert leaf.records[mid..|leaf.records|] == leaf.records[mid..];
    }

    lemma EmptyFits()
      ensures Total([]) == 0
    {
      assert Sizes([]) == [];
    }

    /** Whether `id` can be given out: it is not in use before, and is gone from the free list after. */
    ghost predicate GivenOut(id: PageId, f: File, wasFree: seq<PageId>)
      reads this
    {
      && id != NO_PAGE && id in pages && (id in wasFree || id !in f)
      && (forall k :: k in free ==> k in wasFree && k != id)
    }

    /** The file with `id` as predecessor of a leaf, if there is one. */
    static function Relinked(f: File, next: PageId, id: PageId): File
      requires next != NO_PAGE ==> next in f && f[next].LeafNode?
    {
      if next == NO_PAGE then f else f[next := LeafNode(f[next].leaf.(prev := id))]
    }

    /** Moves the upper half of a leaf to a new leaf behind it. */
    method MoveUpper(leafId: PageId, mid: nat) returns (newLeafId: PageId)
      requires Paged(pages, pageCount) && Distinct(free) && (forall id :: id in free ==> id in pages)
      requires pageCount < NO_PAGE
      requires leafId in pages && pages[leafId].LeafNode? && leafId !in free
      requires LeafFits(pages[leafId].leaf) && mid <= |pages[leafId].leaf.records|
      requires var next := pages[leafId].leaf.next;
        next != NO_PAGE ==> next in pages && pages[next].LeafNode? && next != leafId && next !in free
      modifies this
      ensures Paged(pages, pageCount) && Distinct(free) && (forall id :: id in free ==> id in pages)
      ensures root == old(root) && pageCount <= old(pageCount) + 1
      ensures GivenOut(newLeafId, old(pages), old(free)) && newLeafId != leafId
      ensures var leaf := old(pages)[leafId].leaf;
        && SLOT_ENTRY_SIZE * |leaf.records| <= PAGE_SIZE
        && pages == Relinked(old(pages), leaf.next, newLeafId)
             [newLeafId := LeafNode(Packed(Revived(leaf.records[mid..]), leaf.next, leafId))]
             [leafId := LeafNode(leaf.(records := leaf.records[..mid], next := newLeafId))]
        && LeafFits(pages[leafId].leaf) && LeafFits(pages[newLeafId].leaf)
    {
      hide LeafFits, Total;
      var leaf := pages[leafId].leaf;
      newLeafId := AllocatePage();
      var oldNext := leaf.next;
      if oldNext != NO_PAGE {
        pages := pages[oldNext := LeafNode(pages[oldNext].leaf.(prev := newLeafId))];
      }
      var newLeaf := CopyUpper(leaf, mid, oldNext, leafId);
      PrefixFits(leaf, mid, newLeafId);
      pages := pages[newLeafId := LeafNode(newLeaf)][leafId := LeafNode(leaf.(records := leaf.records[..mid],
        next := newLeafId))];
    }

    /** Puts the new leaf into the parent, or both leaves under a new root. */
    method Attach(parent: PageId, key: seq<Byte>, leafId: PageId, newLeafId: PageId)
      requires Paged(pages, pageCount) && Distinct(free) && (forall id :: id in free ==> id in pages)
      requires pageCount < NO_PAGE
      requires parent != 0 ==> parent in pages && pages[parent].InternalNode? && InternalFits(pages[parent].internal)
      modifies this
      ensures Paged(pages, pageCount) && Distinct(free) && (forall id :: id in free ==> id in pages)
      ensures pageCount <= old(pageCount) + 1
      ensures parent == 0 ==>
        && GivenOut(root, old(pages), old(free))
        && pages == old(pages)[root := InternalNode(NewRoot(key, leafId, newLeafId))]
      ensures parent != 0 ==> root == old(root) && free == old(free) && pageCount == old(pageCount)
      ensures parent != 0 ==>
        pages == old(pages)[parent := InternalNode(WithSeparator(old(pages)[parent].internal, key, leafId, newLeafId))]
    {
      hide InternalFits, NewRoot, WithSeparator;
      if parent == 0 {
        var newRootId := AllocatePage();
        pages := pages[newRootId := InternalNode(NewRoot(key, leafId, newLeafId))];
        root := newRootId;
      } else {
        pages := pages[parent := InternalNode(WithSeparator(pages[parent].internal, key, leafId, newLeafId))];
      }
    }

    /** Splits the last leaf of a loaded table; `parent` is the root over it, or 0 if it is the root. */
    method SplitLeaf(leafId: PageId, parent: PageId, ghost h: nat)
      requires Sound(h) && root != NO_PAGE && Loaded(pages, root, h, All(h))
      requires leafId == All(h)[|All(h)| - 1] && parent == (if h == 0 then 0 else root)
      requires |pages[leafId].leaf.records| >= 2
      requires InternalRoom(if h == 0 then EMPTY_INTERNAL else pages[root].internal,
        pages[leafId].leaf.records[|pages[leafId].leaf.records| / 2].key)
      requires pageCount + 2 <= NO_PAGE
      modifies this
      ensures Sound(1) && root != NO_PAGE && Loaded(pages, root, 1, All(1))
      ensures |All(1)| == old(|All(h)|) + 1 && pageCount <= old(pageCount) + if h == 0 then 2 else 1
      ensures old(Covered(h)) ==> Covered(1)
      ensures Records(pages, All(1)) == old(Records(pages, All(h)))
      ensures var rs := old(pages[leafId].leaf.records); var mid := |rs| / 2;
        && SLOT_ENTRY_SIZE * |rs| <= PAGE_SIZE
        && pages[All(1)[|All(1)| - 1]].leaf == Packed(rs[mid..], NO_PAGE, leafId)
        && RootRoom(pages, root, 1) == Some(old(Left(RootRoom(pages, root, h))) - SeparatorSize(rs[mid].key))
    {
      hide OnChain, Records, Leaves, ClusteredIndex.Index, TreeSound, Loaded, RootOver;
      hide WithSeparator, NewRoot, Total, LeafFits, InternalFits, InternalRoom, BackChained;
      hide Chained, LastSplit, Split, Unflagged, Packed;
      SplitReady(h);
      ghost var f, ls, wasRoot, wasFree := pages, All(h), root, free;
      var mid := |pages[leafId].leaf.records| / 2;
      var newLeafId := MoveUpper(leafId, mid);
      ghost var middle, middleFree := pages, free;
      RevivedUpper(f[leafId].leaf.records, mid);
      UpperFirst(f[leafId].leaf.records, mid, leafId);
      var firstKey := pages[newLeafId].leaf.records[0].key;
      Attach(parent, firstKey, leafId, newLeafId);
      SplitPages(f, pages, ls, newLeafId, mid);
      SplitIs(f, pages, wasRoot, h, root, ls, newLeafId, mid);
      SplitDone(f, wasRoot, h, wasFree, ls, newLeafId, mid);
      SplitFacts(f, pages, wasRoot, h, root, wasFree, ls, newLeafId, mid);
      if OnChain(f, ls) {
        StillOnChain(f, pages, ls, ls + [newLeafId]);
      }
    }

    lemma UpperFirst(rs: seq<Record>, mid: nat, prev: PageId)
      requires mid < |rs| && SLOT_ENTRY_SIZE * |rs| <= PAGE_SIZE
      ensures var l := Packed(rs[mid..], NO_PAGE, prev);
        l.records == rs[mid..] && l.records != [] && l.records[0] == rs[mid]
    {
    }

    lemma SplitPages(f: File, g: File, ls: seq<PageId>, added: PageId, mid: nat)
      requires AllLeaves(f, ls) && ls != [] && added != NO_PAGE && added !in ls
      requires var rs := f[ls[|ls| - 1]].leaf.records; 0 < mid < |rs| && SLOT_ENTRY_SIZE * |rs| <= PAGE_SIZE
      requires var id := ls[|ls| - 1];
        added in g && g[added] == LeafNode(Packed(f[id].leaf.records[mid..], NO_PAGE, id))
      requires var id := ls[|ls| - 1];
        id in g && g[id] == LeafNode(f[id].leaf.(records := f[id].leaf.records[..mid], next := added))
      requires forall k :: k in ls && k != ls[|ls| - 1] ==> k in g && g[k] == f[k]
      ensures LastSplit(f, g, ls, added, mid)
    {
    }

    lemma SplitIs(f: File, g: File, wasRoot: PageId, h: nat, newRoot: PageId, ls: seq<PageId>, added: PageId, mid: nat)
      requires AllLeaves(f, ls) && ls != [] && LastSplit(f, g, ls, added, mid)
      requires var key := f[ls[|ls| - 1]].leaf.records[mid].key; var id := ls[|ls| - 1];
        && newRoot != NO_PAGE && newRoot !in ls + [added] && newRoot in g
        && (h == 0 ==> InternalRoom(EMPTY_INTERNAL, key) && g[newRoot] == InternalNode(NewRoot(key, id, added)))
        && (h == 1 ==>
          newRoot == wasRoot && wasRoot in f && f[wasRoot].InternalNode? && InternalFits(f[wasRoot].internal)
          && InternalRoom(f[wasRoot].internal, key)
                       && g[newRoot] == InternalNode(WithSeparator(f[wasRoot].internal, key, id, added)))
      ensures Split(f, g, wasRoot, h, newRoot, ls, added, mid)
    {
    }

    lemma SplitFacts(f: File, g: File, wasRoot: PageId, h: nat, newRoot: PageId, wasFree: seq<PageId>, ls: seq<PageId>,
            added: PageId, mid: nat)
      requires TreeSound(f, wasRoot, h, wasFree) && ls == Leaves(f, [wasRoot], h) && Loaded(f, wasRoot, h, ls)
      requires Split(f, g, wasRoot, h, newRoot, ls, added, mid)
      ensures AllLeaves(g, ls + [added]) && Records(g, ls + [added]) == Records(f, ls)
      ensures var rs := f[ls[|ls| - 1]].leaf.records;
        && 0 < mid < |rs| && SLOT_ENTRY_SIZE * |rs| <= PAGE_SIZE
        && g[added] == LeafNode(Packed(rs[mid..], NO_PAGE, ls[|ls| - 1]))
        && newRoot in g && g[newRoot].InternalNode?
        && RootRoom(g, newRoot, 1) == Some(Left(RootRoom(f, wasRoot, h)) - SeparatorSize(rs[mid].key))
    {
      hide Records, Leaves, Loaded, WellFormed, BackChained, FreeApart, Ordered, Ascending;
      hide FirstLive, ClusteredIndex.Index, Distinct, RootRoom;
      LoadedSome(f, wasRoot, h, ls);
      OrderedAscending(Records(f, ls));
      SplitParts(f, g, wasRoot, h, newRoot, ls, added, mid);
      SplitLoaded(f, g, wasRoot, h, newRoot, ls, added, mid);
    }

    /** What a split may rely on. */
    lemma SplitReady(h: nat)
      requires Sound(h) && root != NO_PAGE && Loaded(pages, root, h, All(h))
      ensures ClusteredIndex.Index(pages, [root], h) && TreeSound(pages, root, h, free)
      ensures var ls := All(h);
        && h <= 1 && AllLeaves(pages, ls) && ls != [] && Distinct(ls)
        && pages[ls[|ls| - 1]].leaf.next == NO_PAGE
        && LeafFits(pages[ls[|ls| - 1]].leaf) && Unflagged(pages[ls[|ls| - 1]].leaf.records)
        && root in pages && (h == 1 ==> pages[root].InternalNode? && root !in ls && InternalFits(pages[root].internal))
        && (h == 0 ==> ls == [root])
        && root != 0 && (forall id :: id in free ==> id !in ls && id != root)
        && (forall id :: id in ls ==> id in pages)
    {
      hide Records;
      var ls := All(h);
      var k := |ls| - 1;
      assert pages[ls[k]].leaf.next == Successor(ls, k);
      RecordsAround(pages, ls, k);
      UnflaggedConcat(Records(pages, ls[..k]), pages[ls[k]].leaf.records);
      UnflaggedConcat(Records(pages, ls[..k]) + pages[ls[k]].leaf.records, Records(pages, ls[k + 1..]));
      TopIs(pages, root, h);
      FreeOfLeaves(pages, free, root, h, ls);
    }

    // Inserting a record

    /** The leaf that `key` leads to has room, or there is no leaf yet. */
    ghost predicate Fits(h: nat, key: seq<Byte>, row: seq<Byte>)
      requires Sound(h)
      reads this
    {
      if root == NO_PAGE then LeafRoom(EMPTY_LEAF, key, row)
      else
        DestinationLeaf(pages, root, h, key);
        LeafRoom(pages[Destination(pages, root, h, key)].leaf, key, row)
    }

    /** The table has been loaded in ascending order, `key` is above all others, and the splits it
        takes find room in the root. */
    ghost predicate Loads(h: nat, key: seq<Byte>, row: seq<Byte>)
      requires Sound(h)
      reads this
    {
      root != NO_PAGE ==>
        && Loaded(pages, root, h, All(h))
        && AllBelow(Records(pages, All(h)), key)
        && (h == 1 ==> root in pages && pages[root].InternalNode?)
        && SplitsFit(pages[All(h)[|All(h)| - 1]].leaf, RootRoom(pages, root, h), key, row)
    }

    /** How many records the last leaf has. */
    ghost function LastCount(h: nat): nat
      reads this
    {
      if root == NO_PAGE || !ClusteredIndex.Index(pages, [root], h) || All(h) == [] then 0
      else |pages[All(h)[|All(h)| - 1]].leaf.records|
    }

    /** How many pages a loaded index takes. */
    ghost function IndexSize(h: nat): nat
      requires root != NO_PAGE ==> ClusteredIndex.Index(pages, [root], h)
      reads this
    {
      if root == NO_PAGE then 0 else |All(h)| + h
    }

    /** The first leaf of an empty table. */
    method CreateRoot()
      requires Sound(0) && root == NO_PAGE && pageCount < NO_PAGE
      modifies this
      ensures Sound(0) && root != NO_PAGE && (old(Lean(pages)) ==> Lean(pages)) && (old(Covered(0)) ==> Covered(0))
      ensures pageCount == old(pageCount) + (if old(free) == [] then 1 else 0)
      ensures free == if old(free) == [] then [] else old(free)[1..]
      ensures All(0) == [root] && pages[root].leaf == EMPTY_LEAF && Records(pages, [root]) == []
    {
      hide OnChain, TreeSound, ClusteredIndex.Index, Leaves, Records;
      EmptyFits();
      var leafId := AllocatePage();
      pages := pages[leafId := LeafNode(EMPTY_LEAF)];
      root := leafId;
      EmptyTree(pages, root, free);
      if OnChain(old(pages), []) {
        StillOnChain(old(pages), pages, [], [leafId]);
      }
    }

    /** One empty leaf is an index. */
    lemma EmptyTree(f: File, id: PageId, free: seq<PageId>)
      requires id in f && f[id] == LeafNode(EMPTY_LEAF) && id !in free && id != 0 && NO_PAGE !in f
      ensures ClusteredIndex.Index(f, [id], 0) && TreeSound(f, id, 0, free)
      ensures Leaves(f, [id], 0) == [id] && Records(f, [id]) == []
    {
      RecordsOne(f, id);
      assert BackChained(f, [id]) && Chained(f, [id]);
    }

    lemma CreatedReady(key: seq<Byte>, row: seq<Byte>)
      requires Sound(0) && root != NO_PAGE && All(0) == [root] && pages[root].leaf == EMPTY_LEAF
      requires Records(pages, [root]) == []
      requires LeafRoom(EMPTY_LEAF, key, row)
      ensures Fits(0, key, row) && Loads(0, key, row) && Rows(0) == map[]
    {
      EmptyFits();
    }

    lemma SoundRoot(h: nat)
      requires Sound(h) && root != NO_PAGE
      ensures WellFormed(pages, root, h) && ClusteredIndex.Index(pages, [root], h) && TreeSound(pages, root, h, free)
    {
    }

    /** Inserts a record whose key is not in the table. */
    method Insert(key: seq<Byte>, row: seq<Byte>, ghost h: nat) returns (ghost newH: nat)
      requires Sound(h) && key !in Rows(h)
      requires LEAF_HEADER_SIZE + |key| + |row| < 0x10000
      requires Fits(h, key, row) || (root != NO_PAGE && Loads(h, key, row))
      requires pageCount + 1 <= NO_PAGE
      requires Fits(h, key, row) || pageCount + 2 * LastCount(h) + 2 <= NO_PAGE
      modifies this
      ensures Sound(newH) && root != NO_PAGE && pageCount <= old(pageCount) + 2 * old(LastCount(h)) + 2
      ensures Rows(newH) == old(Rows(h))[key := row] && (old(Covered(h)) ==> Covered(newH))
      ensures old(Fits(h, key, row)) ==>
        newH == (if old(root) == NO_PAGE then 0 else h) && (old(Lean(pages)) ==> Lean(pages))
      ensures old(Fits(h, key, row)) ==>
        pageCount == old(pageCount) + if old(root) == NO_PAGE && old(free) == [] then 1 else 0
      ensures old(Fits(h, key, row)) && old(root) == NO_PAGE && old(free) != [] ==> free == old(free)[1..]
      ensures old(Fits(h, key, row)) && (old(root) != NO_PAGE || old(free) == []) ==> free == old(free)
      ensures old(Loads(h, key, row)) ==> Loaded(pages, root, newH, All(newH))
      ensures old(Loads(h, key, row)) ==> pageCount - IndexSize(newH) <= old(pageCount - IndexSize(h))
      ensures old(Loads(h, key, row)) ==>
        Records(pages, All(newH))
          == (if old(root) == NO_PAGE then [] else old(Records(pages, All(h)))) + [Record(0, key, row)]
      decreases LastCount(h)
    {
      hide OnChain, Records, Leaves, ClusteredIndex.Index, TreeSound, Loaded, LeafRoom, LeafFits;
      hide SplitsFit, Contents, Destination, WellFormed, AllBelow, NoneBelow, Lean;
      newH := h;
      if root == NO_PAGE {
        CreateRoot();
        newH := 0;
        CreatedReady(key, row);
      }
      SoundRoot(newH);
      var current, parent, before, after := Descend(key, newH);
      CurrentIs(newH, before, current, after);
      var leaf := pages[current].leaf;
      var ok := Place(current, key, row, newH, before, after);
      if !ok {
        SplitNeeded(newH, before, current, after, key, row);
        SplitsFitStep(leaf, RootRoom(pages, root, newH), key, row);
        SplitLeaf(current, parent, newH);
        SplitReady(1);
        LoadsOn(leaf.records[|leaf.records| / 2..], current, key, row);
        newH := Insert(key, row, 1);
      }
    }

    /** Inserts a record into the leaf its key leads to, if that has room. */
    method Place(current: PageId, key: seq<Byte>, row: seq<Byte>, ghost h: nat, ghost before: seq<PageId>,
            ghost after: seq<PageId>)
      returns (ok: bool)
      requires Sound(h) && root != NO_PAGE && All(h) == before + [current] + after && key !in Rows(h)
      requires current in pages && pages[current].LeafNode? && current == Destination(pages, root, h, key)
      requires AllLeaves(pages, before) && AllBelow(Records(pages, before), key)
      requires AllLeaves(pages, after) && NoneBelow(Records(pages, after), key)
      modifies this
      ensures ok == LeafRoom(old(pages)[current].leaf, key, row)
      ensures root == old(root) && pageCount == old(pageCount) && free == old(free)
      ensures !ok ==> pages == old(pages)
      ensures ok ==> Sound(h) && All(h) == old(All(h)) && Rows(h) == old(Rows(h))[key := row]
      ensures ok ==> (old(Lean(pages)) ==> Lean(pages)) && (old(Covered(h)) ==> Covered(h))
      ensures ok && old(Loaded(pages, root, h, All(h)) && AllBelow(Records(pages, All(h)), key)) ==>
        Loaded(pages, root, h, All(h)) && Records(pages, All(h)) == old(Records(pages, All(h))) + [Record(0, key, row)]
    {
      hide OnChain, Records, Leaves, ClusteredIndex.Index, TreeSound, Loaded, LeafRoom, LeafFits;
      hide LeafInsert, Contents, Destination, WellFormed, AllBelow, NoneBelow, DeadBytes;
      ghost var f, ls := pages, All(h);
      CurrentIs(h, before, current, after);
      var leaf := pages[current].leaf;
      var slot := FirstSlot(Keys(leaf.records), key);
      ok := LeafRoom(leaf, key, row);
      pages := pages[current := LeafNode(LeafInsert(leaf, slot, key, row))];
      if ok {
        PlacedSound(f, root, h, free, ls, before, current, after, key, row);
        TreeIndex(pages, root, h, free);
        LeanInsert(leaf, slot, key, row);
        if OnChain(f, ls) {
          StillOnChain(f, pages, ls, ls);
        }
        if Loaded(f, root, h, ls) && AllBelow(Records(f, ls), key) {
          PlacedLoaded(f, root, h, free, ls, before, current, after, key, row);
        }
      } else {
        RefusedInsert(leaf, slot, key, row);
        assert pages == f;
      }
    }

    /** After a split the load goes on. */
    lemma LoadsOn(rs: seq<Record>, prev: PageId, key: seq<Byte>, row: seq<Byte>)
      requires Sound(1) && root != NO_PAGE && Loaded(pages, root, 1, All(1)) && AllBelow(Records(pages, All(1)), key)
      requires SLOT_ENTRY_SIZE * |rs| <= PAGE_SIZE && pages[All(1)[|All(1)| - 1]].leaf == Packed(rs, NO_PAGE, prev)
      requires root in pages && pages[root].InternalNode?
      requires SplitsFit(Packed(rs, NO_PAGE, NO_PAGE), RootRoom(pages, root, 1), key, row)
      ensures Loads(1, key, row) && LastCount(1) == |rs|
    {
      hide Records, Leaves, Loaded, RootRoom, SplitsFit, WellFormed;
      SoundRoot(1);
      LoadedSome(pages, root, 1, All(1));
      SplitsFitLinks(Packed(rs, NO_PAGE, NO_PAGE), Packed(rs, NO_PAGE, prev), RootRoom(pages, root, 1), key, row);
    }

    lemma LeanInsert(l: Leaf, slot: nat, key: seq<Byte>, row: seq<Byte>)
      requires LeafFits(l) && slot <= |l.records|
      ensures DeadBytes(LeafInsert(l, slot, key, row).records) == DeadBytes(l.records)
    {
      DeadInserted(l.records, slot, Record(0, key, row));
    }

    lemma RefusedInsert(l: Leaf, slot: nat, key: seq<Byte>, row: seq<Byte>)
      requires LeafFits(l) && slot <= |l.records| && !LeafRoom(l, key, row)
      ensures LeafInsert(l, slot, key, row) == l
    {
    }

    lemma CurrentIs(h: nat, before: seq<PageId>, current: PageId, after: seq<PageId>)
      requires Sound(h) && root != NO_PAGE && All(h) == before + [current] + after
      ensures current in pages && pages[current].LeafNode? && LeafFits(pages[current].leaf)
      ensures current in All(h)
    {
      assert All(h)[|before|] == current;
    }

    /** Where the leaf a key leads to is full, the table is being loaded and the leaf is its last. */
    lemma SplitNeeded(h: nat, before: seq<PageId>, current: PageId, after: seq<PageId>, key: seq<Byte>, row: seq<Byte>)
      requires Sound(h) && root != NO_PAGE && All(h) == before + [current] + after
      requires current in pages && pages[current].LeafNode? && current == Destination(pages, root, h, key)
      requires AllLeaves(pages, after) && NoneBelow(Records(pages, after), key)
      requires !LeafRoom(pages[current].leaf, key, row) && (Fits(h, key, row) || Loads(h, key, row))
      ensures Loaded(pages, root, h, All(h)) && All(h)[|All(h)| - 1] == current && AllBelow(Records(pages, All(h)), key)
      ensures h <= 1 && root in pages && (h == 1 ==> pages[root].InternalNode?)
      ensures var l := pages[current].leaf;
        && SplitsFit(l, RootRoom(pages, root, h), key, row)
        && |l.records| >= 2
        && InternalRoom(if h == 0 then EMPTY_INTERNAL else pages[root].internal, l.records[|l.records| / 2].key)
    {
      hide Records, Leaves, ClusteredIndex.Index, Loaded, LeafRoom, LeafFits, SplitsFit, Destination, WellFormed;
      SoundRoot(h);
      LoadedSome(pages, root, h, All(h));
      LoadedEnd(pages, root, h, All(h), before, current, after, key);
      SplitsFitStep(pages[current].leaf, RootRoom(pages, root, h), key, row);
      TopIs(pages, root, h);
    }

    /** What a split has done. */
    lemma SplitDone(f: File, wasRoot: PageId, h: nat, wasFree: seq<PageId>, ls: seq<PageId>, added: PageId, mid: nat)
      requires TreeSound(f, wasRoot, h, wasFree) && ls == Leaves(f, [wasRoot], h) && Loaded(f, wasRoot, h, ls)
      requires Split(f, pages, wasRoot, h, root, ls, added, mid) && NO_PAGE !in pages
      requires forall id :: id in free ==> id in wasFree && id != added && id != root
      requires Paged(pages, pageCount)
      requires forall id :: id in pages && pages[id].LeafNode? ==> LeafFits(pages[id].leaf)
      requires Distinct(free) && (forall id :: id in free ==> id in pages)
      ensures Sound(1) && root != NO_PAGE && Loaded(pages, root, 1, All(1)) && All(1) == ls + [added]
    {
      hide Records, Leaves, Loaded, WellFormed, Split, BackChained, FreeApart, Ordered, Ascending;
      hide FirstLive, ClusteredIndex.Index, Distinct, LeafFits, Packed, RootRoom;
      LoadedSome(f, wasRoot, h, ls);
      OrderedAscending(Records(f, ls));
      SplitParts(f, pages, wasRoot, h, root, ls, added, mid);
      SplitSound(f, pages, wasRoot, h, wasFree, root, free, ls, added, mid);
      TreeIndex(pages, root, 1, free);
      SplitLoaded(f, pages, wasRoot, h, root, ls, added, mid);
    }

    // ---- Removing ----

    /** How removal compares keys: by length first. */
    function LengthFirst(a: seq<Byte>, b: seq<Byte>): (c: int)
      ensures c == 0 <==> a == b
    {
      Trichotomy(a, b);
      if |a| != |b| then (if |a| < |b| then -1 else 1)
      else if Less(a, b) then -1 else if a == b then 0 else 1
    }

    /** The leaves from number `j` of the chain on are linked and hold no live record with `key`. */
    ghost predicate NoneFrom(f: File, ls: seq<PageId>, j: nat, key: seq<Byte>) {
      forall i :: j <= i < |ls| ==>
        && ls[i] in f && f[ls[i]].LeafNode?
        && f[ls[i]].leaf.next == Successor(ls, i)
        && !HasLive(f[ls[i]].leaf.records, key)
    }

    /** A key not in the table is nowhere on the chain. */
    lemma NoneOnChain(h: nat, ls: seq<PageId>, j: nat, key: seq<Byte>)
      requires Sound(h) && root != NO_PAGE && All(h) == ls && key !in Rows(h)
      ensures NoneFrom(pages, ls, j, key)
    {
      hide Records, HasLive, Contents;
      ContentsHas(Records(pages, ls), key);
      forall i | j <= i < |ls|
        ensures pages[ls[i]].leaf.next == Successor(ls, i) && !HasLive(pages[ls[i]].leaf.records, key)
      {
        NotHere(pages, ls, i, key);
      }
    }

    lemma NoneAt(f: File, ls: seq<PageId>, j: nat, key: seq<Byte>)
      requires NoneFrom(f, ls, j, key) && j < |ls|
      ensures ls[j] in f && f[ls[j]].LeafNode? && f[ls[j]].leaf.next == Successor(ls, j)
      ensures !HasLive(f[ls[j]].leaf.records, key)
      ensures NoneFrom(f, ls, j + 1, key)
      ensures j + 1 < |ls| ==> ls[j + 1] in f && f[ls[j + 1]].LeafNode? && f[ls[j]].leaf.next == ls[j + 1]
    {
    }

    lemma LiveHere(rs: seq<Record>, slot: nat, key: seq<Byte>)
      requires slot < |rs| && rs[slot].key == key && !rs[slot].Deleted()
      ensures HasLive(rs, key)
    {
    }

    /** Nothing found: the key is not in the table. */
    lemma NoneFound(key: seq<Byte>, h: nat)
      requires Sound(h) && (root != NO_PAGE ==> AllBelow(Records(pages, All(h)), key))
      ensures key !in Rows(h) && Rows(h) == Rows(h) - {key}
    {
      hide Records;
      if root != NO_PAGE {
        Irreflexive(key);
        ContentsHas(Records(pages, All(h)), key);
      }
    }

    /** The first place at `key` or above tells whether the key is in the table. */
    lemma FoundFirst(key: seq<Byte>, h: nat, j: nat, slot: nat)
      requires Sound(h) && root != NO_PAGE && j < |All(h)| && slot < |pages[All(h)[j]].leaf.records|
      requires AllLeaves(pages, All(h)[..j])
      requires FirstAtLeast(Keys(Records(pages, All(h))), key, |Records(pages, All(h)[..j])| + slot)
      ensures var r := pages[All(h)[j]].leaf.records[slot]; key in Rows(h) <==> r.key == key && !r.Deleted()
    {
      hide Records, Contents, HasLive, Leaves, ClusteredIndex.Index, Less, Separated, Chained;
      hide BackChained, FreeApart, FirstAtLeast, Ordered;
      var ls := All(h);
      RecordsAround(pages, ls, j);
      var rs, at := Records(pages, ls), |Records(pages, ls[..j])| + slot;
      assert rs[at] == pages[ls[j]].leaf.records[slot];
      LiveIsFirst(rs, key, at);
      ContentsHas(rs, key);
    }

    lemma RemoveHere(h: nat, ls: seq<PageId>, j: nat, slot: nat)
      requires Sound(h) && root != NO_PAGE && All(h) == ls && j < |ls|
      requires slot < |pages[ls[j]].leaf.records| && !pages[ls[j]].leaf.records[slot].Deleted()
      ensures var old_ := pages[ls[j]].leaf;
        var l := old_.(records := Marked(old_.records, slot)); var g := Swapped(pages, ls[j], l);
        && TreeSound(g, root, h, free) && Leaves(g, [root], h) == ls && LeafFits(l) && Paged(g, pageCount)
        && Contents(Records(g, ls)) == Rows(h) - {old_.records[slot].key}
    {
      hide Records, Leaves, ClusteredIndex.Index, TreeSound, Contents, HasLive, WellFormed;
      SoundMarked(pages, root, h, free, ls, j, slot);
      assert Sizes(Marked(pages[ls[j]].leaf.records, slot)) == Sizes(pages[ls[j]].leaf.records);
    }

    lemma CompactHere(h: nat, ls: seq<PageId>, j: nat)
      requires Sound(h) && root != NO_PAGE && All(h) == ls && j < |ls|
      ensures var l := LeafCompact(pages[ls[j]].leaf); var g := Swapped(pages, ls[j], l);
        && TreeSound(g, root, h, free) && Leaves(g, [root], h) == ls && LeafFits(l) && Paged(g, pageCount)
        && Contents(Records(g, ls)) == Rows(h)
    {
      hide Records, Leaves, ClusteredIndex.Index, TreeSound, Contents, HasLive, WellFormed;
      SoundCompacted(pages, root, h, free, ls, j);
    }

    /** What unlinking an empty leaf may rely on. */
    lemma EmptyLeaf(h: nat, ls: seq<PageId>, j: nat)
      requires Sound(h) && root != NO_PAGE && All(h) == ls && j < |ls| && pages[ls[j]].leaf.records == []
      ensures var prev, next := pages[ls[j]].leaf.prev, pages[ls[j]].leaf.next;
        && prev == Predecessor(ls, j) && next == Successor(ls, j)
        && (prev != NO_PAGE ==> j > 0 && prev == ls[j - 1] && prev in pages && pages[prev].LeafNode?)
        && (next != NO_PAGE ==> j + 1 < |ls| && next == ls[j + 1] && next in pages && pages[next].LeafNode?)
        && (prev != NO_PAGE ==> prev != next)
        && (forall i :: j < i < |ls| ==> ls[i] != prev)
      ensures root == ls[j] <==> h == 0
      ensures h == 0 ==> ls == [root] && Rows(h) == map[] && root !in free
    {
      hide Records;
      assert pages[ls[j]].leaf.next == Successor(ls, j);
      TopIs(pages, root, h);
      if h == 0 {
        RecordsOne(pages, root);
      }
    }

    /** Takes a leaf that has become empty out of the chain and frees its page. */
    method UnlinkEmptyLeaf(leafId: PageId, prevId: PageId, nextId: PageId)
      requires prevId != NO_PAGE ==> prevId in pages && pages[prevId].LeafNode? && prevId != nextId
      requires nextId != NO_PAGE ==> nextId in pages && pages[nextId].LeafNode?
      modifies this
      ensures pages.Keys == old(pages).Keys && pageCount == old(pageCount)
      ensures forall id :: id in pages && id != prevId && id != nextId ==> pages[id] == old(pages)[id]
      ensures prevId != NO_PAGE ==> pages[prevId] == LeafNode(old(pages)[prevId].leaf.(next := nextId))
      ensures nextId != NO_PAGE ==> pages[nextId] == LeafNode(old(pages)[nextId].leaf.(prev := prevId))
      ensures root == if old(root) == leafId then NO_PAGE else old(root)
      ensures free == if |old(free)| < MAX_FREE_PAGES then old(free) + [leafId] else old(free)
    {
      if prevId != NO_PAGE {
        pages := pages[prevId := LeafNode(pages[prevId].leaf.(next := nextId))];
      }
      if nextId != NO_PAGE {
        pages := pages[nextId := LeafNode(pages[nextId].leaf.(prev := prevId))];
      }
      if root == leafId {
        root := NO_PAGE;
      }
      if |free| < MAX_FREE_PAGES {
        free := free + [leafId];
      }
    }

    /** Marks a live record deleted and compacts its leaf when enough of it is dead. */
    method MarkDead(leafId: PageId, slot: nat, ghost h: nat, ghost ls: seq<PageId>, ghost j: nat)
      returns (compacted: bool)
      requires Sound(h) && root != NO_PAGE && All(h) == ls && j < |ls| && ls[j] == leafId
      requires slot < |pages[leafId].leaf.records| && !pages[leafId].leaf.records[slot].Deleted()
      modifies this`pages
      ensures Sound(h) && All(h) == ls && pages.Keys == old(pages).Keys
      ensures var l := old(pages[leafId].leaf); var marked := l.(records := Marked(l.records, slot));
        && (compacted <==> DeadBytes(marked.records) >= PURGE_DEAD_BYTES) && LeafFits(marked)
        && pages == old(pages)[leafId := LeafNode(if compacted then LeafCompact(marked) else marked)]
      ensures var key := old(pages[leafId].leaf.records[slot].key);
        Rows(h) == old(Rows(h)) - {key} && NoneFrom(pages, ls, j, key)
      ensures (old(Lean(pages)) ==> Lean(pages)) && (old(Covered(h)) ==> Covered(h))
    {
      hide OnChain, Records, Leaves, ClusteredIndex.Index, TreeSound, Contents, HasLive, WellFormed;
      hide LeafFits, LeafCompact;
      hide Live, DeadBytes, Less, BackChained, Chained, Distinct, NoneFrom, AllBelow;
      var leaf := pages[leafId].leaf;
      ghost var key := leaf.records[slot].key;
      compacted := false;
      RemoveHere(h, ls, j, slot);
      pages := pages[leafId := LeafNode(leaf.(records := Marked(leaf.records, slot)))];
      TreeIndex(pages, root, h, free);
      var dead := DeadBytes(pages[leafId].leaf.records);
      if dead >= PURGE_DEAD_BYTES {
        compacted := true;
        CompactHere(h, ls, j);
        LeanCompact(pages[leafId].leaf);
        pages := pages[leafId := LeafNode(LeafCompact(pages[leafId].leaf))];
        TreeIndex(pages, root, h, free);
      }
      NoneOnChain(h, ls, j, key);
      if OnChain(old(pages), ls) {
        StillOnChain(old(pages), pages, ls, ls);
      }
    }

    /** `g` is `f` with the neighbours of an empty leaf linked to each other. */
    ghost predicate Unlinked(f: File, g: File, prevId: PageId, nextId: PageId) {
      && g.Keys == f.Keys
      && (forall id :: id in f && id != prevId && id != nextId ==> g[id] == f[id])
      && (prevId != NO_PAGE ==>
        prevId in f && f[prevId].LeafNode? && g[prevId] == LeafNode(f[prevId].leaf.(next := nextId)))
      && (nextId != NO_PAGE ==>
        nextId in f && f[nextId].LeafNode? && g[nextId] == LeafNode(f[nextId].leaf.(prev := prevId)))
    }

    /** Marks a live record deleted, compacts its leaf when enough of it is dead, and unlinks the leaf
        when nothing is left. */
    method Purge(leafId: PageId, slot: nat, ghost h: nat, ghost ls: seq<PageId>, ghost j: nat)
      returns (compacted: bool, gone: bool, nextId: PageId, unlinked: bool)
      requires Sound(h) && root != NO_PAGE && All(h) == ls && j < |ls| && ls[j] == leafId
      requires slot < |pages[leafId].leaf.records| && !pages[leafId].leaf.records[slot].Deleted()
      modifies this
      ensures !gone ==> Sound(h) && root != NO_PAGE && All(h) == ls && !unlinked
      ensures !gone ==> NoneFrom(pages, ls, j, old(pages[leafId].leaf.records[slot].key))
      ensures var marked := Marked(old(pages[leafId].leaf.records), slot);
        && (compacted <==> DeadBytes(marked) >= PURGE_DEAD_BYTES)
        && (gone <==> compacted && forall i :: 0 <= i < |marked| ==> marked[i].Deleted())
      ensures var l := old(pages[leafId].leaf); var marked := l.(records := Marked(l.records, slot));
        LeafFits(marked) &&
        var f := old(pages)[leafId := LeafNode(if compacted then LeafCompact(marked) else marked)];
        if gone then Unlinked(f, pages, l.prev, l.next) else pages == f
      ensures gone ==> nextId == Successor(ls, j) && (nextId != NO_PAGE ==> unlinked)
      ensures gone && nextId != NO_PAGE ==> NoneFrom(pages, ls, j + 1, old(pages[leafId].leaf.records[slot].key))
      ensures !unlinked ==> Sound(h) && Rows(h) == old(Rows(h)) - {old(pages[leafId].leaf.records[slot].key)}
      ensures unlinked ==> h > 0 && root != NO_PAGE
      ensures old(Lean(pages)) ==> Lean(pages)
      ensures !unlinked && old(Covered(h)) ==> Covered(h)
      ensures gone && !unlinked ==> root == NO_PAGE
      ensures free == if gone && |old(free)| < MAX_FREE_PAGES then old(free) + [leafId] else old(free)
      ensures pageCount == old(pageCount)
    {
      hide OnChain, Records, Leaves, ClusteredIndex.Index, TreeSound, Contents, HasLive, WellFormed;
      hide LeafFits, LeafCompact, Live, DeadBytes, Less, BackChained, Chained, Distinct, NoneFrom;
      hide AllBelow;
      ghost var key := pages[leafId].leaf.records[slot].key;
      gone, nextId, unlinked := false, NO_PAGE, false;
      ghost var marked := pages[leafId].leaf.(records := Marked(pages[leafId].leaf.records, slot));
      compacted := MarkDead(leafId, slot, h, ls, j);
      CompactsAway(marked);
      if compacted && pages[leafId].leaf.records == [] {
        EmptyLeaf(h, ls, j);
        NoneAt(pages, ls, j, key);
        ghost var f, wasFree := pages, free;
        var prevId := pages[leafId].leaf.prev;
        gone, nextId := true, pages[leafId].leaf.next;
        UnlinkEmptyLeaf(leafId, prevId, nextId);
        unlinked := root != NO_PAGE;
        if !unlinked {
          assert pages == f;
          DistinctMore(wasFree, leafId);
          if OnChain(f, ls) {
            OffChain(f, ls, leafId);
          }
        }
        if nextId != NO_PAGE {
          NoneAfterUnlink(f, pages, ls, j + 1, prevId, nextId, key);
        }
      }
    }

    /** Deletes all live records with `key`, from the first place with it to the end of the chain or
        to a key that is longer, or as long and above.  `unlinked` says that a leaf other than the
        root became empty and was taken out of the chain. */
    method Remove(key: seq<Byte>, ghost h: nat) returns (deleted: nat, unlinked: bool)
      requires Sound(h)
      modifies this
      ensures deleted == if key in old(Rows(h)) then 1 else 0
      ensures !unlinked ==> Sound(h) && Rows(h) == old(Rows(h)) - {key}
      ensures unlinked ==> h > 0
      ensures old(Lean(pages)) ==> Lean(pages)
      ensures !unlinked && old(Covered(h)) ==> Covered(h)
      ensures pageCount == old(pageCount)
      ensures old(root) != NO_PAGE && root == NO_PAGE ==> free != []
      ensures old(root) == NO_PAGE ==> root == NO_PAGE && free == old(free)
    {
      hide OnChain, Records, Leaves, ClusteredIndex.Index, TreeSound, Contents, HasLive, WellFormed;
      hide LeafFits, Less, FirstAtLeast, Lean, BackChained, Chained, Distinct, NoneFrom, AllBelow;
      deleted, unlinked := 0, false;
      ghost var rows := Rows(h);
      if root != NO_PAGE {
        SoundRoot(h);
      }
      var pos, j := Search(key, h);
      if pos == None {
        NoneFound(key, h);
        return;
      }
      ghost var ls := All(h);
      var leafId: PageId, slot: nat := pos.value.page, pos.value.slot;
      FoundFirst(key, h, j, slot);
      ghost var first := true;
      while true
        invariant j < |ls| && ls[j] == leafId && leafId in pages && pages[leafId].LeafNode?
        invariant unlinked ==> h > 0 && !first
        invariant root != NO_PAGE
        invariant !unlinked ==> Sound(h) && root != NO_PAGE && All(h) == ls
        invariant first ==> Rows(h) == rows && !unlinked && deleted == 0 && slot < |pages[leafId].leaf.records|
        invariant first ==>
          (key in rows <==> pages[leafId].leaf.records[slot].key == key && !pages[leafId].leaf.records[slot].Deleted())
        invariant !first ==> NoneFrom(pages, ls, j, key) && deleted == if key in rows then 1 else 0
        invariant !first && !unlinked ==> Rows(h) == rows - {key}
        invariant old(Lean(pages)) ==> Lean(pages)
        invariant !unlinked && old(Covered(h)) ==> Covered(h)
        invariant pageCount == old(pageCount)
        decreases |ls| - j, first,
          if slot <= |pages[leafId].leaf.records| then |pages[leafId].leaf.records| - slot else 0
      {
        var leaf := pages[leafId].leaf;
        if slot >= |leaf.records| {
          NoneAt(pages, ls, j, key);
          if leaf.next == NO_PAGE {
            break;
          }
          leafId, slot, j := leaf.next, 0, j + 1;
          continue;
        }
        var record := leaf.records[slot];
        var cmp := LengthFirst(record.key, key);
        if cmp > 0 {
          break;
        }
        if cmp == 0 && !record.Deleted() {
          LiveHere(leaf.records, slot, key);
          if !first {
            NoneAt(pages, ls, j, key);
            assert false;
          }
          var compacted, gone, nextId, lost := Purge(leafId, slot, h, ls, j);
          deleted := deleted + 1;
          first := false;
          unlinked := unlinked || lost;
          if gone {
            if nextId == NO_PAGE {
              break;
            }
            NoneAtStart(pages, ls, j + 1, key);
            leafId, slot, j := nextId, 0, j + 1;
            continue;
          }
          NoneAtStart(pages, ls, j, key);
          if !compacted {
            slot := slot + 1;
          }
          continue;
        }
        if first {
          NoneOnChain(h, ls, j, key);
          first := false;
        }
        slot := slot + 1;
      }
    }

    lemma LeanCompact(l: Leaf)
      requires LeafFits(l)
      ensures DeadBytes(LeafCompact(l).records) == 0
    {
      LiveNoDead(l.records);
    }

    lemma NoneAtStart(f: File, ls: seq<PageId>, j: nat, key: seq<Byte>)
      requires NoneFrom(f, ls, j, key)
      ensures j < |ls| ==> ls[j] in f && f[ls[j]].LeafNode?
    {
    }

    lemma DistinctMore(ids: seq<PageId>, id: PageId)
      requires Distinct(ids) && id !in ids
      ensures Distinct(ids + [id])
    {
    }

    lemma NoneAfterUnlink(f: File, g: File, ls: seq<PageId>, j: nat, prev: PageId, next: PageId, key: seq<Byte>)
      requires NoneFrom(f, ls, j, key) && g.Keys == f.Keys
      requires forall i :: j <= i < |ls| ==> ls[i] != prev
      requires forall id :: id in g && id != prev && id != next ==> g[id] == f[id]
      requires next in f && f[next].LeafNode? && g[next] == LeafNode(f[next].leaf.(prev := prev))
      ensures NoneFrom(g, ls, j, key)
    {
      hide HasLive;
    }

    // ---- Runs ----

    /** Whether the leaf that `key` leads to has room. */
    method HasRoom(key: seq<Byte>, row: seq<Byte>, ghost h: nat) returns (room: bool)
      requires Sound(h)
      ensures room == Fits(h, key, row)
    {
      hide Leaves, ClusteredIndex.Index, Records, LeafRoom, Destination, WellFormed;
      if root == NO_PAGE {
        return LeafRoom(EMPTY_LEAF, key, row);
      }
      SoundRoot(h);
      var current, parent, before, after := Descend(key, h);
      CurrentIs(h, before, current, after);
      return LeafRoom(pages[current].leaf, key, row);
    }

    /** An insertion behind the check for a duplicate (src/executor/executors.cpp). */
    method GuardedInsert(key: seq<Byte>, row: seq<Byte>, ghost h: nat) returns (duplicate: bool, ghost newH: nat)
      requires Sound(h) && LEAF_HEADER_SIZE + |key| + |row| < 0x10000 && pageCount < NO_PAGE
      requires key in Rows(h) || Fits(h, key, row)
      modifies this
      ensures duplicate == (key in old(Rows(h)))
      ensures Sound(newH) && newH == (if old(root) == NO_PAGE && !duplicate then 0 else h)
      ensures Rows(newH) == Effect(old(Rows(h)), Put(key, row)) && (old(Covered(h)) ==> Covered(newH))
      ensures old(Lean(pages)) ==> Lean(pages)
      ensures pageCount == old(pageCount) + (if !duplicate && old(root) == NO_PAGE && old(free) == [] then 1 else 0)
      ensures duplicate || old(root) != NO_PAGE ==> free == old(free) && (root == NO_PAGE <==> old(root) == NO_PAGE)
      ensures !duplicate ==> root != NO_PAGE
    {
      newH := h;
      duplicate := KeyExists(key, h);
      if duplicate {
        return;
      }
      newH := Insert(key, row, h);
    }

    /** One operation on a table of one leaf; not done when it is an insertion that finds no room. */
    method Do(op: Op) returns (done: bool, answer: bool)
      requires Sound(0) && Lean(pages) && pageCount < NO_PAGE
      requires op.Put? ==> LEAF_HEADER_SIZE + |op.key| + |op.row| < 0x10000
      modifies this
      ensures Sound(0) && Lean(pages) && (old(Covered(0)) ==> Covered(0))
      ensures done ==> Rows(0) == Effect(old(Rows(0)), op) && answer == (op.key in old(Rows(0)))
      ensures !done ==> op.Put? && Rows(0) == old(Rows(0)) && op.key !in Rows(0) && !Fits(0, op.key, op.row)
      ensures pageCount == old(pageCount)
        || (pageCount == old(pageCount) + 1 && root != NO_PAGE && old(root) == NO_PAGE && old(free) == [])
      ensures old(root) != NO_PAGE || old(free) != [] ==> root != NO_PAGE || free != []
    {
      hide OnChain, TreeSound, Rows, Lean, Fits, LeafFits, Paged, Distinct, ClusteredIndex.Index;
      match op
      case Put(key, row) =>
        var found := KeyExists(key, 0);
        var room := HasRoom(key, row, 0);
        if !found && !room {
          return false, false;
        }
        var duplicate, h := GuardedInsert(key, row, 0);
        return true, duplicate;
      case Delete(key) =>
        var deleted, unlinked := Remove(key, 0);
        return true, deleted == 1;
    }

    /** One row of an UPDATE (src/executor/executors.cpp) in a table of one leaf: a new key that is taken is
        refused, else the old row is removed and the new one inserted, if there is room for it. */
    method ReplaceRow(oldKey: seq<Byte>, newKey: seq<Byte>, row: seq<Byte>) returns (taken: bool, done: bool)
      requires Sound(0) && Lean(pages) && pageCount < NO_PAGE && LEAF_HEADER_SIZE + |newKey| + |row| < 0x10000
      modifies this
      ensures Sound(0) && Lean(pages) && (old(Covered(0)) ==> Covered(0))
      ensures taken == (newKey != oldKey && newKey in old(Rows(0)))
      ensures taken ==> Rows(0) == old(Rows(0))
      ensures !taken && done ==> Rows(0) == (old(Rows(0)) - {oldKey})[newKey := row]
      ensures !taken && !done ==> Rows(0) == old(Rows(0)) - {oldKey} && !Fits(0, newKey, row)
    {
      hide OnChain, TreeSound, Rows, Lean, Fits, LeafFits, Paged, Distinct, ClusteredIndex.Index;
      taken, done := false, false;
      if newKey != oldKey {
        taken := KeyExists(newKey, 0);
        if taken {
          return;
        }
      }
      var deleted, unlinked := Remove(oldKey, 0);
      done := HasRoom(newKey, row, 0);
      if done {
        ghost var h := Insert(newKey, row, 0);
      }
    }

    /** Any history of guarded insertions and removals in a table of one leaf, up to an insertion for
        which the leaf has no room: the table behaves as a map, each operation answers as that map
        does, and at most one page is ever added to the file. */
    method Run(ops: seq<Op>) returns (done: nat, answers: seq<bool>)
      requires Sound(0) && Lean(pages) && pageCount < NO_PAGE - 1
      requires forall i :: 0 <= i < |ops| && ops[i].Put? ==> LEAF_HEADER_SIZE + |ops[i].key| + |ops[i].row| < 0x10000
      modifies this
      ensures done <= |ops| && Sound(0) && Lean(pages) && (old(Covered(0)) ==> Covered(0))
      ensures Rows(0) == After(old(Rows(0)), ops[..done])
      ensures |answers| == done
      ensures forall i :: 0 <= i < done ==> answers[i] == (ops[i].key in After(old(Rows(0)), ops[..i]))
      ensures done < |ops| ==> ops[done].Put? && ops[done].key !in Rows(0) && !Fits(0, ops[done].key, ops[done].row)
      ensures old(pageCount) <= pageCount <= old(pageCount) + 1
    {
      hide OnChain, TreeSound, Rows, Lean, Fits, LeafFits, Paged, Distinct, ClusteredIndex.Index, After, Effect;
      ghost var rows := Rows(0);
      done, answers := 0, [];
      AfterNone(rows, ops);
      while done < |ops|
        invariant done <= |ops| && Sound(0) && Lean(pages) && (old(Covered(0)) ==> Covered(0))
        invariant Rows(0) == After(rows, ops[..done])
        invariant |answers| == done && forall i :: 0 <= i < done ==> answers[i] == (ops[i].key in After(rows, ops[..i]))
        invariant pageCount == old(pageCount) || (pageCount == old(pageCount) + 1 && (root != NO_PAGE || free != []))
        decreases |ops| - done
      {
        AfterOne(rows, ops, done);
        var ok, answer := Do(ops[done]);
        if !ok {
          return;
        }
        answers := answers + [answer];
        done := done + 1;
      }
    }

    lemma LoadedOne(rows: seq<Row>, i: nat)
      requires i < |rows|
      ensures RecordsOf(rows[..i + 1]) == RecordsOf(rows[..i]) + [Record(0, rows[i].key, rows[i].row)]
      ensures AsTable(rows[..i + 1]) == AsTable(rows[..i])[rows[i].key := rows[i].row]
    {
      assert rows[..i + 1][..i] == rows[..i];
    }

    lemma NothingLoaded(rows: seq<Row>)
      ensures RecordsOf(rows[..0]) == [] && AsTable(rows[..0]) == map[] && AsTable([]) == map[]
    {
    }

    lemma SoundTall(h: nat)
      requires Sound(h) && root != NO_PAGE
      ensures Tall(h)
    {
    }

    lemma EmptyRows()
      requires Sound(0) && root == NO_PAGE
      ensures Rows(0) == map[] == AsTable([])
    {
    }

    /** The index is `h` levels high. */
    ghost predicate Tall(h: nat)
      reads this
    {
      root != NO_PAGE && ClusteredIndex.Index(pages, [root], h)
    }

    lemma LoadState(h: nat)
      requires Sound(h) && root != NO_PAGE && ClusteredIndex.Index(pages, [root], h) && Loaded(pages, root, h, All(h))
      ensures Tall(h) && h <= 1 && root in pages && (pages[root].InternalNode? <==> h == 1)
      ensures LeafFits(pages[All(h)[|All(h)| - 1]].leaf) && LastCount(h) <= PAGE_SIZE / 2 - 16
    {
      hide Records, Separated, RootOver;
      TopIs(pages, root, h);
      LoadedSome(pages, root, h, All(h));
    }

    /** The last leaf of the chain, by the links of the root. */
    lemma LastLeaf(h: nat)
      requires Sound(h) && Tall(h) && Loaded(pages, root, h, All(h))
      ensures root in pages && AllLeaves(pages, All(h)) && All(h) != []
      ensures All(h)[|All(h)| - 1] == if pages[root].LeafNode? then root else pages[root].internal.rightmost
    {
      hide Records, Separated;
      LoadState(h);
    }

    /** Whether the splits it takes to insert behind all keys find room in the root. */
    method SplitsWillFit(key: seq<Byte>, row: seq<Byte>, ghost h: nat) returns (fit: bool)
      requires Sound(h) && Tall(h) && Loaded(pages, root, h, All(h))
      requires (h > 0 ==> root in pages && pages[root].InternalNode?)
      ensures fit == SplitsFit(pages[All(h)[|All(h)| - 1]].leaf, RootRoom(pages, root, h), key, row)
    {
      hide Records, Leaves, Loaded, SplitsFit, LeafFits, TreeSound, WellFormed;
      LoadState(h);
      LastLeaf(h);
      var top := pages[root];
      if top.LeafNode? {
        fit := SplitsFit(top.leaf, None, key, row);
      } else {
        fit := SplitsFit(pages[top.internal.rightmost].leaf, Some(top.internal.freeEnd - top.internal.freeStart), key,
          row);
      }
    }

    /** The next row of a load can be inserted. */
    lemma LoadStep(h: nat, rows: seq<Row>, i: nat)
      requires Sound(h) && Loadable(rows) && i < |rows| && Rows(h) == AsTable(rows[..i])
      requires root != NO_PAGE ==>
        && ClusteredIndex.Index(pages, [root], h) && Loaded(pages, root, h, All(h))
          && Records(pages, All(h)) == RecordsOf(rows[..i])
      requires root == NO_PAGE ==> h == 0
      ensures rows[i].key !in Rows(h) && (root == NO_PAGE ==> Fits(h, rows[i].key, rows[i].row))
      ensures if root == NO_PAGE
        || SplitsFit(pages[All(h)[|All(h)| - 1]].leaf, RootRoom(pages, root, h), rows[i].key, rows[i].row)
        then Loads(h, rows[i].key, rows[i].row)
        else RootFull(h, rows[i])
      ensures LastCount(h) <= PAGE_SIZE / 2 - 16 && IndexSize(h) <= MAX_LEAVES + 1
    {
      hide Records, Leaves, Loaded, SplitsFit, LeafFits, TreeSound, WellFormed, Contents, AllBelow, Asked;
      NewRow(rows, i);
      LoadSize(rows, i);
      if root != NO_PAGE {
        LoadState(h);
        SoundRoot(h);
        LoadFits(pages, root, h, All(h), rows, i);
        FewLeaves(pages, root, h, All(h));
      }
    }

    lemma NewRow(rows: seq<Row>, i: nat)
      requires Loadable(rows) && i < |rows|
      ensures rows[i].key !in AsTable(rows[..i])
    {
      AsTableKeys(rows[..i], rows[i].key);
      Irreflexive(rows[i].key);
      forall k | 0 <= k < i ensures rows[..i][k].key != rows[i].key {
        assert rows[..i][k] == rows[k] && Less(rows[k].key, rows[i].key);
      }
    }

    /** The root, over the chain, has not enough left for all separators that inserting a row behind all
        keys asks for. */
    ghost predicate RootFull(h: nat, row: Row)
      reads this
    {
      && h == 1 && Tall(h) && Loaded(pages, root, h, All(h)) && root in pages && pages[root].InternalNode?
      && Separators(Asked(pages[All(h)[|All(h)| - 1]].leaf, row.key, row.row))
           > pages[root].internal.freeEnd - pages[root].internal.freeStart
    }

    /** Loads rows in strictly ascending key order into an empty table, until the root page has too little
        left for the separators of one more insertion. */
    method Load(rows: seq<Row>) returns (done: nat, ghost h: nat)
      requires Sound(0) && root == NO_PAGE && Loadable(rows)
      requires pageCount + 2 * PAGE_SIZE <= NO_PAGE
      modifies this
      ensures done <= |rows| && Sound(h) && Rows(h) == AsTable(rows[..done]) && (old(Covered(0)) ==> Covered(h))
      ensures done > 0 ==> root != NO_PAGE && Records(pages, All(h)) == RecordsOf(rows[..done])
      ensures done < |rows| ==> RootFull(h, rows[done])
    {
      hide OnChain, RecordsOf, AsTable, TreeSound, Rows, Leaves, Records, Loaded, LastCount;
      hide SplitsFit, Loads, Fits, Loadable;
      hide ClusteredIndex.Index, LeafFits, Paged, Distinct, RootFull, Asked;
      done, h := 0, 0;
      EmptyRows();
      NothingLoaded(rows);
      while done < |rows|
        invariant done <= |rows| && Sound(h) && Rows(h) == AsTable(rows[..done])
        invariant (done == 0 <==> root == NO_PAGE) && (done == 0 ==> h == 0)
        invariant done > 0 ==>
          Tall(h) && Loaded(pages, root, h, All(h)) && Records(pages, All(h)) == RecordsOf(rows[..done])
        invariant pageCount - IndexSize(h) <= old(pageCount) && (old(Covered(0)) ==> Covered(h))
      {
        var r := rows[done];
        LoadSize(rows, done);
        LoadStep(h, rows, done);
        if root != NO_PAGE {
          LoadState(h);
          var fit := SplitsWillFit(r.key, r.row, h);
          if !fit {
            return;
          }
        }
        h := Insert(r.key, r.row, h);
        SoundTall(h);
        LoadedOne(rows, done);
        done := done + 1;
      }
    }
  }

  /** Both scans return the same rows, each as often, when every leaf page that holds a record is on
      the chain; and one throws exactly when the other does. */
  method ScansAgree(index: BPlusTree, ghost h: nat)
    returns (byKey: seq<seq<Byte>>, byPage: seq<seq<Byte>>, threw: bool, threwToo: bool)
    requires index.root != NO_PAGE ==> WellFormed(index.pages, index.root, h)
    requires 2 <= index.pageCount <= NO_PAGE && forall id: PageId :: 2 <= id < index.pageCount ==> id in index.pages
    requires var ls := index.Chain(h); Distinct(ls) && forall i :: 0 <= i < |ls| ==> 2 <= ls[i] < index.pageCount
    requires OnList(index.pages, index.Chain(h), 2, index.pageCount)
    ensures threw == threwToo == !RowIds(Records(index.pages, index.Chain(h)))
    ensures !threw ==>
      byKey == LiveRows(Records(index.pages, index.Chain(h))) && multiset(byKey) == multiset(byPage)
  {
    hide LiveRows, RowIds, Records, Leaves, Separated, ClusteredIndex.Index, OnList, Distinct;
    byKey, threw := index.DrainIndex(h);
    byPage, threwToo := index.DrainFile();
    NoRecords(index.pages);
    SameRows(index.pages, index.Chain(h), 2, index.pageCount);
  }

  lemma NoRecords(f: File)
    ensures Records(f, []) == [] && LiveRows([]) == [] && RowIds([])
  {
  }

  /** On every table that insertions, removals and loads have built from a new one both scans return its
      rows, the index scan in the order of `keys`; they throw when there is a row too short for a row id. */
  method ScanBoth(index: BPlusTree, ghost h: nat)
    returns (byKey: seq<seq<Byte>>, byPage: seq<seq<Byte>>, threw: bool, threwToo: bool, ghost keys: seq<seq<Byte>>)
    requires index.Sound(h) && index.Covered(h)
    ensures threw == threwToo
    ensures threw <==> exists key :: key in index.Rows(h) && |index.Rows(h)[key]| < ROW_ID_SIZE
    ensures !threw ==> Lists(index.Rows(h), keys, byKey) && multiset(byPage) == multiset(byKey)
  {
    hide Lists, LiveRows, LiveKeys, RowIds, Contents, Ordered, OnList, Distinct, Records, LeafFits;
    ChainIn(index, h);
    byKey, byPage, threw, threwToo := ScansAgree(index, h);
    ghost var rs := Records(index.pages, index.Chain(h));
    ChainOrdered(index, h);
    keys := LiveKeys(rs);
    RowIdsMean(rs);
    if !threw {
      LiveRowsList(rs);
    }
  }

  lemma ChainOrdered(index: BPlusTree, h: nat)
    requires index.Sound(h)
    ensures AllLeaves(index.pages, index.Chain(h))
    ensures Ordered(Records(index.pages, index.Chain(h)))
    ensures Contents(Records(index.pages, index.Chain(h))) == index.Rows(h)
  {
    NoRecords(index.pages);
  }

  lemma ChainIn(index: BPlusTree, h: nat)
    requires index.Sound(h) && index.Covered(h)
    ensures Distinct(index.Chain(h))
    ensures forall i :: 0 <= i < |index.Chain(h)| ==> 2 <= index.Chain(h)[i] < index.pageCount
    ensures OnList(index.pages, index.Chain(h), 2, index.pageCount)
  {
    hide Records, LeafFits;
  }
}
