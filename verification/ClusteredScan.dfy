/** What descending the clustered index keeps, and what its two scans read: by leaf chain
    (src/storage/bplustree.cpp) and by page number (src/executor/seq_scan_cursor.cpp). */
module ClusteredScan {
  import opened Bytes
  import opened PageLists
  import opened ClusteredIndex

  const ROW_ID_SIZE := 8

  datatype Option<+T> = None | Some(value: T)

  datatype ScanPosition = ScanPosition(page: PageId, slot: nat)

  /** What a scan step gives: an entry and where to go on, the end, or an exception. */
  datatype Step<+T> = Entry(value: T, next: ScanPosition) | Done | Thrown

  /** A row without the row id in front of it. */
  function Stripped(row: seq<Byte>): seq<Byte> {
    if |row| < ROW_ID_SIZE then [] else row[ROW_ID_SIZE..]
  }

  /** The rows of the records that are not deleted. */
  function LiveRows(rs: seq<Record>): seq<seq<Byte>> {
    if rs == [] then []
    else (if rs[0].Deleted() then [] else [Stripped(rs[0].row)]) + LiveRows(rs[1..])
  }

  /** Every record that is not deleted has a row id. */
  predicate RowIds(rs: seq<Record>) {
    forall i :: 0 <= i < |rs| ==> rs[i].Deleted() || ROW_ID_SIZE <= |rs[i].row|
  }

  lemma {:induction false} LiveRowsConcat(a: seq<Record>, b: seq<Record>)
    ensures LiveRows(a + b) == LiveRows(a) + LiveRows(b)
  {
    if a == [] {
      assert a + b == b;
    } else {
      assert (a + b)[1..] == a[1..] + b;
      LiveRowsConcat(a[1..], b);
    }
  }

  /** One record in front of others. */
  lemma LiveRowsFirst(r: Record, rs: seq<Record>)
    ensures LiveRows([r] + rs) == (if r.Deleted() then [] else [Stripped(r.row)]) + LiveRows(rs)
    ensures RowIds([r] + rs) <==> (r.Deleted() || ROW_ID_SIZE <= |r.row|) && RowIds(rs)
  {
    assert ([r] + rs)[1..] == rs;
    RowIdsConcat([r], rs);
    assert [r][0] == r;
  }

  /** The records of a list of leaves from a place on. */
  function Tail(f: File, ls: seq<PageId>, j: nat, slot: nat): seq<Record>
    requires AllLeaves(f, ls) && j < |ls| && slot <= |f[ls[j]].leaf.records|
  {
    f[ls[j]].leaf.records[slot..] + Records(f, ls[j + 1..])
  }

  lemma TailStep(f: File, ls: seq<PageId>, j: nat, slot: nat)
    requires AllLeaves(f, ls) && j < |ls| && slot < |f[ls[j]].leaf.records|
    ensures var r := f[ls[j]].leaf.records[slot]; var rest := Tail(f, ls, j, slot + 1);
      && |Tail(f, ls, j, slot)| == 1 + |rest|
      && LiveRows(Tail(f, ls, j, slot)) == (if r.Deleted() then [] else [Stripped(r.row)]) + LiveRows(rest)
      && (RowIds(Tail(f, ls, j, slot)) <==> (r.Deleted() || ROW_ID_SIZE <= |r.row|) && RowIds(rest))
  {
    hide LiveRows, RowIds, Records;
    var here := f[ls[j]].leaf.records;
    assert here[slot..] == [here[slot]] + here[slot + 1..];
    assert Tail(f, ls, j, slot) == [here[slot]] + Tail(f, ls, j, slot + 1);
    LiveRowsFirst(here[slot], Tail(f, ls, j, slot + 1));
  }

  lemma TailNext(f: File, ls: seq<PageId>, j: nat)
    requires AllLeaves(f, ls) && j < |ls|
    ensures Tail(f, ls, j, |f[ls[j]].leaf.records|) == if j + 1 < |ls| then Tail(f, ls, j + 1, 0) else []
  {
    hide Records;
    if j + 1 < |ls| {
      var rest := ls[j + 1..];
      RecordsAround(f, rest, 0);
      assert rest[..0] == [] && rest[1..] == ls[j + 2..];
      NoLeaves(f, 0);
    } else {
      NoLeaves(f, 0);
    }
  }

  lemma TailWhole(f: File, ls: seq<PageId>)
    requires AllLeaves(f, ls) && ls != []
    ensures Tail(f, ls, 0, 0) == Records(f, ls)
  {
    hide Records;
    RecordsAround(f, ls, 0);
    assert ls[..0] == [];
    NoLeaves(f, 0);
    var here := f[ls[0]].leaf.records;
    assert here[0..] == here && [] + here == here;
  }

  /** The records of the leaf pages with numbers from `from` up to `end`, in the order of the file. */
  function FileRecords(f: File, from: nat, end: nat): seq<Record>
    requires from <= end <= NO_PAGE && forall id: PageId :: from <= id < end ==> id in f
    decreases end
  {
    if from == end then [] else FileRecords(f, from, end - 1) + PageRecords(f, end - 1)
  }

  function PageRecords(f: File, id: PageId): seq<Record>
    requires id in f
  {
    if f[id].LeafNode? then f[id].leaf.records else []
  }

  lemma {:induction false} FileRecordsSplit(f: File, from: nat, at: nat, end: nat)
    requires from <= at < end <= NO_PAGE && forall id: PageId :: from <= id < end ==> id in f
    ensures FileRecords(f, from, end) == FileRecords(f, from, at) + PageRecords(f, at) + FileRecords(f, at + 1, end)
    decreases end
  {
    if at + 1 < end {
      FileRecordsSplit(f, from, at, end - 1);
      assert FileRecords(f, at + 1, end) == FileRecords(f, at + 1, end - 1) + PageRecords(f, end - 1);
    }
  }

  predicate Distinct(ls: seq<PageId>) {
    forall i, j :: 0 <= i < j < |ls| ==> ls[i] != ls[j]
  }

  /** Every leaf page that holds a record is on the list. */
  predicate OnList(f: File, ls: seq<PageId>, from: nat, end: nat)
    requires from <= end <= NO_PAGE && forall id: PageId :: from <= id < end ==> id in f
  {
    forall id: PageId :: from <= id < end && PageRecords(f, id) != [] ==> id in ls
  }

  /** The same of all pages of the file. */
  predicate OnChain(f: File, ls: seq<PageId>) {
    forall id: PageId :: id in f && PageRecords(f, id) != [] ==> id in ls
  }

  /** A change of leaves on the chain, or one that leaves other pages without records. */
  lemma StillOnChain(f: File, g: File, ls: seq<PageId>, more: seq<PageId>)
    requires OnChain(f, ls) && forall id :: id in ls ==> id in more
    requires forall id :: id in g && id !in more ==> (id in f && g[id] == f[id]) || PageRecords(g, id) == []
    ensures OnChain(g, more)
  {
  }

  /** A leaf of the chain without records can leave it. */
  lemma OffChain(f: File, ls: seq<PageId>, id: PageId)
    requires OnChain(f, ls) && ls == [id] && id in f && PageRecords(f, id) == []
    ensures OnChain(f, [])
  {
  }

  /** The list and the file order hold the same live rows, each as often. */
  lemma {:induction false} SameRows(f: File, ls: seq<PageId>, from: nat, end: nat)
    requires from <= end <= NO_PAGE && forall id: PageId :: from <= id < end ==> id in f
    requires AllLeaves(f, ls) && Distinct(ls) && OnList(f, ls, from, end)
    requires forall i :: 0 <= i < |ls| ==> from <= ls[i] < end
    ensures multiset(LiveRows(Records(f, ls))) == multiset(LiveRows(FileRecords(f, from, end)))
    ensures RowIds(Records(f, ls)) <==> RowIds(FileRecords(f, from, end))
    decreases end
  {
    hide LiveRows, Records, RowIds, Distinct, AllLeaves;
    if from == end {
      Outside(ls, from);
      NoLeaves(f, 0);
    } else {
      var last := end - 1;
      var a, x := FileRecords(f, from, last), PageRecords(f, last);
      assert FileRecords(f, from, end) == a + x;
      LiveRowsConcat(a, x);
      RowIdsConcat(a, x);
      if j :| 0 <= j < |ls| && ls[j] == last {
        Without(f, ls, from, last, j);
        SameRows(f, ls[..j] + ls[j + 1..], from, last);
        Removed(f, ls, j);
      } else {
        assert x == [];
        NoRows();
        SameRows(f, ls, from, last);
      }
    }
  }

  function First(ls: seq<PageId>): Option<PageId> {
    if ls == [] then None else Some(ls[0])
  }

  lemma Outside(ls: seq<PageId>, from: nat)
    requires forall i :: 0 <= i < |ls| ==> from <= ls[i] < from
    ensures ls == []
  {
    var first := First(ls);
  }

  lemma Without(f: File, ls: seq<PageId>, from: nat, last: nat, j: nat)
    requires from <= last < NO_PAGE && forall id: PageId :: from <= id < last + 1 ==> id in f
    requires AllLeaves(f, ls) && Distinct(ls) && OnList(f, ls, from, last + 1)
    requires forall i :: 0 <= i < |ls| ==> from <= ls[i] < last + 1
    requires j < |ls| && ls[j] == last
    ensures f[ls[j]].LeafNode?
    ensures var rest := ls[..j] + ls[j + 1..];
      && AllLeaves(f, rest) && Distinct(rest) && OnList(f, rest, from, last)
      && forall i :: 0 <= i < |rest| ==> from <= rest[i] < last
  {
    var rest := ls[..j] + ls[j + 1..];
    assert forall i :: 0 <= i < |rest| ==> rest[i] == if i < j then ls[i] else ls[i + 1];
    forall id: PageId | from <= id < last && PageRecords(f, id) != [] ensures id in rest {
      var k :| 0 <= k < |ls| && ls[k] == id;
      assert rest[if k < j then k else k - 1] == id;
    }
  }

  lemma NoRows()
    ensures LiveRows([]) == [] && RowIds([])
  {
  }

  lemma RowIdsConcat(a: seq<Record>, b: seq<Record>)
    ensures RowIds(a + b) <==> RowIds(a) && RowIds(b)
  {
    if RowIds(a + b) {
      forall i | 0 <= i < |a| ensures a[i].Deleted() || ROW_ID_SIZE <= |a[i].row| { assert (a + b)[i] == a[i]; }
      forall i | 0 <= i < |b| ensures b[i].Deleted() || ROW_ID_SIZE <= |b[i].row| { assert (a + b)[|a| + i] == b[i]; }
    }
  }

  lemma Removed(f: File, ls: seq<PageId>, j: nat)
    requires AllLeaves(f, ls) && j < |ls|
    ensures AllLeaves(f, ls[..j] + ls[j + 1..])
    ensures multiset(LiveRows(Records(f, ls)))
      == multiset(LiveRows(Records(f, ls[..j] + ls[j + 1..]))) + multiset(LiveRows(f[ls[j]].leaf.records))
    ensures RowIds(Records(f, ls)) <==> RowIds(Records(f, ls[..j] + ls[j + 1..])) && RowIds(f[ls[j]].leaf.records)
  {
    hide LiveRows, Records, RowIds;
    RecordsAround(f, ls, j);
    var a, x, b := Records(f, ls[..j]), f[ls[j]].leaf.records, Records(f, ls[j + 1..]);
    RecordsConcat(f, ls[..j], ls[j + 1..]);
    LiveRowsConcat(a + x, b);
    LiveRowsConcat(a, x);
    LiveRowsConcat(a, b);
    RowIdsConcat(a + x, b);
    RowIdsConcat(a, x);
    RowIdsConcat(a, b);
  }

  // ---- Descending ----

  /** A descent is at `current`, `below` levels above the leaves: the leaves of the tree are those
      before it, all below `key`, those under it, and those after it. */
  ghost predicate Reached(f: File, ls: seq<PageId>, before: seq<PageId>, current: PageId, after: seq<PageId>,
          below: nat, key: seq<Byte>) {
    && ClusteredIndex.Index(f, [current], below) && Separated(f, [current], below)
    && AllLeaves(f, before) && AllBelow(Records(f, before), key)
    && ls == before + Leaves(f, [current], below) + after
    && AllLeaves(f, after) && NoneBelow(Records(f, after), key)
    && current in f && (f[current].LeafNode? <==> below == 0) && (f[current].InternalNode? <==> below > 0)
  }

  /** The leaf a descent for `key` ends at. */
  function Destination(f: File, id: PageId, h: nat, key: seq<Byte>): PageId
    requires ClusteredIndex.Index(f, [id], h)
    decreases h
  {
    if h == 0 then id else
    assert [id][0] == id && AllKids(f, [id]) == Kids(f[id].internal) + AllKids(f, [id][1..]) == Kids(f[id].internal);
    var slot := FirstSlot(CellKeys(f[id].internal.cells), key);
    ChildIndex(f, id, h - 1, slot);
    Destination(f, Kids(f[id].internal)[slot], h - 1, key)
  }

  lemma ChildIndex(f: File, id: PageId, h: nat, i: nat)
    requires id in f && f[id].InternalNode? && i <= |f[id].internal.cells|
    requires ClusteredIndex.Index(f, Kids(f[id].internal), h)
    ensures ClusteredIndex.Index(f, [Kids(f[id].internal)[i]], h)
  {
    var ks := Kids(f[id].internal);
    assert ks == ks[..i] + ([ks[i]] + ks[i + 1..]);
    IndexParts(f, ks[..i], [ks[i]] + ks[i + 1..], h);
    IndexParts(f, [ks[i]], ks[i + 1..], h);
  }

  /** Taking the child at the first separator that is not below `key`. */
  lemma GoDown(f: File, ls: seq<PageId>, before: seq<PageId>, current: PageId, after: seq<PageId>, below: nat,
          key: seq<Byte>, slot: nat)
    returns (newBefore: seq<PageId>, newAfter: seq<PageId>)
    requires Reached(f, ls, before, current, after, below, key) && below > 0
    requires slot == FirstSlot(CellKeys(f[current].internal.cells), key)
    ensures Reached(f, ls, newBefore, Kids(f[current].internal)[slot], newAfter, below - 1, key)
    ensures Destination(f, current, below, key) == Destination(f, Kids(f[current].internal)[slot], below - 1, key)
  {
    hide Leaves, ClusteredIndex.Index, Separated, Separates, Ascending, Records;
    var node := f[current].internal;
    var ks := Kids(node);
    LevelDown(f, current, below - 1);
    CellsAscending(f, node, below - 1);
    StepDown(f, current, below - 1, slot);
    assert forall i :: 0 <= i < slot ==> Less(CellKeys(node.cells)[i], key);
    LeftBelow(f, node, below - 1, key, slot);
    var left := Leaves(f, ks[..slot], below - 1);
    var right := Leaves(f, ks[slot + 1..], below - 1);
    RecordsConcat(f, before, left);
    BelowConcat(Records(f, before), Records(f, left), key);
    FirstSlotIs(CellKeys(node.cells), key);
    assert forall j :: slot <= j < |node.cells| ==> !Less(CellKeys(node.cells)[j], key);
    RightNotBelow(f, node, below - 1, key, slot);
    RecordsConcat(f, right, after);
    NotBelowConcat(Records(f, right), Records(f, after), key);
    newBefore, newAfter := before + left, right + after;
    var under := Leaves(f, [ks[slot]], below - 1);
    assert before + (left + under + right) + after == newBefore + under + newAfter;
    TopIs(f, ks[slot], below - 1);
  }

  // ---- Small steps ----

  lemma TopIs(f: File, id: PageId, h: nat)
    requires ClusteredIndex.Index(f, [id], h)
    ensures id in f && (h == 0 <==> f[id].LeafNode?) && (h > 0 <==> f[id].InternalNode?)
  {
    assert [id][0] == id;
  }

  lemma LeafIs(f: File, id: PageId)
    requires ClusteredIndex.Index(f, [id], 0)
    ensures Leaves(f, [id], 0) == [id]
  {
  }

  lemma CellsAscending(f: File, n: Internal, h: nat)
    requires ClusteredIndex.Index(f, Kids(n), h) && Separates(f, n, h)
    ensures n.cells != [] && Ascending(CellKeys(n.cells))
  {
  }

  lemma BelowConcat(a: seq<Record>, b: seq<Record>, key: seq<Byte>)
    requires AllBelow(a, key) && AllBelow(b, key)
    ensures AllBelow(a + b, key)
  {
  }

  lemma NotBelowConcat(a: seq<Record>, b: seq<Record>, key: seq<Byte>)
    requires NoneBelow(a, key) && NoneBelow(b, key)
    ensures NoneBelow(a + b, key)
  {
  }

  /** A leaf without successor is the last one. */
  lemma NoNext(f: File, ls: seq<PageId>, j: nat)
    requires AllLeaves(f, ls) && Chained(f, ls) && NO_PAGE !in f && j < |ls| && f[ls[j]].leaf.next == NO_PAGE
    ensures j + 1 == |ls| && AllLeaves(f, ls[..j + 1]) && ls[..j + 1] == ls && ls[j + 1..] == []
    ensures Records(f, ls[j + 1..]) == []
  {
    assert f[ls[j]].leaf.next == Successor(ls, j);
  }

  lemma HasNext(f: File, ls: seq<PageId>, j: nat)
    requires AllLeaves(f, ls) && Chained(f, ls) && j < |ls| && f[ls[j]].leaf.next != NO_PAGE
    ensures j + 1 < |ls| && ls[j + 1] == f[ls[j]].leaf.next
  {
    assert f[ls[j]].leaf.next == Successor(ls, j);
  }

  lemma {:induction false} RowIdsDone(rs: seq<Record>)
    requires LiveRows(rs) == []
    ensures RowIds(rs)
  {
    if rs != [] {
      RowIdsDone(rs[1..]);
      assert rs == [rs[0]] + rs[1..];
      RowIdsConcat([rs[0]], rs[1..]);
    }
  }
}
