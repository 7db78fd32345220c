/** What a slotted index page holds, as a list: the records of a leaf or the cells of an internal
    page in slot order, and how much of the page they take. */
module PageLists {
  import opened Bytes

  const PAGE_SIZE := 8192
  const SLOT_ENTRY_SIZE := 2
  const RECORD_HEADER_SIZE := 4         // sizeof(RecordHeader): a flag byte, a gap, a 16-bit key size
  const LEAF_HEADER_SIZE := 6           // and a 16-bit value size
  const INTERNAL_HEADER_SIZE := 8       // or a 32-bit child page
  const LEAF_FIRST_RECORD := 32         // sizeof(PageHeader), next and previous leaf
  const INTERNAL_FIRST_RECORD := 28     // sizeof(PageHeader), rightmost child
  const NO_PAGE := 0xFFFF_FFFF
  const PURGE_DEAD_BYTES := 1228        // PURGE_DEAD_RATIO * PAGE_SIZE, truncated

  type PageId = x: int | 0 <= x < 0x1_0000_0000

  datatype Record = Record(flags: Byte, key: seq<Byte>, row: seq<Byte>) {
    predicate Deleted() { flags % 2 == 1 }
    function Size(): nat { LEAF_HEADER_SIZE + |key| + |row| }
  }

  datatype Cell = Cell(key: seq<Byte>, child: PageId) {
    function Size(): nat { INTERNAL_HEADER_SIZE + |key| }
  }

  datatype Leaf = Leaf(records: seq<Record>, freeStart: nat, freeEnd: nat, next: PageId, prev: PageId)

  datatype Internal = Internal(cells: seq<Cell>, freeStart: nat, freeEnd: nat, rightmost: PageId)

  function Keys(rs: seq<Record>): (ks: seq<seq<Byte>>)
    ensures |ks| == |rs| && forall i :: 0 <= i < |rs| ==> ks[i] == rs[i].key
  {
    seq(|rs|, i requires 0 <= i < |rs| => rs[i].key)
  }

  function CellKeys(cs: seq<Cell>): (ks: seq<seq<Byte>>)
    ensures |ks| == |cs| && forall i :: 0 <= i < |cs| ==> ks[i] == cs[i].key
  {
    seq(|cs|, i requires 0 <= i < |cs| => cs[i].key)
  }

  function Inserted<T>(s: seq<T>, i: nat, x: T): (r: seq<T>)
    requires i <= |s|
    ensures |r| == |s| + 1 && r[i] == x
    ensures forall j :: 0 <= j < i ==> r[j] == s[j]
    ensures forall j :: i < j <= |s| ==> r[j] == s[j - 1]
  {
    s[..i] + [x] + s[i..]
  }

  function Sum(s: seq<nat>): nat {
    if s == [] then 0 else Sum(s[..|s| - 1]) + s[|s| - 1]
  }

  lemma {:induction false} SumConcat(a: seq<nat>, b: seq<nat>)
    ensures Sum(a + b) == Sum(a) + Sum(b)
  {
    if b == [] {
      assert a + b == a;
    } else {
      assert (a + b)[..|a + b| - 1] == a + b[..|b| - 1];
      SumConcat(a, b[..|b| - 1]);
    }
  }

  lemma SumInserted(s: seq<nat>, i: nat, x: nat)
    requires i <= |s|
    ensures Sum(Inserted(s, i, x)) == Sum(s) + x
  {
    hide Sum;
    SumConcat(s[..i] + [x], s[i..]);
    SumConcat(s[..i], [x]);
    SumConcat(s[..i], s[i..]);
    SumOne(x);
    assert s == s[..i] + s[i..];
  }

  lemma SumOne(x: nat)
    ensures Sum([x]) == x
  {
    assert [x][..0] == [];
  }

  function Sizes(rs: seq<Record>): (s: seq<nat>)
    ensures |s| == |rs|
  {
    seq(|rs|, i requires 0 <= i < |rs| => rs[i].Size())
  }

  function CellSizes(cs: seq<Cell>): (s: seq<nat>)
    ensures |s| == |cs|
  {
    seq(|cs|, i requires 0 <= i < |cs| => cs[i].Size())
  }

  function Total(rs: seq<Record>): nat { Sum(Sizes(rs)) }

  function CellTotal(cs: seq<Cell>): nat { Sum(CellSizes(cs)) }

  lemma TotalConcat(a: seq<Record>, b: seq<Record>)
    ensures Total(a + b) == Total(a) + Total(b)
  {
    assert Sizes(a + b) == Sizes(a) + Sizes(b);
    SumConcat(Sizes(a), Sizes(b));
  }

  lemma TotalOne(r: Record)
    ensures Total([r]) == r.Size()
  {
    assert Sizes([r]) == [r.Size()];
    SumOne(r.Size());
  }

  lemma TotalInserted(rs: seq<Record>, i: nat, r: Record)
    requires i <= |rs|
    ensures Total(Inserted(rs, i, r)) == Total(rs) + r.Size()
  {
    assert Sizes(Inserted(rs, i, r)) == Inserted(Sizes(rs), i, r.Size());
    SumInserted(Sizes(rs), i, r.Size());
  }

  lemma CellTotalInserted(cs: seq<Cell>, i: nat, c: Cell)
    requires i <= |cs|
    ensures CellTotal(Inserted(cs, i, c)) == CellTotal(cs) + c.Size()
  {
    assert CellSizes(Inserted(cs, i, c)) == Inserted(CellSizes(cs), i, c.Size());
    SumInserted(CellSizes(cs), i, c.Size());
  }

  // ---- Leaf operations ----

  const EMPTY_LEAF := Leaf([], LEAF_FIRST_RECORD, PAGE_SIZE, NO_PAGE, NO_PAGE)
  const EMPTY_INTERNAL := Internal([], INTERNAL_FIRST_RECORD, PAGE_SIZE, NO_PAGE)

  /** The records fit below the slot directory.  Slots given up by a split stay in the directory. */
  predicate LeafFits(l: Leaf) {
    && LEAF_FIRST_RECORD + Total(l.records) <= l.freeStart <= l.freeEnd
    && l.freeEnd + SLOT_ENTRY_SIZE * |l.records| <= PAGE_SIZE
  }

  predicate InternalFits(n: Internal) {
    && INTERNAL_FIRST_RECORD + CellTotal(n.cells) <= n.freeStart <= n.freeEnd
    && n.freeEnd + SLOT_ENTRY_SIZE * |n.cells| <= PAGE_SIZE
  }

  predicate LeafRoom(l: Leaf, key: seq<Byte>, row: seq<Byte>) {
    l.freeEnd - l.freeStart >= LEAF_HEADER_SIZE + |key| + |row| + SLOT_ENTRY_SIZE
  }

  predicate InternalRoom(n: Internal, key: seq<Byte>) {
    n.freeEnd - n.freeStart >= INTERNAL_HEADER_SIZE + |key| + SLOT_ENTRY_SIZE
  }

  /** A new record at a slot, or the same page when there is no room. */
  function LeafInsert(l: Leaf, slot: nat, key: seq<Byte>, row: seq<Byte>): (r: Leaf)
    requires LeafFits(l) && slot <= |l.records|
    ensures LeafFits(r)
  {
    if !LeafRoom(l, key, row) then l else
    TotalInserted(l.records, slot, Record(0, key, row));
    l.(records := Inserted(l.records, slot, Record(0, key, row)),
       freeStart := l.freeStart + LEAF_HEADER_SIZE + |key| + |row|,
       freeEnd := l.freeEnd - SLOT_ENTRY_SIZE)
  }

  function InternalInsert(n: Internal, slot: nat, key: seq<Byte>, child: PageId): (r: Internal)
    requires InternalFits(n) && slot <= |n.cells|
    ensures InternalFits(r)
  {
    if !InternalRoom(n, key) then n else
    CellTotalInserted(n.cells, slot, Cell(key, child));
    n.(cells := Inserted(n.cells, slot, Cell(key, child)),
       freeStart := n.freeStart + INTERNAL_HEADER_SIZE + |key|,
       freeEnd := n.freeEnd - SLOT_ENTRY_SIZE)
  }

  /** There is room exactly when the page with the record behind the others, and one more slot in front of
      the directory, is still a page whose records end below its directory. */
  lemma LeafRoomExact(l: Leaf, slot: nat, key: seq<Byte>, row: seq<Byte>)
    requires LeafFits(l) && slot <= |l.records|
    ensures LeafRoom(l, key, row) <==>
      LeafFits(l.(records := Inserted(l.records, slot, Record(0, key, row)),
        freeStart := l.freeStart + 6 + |key| + |row|,
        freeEnd := l.freeEnd - 2))
  {
    TotalInserted(l.records, slot, Record(0, key, row));
  }

  lemma InternalRoomExact(n: Internal, slot: nat, key: seq<Byte>, child: PageId)
    requires InternalFits(n) && slot <= |n.cells|
    ensures InternalRoom(n, key) <==>
      InternalFits(n.(cells := Inserted(n.cells, slot, Cell(key, child)), freeStart := n.freeStart + 8 + |key|,
        freeEnd := n.freeEnd - 2))
  {
    CellTotalInserted(n.cells, slot, Cell(key, child));
  }

  function WithFlag(b: Byte): Byte {
    if b % 2 == 1 then b else b + 1
  }

  function Marked(rs: seq<Record>, slot: nat): (r: seq<Record>)
    requires slot < |rs|
  {
    rs[slot := rs[slot].(flags := WithFlag(rs[slot].flags))]
  }

  /** The records not deleted, their flags cleared. */
  function Live(rs: seq<Record>): seq<Record> {
    if rs == [] then []
    else if rs[|rs| - 1].Deleted() then Live(rs[..|rs| - 1])
    else Live(rs[..|rs| - 1]) + [Record(0, rs[|rs| - 1].key, rs[|rs| - 1].row)]
  }

  function DeadBytes(rs: seq<Record>): nat {
    if rs == [] then 0
    else DeadBytes(rs[..|rs| - 1]) + (if rs[|rs| - 1].Deleted() then rs[|rs| - 1].Size() else 0)
  }

  /** Compaction gives back exactly the dead bytes. */
  lemma {:induction false} LiveTotal(rs: seq<Record>)
    ensures Total(Live(rs)) + DeadBytes(rs) == Total(rs) && |Live(rs)| <= |rs|
  {
    if rs != [] {
      var last := rs[|rs| - 1];
      LiveTotal(rs[..|rs| - 1]);
      TotalConcat(Live(rs[..|rs| - 1]), [Record(0, last.key, last.row)]);
      TotalOne(Record(0, last.key, last.row));
      TotalConcat(rs[..|rs| - 1], [last]);
      TotalOne(last);
      assert rs == rs[..|rs| - 1] + [last];
    }
  }

  function LeafCompact(l: Leaf): (r: Leaf)
    requires LeafFits(l)
    ensures LeafFits(r)
  {
    LiveTotal(l.records);
    var live := Live(l.records);
    l.(records := live,
       freeStart := LEAF_FIRST_RECORD + Total(live),
       freeEnd := PAGE_SIZE - SLOT_ENTRY_SIZE * |live|)
  }

  /** A page compacts to nothing when all its records are deleted. */
  lemma CompactsAway(l: Leaf)
    requires LeafFits(l)
    ensures LeafCompact(l).next == l.next && LeafCompact(l).prev == l.prev
    ensures LeafCompact(l).records == [] <==> forall i :: 0 <= i < |l.records| ==> l.records[i].Deleted()
  {
    LiveNone(l.records);
  }

  lemma {:induction false} LiveNone(rs: seq<Record>)
    ensures Live(rs) == [] <==> forall i :: 0 <= i < |rs| ==> rs[i].Deleted()
  {
    if rs != [] {
      var init := rs[..|rs| - 1];
      LiveNone(init);
      assert forall i :: 0 <= i < |init| ==> init[i] == rs[i];
    }
  }
}
