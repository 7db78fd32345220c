/** Index pages as bytes (src/storage/page_layout.cpp): records grow upwards from the header, a
    directory of 16-bit record offsets grows downwards from the end.  Every operation on the bytes is
    shown to be the operation on the list the page stands for. */
module SlottedPages {
  import opened Bytes
  import opened PageLists

  datatype Kind = LeafKind | InternalKind

  /** The bytes of a page and the fields of its header that say how to read them. */
  datatype Image = Image(bytes: seq<Byte>, count: nat, freeStart: nat, freeEnd: nat) {

    /** The areas of the page follow each other and end inside it. */
    predicate Framed(kind: Kind) {
      && |bytes| == PAGE_SIZE
      && FirstRecord(kind) <= freeStart <= freeEnd
      && freeEnd + SLOT_ENTRY_SIZE * count <= PAGE_SIZE
    }

    function Offset(i: nat): nat
      requires freeEnd + SLOT_ENTRY_SIZE * i + SLOT_ENTRY_SIZE <= |bytes|
    {
      Get16(bytes, freeEnd + SLOT_ENTRY_SIZE * i)
    }

    predicate Placed(kind: Kind, i: nat)
      requires Framed(kind) && i < count
    {
      var off := Offset(i);
      && FirstRecord(kind) <= off
      && off + HeaderSize(kind) <= freeStart
      && off + Extent(kind, bytes, off) <= freeStart
    }

    predicate Apart(kind: Kind, i: nat, j: nat)
      requires Framed(kind) && i < count && j < count && Placed(kind, i) && Placed(kind, j)
    {
      || Offset(i) + Extent(kind, bytes, Offset(i)) <= Offset(j)
      || Offset(j) + Extent(kind, bytes, Offset(j)) <= Offset(i)
    }

    /** Every record lies between the page header and the free space, and no two overlap. */
    ghost predicate Valid(kind: Kind) {
      && Framed(kind)
      && (forall i :: 0 <= i < count ==> Placed(kind, i))
      && (forall i, j :: 0 <= i < j < count ==> Apart(kind, i, j))
    }

    ghost function Records(): (rs: seq<Record>)
      requires Valid(LeafKind)
      ensures |rs| == count && forall i :: 0 <= i < count ==> Placed(LeafKind, i) && rs[i] == RecordAt(bytes, Offset(i))
    {
      seq(count, i requires 0 <= i < count => assert Placed(LeafKind, i); RecordAt(bytes, Offset(i)))
    }

    ghost function Cells(): (cs: seq<Cell>)
      requires Valid(InternalKind)
      ensures |cs| == count
      ensures forall i :: 0 <= i < count ==> Placed(InternalKind, i) && cs[i] == CellAt(bytes, Offset(i))
    {
      seq(count, i requires 0 <= i < count => assert Placed(InternalKind, i); CellAt(bytes, Offset(i)))
    }
  }

  function FirstRecord(kind: Kind): nat {
    if kind == LeafKind then LEAF_FIRST_RECORD else INTERNAL_FIRST_RECORD
  }

  function HeaderSize(kind: Kind): nat {
    if kind == LeafKind then LEAF_HEADER_SIZE else INTERNAL_HEADER_SIZE
  }

  /** How many bytes the record at `off` takes. */
  function Extent(kind: Kind, b: seq<Byte>, off: nat): (n: nat)
    requires off + HeaderSize(kind) <= |b|
    ensures n >= HeaderSize(kind)
  {
    HeaderSize(kind) + Get16(b, off + 1) + if kind == LeafKind then Get16(b, off + 3) else 0
  }

  function RecordAt(b: seq<Byte>, off: nat): (r: Record)
    requires off + LEAF_HEADER_SIZE <= |b| && off + Extent(LeafKind, b, off) <= |b|
    ensures r.Size() == Extent(LeafKind, b, off)
  {
    var keyEnd := off + LEAF_HEADER_SIZE + Get16(b, off + 1);
    Record(b[off], b[off + LEAF_HEADER_SIZE..keyEnd], b[keyEnd..keyEnd + Get16(b, off + 3)])
  }

  function CellAt(b: seq<Byte>, off: nat): (c: Cell)
    requires off + INTERNAL_HEADER_SIZE <= |b| && off + Extent(InternalKind, b, off) <= |b|
    ensures c.Size() == Extent(InternalKind, b, off)
  {
    Cell(b[off + INTERNAL_HEADER_SIZE..off + Extent(InternalKind, b, off)], Get32(b, off + RECORD_HEADER_SIZE))
  }

  // ---- Records do not depend on bytes outside them ----

  lemma SameExtent(kind: Kind, b: seq<Byte>, c: seq<Byte>, off: nat)
    requires off + HeaderSize(kind) <= |b| && off + HeaderSize(kind) <= |c|
    requires forall k :: off < k < off + HeaderSize(kind) ==> b[k] == c[k]
    ensures Extent(kind, b, off) == Extent(kind, c, off)
  {
  }

  lemma SameRecord(b: seq<Byte>, c: seq<Byte>, off: nat)
    requires off + LEAF_HEADER_SIZE <= |b| && off + Extent(LeafKind, b, off) <= |b| == |c|
    requires forall k :: off <= k < off + Extent(LeafKind, b, off) ==> b[k] == c[k]
    ensures Extent(LeafKind, c, off) == Extent(LeafKind, b, off) && RecordAt(c, off) == RecordAt(b, off)
  {
    SameExtent(LeafKind, b, c, off);
  }

  lemma SameCell(b: seq<Byte>, c: seq<Byte>, off: nat)
    requires off + INTERNAL_HEADER_SIZE <= |b| && off + Extent(InternalKind, b, off) <= |b| == |c|
    requires forall k :: off <= k < off + Extent(InternalKind, b, off) ==> b[k] == c[k]
    ensures Extent(InternalKind, c, off) == Extent(InternalKind, b, off) && CellAt(c, off) == CellAt(b, off)
  {
    SameExtent(InternalKind, b, c, off);
  }

  // ---- A record more ----

  /** The directory of `n` is that of `m` with `off` at `slot`. */
  predicate SlotOpened(m: Image, n: Image, slot: nat, off: nat)
    requires m.freeEnd + SLOT_ENTRY_SIZE * m.count <= |m.bytes| && n.freeEnd + SLOT_ENTRY_SIZE * n.count <= |n.bytes|
  {
    && slot <= m.count
    && n.count == m.count + 1
    && n.Offset(slot) == off
    && (forall i :: 0 <= i < slot ==> n.Offset(i) == m.Offset(i))
    && (forall i :: slot < i < n.count ==> n.Offset(i) == m.Offset(i - 1))
  }

  /** `n` is `m` with one more record, written where the free space began. */
  predicate OneMore(kind: Kind, m: Image, n: Image, slot: nat) {
    && m.Framed(kind) && n.Framed(kind)
    && n.bytes[..m.freeStart] == m.bytes[..m.freeStart]
    && m.freeStart + HeaderSize(kind) <= n.freeStart
    && m.freeStart + Extent(kind, n.bytes, m.freeStart) == n.freeStart
    && SlotOpened(m, n, slot, m.freeStart)
  }

  /** Where slot `i` of the larger page was in the smaller one. */
  function Before(slot: nat, i: nat): nat {
    if i < slot || i == 0 then i else i - 1
  }

  lemma OldSlot(kind: Kind, m: Image, n: Image, slot: nat, i: nat)
    requires m.Valid(kind) && OneMore(kind, m, n, slot) && i < n.count && i != slot
    ensures n.Offset(i) == m.Offset(Before(slot, i)) && n.Placed(kind, i) && m.Placed(kind, Before(slot, i))
    ensures Extent(kind, n.bytes, n.Offset(i)) == Extent(kind, m.bytes, n.Offset(i))
    ensures n.Offset(i) + Extent(kind, n.bytes, n.Offset(i)) <= m.freeStart
  {
    var off := n.Offset(i);
    assert m.Placed(kind, Before(slot, i));
    forall k | off < k < off + HeaderSize(kind) ensures n.bytes[k] == m.bytes[k] {
      assert n.bytes[k] == n.bytes[..m.freeStart][k];
    }
    SameExtent(kind, m.bytes, n.bytes, off);
  }

  lemma OneMoreValid(kind: Kind, m: Image, n: Image, slot: nat)
    requires m.Valid(kind) && OneMore(kind, m, n, slot)
    ensures n.Valid(kind)
  {
    forall i | 0 <= i < n.count ensures n.Placed(kind, i) {
      if i != slot {
        OldSlot(kind, m, n, slot, i);
      }
    }
    forall i, j | 0 <= i < j < n.count ensures n.Apart(kind, i, j) {
      if i != slot {
        OldSlot(kind, m, n, slot, i);
      }
      if j != slot {
        OldSlot(kind, m, n, slot, j);
      }
      if i != slot && j != slot {
        assert m.Apart(kind, Before(slot, i), Before(slot, j));
      }
    }
  }

  lemma OneMoreRecord(m: Image, n: Image, slot: nat)
    requires m.Valid(LeafKind) && OneMore(LeafKind, m, n, slot) && n.Valid(LeafKind)
    ensures n.Records() == Inserted(m.Records(), slot, RecordAt(n.bytes, m.freeStart))
  {
    var expected := Inserted(m.Records(), slot, RecordAt(n.bytes, m.freeStart));
    forall i | 0 <= i < n.count ensures n.Records()[i] == expected[i] {
      if i != slot {
        OldSlot(LeafKind, m, n, slot, i);
        forall k | 0 <= k < m.freeStart ensures n.bytes[k] == m.bytes[k] {
          assert n.bytes[k] == n.bytes[..m.freeStart][k];
        }
        SameRecord(m.bytes, n.bytes, n.Offset(i));
      }
    }
  }

  lemma OneMoreCell(m: Image, n: Image, slot: nat)
    requires m.Valid(InternalKind) && OneMore(InternalKind, m, n, slot) && n.Valid(InternalKind)
    ensures n.Cells() == Inserted(m.Cells(), slot, CellAt(n.bytes, m.freeStart))
  {
    var expected := Inserted(m.Cells(), slot, CellAt(n.bytes, m.freeStart));
    forall i | 0 <= i < n.count ensures n.Cells()[i] == expected[i] {
      if i != slot {
        OldSlot(InternalKind, m, n, slot, i);
        forall k | 0 <= k < m.freeStart ensures n.bytes[k] == m.bytes[k] {
          assert n.bytes[k] == n.bytes[..m.freeStart][k];
        }
        SameCell(m.bytes, n.bytes, n.Offset(i));
      }
    }
  }

  // ---- Opening a slot ----

  /** What the two overlapping moves and the write at the end of an insertion do to the directory. */
  function Opened(b: seq<Byte>, end: nat, count: nat, slot: nat, off: nat): seq<Byte>
    requires SLOT_ENTRY_SIZE <= end && end + SLOT_ENTRY_SIZE * count <= |b| && slot <= count && off < 0x10000
  {
    var start := end - SLOT_ENTRY_SIZE;
    var b1 := Splice(b, start, b[end..end + SLOT_ENTRY_SIZE * count]);
    var from := start + SLOT_ENTRY_SIZE * slot;
    var b2 := Splice(b1, from + SLOT_ENTRY_SIZE, b1[from..from + SLOT_ENTRY_SIZE * (count - slot)]);
    Splice(b2, from, Put16(off))
  }

  /** The same, byte by byte: what was below the new slot has moved down, the rest has stayed. */
  function OpenedByte(b: seq<Byte>, end: nat, slot: nat, off: nat, k: nat): Byte
    requires SLOT_ENTRY_SIZE <= end && end + SLOT_ENTRY_SIZE * slot <= |b| && off < 0x10000 && k < |b|
  {
    var from := end - 2 + 2 * slot;
    if end - 2 <= k < from then b[k + 2]
    else if k == from then off % 256
    else if k == from + 1 then off / 256
    else b[k]
  }

  lemma OpenedBytes(b: seq<Byte>, end: nat, count: nat, slot: nat, off: nat, r: seq<Byte>)
    requires SLOT_ENTRY_SIZE <= end && end + SLOT_ENTRY_SIZE * count <= |b| && slot <= count && off < 0x10000
    requires r == Opened(b, end, count, slot, off)
    ensures |r| == |b| && forall k :: 0 <= k < |r| ==> r[k] == OpenedByte(b, end, slot, off, k)
  {
    hide Splice;
    var start := end - SLOT_ENTRY_SIZE;
    var moved := b[end..end + SLOT_ENTRY_SIZE * count];
    SpliceBytes(b, start, moved);
    var b1 := Splice(b, start, moved);
    var from := start + SLOT_ENTRY_SIZE * slot;
    var rest := b1[from..from + SLOT_ENTRY_SIZE * (count - slot)];
    SpliceBytes(b1, from + SLOT_ENTRY_SIZE, rest);
    SpliceBytes(Splice(b1, from + SLOT_ENTRY_SIZE, rest), from, Put16(off));
  }

  lemma OpenedSlots(m: Image, slot: nat, off: nat, r: seq<Byte>, n: Image)
    requires SLOT_ENTRY_SIZE <= m.freeEnd && m.freeEnd + SLOT_ENTRY_SIZE * m.count <= |m.bytes| && slot <= m.count
    requires off < 0x10000
    requires r == Opened(m.bytes, m.freeEnd, m.count, slot, off)
    requires n.bytes == r && n.count == m.count + 1 && n.freeEnd == m.freeEnd - SLOT_ENTRY_SIZE
    ensures |r| == |m.bytes|
    ensures r[..n.freeEnd] == m.bytes[..n.freeEnd]
    ensures SlotOpened(m, n, slot, off)
  {
    hide Opened;
    OpenedBytes(m.bytes, m.freeEnd, m.count, slot, off, r);
    assert n.Offset(slot) == off;
    forall i | 0 <= i < slot ensures n.Offset(i) == m.Offset(i) {
    }
    forall i | slot < i < n.count ensures n.Offset(i) == m.Offset(i - 1) {
    }
  }

  // ---- Writing a record ----

  function LeafWritten(b: seq<Byte>, at: nat, key: seq<Byte>, row: seq<Byte>): seq<Byte>
    requires |key| < 0x10000 && |row| < 0x10000 && at + LEAF_HEADER_SIZE + |key| + |row| <= |b|
  {
    var b1 := b[at := 0];
    var b2 := Splice(b1, at + 1, Put16(|key|));
    var b3 := Splice(b2, at + 3, Put16(|row|));
    var b4 := Splice(b3, at + LEAF_HEADER_SIZE, key);
    Splice(b4, at + LEAF_HEADER_SIZE + |key|, row)
  }

  function CellWritten(b: seq<Byte>, at: nat, key: seq<Byte>, child: PageId): seq<Byte>
    requires |key| < 0x10000 && at + INTERNAL_HEADER_SIZE + |key| <= |b|
  {
    var b1 := b[at := 0];
    var b2 := Splice(b1, at + 1, Put16(|key|));
    var b3 := Splice(b2, at + RECORD_HEADER_SIZE, Put32(child));
    Splice(b3, at + INTERNAL_HEADER_SIZE, key)
  }

  /** What is written can be read back, and nothing else has changed. */
  lemma LeafReadBack(b: seq<Byte>, at: nat, key: seq<Byte>, row: seq<Byte>, r: seq<Byte>)
    requires |key| < 0x10000 && |row| < 0x10000 && at + LEAF_HEADER_SIZE + |key| + |row| <= |b|
    requires r == LeafWritten(b, at, key, row)
    ensures |r| == |b|
    ensures forall k :: 0 <= k < |b| && (k < at || at + LEAF_HEADER_SIZE + |key| + |row| <= k) ==> r[k] == b[k]
    ensures Extent(LeafKind, r, at) == LEAF_HEADER_SIZE + |key| + |row|
    ensures RecordAt(r, at) == Record(0, key, row)
  {
    hide Splice;
    var b1 := b[at := 0];
    SpliceBytes(b1, at + 1, Put16(|key|));
    var b2 := Splice(b1, at + 1, Put16(|key|));
    SpliceBytes(b2, at + 3, Put16(|row|));
    var b3 := Splice(b2, at + 3, Put16(|row|));
    SpliceBytes(b3, at + LEAF_HEADER_SIZE, key);
    SpliceBytes(Splice(b3, at + LEAF_HEADER_SIZE, key), at + LEAF_HEADER_SIZE + |key|, row);
    assert r[at] == 0;
    assert r[at + 1..at + 3] == Put16(|key|);
    assert r[at + 3..at + 5] == Put16(|row|);
    GetPut16(r, at + 1, |key|);
    GetPut16(r, at + 3, |row|);
    var keyEnd := at + LEAF_HEADER_SIZE + |key|;
    assert r[at + LEAF_HEADER_SIZE..keyEnd] == key;
    assert r[keyEnd..keyEnd + |row|] == row;
  }

  lemma CellReadBack(b: seq<Byte>, at: nat, key: seq<Byte>, child: PageId, r: seq<Byte>)
    requires |key| < 0x10000 && at + INTERNAL_HEADER_SIZE + |key| <= |b|
    requires r == CellWritten(b, at, key, child)
    ensures |r| == |b|
    ensures forall k :: 0 <= k < |b| && (k < at || at + INTERNAL_HEADER_SIZE + |key| <= k) ==> r[k] == b[k]
    ensures Extent(InternalKind, r, at) == INTERNAL_HEADER_SIZE + |key|
    ensures CellAt(r, at) == Cell(key, child)
  {
    hide Splice;
    var b1 := b[at := 0];
    SpliceBytes(b1, at + 1, Put16(|key|));
    var b2 := Splice(b1, at + 1, Put16(|key|));
    SpliceBytes(b2, at + RECORD_HEADER_SIZE, Put32(child));
    SpliceBytes(Splice(b2, at + RECORD_HEADER_SIZE, Put32(child)), at + INTERNAL_HEADER_SIZE, key);
    assert r[at + 1..at + 3] == Put16(|key|);
    assert r[at + RECORD_HEADER_SIZE..at + RECORD_HEADER_SIZE + 4] == Put32(child);
    GetPut16(r, at + 1, |key|);
    GetPut32(r, at + RECORD_HEADER_SIZE, child);
    assert r[at + INTERNAL_HEADER_SIZE..at + INTERNAL_HEADER_SIZE + |key|] == key;
  }

  /** Where the parts of a record lie: the flag byte, two little-endian sizes, a gap of one byte, the key
      and the row. */
  lemma LeafLayout(b: seq<Byte>, at: nat, key: seq<Byte>, row: seq<Byte>, r: seq<Byte>)
    requires |key| < 0x10000 && |row| < 0x10000 && at + LEAF_HEADER_SIZE + |key| + |row| <= |b|
    requires r == LeafWritten(b, at, key, row)
    ensures |r| == |b|
    ensures r[at] == 0 && r[at + 1] == |key| % 256 && r[at + 2] == |key| / 256
    ensures r[at + 3] == |row| % 256 && r[at + 4] == |row| / 256 && r[at + 5] == b[at + 5]
    ensures r[at + 6..at + 6 + |key|] == key && r[at + 6 + |key|..at + 6 + |key| + |row|] == row
  {
    hide Splice, Put16;
    PutBytes(|key|);
    PutBytes(|row|);
    var b1 := b[at := 0];
    SpliceBytes(b1, at + 1, Put16(|key|));
    var b2 := Splice(b1, at + 1, Put16(|key|));
    SpliceBytes(b2, at + 3, Put16(|row|));
    var b3 := Splice(b2, at + 3, Put16(|row|));
    SpliceBytes(b3, at + LEAF_HEADER_SIZE, key);
    SpliceBytes(Splice(b3, at + LEAF_HEADER_SIZE, key), at + LEAF_HEADER_SIZE + |key|, row);
  }

  lemma PutBytes(v: nat)
    requires v < 0x10000
    ensures Put16(v) == [v % 256, v / 256]
  {
  }

  /** The same for a separator: flag byte, size, a gap, the child in four bytes, and the key. */
  lemma CellLayout(b: seq<Byte>, at: nat, key: seq<Byte>, child: PageId, r: seq<Byte>)
    requires |key| < 0x10000 && at + INTERNAL_HEADER_SIZE + |key| <= |b|
    requires r == CellWritten(b, at, key, child)
    ensures |r| == |b|
    ensures r[at] == 0 && r[at + 1] == |key| % 256 && r[at + 2] == |key| / 256 && r[at + 3] == b[at + 3]
    ensures r[at + 4] == child % 0x100 && r[at + 5] == child / 0x100 % 0x100
    ensures r[at + 6] == child / 0x1_0000 % 0x100 && r[at + 7] == child / 0x100_0000
    ensures r[at + 8..at + 8 + |key|] == key
  {
    hide Splice, Put16, Put32;
    PutBytes(|key|);
    FourBytes(child);
    var b1 := b[at := 0];
    SpliceBytes(b1, at + 1, Put16(|key|));
    var b2 := Splice(b1, at + 1, Put16(|key|));
    SpliceBytes(b2, at + RECORD_HEADER_SIZE, Put32(child));
    SpliceBytes(Splice(b2, at + RECORD_HEADER_SIZE, Put32(child)), at + INTERNAL_HEADER_SIZE, key);
  }

  lemma FourBytes(v: nat)
    requires v < 0x1_0000_0000
    ensures Put32(v) == [v % 0x100, v / 0x100 % 0x100, v / 0x1_0000 % 0x100, v / 0x100_0000]
  {
    assert v % 0x10000 % 256 == v % 256;
    assert v % 0x10000 / 256 == v / 256 % 256;
  }

  /** `w` is `m` with a record of `size` bytes written into its free space. */
  predicate Wrote(kind: Kind, m: Image, w: seq<Byte>, size: nat) {
    && m.Framed(kind) && |w| == |m.bytes|
    && HeaderSize(kind) <= size && m.freeStart + size + SLOT_ENTRY_SIZE <= m.freeEnd
    && (forall k :: 0 <= k < |w| && (k < m.freeStart || m.freeStart + size <= k) ==> w[k] == m.bytes[k])
    && Extent(kind, w, m.freeStart) == size
  }

  /** Writing a record and opening a slot for it. */
  lemma WroteAndOpened(kind: Kind, m: Image, w: seq<Byte>, size: nat, slot: nat, n: Image)
    requires Wrote(kind, m, w, size) && slot <= m.count
    requires n == Image(Opened(w, m.freeEnd, m.count, slot, m.freeStart), m.count + 1,
                        m.freeStart + size, m.freeEnd - SLOT_ENTRY_SIZE)
    ensures OneMore(kind, m, n, slot)
    ensures |n.bytes| == |w| && n.bytes[..n.freeEnd] == w[..n.freeEnd]
  {
    hide Opened;
    var m1 := Image(w, m.count, m.freeStart, m.freeEnd);
    OpenedSlots(m1, slot, m.freeStart, n.bytes, n);
    forall i | 0 <= i < m.count ensures m1.Offset(i) == m.Offset(i) {
    }
    forall k | 0 <= k < n.freeEnd ensures n.bytes[k] == w[k] {
      assert n.bytes[k] == n.bytes[..n.freeEnd][k];
    }
    assert n.bytes[..m.freeStart] == m.bytes[..m.freeStart];
    SameExtent(kind, w, n.bytes, m.freeStart);
  }

  /** The page after `key` and `row` have been inserted at `slot`. */
  function LeafInserted(m: Image, slot: nat, key: seq<Byte>, row: seq<Byte>): Image
    requires m.Framed(LeafKind) && slot <= m.count && |key| < 0x10000 && |row| < 0x10000
    requires m.freeStart + LEAF_HEADER_SIZE + |key| + |row| + SLOT_ENTRY_SIZE <= m.freeEnd
  {
    Image(Opened(LeafWritten(m.bytes, m.freeStart, key, row), m.freeEnd, m.count, slot, m.freeStart),
          m.count + 1, m.freeStart + LEAF_HEADER_SIZE + |key| + |row|, m.freeEnd - SLOT_ENTRY_SIZE)
  }

  lemma LeafInsertedValid(m: Image, slot: nat, key: seq<Byte>, row: seq<Byte>)
    requires m.Valid(LeafKind) && slot <= m.count && |key| < 0x10000 && |row| < 0x10000
    requires m.freeStart + LEAF_HEADER_SIZE + |key| + |row| + SLOT_ENTRY_SIZE <= m.freeEnd
    ensures var n := LeafInserted(m, slot, key, row);
      n.Valid(LeafKind) && n.Records() == Inserted(m.Records(), slot, Record(0, key, row))
  {
    hide Opened, LeafWritten;
    var size := LEAF_HEADER_SIZE + |key| + |row|;
    var w := LeafWritten(m.bytes, m.freeStart, key, row);
    var n := LeafInserted(m, slot, key, row);
    LeafReadBack(m.bytes, m.freeStart, key, row, w);
    WroteAndOpened(LeafKind, m, w, size, slot, n);
    OneMoreValid(LeafKind, m, n, slot);
    OneMoreRecord(m, n, slot);
    forall k | m.freeStart <= k < n.freeEnd ensures w[k] == n.bytes[k] {
      assert n.bytes[k] == n.bytes[..n.freeEnd][k];
    }
    SameRecord(w, n.bytes, m.freeStart);
  }

  lemma InsertRefused(l: Leaf, slot: nat, key: seq<Byte>, row: seq<Byte>)
    requires LeafFits(l) && slot <= |l.records| && !LeafRoom(l, key, row)
    ensures LeafInsert(l, slot, key, row) == l
  {
  }

  lemma InsertAccepted(m: Image, l: Leaf, slot: nat, key: seq<Byte>, row: seq<Byte>)
    requires m.Valid(LeafKind) && l.records == m.Records() && l.freeStart == m.freeStart && l.freeEnd == m.freeEnd
    requires LeafFits(l) && slot <= m.count && LeafRoom(l, key, row)
    ensures |key| < 0x10000 && |row| < 0x10000
    ensures var n := LeafInserted(m, slot, key, row);
      n.Valid(LeafKind) && LeafFits(LeafInsert(l, slot, key, row)) &&
      LeafInsert(l, slot, key, row) == Leaf(n.Records(), n.freeStart, n.freeEnd, l.next, l.prev)
  {
    LeafInsertedValid(m, slot, key, row);
  }

  /** The page after a cell has been inserted at `slot`. */
  function CellInserted(m: Image, slot: nat, key: seq<Byte>, child: PageId): Image
    requires m.Framed(InternalKind) && slot <= m.count && |key| < 0x10000
    requires m.freeStart + INTERNAL_HEADER_SIZE + |key| + SLOT_ENTRY_SIZE <= m.freeEnd
  {
    Image(Opened(CellWritten(m.bytes, m.freeStart, key, child), m.freeEnd, m.count, slot, m.freeStart),
          m.count + 1, m.freeStart + INTERNAL_HEADER_SIZE + |key|, m.freeEnd - SLOT_ENTRY_SIZE)
  }

  lemma CellInsertedValid(m: Image, slot: nat, key: seq<Byte>, child: PageId)
    requires m.Valid(InternalKind) && slot <= m.count && |key| < 0x10000
    requires m.freeStart + INTERNAL_HEADER_SIZE + |key| + SLOT_ENTRY_SIZE <= m.freeEnd
    ensures var n := CellInserted(m, slot, key, child);
      n.Valid(InternalKind) && n.Cells() == Inserted(m.Cells(), slot, Cell(key, child))
  {
    hide Opened, CellWritten;
    var size := INTERNAL_HEADER_SIZE + |key|;
    var w := CellWritten(m.bytes, m.freeStart, key, child);
    var n := CellInserted(m, slot, key, child);
    CellReadBack(m.bytes, m.freeStart, key, child, w);
    WroteAndOpened(InternalKind, m, w, size, slot, n);
    OneMoreValid(InternalKind, m, n, slot);
    OneMoreCell(m, n, slot);
    forall k | m.freeStart <= k < n.freeEnd ensures w[k] == n.bytes[k] {
      assert n.bytes[k] == n.bytes[..n.freeEnd][k];
    }
    SameCell(w, n.bytes, m.freeStart);
  }

  lemma CellRefused(l: Internal, slot: nat, key: seq<Byte>, child: PageId)
    requires InternalFits(l) && slot <= |l.cells| && !InternalRoom(l, key)
    ensures InternalInsert(l, slot, key, child) == l
  {
  }

  lemma CellAccepted(m: Image, l: Internal, slot: nat, key: seq<Byte>, child: PageId)
    requires m.Valid(InternalKind) && l.cells == m.Cells() && l.freeStart == m.freeStart && l.freeEnd == m.freeEnd
    requires InternalFits(l) && slot <= m.count && InternalRoom(l, key)
    ensures |key| < 0x10000
    ensures var n := CellInserted(m, slot, key, child);
      n.Valid(InternalKind) && InternalFits(InternalInsert(l, slot, key, child)) &&
      InternalInsert(l, slot, key, child) == Internal(n.Cells(), n.freeStart, n.freeEnd, l.rightmost)
  {
    CellInsertedValid(m, slot, key, child);
  }

  /** The page after a record has been written behind the others, its slot already being there. */
  function LeafAppended(m: Image, r: Record): Image
    requires m.Framed(LeafKind) && |r.key| < 0x10000 && |r.row| < 0x10000
    requires m.freeStart + r.Size() <= m.freeEnd && m.freeEnd + SLOT_ENTRY_SIZE * (m.count + 1) <= PAGE_SIZE
  {
    var slotAt := m.freeEnd + SLOT_ENTRY_SIZE * m.count;
    Image(Splice(LeafWritten(m.bytes, m.freeStart, r.key, r.row), slotAt, Put16(m.freeStart)),
          m.count + 1, m.freeStart + r.Size(), m.freeEnd)
  }

  lemma LeafAppendedValid(m: Image, r: Record)
    requires m.Valid(LeafKind) && r.flags == 0 && |r.key| < 0x10000 && |r.row| < 0x10000
    requires m.freeStart + r.Size() <= m.freeEnd && m.freeEnd + SLOT_ENTRY_SIZE * (m.count + 1) <= PAGE_SIZE
    ensures var n := LeafAppended(m, r); n.Valid(LeafKind) && n.Records() == m.Records() + [r]
  {
    hide LeafWritten, Splice;
    var w := LeafWritten(m.bytes, m.freeStart, r.key, r.row);
    var n := LeafAppended(m, r);
    var slot := m.freeEnd + SLOT_ENTRY_SIZE * m.count;
    LeafReadBack(m.bytes, m.freeStart, r.key, r.row, w);
    SpliceBytes(w, slot, Put16(m.freeStart));
    assert n.bytes[slot..slot + 2] == Put16(m.freeStart);
    GetPut16(n.bytes, slot, m.freeStart);
    forall i | 0 <= i < m.count ensures n.Offset(i) == m.Offset(i) {
    }
    SameRecord(w, n.bytes, m.freeStart);
    assert n.bytes[..m.freeStart] == m.bytes[..m.freeStart];
    OneMoreValid(LeafKind, m, n, m.count);
    OneMoreRecord(m, n, m.count);
    assert Inserted(m.Records(), m.count, r) == m.Records() + [r];
  }

  /** The page after the flag byte of a record has been changed. */
  function Flagged(m: Image, slot: nat, flags: Byte): Image
    requires m.Framed(LeafKind) && slot < m.count && m.Placed(LeafKind, slot)
  {
    m.(bytes := m.bytes[m.Offset(slot) := flags])
  }

  lemma FlaggedSlot(m: Image, slot: nat, flags: Byte, i: nat)
    requires m.Valid(LeafKind) && slot < m.count && m.Placed(LeafKind, slot) && i < m.count
    ensures var n := Flagged(m, slot, flags);
      && n.Offset(i) == m.Offset(i) && n.Placed(LeafKind, i)
      && Extent(LeafKind, n.bytes, n.Offset(i)) == Extent(LeafKind, m.bytes, n.Offset(i))
      && RecordAt(n.bytes, n.Offset(i)) == if i == slot then m.Records()[slot].(flags := flags) else m.Records()[i]
  {
    hide RecordAt;
    var n := Flagged(m, slot, flags);
    var at := m.Offset(slot);
    assert m.Placed(LeafKind, i);
    assert i < slot ==> m.Apart(LeafKind, i, slot);
    assert slot < i ==> m.Apart(LeafKind, slot, i);
    SameExtent(LeafKind, m.bytes, n.bytes, m.Offset(i));
    if i != slot {
      SameRecord(m.bytes, n.bytes, m.Offset(i));
    } else {
      SameFields(m.bytes, n.bytes, at);
    }
  }

  lemma FlaggedValid(m: Image, slot: nat, flags: Byte)
    requires m.Valid(LeafKind) && slot < m.count && m.Placed(LeafKind, slot)
    ensures var n := Flagged(m, slot, flags);
      n.Valid(LeafKind) && n.Records() == m.Records()[slot := m.Records()[slot].(flags := flags)]
  {
    hide RecordAt, Extent, Flagged;
    var n := Flagged(m, slot, flags);
    FlaggedFrame(m, slot, flags);
    forall i | 0 <= i < m.count ensures n.Placed(LeafKind, i) {
      FlaggedSlot(m, slot, flags, i);
    }
    forall i, j | 0 <= i < j < n.count ensures n.Apart(LeafKind, i, j) {
      assert m.Apart(LeafKind, i, j);
      FlaggedSlot(m, slot, flags, i);
      FlaggedSlot(m, slot, flags, j);
    }
    forall i | 0 <= i < m.count
      ensures n.Records()[i] == if i == slot then m.Records()[slot].(flags := flags) else m.Records()[i]
    {
      FlaggedSlot(m, slot, flags, i);
    }
  }

  lemma FlaggedFrame(m: Image, slot: nat, flags: Byte)
    requires m.Framed(LeafKind) && slot < m.count && m.Placed(LeafKind, slot)
    ensures var n := Flagged(m, slot, flags);
      n.Framed(LeafKind) && n.count == m.count && n.freeStart == m.freeStart && n.freeEnd == m.freeEnd
  {
  }

  lemma SameFields(b: seq<Byte>, c: seq<Byte>, off: nat)
    requires off + LEAF_HEADER_SIZE <= |b| && off + Extent(LeafKind, b, off) <= |b| == |c|
    requires forall k :: off < k < |b| ==> b[k] == c[k]
    ensures Extent(LeafKind, c, off) == Extent(LeafKind, b, off)
    ensures RecordAt(c, off) == RecordAt(b, off).(flags := c[off])
  {
    SameExtent(LeafKind, b, c, off);
  }

  // ---- The page ----

  class SlottedPage {
    const kind: Kind
    const data: array<Byte>
    var count: nat
    var freeStart: nat
    var freeEnd: nat
    var next: PageId         // leaves
    var prev: PageId
    var rightmost: PageId    // internal pages

    ghost function Now(): Image
      reads this, data
    {
      Image(data[..], count, freeStart, freeEnd)
    }

    ghost predicate ValidLeaf()
      reads this, data
    {
      kind == LeafKind && Now().Valid(LeafKind) && LeafFits(AsLeaf())
    }

    ghost predicate ValidInternal()
      reads this, data
    {
      kind == InternalKind && Now().Valid(InternalKind) && InternalFits(AsInternal())
    }

    /** The leaf the bytes stand for. */
    ghost function AsLeaf(): Leaf
      requires Now().Valid(LeafKind)
      reads this, data
    {
      Leaf(Now().Records(), freeStart, freeEnd, next, prev)
    }

    ghost function AsInternal(): Internal
      requires Now().Valid(InternalKind)
      reads this, data
    {
      Internal(Now().Cells(), freeStart, freeEnd, rightmost)
    }

    constructor InitLeaf()
      ensures ValidLeaf() && AsLeaf() == EMPTY_LEAF && fresh(data)
    {
      kind := LeafKind;
      data := new Byte[PAGE_SIZE](_ => 0);
      count, freeStart, freeEnd := 0, LEAF_FIRST_RECORD, PAGE_SIZE;
      next, prev, rightmost := NO_PAGE, NO_PAGE, 0;
      new;
      assert Sizes([]) == [];
    }

    constructor InitInternal()
      ensures ValidInternal() && AsInternal() == EMPTY_INTERNAL && fresh(data)
    {
      kind := InternalKind;
      data := new Byte[PAGE_SIZE](_ => 0);
      count, freeStart, freeEnd := 0, INTERNAL_FIRST_RECORD, PAGE_SIZE;
      next, prev, rightmost := 0, 0, NO_PAGE;
      new;
      assert CellSizes([]) == [];
    }

    // Copying bytes in, and moving them over one another

    method Copy(at: nat, x: seq<Byte>)
      requires at + |x| <= data.Length
      modifies data
      ensures data[..] == Splice(old(data[..]), at, x)
    {
      forall k | 0 <= k < |x| {
        data[at + k] := x[k];
      }
      assert data[..] == Splice(old(data[..]), at, x);
    }

    method Move(to: nat, from: nat, n: nat)
      requires to + n <= data.Length && from + n <= data.Length
      modifies data
      ensures data[..] == Splice(old(data[..]), to, old(data[..])[from..from + n])
    {
      forall k | 0 <= k < n {
        data[to + k] := data[from + k];
      }
      assert data[..] == Splice(old(data[..]), to, old(data[..])[from..from + n]);
    }

    lemma SpliceNothing(b: seq<Byte>, at: nat, x: seq<Byte>)
      requires at <= |b| && x == []
      ensures Splice(b, at, x) == b
    {
    }

    /** Shifts the directory to make room for `off` at `slot`. */
    method OpenSlot(slot: nat, off: nat)
      requires SLOT_ENTRY_SIZE <= freeEnd && freeEnd + SLOT_ENTRY_SIZE * count <= data.Length && slot <= count
      requires off < 0x10000
      modifies this`freeEnd, this`count, data
      ensures freeEnd == old(freeEnd) - SLOT_ENTRY_SIZE && count == old(count) + 1
      ensures data[..] == Opened(old(data[..]), old(freeEnd), old(count), slot, off)
    {
      hide Splice;
      freeEnd := freeEnd - SLOT_ENTRY_SIZE;
      var slotStart := freeEnd;
      Move(slotStart, slotStart + SLOT_ENTRY_SIZE, count * SLOT_ENTRY_SIZE);
      var from := slotStart + slot * SLOT_ENTRY_SIZE;
      if slot < count {
        Move(from + SLOT_ENTRY_SIZE, from, (count - slot) * SLOT_ENTRY_SIZE);
      } else {
        SpliceNothing(data[..], from + SLOT_ENTRY_SIZE, data[..][from..from]);
      }
      Copy(from, Put16(off));
      count := count + 1;
    }

    /** Inserts a record into a leaf at a slot.  Sizes are 16 bits wide. */
    method InsertLeaf(slot: nat, key: seq<Byte>, row: seq<Byte>) returns (ok: bool)
      requires ValidLeaf() && slot <= count
      requires LEAF_HEADER_SIZE + |key| + |row| < 0x10000
      modifies this`freeStart, this`freeEnd, this`count, data
      ensures ValidLeaf()
      ensures ok == LeafRoom(old(AsLeaf()), key, row)
      ensures AsLeaf() == LeafInsert(old(AsLeaf()), slot, key, row)
      ensures !ok ==> data[..] == old(data[..])
    {
      hide Opened, LeafWritten, LeafInsert, Splice, Image.Valid, LeafFits;
      ghost var m := Now();
      Bounds();
      var recordSize := (LEAF_HEADER_SIZE + |key| + |row|) % 0x10000;
      if freeEnd - freeStart < recordSize + SLOT_ENTRY_SIZE {
        InsertRefused(AsLeaf(), slot, key, row);
        return false;
      }
      InsertAccepted(m, AsLeaf(), slot, key, row);
      WriteLeaf(freeStart, key, row);
      var off := freeStart;
      freeStart := freeStart + recordSize;
      OpenSlot(slot, off);
      return true;
    }

    lemma Bounds()
      requires ValidLeaf()
      ensures Now().Framed(LeafKind) && data.Length == PAGE_SIZE
    {
    }

    method WriteLeaf(at: nat, key: seq<Byte>, row: seq<Byte>)
      requires |key| < 0x10000 && |row| < 0x10000 && at + LEAF_HEADER_SIZE + |key| + |row| <= data.Length
      modifies data
      ensures data[..] == LeafWritten(old(data[..]), at, key, row)
    {
      data[at] := 0;
      assert data[..] == old(data[..])[at := 0];
      Copy(at + 1, Put16(|key|));
      Copy(at + 3, Put16(|row|));
      Copy(at + LEAF_HEADER_SIZE, key);
      Copy(at + LEAF_HEADER_SIZE + |key|, row);
    }

    /** Inserts a separator and the child left of it into an internal page. */
    method InsertInternal(slot: nat, key: seq<Byte>, child: PageId) returns (ok: bool)
      requires ValidInternal() && slot <= count
      requires INTERNAL_HEADER_SIZE + |key| < 0x10000
      modifies this`freeStart, this`freeEnd, this`count, data
      ensures ValidInternal()
      ensures ok == InternalRoom(old(AsInternal()), key)
      ensures AsInternal() == InternalInsert(old(AsInternal()), slot, key, child)
      ensures !ok ==> data[..] == old(data[..])
    {
      hide Opened, CellWritten, InternalInsert, Splice, Image.Valid, InternalFits;
      ghost var m := Now();
      InternalBounds();
      var recordSize := (INTERNAL_HEADER_SIZE + |key|) % 0x10000;
      if freeEnd - freeStart < recordSize + SLOT_ENTRY_SIZE {
        CellRefused(AsInternal(), slot, key, child);
        return false;
      }
      CellAccepted(m, AsInternal(), slot, key, child);
      WriteCell(freeStart, key, child);
      var off := freeStart;
      freeStart := freeStart + recordSize;
      OpenSlot(slot, off);
      return true;
    }

    lemma InternalBounds()
      requires ValidInternal()
      ensures Now().Framed(InternalKind) && data.Length == PAGE_SIZE
    {
    }

    method WriteCell(at: nat, key: seq<Byte>, child: PageId)
      requires |key| < 0x10000 && at + INTERNAL_HEADER_SIZE + |key| <= data.Length
      modifies data
      ensures data[..] == CellWritten(old(data[..]), at, key, child)
    {
      data[at] := 0;
      assert data[..] == old(data[..])[at := 0];
      Copy(at + 1, Put16(|key|));
      Copy(at + RECORD_HEADER_SIZE, Put32(child));
      Copy(at + INTERNAL_HEADER_SIZE, key);
    }

    // Reading a leaf

    method GetSlotOffset(slot: nat) returns (off: nat)
      requires Now().Framed(kind) && slot < count
      ensures off == Now().Offset(slot)
    {
      off := data[freeEnd + SLOT_ENTRY_SIZE * slot] as int + 256 * data[freeEnd + SLOT_ENTRY_SIZE * slot + 1] as int;
    }

    method ReadRecord(slot: nat) returns (r: Record)
      requires ValidLeaf() && slot < count
      ensures r == AsLeaf().records[slot]
    {
      hide Image.Valid, LeafFits;
      Bounds();
      SlotPlaced(slot);
      var off := GetSlotOffset(slot);
      var keyLen := data[off + 1] as int + 256 * data[off + 2] as int;
      var rowLen := data[off + 3] as int + 256 * data[off + 4] as int;
      var keyEnd := off + LEAF_HEADER_SIZE + keyLen;
      r := Record(data[off], data[off + LEAF_HEADER_SIZE..keyEnd], data[keyEnd..keyEnd + rowLen]);
      assert r == RecordAt(data[..], off);
    }

    /** The first slot whose key is not below `key`, by binary search. */
    method BinarySearch(key: seq<Byte>) returns (slot: nat)
      requires ValidLeaf()
      ensures slot <= count
      ensures Ascending(Keys(AsLeaf().records)) ==> FirstAtLeast(Keys(AsLeaf().records), key, slot)
    {
      hide Image.Valid, Less, LeafFits, Ascending;
      ghost var keys := Keys(AsLeaf().records);
      var hi := count;
      slot := 0;
      while slot < hi
        invariant 0 <= slot <= hi <= count == |keys|
        invariant Ascending(keys) ==> forall i :: 0 <= i < slot ==> Less(keys[i], key)
        invariant Ascending(keys) ==> forall i :: hi <= i < |keys| ==> !Less(keys[i], key)
      {
        var mid := (slot + hi) / 2;
        var r := ReadRecord(mid);
        if Ascending(keys) {
          Decides(keys, key, mid);
        }
        var c := CompareKeys(r.key, key);
        if c < 0 {
          slot := mid + 1;
        } else {
          hi := mid;
        }
      }
    }

    method ReadCell(slot: nat) returns (c: Cell)
      requires ValidInternal() && slot < count
      ensures c == AsInternal().cells[slot]
    {
      hide Image.Valid, InternalFits;
      InternalBounds();
      CellPlaced(slot);
      var off := GetSlotOffset(slot);
      var keyLen := data[off + 1] as int + 256 * data[off + 2] as int;
      var at := off + RECORD_HEADER_SIZE;
      var child := data[at] as int + 0x100 * data[at + 1] as int
                 + 0x10000 * data[at + 2] as int + 0x1000000 * data[at + 3] as int;
      c := Cell(data[off + INTERNAL_HEADER_SIZE..off + INTERNAL_HEADER_SIZE + keyLen], child);
      assert c == CellAt(data[..], off);
    }

    lemma CellPlaced(slot: nat)
      requires ValidInternal() && slot < count
      ensures Now().Framed(InternalKind) && Now().Placed(InternalKind, slot)
      ensures AsInternal().cells[slot] == CellAt(Now().bytes, Now().Offset(slot))
    {
    }

    /** The first slot of an internal page whose separator is not below `key`, by binary search. */
    method BinarySearchInternal(key: seq<Byte>) returns (slot: nat)
      requires ValidInternal()
      ensures slot <= count
      ensures Ascending(CellKeys(AsInternal().cells)) ==> FirstAtLeast(CellKeys(AsInternal().cells), key, slot)
    {
      hide Image.Valid, Less, InternalFits, Ascending;
      ghost var keys := CellKeys(AsInternal().cells);
      var hi := count;
      slot := 0;
      while slot < hi
        invariant 0 <= slot <= hi <= count == |keys|
        invariant Ascending(keys) ==> forall i :: 0 <= i < slot ==> Less(keys[i], key)
        invariant Ascending(keys) ==> forall i :: hi <= i < |keys| ==> !Less(keys[i], key)
      {
        var mid := (slot + hi) / 2;
        var c := ReadCell(mid);
        if Ascending(keys) {
          Decides(keys, key, mid);
        }
        var order := CompareKeys(c.key, key);
        if order < 0 {
          slot := mid + 1;
        } else {
          hi := mid;
        }
      }
    }

    /** Marks the record at a slot deleted. */
    method SetDeleted(slot: nat)
      requires ValidLeaf() && slot < count
      modifies data
      ensures ValidLeaf()
      ensures AsLeaf() == old(AsLeaf()).(records := Marked(old(AsLeaf()).records, slot))
    {
      hide Image.Valid, Less;
      ghost var m := Now();
      Bounds();
      var r := ReadRecord(slot);
      var off := GetSlotOffset(slot);
      SlotPlaced(slot);
      FlaggedValid(m, slot, WithFlag(r.flags));
      MarkedFits(AsLeaf(), slot);
      data[off] := WithFlag(r.flags);
      assert Now() == Flagged(m, slot, WithFlag(r.flags));
    }

    lemma SlotPlaced(slot: nat)
      requires ValidLeaf() && slot < count
      ensures Now().Framed(LeafKind) && Now().Placed(LeafKind, slot)
      ensures AsLeaf().records[slot] == RecordAt(Now().bytes, Now().Offset(slot))
    {
    }

    lemma MarkedFits(l: Leaf, slot: nat)
      requires LeafFits(l) && slot < |l.records|
      ensures LeafFits(l.(records := Marked(l.records, slot)))
    {
      assert Sizes(Marked(l.records, slot)) == Sizes(l.records);
    }

    /** The bytes taken by deleted records. */
    method ComputeDeadBytes() returns (dead: nat)
      requires ValidLeaf()
      ensures dead == DeadBytes(AsLeaf().records)
    {
      hide Image.Valid, LeafFits;
      ghost var rs := AsLeaf().records;
      assert rs[..0] == [];
      dead := 0;
      for i := 0 to count
        invariant dead == DeadBytes(rs[..i])
      {
        var r := ReadRecord(i);
        assert rs[..i + 1][..i] == rs[..i];
        if r.Deleted() {
          dead := dead + r.Size();
        }
      }
      assert rs[..count] == rs;
    }

    /** The records that are not deleted, copied out. */
    method CollectLive() returns (live: seq<Record>)
      requires ValidLeaf()
      ensures live == Live(AsLeaf().records)
    {
      hide Image.Valid, LeafFits;
      ghost var rs := AsLeaf().records;
      assert rs[..0] == [];
      live := [];
      for i := 0 to count
        invariant live == Live(rs[..i])
      {
        var r := ReadRecord(i);
        assert rs[..i + 1][..i] == rs[..i];
        if !r.Deleted() {
          live := live + [Record(0, r.key, r.row)];
        }
      }
      assert rs[..count] == rs;
    }

    /** Rewrites the page with its live records only. */
    method Compact()
      requires ValidLeaf()
      modifies this, data
      ensures ValidLeaf()
      ensures AsLeaf() == LeafCompact(old(AsLeaf()))
    {
      hide LeafWritten, Splice, Image.Valid, Live, Total;
      Bounds();
      var nextId, prevId := next, prev;
      var live := CollectLive();
      LiveRoom(AsLeaf(), live);
      count := |live|;
      freeStart := LEAF_FIRST_RECORD;
      freeEnd := PAGE_SIZE - SLOT_ENTRY_SIZE * |live|;
      EmptyImage(Image(data[..], 0, freeStart, freeEnd));
      assert live[..0] == [];
      for i := 0 to |live|
        invariant freeEnd == PAGE_SIZE - SLOT_ENTRY_SIZE * |live| && count == |live|
        invariant Image(data[..], i, freeStart, freeEnd).Valid(LeafKind)
        invariant Image(data[..], i, freeStart, freeEnd).Records() == live[..i]
        invariant freeStart == LEAF_FIRST_RECORD + Total(live[..i])
        invariant LEAF_FIRST_RECORD + Total(live) <= freeEnd
        invariant forall k :: 0 <= k < |live| ==> live[k].flags == 0
      {
        ghost var m := Image(data[..], i, freeStart, freeEnd);
        ImageBounds(m);
        var r := live[i];
        PartFits(live, i);
        LeafAppendedValid(m, r);
        WriteLeaf(freeStart, r.key, r.row);
        Copy(freeEnd + SLOT_ENTRY_SIZE * i, Put16(freeStart));
        freeStart := freeStart + r.Size();
        assert Image(data[..], i + 1, freeStart, freeEnd) == LeafAppended(m, r);
        assert live[..i + 1] == live[..i] + [r];
      }
      assert live[..|live|] == live;
      next, prev := nextId, prevId;
    }

    lemma EmptyImage(m: Image)
      requires m.Framed(LeafKind) && m.count == 0
      ensures m.Valid(LeafKind) && m.Records() == [] && Total([]) == 0
    {
      assert Sizes([]) == [];
    }

    lemma ImageBounds(m: Image)
      requires m.Valid(LeafKind)
      ensures m.Framed(LeafKind)
    {
    }

    lemma LiveRoom(l: Leaf, live: seq<Record>)
      requires LeafFits(l) && live == Live(l.records)
      ensures LEAF_FIRST_RECORD + Total(live) + SLOT_ENTRY_SIZE * |live| <= PAGE_SIZE
      ensures forall k :: 0 <= k < |live| ==> live[k].flags == 0
    {
      LiveTotal(l.records);
      LiveFlags(l.records);
    }

    lemma {:induction false} LiveFlags(rs: seq<Record>)
      ensures forall k :: 0 <= k < |Live(rs)| ==> Live(rs)[k].flags == 0
    {
      if rs != [] {
        LiveFlags(rs[..|rs| - 1]);
      }
    }

    lemma PartFits(rs: seq<Record>, i: nat)
      requires i < |rs|
      ensures Total(rs[..i + 1]) == Total(rs[..i]) + rs[i].Size() <= Total(rs)
    {
      TotalConcat(rs[..i], [rs[i]]);
      TotalOne(rs[i]);
      assert rs[..i + 1] == rs[..i] + [rs[i]];
      TotalConcat(rs[..i + 1], rs[i + 1..]);
      assert rs == rs[..i + 1] + rs[i + 1..];
    }
  }
}
