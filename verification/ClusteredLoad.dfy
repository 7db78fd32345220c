/** Splitting a leaf: what happens to the parent, exactly when that is right, and what a load in
    ascending key order builds. */
module ClusteredLoad {
  import opened Bytes
  import opened PageLists
  import opened ClusteredIndex
  import opened ClusteredScan
  import opened ClusteredEdits

  // ---- The parent ----

  /** The parent after `leaf` has been split and `newLeaf`, whose first key is `key`, put behind it.
      Splitting an internal page does nothing, so the second try to insert ends as the first. */
  function WithSeparator(n: Internal, key: seq<Byte>, leaf: PageId, newLeaf: PageId): Internal
    requires InternalFits(n)
  {
    var idx := FirstSlot(CellKeys(n.cells), key);
    var child := if idx == 0 then leaf else n.rightmost;
    var m := InternalInsert(n, idx, key, child);
    if idx + 1 >= |m.cells| then m.(rightmost := newLeaf)
    else m.(cells := m.cells[idx + 1 := m.cells[idx + 1].(child := newLeaf)])
  }

  /** The children a split should leave: the new leaf behind the one that was split. */
  function SplitKids(n: Internal, idx: nat, newLeaf: PageId): seq<PageId>
    requires idx <= |n.cells|
  {
    Kids(n)[..idx + 1] + [newLeaf] + Kids(n)[idx + 1..]
  }

  /** The parent is right exactly when there is room and the leaf is its first or its last child. */
  lemma SeparatorExact(n: Internal, key: seq<Byte>, leaf: PageId, newLeaf: PageId)
    requires InternalFits(n) && n.cells != [] && Distinct(Kids(n)) && newLeaf !in Kids(n)
    requires leaf == Kids(n)[FirstSlot(CellKeys(n.cells), key)]
    ensures var idx := FirstSlot(CellKeys(n.cells), key);
      Kids(WithSeparator(n, key, leaf, newLeaf)) == SplitKids(n, idx, newLeaf) <==>
        InternalRoom(n, key) && (idx == 0 || idx == |n.cells|)
  {
    var idx := FirstSlot(CellKeys(n.cells), key);
    var m := WithSeparator(n, key, leaf, newLeaf);
    var want := SplitKids(n, idx, newLeaf);
    if !InternalRoom(n, key) {
      assert |Kids(m)| < |want|;
    } else {
      SeparatorKids(n, key, leaf, newLeaf);
      if 0 < idx < |n.cells| {
        assert Kids(m)[idx] == n.rightmost == Kids(n)[|n.cells|];
        assert want[idx] == Kids(n)[idx];
      }
    }
  }

  lemma SeparatorKids(n: Internal, key: seq<Byte>, leaf: PageId, newLeaf: PageId)
    requires InternalFits(n) && n.cells != [] && InternalRoom(n, key)
    requires leaf == Kids(n)[FirstSlot(CellKeys(n.cells), key)]
    ensures var idx := FirstSlot(CellKeys(n.cells), key); var ks := Kids(WithSeparator(n, key, leaf, newLeaf));
      && |ks| == |Kids(n)| + 1
      && (idx == 0 || idx == |n.cells| ==> ks == SplitKids(n, idx, newLeaf))
      && (0 < idx < |n.cells| ==> ks[idx] == n.rightmost)
  {
    var idx := FirstSlot(CellKeys(n.cells), key);
    var m := WithSeparator(n, key, leaf, newLeaf);
    var want := SplitKids(n, idx, newLeaf);
    if idx == 0 || idx == |n.cells| {
      forall i | 0 <= i <= |m.cells| ensures Kids(m)[i] == want[i] {
      }
    }
  }

  /** A root over leaves 2, 3 and 4. */
  const THREE_LEAVES := Internal([Cell([1], 2), Cell([5], 3)], INTERNAL_FIRST_RECORD + 18, PAGE_SIZE - 4, 4)

  /** Splitting the middle leaf of three, with room for the separator, loses that leaf: in its place the
      last leaf is there twice. */
  lemma MiddleLeafLost()
    ensures var n, key := THREE_LEAVES, [3];
      && InternalFits(n) && InternalRoom(n, key) && Kids(n) == [2, 3, 4]
      && Less(n.cells[0].key, key) && Less(key, n.cells[1].key)
      && FirstSlot(CellKeys(n.cells), key) == 1 && SplitKids(n, 1, 9) == [2, 3, 9, 4]
      && Kids(WithSeparator(n, key, 3, 9)) == [2, 4, 9, 4]
  {
    var n, key := THREE_LEAVES, [3];
    CellTotalInserted([], 0, n.cells[0]);
    CellTotalInserted([n.cells[0]], 1, n.cells[1]);
    assert Inserted([], 0, n.cells[0]) == [n.cells[0]] && Inserted([n.cells[0]], 1, n.cells[1]) == n.cells;
    assert CellSizes([]) == [];
    assert CellKeys(n.cells)[1..] == [[5]] && CellKeys(n.cells)[0] == [1];
    var m := WithSeparator(n, key, 3, 9);
    assert m.cells == [Cell([1], 2), Cell([3], 4), Cell([5], 9)] && m.rightmost == 4;
  }

  /** Behind all separators, the new one is appended. */
  lemma SeparatorLast(n: Internal, key: seq<Byte>, leaf: PageId, newLeaf: PageId)
    requires InternalFits(n) && n.cells != [] && InternalRoom(n, key) && leaf == n.rightmost
    requires forall i :: 0 <= i < |n.cells| ==> Less(n.cells[i].key, key)
    ensures var m := WithSeparator(n, key, leaf, newLeaf);
      && m.cells == n.cells + [Cell(key, leaf)] && m.rightmost == newLeaf && InternalFits(m)
      && m.freeStart == n.freeStart + INTERNAL_HEADER_SIZE + |key| && m.freeEnd == n.freeEnd - SLOT_ENTRY_SIZE
  {
    hide Less, CellTotal;
    assert forall i :: 0 <= i < |n.cells| ==> Less(CellKeys(n.cells)[i], key);
    assert FirstSlot(CellKeys(n.cells), key) == |n.cells|;
  }

  // ---- Leaves without waste ----

  /** A leaf that holds `rs` and nothing else. */
  function Packed(rs: seq<Record>, next: PageId, prev: PageId): Leaf
    requires SLOT_ENTRY_SIZE * |rs| <= PAGE_SIZE
  {
    Leaf(rs, LEAF_FIRST_RECORD + Total(rs), PAGE_SIZE - SLOT_ENTRY_SIZE * |rs|, next, prev)
  }

  predicate Tight(l: Leaf) {
    SLOT_ENTRY_SIZE * |l.records| <= PAGE_SIZE && l == Packed(l.records, l.next, l.prev)
  }

  /** No flag is set. */
  predicate Unflagged(rs: seq<Record>) {
    forall i :: 0 <= i < |rs| ==> rs[i].flags == 0
  }

  lemma UnflaggedConcat(a: seq<Record>, b: seq<Record>)
    ensures Unflagged(a + b) <==> Unflagged(a) && Unflagged(b)
  {
    assert forall i :: 0 <= i < |a| ==> (a + b)[i] == a[i];
    assert forall i :: 0 <= i < |b| ==> (a + b)[|a| + i] == b[i];
  }

  /** Records as they are after being copied one by one: no flag is set. */
  function Revived(rs: seq<Record>): (qs: seq<Record>)
    ensures |qs| == |rs| && forall i :: 0 <= i < |rs| ==> qs[i] == Record(0, rs[i].key, rs[i].row)
  {
    seq(|rs|, i requires 0 <= i < |rs| => Record(0, rs[i].key, rs[i].row))
  }

  lemma RevivedTotal(rs: seq<Record>)
    ensures Total(Revived(rs)) == Total(rs)
  {
    assert Sizes(Revived(rs)) == Sizes(rs);
  }

  lemma RevivedUpper(rs: seq<Record>, mid: nat)
    requires mid <= |rs| && Unflagged(rs)
    ensures Revived(rs[mid..]) == rs[mid..]
  {
  }

  lemma {:induction false} LiveConcat(a: seq<Record>, b: seq<Record>)
    ensures Live(a + b) == Live(a) + Live(b)
  {
    if b == [] {
      assert a + b == a;
    } else {
      assert (a + b)[..|a + b| - 1] == a + b[..|b| - 1];
      LiveConcat(a, b[..|b| - 1]);
    }
  }

  /** How many records are live. */
  lemma {:induction false} LiveCount(rs: seq<Record>)
    ensures |Live(rs)| <= |rs| && (|Live(rs)| == |rs| <==> forall i :: 0 <= i < |rs| ==> !rs[i].Deleted())
    ensures |Live(rs)| == |rs| ==> Live(rs) == Revived(rs)
  {
    if rs != [] {
      var init := rs[..|rs| - 1];
      LiveCount(init);
      assert forall i :: 0 <= i < |init| ==> init[i] == rs[i];
      assert Revived(rs) == Revived(init) + [Record(0, rs[|rs| - 1].key, rs[|rs| - 1].row)];
    }
  }

  /** Moving the records from `mid` on to a new leaf keeps the live records exactly when none of those is
      deleted; every deleted one comes back to life. */
  lemma RevivedExact(rs: seq<Record>, mid: nat)
    requires mid <= |rs|
    ensures Live(rs[..mid]) + Live(Revived(rs[mid..])) == Live(rs) <==> forall i :: mid <= i < |rs| ==> !rs[i].Deleted()
    ensures Live(Revived(rs[mid..])) == Revived(rs[mid..])
  {
    hide Live, Revived;
    var upper := rs[mid..];
    assert rs == rs[..mid] + upper;
    LiveConcat(rs[..mid], upper);
    LiveRevived(upper);
    SameEnd(Live(rs[..mid]), Live(Revived(upper)), Live(upper));
    assert forall i :: 0 <= i < |upper| ==> upper[i] == rs[mid + i];
    assert forall i :: mid <= i < |rs| ==> rs[i] == upper[i - mid];
  }

  lemma LiveRevived(rs: seq<Record>)
    ensures Live(Revived(rs)) == Revived(rs)
    ensures Live(Revived(rs)) == Live(rs) <==> forall i :: 0 <= i < |rs| ==> !rs[i].Deleted()
  {
    hide Live;
    LiveCount(rs);
    LiveCount(Revived(rs));
    assert Revived(Revived(rs)) == Revived(rs);
  }

  lemma SameEnd(a: seq<Record>, b: seq<Record>, c: seq<Record>)
    ensures a + b == a + c <==> b == c
  {
    assert (a + b)[|a|..] == b && (a + c)[|a|..] == c;
  }

  /** A leaf with the keys 1 and 2, of which 2 is deleted: after the split 2 is there again. */
  lemma TombstoneRevived()
    ensures var rs := [Record(0, [1], []), Record(1, [2], [])];
      Live(rs) == [Record(0, [1], [])]
        && Live(rs[..1]) + Live(Revived(rs[1..])) == [Record(0, [1], []), Record(0, [2], [])]
  {
    var rs := [Record(0, [1], []), Record(1, [2], [])];
    assert rs[..1] == [rs[0]] && rs[1..] == [rs[1]] && rs[..1][..0] == [];
    RevivedExact(rs, 1);
  }

  /** Inserting into a packed leaf leaves it packed. */
  lemma PackedInsert(l: Leaf, slot: nat, key: seq<Byte>, row: seq<Byte>)
    requires Tight(l) && LeafFits(l) && slot <= |l.records| && LeafRoom(l, key, row)
    ensures LeafInsert(l, slot, key, row) == Packed(Inserted(l.records, slot, Record(0, key, row)), l.next, l.prev)
  {
    TotalInserted(l.records, slot, Record(0, key, row));
  }

  /** Part of what fits on a page fits on an empty page. */
  lemma PartRoom(l: Leaf, mid: nat, i: nat)
    requires LeafFits(l) && mid <= i < |l.records|
    ensures LeafFits(Packed(l.records[mid..i], NO_PAGE, NO_PAGE))
    ensures LeafRoom(Packed(l.records[mid..i], NO_PAGE, NO_PAGE), l.records[i].key, l.records[i].row)
  {
    hide Total;
    var rs := l.records;
    assert rs == rs[..mid] + rs[mid..i] + [rs[i]] + rs[i + 1..];
    TotalConcat(rs[..mid] + rs[mid..i] + [rs[i]], rs[i + 1..]);
    TotalConcat(rs[..mid] + rs[mid..i], [rs[i]]);
    TotalConcat(rs[..mid], rs[mid..i]);
    TotalOne(rs[i]);
  }

  lemma PrefixFits(l: Leaf, mid: nat, next: PageId)
    requires LeafFits(l) && mid <= |l.records|
    ensures LeafFits(l.(records := l.records[..mid], next := next))
    ensures LeafFits(Packed(l.records[mid..], next, next))
  {
    hide Total;
    assert l.records == l.records[..mid] + l.records[mid..];
    TotalConcat(l.records[..mid], l.records[mid..]);
  }

  /** What there is for separators: an empty page while the root is a leaf. */
  function Left(room: Option<int>): int {
    if room.None? then PAGE_SIZE - INTERNAL_FIRST_RECORD else room.value
  }

  /** Whether every split made by inserting behind all keys finds room for its separator: `room` is
      what the root has left for separators, or none while the root is a leaf. */
  predicate SplitsFit(l: Leaf, room: Option<int>, key: seq<Byte>, row: seq<Byte>)
    decreases |l.records|
  {
    || LeafRoom(l, key, row)
    || (2 <= |l.records| && SLOT_ENTRY_SIZE * |l.records| <= PAGE_SIZE &&
        var mid := |l.records| / 2;
        var left := Left(room) - SeparatorSize(l.records[mid].key);
        left >= 0 && SplitsFit(Packed(l.records[mid..], NO_PAGE, NO_PAGE), Some(left), key, row))
  }

  /** The links of a leaf do not matter to it. */
  lemma SplitsFitLinks(l: Leaf, m: Leaf, room: Option<int>, key: seq<Byte>, row: seq<Byte>)
    requires l.records == m.records && l.freeStart == m.freeStart && l.freeEnd == m.freeEnd
    ensures SplitsFit(l, room, key, row) <==> SplitsFit(m, room, key, row)
  {
  }

  function SeparatorSize(key: seq<Byte>): nat {
    INTERNAL_HEADER_SIZE + |key| + SLOT_ENTRY_SIZE
  }

  /** How often a leaf of `n` records can be halved. */
  function Halvings(n: nat): nat {
    if n < 2 then 0 else 1 + Halvings(n - n / 2)
  }

  lemma {:induction false} HalvingsBound(n: nat, k: nat)
    requires n <= Power(k)
    ensures Halvings(n) <= k
  {
    if n >= 2 {
      HalvingsBound(n - n / 2, k - 1);
    }
  }

  function Power(k: nat): (p: nat)
    ensures p >= 1
  {
    if k == 0 then 1 else 2 * Power(k - 1)
  }

  /** No leaf can be halved more than twelve times. */
  lemma TwelveHalvings(n: nat)
    requires SLOT_ENTRY_SIZE * n <= PAGE_SIZE
    ensures Halvings(n) <= 12
  {
    assert Power(12) == 4096 by {
      assert Power(2) == 4 && Power(4) == 16 && Power(6) == 64 && Power(8) == 256 && Power(10) == 1024;
    }
    HalvingsBound(n, 12);
  }

  // ---- What an insertion asks the root for ----

  const HALF_LEAF := (PAGE_SIZE - LEAF_FIRST_RECORD) / 2

  /** The separators an insertion behind all keys asks the root for: the middle key of the last leaf, of
      its upper half, and so on, until there is room in a leaf. */
  function Asked(l: Leaf, key: seq<Byte>, row: seq<Byte>): seq<seq<Byte>>
    requires SLOT_ENTRY_SIZE * |l.records| <= PAGE_SIZE
    decreases |l.records|
  {
    if LeafRoom(l, key, row) || |l.records| < 2 then []
    else
      var mid := |l.records| / 2;
      [l.records[mid].key] + Asked(Packed(l.records[mid..], NO_PAGE, NO_PAGE), key, row)
  }

  /** What separators take in the root, slots included. */
  function Separators(keys: seq<seq<Byte>>): nat {
    if keys == [] then 0 else SeparatorSize(keys[0]) + Separators(keys[1..])
  }

  /** No more than twelve separators are asked for. */
  lemma {:induction false} AskedFew(l: Leaf, key: seq<Byte>, row: seq<Byte>)
    requires SLOT_ENTRY_SIZE * |l.records| <= PAGE_SIZE
    ensures |Asked(l, key, row)| <= Halvings(|l.records|) <= 12
    decreases |l.records|
  {
    TwelveHalvings(|l.records|);
    if !LeafRoom(l, key, row) && |l.records| >= 2 {
      AskedFew(Packed(l.records[|l.records| / 2..], NO_PAGE, NO_PAGE), key, row);
    }
  }

  /** Records of at most half a leaf, slots included, always find a leaf: the splits fit exactly when
      the root has room for all separators asked for. */
  lemma {:induction false} HalvesFit(l: Leaf, room: Option<int>, key: seq<Byte>, row: seq<Byte>)
    requires Tight(l) && Left(room) >= 0
    requires LEAF_HEADER_SIZE + |key| + |row| + SLOT_ENTRY_SIZE <= HALF_LEAF
    requires forall i :: 0 <= i < |l.records| ==> l.records[i].Size() + SLOT_ENTRY_SIZE <= HALF_LEAF
    ensures SplitsFit(l, room, key, row) <==> Separators(Asked(l, key, row)) <= Left(room)
    decreases |l.records|
  {
    hide Total, Sizes, LeafRoom, SplitsFit, Asked, Separators;
    if |l.records| < 2 {
      FewRoom(l, key, row);
    }
    if LeafRoom(l, key, row) {
      NothingAsked(l, room, key, row);
    } else {
      var mid := |l.records| / 2;
      var left := Left(room) - SeparatorSize(l.records[mid].key);
      var right := Packed(l.records[mid..], NO_PAGE, NO_PAGE);
      assert forall i :: 0 <= i < |right.records| ==> right.records[i] == l.records[mid + i];
      HalfStep(l, room, key, row);
      if left >= 0 {
        HalvesFit(right, Some(left), key, row);
      }
    }
  }

  lemma NothingAsked(l: Leaf, room: Option<int>, key: seq<Byte>, row: seq<Byte>)
    requires SLOT_ENTRY_SIZE * |l.records| <= PAGE_SIZE && LeafRoom(l, key, row)
    ensures SplitsFit(l, room, key, row) && Separators(Asked(l, key, row)) == 0
  {
    hide LeafRoom;
  }

  /** What one split asks for. */
  lemma HalfStep(l: Leaf, room: Option<int>, key: seq<Byte>, row: seq<Byte>)
    requires SLOT_ENTRY_SIZE * |l.records| <= PAGE_SIZE && |l.records| >= 2 && !LeafRoom(l, key, row)
    ensures var mid := |l.records| / 2;
      var right := Packed(l.records[mid..], NO_PAGE, NO_PAGE);
      var left := Left(room) - SeparatorSize(l.records[mid].key);
      && (SplitsFit(l, room, key, row) <==> left >= 0 && SplitsFit(right, Some(left), key, row))
      && Separators(Asked(l, key, row)) == SeparatorSize(l.records[mid].key) + Separators(Asked(right, key, row))
  {
    hide Total, Sizes, LeafRoom;
    assert Asked(l, key, row)[1..] == Asked(Packed(l.records[|l.records| / 2..], NO_PAGE, NO_PAGE), key, row);
  }

  /** Separators do not fit together exactly when one of them finds too little left by those before. */
  lemma {:induction false} OneTooMany(keys: seq<seq<Byte>>, left: nat)
    ensures Separators(keys) > left <==> exists i: nat :: Refused(keys, left, i)
  {
    if keys != [] {
      RefusedFirst(keys, left);
      if SeparatorSize(keys[0]) <= left {
        var rest := left - SeparatorSize(keys[0]);
        OneTooMany(keys[1..], rest);
        if i: nat :| Refused(keys[1..], rest, i) {
          RefusedNext(keys, left, i);
        }
        if i: nat :| Refused(keys, left, i) {
          RefusedNext(keys, left, i - 1);
        }
      }
    }
  }

  lemma RefusedFirst(keys: seq<seq<Byte>>, left: nat)
    requires keys != []
    ensures Refused(keys, left, 0) <==> SeparatorSize(keys[0]) > left
  {
    assert keys[..1] == [keys[0]] && |keys[..1][1..]| == 0;
  }

  lemma RefusedNext(keys: seq<seq<Byte>>, left: nat, i: nat)
    requires keys != [] && SeparatorSize(keys[0]) <= left
    ensures Refused(keys, left, i + 1) <==> Refused(keys[1..], left - SeparatorSize(keys[0]), i)
  {
    if i < |keys[1..]| {
      assert keys[..i + 1][1..] == keys[1..][..i] && keys[..i + 2][1..] == keys[1..][..i + 1];
    }
  }

  /** Separator `i` does not fit, and those before it do. */
  predicate Refused(keys: seq<seq<Byte>>, left: nat, i: nat) {
    i < |keys| && Separators(keys[..i]) <= left < Separators(keys[..i + 1])
  }

  /** What records take in a leaf, slots included. */
  function Weight(rs: seq<Record>): nat { Total(rs) + SLOT_ENTRY_SIZE * |rs| }

  lemma WeightConcat(a: seq<Record>, b: seq<Record>)
    ensures Weight(a + b) == Weight(a) + Weight(b)
  {
    TotalConcat(a, b);
  }

  lemma WeightOne(r: Record)
    ensures Weight([r]) == r.Size() + SLOT_ENTRY_SIZE
  {
    TotalOne(r);
  }

  /** Separators take little more than the records whose keys they are. */
  lemma {:induction false} AskedSize(l: Leaf, key: seq<Byte>, row: seq<Byte>)
    requires SLOT_ENTRY_SIZE * |l.records| <= PAGE_SIZE && l.records != []
    ensures Separators(Asked(l, key, row)) <= Weight(l.records[1..]) + if |l.records| <= 2 then 2 else 4
    decreases |l.records|
  {
    hide Total, Sizes, LeafRoom;
    var rs := l.records;
    if !LeafRoom(l, key, row) && |rs| >= 2 {
      var mid := |rs| / 2;
      var upper := Packed(rs[mid..], NO_PAGE, NO_PAGE);
      AskedSize(upper, key, row);
      assert Asked(l, key, row)[1..] == Asked(upper, key, row);
      assert rs[mid..] == [rs[mid]] + rs[mid..][1..];
      WeightConcat([rs[mid]], rs[mid..][1..]);
      WeightOne(rs[mid]);
      assert rs[1..] == rs[1..mid] + rs[mid..];
      WeightConcat(rs[1..mid], rs[mid..]);
      if |rs| >= 4 {
        assert rs[1..mid] == [rs[1]] + rs[2..mid];
        WeightConcat([rs[1]], rs[2..mid]);
        WeightOne(rs[1]);
      }
    }
  }

  /** While the root is a leaf, all separators fit into the root that is to come. */
  lemma RootLeafFits(l: Leaf, key: seq<Byte>, row: seq<Byte>)
    requires Tight(l) && LeafFits(l)
    ensures Separators(Asked(l, key, row)) <= Left(None)
  {
    hide Total, LeafRoom;
    if l.records != [] {
      AskedSize(l, key, row);
      assert l.records == [l.records[0]] + l.records[1..];
      WeightConcat([l.records[0]], l.records[1..]);
      WeightOne(l.records[0]);
    }
  }

  lemma FewRoom(l: Leaf, key: seq<Byte>, row: seq<Byte>)
    requires Tight(l) && |l.records| < 2
    requires LEAF_HEADER_SIZE + |key| + |row| + SLOT_ENTRY_SIZE <= HALF_LEAF
    requires forall i :: 0 <= i < |l.records| ==> l.records[i].Size() + SLOT_ENTRY_SIZE <= HALF_LEAF
    ensures LeafRoom(l, key, row)
  {
    if l.records == [] {
      assert Sizes(l.records) == [];
    } else {
      assert l.records == [l.records[0]];
      TotalOne(l.records[0]);
    }
  }

  // ---- A root over a chain ----

  predicate FirstKeyIs(f: File, id: PageId, key: seq<Byte>) {
    id in f && f[id].LeafNode? && f[id].leaf.records != [] && f[id].leaf.records[0].key == key
  }

  /** The root has the leaves of the chain as children, and the first key of each but the first as
      separator. */
  predicate RootOver(f: File, root: PageId, ls: seq<PageId>) {
    && AllLeaves(f, ls) && |ls| >= 2
    && root in f && f[root].InternalNode?
    && |ls| == |f[root].internal.cells| + 1
    && Kids(f[root].internal) == ls
    && forall i :: 0 <= i < |f[root].internal.cells| ==> FirstKeyIs(f, ls[i + 1], f[root].internal.cells[i].key)
  }

  /** Records of an earlier leaf are not above those of a later one. */
  lemma AcrossLeaves(f: File, ls: seq<PageId>, i: nat, j: nat, x: nat, y: nat)
    requires AllLeaves(f, ls) && Ascending(Keys(Records(f, ls))) && i < j < |ls|
    requires x < |f[ls[i]].leaf.records| && y < |f[ls[j]].leaf.records|
    ensures !Less(f[ls[j]].leaf.records[y].key, f[ls[i]].leaf.records[x].key)
  {
    hide Less, Records;
    RecordsAround(f, ls, j);
    RecordsAround(f, ls[..j], i);
    var all := Records(f, ls);
    var a := Records(f, ls[..j]);
    assert ls[..j][i] == ls[i];
    var b := |Records(f, ls[..j][..i])|;
    assert a[b + x] == f[ls[i]].leaf.records[x];
    assert all[b + x] == a[b + x] && all[|a| + y] == f[ls[j]].leaf.records[y];
    assert !Less(Keys(all)[|a| + y], Keys(all)[b + x]);
  }

  lemma WithinLeaf(f: File, ls: seq<PageId>, j: nat, x: nat, y: nat)
    requires AllLeaves(f, ls) && Ascending(Keys(Records(f, ls))) && j < |ls|
    requires x < y < |f[ls[j]].leaf.records|
    ensures !Less(f[ls[j]].leaf.records[y].key, f[ls[j]].leaf.records[x].key)
  {
    hide Less, Records;
    RecordsAround(f, ls, j);
    var all := Records(f, ls);
    var a := Records(f, ls[..j]);
    assert all[|a| + x] == f[ls[j]].leaf.records[x] && all[|a| + y] == f[ls[j]].leaf.records[y];
    assert !Less(Keys(all)[|a| + y], Keys(all)[|a| + x]);
  }

  /** Such a root makes a well-formed index of height one. */
  lemma RootOverIndex(f: File, root: PageId, ls: seq<PageId>)
    requires RootOver(f, root, ls) && Ascending(Keys(Records(f, ls)))
    ensures ClusteredIndex.Index(f, [root], 1) && Separated(f, [root], 1) && Leaves(f, [root], 1) == ls
  {
    hide Less, Records, Ascending;
    var n := f[root].internal;
    RootSeparators(f, root, ls);
    forall i | 0 <= i < |n.cells|
      ensures LeftOf(f, [ls[i]], 0, n.cells[i].key) && RightOf(f, [ls[i + 1]], 0, n.cells[i].key)
    {
      RootBounds(f, root, ls, i);
    }
    BottomSeparated(f, ls);
    LevelUp(f, root, n, 0);
  }

  lemma RootKey(f: File, root: PageId, ls: seq<PageId>, i: nat)
    requires RootOver(f, root, ls) && i < |f[root].internal.cells|
    ensures |ls| == |f[root].internal.cells| + 1 && FirstKeyIs(f, ls[i + 1], f[root].internal.cells[i].key)
    ensures f[ls[i + 1]].leaf.records != [] && f[root].internal.cells[i].key == f[ls[i + 1]].leaf.records[0].key
  {
  }

  lemma RootSeparators(f: File, root: PageId, ls: seq<PageId>)
    requires RootOver(f, root, ls) && Ascending(Keys(Records(f, ls)))
    ensures Ascending(CellKeys(f[root].internal.cells)) && f[root].internal.cells != []
  {
    hide Less, Records, RootOver;
    RootLast(f, root, ls);
    var n := f[root].internal;
    forall i, j | 0 <= i < j < |n.cells| ensures !Less(n.cells[j].key, n.cells[i].key) {
      RootKey(f, root, ls, i);
      RootKey(f, root, ls, j);
      AcrossLeaves(f, ls, i + 1, j + 1, 0, 0);
    }
  }

  lemma RootBounds(f: File, root: PageId, ls: seq<PageId>, i: nat)
    requires RootOver(f, root, ls) && Ascending(Keys(Records(f, ls))) && i < |f[root].internal.cells|
    ensures LeftOf(f, [ls[i]], 0, f[root].internal.cells[i].key)
    ensures RightOf(f, [ls[i + 1]], 0, f[root].internal.cells[i].key)
  {
    hide Less, Ascending;
    var key := f[root].internal.cells[i].key;
    RootKey(f, root, ls, i);
    RecordsOne(f, ls[i]);
    RecordsOne(f, ls[i + 1]);
    var left, right := f[ls[i]].leaf.records, f[ls[i + 1]].leaf.records;
    forall x | 0 <= x < |left| ensures !Less(key, left[x].key) {
      AcrossLeaves(f, ls, i, i + 1, x, 0);
    }
    forall y | 0 <= y < |right| ensures !Less(right[y].key, key) {
      if y > 0 {
        WithinLeaf(f, ls, i + 1, 0, y);
      } else {
        Irreflexive(key);
      }
    }
  }

  // ---- The last leaf split ----

  /** Pages not on a list do not matter to it. */
  lemma {:induction false} OtherPages(f: File, g: File, ls: seq<PageId>)
    requires AllLeaves(f, ls) && forall id :: id in ls ==> id in g && g[id] == f[id]
    ensures AllLeaves(g, ls) && Records(g, ls) == Records(f, ls)
  {
    if ls != [] {
      assert ls[|ls| - 1] in ls;
      OtherPages(f, g, ls[..|ls| - 1]);
    }
  }

  /** The two leaves a split leaves: the records before `mid` where they were, and the others packed
      on a new page. */
  predicate LastSplit(f: File, g: File, ls: seq<PageId>, added: PageId, mid: nat)
    requires AllLeaves(f, ls) && ls != []
  {
    var id := ls[|ls| - 1];
    var old_ := f[id].leaf;
    && 0 < mid < |old_.records| && SLOT_ENTRY_SIZE * |old_.records| <= PAGE_SIZE && added !in ls && added != NO_PAGE
    && (forall k :: k in ls && k != id ==> k in g && g[k] == f[k])
    && id in g && g[id] == LeafNode(old_.(records := old_.records[..mid], next := added))
    && added in g && g[added] == LeafNode(Packed(old_.records[mid..], NO_PAGE, id))
  }

  /** The chain grows by the new leaf and still holds the same records. */
  lemma SplitChain(f: File, g: File, ls: seq<PageId>, added: PageId, mid: nat)
    requires AllLeaves(f, ls) && ls != [] && Distinct(ls) && LastSplit(f, g, ls, added, mid)
    ensures AllLeaves(g, ls + [added]) && Distinct(ls + [added])
    ensures Records(g, ls + [added]) == Records(f, ls)
    ensures Chained(f, ls) ==> Chained(g, ls + [added])
  {
    hide Records;
    var k := |ls| - 1;
    var init := ls[..k];
    forall id | id in init ensures id in g && g[id] == f[id] {
      var i :| 0 <= i < k && init[i] == id;
      assert ls[i] == id && ls[i] != ls[k];
    }
    OtherPages(f, g, init);
    RecordsAround(f, ls, k);
    assert ls[..k + 1] == ls == init + [ls[k]];
    RecordsConcat(g, init, [ls[k]]);
    RecordsOne(g, ls[k]);
    RecordsConcat(g, ls, [added]);
    RecordsOne(g, added);
    var rs := f[ls[k]].leaf.records;
    assert rs[..mid] + rs[mid..] == rs;
    assert Records(g, ls + [added]) == (Records(f, init) + rs[..mid]) + rs[mid..];
    if Chained(f, ls) {
      SplitLinks(f, g, ls, added, mid);
    }
  }

  lemma SplitLinks(f: File, g: File, ls: seq<PageId>, added: PageId, mid: nat)
    requires AllLeaves(f, ls) && ls != [] && Distinct(ls) && LastSplit(f, g, ls, added, mid) && Chained(f, ls)
    requires AllLeaves(g, ls + [added])
    ensures Chained(g, ls + [added])
  {
    var all := ls + [added];
    forall i | 0 <= i < |all| ensures g[all[i]].leaf.next == Successor(all, i) {
      if i < |ls| - 1 {
        assert ls[i] in ls && ls[i] != ls[|ls| - 1];
        assert f[ls[i]].leaf.next == Successor(ls, i);
      }
    }
  }

  /** The root over the grown chain. */
  lemma SplitRoot(f: File, g: File, root: PageId, ls: seq<PageId>, added: PageId, mid: nat)
    requires AllLeaves(f, ls) && ls != [] && Distinct(ls) && 0 < mid < |f[ls[|ls| - 1]].leaf.records|
    requires LastSplit(f, g, ls, added, mid)
    requires RootOver(f, root, ls) && InternalFits(f[root].internal) && Ascending(Keys(Records(f, ls)))
    requires FirstLive(Records(f, ls)) && Unflagged(Records(f, ls))
    requires InternalRoom(f[root].internal, f[ls[|ls| - 1]].leaf.records[mid].key)
    requires root in g
    requires g[root]
      == InternalNode(WithSeparator(f[root].internal, f[ls[|ls| - 1]].leaf.records[mid].key, ls[|ls| - 1], added))
    ensures AllLeaves(g, ls + [added]) && RootOver(g, root, ls + [added])
    ensures InternalFits(g[root].internal)
  {
    hide Records, Less, Ascending, WithSeparator, LastSplit, Distinct, RootOver, InternalFits, Unflagged, FirstLive;
    SplitChain(f, g, ls, added, mid);
    RootLast(f, root, ls);
    var n, k := f[root].internal, |ls| - 1;
    var key := f[ls[k]].leaf.records[mid].key;
    forall i | 0 <= i < |n.cells| ensures Less(n.cells[i].key, key) {
      RootKey(f, root, ls, i);
      SeparatorBelow(f, ls, i + 1, mid);
    }
    SeparatorLast(n, key, ls[k], added);
    assert Kids(g[root].internal) == ls + [added];
    SplitFirstKeys(f, g, root, ls, added, mid);
  }

  lemma SplitFirstKeys(f: File, g: File, root: PageId, ls: seq<PageId>, added: PageId, mid: nat)
    requires AllLeaves(f, ls) && ls != [] && Distinct(ls) && LastSplit(f, g, ls, added, mid)
    requires RootOver(f, root, ls) && AllLeaves(g, ls + [added])
    requires root in g && g[root].InternalNode?
    requires g[root].internal.cells
      == f[root].internal.cells + [Cell(f[ls[|ls| - 1]].leaf.records[mid].key, ls[|ls| - 1])]
    requires Kids(g[root].internal) == ls + [added]
    ensures RootOver(g, root, ls + [added])
  {
    hide LastSplit, Distinct;
    var all := ls + [added];
    RootLast(f, root, ls);
    forall i | 0 <= i < |ls| ensures FirstKeyIs(g, all[i + 1], g[root].internal.cells[i].key) {
      SplitFirstKey(f, g, ls, added, mid, i);
      if i + 1 < |ls| {
        RootKey(f, root, ls, i);
      }
    }
  }

  lemma RootLast(f: File, root: PageId, ls: seq<PageId>)
    requires RootOver(f, root, ls)
    ensures root in f && f[root].InternalNode? && f[root].internal.cells != [] && |ls| == |f[root].internal.cells| + 1
    ensures AllLeaves(f, ls) && Kids(f[root].internal) == ls && f[root].internal.rightmost == ls[|ls| - 1]
  {
  }

  /** A split moves no first key but that of the new leaf. */
  lemma SplitFirstKey(f: File, g: File, ls: seq<PageId>, added: PageId, mid: nat, i: nat)
    requires AllLeaves(f, ls) && ls != [] && LastSplit(f, g, ls, added, mid) && AllLeaves(g, ls + [added]) && i < |ls|
    ensures var id := (ls + [added])[i + 1];
      if i + 1 == |ls| then g[id].leaf.records != [] && g[id].leaf.records[0] == f[ls[i]].leaf.records[mid]
      else f[id].leaf.records != [] ==> g[id].leaf.records != [] && g[id].leaf.records[0] == f[id].leaf.records[0]
  {
    if i + 1 < |ls| {
      assert ls[i + 1] in ls;
    }
  }

  /** The first key of a leaf is below a later key of the last leaf. */
  lemma SeparatorBelow(f: File, ls: seq<PageId>, i: nat, mid: nat)
    requires AllLeaves(f, ls) && Ascending(Keys(Records(f, ls))) && FirstLive(Records(f, ls))
    requires Unflagged(Records(f, ls))
    requires i < |ls| && f[ls[i]].leaf.records != [] && 0 < mid < |f[ls[|ls| - 1]].leaf.records|
    ensures Less(f[ls[i]].leaf.records[0].key, f[ls[|ls| - 1]].leaf.records[mid].key)
  {
    hide Records, Less, Ascending;
    var k := |ls| - 1;
    var first, last := f[ls[i]].leaf.records[0].key, f[ls[k]].leaf.records[mid].key;
    if i < k {
      AcrossLeaves(f, ls, i, k, 0, mid);
      RecordsAround(f, ls, k);
      RecordsAround(f, ls[..k], i);
      assert ls[..k][i] == ls[i];
      var all, a := Records(f, ls), Records(f, ls[..k]);
      var b := |Records(f, ls[..k][..i])|;
      assert a[b] == f[ls[i]].leaf.records[0] && all[b] == a[b] && all[|a| + mid] == f[ls[k]].leaf.records[mid];
    } else {
      WithinLeaf(f, ls, k, 0, mid);
      RecordsAround(f, ls, k);
      var all, a := Records(f, ls), Records(f, ls[..k]);
      assert all[|a|] == f[ls[k]].leaf.records[0] && all[|a| + mid] == f[ls[k]].leaf.records[mid];
    }
    Trichotomy(first, last);
  }

  // ---- A load in progress ----

  /** A table that has only been loaded in ascending order: at most a root over the leaves, no flag
      set, and no waste in the last leaf. */
  predicate Loaded(f: File, root: PageId, h: nat, ls: seq<PageId>) {
    && h <= 1 && AllLeaves(f, ls) && ls != []
    && (h == 0 ==> ls == [root])
    && Tight(f[ls[|ls| - 1]].leaf)
    && Unflagged(Records(f, ls))
    && (h == 1 ==> RootOver(f, root, ls) && InternalFits(f[root].internal))
  }

  /** What the root has left for separators. */
  function RootRoom(f: File, root: PageId, h: nat): Option<int>
    requires h > 0 ==> root in f && f[root].InternalNode?
  {
    if h == 0 then None else Some(f[root].internal.freeEnd - f[root].internal.freeStart)
  }

  /** A key above all leads to the last leaf. */
  lemma LoadedDestination(f: File, root: PageId, h: nat, ls: seq<PageId>, j: nat, key: seq<Byte>)
    requires Loaded(f, root, h, ls) && AllBelow(Records(f, ls), key) && j < |ls|
    requires AllLeaves(f, ls[j + 1..]) && NoneBelow(Records(f, ls[j + 1..]), key)
    ensures j + 1 == |ls|
  {
    assert AllLeaves(f, ls) && ls != [];
    hide Records, Less, Loaded;
    if j + 1 < |ls| {
      var last := ls[|ls| - 1];
      assert ls[j + 1..][|ls| - j - 2] == last;
      BoundsHere(f, ls[j + 1..], last, key);
      BelowHere(f, ls, |ls| - 1, key);
      NeitherSide(f[last].leaf.records, key);
      LoadedNonEmpty(f, root, h, ls, j);
    }
  }

  lemma BelowHere(f: File, ls: seq<PageId>, j: nat, key: seq<Byte>)
    requires AllLeaves(f, ls) && AllBelow(Records(f, ls), key) && j < |ls|
    ensures AllBelow(f[ls[j]].leaf.records, key)
  {
    hide Records, Less;
    RecordsAround(f, ls, j);
    var a, x := |Records(f, ls[..j])|, f[ls[j]].leaf.records;
    forall i | 0 <= i < |x| ensures Less(x[i].key, key) {
      assert Records(f, ls)[a + i] == x[i];
    }
  }

  function HeadKey(rs: seq<Record>): seq<Byte> {
    if rs == [] then [] else rs[0].key
  }

  lemma NeitherSide(rs: seq<Record>, key: seq<Byte>)
    requires AllBelow(rs, key) && NoneBelow(rs, key)
    ensures rs == []
  {
    var first := HeadKey(rs);
  }

  lemma LoadedSome(f: File, root: PageId, h: nat, ls: seq<PageId>)
    requires Loaded(f, root, h, ls)
    ensures h <= 1 && AllLeaves(f, ls) && ls != []
  {
  }

  lemma LoadedNonEmpty(f: File, root: PageId, h: nat, ls: seq<PageId>, j: nat)
    requires Loaded(f, root, h, ls) && j + 1 < |ls|
    ensures f[ls[|ls| - 1]].leaf.records != []
  {
    RootLast(f, root, ls);
    RootKey(f, root, ls, |ls| - 2);
  }

  /** All keys being below, the slot is behind the last record. */
  lemma LastSlot(a: seq<Record>, rs: seq<Record>, key: seq<Byte>)
    requires AllBelow(a + rs, key)
    ensures FirstSlot(Keys(rs), key) == |rs|
  {
    hide Less;
    assert forall i :: 0 <= i < |rs| ==> (a + rs)[|a| + i] == rs[i];
    assert forall i :: 0 <= i < |rs| ==> Less(Keys(rs)[i], key);
  }

  /** Appending to the last leaf. */
  lemma LoadedAppend(f: File, root: PageId, h: nat, ls: seq<PageId>, key: seq<Byte>, row: seq<Byte>)
    requires Loaded(f, root, h, ls) && Distinct(ls) && (h == 1 ==> root !in ls)
    requires LeafFits(f[ls[|ls| - 1]].leaf) && LeafRoom(f[ls[|ls| - 1]].leaf, key, row)
    ensures var id := ls[|ls| - 1];
      var l := LeafInsert(f[id].leaf, |f[id].leaf.records|, key, row); var g := Swapped(f, id, l);
      && l.next == f[id].leaf.next && l.prev == f[id].leaf.prev
      && l.records == f[id].leaf.records + [Record(0, key, row)]
      && Loaded(g, root, h, ls) && Records(g, ls) == Records(f, ls) + [Record(0, key, row)]
      && RootRoom(g, root, h) == RootRoom(f, root, h)
  {
    hide Records, LeafRoom, LeafFits;
    var k := |ls| - 1;
    var id := ls[k];
    var old_ := f[id].leaf;
    var r := Record(0, key, row);
    PackedInsert(old_, |old_.records|, key, row);
    var l := LeafInsert(old_, |old_.records|, key, row);
    assert l.records == old_.records + [r];
    var g := Swapped(f, id, l);
    RecordsAround(f, ls, k);
    SwapRecords(f, l, ls, k);
    assert ls[k + 1..] == [];
    NoLeaves(f, 0);
    assert Records(g, ls) == Records(f, ls) + [r];
    UnflaggedConcat(Records(f, ls), [r]);
    if h == 1 {
      AppendRoot(f, root, ls, l);
    }
  }

  lemma AppendRoot(f: File, root: PageId, ls: seq<PageId>, l: Leaf)
    requires RootOver(f, root, ls) && root !in ls
    requires f[ls[|ls| - 1]].leaf.records <= l.records
    ensures RootOver(Swapped(f, ls[|ls| - 1], l), root, ls)
  {
    var g := Swapped(f, ls[|ls| - 1], l);
    forall i | 0 <= i < |f[root].internal.cells| ensures FirstKeyIs(g, ls[i + 1], f[root].internal.cells[i].key) {
      RootKey(f, root, ls, i);
    }
  }

  // ---- The index after a split ----

  /** The root that a split of the only leaf creates. */
  function NewRoot(key: seq<Byte>, leaf: PageId, newLeaf: PageId): Internal {
    var n := EMPTY_INTERNAL.(rightmost := newLeaf);
    assert InternalFits(n) by { assert CellSizes([]) == []; }
    InternalInsert(n, 0, key, leaf)
  }

  lemma NewRootIs(key: seq<Byte>, leaf: PageId, newLeaf: PageId)
    requires InternalRoom(EMPTY_INTERNAL, key)
    ensures var n := NewRoot(key, leaf, newLeaf);
      && n.cells == [Cell(key, leaf)] && n.rightmost == newLeaf && InternalFits(n)
      && n.freeEnd - n.freeStart == PAGE_SIZE - INTERNAL_FIRST_RECORD - SeparatorSize(key)
      && Kids(n) == [leaf, newLeaf]
  {
  }

  /** `g` is `f` after its last leaf has been split, with a root over the new chain. */
  predicate Split(f: File, g: File, root: PageId, h: nat, newRoot: PageId, ls: seq<PageId>, added: PageId, mid: nat)
    requires AllLeaves(f, ls) && ls != []
  {
    && LastSplit(f, g, ls, added, mid)
    && var id := ls[|ls| - 1];
    var key := f[id].leaf.records[mid].key;
    && newRoot != NO_PAGE && newRoot !in ls + [added] && newRoot in g
    && (h == 0 ==> InternalRoom(EMPTY_INTERNAL, key) && g[newRoot] == InternalNode(NewRoot(key, id, added)))
    && (h == 1 ==>
      newRoot == root && root in f && f[root].InternalNode? && InternalFits(f[root].internal)
      && InternalRoom(f[root].internal, key)
                   && g[newRoot] == InternalNode(WithSeparator(f[root].internal, key, id, added)))
  }

  lemma SplitLoaded(f: File, g: File, root: PageId, h: nat, newRoot: PageId, ls: seq<PageId>, added: PageId, mid: nat)
    requires Loaded(f, root, h, ls) && Distinct(ls) && Ascending(Keys(Records(f, ls))) && FirstLive(Records(f, ls))
    requires Split(f, g, root, h, newRoot, ls, added, mid)
    ensures Loaded(g, newRoot, 1, ls + [added]) && Records(g, ls + [added]) == Records(f, ls)
    ensures g[added] == LeafNode(Packed(f[ls[|ls| - 1]].leaf.records[mid..], NO_PAGE, ls[|ls| - 1]))
    ensures RootRoom(g, newRoot, 1)
      == Some(Left(RootRoom(f, root, h)) - SeparatorSize(f[ls[|ls| - 1]].leaf.records[mid].key))
  {
    SplitRoom(f, g, root, h, newRoot, ls, added, mid);
    hide Records, Less, Ascending, FirstLive, RootOver, WithSeparator, NewRoot, InternalFits, InternalRoom, Unflagged;
    hide RootRoom, Left, SeparatorSize;
    SplitChain(f, g, ls, added, mid);
    var id := ls[|ls| - 1];
    if h == 0 {
      NewRootIs(f[id].leaf.records[mid].key, id, added);
      FirstRoot(f, g, newRoot, ls, added, mid);
    } else {
      SplitRoot(f, g, root, ls, added, mid);
    }
  }

  lemma SplitRoom(f: File, g: File, root: PageId, h: nat, newRoot: PageId, ls: seq<PageId>, added: PageId, mid: nat)
    requires Loaded(f, root, h, ls) && Distinct(ls) && Ascending(Keys(Records(f, ls))) && FirstLive(Records(f, ls))
    requires Split(f, g, root, h, newRoot, ls, added, mid)
    ensures RootRoom(g, newRoot, 1)
      == Some(Left(RootRoom(f, root, h)) - SeparatorSize(f[ls[|ls| - 1]].leaf.records[mid].key))
  {
    hide Records, Less, Ascending, FirstLive, RootOver, WithSeparator, NewRoot, InternalFits, InternalRoom, Unflagged;
    if h == 0 {
      NewRootIs(f[ls[|ls| - 1]].leaf.records[mid].key, ls[|ls| - 1], added);
    } else {
      SplitRootRoom(f, g, root, ls, added, mid);
    }
  }

  lemma FirstRoot(f: File, g: File, newRoot: PageId, ls: seq<PageId>, added: PageId, mid: nat)
    requires AllLeaves(f, ls) && |ls| == 1 && LastSplit(f, g, ls, added, mid) && AllLeaves(g, ls + [added])
    requires newRoot in g && g[newRoot].InternalNode?
    requires g[newRoot].internal.cells == [Cell(f[ls[0]].leaf.records[mid].key, ls[0])]
    requires Kids(g[newRoot].internal) == [ls[0], added]
    ensures RootOver(g, newRoot, ls + [added])
  {
    assert ls + [added] == [ls[0], added];
  }

  lemma SplitRootRoom(f: File, g: File, root: PageId, ls: seq<PageId>, added: PageId, mid: nat)
    requires AllLeaves(f, ls) && ls != [] && 0 < mid < |f[ls[|ls| - 1]].leaf.records|
    requires RootOver(f, root, ls) && InternalFits(f[root].internal) && Ascending(Keys(Records(f, ls)))
    requires FirstLive(Records(f, ls)) && Unflagged(Records(f, ls))
    requires InternalRoom(f[root].internal, f[ls[|ls| - 1]].leaf.records[mid].key)
    requires root in g
    requires g[root]
      == InternalNode(WithSeparator(f[root].internal, f[ls[|ls| - 1]].leaf.records[mid].key, ls[|ls| - 1], added))
    ensures RootRoom(g, root, 1)
      == Some(RootRoom(f, root, 1).value - SeparatorSize(f[ls[|ls| - 1]].leaf.records[mid].key))
  {
    hide Records, Less, Ascending, FirstLive, RootOver, Unflagged, InternalFits, WithSeparator;
    RootLast(f, root, ls);
    var n, k := f[root].internal, |ls| - 1;
    var key := f[ls[k]].leaf.records[mid].key;
    forall i | 0 <= i < |n.cells| ensures Less(n.cells[i].key, key) {
      RootKey(f, root, ls, i);
      SeparatorBelow(f, ls, i + 1, mid);
    }
    SeparatorLast(n, key, ls[k], added);
  }

  lemma SplitSound(f: File, g: File, root: PageId, h: nat, free: seq<PageId>, newRoot: PageId, left: seq<PageId>,
          ls: seq<PageId>, added: PageId, mid: nat)
    requires TreeSound(f, root, h, free) && ls == Leaves(f, [root], h) && Loaded(f, root, h, ls)
    requires Split(f, g, root, h, newRoot, ls, added, mid) && NO_PAGE !in g
    requires forall id :: id in left ==> id in free && id != added && id != newRoot
    ensures TreeSound(g, newRoot, 1, left) && Leaves(g, [newRoot], 1) == ls + [added]
  {
    hide ClusteredIndex.Index, Leaves, Separated, Records, Less, Ascending, RootOver, FreeApart;
    hide Chained, BackChained, Split;
    OrderedAscending(Records(f, ls));
    SplitLoaded(f, g, root, h, newRoot, ls, added, mid);
    SplitParts(f, g, root, h, newRoot, ls, added, mid);
    SplitChain(f, g, ls, added, mid);
    RootOverIndex(g, newRoot, ls + [added]);
    SplitBack(f, g, ls, added, mid);
    FreeOfLeaves(f, free, root, h, ls);
    FreeOver(g, left, newRoot, ls + [added]);
  }

  lemma SplitParts(f: File, g: File, root: PageId, h: nat, newRoot: PageId, ls: seq<PageId>, added: PageId, mid: nat)
    requires AllLeaves(f, ls) && ls != [] && Split(f, g, root, h, newRoot, ls, added, mid)
    ensures LastSplit(f, g, ls, added, mid) && newRoot in g && newRoot != NO_PAGE
  {
  }

  lemma SplitBack(f: File, g: File, ls: seq<PageId>, added: PageId, mid: nat)
    requires AllLeaves(f, ls) && ls != [] && Distinct(ls) && LastSplit(f, g, ls, added, mid) && BackChained(f, ls)
    requires AllLeaves(g, ls + [added])
    ensures BackChained(g, ls + [added])
  {
    var all := ls + [added];
    forall i | 0 <= i < |all| ensures g[all[i]].leaf.prev == Predecessor(all, i) {
      if i < |ls| {
        assert ls[i] in ls;
        assert f[ls[i]].leaf.prev == Predecessor(ls, i);
      }
    }
  }

  lemma FreeOfLeaves(f: File, free: seq<PageId>, root: PageId, h: nat, ls: seq<PageId>)
    requires h <= 1 && ClusteredIndex.Index(f, [root], h) && ls == Leaves(f, [root], h) && FreeApart(f, free, [root], h)
    ensures forall id :: id in free ==> id !in ls && id != root
  {
    assert [root][0] == root;
    if h == 1 {
      assert FreeApart(f, free, AllKids(f, [root]), 0);
      assert Leaves(f, [root], 1) == Leaves(f, AllKids(f, [root]), 0) == AllKids(f, [root]);
    }
  }

  lemma FreeOver(f: File, free: seq<PageId>, root: PageId, ls: seq<PageId>)
    requires ClusteredIndex.Index(f, [root], 1) && ls == Leaves(f, [root], 1)
    requires forall id :: id in free ==> id !in ls && id != root
    ensures FreeApart(f, free, [root], 1)
  {
    assert Leaves(f, [root], 1) == Leaves(f, AllKids(f, [root]), 0) == AllKids(f, [root]);
    assert FreeApart(f, free, AllKids(f, [root]), 0);
  }

  // ---- A record inserted ----

  /** Inserting into the leaf a key leads to adds a row to the table; in a load it appends. */
  lemma PlacedSound(f: File, root: PageId, h: nat, free: seq<PageId>, ls: seq<PageId>, before: seq<PageId>,
          current: PageId, after: seq<PageId>, key: seq<Byte>, row: seq<Byte>)
    requires TreeSound(f, root, h, free) && ls == Leaves(f, [root], h) && ls == before + [current] + after
    requires current == Destination(f, root, h, key)
    requires AllLeaves(f, before) && AllBelow(Records(f, before), key)
    requires AllLeaves(f, after) && NoneBelow(Records(f, after), key)
    requires current in f && f[current].LeafNode? && LeafFits(f[current].leaf) && LeafRoom(f[current].leaf, key, row)
    requires key !in Contents(Records(f, ls))
    ensures var old_ := f[current].leaf;
      var l := LeafInsert(old_, FirstSlot(Keys(old_.records), key), key, row); var g := Swapped(f, current, l);
      && TreeSound(g, root, h, free) && Leaves(g, [root], h) == ls && LeafFits(l)
      && Contents(Records(g, ls)) == Contents(Records(f, ls))[key := row]
  {
    hide Records, Leaves, ClusteredIndex.Index, TreeSound, Contents, Destination, LeafRoom, LeafFits, Less;
    var j := |before|;
    assert ls[j] == current && ls[..j] == before && ls[j + 1..] == after;
    var old_ := f[current].leaf;
    var slot := FirstSlot(Keys(old_.records), key);
    var l := LeafInsert(old_, slot, key, row);
    SoundGrown(f, root, h, free, ls, j, l, slot, Record(0, key, row));
  }

  lemma PlacedLoaded(f: File, root: PageId, h: nat, free: seq<PageId>, ls: seq<PageId>, before: seq<PageId>,
          current: PageId, after: seq<PageId>, key: seq<Byte>, row: seq<Byte>)
    requires TreeSound(f, root, h, free) && ls == Leaves(f, [root], h) && ls == before + [current] + after
    requires AllLeaves(f, after) && NoneBelow(Records(f, after), key)
    requires Loaded(f, root, h, ls) && AllBelow(Records(f, ls), key)
    requires current in f && f[current].LeafNode? && LeafFits(f[current].leaf) && LeafRoom(f[current].leaf, key, row)
    ensures var old_ := f[current].leaf;
      var g := Swapped(f, current, LeafInsert(old_, FirstSlot(Keys(old_.records), key), key, row));
      Loaded(g, root, h, ls) && Records(g, ls) == Records(f, ls) + [Record(0, key, row)]
  {
    hide Records, Leaves, ClusteredIndex.Index, TreeSound, LeafRoom, LeafFits, Less, Loaded, LeafInsert;
    LoadedSome(f, root, h, ls);
    LoadedEnd(f, root, h, ls, before, current, after, key);
    RootApart(f, root, h, free, ls);
    RecordsAround(f, ls, |ls| - 1);
    NoLeaves(f, 0);
    assert ls[|ls|..] == [];
    assert Records(f, ls) == Records(f, ls[..|ls| - 1]) + f[current].leaf.records;
    LastSlot(Records(f, ls[..|ls| - 1]), f[current].leaf.records, key);
    LoadedAppend(f, root, h, ls, key, row);
  }

  lemma LoadedEnd(f: File, root: PageId, h: nat, ls: seq<PageId>, before: seq<PageId>, current: PageId,
          after: seq<PageId>, key: seq<Byte>)
    requires ls == before + [current] + after && AllLeaves(f, after) && NoneBelow(Records(f, after), key)
    requires Loaded(f, root, h, ls) && AllBelow(Records(f, ls), key)
    ensures ls[|ls| - 1] == current
  {
    hide Records, Less, Loaded;
    LoadedSome(f, root, h, ls);
    var j := |before|;
    assert ls[j] == current && ls[j + 1..] == after;
    LoadedDestination(f, root, h, ls, j, key);
  }

  lemma RootApart(f: File, root: PageId, h: nat, free: seq<PageId>, ls: seq<PageId>)
    requires TreeSound(f, root, h, free) && ls == Leaves(f, [root], h)
    ensures Distinct(ls) && (h == 1 ==> root !in ls)
  {
    TopIs(f, root, h);
  }

  /** Where there is no room the fitting of splits says what there is room for. */
  lemma SplitsFitStep(l: Leaf, room: Option<int>, key: seq<Byte>, row: seq<Byte>)
    requires SplitsFit(l, room, key, row) && !LeafRoom(l, key, row)
    ensures 2 <= |l.records| && SLOT_ENTRY_SIZE * |l.records| <= PAGE_SIZE
    ensures var mid := |l.records| / 2;
      var left := Left(room) - SeparatorSize(l.records[mid].key);
      left >= 0 && SplitsFit(Packed(l.records[mid..], NO_PAGE, NO_PAGE), Some(left), key, row)
  {
  }

  // ---- Loading ----

  datatype Row = Row(key: seq<Byte>, row: seq<Byte>)

  /** The records of some rows, in order. */
  function RecordsOf(rows: seq<Row>): (rs: seq<Record>)
    ensures |rs| == |rows| && forall i :: 0 <= i < |rows| ==> rs[i] == Record(0, rows[i].key, rows[i].row)
  {
    seq(|rows|, i requires 0 <= i < |rows| => Record(0, rows[i].key, rows[i].row))
  }

  /** Keys strictly ascending, and no record more than half a leaf. */
  predicate Loadable(rows: seq<Row>) {
    && (forall i, j :: 0 <= i < j < |rows| ==> Less(rows[i].key, rows[j].key))
    && (forall i :: 0 <= i < |rows| ==>
          LEAF_HEADER_SIZE + |rows[i].key| + |rows[i].row| + SLOT_ENTRY_SIZE <= HALF_LEAF)
  }

  /** In a load the splits of the next insertion fit exactly when the root has room for all separators
      they ask for, as it always has while it is a leaf. */
  lemma LoadFits(f: File, root: PageId, h: nat, ls: seq<PageId>, rows: seq<Row>, i: nat)
    requires Loaded(f, root, h, ls) && LeafFits(f[ls[|ls| - 1]].leaf) && Loadable(rows) && i < |rows|
    requires Records(f, ls) == RecordsOf(rows[..i])
    requires h > 0 ==> root in f && f[root].InternalNode?
    ensures var last := f[ls[|ls| - 1]].leaf; var room := RootRoom(f, root, h);
      SplitsFit(last, room, rows[i].key, rows[i].row) <==>
        Separators(Asked(last, rows[i].key, rows[i].row)) <= Left(room)
    ensures h == 0 ==> SplitsFit(f[ls[|ls| - 1]].leaf, RootRoom(f, root, h), rows[i].key, rows[i].row)
    ensures AllBelow(Records(f, ls), rows[i].key)
  {
    hide Records, LeafFits, SplitsFit, RootOver, Total, Asked;
    LoadBelow(rows, i);
    hide Less, Loadable;
    var last := f[ls[|ls| - 1]].leaf;
    LoadSizes(f, ls, rows, i);
    LoadSize(rows, i);
    HalvesFit(last, RootRoom(f, root, h), rows[i].key, rows[i].row);
    RootLeafFits(last, rows[i].key, rows[i].row);
  }

  /** The records of the last leaf are among the rows. */
  lemma LoadSizes(f: File, ls: seq<PageId>, rows: seq<Row>, i: nat)
    requires AllLeaves(f, ls) && ls != [] && Loadable(rows) && i <= |rows| && Records(f, ls) == RecordsOf(rows[..i])
    ensures var last := f[ls[|ls| - 1]].leaf;
      forall k :: 0 <= k < |last.records| ==> last.records[k].Size() + SLOT_ENTRY_SIZE <= HALF_LEAF
  {
    hide Records, Loadable;
    var last := f[ls[|ls| - 1]].leaf;
    RecordsAround(f, ls, |ls| - 1);
    var a := |Records(f, ls[..|ls| - 1])|;
    forall k | 0 <= k < |last.records| ensures last.records[k].Size() + SLOT_ENTRY_SIZE <= HALF_LEAF {
      assert last.records[k] == Records(f, ls)[a + k] == RecordsOf(rows[..i])[a + k];
      LoadSize(rows, a + k);
    }
  }

  lemma LoadSize(rows: seq<Row>, i: nat)
    requires Loadable(rows) && i < |rows|
    ensures LEAF_HEADER_SIZE + |rows[i].key| + |rows[i].row| + SLOT_ENTRY_SIZE <= HALF_LEAF
  {
  }

  lemma LoadBelow(rows: seq<Row>, i: nat)
    requires Loadable(rows) && i < |rows|
    ensures AllBelow(RecordsOf(rows[..i]), rows[i].key)
  {
    hide Less;
    forall k | 0 <= k < i ensures Less(RecordsOf(rows[..i])[k].key, rows[i].key) {
      assert rows[..i][k] == rows[k];
    }
  }

  const MAX_LEAVES := (PAGE_SIZE - INTERNAL_FIRST_RECORD) / (INTERNAL_HEADER_SIZE + SLOT_ENTRY_SIZE) + 1

  /** One root has no more leaves than it has room for empty separators. */
  lemma FewLeaves(f: File, root: PageId, h: nat, ls: seq<PageId>)
    requires Loaded(f, root, h, ls)
    ensures |ls| <= MAX_LEAVES
  {
    hide Records, CellTotal;
    if h == 1 {
      CellsLeast(f[root].internal.cells);
    }
  }

  lemma {:induction false} CellsLeast(cs: seq<Cell>)
    ensures CellTotal(cs) >= INTERNAL_HEADER_SIZE * |cs|
  {
    if cs != [] {
      var init, last := cs[..|cs| - 1], cs[|cs| - 1];
      CellsLeast(init);
      CellTotalInserted(init, |init|, last);
      assert Inserted(init, |init|, last) == cs;
    }
  }

  /** The table of some rows. */
  function AsTable(rows: seq<Row>): map<seq<Byte>, seq<Byte>> {
    if rows == [] then map[] else AsTable(rows[..|rows| - 1])[rows[|rows| - 1].key := rows[|rows| - 1].row]
  }

  /** It has exactly the keys of the rows. */
  lemma {:induction false} AsTableKeys(rows: seq<Row>, key: seq<Byte>)
    ensures key in AsTable(rows) <==> exists i :: 0 <= i < |rows| && rows[i].key == key
  {
    if rows != [] {
      var init := rows[..|rows| - 1];
      AsTableKeys(init, key);
      if i :| 0 <= i < |init| && init[i].key == key {
        assert rows[i].key == key;
      }
      if i :| 0 <= i < |rows| && rows[i].key == key {
        assert i < |init| ==> init[i].key == key;
      }
    }
  }
}
