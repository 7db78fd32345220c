/** The clustered index as pages of a file: its levels, its leaf chain, and what makes the separators
    lead a search to the right place. */
module ClusteredIndex {
  import opened Bytes
  import opened PageLists

  datatype Node = LeafNode(leaf: Leaf) | InternalNode(internal: Internal) | OtherPage

  type File = map<PageId, Node>

  function Kids(n: Internal): (ks: seq<PageId>)
    ensures |ks| == |n.cells| + 1 && ks[|n.cells|] == n.rightmost
    ensures forall i :: 0 <= i < |n.cells| ==> ks[i] == n.cells[i].child
  {
    seq(|n.cells|, i requires 0 <= i < |n.cells| => n.cells[i].child) + [n.rightmost]
  }

  predicate AllLeaves(f: File, ids: seq<PageId>) {
    forall i :: 0 <= i < |ids| ==> ids[i] in f && f[ids[i]].LeafNode?
  }

  predicate AllInternal(f: File, ids: seq<PageId>) {
    forall i :: 0 <= i < |ids| ==> ids[i] in f && f[ids[i]].InternalNode?
  }

  /** The level below a level. */
  function AllKids(f: File, ids: seq<PageId>): seq<PageId>
    requires AllInternal(f, ids)
  {
    if ids == [] then [] else Kids(f[ids[0]].internal) + AllKids(f, ids[1..])
  }

  /** `ids` are pages `h` levels above the leaves. */
  predicate Index(f: File, ids: seq<PageId>, h: nat)
    decreases h
  {
    if h == 0 then AllLeaves(f, ids) else AllInternal(f, ids) && Index(f, AllKids(f, ids), h - 1)
  }

  /** The leaves below them, from left to right. */
  function Leaves(f: File, ids: seq<PageId>, h: nat): (ls: seq<PageId>)
    requires Index(f, ids, h)
    ensures AllLeaves(f, ls)
    decreases h
  {
    if h == 0 then ids else Leaves(f, AllKids(f, ids), h - 1)
  }

  /** The records of a list of leaves. */
  function Records(f: File, ls: seq<PageId>): seq<Record>
    requires AllLeaves(f, ls)
  {
    if ls == [] then [] else Records(f, ls[..|ls| - 1]) + f[ls[|ls| - 1]].leaf.records
  }

  predicate AllBelow(rs: seq<Record>, key: seq<Byte>) {
    forall i :: 0 <= i < |rs| ==> Less(rs[i].key, key)
  }

  predicate NoneAbove(rs: seq<Record>, key: seq<Byte>) {
    forall i :: 0 <= i < |rs| ==> !Less(key, rs[i].key)
  }

  predicate NoneBelow(rs: seq<Record>, key: seq<Byte>) {
    forall i :: 0 <= i < |rs| ==> !Less(rs[i].key, key)
  }

  /** None of the records under `ids` is above `separator`. */
  predicate LeftOf(f: File, ids: seq<PageId>, h: nat, separator: seq<Byte>) {
    Index(f, ids, h) && NoneAbove(Records(f, Leaves(f, ids, h)), separator)
  }

  /** None of the records under `ids` is below `key`. */
  predicate RightOf(f: File, ids: seq<PageId>, h: nat, key: seq<Byte>) {
    Index(f, ids, h) && NoneBelow(Records(f, Leaves(f, ids, h)), key)
  }

  /** All of the records under `ids` are below `key`. */
  predicate Under(f: File, ids: seq<PageId>, h: nat, key: seq<Byte>) {
    Index(f, ids, h) && AllBelow(Records(f, Leaves(f, ids, h)), key)
  }

  /** The separators of one internal page: at least one, ascending, and each between the children
      left and right of it. */
  predicate Separates(f: File, n: Internal, h: nat) {
    && n.cells != []
    && Ascending(CellKeys(n.cells))
    && (forall i :: 0 <= i < |n.cells| ==> LeftOf(f, [Kids(n)[i]], h, n.cells[i].key))
    && (forall i :: 0 <= i < |n.cells| ==> RightOf(f, [Kids(n)[i + 1]], h, n.cells[i].key))
  }

  predicate LevelSeparates(f: File, ids: seq<PageId>, h: nat)
    requires AllInternal(f, ids)
  {
    forall i :: 0 <= i < |ids| ==> Separates(f, f[ids[i]].internal, h)
  }

  predicate Separated(f: File, ids: seq<PageId>, h: nat)
    requires Index(f, ids, h)
    decreases h
  {
    h > 0 ==> LevelSeparates(f, ids, h - 1) && Separated(f, AllKids(f, ids), h - 1)
  }

  /** What the leaf at `i` links to. */
  function Successor(ls: seq<PageId>, i: nat): PageId
    requires i < |ls|
  {
    if i + 1 < |ls| then ls[i + 1] else NO_PAGE
  }

  /** Each leaf of the list links to the next one, and the last one to none. */
  predicate Chained(f: File, ls: seq<PageId>)
    requires AllLeaves(f, ls)
  {
    forall i :: 0 <= i < |ls| ==> f[ls[i]].leaf.next == Successor(ls, i)
  }

  /** A tree of height `h` whose leaf chain is in order. */
  ghost predicate WellFormed(f: File, root: PageId, h: nat) {
    && NO_PAGE !in f
    && Index(f, [root], h)
    && Separated(f, [root], h)
    && Chained(f, Leaves(f, [root], h))
    && Ascending(Keys(Records(f, Leaves(f, [root], h))))
  }

  // ---- Splitting a level ----

  lemma {:induction false} KidsConcat(f: File, a: seq<PageId>, b: seq<PageId>)
    requires AllInternal(f, a) && AllInternal(f, b)
    ensures AllInternal(f, a + b) && AllKids(f, a + b) == AllKids(f, a) + AllKids(f, b)
  {
    if a == [] {
      assert a + b == b;
    } else {
      assert a == [a[0]] + a[1..];
      assert (a + b)[1..] == a[1..] + b;
      KidsConcat(f, a[1..], b);
    }
  }

  lemma {:induction false} LeavesConcat(f: File, a: seq<PageId>, b: seq<PageId>, h: nat)
    requires Index(f, a, h) && Index(f, b, h)
    ensures Index(f, a + b, h) && Leaves(f, a + b, h) == Leaves(f, a, h) + Leaves(f, b, h)
    decreases h
  {
    if h > 0 {
      KidsConcat(f, a, b);
      LeavesConcat(f, AllKids(f, a), AllKids(f, b), h - 1);
    }
  }

  lemma {:induction false} IndexParts(f: File, a: seq<PageId>, b: seq<PageId>, h: nat)
    requires Index(f, a + b, h)
    ensures Index(f, a, h) && Index(f, b, h)
    decreases h
  {
    if h == 0 {
      forall i | 0 <= i < |a| ensures a[i] in f && f[a[i]].LeafNode? { assert (a + b)[i] == a[i]; }
      forall i | 0 <= i < |b| ensures b[i] in f && f[b[i]].LeafNode? { assert (a + b)[|a| + i] == b[i]; }
    } else {
      forall i | 0 <= i < |a| ensures a[i] in f && f[a[i]].InternalNode? { assert (a + b)[i] == a[i]; }
      forall i | 0 <= i < |b| ensures b[i] in f && f[b[i]].InternalNode? { assert (a + b)[|a| + i] == b[i]; }
      KidsConcat(f, a, b);
      IndexParts(f, AllKids(f, a), AllKids(f, b), h - 1);
    }
  }

  lemma {:induction false} SeparatedParts(f: File, a: seq<PageId>, b: seq<PageId>, h: nat)
    requires Index(f, a + b, h) && Separated(f, a + b, h)
    ensures Index(f, a, h) && Index(f, b, h) && Separated(f, a, h) && Separated(f, b, h)
    decreases h
  {
    hide LevelSeparates;
    IndexParts(f, a, b, h);
    if h > 0 {
      KidsConcat(f, a, b);
      SeparatedParts(f, AllKids(f, a), AllKids(f, b), h - 1);
      LevelParts(f, a, b, h - 1);
    }
  }

  lemma LevelParts(f: File, a: seq<PageId>, b: seq<PageId>, h: nat)
    requires AllInternal(f, a) && AllInternal(f, b) && AllInternal(f, a + b) && LevelSeparates(f, a + b, h)
    ensures LevelSeparates(f, a, h) && LevelSeparates(f, b, h)
  {
    hide Index, Separates;
    forall i | 0 <= i < |a| ensures Separates(f, f[a[i]].internal, h) {
      assert (a + b)[i] == a[i];
    }
    forall i | 0 <= i < |b| ensures Separates(f, f[b[i]].internal, h) {
      assert (a + b)[|a| + i] == b[i];
    }
  }

  lemma {:induction false} RecordsConcat(f: File, a: seq<PageId>, b: seq<PageId>)
    requires AllLeaves(f, a) && AllLeaves(f, b)
    ensures AllLeaves(f, a + b) && Records(f, a + b) == Records(f, a) + Records(f, b)
  {
    if b == [] {
      assert a + b == a;
    } else {
      assert (a + b)[..|a + b| - 1] == a + b[..|b| - 1];
      RecordsConcat(f, a, b[..|b| - 1]);
    }
  }

  lemma RecordsOne(f: File, id: PageId)
    requires id in f && f[id].LeafNode?
    ensures Records(f, [id]) == f[id].leaf.records
  {
    assert [id][..0] == [];
  }

  // ---- One step down ----

  /** The children `ks` are a level, and the leaves under `id` are those under the children before
      `i`, under that child, and under those after it. */
  predicate Cut(f: File, id: PageId, ks: seq<PageId>, h: nat, i: nat)
    requires i < |ks|
  {
    && Index(f, [id], h + 1)
    && Index(f, ks[..i], h) && Index(f, [ks[i]], h) && Index(f, ks[i + 1..], h)
    && Leaves(f, [id], h + 1) == Leaves(f, ks[..i], h) + Leaves(f, [ks[i]], h) + Leaves(f, ks[i + 1..], h)
  }

  /** One step of a descent: what lies under the child to take, and around it. */
  lemma StepDown(f: File, id: PageId, h: nat, i: nat)
    requires id in f && f[id].InternalNode? && i <= |f[id].internal.cells|
    requires Index(f, [id], h + 1) && Separated(f, [id], h + 1)
    ensures Cut(f, id, Kids(f[id].internal), h, i)
    ensures Separated(f, [Kids(f[id].internal)[i]], h)
  {
    hide Leaves, Separated, Index, Separates, AllLeaves, AllInternal;
    LevelDown(f, id, h);
    var ks := Kids(f[id].internal);
    assert ks == ks[..i] + ([ks[i]] + ks[i + 1..]);
    ThreeParts(f, ks[..i], [ks[i]], ks[i + 1..], h);
  }

  lemma ThreeParts(f: File, left: seq<PageId>, here: seq<PageId>, right: seq<PageId>, h: nat)
    requires Index(f, left + (here + right), h) && Separated(f, left + (here + right), h)
    ensures Index(f, left, h) && Index(f, here, h) && Index(f, right, h) && Separated(f, here, h)
    ensures Leaves(f, left + (here + right), h) == Leaves(f, left, h) + Leaves(f, here, h) + Leaves(f, right, h)
  {
    hide Leaves, Separated, Index, AllLeaves;
    SeparatedParts(f, left, here + right, h);
    SeparatedParts(f, here, right, h);
    LeavesConcat(f, left, here + right, h);
    LeavesConcat(f, here, right, h);
  }

  /** Under an internal page one level up is what lies under its children. */
  predicate Opens(f: File, id: PageId, h: nat) {
    && id in f && f[id].InternalNode?
    && Separates(f, f[id].internal, h)
    && Index(f, [id], h + 1) && Index(f, Kids(f[id].internal), h)
    && Separated(f, Kids(f[id].internal), h)
    && Leaves(f, [id], h + 1) == Leaves(f, Kids(f[id].internal), h)
  }

  lemma LevelDown(f: File, id: PageId, h: nat)
    requires Index(f, [id], h + 1) && Separated(f, [id], h + 1)
    ensures Opens(f, id, h)
  {
    hide Separates;
    assert [id][0] == id;
    assert AllKids(f, [id]) == Kids(f[id].internal) + AllKids(f, [id][1..]) == Kids(f[id].internal);
  }

  lemma LeftOfUnder(f: File, ids: seq<PageId>, h: nat, separator: seq<Byte>, key: seq<Byte>)
    requires LeftOf(f, ids, h, separator) && Less(separator, key)
    ensures Under(f, ids, h, key)
  {
    hide Leaves, Index, Records, Less;
    var rs := Records(f, Leaves(f, ids, h));
    forall k | 0 <= k < |rs| ensures Less(rs[k].key, key) {
      AtMostLess(rs[k].key, separator, key);
    }
  }

  lemma RightOfWeaker(f: File, ids: seq<PageId>, h: nat, separator: seq<Byte>, key: seq<Byte>)
    requires RightOf(f, ids, h, separator) && !Less(separator, key)
    ensures RightOf(f, ids, h, key)
  {
    hide Leaves, Index, Records, Less;
    var rs := Records(f, Leaves(f, ids, h));
    forall k | 0 <= k < |rs| ensures !Less(rs[k].key, key) {
      AtMostAtMost(key, separator, rs[k].key);
    }
  }

  lemma UnderConcat(f: File, a: seq<PageId>, b: seq<PageId>, h: nat, key: seq<Byte>)
    requires Index(f, a, h) && Index(f, b, h)
    ensures Under(f, a + b, h, key) <==> Under(f, a, h, key) && Under(f, b, h, key)
  {
    hide Leaves, Index, Records, Less;
    LeavesConcat(f, a, b, h);
    RecordsConcat(f, Leaves(f, a, h), Leaves(f, b, h));
    var rs, qs := Records(f, Leaves(f, a, h)), Records(f, Leaves(f, b, h));
    assert forall i :: 0 <= i < |rs| ==> (rs + qs)[i] == rs[i];
    assert forall i :: 0 <= i < |qs| ==> (rs + qs)[|rs| + i] == qs[i];
  }

  lemma RightOfConcat(f: File, a: seq<PageId>, b: seq<PageId>, h: nat, key: seq<Byte>)
    requires Index(f, a, h) && Index(f, b, h)
    ensures RightOf(f, a + b, h, key) <==> RightOf(f, a, h, key) && RightOf(f, b, h, key)
  {
    hide Leaves, Index, Records, Less;
    LeavesConcat(f, a, b, h);
    RecordsConcat(f, Leaves(f, a, h), Leaves(f, b, h));
    var rs, qs := Records(f, Leaves(f, a, h)), Records(f, Leaves(f, b, h));
    assert forall i :: 0 <= i < |rs| ==> (rs + qs)[i] == rs[i];
    assert forall i :: 0 <= i < |qs| ==> (rs + qs)[|rs| + i] == qs[i];
  }

  lemma SeparatorAt(f: File, n: Internal, h: nat, i: nat)
    requires Separates(f, n, h) && i < |n.cells|
    ensures LeftOf(f, [Kids(n)[i]], h, n.cells[i].key) && RightOf(f, [Kids(n)[i + 1]], h, n.cells[i].key)
  {
  }

  /** Everything left of the first separator at least `key` is below `key`. */
  lemma {:induction false} LeftBelow(f: File, n: Internal, h: nat, key: seq<Byte>, i: nat)
    requires Index(f, Kids(n), h) && Separates(f, n, h) && i <= |n.cells|
    requires forall j :: 0 <= j < i ==> Less(n.cells[j].key, key)
    ensures Under(f, Kids(n)[..i], h, key)
  {
    hide Under, LeftOf, RightOf, Index, Less, Ascending, Separates;
    var ks := Kids(n);
    if i == 0 {
      NoneUnder(f, h, key);
    } else {
      LeftBelow(f, n, h, key, i - 1);
      assert ks[..i] == ks[..i - 1] + [ks[i - 1]];
      assert ks == ks[..i] + ks[i..];
      IndexParts(f, ks[..i], ks[i..], h);
      IndexParts(f, ks[..i - 1], [ks[i - 1]], h);
      SeparatorAt(f, n, h, i - 1);
      LeftOfUnder(f, [ks[i - 1]], h, n.cells[i - 1].key, key);
      UnderConcat(f, ks[..i - 1], [ks[i - 1]], h, key);
    }
  }

  /** Nothing right of a separator is below a key that is not above it. */
  lemma {:induction false} RightNotBelow(f: File, n: Internal, h: nat, key: seq<Byte>, i: nat)
    requires Index(f, Kids(n), h) && Separates(f, n, h) && i <= |n.cells|
    requires forall j :: i <= j < |n.cells| ==> !Less(n.cells[j].key, key)
    ensures RightOf(f, Kids(n)[i + 1..], h, key)
    decreases |n.cells| - i
  {
    hide Under, LeftOf, RightOf, Index, Less, Ascending, Separates;
    var ks := Kids(n);
    if i == |n.cells| {
      NoneUnder(f, h, key);
    } else {
      RightNotBelow(f, n, h, key, i + 1);
      assert ks[i + 1..] == [ks[i + 1]] + ks[i + 2..];
      assert ks == ks[..i + 1] + ks[i + 1..];
      IndexParts(f, ks[..i + 1], ks[i + 1..], h);
      IndexParts(f, [ks[i + 1]], ks[i + 2..], h);
      SeparatorAt(f, n, h, i);
      RightOfWeaker(f, [ks[i + 1]], h, n.cells[i].key, key);
      RightOfConcat(f, [ks[i + 1]], ks[i + 2..], h, key);
    }
  }

  lemma NoneUnder(f: File, h: nat, key: seq<Byte>)
    ensures Under(f, [], h, key) && RightOf(f, [], h, key)
  {
    NoLeaves(f, h);
  }

  lemma {:induction false} NoLeaves(f: File, h: nat)
    ensures Index(f, [], h) && Leaves(f, [], h) == [] && Records(f, []) == []
  {
    if h > 0 {
      NoLeaves(f, h - 1);
    }
  }

  // ---- The first slot ----

  /** How many keys at the beginning of a list are below `key`. */
  function FirstSlot(keys: seq<seq<Byte>>, key: seq<Byte>): (at: nat)
    ensures at <= |keys|
    ensures forall i :: 0 <= i < at ==> Less(keys[i], key)
    ensures at < |keys| ==> !Less(keys[at], key)
  {
    if keys == [] || !Less(keys[0], key) then 0 else
    var at := FirstSlot(keys[1..], key);
    assert forall i :: 0 < i < at + 1 ==> keys[i] == keys[1..][i - 1];
    at + 1
  }

  lemma FirstSlotIs(keys: seq<seq<Byte>>, key: seq<Byte>)
    requires Ascending(keys)
    ensures FirstAtLeast(keys, key, FirstSlot(keys, key))
  {
    var at := FirstSlot(keys, key);
    if at < |keys| {
      Decides(keys, key, at);
    }
  }

  /** There is one such slot: what binary search on a page finds is the slot a descent takes. */
  lemma SlotFound(keys: seq<seq<Byte>>, key: seq<Byte>, slot: nat)
    requires Ascending(keys) && FirstAtLeast(keys, key, slot)
    ensures slot == FirstSlot(keys, key)
  {
    FirstSlotIs(keys, key);
    FirstUnique(keys, key, slot, FirstSlot(keys, key));
  }

  /** In an ascending list of records, the first slot of a stretch behind records below `key` is
      the first of the list. */
  lemma FirstInStretch(before: seq<Record>, here: seq<Record>, after: seq<Record>, key: seq<Byte>)
    requires Ascending(Keys(before + here + after)) && AllBelow(before, key)
    ensures var at := FirstSlot(Keys(here), key);
      if at < |here| then FirstAtLeast(Keys(before + here + after), key, |before| + at)
      else AllBelow(before + here, key)
  {
    var all := Keys(before + here + after);
    var at := FirstSlot(Keys(here), key);
    assert forall i :: 0 <= i < |here| ==> (before + here)[|before| + i] == here[i];
    forall i | 0 <= i < |before| + at ensures Less(all[i], key) {
      if i >= |before| {
        assert all[i] == Keys(here)[i - |before|];
      }
    }
    if at < |here| {
      assert all[|before| + at] == Keys(here)[at];
      Decides(all, key, |before| + at);
    } else {
      forall i | 0 <= i < |before + here| ensures Less((before + here)[i].key, key) {
        assert all[i] == (before + here)[i].key;
      }
    }
  }

  /** Cuts the records of a list of leaves around one of them. */
  lemma RecordsAround(f: File, ls: seq<PageId>, j: nat)
    requires AllLeaves(f, ls) && j < |ls|
    ensures AllLeaves(f, ls[..j]) && AllLeaves(f, ls[..j + 1]) && AllLeaves(f, ls[j + 1..])
    ensures Records(f, ls) == Records(f, ls[..j]) + f[ls[j]].leaf.records + Records(f, ls[j + 1..])
    ensures Records(f, ls[..j + 1]) == Records(f, ls[..j]) + f[ls[j]].leaf.records
  {
    RecordsConcat(f, ls[..j], [ls[j]]);
    RecordsOne(f, ls[j]);
    assert ls[..j + 1] == ls[..j] + [ls[j]];
    RecordsConcat(f, ls[..j + 1], ls[j + 1..]);
    assert ls == ls[..j + 1] + ls[j + 1..];
  }
}
