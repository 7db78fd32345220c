/** The table an index stands for, and what changing one leaf does to it and to the index. */
module ClusteredEdits {
  import opened Bytes
  import opened PageLists
  import opened ClusteredIndex
  import opened ClusteredScan

  // ---- Records as a table ----

  /** Among records with one key only the first can be live. */
  predicate FirstLive(rs: seq<Record>) {
    forall i, j :: 0 <= i < j < |rs| && rs[i].key == rs[j].key ==> rs[j].Deleted()
  }

  predicate Ordered(rs: seq<Record>) {
    Ascending(Keys(rs)) && FirstLive(rs)
  }

  predicate HasLive(rs: seq<Record>, key: seq<Byte>) {
    exists i :: 0 <= i < |rs| && rs[i].key == key && !rs[i].Deleted()
  }

  /** The rows of the live records by key. */
  function Contents(rs: seq<Record>): map<seq<Byte>, seq<Byte>> {
    if rs == [] then map[]
    else if rs[0].Deleted() then Contents(rs[1..])
    else Contents(rs[1..])[rs[0].key := rs[0].row]
  }

  lemma {:induction false} ContentsConcat(a: seq<Record>, b: seq<Record>)
    ensures Contents(a + b) == Contents(b) + Contents(a)
  {
    if a == [] {
      assert a + b == b;
    } else {
      assert (a + b)[1..] == a[1..] + b;
      ContentsConcat(a[1..], b);
    }
  }

  lemma ContentsOne(r: Record)
    ensures Contents([r]) == if r.Deleted() then map[] else map[r.key := r.row]
  {
    assert [r][1..] == [];
  }

  lemma {:induction false} ContentsHas(rs: seq<Record>, key: seq<Byte>)
    ensures key in Contents(rs) <==> HasLive(rs, key)
  {
    if rs != [] {
      var rest := rs[1..];
      ContentsHas(rest, key);
      if HasLive(rs, key) {
        var i :| 0 <= i < |rs| && rs[i].key == key && !rs[i].Deleted();
        assert i > 0 ==> rest[i - 1] == rs[i];
      }
      if HasLive(rest, key) {
        var i :| 0 <= i < |rest| && rest[i].key == key && !rest[i].Deleted();
        assert rs[i + 1] == rest[i];
      }
    }
  }

  // ---- What a scan of the table returns ----

  /** The keys of the live records. */
  function LiveKeys(rs: seq<Record>): (ks: seq<seq<Byte>>) {
    if rs == [] then [] else (if rs[0].Deleted() then [] else [rs[0].key]) + LiveKeys(rs[1..])
  }

  /** `rows` are the rows of a table without their row ids, one for each of `keys`: all its keys, each once
      and in order. */
  ghost predicate Lists(table: map<seq<Byte>, seq<Byte>>, keys: seq<seq<Byte>>, rows: seq<seq<Byte>>) {
    && |keys| == |rows|
    && (forall i, j :: 0 <= i < j < |keys| ==> Less(keys[i], keys[j]))
    && (forall key :: key in keys <==> key in table)
    && (forall i :: 0 <= i < |keys| ==> |table[keys[i]]| >= ROW_ID_SIZE && rows[i] == table[keys[i]][ROW_ID_SIZE..])
  }

  lemma ListsMore(table: map<seq<Byte>, seq<Byte>>, keys: seq<seq<Byte>>, rows: seq<seq<Byte>>, key: seq<Byte>,
          row: seq<Byte>)
    requires Lists(table, keys, rows) && |row| >= ROW_ID_SIZE
    requires key !in table && forall k :: k in keys ==> Less(key, k)
    ensures Lists(table[key := row], [key] + keys, [row[ROW_ID_SIZE..]] + rows)
  {
    hide Less;
  }

  /** The live rows in chain order are the table in the order of its keys, when every row has an id. */
  lemma {:induction false} LiveRowsList(rs: seq<Record>)
    requires Ordered(rs) && RowIds(rs)
    ensures Lists(Contents(rs), LiveKeys(rs), LiveRows(rs))
  {
    if rs == [] {
      return;
    }
    hide Lists, Less, HasLive;
    var rest := rs[1..];
    assert Keys(rest) == Keys(rs)[1..];
    LiveRowsList(rest);
    if !rs[0].Deleted() {
      OthersAbove(rs);
      ListsMore(Contents(rest), LiveKeys(rest), LiveRows(rest), rs[0].key, rs[0].row);
    } else {
      assert [] + LiveKeys(rest) == LiveKeys(rest);
    }
  }

  lemma OthersAbove(rs: seq<Record>)
    requires rs != [] && Ordered(rs) && !rs[0].Deleted()
    requires forall key :: key in LiveKeys(rs[1..]) <==> key in Contents(rs[1..])
    ensures rs[0].key !in Contents(rs[1..])
    ensures forall key :: key in LiveKeys(rs[1..]) ==> Less(rs[0].key, key)
  {
    hide Less;
    ContentsHas(rs[1..], rs[0].key);
    forall key | key in LiveKeys(rs[1..]) ensures Less(rs[0].key, key) {
      FirstBelow(rs, key);
    }
  }

  lemma FirstBelow(rs: seq<Record>, key: seq<Byte>)
    requires rs != [] && Ordered(rs) && key in Contents(rs[1..])
    ensures Less(rs[0].key, key)
  {
    ContentsHas(rs[1..], key);
    var i :| 0 <= i < |rs[1..]| && rs[1..][i].key == key && !rs[1..][i].Deleted();
    assert rs[i + 1] == rs[1..][i] && Keys(rs)[i + 1] == key && Keys(rs)[0] == rs[0].key;
    Trichotomy(rs[0].key, key);
  }

  /** A row of the table is too short to have an id exactly when one of a live record is. */
  lemma {:induction false} RowIdsMean(rs: seq<Record>)
    requires Ordered(rs)
    ensures RowIds(rs) <==> forall key :: key in Contents(rs) ==> |Contents(rs)[key]| >= ROW_ID_SIZE
  {
    if rs != [] {
      var rest := rs[1..];
      assert Keys(rest) == Keys(rs)[1..];
      RowIdsMean(rest);
      assert [rs[0]] + rest == rs;
      LiveRowsFirst(rs[0], rest);
      ContentsHas(rest, rs[0].key);
      if !rs[0].Deleted() {
        assert !HasLive(rest, rs[0].key);
        assert forall key :: key in Contents(rs) <==> key == rs[0].key || key in Contents(rest);
        assert forall key :: key in Contents(rest) ==> Contents(rs)[key] == Contents(rest)[key];
        assert Contents(rs)[rs[0].key] == rs[0].row;
      }
    }
  }

  lemma HasLiveConcat(a: seq<Record>, b: seq<Record>, key: seq<Byte>)
    ensures HasLive(a + b, key) <==> HasLive(a, key) || HasLive(b, key)
  {
    if HasLive(a, key) {
      var i :| 0 <= i < |a| && a[i].key == key && !a[i].Deleted();
      assert (a + b)[i] == a[i];
    }
    if HasLive(b, key) {
      var i :| 0 <= i < |b| && b[i].key == key && !b[i].Deleted();
      assert (a + b)[|a| + i] == b[i];
    }
  }

  /** A live record with a key is the first one with it. */
  lemma LiveIsFirst(rs: seq<Record>, key: seq<Byte>, p: nat)
    requires Ordered(rs) && FirstAtLeast(Keys(rs), key, p)
    ensures HasLive(rs, key) <==> p < |rs| && rs[p].key == key && !rs[p].Deleted()
    ensures forall i :: 0 <= i < |rs| && i != p && rs[i].key == key ==> rs[i].Deleted()
  {
    Irreflexive(key);
    var keys := Keys(rs);
    forall i | 0 <= i < |rs| && rs[i].key == key ensures p <= i && keys[p] == key {
      assert keys[i] == key;
      if p < i {
        assert !Less(keys[i], keys[p]) && !Less(keys[p], key);
        Trichotomy(keys[p], key);
      }
    }
  }

  // ---- One record more ----

  /** A live record inserted where its key belongs. */
  lemma InsertedTable(rs: seq<Record>, p: nat, r: Record)
    requires Ordered(rs) && FirstAtLeast(Keys(rs), r.key, p) && !r.Deleted() && !HasLive(rs, r.key)
    ensures Ordered(Inserted(rs, p, r))
    ensures Contents(Inserted(rs, p, r)) == Contents(rs)[r.key := r.row]
  {
    InsertedOrdered(rs, p, r);
    hide Contents, Ordered, HasLive, FirstAtLeast;
    assert rs == rs[..p] + rs[p..];
    HasLiveConcat(rs[..p], rs[p..], r.key);
    ContentsHas(rs[..p], r.key);
    InsertedContents(rs[..p], r, rs[p..]);
  }

  lemma InsertedContents(a: seq<Record>, r: Record, b: seq<Record>)
    requires !r.Deleted() && r.key !in Contents(a)
    ensures Contents(a + [r] + b) == Contents(a + b)[r.key := r.row]
  {
    hide Contents;
    ContentsConcat(a + [r], b);
    ContentsConcat(a, [r]);
    ContentsConcat(a, b);
    ContentsOne(r);
  }

  lemma InsertedOrdered(rs: seq<Record>, p: nat, r: Record)
    requires Ordered(rs) && FirstAtLeast(Keys(rs), r.key, p) && !HasLive(rs, r.key)
    ensures Ordered(Inserted(rs, p, r))
  {
    hide Less;
    var keys, all := Keys(rs), Inserted(rs, p, r);
    forall i, j | 0 <= i < j < |all| ensures !Less(all[j].key, all[i].key) {
      InsertedPair(rs, p, r, i, j);
    }
    assert Ascending(Keys(all));
    forall i, j | 0 <= i < j < |all| && all[i].key == all[j].key ensures all[j].Deleted() {
      InsertedPair(rs, p, r, i, j);
    }
  }

  lemma InsertedPair(rs: seq<Record>, p: nat, r: Record, i: nat, j: nat)
    requires Ordered(rs) && FirstAtLeast(Keys(rs), r.key, p) && !HasLive(rs, r.key)
    requires i < j <= |rs|
    ensures var all := Inserted(rs, p, r);
      !Less(all[j].key, all[i].key) && (all[i].key == all[j].key ==> all[j].Deleted())
  {
    hide Less;
    var keys, all := Keys(rs), Inserted(rs, p, r);
    Irreflexive(r.key);
    if j == p {
      assert all[i] == rs[i] && Less(keys[i], r.key);
      Trichotomy(keys[i], r.key);
    } else if i == p {
      assert all[j] == rs[j - 1] && !Less(keys[j - 1], r.key);
    } else {
      var x, y := if i < p then i else i - 1, if j < p then j else j - 1;
      assert all[i] == rs[x] && all[j] == rs[y] && !Less(keys[y], keys[x]);
    }
  }

  // ---- One record less ----

  /** Changing the flags of a record to deleted. */
  lemma MarkedTable(a: seq<Record>, x: Record, b: seq<Record>, dead: Record)
    requires Ordered(a + [x] + b) && dead.key == x.key && dead.Deleted() && !x.Deleted()
    ensures Ordered(a + [dead] + b)
    ensures Contents(a + [dead] + b) == Contents(a + [x] + b) - {x.key}
    ensures !HasLive(a + [dead] + b, x.key)
  {
    hide Ordered, Contents, HasLive;
    MarkedOrdered(a, x, b, dead);
    OnlyOne(a, x, b);
    ContentsConcat(a + [x], b);
    ContentsConcat(a, [x]);
    ContentsConcat(a + [dead], b);
    ContentsConcat(a, [dead]);
    ContentsOne(x);
    ContentsOne(dead);
    ContentsHas(a, x.key);
    ContentsHas(b, x.key);
    ContentsHas(a + [dead] + b, x.key);
  }

  lemma MarkedOrdered(a: seq<Record>, x: Record, b: seq<Record>, dead: Record)
    requires Ordered(a + [x] + b) && dead.key == x.key && dead.Deleted()
    ensures Ordered(a + [dead] + b)
  {
    hide Less, Ascending;
    var rs, qs := a + [x] + b, a + [dead] + b;
    forall i | 0 <= i < |rs|
      ensures qs[i].key == rs[i].key && (rs[i].Deleted() ==> qs[i].Deleted())
    {
    }
    assert Keys(qs) == Keys(rs);
  }

  lemma OnlyOne(a: seq<Record>, x: Record, b: seq<Record>)
    requires Ordered(a + [x] + b) && !x.Deleted()
    ensures !HasLive(a, x.key) && !HasLive(b, x.key)
  {
    hide Less, Ascending;
    var rs := a + [x] + b;
    assert rs[|a|] == x;
    OthersDead(rs, |a|);
    assert forall i :: 0 <= i < |a| ==> a[i] == rs[i];
    assert forall i :: 0 <= i < |b| ==> b[i] == rs[|a| + 1 + i];
  }

  lemma OthersDead(rs: seq<Record>, p: nat)
    requires FirstLive(rs) && p < |rs| && !rs[p].Deleted()
    ensures forall i :: 0 <= i < |rs| && i != p && rs[i].key == rs[p].key ==> rs[i].Deleted()
  {
  }

  /** Leaving out a deleted record. */
  lemma DropDead(a: seq<Record>, x: Record, b: seq<Record>)
    requires Ordered(a + [x] + b) && x.Deleted()
    ensures Ordered(a + b) && Contents(a + b) == Contents(a + [x] + b)
  {
    hide Less;
    var rs, qs := a + [x] + b, a + b;
    forall i | 0 <= i < |qs| ensures qs[i] == rs[if i < |a| then i else i + 1] {
    }
    forall i, j | 0 <= i < j < |qs|
      ensures !Less(qs[j].key, qs[i].key) && (qs[i].key == qs[j].key ==> qs[j].Deleted())
    {
      var k, l := if i < |a| then i else i + 1, if j < |a| then j else j + 1;
      assert !Less(Keys(rs)[l], Keys(rs)[k]);
    }
    assert Ascending(Keys(qs));
    ContentsConcat(a + [x], b);
    ContentsConcat(a, [x]);
    ContentsConcat(a, b);
    ContentsOne(x);
  }

  /** Clearing the other flags of a live record. */
  lemma ClearFlags(a: seq<Record>, x: Record, b: seq<Record>, clear: Record)
    requires Ordered(a + [x] + b) && !x.Deleted() && !clear.Deleted() && clear.key == x.key && clear.row == x.row
    ensures Ordered(a + [clear] + b) && Contents(a + [clear] + b) == Contents(a + [x] + b)
  {
    hide Less;
    var rs, qs := a + [x] + b, a + [clear] + b;
    forall i | 0 <= i < |rs| ensures qs[i].key == rs[i].key && (qs[i].Deleted() <==> rs[i].Deleted()) {
    }
    assert Keys(qs) == Keys(rs);
    ContentsConcat(a + [x], b);
    ContentsConcat(a, [x]);
    ContentsConcat(a + [clear], b);
    ContentsConcat(a, [clear]);
    ContentsOne(x);
    ContentsOne(clear);
  }

  /** Compacting a stretch keeps the table. */
  lemma {:induction false} LiveTable(a: seq<Record>, x: seq<Record>, b: seq<Record>)
    requires Ordered(a + x + b)
    ensures Ordered(a + Live(x) + b) && Contents(a + Live(x) + b) == Contents(a + x + b)
    decreases |x|
  {
    hide Ordered, Contents;
    if x != [] {
      var init, last := x[..|x| - 1], x[|x| - 1];
      assert a + x + b == (a + init) + [last] + b;
      if last.Deleted() {
        DropDead(a + init, last, b);
        assert (a + init) + b == a + init + b;
        LiveTable(a, init, b);
      } else {
        var clear := Record(0, last.key, last.row);
        ClearFlags(a + init, last, b, clear);
        assert (a + init) + [clear] + b == a + init + ([clear] + b);
        LiveTable(a, init, [clear] + b);
        assert a + Live(init) + ([clear] + b) == a + (Live(init) + [clear]) + b;
      }
    }
  }

  // ---- Changing one leaf ----

  /** The file with other content in one leaf. */
  function Swapped(f: File, id: PageId, l: Leaf): File
    requires id in f && f[id].LeafNode?
  {
    f[id := LeafNode(l)]
  }

  lemma {:induction false} SwapKids(f: File, id: PageId, l: Leaf, ids: seq<PageId>)
    requires id in f && f[id].LeafNode? && AllInternal(f, ids)
    ensures AllInternal(Swapped(f, id, l), ids) && AllKids(Swapped(f, id, l), ids) == AllKids(f, ids)
  {
    if ids != [] {
      assert ids[0] in f && f[ids[0]].InternalNode?;
      SwapKids(f, id, l, ids[1..]);
    }
  }

  lemma {:induction false} SwapShape(f: File, id: PageId, l: Leaf, ids: seq<PageId>, h: nat)
    requires id in f && f[id].LeafNode? && ClusteredIndex.Index(f, ids, h)
    ensures ClusteredIndex.Index(Swapped(f, id, l), ids, h)
    ensures Leaves(Swapped(f, id, l), ids, h) == Leaves(f, ids, h)
    decreases h
  {
    if h > 0 {
      SwapKids(f, id, l, ids);
      SwapShape(f, id, l, AllKids(f, ids), h - 1);
    }
  }

  lemma {:induction false} SwapElsewhere(f: File, id: PageId, l: Leaf, ls: seq<PageId>)
    requires id in f && f[id].LeafNode? && AllLeaves(f, ls) && id !in ls
    ensures AllLeaves(Swapped(f, id, l), ls) && Records(Swapped(f, id, l), ls) == Records(f, ls)
  {
    if ls != [] {
      SwapElsewhere(f, id, l, ls[..|ls| - 1]);
    }
  }

  /** The records of the chain after one leaf has changed. */
  lemma SwapRecords(f: File, l: Leaf, ls: seq<PageId>, j: nat)
    requires AllLeaves(f, ls) && Distinct(ls) && j < |ls|
    ensures var g := Swapped(f, ls[j], l);
      AllLeaves(g, ls) && Records(g, ls) == Records(f, ls[..j]) + l.records + Records(f, ls[j + 1..])
  {
    var g := Swapped(f, ls[j], l);
    assert ls == ls[..j] + [ls[j]] + ls[j + 1..];
    SwapElsewhere(f, ls[j], l, ls[..j]);
    SwapElsewhere(f, ls[j], l, ls[j + 1..]);
    RecordsAround(g, ls, j);
  }

  lemma SwapChained(f: File, id: PageId, l: Leaf, ls: seq<PageId>)
    requires id in f && f[id].LeafNode? && l.next == f[id].leaf.next && AllLeaves(f, ls) && Chained(f, ls)
    ensures AllLeaves(Swapped(f, id, l), ls) && Chained(Swapped(f, id, l), ls)
  {
  }

  /** Bounds on the records of some leaves hold after one has changed if they hold of what it holds now. */
  lemma {:induction false} SwapBounds(f: File, id: PageId, l: Leaf, ls: seq<PageId>, key: seq<Byte>)
    requires id in f && f[id].LeafNode? && AllLeaves(f, ls)
    ensures AllLeaves(Swapped(f, id, l), ls)
    ensures NoneAbove(Records(f, ls), key) && (id in ls ==> NoneAbove(l.records, key)) ==>
      NoneAbove(Records(Swapped(f, id, l), ls), key)
    ensures NoneBelow(Records(f, ls), key) && (id in ls ==> NoneBelow(l.records, key)) ==>
      NoneBelow(Records(Swapped(f, id, l), ls), key)
  {
    hide Less;
    if ls != [] {
      var init, last := ls[..|ls| - 1], ls[|ls| - 1];
      assert ls == init + [last];
      SwapBounds(f, id, l, init, key);
      BoundsConcat(Records(f, init), f[last].leaf.records, key);
    }
  }

  lemma BoundsConcat(a: seq<Record>, b: seq<Record>, key: seq<Byte>)
    ensures NoneAbove(a + b, key) <==> NoneAbove(a, key) && NoneAbove(b, key)
    ensures NoneBelow(a + b, key) <==> NoneBelow(a, key) && NoneBelow(b, key)
  {
    hide Less;
    assert forall i :: 0 <= i < |a| ==> (a + b)[i] == a[i];
    assert forall i :: 0 <= i < |b| ==> (a + b)[|a| + i] == b[i];
  }

  /** Bounds on the records of some leaves are bounds on those of one of them. */
  lemma BoundsHere(f: File, ls: seq<PageId>, id: PageId, key: seq<Byte>)
    requires AllLeaves(f, ls) && id in ls
    ensures NoneAbove(Records(f, ls), key) ==> NoneAbove(f[id].leaf.records, key)
    ensures NoneBelow(Records(f, ls), key) ==> NoneBelow(f[id].leaf.records, key)
  {
    hide Less, NoneAbove, NoneBelow;
    var j :| 0 <= j < |ls| && ls[j] == id;
    RecordsAround(f, ls, j);
    var a, x, b := Records(f, ls[..j]), f[id].leaf.records, Records(f, ls[j + 1..]);
    BoundsConcat(a + x, b, key);
    BoundsConcat(a, x, key);
  }

  // ---- Separators and a leaf that holds no new key ----

  predicate NoNewKey(l: Leaf, old_: Leaf) {
    forall i :: 0 <= i < |l.records| ==> exists k :: 0 <= k < |old_.records| && old_.records[k].key == l.records[i].key
  }

  lemma ShrunkBounds(f: File, id: PageId, l: Leaf, ls: seq<PageId>, key: seq<Byte>)
    requires id in f && f[id].LeafNode? && AllLeaves(f, ls) && NoNewKey(l, f[id].leaf)
    ensures AllLeaves(Swapped(f, id, l), ls)
    ensures NoneAbove(Records(f, ls), key) ==> NoneAbove(Records(Swapped(f, id, l), ls), key)
    ensures NoneBelow(Records(f, ls), key) ==> NoneBelow(Records(Swapped(f, id, l), ls), key)
  {
    hide Less, Swapped, Records;
    SwapBounds(f, id, l, ls, key);
    if id in ls {
      BoundsHere(f, ls, id, key);
    }
  }

  lemma ShrunkSeparates(f: File, id: PageId, l: Leaf, n: Internal, h: nat)
    requires id in f && f[id].LeafNode? && NoNewKey(l, f[id].leaf) && Separates(f, n, h)
    ensures Separates(Swapped(f, id, l), n, h)
  {
    hide ClusteredIndex.Index, Leaves, Records, NoneAbove, NoneBelow, NoNewKey, Ascending, Swapped;
    var g := Swapped(f, id, l);
    forall i | 0 <= i < |n.cells|
      ensures LeftOf(g, [Kids(n)[i]], h, n.cells[i].key) && RightOf(g, [Kids(n)[i + 1]], h, n.cells[i].key)
    {
      SeparatorAt(f, n, h, i);
      SwapShape(f, id, l, [Kids(n)[i]], h);
      SwapShape(f, id, l, [Kids(n)[i + 1]], h);
      ShrunkBounds(f, id, l, Leaves(f, [Kids(n)[i]], h), n.cells[i].key);
      ShrunkBounds(f, id, l, Leaves(f, [Kids(n)[i + 1]], h), n.cells[i].key);
    }
  }

  lemma {:induction false} ShrunkSeparated(f: File, id: PageId, l: Leaf, ids: seq<PageId>, h: nat)
    requires id in f && f[id].LeafNode? && NoNewKey(l, f[id].leaf)
    requires ClusteredIndex.Index(f, ids, h) && Separated(f, ids, h)
    ensures ClusteredIndex.Index(Swapped(f, id, l), ids, h) && Separated(Swapped(f, id, l), ids, h)
    decreases h
  {
    hide Separates, NoNewKey;
    SwapShape(f, id, l, ids, h);
    if h > 0 {
      SwapKids(f, id, l, ids);
      ShrunkSeparated(f, id, l, AllKids(f, ids), h - 1);
      ShrunkLevel(f, id, l, ids, h - 1);
    }
  }

  lemma ShrunkLevel(f: File, id: PageId, l: Leaf, ids: seq<PageId>, h: nat)
    requires id in f && f[id].LeafNode? && NoNewKey(l, f[id].leaf)
    requires AllInternal(f, ids) && LevelSeparates(f, ids, h)
    ensures AllInternal(Swapped(f, id, l), ids) && LevelSeparates(Swapped(f, id, l), ids, h)
  {
    hide Separates, NoNewKey;
    forall i | 0 <= i < |ids|
      ensures ids[i] in f && ids[i] != id && Separates(Swapped(f, id, l), f[ids[i]].internal, h)
    {
      ShrunkSeparates(f, id, l, f[ids[i]].internal, h);
    }
  }

  // ---- Membership ----

  lemma {:induction false} KidsHave(f: File, ids: seq<PageId>, i: nat, k: nat)
    requires AllInternal(f, ids) && i < |ids| && k <= |f[ids[i]].internal.cells|
    ensures Kids(f[ids[i]].internal)[k] in AllKids(f, ids)
  {
    if i > 0 {
      KidsHave(f, ids[1..], i - 1, k);
    } else {
      assert AllKids(f, ids)[k] == Kids(f[ids[0]].internal)[k];
    }
  }

  lemma LeavesHave(f: File, ids: seq<PageId>, h: nat, k: PageId)
    requires ClusteredIndex.Index(f, ids, h) && k in ids
    ensures ClusteredIndex.Index(f, [k], h) && forall x :: x in Leaves(f, [k], h) ==> x in Leaves(f, ids, h)
  {
    hide ClusteredIndex.Index, Leaves;
    var i :| 0 <= i < |ids| && ids[i] == k;
    assert ids == ids[..i] + ([k] + ids[i + 1..]);
    IndexParts(f, ids[..i], [k] + ids[i + 1..], h);
    IndexParts(f, [k], ids[i + 1..], h);
    LeavesConcat(f, ids[..i], [k] + ids[i + 1..], h);
    LeavesConcat(f, [k], ids[i + 1..], h);
  }

  lemma {:induction false} DestinationIn(f: File, id: PageId, h: nat, key: seq<Byte>)
    requires ClusteredIndex.Index(f, [id], h) && Separated(f, [id], h)
    ensures Destination(f, id, h, key) in Leaves(f, [id], h)
    decreases h
  {
    hide Separated, Separates;
    if h > 0 {
      LevelDown(f, id, h - 1);
      var slot := FirstSlot(CellKeys(f[id].internal.cells), key);
      StepDown(f, id, h - 1, slot);
      DestinationIn(f, Kids(f[id].internal)[slot], h - 1, key);
    }
  }

  lemma {:induction false} DestinationLeaf(f: File, id: PageId, h: nat, key: seq<Byte>)
    requires ClusteredIndex.Index(f, [id], h)
    ensures Destination(f, id, h, key) in f && f[Destination(f, id, h, key)].LeafNode?
    decreases h
  {
    assert [id][0] == id;
    if h > 0 {
      assert AllKids(f, [id]) == Kids(f[id].internal) + AllKids(f, [id][1..]) == Kids(f[id].internal);
      var slot := FirstSlot(CellKeys(f[id].internal.cells), key);
      ChildIndex(f, id, h - 1, slot);
      DestinationLeaf(f, Kids(f[id].internal)[slot], h - 1, key);
    }
  }

  // ---- Separators and a leaf that holds one new key ----

  lemma SeparatesElsewhere(f: File, id: PageId, l: Leaf, n: Internal, h: nat)
    requires id in f && f[id].LeafNode? && Separates(f, n, h)
    requires forall k :: k in Kids(n) && ClusteredIndex.Index(f, [k], h) ==> id !in Leaves(f, [k], h)
    ensures Separates(Swapped(f, id, l), n, h)
  {
    hide ClusteredIndex.Index, Leaves, Records, NoneAbove, NoneBelow, Ascending, Swapped;
    var g := Swapped(f, id, l);
    forall i | 0 <= i < |n.cells|
      ensures LeftOf(g, [Kids(n)[i]], h, n.cells[i].key) && RightOf(g, [Kids(n)[i + 1]], h, n.cells[i].key)
    {
      SeparatorAt(f, n, h, i);
      SwapShape(f, id, l, [Kids(n)[i]], h);
      SwapShape(f, id, l, [Kids(n)[i + 1]], h);
      SwapElsewhere(f, id, l, Leaves(f, [Kids(n)[i]], h));
      SwapElsewhere(f, id, l, Leaves(f, [Kids(n)[i + 1]], h));
    }
  }

  lemma {:induction false} SeparatedElsewhere(f: File, id: PageId, l: Leaf, ids: seq<PageId>, h: nat)
    requires id in f && f[id].LeafNode? && ClusteredIndex.Index(f, ids, h) && Separated(f, ids, h)
    requires id !in Leaves(f, ids, h)
    ensures ClusteredIndex.Index(Swapped(f, id, l), ids, h) && Separated(Swapped(f, id, l), ids, h)
    decreases h
  {
    hide Separates;
    SwapShape(f, id, l, ids, h);
    if h > 0 {
      SwapKids(f, id, l, ids);
      SeparatedElsewhere(f, id, l, AllKids(f, ids), h - 1);
      LevelElsewhere(f, id, l, ids, h - 1);
    }
  }

  lemma LevelElsewhere(f: File, id: PageId, l: Leaf, ids: seq<PageId>, h: nat)
    requires id in f && f[id].LeafNode? && AllInternal(f, ids) && LevelSeparates(f, ids, h)
    requires ClusteredIndex.Index(f, AllKids(f, ids), h) && id !in Leaves(f, AllKids(f, ids), h)
    ensures AllInternal(Swapped(f, id, l), ids) && LevelSeparates(Swapped(f, id, l), ids, h)
  {
    hide Separates, ClusteredIndex.Index, Leaves;
    forall i | 0 <= i < |ids|
      ensures ids[i] in f && ids[i] != id && Separates(Swapped(f, id, l), f[ids[i]].internal, h)
    {
      var n := f[ids[i]].internal;
      forall k | k in Kids(n) && ClusteredIndex.Index(f, [k], h) ensures id !in Leaves(f, [k], h) {
        var c :| 0 <= c < |Kids(n)| && Kids(n)[c] == k;
        KidsHave(f, ids, i, c);
        LeavesHave(f, AllKids(f, ids), h, k);
      }
      SeparatesElsewhere(f, id, l, n, h);
    }
  }

  /** All keys of `l` are keys of `old_`, or `key`. */
  predicate OneNewKey(l: Leaf, old_: Leaf, key: seq<Byte>) {
    forall i :: 0 <= i < |l.records| ==>
      l.records[i].key == key || exists k :: 0 <= k < |old_.records| && old_.records[k].key == l.records[i].key
  }

  /** The separators around the child that takes a new key still separate. */
  lemma GrownSeparates(f: File, id: PageId, l: Leaf, n: Internal, h: nat, key: seq<Byte>, slot: nat)
    requires id in f && f[id].LeafNode? && Separates(f, n, h) && OneNewKey(l, f[id].leaf, key)
    requires slot == FirstSlot(CellKeys(n.cells), key)
    requires forall i :: 0 <= i <= |n.cells| && i != slot && ClusteredIndex.Index(f, [Kids(n)[i]], h) ==>
      id !in Leaves(f, [Kids(n)[i]], h)
    ensures Separates(Swapped(f, id, l), n, h)
  {
    hide ClusteredIndex.Index, Leaves, Records, NoneAbove, NoneBelow, Ascending, Swapped, OneNewKey, Less;
    var g := Swapped(f, id, l);
    var keys := CellKeys(n.cells);
    forall i | 0 <= i < |n.cells|
      ensures LeftOf(g, [Kids(n)[i]], h, n.cells[i].key) && RightOf(g, [Kids(n)[i + 1]], h, n.cells[i].key)
    {
      SeparatorAt(f, n, h, i);
      var left, right := Leaves(f, [Kids(n)[i]], h), Leaves(f, [Kids(n)[i + 1]], h);
      SwapShape(f, id, l, [Kids(n)[i]], h);
      SwapShape(f, id, l, [Kids(n)[i + 1]], h);
      SwapBounds(f, id, l, left, n.cells[i].key);
      SwapBounds(f, id, l, right, n.cells[i].key);
      Trichotomy(keys[i], key);
      if id in left {
        assert i == slot && !Less(keys[i], key);
        BoundsHere(f, left, id, keys[i]);
        GrownBounds(f[id].leaf, l, keys[i], key);
      }
      if id in right {
        assert i + 1 == slot && Less(keys[i], key);
        BoundsHere(f, right, id, keys[i]);
        GrownBounds(f[id].leaf, l, keys[i], key);
      }
    }
  }

  lemma GrownBounds(old_: Leaf, l: Leaf, separator: seq<Byte>, key: seq<Byte>)
    requires OneNewKey(l, old_, key)
    ensures NoneAbove(old_.records, separator) && !Less(separator, key) ==> NoneAbove(l.records, separator)
    ensures NoneBelow(old_.records, separator) && !Less(key, separator) ==> NoneBelow(l.records, separator)
  {
    hide Less;
  }

  /** A new key in the leaf a descent for it ends at keeps all separators. */
  lemma {:induction false} GrownSeparated(f: File, cur: PageId, h: nat, id: PageId, l: Leaf, key: seq<Byte>)
    requires id in f && f[id].LeafNode? && OneNewKey(l, f[id].leaf, key)
    requires ClusteredIndex.Index(f, [cur], h) && Separated(f, [cur], h) && Distinct(Leaves(f, [cur], h))
    requires id == Destination(f, cur, h, key)
    ensures ClusteredIndex.Index(Swapped(f, id, l), [cur], h) && Separated(Swapped(f, id, l), [cur], h)
    decreases h
  {
    hide Separates, OneNewKey, Separated, Swapped, ClusteredIndex.Index, Leaves;
    SwapShape(f, id, l, [cur], h);
    if h == 0 {
      BottomSeparated(Swapped(f, id, l), [cur]);
    } else {
      LevelDown(f, cur, h - 1);
      var n := f[cur].internal;
      var slot := FirstSlot(CellKeys(n.cells), key);
      StepDown(f, cur, h - 1, slot);
      DestinationStep(f, cur, h - 1, key);
      DestinationIn(f, Kids(n)[slot], h - 1, key);
      OnlyHere(f, cur, h - 1, slot, id);
      GrownSeparated(f, Kids(n)[slot], h - 1, id, l, key);
      GrownAround(f, cur, h - 1, slot, id, l);
      GrownSeparates(f, id, l, n, h - 1, key, slot);
      SwapOther(f, id, l, cur);
      LevelUp(Swapped(f, id, l), cur, n, h - 1);
    }
  }

  lemma SwapOther(f: File, id: PageId, l: Leaf, other: PageId)
    requires id in f && f[id].LeafNode? && other in f && other != id
    ensures other in Swapped(f, id, l) && Swapped(f, id, l)[other] == f[other]
  {
  }

  lemma BottomSeparated(f: File, ids: seq<PageId>)
    requires ClusteredIndex.Index(f, ids, 0)
    ensures Separated(f, ids, 0)
  {
  }

  lemma DestinationStep(f: File, id: PageId, h: nat, key: seq<Byte>)
    requires ClusteredIndex.Index(f, [id], h + 1) && id in f && f[id].InternalNode?
    ensures var ks := Kids(f[id].internal); var slot := FirstSlot(CellKeys(f[id].internal.cells), key);
      ClusteredIndex.Index(f, [ks[slot]], h) && Destination(f, id, h + 1, key) == Destination(f, ks[slot], h, key)
  {
    hide Leaves;
    assert [id][0] == id && AllKids(f, [id]) == Kids(f[id].internal) + AllKids(f, [id][1..]) == Kids(f[id].internal);
    ChildIndex(f, id, h, FirstSlot(CellKeys(f[id].internal.cells), key));
  }

  /** A leaf under one child is under no other. */
  lemma OnlyHere(f: File, cur: PageId, h: nat, slot: nat, id: PageId)
    requires Opens(f, cur, h) && Distinct(Leaves(f, [cur], h + 1)) && slot <= |f[cur].internal.cells|
    requires Cut(f, cur, Kids(f[cur].internal), h, slot) && id in Leaves(f, [Kids(f[cur].internal)[slot]], h)
    ensures var ks := Kids(f[cur].internal);
      && id !in Leaves(f, ks[..slot], h) && id !in Leaves(f, ks[slot + 1..], h)
      && Distinct(Leaves(f, [ks[slot]], h))
      && forall i :: 0 <= i < |ks| && i != slot && ClusteredIndex.Index(f, [ks[i]], h) ==> id !in Leaves(f, [ks[i]], h)
  {
    hide Separates, Separated, ClusteredIndex.Index, Leaves;
    var ks := Kids(f[cur].internal);
    var a, m, b := Leaves(f, ks[..slot], h), Leaves(f, [ks[slot]], h), Leaves(f, ks[slot + 1..], h);
    DistinctParts(a, m, b, id);
    forall i | 0 <= i < |ks| && i != slot && ClusteredIndex.Index(f, [ks[i]], h) ensures id !in Leaves(f, [ks[i]], h) {
      if i < slot {
        assert ks[i] == ks[..slot][i];
        LeavesHave(f, ks[..slot], h, ks[i]);
      } else {
        assert ks[i] == ks[slot + 1..][i - slot - 1];
        LeavesHave(f, ks[slot + 1..], h, ks[i]);
      }
    }
  }

  lemma DistinctParts(a: seq<PageId>, m: seq<PageId>, b: seq<PageId>, id: PageId)
    requires Distinct(a + m + b) && id in m
    ensures id !in a && id !in b && Distinct(m)
  {
    var all := a + m + b;
    assert forall i :: 0 <= i < |a| ==> all[i] == a[i];
    assert forall i :: 0 <= i < |m| ==> all[|a| + i] == m[i];
    assert forall i :: 0 <= i < |b| ==> all[|a| + |m| + i] == b[i];
  }

  lemma GrownAround(f: File, cur: PageId, h: nat, slot: nat, id: PageId, l: Leaf)
    requires Opens(f, cur, h) && slot <= |f[cur].internal.cells| && id in f && f[id].LeafNode?
    requires Cut(f, cur, Kids(f[cur].internal), h, slot)
    requires id !in Leaves(f, Kids(f[cur].internal)[..slot], h)
    requires id !in Leaves(f, Kids(f[cur].internal)[slot + 1..], h)
    requires ClusteredIndex.Index(Swapped(f, id, l), [Kids(f[cur].internal)[slot]], h)
    requires Separated(Swapped(f, id, l), [Kids(f[cur].internal)[slot]], h)
    ensures ClusteredIndex.Index(Swapped(f, id, l), Kids(f[cur].internal), h)
    ensures Separated(Swapped(f, id, l), Kids(f[cur].internal), h)
  {
    hide Separates, Separated, ClusteredIndex.Index, Leaves, Swapped;
    var g := Swapped(f, id, l);
    var ks := Kids(f[cur].internal);
    assert ks == ks[..slot] + ([ks[slot]] + ks[slot + 1..]);
    SeparatedParts(f, ks[..slot], [ks[slot]] + ks[slot + 1..], h);
    SeparatedParts(f, [ks[slot]], ks[slot + 1..], h);
    SeparatedElsewhere(f, id, l, ks[..slot], h);
    SeparatedElsewhere(f, id, l, ks[slot + 1..], h);
    SeparatedConcat(g, [ks[slot]], ks[slot + 1..], h);
    SeparatedConcat(g, ks[..slot], [ks[slot]] + ks[slot + 1..], h);
  }

  lemma {:induction false} SeparatedConcat(f: File, a: seq<PageId>, b: seq<PageId>, h: nat)
    requires ClusteredIndex.Index(f, a, h) && Separated(f, a, h) && ClusteredIndex.Index(f, b, h) && Separated(f, b, h)
    ensures ClusteredIndex.Index(f, a + b, h) && Separated(f, a + b, h)
    decreases h
  {
    hide LevelSeparates;
    LeavesConcat(f, a, b, h);
    if h > 0 {
      KidsConcat(f, a, b);
      SeparatedConcat(f, AllKids(f, a), AllKids(f, b), h - 1);
      LevelConcat(f, a, b, h - 1);
    }
  }

  lemma LevelConcat(f: File, a: seq<PageId>, b: seq<PageId>, h: nat)
    requires AllInternal(f, a) && AllInternal(f, b) && AllInternal(f, a + b) && LevelSeparates(f, a, h)
    requires LevelSeparates(f, b, h)
    ensures LevelSeparates(f, a + b, h)
  {
    hide Separates;
  }

  /** An internal page over a level of children. */
  lemma LevelUp(f: File, id: PageId, n: Internal, h: nat)
    requires id in f && f[id] == InternalNode(n) && Separates(f, n, h)
    requires ClusteredIndex.Index(f, Kids(n), h) && Separated(f, Kids(n), h)
    ensures ClusteredIndex.Index(f, [id], h + 1) && Separated(f, [id], h + 1)
    ensures Leaves(f, [id], h + 1) == Leaves(f, Kids(n), h)
  {
    hide Separates;
    assert AllKids(f, [id]) == Kids(f[id].internal) + AllKids(f, [id][1..]) == Kids(n);
  }

  // ---- The whole tree ----

  /** A record inserted into the leaf its key leads to is inserted into the chain where it belongs. */
  lemma TreeGrown(f: File, root: PageId, h: nat, ls: seq<PageId>, j: nat, l: Leaf, slot: nat, r: Record)
    requires WellFormed(f, root, h) && ls == Leaves(f, [root], h) && Distinct(ls) && j < |ls|
    requires ls[j] == Destination(f, root, h, r.key)
    requires AllLeaves(f, ls[..j]) && AllBelow(Records(f, ls[..j]), r.key)
    requires AllLeaves(f, ls[j + 1..]) && NoneBelow(Records(f, ls[j + 1..]), r.key)
    requires slot == FirstSlot(Keys(f[ls[j]].leaf.records), r.key)
    requires l.records == Inserted(f[ls[j]].leaf.records, slot, r) && l.next == f[ls[j]].leaf.next
    requires Ordered(Records(f, ls)) && !HasLive(Records(f, ls), r.key) && !r.Deleted()
    ensures var g := Swapped(f, ls[j], l);
      && WellFormed(g, root, h) && Leaves(g, [root], h) == ls
      && Ordered(Records(g, ls))
      && Contents(Records(g, ls)) == Contents(Records(f, ls))[r.key := r.row]
  {
    hide ClusteredIndex.Index, Leaves, Records, Separated, Ordered, HasLive, Contents, Less;
    hide Ascending, Chained, Distinct, Destination;
    var id := ls[j];
    RecordsAround(f, ls, j);
    StretchGrown(Records(f, ls[..j]), f[id].leaf.records, Records(f, ls[j + 1..]), slot, r, l.records);
    SwapRecords(f, l, ls, j);
    InsertedKeys(f[id].leaf, l, slot, r);
    GrownSeparated(f, root, h, id, l, r.key);
    SwapShape(f, id, l, [root], h);
    SwapChained(f, id, l, ls);
  }

  lemma StretchGrown(a: seq<Record>, x: seq<Record>, b: seq<Record>, slot: nat, r: Record, y: seq<Record>)
    requires Ordered(a + x + b) && !HasLive(a + x + b, r.key) && !r.Deleted()
    requires AllBelow(a, r.key) && NoneBelow(b, r.key)
    requires slot == FirstSlot(Keys(x), r.key) && y == Inserted(x, slot, r)
    ensures Ordered(a + y + b) && Ascending(Keys(a + y + b))
    ensures Contents(a + y + b) == Contents(a + x + b)[r.key := r.row]
  {
    hide Ordered, HasLive, Contents, Less, Ascending;
    OrderedAscending(a + x + b);
    WhereInChain(a, x, b, r.key);
    InsertedTable(a + x + b, |a| + slot, r);
    InsertedInStretch(a, x, b, slot, r);
    OrderedAscending(a + y + b);
  }

  lemma InsertedInStretch(a: seq<Record>, x: seq<Record>, b: seq<Record>, slot: nat, r: Record)
    requires slot <= |x|
    ensures Inserted(a + x + b, |a| + slot, r) == a + Inserted(x, slot, r) + b
  {
  }

  lemma OrderedAscending(rs: seq<Record>)
    requires Ordered(rs)
    ensures Ascending(Keys(rs)) && FirstLive(rs)
  {
  }

  lemma InsertedKeys(old_: Leaf, l: Leaf, slot: nat, r: Record)
    requires slot <= |old_.records| && l.records == Inserted(old_.records, slot, r)
    ensures OneNewKey(l, old_, r.key)
  {
    forall i | 0 <= i < |l.records| && i != slot
      ensures exists k :: 0 <= k < |old_.records| && old_.records[k].key == l.records[i].key
    {
      var k := if i < slot then i else i - 1;
      assert old_.records[k].key == l.records[i].key;
    }
  }

  lemma WhereInChain(a: seq<Record>, x: seq<Record>, b: seq<Record>, key: seq<Byte>)
    requires Ascending(Keys(a + x + b)) && AllBelow(a, key) && NoneBelow(b, key)
    ensures FirstAtLeast(Keys(a + x + b), key, |a| + FirstSlot(Keys(x), key))
  {
    hide Less, Ascending;
    FirstInStretch(a, x, b, key);
    var slot := FirstSlot(Keys(x), key);
    if slot == |x| {
      var keys := Keys(a + x + b);
      forall i | 0 <= i < |a| + |x| ensures Less(keys[i], key) {
        assert keys[i] == (a + x)[i].key;
      }
      forall i | |a| + |x| <= i < |keys| ensures !Less(keys[i], key) {
        assert keys[i] == b[i - |a| - |x|].key;
      }
    }
  }

  /** A leaf that has lost keys, its chain links kept. */
  lemma TreeShrunk(f: File, root: PageId, h: nat, ls: seq<PageId>, j: nat, l: Leaf)
    requires WellFormed(f, root, h) && ls == Leaves(f, [root], h) && Distinct(ls) && j < |ls|
    requires NoNewKey(l, f[ls[j]].leaf) && l.next == f[ls[j]].leaf.next
    requires AllLeaves(f, ls[..j]) && AllLeaves(f, ls[j + 1..])
    requires Ordered(Records(f, ls[..j]) + l.records + Records(f, ls[j + 1..]))
    ensures var g := Swapped(f, ls[j], l);
      && WellFormed(g, root, h) && Leaves(g, [root], h) == ls
      && Records(g, ls) == Records(f, ls[..j]) + l.records + Records(f, ls[j + 1..])
  {
    hide ClusteredIndex.Index, Leaves, Records, Separated, Less, Ascending, Chained, Distinct, NoNewKey;
    SwapRecords(f, l, ls, j);
    OrderedAscending(Records(f, ls[..j]) + l.records + Records(f, ls[j + 1..]));
    ShrunkSeparated(f, ls[j], l, [root], h);
    SwapShape(f, ls[j], l, [root], h);
    SwapChained(f, ls[j], l, ls);
  }

  // ---- The index among the pages of the file ----

  /** None of the pages of `free` is at or below `ids`. */
  predicate FreeApart(f: File, free: seq<PageId>, ids: seq<PageId>, h: nat)
    requires ClusteredIndex.Index(f, ids, h)
    decreases h
  {
    (forall id :: id in free ==> id !in ids) && (h > 0 ==> FreeApart(f, free, AllKids(f, ids), h - 1))
  }

  /** What the leaf at `i` links back to. */
  function Predecessor(ls: seq<PageId>, i: nat): PageId
    requires i < |ls|
  {
    if i > 0 then ls[i - 1] else NO_PAGE
  }

  predicate BackChained(f: File, ls: seq<PageId>)
    requires AllLeaves(f, ls)
  {
    forall i :: 0 <= i < |ls| ==> f[ls[i]].leaf.prev == Predecessor(ls, i)
  }

  /** A well-formed index, each leaf in one place, that shares no page with the free list. */
  ghost predicate TreeSound(f: File, root: PageId, h: nat, free: seq<PageId>) {
    && WellFormed(f, root, h)
    && Distinct(Leaves(f, [root], h))
    && BackChained(f, Leaves(f, [root], h))
    && FreeApart(f, free, [root], h)
    && Ordered(Records(f, Leaves(f, [root], h)))
  }

  lemma TreeIndex(f: File, root: PageId, h: nat, free: seq<PageId>)
    requires TreeSound(f, root, h, free)
    ensures ClusteredIndex.Index(f, [root], h)
  {
  }

  lemma {:induction false} SwapFreeApart(f: File, id: PageId, l: Leaf, free: seq<PageId>, ids: seq<PageId>, h: nat)
    requires id in f && f[id].LeafNode? && ClusteredIndex.Index(f, ids, h) && FreeApart(f, free, ids, h)
    ensures ClusteredIndex.Index(Swapped(f, id, l), ids, h) && FreeApart(Swapped(f, id, l), free, ids, h)
    decreases h
  {
    SwapShape(f, id, l, ids, h);
    if h > 0 {
      SwapKids(f, id, l, ids);
      SwapFreeApart(f, id, l, free, AllKids(f, ids), h - 1);
    }
  }

  lemma SwapBackChained(f: File, id: PageId, l: Leaf, ls: seq<PageId>)
    requires id in f && f[id].LeafNode? && l.prev == f[id].leaf.prev && AllLeaves(f, ls) && BackChained(f, ls)
    ensures AllLeaves(Swapped(f, id, l), ls) && BackChained(Swapped(f, id, l), ls)
  {
  }

  /** A live record in the leaf its key leads to. */
  lemma SoundGrown(f: File, root: PageId, h: nat, free: seq<PageId>, ls: seq<PageId>, j: nat, l: Leaf, slot: nat,
          r: Record)
    requires TreeSound(f, root, h, free) && ls == Leaves(f, [root], h) && j < |ls|
    requires ls[j] == Destination(f, root, h, r.key)
    requires AllLeaves(f, ls[..j]) && AllBelow(Records(f, ls[..j]), r.key)
    requires AllLeaves(f, ls[j + 1..]) && NoneBelow(Records(f, ls[j + 1..]), r.key)
    requires slot == FirstSlot(Keys(f[ls[j]].leaf.records), r.key)
    requires l.records == Inserted(f[ls[j]].leaf.records, slot, r) && l.next == f[ls[j]].leaf.next
    requires l.prev == f[ls[j]].leaf.prev
    requires r.key !in Contents(Records(f, ls)) && !r.Deleted()
    ensures var g := Swapped(f, ls[j], l);
      && TreeSound(g, root, h, free) && Leaves(g, [root], h) == ls
      && Contents(Records(g, ls)) == Contents(Records(f, ls))[r.key := r.row]
  {
    hide ClusteredIndex.Index, Leaves, Records, Ordered, HasLive, Contents, Less, BackChained;
    hide Distinct, Destination, FreeApart, WellFormed;
    WellFormedIndex(f, root, h);
    ContentsHas(Records(f, ls), r.key);
    TreeGrown(f, root, h, ls, j, l, slot, r);
    SwapFreeApart(f, ls[j], l, free, [root], h);
    SwapBackChained(f, ls[j], l, ls);
  }

  lemma WellFormedIndex(f: File, root: PageId, h: nat)
    requires WellFormed(f, root, h)
    ensures ClusteredIndex.Index(f, [root], h) && NO_PAGE !in f && Chained(f, Leaves(f, [root], h))
  {
  }

  /** A leaf that has lost records, its links kept. */
  lemma SoundShrunk(f: File, root: PageId, h: nat, free: seq<PageId>, ls: seq<PageId>, j: nat, l: Leaf)
    requires TreeSound(f, root, h, free) && ls == Leaves(f, [root], h) && j < |ls|
    requires NoNewKey(l, f[ls[j]].leaf) && l.next == f[ls[j]].leaf.next && l.prev == f[ls[j]].leaf.prev
    requires AllLeaves(f, ls[..j]) && AllLeaves(f, ls[j + 1..])
    requires Ordered(Records(f, ls[..j]) + l.records + Records(f, ls[j + 1..]))
    ensures var g := Swapped(f, ls[j], l);
      && TreeSound(g, root, h, free) && Leaves(g, [root], h) == ls
      && Records(g, ls) == Records(f, ls[..j]) + l.records + Records(f, ls[j + 1..])
  {
    hide ClusteredIndex.Index, Leaves, Records, Ordered, BackChained, Distinct, FreeApart, WellFormed;
    WellFormedIndex(f, root, h);
    TreeShrunk(f, root, h, ls, j, l);
    SwapFreeApart(f, ls[j], l, free, [root], h);
    SwapBackChained(f, ls[j], l, ls);
  }

  // ---- A record removed ----

  lemma {:induction false} LiveNoNewKey(rs: seq<Record>)
    ensures forall i :: 0 <= i < |Live(rs)| ==> exists k :: 0 <= k < |rs| && rs[k].key == Live(rs)[i].key
  {
    if rs == [] {
      assert Live(rs) == [];
    } else {
      var init, last := rs[..|rs| - 1], rs[|rs| - 1];
      LiveNoNewKey(init);
      forall i | 0 <= i < |Live(rs)| ensures exists k :: 0 <= k < |rs| && rs[k].key == Live(rs)[i].key {
        if i < |Live(init)| {
          var k :| 0 <= k < |init| && init[k].key == Live(init)[i].key;
          assert rs[k].key == Live(rs)[i].key;
        } else {
          assert rs[|rs| - 1].key == Live(rs)[i].key;
        }
      }
    }
  }

  /** Marking the live record with a key removes it from the table. */
  lemma SoundMarked(f: File, root: PageId, h: nat, free: seq<PageId>, ls: seq<PageId>, j: nat, slot: nat)
    requires TreeSound(f, root, h, free) && ls == Leaves(f, [root], h) && j < |ls|
    requires slot < |f[ls[j]].leaf.records| && !f[ls[j]].leaf.records[slot].Deleted()
    ensures var old_ := f[ls[j]].leaf;
      var l := old_.(records := Marked(old_.records, slot)); var g := Swapped(f, ls[j], l);
      && TreeSound(g, root, h, free) && Leaves(g, [root], h) == ls
      && Contents(Records(g, ls)) == Contents(Records(f, ls)) - {old_.records[slot].key}
      && !HasLive(Records(g, ls), old_.records[slot].key)
  {
    hide ClusteredIndex.Index, Leaves, Records, Ordered, Contents, HasLive, BackChained, Distinct;
    hide FreeApart, WellFormed;
    var old_ := f[ls[j]].leaf;
    var x := old_.records[slot];
    var dead := x.(flags := WithFlag(x.flags));
    var l := old_.(records := Marked(old_.records, slot));
    RecordsAround(f, ls, j);
    var a, b := Records(f, ls[..j]), Records(f, ls[j + 1..]);
    var before, after := old_.records[..slot], old_.records[slot + 1..];
    MarkedStretch(a, old_.records, slot, b, x);
    MarkedStretch(a, l.records, slot, b, dead);
    MarkedTable(a + before, x, after + b, dead);
    forall i | 0 <= i < |l.records|
      ensures exists k :: 0 <= k < |old_.records| && old_.records[k].key == l.records[i].key
    {
      assert old_.records[i].key == l.records[i].key;
    }
    SoundShrunk(f, root, h, free, ls, j, l);
  }

  lemma MarkedStretch(a: seq<Record>, x: seq<Record>, slot: nat, b: seq<Record>, r: Record)
    requires slot < |x| && x[slot] == r
    ensures a + x + b == (a + x[..slot]) + [r] + (x[slot + 1..] + b)
  {
    assert x == x[..slot] + [r] + x[slot + 1..];
  }

  /** Compacting a leaf keeps the table. */
  lemma SoundCompacted(f: File, root: PageId, h: nat, free: seq<PageId>, ls: seq<PageId>, j: nat)
    requires TreeSound(f, root, h, free) && ls == Leaves(f, [root], h) && j < |ls| && LeafFits(f[ls[j]].leaf)
    ensures var g := Swapped(f, ls[j], LeafCompact(f[ls[j]].leaf));
      && TreeSound(g, root, h, free) && Leaves(g, [root], h) == ls
      && Contents(Records(g, ls)) == Contents(Records(f, ls))
  {
    hide ClusteredIndex.Index, Leaves, Records, Ordered, Contents, BackChained, Distinct, FreeApart;
    hide WellFormed, LeafFits;
    var old_ := f[ls[j]].leaf;
    RecordsAround(f, ls, j);
    LiveTable(Records(f, ls[..j]), old_.records, Records(f, ls[j + 1..]));
    LiveNoNewKey(old_.records);
    SoundShrunk(f, root, h, free, ls, j, LeafCompact(old_));
  }

  /** What is nowhere on the chain is in none of its leaves. */
  lemma NotHere(f: File, ls: seq<PageId>, j: nat, key: seq<Byte>)
    requires AllLeaves(f, ls) && j < |ls| && !HasLive(Records(f, ls), key)
    ensures !HasLive(f[ls[j]].leaf.records, key)
  {
    hide Records, HasLive;
    RecordsAround(f, ls, j);
    HasLiveConcat(Records(f, ls[..j]) + f[ls[j]].leaf.records, Records(f, ls[j + 1..]), key);
    HasLiveConcat(Records(f, ls[..j]), f[ls[j]].leaf.records, key);
  }

  // ---- Dead space ----

  /** No leaf holds enough deleted bytes to be compacted. */
  predicate Lean(f: File) {
    forall id :: id in f && f[id].LeafNode? ==> DeadBytes(f[id].leaf.records) < PURGE_DEAD_BYTES
  }

  lemma {:induction false} LiveNoDead(rs: seq<Record>)
    ensures DeadBytes(Live(rs)) == 0
  {
    if rs == [] {
      assert Live(rs) == [];
    } else {
      LiveNoDead(rs[..|rs| - 1]);
      var live := Live(rs[..|rs| - 1]);
      assert Live(rs) == live || Live(rs)[..|Live(rs)| - 1] == live;
    }
  }

  lemma {:induction false} DeadConcat(a: seq<Record>, b: seq<Record>)
    ensures DeadBytes(a + b) == DeadBytes(a) + DeadBytes(b)
  {
    if b == [] {
      assert a + b == a;
    } else {
      assert (a + b)[..|a + b| - 1] == a + b[..|b| - 1];
      DeadConcat(a, b[..|b| - 1]);
    }
  }

  /** A live record more does not change how much is dead. */
  lemma DeadInserted(rs: seq<Record>, slot: nat, r: Record)
    requires slot <= |rs| && !r.Deleted()
    ensures DeadBytes(Inserted(rs, slot, r)) == DeadBytes(rs)
  {
    hide DeadBytes;
    DeadConcat(rs[..slot] + [r], rs[slot..]);
    DeadConcat(rs[..slot], [r]);
    DeadConcat(rs[..slot], rs[slot..]);
    DeadOne(r);
    assert rs == rs[..slot] + rs[slot..];
  }

  lemma DeadOne(r: Record)
    ensures DeadBytes([r]) == if r.Deleted() then r.Size() else 0
  {
    assert [r][..0] == [];
  }

  // ---- Histories ----

  datatype Op = Put(key: seq<Byte>, row: seq<Byte>) | Delete(key: seq<Byte>)

  /** An insertion is refused when the key is there; a removal removes whatever is there. */
  function Effect(m: map<seq<Byte>, seq<Byte>>, op: Op): map<seq<Byte>, seq<Byte>> {
    match op
    case Put(key, row) => if key in m then m else m[key := row]
    case Delete(key) => m - {key}
  }

  function After(m: map<seq<Byte>, seq<Byte>>, ops: seq<Op>): map<seq<Byte>, seq<Byte>> {
    if ops == [] then m else Effect(After(m, ops[..|ops| - 1]), ops[|ops| - 1])
  }

  lemma AfterNone(m: map<seq<Byte>, seq<Byte>>, ops: seq<Op>)
    ensures After(m, ops[..0]) == m
  {
  }

  lemma AfterOne(m: map<seq<Byte>, seq<Byte>>, ops: seq<Op>, i: nat)
    requires i < |ops|
    ensures After(m, ops[..i + 1]) == Effect(After(m, ops[..i]), ops[i])
  {
    assert ops[..i + 1][..i] == ops[..i];
  }
}
