/** Sorted entries as a finite map, and edits of single pages of the disk B-tree. */
module PageEdits {
  import opened PageTrees
  import opened PagePaths
  import opened PageRows

  ghost predicate Sorted(s: seq<Entry>) {
    forall i, j :: 0 <= i < j < |s| ==> s[i].key < s[j].key
  }

  ghost predicate Below(s: seq<Entry>, k: int) {
    forall e :: e in s ==> e.key < k
  }

  ghost predicate Above(k: int, s: seq<Entry>) {
    forall e :: e in s ==> k < e.key
  }

  ghost function ToMap(s: seq<Entry>): map<int, Payload> {
    if s == [] then map[] else ToMap(s[..|s| - 1])[s[|s| - 1].key := s[|s| - 1].payload]
  }

  lemma {:induction false} MapConcat(a: seq<Entry>, b: seq<Entry>)
    ensures ToMap(a + b) == ToMap(a) + ToMap(b)
    decreases |b|
  {
    if b == [] {
      assert a + b == a;
    } else {
      var n := |b| - 1;
      assert (a + b)[..|a + b| - 1] == a + b[..n];
      MapConcat(a, b[..n]);
    }
  }

  lemma {:induction false} MapKey(s: seq<Entry>, k: int)
    ensures k in ToMap(s) <==> exists e :: e in s && e.key == k
  {
    if s != [] {
      var n := |s| - 1;
      MapKey(s[..n], k);
      assert s == s[..n] + [s[n]];
      assert s[n] in s;
    }
  }

  lemma SortedConcat(a: seq<Entry>, b: seq<Entry>)
    ensures Sorted(a + b) <==> Sorted(a) && Sorted(b) && forall x, y :: x in a && y in b ==> x.key < y.key
  {
    var s := a + b;
    if Sorted(s) {
      forall i, j | 0 <= i < j < |a| ensures a[i].key < a[j].key { assert s[i].key < s[j].key; }
      forall i, j | 0 <= i < j < |b| ensures b[i].key < b[j].key { assert s[|a| + i].key < s[|a| + j].key; }
      forall x, y | x in a && y in b ensures x.key < y.key {
        var i :| 0 <= i < |a| && a[i] == x;
        var j :| 0 <= j < |b| && b[j] == y;
        assert s[i].key < s[|a| + j].key;
      }
    }
    if Sorted(a) && Sorted(b) && forall x, y :: x in a && y in b ==> x.key < y.key {
      forall i, j | 0 <= i < j < |s| ensures s[i].key < s[j].key {
        if i < |a| <= j { assert a[i] in a && b[j - |a|] in b; }
      }
    }
  }

  /** Around an entry of a sorted sequence. */
  lemma SortedAround(x: seq<Entry>, e: Entry, y: seq<Entry>)
    ensures Sorted(x + [e] + y) <==> Sorted(x + y) && Below(x, e.key) && Above(e.key, y)
  {
    SortedConcat(x + [e], y);
    SortedConcat(x, [e]);
    SortedConcat(x, y);
    assert e in [e];
    assert forall z :: z in x + [e] <==> z in x || z == e;
  }

  lemma MapAround(x: seq<Entry>, e: Entry, y: seq<Entry>)
    requires Below(x, e.key) && Above(e.key, y)
    ensures e.key !in ToMap(x + y)
    ensures ToMap(x + [e] + y) == ToMap(x + y)[e.key := e.payload]
    ensures ToMap(x + y) == ToMap(x + [e] + y) - {e.key}
  {
    MapConcat(x + [e], y);
    assert (x + [e])[..|x|] == x;
    MapConcat(x, y);
    MapKey(x, e.key);
    MapKey(y, e.key);
    assert e.key !in ToMap(x) && e.key !in ToMap(y);
  }

  lemma MapMissing(x: seq<Entry>, k: int, y: seq<Entry>)
    requires Below(x, k) && Above(k, y)
    ensures k !in ToMap(x + y)
  {
    MapAround(x, Entry(k, []), y);
  }

  lemma ReplacedMap(x: seq<Entry>, e0: Entry, e: Entry, y: seq<Entry>)
    requires Sorted(x + [e0] + y) && e.key == e0.key
    ensures Sorted(x + [e] + y)
    ensures ToMap(x + [e] + y) == ToMap(x + [e0] + y)[e.key := e.payload]
  {
    SortedAround(x, e0, y);
    SortedAround(x, e, y);
    MapAround(x, e0, y);
    MapAround(x, e, y);
  }

  lemma InsertedMap(x: seq<Entry>, e: Entry, y: seq<Entry>)
    requires Sorted(x + y) && Below(x, e.key) && Above(e.key, y)
    ensures Sorted(x + [e] + y)
    ensures ToMap(x + [e] + y) == ToMap(x + y)[e.key := e.payload]
  {
    SortedAround(x, e, y);
    MapAround(x, e, y);
  }

  lemma RemovedMap(x: seq<Entry>, e: Entry, y: seq<Entry>)
    requires Sorted(x + [e] + y)
    ensures Sorted(x + y)
    ensures e.key in ToMap(x + [e] + y) && ToMap(x + [e] + y)[e.key] == e.payload
    ensures ToMap(x + y) == ToMap(x + [e] + y) - {e.key}
  {
    SortedAround(x, e, y);
    MapAround(x, e, y);
  }

  // ---- A node's own entries ----

  lemma {:induction false} CellIn(st: Store, cells: seq<Cell>, i: nat, h: nat)
    requires i < |cells|
    ensures cells[i].entry in Flat(st, cells, h)
  {
    assert cells == cells[..i] + ([cells[i]] + cells[i + 1..]);
    FlatConcat(st, cells[..i], [cells[i]] + cells[i + 1..], h);
    FlatConcat(st, [cells[i]], cells[i + 1..], h);
    FlatOne(st, cells[i], h);
  }

  ghost predicate SortedCells(cells: seq<Cell>) {
    forall i, j :: 0 <= i < j < |cells| ==> cells[i].entry.key < cells[j].entry.key
  }

  lemma CellsSorted(st: Store, pg: Page, h: nat)
    requires Sorted(Order(st, pg, h))
    ensures SortedCells(pg.cells)
  {
    hide Flat;
    SortedConcat(Flat(st, pg.cells, h), SubOrder(st, pg.right, h));
    forall i, j | 0 <= i < j < |pg.cells| ensures pg.cells[i].entry.key < pg.cells[j].entry.key {
      var a, b := pg.cells[..i + 1], pg.cells[i + 1..];
      assert pg.cells == a + b;
      FlatConcat(st, a, b, h);
      SortedConcat(Flat(st, a, h), Flat(st, b, h));
      CellIn(st, a, i, h);
      CellIn(st, b, j - i - 1, h);
    }
  }

  lemma FlatNil(st: Store, h: nat)
    ensures Flat(st, [], h) == []
  {
  }

  lemma EmptyOrder(st: Store, pg: Page, h: nat)
    requires pg.cells == []
    ensures Order(st, pg, h) == SubOrder(st, pg.right, h)
  {
  }

  /** Going down to child `i`: what stays on either side, when the key lies between cells `i - 1`
      and `i`. */
  lemma DescendBounds(st: Store, pg: Page, i: nat, h: nat, k: int)
    requires i <= |pg.cells| && Sorted(Order(st, pg, h))
    requires forall j :: 0 <= j < i ==> pg.cells[j].entry.key < k
    requires forall j :: i <= j < |pg.cells| ==> k < pg.cells[j].entry.key
    ensures Below(Flat(st, pg.cells[..i], h), k)
    ensures Above(k, After(st, pg, i, h))
    ensures Sorted(SubOrder(st, pg.Child(i), h))
  {
    hide Flat, SubOrder;
    var f, s, a := Flat(st, pg.cells[..i], h), SubOrder(st, pg.Child(i), h), After(st, pg, i, h);
    OrderAround(st, pg, i, h);
    SortedConcat(f + s, a);
    SortedConcat(f, s);
    if i > 0 {
      assert pg.cells[..i] == pg.cells[..i - 1] + [pg.cells[i - 1]];
      FlatConcat(st, pg.cells[..i - 1], [pg.cells[i - 1]], h);
      FlatOne(st, pg.cells[i - 1], h);
      var l := Flat(st, pg.cells[..i - 1], h) + SubOrder(st, pg.cells[i - 1].left, h);
      assert f == l + [pg.cells[i - 1].entry];
      SortedConcat(l, [pg.cells[i - 1].entry]);
      assert pg.cells[i - 1].entry in [pg.cells[i - 1].entry];
    } else {
      assert pg.cells[..0] == [];
      FlatNil(st, h);
    }
    if i < |pg.cells| {
      var r := Order(st, Page(pg.cells[i + 1..], pg.right), h);
      assert a == [pg.cells[i].entry] + r;
      SortedConcat([pg.cells[i].entry], r);
      assert pg.cells[i].entry in [pg.cells[i].entry];
    }
  }

  // ---- Edits ----

  /** Replacing the content of the page at the end of a path, children untouched (or none). */
  lemma EditPage(st: Store, path: seq<PageNumber>, h: nat, pg: Page)
    requires IsPath(st, path) && |path| <= h + 1 && Forest(st, [path[0]], h)
    requires if |path| == h + 1 then NodeShape(pg, 0) else Children(pg) == Children(At(st, Last(path)))
    ensures var st' := st[Last(path) := pg];
      && IsPath(st', path) && Forest(st', [path[0]], h)
      && Reach(st', [path[0]], h) == Reach(st, [path[0]], h)
      && Last(path) in Reach(st, [path[0]], h) && Reach(st, [path[0]], h) <= st.Keys
      && Before(st', path, h) == Before(st, path, h) && Beyond(st', path, h) == Beyond(st, path, h)
      && Order(st', At(st', path[0]), h) == Before(st, path, h) + Order(st, pg, h + 1 - |path|) + Beyond(st, path, h)
  {
    hide Forest, Reach, Order, NodeShape, Before, Beyond;
    var q, hq := Last(path), h + 1 - |path|;
    var st' := st[q := pg];
    PathReach(st, path, h);
    ForestIn(st, [path[0]], h);
    ReachOne(st, q, hq);
    ForestOne(st, q, hq);
    ReachOne(st', q, hq);
    ForestOne(st', q, hq);
    if hq > 0 {
      SameShape(At(st, q), pg, hq);
      Frame(st, st', Children(pg), hq - 1);
    }
    FrameOrder(st, st', pg, hq);
    assert q in path;
    Graft(st, st', path, h);
    PathOrder(st', path, h);
  }

  lemma SameShape(pg: Page, pg': Page, h: nat)
    requires h > 0 && NodeShape(pg, h) && Children(pg') == Children(pg)
    ensures NodeShape(pg', h)
  {
    forall i | 0 <= i <= |pg'.cells| ensures pg'.Child(i) != 0 {
      assert |Children(pg')| == |pg'.cells| + 1;
      assert pg'.Child(i) == Children(pg')[i] == Children(pg)[i] == pg.Child(i);
    }
  }

  lemma {:induction false} PathConcat(st: Store, a: seq<PageNumber>, b: seq<PageNumber>)
    requires IsPath(st, a) && IsPath(st, b) && b[0] in Children(At(st, Last(a)))
    ensures IsPath(st, a + b)
    decreases |a|
  {
    if |a| > 1 {
      PathConcat(st, a[1..], b);
      assert (a + b)[1..] == a[1..] + b;
    } else {
      assert (a + b)[1..] == b;
    }
  }

  lemma {:induction false} PathSame(st: Store, st': Store, path: seq<PageNumber>)
    requires IsPath(st, path)
    requires forall i :: 0 <= i < |path| - 1 ==> Children(At(st', path[i])) == Children(At(st, path[i]))
    ensures IsPath(st', path)
    decreases |path|
  {
    if |path| > 1 {
      assert forall i :: 0 <= i < |path| - 2 ==> path[1..][i] == path[i + 1];
      PathSame(st, st', path[1..]);
    }
  }

  /** A cell in its place among the entries of the whole tree: what is before it, and after. */
  ghost function Preceding(st: Store, path: seq<PageNumber>, h: nat, i: nat): seq<Entry>
    requires IsPath(st, path) && |path| <= h + 1 && i <= |At(st, Last(path)).cells|
  {
    var pg, hq := At(st, Last(path)), h + 1 - |path|;
    Before(st, path, h) + (Flat(st, pg.cells[..i], hq) + SubOrder(st, pg.Child(i), hq))
  }

  ghost function Following(st: Store, path: seq<PageNumber>, h: nat, i: nat): seq<Entry>
    requires IsPath(st, path) && |path| <= h + 1 && i < |At(st, Last(path)).cells|
  {
    var pg, hq := At(st, Last(path)), h + 1 - |path|;
    Order(st, Page(pg.cells[i + 1..], pg.right), hq) + Beyond(st, path, h)
  }

  lemma CellPlace(st: Store, path: seq<PageNumber>, h: nat, i: nat)
    requires IsPath(st, path) && |path| <= h + 1 && i < |At(st, Last(path)).cells|
    ensures Order(st, At(st, path[0]), h)
         == Preceding(st, path, h, i) + [At(st, Last(path)).cells[i].entry] + Following(st, path, h, i)
  {
    hide Order, Flat, Before, Beyond, SubOrder;
    var pg, hq := At(st, Last(path)), h + 1 - |path|;
    PathOrder(st, path, h);
    OrderAround(st, pg, i, hq);
    var a, f, s, e, r, z := Before(st, path, h), Flat(st, pg.cells[..i], hq), SubOrder(st, pg.Child(i), hq),
      [pg.cells[i].entry], Order(st, Page(pg.cells[i + 1..], pg.right), hq), Beyond(st, path, h);
    assert a + (f + s + (e + r)) + z == (a + (f + s)) + e + (r + z);
  }

  /** Storing another entry in a cell, whose child pointer stays. */
  ghost function WithEntry(pg: Page, i: nat, e: Entry): Page
    requires i < |pg.cells|
  {
    Page(pg.cells[i := Cell(e, pg.cells[i].left)], pg.right)
  }

  lemma EditEntry(st: Store, path: seq<PageNumber>, h: nat, i: nat, e: Entry)
    requires IsPath(st, path) && |path| <= h + 1 && Forest(st, [path[0]], h)
    requires i < |At(st, Last(path)).cells|
    ensures var st' := st[Last(path) := WithEntry(At(st, Last(path)), i, e)];
      && IsPath(st', path) && Forest(st', [path[0]], h)
      && Reach(st', [path[0]], h) == Reach(st, [path[0]], h)
      && Last(path) in Reach(st, [path[0]], h) && Reach(st, [path[0]], h) <= st.Keys
      && Order(st', At(st', path[0]), h) == Preceding(st, path, h, i) + [e] + Following(st, path, h, i)
  {
    hide Order, Flat, Before, Beyond, SubOrder, Forest, Reach;
    var pg, hq := At(st, Last(path)), h + 1 - |path|;
    var pg' := WithEntry(pg, i, e);
    if hq == 0 {
      PathReach(st, path, h);
      ForestOne(st, Last(path), 0);
    }
    assert forall j :: 0 <= j <= |pg.cells| ==> pg'.Child(j) == pg.Child(j);
    assert Children(pg') == Children(pg);
    EditPage(st, path, h, pg');
    OrderAround(st, pg', i, hq);
    assert pg'.cells[..i] == pg.cells[..i] && pg'.cells[i + 1..] == pg.cells[i + 1..];
    var a, f, s, r, z := Before(st, path, h), Flat(st, pg.cells[..i], hq), SubOrder(st, pg.Child(i), hq),
      Order(st, Page(pg.cells[i + 1..], pg.right), hq), Beyond(st, path, h);
    assert a + (f + s + ([e] + r)) + z == (a + (f + s)) + [e] + (r + z);
  }

  /** A leaf's entries among those of the whole tree. */
  lemma LeafPlace(st: Store, path: seq<PageNumber>, h: nat, pg: Page)
    requires IsPath(st, path) && |path| == h + 1 && Forest(st, [path[0]], h) && NodeShape(pg, 0)
    ensures Order(st, At(st, path[0]), h)
      == Before(st, path, h) + Entries(At(st, Last(path)).cells) + Beyond(st, path, h)
    ensures var st' := st[Last(path) := pg];
      && IsPath(st', path) && Forest(st', [path[0]], h)
      && Reach(st', [path[0]], h) == Reach(st, [path[0]], h)
      && Last(path) in Reach(st, [path[0]], h) && Reach(st, [path[0]], h) <= st.Keys
      && Order(st', At(st', path[0]), h) == Before(st, path, h) + Entries(pg.cells) + Beyond(st, path, h)
  {
    hide Before, Beyond, Flat, Forest, Reach;
    PathOrder(st, path, h);
    EditPage(st, path, h, pg);
    FlatLeaf(st, At(st, Last(path)).cells);
    FlatLeaf(st, pg.cells);
    assert Entries(pg.cells) + [] == Entries(pg.cells);
    assert Entries(At(st, Last(path)).cells) + [] == Entries(At(st, Last(path)).cells);
  }

  lemma LeafCells(st: Store, path: seq<PageNumber>, h: nat, i: nat, e: Entry)
    requires IsPath(st, path) && |path| == h + 1 && Forest(st, [path[0]], h) && i <= |At(st, Last(path)).cells|
    ensures var pg := At(st, Last(path));
      && NodeShape(Page(pg.cells[..i] + [Cell(e, 0)] + pg.cells[i..], pg.right), 0)
      && (i < |pg.cells| ==> NodeShape(Page(pg.cells[..i] + pg.cells[i + 1..], pg.right), 0))
  {
    PathReach(st, path, h);
    ForestOne(st, Last(path), 0);
    var pg := At(st, Last(path));
    var p1 := Page(pg.cells[..i] + [Cell(e, 0)] + pg.cells[i..], pg.right);
    forall j | 0 <= j <= |p1.cells| ensures p1.Child(j) == 0 {
      assert p1.Child(j) == if j < i then pg.Child(j) else if j == i then 0 else pg.Child(j - 1);
    }
    if i < |pg.cells| {
      var p2 := Page(pg.cells[..i] + pg.cells[i + 1..], pg.right);
      forall j | 0 <= j <= |p2.cells| ensures p2.Child(j) == 0 {
        assert p2.Child(j) == if j < i then pg.Child(j) else pg.Child(j + 1);
      }
    }
  }

  /** Inserting a new cell in a leaf at index `i`. */
  lemma InsertLeaf(st: Store, path: seq<PageNumber>, h: nat, i: nat, e: Entry)
    requires IsPath(st, path) && |path| == h + 1 && Forest(st, [path[0]], h)
    requires i <= |At(st, Last(path)).cells|
    ensures var pg := At(st, Last(path));
      var st' := st[Last(path) := Page(pg.cells[..i] + [Cell(e, 0)] + pg.cells[i..], pg.right)];
      var x, y := Before(st, path, h) + Entries(pg.cells[..i]), Entries(pg.cells[i..]) + Beyond(st, path, h);
      && IsPath(st', path) && Forest(st', [path[0]], h)
      && Reach(st', [path[0]], h) == Reach(st, [path[0]], h)
      && Last(path) in Reach(st, [path[0]], h) && Reach(st, [path[0]], h) <= st.Keys
      && Order(st, At(st, path[0]), h) == x + y
      && Order(st', At(st', path[0]), h) == x + [e] + y
  {
    hide Before, Beyond, Order, Forest, Reach, NodeShape, IsPath;
    var pg := At(st, Last(path));
    var pg' := Page(pg.cells[..i] + [Cell(e, 0)] + pg.cells[i..], pg.right);
    LeafCells(st, path, h, i, e);
    LeafPlace(st, path, h, pg');
    assert Entries(pg'.cells) == Entries(pg.cells[..i]) + [e] + Entries(pg.cells[i..]);
    assert Entries(pg.cells) == Entries(pg.cells[..i]) + Entries(pg.cells[i..]);
  }

  /** Removing the cell of a leaf at index `i`. */
  lemma RemoveLeaf(st: Store, path: seq<PageNumber>, h: nat, i: nat)
    requires IsPath(st, path) && |path| == h + 1 && Forest(st, [path[0]], h)
    requires i < |At(st, Last(path)).cells|
    ensures var pg := At(st, Last(path));
      var st' := st[Last(path) := Page(pg.cells[..i] + pg.cells[i + 1..], pg.right)];
      var x, y := Before(st, path, h) + Entries(pg.cells[..i]), Entries(pg.cells[i + 1..]) + Beyond(st, path, h);
      && IsPath(st', path) && Forest(st', [path[0]], h)
      && Reach(st', [path[0]], h) == Reach(st, [path[0]], h)
      && Last(path) in Reach(st, [path[0]], h) && Reach(st, [path[0]], h) <= st.Keys
      && Order(st, At(st, path[0]), h) == x + [pg.cells[i].entry] + y
      && Order(st', At(st', path[0]), h) == x + y
  {
    hide Before, Beyond, Order, Forest, Reach, NodeShape;
    var pg := At(st, Last(path));
    var pg' := Page(pg.cells[..i] + pg.cells[i + 1..], pg.right);
    LeafCells(st, path, h, i, pg.cells[i].entry);
    LeafPlace(st, path, h, pg');
    assert Entries(pg'.cells) == Entries(pg.cells[..i]) + Entries(pg.cells[i + 1..]);
    assert Entries(pg.cells) == Entries(pg.cells[..i]) + [pg.cells[i].entry] + Entries(pg.cells[i + 1..]);
  }

  // ---- Removing an entry of an internal node: its neighbour in a leaf takes its place ----

  /** The store after the substitute, cell `k` of the leaf ending `below`, has moved into cell `i`
      of page `q`. */
  ghost function Substituted(st: Store, q: PageNumber, i: nat, below: seq<PageNumber>, k: nat): Store
    requires below != [] && k < |At(st, Last(below)).cells| && i < |At(st, q).cells|
  {
    var leaf := At(st, Last(below));
    var st1 := st[Last(below) := Page(leaf.cells[..k] + leaf.cells[k + 1..], leaf.right)];
    st1[q := WithEntry(At(st, q), i, leaf.cells[k].entry)]
  }

  /** `below` goes from a child of cell `i` straight to the entry next to it: always right from the
      left child, or always left from the right child. */
  ghost predicate NextTo(st: Store, q: PageNumber, i: nat, below: seq<PageNumber>, k: nat, hq: nat) {
    && hq > 0 && i < |At(st, q).cells|
    && IsPath(st, below) && |below| == hq && k < |At(st, Last(below)).cells|
    && (|| (below[0] == At(st, q).Child(i) && Beyond(st, below, hq - 1) == [] && k == |At(st, Last(below)).cells| - 1)
        || (below[0] == At(st, q).Child(i + 1) && Before(st, below, hq - 1) == [] && k == 0))
  }

  lemma SubstituteBelow(st: Store, q: PageNumber, i: nat, below: seq<PageNumber>, k: nat, hq: nat)
    requires NextTo(st, q, i, below, k, hq) && Forest(st, [q], hq)
    ensures var st' := Substituted(st, q, i, below, k);
      var pg := At(st, q);
      && Forest(st', [q], hq) && Reach(st', [q], hq) == Reach(st, [q], hq)
      && Last(below) != q && Last(below) in Reach(st, [q], hq) && q in Reach(st, [q], hq)
      && Order(st', At(st', q), hq)
         == Flat(st, pg.cells[..i], hq) + SubOrder(st, pg.Child(i), hq)
           + Order(st, Page(pg.cells[i + 1..], pg.right), hq)
  {
    hide Forest, Reach, Order, Flat, Before, Beyond, IsPath, NodeShape;
    var pg, leaf, h := At(st, q), At(st, Last(below)), hq - 1;
    var j := if below[0] == pg.Child(i) && Beyond(st, below, h) == [] && k == |leaf.cells| - 1 then i else i + 1;
    var st1 := st[Last(below) := Page(leaf.cells[..k] + leaf.cells[k + 1..], leaf.right)];
    ReachOne(st, q, hq);
    ForestOne(st, q, hq);
    ForestSplit(st, Children(pg), j, h);
    assert Children(pg)[j] == below[0];
    RemoveLeaf(st, below, h, k);
    assert q !in Reach(st, [below[0]], h);
    ForestIn(st, [q], hq);
    assert Last([q, below[0]]) == below[0] == pg.Child(j);
    assert Replaces(st, st1, [q, pg.Child(j)], hq);
    ReplaceChild(st, st1, q, j, hq);
    assert IsPath(st1, [q]) by { OnePath(st1, q); }
    EditEntry(st1, [q], hq, i, leaf.cells[k].entry);
    SubstituteOrder(st, st1, q, i, j, below, k, hq);
  }

  lemma OnePath(st: Store, p: PageNumber)
    ensures IsPath(st, [p])
  {
  }

  lemma SubstituteOrder(st: Store, st1: Store, q: PageNumber, i: nat, j: nat, below: seq<PageNumber>, k: nat, hq: nat)
    requires NextTo(st, q, i, below, k, hq) && Forest(st, [below[0]], hq - 1)
    requires var leaf := At(st, Last(below));
      st1 == st[Last(below) := Page(leaf.cells[..k] + leaf.cells[k + 1..], leaf.right)]
    requires if j == i
      then below[0] == At(st, q).Child(i) && Beyond(st, below, hq - 1) == [] && k == |At(st, Last(below)).cells| - 1
      else j == i + 1 && below[0] == At(st, q).Child(j) && Before(st, below, hq - 1) == [] && k == 0
    requires At(st1, q) == At(st, q)
    requires Flat(st1, At(st, q).cells[..j], hq) == Flat(st, At(st, q).cells[..j], hq)
    requires After(st1, At(st, q), j, hq) == After(st, At(st, q), j, hq)
    ensures var pg := At(st, q);
      Preceding(st1, [q], hq, i) + [At(st, Last(below)).cells[k].entry] + Following(st1, [q], hq, i)
      == Flat(st, pg.cells[..i], hq) + SubOrder(st, pg.Child(i), hq) + Order(st, Page(pg.cells[i + 1..], pg.right), hq)
  {
    hide Forest, Reach, Order, Flat, NodeShape, IsPath, Preceding, Following, SubOrder, After, Before, Beyond;
    var pg, leaf, h := At(st, q), At(st, Last(below)), hq - 1;
    RemoveLeaf(st, below, h, k);
    OnePath(st1, q);
    PlaceAlone(st1, q, hq, i);
    SubTrees(st, st1, below[0], hq);
    if j == i {
      assert leaf.cells[k + 1..] == [];
      ConcatEmpty(Before(st, below, h) + Entries(leaf.cells[..k]), leaf.cells[k].entry, Beyond(st, below, h));
      MaxPlace(st, st1, pg, i, leaf.cells[k].entry, hq);
    } else {
      assert leaf.cells[..0] == [];
      ConcatEmpty2(Before(st, below, h), leaf.cells[k].entry, Entries(leaf.cells[1..]) + Beyond(st, below, h));
      MinPlace(st, st1, pg, i, leaf.cells[k].entry, hq);
    }
  }

  lemma SubTrees(st: Store, st1: Store, p: PageNumber, h: nat)
    requires h > 0
    ensures SubOrder(st, p, h) == Order(st, At(st, p), h - 1) && SubOrder(st1, p, h) == Order(st1, At(st1, p), h - 1)
  {
  }

  lemma ConcatEmpty(x: seq<Entry>, m: Entry, b: seq<Entry>)
    requires b == []
    ensures x + [m] + (Entries([]) + b) == x + (Entries([]) + b) + [m]
  {
  }

  lemma ConcatEmpty2(a: seq<Entry>, m: Entry, y: seq<Entry>)
    requires a == []
    ensures (a + Entries([])) + [m] + y == [m] + ((a + Entries([])) + y)
  {
  }

  lemma MaxPlace(st: Store, st1: Store, pg: Page, i: nat, m: Entry, h: nat)
    requires i < |pg.cells|
    requires SubOrder(st, pg.Child(i), h) == SubOrder(st1, pg.Child(i), h) + [m]
    requires Flat(st1, pg.cells[..i], h) == Flat(st, pg.cells[..i], h) && After(st1, pg, i, h) == After(st, pg, i, h)
    ensures (Flat(st1, pg.cells[..i], h) + SubOrder(st1, pg.Child(i), h)) + [m]
      + Order(st1, Page(pg.cells[i + 1..], pg.right), h)
         == Flat(st, pg.cells[..i], h) + SubOrder(st, pg.Child(i), h) + Order(st, Page(pg.cells[i + 1..], pg.right), h)
  {
    hide Order, Flat, SubOrder;
    assert After(st1, pg, i, h)[1..] == Order(st1, Page(pg.cells[i + 1..], pg.right), h);
    assert After(st, pg, i, h)[1..] == Order(st, Page(pg.cells[i + 1..], pg.right), h);
    assert Flat(st, pg.cells[..i], h) + SubOrder(st1, pg.Child(i), h) + [m]
      == Flat(st, pg.cells[..i], h) + (SubOrder(st1, pg.Child(i), h) + [m]);
  }

  lemma MinPlace(st: Store, st1: Store, pg: Page, i: nat, m: Entry, h: nat)
    requires i < |pg.cells|
    requires SubOrder(st, pg.Child(i + 1), h) == [m] + SubOrder(st1, pg.Child(i + 1), h)
    requires Flat(st1, pg.cells[..i + 1], h) == Flat(st, pg.cells[..i + 1], h)
    requires After(st1, pg, i + 1, h) == After(st, pg, i + 1, h)
    ensures (Flat(st1, pg.cells[..i], h) + SubOrder(st1, pg.Child(i), h)) + [m]
      + Order(st1, Page(pg.cells[i + 1..], pg.right), h)
         == Flat(st, pg.cells[..i], h) + SubOrder(st, pg.Child(i), h) + Order(st, Page(pg.cells[i + 1..], pg.right), h)
  {
    hide Order, Flat, SubOrder, After;
    FlatNext(st, pg, i, h);
    FlatNext(st1, pg, i, h);
    RestAround(st, pg, i, h);
    RestAround(st1, pg, i, h);
    var a, b, e := Flat(st, pg.cells[..i], h) + SubOrder(st, pg.Child(i), h),
      Flat(st1, pg.cells[..i], h) + SubOrder(st1, pg.Child(i), h), pg.cells[i].entry;
    assert (a + [e])[..|a|] == a && (b + [e])[..|b|] == b;
    var s, z := SubOrder(st1, pg.Child(i + 1), h), After(st, pg, i + 1, h);
    assert a + [m] + (s + z) == a + ([m] + s + z);
  }

  lemma PlaceAlone(st: Store, q: PageNumber, hq: nat, i: nat)
    requires IsPath(st, [q]) && i < |At(st, q).cells|
    ensures var pg := At(st, q);
      && Preceding(st, [q], hq, i) == Flat(st, pg.cells[..i], hq) + SubOrder(st, pg.Child(i), hq)
      && Following(st, [q], hq, i) == Order(st, Page(pg.cells[i + 1..], pg.right), hq)
  {
    hide Order, Flat, SubOrder;
    var pg := At(st, q);
    assert [] + (Flat(st, pg.cells[..i], hq) + SubOrder(st, pg.Child(i), hq))
      == Flat(st, pg.cells[..i], hq) + SubOrder(st, pg.Child(i), hq);
  }

  lemma FlatNext(st: Store, pg: Page, i: nat, h: nat)
    requires i < |pg.cells|
    ensures Flat(st, pg.cells[..i + 1], h)
      == Flat(st, pg.cells[..i], h) + SubOrder(st, pg.Child(i), h) + [pg.cells[i].entry]
  {
    hide Flat, SubOrder;
    assert pg.cells[..i + 1] == pg.cells[..i] + [pg.cells[i]];
    FlatConcat(st, pg.cells[..i], [pg.cells[i]], h);
    FlatOne(st, pg.cells[i], h);
  }

  lemma RestAround(st: Store, pg: Page, i: nat, h: nat)
    requires i < |pg.cells|
    ensures Order(st, Page(pg.cells[i + 1..], pg.right), h)
      == SubOrder(st, pg.Child(i + 1), h) + After(st, pg, i + 1, h)
  {
    var rest := Page(pg.cells[i + 1..], pg.right);
    OrderAround(st, rest, 0, h);
    FlatNil(st, h);
    assert rest.cells[..0] == [];
    assert rest.Child(0) == pg.Child(i + 1);
    if i + 1 < |pg.cells| {
      assert rest.cells[1..] == pg.cells[i + 2..];
    }
  }

  /** The same, seen from the root: exactly the entry of cell `i` is gone. */
  lemma SubstituteTop(st: Store, path: seq<PageNumber>, h: nat, i: nat, below: seq<PageNumber>, k: nat)
    requires IsPath(st, path) && |path| <= h && Forest(st, [path[0]], h)
    requires NextTo(st, Last(path), i, below, k, h + 1 - |path|)
    ensures var st' := Substituted(st, Last(path), i, below, k);
      && IsPath(st', path + below) && Forest(st', [path[0]], h)
      && Reach(st', [path[0]], h) == Reach(st, [path[0]], h)
      && Last(below) != Last(path) && Last(below) != path[0]
      && Last(below) in Reach(st, [path[0]], h) && Last(path) in Reach(st, [path[0]], h)
        && Reach(st, [path[0]], h) <= st.Keys
      && Order(st', At(st', path[0]), h) == Preceding(st, path, h, i) + Following(st, path, h, i)
  {
    hide Forest, Reach, Order, Flat, Before, Beyond, NodeShape, SubOrder;
    var q, hq := Last(path), h + 1 - |path|;
    var st', pg := Substituted(st, q, i, below, k), At(st, q);
    PathReach(st, path, h);
    ForestIn(st, [path[0]], h);
    SubstituteBelow(st, q, i, below, k, hq);
    Graft(st, st', path, h);
    PathOrder(st', path, h);
    var a, f, s, r, z := Before(st, path, h), Flat(st, pg.cells[..i], hq), SubOrder(st, pg.Child(i), hq),
      Order(st, Page(pg.cells[i + 1..], pg.right), hq), Beyond(st, path, h);
    assert a + (f + s + r) + z == (a + (f + s)) + (r + z);
    SubstitutePath(st, path, h, i, below, k);
  }

  lemma SubstitutePath(st: Store, path: seq<PageNumber>, h: nat, i: nat, below: seq<PageNumber>, k: nat)
    requires IsPath(st, path) && |path| <= h && Forest(st, [path[0]], h)
    requires NextTo(st, Last(path), i, below, k, h + 1 - |path|)
    requires Last(below) != Last(path)
    ensures IsPath(Substituted(st, Last(path), i, below, k), path + below)
    ensures Last(below) != path[0]
  {
    hide Forest, Reach, Before, Beyond;
    var q, all := Last(path), path + below;
    var st', pg := Substituted(st, q, i, below, k), At(st, q);
    assert Children(pg)[i] == pg.Child(i) && Children(pg)[i + 1] == pg.Child(i + 1);
    PathConcat(st, path, below);
    PathReach(st, all, h);
    assert Last(all) == Last(below);
    ReachOne(st, Last(all), 0);
    LeafOnce(st, all, h);
    var pg' := WithEntry(pg, i, At(st, Last(below)).cells[k].entry);
    assert forall j :: 0 <= j <= |pg.cells| ==> pg'.Child(j) == pg.Child(j);
    assert Children(pg') == Children(pg);
    PathSame(st, st', all);
  }

  /** No page appears on a path before its end. */
  lemma {:induction false} LeafOnce(st: Store, path: seq<PageNumber>, h: nat)
    requires IsPath(st, path) && |path| <= h + 1 && Forest(st, [path[0]], h)
    ensures forall i :: 0 <= i < |path| - 1 ==> path[i] != Last(path)
    decreases |path|
  {
    hide Forest, Reach;
    if |path| > 1 {
      NotFirst(st, path, h);
      LeafOnce(st, path[1..], h - 1);
    }
  }

  /** The end of a longer path is not its beginning, and the rest of the path is one in a subtree. */
  lemma NotFirst(st: Store, path: seq<PageNumber>, h: nat)
    requires IsPath(st, path) && 1 < |path| <= h + 1 && Forest(st, [path[0]], h)
    ensures path[0] != Last(path) && Forest(st, [path[1]], h - 1)
  {
    hide Forest, Reach;
    PathReach(st, path, h);
    ReachHas(st, [Last(path)], 0, h + 1 - |path|);
    PathReach(st, path[..2], h) by { PathPrefix(st, path, 2); }
    assert Last(path[..2]) == path[1];
  }

  lemma LeafSides(st: Store, path: seq<PageNumber>, h: nat, i: nat, k: int)
    requires IsPath(st, path) && |path| <= h + 1 && i <= |At(st, Last(path)).cells|
    requires Below(Before(st, path, h), k) && Above(k, Beyond(st, path, h))
    requires forall j :: 0 <= j < i ==> At(st, Last(path)).cells[j].entry.key < k
    requires forall j :: i <= j < |At(st, Last(path)).cells| ==> k < At(st, Last(path)).cells[j].entry.key
    ensures Below(Before(st, path, h) + Entries(At(st, Last(path)).cells[..i]), k)
    ensures Above(k, Entries(At(st, Last(path)).cells[i..]) + Beyond(st, path, h))
  {
  }
}
