/** The textbook B+ tree (experiments/b+tree_transactions/bplustree.py): insertion with leaf and
    internal splits that find their parent by searching from the root.

    Page id n of the source is page number n + 1 here, and 0 stands for None.  In the in-order
    entries of the tree a key k counts as 2k + 1 and a separator k as 2k, so that one strictly
    sorted sequence says at once that keys are sorted, separators are sorted, and every separator
    is above the keys to its left and not above those to its right. */
module TextbookTree {
  import opened PageTrees
  import opened PagePaths
  import opened PageRows
  import opened PageEdits
  import opened TextbookFringe
  import DiskTree

  const MAX_KEYS := 4
  const MIN_KEYS := 2

  datatype Node = Node(isLeaf: bool, keys: seq<int>, children: seq<PageNumber>, values: seq<seq<int>>, next: PageNumber)

  type Nodes = map<PageNumber, Node>

  ghost predicate WellFormed(n: Node) {
    if n.isLeaf then |n.values| == |n.keys|
    else |n.children| == |n.keys| + 1 && forall c :: c in n.children ==> c != 0
  }

  /** A node as a page of a tree of pages. */
  ghost function View(n: Node): Page {
    if !WellFormed(n) then EMPTY_PAGE
    else if n.isLeaf
      then Page(seq(|n.keys|, i requires 0 <= i < |n.keys| => Cell(Entry(2 * n.keys[i] + 1, n.values[i]), 0)), 0)
    else Page(seq(|n.keys|, i requires 0 <= i < |n.keys| => Cell(Separator(n.keys[i]), n.children[i])),
      n.children[|n.keys|])
  }

  ghost function Separator(k: int): Entry {
    Entry(2 * k, [])
  }

  ghost function Views(pages: Nodes): Store {
    map p | p in pages :: View(pages[p])
  }

  ghost predicate AllWellFormed(pages: Nodes) {
    0 !in pages && forall p :: p in pages ==> WellFormed(pages[p])
  }

  /** Each leaf points at the next, the last at none. */
  ghost predicate Chained(pages: Nodes, leaves: seq<PageNumber>) {
    forall i :: 0 <= i < |leaves| ==> leaves[i] in pages && pages[leaves[i]].next == Successor(leaves, i)
  }

  ghost function Successor(s: seq<PageNumber>, i: nat): PageNumber {
    if i + 1 < |s| then s[i + 1] else 0
  }

  /** A tree of exactly these pages, its entries sorted. */
  ghost predicate Shape(st: Store, root: PageNumber, h: nat, all: set<PageNumber>) {
    && Forest(st, [root], h) && Reach(st, [root], h) == all
    && Sorted(Order(st, At(st, root), h))
  }

  /** 2 to 4 keys in every page, but for a key too many in `over`, and a root that may have less. */
  ghost predicate Sized(pages: Nodes, root: PageNumber, h: nat, over: PageNumber) {
    && (forall p :: p in pages ==> |pages[p].keys| <= MAX_KEYS + if p == over then 1 else 0)
    && (forall p :: p in pages && p != root ==> |pages[p].keys| >= MIN_KEYS)
    && (h > 0 ==> root in pages && pages[root].keys != [])
  }

  /** The tree between operations, but for page `over`, which may hold a key too many. */
  ghost predicate Sound(pages: Nodes, root: PageNumber, h: nat, over: PageNumber) {
    && AllWellFormed(pages)
    && Shape(Views(pages), root, h, pages.Keys)
    && Sized(pages, root, h, over)
    && Chained(pages, Fringe(Views(pages), [root], h))
  }

  /** The store as if the page split into `left` and `right` were still whole. */
  ghost function Unsplit(pages: Nodes, left: PageNumber, sep: int, right: PageNumber): Store {
    (Views(pages) - {right})[left := Join([At(Views(pages), left), At(Views(pages), right)], [Separator(sep)])]
  }

  function InsertAfter(s: seq<PageNumber>, x: PageNumber, y: PageNumber): seq<PageNumber> {
    if x in s then s[..IndexOf(s, x) + 1] + [y] + s[IndexOf(s, x) + 1..] else s
  }

  /** As `Sized`, of a tree in which `left` has been split. */
  ghost predicate SplitSized(pages: Nodes, root: PageNumber, h: nat, left: PageNumber) {
    && (forall p :: p in pages ==> |pages[p].keys| <= MAX_KEYS)
    && (forall p :: p in pages && (p != root || p == left) ==> |pages[p].keys| >= MIN_KEYS)
    && (root != left && h > 0 ==> root in pages && pages[root].keys != [])
  }

  /** A page has been split, but its parent does not know of the new page yet. */
  ghost predicate Cleft(pages: Nodes, path: seq<PageNumber>, h: nat, sep: int, right: PageNumber) {
    && path != []
    && var root, left := path[0], Last(path);
      var s := Unsplit(pages, left, sep, right);
      && AllWellFormed(pages) && left in pages && right in pages && left != right
      && IsPath(s, path) && |path| <= h + 1
      && Shape(s, root, h, pages.Keys - {right})
      && SplitSized(pages, root, h, left)
      && Chained(pages, InsertAfter(Fringe(s, [root], h), left, right))
  }

  // ---- Leaf entries, decoded ----

  ghost function Decode(s: seq<Entry>): seq<Entry> {
    if s == [] then [] else
      (if s[0].key % 2 == 1 then [Entry((s[0].key - 1) / 2, s[0].payload)] else []) + Decode(s[1..])
  }

  lemma {:induction false} DecodeConcat(a: seq<Entry>, b: seq<Entry>)
    ensures Decode(a + b) == Decode(a) + Decode(b)
    decreases |a|
  {
    if a == [] {
      assert a + b == b;
    } else {
      assert (a + b)[1..] == a[1..] + b;
      DecodeConcat(a[1..], b);
      var d := if a[0].key % 2 == 1 then [Entry((a[0].key - 1) / 2, a[0].payload)] else [];
      assert d + (Decode(a[1..]) + Decode(b)) == (d + Decode(a[1..])) + Decode(b);
    }
  }

  lemma {:induction false} DecodeIn(s: seq<Entry>, e: Entry)
    ensures e in Decode(s) <==> Entry(2 * e.key + 1, e.payload) in s
    decreases |s|
  {
    if s != [] {
      DecodeIn(s[1..], e);
      assert s == [s[0]] + s[1..];
      var d := if s[0].key % 2 == 1 then [Entry((s[0].key - 1) / 2, s[0].payload)] else [];
      assert e in d <==> Entry(2 * e.key + 1, e.payload) == s[0];
      assert Decode(s) == d + Decode(s[1..]);
    }
  }

  lemma DecodeAround(x: seq<Entry>, e: Entry, y: seq<Entry>)
    ensures Decode(x + [e] + y)
      == Decode(x) + (if e.key % 2 == 1 then [Entry((e.key - 1) / 2, e.payload)] else []) + Decode(y)
  {
    DecodeConcat(x + [e], y);
    DecodeConcat(x, [e]);
    assert [e][1..] == [];
  }

  lemma {:induction false} DecodeSorted(s: seq<Entry>)
    requires Sorted(s)
    ensures Sorted(Decode(s))
    decreases |s|
  {
    if s != [] {
      assert s == [s[0]] + s[1..];
      SortedConcat([s[0]], s[1..]);
      DecodeSorted(s[1..]);
      if s[0].key % 2 == 1 {
        var e := Entry((s[0].key - 1) / 2, s[0].payload);
        forall x | x in Decode(s[1..]) ensures e.key < x.key {
          DecodeIn(s[1..], x);
          assert s[0] in [s[0]];
        }
        SortedConcat([e], Decode(s[1..]));
      }
    }
  }

  lemma DecodeBounds(x: seq<Entry>, k: int)
    ensures Below(x, 2 * k + 1) ==> Below(Decode(x), k)
    ensures Above(2 * k + 1, x) ==> Above(k, Decode(x))
  {
    forall e | e in Decode(x) ensures Entry(2 * e.key + 1, e.payload) in x {
      DecodeIn(x, e);
    }
  }

  // ---- A new page enters its parent ----

  lemma InsertedAfter(u: seq<PageNumber>, x: PageNumber, v: seq<PageNumber>, y: PageNumber)
    requires x !in u
    ensures x in u + [x] + v && InsertAfter(u + [x] + v, x, y) == u + [x, y] + v
  {
    hide IndexOf;
    var s := u + [x] + v;
    assert s[|u|] == x;
    var i := IndexOf(s, x);
    assert forall j :: 0 <= j < |u| ==> s[j] == u[j] && u[j] in u;
    assert i == |u|;
    assert s[..i + 1] == u + [x] && s[i + 1..] == v;
  }

  /** The leaves below the parent, before and after the new page is entered. */
  lemma MendedFringe(s: Store, s': Store, p: PageNumber, before: seq<Cell>, tail: Page, left: PageNumber,
          right: PageNumber, sep: Entry, h: nat)
    returns (u: seq<PageNumber>, v: seq<PageNumber>)
    requires Rebalanced(s, s', p, before, tail, [left], [], [left, right], [sep]) && Forest(s, [p], h + 1)
    ensures Fringe(s, [p], h + 1) == u + Fringe(s, [left], h) + v
    ensures Fringe(s', [p], h + 1) == u + (if h == 0 then [left, right] else Fringe(s, [left], h)) + v
  {
    hide Forest, Reach, Fringe, Cat, KidsOf, NodeShape, Parent;
    var a, z := Lefts(before), Children(tail)[1..];
    ParentKids(before, [left], [], tail);
    ParentKids(before, [left, right], [sep], tail);
    FringeOne(s, p, h + 1);
    FringeOne(s', p, h + 1);
    FringeConcat(s, a + [left], z, h);
    FringeConcat(s, a, [left], h);
    FringeConcat(s', a + [left, right], z, h);
    FringeConcat(s', a, [left, right], h);
    ForestOne(s, p, h + 1);
    Sides(s, a, [left], z, h);
    ReachConcat(s, a + [left], z, h);
    ReachConcat(s, a, [left], h);
    ReachHas(s, [left], 0, h);
    ForestIn(s, a, h);
    ForestIn(s, z, h);
    FringeFrame(s, s', a, h);
    FringeFrame(s, s', z, h);
    u, v := Fringe(s, a, h), Fringe(s, z, h);
    MendedBelow(s, s', p, before, tail, left, right, sep, h);
  }

  lemma MendedBelow(s: Store, s': Store, p: PageNumber, before: seq<Cell>, tail: Page, left: PageNumber,
          right: PageNumber, sep: Entry, h: nat)
    requires Rebalanced(s, s', p, before, tail, [left], [], [left, right], [sep]) && Forest(s, [p], h + 1)
    ensures Fringe(s', [left, right], h) == if h == 0 then [left, right] else Fringe(s, [left], h)
  {
    hide Forest, Reach, Fringe, Cat, NodeShape, Parent, Join;
    FringeConcat(s', [left], [right], h);
    assert [left] + [right] == [left, right];
    FringeOne(s', left, h);
    FringeOne(s', right, h);
    if h > 0 {
      FringeOne(s, left, h);
      JoinKids(Pages(s, [left]), []);
      JoinKids(Pages(s', [left, right]), [sep]);
      PairKids(At(s', left), At(s', right));
      OneKids(At(s, left));
      assert Pages(s', [left, right]) == [At(s', left), At(s', right)];
      assert Pages(s, [left]) == [At(s, left)];
      var kids := Children(At(s, left));
      FringeConcat(s', Children(At(s', left)), Children(At(s', right)), h - 1);
      ForestOne(s, p, h + 1);
      ReachOne(s, p, h + 1);
      ParentKids(before, [left], [], tail);
      var i := |before|;
      assert Children(At(s, p))[i] == left;
      ForestSplit(s, Children(At(s, p)), i, h);
      ForestOne(s, left, h);
      ReachOne(s, left, h);
      ForestIn(s, kids, h - 1);
      FringeFrame(s, s', kids, h - 1);
    }
  }

  lemma PairKids(a: Page, b: Page)
    ensures KidsOf([a, b]) == Children(a) + Children(b)
  {
    KidsSnoc([a], b);
    OneKids(a);
    assert [a] + [b] == [a, b];
  }

  lemma OneKids(a: Page)
    ensures KidsOf([a]) == Children(a)
  {
    assert [a][..0] == [];
  }

  /** Entering a new page in its parent, seen from the root: the tree is whole again. */
  lemma Mended(s: Store, s': Store, path: seq<PageNumber>, h: nat, before: seq<Cell>, tail: Page, right: PageNumber,
          sep: Entry)
    requires IsPath(s, path) && 1 < |path| <= h + 1 && Forest(s, [path[0]], h)
    requires Rebalanced(s, s', path[|path| - 2], before, tail, [Last(path)], [], [Last(path), right], [sep])
    requires s'.Keys == s.Keys + {right} && right !in s
    ensures IsPath(s', path[..|path| - 1]) && Forest(s', [path[0]], h)
    ensures Reach(s', [path[0]], h) == Reach(s, [path[0]], h) + {right}
    ensures Order(s', At(s', path[0]), h) == Order(s, At(s, path[0]), h)
    ensures Fringe(s', [path[0]], h) == InsertAfter(Fringe(s, [path[0]], h), Last(path), right)
  {
    hide Forest, Reach, Order, Fringe, Join, IsPath, Parent, Rebalanced, KidsOf, Children, Before, Beyond;
    var path1 := path[..|path| - 1];
    var root, p, left, hp := path[0], path[|path| - 2], Last(path), h + 2 - |path|;
    PathPrefix(s, path, |path| - 1);
    PathReach(s, path1, h);
    RebalancedKeeps(s, s', p, before, tail, [left], [], [left, right], [sep], hp - 1);
    MendedReplaces(s, s', path1, h, before, tail, left, right, sep);
    Graft(s, s', path1, h);
    PathOrder(s, path1, h);
    PathOrder(s', path1, h);
    Sets(Reach(s, [root], h), Reach(s, [p], hp), left, right);
    assert ToSet([left]) == {left} && ToSet([left, right]) == {left, right};
    MendedLeaves(s, s', path, h, before, tail, right, sep);
  }

  lemma MendedLeaves(s: Store, s': Store, path: seq<PageNumber>, h: nat, before: seq<Cell>, tail: Page,
          right: PageNumber, sep: Entry)
    requires IsPath(s, path) && 1 < |path| <= h + 1 && Forest(s, [path[0]], h)
    requires Rebalanced(s, s', path[|path| - 2], before, tail, [Last(path)], [], [Last(path), right], [sep])
    requires IsPath(s, path[..|path| - 1]) && IsPath(s', path[..|path| - 1])
    requires Forest(s, [path[|path| - 2]], h + 2 - |path|) && Replaces(s, s', path[..|path| - 1], h)
    ensures Fringe(s', [path[0]], h) == InsertAfter(Fringe(s, [path[0]], h), Last(path), right)
  {
    hide Forest, Reach, Order, Fringe, Join, IsPath, Parent, Rebalanced, FringeBefore, FringeBeyond;
    hide Replaces, InsertAfter, Distinct;
    var path1 := path[..|path| - 1];
    var root, p, left, hp := path[0], path[|path| - 2], Last(path), h + 2 - |path|;
    var u, v := MendedFringe(s, s', p, before, tail, left, right, sep, hp - 1);
    GraftFringe(s, s', path1, h);
    PathFringe(s, path1, h);
    PathFringe(s', path1, h);
    FringeLeaves(s, [root], h);
    PathReach(s, path, h);
    FringeOne(s, left, hp - 1);
    LeafOrNot(s, left, hp - 1);
    assert Last(path1) == p;
    if hp == 1 {
      LeafSwapped(FringeBefore(s, path1, h), u, left, v, FringeBeyond(s, path1, h), right);
    } else {
      assert left !in Fringe(s, [root], h);
      NotAfter(Fringe(s, [root], h), left, right);
    }
  }

  lemma NotAfter(s: seq<PageNumber>, x: PageNumber, y: PageNumber)
    requires x !in s
    ensures InsertAfter(s, x, y) == s
  {
  }

  lemma LeafSwapped(a: seq<PageNumber>, u: seq<PageNumber>, x: PageNumber, v: seq<PageNumber>, b: seq<PageNumber>,
          y: PageNumber)
    requires Distinct(a + (u + [x] + v) + b)
    ensures InsertAfter(a + (u + [x] + v) + b, x, y) == a + (u + [x, y] + v) + b
  {
    assert a + (u + [x] + v) + b == (a + u) + [x] + (v + b);
    DistinctBefore(a + u, x, v + b);
    InsertedAfter(a + u, x, v + b, y);
    assert a + (u + [x, y] + v) + b == (a + u) + [x, y] + (v + b);
  }

  lemma LeafOrNot(s: Store, p: PageNumber, h: nat)
    requires Forest(s, [p], h)
    ensures At(s, p).IsLeaf() <==> h == 0
  {
    hide Forest, Reach;
    ForestOne(s, p, h);
    LeafShape(s, p, h);
  }

  lemma DistinctBefore(u: seq<PageNumber>, x: PageNumber, v: seq<PageNumber>)
    requires Distinct(u + [x] + v)
    ensures x !in u
  {
    var s := u + [x] + v;
    forall i | 0 <= i < |u| ensures u[i] != x { assert s[i] != s[|u|]; }
  }

  lemma Sets(r: set<PageNumber>, q: set<PageNumber>, left: PageNumber, right: PageNumber)
    requires q <= r && left in q && right !in r
    ensures r - q + (q - {left} + {left, right}) == r + {right}
  {
  }

  lemma MendedReplaces(s: Store, s': Store, path: seq<PageNumber>, h: nat, before: seq<Cell>, tail: Page,
          left: PageNumber, right: PageNumber, sep: Entry)
    requires path != [] && |path| <= h && IsPath(s, path) && Forest(s, [path[0]], h)
    requires Rebalanced(s, s', Last(path), before, tail, [left], [], [left, right], [sep])
    requires Reach(s', [Last(path)], h + 1 - |path|)
      == Reach(s, [Last(path)], h + 1 - |path|) - ToSet([left]) + ToSet([left, right])
    requires ToSet([left]) <= Reach(s, [Last(path)], h + 1 - |path|)
    requires right !in s
    ensures Replaces(s, s', path, h)
    ensures left in Reach(s, [Last(path)], h + 1 - |path|) && right !in Reach(s, [path[0]], h)
    ensures Reach(s, [Last(path)], h + 1 - |path|) <= Reach(s, [path[0]], h)
  {
    hide Forest, Reach, Join, Parent, KidsOf, Children;
    PathReach(s, path, h);
    ForestIn(s, [path[0]], h);
    ReachHas(s, [Last(path)], 0, h + 1 - |path|);
    assert left in ToSet([left]);
  }

  /** A page above the root, with the root as its only child. */
  lemma Rooted(s: Store, left: PageNumber, h: nat, top: PageNumber)
    requires Forest(s, [left], h) && top !in s && left != 0
    ensures var s1 := s[top := Page([], left)];
      && Forest(s1, [top], h + 1) && Reach(s1, [top], h + 1) == Reach(s, [left], h) + {top}
      && Order(s1, At(s1, top), h + 1) == Order(s, At(s, left), h)
      && Fringe(s1, [top], h + 1) == Fringe(s, [left], h)
      && IsPath(s1, [top, left])
  {
    hide Forest, Reach, Order, Fringe, Flat;
    var s1 := s[top := Page([], left)];
    ForestIn(s, [left], h);
    Frame(s, s1, [left], h);
    FringeFrame(s, s1, [left], h);
    assert Children(Page([], left)) == [left];
    ForestOne(s1, top, h + 1);
    ReachOne(s1, top, h + 1);
    FringeOne(s1, top, h + 1);
    ReachOne(s, left, h);
    FrameOrder(s, s1, At(s, left), h);
    ReachHas(s, [left], 0, h);
    EmptyOrder(s1, Page([], left), h + 1);
    assert SubOrder(s1, left, h + 1) == Order(s1, At(s1, left), h);
    assert [top, left][1..] == [left];
  }

  // ---- Views of node edits ----

  /** A separator and a child entered in an internal node. */
  lemma ViewEntered(n: Node, i: nat, k: int, left: PageNumber, right: PageNumber)
    requires WellFormed(n) && !n.isLeaf && i <= |n.keys| && n.children[i] == left && right != 0
    ensures var n' := n.(keys := n.keys[..i] + [k] + n.keys[i..],
      children := n.children[..i + 1] + [right] + n.children[i + 1..]);
      var before, tail := View(n).cells[..i], Page(View(n).cells[i..], View(n).right);
      && WellFormed(n')
      && View(n) == Parent(before, [left], [], tail)
      && View(n') == Parent(before, [left, right], [Separator(k)], tail)
  {
    var n' := n.(keys := n.keys[..i] + [k] + n.keys[i..],
      children := n.children[..i + 1] + [right] + n.children[i + 1..]);
    var before, tail := View(n).cells[..i], Page(View(n).cells[i..], View(n).right);
    assert forall c :: c in n'.children ==> c in n.children || c == right;
    ParentOfOne(before, left, tail);
    ParentOfTwo(before, left, right, Separator(k), tail);
    hide Parent, Repoint;
    assert View(n).cells == before + tail.cells;
    EnteredCells(n, n', i, k, left, right);
  }

  lemma ParentOfOne(before: seq<Cell>, p: PageNumber, tail: Page)
    requires tail.Child(0) == p
    ensures Parent(before, [p], [], tail) == Page(before + tail.cells, tail.right)
  {
    assert Repoint(tail, p) == tail;
    assert RowCells([], []) == [] && [p][..0] == [];
    assert before + [] == before;
  }

  lemma ParentOfTwo(before: seq<Cell>, p: PageNumber, q: PageNumber, d: Entry, tail: Page)
    ensures Parent(before, [p, q], [d], tail)
      == Page(before + [Cell(d, p)] + Repoint(tail, q).cells, Repoint(tail, q).right)
  {
    assert [p, q][..1] == [p];
    assert RowCells([p], [d]) == [Cell(d, p)];
  }

  lemma EnteredCells(n: Node, n': Node, i: nat, k: int, left: PageNumber, right: PageNumber)
    requires WellFormed(n) && !n.isLeaf && i <= |n.keys| && n.children[i] == left && WellFormed(n')
    requires n'
      == n.(keys := n.keys[..i] + [k] + n.keys[i..], children := n.children[..i + 1] + [right] + n.children[i + 1..])
    ensures var before, t := View(n).cells[..i], Repoint(Page(View(n).cells[i..], View(n).right), right);
      View(n') == Page(before + [Cell(Separator(k), left)] + t.cells, t.right)
  {
    var before, tail := View(n).cells[..i], Page(View(n).cells[i..], View(n).right);
    var t := Repoint(tail, right);
    var want := before + [Cell(Separator(k), left)] + t.cells;
    assert |t.cells| == |tail.cells|;
    forall j | 0 <= j < |want| ensures View(n').cells[j] == want[j] {
      if j > i {
        assert want[j] == t.cells[j - i - 1];
        assert n'.keys[j] == n.keys[j - 1];
      }
    }
    assert View(n').cells == want;
  }

  /** An internal node with a key too many, cut around its middle key. */
  lemma ViewCut(n: Node, left: Node, right: Node, mid: nat)
    requires WellFormed(n) && !n.isLeaf && mid < |n.keys|
    requires left == n.(keys := n.keys[..mid], children := n.children[..mid + 1])
    requires !right.isLeaf && right.keys == n.keys[mid + 1..] && right.children == n.children[mid + 1..]
    ensures WellFormed(left) && WellFormed(right)
    ensures Join([View(left), View(right)], [Separator(n.keys[mid])]) == View(n)
  {
    assert forall c :: c in left.children || c in right.children ==> c in n.children;
    var a, b, k := View(left), View(right), Separator(n.keys[mid]);
    assert [a, b][..1] == [a] && [a][..0] == [];
    assert Cat([], []) == [];
    assert [k][..0] == [];
    CatSnoc([], [], a, k);
    assert [] + [a] == [a] && [] + [k] == [k];
    assert Cat([a], [k]) == a.cells + [Cell(k, a.right)];
    var j := Join([a, b], [k]);
    assert j.cells == a.cells + [Cell(k, a.right)] + b.cells;
    assert |j.cells| == |n.keys|;
    forall i | 0 <= i < |n.keys| ensures j.cells[i] == View(n).cells[i] {
    }
  }

  /** A leaf with a key too many, cut in two: whole again, it has the separator in its middle. */
  lemma ViewCutLeaf(n: Node, left: Node, right: Node, mid: nat)
    requires WellFormed(n) && n.isLeaf && mid < |n.keys|
    requires left.isLeaf && left.keys == n.keys[..mid] && left.values == n.values[..mid]
    requires right.isLeaf && right.keys == n.keys[mid..] && right.values == n.values[mid..]
    ensures WellFormed(left) && WellFormed(right)
    ensures var cells := View(n).cells;
      Join([View(left), View(right)], [Separator(n.keys[mid])])
        == Page(cells[..mid] + [Cell(Separator(n.keys[mid]), 0)] + cells[mid..], 0)
  {
    var a, b, k := View(left), View(right), Separator(n.keys[mid]);
    assert [a, b][..1] == [a] && [a][..0] == [];
    assert Cat([], []) == [];
    CatSnoc([], [], a, k);
    assert [] + [a] == [a] && [] + [k] == [k];
    assert Cat([a], [k]) == a.cells + [Cell(k, 0)];
    assert a.cells == View(n).cells[..mid] && b.cells == View(n).cells[mid..];
  }

  // ---- Small trees ----

  /** One value for each key. */
  function Once(keys: seq<int>): seq<seq<int>> {
    seq(|keys|, i requires 0 <= i < |keys| => [keys[i]])
  }

  /** The tree is one leaf with these keys. */
  ghost predicate OneLeaf(pages: Nodes, root: PageNumber, h: nat, keys: seq<int>) {
    h == 0 && pages == map[root := Node(true, keys, [], Once(keys), 0)]
  }

  /** The tree is two leaves with these keys, the first key of the second one as separator. */
  ghost predicate TwoLeaves(pages: Nodes, root: PageNumber, h: nat, a: PageNumber, b: PageNumber, lower: seq<int>,
          upper: seq<int>) {
    && h == 1 && a != b && a != root && b != root && upper != []
    && pages == map[a := Node(true, lower, [], Once(lower), b), b := Node(true, upper, [], Once(upper), 0),
                    root := Node(false, [upper[0]], [a, b], [], 0)]
  }

  /** A root over a page split in two. */
  ghost predicate RootAbove(was: Nodes, pages: Nodes, root: PageNumber, left: PageNumber, key: int, right: PageNumber) {
    root !in was && pages == was[root := Node(false, [key], [left, right], [], 0)]
  }

  /** A root leaf with a key too many has been split. */
  ghost predicate RootLeafSplit(was: Nodes, pages: Nodes, root: PageNumber, pid: PageNumber, right: PageNumber) {
    && pid in was && |was[pid].keys| == |was[pid].values| == MAX_KEYS + 1 && right !in was
    && var n := was[pid];
      RootAbove(was[right := Node(true, n.keys[2..], [], n.values[2..], n.next)]
                   [pid := n.(keys := n.keys[..2], values := n.values[..2], next := right)],
                pages, root, pid, n.keys[2], right)
  }

  /** A key above all others has been inserted into a tree of one leaf. */
  ghost predicate Appended(keys: seq<int>, key: int, pages: Nodes, root: PageNumber, h: nat) {
    var all := keys + [key];
    if |all| <= MAX_KEYS then OneLeaf(pages, root, h, all)
    else exists a, b :: TwoLeaves(pages, root, h, a, b, all[..2], all[2..])
  }

  lemma AppendedOne(keys: seq<int>, n: nat, pages: Nodes, root: PageNumber, h: nat)
    requires n < |keys| && n < MAX_KEYS && Appended(keys[..n], keys[n], pages, root, h)
    ensures OneLeaf(pages, root, h, keys[..n + 1])
  {
    assert keys[..n] + [keys[n]] == keys[..n + 1];
  }

  lemma AppendedTwo(keys: seq<int>, pages: Nodes, root: PageNumber, h: nat) returns (a: PageNumber, b: PageNumber)
    requires |keys| == MAX_KEYS + 1 && Appended(keys[..MAX_KEYS], keys[MAX_KEYS], pages, root, h)
    ensures TwoLeaves(pages, root, h, a, b, keys[..2], keys[2..])
  {
    assert keys[..MAX_KEYS] + [keys[MAX_KEYS]] == keys;
    a, b :| TwoLeaves(pages, root, h, a, b, keys[..2], keys[2..]);
  }

  lemma AppendedKey(keys: seq<int>, key: int, idx: nat)
    requires idx == |keys|
    ensures keys[..idx] + [key] + keys[idx..] == keys + [key]
    ensures Once(keys)[..idx] + [[key]] + Once(keys)[idx..] == Once(keys + [key])
  {
  }

  lemma AppendedSplit(keys: seq<int>, was: Nodes, pages: Nodes, root: PageNumber, pid: PageNumber, right: PageNumber)
    requires |keys| == MAX_KEYS + 1 && OneLeaf(was, pid, 0, keys) && RootLeafSplit(was, pages, root, pid, right)
    ensures TwoLeaves(pages, root, 1, pid, right, keys[..2], keys[2..])
  {
    assert Once(keys)[..2] == Once(keys[..2]) && Once(keys)[2..] == Once(keys[2..]);
  }

  class BPlusTree {
    var pages: Nodes
    var root: PageNumber
    ghost var height: nat

    /** A new file holds one page: an empty leaf, the root. */
    constructor ()
      ensures Valid() && Stored() == map[] && OneLeaf(pages, root, height, [])
    {
      pages, root, height := map[1 := Node(true, [], [], [], 0)], 1, 0;
      new;
      assert Once([]) == [];
      var st := Views(pages);
      assert st[1] == EMPTY_PAGE;
      ForestOne(st, 1, 0);
      ReachOne(st, 1, 0);
      FringeOne(st, 1, 0);
      FlatNil(st, 0);
    }

    ghost predicate Valid()
      reads this
    {
      Sound(pages, root, height, 0)
    }

    ghost function InOrder(): seq<Entry>
      reads this
    {
      Order(Views(pages), At(Views(pages), root), height)
    }

    /** What is stored: for each key the list of its values. */
    ghost function Stored(): map<int, seq<int>>
      reads this
    {
      ToMap(Decode(InOrder()))
    }

    /** A page number above all others. */
    method NewPage(isLeaf: bool) returns (p: PageNumber)
      modifies `pages
      ensures p != 0 && p !in old(pages) && pages == old(pages)[p := Node(isLeaf, [], [], [], 0)]
    {
      p := 1;
      var ids := pages.Keys;
      while ids != {}
        invariant p != 0 && forall q :: q in pages && q !in ids ==> q < p
        decreases ids
      {
        var q :| q in ids;
        if q >= p {
          p := q + 1;
        }
        ids := ids - {q};
      }
      pages := pages[p := Node(isLeaf, [], [], [], 0)];
    }

    /** Index of the first key greater than `key`. */
    method FirstGreater(keys: seq<int>, key: int) returns (i: nat)
      requires forall a, b :: 0 <= a < b < |keys| ==> keys[a] < keys[b]
      ensures i <= |keys|
      ensures forall j :: 0 <= j < i ==> keys[j] <= key
      ensures forall j :: i <= j < |keys| ==> key < keys[j]
    {
      i := 0;
      while i < |keys| && !(key < keys[i])
        invariant 0 <= i <= |keys|
        invariant forall j :: 0 <= j < i ==> keys[j] <= key
      {
        i := i + 1;
      }
    }

    /** The parent of `target` below `current`: depth first, left to right. */
    method FindParent(current: PageNumber, target: PageNumber, ghost h: nat)
      returns (found: bool, parent: PageNumber, ghost path: seq<PageNumber>)
      requires AllWellFormed(pages) && Forest(Views(pages), [current], h) && current != target
      ensures found ==>
        path != [] && IsPath(Views(pages), path) && path[0] == current && Last(path) == parent && |path| <= h
      ensures found ==> parent in pages && !pages[parent].isLeaf && target in pages[parent].children
      ensures !found ==> target !in Reach(Views(pages), [current], h)
      decreases h
    {
      hide Forest, Reach, AllWellFormed;
      ghost var st := Views(pages);
      ForestOne(st, current, h);
      ReachOne(st, current, h);
      NodeKind(pages, current, h);
      path := [current];
      var page := pages[current];
      if page.isLeaf {
        return false, current, path;
      }
      if target in page.children {
        return true, current, path;
      }
      assert page.children == Children(st[current]);
      ReachNil(st, h - 1);
      assert page.children[..0] == [];
      var i := 0;
      while i < |page.children|
        invariant 0 <= i <= |page.children|
        invariant target !in Reach(st, page.children[..i], h - 1)
      {
        ghost var below;
        ForestSplit(st, page.children, i, h - 1);
        found, parent, below := FindParent(page.children[i], target, h - 1);
        if found {
          path := [current] + below;
          assert path[1..] == below;
          return true, parent, path;
        }
        assert page.children[..i + 1] == page.children[..i] + [page.children[i]];
        ReachConcat(st, page.children[..i], [page.children[i]], h - 1);
        i := i + 1;
      }
      assert page.children[..i] == page.children;
      return false, current, [current];
    }

    /** Enter the new page `right`, split off `left` at `key`, in the parent of `left`; a parent
        with a key too many is split in turn, and a split root gets a new root above it. */
    method InsertIntoParent(left: PageNumber, key: int, right: PageNumber, ghost path: seq<PageNumber>)
      requires Cleft(pages, path, height, key, right) && path[0] == root && Last(path) == left
      modifies this
      ensures Valid()
      ensures InOrder()
        == old(Order(Unsplit(pages, left, key, right), At(Unsplit(pages, left, key, right), root), height))
      ensures old(root) == left ==> height == old(height) + 1 && RootAbove(old(pages), pages, root, left, key, right)
      decreases |path|, 1
    {
      hide Cleft, Sound, Unsplit, Order, Forest, Reach;
      ghost var s := Unsplit(pages, left, key, right);
      if left == root {
        ghost var pages0, root0, h0 := pages, root, height;
        var newRoot := NewPage(false);
        pages := pages[newRoot := Node(false, [key], [left, right], [], 0)];
        root := newRoot;
        height := height + 1;
        CleftRoot(pages0, path, h0, key, right, newRoot);
        assert pages == pages0[newRoot := Node(false, [key], [left, right], [], 0)];
        return;
      }
      ghost var st := Views(pages);
      CleftParts(pages, path, height, key, right);
      CleftForest(pages, path, height, key, right);
      var found, parent; ghost var up;
      found, parent, up := FindParent(root, left, height);
      if found { ParentKind(pages, up, height); }
      CleftParent(pages, path, height, key, right, found, up);
      ghost var pages0 := pages;
      var p := pages[parent];
      var idx := IndexOf(p.children, left);
      CleftMended(pages, path, height, key, right, idx);
      p := p.(keys := p.keys[..idx] + [key] + p.keys[idx..],
        children := p.children[..idx + 1] + [right] + p.children[idx + 1..]);
      pages := pages[parent := p];
      if |p.keys| > MAX_KEYS {
        SplitInternal(parent, path[..|path| - 1]);
      } else {
        SoundAgain(pages, root, height, parent);
      }
    }

    /** Split an internal page with a key too many; its middle key goes up. */
    method SplitInternal(pid: PageNumber, ghost path: seq<PageNumber>)
      requires Sound(pages, root, height, pid) && pid in pages && !pages[pid].isLeaf
      requires |pages[pid].keys| == MAX_KEYS + 1
      requires path != [] && IsPath(Views(pages), path) && path[0] == root && Last(path) == pid && |path| <= height + 1
      modifies this
      ensures Valid() && InOrder() == old(InOrder())
      decreases |path|, 2
    {
      hide Cleft, Sound, Unsplit, Order, Forest, Reach;
      var page := pages[pid];
      SoundParts(pages, root, height, pid);
      var mid := |page.keys| / 2;
      var promote := page.keys[mid];
      ghost var pages0 := pages;
      var newPid := NewPage(false);
      var newPage := pages[newPid];
      newPage := newPage.(keys := page.keys[mid + 1..], children := page.children[mid + 1..]);
      page := page.(keys := page.keys[..mid], children := page.children[..mid + 1]);
      pages := pages[newPid := newPage][pid := page];
      CutInternal(pages0, pages, path, height, root, mid, newPid);
      InsertIntoParent(pid, promote, newPid, path);
    }

    /** Split a leaf with a key too many; the first key of the new leaf goes up as separator. */
    method SplitLeaf(pid: PageNumber, ghost path: seq<PageNumber>)
      requires Sound(pages, root, height, pid) && pid in pages && pages[pid].isLeaf && |pages[pid].keys| == MAX_KEYS + 1
      requires path != [] && IsPath(Views(pages), path) && path[0] == root && Last(path) == pid && |path| == height + 1
      modifies this
      ensures Valid() && Decode(InOrder()) == old(Decode(InOrder()))
      ensures old(root) == pid ==>
        height == old(height) + 1 && exists q :: RootLeafSplit(old(pages), pages, root, pid, q)
    {
      hide Cleft, Sound, Unsplit, Order, Forest, Reach, Decode;
      var page := pages[pid];
      SoundParts(pages, root, height, pid);
      var mid := |page.keys| / 2;
      ghost var pages0 := pages;
      var newPid := NewPage(true);
      var newPage := pages[newPid];
      newPage := newPage.(keys := page.keys[mid..], values := page.values[mid..], next := page.next);
      page := page.(keys := page.keys[..mid], values := page.values[..mid], next := newPid);
      pages := pages[newPid := newPage][pid := page];
      CutLeaf(pages0, pages, path, height, root, mid, newPid);
      InsertIntoParent(pid, newPage.keys[0], newPid, path);
      if old(root) == pid {
        assert RootLeafSplit(pages0, pages, root, pid, newPid);
      }
    }

    ghost function RootKeys(): seq<int>
      reads this
    {
      if root in pages then pages[root].keys else []
    }

    /** The tree is one leaf, of keys below `key`. */
    ghost predicate OneLeafBelow(key: int)
      reads this
    {
      OneLeaf(pages, root, height, RootKeys()) && forall k :: k in RootKeys() ==> k < key
    }

    lemma OneLeafIs(keys: seq<int>, key: int)
      requires OneLeaf(pages, root, height, keys) && forall k :: k in keys ==> k < key
      ensures OneLeafBelow(key) && RootKeys() == keys
    {
    }

    /** Insert below page `pid`: go down to the leaf, add the value or the key, split if need be. */
    method InsertAt(pid: PageNumber, key: int, ghost path: seq<PageNumber>)
      requires Valid() && path != [] && IsPath(Views(pages), path) && path[0] == root && Last(path) == pid
      requires |path| <= height + 1
      requires Below(Before(Views(pages), path, height), 2 * key + 1)
      requires Above(2 * key + 1, Beyond(Views(pages), path, height))
      modifies this
      ensures Valid()
      ensures Stored() == old(WithValue(Stored(), key))
      ensures old(OneLeafBelow(key)) ==> Appended(old(RootKeys()), key, pages, root, height)
      decreases height + 1 - |path|
    {
      hide Sound, Order, Forest, Reach, Decode, Before, Beyond, ToMap, IsPath;
      ghost var st := Views(pages);
      AtNode(pages, root, height, path);
      var page := pages[pid];
      if page.isLeaf {
        ghost var pages0 := pages;
        if key in page.keys {
          var idx := IndexOf(page.keys, key);
          page := page.(values := page.values[idx := page.values[idx] + [key]]);
          AppendValue(pages0, root, height, path, idx);
        } else {
          var idx := 0;
          while idx < |page.keys| && page.keys[idx] < key
            invariant 0 <= idx <= |page.keys|
            invariant forall j :: 0 <= j < idx ==> page.keys[j] < key
          {
            idx := idx + 1;
          }
          assert idx < |page.keys| ==> page.keys[idx] != key;
          if old(OneLeafBelow(key)) {
            assert forall j :: 0 <= j < |page.keys| ==> page.keys[j] in page.keys;
            AppendedKey(page.keys, key, idx);
          }
          AddKey(pages0, root, height, path, idx, key);
          page := page.(keys := page.keys[..idx] + [key] + page.keys[idx..],
            values := page.values[..idx] + [[key]] + page.values[idx..]);
        }
        pages := pages[pid := page];
        assert old(OneLeafBelow(key)) ==>
          OneLeaf(pages, pid, height, page.keys) && page.keys == old(RootKeys()) + [key];
        if |page.keys| > MAX_KEYS {
          ghost var pages1 := pages;
          SplitLeaf(pid, path);
          if old(OneLeafBelow(key)) {
            ghost var right :| RootLeafSplit(pages1, pages, root, pid, right);
            AppendedSplit(page.keys, pages1, pages, root, pid, right);
          }
        } else {
          SoundAgain(pages, root, height, pid);
        }
        return;
      }
      var i := FirstGreater(page.keys, key);
      StepDown(pages, root, height, path, i, key);
      InsertAt(page.children[i], key, path + [page.children[i]]);
    }

    method Insert(key: int)
      requires Valid()
      modifies this
      ensures Valid()
      ensures Stored() == old(WithValue(Stored(), key))
      ensures old(OneLeafBelow(key)) ==> Appended(old(RootKeys()), key, pages, root, height)
    {
      hide Sound, Order, Forest, Reach, Decode, Appended;
      InsertAt(root, key, [root]);
    }

    /** Looks a key up: the first key at least `key` in the leaf it belongs to.  A stored key is always
        found.  For one that is not, the next stored key is found exactly when no separator lies above
        `key` and not above that one; with such a separator nothing is found. */
    method Search(key: int) returns (found: bool, pid: PageNumber, index: nat)
      requires Valid()
      ensures key in Stored() ==> found
      ensures found ==> pid in pages && pages[pid].isLeaf && index < |pages[pid].keys| == |pages[pid].values|
      ensures found ==>
        && key <= pages[pid].keys[index] && pages[pid].keys[index] in Stored()
        && Stored()[pages[pid].keys[index]] == pages[pid].values[index]
      ensures found ==> forall k :: k in Stored() && key <= k ==> pages[pid].keys[index] <= k
      ensures found <==> KeyNext(InOrder(), key)
    {
      hide Sound, Order, Forest, Reach, Decode, Before, Beyond, ToMap, IsPath;
      ghost var st := Views(pages);
      pid := root;
      ghost var path := [root];
      SearchStart(pages, root, height, key);
      AtNode(pages, root, height, path);
      while !pages[pid].isLeaf
        invariant path != [] && IsPath(st, path) && path[0] == root && Last(path) == pid && |path| <= height + 1
        invariant Below(Before(st, path, height), 2 * key + 1) && Above(2 * key + 1, Beyond(st, path, height))
        invariant pid in pages
        decreases height + 1 - |path|
      {
        AtNode(pages, root, height, path);
        var page := pages[pid];
        var i := FirstGreater(page.keys, key);
        StepDown(pages, root, height, path, i, key);
        pid := page.children[i];
        path := path + [pid];
        AtNode(pages, root, height, path);
      }
      AtNode(pages, root, height, path);
      var page := pages[pid];
      index := 0;
      while index < |page.keys| && page.keys[index] < key
        invariant index <= |page.keys|
        invariant forall j :: 0 <= j < index ==> page.keys[j] < key
      {
        index := index + 1;
      }
      LeafAnswer(pages, root, height, path, index, key);
      LeafExact(pages, root, height, path, index, key);
      found := index < |page.keys|;
    }

    /** Any run of insertions: each key has one value for every time it was inserted. */
    method Run(keys: seq<int>)
      requires Valid() && Stored() == map[]
      modifies this
      ensures Valid()
      ensures forall k :: k in Stored() <==> k in keys
      ensures forall k :: k in keys ==> Stored()[k] == seq(multiset(keys)[k], i => k)
    {
      hide Sound, Order, Forest, Reach, Decode, ToMap, Valid;
      for i := 0 to |keys|
        invariant Valid()
        invariant Counts(Stored(), keys[..i])
      {
        assert keys[..i + 1] == keys[..i] + [keys[i]];
        CountsMore(Stored(), keys[..i], keys[i]);
        Insert(keys[i]);
      }
      assert keys[..|keys|] == keys;
    }
  }

  lemma SearchStart(pages: Nodes, root: PageNumber, h: nat, key: int)
    requires Sound(pages, root, h, 0)
    ensures IsPath(Views(pages), [root])
    ensures Below(Before(Views(pages), [root], h), 2 * key + 1) && Above(2 * key + 1, Beyond(Views(pages), [root], h))
  {
    SidesEnd(Views(pages), [root], h);
  }

  /** What the leaf at the end of a search says about the key and those above it. */
  lemma LeafAnswer(pages: Nodes, root: PageNumber, h: nat, path: seq<PageNumber>, idx: nat, key: int)
    requires Sound(pages, root, h, 0) && path != [] && IsPath(Views(pages), path) && path[0] == root && |path| == h + 1
    requires Below(Before(Views(pages), path, h), 2 * key + 1) && Above(2 * key + 1, Beyond(Views(pages), path, h))
    requires Last(path) in pages && WellFormed(pages[Last(path)]) && pages[Last(path)].isLeaf
    requires idx <= |pages[Last(path)].keys|
    requires forall j :: 0 <= j < idx ==> pages[Last(path)].keys[j] < key
    requires idx < |pages[Last(path)].keys| ==> key <= pages[Last(path)].keys[idx]
    ensures var n, stored := pages[Last(path)], ToMap(Decode(Order(Views(pages), At(Views(pages), root), h)));
      && (idx == |n.keys| ==> key !in stored)
      && (idx < |n.keys| ==>
        n.keys[idx] in stored && stored[n.keys[idx]] == n.values[idx]
        && forall k :: k in stored && key <= k ==> n.keys[idx] <= k)
  {
    hide Forest, Reach, Before, Beyond, Order, Fringe, Decode, ToMap, Sorted, Sized, Chained, AllWellFormed;
    var n, st := pages[Last(path)], Views(pages);
    var cells := View(n).cells;
    var x := Before(st, path, h) + Entries(cells[..idx]);
    assert Below(x, 2 * key + 1) by {
      assert forall j :: 0 <= j < idx ==> cells[j].entry.key == 2 * n.keys[j] + 1;
    }
    DecodeBounds(x, key);
    if idx == |n.keys| {
      var y := Entries(cells[idx..]) + Beyond(st, path, h);
      assert cells[idx..] == [];
      assert y == Beyond(st, path, h);
      InsertLeaf(st, path, h, idx, Entry(2 * key + 1, []));
      DecodeBounds(y, key);
      DecodeConcat(x, y);
      MapMissing(Decode(x), key, Decode(y));
    } else {
      RemoveLeaf(st, path, h, idx);
      AnswerFound(x, Entry(2 * n.keys[idx] + 1, n.values[idx]), Entries(cells[idx + 1..]) + Beyond(st, path, h),
        n.keys[idx], key);
    }
  }

  /** The first in-order entry at `key` or above is a key and no separator. */
  ghost predicate KeyNext(s: seq<Entry>, key: int) {
    exists j :: 0 <= j < |s| && s[j].key % 2 == 1 && 2 * key + 1 <= s[j].key && Below(s[..j], 2 * key + 1)
  }

  /** A separator above `key` and not above the key of an odd entry. */
  ghost predicate Between(s: seq<Entry>, key: int, e: Entry) {
    exists d :: d in s && d.key % 2 == 0 && 2 * key + 1 <= d.key < e.key
  }

  /** There is a key at `key` or above that no separator keeps from it. */
  lemma KeyNextMeans(s: seq<Entry>, key: int)
    requires Sorted(s)
    ensures KeyNext(s, key) <==> exists e :: e in s && e.key % 2 == 1 && 2 * key + 1 <= e.key && !Between(s, key, e)
  {
    if KeyNext(s, key) {
      var j :| 0 <= j < |s| && s[j].key % 2 == 1 && 2 * key + 1 <= s[j].key && Below(s[..j], 2 * key + 1);
      assert !Between(s, key, s[j]);
    }
    if e :| e in s && e.key % 2 == 1 && 2 * key + 1 <= e.key && !Between(s, key, e) {
      var j :| 0 <= j < |s| && s[j] == e;
      var first := FirstFrom(s, 2 * key + 1, j);
      assert s[first] in s;
    }
  }

  /** The first entry at `k` or above; `j` is one. */
  lemma {:induction false} FirstFrom(s: seq<Entry>, k: int, j: nat) returns (first: nat)
    requires j < |s| && k <= s[j].key
    ensures first <= j && k <= s[first].key && Below(s[..first], k)
  {
    if i :| 0 <= i < j && k <= s[i].key {
      first := FirstFrom(s, k, i);
    } else {
      first := j;
    }
  }

  /** What follows a subtree begins with a separator. */
  lemma {:induction false} BeyondSeparator(pages: Nodes, path: seq<PageNumber>, h: nat)
    requires AllWellFormed(pages) && IsPath(Views(pages), path) && |path| <= h + 1
    requires Forest(Views(pages), [path[0]], h)
    ensures var y := Beyond(Views(pages), path, h); y != [] ==> y[0].key % 2 == 0
    decreases |path|
  {
    if |path| > 1 {
      hide Forest, Reach, Order, After, AllWellFormed, Beyond, View, Views, IsPath, NodeShape, Children, IndexOf;
      var st, p := Views(pages), path[0];
      PathTop(st, path, h);
      WellFormedNode(pages, p);
      NodeKind(pages, p, h);
      var i := IndexOf(Children(st[p]), path[1]);
      BeyondSeparator(pages, path[1..], h - 1);
      BeyondStep(st, path, h);
      AfterSeparator(st, pages[p], i, h);
    }
  }

  lemma PathTop(st: Store, path: seq<PageNumber>, h: nat)
    requires IsPath(st, path) && 1 < |path| <= h + 1 && Forest(st, [path[0]], h)
    ensures path[0] in st && NodeShape(st[path[0]], h) && path[1] in Children(st[path[0]])
    ensures |Children(st[path[0]])| == |st[path[0]].cells| + 1
    ensures IsPath(st, path[1..]) && Forest(st, [path[1]], h - 1)
  {
    hide Forest, Reach, NodeShape;
    ForestOne(st, path[0], h);
    ForestSplit(st, Children(st[path[0]]), IndexOf(Children(st[path[0]]), path[1]), h - 1);
  }

  lemma WellFormedNode(pages: Nodes, p: PageNumber)
    requires AllWellFormed(pages) && p in Views(pages)
    ensures p in pages && WellFormed(pages[p]) && Views(pages)[p] == View(pages[p])
  {
  }

  lemma BeyondStep(st: Store, path: seq<PageNumber>, h: nat)
    requires IsPath(st, path) && 1 < |path| <= h + 1
    ensures var pg := At(st, path[0]);
      Beyond(st, path, h) == Beyond(st, path[1..], h - 1) + After(st, pg, IndexOf(Children(pg), path[1]), h)
  {
  }

  lemma AfterSeparator(st: Store, n: Node, i: nat, h: nat)
    requires WellFormed(n) && !n.isLeaf && i <= |View(n).cells|
    ensures var y := After(st, View(n), i, h); y != [] ==> y[0].key % 2 == 0
  {
    hide Order;
  }

  /** A search finds something exactly when the first entry at `key` or above is a key. */
  lemma LeafExact(pages: Nodes, root: PageNumber, h: nat, path: seq<PageNumber>, idx: nat, key: int)
    requires Sound(pages, root, h, 0) && path != [] && IsPath(Views(pages), path) && path[0] == root && |path| == h + 1
    requires Below(Before(Views(pages), path, h), 2 * key + 1) && Above(2 * key + 1, Beyond(Views(pages), path, h))
    requires Last(path) in pages && WellFormed(pages[Last(path)]) && pages[Last(path)].isLeaf
    requires idx <= |pages[Last(path)].keys|
    requires forall j :: 0 <= j < idx ==> pages[Last(path)].keys[j] < key
    requires idx < |pages[Last(path)].keys| ==> key <= pages[Last(path)].keys[idx]
    ensures idx < |pages[Last(path)].keys| <==> KeyNext(Order(Views(pages), At(Views(pages), root), h), key)
  {
    hide Forest, Reach, Before, Beyond, Order, Fringe, Sorted, Sized, Chained, AllWellFormed;
    var n, st := pages[Last(path)], Views(pages);
    var cells := View(n).cells;
    var x := Before(st, path, h) + Entries(cells[..idx]);
    assert Below(x, 2 * key + 1) by {
      assert forall j :: 0 <= j < idx ==> cells[j].entry.key == 2 * n.keys[j] + 1;
    }
    if idx == |n.keys| {
      var y := Beyond(st, path, h);
      assert cells[idx..] == [] && Entries(cells[idx..]) + y == y;
      InsertLeaf(st, path, h, idx, Entry(2 * key + 1, []));
      BeyondSeparator(pages, path, h);
      NotNext(x, y, key);
    } else {
      RemoveLeaf(st, path, h, idx);
      var e, y := Entry(2 * n.keys[idx] + 1, n.values[idx]), Entries(cells[idx + 1..]) + Beyond(st, path, h);
      assert (x + [e] + y)[|x|] == e && (x + [e] + y)[..|x|] == x;
    }
  }

  lemma NotNext(x: seq<Entry>, y: seq<Entry>, key: int)
    requires Below(x, 2 * key + 1) && Above(2 * key + 1, y) && (y != [] ==> y[0].key % 2 == 0)
    ensures !KeyNext(x + y, key)
  {
    var s := x + y;
    forall j | 0 <= j < |s| && s[j].key % 2 == 1 && 2 * key + 1 <= s[j].key ensures !Below(s[..j], 2 * key + 1) {
      assert |x| < j;
      assert s[..j][|x|] == y[0];
    }
  }

  /** A key between two leaves and below the separator: the greater keys are missed. */
  lemma GapMissed(pages: Nodes, root: PageNumber, h: nat, a: PageNumber, b: PageNumber, lower: seq<int>,
          upper: seq<int>, key: int)
    requires Sound(pages, root, h, 0) && TwoLeaves(pages, root, h, a, b, lower, upper)
    requires key < upper[0] && forall k :: k in lower ==> k < key
    ensures !KeyNext(Order(Views(pages), At(Views(pages), root), h), key)
  {
    hide Order, Forest, Reach, Fringe, Flat, After, Sized;
    var st := Views(pages);
    var pg := At(st, root);
    assert pg == View(pages[root]) && pg.cells == [Cell(Separator(upper[0]), a)];
    OrderAround(st, pg, 0, 1);
    FlatNil(st, 1);
    assert pg.cells[..0] == [];
    var x, y := SubOrder(st, a, 1), After(st, pg, 0, 1);
    assert Order(st, pg, 1) == x + y;
    LeafBelow(st, a, lower, key);
    FirstAfter(st, pg, 1);
    forall e | e in y ensures 2 * key + 1 < e.key {
      var i :| 0 <= i < |y| && y[i] == e;
      assert (x + y)[|x|] == y[0] && (x + y)[|x| + i] == e;
    }
    NotNext(x, y, key);
  }

  lemma LeafBelow(st: Store, a: PageNumber, keys: seq<int>, key: int)
    requires At(st, a) == View(Node(true, keys, [], Once(keys), 0)) && forall k :: k in keys ==> k < key
    ensures Below(SubOrder(st, a, 1), 2 * key + 1)
  {
    FlatLeaf(st, At(st, a).cells);
    assert forall i :: 0 <= i < |keys| ==> keys[i] in keys && Entries(At(st, a).cells)[i].key == 2 * keys[i] + 1;
  }

  lemma FirstAfter(st: Store, pg: Page, h: nat)
    requires pg.cells != []
    ensures After(st, pg, 0, h) != [] && After(st, pg, 0, h)[0] == pg.cells[0].entry
  {
    hide Order;
  }

  /** Keys 1, 2, 10, 20 and 30 make the leaves [1, 2] and [10, 20, 30]: a search for 5 finds nothing,
      although 10 is stored. */
  method SearchMisses() returns (tree: BPlusTree, found: bool)
    ensures fresh(tree) && tree.Valid() && !found
    ensures 10 in tree.Stored()
    ensures exists a, b :: TwoLeaves(tree.pages, tree.root, tree.height, a, b, [1, 2], [10, 20, 30])
  {
    hide Sound, Order, Forest, Reach, Decode, ToMap, KeyNext, OneLeaf, Appended, TwoLeaves, Views;
    tree := new BPlusTree();
    var keys := [1, 2, 10, 20, 30];
    for n := 0 to MAX_KEYS
      invariant fresh(tree) && tree.Valid() && OneLeaf(tree.pages, tree.root, tree.height, keys[..n])
      invariant n > 2 ==> 10 in tree.Stored()
    {
      tree.OneLeafIs(keys[..n], keys[n]);
      tree.Insert(keys[n]);
      AppendedOne(keys, n, tree.pages, tree.root, tree.height);
    }
    tree.OneLeafIs(keys[..MAX_KEYS], keys[MAX_KEYS]);
    tree.Insert(keys[MAX_KEYS]);
    ghost var a, b := AppendedTwo(keys, tree.pages, tree.root, tree.height);
    assert keys[..2] == [1, 2] && keys[2..] == [10, 20, 30];
    GapMissed(tree.pages, tree.root, tree.height, a, b, [1, 2], [10, 20, 30], 5);
    var pid, index;
    found, pid, index := tree.Search(5);
  }

  lemma AnswerFound(x: seq<Entry>, e: Entry, y: seq<Entry>, found: int, key: int)
    requires Sorted(x + [e] + y) && e.key == 2 * found + 1 && key <= found && Below(Decode(x), key)
    ensures var stored := ToMap(Decode(x + [e] + y));
      found in stored && stored[found] == e.payload && forall k :: k in stored && key <= k ==> found <= k
  {
    hide Decode, ToMap, Sorted;
    var d := Entry(found, e.payload);
    DecodeAround(x, e, y);
    DecodeSorted(x + [e] + y);
    var dx, dy := Decode(x), Decode(y);
    assert (2 * found + 1) % 2 == 1 && (2 * found + 1 - 1) / 2 == found;
    SortedAround(dx, d, dy);
    MapAround(dx, d, dy);
    forall k | k in ToMap(dx + [d] + dy) && key <= k ensures found <= k {
      MapKey(dx + [d] + dy, k);
      var z :| z in dx + [d] + dy && z.key == k;
      assert z in dx || z == d || z in dy;
    }
  }

  /** The map after one more insertion of `k`. */
  ghost function WithValue(m: map<int, seq<int>>, k: int): map<int, seq<int>> {
    m[k := (if k in m then m[k] else []) + [k]]
  }

  ghost predicate Counts(m: map<int, seq<int>>, keys: seq<int>) {
    && (forall k :: k in m <==> k in keys)
    && (forall k :: k in keys ==> m[k] == seq(multiset(keys)[k], i => k))
  }

  lemma CountsMore(m: map<int, seq<int>>, keys: seq<int>, k: int)
    requires Counts(m, keys)
    ensures Counts(WithValue(m, k), keys + [k])
  {
    assert forall x :: multiset(keys + [k])[x] == multiset(keys)[x] + if x == k then 1 else 0;
    assert k !in keys ==> multiset(keys)[k] == 0;
  }

  /** The leaf flag, the children and the keys of a node, as its view has them. */
  lemma NodeKind(pages: Nodes, p: PageNumber, h: nat)
    requires AllWellFormed(pages) && p in pages && NodeShape(View(pages[p]), h)
    ensures pages[p].isLeaf <==> h == 0
    ensures !pages[p].isLeaf ==> Children(View(pages[p])) == pages[p].children
    ensures |View(pages[p]).cells| == |pages[p].keys|
  {
    var n := pages[p];
    assert View(n).Child(|n.keys|) == View(n).right;
    if !n.isLeaf {
      assert n.children[|n.keys|] in n.children;
      forall i | 0 <= i <= |n.keys| ensures Children(View(n))[i] == n.children[i] {
      }
    }
  }

  // ---- Steps of a split ----

  lemma CleftParts(pages: Nodes, path: seq<PageNumber>, h: nat, sep: int, right: PageNumber)
    requires Cleft(pages, path, h, sep, right)
    ensures AllWellFormed(pages) && Last(path) in pages && right in pages && Last(path) != right
    ensures IsPath(Unsplit(pages, Last(path), sep, right), path) && |path| <= h + 1
  {
  }

  lemma SoundParts(pages: Nodes, root: PageNumber, h: nat, p: PageNumber)
    requires Sound(pages, root, h, p) && p in pages
    ensures AllWellFormed(pages) && WellFormed(pages[p]) && Forest(Views(pages), [root], h)
  {
  }

  lemma ParentKind(pages: Nodes, up: seq<PageNumber>, h: nat)
    requires AllWellFormed(pages) && up != [] && IsPath(Views(pages), up) && |up| <= h
    requires Forest(Views(pages), [up[0]], h)
    requires Last(up) in pages && !pages[Last(up)].isLeaf
    ensures Children(At(Views(pages), Last(up))) == pages[Last(up)].children
  {
    hide Forest, Reach;
    PathReach(Views(pages), up, h);
    ForestOne(Views(pages), Last(up), h + 1 - |up|);
    NodeKind(pages, Last(up), h + 1 - |up|);
  }

  lemma SoundAgain(pages: Nodes, root: PageNumber, h: nat, p: PageNumber)
    requires Sound(pages, root, h, p) && p in pages && |pages[p].keys| <= MAX_KEYS
    ensures Sound(pages, root, h, 0)
  {
    hide Forest, Reach, Order, Fringe;
  }

  lemma CleftChildren(pages: Nodes, left: PageNumber, sep: int, right: PageNumber)
    ensures Children(At(Unsplit(pages, left, sep, right), left))
      == Children(At(Views(pages), left)) + Children(At(Views(pages), right))
  {
    hide Views, KidsOf, Cat;
    var ps := [At(Views(pages), left), At(Views(pages), right)];
    JoinKids(ps, [Separator(sep)]);
    PairKids(ps[0], ps[1]);
  }

  /** A page keeps its first children when it is cut, so the store as it is is a forest too. */
  lemma CleftForest(pages: Nodes, path: seq<PageNumber>, h: nat, sep: int, right: PageNumber)
    requires Cleft(pages, path, h, sep, right)
    ensures Forest(Views(pages), [path[0]], h) && IsPath(Views(pages), path)
  {
    hide Forest, Reach, Order, Fringe, Cat, Join, KidsOf, IsPath, Views, Unsplit, Replaces, SplitSized, Chained;
    var s, st := Unsplit(pages, Last(path), sep, right), Views(pages);
    PathReach(s, path, h);
    UnsplitRest(pages, Last(path), sep, right);
    CleftHalf(pages, Last(path), sep, right, h + 1 - |path|);
    HalfReplaces(s, st, path, h);
    Graft(s, st, path, h);
  }

  /** Only the page that has been split is another one. */
  lemma UnsplitRest(pages: Nodes, left: PageNumber, sep: int, right: PageNumber)
    requires left in pages && left != right
    ensures Unsplit(pages, left, sep, right).Keys == pages.Keys - {right}
    ensures forall p :: p in Unsplit(pages, left, sep, right) && p != left ==>
      p in Views(pages) && Unsplit(pages, left, sep, right)[p] == Views(pages)[p]
  {
    hide Join;
  }

  lemma HalfReplaces(s: Store, st: Store, path: seq<PageNumber>, h: nat)
    requires path != [] && |path| <= h + 1 && Reach(s, [path[0]], h) <= s.Keys
    requires forall p :: p in s && p != Last(path) ==> p in st && s[p] == st[p]
    requires Reach(st, [Last(path)], h + 1 - |path|) <= Reach(s, [Last(path)], h + 1 - |path|)
    ensures Replaces(s, st, path, h)
  {
    hide Forest, Reach;
    ReachOne(s, Last(path), h + 1 - |path|);
  }

  lemma CleftHalf(pages: Nodes, left: PageNumber, sep: int, right: PageNumber, h: nat)
    requires left in pages && Forest(Unsplit(pages, left, sep, right), [left], h)
    requires forall p :: p in Unsplit(pages, left, sep, right) && p != left ==>
      p in Views(pages) && Unsplit(pages, left, sep, right)[p] == Views(pages)[p]
    ensures Forest(Views(pages), [left], h)
    ensures Reach(Views(pages), [left], h) <= Reach(Unsplit(pages, left, sep, right), [left], h)
  {
    hide Forest, Reach, Order, Fringe, Cat, Join, KidsOf, Unsplit;
    var s, st := Unsplit(pages, left, sep, right), Views(pages);
    ForestOne(s, left, h);
    ReachOne(s, left, h);
    ForestOne(st, left, h);
    ReachOne(st, left, h);
    var a, b := Children(At(st, left)), Children(At(st, right));
    CleftChildren(pages, left, sep, right);
    HalfShape(At(s, left), At(st, left), b, h);
    if h > 0 {
      HalfKids(s, st, left, a, b, h - 1);
    }
  }

  lemma HalfKids(s: Store, st: Store, left: PageNumber, a: seq<PageNumber>, b: seq<PageNumber>, h: nat)
    requires Forest(s, a + b, h) && left !in Reach(s, a + b, h)
    requires forall p :: p in s && p != left ==> p in st && s[p] == st[p]
    ensures Forest(st, a, h) && Reach(st, a, h) == Reach(s, a, h)
    ensures Reach(s, a, h) <= Reach(s, a + b, h)
  {
    hide Forest, Reach;
    ForestConcat(s, a, b, h);
    ReachConcat(s, a, b, h);
    ForestIn(s, a, h);
    Frame(s, st, a, h);
  }

  lemma HalfShape(pg: Page, half: Page, rest: seq<PageNumber>, h: nat)
    requires NodeShape(pg, h) && Children(pg) == Children(half) + rest
    ensures NodeShape(half, h)
  {
    forall i | 0 <= i <= |half.cells| ensures half.Child(i) == pg.Child(i) && i <= |pg.cells| {
      assert |Children(pg)| == |pg.cells| + 1;
      assert half.Child(i) == Children(half)[i] == Children(pg)[i] == pg.Child(i);
    }
  }

  /** The search from the root finds the page above on the path. */
  lemma CleftParent(pages: Nodes, path: seq<PageNumber>, h: nat, sep: int, right: PageNumber, found: bool,
          up: seq<PageNumber>)
    requires Cleft(pages, path, h, sep, right) && Last(path) != path[0]
    requires Forest(Views(pages), [path[0]], h) && IsPath(Views(pages), path)
    requires if found
      then up != [] && IsPath(Views(pages), up) && up[0] == path[0] && |up| <= h
        && Last(path) in Children(At(Views(pages), Last(up)))
      else Last(path) !in Reach(Views(pages), [path[0]], h)
    ensures |path| > 1 && found && up == path[..|path| - 1]
  {
    hide Forest, Reach, Order, Fringe;
    var st := Views(pages);
    PathReach(st, path, h);
    assert Last(path) in path;
    if found {
      PathExtend(st, up, Last(path));
      PathUnique(st, path, up + [Last(path)], h);
    }
  }

  lemma JoinOne(pg: Page)
    ensures Join([pg], []) == pg
  {
    assert [pg][..0] == [] && Cat([], []) == [];
    assert [] + pg.cells == pg.cells;
  }

  lemma UnsplitAt(pages: Nodes, left: PageNumber, sep: int, right: PageNumber, s: Store)
    requires left in pages && right in pages && left != right && s == Unsplit(pages, left, sep, right)
    ensures s.Keys == pages.Keys - {right}
    ensures At(s, left) == Join([View(pages[left]), View(pages[right])], [Separator(sep)])
    ensures forall p :: p in pages && p != left && p != right ==> At(s, p) == View(pages[p])
  {
  }

  /** Entering the new page in a parent, as a redistribution of one page over two. */
  lemma CleftRebalanced(pages: Nodes, pages': Nodes, s: Store, s1: Store, p: PageNumber, left: PageNumber,
          right: PageNumber, sep: int, before: seq<Cell>, tail: Page)
    requires left in pages && right in pages && left != right && s == Unsplit(pages, left, sep, right)
    requires p != left && p != right && p in pages' && pages'.Keys == pages.Keys + {p} && left != 0 && right != 0
    requires forall x :: x in pages && x != p ==> pages'[x] == pages[x]
    requires p in s1 && s1.Keys == s.Keys + {p} && forall x :: x in s && x != p ==> s1[x] == s[x]
    requires s1[p] == Parent(before, [left], [], tail)
    requires View(pages'[p]) == Parent(before, [left, right], [Separator(sep)], tail)
    ensures Rebalanced(s1, Views(pages'), p, before, tail, [left], [], [left, right], [Separator(sep)])
    ensures Views(pages').Keys == s1.Keys + {right} && right !in s1
  {
    hide Parent, Join, View, Unsplit;
    UnsplitAt(pages, left, sep, right, s);
    var s' := Views(pages');
    CleftJoin(pages, pages', s, s1, left, right, sep);
    forall x | x in s1 && x != p && x !in [left] ensures x in s' && s'[x] == s1[x] {
      assert x in s;
    }
    assert forall x :: x in [left, right] ==> x == left || x == right;
  }

  lemma CleftJoin(pages: Nodes, pages': Nodes, s: Store, s1: Store, left: PageNumber, right: PageNumber, sep: int)
    requires left in pages && right in pages && left in pages' && right in pages'
    requires pages'[left] == pages[left] && pages'[right] == pages[right]
    requires At(s, left) == Join([View(pages[left]), View(pages[right])], [Separator(sep)])
    requires At(s1, left) == At(s, left)
    ensures Join(Pages(Views(pages'), [left, right]), [Separator(sep)]) == Join(Pages(s1, [left]), [])
  {
    hide Join, View;
    var s' := Views(pages');
    assert At(s', left) == View(pages[left]) && At(s', right) == View(pages[right]);
    assert Pages(s', [left, right]) == [View(pages[left]), View(pages[right])];
    assert Pages(s1, [left]) == [At(s, left)];
    JoinOne(At(s, left));
  }

  lemma RootSized(pages: Nodes, root: PageNumber, h: nat, top: PageNumber, n: Node)
    requires SplitSized(pages, root, h, root) && top !in pages && |n.keys| == 1
    ensures Sized(pages[top := n], top, h + 1, 0)
  {
  }

  lemma ChainedMore(pages: Nodes, p: PageNumber, n: Node, leaves: seq<PageNumber>)
    requires Chained(pages, leaves) && (p in pages ==> n.next == pages[p].next)
    ensures Chained(pages[p := n], leaves)
  {
  }

  lemma WellFormedMore(pages: Nodes, p: PageNumber, n: Node)
    requires AllWellFormed(pages) && p != 0 && WellFormed(n)
    ensures AllWellFormed(pages[p := n])
  {
  }

  lemma CleftRoot(pages: Nodes, path: seq<PageNumber>, h: nat, sep: int, right: PageNumber, top: PageNumber)
    requires Cleft(pages, path, h, sep, right) && Last(path) == path[0]
    requires top != 0 && top !in pages
    ensures var left := path[0];
      var s, pages' := Unsplit(pages, left, sep, right), pages[top := Node(false, [sep], [left, right], [], 0)];
      && Sound(pages', top, h + 1, 0)
      && Order(Views(pages'), At(Views(pages'), top), h + 1) == Order(s, At(s, left), h)
  {
    hide Forest, Reach, Order, Fringe, Join, Parent, Sized, SplitSized, Chained, AllWellFormed;
    hide Unsplit, InsertAfter, Rebalanced;
    var left := path[0];
    var n1 := Node(false, [sep], [left, right], [], 0);
    var s, pages' := Unsplit(pages, left, sep, right), pages[top := n1];
    UnsplitAt(pages, left, sep, right, s);
    Positive(pages, left, right);
    DiskTree.PathPlace(s, path, h);
    Rooted(s, left, h, top);
    var s1 := s[top := Page([], left)];
    var n := Node(false, [], [left], [], 0);
    ViewEntered(n, 0, sep, left, right);
    assert n.(keys := n.keys[..0] + [sep] + n.keys[0..], children := n.children[..1] + [right] + n.children[1..]) == n1;
    assert View(n) == Page([], left);
    assert View(n).cells[..0] == [] && View(n).cells[0..] == [];
    WellFormedMore(pages, top, n1);
    CleftRebalanced(pages, pages', s, s1, top, left, right, sep, [], Page([], left));
    Mended(s1, Views(pages'), [top, left], h + 1, [], Page([], left), right, Separator(sep));
    RootSized(pages, left, h, top, n1);
    ChainedMore(pages, top, n1, InsertAfter(Fringe(s, [left], h), left, right));
  }

  lemma Positive(pages: Nodes, left: PageNumber, right: PageNumber)
    requires AllWellFormed(pages) && left in pages && right in pages
    ensures left != 0 && right != 0
  {
  }

  lemma EnteredSized(pages: Nodes, root: PageNumber, h: nat, left: PageNumber, p: PageNumber, n: Node)
    requires SplitSized(pages, root, h, left) && p in pages && |n.keys| == |pages[p].keys| + 1 && left != root
    ensures Sized(pages[p := n], root, h, p) && |n.keys| <= MAX_KEYS + 1
  {
  }

  lemma CleftMended(pages: Nodes, path: seq<PageNumber>, h: nat, sep: int, right: PageNumber, idx: nat)
    requires Cleft(pages, path, h, sep, right) && |path| > 1
    requires var p := path[|path| - 2];
      p in pages && !pages[p].isLeaf && idx < |pages[p].children| && pages[p].children[idx] == Last(path)
    ensures var p, s := path[|path| - 2], Unsplit(pages, Last(path), sep, right);
      var n := pages[p];
      idx <= |n.keys| &&
      var pages' := pages[p := n.(keys := n.keys[..idx] + [sep] + n.keys[idx..],
        children := n.children[..idx + 1] + [right] + n.children[idx + 1..])];
      && Sound(pages', path[0], h, p) && |pages'[p].keys| <= MAX_KEYS + 1
      && IsPath(Views(pages'), path[..|path| - 1])
      && Order(Views(pages'), At(Views(pages'), path[0]), h) == Order(s, At(s, path[0]), h)
  {
    hide Forest, Reach, Order, Fringe, Join, Parent, Sized, SplitSized, Chained, AllWellFormed;
    hide Unsplit, InsertAfter, Rebalanced;
    var p, left, s := path[|path| - 2], Last(path), Unsplit(pages, Last(path), sep, right);
    var n := pages[p];
    NodeFormed(pages, p);
    var n1 := n.(keys := n.keys[..idx] + [sep] + n.keys[idx..],
      children := n.children[..idx + 1] + [right] + n.children[idx + 1..]);
    var pages' := pages[p := n1];
    UnsplitAt(pages, left, sep, right, s);
    Positive(pages, left, right);
    Positive(pages, p, right);
    LeafOnce(s, path, h);
    DiskTree.PathBelow(s, path, h);
    ViewEntered(n, idx, sep, left, right);
    var before, tail := View(n).cells[..idx], Page(View(n).cells[idx..], View(n).right);
    WellFormedMore(pages, p, n1);
    CleftRebalanced(pages, pages', s, s, p, left, right, sep, before, tail);
    Mended(s, Views(pages'), path, h, before, tail, right, Separator(sep));
    EnteredSized(pages, path[0], h, left, p, n1);
    ChainedMore(pages, p, n1, InsertAfter(Fringe(s, [path[0]], h), left, right));
  }

  lemma NodeFormed(pages: Nodes, p: PageNumber)
    requires AllWellFormed(pages) && p in pages
    ensures p != 0 && WellFormed(pages[p])
  {
  }

  lemma CutSized(pages: Nodes, root: PageNumber, h: nat, p: PageNumber, q: PageNumber, a: Node, b: Node)
    requires Sized(pages, root, h, p) && q !in pages && 2 <= |a.keys| <= MAX_KEYS && 2 <= |b.keys| <= MAX_KEYS
    ensures SplitSized(pages[q := b][p := a], root, h, p)
  {
  }

  /** Cutting an internal page around its middle key. */
  lemma CutInternal(pages: Nodes, pages': Nodes, path: seq<PageNumber>, h: nat, root: PageNumber, mid: nat,
          q: PageNumber)
    requires path != [] && IsPath(Views(pages), path) && path[0] == root && |path| <= h + 1
    requires Sound(pages, root, h, Last(path)) && Last(path) in pages && !pages[Last(path)].isLeaf
    requires |pages[Last(path)].keys| == MAX_KEYS + 1 && mid == 2 && q !in pages && q != 0
    requires var n := pages[Last(path)];
      pages' == pages[q := Node(false, n.keys[mid + 1..], n.children[mid + 1..], [], 0)]
                     [Last(path) := n.(keys := n.keys[..mid], children := n.children[..mid + 1])]
    ensures Cleft(pages', path, h, pages[Last(path)].keys[mid], q)
    ensures Unsplit(pages', Last(path), pages[Last(path)].keys[mid], q) == Views(pages)
  {
    hide Forest, Reach, Order, Fringe, Join, Sized, SplitSized, Chained, AllWellFormed;
    var pid := Last(path);
    var n := pages[pid];
    NodeFormed(pages, pid);
    var sep, a, b := n.keys[mid], pages'[pid], pages'[q];
    ViewCut(n, a, b, mid);
    WellFormedMore(pages, q, b);
    WellFormedMore(pages[q := b], pid, a);
    CutSized(pages, root, h, pid, q, a, b);
    var s := Unsplit(pages', pid, sep, q);
    UnsplitAt(pages', pid, sep, q, s);
    assert s == Views(pages);
    FringeLeaves(s, [root], h);
    assert View(n).right == n.children[|n.keys|] && n.children[|n.keys|] in n.children;
    assert pid !in Fringe(s, [root], h);
    ChainedMore(pages, q, b, Fringe(s, [root], h));
    ChainedMore(pages[q := b], pid, a, Fringe(s, [root], h));
  }

  /** Cutting a leaf in two. */
  lemma CutLeaf(pages: Nodes, pages': Nodes, path: seq<PageNumber>, h: nat, root: PageNumber, mid: nat, q: PageNumber)
    requires path != [] && IsPath(Views(pages), path) && path[0] == root && |path| == h + 1
    requires Sound(pages, root, h, Last(path)) && Last(path) in pages && pages[Last(path)].isLeaf
    requires |pages[Last(path)].keys| == MAX_KEYS + 1 && mid == 2 && q !in pages && q != 0
    requires var n := pages[Last(path)];
      pages' == pages[q := Node(true, n.keys[mid..], [], n.values[mid..], n.next)]
                     [Last(path) := n.(keys := n.keys[..mid], values := n.values[..mid], next := q)]
    ensures Cleft(pages', path, h, pages[Last(path)].keys[mid], q)
    ensures var s := Unsplit(pages', Last(path), pages[Last(path)].keys[mid], q);
      Decode(Order(s, At(s, root), h)) == Decode(Order(Views(pages), At(Views(pages), root), h))
  {
    hide Forest, Reach, Order, Fringe, Join, Decode, Sized, SplitSized, Chained, AllWellFormed;
    hide InsertAfter, Sorted, View, Views, Unsplit;
    var pid := Last(path);
    var n := pages[pid];
    NodeFormed(pages, pid);
    var sep, a, b := n.keys[mid], pages'[pid], pages'[q];
    ViewCutLeaf(n, a, b, mid);
    WellFormedMore(pages, q, b);
    WellFormedMore(pages[q := b], pid, a);
    CutSized(pages, root, h, pid, q, a, b);
    var st, s := Views(pages), Unsplit(pages', pid, sep, q);
    CutLeafStore(pages, pages', pid, mid, q);
    CutLeafShape(st, s, path, h, n, mid, pages.Keys);
    FringeLeaves(st, [root], h);
    PathReach(st, path, h);
    LeafOrNot(st, pid, 0);
    assert pid in path;
    CutChain(pages, pages', Fringe(st, [root], h), pid, q);
  }

  lemma CutLeafStore(pages: Nodes, pages': Nodes, pid: PageNumber, mid: nat, q: PageNumber)
    requires AllWellFormed(pages) && pid in pages && pages[pid].isLeaf && mid < |pages[pid].keys| && q !in pages
    requires var n := pages[pid];
      pages' == pages[q := Node(true, n.keys[mid..], [], n.values[mid..], n.next)]
                     [pid := n.(keys := n.keys[..mid], values := n.values[..mid], next := q)]
    ensures At(Views(pages), pid) == View(pages[pid]) && mid < |View(pages[pid]).cells|
    ensures var cells, sep := View(pages[pid]).cells, pages[pid].keys[mid];
      Unsplit(pages', pid, sep, q)
        == Views(pages)[pid := Page(cells[..mid] + [Cell(Separator(sep), 0)] + cells[mid..], 0)]
  {
    hide Join;
    ViewCutLeaf(pages[pid], pages'[pid], pages'[q], mid);
    UnsplitAt(pages', pid, pages[pid].keys[mid], q, Unsplit(pages', pid, pages[pid].keys[mid], q));
  }

  lemma CutLeafShape(st: Store, s: Store, path: seq<PageNumber>, h: nat, n: Node, mid: nat, all: set<PageNumber>)
    requires path != [] && IsPath(st, path) && |path| == h + 1 && Shape(st, path[0], h, all)
    requires WellFormed(n) && n.isLeaf && At(st, Last(path)) == View(n) && 0 < mid < |n.keys|
    requires var cells := View(n).cells;
      s == st[Last(path) := Page(cells[..mid] + [Cell(Separator(n.keys[mid]), 0)] + cells[mid..], 0)]
    requires Last(path) in st
    ensures IsPath(s, path) && Shape(s, path[0], h, all)
    ensures Decode(Order(s, At(s, path[0]), h)) == Decode(Order(st, At(st, path[0]), h))
    ensures Fringe(s, [path[0]], h) == Fringe(st, [path[0]], h)
  {
    hide Forest, Reach, Order, Fringe, Before, Beyond, Decode, Sorted;
    var cells, sep := View(n).cells, n.keys[mid];
    assert View(n).right == 0;
    InsertLeaf(st, path, h, mid, Separator(sep));
    SeparatorFits(st, path, h, n, mid);
    var x, y := Before(st, path, h) + Entries(cells[..mid]), Entries(cells[mid..]) + Beyond(st, path, h);
    InsertedMap(x, Separator(sep), y);
    DecodeAround(x, Separator(sep), y);
    DecodeConcat(x, y);
    CutFringe(st, s, path, h);
  }

  /** The separator goes where the leaf is cut. */
  lemma SeparatorFits(st: Store, path: seq<PageNumber>, h: nat, n: Node, mid: nat)
    requires path != [] && IsPath(st, path) && |path| == h + 1 && Forest(st, [path[0]], h)
    requires Sorted(Order(st, At(st, path[0]), h))
    requires WellFormed(n) && n.isLeaf && At(st, Last(path)) == View(n) && 0 < mid < |n.keys|
    ensures var cells := View(n).cells;
      && Below(Before(st, path, h) + Entries(cells[..mid]), 2 * n.keys[mid])
      && Above(2 * n.keys[mid], Entries(cells[mid..]) + Beyond(st, path, h))
  {
    hide Forest, Reach, Order, Before, Beyond, Sorted;
    var cells, a, b := View(n).cells, Before(st, path, h), Beyond(st, path, h);
    RemoveLeaf(st, path, h, mid);
    LeafKeys(st, path, h, n, mid);
    assert Entries(cells[..mid]) == Entries(cells[..mid - 1]) + [cells[mid - 1].entry];
    assert Entries(cells[mid..]) == [cells[mid].entry] + Entries(cells[mid + 1..]);
    var x, y := a + Entries(cells[..mid]), Entries(cells[mid..]) + b;
    assert x + y == x + [cells[mid].entry] + (Entries(cells[mid + 1..]) + b);
    assert x == (a + Entries(cells[..mid - 1])) + [cells[mid - 1].entry];
    assert y == [cells[mid].entry] + (Entries(cells[mid + 1..]) + b);
    MiddleKey(x, cells[mid].entry, y, cells[mid - 1].entry, n.keys[mid], a + Entries(cells[..mid - 1]),
      Entries(cells[mid + 1..]) + b);
  }

  /** The keys of a leaf are sorted, and so are their places among the entries. */
  lemma LeafKeys(st: Store, path: seq<PageNumber>, h: nat, n: Node, mid: nat)
    requires path != [] && IsPath(st, path) && |path| == h + 1 && Forest(st, [path[0]], h)
    requires Sorted(Order(st, At(st, path[0]), h))
    requires WellFormed(n) && n.isLeaf && At(st, Last(path)) == View(n)
    ensures forall i, j :: 0 <= i < j < |n.keys| ==> n.keys[i] < n.keys[j]
  {
    hide Forest, Reach, Before, Beyond, Order;
    PathOrder(st, path, h);
    SortedConcat(Before(st, path, h) + Order(st, At(st, Last(path)), 0), Beyond(st, path, h));
    SortedConcat(Before(st, path, h), Order(st, At(st, Last(path)), 0));
    CellsSorted(st, View(n), 0);
    forall i, j | 0 <= i < j < |n.keys| ensures n.keys[i] < n.keys[j] {
      assert View(n).cells[i].entry.key < View(n).cells[j].entry.key;
    }
  }

  /** The separator `k` fits just before key `k`. */
  lemma MiddleKey(x: seq<Entry>, e: Entry, y: seq<Entry>, d: Entry, k: int, x0: seq<Entry>, y0: seq<Entry>)
    requires x == x0 + [d] && y == [e] + y0 && Sorted(x + y)
    requires e.key == 2 * k + 1 && d.key < 2 * k
    ensures Below(x, 2 * k) && Above(2 * k, y)
  {
    SortedConcat(x, y);
    SortedConcat(x0, [d]);
    SortedConcat([e], y0);
    assert d in [d] && e in [e];
  }

  lemma CutFringe(st: Store, s: Store, path: seq<PageNumber>, h: nat)
    requires path != [] && IsPath(st, path) && IsPath(s, path) && |path| == h + 1 && Forest(st, [path[0]], h)
    requires s.Keys == st.Keys && forall p :: p in st && p != Last(path) ==> s[p] == st[p]
    ensures Fringe(s, [path[0]], h) == Fringe(st, [path[0]], h)
  {
    hide Forest, Reach, Fringe, FringeBefore, FringeBeyond;
    ReachOne(st, Last(path), 0);
    ReachOne(s, Last(path), 0);
    ForestIn(st, [path[0]], h);
    GraftFringe(st, s, path, h);
    PathFringe(st, path, h);
    PathFringe(s, path, h);
    FringeOne(st, Last(path), 0);
    FringeOne(s, Last(path), 0);
  }

  lemma CutChain(pages: Nodes, pages': Nodes, leaves: seq<PageNumber>, pid: PageNumber, q: PageNumber)
    requires Chained(pages, leaves) && Distinct(leaves) && pid in leaves && q !in pages
    requires pid in pages && q in pages' && pid in pages' && pages'[q].next == pages[pid].next && pages'[pid].next == q
    requires forall p :: p in pages && p != pid ==> p in pages' && pages'[p].next == pages[p].next
    ensures Chained(pages', InsertAfter(leaves, pid, q))
  {
    var i := IndexOf(leaves, pid);
    var s := InsertAfter(leaves, pid, q);
    assert pid == leaves[i] && pid in pages;
    assert q != pid;
    assert |s| == |leaves| + 1;
    forall j | 0 <= j < |s| ensures s[j] in pages' && pages'[s[j]].next == Successor(s, j) {
      if j < i {
        assert s[j] == leaves[j] && s[j + 1] == leaves[j + 1] && leaves[j] != leaves[i];
        assert pages'[leaves[j]].next == pages[leaves[j]].next;
      } else if j == i {
        assert s[j] == pid && s[j + 1] == q;
      } else if j == i + 1 {
        assert s[j] == q && (j + 1 < |s| ==> s[j + 1] == leaves[i + 1]);
        assert pages[leaves[i]].next == Successor(leaves, i);
      } else {
        assert s[j] == leaves[j - 1] && leaves[j - 1] != leaves[i] && (j + 1 < |s| ==> s[j + 1] == leaves[j]);
        assert pages'[leaves[j - 1]].next == pages[leaves[j - 1]].next;
      }
    }
  }

  // ---- Going down, and the leaf ----

  /** The page at the end of a path, as a node of its height with sorted keys. */
  lemma AtNode(pages: Nodes, root: PageNumber, h: nat, path: seq<PageNumber>)
    requires Sound(pages, root, h, 0) && path != [] && IsPath(Views(pages), path) && path[0] == root && |path| <= h + 1
    ensures var p := Last(path);
      && p in pages && WellFormed(pages[p]) && (pages[p].isLeaf <==> |path| == h + 1)
      && (forall i, j :: 0 <= i < j < |pages[p].keys| ==> pages[p].keys[i] < pages[p].keys[j])
      && |View(pages[p]).cells| == |pages[p].keys| <= MAX_KEYS
      && (!pages[p].isLeaf ==> Children(View(pages[p])) == pages[p].children)
      && p != 0
  {
    hide Forest, Reach, Before, Beyond, Order, Fringe, View;
    var st, p, hq := Views(pages), Last(path), h + 1 - |path|;
    PathReach(st, path, h);
    ForestOne(st, p, hq);
    assert p in path;
    NodeKind(pages, p, hq);
    PathOrder(st, path, h);
    SortedConcat(Before(st, path, h) + Order(st, At(st, p), hq), Beyond(st, path, h));
    SortedConcat(Before(st, path, h), Order(st, At(st, p), hq));
    CellsSorted(st, At(st, p), hq);
    ViewKeys(pages[p]);
  }

  lemma ViewKeys(n: Node)
    requires WellFormed(n) && SortedCells(View(n).cells)
    ensures forall i, j :: 0 <= i < j < |n.keys| ==> n.keys[i] < n.keys[j]
  {
    forall i, j | 0 <= i < j < |n.keys| ensures n.keys[i] < n.keys[j] {
      assert View(n).cells[i].entry.key < View(n).cells[j].entry.key;
    }
  }

  /** One more step of a path, at its end. */
  lemma {:induction false} StepBounds(st: Store, path: seq<PageNumber>, h: nat, p: PageNumber)
    requires path != [] && IsPath(st, path) && IsPath(st, path + [p]) && |path| <= h
    requires p in Children(At(st, Last(path)))
    ensures var pg, hq := At(st, Last(path)), h + 1 - |path|;
      var i := IndexOf(Children(pg), p);
      && i <= |pg.cells|
      && Before(st, path + [p], h) == Before(st, path, h) + Flat(st, pg.cells[..i], hq)
      && Beyond(st, path + [p], h) == After(st, pg, i, hq) + Beyond(st, path, h)
    decreases |path|
  {
    hide Flat, After, IndexOf, Before, Beyond, Children, At;
    SidesStep(st, path + [p], h);
    if |path| > 1 {
      assert (path + [p])[1..] == path[1..] + [p];
      SidesStep(st, path, h);
      StepBounds(st, path[1..], h - 1, p);
    } else {
      assert (path + [p])[1..] == [p];
      SidesEnd(st, path, h);
      SidesEnd(st, [p], h - 1);
    }
  }

  lemma SidesStep(st: Store, path: seq<PageNumber>, h: nat)
    requires IsPath(st, path) && 1 < |path| <= h + 1
    ensures var pg := At(st, path[0]);
      var i := IndexOf(Children(pg), path[1]);
      && i <= |pg.cells|
      && Before(st, path, h) == Flat(st, pg.cells[..i], h) + Before(st, path[1..], h - 1)
      && Beyond(st, path, h) == Beyond(st, path[1..], h - 1) + After(st, pg, i, h)
  {
  }

  lemma SidesEnd(st: Store, path: seq<PageNumber>, h: nat)
    requires IsPath(st, path) && |path| == 1
    ensures Before(st, path, h) == [] && Beyond(st, path, h) == []
  {
  }

  lemma StepDown(pages: Nodes, root: PageNumber, h: nat, path: seq<PageNumber>, i: nat, key: int)
    requires Sound(pages, root, h, 0) && path != [] && IsPath(Views(pages), path) && path[0] == root && |path| <= h
    requires Below(Before(Views(pages), path, h), 2 * key + 1) && Above(2 * key + 1, Beyond(Views(pages), path, h))
    requires Last(path) in pages && WellFormed(pages[Last(path)]) && !pages[Last(path)].isLeaf
    requires Children(View(pages[Last(path)])) == pages[Last(path)].children && i <= |pages[Last(path)].keys|
    requires forall j :: 0 <= j < i ==> pages[Last(path)].keys[j] <= key
    requires forall j :: i <= j < |pages[Last(path)].keys| ==> key < pages[Last(path)].keys[j]
    ensures var path' := path + [pages[Last(path)].children[i]];
      && IsPath(Views(pages), path')
      && Below(Before(Views(pages), path', h), 2 * key + 1) && Above(2 * key + 1, Beyond(Views(pages), path', h))
  {
    hide Forest, Reach, Before, Beyond, Order, Fringe, Sized, Chained, AllWellFormed, Sorted, IsPath;
    var n := pages[Last(path)];
    var pg := View(n);
    assert Children(pg)[i] == pg.Child(i);
    forall j | 0 <= j < |pg.cells| ensures pg.cells[j].entry.key == 2 * n.keys[j] { }
    StepBetween(Views(pages), path, h, i, 2 * key + 1);
  }

  lemma StepBetween(st: Store, path: seq<PageNumber>, h: nat, i: nat, e: int)
    requires path != [] && IsPath(st, path) && |path| <= h && Forest(st, [path[0]], h)
    requires Sorted(Order(st, At(st, path[0]), h))
    requires Below(Before(st, path, h), e) && Above(e, Beyond(st, path, h))
    requires i <= |At(st, Last(path)).cells|
    requires forall j :: 0 <= j < i ==> At(st, Last(path)).cells[j].entry.key < e
    requires forall j :: i <= j < |At(st, Last(path)).cells| ==> e < At(st, Last(path)).cells[j].entry.key
    ensures var path' := path + [At(st, Last(path)).Child(i)];
      IsPath(st, path') && Below(Before(st, path', h), e) && Above(e, Beyond(st, path', h))
  {
    hide Forest, Reach, Before, Beyond, Order, Flat, After, Sorted, IsPath;
    var p, hq := Last(path), h + 1 - |path|;
    var pg := At(st, p);
    assert Children(pg)[i] == pg.Child(i);
    PathReach(st, path, h);
    PathExtend(st, path, pg.Child(i));
    DiskTree.ChildOnce(st, p, i, hq);
    StepBounds(st, path, h, pg.Child(i));
    PathOrder(st, path, h);
    SortedConcat(Before(st, path, h) + Order(st, pg, hq), Beyond(st, path, h));
    SortedConcat(Before(st, path, h), Order(st, pg, hq));
    DescendBounds(st, pg, i, hq, e);
  }

  /** One more value under a key that is there. */
  lemma AppendValue(pages: Nodes, root: PageNumber, h: nat, path: seq<PageNumber>, idx: nat)
    requires Sound(pages, root, h, 0) && path != [] && IsPath(Views(pages), path) && path[0] == root && |path| == h + 1
    requires Last(path) in pages && pages[Last(path)].isLeaf && WellFormed(pages[Last(path)])
    requires idx < |pages[Last(path)].keys|
    ensures var n, st := pages[Last(path)], Views(pages);
      var k := n.keys[idx];
      var pages' := pages[Last(path) := n.(values := n.values[idx := n.values[idx] + [k]])];
      && Sound(pages', root, h, Last(path))
      && ToMap(Decode(Order(Views(pages'), At(Views(pages'), root), h)))
        == WithValue(ToMap(Decode(Order(st, At(st, root), h))), k)
  {
    hide Forest, Reach, Before, Beyond, Order, Fringe, Flat, Decode, ToMap, Sorted, Sized, Chained;
    hide AllWellFormed, Preceding, Following;
    var p, n, st := Last(path), pages[Last(path)], Views(pages);
    NodeFormed(pages, p);
    var k := n.keys[idx];
    var n1 := n.(values := n.values[idx := n.values[idx] + [k]]);
    var e := Entry(2 * k + 1, n.values[idx] + [k]);
    assert View(n1) == WithEntry(View(n), idx, e);
    EditEntry(st, path, h, idx, e);
    CellPlace(st, path, h, idx);
    var x, y := Preceding(st, path, h, idx), Following(st, path, h, idx);
    ReplacedMap(x, View(n).cells[idx].entry, e, y);
    DecodeAround(x, e, y);
    DecodeAround(x, View(n).cells[idx].entry, y);
    DecodeSorted(x + [View(n).cells[idx].entry] + y);
    DecodeSorted(x + [e] + y);
    var dx, dy := Decode(x), Decode(y);
    assert (2 * k + 1) % 2 == 1 && (2 * k + 1 - 1) / 2 == k;
    ReplacedMap(dx, Entry(k, n.values[idx]), Entry(k, n.values[idx] + [k]), dy);
    RemovedMap(dx, Entry(k, n.values[idx]), dy);
    WellFormedMore(pages, p, n1);
    ZeroOut(pages);
    KeptSized(pages, root, h, p, n1);
    ChainedMore(pages, p, n1, Fringe(st, [root], h));
    SameFringe(st, path, h, View(n1));
    assert Views(pages[p := n1]) == st[p := View(n1)];
  }

  lemma KeptSized(pages: Nodes, root: PageNumber, h: nat, p: PageNumber, n: Node)
    requires Sized(pages, root, h, 0) && p in pages && |pages[p].keys| <= |n.keys| <= |pages[p].keys| + 1 && 0 !in pages
    ensures Sized(pages[p := n], root, h, p) && |n.keys| <= MAX_KEYS + 1
  {
  }

  lemma SameFringe(st: Store, path: seq<PageNumber>, h: nat, pg: Page)
    requires path != [] && IsPath(st, path) && |path| == h + 1 && Forest(st, [path[0]], h) && Last(path) in st
    requires IsPath(st[Last(path) := pg], path)
    ensures Fringe(st[Last(path) := pg], [path[0]], h) == Fringe(st, [path[0]], h)
  {
    CutFringe(st, st[Last(path) := pg], path, h);
  }

  /** A new key in a leaf, with its first value. */
  lemma AddKey(pages: Nodes, root: PageNumber, h: nat, path: seq<PageNumber>, idx: nat, k: int)
    requires Sound(pages, root, h, 0) && path != [] && IsPath(Views(pages), path) && path[0] == root && |path| == h + 1
    requires Below(Before(Views(pages), path, h), 2 * k + 1) && Above(2 * k + 1, Beyond(Views(pages), path, h))
    requires Last(path) in pages && WellFormed(pages[Last(path)]) && pages[Last(path)].isLeaf
    requires idx <= |pages[Last(path)].keys|
    requires forall j :: 0 <= j < idx ==> pages[Last(path)].keys[j] < k
    requires forall j :: idx <= j < |pages[Last(path)].keys| ==> k < pages[Last(path)].keys[j]
    ensures var n, st := pages[Last(path)], Views(pages);
      var pages' := pages[Last(path) := n.(keys := n.keys[..idx] + [k] + n.keys[idx..],
        values := n.values[..idx] + [[k]] + n.values[idx..])];
      && Sound(pages', root, h, Last(path))
      && IsPath(Views(pages'), path)
      && |pages'[Last(path)].keys| <= MAX_KEYS + 1
      && ToMap(Decode(Order(Views(pages'), At(Views(pages'), root), h)))
        == WithValue(ToMap(Decode(Order(st, At(st, root), h))), k)
  {
    hide Forest, Reach, Before, Beyond, Order, Fringe, Flat, Decode, ToMap, Sorted, Sized, Chained;
    hide AllWellFormed, WithValue;
    var p, n, st := Last(path), pages[Last(path)], Views(pages);
    NodeFormed(pages, p);
    var n1 := n.(keys := n.keys[..idx] + [k] + n.keys[idx..], values := n.values[..idx] + [[k]] + n.values[idx..]);
    var e, cells := Entry(2 * k + 1, [k]), View(n).cells;
    assert View(n1) == Page(cells[..idx] + [Cell(e, 0)] + cells[idx..], 0);
    AddEntry(st, path, h, idx, k);
    WellFormedMore(pages, p, n1);
    ZeroOut(pages);
    KeptSized(pages, root, h, p, n1);
    ChainedMore(pages, p, n1, Fringe(st, [root], h));
    SameFringe(st, path, h, View(n1));
    assert Views(pages[p := n1]) == st[p := View(n1)];
  }

  lemma AddEntry(st: Store, path: seq<PageNumber>, h: nat, idx: nat, k: int)
    requires path != [] && IsPath(st, path) && |path| == h + 1 && Forest(st, [path[0]], h)
    requires Sorted(Order(st, At(st, path[0]), h))
    requires Below(Before(st, path, h), 2 * k + 1) && Above(2 * k + 1, Beyond(st, path, h))
    requires idx <= |At(st, Last(path)).cells|
    requires forall j :: 0 <= j < idx ==> At(st, Last(path)).cells[j].entry.key < 2 * k + 1
    requires forall j :: idx <= j < |At(st, Last(path)).cells| ==> 2 * k + 1 < At(st, Last(path)).cells[j].entry.key
    ensures var cells := At(st, Last(path)).cells;
      var st' := st[Last(path) := Page(cells[..idx] + [Cell(Entry(2 * k + 1, [k]), 0)] + cells[idx..],
        At(st, Last(path)).right)];
      && IsPath(st', path) && Forest(st', [path[0]], h) && Reach(st', [path[0]], h) == Reach(st, [path[0]], h)
      && Sorted(Order(st', At(st', path[0]), h))
      && ToMap(Decode(Order(st', At(st', path[0]), h))) == WithValue(ToMap(Decode(Order(st, At(st, path[0]), h))), k)
  {
    hide Forest, Reach, Before, Beyond, Order, Flat, Decode, ToMap, Sorted;
    var e, cells := Entry(2 * k + 1, [k]), At(st, Last(path)).cells;
    InsertLeaf(st, path, h, idx, e);
    LeafSides(st, path, h, idx, 2 * k + 1);
    var x, y := Before(st, path, h) + Entries(cells[..idx]), Entries(cells[idx..]) + Beyond(st, path, h);
    InsertedMap(x, e, y);
    DecodeAround(x, e, y);
    DecodeConcat(x, y);
    DecodeSorted(x + y);
    DecodeBounds(x, k);
    DecodeBounds(y, k);
    var dx, dy := Decode(x), Decode(y);
    assert (2 * k + 1) % 2 == 1 && (2 * k + 1 - 1) / 2 == k;
    InsertedMap(dx, Entry(k, [k]), dy);
    MapMissing(dx, k, dy);
    assert [] + [k] == [k];
  }

  lemma ZeroOut(pages: Nodes)
    requires AllWellFormed(pages)
    ensures 0 !in pages
  {
  }

  // ---- How many keys a tree of some height must hold ----

  ghost function Pow3(n: nat): nat {
    if n == 0 then 1 else 3 * Pow3(n - 1)
  }

  lemma {:induction false} MapSize(s: seq<Entry>)
    requires Sorted(s)
    ensures |ToMap(s)| == |s|
  {
    if s != [] {
      var n := |s| - 1;
      assert s == s[..n] + [s[n]];
      SortedConcat(s[..n], [s[n]]);
      MapSize(s[..n]);
      MapKey(s[..n], s[n].key);
      assert s[n] in [s[n]];
      var m := ToMap(s[..n]);
      assert m[s[n].key := s[n].payload].Keys == m.Keys + {s[n].key};
      assert |m| == |m.Keys|;
    }
  }

  lemma {:induction false} FlatCount(st: Store, cells: seq<Cell>, h: nat, m: nat)
    requires forall i :: 0 <= i < |cells| ==>
      cells[i].entry.key % 2 == 0 && |Decode(SubOrder(st, cells[i].left, h))| >= m
    ensures |Decode(Flat(st, cells, h))| >= |cells| * m
    decreases |cells|
  {
    if cells != [] {
      hide Decode, SubOrder;
      FlatCount(st, cells[1..], h, m);
      DecodeAround(SubOrder(st, cells[0].left, h), cells[0].entry, Flat(st, cells[1..], h));
      assert |cells| * m == (|cells| - 1) * m + m;
    }
  }

  /** A node of height `h` with its children: two keys a leaf, three children a node. */
  lemma {:induction false} CountBelow(pages: Nodes, p: PageNumber, h: nat)
    requires AllWellFormed(pages) && Forest(Views(pages), [p], h)
    requires forall q :: q in Reach(Views(pages), [p], h) ==> q in pages && |pages[q].keys| >= MIN_KEYS
    ensures |Decode(Order(Views(pages), At(Views(pages), p), h))| >= 2 * Pow3(h)
    decreases h, 0
  {
    hide Forest, Reach, Order, Decode;
    ReachHas(Views(pages), [p], 0, h);
    if h == 0 {
      LeafCount(pages, p);
    } else {
      CountChildren(pages, p, h);
      var n := |pages[p].keys| + 1;
      DiskTree.Distribution.MulMono(3, n, 2 * Pow3(h - 1));
    }
  }

  lemma {:induction false} LeafCount(pages: Nodes, p: PageNumber)
    requires AllWellFormed(pages) && Forest(Views(pages), [p], 0) && p in pages
    ensures |Decode(Order(Views(pages), At(Views(pages), p), 0))| == |pages[p].keys|
  {
    hide Decode;
    var st, pg := Views(pages), View(pages[p]);
    ForestOne(st, p, 0);
    NodeKind(pages, p, 0);
    FlatLeaf(st, pg.cells);
    assert Order(st, pg, 0) == Entries(pg.cells);
    OddCount(Entries(pg.cells));
  }

  lemma {:induction false} OddCount(s: seq<Entry>)
    requires forall i :: 0 <= i < |s| ==> s[i].key % 2 == 1
    ensures |Decode(s)| == |s|
    decreases |s|
  {
    if s != [] {
      OddCount(s[1..]);
    }
  }

  lemma {:induction false} CountChildren(pages: Nodes, p: PageNumber, h: nat)
    requires h > 0 && AllWellFormed(pages) && Forest(Views(pages), [p], h) && p in pages
    requires forall q :: q in Reach(Views(pages), [p], h) && q != p ==> q in pages && |pages[q].keys| >= MIN_KEYS
    ensures |Decode(Order(Views(pages), At(Views(pages), p), h))| >= (|pages[p].keys| + 1) * (2 * Pow3(h - 1))
    decreases h - 1, 1
  {
    hide Forest, Reach, Decode, Flat, Pow3;
    var st, pg, m := Views(pages), View(pages[p]), 2 * Pow3(h - 1);
    ForestOne(st, p, h);
    ReachOne(st, p, h);
    NodeKind(pages, p, h);
    var kids := Children(pg);
    forall i | 0 <= i <= |pg.cells| ensures |Decode(SubOrder(st, pg.Child(i), h))| >= m {
      assert kids[i] == pg.Child(i);
      ForestSplit(st, kids, i, h - 1);
      CountBelow(pages, kids[i], h - 1);
    }
    forall i | 0 <= i < |pg.cells|
      ensures pg.cells[i].entry.key % 2 == 0 && |Decode(SubOrder(st, pg.cells[i].left, h))| >= m
    {
      assert pg.cells[i].left == pg.Child(i);
    }
    FlatCount(st, pg.cells, h, m);
    DecodeConcat(Flat(st, pg.cells, h), SubOrder(st, pg.right, h));
    assert pg.right == pg.Child(|pg.cells|);
    assert (|pages[p].keys| + 1) * m == |pages[p].keys| * m + m;
  }

  /** A tree of height `h` above its leaves stores at least 4 * 3^(h-1) keys. */
  lemma ManyKeys(pages: Nodes, root: PageNumber, h: nat)
    requires Sound(pages, root, h, 0) && h >= 1
    ensures |ToMap(Decode(Order(Views(pages), At(Views(pages), root), h)))| >= 4 * Pow3(h - 1)
  {
    hide Forest, Reach, Order, Decode, ToMap, Fringe;
    CountChildren(pages, root, h);
    DiskTree.Distribution.MulMono(2, |pages[root].keys| + 1, 2 * Pow3(h - 1));
    DecodeSorted(Order(Views(pages), At(Views(pages), root), h));
    MapSize(Decode(Order(Views(pages), At(Views(pages), root), h)));
  }
}
