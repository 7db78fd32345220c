/** Trees of pages, as both B-trees of the experiments keep them, and what a store of pages means.

    A page is a list of cells, each with the number of the child to its left, and the number of
    the rightmost child; page number 0 stands for "no child", so a leaf has right child 0.  A store
    is a finite map from page numbers to pages.  Nothing here is a tree datatype: a tree is a page
    number, a height and a store. */
module PageTrees {

  type PageNumber = nat

  /** What is stored under a key: bytes, or a list of values. */
  type Payload = seq<int>

  /** The content of a cell: its place under the comparator, and what is stored there. */
  datatype Entry = Entry(key: int, payload: Payload)

  datatype Cell = Cell(entry: Entry, left: PageNumber)

  datatype Page = Page(cells: seq<Cell>, right: PageNumber) {
    predicate IsLeaf() { right == 0 }

    function Child(i: nat): PageNumber
      requires i <= |cells|
    {
      if i == |cells| then right else cells[i].left
    }
  }

  const EMPTY_PAGE := Page([], 0)

  type Store = map<PageNumber, Page>

  function At(st: Store, p: PageNumber): Page {
    if p in st then st[p] else EMPTY_PAGE
  }

  function Entries(cells: seq<Cell>): seq<Entry> {
    seq(|cells|, i requires 0 <= i < |cells| => cells[i].entry)
  }

  function Lefts(cells: seq<Cell>): seq<PageNumber> {
    seq(|cells|, i requires 0 <= i < |cells| => cells[i].left)
  }

  function Children(pg: Page): seq<PageNumber> {
    Lefts(pg.cells) + [pg.right]
  }

  // ---- The three meanings of a store: reachable pages, shape, in-order entries ----

  /** Pages reachable from `ps`, each the root of a tree of height `h`. */
  ghost function Reach(st: Store, ps: seq<PageNumber>, h: nat): set<PageNumber>
    decreases h, |ps|
  {
    if ps == [] then {}
    else
      {ps[0]} + (if h == 0 then {} else Reach(st, Children(At(st, ps[0])), h - 1)) + Reach(st, ps[1..], h)
  }

  /** `pg` is a node of height `h`, its children aside. */
  ghost predicate NodeShape(pg: Page, h: nat) {
    if h == 0 then forall i :: 0 <= i <= |pg.cells| ==> pg.Child(i) == 0
    else forall i :: 0 <= i <= |pg.cells| ==> pg.Child(i) != 0
  }

  /** `ps` are the roots of trees of height `h`, every leaf at depth `h`, no page reachable twice. */
  ghost predicate Forest(st: Store, ps: seq<PageNumber>, h: nat)
    decreases h, |ps|
  {
    ps == [] ||
    (&& ps[0] in st
     && NodeShape(st[ps[0]], h)
     && (h > 0 ==> Forest(st, Children(st[ps[0]]), h - 1) && ps[0] !in Reach(st, Children(st[ps[0]]), h - 1))
     && Forest(st, ps[1..], h)
     && Reach(st, [ps[0]], h) !! Reach(st, ps[1..], h))
  }

  /** Entries of the subtree below child `p` of a node of height `h`. */
  ghost function SubOrder(st: Store, p: PageNumber, h: nat): seq<Entry>
    decreases h, 0, 1
  {
    if h == 0 then [] else Order(st, At(st, p), h - 1)
  }

  /** For each cell: the entries of its left subtree, then its own. */
  ghost function Flat(st: Store, cells: seq<Cell>, h: nat): seq<Entry>
    decreases h, |cells|, 2
  {
    if cells == [] then []
    else SubOrder(st, cells[0].left, h) + [cells[0].entry] + Flat(st, cells[1..], h)
  }

  /** In-order entries of a node of height `h`. */
  ghost function Order(st: Store, pg: Page, h: nat): seq<Entry>
    decreases h, |pg.cells|, 3
  {
    Flat(st, pg.cells, h) + SubOrder(st, pg.right, h)
  }

  // ---- Algebra ----

  lemma {:induction false} ReachConcat(st: Store, a: seq<PageNumber>, b: seq<PageNumber>, h: nat)
    ensures Reach(st, a + b, h) == Reach(st, a, h) + Reach(st, b, h)
    decreases |a|
  {
    if a == [] {
      assert a + b == b;
    } else {
      assert (a + b)[1..] == a[1..] + b;
      ReachConcat(st, a[1..], b, h);
    }
  }

  lemma ReachNil(st: Store, h: nat)
    ensures Reach(st, [], h) == {}
  {
  }

  lemma ReachOne(st: Store, p: PageNumber, h: nat)
    ensures Reach(st, [p], h) == {p} + if h == 0 then {} else Reach(st, Children(At(st, p)), h - 1)
  {
    assert [p][1..] == [];
  }

  lemma {:induction false} ReachHas(st: Store, ps: seq<PageNumber>, i: nat, h: nat)
    requires i < |ps|
    ensures ps[i] in Reach(st, ps, h)
    ensures Reach(st, [ps[i]], h) <= Reach(st, ps, h)
  {
    assert ps == ps[..i] + ([ps[i]] + ps[i + 1..]);
    ReachConcat(st, ps[..i], [ps[i]] + ps[i + 1..], h);
    ReachConcat(st, [ps[i]], ps[i + 1..], h);
    ReachOne(st, ps[i], h);
  }

  /** Being a forest is local: two forests side by side are one when their pages are disjoint. */
  lemma {:induction false} ForestConcat(st: Store, a: seq<PageNumber>, b: seq<PageNumber>, h: nat)
    ensures Forest(st, a + b, h)
       <==> Forest(st, a, h) && Forest(st, b, h) && Reach(st, a, h) !! Reach(st, b, h)
    decreases |a|
  {
    if a == [] {
      assert a + b == b;
    } else {
      assert (a + b)[1..] == a[1..] + b;
      ForestConcat(st, a[1..], b, h);
      ReachConcat(st, a[1..], b, h);
      ReachConcat(st, [a[0]], a[1..], h);
      assert [a[0]] + a[1..] == a;
    }
  }

  lemma ForestOne(st: Store, p: PageNumber, h: nat)
    ensures Forest(st, [p], h)
       <==> && p in st && NodeShape(At(st, p), h)
            && (h > 0 ==> Forest(st, Children(At(st, p)), h - 1) && p !in Reach(st, Children(At(st, p)), h - 1))
  {
    assert [p][1..] == [];
  }

  /** A forest only depends on the pages it reaches. */
  lemma {:induction false} Frame(st: Store, st': Store, ps: seq<PageNumber>, h: nat)
    requires forall p :: p in Reach(st, ps, h) ==> At(st', p) == At(st, p) && (p in st ==> p in st')
    ensures Reach(st', ps, h) == Reach(st, ps, h)
    ensures Forest(st, ps, h) ==> Forest(st', ps, h)
    decreases h, |ps|
  {
    if ps != [] {
      Frame(st, st', ps[1..], h);
      if h > 0 {
        Frame(st, st', Children(At(st, ps[0])), h - 1);
      }
      ReachOne(st, ps[0], h);
      ReachOne(st', ps[0], h);
    }
  }

  lemma {:induction false} FrameFlat(st: Store, st': Store, cells: seq<Cell>, h: nat)
    requires h > 0 ==> forall p :: p in Reach(st, Lefts(cells), h - 1) ==> At(st', p) == At(st, p)
    ensures Flat(st', cells, h) == Flat(st, cells, h)
    decreases h, |cells|, 0
  {
    if cells != [] {
      if h > 0 {
        assert Lefts(cells) == [cells[0].left] + Lefts(cells[1..]);
        ReachConcat(st, [cells[0].left], Lefts(cells[1..]), h - 1);
        ReachOne(st, cells[0].left, h - 1);
        FrameOrder(st, st', At(st, cells[0].left), h - 1);
      }
      FrameFlat(st, st', cells[1..], h);
    }
  }

  /** The entries below a node only depend on the pages below it. */
  lemma {:induction false} FrameOrder(st: Store, st': Store, pg: Page, h: nat)
    requires h > 0 ==> forall p :: p in Reach(st, Children(pg), h - 1) ==> At(st', p) == At(st, p)
    ensures Order(st', pg, h) == Order(st, pg, h)
    decreases h, |pg.cells|, 1
  {
    if h > 0 {
      ReachConcat(st, Lefts(pg.cells), [pg.right], h - 1);
      ReachOne(st, pg.right, h - 1);
      FrameOrder(st, st', At(st, pg.right), h - 1);
    }
    FrameFlat(st, st', pg.cells, h);
  }

  lemma {:induction false} FlatConcat(st: Store, a: seq<Cell>, b: seq<Cell>, h: nat)
    ensures Flat(st, a + b, h) == Flat(st, a, h) + Flat(st, b, h)
    decreases |a|
  {
    if a == [] {
      assert a + b == b;
    } else {
      assert (a + b)[1..] == a[1..] + b;
      FlatConcat(st, a[1..], b, h);
    }
  }

  lemma FlatOne(st: Store, c: Cell, h: nat)
    ensures Flat(st, [c], h) == SubOrder(st, c.left, h) + [c.entry]
  {
    assert [c][1..] == [];
    assert Flat(st, [c][1..], h) == [];
  }

  lemma {:induction false} FlatLeaf(st: Store, cells: seq<Cell>)
    ensures Flat(st, cells, 0) == Entries(cells)
  {
    if cells != [] {
      FlatLeaf(st, cells[1..]);
      assert Entries(cells) == [cells[0].entry] + Entries(cells[1..]);
    }
  }

  /** What comes after the subtree of child `i`. */
  ghost function After(st: Store, pg: Page, i: nat, h: nat): seq<Entry>
    requires i <= |pg.cells|
  {
    if i == |pg.cells| then [] else [pg.cells[i].entry] + Order(st, Page(pg.cells[i + 1..], pg.right), h)
  }

  lemma OrderAround(st: Store, pg: Page, i: nat, h: nat)
    requires i <= |pg.cells|
    ensures Order(st, pg, h) == Flat(st, pg.cells[..i], h) + SubOrder(st, pg.Child(i), h) + After(st, pg, i, h)
  {
    if i < |pg.cells| {
      assert pg.cells == pg.cells[..i] + ([pg.cells[i]] + pg.cells[i + 1..]);
      FlatConcat(st, pg.cells[..i], [pg.cells[i]] + pg.cells[i + 1..], h);
      FlatConcat(st, [pg.cells[i]], pg.cells[i + 1..], h);
      FlatOne(st, pg.cells[i], h);
    } else {
      assert pg.cells[..i] == pg.cells;
    }
  }
}
