/** Neighbouring siblings and the dividers between them, and what survives when `balance` deals
    their cells out again over other pages. */
module PageRows {
  import opened PageTrees
  import opened PagePaths

  ghost function Pages(st: Store, nums: seq<PageNumber>): seq<Page> {
    seq(|nums|, i requires 0 <= i < |nums| => At(st, nums[i]))
  }

  /** The cells of `ps`, each page followed by its divider, whose left child becomes the page's
      rightmost child: what the first loop of the redistribution collects. */
  ghost function Cat(ps: seq<Page>, ds: seq<Entry>): seq<Cell>
    requires |ps| == |ds|
  {
    if ps == [] then [] else
      var n := |ps| - 1;
      Cat(ps[..n], ds[..n]) + ps[n].cells + [Cell(ds[n], ps[n].right)]
  }

  /** Siblings and dividers read as one page: their keys and child pointers, in order. */
  ghost function Join(ps: seq<Page>, ds: seq<Entry>): Page
    requires |ps| == |ds| + 1
  {
    Page(Cat(ps[..|ds|], ds) + ps[|ds|].cells, ps[|ds|].right)
  }

  /** Cells of the parent that point at `nums`. */
  ghost function RowCells(nums: seq<PageNumber>, ds: seq<Entry>): seq<Cell>
    requires |nums| == |ds|
  {
    seq(|nums|, i requires 0 <= i < |nums| => Cell(ds[i], nums[i]))
  }

  /** `pg` with its first child pointer set to `p`. */
  function Repoint(pg: Page, p: PageNumber): Page {
    if pg.cells == [] then Page([], p) else Page(pg.cells[0 := Cell(pg.cells[0].entry, p)], pg.right)
  }

  /** The parent: cells before the siblings, the siblings, and what follows them. */
  ghost function Parent(before: seq<Cell>, nums: seq<PageNumber>, ds: seq<Entry>, tail: Page): Page
    requires |nums| == |ds| + 1
  {
    var t := Repoint(tail, nums[|ds|]);
    Page(before + RowCells(nums[..|ds|], ds) + t.cells, t.right)
  }

  ghost function KidsOf(ps: seq<Page>): seq<PageNumber> {
    if ps == [] then [] else KidsOf(ps[..|ps| - 1]) + Children(ps[|ps| - 1])
  }

  ghost function ToSet<T>(s: seq<T>): set<T> {
    set x | x in s
  }

  ghost predicate Distinct<T>(s: seq<T>) {
    forall i, j :: 0 <= i < j < |s| ==> s[i] != s[j]
  }

  lemma CatSnoc(ps: seq<Page>, ds: seq<Entry>, pg: Page, d: Entry)
    requires |ps| == |ds|
    ensures Cat(ps + [pg], ds + [d]) == Cat(ps, ds) + pg.cells + [Cell(d, pg.right)]
  {
    assert (ps + [pg])[..|ps|] == ps;
    assert (ds + [d])[..|ds|] == ds;
  }

  lemma LeftsConcat(a: seq<Cell>, b: seq<Cell>)
    ensures Lefts(a + b) == Lefts(a) + Lefts(b)
  {
  }

  lemma {:induction false} CatKids(ps: seq<Page>, ds: seq<Entry>)
    requires |ps| == |ds|
    ensures Lefts(Cat(ps, ds)) == KidsOf(ps)
  {
    if ps != [] {
      var n := |ps| - 1;
      CatKids(ps[..n], ds[..n]);
      LeftsConcat(Cat(ps[..n], ds[..n]), ps[n].cells + [Cell(ds[n], ps[n].right)]);
      assert Cat(ps, ds) == Cat(ps[..n], ds[..n]) + (ps[n].cells + [Cell(ds[n], ps[n].right)]);
      assert Lefts(ps[n].cells + [Cell(ds[n], ps[n].right)]) == Children(ps[n]);
    }
  }

  /** Dealing cells out over pages leaves every child pointer in its place. */
  lemma JoinKids(ps: seq<Page>, ds: seq<Entry>)
    requires |ps| == |ds| + 1
    ensures Children(Join(ps, ds)) == KidsOf(ps)
  {
    var n := |ds|;
    CatKids(ps[..n], ds);
    LeftsConcat(Cat(ps[..n], ds), ps[n].cells);
  }

  lemma KidsSnoc(ps: seq<Page>, pg: Page)
    ensures KidsOf(ps + [pg]) == KidsOf(ps) + Children(pg)
  {
    assert (ps + [pg])[..|ps|] == ps;
  }

  lemma {:induction false} KidsIn(ps: seq<Page>, i: nat, j: nat)
    requires i < |ps| && j <= |ps[i].cells|
    ensures ps[i].Child(j) in KidsOf(ps)
    decreases |ps|
  {
    var n := |ps| - 1;
    if i < n {
      KidsIn(ps[..n], i, j);
    } else {
      assert Children(ps[n])[j] == ps[i].Child(j);
    }
  }

  lemma {:induction false} KidsFrom(ps: seq<Page>, k: nat) returns (i: nat, j: nat)
    requires k < |KidsOf(ps)|
    ensures i < |ps| && j <= |ps[i].cells| && ps[i].Child(j) == KidsOf(ps)[k]
    decreases |ps|
  {
    var n := |ps| - 1;
    if k < |KidsOf(ps[..n])| {
      i, j := KidsFrom(ps[..n], k);
    } else {
      i, j := n, k - |KidsOf(ps[..n])|;
      assert Children(ps[n])[j] == ps[i].Child(j);
    }
  }

  lemma {:induction false} RowReach(st: Store, nums: seq<PageNumber>, h: nat)
    ensures Reach(st, nums, h) == ToSet(nums) + if h == 0 then {} else Reach(st, KidsOf(Pages(st, nums)), h - 1)
    decreases |nums|
  {
    if nums != [] {
      hide Reach, At;
      var n := |nums| - 1;
      var init, p := nums[..n], nums[n];
      assert nums == init + [p];
      RowReach(st, init, h);
      ReachConcat(st, init, [p], h);
      ReachOne(st, p, h);
      assert Pages(st, nums)[..n] == Pages(st, init);
      assert ToSet(nums) == ToSet(init) + {p};
      if h > 0 {
        ReachConcat(st, KidsOf(Pages(st, init)), Children(At(st, p)), h - 1);
      }
    }
  }

  ghost predicate Shaped(st: Store, nums: seq<PageNumber>, h: nat) {
    forall p :: p in nums ==> p in st && NodeShape(At(st, p), h)
  }

  lemma ShapedConcat(st: Store, s: seq<PageNumber>, p: PageNumber, h: nat)
    ensures Shaped(st, s + [p], h) <==> Shaped(st, s, h) && p in st && NodeShape(At(st, p), h)
  {
    hide NodeShape;
    assert p in s + [p];
    assert forall x :: x in s ==> x in s + [p];
  }

  /** What makes a row of nodes a forest, through the children they have between them. */
  ghost predicate Row(st: Store, nums: seq<PageNumber>, kids: seq<PageNumber>, h: nat) {
    && Distinct(nums)
    && Shaped(st, nums, h)
    && (h > 0 ==> Forest(st, kids, h - 1) && ToSet(nums) !! Reach(st, kids, h - 1))
  }

  lemma {:induction false} RowForest(st: Store, nums: seq<PageNumber>, h: nat)
    ensures Forest(st, nums, h) <==> Row(st, nums, KidsOf(Pages(st, nums)), h)
    decreases |nums|
  {
    if nums == [] {
    } else {
      hide NodeShape, Reach, Forest, At, ToSet, Shaped, Distinct, KidsOf, Row;
      var n := |nums| - 1;
      var init, p := nums[..n], nums[n];
      RowForest(st, init, h);
      RowReach(st, init, h);
      RowSnoc(st, init, p, KidsOf(Pages(st, init)), h);
      KidsSnoc(Pages(st, init), At(st, p));
      assert nums == init + [p];
      assert Pages(st, nums) == Pages(st, init) + [At(st, p)];
    }
  }

  lemma RowSnoc(st: Store, s: seq<PageNumber>, p: PageNumber, kids: seq<PageNumber>, h: nat)
    requires Forest(st, s, h) <==> Row(st, s, kids, h)
    requires Reach(st, s, h) == ToSet(s) + if h == 0 then {} else Reach(st, kids, h - 1)
    ensures Forest(st, s + [p], h) <==> Row(st, s + [p], kids + Children(At(st, p)), h)
  {
    hide NodeShape, Reach, Forest, At, ToSet, Shaped, Distinct;
    ForestConcat(st, s, [p], h);
    ReachOne(st, p, h);
    ForestOne(st, p, h);
    ToSetConcat(s, p);
    ShapedConcat(st, s, p, h);
    if h > 0 {
      var k := Children(At(st, p));
      ForestConcat(st, kids, k, h - 1);
      ReachConcat(st, kids, k, h - 1);
      Apart(ToSet(s), Reach(st, kids, h - 1), p, Reach(st, k, h - 1));
    }
  }

  lemma Apart<T>(a: set<T>, b: set<T>, x: T, d: set<T>)
    ensures a + b !! {x} + d <==> x !in a && x !in b && a !! d && b !! d
    ensures a + {x} !! b + d <==> x !in b && x !in d && a !! b && a !! d
  {
    assert x in {x} + d && x in a + {x};
  }

  lemma ToSetConcat<T>(s: seq<T>, x: T)
    ensures ToSet(s + [x]) == ToSet(s) + {x}
    ensures x in ToSet(s) <==> x in s
    ensures Distinct(s + [x]) <==> Distinct(s) && x !in s
  {
    var t := s + [x];
    if Distinct(t) {
      forall i, j | 0 <= i < j < |s| ensures s[i] != s[j] { assert t[i] != t[j]; }
      forall i | 0 <= i < |s| ensures s[i] != x { assert t[i] != t[|s|]; }
    }
  }

  /** Reading a row of height `h` from above and reading its cells give the same entries. */
  lemma {:induction false} RowOrder(st: Store, nums: seq<PageNumber>, ds: seq<Entry>, h: nat)
    requires |nums| == |ds|
    ensures Flat(st, RowCells(nums, ds), h + 1) == Flat(st, Cat(Pages(st, nums), ds), h)
    decreases |nums|
  {
    if nums == [] {
    } else {
      hide Flat, Cat, At;
      var n := |nums| - 1;
      var pg := At(st, nums[n]);
      RowOrder(st, nums[..n], ds[..n], h);
      assert nums == nums[..n] + [nums[n]] && ds == ds[..n] + [ds[n]];
      assert RowCells(nums, ds) == RowCells(nums[..n], ds[..n]) + [Cell(ds[n], nums[n])];
      FlatConcat(st, RowCells(nums[..n], ds[..n]), [Cell(ds[n], nums[n])], h + 1);
      FlatOne(st, Cell(ds[n], nums[n]), h + 1);
      assert Pages(st, nums) == Pages(st, nums[..n]) + [pg];
      CatSnoc(Pages(st, nums[..n]), ds[..n], pg, ds[n]);
      FlatSnoc(st, Cat(Pages(st, nums[..n]), ds[..n]), pg, ds[n], h);
    }
  }

  lemma FlatSnoc(st: Store, c: seq<Cell>, pg: Page, d: Entry, h: nat)
    ensures Flat(st, c + pg.cells + [Cell(d, pg.right)], h) == Flat(st, c, h) + (Order(st, pg, h) + [d])
  {
    hide Flat;
    FlatConcat(st, c + pg.cells, [Cell(d, pg.right)], h);
    FlatConcat(st, c, pg.cells, h);
    FlatOne(st, Cell(d, pg.right), h);
    var x, y, z := Flat(st, c, h), Flat(st, pg.cells, h), SubOrder(st, pg.right, h);
    assert x + ((y + z) + [d]) == (x + y) + (z + [d]);
  }

  lemma OrderConcat(st: Store, cells: seq<Cell>, pg: Page, h: nat)
    ensures Order(st, Page(cells + pg.cells, pg.right), h) == Flat(st, cells, h) + Order(st, pg, h)
  {
    hide Flat, SubOrder;
    FlatConcat(st, cells, pg.cells, h);
  }

  lemma JoinOrder(st: Store, nums: seq<PageNumber>, ds: seq<Entry>, h: nat)
    requires |nums| == |ds| + 1
    ensures Order(st, Join(Pages(st, nums), ds), h)
         == Flat(st, RowCells(nums[..|ds|], ds), h + 1) + SubOrder(st, nums[|ds|], h + 1)
  {
    hide Flat, Cat;
    var m := |ds|;
    RowOrder(st, nums[..m], ds, h);
    assert Pages(st, nums)[..m] == Pages(st, nums[..m]);
    OrderConcat(st, Cat(Pages(st, nums[..m]), ds), At(st, nums[m]), h);
  }

  lemma RepointOrder(st: Store, pg: Page, p: PageNumber, h: nat)
    ensures Order(st, Repoint(pg, p), h) == SubOrder(st, p, h) + After(st, pg, 0, h)
  {
    var t := Repoint(pg, p);
    OrderAround(st, t, 0, h);
    assert t.cells[..0] == [];
    if pg.cells != [] {
      assert t.cells[1..] == pg.cells[1..];
    }
  }

  /** In-order entries of the parent, in terms of the joined siblings. */
  lemma ParentOrder(st: Store, before: seq<Cell>, nums: seq<PageNumber>, ds: seq<Entry>, tail: Page, h: nat)
    requires |nums| == |ds| + 1
    ensures Order(st, Parent(before, nums, ds, tail), h + 1)
         == Flat(st, before, h + 1) + Order(st, Join(Pages(st, nums), ds), h) + After(st, tail, 0, h + 1)
  {
    hide Flat, SubOrder, Order, After, Join, Repoint;
    var m := |ds|;
    var row := RowCells(nums[..m], ds);
    OrderConcat(st, before + row, Repoint(tail, nums[m]), h + 1);
    FlatConcat(st, before, row, h + 1);
    JoinOrder(st, nums, ds, h);
    RepointOrder(st, tail, nums[m], h + 1);
  }

  /** The parent's children: those before the siblings, the siblings, and those after. */
  lemma ParentKids(before: seq<Cell>, nums: seq<PageNumber>, ds: seq<Entry>, tail: Page)
    requires |nums| == |ds| + 1
    ensures Children(Parent(before, nums, ds, tail)) == Lefts(before) + nums + Children(tail)[1..]
  {
  }

  /** `st'` is `st` after one redistribution below `p`: the parent points at `nums'` with dividers
      `ds'` where it pointed at `nums` with dividers `ds`, the joined cells are the same, and no
      page but these and the parent changed.  Any number of pages may have come or gone. */
  ghost predicate Rebalanced(st: Store, st': Store, p: PageNumber, before: seq<Cell>, tail: Page,
          nums: seq<PageNumber>, ds: seq<Entry>, nums': seq<PageNumber>, ds': seq<Entry>)
  {
    && |nums| == |ds| + 1 && |nums'| == |ds'| + 1
    && p in st && At(st, p) == Parent(before, nums, ds, tail)
    && p in st' && At(st', p) == Parent(before, nums', ds', tail)
    && Join(Pages(st', nums'), ds') == Join(Pages(st, nums), ds)
    && Distinct(nums') && p !in nums'
    && (forall x :: x in nums' ==> x != 0 && x in st' && (x in nums || x !in st))
    && (forall x :: x in st && x != p && x !in nums ==> x in st' && st'[x] == st[x])
  }

  /** One redistribution keeps the parent's subtree a forest and its in-order entries. */
  lemma RebalancedKeeps(st: Store, st': Store, p: PageNumber, before: seq<Cell>, tail: Page, nums: seq<PageNumber>,
          ds: seq<Entry>, nums': seq<PageNumber>, ds': seq<Entry>, h: nat)
    requires Rebalanced(st, st', p, before, tail, nums, ds, nums', ds')
    requires Forest(st, [p], h + 1)
    ensures Forest(st', [p], h + 1)
    ensures Order(st', At(st', p), h + 1) == Order(st, At(st, p), h + 1)
    ensures Reach(st', [p], h + 1) == Reach(st, [p], h + 1) - ToSet(nums) + ToSet(nums')
    ensures ToSet(nums) <= Reach(st, [p], h + 1)
  {
    hide Forest, Reach, Order, Flat, KidsOf, Cat, NodeShape;
    var a, z := Lefts(before), Children(tail)[1..];
    ReachOne(st, p, h + 1);
    ForestOne(st, p, h + 1);
    ReachOne(st', p, h + 1);
    ForestOne(st', p, h + 1);
    ParentKids(before, nums, ds, tail);
    ParentKids(before, nums', ds', tail);
    Sides(st, a, nums, z, h);
    Sides(st', a, nums', z, h);
    RowReach(st, nums, h);
    RowReach(st', nums', h);
    RowForest(st, nums, h);
    RowForest(st', nums', h);
    JoinKids(Pages(st, nums), ds);
    JoinKids(Pages(st', nums'), ds');
    var kids := KidsOf(Pages(st, nums));
    ForestIn(st, a, h);
    ForestIn(st, z, h);
    Frame(st, st', a, h);
    Frame(st, st', z, h);
    if h > 0 {
      ForestIn(st, kids, h - 1);
      Frame(st, st', kids, h - 1);
    }
    SameShapes(st, st', nums, nums', h);
    ParentShape(before, nums, ds, tail, nums', ds', h + 1);
    ParentOrder(st, before, nums, ds, tail, h);
    ParentOrder(st', before, nums', ds', tail, h);
    var joined := Join(Pages(st, nums), ds);
    FrameFlat(st, st', before, h + 1);
    FrameOrder(st, st', joined, h);
    if tail.cells != [] {
      assert Children(Page(tail.cells[1..], tail.right)) == z;
      FrameOrder(st, st', Page(tail.cells[1..], tail.right), h + 1);
    }
  }

  /** A forest in three parts. */
  lemma Sides(st: Store, a: seq<PageNumber>, b: seq<PageNumber>, c: seq<PageNumber>, h: nat)
    ensures Forest(st, a + b + c, h)
       <==> && Forest(st, a, h) && Forest(st, b, h) && Forest(st, c, h)
            && Reach(st, a, h) !! Reach(st, b, h) !! Reach(st, c, h)
    ensures Reach(st, a + b + c, h) == Reach(st, a, h) + Reach(st, b, h) + Reach(st, c, h)
  {
    ForestConcat(st, a + b, c, h);
    ForestConcat(st, a, b, h);
    ReachConcat(st, a + b, c, h);
    ReachConcat(st, a, b, h);
  }

  /** A forest lies within the store. */
  lemma {:induction false} ForestIn(st: Store, ps: seq<PageNumber>, h: nat)
    requires Forest(st, ps, h)
    ensures Reach(st, ps, h) <= st.Keys
    decreases h, |ps|
  {
    if ps != [] {
      if h > 0 {
        ForestIn(st, Children(st[ps[0]]), h - 1);
      }
      ForestIn(st, ps[1..], h);
    }
  }

  lemma SameShapes(st: Store, st': Store, nums: seq<PageNumber>, nums': seq<PageNumber>, h: nat)
    requires KidsOf(Pages(st', nums')) == KidsOf(Pages(st, nums))
    requires Shaped(st, nums, h)
    ensures forall p :: p in nums' ==> NodeShape(At(st', p), h)
  {
    hide KidsOf;
    var ps, ps' := Pages(st, nums), Pages(st', nums');
    forall i, j | 0 <= i < |nums'| && 0 <= j <= |ps'[i].cells|
      ensures if h == 0 then ps'[i].Child(j) == 0 else ps'[i].Child(j) != 0
    {
      KidsIn(ps', i, j);
      var k :| 0 <= k < |KidsOf(ps)| && KidsOf(ps)[k] == ps'[i].Child(j);
      var i0, j0 := KidsFrom(ps, k);
      assert NodeShape(At(st, nums[i0]), h);
    }
    forall p | p in nums' ensures NodeShape(At(st', p), h) {
      var i :| 0 <= i < |nums'| && nums'[i] == p;
      assert ps'[i] == At(st', p);
    }
  }

  lemma ParentShape(before: seq<Cell>, nums: seq<PageNumber>, ds: seq<Entry>, tail: Page, nums': seq<PageNumber>,
          ds': seq<Entry>, h: nat)
    requires h > 0 && |nums| == |ds| + 1 && |nums'| == |ds'| + 1
    requires NodeShape(Parent(before, nums, ds, tail), h)
    requires forall x :: x in nums' ==> x != 0
    ensures NodeShape(Parent(before, nums', ds', tail), h)
  {
    var pg, pg' := Parent(before, nums, ds, tail), Parent(before, nums', ds', tail);
    ParentKids(before, nums, ds, tail);
    ParentKids(before, nums', ds', tail);
    forall i | 0 <= i <= |pg.cells| ensures Children(pg)[i] != 0 { assert pg.Child(i) != 0; }
    assert forall x :: x in Children(pg) ==> x != 0;
    assert forall x :: x in Lefts(before) ==> x in Children(pg);
    assert forall x :: x in Children(tail)[1..] ==> x in Children(pg);
    forall i | 0 <= i <= |pg'.cells| ensures pg'.Child(i) != 0 {
      assert pg'.Child(i) == Children(pg')[i];
      assert Children(pg')[i] in Children(pg');
    }
  }
}
