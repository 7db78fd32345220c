/** The disk B-tree: search, insertion, removal and `balance`. */
module DiskTree {
  import opened PageTrees
  import opened PagePaths
  import opened PageRows
  import opened DiskDeal
  import opened DiskOccupancy
  import opened PageEdits
  import Distribution

  datatype Option<+T> = None | Some(value: T)

  function ReadSiblings(pg: Page, from: nat, to: nat): seq<Sibling>
    requires from <= to <= |pg.cells| + 1
  {
    seq(to - from, i requires 0 <= i < to - from => Sibling(pg.Child(from + i), from + i))
  }

  lemma SiblingsRead(pg: Page, from: nat, to: nat)
    requires from <= to <= |pg.cells| + 1
    ensures var sibs := ReadSiblings(pg, from, to);
      Indexed(sibs, from) && Numbers(sibs) == Children(pg)[from..to]
  {
    var sibs := ReadSiblings(pg, from, to);
    forall i | 0 <= i < |sibs| ensures Numbers(sibs)[i] == Children(pg)[from..to][i] {
      assert sibs[i] == Sibling(pg.Child(from + i), from + i);
      assert Children(pg)[from + i] == pg.Child(from + i);
    }
  }

  /** The siblings `lo` to `hi` of a node, apart from what is before and after them. */
  ghost predicate SplitAt(pg: Page, lo: nat, hi: nat, before: seq<Cell>, nums: seq<PageNumber>, ds: seq<Entry>,
          tail: Page) {
    && lo < hi <= |pg.cells| + 1
    && before == pg.cells[..lo]
    && nums == Children(pg)[lo..hi]
    && ds == Entries(pg.cells[lo..hi - 1])
    && tail == Page(pg.cells[hi - 1..], pg.right)
  }

  lemma SplitParent(pg: Page, lo: nat, hi: nat, before: seq<Cell>, nums: seq<PageNumber>, ds: seq<Entry>, tail: Page)
    requires SplitAt(pg, lo, hi, before, nums, ds, tail)
    ensures |nums| == |ds| + 1 == hi - lo && |before| == lo
    ensures pg == Parent(before, nums, ds, tail)
    ensures Repoint(tail, nums[|ds|]) == tail
  {
    var m := |ds|;
    assert tail.Child(0) == nums[m];
    assert Repoint(tail, nums[m]) == tail;
    var row := RowCells(nums[..m], ds);
    forall i | 0 <= i < m ensures row[i] == pg.cells[lo + i] {
      assert nums[i] == Children(pg)[lo + i] == pg.cells[lo + i].left;
      assert ds[i] == pg.cells[lo..hi - 1][i].entry;
    }
    assert row == pg.cells[lo..hi - 1];
    assert pg.cells == before + row + tail.cells;
  }

  /** The children of a node are distinct, not page zero, in the store, and not the node itself. */
  lemma Kids(st: Store, p: PageNumber, lo: nat, hi: nat, h: nat)
    requires h > 0 && Forest(st, [p], h)
    requires lo <= hi <= |At(st, p).cells| + 1
    ensures var nums := Children(At(st, p))[lo..hi];
      && Distinct(nums) && p !in nums && p in st
      && forall c :: c in nums ==> c != 0 && c in st
  {
    hide Forest, Reach, KidsOf;
    var pg := At(st, p);
    var kids := Children(pg);
    ForestOne(st, p, h);
    RowForest(st, kids, h - 1);
    RowReach(st, kids, h - 1);
    var nums := kids[lo..hi];
    forall i | 0 <= i < |nums| ensures nums[i] == kids[lo + i] && nums[i] in ToSet(kids) && nums[i] != 0 {
      assert kids[lo + i] == pg.Child(lo + i);
    }
  }

  /** Collecting and dealing, taken together. */
  lemma Redistributed(st0: Store, st1: Store, st2: Store, p: PageNumber, before: seq<Cell>, tail: Page,
          nums: seq<PageNumber>, ds: seq<Entry>, cells: seq<Cell>, nums': seq<PageNumber>, ds': seq<Entry>,
          counts: seq<nat>)
    requires |nums| == |ds| + 1 && p in st0 && p !in nums && st0[p] == Parent(before, nums, ds, tail)
    requires forall x :: x in nums ==> x in st0
    requires Page(cells, At(st0, nums[|ds|]).right) == Join(Pages(st0, nums), ds)
    requires st1.Keys == st0.Keys && Drained(st0, st1, p, nums, |nums|)
    requires Spread(st2, nums', ds', cells, At(st1, nums[|ds|]).right, counts)
    requires p in st2 && st2[p] == Parent(before, nums', ds', tail)
    requires Moved(st1, st2, p, nums, nums')
    ensures Rebalanced(st0, st2, p, before, tail, nums, ds, nums', ds')
    ensures st2.Keys == st0.Keys - ToSet(nums) + ToSet(nums')
  {
    hide Join, Parent;
    assert nums[..|nums|] == nums;
    assert nums[|ds|] in st1 && st1[nums[|ds|]].right == st0[nums[|ds|]].right;
  }

  lemma DrainedBlank(st: Store, st': Store, p: PageNumber, nums: seq<PageNumber>)
    requires Drained(st, st', p, nums, |nums|)
    requires Distinct(nums) && p !in nums && p in st'
    requires forall c :: c in nums ==> c != 0
    ensures Blank(st', p, nums)
  {
    forall c | c in nums ensures c in st' && st'[c].cells == [] {
      var i :| 0 <= i < |nums| && nums[i] == c;
    }
  }

  lemma PathBelow(st: Store, path: seq<PageNumber>, h: nat)
    requires IsPath(st, path) && 1 < |path| <= h + 1 && Forest(st, [path[0]], h)
    ensures var parent, page := path[|path| - 2], Last(path);
      && IsPath(st, path[..|path| - 1])
      && Forest(st, [parent], h + 2 - |path|)
      && page in Children(At(st, parent)) && page != 0 && page != path[0]
      && parent in Reach(st, [path[0]], h) && page in Reach(st, [path[0]], h)
  {
    hide Forest, Reach, IsPath;
    var path1 := path[..|path| - 1];
    PathPrefix(st, path, |path| - 1);
    PathReach(st, path1, h);
    PathReach(st, path, h);
    PathStep(st, path);
    var pg := At(st, path[|path| - 2]);
    ForestOne(st, path[|path| - 2], h + 2 - |path|);
    var i := IndexOf(Children(pg), Last(path));
    assert pg.Child(i) == Last(path);
    ReachHas(st, [Last(path)], 0, h + 1 - |path|);
  }

  /** Collecting and dealing, with enough pages for the cells, and what it means for the tree. */
  lemma Redealt(st0: Store, st1: Store, st2: Store, path: seq<PageNumber>, h: nat, room: Room, grown: bool,
          before: seq<Cell>, tail: Page, nums: seq<PageNumber>, ds: seq<Entry>, cells: seq<Cell>,
          nums': seq<PageNumber>, ds': seq<Entry>, counts: seq<nat>)
    requires Sound(room) && IsPath(st0, path) && 1 < |path| <= h + 1 && (grown ==> |path| == 2)
    requires Unsettled(st0, path[0], h, room, Last(path), grown)
    requires |nums| == |ds| + 1 && Distinct(nums) && Last(path) in nums
    requires var p := path[|path| - 2];
      && p in st0 && p !in nums && st0[p] == Parent(before, nums, ds, tail) && (st0[p].cells != [] ==> |nums| >= 2)
      && (forall x :: x in nums ==> x in st0)
      && Page(cells, At(st0, nums[|ds|]).right) == Join(Pages(st0, nums), ds)
      && st1.Keys == st0.Keys && Drained(st0, st1, p, nums, |nums|)
      && Spread(st2, nums', ds', cells, At(st1, nums[|ds|]).right, counts)
      && p in st2 && st2[p] == Parent(before, nums', ds', tail)
      && Moved(st1, st2, p, nums, nums')
    requires if cells == [] then counts == [0]
      else (|counts| - 1) * (room.cap + 1) <= |cells| && forall j :: 0 <= j < |counts| ==> 1 <= counts[j] <= room.cap
    ensures IsPath(st2, path[..|path| - 1])
    ensures Unsettled(st2, path[0], h, room, path[|path| - 2], false)
    ensures SameTree(st0, st2, path[0], h, h)
    ensures |At(st2, path[|path| - 2]).cells| <= |At(st0, path[|path| - 2]).cells| + 1
  {
    hide Unsettled, IsPath, Parent, Join, Moved, SameTree, DealtOut, Rebalanced, Drained;
    var p := path[|path| - 2];
    UnsettledForest(st0, path[0], h, room, Last(path), grown);
    Redistributed(st0, st1, st2, p, before, tail, nums, ds, cells, nums', ds', counts);
    SpreadSame(st0, st1, p, nums);
    DealTree(st0, st2, path, h, before, tail, nums, ds, nums', ds');
    DealtEnough(st0, st2, p, path[0], h, room, Last(path), grown, nums, ds, nums', ds', counts);
    DealUnsettles(st0, st2, path, h, room, grown, before, tail, nums, ds, nums', ds');
    ParentSize(before, nums, ds, tail);
    ParentSize(before, nums', ds', tail);
    DealtDividers(st0, st2, p, room, nums, ds, nums', ds');
  }

  lemma SpreadSame(st: Store, st': Store, p: PageNumber, nums: seq<PageNumber>)
    requires nums != [] && Drained(st, st', p, nums, |nums|)
    ensures At(st', nums[|nums| - 1]).right == At(st, nums[|nums| - 1]).right
  {
  }

  lemma DealtDividers(st: Store, st': Store, p: PageNumber, room: Room, nums: seq<PageNumber>, ds: seq<Entry>,
          nums': seq<PageNumber>, ds': seq<Entry>)
    requires |nums| == |ds| + 1 && |nums'| == |ds'| + 1 && DealtOut(st, st', p, room, nums, ds, nums', ds')
    ensures |ds'| <= |ds| + 1
  {
  }

  // ---- What one redistribution does, exactly ----

  /** What collecting and dealing add up to. */
  lemma DealtIs(st0: Store, st1: Store, st2: Store, parent: PageNumber, page: PageNumber, siblingsPerSide: nat,
          cap: nat, half: nat, hi: nat, cells: seq<Cell>, nums: seq<PageNumber>, ds: seq<Entry>, counts: seq<nat>)
    requires parent in st0 && page in Children(st0[parent]) && hi == To(st0[parent], page, siblingsPerSide)
    requires var pg, lo := st0[parent], From(st0[parent], page, siblingsPerSide);
      && lo < hi <= |pg.cells| + 1
      && var was, dividers := Children(pg)[lo..hi], Entries(pg.cells[lo..hi - 1]);
        && |was| == |dividers| + 1
        && Page(cells, At(st0, was[|was| - 1]).right) == Join(Pages(st0, was), dividers)
        && Drained(st0, st1, parent, was, |was|)
        && Spread(st2, nums, ds, cells, At(st1, was[|was| - 1]).right, counts)
        && parent in st2 && st2[parent] == Parent(pg.cells[..lo], nums, ds, Page(pg.cells[hi - 1..], pg.right))
        && Moved(st1, st2, parent, was, nums)
    requires Counts(counts, |cells|, cap, half)
    ensures DealtAgain(st0, st2, parent, page, siblingsPerSide, cap, half)
  {
    hide Join, Parent, Spread, Counts, From, To, Moved, Drained;
    var pg, lo := st0[parent], From(st0[parent], page, siblingsPerSide);
    var was := Children(pg)[lo..hi];
    SpreadSame(st0, st1, parent, was);
    OthersKept(st0, st1, st2, parent, was, nums);
    assert DealtOver(st0, st2, parent, lo, hi, cap, half, nums, ds, counts);
  }

  lemma OthersKept(st0: Store, st1: Store, st2: Store, parent: PageNumber, was: seq<PageNumber>, nums: seq<PageNumber>)
    requires Drained(st0, st1, parent, was, |was|) && Moved(st1, st2, parent, was, nums)
    ensures forall p :: p in st0 && p != parent && p !in was ==> p in st2 && st2[p] == st0[p]
  {
    assert was[..|was|] == was;
  }


  /** How many siblings are taken on each side: at either end of the parent twice as many. */
  ghost function PerSide(pg: Page, page: PageNumber, siblingsPerSide: nat): nat
    requires page in Children(pg)
  {
    var index := IndexOf(Children(pg), page);
    if index == 0 || index == |pg.cells| then 2 * siblingsPerSide else siblingsPerSide
  }

  /** The first sibling taken. */
  ghost function From(pg: Page, page: PageNumber, siblingsPerSide: nat): nat
    requires page in Children(pg)
  {
    var index, side := IndexOf(Children(pg), page), PerSide(pg, page, siblingsPerSide);
    if index < side then 0 else index - side
  }

  /** The first sibling behind them. */
  ghost function To(pg: Page, page: PageNumber, siblingsPerSide: nat): nat
    requires page in Children(pg)
  {
    var index, side := IndexOf(Children(pg), page), PerSide(pg, page, siblingsPerSide);
    if index + side + 1 < |pg.cells| + 1 then index + side + 1 else |pg.cells| + 1
  }

  /** The counts the distribution gives for `n` cells. */
  ghost predicate Counts(counts: seq<nat>, n: nat, cap: nat, half: nat) {
    if n == 0 then counts == [0] else Distribution.LeftBiased(counts, n, cap, half)
  }

  /** The cells of siblings `lo` to `hi` of a parent are on the pages `nums` with the dividers `ds`, as many
      on each as the distribution says; all other pages are as they were. */
  ghost predicate DealtOver(st: Store, st': Store, parent: PageNumber, lo: nat, hi: nat, cap: nat, half: nat,
          nums: seq<PageNumber>, ds: seq<Entry>, counts: seq<nat>)
  {
    && parent in st && parent in st' && lo < hi <= |st[parent].cells| + 1
    && var pg := st[parent];
    var was, dividers := Children(pg)[lo..hi], Entries(pg.cells[lo..hi - 1]);
    && |was| == |dividers| + 1
    && var all := Join(Pages(st, was), dividers);
    && Spread(st', nums, ds, all.cells, all.right, counts) && Counts(counts, |all.cells|, cap, half)
    && st'[parent] == Parent(pg.cells[..lo], nums, ds, Page(pg.cells[hi - 1..], pg.right))
    && (forall p :: p in st && p != parent && p !in was ==> p in st' && st'[p] == st[p])
  }

  /** The cells of a page and its siblings have been dealt out again under their parent. */
  ghost predicate DealtAgain(st: Store, st': Store, parent: PageNumber, page: PageNumber, siblingsPerSide: nat,
          cap: nat, half: nat)
  {
    && parent in st && page in Children(st[parent])
    && var lo, hi := From(st[parent], page, siblingsPerSide), To(st[parent], page, siblingsPerSide);
      exists nums, ds, counts :: DealtOver(st, st', parent, lo, hi, cap, half, nums, ds, counts)
  }

  class BTree {
    const pager: Pager
    const root: PageNumber
    const cellSize: nat
    const usable: nat          // room for cells in an ordinary page
    const zeroUsable: nat      // room for cells in page zero
    const siblingsPerSide: nat
    const halfEmpty: nat -> bool  // the underflow test of a page, on its used bytes
    ghost var height: nat

    /** A tree on a page just allocated for its root. */
    constructor (pager: Pager, root: PageNumber, cellSize: nat, usable: nat, zeroUsable: nat, siblingsPerSide: nat,
            halfEmpty: nat -> bool)
      requires siblingsPerSide >= 1 && 0 < cellSize && 2 * cellSize <= usable && cellSize <= zeroUsable <= usable
      requires root in pager.pages && pager.pages[root] == EMPTY_PAGE
      ensures this.pager == pager && this.root == root && Configured() && height == 0
      ensures this.cellSize == cellSize && this.usable == usable && this.zeroUsable == zeroUsable
      ensures this.siblingsPerSide == siblingsPerSide && this.halfEmpty == halfEmpty
      ensures Valid() && Order(pager.pages, At(pager.pages, root), height) == []
    {
      this.pager, this.root, this.cellSize, this.usable, this.zeroUsable := pager, root, cellSize, usable, zeroUsable;
      this.siblingsPerSide, this.halfEmpty := siblingsPerSide, halfEmpty;
      height := 0;
      new;
      OnlyRoot(pager.pages, root);
      ForestOne(pager.pages, root, 0);
    }

    ghost predicate Configured() {
      && siblingsPerSide >= 1
      && 0 < cellSize && 2 * cellSize <= usable
      && cellSize <= zeroUsable <= usable
    }

    function UsableSpace(p: PageNumber): nat {
      if p == 0 then zeroUsable else usable
    }

    function Used(pg: Page): nat {
      |pg.cells| * cellSize
    }

    ghost function Limits(): (room: Room)
      requires Configured()
      ensures Sound(room)
    {
      Distribution.Thresholds(cellSize, usable);
      Distribution.Counting(1, cellSize, UsableSpace(root));
      Distribution.Counting(Distribution.Capacity(cellSize, UsableSpace(root)), cellSize, usable);
      Distribution.DivBounds(UsableSpace(root), cellSize);
      Room(Distribution.Capacity(cellSize, usable), Distribution.Capacity(cellSize, UsableSpace(root)))
    }

    /** Cells with which an ordinary page is half full, as the distribution counts. */
    ghost function HalfCount(): nat
      requires Configured()
    {
      Distribution.Half(cellSize, usable)
    }

    ghost predicate Ready(grown: bool, page: PageNumber)
      requires Configured()
      reads this, pager
    {
      Unsettled(pager.pages, root, height, Limits(), page, grown)
    }

    ghost predicate Valid()
      reads this, pager
    {
      Configured() && Settled(pager.pages, root, height, Limits())
    }

    predicate IsOverflow(p: PageNumber)
      requires p in pager.pages
      reads pager
    {
      Used(pager.pages[p]) > UsableSpace(p)
    }

    lemma Fits(n: nat)
      requires Configured()
      ensures n * cellSize <= usable <==> n <= Limits().cap
      ensures n * cellSize <= UsableSpace(root) <==> n <= Limits().rootCap
    {
      Distribution.Counting(n, cellSize, usable);
      Distribution.Counting(n, cellSize, UsableSpace(root));
    }

    /** The page and its neighbours: `siblingsPerSide` on each side, twice that at either end. */
    method LoadSiblings(page: PageNumber, parentPage: PageNumber) returns (sibs: seq<Sibling>, ghost lo: nat)
      requires siblingsPerSide >= 1
      requires parentPage in pager.pages && page in Children(pager.pages[parentPage])
      ensures 0 < |sibs| && lo + |sibs| <= |pager.pages[parentPage].cells| + 1
      ensures Indexed(sibs, lo) && Numbers(sibs) == Children(pager.pages[parentPage])[lo..lo + |sibs|]
      ensures page in Numbers(sibs)
      ensures pager.pages[parentPage].cells != [] ==> |sibs| >= 2
      ensures lo == From(pager.pages[parentPage], page, siblingsPerSide)
      ensures lo + |sibs| == To(pager.pages[parentPage], page, siblingsPerSide)
    {
      var perSide := siblingsPerSide;
      var parent := pager.pages[parentPage];
      var len := |parent.cells|;
      var index := IndexOf(Children(parent), page);
      if index == 0 || index == len {
        perSide := perSide * 2;
      }
      var from := if index < perSide then 0 else index - perSide;
      var to := if index + perSide + 1 < len + 1 then index + perSide + 1 else len + 1;
      lo := from;
      sibs := ReadSiblings(parent, from, to);
      SiblingsRead(parent, from, to);
      assert Numbers(sibs)[index - from] == page;
    }

    /** How many cells each page is to get. */
    method PageCounts(cells: seq<Cell>) returns (counts: seq<nat>)
      requires Configured()
      ensures counts != [] && Distribution.Sum(counts) + |counts| - 1 == |cells|
      ensures cells == [] ==> counts == [0]
      ensures cells != [] ==>
        && (|counts| - 1) * (Limits().cap + 1) <= |cells|
        && forall j :: 0 <= j < |counts| ==> 1 <= counts[j] <= Limits().cap
      ensures Counts(counts, |cells|, Limits().cap, HalfCount())
      ensures |counts| >= 2 ==> counts[0] >= counts[1]
    {
      var sizes := seq(|cells|, i requires 0 <= i < |cells| => cellSize);
      var ok;
      ok, counts := Distribution.Distribute(sizes, usable);
      assert cells != [] ==> Distribution.EqualSized(sizes, usable);
      assert ok;
    }

    /** Redistribute the cells of a page and its neighbours under their parent. */
    method Redistribute(page: PageNumber, parentPage: PageNumber, ghost path: seq<PageNumber>, ghost grown: bool)
      requires Configured() && Ready(grown, page)
      requires IsPath(pager.pages, path) && 1 < |path| <= height + 1 && path[0] == root
      requires Last(path) == page && path[|path| - 2] == parentPage
      requires grown ==> |path| == 2
      modifies pager
      ensures IsPath(pager.pages, path[..|path| - 1])
      ensures Ready(false, parentPage)
      ensures SameTree(old(pager.pages), pager.pages, root, height, height)
      ensures parentPage in pager.pages
      ensures |pager.pages[parentPage].cells| <= |old(At(pager.pages, parentPage)).cells| + 1
      ensures Dealt(old(pager.pages), pager.pages, parentPage, page)
    {
      hide Unsettled, IsPath, Parent, Join, Drained, Blank, Spread, Moved, SameTree, Indexed;
      hide From, To, Counts, DealtAgain, HalfCount;
      hide Entries, Children, Distinct, Limits, Repoint, Distribution.Sum, Distribution.EqualSized;
      ghost var st0, h := pager.pages, height + 2 - |path|;
      UnsettledForest(st0, root, height, Limits(), page, grown);
      PathBelow(st0, path, height);
      var sibs, lo := LoadSiblings(page, parentPage);
      ghost var pg := st0[parentPage];
      ghost var hi := lo + |sibs|;
      ghost var before, nums, ds, tail := pg.cells[..lo], Numbers(sibs), Entries(pg.cells[lo..hi - 1]),
        Page(pg.cells[hi - 1..], pg.right);
      SplitParent(pg, lo, hi, before, nums, ds, tail);
      Kids(st0, parentPage, lo, hi, h);

      var cells := pager.Collect(parentPage, sibs, before, ds, tail);
      ghost var st1 := pager.pages;
      DrainedBlank(st0, st1, parentPage, nums);
      var counts := PageCounts(cells);
      ghost var nums', ds' := pager.Deal(parentPage, sibs, counts, cells, before, tail);
      Redealt(st0, st1, pager.pages, path, height, Limits(), grown, before, tail, nums, ds, cells, nums', ds', counts);
      DealtIs(st0, st1, pager.pages, parentPage, page, siblingsPerSide, Limits().cap, HalfCount(), hi, cells, nums',
        ds', counts);
    }

    /** The redistribution of this tree. */
    ghost predicate Dealt(st: Store, st': Store, parent: PageNumber, page: PageNumber)
      requires Configured()
    {
      DealtAgain(st, st', parent, page, siblingsPerSide, Limits().cap, HalfCount())
    }

    /** The page is neither too full nor, but for the root, too empty. */
    predicate Fine(st: Store, page: PageNumber, isRoot: bool)
    {
      && page in st && Used(st[page]) <= UsableSpace(page)
      && st[page].cells != [] && (isRoot || !halfEmpty(Used(st[page])))
    }

    /** What balancing first does with a page: nothing if it is fine; otherwise its siblings are dealt out
        again under its parent, an overflowing root being put below a new one before; and if then the
        parent is fine, that is all.  An empty root takes over its only child if that fits. */
    ghost predicate FirstStep(st: Store, h: nat, page: PageNumber, parents: seq<PageNumber>, st': Store, h': nat)
      requires Configured() && page in st
    {
      if Fine(st, page, parents == []) then st' == st && h' == h
      else if parents != [] then DealtFirst(st, st', parents[|parents| - 1], page, |parents| == 1)
      else if st[page].cells != [] then exists p :: p != 0 && p !in st && GrownFirst(st, h, st', h', p)
      else if st[page].IsLeaf() || |At(st, st[page].right).cells| * cellSize > UsableSpace(page)
        then st' == st && h' == h
      else st' == Shrunk(st, page) && h' == h - 1
    }

    ghost predicate DealtFirst(st: Store, st': Store, parent: PageNumber, page: PageNumber, top: bool)
      requires Configured()
    {
      exists st1 :: Dealt(st, st1, parent, page) && (Fine(st1, parent, top) ==> st' == st1)
    }

    ghost predicate GrownFirst(st: Store, h: nat, st': Store, h': nat, p: PageNumber)
      requires Configured()
    {
      exists st1 :: Dealt(Grown(st, root, p), st1, root, p) && (Fine(st1, root, true) ==> st' == st1 && h' == h + 1)
    }

    lemma FineIs(page: PageNumber, isRoot: bool)
      requires page in pager.pages
      ensures var node := pager.pages[page];
        Fine(pager.pages, page, isRoot) <==>
          !IsOverflow(page) && !(node.cells == [] || (!isRoot && halfEmpty(Used(node))))
    {
    }

    lemma StepFine(st: Store, h: nat, page: PageNumber, parents: seq<PageNumber>)
      requires Configured() && page in st
      requires Fine(st, page, parents == []) || (parents == [] && st[page].cells == []
        && (st[page].IsLeaf() || |At(st, st[page].right).cells| * cellSize > UsableSpace(page)))
      ensures FirstStep(st, h, page, parents, st, h)
    {
    }

    lemma StepShrunk(st: Store, h: nat, page: PageNumber)
      requires Configured() && page in st && h > 0 && st[page].cells == [] && !st[page].IsLeaf()
      requires |At(st, st[page].right).cells| * cellSize <= UsableSpace(page)
      ensures FirstStep(st, h, page, [], Shrunk(st, page), h - 1)
    {
    }

    lemma StepDealt(st: Store, h: nat, page: PageNumber, parents: seq<PageNumber>, st1: Store, st': Store, h': nat)
      requires Configured() && page in st && parents != [] && !Fine(st, page, false)
      requires Dealt(st, st1, parents[|parents| - 1], page)
      requires Fine(st1, parents[|parents| - 1], |parents| == 1) ==> st' == st1
      ensures FirstStep(st, h, page, parents, st', h')
    {
      hide Dealt, Fine;
    }

    lemma StepGrown(st: Store, h: nat, p: PageNumber, st1: Store, st': Store, h': nat)
      requires Configured() && root in st && !Fine(st, root, true) && st[root].cells != [] && p != 0 && p !in st
      requires Dealt(Grown(st, root, p), st1, root, p) && (Fine(st1, root, true) ==> st' == st1 && h' == h + 1)
      ensures FirstStep(st, h, root, [], st', h')
    {
      hide Dealt, Fine;
      assert GrownFirst(st, h, st', h', p);
    }

    /** Restore the tree from page `page0`, whose ancestors are `parents0`. */
    method Balance(page0: PageNumber, parents0: seq<PageNumber>) returns (parents: seq<PageNumber>)
      requires Configured() && Ready(false, page0)
      requires IsPath(pager.pages, parents0 + [page0]) && (parents0 + [page0])[0] == root && |parents0| <= height
      modifies this, pager
      ensures Valid()
      ensures SameTree(old(pager.pages), pager.pages, root, old(height), height)
      ensures |parents| <= |parents0| && parents == parents0[..|parents|] && |parents| <= height
      ensures parents != [] ==> IsPath(pager.pages, parents)
      ensures page0 in old(pager.pages)
      ensures FirstStep(old(pager.pages), old(height), page0, parents0, pager.pages, height)
      decreases |parents0|, if page0 == root && page0 in pager.pages && IsOverflow(page0) then 1 else 0
    {
      hide Unsettled, Settled, IsPath, SameTree, Limits, Dealt, FirstStep, Fine;
      var page := page0;
      parents := parents0;
      ghost var st0, h0, path := pager.pages, height, parents0 + [page0];
      assert Last(path) == page;
      UnsettledForest(st0, root, height, Limits(), page, false);
      PathPlace(st0, path, height);
      var node := pager.pages[page];
      Fits(|node.cells|);
      FineIs(page, parents == []);
      var isRoot := parents == [];
      var isUnderflow := node.cells == [] || (!isRoot && halfEmpty(Used(node)));

      if !IsOverflow(page) && !isUnderflow {
        Balanced(st0, root, height, Limits(), page);
        SameTreeRefl(st0, root, height);
        PathParents(st0, parents0, page0);
        StepFine(st0, height, page, parents);
        return;
      }
      if isRoot && isUnderflow {
        TakeOverChild();
        return;
      }
      ghost var grown := false;
      if isRoot && IsOverflow(page) {
        var newPage := GrowRoot();
        parents, page, grown := [page], newPage, true;
        path := [root, newPage];
      }
      ghost var st1, h1 := pager.pages, height;
      var parentPage := parents[|parents| - 1];
      parents := parents[..|parents| - 1];
      Redistribute(page, parentPage, path, grown);
      assert parents + [parentPage] == path[..|path| - 1];
      if grown {
        Fits(|pager.pages[root].cells|);
        Fits(1);
      }
      ghost var st2, above := pager.pages, parents;
      parents := Balance(parentPage, parents);
      SameTreeTrans(st0, st1, st2, root, h0, h1, h1);
      SameTreeTrans(st0, st2, pager.pages, root, h0, h1, height);
      OnlyFirst(st2, h1, parentPage, above, pager.pages, height);
      if grown {
        StepGrown(st0, h0, page, st2, pager.pages, height);
      } else {
        StepDealt(st0, h0, page, parents0, st2, pager.pages, height);
      }
    }

    lemma OnlyFirst(st: Store, h: nat, page: PageNumber, parents: seq<PageNumber>, st': Store, h': nat)
      requires Configured() && page in st && FirstStep(st, h, page, parents, st', h')
      ensures Fine(st, page, parents == []) ==> st' == st && h' == h
    {
    }

    /** An empty root takes over its only child, if there is one and it fits. */
    method TakeOverChild()
      requires Configured() && Ready(false, root) && root in pager.pages && pager.pages[root].cells == []
      modifies this, pager
      ensures Valid() && SameTree(old(pager.pages), pager.pages, root, old(height), height)
      ensures FirstStep(old(pager.pages), old(height), root, [], pager.pages, height)
    {
      hide Unsettled, Settled, SameTree, Limits, FirstStep;
      ghost var st0 := pager.pages;
      UnsettledForest(st0, root, height, Limits(), root, false);
      var node := pager.pages[root];
      Fits(0);
      if node.IsLeaf() {
        LeafHeight(st0, root, height);
        Balanced(st0, root, height, Limits(), root);
        SameTreeRefl(st0, root, height);
        StepFine(st0, height, root, []);
        return;
      }
      var childPage := node.right;
      ChildThere(st0, root, height);
      Fits(|pager.pages[childPage].cells|);
      if UsableSpace(root) - Used(node) < Used(pager.pages[childPage]) {
        LargerChild(st0, root, height, Limits());
        SameTreeRefl(st0, root, height);
        StepFine(st0, height, root, []);
        return;
      }
      ShrinkSettles(st0, root, height, Limits());
      StepShrunk(st0, height, root);
      var child := pager.pages[childPage];
      pager.Free(childPage);
      pager.pages := pager.pages[root := Page(node.cells + child.cells, child.right)];
      height := height - 1;
      assert node.cells + child.cells == child.cells;
      assert pager.pages == Shrunk(st0, root);
    }

    /** Puts an overflowing root below a new one. */
    method GrowRoot() returns (newPage: PageNumber)
      requires Configured() && Ready(false, root) && root in pager.pages && pager.pages[root].cells != []
      modifies this, pager
      ensures newPage != 0 && newPage !in old(pager.pages) && height == old(height) + 1
      ensures pager.pages == Grown(old(pager.pages), root, newPage)
      ensures Ready(true, newPage) && SameTree(old(pager.pages), pager.pages, root, old(height), height)
      ensures IsPath(pager.pages, [root, newPage])
    {
      hide Unsettled, SameTree, Limits;
      ghost var st0 := pager.pages;
      UnsettledForest(st0, root, height, Limits(), root, false);
      newPage := pager.Alloc();
      GrowUnsettled(st0, root, height, Limits(), newPage);
      GrowTree(st0, root, height, newPage);
      pager.pages := pager.pages[newPage := pager.pages[root]];
      pager.pages := pager.pages[root := Page([], newPage)];
      assert pager.pages == Grown(st0, root, newPage);
      height := height + 1;
    }

    // ---- The tree as a finite map ----

    ghost function InOrder(): seq<Entry>
      reads this, pager
    {
      Order(pager.pages, At(pager.pages, root), height)
    }

    ghost predicate IsMap()
      reads this, pager
    {
      Valid() && Sorted(InOrder())
    }

    ghost function Contents(): map<int, Payload>
      reads this, pager
    {
      ToMap(InOrder())
    }

    /** Pages of the pager that are not the tree's. */
    ghost function Others(): Store
      reads this, pager
    {
      Foreign(pager.pages, root, height)
    }

    /** Index of the key in the page, or where it would have to be. */
    method BinarySearch(page: PageNumber, key: int) returns (found: bool, index: nat)
      requires page in pager.pages && SortedCells(pager.pages[page].cells)
      ensures index <= |pager.pages[page].cells|
      ensures found ==> index < |pager.pages[page].cells| && pager.pages[page].cells[index].entry.key == key
      ensures !found ==> forall j :: 0 <= j < index ==> pager.pages[page].cells[j].entry.key < key
      ensures !found ==>
        forall j :: index <= j < |pager.pages[page].cells| ==> key < pager.pages[page].cells[j].entry.key
    {
      var cells := pager.pages[page].cells;
      var size := |cells|;
      var left, right := 0, size;
      while left < right
        invariant 0 <= left <= right <= |cells| && size == right - left
        invariant forall j :: 0 <= j < left ==> cells[j].entry.key < key
        invariant forall j :: right <= j < |cells| ==> key < cells[j].entry.key
      {
        var mid := left + size / 2;
        if cells[mid].entry.key == key {
          return true, mid;
        } else if cells[mid].entry.key > key {
          right := mid;
        } else {
          left := mid + 1;
        }
        size := right - left;
      }
      return false, left;
    }

    /** Go down from `page` to the page that holds the key, or to the leaf it would belong to. */
    method Search(page: PageNumber, key: int, parents0: seq<PageNumber>, ghost h: nat)
      returns (at: PageNumber, found: bool, index: nat, parents: seq<PageNumber>, ghost path: seq<PageNumber>)
      requires Forest(pager.pages, [page], h) && Sorted(Order(pager.pages, At(pager.pages, page), h))
      ensures path != [] && IsPath(pager.pages, path) && path[0] == page && Last(path) == at && |path| <= h + 1
      ensures at in pager.pages
      ensures parents == parents0 + path[..|path| - 1]
      ensures index <= |pager.pages[at].cells|
      ensures found ==> index < |pager.pages[at].cells| && pager.pages[at].cells[index].entry.key == key
      ensures !found ==>
        && |path| == h + 1
        && (forall j :: 0 <= j < index ==> pager.pages[at].cells[j].entry.key < key)
        && (forall j :: index <= j < |pager.pages[at].cells| ==> key < pager.pages[at].cells[j].entry.key)
        && Below(Before(pager.pages, path, h), key) && Above(key, Beyond(pager.pages, path, h))
      decreases h
    {
      hide Forest, Reach, Order, Flat;
      ghost var st, pg := pager.pages, At(pager.pages, page);
      ForestOne(st, page, h);
      LeafHeight(st, page, h);
      CellsSorted(st, pg, h);
      found, index := BinarySearch(page, key);
      var node := pager.pages[page];
      if found || node.IsLeaf() {
        at, parents, path := page, parents0, [page];
        return;
      }
      var next := node.Child(index);
      DescendBounds(st, pg, index, h, key);
      ForestSplit(st, Children(pg), index, h - 1);
      assert Children(pg)[index] == next;
      ghost var below, i := [], index;
      at, found, index, parents, below := Search(next, key, parents0 + [page], h - 1);
      path := [page] + below;
      assert path[1..] == below && parents0 + [page] + below[..|below| - 1] == parents0 + path[..|path| - 1];
      if !found {
        ChildOnce(st, page, i, h);
      }
    }

    /** The greatest or the least entry below a page: always last child, or always first. */
    method SearchLeafKey(page: PageNumber, parents0: seq<PageNumber>, max: bool, ghost h: nat)
      returns (leaf: PageNumber, keyIdx: nat, parents: seq<PageNumber>, ghost path: seq<PageNumber>)
      requires Forest(pager.pages, [page], h)
      ensures path != [] && IsPath(pager.pages, path) && path[0] == page && Last(path) == leaf && |path| == h + 1
      ensures leaf in pager.pages
      ensures parents == parents0 + path[..|path| - 1]
      ensures max ==> Beyond(pager.pages, path, h) == []
      ensures !max ==> Before(pager.pages, path, h) == []
      ensures keyIdx == if max && |pager.pages[leaf].cells| > 0 then |pager.pages[leaf].cells| - 1 else 0
      decreases h
    {
      hide Forest, Reach, Order, Flat;
      ghost var st, pg := pager.pages, At(pager.pages, page);
      ForestOne(st, page, h);
      LeafHeight(st, page, h);
      var node := pager.pages[page];
      keyIdx := if max && |node.cells| > 0 then |node.cells| - 1 else 0;
      var childIdx := if max then |node.cells| else 0;
      if node.IsLeaf() {
        leaf, parents, path := page, parents0, [page];
        return;
      }
      var child := node.Child(childIdx);
      ForestSplit(st, Children(pg), childIdx, h - 1);
      assert Children(pg)[childIdx] == child;
      ghost var below;
      leaf, keyIdx, parents, below := SearchLeafKey(child, parents0 + [page], max, h - 1);
      path := [page] + below;
      assert path[1..] == below && parents0 + [page] + below[..|below| - 1] == parents0 + path[..|path| - 1];
      ChildOnce(st, page, childIdx, h);
      FlatNil(st, h);
      assert pg.cells[..0] == [];
    }

    /** What is stored under a key. */
    method Get(key: int) returns (r: Option<Payload>)
      requires IsMap()
      ensures r == if key in Contents() then Some(Contents()[key]) else None
    {
      hide Forest, Reach, Order, Flat, Before, Beyond;
      ghost var st := pager.pages;
      var at, found, index, parents; ghost var path;
      at, found, index, parents, path := Search(root, key, [], height);
      if !found {
        InsertLeaf(st, path, height, index, Entry(key, []));
        LeafSides(st, path, height, index, key);
        MapMissing(Before(st, path, height) + Entries(pager.pages[at].cells[..index]), key,
                   Entries(pager.pages[at].cells[index..]) + Beyond(st, path, height));
        return None;
      }
      var e := pager.pages[at].cells[index].entry;
      CellPlace(st, path, height, index);
      SortedAround(Preceding(st, path, height, index), e, Following(st, path, height, index));
      MapAround(Preceding(st, path, height, index), e, Following(st, path, height, index));
      return Some(e.payload);
    }

    /** The greatest entry of the tree. */
    method Max() returns (r: Option<Entry>)
      requires IsMap()
      ensures r == if InOrder() == [] then None else Some(InOrder()[|InOrder()| - 1])
    {
      hide Forest, Reach, Order, Flat, Before, Beyond;
      ghost var st := pager.pages;
      var page, slot, parents; ghost var path;
      page, slot, parents, path := SearchLeafKey(root, [], true, height);
      PathReach(st, path, height);
      ForestOne(st, page, 0);
      ReachHas(st, [page], 0, 0);
      LeafPlace(st, path, height, pager.pages[page]);
      if pager.pages[page].cells == [] {
        OnlyRootEmpty(st, root, height, Limits(), path);
        return None;
      }
      return Some(pager.pages[page].cells[slot].entry);
    }

    /** The tree is one leaf, of keys below `key`. */
    ghost predicate OneLeafBelow(key: int)
      reads this, pager
    {
      && height == 0 && root in pager.pages
      && forall i :: 0 <= i < |pager.pages[root].cells| ==> pager.pages[root].cells[i].entry.key < key
    }

    /** The entry behind all others in the root, before balancing. */
    ghost function WithLast(entry: Entry): Store
      reads this, pager
    {
      var node := At(pager.pages, root);
      pager.pages[root := Page(node.cells + [Cell(entry, 0)], node.right)]
    }

    lemma EmptyMap()
      requires Valid() && InOrder() == []
      ensures IsMap()
    {
    }

    /** Before a greater key goes into a leaf. */
    lemma LastLeafKey(keys: seq<int>, n: nat)
      requires height == 0 && root in pager.pages && n < |keys| && pager.pages[root] == LeafOf(keys[..n])
      requires forall i, j :: 0 <= i < j < |keys| ==> keys[i] < keys[j]
      ensures OneLeafBelow(keys[n])
      ensures root in WithLast(Entry(keys[n], [])) && WithLast(Entry(keys[n], []))[root] == LeafOf(keys[..n + 1])
    {
      assert keys[..n + 1] == keys[..n] + [keys[n]];
      assert LeafOf(keys[..n + 1]).cells == LeafOf(keys[..n]).cells + [LeafCell(keys[n])];
    }

    lemma LeafFits(keys: seq<int>, n: nat, st: Store, st': Store, h: nat)
      requires Configured() && cellSize == 10 && UsableSpace(root) == 30 && n < 3 && n < |keys|
      requires root in st && st[root] == LeafOf(keys[..n + 1]) && FirstStep(st, 0, root, [], st', h)
      ensures st' == st && h == 0
    {
    }

    lemma LeafSplits(st: Store, st': Store, h: nat)
      requires Configured() && cellSize == 10 && usable == 30 && zeroUsable == 30 && root != 0
      requires root in st && st[root] == LeafOf([1, 2, 3, 4]) && FirstStep(st, 0, root, [], st', h)
      ensures h == 1 && exists a, b :: FirstSplit(st', root, a, b)
    {
      hide DealtAgain, LeafOf, FirstSplit;
      LeafOfSize([1, 2, 3, 4]);
      var p :| p != 0 && p !in st && GrownFirst(st, 0, st', h, p);
      var st1 :| Dealt(Grown(st, root, p), st1, root, p) && (Fine(st1, root, true) ==> st' == st1 && h == 1);
      assert Limits().cap == 3 && HalfCount() == 2;
      FourDealt(st, root, p, st1, siblingsPerSide);
      var a, b :| FirstSplit(st1, root, a, b);
      SplitFine(st1, a, b);
    }

    lemma SplitFine(st: Store, a: PageNumber, b: PageNumber)
      requires cellSize == 10 && UsableSpace(root) == 30 && FirstSplit(st, root, a, b)
      ensures Fine(st, root, true)
    {
    }

    /** Store an entry: a new one in its leaf, or in place of the one with its key. */
    method Insert(entry: Entry)
      requires IsMap()
      modifies this, pager
      ensures old(OneLeafBelow(entry.key)) ==> FirstStep(old(WithLast(entry)), 0, root, [], pager.pages, height)
      ensures IsMap()
      ensures Contents() == old(Contents())[entry.key := entry.payload]
      ensures Others() == old(Others())
    {
      hide Forest, Reach, Order, Flat, Before, Beyond, IsPath, Settled, Unsettled, Foreign, Sorted, ToMap;
      ghost var st := pager.pages;
      SettledForest(st, root, height, Limits());
      var at, found, index, parents; ghost var path;
      at, found, index, parents, path := Search(root, entry.key, [], height);
      var node := pager.pages[at];
      ghost var x, y;
      if found {
        var cell := Cell(entry, node.cells[index].left);
        x, y := Preceding(st, path, height, index), Following(st, path, height, index);
        CellPlace(st, path, height, index);
        EditEntry(st, path, height, index, entry);
        ReplacedMap(x, node.cells[index].entry, entry, y);
        pager.pages := pager.pages[at := Page(node.cells[index := cell], node.right)];
        assert pager.pages[at] == WithEntry(node, index, entry);
      } else {
        x, y := Before(st, path, height) + Entries(node.cells[..index]),
          Entries(node.cells[index..]) + Beyond(st, path, height);
        InsertLeaf(st, path, height, index, entry);
        LeafSides(st, path, height, index, entry.key);
        InsertedMap(x, entry, y);
        pager.pages := pager.pages[at := Page(node.cells[..index] + [Cell(entry, 0)] + node.cells[index..],
          node.right)];
      }
      Edited(st, pager.pages, root, height, Limits(), at);
      assert parents + [at] == path by { assert path[..|path| - 1] + [Last(path)] == path; }
      if old(OneLeafBelow(entry.key)) {
        assert |path| == 1 && at == root;
        assert !found && index == |node.cells|;
        assert node.cells[..index] + [Cell(entry, 0)] + node.cells[index..] == node.cells + [Cell(entry, 0)];
      }
      var rest := Balance(at, parents);
    }

    /** Insert unless the key is there already. */
    method TryInsert(entry: Entry) returns (inserted: bool)
      requires IsMap()
      modifies this, pager
      ensures IsMap()
      ensures inserted == (entry.key !in old(Contents()))
      ensures Contents() == if inserted then old(Contents())[entry.key := entry.payload] else old(Contents())
      ensures Others() == old(Others())
    {
      hide Forest, Reach, Order, Flat, Before, Beyond, IsPath, Settled, Unsettled, Foreign, Sorted, ToMap;
      ghost var st := pager.pages;
      SettledForest(st, root, height, Limits());
      var at, found, index, parents; ghost var path;
      at, found, index, parents, path := Search(root, entry.key, [], height);
      var node := pager.pages[at];
      if found {
        CellPlace(st, path, height, index);
        SortedAround(Preceding(st, path, height, index), node.cells[index].entry, Following(st, path, height, index));
        MapAround(Preceding(st, path, height, index), node.cells[index].entry, Following(st, path, height, index));
        return false;
      }
      ghost var x, y := Before(st, path, height) + Entries(node.cells[..index]),
        Entries(node.cells[index..]) + Beyond(st, path, height);
      InsertLeaf(st, path, height, index, entry);
      LeafSides(st, path, height, index, entry.key);
      InsertedMap(x, entry, y);
      MapMissing(x, entry.key, y);
      pager.pages := pager.pages[at := Page(node.cells[..index] + [Cell(entry, 0)] + node.cells[index..], node.right)];
      Edited(st, pager.pages, root, height, Limits(), at);
      assert parents + [at] == path by { assert path[..|path| - 1] + [Last(path)] == path; }
      var rest := Balance(at, parents);
      inserted := true;
    }

    /** Take the entry with the key out of its page; in an internal node its neighbour among the
        leaves takes its place.  The leaf that lost a cell is left for `Balance`. */
    method RemoveEntry(key: int) returns (removal: Option<Removal>, parents: seq<PageNumber>)
      requires IsMap()
      modifies pager
      ensures removal.None? ==> pager.pages == old(pager.pages) && key !in Contents()
      ensures removal.Some? ==>
        && key in old(Contents()) && removal.value.entry == Entry(key, old(Contents())[key])
        && Sorted(InOrder()) && Contents() == old(Contents()) - {key}
        && Others() == old(Others())
        && Ready(false, removal.value.leaf)
        && IsPath(pager.pages, parents + [removal.value.leaf]) && (parents + [removal.value.leaf])[0] == root
          && |parents| <= height
    {
      hide Forest, Reach, Order, Flat, Before, Beyond, IsPath, Settled, Unsettled, Foreign, Sorted;
      hide ToMap, Preceding, Following;
      ghost var st := pager.pages;
      SettledForest(st, root, height, Limits());
      var at, found, index; ghost var path;
      at, found, index, parents, path := Search(root, key, [], height);
      var node := pager.pages[at];
      assert path[..|path| - 1] + [Last(path)] == path;
      if !found {
        InsertLeaf(st, path, height, index, Entry(key, []));
        LeafSides(st, path, height, index, key);
        MapMissing(Before(st, path, height) + Entries(node.cells[..index]), key,
          Entries(node.cells[index..]) + Beyond(st, path, height));
        return None, parents;
      }
      AtHeight(st, path, height);
      var removed;
      removed, parents := TakeOut(at, index, parents, path);
      return Some(removed), parents;
    }

    /** Take entry `index` out of the node `at` at the end of `path`. */
    method TakeOut(at: PageNumber, index: nat, parents0: seq<PageNumber>, ghost path: seq<PageNumber>)
      returns (removal: Removal, parents: seq<PageNumber>)
      requires IsMap() && path != [] && IsPath(pager.pages, path) && path[0] == root && |path| <= height + 1
      requires Last(path) == at && parents0 + [at] == path
      requires at in pager.pages && index < |pager.pages[at].cells|
      requires Forest(pager.pages, [at], height + 1 - |path|)
      modifies pager
      ensures var entry := old(pager.pages)[at].cells[index].entry;
        entry.key in old(Contents()) && removal.entry == entry && old(Contents())[entry.key] == entry.payload
        && Sorted(InOrder()) && Contents() == old(Contents()) - {entry.key}
      ensures Others() == old(Others()) && Ready(false, removal.leaf)
      ensures IsPath(pager.pages, parents + [removal.leaf]) && (parents + [removal.leaf])[0] == root
      ensures |parents| <= height
    {
      hide Forest, Reach, Order, Flat, Before, Beyond, IsPath, Settled, Unsettled, Foreign, Sorted;
      hide ToMap, Preceding, Following;
      ghost var st := pager.pages;
      SettledForest(st, root, height, Limits());
      var node := pager.pages[at];
      parents := parents0;
      var entry := node.cells[index].entry;
      CellPlace(st, path, height, index);
      AtHeight(st, path, height);
      if node.IsLeaf() {
        RemoveLeaf(st, path, height, index);
        RemovedMap(Before(st, path, height) + Entries(node.cells[..index]), entry,
          Entries(node.cells[index + 1..]) + Beyond(st, path, height));
        pager.pages := pager.pages[at := Page(node.cells[..index] + node.cells[index + 1..], node.right)];
        Edited(st, pager.pages, root, height, Limits(), at);
        assert parents + [at] == path;
        return Removal(entry, at, None), parents;
      }
      parents := parents + [at];
      var leaf;
      leaf, parents := Substitute(at, index, parents, path);
      RemovedMap(Preceding(st, path, height, index), entry, Following(st, path, height, index));
      return Removal(entry, leaf, Some(at)), parents;
    }

    /** Put the entry next to cell `index` of the internal node `at` in its place: the greatest of
        the left subtree, or the least of the right one if the right child has more cells. */
    method Substitute(at: PageNumber, index: nat, parents0: seq<PageNumber>, ghost path: seq<PageNumber>)
      returns (leaf: PageNumber, parents: seq<PageNumber>)
      requires Valid() && path != [] && IsPath(pager.pages, path) && path[0] == root && parents0 == path
      requires |path| <= height
      requires Last(path) == at && at in pager.pages && index < |pager.pages[at].cells|
      requires Forest(pager.pages, [at], height + 1 - |path|)
      modifies pager
      ensures InOrder()
        == old(Preceding(pager.pages, path, height, index) + Following(pager.pages, path, height, index))
      ensures Others() == old(Others()) && Ready(false, leaf)
      ensures IsPath(pager.pages, parents + [leaf]) && (parents + [leaf])[0] == root && |parents| <= height
      ensures var node := old(pager.pages[at]); var left, right := node.Child(index), node.Child(index + 1);
        && left in old(pager.pages) && right in old(pager.pages) && path < parents + [leaf]
        && (parents + [leaf])[|path|]
          == if |old(pager.pages)[left].cells| >= |old(pager.pages)[right].cells| then left else right
    {
      hide Forest, Reach, Order, Flat, Before, Beyond, IsPath, Settled, Unsettled, Foreign;
      hide Preceding, Following, SubOrder;
      ghost var st := pager.pages;
      SettledForest(st, root, height, Limits());
      var node := pager.pages[at];
      var left, right := node.Child(index), node.Child(index + 1);
      ghost var hq := height + 1 - |path|;
      TwoKids(st, at, index, hq);
      AtHeight(st, path, height);
      var max := |pager.pages[left].cells| >= |pager.pages[right].cells|;
      var k; ghost var below;
      leaf, k, parents, below := SearchLeafKey(if max then left else right, parents0, max, hq - 1);
      NeverEmpty(st, path, below, height, Limits(), index);
      SubstituteTop(st, path, height, index, below, k);
      var leafPage := pager.pages[leaf];
      var substitute := leafPage.cells[k];
      pager.pages := pager.pages[leaf := Page(leafPage.cells[..k] + leafPage.cells[k + 1..], leafPage.right)];
      pager.pages := pager.pages[at := Page(node.cells[index := Cell(substitute.entry, node.Child(index))],
        node.right)];
      assert pager.pages == Substituted(st, at, index, below, k);
      SubstitutedEdit(st, pager.pages, root, height, Limits(), at, leaf);
      assert parents + [leaf] == path + below by { assert below[..|below| - 1] + [Last(below)] == below; }
    }

    /** Remove the entry with the key, if there is one. */
    method Remove(key: int) returns (r: Option<Entry>)
      requires IsMap()
      modifies this, pager
      ensures IsMap()
      ensures r == if key in old(Contents()) then Some(Entry(key, old(Contents())[key])) else None
      ensures Contents() == old(Contents()) - {key}
      ensures Others() == old(Others())
    {
      hide Order, IsPath, Settled, Unsettled, Foreign, Sorted, ToMap;
      var removal, parents := RemoveEntry(key);
      if removal.None? {
        return None;
      }
      parents := Balance(removal.value.leaf, parents);
      if removal.value.internal.Some? {
        var node := removal.value.internal.value;
        if node in parents {
          var index := IndexOf(parents, node);
          assert parents[..index] + [node] == parents[..index + 1];
          PathPrefix(pager.pages, parents, index + 1);
          SettledAgain(pager.pages, root, height, Limits(), parents[..index + 1]);
          parents := Balance(node, parents[..index]);
        }
      }
      return Some(removal.value.entry);
    }

    /** Any run of insertions and removals is the same run on a finite map. */
    method Run(ops: seq<Op>)
      requires IsMap()
      modifies this, pager
      ensures IsMap()
      ensures Contents() == RunOn(old(Contents()), ops)
      ensures Others() == old(Others())
    {
      hide Valid, Sorted, ToMap, Order, Foreign, Limits;
      for i := 0 to |ops|
        invariant IsMap()
        invariant RunOn(Contents(), ops[i..]) == RunOn(old(Contents()), ops)
        invariant Others() == old(Others())
      {
        assert ops[i..][1..] == ops[i + 1..];
        match ops[i]
        case Put(e) => Insert(e);
        case Delete(k) => var r := Remove(k);
      }
    }
  }

  datatype Removal = Removal(entry: Entry, leaf: PageNumber, internal: Option<PageNumber>)

  datatype Op = Put(entry: Entry) | Delete(key: int)

  function RunOn(m: map<int, Payload>, ops: seq<Op>): map<int, Payload>
    decreases |ops|
  {
    if ops == [] then m
    else match ops[0]
      case Put(e) => RunOn(m[e.key := e.payload], ops[1..])
      case Delete(k) => RunOn(m - {k}, ops[1..])
  }

  /** A child's position in its parent is its first. */
  lemma ChildOnce(st: Store, p: PageNumber, i: nat, h: nat)
    requires h > 0 && Forest(st, [p], h) && i <= |At(st, p).cells|
    ensures At(st, p).Child(i) in Children(At(st, p)) && IndexOf(Children(At(st, p)), At(st, p).Child(i)) == i
  {
    var pg := At(st, p);
    Kids(st, p, 0, |pg.cells| + 1, h);
    var kids := Children(pg);
    assert kids[0..|pg.cells| + 1] == kids;
    assert kids[i] == pg.Child(i);
    var j := IndexOf(kids, pg.Child(i));
  }

  lemma SettledForest(st: Store, root: PageNumber, h: nat, room: Room)
    requires Settled(st, root, h, room)
    ensures Forest(st, [root], h) && Reach(st, [root], h) <= st.Keys
  {
    ForestIn(st, [root], h);
  }

  /** After an edit of one page that adds at most one cell and moves no child. */
  lemma Edited(st: Store, st': Store, root: PageNumber, h: nat, room: Room, p: PageNumber)
    requires Settled(st, root, h, room) && p in Reach(st, [root], h) && p in st
    requires Forest(st', [root], h) && Reach(st', [root], h) == Reach(st, [root], h)
    requires p in st' && st' == st[p := st'[p]] && |st'[p].cells| <= |st[p].cells| + 1
    ensures Unsettled(st', root, h, room, p, false)
    ensures Foreign(st', root, h) == Foreign(st, root, h)
  {
    hide Forest, Reach;
  }

  lemma SubstitutedEdit(st: Store, st': Store, root: PageNumber, h: nat, room: Room, q: PageNumber, leaf: PageNumber)
    requires Settled(st, root, h, room) && q in Reach(st, [root], h) && leaf in Reach(st, [root], h) && leaf != q
    requires leaf != root
    requires Reach(st, [root], h) <= st.Keys
    requires Forest(st', [root], h) && Reach(st', [root], h) == Reach(st, [root], h)
    requires q in st' && leaf in st' && st' == st[leaf := st'[leaf]][q := st'[q]]
    requires |st'[q].cells| == |At(st, q).cells| && |st'[leaf].cells| <= |At(st, leaf).cells| + 1
    ensures Unsettled(st', root, h, room, leaf, false)
    ensures Foreign(st', root, h) == Foreign(st, root, h)
  {
    hide Forest, Reach;
    assert forall p :: p in Reach(st, [root], h) ==> p in st;
    forall p | p in Reach(st, [root], h) && p != leaf ensures |At(st', p).cells| == |At(st, p).cells| {
    }
    assert At(st', root).cells == [] <==> At(st, root).cells == [];
  }

  lemma SettledAgain(st: Store, root: PageNumber, h: nat, room: Room, path: seq<PageNumber>)
    requires Settled(st, root, h, room) && IsPath(st, path) && path[0] == root && |path| <= h + 1
    ensures Unsettled(st, root, h, room, Last(path), false)
  {
    hide Forest, Reach;
    PathReach(st, path, h);
    assert Last(path) in path;
  }

  lemma OnlyRootEmpty(st: Store, root: PageNumber, h: nat, room: Room, path: seq<PageNumber>)
    requires Settled(st, root, h, room) && IsPath(st, path) && path[0] == root && |path| == h + 1
    requires At(st, Last(path)).cells == []
    ensures h == 0 && Order(st, At(st, root), h) == []
  {
    PathReach(st, path, h);
    PathPlace(st, path, h);
    assert Last(path) in path;
    FlatNil(st, 0);
  }

  lemma AtHeight(st: Store, path: seq<PageNumber>, h: nat)
    requires IsPath(st, path) && |path| <= h + 1 && Forest(st, [path[0]], h)
    ensures At(st, Last(path)).IsLeaf() <==> |path| == h + 1
    ensures Last(path) in Reach(st, [path[0]], h) && Forest(st, [Last(path)], h + 1 - |path|)
  {
    hide Forest, Reach;
    PathReach(st, path, h);
    LeafHeight(st, Last(path), h + 1 - |path|);
    assert Last(path) in path;
  }

  lemma TwoKids(st: Store, p: PageNumber, i: nat, h: nat)
    requires h > 0 && Forest(st, [p], h) && i < |At(st, p).cells|
    ensures var pg := At(st, p);
      && pg.Child(i) in st && pg.Child(i + 1) in st
      && Forest(st, [pg.Child(i)], h - 1) && Forest(st, [pg.Child(i + 1)], h - 1)
  {
    hide Forest, Reach;
    ForestOne(st, p, h);
    var pg := At(st, p);
    var kids := Children(pg);
    ForestSplit(st, kids, i, h - 1);
    ForestSplit(st, kids, i + 1, h - 1);
    assert kids[i] == pg.Child(i) && kids[i + 1] == pg.Child(i + 1);
    ForestOne(st, kids[i], h - 1);
    ForestOne(st, kids[i + 1], h - 1);
  }

  /** The leaf a substitute comes from has one to give. */
  lemma NeverEmpty(st: Store, path: seq<PageNumber>, below: seq<PageNumber>, h: nat, room: Room, i: nat)
    requires path != [] && Settled(st, path[0], h, room) && IsPath(st, path) && |path| <= h
    requires i < |At(st, Last(path)).cells| && IsPath(st, below) && |below| == h + 1 - |path|
    requires below[0] == At(st, Last(path)).Child(i) || below[0] == At(st, Last(path)).Child(i + 1)
    ensures At(st, Last(below)).cells != []
  {
    hide Forest, Reach;
    var pg := At(st, Last(path));
    assert Children(pg)[i] == pg.Child(i) && Children(pg)[i + 1] == pg.Child(i + 1);
    PathConcat(st, path, below);
    PathReach(st, path + below, h);
    PathPlace(st, path + below, h);
    assert Last(path + below) == Last(below);
    assert Last(below) in path + below;
  }

  lemma SameTreeRefl(st: Store, root: PageNumber, h: nat)
    ensures SameTree(st, st, root, h, h)
  {
  }

  lemma SameTreeTrans(st0: Store, st1: Store, st2: Store, root: PageNumber, h0: nat, h1: nat, h2: nat)
    requires SameTree(st0, st1, root, h0, h1) && SameTree(st1, st2, root, h1, h2)
    ensures SameTree(st0, st2, root, h0, h2)
  {
  }

  lemma PathParents(st: Store, parents: seq<PageNumber>, page: PageNumber)
    requires IsPath(st, parents + [page])
    ensures parents != [] ==> IsPath(st, parents)
  {
    if parents != [] {
      PathPrefix(st, parents + [page], |parents|);
      assert (parents + [page])[..|parents|] == parents;
    }
  }

  lemma LeafHeight(st: Store, root: PageNumber, h: nat)
    requires Forest(st, [root], h)
    ensures At(st, root).IsLeaf() <==> h == 0
  {
    assert At(st, root).Child(|At(st, root).cells|) == At(st, root).right;
  }

  lemma UnsettledForest(st: Store, root: PageNumber, h: nat, room: Room, page: PageNumber, grown: bool)
    requires Unsettled(st, root, h, room, page, grown)
    ensures Forest(st, [root], h) && Reach(st, [root], h) <= st.Keys
  {
    ForestIn(st, [root], h);
  }

  /** The end of a path is the root exactly when there are no parents, and is never page zero else. */
  lemma PathPlace(st: Store, path: seq<PageNumber>, h: nat)
    requires IsPath(st, path) && |path| <= h + 1 && Forest(st, [path[0]], h)
    ensures Last(path) in st
    ensures |path| > 1 ==> Last(path) != path[0] && Last(path) != 0
  {
    if |path| > 1 {
      PathBelow(st, path, h);
    }
    PathReach(st, path, h);
    ForestIn(st, [path[0]], h);
  }

  lemma ChildThere(st: Store, root: PageNumber, h: nat)
    requires Forest(st, [root], h) && !At(st, root).IsLeaf() && At(st, root).cells == []
    ensures h > 0 && At(st, root).right in st && At(st, root).right != root
  {
    LeafHeight(st, root, h);
    ShrinkTree(st, root, h);
    ForestIn(st, [root], h);
  }

  /** An empty root whose child does not fit it: only a root smaller than other pages comes here. */
  lemma LargerChild(st: Store, root: PageNumber, h: nat, room: Room)
    requires Unsettled(st, root, h, room, root, false) && Sound(room)
    requires h > 0 && At(st, root).cells == [] && |At(st, At(st, root).right).cells| > room.rootCap
    ensures Settled(st, root, h, room)
  {
    hide Forest, Reach;
    ShrinkTree(st, root, h);
  }

  // ---- The first split ----

  /** Four cells over pages for three are spread two and one, with one divider. */
  lemma FourCounts(counts: seq<nat>)
    requires Distribution.LeftBiased(counts, 4, 3, 2)
    ensures counts == [2, 1]
  {
    hide Distribution.LeftBiased, Distribution.Shifted;
    TwoPagesNeeded(counts);
    FourShifted();
    Distribution.PageCount(counts, 4, 3, 2, 0);
    Distribution.PageCount(counts, 4, 3, 2, 1);
  }

  lemma TwoPagesNeeded(counts: seq<nat>)
    requires Distribution.LeftBiased(counts, 4, 3, 2)
    ensures |counts| == 2
  {
    hide Distribution.Shifted;
  }

  lemma FourShifted()
    ensures Distribution.Shifted(0, 2, 4, 3, 2) == 1 && Distribution.Shifted(1, 2, 4, 3, 2) == 2
  {
    assert Distribution.Lacking(1, 2, 4, 3, 2) == 2;
  }

  lemma LeafOfSize(keys: seq<int>)
    ensures |LeafOf(keys).cells| == |keys| && LeafOf(keys).right == 0
  {
  }

  function LeafCell(key: int): Cell { Cell(Entry(key, []), 0) }

  function LeafOf(keys: seq<int>): Page {
    Page(seq(|keys|, i requires 0 <= i < |keys| => LeafCell(keys[i])), 0)
  }

  /** The pages of the leaf with keys 1 to 4 after the first split. */
  ghost predicate FirstSplit(st: Store, root: PageNumber, a: PageNumber, b: PageNumber) {
    && a in st && b in st && root in st
    && st[root] == Page([Cell(Entry(3, []), a)], b) && st[a] == LeafOf([1, 2]) && st[b] == LeafOf([4])
  }

  lemma FourDealt(st: Store, root: PageNumber, p: PageNumber, st': Store, siblingsPerSide: nat)
    requires root in st && st[root] == LeafOf([1, 2, 3, 4]) && p !in st && root != 0 && p != 0
    requires DealtAgain(Grown(st, root, p), st', root, p, siblingsPerSide, 3, 2)
    ensures exists a, b :: FirstSplit(st', root, a, b)
  {
    hide Counts, Distribution.LeftBiased;
    var g := Grown(st, root, p);
    assert Children(g[root]) == [p];
    var lo, hi := From(g[root], p, siblingsPerSide), To(g[root], p, siblingsPerSide);
    assert lo == 0 && hi == 1;
    var nums, ds, counts :| DealtOver(g, st', root, lo, hi, 3, 2, nums, ds, counts);
    assert Children(g[root])[0..1] == [p] && Entries(g[root].cells[0..0]) == [];
    JoinOnly(g, p);
    CountsSome(counts);
    TwoPages(st', root, nums, ds);
  }

  lemma CountsSome(counts: seq<nat>)
    requires Counts(counts, 4, 3, 2)
    ensures counts == [2, 1]
  {
    FourCounts(counts);
  }

  lemma JoinOnly(st: Store, p: PageNumber)
    ensures Join(Pages(st, [p]), []) == At(st, p)
  {
    assert Pages(st, [p])[..0] == [];
  }

  lemma TwoPages(st: Store, root: PageNumber, nums: seq<PageNumber>, ds: seq<Entry>)
    requires Spread(st, nums, ds, LeafOf([1, 2, 3, 4]).cells, 0, [2, 1])
    requires root in st && st[root] == Parent([], nums, ds, Page([], nums[1]))
    ensures |nums| == 2 && FirstSplit(st, root, nums[0], nums[1])
  {
    var a, b := At(st, nums[0]), At(st, nums[1]);
    assert Pages(st, nums) == [a, b] && [a, b][..1] == [a] && ds == [ds[0]] && ds[..1] == ds;
    assert Cat([a], ds) == a.cells + [Cell(ds[0], a.right)] by {
      assert [a][..0] == [] && ds[..0] == [] && Cat([], []) == [];
    }
    var all := a.cells + [Cell(ds[0], a.right)] + b.cells;
    assert all == LeafOf([1, 2, 3, 4]).cells;
    assert a.cells == all[..2] && all[2] == Cell(ds[0], a.right) && b.cells == all[3..];
    assert a == LeafOf([1, 2]) && b == LeafOf([4]) && ds[0] == Entry(3, []);
    assert nums[..1] == [nums[0]];
  }

  /** Keys 1 to 4 on pages for three cells: the root has key 3 over the leaves [1, 2] and [4]. */
  method SplitRoot(pager: Pager, root: PageNumber, siblingsPerSide: nat, halfEmpty: nat -> bool) returns (tree: BTree)
    requires siblingsPerSide >= 1 && root != 0 && root in pager.pages && pager.pages[root] == EMPTY_PAGE
    modifies pager
    ensures tree.IsMap() && tree.pager == pager && tree.root == root && tree.height == 1
    ensures exists a, b :: FirstSplit(pager.pages, root, a, b)
  {
    hide BTree.FirstStep, BTree.WithLast, BTree.OneLeafBelow, BTree.Contents, BTree.IsMap;
    hide BTree.Others, LeafOf, FirstSplit;
    tree := new BTree(pager, root, 10, 30, 30, siblingsPerSide, halfEmpty);
    tree.EmptyMap();
    EmptyLeafOf();
    var keys := [1, 2, 3, 4];
    for n := 0 to 3
      invariant fresh(tree) && tree.pager == pager && tree.root == root && tree.IsMap()
      invariant tree.cellSize == 10 && tree.usable == 30 && tree.zeroUsable == 30
      invariant tree.siblingsPerSide == siblingsPerSide >= 1
      invariant tree.height == 0 && root in pager.pages && pager.pages[root] == LeafOf(keys[..n])
    {
      tree.LastLeafKey(keys, n);
      ghost var st := tree.WithLast(Entry(keys[n], []));
      tree.Insert(Entry(keys[n], []));
      tree.LeafFits(keys, n, st, pager.pages, tree.height);
    }
    tree.LastLeafKey(keys, 3);
    ghost var st := tree.WithLast(Entry(4, []));
    tree.Insert(Entry(4, []));
    assert keys[..4] == keys;
    tree.LeafSplits(st, pager.pages, tree.height);
  }

  lemma EmptyLeafOf()
    ensures LeafOf([]) == EMPTY_PAGE
  {
  }
}
