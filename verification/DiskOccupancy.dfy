/** How full the pages of the disk B-tree are, before, during and after `balance`. */
module DiskOccupancy {
  import opened PageTrees
  import opened PagePaths
  import opened PageRows
  import opened PageEdits
  import opened DiskDeal

  /** How many cells fit a page, and how many fit the root (page zero has less room). */
  datatype Room = Room(cap: nat, rootCap: nat)

  ghost predicate Sound(room: Room) {
    room.cap >= 2 && 1 <= room.rootCap <= room.cap
  }

  /** A tree `balance` has nothing to do on: no page but the root is ever empty, none overflows,
      and a root with as much room as the others is empty only when it is all there is. */
  ghost predicate Settled(st: Store, root: PageNumber, h: nat, room: Room) {
    && Forest(st, [root], h)
    && (forall p :: p in Reach(st, [root], h) && p != root ==> 1 <= |At(st, p).cells| <= room.cap)
    && |At(st, root).cells| <= room.rootCap
    && (room.rootCap == room.cap && h > 0 ==> At(st, root).cells != [])
  }

  /** The tree `balance` is called on: all is well but for `page`, which may hold one cell too many
      or too few; and a smaller root that has become empty may have an empty child. */
  ghost predicate Unsettled(st: Store, root: PageNumber, h: nat, room: Room, page: PageNumber, grown: bool) {
    && Forest(st, [root], h)
    && page in Reach(st, [root], h)
    && (forall p :: p in Reach(st, [root], h) && p != root && p != page ==>
          && |At(st, p).cells| <= room.cap
          && (At(st, p).cells != [] || Slack(st, root, room, page, p)))
    && |At(st, page).cells| <= (if page == root then room.rootCap else room.cap) + 1
    && (page != root ==>
          && |At(st, root).cells| <= room.rootCap
          && (room.rootCap == room.cap && h > 0 ==> At(st, root).cells != [] || (grown && At(st, page).cells != [])))
  }

  ghost predicate Slack(st: Store, root: PageNumber, room: Room, page: PageNumber, p: PageNumber) {
    room.rootCap < room.cap && page == root && At(st, root).cells == [] && p == At(st, root).right
  }

  /** The pages of the store that do not belong to the tree. */
  ghost function Foreign(st: Store, root: PageNumber, h: nat): Store {
    st - Reach(st, [root], h)
  }

  /** A tree with the same entries, in the same store. */
  ghost predicate SameTree(st: Store, st': Store, root: PageNumber, h: nat, h': nat) {
    && Order(st', At(st', root), h') == Order(st, At(st, root), h)
    && Foreign(st', root, h') == Foreign(st, root, h)
  }

  lemma Balanced(st: Store, root: PageNumber, h: nat, room: Room, page: PageNumber)
    requires Unsettled(st, root, h, room, page, false)
    requires |At(st, page).cells| <= if page == root then room.rootCap else room.cap
    requires At(st, page).cells != [] || (page == root && h == 0)
    ensures Settled(st, root, h, room)
  {
    hide Forest, Reach;
    if h == 0 {
      OnlyRoot(st, root);
    }
  }

  lemma OnlyRoot(st: Store, root: PageNumber)
    ensures Reach(st, [root], 0) == {root}
  {
    ReachOne(st, root, 0);
  }

  // ---- Root underflow ----

  ghost function Shrunk(st: Store, root: PageNumber): Store {
    var child := At(st, root).right;
    (st - {child})[root := At(st, child)]
  }

  lemma ShrinkTree(st: Store, root: PageNumber, h: nat)
    requires h > 0 && Forest(st, [root], h) && At(st, root).cells == []
    ensures var child, st' := At(st, root).right, Shrunk(st, root);
      && Forest(st', [root], h - 1)
      && child in Reach(st, [root], h) && child != root
      && Reach(st', [root], h - 1) == Reach(st, [root], h) - {child}
      && Order(st', At(st', root), h - 1) == Order(st, At(st, root), h)
  {
    hide Forest, Reach, Order, Flat;
    var child, st' := At(st, root).right, Shrunk(st, root);
    var pg := At(st, child);
    ReachOne(st, root, h);
    ForestOne(st, root, h);
    assert Children(At(st, root)) == [child];
    ReachOne(st, child, h - 1);
    ForestOne(st, child, h - 1);
    if h > 1 {
      ForestIn(st, Children(pg), h - 2);
      Frame(st, st', Children(pg), h - 2);
    }
    FrameOrder(st, st', pg, h - 1);
    ReachOne(st', root, h - 1);
    ForestOne(st', root, h - 1);
    assert Order(st, At(st, root), h) == Order(st, pg, h - 1) by { EmptyOrder(st, At(st, root), h); }
  }

  lemma ShrinkSettles(st: Store, root: PageNumber, h: nat, room: Room)
    requires Sound(room) && Unsettled(st, root, h, room, root, false)
    requires h > 0 && At(st, root).cells == []
    requires |At(st, At(st, root).right).cells| <= room.rootCap
    ensures Settled(Shrunk(st, root), root, h - 1, room)
    ensures SameTree(st, Shrunk(st, root), root, h, h - 1)
  {
    hide Forest, Reach, Order;
    ShrinkTree(st, root, h);
    ForestIn(st, [root], h);
    ReachHas(st, [root], 0, h);
    var child, st' := At(st, root).right, Shrunk(st, root);
    assert Foreign(st', root, h - 1) == Foreign(st, root, h);
  }

  // ---- Root overflow ----

  ghost function Grown(st: Store, root: PageNumber, p: PageNumber): Store {
    st[p := At(st, root)][root := Page([], p)]
  }

  lemma GrowTree(st: Store, root: PageNumber, h: nat, p: PageNumber)
    requires Forest(st, [root], h) && p != 0 && p !in st
    ensures var st' := Grown(st, root, p);
      && Forest(st', [root], h + 1)
      && Reach(st', [root], h + 1) == Reach(st, [root], h) + {p}
      && Order(st', At(st', root), h + 1) == Order(st, At(st, root), h)
      && IsPath(st', [root, p])
  {
    hide Forest, Reach, Order, Flat;
    var st' := Grown(st, root, p);
    var pg := At(st, root);
    ReachOne(st, root, h);
    ForestOne(st, root, h);
    if h > 0 {
      ForestIn(st, Children(pg), h - 1);
      Frame(st, st', Children(pg), h - 1);
    }
    FrameOrder(st, st', pg, h);
    ReachOne(st', p, h);
    ForestOne(st', p, h);
    assert Children(At(st', root)) == [p];
    ReachOne(st', root, h + 1);
    ForestOne(st', root, h + 1);
    EmptyOrder(st', At(st', root), h + 1);
    assert [root, p][1..] == [p];
  }

  lemma GrowUnsettled(st: Store, root: PageNumber, h: nat, room: Room, p: PageNumber)
    requires Sound(room) && Unsettled(st, root, h, room, root, false)
    requires At(st, root).cells != [] && p != 0 && p !in st
    ensures Unsettled(Grown(st, root, p), root, h + 1, room, p, true)
    ensures SameTree(st, Grown(st, root, p), root, h, h + 1)
  {
    hide Forest, Reach, Order;
    GrowTree(st, root, h, p);
    ForestIn(st, [root], h);
    ReachHas(st, [root], 0, h);
    var st' := Grown(st, root, p);
    assert Foreign(st', root, h + 1) == Foreign(st, root, h);
  }

  // ---- Redistribution ----

  /** How many cells there are to deal out. */
  lemma {:induction false} CatSize(ps: seq<Page>, ds: seq<Entry>, cap: nat, over: int)
    requires |ps| == |ds|
    requires forall i :: 0 <= i < |ps| ==> |ps[i].cells| <= cap + if i == over then 1 else 0
    ensures |Cat(ps, ds)| <= |ps| * (cap + 1) + if 0 <= over < |ps| then 1 else 0
    decreases |ps|
  {
    if ps != [] {
      var n := |ps| - 1;
      CatSize(ps[..n], ds[..n], cap, over);
      assert (n + 1) * (cap + 1) == n * (cap + 1) + (cap + 1);
    }
  }

  lemma JoinSize(ps: seq<Page>, ds: seq<Entry>, cap: nat, over: int)
    requires |ps| == |ds| + 1
    requires forall i :: 0 <= i < |ps| ==> |ps[i].cells| <= cap + if i == over then 1 else 0
    ensures |Join(ps, ds).cells| <= |ps| * (cap + 1)
  {
    var n := |ds|;
    CatSize(ps[..n], ds, cap, over);
    assert (n + 1) * (cap + 1) == n * (cap + 1) + (cap + 1);
  }

  /** One redistribution below the last page but one of a path, seen from the root. */
  lemma DealTree(st: Store, st': Store, path: seq<PageNumber>, h: nat, before: seq<Cell>, tail: Page,
          nums: seq<PageNumber>, ds: seq<Entry>, nums': seq<PageNumber>, ds': seq<Entry>)
    requires IsPath(st, path) && 1 < |path| <= h + 1 && Forest(st, [path[0]], h)
    requires Rebalanced(st, st', path[|path| - 2], before, tail, nums, ds, nums', ds')
    requires st'.Keys == st.Keys - ToSet(nums) + ToSet(nums')
    ensures IsPath(st', path[..|path| - 1])
    ensures Forest(st', [path[0]], h)
    ensures Reach(st', [path[0]], h) == Reach(st, [path[0]], h) - ToSet(nums) + ToSet(nums')
    ensures SameTree(st, st', path[0], h, h)
    ensures path[0] !in nums && path[|path| - 2] !in nums
    ensures ToSet(nums) <= Reach(st, [path[0]], h) <= st.Keys
    ensures path[|path| - 2] in Reach(st', [path[0]], h) && path[0] in Reach(st', [path[0]], h)
  {
    hide Forest, Reach, Order, Join, IsPath, Parent;
    var path1 := path[..|path| - 1];
    var root, parent, hp := path[0], path[|path| - 2], h + 2 - |path|;
    PathPrefix(st, path, |path| - 1);
    PathReach(st, path1, h);
    RebalancedKeeps(st, st', parent, before, tail, nums, ds, nums', ds', hp - 1);
    ForestIn(st, [root], h);
    ForestIn(st, [parent], hp);
    ReachHas(st, [parent], 0, hp);
    ReachHas(st, [root], 0, h);
    RowApart(st, parent, before, tail, nums, ds, hp);
    assert root !in nums by { if root != parent { assert root !in Reach(st, [parent], hp); } }
    Graft(st, st', path1, h);
    PathOrder(st, path1, h);
    PathOrder(st', path1, h);
    assert Foreign(st', root, h) == Foreign(st, root, h);
    PathReach(st', path1, h);
  }

  /** How full the pages may be after a redistribution, given how full they were. */
  ghost predicate DealtOut(st: Store, st': Store, parent: PageNumber, room: Room, nums: seq<PageNumber>,
          ds: seq<Entry>, nums': seq<PageNumber>, ds': seq<Entry>)
    requires |nums| == |ds| + 1 && |nums'| == |ds'| + 1
  {
    && (At(st, parent).cells != [] ==> ds != [])
    && (if Join(Pages(st, nums), ds).cells == [] then ds' == [] && At(st', nums'[0]).cells == []
        else |ds'| <= |ds| + 1 && forall i :: 0 <= i < |nums'| ==> 1 <= |At(st', nums'[i]).cells| <= room.cap)
  }

  /** The distribution asks for no more pages than one sibling too many, none empty or too full. */
  lemma DealtEnough(st: Store, st': Store, parent: PageNumber, root: PageNumber, h: nat, room: Room, page: PageNumber,
          grown: bool, nums: seq<PageNumber>, ds: seq<Entry>, nums': seq<PageNumber>, ds': seq<Entry>, counts: seq<nat>)
    requires Unsettled(st, root, h, room, page, grown)
    requires |nums| == |ds| + 1 && Distinct(nums) && page in nums && root !in nums
    requires ToSet(nums) <= Reach(st, [root], h)
    requires At(st, parent).cells != [] ==> |nums| >= 2
    requires Spread(st', nums', ds', Join(Pages(st, nums), ds).cells, Join(Pages(st, nums), ds).right, counts)
    requires var n := |Join(Pages(st, nums), ds).cells|;
      if n == 0 then counts == [0]
      else (|counts| - 1) * (room.cap + 1) <= n && forall j :: 0 <= j < |counts| ==> 1 <= counts[j] <= room.cap
    ensures DealtOut(st, st', parent, room, nums, ds, nums', ds')
  {
    hide Join, Reach, Forest;
    var over := IndexOf(nums, page);
    forall i | 0 <= i < |nums| ensures |Pages(st, nums)[i].cells| <= room.cap + if i == over then 1 else 0 {
      assert nums[i] in ToSet(nums);
      assert i != over ==> nums[i] != page;
    }
    JoinSize(Pages(st, nums), ds, room.cap, over);
    if Join(Pages(st, nums), ds).cells != [] {
      MulCancel(|counts| - 1, |nums|, room.cap + 1);
    }
  }

  lemma MulMono(a: nat, b: nat, c: nat)
    requires a <= b
    ensures a * c <= b * c
  {
  }

  lemma MulCancel(a: nat, b: nat, c: nat)
    requires a * c <= b * c && c > 0
    ensures a <= b
  {
    assert a * c - b * c == (a - b) * c;
    if a > b {
      MulMono(1, a - b, c);
    }
  }

  /** Where one redistribution leaves the tree: `balance` goes on at the parent. */
  lemma DealUnsettles(st: Store, st': Store, path: seq<PageNumber>, h: nat, room: Room, grown: bool, before: seq<Cell>,
          tail: Page, nums: seq<PageNumber>, ds: seq<Entry>, nums': seq<PageNumber>, ds': seq<Entry>)
    requires Sound(room) && IsPath(st, path) && 1 < |path| <= h + 1
    requires Unsettled(st, path[0], h, room, Last(path), grown) && (grown ==> |path| == 2)
    requires Rebalanced(st, st', path[|path| - 2], before, tail, nums, ds, nums', ds')
    requires st'.Keys == st.Keys - ToSet(nums) + ToSet(nums')
    requires Last(path) in nums
    requires DealtOut(st, st', path[|path| - 2], room, nums, ds, nums', ds')
    ensures IsPath(st', path[..|path| - 1])
    ensures Unsettled(st', path[0], h, room, path[|path| - 2], false)
    ensures SameTree(st, st', path[0], h, h)
  {
    hide Forest, Reach, Order, Join, IsPath, Parent, SameTree;
    var root, parent, page := path[0], path[|path| - 2], Last(path);
    DealTree(st, st', path, h, before, tail, nums, ds, nums', ds');
    ParentSize(before, nums, ds, tail);
    ParentSize(before, nums', ds', tail);
    var cells := Join(Pages(st, nums), ds).cells;
    if ds != [] || At(st, page).cells != [] {
      JoinSome(st, nums, ds, page);
    }
    assert page != root;
    assert forall p :: p in Reach(st, [root], h) && p !in nums && p != parent ==> At(st', p) == At(st, p);
    assert parent != root ==> At(st, parent).cells != [];
    assert cells == [] ==> parent == root && room.rootCap < room.cap && nums' == [At(st', root).right] by {
      if cells == [] {
        assert nums'[..0] == [] && |nums'| == 1;
        assert RowCells([], []) == [];
        OneChild(before, nums', ds', tail);
      }
    }
    forall p | p in Reach(st', [root], h) && p != root && p != parent
      ensures |At(st', p).cells| <= room.cap
      ensures At(st', p).cells != [] || Slack(st', root, room, parent, p)
    {
      if p in nums' {
        var i :| 0 <= i < |nums'| && nums'[i] == p;
      } else {
        assert p in Reach(st, [root], h) && p !in nums;
      }
    }
    ReachHas(st, [root], 0, h);
    assert parent in Reach(st, [root], h);
    assert |At(st', parent).cells| <= |At(st, parent).cells| + 1;
    if parent != root {
      assert At(st', root) == At(st, root);
    }
  }

  lemma OneChild(before: seq<Cell>, nums: seq<PageNumber>, ds: seq<Entry>, tail: Page)
    requires |nums| == |ds| + 1 && Parent(before, nums, ds, tail).cells == []
    ensures nums == [Parent(before, nums, ds, tail).right]
  {
  }

  lemma JoinSome(st: Store, nums: seq<PageNumber>, ds: seq<Entry>, page: PageNumber)
    requires |nums| == |ds| + 1 && page in nums
    requires ds != [] || At(st, page).cells != []
    ensures Join(Pages(st, nums), ds).cells != []
  {
    if ds == [] {
      assert nums == [page] && Pages(st, nums) == [At(st, page)];
    }
  }

  lemma ParentSize(before: seq<Cell>, nums: seq<PageNumber>, ds: seq<Entry>, tail: Page)
    requires |nums| == |ds| + 1
    ensures |Parent(before, nums, ds, tail).cells| == |before| + |ds| + |tail.cells|
  {
  }

  lemma RowApart(st: Store, parent: PageNumber, before: seq<Cell>, tail: Page, nums: seq<PageNumber>, ds: seq<Entry>,
          h: nat)
    requires h > 0 && Forest(st, [parent], h)
    requires |nums| == |ds| + 1 && At(st, parent) == Parent(before, nums, ds, tail)
    ensures parent !in nums
  {
    hide Forest, Reach;
    ForestOne(st, parent, h);
    ParentKids(before, nums, ds, tail);
    forall i | 0 <= i < |nums| ensures nums[i] != parent {
      ReachHas(st, Children(At(st, parent)), |before| + i, h - 1);
    }
  }
}
