/** The cursor over a disk B-tree: an in-order walk that keeps only a stack of parents. */
module DiskCursor {
  import opened PageTrees
  import opened PagePaths
  import opened PageRows
  import opened DiskDeal
  import opened PageEdits
  import DiskOccupancy
  import DiskTree

  datatype Position = Position(page: PageNumber, slot: nat)

  /** Every position below page `p` of height `h`, in order. */
  ghost function Down(st: Store, p: PageNumber, h: nat): seq<Position>
    decreases h, 1, 0
  {
    (if h == 0 then [] else Down(st, At(st, p).Child(0), h - 1)) + From(st, p, 0, h)
  }

  /** Cell `i` of page `p`, then all that follows it below `p`. */
  ghost function From(st: Store, p: PageNumber, i: nat, h: nat): seq<Position>
    decreases h, 0, |At(st, p).cells| - i
  {
    var pg := At(st, p);
    if i >= |pg.cells| then [] else
      [Position(p, i)] + (if h == 0 then [] else Down(st, pg.Child(i + 1), h - 1)) + From(st, p, i + 1, h)
  }

  /** What is left to visit above the end of a path, once its subtree is done. */
  ghost function Up(st: Store, path: seq<PageNumber>, h: nat): seq<Position>
    requires IsPath(st, path) && |path| <= h + 1
  {
    if |path| == 1 then [] else
      var n := |path| - 1;
      PathStep(st, path);
      PathPrefix(st, path, n);
      From(st, path[n - 1], IndexOf(Children(At(st, path[n - 1])), path[n]), h + 1 - n) + Up(st, path[..n], h)
  }

  /** A tree in which no page but the root is an empty leaf. */
  ghost predicate Walkable(st: Store, root: PageNumber, h: nat) {
    && Forest(st, [root], h)
    && forall p :: p in Reach(st, [root], h) && p != root && At(st, p).IsLeaf() ==> At(st, p).cells != []
  }

  /** The entries stored at some positions. */
  ghost function Read(st: Store, at: seq<Position>): seq<Entry> {
    if at == [] then [] else
      var cells := At(st, at[0].page).cells;
      (if at[0].slot < |cells| then [cells[at[0].slot].entry] else []) + Read(st, at[1..])
  }

  /** What a cursor knows: where it is, the pages above, and whether it has started or finished. */
  datatype State = State(page: PageNumber, slot: nat, descent: seq<PageNumber>, init: bool, done: bool) {
    ghost function Path(): seq<PageNumber> { descent + [page] }

    ghost predicate OnPath(st: Store, root: PageNumber, h: nat) {
      IsPath(st, Path()) && |descent| <= h && Path()[0] == root
    }
  }

  /** The state of a walk of the tree at `root` makes sense. */
  ghost predicate Valid(st: Store, root: PageNumber, h: nat, s: State) {
    && Walkable(st, root, h)
    && (s.done ==> s.init)
    && (!s.init ==> s.page == root && s.descent == [])
    && (s.init && !s.done ==> s.OnPath(st, root, h) && s.slot < |At(st, s.page).cells|)
  }

  /** The current cell, and all that comes after it. */
  ghost function Here(st: Store, root: PageNumber, h: nat, s: State): seq<Position>
    requires s.OnPath(st, root, h)
  {
    From(st, s.page, s.slot, h - |s.descent|) + Up(st, s.Path(), h)
  }

  /** The positions yet to be returned. */
  ghost function Rest(st: Store, root: PageNumber, h: nat, s: State): seq<Position>
    requires Valid(st, root, h, s)
  {
    if s.done then [] else if !s.init then Down(st, root, h) else Here(st, root, h, s)
  }

  class Cursor {
    var page: PageNumber
    var slot: nat
    var descent: seq<PageNumber>
    var init: bool
    var done: bool

    constructor (page: PageNumber, slot: nat)
      ensures Now() == State(page, slot, [], false, false)
    {
      this.page, this.slot, descent, init, done := page, slot, [], false, false;
    }

    ghost function Now(): State
      reads this
    {
      State(page, slot, descent, init, done)
    }

    /** Go down first children to a leaf. */
    method MoveToLeftmost(pager: Pager, ghost root: PageNumber, ghost h: nat)
      requires Forest(pager.pages, [root], h) && Now().OnPath(pager.pages, root, h)
      modifies this
      ensures Now().OnPath(pager.pages, root, h) && |descent| == h && slot == 0
      ensures init == old(init) && done == old(done)
      ensures Here(pager.pages, root, h, Now())
           == Down(pager.pages, old(page), h - |old(descent)|) + Up(pager.pages, old(Now()).Path(), h)
    {
      hide Forest, Reach, From, Up, Down, IsPath;
      ghost var st, all := pager.pages, Down(pager.pages, page, h - |descent|) + Up(pager.pages, Now().Path(), h);
      PathEnd(st, descent, page, h);
      var node := pager.pages[page];
      while !node.IsLeaf()
        invariant Now().OnPath(st, root, h) && page in st && node == st[page]
        invariant init == old(init) && done == old(done)
        invariant node.IsLeaf() <==> |descent| == h
        invariant all == Down(st, page, h - |descent|) + Up(st, Now().Path(), h)
        decreases h - |descent|
      {
        LeftStep(st, descent, page, h);
        descent, page := descent + [page], node.Child(0);
        PathEnd(st, descent, page, h);
        node := pager.pages[page];
      }
      DownFirst(st, page, 0);
      slot := 0;
    }

    /** Go back up to the nearest page with a cell still to return, if there is one. */
    method Climb(pager: Pager, ghost root: PageNumber, ghost h: nat) returns (foundBranch: bool)
      requires Forest(pager.pages, [root], h) && Now().OnPath(pager.pages, root, h)
      modifies this
      ensures Now().OnPath(pager.pages, root, h) && init == old(init) && done == old(done)
      ensures if foundBranch
        then slot < |At(pager.pages, page).cells|
          && Here(pager.pages, root, h, Now()) == Up(pager.pages, old(Now()).Path(), h)
        else descent == [] && Up(pager.pages, old(Now()).Path(), h) == []
    {
      hide Forest, Reach, From, Up, Down, IsPath, Children, IndexOf;
      ghost var st, all := pager.pages, Up(pager.pages, Now().Path(), h);
      foundBranch := false;
      while descent != [] && !foundBranch
        invariant Now().OnPath(st, root, h) && init == old(init) && done == old(done)
        invariant foundBranch ==> slot < |At(st, page).cells|
        invariant all == (if foundBranch then From(st, page, slot, h - |descent|) else []) + Up(st, Now().Path(), h)
        decreases |descent|
      {
        UpBelow(st, descent, page, h);
        var parentPage := descent[|descent| - 1];
        descent := descent[..|descent| - 1];
        var parent := pager.pages[parentPage];
        var index := IndexOf(Children(parent), page);
        page := parentPage;
        if index < |parent.cells| {
          slot := index;
          foundBranch := true;
        } else {
          FromEnd(st, page, index, h - |descent|);
        }
      }
      if !foundBranch {
        OneUp(st, page, h);
      }
    }

    /** The next position, if there is one; the state moves on to the one after. */
    method TryNext(pager: Pager, ghost root: PageNumber, ghost h: nat) returns (r: DiskTree.Option<Position>)
      requires Valid(pager.pages, root, h, Now())
      modifies this
      ensures Valid(pager.pages, root, h, Now())
      ensures if Rest(pager.pages, root, h, old(Now())) == [] then r.None? && done
        else && r.Some? && r.value == Rest(pager.pages, root, h, old(Now()))[0]
             && Rest(pager.pages, root, h, Now()) == Rest(pager.pages, root, h, old(Now()))[1..]
    {
      hide Forest, Reach, From, Up, Down, IsPath, Walkable, Children, IndexOf;
      ghost var st, rest := pager.pages, Rest(pager.pages, root, h, Now());
      WalkableForest(st, root, h);
      if done {
        return DiskTree.None;
      }
      if !init {
        OneUp(st, page, h);
        MoveToLeftmost(pager, root, h);
        init := true;
      }
      assert rest == Here(st, root, h, Now());
      PathEnd(st, descent, page, h);
      var node := pager.pages[page];
      if node.cells == [] && node.IsLeaf() {
        NothingLeft(st, descent + [page], slot, h);
        done := true;
        return DiskTree.None;
      }
      LeafFull(st, descent, page, h);
      var position := DiskTree.Some(Position(page, slot));
      if node.IsLeaf() && slot + 1 < |node.cells| {
        LeafStep(st, page, slot, Up(st, Now().Path(), h));
        slot := slot + 1;
        return position;
      }
      if !node.IsLeaf() && slot < |node.cells| {
        CellStep(st, descent, page, slot, h);
        descent, page := descent + [page], node.Child(slot + 1);
        MoveToLeftmost(pager, root, h);
        LeafFull(st, descent, page, h);
        return position;
      }
      LeafStep(st, page, slot, Up(st, Now().Path(), h));
      FromEnd(st, page, slot + 1, 0);
      var foundBranch := Climb(pager, root, h);
      if !foundBranch {
        done := true;
      }
      return position;
    }

    /** Call `TryNext` until it has nothing more. */
    method Drain(pager: Pager, ghost root: PageNumber, ghost h: nat) returns (all: seq<Position>)
      requires Valid(pager.pages, root, h, Now())
      modifies this
      ensures all == Rest(pager.pages, root, h, old(Now()))
      ensures done && Valid(pager.pages, root, h, Now())
    {
      hide Valid, Rest;
      all := [];
      var more := true;
      while more
        invariant Valid(pager.pages, root, h, Now())
        invariant Rest(pager.pages, root, h, old(Now())) == all + Rest(pager.pages, root, h, Now())
        invariant !more ==> done
        decreases |Rest(pager.pages, root, h, Now())|, more
      {
        var r := TryNext(pager, root, h);
        if r.Some? {
          all := all + [r.value];
        } else {
          more := false;
          NoRest(pager.pages, root, h, Now());
        }
      }
      NoRest(pager.pages, root, h, Now());
    }
  }

  /** A finished cursor stays finished. */
  lemma NoRest(st: Store, root: PageNumber, h: nat, s: State)
    requires Valid(st, root, h, s) && s.done
    ensures Rest(st, root, h, s) == []
  {
  }

  lemma WalkableForest(st: Store, root: PageNumber, h: nat)
    requires Walkable(st, root, h)
    ensures Forest(st, [root], h)
  {
  }

  lemma PathEnd(st: Store, descent: seq<PageNumber>, page: PageNumber, h: nat)
    requires IsPath(st, descent + [page]) && |descent| <= h && Forest(st, [(descent + [page])[0]], h)
    ensures page in st && (st[page].IsLeaf() <==> |descent| == h)
  {
    hide Forest, Reach, IsPath;
    DiskTree.PathPlace(st, descent + [page], h);
    DiskTree.AtHeight(st, descent + [page], h);
  }

  lemma LeftStep(st: Store, descent: seq<PageNumber>, page: PageNumber, h: nat)
    requires IsPath(st, descent + [page]) && |descent| < h && Forest(st, [(descent + [page])[0]], h)
    ensures var c := At(st, page).Child(0);
      && IsPath(st, descent + [page] + [c]) && (descent + [page] + [c])[0] == (descent + [page])[0]
      && Down(st, c, h - |descent| - 1) + Up(st, descent + [page] + [c], h)
         == Down(st, page, h - |descent|) + Up(st, descent + [page], h)
  {
    hide Forest, Reach, IsPath, From, Up, Down;
    DownStep(st, descent + [page], 0, h);
    DownFirst(st, page, h - |descent|);
  }

  lemma UpBelow(st: Store, descent: seq<PageNumber>, page: PageNumber, h: nat)
    requires descent != [] && IsPath(st, descent + [page]) && |descent| <= h && Forest(st, [descent[0]], h)
    ensures var n := |descent| - 1;
      && IsPath(st, descent[..n] + [descent[n]]) && descent[n] in st && page in Children(st[descent[n]])
      && (descent[..n] + [descent[n]])[0] == descent[0]
      && Up(st, descent + [page], h)
         == From(st, descent[n], IndexOf(Children(st[descent[n]]), page), h - n)
           + Up(st, descent[..n] + [descent[n]], h)
  {
    hide Forest, Reach, IsPath, From, Up, Down;
    var n := |descent| - 1;
    assert descent[..n] + [descent[n]] == descent == (descent + [page])[..n + 1];
    DiskTree.PathBelow(st, descent + [page], h);
    UpStep(st, descent + [page], h);
    ForestIn(st, [descent[0]], h);
  }

  lemma LeafFull(st: Store, descent: seq<PageNumber>, page: PageNumber, h: nat)
    requires IsPath(st, descent + [page]) && |descent| <= h && Walkable(st, (descent + [page])[0], h)
    ensures |descent| == h > 0 ==> At(st, page).cells != []
  {
    if |descent| == h > 0 {
      LeafHas(st, descent + [page], h);
    }
  }

  lemma DownFirst(st: Store, p: PageNumber, h: nat)
    ensures Down(st, p, h) == (if h == 0 then [] else Down(st, At(st, p).Child(0), h - 1)) + From(st, p, 0, h)
  {
  }

  lemma OneUp(st: Store, p: PageNumber, h: nat)
    ensures IsPath(st, [p]) && Up(st, [p], h) == []
    ensures [] + [p] == [p]
  {
  }

  lemma FromStep(st: Store, p: PageNumber, i: nat, h: nat)
    requires i < |At(st, p).cells|
    ensures From(st, p, i, h)
         == [Position(p, i)] + (if h == 0 then [] else Down(st, At(st, p).Child(i + 1), h - 1)) + From(st, p, i + 1, h)
  {
  }

  lemma FromEnd(st: Store, p: PageNumber, i: nat, h: nat)
    requires i >= |At(st, p).cells|
    ensures From(st, p, i, h) == []
  {
  }

  lemma UpStep(st: Store, path: seq<PageNumber>, h: nat)
    requires IsPath(st, path) && 1 < |path| <= h + 1
    ensures var n := |path| - 1;
      && IsPath(st, path[..n]) && path[n] in Children(At(st, path[n - 1]))
      && Up(st, path, h)
        == From(st, path[n - 1], IndexOf(Children(At(st, path[n - 1])), path[n]), h + 1 - n) + Up(st, path[..n], h)
  {
    PathStep(st, path);
    PathPrefix(st, path, |path| - 1);
  }

  /** Going down to child `i` of the end of a path leaves cell `i` as the next thing above it. */
  lemma DownStep(st: Store, path: seq<PageNumber>, i: nat, h: nat)
    requires IsPath(st, path) && |path| <= h && Forest(st, [path[0]], h) && i <= |At(st, Last(path)).cells|
    ensures var p := At(st, Last(path)).Child(i);
      && IsPath(st, path + [p]) && (path + [p])[0] == path[0]
      && Up(st, path + [p], h) == From(st, Last(path), i, h + 1 - |path|) + Up(st, path, h)
  {
    hide Forest, Reach, From;
    var p := At(st, Last(path)).Child(i);
    PathReach(st, path, h);
    DiskTree.ChildOnce(st, Last(path), i, h + 1 - |path|);
    PathExtend(st, path, p);
    UpStep(st, path + [p], h);
    assert (path + [p])[..|path|] == path;
  }

  /** After a cell of a leaf comes the next one. */
  lemma LeafStep(st: Store, page: PageNumber, slot: nat, up: seq<Position>)
    requires slot < |At(st, page).cells|
    ensures From(st, page, slot, 0) + up == [Position(page, slot)] + (From(st, page, slot + 1, 0) + up)
  {
    hide From;
    FromStep(st, page, slot, 0);
  }

  /** After a cell of an inner page comes what is below its right child. */
  lemma CellStep(st: Store, descent: seq<PageNumber>, page: PageNumber, slot: nat, h: nat)
    requires IsPath(st, descent + [page]) && |descent| < h && Forest(st, [(descent + [page])[0]], h)
    requires slot < |At(st, page).cells|
    ensures var p := At(st, page).Child(slot + 1);
      && IsPath(st, descent + [page] + [p]) && (descent + [page] + [p])[0] == (descent + [page])[0]
      && From(st, page, slot, h - |descent|) + Up(st, descent + [page], h)
         == [Position(page, slot)] + (Down(st, p, h - |descent| - 1) + Up(st, descent + [page] + [p], h))
  {
    hide Forest, Reach, From, Up, Down, IsPath, Children, IndexOf;
    FromStep(st, page, slot, h - |descent|);
    DownStep(st, descent + [page], slot + 1, h);
  }

  lemma NothingLeft(st: Store, path: seq<PageNumber>, slot: nat, h: nat)
    requires IsPath(st, path) && |path| == h + 1 && Walkable(st, path[0], h)
    requires At(st, Last(path)).cells == []
    ensures From(st, Last(path), slot, 0) + Up(st, path, h) == []
  {
    if h > 0 {
      LeafHas(st, path, h);
    }
  }

  lemma LeafHas(st: Store, path: seq<PageNumber>, h: nat)
    requires IsPath(st, path) && 1 < |path| == h + 1 && Walkable(st, path[0], h)
    ensures At(st, Last(path)).cells != []
  {
    hide Forest, Reach;
    DiskTree.AtHeight(st, path, h);
    DiskTree.PathPlace(st, path, h);
  }

  lemma {:induction false} ReadConcat(st: Store, a: seq<Position>, b: seq<Position>)
    ensures Read(st, a + b) == Read(st, a) + Read(st, b)
  {
    if a == [] {
      assert a + b == b;
    } else {
      assert (a + b)[1..] == a[1..] + b;
      ReadConcat(st, a[1..], b);
    }
  }

  /** The positions of a walk hold the entries of the tree in order. */
  lemma {:induction false} DownReads(st: Store, p: PageNumber, h: nat)
    ensures Read(st, Down(st, p, h)) == Order(st, At(st, p), h)
    decreases h, |At(st, p).cells| + 1
  {
    hide Order, Flat, From, Down, After;
    var pg := At(st, p);
    DownFirst(st, p, h);
    FromReads(st, p, 0, h);
    if h > 0 {
      DownReads(st, pg.Child(0), h - 1);
      ReadConcat(st, Down(st, pg.Child(0), h - 1), From(st, p, 0, h));
    } else {
      assert [] + From(st, p, 0, h) == From(st, p, 0, h);
    }
    OrderAround(st, pg, 0, h);
    FlatNil(st, h);
    assert pg.cells[..0] == [];
  }

  lemma {:induction false} FromReads(st: Store, p: PageNumber, i: nat, h: nat)
    requires i <= |At(st, p).cells|
    ensures Read(st, From(st, p, i, h)) == After(st, At(st, p), i, h)
    decreases h, |At(st, p).cells| - i
  {
    hide Order, Flat, Down, SubOrder;
    var pg := At(st, p);
    if i == |pg.cells| {
      FromEnd(st, p, i, h);
    } else {
      hide From, After, Read;
      FromStep(st, p, i, h);
      FromReads(st, p, i + 1, h);
      var d := if h == 0 then [] else Down(st, pg.Child(i + 1), h - 1);
      if h > 0 {
        DownReads(st, pg.Child(i + 1), h - 1);
      }
      SubReads(st, pg.Child(i + 1), h);
      ReadConcat(st, [Position(p, i)] + d, From(st, p, i + 1, h));
      ReadConcat(st, [Position(p, i)], d);
      ReadOne(st, Position(p, i));
      AfterStep(st, pg, i, h);
    }
  }

  lemma SubReads(st: Store, p: PageNumber, h: nat)
    ensures SubOrder(st, p, h) == if h == 0 then Read(st, []) else Order(st, At(st, p), h - 1)
  {
  }

  lemma ReadOne(st: Store, x: Position)
    requires x.slot < |At(st, x.page).cells|
    ensures Read(st, [x]) == [At(st, x.page).cells[x.slot].entry]
  {
    assert [x][1..] == [];
  }

  lemma AfterStep(st: Store, pg: Page, i: nat, h: nat)
    requires i < |pg.cells|
    ensures After(st, pg, i, h) == [pg.cells[i].entry] + SubOrder(st, pg.Child(i + 1), h) + After(st, pg, i + 1, h)
  {
    hide Order, Flat, SubOrder;
    RestAround(st, pg, i, h);
  }

  /** `s` lists every position of the pages `r`, each once. */
  ghost predicate Lists(st: Store, s: seq<Position>, r: set<PageNumber>) {
    Distinct(s) && forall x :: x in s <==> x.page in r && x.slot < |At(st, x.page).cells|
  }

  lemma ListsConcat(st: Store, a: seq<Position>, b: seq<Position>, r: set<PageNumber>, q: set<PageNumber>)
    requires Lists(st, a, r) && Lists(st, b, q) && r !! q
    ensures Lists(st, a + b, r + q)
  {
    var s := a + b;
    forall i, j | 0 <= i < j < |s| ensures s[i] != s[j] {
      if i < |a| <= j { assert s[i] in a && s[j] in b; }
    }
  }

  /** A walk visits every cell of every page of the tree, each exactly once. */
  lemma {:induction false} DownLists(st: Store, p: PageNumber, h: nat)
    requires Forest(st, [p], h)
    ensures Lists(st, Down(st, p, h), Reach(st, [p], h))
    decreases h, |At(st, p).cells| + 1
  {
    hide Forest, Reach, From, Down, Lists;
    var pg := At(st, p);
    DownFirst(st, p, h);
    ForestOne(st, p, h);
    ReachOne(st, p, h);
    FromLists(st, p, 0, h);
    assert |pg.cells| - 0 == |pg.cells|;
    if h == 0 {
      assert [] + From(st, p, 0, h) == From(st, p, 0, h);
      FromAll(st, p, From(st, p, 0, h), {});
    } else {
      var kids := Children(pg);
      assert kids == kids[..0] + kids && kids[0] == pg.Child(0);
      ForestSplit(st, kids, 0, h - 1);
      assert kids[..0] == [] && Reach(st, [], h - 1) == {} by { ReachNil(st, h - 1); }
      DownLists(st, pg.Child(0), h - 1);
      FromAll(st, p, From(st, p, 0, h), Reach(st, kids[1..], h - 1));
      ListsConcat(st, Down(st, pg.Child(0), h - 1), From(st, p, 0, h), Reach(st, [kids[0]], h - 1),
        {p} + Reach(st, kids[1..], h - 1));
      assert Reach(st, [p], h) == Reach(st, [kids[0]], h - 1) + ({p} + Reach(st, kids[1..], h - 1));
    }
  }

  /** `s` lists the positions of `p` from slot `i` on, and every position of the pages `r`. */
  ghost predicate ListsFrom(st: Store, s: seq<Position>, p: PageNumber, i: nat, r: set<PageNumber>) {
    && Distinct(s)
    && forall x :: x in s <==> x.slot < |At(st, x.page).cells| && (x.page in r || (x.page == p && i <= x.slot))
  }

  lemma FromAll(st: Store, p: PageNumber, s: seq<Position>, r: set<PageNumber>)
    requires ListsFrom(st, s, p, 0, r)
    ensures Lists(st, s, {p} + r)
  {
  }

  lemma ListsCons(st: Store, p: PageNumber, i: nat, d: seq<Position>, rd: set<PageNumber>, s: seq<Position>,
          r: set<PageNumber>)
    requires i < |At(st, p).cells| && p !in rd && p !in r && rd !! r
    requires Lists(st, d, rd) && ListsFrom(st, s, p, i + 1, r)
    ensures ListsFrom(st, [Position(p, i)] + d + s, p, i, rd + r)
  {
    var t := [Position(p, i)] + d + s;
    assert t == [Position(p, i)] + (d + s);
    forall x ensures x in t <==> x.slot < |At(st, x.page).cells| && (x.page in rd + r || (x.page == p && i <= x.slot)) {
      assert x in t <==> x == Position(p, i) || x in d || x in s;
    }
    forall a, b | 0 <= a < b < |t| ensures t[a] != t[b] {
      if a == 0 {
        assert t[b] in d || t[b] in s;
      } else if a <= |d| < b {
        assert t[a] in d && t[b] in s;
      }
    }
  }

  lemma {:induction false} FromLists(st: Store, p: PageNumber, i: nat, h: nat)
    requires Forest(st, [p], h) && i <= |At(st, p).cells|
    ensures ListsFrom(st, From(st, p, i, h), p, i,
      if h == 0 then {} else Reach(st, Children(At(st, p))[i + 1..], h - 1))
    decreases h, |At(st, p).cells| - i
  {
    hide Forest, Reach, From, Down, Lists;
    var pg := At(st, p);
    var kids := Children(pg);
    ForestOne(st, p, h);
    if i == |pg.cells| {
      FromEnd(st, p, i, h);
      assert kids[i + 1..] == [];
      if h > 0 { ReachNil(st, h - 1); }
    } else {
      hide ListsFrom;
      FromStep(st, p, i, h);
      FromLists(st, p, i + 1, h);
      if h == 0 {
        assert Lists(st, [], {}) by { NoneListed(st); }
        ListsCons(st, p, i, [], {}, From(st, p, i + 1, h), {});
      } else {
        assert kids[i + 1] == pg.Child(i + 1);
        ForestSplit(st, kids, i + 1, h - 1);
        assert kids[i + 1..] == [kids[i + 1]] + kids[i + 2..];
        ReachConcat(st, [kids[i + 1]], kids[i + 2..], h - 1);
        DownLists(st, pg.Child(i + 1), h - 1);
        ListsCons(st, p, i, Down(st, pg.Child(i + 1), h - 1), Reach(st, [kids[i + 1]], h - 1),
                  From(st, p, i + 1, h), Reach(st, kids[i + 2..], h - 1));
      }
    }
  }

  lemma NoneListed(st: Store)
    ensures Lists(st, [], {})
  {
  }

  /** A full walk from a new cursor: every cell of every page of the tree once, in the order of the
      entries, and then nothing. */
  method Walk(pager: Pager, root: PageNumber, ghost h: nat) returns (all: seq<Position>)
    requires Walkable(pager.pages, root, h)
    ensures Lists(pager.pages, all, Reach(pager.pages, [root], h))
    ensures Read(pager.pages, all) == Order(pager.pages, At(pager.pages, root), h)
  {
    var cursor := new Cursor(root, 0);
    all := cursor.Drain(pager, root, h);
    DownLists(pager.pages, root, h);
    DownReads(pager.pages, root, h);
  }

  /** After any run of insertions and removals a cursor reads the tree in key order. */
  method WalkTree(tree: DiskTree.BTree) returns (all: seq<Position>)
    requires tree.Valid()
    ensures Lists(tree.pager.pages, all, Reach(tree.pager.pages, [tree.root], tree.height))
    ensures Read(tree.pager.pages, all) == tree.InOrder()
  {
    hide Forest, Reach, Order, Lists, Read;
    SettledWalkable(tree.pager.pages, tree.root, tree.height, tree.Limits());
    all := Walk(tree.pager, tree.root, tree.height);
  }

  lemma SettledWalkable(st: Store, root: PageNumber, h: nat, room: DiskOccupancy.Room)
    requires DiskOccupancy.Settled(st, root, h, room)
    ensures Walkable(st, root, h)
  {
    hide Forest, Reach;
  }
}
