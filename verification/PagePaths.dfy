/** Paths from a root down to a page, and what replacing the subtree at their end does. */
module PagePaths {
  import opened PageTrees

  function IndexOf<T(==)>(s: seq<T>, x: T): (i: nat)
    requires x in s
    ensures i < |s| && s[i] == x && x !in s[..i]
  {
    if s[0] == x then 0 else
      var i := IndexOf(s[1..], x) + 1;
      assert s[..i] == [s[0]] + s[1..][..i - 1];
      i
  }

  /** `path` is what the source keeps in `parents`, followed by the page itself. */
  ghost predicate IsPath(st: Store, path: seq<PageNumber>) {
    && path != []
    && (|path| > 1 ==> path[1] in Children(At(st, path[0])) && IsPath(st, path[1..]))
  }

  ghost function Last(path: seq<PageNumber>): PageNumber
    requires path != []
  {
    path[|path| - 1]
  }

  /** Entries left of the subtree at the end of the path. */
  ghost function Before(st: Store, path: seq<PageNumber>, h: nat): seq<Entry>
    requires IsPath(st, path) && |path| <= h + 1
  {
    if |path| == 1 then [] else
      var pg := At(st, path[0]);
      Flat(st, pg.cells[..IndexOf(Children(pg), path[1])], h) + Before(st, path[1..], h - 1)
  }

  /** Entries right of the subtree at the end of the path. */
  ghost function Beyond(st: Store, path: seq<PageNumber>, h: nat): seq<Entry>
    requires IsPath(st, path) && |path| <= h + 1
  {
    if |path| == 1 then [] else
      var pg := At(st, path[0]);
      Beyond(st, path[1..], h - 1) + After(st, pg, IndexOf(Children(pg), path[1]), h)
  }

  lemma {:induction false} PathOrder(st: Store, path: seq<PageNumber>, h: nat)
    requires IsPath(st, path) && |path| <= h + 1
    ensures Order(st, At(st, path[0]), h)
         == Before(st, path, h) + Order(st, At(st, Last(path)), h + 1 - |path|) + Beyond(st, path, h)
    decreases |path|
  {
    hide Order, Flat, After;
    if |path| > 1 {
      var pg := At(st, path[0]);
      var i := IndexOf(Children(pg), path[1]);
      var a, b, c, d := Flat(st, pg.cells[..i], h), Before(st, path[1..], h - 1), Beyond(st, path[1..], h - 1),
        After(st, pg, i, h);
      var mid := Order(st, At(st, Last(path)), h + 1 - |path|);
      OrderAround(st, pg, i, h);
      PathOrder(st, path[1..], h - 1);
      assert SubOrder(st, pg.Child(i), h) == b + mid + c;
      assert a + (b + mid + c) + d == (a + b) + mid + (c + d);
    }
  }

  /** The pages on a path are reachable from its start, and each heads a forest of its own. */
  lemma {:induction false} PathReach(st: Store, path: seq<PageNumber>, h: nat)
    requires IsPath(st, path) && |path| <= h + 1
    ensures forall p :: p in path ==> p in Reach(st, [path[0]], h)
    ensures Reach(st, [Last(path)], h + 1 - |path|) <= Reach(st, [path[0]], h)
    ensures Forest(st, [path[0]], h) ==> Forest(st, [Last(path)], h + 1 - |path|)
    ensures Forest(st, [path[0]], h) && |path| > 1 ==> path[0] !in Reach(st, [Last(path)], h + 1 - |path|)
    decreases |path|
  {
    hide Forest, Reach, At;
    ReachOne(st, path[0], h);
    ForestOne(st, path[0], h);
    if |path| > 1 {
      var kids := Children(At(st, path[0]));
      var i := IndexOf(kids, path[1]);
      ReachHas(st, kids, i, h - 1);
      PathReach(st, path[1..], h - 1);
      if Forest(st, [path[0]], h) {
        ForestSplit(st, kids, i, h - 1);
        PathReach(st, path[1..], h - 1);
      }
    }
  }

  /** A member of a forest, seen apart from the others. */
  lemma ForestSplit(st: Store, ps: seq<PageNumber>, i: nat, h: nat)
    requires i < |ps|
    ensures Forest(st, ps, h)
       <==> && Forest(st, ps[..i], h) && Forest(st, [ps[i]], h) && Forest(st, ps[i + 1..], h)
            && Reach(st, ps[..i], h) !! Reach(st, [ps[i]], h) !! Reach(st, ps[i + 1..], h)
    ensures Reach(st, ps, h) == Reach(st, ps[..i], h) + Reach(st, [ps[i]], h) + Reach(st, ps[i + 1..], h)
  {
    assert ps == ps[..i] + ([ps[i]] + ps[i + 1..]);
    ForestConcat(st, ps[..i], [ps[i]] + ps[i + 1..], h);
    ForestConcat(st, [ps[i]], ps[i + 1..], h);
    ReachConcat(st, ps[..i], [ps[i]] + ps[i + 1..], h);
    ReachConcat(st, [ps[i]], ps[i + 1..], h);
  }

  lemma {:induction false} PathPrefix(st: Store, path: seq<PageNumber>, n: nat)
    requires IsPath(st, path) && 0 < n <= |path|
    ensures IsPath(st, path[..n])
    decreases n
  {
    if n > 1 {
      PathPrefix(st, path[1..], n - 1);
      assert path[..n][1..] == path[1..][..n - 1];
    }
  }

  /** The last step of a path goes to a child. */
  lemma {:induction false} PathStep(st: Store, path: seq<PageNumber>)
    requires IsPath(st, path) && |path| > 1
    ensures Last(path) in Children(At(st, path[|path| - 2]))
  {
    if |path| > 2 {
      PathStep(st, path[1..]);
    }
  }

  lemma {:induction false} PathExtend(st: Store, path: seq<PageNumber>, p: PageNumber)
    requires IsPath(st, path) && p in Children(At(st, Last(path)))
    ensures IsPath(st, path + [p])
  {
    if |path| > 1 {
      PathExtend(st, path[1..], p);
      assert (path + [p])[1..] == path[1..] + [p];
    }
  }

  /** `st'` is `st` with the subtree at the end of `path` replaced, and nothing else below the root. */
  ghost predicate Replaces(st: Store, st': Store, path: seq<PageNumber>, h: nat)
    requires path != [] && |path| <= h + 1
  {
    var hq := h + 1 - |path|;
    var outside := Reach(st, [path[0]], h) - Reach(st, [Last(path)], hq);
    && (forall p :: p in outside ==> p in st && p in st' && st'[p] == st[p])
    && Reach(st', [Last(path)], hq) !! outside
  }

  /** `Replaces` for a path of one step: only the subtree of child `i` of page `p` changed. */
  lemma ReplaceChild(st: Store, st': Store, p: PageNumber, i: nat, h: nat)
    requires h > 0 && Forest(st, [p], h)
    requires i <= |At(st, p).cells|
    requires Forest(st', [At(st, p).Child(i)], h - 1)
    requires Replaces(st, st', [p, At(st, p).Child(i)], h)
    ensures Forest(st', [p], h)
    ensures Reach(st', [p], h)
         == Reach(st, [p], h) - Reach(st, [At(st, p).Child(i)], h - 1) + Reach(st', [At(st, p).Child(i)], h - 1)
    ensures At(st', p) == At(st, p)
    ensures Flat(st', At(st, p).cells[..i], h) == Flat(st, At(st, p).cells[..i], h)
    ensures After(st', At(st, p), i, h) == After(st, At(st, p), i, h)
  {
    hide Forest, Reach, Order, Flat;
    var pg := At(st, p);
    var kids := Children(pg);
    ReachOne(st, p, h);
    ForestOne(st, p, h);
    ForestSplit(st, kids, i, h - 1);
    assert kids[i] == pg.Child(i);
    Frame(st, st', kids[..i], h - 1);
    Frame(st, st', kids[i + 1..], h - 1);
    ForestSplit(st', kids, i, h - 1);
    ReachOne(st', p, h);
    ForestOne(st', p, h);
    assert Lefts(pg.cells[..i]) == kids[..i];
    FrameFlat(st, st', pg.cells[..i], h);
    if i < |pg.cells| {
      assert Children(Page(pg.cells[i + 1..], pg.right)) == kids[i + 1..];
      FrameOrder(st, st', Page(pg.cells[i + 1..], pg.right), h);
    }
  }

  /** Replacing the subtree at the end of a path by another forest of the same height leaves a
      forest, and leaves everything to its left and to its right as it was. */
  lemma {:induction false} Graft(st: Store, st': Store, path: seq<PageNumber>, h: nat)
    requires IsPath(st, path) && |path| <= h + 1
    requires Forest(st, [path[0]], h)
    requires Forest(st', [Last(path)], h + 1 - |path|)
    requires Replaces(st, st', path, h)
    ensures IsPath(st', path)
    ensures Forest(st', [path[0]], h)
    ensures Reach(st', [path[0]], h)
         == Reach(st, [path[0]], h) - Reach(st, [Last(path)], h + 1 - |path|) + Reach(st', [Last(path)], h + 1 - |path|)
    ensures Before(st', path, h) == Before(st, path, h)
    ensures Beyond(st', path, h) == Beyond(st, path, h)
    decreases |path|
  {
    hide Forest, Reach, Order, Flat, After;
    if |path| > 1 {
      var pg := At(st, path[0]);
      var i := IndexOf(Children(pg), path[1]);
      assert pg.Child(i) == path[1];
      assert Last(path[1..]) == Last(path);
      PathReach(st, path[1..], h - 1);
      ReachOne(st, path[0], h);
      ForestOne(st, path[0], h);
      ForestSplit(st, Children(pg), i, h - 1);
      Graft(st, st', path[1..], h - 1);
      ReplaceChild(st, st', path[0], i, h);
    }
  }
}
