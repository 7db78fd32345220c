/** The leaves of a tree of pages, in order; and the uniqueness of paths. */
module TextbookFringe {
  import opened PageTrees
  import opened PagePaths
  import opened PageRows

  /** The leaves below `ps`, from left to right. */
  ghost function Fringe(st: Store, ps: seq<PageNumber>, h: nat): seq<PageNumber>
    decreases h, |ps|
  {
    if ps == [] then [] else
      (if h == 0 then [ps[0]] else Fringe(st, Children(At(st, ps[0])), h - 1)) + Fringe(st, ps[1..], h)
  }

  lemma {:induction false} FringeConcat(st: Store, a: seq<PageNumber>, b: seq<PageNumber>, h: nat)
    ensures Fringe(st, a + b, h) == Fringe(st, a, h) + Fringe(st, b, h)
    decreases |a|
  {
    if a == [] {
      assert a + b == b;
    } else {
      assert (a + b)[1..] == a[1..] + b;
      FringeConcat(st, a[1..], b, h);
    }
  }

  lemma FringeOne(st: Store, p: PageNumber, h: nat)
    ensures Fringe(st, [p], h) == if h == 0 then [p] else Fringe(st, Children(At(st, p)), h - 1)
  {
    assert [p][1..] == [];
  }

  lemma FringeSplit(st: Store, ps: seq<PageNumber>, i: nat, h: nat)
    requires i < |ps|
    ensures Fringe(st, ps, h) == Fringe(st, ps[..i], h) + Fringe(st, [ps[i]], h) + Fringe(st, ps[i + 1..], h)
  {
    assert ps == ps[..i] + ([ps[i]] + ps[i + 1..]);
    FringeConcat(st, ps[..i], [ps[i]] + ps[i + 1..], h);
    FringeConcat(st, [ps[i]], ps[i + 1..], h);
  }

  lemma {:induction false} FringeFrame(st: Store, st': Store, ps: seq<PageNumber>, h: nat)
    requires forall p :: p in Reach(st, ps, h) ==> At(st', p) == At(st, p)
    ensures Fringe(st', ps, h) == Fringe(st, ps, h)
    decreases h, |ps|
  {
    if ps != [] {
      FringeFrame(st, st', ps[1..], h);
      if h > 0 {
        FringeFrame(st, st', Children(At(st, ps[0])), h - 1);
      }
    }
  }

  /** The leaves are pages of the forest, each there once, and the only leaves of it. */
  lemma {:induction false} FringeLeaves(st: Store, ps: seq<PageNumber>, h: nat)
    requires Forest(st, ps, h)
    ensures Distinct(Fringe(st, ps, h))
    ensures forall p :: p in Fringe(st, ps, h) <==> p in Reach(st, ps, h) && At(st, p).IsLeaf()
    decreases h, |ps|
  {
    if ps == [] {
    } else {
      hide Forest, Reach, NodeShape, Fringe;
      var p := ps[0];
      assert ps == [p] + ps[1..];
      FringeConcat(st, [p], ps[1..], h);
      FringeOne(st, p, h);
      ForestConcat(st, [p], ps[1..], h);
      ReachConcat(st, [p], ps[1..], h);
      FringeLeaves(st, ps[1..], h);
      ForestOne(st, p, h);
      ReachOne(st, p, h);
      LeafShape(st, p, h);
      if h > 0 {
        FringeLeaves(st, Children(At(st, p)), h - 1);
      }
      DistinctConcat(Fringe(st, [p], h), Fringe(st, ps[1..], h));
    }
  }

  lemma LeafShape(st: Store, p: PageNumber, h: nat)
    requires NodeShape(At(st, p), h)
    ensures At(st, p).IsLeaf() <==> h == 0
  {
    assert At(st, p).Child(|At(st, p).cells|) == At(st, p).right;
  }

  lemma DistinctConcat<T>(a: seq<T>, b: seq<T>)
    requires Distinct(a) && Distinct(b) && forall x :: x in a ==> x !in b
    ensures Distinct(a + b)
  {
    var s := a + b;
    forall i, j | 0 <= i < j < |s| ensures s[i] != s[j] {
      if i < |a| <= j { assert s[i] in a && s[j] in b; }
    }
  }

  /** Leaves left of the subtree at the end of a path, and right of it. */
  ghost function FringeBefore(st: Store, path: seq<PageNumber>, h: nat): seq<PageNumber>
    requires IsPath(st, path) && |path| <= h + 1
  {
    if |path| == 1 then [] else
      var kids := Children(At(st, path[0]));
      Fringe(st, kids[..IndexOf(kids, path[1])], h - 1) + FringeBefore(st, path[1..], h - 1)
  }

  ghost function FringeBeyond(st: Store, path: seq<PageNumber>, h: nat): seq<PageNumber>
    requires IsPath(st, path) && |path| <= h + 1
  {
    if |path| == 1 then [] else
      var kids := Children(At(st, path[0]));
      FringeBeyond(st, path[1..], h - 1) + Fringe(st, kids[IndexOf(kids, path[1]) + 1..], h - 1)
  }

  lemma {:induction false} PathFringe(st: Store, path: seq<PageNumber>, h: nat)
    requires IsPath(st, path) && |path| <= h + 1
    ensures Fringe(st, [path[0]], h)
         == FringeBefore(st, path, h) + Fringe(st, [Last(path)], h + 1 - |path|) + FringeBeyond(st, path, h)
    decreases |path|
  {
    hide Fringe, Children;
    if |path| == 1 {
    } else {
      hide At, FringeBefore, FringeBeyond;
      var i := IndexOf(Children(At(st, path[0])), path[1]);
      FringeAround(st, path, h);
      ChildFringe(st, path[0], i, h);
      PathFringe(st, path[1..], h - 1);
      assert Last(path[1..]) == Last(path);
      var kids := Children(At(st, path[0]));
      Regroup(Fringe(st, kids[..i], h - 1), FringeBefore(st, path[1..], h - 1),
        Fringe(st, [Last(path)], h + 1 - |path|),
              FringeBeyond(st, path[1..], h - 1), Fringe(st, kids[i + 1..], h - 1));
    }
  }

  lemma FringeAround(st: Store, path: seq<PageNumber>, h: nat)
    requires IsPath(st, path) && 1 < |path| <= h + 1
    ensures var kids := Children(At(st, path[0]));
      var i := IndexOf(kids, path[1]);
      && FringeBefore(st, path, h) == Fringe(st, kids[..i], h - 1) + FringeBefore(st, path[1..], h - 1)
      && FringeBeyond(st, path, h) == FringeBeyond(st, path[1..], h - 1) + Fringe(st, kids[i + 1..], h - 1)
  {
  }

  lemma ChildFringe(st: Store, p: PageNumber, i: nat, h: nat)
    requires h > 0 && i < |Children(At(st, p))|
    ensures var kids := Children(At(st, p));
      Fringe(st, [p], h)
        == Fringe(st, kids[..i], h - 1) + Fringe(st, [kids[i]], h - 1) + Fringe(st, kids[i + 1..], h - 1)
  {
    hide Fringe;
    FringeOne(st, p, h);
    FringeSplit(st, Children(At(st, p)), i, h - 1);
  }

  lemma Regroup<T>(a: seq<T>, b: seq<T>, m: seq<T>, c: seq<T>, d: seq<T>)
    ensures a + (b + m + c) + d == (a + b) + m + (c + d)
  {
  }

  /** Replacing the subtree at the end of a path leaves the other leaves as they were. */
  lemma {:induction false} GraftFringe(st: Store, st': Store, path: seq<PageNumber>, h: nat)
    requires IsPath(st, path) && IsPath(st', path) && |path| <= h + 1
    requires Forest(st, [path[0]], h)
    requires Replaces(st, st', path, h)
    ensures FringeBefore(st', path, h) == FringeBefore(st, path, h)
    ensures FringeBeyond(st', path, h) == FringeBeyond(st, path, h)
    decreases |path|
  {
    if |path| > 1 {
      hide Forest, Reach, Fringe;
      var i := IndexOf(Children(At(st, path[0])), path[1]);
      assert Last(path[1..]) == Last(path);
      ReplacesBelow(st, st', path, i, h);
      GraftFringe(st, st', path[1..], h - 1);
    }
  }

  /** One step down a path whose end is replaced. */
  lemma ReplacesBelow(st: Store, st': Store, path: seq<PageNumber>, i: nat, h: nat)
    requires IsPath(st, path) && 1 < |path| <= h + 1 && Forest(st, [path[0]], h) && Replaces(st, st', path, h)
    requires i <= |At(st, path[0]).cells| && At(st, path[0]).Child(i) == path[1]
    ensures var kids := Children(At(st, path[0]));
      && At(st', path[0]) == At(st, path[0])
      && Forest(st, [path[1]], h - 1) && Replaces(st, st', path[1..], h - 1)
      && Fringe(st', kids[..i], h - 1) == Fringe(st, kids[..i], h - 1)
      && Fringe(st', kids[i + 1..], h - 1) == Fringe(st, kids[i + 1..], h - 1)
  {
    hide Forest, Reach, Fringe, IsPath;
    var kids := Children(At(st, path[0]));
    assert kids[i] == path[1];
    assert Last(path[1..]) == Last(path);
    PathReach(st, path, h);
    PathReach(st, path[1..], h - 1) by { PathTail(st, path); }
    ReachOne(st, path[0], h);
    ForestOne(st, path[0], h);
    ForestSplit(st, kids, i, h - 1);
    FringeFrame(st, st', kids[..i], h - 1);
    FringeFrame(st, st', kids[i + 1..], h - 1);
  }

  lemma PathTail(st: Store, path: seq<PageNumber>)
    requires IsPath(st, path) && |path| > 1
    ensures IsPath(st, path[1..])
  {
  }

  /** There is one path to a page of a tree. */
  lemma {:induction false} PathUnique(st: Store, a: seq<PageNumber>, b: seq<PageNumber>, h: nat)
    requires IsPath(st, a) && IsPath(st, b) && |a| <= h + 1 && |b| <= h + 1
    requires Forest(st, [a[0]], h) && a[0] == b[0] && Last(a) == Last(b)
    ensures a == b
    decreases |a|
  {
    hide Forest, Reach;
    PathReach(st, a, h);
    PathReach(st, b, h);
    ReachHas(st, [Last(a)], 0, h + 1 - |a|);
    ReachHas(st, [Last(b)], 0, h + 1 - |b|);
    if |a| > 1 && |b| > 1 {
      var kids := Children(At(st, a[0]));
      var i, j := IndexOf(kids, a[1]), IndexOf(kids, b[1]);
      ForestOne(st, a[0], h);
      ForestSplit(st, kids, i, h - 1);
      PathReach(st, a[1..], h - 1);
      PathReach(st, b[1..], h - 1);
      assert Last(a[1..]) == Last(b[1..]) == Last(a);
      SameChild(st, kids, i, j, Last(a), h - 1);
      PathUnique(st, a[1..], b[1..], h - 1);
    }
  }

  lemma SameChild(st: Store, kids: seq<PageNumber>, i: nat, j: nat, p: PageNumber, h: nat)
    requires i < |kids| && j < |kids| && Forest(st, kids, h)
    requires p in Reach(st, [kids[i]], h) && p in Reach(st, [kids[j]], h)
    ensures i == j
  {
    hide Forest, Reach;
    ForestSplit(st, kids, i, h);
    if j < i {
      assert kids[..i][j] == kids[j];
      ReachHas(st, kids[..i], j, h);
    } else if i < j {
      assert kids[i + 1..][j - i - 1] == kids[j];
      ReachHas(st, kids[i + 1..], j - i - 1, h);
    }
  }
}
