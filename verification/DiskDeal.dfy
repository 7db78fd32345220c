/** The redistribution of `balance` as the source does it: collect the cells of neighbouring
    siblings and their dividers, then deal them out over as many pages as asked for. */
module DiskDeal {
  import opened PageTrees
  import opened PagePaths
  import opened PageRows
  import Distribution

  /** A sibling page and the index of the cell of the parent that points at it. */
  datatype Sibling = Sibling(page: PageNumber, index: nat)

  ghost function Numbers(sibs: seq<Sibling>): seq<PageNumber> {
    seq(|sibs|, i requires 0 <= i < |sibs| => sibs[i].page)
  }

  ghost predicate Indexed(sibs: seq<Sibling>, first: nat) {
    forall i :: 0 <= i < |sibs| ==> sibs[i].index == first + i
  }

  /** A page the pager may hand out exists in every store. */
  lemma {:induction false} FreshExists(used: set<PageNumber>)
    ensures exists p: PageNumber :: p != 0 && p !in used
  {
    var m := UpperBound(used);
    assert m + 1 != 0 && m + 1 !in used;
  }

  ghost function UpperBound(s: set<nat>): (m: nat)
    ensures forall x :: x in s ==> x <= m
  {
    if s == {} then 0 else
      var x :| x in s;
      var m := UpperBound(s - {x});
      assert s == s - {x} + {x};
      if x > m then x else m
  }

  /** The pager: a store, from which pages are taken and to which they are given back. */
  class Pager {
    var pages: Store

    constructor ()
      ensures pages == map[]
    {
      pages := map[];
    }

    method Alloc() returns (p: PageNumber)
      modifies this
      ensures p != 0 && p !in old(pages)
      ensures pages == old(pages)[p := EMPTY_PAGE]
    {
      FreshExists(pages.Keys);
      p :| p != 0 && p !in pages;
      pages := pages[p := EMPTY_PAGE];
    }

    method Free(p: PageNumber)
      modifies this
      ensures pages == old(pages) - {p}
    {
      pages := pages - {p};
    }

    /** First loop of the redistribution: drain the siblings in order, each but the last followed
        by its divider, taken out of the parent and pointed at the sibling's rightmost child. */
    method Collect(parent: PageNumber, sibs: seq<Sibling>, ghost before: seq<Cell>, ghost ds: seq<Entry>,
            ghost tail: Page)
      returns (cells: seq<Cell>)
      requires |sibs| == |ds| + 1 && Indexed(sibs, |before|)
      requires Distinct(Numbers(sibs)) && parent !in Numbers(sibs)
      requires forall p :: p in Numbers(sibs) ==> p in pages
      requires parent in pages && pages[parent] == Parent(before, Numbers(sibs), ds, tail)
      modifies this
      ensures Page(cells, At(old(pages), sibs[|ds|].page).right) == Join(Pages(old(pages), Numbers(sibs)), ds)
      ensures pages.Keys == old(pages).Keys
      ensures Drained(old(pages), pages, parent, Numbers(sibs), |sibs|)
      ensures pages[parent] == Page(before + Repoint(tail, sibs[|ds|].page).cells, Repoint(tail, sibs[|ds|].page).right)
    {
      hide Cat, Repoint, Drained;
      ghost var nums, m, st := Numbers(sibs), |ds|, pages;
      ghost var t := Repoint(tail, nums[m]);
      ghost var row := RowCells(nums[..m], ds);
      var dividerIdx := sibs[0].index;
      cells := [];
      CatNil();
      assert Drained(st, pages, parent, nums, 0) by { DrainedNone(st, parent, nums); }
      assert Pages(st, nums[..0]) == [] && ds[..0] == [] && row[0..] == row;
      for i := 0 to |sibs|
        invariant pages.Keys == st.Keys
        invariant i <= m ==> cells == Cat(Pages(st, nums[..i]), ds[..i])
        invariant i <= m ==> pages[parent] == Page(before + row[i..] + t.cells, t.right)
        invariant i == m + 1 ==> cells == Cat(Pages(st, nums[..m]), ds[..m]) + st[nums[m]].cells
        invariant i == m + 1 ==> pages[parent] == Page(before + row[m..] + t.cells, t.right)
        invariant Drained(st, pages, parent, nums, i)
      {
        var p := sibs[i].page;
        assert p == nums[i];
        DrainedStep(st, pages, parent, nums, i);
        assert pages[p] == st[p];
        cells := cells + pages[p].cells;
        pages := pages[p := Page([], pages[p].right)];
        if i < |sibs| - 1 {
          var pg := pages[parent];
          CutDivider(before, row, i, t.cells);
          var divider := pg.cells[dividerIdx];
          DrainedParent(st, pages, parent, nums, i + 1,
            Page(pg.cells[..dividerIdx] + pg.cells[dividerIdx + 1..], pg.right));
          pages := pages[parent := Page(pg.cells[..dividerIdx] + pg.cells[dividerIdx + 1..], pg.right)];
          cells := cells + [Cell(divider.entry, pages[p].right)];
          CatNext(st, nums, ds, i);
        }
      }
      assert Pages(st, nums)[..m] == Pages(st, nums[..m]);
      assert ds[..m] == ds;
      assert before + row[m..] + t.cells == before + t.cells;
    }

    /** Make the siblings as many as the distribution asks for, from the right. */
    method FitPages(ghost parent: PageNumber, sibs0: seq<Sibling>, n: nat) returns (sibs: seq<Sibling>)
      requires n > 0 && sibs0 != [] && Indexed(sibs0, sibs0[0].index)
      requires Blank(pages, parent, Numbers(sibs0))
      modifies this
      ensures |sibs| == n && Indexed(sibs, sibs0[0].index)
      ensures Fitted(old(pages), pages, parent, Numbers(sibs0), Numbers(sibs))
    {
      hide Fitted, Blank;
      sibs := sibs0;
      ghost var st, nums0 := pages, Numbers(sibs0);
      FittedStart(st, parent, nums0);
      while |sibs| < n
        invariant 0 < |sibs| && |sibs0| <= |sibs| && (|sibs| > n ==> sibs == sibs0)
        invariant Indexed(sibs, sibs0[0].index)
        invariant Fitted(st, pages, parent, nums0, Numbers(sibs))
      {
        ghost var st1 := pages;
        var p := Alloc();
        FittedGrow(st, st1, parent, nums0, Numbers(sibs), p);
        assert Numbers(sibs + [Sibling(p, sibs[|sibs| - 1].index + 1)]) == Numbers(sibs) + [p];
        sibs := sibs + [Sibling(p, sibs[|sibs| - 1].index + 1)];
      }
      while n < |sibs|
        invariant n <= |sibs|
        invariant Indexed(sibs, sibs0[0].index)
        invariant Fitted(st, pages, parent, nums0, Numbers(sibs))
      {
        var k := |sibs| - 1;
        assert Numbers(sibs) == Numbers(sibs[..k]) + [sibs[k].page];
        FittedShrink(st, pages, parent, nums0, Numbers(sibs[..k]), sibs[k].page);
        Free(sibs[k].page);
        sibs := sibs[..k];
      }
    }

    /** The order in which a binary heap's buffer lists the pages: the source means ascending, but
        relies only on every page appearing once, and so does this. */
    method HeapOrder(sibs0: seq<Sibling>) returns (sibs: seq<Sibling>)
      requires Distinct(Numbers(sibs0))
      ensures |sibs| == |sibs0| && forall i :: 0 <= i < |sibs| ==> sibs[i].index == sibs0[i].index
      ensures Distinct(Numbers(sibs)) && ToSet(Numbers(sibs)) == ToSet(Numbers(sibs0))
    {
      hide Taken;
      var left := set i | 0 <= i < |sibs0| :: sibs0[i].page;
      TakenStart(sibs0);
      sibs := [];
      for i := 0 to |sibs0|
        invariant Taken(sibs0, sibs, left, i)
      {
        TakenMore(sibs0, sibs, left, i);
        var p :| p in left;
        TakenStep(sibs0, sibs, left, i, p);
        left := left - {p};
        sibs := sibs + [Sibling(p, sibs0[i].index)];
      }
      TakenEnd(sibs0, sibs, left);
    }

    /** Second half of the redistribution: fit the pages, order them, point the parent at the last
        one, then give each page its cells and put a divider in the parent after all but the last. */
    method Deal(parent: PageNumber, sibs0: seq<Sibling>, counts: seq<nat>, cells0: seq<Cell>, ghost before: seq<Cell>,
            ghost tail: Page)
      returns (ghost nums: seq<PageNumber>, ghost ds: seq<Entry>)
      requires sibs0 != [] && Indexed(sibs0, |before|)
      requires Blank(pages, parent, Numbers(sibs0))
      requires pages[parent] == Around(before, tail, sibs0[|sibs0| - 1].page)
      requires counts != [] && Distribution.Sum(counts) + |counts| - 1 == |cells0|
      modifies this
      ensures |nums| == |counts| == |ds| + 1
      ensures Spread(pages, nums, ds, cells0, At(old(pages), sibs0[|sibs0| - 1].page).right, counts)
      ensures parent in pages && pages[parent] == Parent(before, nums, ds, tail)
      ensures Moved(old(pages), pages, parent, Numbers(sibs0), nums)
    {
      hide Fitted, Blank, Repoint, Dealt, Spread, Moved, RowCells, Cat;
      ghost var st := pages;
      assert sibs0[|sibs0| - 1].page == Numbers(sibs0)[|sibs0| - 1];
      BlankAt(pages, parent, Numbers(sibs0), |sibs0| - 1);
      var oldRight := pages[sibs0[|sibs0| - 1].page].right;
      var dividerIdx := sibs0[0].index;
      var sibs1 := FitPages(parent, sibs0, |counts|);
      FittedParts(st, pages, parent, Numbers(sibs0), Numbers(sibs1));
      var sibs := HeapOrder(sibs1);
      nums, ds := Numbers(sibs), [];
      var n := |sibs|;
      FittedReorder(st, pages, parent, Numbers(sibs0), Numbers(sibs1), nums);
      FittedParts(st, pages, parent, Numbers(sibs0), nums);

      var last := sibs[n - 1].page;
      assert last == nums[n - 1];
      BlankAt(pages, parent, nums, n - 1);
      var pg := pages[parent];
      AroundAgain(before, tail, sibs0[|sibs0| - 1].page, last);
      var pg' := if dividerIdx == |pg.cells| then Page(pg.cells, last)
                 else Page(pg.cells[dividerIdx := Cell(pg.cells[dividerIdx].entry, last)], pg.right);
      DealStart(st, pages, parent, before, tail, Numbers(sibs0), nums, cells0, oldRight, counts);
      pages := pages[last := Page(pages[last].cells, oldRight)][parent := pg'];

      var cells := cells0;
      for i := 0 to n
        invariant |ds| == if i < n then i else n - 1
        invariant Dealt(st, pages, parent, before, tail, Numbers(sibs0), nums, ds, i, cells0, oldRight, cells, counts)
      {
        var p, k := sibs[i].page, counts[i];
        assert p == nums[i];
        DealRoom(st, pages, parent, before, tail, Numbers(sibs0), nums, ds, i, cells0, oldRight, cells, counts);
        if i < n - 1 {
          DealStep(st, pages, parent, before, tail, Numbers(sibs0), nums, ds, i, cells0, oldRight, cells, counts);
          var divider := cells[k];
          pages := pages[p := Page(pages[p].cells + cells[..k], divider.left)];
          var pg := pages[parent];
          var at := sibs[i].index;
          pages := pages[parent := Page(pg.cells[..at] + [Cell(divider.entry, p)] + pg.cells[at..], pg.right)];
          cells := cells[k + 1..];
          ds := ds + [divider.entry];
        } else {
          DealLast(st, pages, parent, before, tail, Numbers(sibs0), nums, ds, i, cells0, oldRight, cells, counts);
          pages := pages[p := Page(pages[p].cells + cells[..k], pages[p].right)];
          cells := cells[k..];
        }
      }
      DealEnd(st, pages, parent, before, tail, Numbers(sibs0), nums, ds, cells0, oldRight, cells, counts);
    }
  }

  /** The parent with its dividers taken out: one pointer left for all the siblings. */
  ghost function Around(before: seq<Cell>, tail: Page, p: PageNumber): Page {
    Page(before + Repoint(tail, p).cells, Repoint(tail, p).right)
  }

  lemma AroundAgain(before: seq<Cell>, tail: Page, p: PageNumber, q: PageNumber)
    ensures var pg, k := Around(before, tail, p), |before|;
      && k <= |pg.cells|
      && (if k == |pg.cells| then Page(pg.cells, q)
          else Page(pg.cells[k := Cell(pg.cells[k].entry, q)], pg.right)) == Around(before, tail, q)
  {
  }

  /** The pages `nums` and dividers `ds` hold exactly `cells` and the rightmost child `right`. */
  ghost predicate Spread(st: Store, nums: seq<PageNumber>, ds: seq<Entry>, cells: seq<Cell>, right: PageNumber,
          counts: seq<nat>) {
    && |nums| == |counts| == |ds| + 1
    && Join(Pages(st, nums), ds) == Page(cells, right)
    && forall i :: 0 <= i < |nums| ==> |At(st, nums[i]).cells| == counts[i]
  }

  /** Below the parent, pages `nums0` have given way to pages `nums`; nothing else changed. */
  ghost predicate Moved(st: Store, st': Store, parent: PageNumber, nums0: seq<PageNumber>, nums: seq<PageNumber>) {
    && Distinct(nums) && parent !in nums
    && st'.Keys == st.Keys - ToSet(nums0) + ToSet(nums)
    && (forall p :: p in nums ==> p != 0 && p in st' && (p in nums0 || p !in st))
    && (forall p :: p in st && p != parent && p !in nums0 ==> p in st' && st'[p] == st[p])
  }

  lemma BlankAt(st: Store, parent: PageNumber, nums: seq<PageNumber>, i: nat)
    requires Blank(st, parent, nums) && i < |nums|
    ensures nums[i] in st && nums[i] != parent && parent in st && st[nums[i]].cells == []
  {
  }

  lemma FittedParts(st: Store, st': Store, parent: PageNumber, nums0: seq<PageNumber>, nums: seq<PageNumber>)
    requires Fitted(st, st', parent, nums0, nums) && Blank(st, parent, nums0)
    ensures Blank(st', parent, nums) && Distinct(nums) && st'[parent] == st[parent]
  {
  }

  lemma FittedReorder(st: Store, st': Store, parent: PageNumber, nums0: seq<PageNumber>, nums: seq<PageNumber>,
          nums': seq<PageNumber>)
    requires Fitted(st, st', parent, nums0, nums)
    requires Distinct(nums') && ToSet(nums') == ToSet(nums)
    ensures Fitted(st, st', parent, nums0, nums')
  {
    forall p ensures p in nums' <==> p in nums {
      assert p in nums <==> p in ToSet(nums);
      assert p in nums' <==> p in ToSet(nums');
    }
  }

  /** About to give page `i` its cells: the pages before it and their dividers are done. */
  ghost predicate Dealt(st: Store, st': Store, parent: PageNumber, before: seq<Cell>, tail: Page,
          nums0: seq<PageNumber>, nums: seq<PageNumber>, ds: seq<Entry>, i: nat, all: seq<Cell>, right: PageNumber,
          cells: seq<Cell>, counts: seq<nat>)
  {
    var n := |nums|;
    && n == |counts| > 0 && i <= n
    && |ds| == (if i < n then i else n - 1)
    && Moved(st, st', parent, nums0, nums)
    && parent in st'
    && st'[parent]
      == (var t := Repoint(tail, nums[n - 1]); Page(before + RowCells(nums[..|ds|], ds) + t.cells, t.right))
    && (forall j :: 0 <= j < i ==> |At(st', nums[j]).cells| == counts[j])
    && (forall j :: i <= j < n ==> At(st', nums[j]).cells == [])
    && At(st', nums[n - 1]).right == right
    && (i < n ==> |cells| == Distribution.Sum(counts) - Distribution.Sum(counts[..i]) + n - 1 - i)
    && (i < n ==> Cat(Pages(st', nums[..i]), ds) + cells == all)
    && (i == n ==> Join(Pages(st', nums), ds) == Page(all, right))
  }

  lemma DealStart(st: Store, st1: Store, parent: PageNumber, before: seq<Cell>, tail: Page, nums0: seq<PageNumber>,
          nums: seq<PageNumber>, all: seq<Cell>, right: PageNumber, counts: seq<nat>)
    requires |nums| == |counts| > 0 && Distribution.Sum(counts) + |counts| - 1 == |all|
    requires Blank(st, parent, nums0) && Fitted(st, st1, parent, nums0, nums)
    requires nums[|nums| - 1] in st1
    ensures var last := nums[|nums| - 1];
      Dealt(st, st1[last := Page(st1[last].cells, right)][parent := Around(before, tail, last)],
            parent, before, tail, nums0, nums, [], 0, all, right, all, counts)
  {
    var last := nums[|nums| - 1];
    var st' := st1[last := Page(st1[last].cells, right)][parent := Around(before, tail, last)];
    assert last in nums;
    assert counts[..0] == [] && nums[..0] == [] && Pages(st', []) == [];
    assert RowCells([], []) == [];
    assert Cat([], []) + all == all;
    assert before + [] + Repoint(tail, last).cells == before + Repoint(tail, last).cells;
    forall j | 0 <= j < |nums| ensures At(st', nums[j]).cells == [] {
      assert nums[j] in nums;
    }
  }

  lemma {:induction false} SumPrefix(s: seq<nat>, i: nat)
    requires i <= |s|
    ensures Distribution.Sum(s[..i]) <= Distribution.Sum(s)
  {
    if i == |s| {
      assert s[..i] == s;
    } else {
      assert s[..|s| - 1][..i] == s[..i];
      SumPrefix(s[..|s| - 1], i);
    }
  }

  lemma DealRoom(st: Store, st': Store, parent: PageNumber, before: seq<Cell>, tail: Page, nums0: seq<PageNumber>,
          nums: seq<PageNumber>, ds: seq<Entry>, i: nat, all: seq<Cell>, right: PageNumber, cells: seq<Cell>,
          counts: seq<nat>)
    requires Dealt(st, st', parent, before, tail, nums0, nums, ds, i, all, right, cells, counts) && i < |nums|
    ensures nums[i] in st' && nums[i] != parent && parent in st' && st'[nums[i]].cells == []
    ensures counts[i] <= |cells| && (i < |nums| - 1 ==> counts[i] < |cells|)
    ensures (i == |nums| - 1 ==> counts[i] == |cells|)
    ensures |before| + |ds| <= |st'[parent].cells|
    ensures Distribution.Sum(counts[..i + 1]) == Distribution.Sum(counts[..i]) + counts[i]
  {
    hide Repoint, Cat;
    assert nums[i] in nums;
    assert counts[..i + 1][..i] == counts[..i];
    SumPrefix(counts, i + 1);
    if i == |nums| - 1 {
      assert counts[..i + 1] == counts;
    }
  }

  lemma PageSet(sibs: seq<Sibling>)
    ensures (set i | 0 <= i < |sibs| :: sibs[i].page) == ToSet(Numbers(sibs))
  {
    var pages, nums := set i | 0 <= i < |sibs| :: sibs[i].page, Numbers(sibs);
    forall p ensures p in pages <==> p in ToSet(nums) {
      if p in pages { var k :| 0 <= k < |sibs| && sibs[k].page == p; assert nums[k] == p; }
      if p in ToSet(nums) { var k :| 0 <= k < |sibs| && nums[k] == p; assert sibs[k].page == p; }
    }
  }

  /** The first `i` places have their pages, all different; `left` are the pages still to place. */
  ghost predicate Taken(sibs0: seq<Sibling>, sibs: seq<Sibling>, left: set<PageNumber>, i: nat) {
    && |sibs| == i <= |sibs0| && |left| == |sibs0| - i
    && (forall j :: 0 <= j < i ==> sibs[j].index == sibs0[j].index)
    && Distinct(Numbers(sibs)) && ToSet(Numbers(sibs)) !! left
    && ToSet(Numbers(sibs)) + left == ToSet(Numbers(sibs0))
  }

  lemma TakenStart(sibs0: seq<Sibling>)
    requires Distinct(Numbers(sibs0))
    ensures Taken(sibs0, [], set i | 0 <= i < |sibs0| :: sibs0[i].page, 0)
  {
    PageSet(sibs0);
    DistinctSize(Numbers(sibs0));
  }

  lemma TakenMore(sibs0: seq<Sibling>, sibs: seq<Sibling>, left: set<PageNumber>, i: nat)
    requires Taken(sibs0, sibs, left, i) && i < |sibs0|
    ensures exists p :: p in left
  {
    assert left != {};
  }

  lemma TakenStep(sibs0: seq<Sibling>, sibs: seq<Sibling>, left: set<PageNumber>, i: nat, p: PageNumber)
    requires Taken(sibs0, sibs, left, i) && i < |sibs0| && p in left
    ensures Taken(sibs0, sibs + [Sibling(p, sibs0[i].index)], left - {p}, i + 1)
  {
    assert Numbers(sibs + [Sibling(p, sibs0[i].index)]) == Numbers(sibs) + [p];
    ToSetConcat(Numbers(sibs), p);
  }

  lemma TakenEnd(sibs0: seq<Sibling>, sibs: seq<Sibling>, left: set<PageNumber>)
    requires Taken(sibs0, sibs, left, |sibs0|)
    ensures |sibs| == |sibs0| && forall i :: 0 <= i < |sibs| ==> sibs[i].index == sibs0[i].index
    ensures Distinct(Numbers(sibs)) && ToSet(Numbers(sibs)) == ToSet(Numbers(sibs0))
  {
    assert left == {};
  }

  lemma {:induction false} DistinctSize<T>(s: seq<T>)
    requires Distinct(s)
    ensures |ToSet(s)| == |s|
  {
    if s != [] {
      var n := |s| - 1;
      assert s == s[..n] + [s[n]];
      ToSetConcat(s[..n], s[n]);
      DistinctSize(s[..n]);
    }
  }

  /** Pages about to receive cells: distinct, empty, and not the parent. */
  ghost predicate Blank(st: Store, parent: PageNumber, nums: seq<PageNumber>) {
    && Distinct(nums) && parent !in nums && parent in st
    && forall p :: p in nums ==> p != 0 && p in st && st[p].cells == []
  }

  /** `nums` has come from `nums0` by taking pages from the pager and giving pages back. */
  ghost predicate Fitted(st: Store, st': Store, parent: PageNumber, nums0: seq<PageNumber>, nums: seq<PageNumber>) {
    && Blank(st', parent, nums)
    && st'.Keys == st.Keys - ToSet(nums0) + ToSet(nums)
    && (forall p :: p in nums ==> p in nums0 || p !in st)
    && (forall p :: p in st && p !in nums0 ==> p in st' && st'[p] == st[p])
  }

  lemma FittedStart(st: Store, parent: PageNumber, nums: seq<PageNumber>)
    requires Blank(st, parent, nums)
    ensures Fitted(st, st, parent, nums, nums)
  {
  }

  lemma FittedGrow(st: Store, st': Store, parent: PageNumber, nums0: seq<PageNumber>, nums: seq<PageNumber>,
          p: PageNumber)
    requires Fitted(st, st', parent, nums0, nums) && p != 0 && p !in st'
    ensures Fitted(st, st'[p := EMPTY_PAGE], parent, nums0, nums + [p])
  {
    assert p !in nums;
    assert forall q :: q in nums0 || q !in st || q in st';
    ToSetConcat(nums, p);
  }

  lemma FittedShrink(st: Store, st': Store, parent: PageNumber, nums0: seq<PageNumber>, nums: seq<PageNumber>,
          p: PageNumber)
    requires Fitted(st, st', parent, nums0, nums + [p])
    ensures Fitted(st, st' - {p}, parent, nums0, nums)
  {
    ToSetConcat(nums, p);
    assert p in nums + [p];
    assert forall q :: q in nums ==> q in nums + [p];
  }

  /** Of the siblings, the first `i` have been drained; no other page but the parent changed. */
  ghost predicate Drained(st: Store, st': Store, parent: PageNumber, nums: seq<PageNumber>, i: nat)
    requires i <= |nums|
  {
    && (forall j :: 0 <= j < i ==> nums[j] in st && nums[j] in st' && st'[nums[j]] == Page([], st[nums[j]].right))
    && (forall p :: p in st && p != parent && p !in nums[..i] ==> p in st' && st'[p] == st[p])
  }

  lemma DrainedNone(st: Store, parent: PageNumber, nums: seq<PageNumber>)
    ensures Drained(st, st, parent, nums, 0)
  {
  }

  lemma DrainedStep(st: Store, st': Store, parent: PageNumber, nums: seq<PageNumber>, i: nat)
    requires i < |nums| && Distinct(nums) && nums[i] in st && nums[i] != parent
    requires Drained(st, st', parent, nums, i)
    ensures nums[i] in st' && st'[nums[i]] == st[nums[i]]
    ensures Drained(st, st'[nums[i] := Page([], st[nums[i]].right)], parent, nums, i + 1)
  {
    assert nums[i] !in nums[..i];
    assert nums[..i + 1] == nums[..i] + [nums[i]];
  }

  lemma DrainedParent(st: Store, st': Store, parent: PageNumber, nums: seq<PageNumber>, i: nat, pg: Page)
    requires i <= |nums| && parent !in nums
    requires Drained(st, st', parent, nums, i)
    ensures Drained(st, st'[parent := pg], parent, nums, i)
  {
  }

  /** Taking the next divider out of the parent. */
  lemma CutDivider(before: seq<Cell>, row: seq<Cell>, i: nat, after: seq<Cell>)
    requires i < |row|
    ensures var all, k := before + row[i..] + after, |before|;
      all[k] == row[i] && all[..k] + all[k + 1..] == before + row[i + 1..] + after
  {
  }

  lemma CatNext(st: Store, nums: seq<PageNumber>, ds: seq<Entry>, i: nat)
    requires i < |ds| && |nums| == |ds| + 1
    ensures Cat(Pages(st, nums[..i + 1]), ds[..i + 1])
         == Cat(Pages(st, nums[..i]), ds[..i]) + At(st, nums[i]).cells + [Cell(ds[i], At(st, nums[i]).right)]
  {
    assert ds[..i + 1] == ds[..i] + [ds[i]];
    assert Pages(st, nums[..i + 1]) == Pages(st, nums[..i]) + [At(st, nums[i])];
    CatSnoc(Pages(st, nums[..i]), ds[..i], At(st, nums[i]), ds[i]);
  }

  lemma CatNil()
    ensures Cat([], []) == []
  {
  }

  lemma DealStep(st: Store, st': Store, parent: PageNumber, before: seq<Cell>, tail: Page, nums0: seq<PageNumber>,
          nums: seq<PageNumber>, ds: seq<Entry>, i: nat, all: seq<Cell>, right: PageNumber, cells: seq<Cell>,
          counts: seq<nat>)
    requires Dealt(st, st', parent, before, tail, nums0, nums, ds, i, all, right, cells, counts) && i < |nums| - 1
    requires counts[i] < |cells| && nums[i] in st' && parent in st' && nums[i] != parent
    requires |before| + i <= |st'[parent].cells|
    requires Distribution.Sum(counts[..i + 1]) == Distribution.Sum(counts[..i]) + counts[i]
    ensures
      var k, p, pg, at := counts[i], nums[i], st'[parent], |before| + i;
      var d := cells[k];
      Dealt(st, st'[p := Page(st'[p].cells + cells[..k], d.left)]
                   [parent := Page(pg.cells[..at] + [Cell(d.entry, p)] + pg.cells[at..], pg.right)],
            parent, before, tail, nums0, nums, ds + [d.entry], i + 1, all, right, cells[k + 1..], counts)
  {
    hide Repoint, Cat, Moved, Join;
    var k, p, pg, at := counts[i], nums[i], st'[parent], |before| + i;
    var d := cells[k];
    MovedMore(st, st', parent, nums0, nums, i, Page(st'[p].cells + cells[..k], d.left),
      Page(pg.cells[..at] + [Cell(d.entry, p)] + pg.cells[at..], pg.right));
    var st2 := st'[p := Page(st'[p].cells + cells[..k], d.left)]
                  [parent := Page(pg.cells[..at] + [Cell(d.entry, p)] + pg.cells[at..], pg.right)];
    forall j | 0 <= j < |nums| && j != i ensures At(st2, nums[j]) == At(st', nums[j]) {
      assert nums[j] in nums;
    }
    assert At(st2, p) == Page(cells[..k], d.left);
    assert Pages(st2, nums[..i]) == Pages(st', nums[..i]);
    assert Pages(st2, nums[..i + 1]) == Pages(st', nums[..i]) + [At(st2, p)];
    CatSnoc(Pages(st', nums[..i]), ds, At(st2, p), d.entry);
    assert cells == cells[..k] + [d] + cells[k + 1..];
    var t := Repoint(tail, nums[|nums| - 1]);
    assert RowCells(nums[..i + 1], ds + [d.entry]) == RowCells(nums[..i], ds) + [Cell(d.entry, p)];
    assert pg.cells[..at] == before + RowCells(nums[..i], ds) && pg.cells[at..] == t.cells;
  }

  lemma MovedMore(st: Store, st': Store, parent: PageNumber, nums0: seq<PageNumber>, nums: seq<PageNumber>, i: nat,
          pg: Page, top: Page)
    requires Moved(st, st', parent, nums0, nums) && i < |nums| && parent in st'
    ensures Moved(st, st'[nums[i] := pg][parent := top], parent, nums0, nums)
    ensures Distinct(nums) && parent !in nums
  {
    hide Distinct;
    assert nums[i] in nums && nums[i] in st';
  }

  lemma DealLast(st: Store, st': Store, parent: PageNumber, before: seq<Cell>, tail: Page, nums0: seq<PageNumber>,
          nums: seq<PageNumber>, ds: seq<Entry>, i: nat, all: seq<Cell>, right: PageNumber, cells: seq<Cell>,
          counts: seq<nat>)
    requires Dealt(st, st', parent, before, tail, nums0, nums, ds, i, all, right, cells, counts) && i == |nums| - 1
    requires counts[i] == |cells| && nums[i] in st' && parent in st' && nums[i] != parent
    ensures
      var k, p := counts[i], nums[i];
      Dealt(st, st'[p := Page(st'[p].cells + cells[..k], st'[p].right)],
            parent, before, tail, nums0, nums, ds, i + 1, all, right, cells[k..], counts)
  {
    hide Repoint, Cat;
    var p := nums[i];
    var st2 := st'[p := Page(st'[p].cells + cells[..counts[i]], st'[p].right)];
    forall j | 0 <= j < |nums| && j != i ensures At(st2, nums[j]) == At(st', nums[j]) {
      assert nums[j] in nums;
    }
    assert At(st2, p) == Page(cells, right);
    assert Pages(st2, nums[..i]) == Pages(st', nums[..i]);
    assert Pages(st2, nums)[..i] == Pages(st2, nums[..i]);
    assert p in nums;
    assert Moved(st, st2, parent, nums0, nums);
  }

  lemma DealEnd(st: Store, st': Store, parent: PageNumber, before: seq<Cell>, tail: Page, nums0: seq<PageNumber>,
          nums: seq<PageNumber>, ds: seq<Entry>, all: seq<Cell>, right: PageNumber, cells: seq<Cell>, counts: seq<nat>)
    requires Dealt(st, st', parent, before, tail, nums0, nums, ds, |nums|, all, right, cells, counts)
    ensures Spread(st', nums, ds, all, right, counts)
    ensures parent in st' && st'[parent] == Parent(before, nums, ds, tail)
    ensures Moved(st, st', parent, nums0, nums)
  {
    hide Repoint, Cat;
  }
}
