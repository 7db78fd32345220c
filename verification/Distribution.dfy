/** The left-biased distribution of `balance`: how many cells each page gets. */
module Distribution {

  function Sum(s: seq<nat>): nat {
    if s == [] then 0 else Sum(s[..|s| - 1]) + s[|s| - 1]
  }

  /** Cells of one size, at least one of them, two of which fit a page. */
  ghost predicate EqualSized(sizes: seq<nat>, usable: nat) {
    && sizes != []
    && (forall k :: 0 <= k < |sizes| ==> sizes[k] == sizes[0])
    && 0 < sizes[0] && 2 * sizes[0] <= usable
  }

  /** Cells of size `s` that fit a page. */
  ghost function Capacity(s: nat, usable: nat): nat
    requires s > 0
  {
    usable / s
  }

  /** Cells of size `s` with which a page stops being less than half full. */
  ghost function Half(s: nat, usable: nat): nat
    requires s > 0
  {
    (usable / 2 + s - 1) / s
  }

  lemma {:induction false} SumUpdate(s: seq<nat>, i: nat, x: nat)
    requires i < |s|
    ensures Sum(s[i := x]) == Sum(s) - s[i] + x
    decreases |s|
  {
    var n := |s| - 1;
    if i == n {
      assert s[i := x][..n] == s[..n];
    } else {
      assert s[i := x][..n] == s[..n][i := x];
      SumUpdate(s[..n], i, x);
    }
  }

  lemma SumSnoc(s: seq<nat>, x: nat)
    ensures Sum(s + [x]) == Sum(s) + x
  {
    assert (s + [x])[..|s|] == s;
  }

  lemma DivBounds(n: nat, s: nat)
    requires s > 0
    ensures (n / s) * s <= n < (n / s) * s + s
  {
    assert n == s * (n / s) + n % s;
  }

  lemma MulMono(a: nat, b: nat, s: nat)
    requires a <= b
    ensures a * s <= b * s
  {
  }

  /** What comparing `n` cells of size `s` against the page means in cells. */
  lemma Counting(n: nat, s: nat, usable: nat)
    requires s > 0
    ensures n * s <= usable <==> n <= Capacity(s, usable)
    ensures n * s < usable / 2 <==> n < Half(s, usable)
  {
    var cap, half := Capacity(s, usable), Half(s, usable);
    DivBounds(usable, s);
    DivBounds(usable / 2 + s - 1, s);
    hide Capacity, Half;
    if n <= cap { MulMono(n, cap, s); } else { MulMono(cap + 1, n, s); FullPages(cap, s); }
    if n < half { MulMono(n + 1, half, s); FullPages(n, s); } else { MulMono(half, n, s); }
  }

  /** Two cells to a page are enough for a page to be half full before it is full. */
  lemma Thresholds(s: nat, usable: nat)
    requires 0 < s && 2 * s <= usable
    ensures 2 <= Capacity(s, usable)
    ensures 1 <= Half(s, usable) <= Capacity(s, usable)
  {
    var c := Capacity(s, usable);
    Counting(2, s, usable);
    Counting(0, s, usable);
    Counting(c, s, usable);
    DivBounds(usable, s);
  }

  /** State after the first loop, for cells of one size: full pages, then one with what is left. */
  ghost predicate Packed(done: nat, counts: seq<nat>, totals: seq<nat>, s: nat, cap: nat) {
    && |counts| == |totals| > 0
    && (forall j :: 0 <= j < |counts| - 1 ==> counts[j] == cap)
    && (forall j :: 0 <= j < |counts| ==> totals[j] == counts[j] * s)
    && counts[|counts| - 1] <= cap
    && done == (|counts| - 1) * (cap + 1) + counts[|counts| - 1]
  }

  /** First loop: fill a page until a cell does not fit; that cell becomes a divider. */
  method Pack(sizes: seq<nat>, usable: nat) returns (counts: seq<nat>, totals: seq<nat>)
    ensures |counts| == |totals| > 0
    ensures Sum(counts) + |counts| - 1 == |sizes|
    ensures sizes == [] ==> counts == [0]
    ensures EqualSized(sizes, usable) ==> Packed(|sizes|, counts, totals, sizes[0], Capacity(sizes[0], usable))
  {
    hide Packed, Capacity;
    totals, counts := [0], [0];
    SumSnoc([], 0);
    ghost var equal, s := EqualSized(sizes, usable), if sizes == [] then 1 else sizes[0];
    if equal {
      PackStart(s, usable);
    }
    for k := 0 to |sizes|
      invariant |counts| == |totals| > 0
      invariant Sum(counts) + |counts| - 1 == k
      invariant k == 0 ==> counts == [0]
      invariant equal ==> Packed(k, counts, totals, s, Capacity(s, usable))
    {
      var i := |counts| - 1;
      if equal {
        PackStep(k, counts, totals, s, usable);
      }
      if totals[i] + sizes[k] <= usable {
        SumUpdate(counts, i, counts[i] + 1);
        counts := counts[i := counts[i] + 1];
        totals := totals[i := totals[i] + sizes[k]];
      } else {
        SumSnoc(counts, 0);
        counts, totals := counts + [0], totals + [0];
      }
    }
  }

  lemma PackStart(s: nat, usable: nat)
    requires s > 0
    ensures Packed(0, [0], [0], s, Capacity(s, usable))
  {
  }

  lemma PackStep(k: nat, counts: seq<nat>, totals: seq<nat>, s: nat, usable: nat)
    requires s > 0 && Packed(k, counts, totals, s, Capacity(s, usable))
    ensures var i := |counts| - 1;
      if totals[i] + s <= usable
      then Packed(k + 1, counts[i := counts[i] + 1], totals[i := totals[i] + s], s, Capacity(s, usable))
      else Packed(k + 1, counts + [0], totals + [0], s, Capacity(s, usable))
  {
    hide Capacity;
    var i := |counts| - 1;
    Counting(counts[i] + 1, s, usable);
    FullPages(counts[i], s);
    FullPages(i, Capacity(s, usable) + 1);
  }

  /** The second loop, about to look at page `i`: pages to the right are at least half full, pages
      to the left still as packed, and the divider index has not fallen behind. */
  ghost predicate Leaning(i: nat, div: int, n: nat, counts: seq<nat>, totals: seq<nat>, s: nat, usable: nat)
    requires s > 0
  {
    var cap, half := Capacity(s, usable), Half(s, usable);
    && |counts| == |totals| && i < |counts|
    && (forall j :: 0 <= j < |counts| ==> totals[j] == counts[j] * s && counts[j] <= cap)
    && (forall j :: 0 <= j < i ==> counts[j] == cap)
    && (i < |counts| - 1 ==> counts[i] >= cap - half)
    && (forall j :: i < j < |counts| ==> counts[j] >= half)
    && i * (cap + 1) - 1 <= div < n
  }

  /** Inside page `i`: it still lacks cells, or it has just stopped. */
  ghost predicate Shifting(i: nat, div: int, n: nat, counts: seq<nat>, totals: seq<nat>, s: nat, usable: nat)
    requires s > 0
  {
    var cap, half := Capacity(s, usable), Half(s, usable);
    && |counts| == |totals| && 0 < i < |counts|
    && (forall j :: 0 <= j < |counts| ==> totals[j] == counts[j] * s && counts[j] <= cap)
    && (forall j :: 0 <= j < i - 1 ==> counts[j] == cap)
    && (forall j :: i < j < |counts| ==> counts[j] >= half)
    && cap - counts[i - 1] <= half
    && (counts[i - 1] < cap ==> counts[i] <= half && cap - counts[i - 1] <= counts[i])
    && i * (cap + 1) - 1 <= div + (cap - counts[i - 1]) && div < n
  }

  // ---- The counts, page by page ----

  /** Cells page `i` of `p` lacks to be half full when the second loop comes to it: the last page what the
      rest leaves open, every page before it less by what a page can spare. */
  ghost function Lacking(i: nat, p: nat, n: nat, cap: nat, half: nat): int
    requires i < p
  {
    var lacks := half - (n - (p - 1) * (cap + 1)) - (p - 1 - i) * (cap - half);
    if lacks > 0 then lacks else 0
  }

  /** What page `i` has when the second loop comes to it. */
  ghost function Reached(i: nat, p: nat, n: nat, cap: nat, half: nat): int
    requires i < p
  {
    if i == p - 1 then n - (p - 1) * (cap + 1) else cap - Lacking(i + 1, p, n, cap, half)
  }

  /** What page `i` has after the second loop. */
  ghost function Shifted(i: nat, p: nat, n: nat, cap: nat, half: nat): int
    requires i < p
  {
    Reached(i, p, n, cap, half) + if i == 0 then 0 else Lacking(i, p, n, cap, half)
  }

  /** How `n` cells are spread over pages for `cap` cells that are half full with `half`: as few pages as
      can be, and at the end one cell more to the first page if it is less than half full. */
  ghost predicate LeftBiased(counts: seq<nat>, n: nat, cap: nat, half: nat) {
    var p := |counts|;
    && p > 0 && (p - 1) * (cap + 1) <= n < p * (cap + 1)
    && forall j :: 0 <= j < p ==>
         counts[j] == Shifted(j, p, n, cap, half)
           + if p == 1 || Shifted(0, p, n, cap, half) >= half then 0 else if j == 0 then 1 else if j == 1 then -1 else 0
  }

  lemma PageCount(counts: seq<nat>, n: nat, cap: nat, half: nat, j: nat)
    requires LeftBiased(counts, n, cap, half) && j < |counts|
    ensures counts[j] == Shifted(j, |counts|, n, cap, half)
      + if |counts| == 1 || Shifted(0, |counts|, n, cap, half) >= half then 0
        else if j == 0 then 1 else if j == 1 then -1 else 0
  {
    hide Shifted;
  }

  lemma LackingIs(i: nat, p: nat, n: nat, cap: nat, half: nat)
    requires i < p && half <= cap
    ensures var short := half - Reached(i, p, n, cap, half);
      Lacking(i, p, n, cap, half) == if short > 0 then short else 0
  {
    if i < p - 1 {
      var spare := cap - half;
      assert (p - 1 - i) * spare == (p - 1 - (i + 1)) * spare + spare;
      NonNegative(p - 1 - (i + 1), spare);
    }
  }

  lemma NonNegative(a: nat, b: nat)
    ensures a * b >= 0
  {
  }

  /** The second loop, about to look at page `i`. */
  ghost predicate LeaningExact(i: nat, n: nat, counts: seq<nat>, cap: nat, half: nat) {
    && i < |counts|
    && counts[i] == Reached(i, |counts|, n, cap, half)
    && (forall j :: i < j < |counts| ==> counts[j] == Shifted(j, |counts|, n, cap, half))
  }

  /** Inside page `i`. */
  ghost predicate ShiftingExact(i: nat, n: nat, counts: seq<nat>, cap: nat, half: nat) {
    && 0 < i < |counts|
    && counts[i] + counts[i - 1] == Reached(i, |counts|, n, cap, half) + cap
    && (forall j :: i < j < |counts| ==> counts[j] == Shifted(j, |counts|, n, cap, half))
  }

  lemma ExactDone(i: nat, div: int, n: nat, counts: seq<nat>, totals: seq<nat>, s: nat, usable: nat)
    requires 0 < s && 2 * s <= usable && Shifting(i, div, n, counts, totals, s, usable) && totals[i] >= usable / 2
    requires ShiftingExact(i, n, counts, Capacity(s, usable), Half(s, usable))
    ensures LeaningExact(i - 1, n, counts, Capacity(s, usable), Half(s, usable))
  {
    hide Capacity, Half, Reached, Lacking;
    var cap, half := Capacity(s, usable), Half(s, usable);
    Thresholds(s, usable);
    Counting(counts[i], s, usable);
    LackingIs(i, |counts|, n, cap, half);
    ReachedBefore(i - 1, |counts|, n, cap, half);
  }

  lemma ReachedBefore(i: nat, p: nat, n: nat, cap: nat, half: nat)
    requires i + 1 < p
    ensures Reached(i, p, n, cap, half) == cap - Lacking(i + 1, p, n, cap, half)
  {
  }

  lemma ExactEnd(div: int, n: nat, counts: seq<nat>, totals: seq<nat>, s: nat, usable: nat)
    requires 0 < s && 2 * s <= usable && |counts| >= 2
    requires Leaning(0, div, n, counts, totals, s, usable)
    requires LeaningExact(0, n, counts, Capacity(s, usable), Half(s, usable))
    requires (|counts| - 1) * (Capacity(s, usable) + 1) <= n < |counts| * (Capacity(s, usable) + 1)
    ensures totals[0] >= usable / 2 ==> LeftBiased(counts, n, Capacity(s, usable), Half(s, usable))
    ensures totals[0] < usable / 2 && counts[1] >= 1 ==>
      LeftBiased(counts[0 := counts[0] + 1][1 := counts[1] - 1], n, Capacity(s, usable), Half(s, usable))
  {
    hide Capacity, Half, Reached, Lacking;
    Counting(counts[0], s, usable);
  }

  /** A page is half full with little more than half of its cells. */
  lemma HalfAtMost(s: nat, usable: nat)
    requires 0 < s && 2 * s <= usable
    ensures 2 * Half(s, usable) <= Capacity(s, usable) + 2
  {
    hide Capacity, Half;
    var half := Half(s, usable);
    Thresholds(s, usable);
    Counting(half - 1, s, usable);
    assert (2 * (half - 1)) * s == 2 * ((half - 1) * s);
    Counting(2 * (half - 1), s, usable);
  }

  /** The first page never has fewer cells than the second. */
  lemma FirstIsLargest(counts: seq<nat>, n: nat, cap: nat, half: nat)
    requires LeftBiased(counts, n, cap, half) && 1 <= half <= cap && 2 <= cap && 2 * half <= cap + 2
    ensures |counts| >= 2 ==> counts[0] >= counts[1]
  {
    var p := |counts|;
    if p >= 2 {
      LackingIs(1, p, n, cap, half);
      if p >= 3 {
        LackingIs(2, p, n, cap, half);
        LackingLess(p, n, cap, half);
      }
    }
  }

  lemma LackingLess(p: nat, n: nat, cap: nat, half: nat)
    requires p >= 3 && half <= cap && (p - 1) * (cap + 1) <= n
    ensures Lacking(1, p, n, cap, half) == 0 || Lacking(1, p, n, cap, half) <= half - (cap - half)
  {
    assert (p - 2) * (cap - half) == (p - 3) * (cap - half) + (cap - half);
    NonNegative(p - 3, cap - half);
  }

  /** How many cells each page gets.  `ok` is false where the source would panic on an index or a
      subtraction below zero.  Whatever the sizes, cells and dividers add up; for cells of one
      size, two of which fit a page, there is no panic, the number of pages is the least possible,
      every page gets a cell and none gets too many, and pages from the third on are half full. */
  method Distribute(sizes: seq<nat>, usable: nat) returns (ok: bool, counts: seq<nat>)
    ensures ok ==> counts != [] && Sum(counts) + |counts| - 1 == |sizes|
    ensures sizes == [] ==> ok && counts == [0]
    ensures EqualSized(sizes, usable) ==>
      var s, cap := sizes[0], Capacity(sizes[0], usable);
      && ok
      && LeftBiased(counts, |sizes|, cap, Half(s, usable))
      && (forall j :: 0 <= j < |counts| ==> 1 <= counts[j] <= cap)
      && (forall j :: 2 <= j < |counts| ==> counts[j] >= Half(s, usable))
      && (|counts| >= 2 ==> counts[0] >= counts[1])
  {
    hide Leaning, Shifting, Packed, Capacity, Half, Sum, LeftBiased, Reached, Shifted, Lacking;
    var totals: seq<nat>;
    counts, totals := Pack(sizes, usable);
    var pages := |counts|;
    ghost var equal, s := EqualSized(sizes, usable), if sizes == [] then 1 else sizes[0];
    if equal {
      PackedPages(|sizes|, counts, totals, s, usable);
      PackedExact(|sizes|, counts, totals, s, usable);
    }
    if pages >= 2 {
      if |sizes| < counts[pages - 1] + 1 {
        return false, counts;
      }
      var div: int := |sizes| - counts[pages - 1] - 1;
      var i := pages - 1;
      while i >= 1
        invariant 0 <= i < pages == |counts| == |totals|
        invariant div < |sizes|
        invariant Sum(counts) + pages - 1 == |sizes|
        invariant equal ==> Leaning(i, div, |sizes|, counts, totals, s, usable)
        invariant equal ==> LeaningExact(i, |sizes|, counts, Capacity(s, usable), Half(s, usable))
      {
        if equal {
          ShiftStart(i, div, |sizes|, counts, totals, s, usable);
          assert counts[i - 1] == Capacity(s, usable) by { FullBefore(i, div, |sizes|, counts, totals, s, usable); }
        }
        while totals[i] < usable / 2
          invariant pages == |counts| == |totals|
          invariant div < |sizes|
          invariant Sum(counts) + pages - 1 == |sizes|
          invariant equal ==> Shifting(i, div, |sizes|, counts, totals, s, usable)
          invariant equal ==> ShiftingExact(i, |sizes|, counts, Capacity(s, usable), Half(s, usable))
          decreases div
        {
          if equal {
            ShiftSafe(i, div, |sizes|, counts, totals, s, usable);
          }
          if div < 1 || counts[i - 1] < 1 || totals[i - 1] < sizes[div - 1] {
            return false, counts;
          }
          ghost var before, sums := counts, totals;
          SumUpdate(counts, i, counts[i] + 1);
          counts := counts[i := counts[i] + 1];
          totals := totals[i := totals[i] + sizes[div]];
          SumUpdate(counts, i - 1, counts[i - 1] - 1);
          counts := counts[i - 1 := counts[i - 1] - 1];
          totals := totals[i - 1 := totals[i - 1] - sizes[div - 1]];
          div := div - 1;
          if equal {
            ShiftStep(i, div + 1, |sizes|, before, sums, counts, totals, s, usable);
          }
        }
        if equal {
          ShiftDone(i, div, |sizes|, counts, totals, s, usable);
          ExactDone(i, div, |sizes|, counts, totals, s, usable);
        }
        i := i - 1;
      }
      if equal {
        LeanEnd(div, |sizes|, counts, totals, s, usable);
        ExactEnd(div, |sizes|, counts, totals, s, usable);
      }
      if totals[0] < usable / 2 {
        if counts[1] < 1 {
          return false, counts;
        }
        SumUpdate(counts, 0, counts[0] + 1);
        counts := counts[0 := counts[0] + 1];
        SumUpdate(counts, 1, counts[1] - 1);
        counts := counts[1 := counts[1] - 1];
      }
    }
    ok := true;
    if equal {
      Thresholds(s, usable);
      HalfAtMost(s, usable);
      FirstIsLargest(counts, |sizes|, Capacity(s, usable), Half(s, usable));
    }
  }

  lemma FullBefore(i: nat, div: int, n: nat, counts: seq<nat>, totals: seq<nat>, s: nat, usable: nat)
    requires 0 < s && i >= 1 && Leaning(i, div, n, counts, totals, s, usable)
    ensures counts[i - 1] == Capacity(s, usable)
  {
  }

  lemma PackedExact(n: nat, counts: seq<nat>, totals: seq<nat>, s: nat, usable: nat)
    requires 0 < s && 2 * s <= usable && n > 0 && Packed(n, counts, totals, s, Capacity(s, usable))
    ensures |counts| == 1 ==> LeftBiased(counts, n, Capacity(s, usable), Half(s, usable))
    ensures |counts| >= 2 ==> LeaningExact(|counts| - 1, n, counts, Capacity(s, usable), Half(s, usable))
  {
    hide Capacity, Half;
  }

  lemma PackedPages(n: nat, counts: seq<nat>, totals: seq<nat>, s: nat, usable: nat)
    requires 0 < s && 2 * s <= usable && n > 0
    requires Packed(n, counts, totals, s, Capacity(s, usable))
    ensures (|counts| - 1) * (Capacity(s, usable) + 1) <= n < |counts| * (Capacity(s, usable) + 1)
    ensures |counts| == 1 ==> 1 <= counts[0] <= Capacity(s, usable)
    ensures |counts| >= 2 ==>
      && n >= counts[|counts| - 1] + 1
      && Leaning(|counts| - 1, n - counts[|counts| - 1] - 1, n, counts, totals, s, usable)
  {
    hide Capacity, Half;
    Thresholds(s, usable);
    var b := Capacity(s, usable) + 1;
    FullPages(|counts| - 1, b);
    if |counts| >= 2 {
      FullPages(|counts| - 2, b);
    }
  }

  lemma ShiftStart(i: nat, div: int, n: nat, counts: seq<nat>, totals: seq<nat>, s: nat, usable: nat)
    requires 0 < s && 2 * s <= usable && i >= 1
    requires Leaning(i, div, n, counts, totals, s, usable)
    ensures Shifting(i, div, n, counts, totals, s, usable)
  {
    hide Capacity, Half;
  }

  lemma LeanEnd(div: int, n: nat, counts: seq<nat>, totals: seq<nat>, s: nat, usable: nat)
    requires 0 < s && 2 * s <= usable
    requires Leaning(0, div, n, counts, totals, s, usable) && |counts| >= 2
    ensures forall j :: 0 <= j < |counts| ==> counts[j] <= Capacity(s, usable)
    ensures forall j :: 1 <= j < |counts| ==> 1 <= Half(s, usable) <= counts[j]
    ensures totals[0] < usable / 2 ==> counts[0] < Capacity(s, usable) && counts[1] >= 2
    ensures totals[0] >= usable / 2 ==> counts[0] >= 1
  {
    hide Capacity, Half;
    Thresholds(s, usable);
    Counting(counts[0], s, usable);
  }

  lemma FullPages(m: nat, b: nat)
    ensures (m + 1) * b == m * b + b
  {
  }

  lemma ShiftSafe(i: nat, div: int, n: nat, counts: seq<nat>, totals: seq<nat>, s: nat, usable: nat)
    requires 0 < s && 2 * s <= usable
    requires Shifting(i, div, n, counts, totals, s, usable)
    requires totals[i] < usable / 2
    ensures div >= 1 && counts[i - 1] >= 1 && totals[i - 1] >= s
    ensures counts[i] < Half(s, usable)
  {
    hide Capacity, Half;
    Thresholds(s, usable);
    Counting(counts[i], s, usable);
    FullPages(i - 1, Capacity(s, usable) + 1);
    assert counts[i - 1] >= 1;
    FullPages(counts[i - 1] - 1, s);
  }

  lemma ShiftStep(i: nat, div: int, n: nat, counts: seq<nat>, totals: seq<nat>, counts': seq<nat>, totals': seq<nat>,
          s: nat, usable: nat)
    requires 0 < s && 2 * s <= usable
    requires Shifting(i, div, n, counts, totals, s, usable)
    requires counts[i] < Half(s, usable) && counts[i - 1] >= 1 && totals[i - 1] >= s
    requires counts' == counts[i := counts[i] + 1][i - 1 := counts[i - 1] - 1]
    requires totals' == totals[i := totals[i] + s][i - 1 := totals[i - 1] - s]
    ensures Shifting(i, div - 1, n, counts', totals', s, usable)
  {
    hide Capacity, Half;
    Thresholds(s, usable);
    assert (counts[i] + 1) * s == totals[i] + s;
    assert (counts[i - 1] - 1) * s == totals[i - 1] - s;
  }

  lemma ShiftDone(i: nat, div: int, n: nat, counts: seq<nat>, totals: seq<nat>, s: nat, usable: nat)
    requires 0 < s && 2 * s <= usable
    requires Shifting(i, div, n, counts, totals, s, usable)
    requires totals[i] >= usable / 2
    ensures Leaning(i - 1, div, n, counts, totals, s, usable)
  {
    hide Capacity, Half;
    Thresholds(s, usable);
    Counting(counts[i], s, usable);
    FullPages(i - 1, Capacity(s, usable) + 1);
  }
}
