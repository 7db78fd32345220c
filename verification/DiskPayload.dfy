/** Payloads too large for a page: stored in a chain of overflow pages, joined again, freed. */
module DiskPayload {
  import opened PageTrees
  import opened PageRows
  import DiskDeal

  /** An overflow page: the bytes in use, and the next page of the chain, 0 at its end. */
  datatype OverflowPage = OverflowPage(next: PageNumber, bytes: seq<bv8>)

  const BLANK := OverflowPage(0, [])

  type OverflowStore = map<PageNumber, OverflowPage>

  ghost function At(st: OverflowStore, p: PageNumber): OverflowPage {
    if p in st then st[p] else BLANK
  }

  /** A cell: the bytes it holds itself, and where the rest of them are. */
  datatype StoredCell = Whole(content: seq<bv8>) | Split(content: seq<bv8>, overflow: PageNumber)

  /** `nums` is the chain of pages that starts at `p` and ends at page 0. */
  ghost predicate Chain(st: OverflowStore, p: PageNumber, nums: seq<PageNumber>)
    decreases |nums|
  {
    if nums == [] then p == 0
    else p == nums[0] && p != 0 && p in st && Chain(st, st[p].next, nums[1..])
  }

  ghost function ChainBytes(st: OverflowStore, nums: seq<PageNumber>): seq<bv8> {
    if nums == [] then [] else (if nums[0] in st then st[nums[0]].bytes else []) + ChainBytes(st, nums[1..])
  }

  /** The cell stores `payload`, in its own bytes and in the pages `nums`. */
  ghost predicate Stores(st: OverflowStore, cell: StoredCell, nums: seq<PageNumber>, payload: seq<bv8>) {
    match cell
    case Whole(content) => nums == [] && content == payload
    case Split(content, p) => Distinct(nums) && Chain(st, p, nums) && payload == content + ChainBytes(st, nums)
  }

  /** Every page but the last is full, and the last one is not empty. */
  ghost predicate Filled(st: OverflowStore, nums: seq<PageNumber>, usable: nat) {
    && (forall p :: p in nums ==> p in st)
    && (forall i :: 0 <= i < |nums| - 1 ==> |st[nums[i]].bytes| == usable)
    && (nums != [] ==> 0 < |st[nums[|nums| - 1]].bytes| <= usable)
  }

  /** A chain does not depend on pages outside it. */
  lemma {:induction false} ChainFrame(st: OverflowStore, st': OverflowStore, p: PageNumber, nums: seq<PageNumber>)
    requires Chain(st, p, nums)
    requires forall q :: q in nums ==> q in st' && (q in st ==> st'[q] == st[q])
    ensures Chain(st', p, nums) && ChainBytes(st', nums) == ChainBytes(st, nums)
    decreases |nums|
  {
    if nums != [] {
      assert forall q :: q in nums[1..] ==> q in nums;
      ChainFrame(st, st', st[p].next, nums[1..]);
    }
  }

  /** Linking a new last page. */
  lemma {:induction false} ChainLink(st: OverflowStore, p: PageNumber, nums: seq<PageNumber>, q: PageNumber,
          last: seq<bv8>, bytes: seq<bv8>)
    requires nums != [] && Distinct(nums) && Chain(st, p, nums)
    requires q != 0 && q !in nums
    ensures var st' := st[nums[|nums| - 1] := OverflowPage(q, last)][q := OverflowPage(0, bytes)];
      && Chain(st', p, nums + [q])
      && ChainBytes(st', nums + [q]) == ChainBytes(st[nums[|nums| - 1] := OverflowPage(0, last)], nums) + bytes
    decreases |nums|
  {
    var m := |nums| - 1;
    var st' := st[nums[m] := OverflowPage(q, last)][q := OverflowPage(0, bytes)];
    var st1 := st[nums[m] := OverflowPage(0, last)];
    assert (nums + [q])[1..] == nums[1..] + [q];
    if m > 0 {
      assert nums[1..][m - 1] == nums[m] && nums[0] != nums[m];
      ChainLink(st, st[p].next, nums[1..], q, last, bytes);
    } else {
      assert nums[1..] == [] && (nums + [q])[1..] == [q] && [q][1..] == [];
      assert ChainBytes(st1, nums) == last + ChainBytes(st1, []);
      assert ChainBytes(st', nums + [q]) == last + ChainBytes(st', [q]);
      assert ChainBytes(st', [q]) == bytes + ChainBytes(st', []);
    }
  }

  /** Filling in the last page of a chain. */
  lemma {:induction false} ChainFill(st: OverflowStore, p: PageNumber, nums: seq<PageNumber>, bytes: seq<bv8>)
    requires nums != [] && Distinct(nums) && Chain(st, p, nums)
    requires At(st, nums[|nums| - 1]) == BLANK
    ensures var st' := st[nums[|nums| - 1] := OverflowPage(0, bytes)];
      Chain(st', p, nums) && ChainBytes(st', nums) == ChainBytes(st, nums) + bytes
    decreases |nums|
  {
    var m := |nums| - 1;
    if m > 0 {
      assert nums[1..][m - 1] == nums[m] && nums[0] != nums[m];
      ChainFill(st, st[p].next, nums[1..], bytes);
    } else {
      assert nums[1..] == [];
    }
  }

  lemma ChainEnds(st: OverflowStore, p: PageNumber, nums: seq<PageNumber>)
    requires Chain(st, p, nums)
    ensures forall q :: q in nums ==> q in st && q != 0
    ensures nums != [] ==> st[nums[|nums| - 1]].next == 0
    decreases |nums|
  {
    if nums != [] {
      ChainEnds(st, st[p].next, nums[1..]);
      assert nums == [p] + nums[1..];
    }
  }

  class OverflowPager {
    var pages: OverflowStore
    const maxPayload: nat      // what a cell may hold without overflow
    const pointerSize: nat     // bytes of the page number an overflow cell ends with
    const usable: nat          // room in an overflow page

    constructor (maxPayload: nat, pointerSize: nat, usable: nat)
      requires pointerSize <= maxPayload && 0 < usable
      ensures pages == map[] && Configured()
    {
      pages := map[];
      this.maxPayload, this.pointerSize, this.usable := maxPayload, pointerSize, usable;
    }

    ghost predicate Configured() {
      pointerSize <= maxPayload && 0 < usable
    }

    method Alloc() returns (p: PageNumber)
      modifies this
      ensures p != 0 && p !in old(pages) && pages == old(pages)[p := BLANK]
    {
      DiskDeal.FreshExists(pages.Keys);
      p :| p != 0 && p !in pages;
      pages := pages[p := BLANK];
    }

    method Free(p: PageNumber)
      modifies this
      ensures pages == old(pages) - {p}
    {
      pages := pages - {p};
    }

    /** Make a cell for a payload of any length. */
    method AllocCell(payload: seq<bv8>) returns (cell: StoredCell, ghost nums: seq<PageNumber>)
      requires Configured()
      modifies this
      ensures Stores(pages, cell, nums, payload)
      ensures cell.Whole? <==> |payload| <= maxPayload
      ensures cell.Split? ==> |cell.content| + pointerSize == maxPayload && nums != []
      ensures Filled(pages, nums, usable)
      ensures (forall p :: p in nums ==> p !in old(pages)) && pages - ToSet(nums) == old(pages)
    {
      nums := [];
      if |payload| <= maxPayload {
        cell := Whole(payload);
        assert pages - {} == pages;
        return;
      }
      ghost var st0 := pages;
      var firstCellPayloadSize := maxPayload - pointerSize;
      var page := Alloc();
      cell := Split(payload[..firstCellPayloadSize], page);
      var stored := firstCellPayloadSize;
      BuildStart(st0, page, usable);
      nums := AllocChain(payload, stored, page, st0);
    }

    /** Store what is left of the payload from page `first` on, in as many pages as it takes. */
    method AllocChain(payload: seq<bv8>, stored0: nat, first: PageNumber, ghost st0: OverflowStore)
      returns (ghost nums: seq<PageNumber>)
      requires Configured() && stored0 < |payload|
      requires first in pages && pages[first] == BLANK && Building(st0, pages, first, [first], usable)
      modifies this
      ensures Distinct(nums) && Chain(pages, first, nums) && payload == payload[..stored0] + ChainBytes(pages, nums)
      ensures nums != [] && Filled(pages, nums, usable)
      ensures (forall p :: p in nums ==> p !in st0) && pages - ToSet(nums) == st0
    {
      hide Building, Chain, ChainBytes, Distinct, ToSet;
      var page, stored := first, stored0;
      nums := [first];
      OneBlank(pages, first);
      while true
        invariant stored0 <= stored < |payload|
        invariant Building(st0, pages, first, nums, usable)
        invariant nums != [] && nums[|nums| - 1] == page && page in pages && pages[page] == BLANK
        invariant payload[stored0..stored] == ChainBytes(pages, nums)
        decreases |payload| - stored
      {
        var n := if usable < |payload| - stored then usable else |payload| - stored;
        var chunk := payload[stored..stored + n];
        BuildFill(st0, pages, first, nums, usable, chunk);
        pages := pages[page := OverflowPage(pages[page].next, chunk)];
        assert payload[stored0..stored + n] == payload[stored0..stored] + chunk;
        stored := stored + n;
        if stored >= |payload| {
          break;
        }
        ghost var st := pages;
        var next := Alloc();
        BuildLink(st0, st, first, nums, usable, chunk, next);
        pages := pages[page := OverflowPage(next, pages[page].bytes)];
        assert pages == st[page := OverflowPage(next, chunk)][next := BLANK];
        nums := nums + [next];
        page := next;
      }
      assert payload == payload[..stored0] + payload[stored0..stored];
      BuildEnd(st0, pages, first, nums, usable);
    }

    /** The whole payload of a cell. */
    method ReassemblePayload(cell: StoredCell, ghost nums: seq<PageNumber>, ghost stored: seq<bv8>)
      returns (payload: seq<bv8>)
      requires Stores(pages, cell, nums, stored)
      ensures payload == stored
    {
      if cell.Whole? {
        return cell.content;
      }
      var page := cell.overflow;
      payload := cell.content;
      ghost var left := nums;
      while page != 0
        invariant Chain(pages, page, left)
        invariant stored == payload + ChainBytes(pages, left)
        decreases |left|
      {
        payload := payload + pages[page].bytes;
        page := pages[page].next;
        left := left[1..];
      }
    }

    /** Give back the pages of a cell, following the chain. */
    method FreeCell(cell: StoredCell, ghost nums: seq<PageNumber>, ghost stored: seq<bv8>)
      requires Stores(pages, cell, nums, stored)
      modifies this
      ensures pages == old(pages) - ToSet(nums)
    {
      if cell.Whole? {
        return;
      }
      hide Freeing, Chain, ToSet, Distinct;
      var page := cell.overflow;
      ghost var done, left := [], nums;
      FreeStart(pages, page, nums);
      while page != 0
        invariant Freeing(old(pages), pages, page, nums, done, left)
        decreases |left|
      {
        FreeStep(old(pages), pages, page, nums, done, left);
        var next := pages[page].next;
        Free(page);
        done, left := done + [page], left[1..];
        page := next;
      }
      FreeEnd(old(pages), pages, page, nums, done, left);
    }

    /** A payload stored and freed again: what was read is what was stored, and nothing is left. */
    method RoundTrip(payload: seq<bv8>) returns (read: seq<bv8>)
      requires Configured()
      modifies this
      ensures read == payload
      ensures pages == old(pages)
    {
      var cell; ghost var nums;
      cell, nums := AllocCell(payload);
      read := ReassemblePayload(cell, nums, payload);
      FreeCell(cell, nums, payload);
    }
  }

  /** Half-built chain: its last page is not full yet, and nothing outside it has changed. */
  ghost predicate Building(st0: OverflowStore, st: OverflowStore, p: PageNumber, nums: seq<PageNumber>, usable: nat) {
    && nums != [] && Distinct(nums) && Chain(st, p, nums)
    && (forall q :: q in nums ==> q !in st0 && q in st)
    && (forall i :: 0 <= i < |nums| - 1 ==> |st[nums[i]].bytes| == usable)
    && st - ToSet(nums) == st0
  }

  lemma BuildStart(st: OverflowStore, p: PageNumber, usable: nat)
    requires p != 0 && p !in st
    ensures Building(st, st[p := BLANK], p, [p], usable)
  {
    var st' := st[p := BLANK];
    assert [p][1..] == [] && Chain(st', 0, []);
    assert ToSet([p]) == {p};
    assert st' - {p} == st;
  }

  lemma OneBlank(st: OverflowStore, p: PageNumber)
    requires p in st && st[p] == BLANK
    ensures ChainBytes(st, [p]) == []
  {
    assert [p][1..] == [];
  }

  lemma BuildFill(st0: OverflowStore, st: OverflowStore, p: PageNumber, nums: seq<PageNumber>, usable: nat,
          bytes: seq<bv8>)
    requires Building(st0, st, p, nums, usable) && At(st, nums[|nums| - 1]) == BLANK
    ensures var st' := st[nums[|nums| - 1] := OverflowPage(0, bytes)];
      Building(st0, st', p, nums, usable) && ChainBytes(st', nums) == ChainBytes(st, nums) + bytes
  {
    hide Chain, ChainBytes;
    ChainFill(st, p, nums, bytes);
    assert nums[|nums| - 1] in nums;
  }

  lemma BuildLink(st0: OverflowStore, st: OverflowStore, p: PageNumber, nums: seq<PageNumber>, usable: nat,
          bytes: seq<bv8>, next: PageNumber)
    requires Building(st0, st, p, nums, usable) && At(st, nums[|nums| - 1]) == OverflowPage(0, bytes)
    requires |bytes| == usable
    requires next != 0 && next !in st
    ensures var st' := st[nums[|nums| - 1] := OverflowPage(next, bytes)][next := BLANK];
      && Building(st0, st', p, nums + [next], usable)
      && ChainBytes(st', nums + [next]) == ChainBytes(st, nums)
  {
    hide Chain, ChainBytes;
    var last := nums[|nums| - 1];
    ChainLink(st, p, nums, next, bytes, []);
    assert st[last := OverflowPage(0, bytes)] == st;
    ToSetConcat(nums, next);
    assert last in nums && next !in nums;
    var st' := st[last := OverflowPage(next, bytes)][next := BLANK];
    assert st' - ToSet(nums + [next]) == st0;
  }

  lemma BuildEnd(st0: OverflowStore, st: OverflowStore, p: PageNumber, nums: seq<PageNumber>, usable: nat)
    requires Building(st0, st, p, nums, usable) && 0 < |At(st, nums[|nums| - 1]).bytes| <= usable
    ensures Distinct(nums) && Chain(st, p, nums) && st - ToSet(nums) == st0
    ensures (forall q :: q in nums ==> q !in st0) && Filled(st, nums, usable)
  {
    hide Chain;
  }

  /** Part of the chain freed: what is left is still a chain. */
  ghost predicate Freeing(st0: OverflowStore, st: OverflowStore, p: PageNumber, nums: seq<PageNumber>,
          done: seq<PageNumber>, left: seq<PageNumber>) {
    && nums == done + left && Distinct(nums)
    && st == st0 - ToSet(done)
    && Chain(st, p, left)
  }

  lemma FreeStart(st: OverflowStore, p: PageNumber, nums: seq<PageNumber>)
    requires Distinct(nums) && Chain(st, p, nums)
    ensures Freeing(st, st, p, nums, [], nums)
  {
    assert [] + nums == nums;
    assert st - {} == st;
  }

  lemma FreeStep(st0: OverflowStore, st: OverflowStore, p: PageNumber, nums: seq<PageNumber>, done: seq<PageNumber>,
          left: seq<PageNumber>)
    requires Freeing(st0, st, p, nums, done, left) && p != 0
    ensures p in st && left != []
    ensures Freeing(st0, st - {p}, st[p].next, nums, done + [p], left[1..])
  {
    assert left[0] == nums[|done|] == p;
    forall q | q in left[1..] ensures q in left && q != p {
      var i :| 0 <= i < |left| - 1 && left[1..][i] == q;
      assert nums[|done| + 1 + i] == q;
    }
    ChainEnds(st, p, left);
    ChainFrame(st, st - {p}, st[p].next, left[1..]);
    ToSetConcat(done, p);
    assert done + [p] + left[1..] == nums;
  }

  lemma FreeEnd(st0: OverflowStore, st: OverflowStore, p: PageNumber, nums: seq<PageNumber>, done: seq<PageNumber>,
          left: seq<PageNumber>)
    requires Freeing(st0, st, p, nums, done, left) && p == 0
    ensures st == st0 - ToSet(nums)
  {
    assert left == [];
    assert done == nums;
  }
}
