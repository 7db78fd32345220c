/** The page cache (src/storage/bufferpool_manager.cpp): a fixed number of frames, pins, and eviction
    of the frame used longest ago.  Whatever is cached, the pages read and written are those of a plain
    map. */
module BufferPool {

  const INVALID_TABLE_ID := 0
  const INVALID_PAGE_ID := 0xFFFF_FFFF
  const MAX_USED := 0xFFFF_FFFF_FFFF_FFFF

  datatype Key = Key(table: nat, page: nat)

  /** The bytes of a page. */
  type Data = seq<int>

  datatype Frame = Frame(table: nat, page: nat, pins: int, dirty: bool, lastUsed: nat, data: Data) {
    predicate Free() { table == INVALID_TABLE_ID }
    function Id(): Key { Key(table, page) }
    predicate Holds(key: Key) { !Free() && Id() == key }
  }

  datatype Fetched = Got(frame: nat) | BadPage | AllPinned

  // ---- The pool as a value ----

  /** What is in use is cached once; what is not marked dirty and not being written is on disk as it is
      in memory. */
  ghost predicate Consistent(fs: seq<Frame>, counter: nat, disk: map<Key, Data>, touched: set<Key>) {
    && (forall i :: 0 <= i < |fs| && fs[i].Free() ==> fs[i].pins == 0 && !fs[i].dirty)
    && (forall i :: 0 <= i < |fs| && !fs[i].Free() ==>
          2 <= fs[i].page && fs[i].pins >= 0 && fs[i].lastUsed <= counter < MAX_USED && fs[i].Id() in disk)
    && (forall i, j :: 0 <= i < j < |fs| && !fs[i].Free() && !fs[j].Free() ==>
      fs[i].Id() != fs[j].Id() && fs[i].lastUsed != fs[j].lastUsed)
    && (forall i :: 0 <= i < |fs| && !fs[i].Free() && !fs[i].dirty && fs[i].Id() !in touched ==>
      fs[i].data == disk[fs[i].Id()])
    && (forall key :: key in touched ==> exists i :: 0 <= i < |fs| && fs[i].Holds(key) && fs[i].pins > 0)
  }

  /** What a reader of a page sees. */
  ghost function Seen(fs: seq<Frame>, disk: map<Key, Data>, key: Key): Data
    requires key in disk
  {
    if i :| 0 <= i < |fs| && fs[i].Holds(key) then fs[i].data else disk[key]
  }

  ghost function Pages(fs: seq<Frame>, disk: map<Key, Data>): (m: map<Key, Data>)
    ensures m.Keys == disk.Keys
  {
    map key | key in disk :: Seen(fs, disk, key)
  }

  lemma SeenCached(fs: seq<Frame>, counter: nat, disk: map<Key, Data>, touched: set<Key>, i: nat)
    requires Consistent(fs, counter, disk, touched) && i < |fs| && !fs[i].Free()
    ensures fs[i].Id() in disk && Pages(fs, disk)[fs[i].Id()] == fs[i].data
  {
    var key := fs[i].Id();
    assert fs[i].Holds(key);
    var k :| 0 <= k < |fs| && fs[k].Holds(key) && Seen(fs, disk, key) == fs[k].data;
    assert fs[k].Holds(key);
    OnceCached(fs, counter, disk, touched, i, k);
  }

  lemma OnceCached(fs: seq<Frame>, counter: nat, disk: map<Key, Data>, touched: set<Key>, i: nat, k: nat)
    requires Consistent(fs, counter, disk, touched) && i < |fs| && k < |fs| && !fs[i].Free() && !fs[k].Free()
    ensures fs[i].Id() == fs[k].Id() ==> i == k
  {
  }

  /** Pages being written stay pinned when a frame changes that is none of theirs or stays pinned. */
  lemma StillPinned(fs: seq<Frame>, counter: nat, disk: map<Key, Data>, gs: seq<Frame>, touched: set<Key>, i: nat)
    requires Consistent(fs, counter, disk, touched)
    requires i < |fs| && |gs| == |fs| && gs == fs[i := gs[i]]
    requires fs[i].Free() || fs[i].pins == 0
      || (gs[i].table == fs[i].table && gs[i].page == fs[i].page && gs[i].pins > 0)
    ensures forall key :: key in touched ==> exists k :: 0 <= k < |gs| && gs[k].Holds(key) && gs[k].pins > 0
  {
    forall key | key in touched ensures exists k :: 0 <= k < |gs| && gs[k].Holds(key) && gs[k].pins > 0 {
      var k :| 0 <= k < |fs| && fs[k].Holds(key) && fs[k].pins > 0;
      assert fs[k].Holds(key) && gs[k].Holds(key) && gs[k].pins > 0;
    }
  }

  /** A page in an unpinned frame is not being written. */
  lemma NotTouched(fs: seq<Frame>, counter: nat, disk: map<Key, Data>, touched: set<Key>, i: nat)
    requires Consistent(fs, counter, disk, touched) && i < |fs| && !fs[i].Free() && fs[i].pins == 0
    ensures fs[i].Id() !in touched
  {
    forall k | 0 <= k < |fs| && fs[k].Holds(fs[i].Id()) ensures k == i {
      OnceCached(fs, counter, disk, touched, i, k);
    }
  }

  lemma SeenNotCached(fs: seq<Frame>, disk: map<Key, Data>, key: Key)
    requires key in disk && forall i :: 0 <= i < |fs| ==> !fs[i].Holds(key)
    ensures Pages(fs, disk)[key] == disk[key]
  {
  }

  /** Giving a frame other content changes what is seen of the pages it held and holds only. */
  lemma OneFrame(fs: seq<Frame>, counter: nat, disk: map<Key, Data>, touched: set<Key>, i: nat, f: Frame,
          counter2: nat, disk2: map<Key, Data>, touched2: set<Key>, key: Key)
    requires Consistent(fs, counter, disk, touched) && i < |fs|
    requires Consistent(fs[i := f], counter2, disk2, touched2)
    requires key in disk && key in disk2 && disk[key] == disk2[key] && !fs[i].Holds(key) && !f.Holds(key)
    ensures Pages(fs[i := f], disk2)[key] == Pages(fs, disk)[key]
  {
    var gs := fs[i := f];
    if k :| 0 <= k < |fs| && fs[k].Holds(key) {
      assert gs[k] == fs[k];
      SeenCached(fs, counter, disk, touched, k);
      SeenCached(gs, counter2, disk2, touched2, k);
    } else {
      forall k | 0 <= k < |gs| ensures !gs[k].Holds(key) {
      }
      SeenNotCached(fs, disk, key);
      SeenNotCached(gs, disk2, key);
    }
  }

  /** Whether a frame could be used for another page. */
  predicate Spare(f: Frame) {
    f.Free() || f.pins == 0
  }

  /** Whether every frame holds a pinned page. */
  ghost predicate AllInUse(fs: seq<Frame>) {
    forall k :: 0 <= k < |fs| ==> !fs[k].Free() && fs[k].pins > 0
  }

  /** The frame to use next: a free one, or else the unpinned one used longest ago. */
  ghost predicate Victim(fs: seq<Frame>, i: nat) {
    && i < |fs|
    && (fs[i].Free()
      || (fs[i].pins == 0
      && forall k :: 0 <= k < |fs| ==> !fs[k].Free() && (fs[k].pins == 0 ==> fs[i].lastUsed <= fs[k].lastUsed)))
  }

  /** With a free frame or a second unpinned one, the page fetched last is not the next to go. */
  lemma LatestSurvives(fs: seq<Frame>, counter: nat, disk: map<Key, Data>, touched: set<Key>, latest: nat, other: nat,
          next: nat)
    requires Consistent(fs, counter, disk, touched) && latest < |fs| && !fs[latest].Free()
    requires fs[latest].lastUsed == counter
    requires Victim(fs, next)
    requires other < |fs| && other != latest && Spare(fs[other])
    ensures next != latest
  {
    assert !fs[other].Free() ==> fs[other].lastUsed < fs[latest].lastUsed;
  }

  // ---- Runs ----

  /** `Store` is a write through the pointer of a pinned page, marked at once. */
  datatype Op =
    | Fetch(table: nat, page: nat)
    | Store(table: nat, page: nat, data: Data)
    | Unpin(table: nat, page: nat)
    | Flush

  datatype Answer = Shown(data: Data) | Done | Refused

  /** Tables are numbered from 1, and what is fetched is in a file. */
  predicate Sensible(pages: set<Key>, op: Op) {
    !op.Flush? ==> op.table != INVALID_TABLE_ID && (op.Fetch? && op.page >= 2 ==> Key(op.table, op.page) in pages)
  }

  /** The pool without frames: the bytes of all pages, and how often each is pinned. */
  datatype Plain = Plain(pages: map<Key, Data>, pins: map<Key, int>)

  /** What an operation answers with `count` frames: a fetch is refused for pages 0 and 1, and when as many
      other pages as there are frames are pinned; a write or an unpin when the page is not pinned. */
  ghost function Reply(count: nat, p: Plain, op: Op): Answer
    requires Sensible(p.pages.Keys, op)
  {
    match op
    case Fetch(table, page) =>
      var key := Key(table, page);
      if page < 2 || (|p.pins| == count && key !in p.pins) then Refused else Shown(p.pages[key])
    case Store(table, page, data) => if Key(table, page) in p.pins then Done else Refused
    case Unpin(table, page) => if Key(table, page) in p.pins then Done else Refused
    case Flush => Done
  }

  /** What an operation makes of pages and pins. */
  ghost function Effect(count: nat, p: Plain, op: Op): (r: Plain)
    requires Sensible(p.pages.Keys, op)
    ensures p.pages.Keys <= r.pages.Keys
  {
    if Reply(count, p, op) == Refused || op.Flush? then p
    else
      var key := Key(op.table, op.page);
      match op
      case Fetch(_, _) => p.(pins := p.pins[key := (if key in p.pins then p.pins[key] else 0) + 1])
      case Store(_, _, data) => p.(pages := p.pages[key := data])
      case Unpin(_, _) => p.(pins := if p.pins[key] == 1 then p.pins - {key} else p.pins[key := p.pins[key] - 1])
  }

  /** Pages and pins after a run of operations. */
  ghost function RunOn(count: nat, p: Plain, ops: seq<Op>): (r: Plain)
    requires forall i :: 0 <= i < |ops| ==> Sensible(p.pages.Keys, ops[i])
    ensures p.pages.Keys <= r.pages.Keys
  {
    if ops == [] then p
    else
      assert Sensible(p.pages.Keys, ops[|ops| - 1]);
      Effect(count, RunOn(count, p, ops[..|ops| - 1]), ops[|ops| - 1])
  }

  lemma RunOnOne(count: nat, p: Plain, ops: seq<Op>, n: nat)
    requires n < |ops| && forall i :: 0 <= i < |ops| ==> Sensible(p.pages.Keys, ops[i])
    ensures RunOn(count, p, ops[..n + 1]) == Effect(count, RunOn(count, p, ops[..n]), ops[n])
  {
    assert ops[..n + 1][..n] == ops[..n];
  }

  // ---- Pins ----

  /** A frame that holds a pinned page. */
  predicate Pinning(f: Frame) {
    !f.Free() && f.pins > 0
  }

  /** How often each page is pinned. */
  ghost function PinMap(fs: seq<Frame>): map<Key, int> {
    if fs == [] then map[]
    else
      var f, m := fs[|fs| - 1], PinMap(fs[..|fs| - 1]);
      if Pinning(f) then m[f.Id() := f.pins] else m
  }

  ghost predicate OnceEach(fs: seq<Frame>) {
    forall i, j :: 0 <= i < j < |fs| && !fs[i].Free() && !fs[j].Free() ==> fs[i].Id() != fs[j].Id()
  }

  /** A frame holds the page, pinned so often. */
  ghost predicate PinnedBy(fs: seq<Frame>, key: Key, pins: int) {
    pins > 0 && exists i :: 0 <= i < |fs| && fs[i].Holds(key) && fs[i].pins == pins
  }

  lemma PinnedMore(init: seq<Frame>, f: Frame, key: Key, pins: int)
    ensures PinnedBy(init + [f], key, pins) <==>
      PinnedBy(init, key, pins) || (pins > 0 && f.Holds(key) && f.pins == pins)
  {
    var fs := init + [f];
    assert fs[|init|] == f;
    if PinnedBy(init, key, pins) {
      var i :| 0 <= i < |init| && init[i].Holds(key) && init[i].pins == pins;
      assert fs[i] == init[i];
    }
    if PinnedBy(fs, key, pins) {
      var i :| 0 <= i < |fs| && fs[i].Holds(key) && fs[i].pins == pins;
      assert i < |init| ==> init[i] == fs[i];
    }
  }

  lemma NotTwice(init: seq<Frame>, f: Frame, key: Key, pins: int)
    requires OnceEach(init + [f]) && f.Holds(key)
    ensures !PinnedBy(init, key, pins)
  {
    var fs := init + [f];
    forall i | 0 <= i < |init| ensures !init[i].Holds(key) {
      assert fs[i] == init[i] && fs[|init|] == f;
    }
  }

  lemma OnceInit(init: seq<Frame>, f: Frame)
    requires OnceEach(init + [f])
    ensures OnceEach(init)
  {
    assert forall i :: 0 <= i < |init| ==> (init + [f])[i] == init[i];
  }

  /** The map holds just the pinned pages, with their pins. */
  lemma {:induction false} PinMapAt(fs: seq<Frame>, key: Key, pins: int)
    requires OnceEach(fs)
    ensures key in PinMap(fs) && PinMap(fs)[key] == pins <==> PinnedBy(fs, key, pins)
  {
    if fs != [] {
      hide OnceEach, PinnedBy;
      var init, f := fs[..|fs| - 1], fs[|fs| - 1];
      assert fs == init + [f];
      OnceInit(init, f);
      PinMapAt(init, key, pins);
      PinnedMore(init, f, key, pins);
      if f.Holds(key) {
        NotTwice(init, f, key, pins);
        if key in PinMap(init) {
          PinMapAt(init, key, PinMap(init)[key]);
          NotTwice(init, f, key, PinMap(init)[key]);
        }
      }
    }
  }

  /** There are no more pinned pages than frames, and as many exactly when all frames are pinned. */
  lemma {:induction false} PinMapSize(fs: seq<Frame>)
    requires OnceEach(fs)
    ensures |PinMap(fs)| <= |fs| && (|PinMap(fs)| == |fs| <==> AllInUse(fs))
  {
    if fs != [] {
      hide OnceEach, PinnedBy, AllInUse;
      var init, f := fs[..|fs| - 1], fs[|fs| - 1];
      assert fs == init + [f];
      OnceInit(init, f);
      PinMapSize(init);
      InUseMore(init, f);
      if Pinning(f) {
        if f.Id() in PinMap(init) {
          PinMapAt(init, f.Id(), PinMap(init)[f.Id()]);
          NotTwice(init, f, f.Id(), PinMap(init)[f.Id()]);
        }
        assert PinMap(fs).Keys == PinMap(init).Keys + {f.Id()};
        assert |PinMap(fs).Keys| == |PinMap(init).Keys| + 1;
      }
    }
  }

  lemma InUseMore(init: seq<Frame>, f: Frame)
    ensures AllInUse(init + [f]) <==> AllInUse(init) && Pinning(f)
  {
    assert forall i :: 0 <= i < |init| ==> (init + [f])[i] == init[i];
    assert (init + [f])[|init|] == f;
  }

  /** A page is pinned when its frame is. */
  lemma PinnedIs(fs: seq<Frame>, key: Key, i: nat)
    requires OnceEach(fs) && i < |fs| && fs[i].Holds(key)
    ensures key in PinMap(fs) <==> fs[i].pins > 0
    ensures key in PinMap(fs) ==> PinMap(fs)[key] == fs[i].pins
  {
    hide PinMap;
    PinMapAt(fs, key, fs[i].pins);
    if key in PinMap(fs) {
      PinMapAt(fs, key, PinMap(fs)[key]);
      var k :| 0 <= k < |fs| && fs[k].Holds(key) && fs[k].pins == PinMap(fs)[key];
      assert k == i;
    }
  }

  lemma NotHeld(fs: seq<Frame>, key: Key)
    requires OnceEach(fs) && forall i :: 0 <= i < |fs| && fs[i].Holds(key) ==> fs[i].pins <= 0
    ensures key !in PinMap(fs)
  {
    hide PinMap, OnceEach;
    if key in PinMap(fs) {
      PinMapAt(fs, key, PinMap(fs)[key]);
    }
  }

  /** A change of one frame leaves the pins of other pages as they are. */
  lemma OthersPinned(fs: seq<Frame>, gs: seq<Frame>, i: nat, other: Key)
    requires OnceEach(fs) && OnceEach(gs) && i < |fs| == |gs| && gs == fs[i := gs[i]]
    requires !fs[i].Holds(other) || fs[i].pins <= 0
    requires !gs[i].Holds(other) || gs[i].pins <= 0
    ensures other in PinMap(gs) <==> other in PinMap(fs)
    ensures other in PinMap(gs) ==> PinMap(gs)[other] == PinMap(fs)[other]
  {
    hide PinMap, OnceEach, PinnedBy;
    if other in PinMap(fs) {
      PinMapAt(fs, other, PinMap(fs)[other]);
      PinMapAt(gs, other, PinMap(fs)[other]);
      StaysPinned(fs, gs, i, other, PinMap(fs)[other]);
    }
    if other in PinMap(gs) {
      PinMapAt(fs, other, PinMap(gs)[other]);
      PinMapAt(gs, other, PinMap(gs)[other]);
      StaysPinned(gs, fs, i, other, PinMap(gs)[other]);
    }
  }

  lemma StaysPinned(fs: seq<Frame>, gs: seq<Frame>, i: nat, other: Key, pins: int)
    requires i < |fs| == |gs| && (forall k :: 0 <= k < |fs| && k != i ==> gs[k] == fs[k])
    requires PinnedBy(fs, other, pins) && (!fs[i].Holds(other) || fs[i].pins <= 0)
    ensures PinnedBy(gs, other, pins)
  {
    var k :| 0 <= k < |fs| && fs[k].Holds(other) && fs[k].pins == pins;
    assert gs[k] == fs[k];
  }

  lemma {:induction false} SamePins(fs: seq<Frame>, gs: seq<Frame>)
    requires |gs| == |fs|
    requires forall i :: 0 <= i < |fs| ==>
      gs[i].table == fs[i].table && gs[i].page == fs[i].page && gs[i].pins == fs[i].pins
    ensures PinMap(gs) == PinMap(fs)
  {
    if fs != [] {
      SamePins(fs[..|fs| - 1], gs[..|gs| - 1]);
    }
  }

  /** How many pins of a page a run gives back at most. */
  function Unpins(ops: seq<Op>, key: Key): nat {
    if ops == [] then 0 else Unpins(ops[..|ops| - 1], key) + GivesBack(ops[|ops| - 1], key)
  }

  function GivesBack(op: Op, key: Key): nat {
    if op.Unpin? && Key(op.table, op.page) == key then 1 else 0
  }

  /** Frames with more pins than are given back keep their page. */
  ghost predicate Kept(fs: seq<Frame>, gs: seq<Frame>, ops: seq<Op>) {
    && |gs| == |fs|
    && forall k :: 0 <= k < |fs| && !fs[k].Free() && fs[k].pins > Unpins(ops, fs[k].Id()) ==>
         !gs[k].Free() && gs[k].Id() == fs[k].Id() && gs[k].pins >= fs[k].pins - Unpins(ops, fs[k].Id())
  }

  /** What one operation does to pinned frames. */
  ghost predicate KeptOnce(fs: seq<Frame>, gs: seq<Frame>, op: Op) {
    && |gs| == |fs|
    && forall k :: 0 <= k < |fs| && !fs[k].Free() && fs[k].pins > 0 ==>
         !gs[k].Free() && gs[k].Id() == fs[k].Id() && gs[k].pins >= fs[k].pins - GivesBack(op, fs[k].Id())
  }

  lemma KeptOne(fs: seq<Frame>, gs: seq<Frame>, hs: seq<Frame>, ops: seq<Op>, n: nat)
    requires n < |ops| && Kept(fs, gs, ops[..n]) && KeptOnce(gs, hs, ops[n])
    ensures Kept(fs, hs, ops[..n + 1])
  {
    assert ops[..n + 1][..n] == ops[..n];
    forall k | 0 <= k < |fs| && !fs[k].Free() && fs[k].pins > Unpins(ops[..n + 1], fs[k].Id())
      ensures !hs[k].Free() && hs[k].Id() == fs[k].Id() && hs[k].pins >= fs[k].pins - Unpins(ops[..n + 1], fs[k].Id())
    {
      assert Unpins(ops[..n + 1], fs[k].Id()) == Unpins(ops[..n], fs[k].Id()) + GivesBack(ops[n], fs[k].Id());
    }
  }

  class Manager {
    const frames: array<Frame>
    var counter: nat
    var disk: map<Key, Data>
    /** Pages written through a fetched pointer and not yet marked dirty. */
    ghost var touched: set<Key>

    constructor (count: nat, disk: map<Key, Data>)
      ensures Valid() && this.disk == disk && View() == disk && touched == {} && fresh(frames) && frames.Length == count
    {
      frames := new Frame[count](_ => Frame(INVALID_TABLE_ID, INVALID_PAGE_ID, 0, false, 0, []));
      counter := 0;
      this.disk := disk;
      touched := {};
      new;
      AllFree(frames[..], disk);
    }

    /** With nothing cached the files are what is seen. */
    lemma AllFree(fs: seq<Frame>, disk: map<Key, Data>)
      requires forall k :: 0 <= k < |fs| ==> fs[k].Free() && fs[k].pins == 0 && !fs[k].dirty
      ensures Consistent(fs, 0, disk, {}) && Pages(fs, disk) == disk
    {
      forall key | key in disk ensures Pages(fs, disk)[key] == disk[key] {
        SeenNotCached(fs, disk, key);
      }
    }

    ghost predicate Valid()
      reads this, frames
    {
      Consistent(frames[..], counter, disk, touched)
    }

    /** The pages as a plain map. */
    ghost function View(): map<Key, Data>
      reads this, frames
    {
      Pages(frames[..], disk)
    }

    method FindFrame(table: nat, page: nat) returns (i: int)
      requires table != INVALID_TABLE_ID
      ensures -1 <= i < frames.Length
      ensures i >= 0 ==> frames[i].Holds(Key(table, page))
      ensures i < 0 ==> forall k :: 0 <= k < frames.Length ==> !frames[k].Holds(Key(table, page))
    {
      for k := 0 to frames.Length
        invariant forall l :: 0 <= l < k ==> !frames[l].Holds(Key(table, page))
      {
        if frames[k].table == table && frames[k].page == page {
          return k;
        }
      }
      return -1;
    }

    /** Writes a dirty frame back. */
    method FlushFrame(i: nat)
      requires Valid() && i < frames.Length
      modifies this`disk, frames
      ensures Valid() && View() == old(View())
      ensures frames[..] == old(frames[..])[i := old(frames[i]).(dirty := false)]
      ensures disk.Keys == old(disk).Keys
      ensures disk
        == if old(frames[i]).Free() || !old(frames[i]).dirty then old(disk)
        else old(disk)[old(frames[i]).Id() := old(frames[i]).data]
    {
      hide Pages;
      ghost var fs, d := frames[..], disk;
      var f := frames[i];
      if f.Free() || !f.dirty {
        assert frames[..] == fs[i := f.(dirty := false)];
        return;
      }
      disk := disk[f.Id() := f.data];
      frames[i] := f.(dirty := false);
      assert frames[..] == fs[i := f.(dirty := false)];
      Flushed(fs, counter, d, touched, i);
    }

    lemma Flushed(fs: seq<Frame>, counter: nat, disk: map<Key, Data>, touched: set<Key>, i: nat)
      requires Consistent(fs, counter, disk, touched) && i < |fs| && !fs[i].Free()
      ensures var gs := fs[i := fs[i].(dirty := false)]; var d := disk[fs[i].Id() := fs[i].data];
        Consistent(gs, counter, d, touched) && Pages(gs, d) == Pages(fs, disk)
    {
      hide Consistent, Pages;
      var gs := fs[i := fs[i].(dirty := false)];
      var d := disk[fs[i].Id() := fs[i].data];
      InDisk(fs, counter, disk, touched, i);
      FlushedConsistent(fs, counter, disk, touched, i);
      forall key | key in disk ensures Pages(gs, d)[key] == Pages(fs, disk)[key] {
        if key == fs[i].Id() {
          SeenCached(fs, counter, disk, touched, i);
          SeenCached(gs, counter, d, touched, i);
        } else {
          OneFrame(fs, counter, disk, touched, i, gs[i], counter, d, touched, key);
        }
      }
    }

    lemma InDisk(fs: seq<Frame>, counter: nat, disk: map<Key, Data>, touched: set<Key>, i: nat)
      requires Consistent(fs, counter, disk, touched) && i < |fs| && !fs[i].Free()
      ensures fs[i].Id() in disk
    {
    }

    lemma FlushedConsistent(fs: seq<Frame>, counter: nat, disk: map<Key, Data>, touched: set<Key>, i: nat)
      requires Consistent(fs, counter, disk, touched) && i < |fs| && !fs[i].Free()
      ensures Consistent(fs[i := fs[i].(dirty := false)], counter, disk[fs[i].Id() := fs[i].data], touched)
    {
      StillPinned(fs, counter, disk, fs[i := fs[i].(dirty := false)], touched, i);
    }

    /** Finds a frame and empties it, writing it back if it is dirty; -1 if all are pinned. */
    method EvictAndUse() returns (i: int)
      requires Valid()
      modifies this`disk, frames
      ensures Valid() && View() == old(View()) && disk.Keys == old(disk).Keys
      ensures -1 <= i < frames.Length
      ensures i < 0 <==> AllInUse(old(frames[..]))
      ensures i < 0 ==> frames[..] == old(frames[..]) && disk == old(disk)
      ensures i >= 0 ==> Victim(old(frames[..]), i) && frames[i].Free()
      ensures i >= 0 ==> frames[..] == old(frames[..])[i := frames[i]]
    {
      hide Pages;
      ghost var fs, d := frames[..], disk;
      for k := 0 to frames.Length
        invariant forall l :: 0 <= l < k ==> !fs[l].Free()
        invariant frames[..] == fs && disk == d && Valid() && View() == old(View())
      {
        if frames[k].Free() {
          assert fs[k] == frames[k];
          assert fs == fs[k := fs[k]];
          return k;
        }
      }
      i := -1;
      var minUsed := MAX_USED;
      for k := 0 to frames.Length
        invariant frames[..] == fs && disk == d && Valid() && View() == old(View())
        invariant -1 <= i < k
        invariant i < 0 ==> minUsed == MAX_USED && forall l :: 0 <= l < k ==> fs[l].pins > 0
        invariant i >= 0 ==> fs[i].pins == 0 && fs[i].lastUsed == minUsed < MAX_USED
        invariant forall l :: 0 <= l < k && fs[l].pins == 0 ==> minUsed <= fs[l].lastUsed
      {
        assert frames[k] == fs[k] && !fs[k].Free();
        if frames[k].pins == 0 && frames[k].lastUsed < minUsed {
          minUsed := frames[k].lastUsed;
          i := k;
        }
      }
      if i < 0 {
        assert forall k :: 0 <= k < |fs| ==> !fs[k].Free() && fs[k].pins > 0;
        return -1;
      }
      if frames[i].dirty {
        FlushFrame(i);
      }
      ghost var gs := frames[..];
      frames[i] := frames[i].(table := INVALID_TABLE_ID, page := INVALID_PAGE_ID, pins := 0, dirty := false);
      assert frames[..] == gs[i := frames[i]] == fs[i := frames[i]];
      Emptied(gs, counter, disk, touched, i, frames[i]);
    }

    /** Emptying a frame that is unpinned and on disk loses nothing. */
    lemma Emptied(fs: seq<Frame>, counter: nat, disk: map<Key, Data>, touched: set<Key>, i: nat, f: Frame)
      requires Consistent(fs, counter, disk, touched) && i < |fs| && !fs[i].Free() && fs[i].pins == 0 && !fs[i].dirty
      requires f.Free() && f.pins == 0 && !f.dirty
      ensures Consistent(fs[i := f], counter, disk, touched) && Pages(fs[i := f], disk) == Pages(fs, disk)
    {
      hide Consistent, Pages;
      var gs := fs[i := f];
      var mine := fs[i].Id();
      StillPinned(fs, counter, disk, gs, touched, i);
      EmptiedConsistent(fs, counter, disk, touched, i, f, gs);
      forall key | key in disk ensures Pages(gs, disk)[key] == Pages(fs, disk)[key] {
        if key == mine {
          SeenCached(fs, counter, disk, touched, i);
          forall k | 0 <= k < |gs| ensures !gs[k].Holds(key) {
            if !fs[k].Free() {
              OnceCached(fs, counter, disk, touched, i, k);
            }
          }
          SeenNotCached(gs, disk, key);
        } else {
          OneFrame(fs, counter, disk, touched, i, f, counter, disk, touched, key);
        }
      }
    }

    lemma EmptiedConsistent(fs: seq<Frame>, counter: nat, disk: map<Key, Data>, touched: set<Key>, i: nat, f: Frame,
            gs: seq<Frame>)
      requires Consistent(fs, counter, disk, touched) && i < |fs| && f.Free() && f.pins == 0 && !f.dirty
      requires gs == fs[i := f]
      requires !fs[i].Free() && !fs[i].dirty && fs[i].pins == 0
      requires forall key :: key in touched ==> exists k :: 0 <= k < |gs| && gs[k].Holds(key) && gs[k].pins > 0
      ensures Consistent(gs, counter, disk, touched) && fs[i].data == disk[fs[i].Id()]
    {
      NotTouched(fs, counter, disk, touched, i);
    }

    /** Pins a page in a frame and shows its bytes there. */
    method Fetch(table: nat, page: nat) returns (r: Fetched)
      requires Valid() && table != INVALID_TABLE_ID && counter + 1 < MAX_USED
      requires page >= 2 ==> Key(table, page) in disk
      modifies this`disk, this`counter, frames
      ensures Valid() && View() == old(View()) && disk.Keys == old(disk).Keys
      ensures r == BadPage <==> page < 2
      ensures r == AllPinned <==>
        && page >= 2 && AllInUse(old(frames[..]))
        && forall k :: 0 <= k < frames.Length ==> !old(frames[k]).Holds(Key(table, page))
      ensures !r.Got? ==> frames[..] == old(frames[..]) && disk == old(disk)
      ensures counter == old(counter) + if page < 2 then 0 else 1
      ensures r.Got? ==> r.frame < frames.Length && frames[..] == old(frames[..])[r.frame := frames[r.frame]]
      ensures r.Got? ==>
        var f := frames[r.frame];
        f.Holds(Key(table, page)) && f.data == View()[Key(table, page)] && f.lastUsed == counter && f.pins > 0
      ensures r.Got? && old(frames[r.frame]).Holds(Key(table, page)) ==>
        frames[r.frame].data == old(frames[r.frame]).data
      ensures r.Got? ==>
        if old(frames[r.frame]).Holds(Key(table, page)) then frames[r.frame].pins == old(frames[r.frame]).pins + 1
                         else frames[r.frame].pins == 1 && Victim(old(frames[..]), r.frame)
    {
      hide Pages, Victim, Consistent;
      if page < 2 {
        return BadPage;
      }
      counter := counter + 1;
      ghost var key := Key(table, page);
      ghost var fs := frames[..];
      CounterUp(fs, old(counter), disk, touched);
      var i := FindFrame(table, page);
      if i >= 0 {
        assert fs[i].Holds(key);
        frames[i] := frames[i].(pins := frames[i].pins + 1, lastUsed := counter);
        assert frames[..] == fs[i := frames[i]];
        Hit(fs, old(counter), disk, touched, i);
        SeenCached(frames[..], counter, disk, touched, i);
        return Got(i);
      }
      assert forall k :: 0 <= k < |fs| ==> !fs[k].Holds(key);
      r := LoadPage(table, page);
    }

    /** Reads a page that is not cached into a free frame or the next victim. */
    method LoadPage(table: nat, page: nat) returns (r: Fetched)
      requires Valid() && table != INVALID_TABLE_ID && page >= 2 && Key(table, page) in disk
      requires forall k :: 0 <= k < frames.Length ==> !frames[k].Holds(Key(table, page))
      requires forall k :: 0 <= k < frames.Length && !frames[k].Free() ==> frames[k].lastUsed < counter < MAX_USED
      requires counter < MAX_USED
      modifies this`disk, frames
      ensures Valid() && View() == old(View()) && disk.Keys == old(disk).Keys
      ensures r != BadPage && (r == AllPinned <==> AllInUse(old(frames[..])))
      ensures r == AllPinned ==> frames[..] == old(frames[..]) && disk == old(disk)
      ensures r.Got? ==>
        && r.frame < frames.Length && frames[..] == old(frames[..])[r.frame := frames[r.frame]]
        && Victim(old(frames[..]), r.frame)
      ensures r.Got? ==>
        var f := frames[r.frame];
        f.Holds(Key(table, page)) && f.data == View()[Key(table, page)] && f.lastUsed == counter && f.pins == 1
    {
      hide Pages, Consistent, Victim;
      ghost var fs := frames[..];
      var i := EvictAndUse();
      if i < 0 {
        return AllPinned;
      }
      ghost var gs := frames[..];
      forall k | 0 <= k < |gs| ensures !gs[k].Holds(Key(table, page)) && (!gs[k].Free() ==> gs[k].lastUsed < counter) {
        assert k != i ==> gs[k] == fs[k] && fs[k] == old(frames[k]);
      }
      frames[i] := Frame(table, page, 1, false, counter, disk[Key(table, page)]);
      assert frames[..] == gs[i := frames[i]];
      Loaded(gs, counter, disk, touched, i, frames[i]);
      SeenCached(frames[..], counter, disk, touched, i);
      return Got(i);
    }

    lemma CounterUp(fs: seq<Frame>, counter: nat, disk: map<Key, Data>, touched: set<Key>)
      requires Consistent(fs, counter, disk, touched) && counter + 1 < MAX_USED
      ensures Consistent(fs, counter + 1, disk, touched)
      ensures forall k :: 0 <= k < |fs| && !fs[k].Free() ==> fs[k].lastUsed < counter + 1
    {
    }

    lemma Hit(fs: seq<Frame>, counter: nat, disk: map<Key, Data>, touched: set<Key>, i: nat)
      requires Consistent(fs, counter, disk, touched) && counter + 1 < MAX_USED && i < |fs| && !fs[i].Free()
      ensures var gs := fs[i := fs[i].(pins := fs[i].pins + 1, lastUsed := counter + 1)];
        Consistent(gs, counter + 1, disk, touched) && Pages(gs, disk) == Pages(fs, disk)
    {
      hide Pages;
      var gs := fs[i := fs[i].(pins := fs[i].pins + 1, lastUsed := counter + 1)];
      HitConsistent(fs, counter, disk, touched, i, gs);
      SamePages(fs, counter, disk, touched, i, gs[i], counter + 1, touched);
    }

    lemma HitConsistent(fs: seq<Frame>, counter: nat, disk: map<Key, Data>, touched: set<Key>, i: nat, gs: seq<Frame>)
      requires Consistent(fs, counter, disk, touched) && counter + 1 < MAX_USED && i < |fs| && !fs[i].Free()
      requires gs == fs[i := fs[i].(pins := fs[i].pins + 1, lastUsed := counter + 1)]
      ensures Consistent(gs, counter + 1, disk, touched)
    {
      StillPinned(fs, counter, disk, gs, touched, i);
      forall a, b | 0 <= a < b < |gs| && !gs[a].Free() && !gs[b].Free()
        ensures gs[a].Id() != gs[b].Id() && gs[a].lastUsed != gs[b].lastUsed
      {
        assert fs[a].Id() == gs[a].Id() && fs[b].Id() == gs[b].Id();
      }
    }

    /** Changes to a frame other than to its page and bytes do not show. */
    lemma SamePages(fs: seq<Frame>, counter: nat, disk: map<Key, Data>, touched: set<Key>, i: nat, f: Frame,
            counter2: nat, touched2: set<Key>)
      requires Consistent(fs, counter, disk, touched) && i < |fs| && !fs[i].Free()
      requires f.table == fs[i].table && f.page == fs[i].page && f.data == fs[i].data
      requires Consistent(fs[i := f], counter2, disk, touched2)
      ensures Pages(fs[i := f], disk) == Pages(fs, disk)
    {
      hide Consistent, Pages;
      var gs := fs[i := f];
      forall key | key in disk ensures Pages(gs, disk)[key] == Pages(fs, disk)[key] {
        if key == fs[i].Id() {
          SeenCached(fs, counter, disk, touched, i);
          SeenCached(gs, counter2, disk, touched2, i);
        } else {
          OneFrame(fs, counter, disk, touched, i, f, counter2, disk, touched2, key);
        }
      }
    }

    /** Reading a page into a free frame. */
    lemma Loaded(fs: seq<Frame>, counter: nat, disk: map<Key, Data>, touched: set<Key>, i: nat, f: Frame)
      requires Consistent(fs, counter, disk, touched) && i < |fs| && fs[i].Free() && counter < MAX_USED
      requires !f.Free() && f.page >= 2 && f.pins == 1 && !f.dirty && f.lastUsed == counter
      requires f.Id() in disk && f.data == disk[f.Id()] && forall k :: 0 <= k < |fs| ==> !fs[k].Holds(f.Id())
      requires forall k :: 0 <= k < |fs| && !fs[k].Free() ==> fs[k].lastUsed < counter
      ensures Consistent(fs[i := f], counter, disk, touched) && Pages(fs[i := f], disk) == Pages(fs, disk)
    {
      hide Consistent, Pages;
      var gs := fs[i := f];
      LoadedConsistent(fs, counter, disk, touched, i, f);
      forall key | key in disk ensures Pages(gs, disk)[key] == Pages(fs, disk)[key] {
        if key == f.Id() {
          SeenNotCached(fs, disk, key);
          SeenCached(gs, counter, disk, touched, i);
        } else {
          OneFrame(fs, counter, disk, touched, i, f, counter, disk, touched, key);
        }
      }
    }

    lemma LoadedConsistent(fs: seq<Frame>, counter: nat, disk: map<Key, Data>, touched: set<Key>, i: nat, f: Frame)
      requires Consistent(fs, counter, disk, touched) && i < |fs| && fs[i].Free() && counter < MAX_USED
      requires !f.Free() && f.page >= 2 && f.pins == 1 && !f.dirty && f.lastUsed == counter
      requires f.Id() in disk && f.data == disk[f.Id()] && forall k :: 0 <= k < |fs| ==> !fs[k].Holds(f.Id())
      requires forall k :: 0 <= k < |fs| && !fs[k].Free() ==> fs[k].lastUsed < counter
      ensures Consistent(fs[i := f], counter, disk, touched)
    {
      var gs := fs[i := f];
      StillPinned(fs, counter, disk, gs, touched, i);
      forall a, b | 0 <= a < b < |gs| && !gs[a].Free() && !gs[b].Free()
        ensures gs[a].Id() != gs[b].Id() && gs[a].lastUsed != gs[b].lastUsed
      {
        if a == i {
          assert !fs[b].Holds(f.Id());
        } else if b == i {
          assert !fs[a].Holds(f.Id());
        }
      }
    }

    ghost predicate Unpinned(fs: seq<Frame>, gs: seq<Frame>, key: Key) {
      exists k :: 0 <= k < |fs| && fs[k].Holds(key) && gs == fs[k := fs[k].(pins := fs[k].pins - 1)]
    }

    ghost predicate MadeDirty(fs: seq<Frame>, gs: seq<Frame>, key: Key) {
      exists k :: 0 <= k < |fs| && fs[k].Holds(key) && gs == fs[k := fs[k].(dirty := true)]
    }

    /** Gives a pin back.  A page that has been written must have been marked dirty before its last pin
        is given back. */
    method Unpin(table: nat, page: nat) returns (thrown: bool)
      requires Valid() && table != INVALID_TABLE_ID
      requires Key(table, page) in touched ==>
        forall k :: 0 <= k < frames.Length && frames[k].Holds(Key(table, page)) ==> frames[k].pins > 1
      modifies frames
      ensures Valid() && View() == old(View())
      ensures thrown <==>
        forall k :: 0 <= k < frames.Length && old(frames[k]).Holds(Key(table, page)) ==> old(frames[k]).pins == 0
      ensures thrown ==> frames[..] == old(frames[..])
      ensures !thrown ==> Unpinned(old(frames[..]), frames[..], Key(table, page))
    {
      hide Pages, Consistent;
      ghost var fs := frames[..];
      var i := FindFrame(table, page);
      if i < 0 {
        return true;
      }
      assert fs[i].Holds(Key(table, page));
      OnlyFrame(fs, counter, disk, touched, i);
      if frames[i].pins <= 0 {
        return true;
      }
      frames[i] := frames[i].(pins := frames[i].pins - 1);
      ghost var gs := frames[..];
      assert gs == fs[i := fs[i].(pins := fs[i].pins - 1)];
      PinsOnly(fs, counter, disk, touched, i, gs);
      return false;
    }

    lemma OnlyFrame(fs: seq<Frame>, counter: nat, disk: map<Key, Data>, touched: set<Key>, i: nat)
      requires Consistent(fs, counter, disk, touched) && i < |fs| && !fs[i].Free()
      ensures forall k :: 0 <= k < |fs| && fs[k].Holds(fs[i].Id()) ==> k == i
      ensures fs[i].pins >= 0
    {
      forall k | 0 <= k < |fs| && fs[k].Holds(fs[i].Id()) ensures k == i {
        OnceCached(fs, counter, disk, touched, i, k);
      }
    }

    lemma PinsOnly(fs: seq<Frame>, counter: nat, disk: map<Key, Data>, touched: set<Key>, i: nat, gs: seq<Frame>)
      requires Consistent(fs, counter, disk, touched) && i < |fs| && !fs[i].Free() && fs[i].pins > 0
      requires gs == fs[i := fs[i].(pins := fs[i].pins - 1)] && (fs[i].Id() in touched ==> fs[i].pins > 1)
      ensures Consistent(gs, counter, disk, touched) && Pages(gs, disk) == Pages(fs, disk)
    {
      hide Pages;
      forall key | key in touched ensures exists k :: 0 <= k < |gs| && gs[k].Holds(key) && gs[k].pins > 0 {
        var k :| 0 <= k < |fs| && fs[k].Holds(key) && fs[k].pins > 0;
        assert fs[k].Holds(key) && gs[k].Holds(key) && gs[k].pins > 0;
      }
      assert Consistent(gs, counter, disk, touched);
      SamePages(fs, counter, disk, touched, i, gs[i], counter, touched);
    }

    /** Writing through the pointer of a fetched page. */
    method Write(i: nat, data: Data)
      requires Valid() && i < frames.Length && !frames[i].Free() && frames[i].pins > 0
      modifies this`touched, frames
      ensures Valid() && View() == old(View())[frames[i].Id() := data]
      ensures frames[..] == old(frames[..])[i := old(frames[i]).(data := data)]
      ensures touched == if frames[i].dirty then old(touched) else old(touched) + {frames[i].Id()}
    {
      hide Pages;
      ghost var fs := frames[..];
      frames[i] := frames[i].(data := data);
      if !frames[i].dirty {
        touched := touched + {frames[i].Id()};
      }
      assert frames[..] == fs[i := fs[i].(data := data)];
      Written(fs, counter, disk, old(touched), i, data, frames[..], touched);
    }

    lemma Written(fs: seq<Frame>, counter: nat, disk: map<Key, Data>, was: set<Key>, i: nat, data: Data,
            gs: seq<Frame>, touched: set<Key>)
      requires Consistent(fs, counter, disk, was) && i < |fs| && !fs[i].Free() && fs[i].pins > 0
      requires gs == fs[i := fs[i].(data := data)] && touched == if fs[i].dirty then was else was + {fs[i].Id()}
      ensures Consistent(gs, counter, disk, touched)
      ensures Pages(gs, disk) == Pages(fs, disk)[fs[i].Id() := data]
    {
      hide Pages, Consistent;
      InDisk(fs, counter, disk, was, i);
      WrittenConsistent(fs, counter, disk, was, i, data, gs, touched);
      forall key | key in disk
        ensures Pages(gs, disk)[key] == if key == fs[i].Id() then data else Pages(fs, disk)[key]
      {
        if key == fs[i].Id() {
          SeenCached(gs, counter, disk, touched, i);
        } else {
          OneFrame(fs, counter, disk, was, i, gs[i], counter, disk, touched, key);
        }
      }
    }

    lemma WrittenConsistent(fs: seq<Frame>, counter: nat, disk: map<Key, Data>, was: set<Key>, i: nat, data: Data,
            gs: seq<Frame>, touched: set<Key>)
      requires Consistent(fs, counter, disk, was) && i < |fs| && !fs[i].Free() && fs[i].pins > 0
      requires gs == fs[i := fs[i].(data := data)] && touched == if fs[i].dirty then was else was + {fs[i].Id()}
      ensures Consistent(gs, counter, disk, touched)
    {
      StillPinned(fs, counter, disk, gs, was, i);
      assert gs[i].Holds(fs[i].Id()) && gs[i].pins > 0;
    }

    /** Marks a cached page to be written back. */
    method MarkDirty(table: nat, page: nat) returns (thrown: bool)
      requires Valid() && table != INVALID_TABLE_ID
      modifies this`touched, frames
      ensures Valid() && View() == old(View())
      ensures thrown <==> forall k :: 0 <= k < frames.Length ==> !old(frames[k]).Holds(Key(table, page))
      ensures thrown ==> frames[..] == old(frames[..])
      ensures !thrown ==> MadeDirty(old(frames[..]), frames[..], Key(table, page))
      ensures touched == old(touched) - {Key(table, page)}
    {
      hide Pages;
      ghost var fs := frames[..];
      var i := FindFrame(table, page);
      if i < 0 {
        assert forall k :: 0 <= k < |fs| ==> !fs[k].Holds(Key(table, page));
        return true;
      }
      assert fs[i].Holds(Key(table, page));
      frames[i] := frames[i].(dirty := true);
      touched := touched - {Key(table, page)};
      assert frames[..] == fs[i := fs[i].(dirty := true)];
      Marked(fs, counter, disk, old(touched), i, frames[..], touched);
      return false;
    }

    lemma Marked(fs: seq<Frame>, counter: nat, disk: map<Key, Data>, was: set<Key>, i: nat, gs: seq<Frame>,
            touched: set<Key>)
      requires Consistent(fs, counter, disk, was) && i < |fs| && !fs[i].Free()
      requires gs == fs[i := fs[i].(dirty := true)] && touched == was - {fs[i].Id()}
      ensures Consistent(gs, counter, disk, touched) && Pages(gs, disk) == Pages(fs, disk)
    {
      hide Pages;
      forall key | key in touched ensures exists k :: 0 <= k < |gs| && gs[k].Holds(key) && gs[k].pins > 0 {
        var k :| 0 <= k < |fs| && fs[k].Holds(key) && fs[k].pins > 0;
        assert gs[k].Holds(key) && gs[k].pins > 0;
      }
      assert Consistent(gs, counter, disk, touched);
      SamePages(fs, counter, disk, was, i, gs[i], counter, touched);
    }

    /** Writes all dirty frames back: afterwards the files hold what is seen. */
    method FlushAll()
      requires Valid()
      modifies this`disk, frames
      ensures Valid() && View() == old(View())
      ensures touched == {} ==> disk == View()
      ensures forall k :: 0 <= k < frames.Length ==> frames[k] == old(frames[k]).(dirty := false)
    {
      hide Pages, Consistent;
      for k := 0 to frames.Length
        invariant Valid() && View() == old(View())
        invariant forall l :: 0 <= l < k ==> frames[l] == old(frames[l]).(dirty := false)
        invariant forall l :: k <= l < frames.Length ==> frames[l] == old(frames[l])
      {
        ghost var fs := frames[..];
        FlushFrame(k);
        assert forall l :: 0 <= l < frames.Length ==> frames[l] == frames[..][l] && (l != k ==> frames[l] == fs[l]);
      }
      if touched == {} {
        AllClean(frames[..], counter, disk);
      }
    }

    lemma AllClean(fs: seq<Frame>, counter: nat, disk: map<Key, Data>)
      requires Consistent(fs, counter, disk, {}) && forall k :: 0 <= k < |fs| ==> !fs[k].dirty
      ensures Pages(fs, disk) == disk
    {
      forall key | key in disk ensures Pages(fs, disk)[key] == disk[key] {
        if k :| 0 <= k < |fs| && fs[k].Holds(key) {
          assert fs[k].Holds(key);
          SeenCached(fs, counter, disk, {}, k);
        } else {
          SeenNotCached(fs, disk, key);
        }
      }
    }

    /** A page added to a file behind the cache's back is seen as it was added. */
    method Extend(table: nat, page: nat, data: Data)
      requires Valid() && Key(table, page) !in disk
      modifies this`disk
      ensures Valid() && View() == old(View())[Key(table, page) := data] && frames[..] == old(frames[..])
    {
      ghost var d := disk;
      disk := disk[Key(table, page) := data];
      Extended(frames[..], counter, d, touched, Key(table, page), data);
    }

    lemma Extended(fs: seq<Frame>, counter: nat, disk: map<Key, Data>, touched: set<Key>, key: Key, data: Data)
      requires Consistent(fs, counter, disk, touched) && key !in disk
      ensures Consistent(fs, counter, disk[key := data], touched)
      ensures Pages(fs, disk[key := data]) == Pages(fs, disk)[key := data]
    {
      ExtendedConsistent(fs, counter, disk, touched, key, data);
      hide Consistent, Seen, Pages;
      var d := disk[key := data];
      SeenNotCached(fs, d, key);
      forall other | other in disk ensures Pages(fs, d)[other] == Pages(fs, disk)[other] {
        if k :| 0 <= k < |fs| && fs[k].Holds(other) {
          assert fs[k].Holds(other);
          SeenCached(fs, counter, disk, touched, k);
          SeenCached(fs, counter, d, touched, k);
        } else {
          SeenNotCached(fs, disk, other);
          SeenNotCached(fs, d, other);
        }
      }
    }

    lemma ExtendedConsistent(fs: seq<Frame>, counter: nat, disk: map<Key, Data>, touched: set<Key>, key: Key,
            data: Data)
      requires Consistent(fs, counter, disk, touched) && key !in disk
      ensures Consistent(fs, counter, disk[key := data], touched)
      ensures forall k :: 0 <= k < |fs| ==> !fs[k].Holds(key)
    {
    }

    /** A page fetched and unpinned can still be read through its pointer after one more fetch, if two
        frames could be used at the start: what a leaf split relies on for the first key of its new
        leaf (src/storage/bplustree.cpp). */
    method ReadBehindFetch(table: nat, page: nat, other: nat) returns (kept: nat, r: Fetched)
      requires Valid() && table != INVALID_TABLE_ID && page >= 2 && other >= 2 && counter + 2 < MAX_USED
      requires Key(table, page) in disk && Key(table, other) in disk && Key(table, page) !in touched
      requires exists a, b :: 0 <= a < b < frames.Length && Spare(frames[a]) && Spare(frames[b])
      modifies this`disk, this`counter, frames
      ensures Valid() && View() == old(View())
      ensures kept < frames.Length && frames[kept].Holds(Key(table, page))
      ensures frames[kept].data == old(View())[Key(table, page)]
    {
      hide Pages, Consistent, Victim;
      ghost var a, b :| 0 <= a < b < frames.Length && Spare(frames[a]) && Spare(frames[b]);
      ghost var fs := frames[..];
      assert fs[a] == frames[a] && fs[b] == frames[b];
      var first := Fetch(table, page);
      kept := first.frame;
      ghost var spare := if kept == a then b else a;
      ghost var gs := frames[..];
      assert gs[spare] == fs[spare] && gs[kept] == frames[kept];
      var thrown := Unpin(table, page);
      ghost var hs := frames[..];
      StillThere(gs, counter, disk, touched, hs, kept, spare, Key(table, page), thrown);
      assert hs[kept] == frames[kept] && hs[spare] == frames[spare];
      ghost var d, c := disk, counter;
      r := Fetch(table, other);
      if r.Got? {
        assert frames[..][kept] == frames[kept];
        Stays(hs, c, d, touched, frames[..], kept, spare, r.frame, Key(table, other));
      } else {
        assert frames[..][kept] == frames[kept];
      }
      SeenCached(frames[..], counter, disk, touched, kept);
    }

    lemma StillThere(gs: seq<Frame>, counter: nat, disk: map<Key, Data>, touched: set<Key>, hs: seq<Frame>, kept: nat,
            spare: nat, key: Key, thrown: bool)
      requires Consistent(gs, counter, disk, touched) && kept < |gs| && gs[kept].Holds(key) && spare < |gs|
      requires spare != kept && Spare(gs[spare])
      requires thrown ==> hs == gs
      requires !thrown ==> Unpinned(gs, hs, key)
      ensures |hs| == |gs| && hs[kept].Holds(key) && hs[kept].lastUsed == gs[kept].lastUsed
      ensures hs[kept].data == gs[kept].data && hs[spare] == gs[spare]
    {
      if !thrown {
        var k :| 0 <= k < |gs| && gs[k].Holds(key) && hs == gs[k := gs[k].(pins := gs[k].pins - 1)];
        assert gs[k].Holds(key);
        OnceCached(gs, counter, disk, touched, kept, k);
      }
    }

    lemma Stays(hs: seq<Frame>, counter: nat, disk: map<Key, Data>, touched: set<Key>, after: seq<Frame>, kept: nat,
            spare: nat, used: nat, key: Key)
      requires Consistent(hs, counter, disk, touched) && kept < |hs| && !hs[kept].Free() && hs[kept].lastUsed == counter
      requires spare < |hs| && spare != kept && Spare(hs[spare])
      requires used < |hs| && |after| == |hs| && after == hs[used := after[used]]
      requires hs[used].Holds(key) || Victim(hs, used)
      requires after[used].Holds(key) && (hs[used].Holds(key) ==> after[used].data == hs[used].data)
      ensures after[kept].Id() == hs[kept].Id() && after[kept].data == hs[kept].data && !after[kept].Free()
    {
      if Victim(hs, used) {
        LatestSurvives(hs, counter, disk, touched, kept, spare, used);
      }
    }

    // All runs

    /** The pool without its frames. */
    ghost function AsPlain(): Plain
      reads this, frames
    {
      Plain(View(), PinMap(frames[..]))
    }

    /** One operation: its answer, what is seen and what is pinned are those of pages and pins alone. */
    method Step(op: Op) returns (answer: Answer)
      requires Valid() && touched == {} && counter + 1 < MAX_USED && Sensible(disk.Keys, op)
      modifies this`disk, this`counter, this`touched, frames
      ensures Valid() && touched == {} && counter <= old(counter) + 1 && disk.Keys == old(disk).Keys
      ensures answer == Reply(frames.Length, old(AsPlain()), op)
      ensures AsPlain() == Effect(frames.Length, old(AsPlain()), op)
      ensures op.Flush? ==> disk == View()
      ensures KeptOnce(old(frames[..]), frames[..], op)
    {
      hide Pages, Consistent, Victim, PinMap, Unpinned, MadeDirty, KeptOnce, OnceEach, AllInUse;
      ghost var fs := frames[..];
      OnlyOnce(fs, counter, disk, touched);
      match op {
        case Fetch(table, page) =>
          var r := Fetch(table, page);
          OnlyOnce(frames[..], counter, disk, touched);
          answer := Refused;
          if r.Got? {
            answer := Shown(frames[r.frame].data);
            KeptFetched(fs, frames[..], op, r.frame);
            PinFetched(fs, frames[..], op, r.frame);
          } else {
            PinRefused(fs, op, r);
            KeptSame(fs, op);
          }
        case Store(table, page, data) =>
          var i := FindFrame(table, page);
          answer := Refused;
          if i < 0 {
            NotHeld(fs, Key(table, page));
            KeptSame(fs, op);
          } else {
            PinnedIs(fs, Key(table, page), i);
            if frames[i].pins > 0 {
              Write(i, data);
              ghost var gs := frames[..];
              var thrown := MarkDirty(table, page);
              answer := Done;
              KeptMarked(fs, gs, frames[..], op, i, thrown);
              PinMarked(fs, gs, frames[..], op, i, thrown);
            } else {
              KeptSame(fs, op);
            }
          }
        case Unpin(table, page) =>
          var thrown := Unpin(table, page);
          answer := if thrown then Refused else Done;
          OnlyOnce(frames[..], counter, disk, touched);
          KeptUnpinned(fs, frames[..], op, thrown);
          PinUnpinned(fs, frames[..], op, thrown);
        case Flush =>
          FlushAll();
          answer := Done;
          assert forall k :: 0 <= k < frames.Length ==> frames[..][k] == fs[k].(dirty := false);
          SamePins(fs, frames[..]);
          KeptClean(fs, frames[..], op);
      }
    }

    lemma OnlyOnce(fs: seq<Frame>, counter: nat, disk: map<Key, Data>, touched: set<Key>)
      requires Consistent(fs, counter, disk, touched)
      ensures OnceEach(fs) && forall i :: 0 <= i < |fs| && !fs[i].Free() ==> fs[i].pins >= 0 && fs[i].Id() in disk
    {
    }

    /** What fetching does to the pins. */
    lemma PinFetched(fs: seq<Frame>, gs: seq<Frame>, op: Op, i: nat)
      requires op.Fetch? && OnceEach(fs) && OnceEach(gs) && |gs| == |fs| && i < |fs| && gs == fs[i := gs[i]]
      requires forall k :: 0 <= k < |fs| && !fs[k].Free() ==> fs[k].pins >= 0
      requires gs[i].Holds(Key(op.table, op.page)) && gs[i].pins > 0
      requires if fs[i].Holds(Key(op.table, op.page)) then gs[i].pins == fs[i].pins + 1
        else gs[i].pins == 1 && Victim(fs, i)
      ensures var key, m := Key(op.table, op.page), PinMap(fs);
        PinMap(gs) == m[key := (if key in m then m[key] else 0) + 1] && (|m| == |fs| ==> key in m)
    {
      hide PinMap, PinnedBy;
      var key, m := Key(op.table, op.page), PinMap(fs);
      PinMapSize(fs);
      PinnedIs(gs, key, i);
      if fs[i].Holds(key) {
        PinnedIs(fs, key, i);
      } else {
        forall k | 0 <= k < |fs| ensures !fs[k].Holds(key) {
          assert k != i ==> gs[k] == fs[k];
        }
        NotHeld(fs, key);
      }
      forall other | other != key
        ensures (other in PinMap(gs) <==> other in m) && (other in m ==> PinMap(gs)[other] == m[other])
      {
        OthersPinned(fs, gs, i, other);
      }
    }

    lemma PinRefused(fs: seq<Frame>, op: Op, r: Fetched)
      requires op.Fetch? && OnceEach(fs) && !r.Got?
      requires r == BadPage <==> op.page < 2
      requires r == AllPinned ==> AllInUse(fs) && forall k :: 0 <= k < |fs| ==> !fs[k].Holds(Key(op.table, op.page))
      ensures op.page < 2 || (|PinMap(fs)| == |fs| && Key(op.table, op.page) !in PinMap(fs))
    {
      hide PinMap;
      if r == AllPinned {
        PinMapSize(fs);
        NotHeld(fs, Key(op.table, op.page));
      }
    }

    lemma PinMarked(fs: seq<Frame>, gs: seq<Frame>, hs: seq<Frame>, op: Op, i: nat, thrown: bool)
      requires op.Store? && |gs| == |fs| && i < |fs| && gs == fs[i := fs[i].(data := op.data)]
      requires thrown ==> hs == gs
      requires !thrown ==> MadeDirty(gs, hs, Key(op.table, op.page))
      ensures PinMap(hs) == PinMap(fs)
    {
      SamePins(fs, gs);
      SamePins(gs, hs);
    }

    lemma PinUnpinned(fs: seq<Frame>, gs: seq<Frame>, op: Op, thrown: bool)
      requires op.Unpin? && OnceEach(fs) && OnceEach(gs) && |gs| == |fs|
      requires forall k :: 0 <= k < |fs| && !fs[k].Free() ==> fs[k].pins >= 0
      requires thrown <==> forall k :: 0 <= k < |fs| && fs[k].Holds(Key(op.table, op.page)) ==> fs[k].pins == 0
      requires thrown ==> gs == fs
      requires !thrown ==> Unpinned(fs, gs, Key(op.table, op.page))
      ensures var key, m := Key(op.table, op.page), PinMap(fs);
        && (thrown <==> key !in m)
        && PinMap(gs) == if thrown then m else if m[key] == 1 then m - {key} else m[key := m[key] - 1]
    {
      hide PinMap;
      var key := Key(op.table, op.page);
      if thrown {
        NotHeld(fs, key);
      } else {
        var k :| 0 <= k < |fs| && fs[k].Holds(key) && gs == fs[k := fs[k].(pins := fs[k].pins - 1)];
        var j :| 0 <= j < |fs| && fs[j].Holds(key) && fs[j].pins != 0;
        assert j == k;
        PinLess(fs, gs, key, k);
      }
    }

    lemma PinLess(fs: seq<Frame>, gs: seq<Frame>, key: Key, k: nat)
      requires OnceEach(fs) && OnceEach(gs) && k < |fs| && fs[k].Holds(key) && fs[k].pins > 0
      requires gs == fs[k := fs[k].(pins := fs[k].pins - 1)]
      ensures var m := PinMap(fs); key in m && PinMap(gs) == if m[key] == 1 then m - {key} else m[key := m[key] - 1]
    {
      hide PinMap, OnceEach;
      var m := PinMap(fs);
      PinnedIs(fs, key, k);
      PinnedIs(gs, key, k);
      forall other | other != key
        ensures (other in PinMap(gs) <==> other in m) && (other in m ==> PinMap(gs)[other] == m[other])
      {
        OthersPinned(fs, gs, k, other);
      }
    }

    lemma KeptSame(fs: seq<Frame>, op: Op)
      ensures KeptOnce(fs, fs, op)
    {
    }

    lemma KeptClean(fs: seq<Frame>, gs: seq<Frame>, op: Op)
      requires |gs| == |fs| && forall k :: 0 <= k < |fs| ==> gs[k] == fs[k].(dirty := false)
      ensures KeptOnce(fs, gs, op)
    {
    }

    lemma KeptFetched(fs: seq<Frame>, gs: seq<Frame>, op: Op, i: nat)
      requires op.Fetch? && |gs| == |fs| && i < |fs| && gs == fs[i := gs[i]]
      requires gs[i].Holds(Key(op.table, op.page)) && gs[i].pins > 0
      requires if fs[i].Holds(Key(op.table, op.page)) then gs[i].pins == fs[i].pins + 1 else Victim(fs, i)
      ensures KeptOnce(fs, gs, op)
    {
    }

    lemma KeptMarked(fs: seq<Frame>, gs: seq<Frame>, hs: seq<Frame>, op: Op, i: nat, thrown: bool)
      requires op.Store? && |gs| == |fs| && i < |fs| && gs == fs[i := fs[i].(data := op.data)]
      requires thrown ==> hs == gs
      requires !thrown ==> MadeDirty(gs, hs, Key(op.table, op.page))
      ensures KeptOnce(fs, hs, op)
    {
    }

    lemma KeptUnpinned(fs: seq<Frame>, gs: seq<Frame>, op: Op, thrown: bool)
      requires op.Unpin?
      requires thrown ==> gs == fs
      requires !thrown ==> Unpinned(fs, gs, Key(op.table, op.page))
      ensures KeptOnce(fs, gs, op)
    {
    }

    /** Over any run of fetching, writing pinned pages, giving pins back and flushing, every answer and
        what is seen and pinned at the end are those of plain pages and pins; and a frame with more pins
        than the run gives back holds its page throughout. */
    method Run(ops: seq<Op>) returns (answers: seq<Answer>)
      requires Valid() && touched == {} && counter + |ops| + 1 < MAX_USED
      requires forall i :: 0 <= i < |ops| ==> Sensible(disk.Keys, ops[i])
      modifies this`disk, this`counter, this`touched, frames
      ensures Valid() && touched == {} && |answers| == |ops|
      ensures AsPlain() == RunOn(frames.Length, old(AsPlain()), ops)
      ensures forall i :: 0 <= i < |ops| ==>
        answers[i] == Reply(frames.Length, RunOn(frames.Length, old(AsPlain()), ops[..i]), ops[i])
      ensures ops != [] && ops[|ops| - 1].Flush? ==> disk == View()
      ensures Kept(old(frames[..]), frames[..], ops)
    {
      hide Pages, Consistent, Effect, Reply, KeptOnce, Kept, PinMap;
      answers := [];
      ghost var start, fs, count := AsPlain(), frames[..], frames.Length;
      KeptNone(fs, ops);
      assert RunOn(count, start, ops[..0]) == start;
      for n := 0 to |ops|
        invariant Valid() && touched == {} && counter + |ops| - n + 1 < MAX_USED && disk.Keys == old(disk).Keys
        invariant |answers| == n && AsPlain() == RunOn(count, start, ops[..n])
        invariant forall i :: 0 <= i < n ==> answers[i] == Reply(count, RunOn(count, start, ops[..i]), ops[i])
        invariant n > 0 && ops[n - 1].Flush? ==> disk == View()
        invariant Kept(fs, frames[..], ops[..n])
      {
        ghost var gs := frames[..];
        var answer := Step(ops[n]);
        RunOnOne(count, start, ops, n);
        KeptOne(fs, gs, frames[..], ops, n);
        answers := answers + [answer];
      }
      assert ops[..|ops|] == ops;
    }

    lemma KeptNone(fs: seq<Frame>, ops: seq<Op>)
      ensures Kept(fs, fs, ops[..0])
    {
    }
  }
}
