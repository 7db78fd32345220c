/** The catalog cache (src/storage/catalog_manager.cpp): pages 0 and 1 of up to three tables of one
    database, written back when they are evicted, flushed or cleared. */
module Catalog {

  const SLOTS := 3
  const AI_COUNTERS := 8
  const MAX_TIME := 0xFFFF_FFFF_FFFF_FFFF

  type Name = string

  /** Page 0: the row id and AUTO_INCREMENT counters, and everything else on it. */
  datatype Header = Header(nextRowId: nat, counters: seq<nat>, rest: seq<int>)

  /** Pages 0 and 1 of a table. */
  datatype Meta = Meta(page0: Header, page1: seq<int>)

  datatype Slot = Slot(name: Name, pool: nat, valid: bool, lastAccess: nat) {
    predicate Is(n: Name) { valid && name == n }
  }

  datatype Flags = Flags(page0: bool, page1: bool) {
    predicate Clean() { !page0 && !page1 }
  }

  const CLEAN := Flags(false, false)

  /** The whole state as a value. */
  datatype State = State(slots: seq<Slot>, pool: seq<Meta>, dirty: seq<Flags>, disk: map<Name, Meta>, counter: nat) {

    ghost predicate Sized() {
      |slots| == SLOTS && |pool| == SLOTS && |dirty| == SLOTS && counter < MAX_TIME
    }

    /** Valid slots hold different tables in different pool entries; what is not marked dirty is on disk
        as it is in memory, and nothing is dirty that no slot owns. */
    ghost predicate Consistent() {
      && Sized()
      && (forall i :: 0 <= i < SLOTS && slots[i].valid ==>
        slots[i].pool < SLOTS && slots[i].name in disk && slots[i].lastAccess <= counter)
      && (forall i, j :: 0 <= i < j < SLOTS && slots[i].valid && slots[j].valid ==>
        slots[i].pool != slots[j].pool && slots[i].name != slots[j].name)
      && (forall i :: 0 <= i < SLOTS && slots[i].valid ==> OnDisk(slots[i].pool, slots[i].name))
      && (forall p :: 0 <= p < SLOTS && !dirty[p].Clean() ==>
        exists i :: 0 <= i < SLOTS && slots[i].valid && slots[i].pool == p)
    }

    predicate OnDisk(p: nat, name: Name)
      requires p < |pool| && p < |dirty| && name in disk
    {
      (!dirty[p].page0 ==> pool[p].page0 == disk[name].page0) && (!dirty[p].page1 ==> pool[p].page1 == disk[name].page1)
    }

    ghost predicate Cached(name: Name)
      requires Sized()
    {
      exists i :: 0 <= i < SLOTS && slots[i].Is(name)
    }

    /** The table is cached and was looked at last. */
    ghost predicate Latest(name: Name)
      requires Sized()
    {
      exists i :: 0 <= i < SLOTS && slots[i].Is(name) && Newest(i)
    }

    ghost predicate Newest(i: nat)
      requires Sized() && i < SLOTS
    {
      forall k :: 0 <= k < SLOTS && k != i && slots[k].valid ==> slots[k].lastAccess < slots[i].lastAccess
    }

    /** What is seen of a table. */
    ghost function Seen(name: Name): Meta
      requires Sized() && name in disk
    {
      if i :| 0 <= i < SLOTS && slots[i].Is(name) && slots[i].pool < SLOTS then pool[slots[i].pool] else disk[name]
    }

    /** All tables, as if there were no cache. */
    ghost function View(): (m: map<Name, Meta>)
      requires Sized()
      ensures m.Keys == disk.Keys
    {
      map name | name in disk :: Seen(name)
    }

    /** What is on disk after the dirty pages of pool entry `p` have been written for `name`. */
    function Written(p: nat, name: Name): Meta
      requires p < |pool| && p < |dirty| && name in disk
    {
      Meta(if dirty[p].page0 then pool[p].page0 else disk[name].page0,
        if dirty[p].page1 then pool[p].page1 else disk[name].page1)
    }
  }

  // ---- The slot used longest ago ----

  /** Only a slot used longest ago is given up, and none while one is free. */
  ghost predicate Spared(was: seq<Slot>, now: seq<Slot>) {
    && |was| == |now| == SLOTS
    && forall k :: 0 <= k < SLOTS && now[k] != was[k] ==>
         forall l :: 0 <= l < SLOTS ==> was[l].valid && was[k].lastAccess <= was[l].lastAccess
  }

  /** The table looked at last is not given up. */
  lemma LatestSpared(s: State, t: State, name: Name)
    requires s.Sized() && t.Sized() && Spared(s.slots, t.slots) && s.Latest(name)
    ensures t.Cached(name)
  {
    var i :| 0 <= i < SLOTS && s.slots[i].Is(name) && s.Newest(i);
    var other := if i == 0 then 1 else 0;
    assert s.slots[other].valid ==> s.slots[other].lastAccess < s.slots[i].lastAccess;
    assert t.slots[i] == s.slots[i];
  }

  lemma LatestCached(s: State)
    requires s.Sized()
    ensures forall name :: s.Latest(name) ==> s.Cached(name)
  {
  }

  /** Filling a free slot drops nothing. */
  lemma CachedFilled(s: State, i: nat, t: State, name: Name)
    requires s.Sized() && t.Sized() && i < SLOTS && !s.slots[i].valid && t.slots == s.slots[i := t.slots[i]]
    requires s.Cached(name)
    ensures t.Cached(name)
  {
    var k :| 0 <= k < SLOTS && s.slots[k].Is(name);
    assert t.slots[k].Is(name);
  }

  /** Looking at a cached table makes it the latest. */
  lemma TouchedLatest(s: State, i: nat, t: State)
    requires s.Consistent() && i < SLOTS && s.slots[i].valid && s.counter + 1 < MAX_TIME
    requires t == s.(slots := s.slots[i := s.slots[i].(lastAccess := s.counter + 1)], counter := s.counter + 1)
    ensures t.Latest(s.slots[i].name)
    ensures forall name :: s.Cached(name) ==> t.Cached(name)
  {
    assert t.slots[i].Is(s.slots[i].name) && t.Newest(i);
    forall name | s.Cached(name) ensures t.Cached(name) {
      var k :| 0 <= k < SLOTS && s.slots[k].Is(name);
      assert t.slots[k].Is(name);
    }
  }

  // ---- Steps ----

  lemma SeenCached(s: State, i: nat)
    requires s.Consistent() && i < SLOTS && s.slots[i].valid
    ensures s.slots[i].name in s.disk && s.View()[s.slots[i].name] == s.pool[s.slots[i].pool]
  {
    var name := s.slots[i].name;
    assert s.slots[i].Is(name);
    var k :| 0 <= k < SLOTS && s.slots[k].Is(name) && s.slots[k].pool < SLOTS
      && s.Seen(name) == s.pool[s.slots[k].pool];
    assert s.slots[k].Is(name);
    OneSlot(s, i, k);
  }

  lemma OneSlot(s: State, i: nat, k: nat)
    requires s.Consistent() && i < SLOTS && k < SLOTS && s.slots[i].valid && s.slots[k].valid
    ensures s.slots[i].name == s.slots[k].name || s.slots[i].pool == s.slots[k].pool ==> i == k
  {
  }

  lemma SeenNotCached(s: State, name: Name)
    requires s.Sized() && name in s.disk && forall i :: 0 <= i < SLOTS ==> !s.slots[i].Is(name)
    ensures s.View()[name] == s.disk[name]
  {
  }

  /** What is the same in slots, pool and disk is seen the same. */
  lemma SeenSame(s: State, t: State, name: Name)
    requires s.Consistent() && t.Consistent() && name in s.disk && name in t.disk
    requires forall i :: 0 <= i < SLOTS && s.slots[i].Is(name) ==>
      t.slots[i].Is(name) && t.pool[t.slots[i].pool] == s.pool[s.slots[i].pool]
    requires forall i :: 0 <= i < SLOTS && t.slots[i].Is(name) ==> s.slots[i].Is(name)
    requires (forall i :: 0 <= i < SLOTS ==> !s.slots[i].Is(name)) ==> s.disk[name] == t.disk[name]
    ensures s.View()[name] == t.View()[name]
  {
    if i :| 0 <= i < SLOTS && s.slots[i].Is(name) {
      assert s.slots[i].Is(name) && t.slots[i].Is(name);
      SeenCached(s, i);
      SeenCached(t, i);
    } else {
      SeenNotCached(s, name);
      SeenNotCached(t, name);
    }
  }

  lemma SlotFacts(s: State, i: nat)
    requires s.Consistent() && i < SLOTS && s.slots[i].valid
    ensures s.Sized() && s.slots[i].pool < SLOTS && s.slots[i].name in s.disk
  {
  }

  /** With nothing cached the files are what is seen. */
  lemma NothingCached(s: State)
    requires s.Sized() && forall k :: 0 <= k < SLOTS ==> !s.slots[k].valid && s.dirty[k].Clean()
    ensures s.Consistent() && s.View() == s.disk
  {
    hide State.View;
    forall name | name in s.disk ensures s.View()[name] == s.disk[name] {
      SeenNotCached(s, name);
    }
  }

  /** Using a slot. */
  lemma Touched(s: State, i: nat, t: State)
    requires s.Consistent() && i < SLOTS && s.slots[i].valid && s.counter + 1 < MAX_TIME
    requires t == s.(slots := s.slots[i := s.slots[i].(lastAccess := s.counter + 1)], counter := s.counter + 1)
    ensures t.Consistent() && t.View() == s.View()
  {
    hide State.Consistent, State.View;
    SlotFacts(s, i);
    TouchedConsistent(s, i, t);
    forall name | name in s.disk ensures t.View()[name] == s.View()[name] {
      SeenSame(s, t, name);
    }
  }

  lemma TouchedConsistent(s: State, i: nat, t: State)
    requires s.Consistent() && i < SLOTS && s.slots[i].valid && s.counter + 1 < MAX_TIME
    requires t == s.(slots := s.slots[i := s.slots[i].(lastAccess := s.counter + 1)], counter := s.counter + 1)
    ensures t.Consistent()
  {
    assert forall k :: 0 <= k < SLOTS ==>
      t.slots[k].valid == s.slots[k].valid && t.slots[k].pool == s.slots[k].pool && t.slots[k].name == s.slots[k].name;
    Owners(s, t);
  }

  /** Slots that keep their pool entries keep owning what is dirty. */
  lemma Owners(s: State, t: State)
    requires s.Consistent() && t.Sized()
    requires forall k ::
      0 <= k < SLOTS && s.slots[k].valid && s.slots[k].pool < SLOTS && !t.dirty[s.slots[k].pool].Clean() ==>
        t.slots[k].valid && t.slots[k].pool == s.slots[k].pool
    requires forall p :: 0 <= p < SLOTS && s.dirty[p].Clean() ==> t.dirty[p].Clean()
    ensures forall p :: 0 <= p < SLOTS && !t.dirty[p].Clean() ==>
      exists k :: 0 <= k < SLOTS && t.slots[k].valid && t.slots[k].pool == p
  {
    forall p | 0 <= p < SLOTS && !t.dirty[p].Clean()
      ensures exists k :: 0 <= k < SLOTS && t.slots[k].valid && t.slots[k].pool == p
    {
      var k :| 0 <= k < SLOTS && s.slots[k].valid && s.slots[k].pool == p;
      assert t.slots[k].valid && t.slots[k].pool == p;
    }
  }

  /** Writing the dirty pages of a slot back. */
  lemma WrittenBack(s: State, i: nat, t: State)
    requires s.Consistent() && i < SLOTS && s.slots[i].valid
    requires t
      == s.(disk := s.disk[s.slots[i].name := s.Written(s.slots[i].pool, s.slots[i].name)],
      dirty := s.dirty[s.slots[i].pool := CLEAN])
    ensures t.Consistent() && t.View() == s.View()
  {
    hide State.Consistent, State.View;
    SlotFacts(s, i);
    WrittenConsistent(s, i, t);
    forall name | name in s.disk ensures t.View()[name] == s.View()[name] {
      SeenSame(s, t, name);
    }
  }

  lemma WrittenConsistent(s: State, i: nat, t: State)
    requires s.Consistent() && i < SLOTS && s.slots[i].valid
    requires t
      == s.(disk := s.disk[s.slots[i].name := s.Written(s.slots[i].pool, s.slots[i].name)],
      dirty := s.dirty[s.slots[i].pool := CLEAN])
    ensures t.Consistent()
  {
    Owners(s, t);
    forall k | 0 <= k < SLOTS && t.slots[k].valid ensures t.OnDisk(t.slots[k].pool, t.slots[k].name) {
      OneSlot(s, i, k);
      assert s.OnDisk(s.slots[k].pool, s.slots[k].name);
    }
  }

  /** Giving up a slot with nothing dirty. */
  lemma Dropped(s: State, i: nat, t: State)
    requires s.Consistent() && i < SLOTS && s.slots[i].valid && s.slots[i].pool < SLOTS
    requires s.dirty[s.slots[i].pool].Clean()
    requires |t.slots| == SLOTS && t == s.(slots := s.slots[i := t.slots[i]]) && !t.slots[i].valid
    ensures t.Consistent() && t.View() == s.View() && !t.Cached(s.slots[i].name)
  {
    hide State.Consistent, State.View, State.Seen;
    SlotFacts(s, i);
    DroppedConsistent(s, i, t);
    DroppedName(s, i, t);
    forall name | name in s.disk ensures t.View()[name] == s.View()[name] {
      if name == s.slots[i].name {
        SeenCached(s, i);
        SeenNotCached(t, name);
      } else {
        SeenSame(s, t, name);
      }
    }
  }

  lemma DroppedName(s: State, i: nat, t: State)
    requires s.Consistent() && i < SLOTS && s.slots[i].valid && s.dirty[s.slots[i].pool].Clean()
    requires |t.slots| == SLOTS && t == s.(slots := s.slots[i := t.slots[i]]) && !t.slots[i].valid
    ensures s.slots[i].name in s.disk && s.pool[s.slots[i].pool] == s.disk[s.slots[i].name]
    ensures forall k :: 0 <= k < SLOTS ==> !t.slots[k].Is(s.slots[i].name)
  {
    assert s.OnDisk(s.slots[i].pool, s.slots[i].name);
    forall k | 0 <= k < SLOTS && s.slots[k].valid ensures s.slots[k].name == s.slots[i].name ==> k == i {
      OneSlot(s, i, k);
    }
  }

  lemma DroppedConsistent(s: State, i: nat, t: State)
    requires s.Consistent() && i < SLOTS && s.slots[i].valid && s.dirty[s.slots[i].pool].Clean()
    requires |t.slots| == SLOTS && t == s.(slots := s.slots[i := t.slots[i]]) && !t.slots[i].valid
    ensures t.Consistent()
  {
    Owners(s, t);
  }

  /** Reading a table into a slot and a pool entry that are not in use. */
  lemma Loaded(s: State, i: nat, p: nat, name: Name, t: State)
    requires s.Sized() && s.Consistent() && i < SLOTS && !s.slots[i].valid && p < SLOTS && name in s.disk
    requires !s.Cached(name) && s.counter + 1 < MAX_TIME
    requires forall k :: 0 <= k < SLOTS && s.slots[k].valid ==> s.slots[k].pool != p
    requires t
      == State(s.slots[i := Slot(name, p, true, s.counter + 1)], s.pool[p := s.disk[name]], s.dirty[p := CLEAN], s.disk,
      s.counter + 1)
    ensures t.Consistent() && t.View() == s.View()
  {
    hide State.Consistent, State.View;
    LoadedConsistent(s, i, p, name, t);
    assert forall k :: 0 <= k < SLOTS ==> !s.slots[k].Is(name);
    forall n | n in s.disk ensures t.View()[n] == s.View()[n] {
      if n == name {
        SeenNotCached(s, n);
        SeenCached(t, i);
      } else {
        forall k | 0 <= k < SLOTS && s.slots[k].Is(n)
          ensures t.slots[k].Is(n) && t.pool[t.slots[k].pool] == s.pool[s.slots[k].pool]
        {
          SlotFacts(s, k);
        }
        SeenSame(s, t, n);
      }
    }
  }

  lemma LoadedConsistent(s: State, i: nat, p: nat, name: Name, t: State)
    requires s.Consistent() && i < SLOTS && !s.slots[i].valid && p < SLOTS && name in s.disk && !s.Cached(name)
    requires s.counter + 1 < MAX_TIME
    requires forall k :: 0 <= k < SLOTS && s.slots[k].valid ==> s.slots[k].pool != p
    requires t
      == State(s.slots[i := Slot(name, p, true, s.counter + 1)], s.pool[p := s.disk[name]], s.dirty[p := CLEAN], s.disk,
      s.counter + 1)
    ensures t.Consistent()
  {
    Owners(s, t);
    assert forall k :: 0 <= k < SLOTS ==> !s.slots[k].Is(name);
    forall k | 0 <= k < SLOTS && t.slots[k].valid ensures t.OnDisk(t.slots[k].pool, t.slots[k].name) {
      if k != i {
        assert s.OnDisk(s.slots[k].pool, s.slots[k].name);
      }
    }
  }

  /** Changing the cached pages of a table and marking what has changed. */
  lemma Changed(s: State, i: nat, meta: Meta, flags: Flags, t: State)
    requires s.Consistent() && i < SLOTS && s.slots[i].valid
    requires (s.dirty[s.slots[i].pool].page0 || meta.page0 != s.pool[s.slots[i].pool].page0 ==> flags.page0)
    requires (s.dirty[s.slots[i].pool].page1 || meta.page1 != s.pool[s.slots[i].pool].page1 ==> flags.page1)
    requires t == s.(pool := s.pool[s.slots[i].pool := meta], dirty := s.dirty[s.slots[i].pool := flags])
    ensures t.Consistent() && t.View() == s.View()[s.slots[i].name := meta]
  {
    hide State.Consistent, State.View;
    SlotFacts(s, i);
    ChangedConsistent(s, i, meta, flags, t);
    forall name | name in s.disk ensures t.View()[name] == if name == s.slots[i].name then meta else s.View()[name] {
      if name == s.slots[i].name {
        SeenCached(t, i);
      } else {
        forall k | 0 <= k < SLOTS && s.slots[k].Is(name) ensures t.pool[t.slots[k].pool] == s.pool[s.slots[k].pool] {
          OneSlot(s, i, k);
        }
        SeenSame(s, t, name);
      }
    }
  }

  lemma ChangedConsistent(s: State, i: nat, meta: Meta, flags: Flags, t: State)
    requires s.Consistent() && i < SLOTS && s.slots[i].valid
    requires (s.dirty[s.slots[i].pool].page0 || meta.page0 != s.pool[s.slots[i].pool].page0 ==> flags.page0)
    requires (s.dirty[s.slots[i].pool].page1 || meta.page1 != s.pool[s.slots[i].pool].page1 ==> flags.page1)
    requires t == s.(pool := s.pool[s.slots[i].pool := meta], dirty := s.dirty[s.slots[i].pool := flags])
    ensures t.Consistent()
  {
    var mine := s.slots[i].pool;
    forall p | 0 <= p < SLOTS && !t.dirty[p].Clean()
      ensures exists k :: 0 <= k < SLOTS && t.slots[k].valid && t.slots[k].pool == p
    {
      if p == mine {
        assert t.slots[i].valid && t.slots[i].pool == p;
      } else {
        var k :| 0 <= k < SLOTS && s.slots[k].valid && s.slots[k].pool == p;
        assert t.slots[k].valid && t.slots[k].pool == p;
      }
    }
    forall k | 0 <= k < SLOTS && t.slots[k].valid ensures t.OnDisk(t.slots[k].pool, t.slots[k].name) {
      OneSlot(s, i, k);
      assert s.OnDisk(s.slots[k].pool, s.slots[k].name);
    }
  }

  // ---- The cache ----

  datatype Op =
    | Lookup(name: Name)
    | RowId(name: Name)
    | AutoIncrement(name: Name, column: nat)
    | Schema(name: Name, page1: seq<int>)
    | Rest(name: Name, rest: seq<int>)
    | Evict(name: Name)
    | Flush
    | Clear

  datatype Answer = Done | Pages(meta: Meta) | Number(n: nat) | Refused

  /** The tables an operation looks at are there. */
  predicate Named(tables: set<Name>, op: Op) {
    op.Evict? || op.Flush? || op.Clear? || op.name in tables
  }

  /** What an operation makes of the tables, as if there were no cache. */
  function Effect(m: map<Name, Meta>, op: Op): (r: map<Name, Meta>)
    requires Named(m.Keys, op)
    ensures r.Keys == m.Keys
  {
    match op
    case RowId(name) => var h := m[name].page0; m[name := m[name].(page0 := h.(nextRowId := h.nextRowId + 1))]
    case AutoIncrement(name, column) =>
      var h := m[name].page0;
      if column < AI_COUNTERS && column < |h.counters|
      then m[name := m[name].(page0 := h.(counters := h.counters[column := h.counters[column] + 1]))] else m
    case Schema(name, page1) => m[name := m[name].(page1 := page1)]
    case Rest(name, rest) => m[name := m[name].(page0 := m[name].page0.(rest := rest))]
    case _ => m
  }

  /** What an operation answers, as if there were no cache. */
  function Reply(m: map<Name, Meta>, op: Op): Answer
    requires Named(m.Keys, op)
  {
    match op
    case Lookup(name) => Pages(m[name])
    case RowId(name) => Number(m[name].page0.nextRowId)
    case AutoIncrement(name, column) =>
      if column < AI_COUNTERS && column < |m[name].page0.counters| then Number(m[name].page0.counters[column])
        else Refused
    case _ => Done
  }

  /** The tables after a run of operations. */
  function RunOn(m: map<Name, Meta>, ops: seq<Op>): (r: map<Name, Meta>)
    requires forall i :: 0 <= i < |ops| ==> Named(m.Keys, ops[i])
    ensures r.Keys == m.Keys
  {
    if ops == [] then m else Effect(RunOn(m, ops[..|ops| - 1]), ops[|ops| - 1])
  }

  lemma RunOnOne(m: map<Name, Meta>, ops: seq<Op>, n: nat)
    requires n < |ops| && forall i :: 0 <= i < |ops| ==> Named(m.Keys, ops[i])
    ensures RunOn(m, ops[..n + 1]) == Effect(RunOn(m, ops[..n]), ops[n])
  {
    assert ops[..n + 1][..n] == ops[..n];
  }

  /** Every table has its eight counters. */
  ghost predicate Countable(m: map<Name, Meta>) {
    forall name :: name in m ==> |m[name].page0.counters| == AI_COUNTERS
  }

  lemma {:induction false} StaysCountable(m: map<Name, Meta>, ops: seq<Op>)
    requires Countable(m) && forall i :: 0 <= i < |ops| ==> Named(m.Keys, ops[i])
    ensures Countable(RunOn(m, ops))
  {
    if ops != [] {
      StaysCountable(m, ops[..|ops| - 1]);
    }
  }

  /** Row ids do not go down. */
  lemma {:induction false} RowIdsGrow(m: map<Name, Meta>, ops: seq<Op>, i: nat, j: nat, name: Name)
    requires i <= j <= |ops| && name in m && forall k :: 0 <= k < |ops| ==> Named(m.Keys, ops[k])
    ensures RunOn(m, ops[..i])[name].page0.nextRowId <= RunOn(m, ops[..j])[name].page0.nextRowId
    decreases j
  {
    if i < j {
      RowIdsGrow(m, ops, i, j - 1, name);
      RunOnOne(m, ops, j - 1);
    }
  }

  /** The row ids given out for one table are strictly increasing: none is given out twice. */
  lemma RowIdsOnce(m: map<Name, Meta>, ops: seq<Op>, i: nat, j: nat)
    requires i < j < |ops| && ops[i].RowId? && ops[i] == ops[j] && forall k :: 0 <= k < |ops| ==> Named(m.Keys, ops[k])
    ensures var a, b := Reply(RunOn(m, ops[..i]), ops[i]), Reply(RunOn(m, ops[..j]), ops[j]);
      a.Number? && b.Number? && a.n < b.n
  {
    RunOnOne(m, ops, i);
    RowIdsGrow(m, ops, i + 1, j, ops[i].name);
  }

  class CatalogManager {
    const slots: array<Slot>
    const pool: array<Meta>
    const dirty: array<Flags>
    var disk: map<Name, Meta>
    var counter: nat

    constructor (disk: map<Name, Meta>)
      ensures Valid() && View() == disk && fresh(slots) && fresh(pool) && fresh(dirty) && counter == 0
    {
      slots := new Slot[SLOTS](_ => Slot("", 0, false, 0));
      pool := new Meta[SLOTS](_ => Meta(Header(0, [], []), []));
      dirty := new Flags[SLOTS](_ => CLEAN);
      this.disk := disk;
      counter := 0;
      new;
      hide State.Consistent, State.View;
      assert forall k :: 0 <= k < SLOTS ==> Now().slots[k] == slots[k] && Now().dirty[k] == dirty[k];
      NothingCached(Now());
    }

    ghost function Now(): State
      reads this, slots, pool, dirty
    {
      State(slots[..], pool[..], dirty[..], disk, counter)
    }

    ghost predicate Valid()
      reads this, slots, pool, dirty
    {
      slots.Length == pool.Length == dirty.Length == SLOTS && Now().Consistent()
    }

    /** All tables, as if there were no cache. */
    ghost function View(): map<Name, Meta>
      requires Valid()
      reads this, slots, pool, dirty
    {
      Now().View()
    }

    method FindSlot(name: Name) returns (i: int)
      requires Valid()
      ensures -1 <= i < SLOTS
      ensures i >= 0 ==> slots[i].Is(name)
      ensures i < 0 <==> !Now().Cached(name)
    {
      for k := 0 to SLOTS
        invariant forall l :: 0 <= l < k ==> !slots[l].Is(name)
      {
        if slots[k].Is(name) {
          assert Now().slots[k].Is(name);
          return k;
        }
      }
      assert forall l :: 0 <= l < SLOTS ==> !Now().slots[l].Is(name);
      return -1;
    }

    /** Writes the dirty pages of a slot to its file. */
    method WriteSlotToDisk(i: nat)
      requires Valid() && i < SLOTS && slots[i].valid
      modifies this`disk, dirty
      ensures Valid() && View() == old(View()) && disk.Keys == old(disk).Keys
      ensures Now()
        == old(Now()).(disk := old(disk)[slots[i].name := old(Now()).Written(slots[i].pool, slots[i].name)],
        dirty := old(dirty[..])[slots[i].pool := CLEAN])
    {
      hide State.View;
      ghost var s := Now();
      var slot := slots[i];
      var p := slot.pool;
      if dirty[p].page0 {
        disk := disk[slot.name := disk[slot.name].(page0 := pool[p].page0)];
        dirty[p] := dirty[p].(page0 := false);
      }
      if dirty[p].page1 {
        disk := disk[slot.name := disk[slot.name].(page1 := pool[p].page1)];
        dirty[p] := dirty[p].(page1 := false);
      }
      assert dirty[..] == s.dirty[p := CLEAN];
      assert disk == s.disk[slot.name := s.Written(p, slot.name)];
      WrittenBack(s, i, Now());
    }

    /** Writes a slot back if anything in it is dirty, and gives it up. */
    method GiveUp(i: nat)
      requires Valid() && i < SLOTS && slots[i].valid
      modifies this`disk, dirty, slots
      ensures Valid() && View() == old(View()) && disk.Keys == old(disk).Keys
      ensures slots[..] == old(slots[..])[i := slots[i]] && !slots[i].valid
      ensures !Now().Cached(old(slots[i]).name)
    {
      hide State.View;
      var p := slots[i].pool;
      if dirty[p].page0 || dirty[p].page1 {
        WriteSlotToDisk(i);
      }
      ghost var s := Now();
      slots[i] := Slot("", slots[i].pool, false, slots[i].lastAccess);
      assert slots[..] == s.slots[i := slots[i]];
      Dropped(s, i, Now());
    }

    /** Frees the slot used longest ago; all are in use. */
    method EvictLruSlot() returns (i: nat)
      requires Valid() && forall k :: 0 <= k < SLOTS ==> slots[k].valid
      modifies this`disk, dirty, slots
      ensures Valid() && View() == old(View()) && disk.Keys == old(disk).Keys
      ensures i < SLOTS && slots[..] == old(slots[..])[i := slots[i]] && !slots[i].valid
      ensures forall k :: 0 <= k < SLOTS ==> old(slots[i]).lastAccess <= old(slots[k]).lastAccess
    {
      var oldest := MAX_TIME;
      i := 0;
      for k := 0 to SLOTS
        invariant i < SLOTS && (k == 0 ==> oldest == MAX_TIME) && (k > 0 ==> i < k && oldest == slots[i].lastAccess)
        invariant forall l :: 0 <= l < k ==> oldest <= slots[l].lastAccess
      {
        assert Now().slots[k] == slots[k];
        if slots[k].valid && slots[k].lastAccess < oldest {
          oldest := slots[k].lastAccess;
          i := k;
        }
      }
      GiveUp(i);
    }

    /** The slot of a table, or one that can be used for it; the last resort is never needed. */
    method FindOrAllocateSlot(name: Name) returns (i: nat)
      requires Valid()
      modifies this`disk, dirty, slots
      ensures Valid() && View() == old(View()) && disk.Keys == old(disk).Keys
      ensures i < SLOTS
      ensures old(Now()).Cached(name) ==> slots[i].Is(name) && Now() == old(Now())
      ensures !old(Now()).Cached(name) ==> !slots[i].valid && !Now().Cached(name)
      ensures Spared(old(slots[..]), slots[..])
    {
      hide State.View;
      var existing := FindSlot(name);
      if existing >= 0 {
        return existing;
      }
      for k := 0 to SLOTS
        invariant forall l :: 0 <= l < k ==> slots[l].valid
      {
        if !slots[k].valid {
          return k;
        }
      }
      ghost var was := slots[..];
      var evicted := EvictLruSlot();
      assert !Now().Cached(name) by {
        forall k | 0 <= k < SLOTS ensures !slots[k].Is(name) {
          assert k != evicted ==> slots[k] == was[k] && !was[k].Is(name);
        }
      }
      i := 0;
      for k := 0 to SLOTS
        invariant forall l :: 0 <= l < k ==> slots[l].valid
      {
        if !slots[k].valid {
          return k;
        }
      }
      assert false;
    }

    /** A pool entry no slot uses; with a slot free there is one. */
    method UnusedPool(free: nat) returns (p: nat)
      requires Valid() && free < SLOTS && !slots[free].valid
      ensures p < SLOTS && forall k :: 0 <= k < SLOTS && slots[k].valid ==> slots[k].pool != p
    {
      p := 0;
      for i := 0 to SLOTS
        invariant forall q :: 0 <= q < i ==> UsedPool(q)
      {
        var used := false;
        for k := 0 to SLOTS
          invariant used ==> UsedPool(i)
          invariant !used ==> forall l :: 0 <= l < k && slots[l].valid ==> slots[l].pool != i
        {
          if slots[k].valid && slots[k].pool == i {
            used := true;
          }
        }
        if !used {
          return i;
        }
      }
      TwoForThree(free);
      assert false;
    }

    ghost predicate UsedPool(p: nat)
      requires slots.Length == SLOTS
      reads this, slots
    {
      exists k :: 0 <= k < SLOTS && slots[k].valid && slots[k].pool == p
    }

    lemma TwoForThree(free: nat)
      requires Valid() && free < SLOTS && !slots[free].valid
      ensures !(UsedPool(0) && UsedPool(1) && UsedPool(2))
    {
      if UsedPool(0) && UsedPool(1) {
        var a :| 0 <= a < SLOTS && slots[a].valid && slots[a].pool == 0;
        var b :| 0 <= b < SLOTS && slots[b].valid && slots[b].pool == 1;
        forall c | 0 <= c < SLOTS && slots[c].valid ensures c == a || c == b {
          assert a != b && a != free && b != free && c != free;
        }
      }
    }

    /** Reads a table that is not cached into the cache. */
    method LoadTableMeta(name: Name)
      requires Valid() && name in disk && !Now().Cached(name) && counter + 1 < MAX_TIME
      modifies this, slots, pool, dirty
      ensures Valid() && View() == old(View()) && disk.Keys == old(disk).Keys
      ensures Now().Cached(name) && counter == old(counter) + 1
      ensures forall other :: old(Now()).Latest(other) ==> Now().Cached(other)
    {
      hide State.View, State.Latest, Spared;
      var i := FindOrAllocateSlot(name);
      var p := UnusedPool(i);
      ghost var s := Now();
      forall other | old(Now()).Latest(other) ensures s.Cached(other) {
        LatestSpared(old(Now()), s, other);
      }
      pool[p] := disk[name];
      counter := counter + 1;
      slots[i] := Slot(name, p, true, counter);
      dirty[p] := CLEAN;
      assert slots[..] == s.slots[i := slots[i]] && pool[..] == s.pool[p := pool[p]]
        && dirty[..] == s.dirty[p := CLEAN];
      Loaded(s, i, p, name, Now());
      assert Now().slots[i].Is(name);
      forall other | s.Cached(other) ensures Now().Cached(other) {
        CachedFilled(s, i, Now(), other);
      }
    }

    /** Makes sure a table is cached, and returns its slot. */
    method GetPages(name: Name) returns (i: nat)
      requires Valid() && name in disk && counter + 2 < MAX_TIME
      modifies this, slots, pool, dirty
      ensures Valid() && View() == old(View()) && disk.Keys == old(disk).Keys
      ensures i < SLOTS && slots[i].Is(name) && slots[i].pool < SLOTS && pool[slots[i].pool] == View()[name]
      ensures Now().Latest(name) && forall other :: old(Now()).Latest(other) ==> Now().Cached(other)
      ensures old(counter) < counter <= old(counter) + 2
    {
      hide State.View, State.Latest;
      var found := FindSlot(name);
      if found < 0 {
        LoadTableMeta(name);
        found := FindSlot(name);
        if found < 0 {
          assert false;
        }
      } else {
        LatestCached(Now());
      }
      i := found;
      ghost var s := Now();
      counter := counter + 1;
      slots[i] := slots[i].(lastAccess := counter);
      assert slots[..] == s.slots[i := slots[i]];
      Touched(s, i, Now());
      TouchedLatest(s, i, Now());
      SeenCached(Now(), i);
    }

    /** Changes page 0 of a table through the pointer to it, and marks it dirty. */
    method PutPage0(name: Name, page0: Header)
      requires Valid() && name in disk && counter + 2 < MAX_TIME
      modifies this, slots, pool, dirty
      ensures Valid() && View() == old(View())[name := old(View())[name].(page0 := page0)]
      ensures disk.Keys == old(disk).Keys
      ensures old(counter) < counter <= old(counter) + 2
    {
      hide State.View;
      var i := GetPages(name);
      ghost var s := Now();
      var p := slots[i].pool;
      pool[p] := pool[p].(page0 := page0);
      dirty[p] := dirty[p].(page0 := true);
      assert pool[..] == s.pool[p := pool[p]] && dirty[..] == s.dirty[p := dirty[p]];
      Changed(s, i, pool[p], dirty[p], Now());
    }

    /** Replaces the schema page of a table. */
    method WriteSchema(name: Name, page1: seq<int>)
      requires Valid() && name in disk && counter + 2 < MAX_TIME
      modifies this, slots, pool, dirty
      ensures Valid() && View() == old(View())[name := old(View())[name].(page1 := page1)]
      ensures disk.Keys == old(disk).Keys
      ensures old(counter) < counter <= old(counter) + 2
    {
      hide State.View;
      var i := GetPages(name);
      ghost var s := Now();
      var p := slots[i].pool;
      pool[p] := pool[p].(page1 := page1);
      dirty[p] := dirty[p].(page1 := true);
      assert pool[..] == s.pool[p := pool[p]] && dirty[..] == s.dirty[p := dirty[p]];
      Changed(s, i, pool[p], dirty[p], Now());
    }

    /** The next row id of a table; the one after is kept on page 0. */
    method GetAndIncrementRowId(name: Name) returns (id: nat)
      requires Valid() && name in disk && counter + 4 < MAX_TIME
      modifies this, slots, pool, dirty
      ensures Valid() && disk.Keys == old(disk).Keys && counter <= old(counter) + 4
      ensures id == old(View())[name].page0.nextRowId
      ensures View() == old(View())[name := old(View())[name].(page0 := old(View())[name].page0.(nextRowId := id + 1))]
    {
      hide State.View, State.Consistent;
      var i := GetPages(name);
      var page0 := pool[slots[i].pool].page0;
      id := page0.nextRowId;
      PutPage0(name, page0.(nextRowId := id + 1));
    }

    /** The next value of an AUTO_INCREMENT counter; there are eight. */
    method GetAndIncrementAutoIncrement(name: Name, column: nat) returns (thrown: bool, value: nat)
      requires Valid() && name in disk && counter + 4 < MAX_TIME && |View()[name].page0.counters| == AI_COUNTERS
      modifies this, slots, pool, dirty
      ensures Valid() && disk.Keys == old(disk).Keys && counter <= old(counter) + 4
      ensures thrown <==> column >= AI_COUNTERS
      ensures thrown ==> View() == old(View())
      ensures !thrown ==> value == old(View())[name].page0.counters[column]
      ensures !thrown ==>
        var m := old(View())[name];
        var counters := m.page0.counters[column := value + 1];
        View() == old(View())[name := m.(page0 := m.page0.(counters := counters))]
    {
      hide State.View, State.Consistent;
      if column >= AI_COUNTERS {
        return true, 0;
      }
      var i := GetPages(name);
      var page0 := pool[slots[i].pool].page0;
      value := page0.counters[column];
      PutPage0(name, page0.(counters := page0.counters[column := value + 1]));
      return false, value;
    }

    /** Writes everything dirty back: afterwards the files hold what is seen. */
    method FlushAll()
      requires Valid()
      modifies this`disk, dirty
      ensures Valid() && View() == old(View()) && disk == View() && disk.Keys == old(disk).Keys && Now().Sized()
      ensures forall p :: 0 <= p < SLOTS ==> dirty[p].Clean()
    {
      hide State.View, State.Seen, State.Written, State.OnDisk, State.Cached, State.Latest, State.Newest;
      for p := 0 to SLOTS
        invariant Valid() && View() == old(View()) && disk.Keys == old(disk).Keys
        invariant forall q :: 0 <= q < p ==> dirty[q].Clean()
      {
        if dirty[p].page0 || dirty[p].page1 {
          assert !Now().dirty[p].Clean();
          var k := 0;
          while k < SLOTS && !(slots[k].valid && slots[k].pool == p)
            invariant k <= SLOTS && forall l :: 0 <= l < k ==> !(slots[l].valid && slots[l].pool == p)
          {
            k := k + 1;
          }
          ghost var was := dirty[..];
          WriteSlotToDisk(k);
          assert forall q :: 0 <= q < p ==> dirty[q] == dirty[..][q] && was[q].Clean();
        }
      }
      AllClean(Now());
    }

    lemma AllClean(s: State)
      requires s.Consistent() && forall p :: 0 <= p < SLOTS ==> s.dirty[p].Clean()
      ensures s.View() == s.disk
    {
      forall name | name in s.disk ensures s.View()[name] == s.disk[name] {
        if i :| 0 <= i < SLOTS && s.slots[i].Is(name) {
          assert s.slots[i].Is(name) && s.OnDisk(s.slots[i].pool, name);
          SeenCached(s, i);
        } else {
          SeenNotCached(s, name);
        }
      }
    }

    /** Flushes and forgets everything. */
    method ClearAll()
      requires Valid()
      modifies this`disk, slots, pool, dirty
      ensures Valid() && View() == old(View()) && disk == View() && disk.Keys == old(disk).Keys
      ensures forall k :: 0 <= k < SLOTS ==> !slots[k].valid
    {
      hide State.Consistent, State.View;
      FlushAll();
      ghost var d := disk;
      for k := 0 to SLOTS
        invariant disk == d && forall l :: 0 <= l < k ==> !slots[l].valid
      {
        slots[k] := Slot("", slots[k].pool, false, 0);
      }
      for p := 0 to SLOTS
        invariant disk == d && forall q :: 0 <= q < p ==> dirty[q] == CLEAN
        invariant forall l :: 0 <= l < SLOTS ==> !slots[l].valid
      {
        dirty[p] := CLEAN;
        pool[p] := Meta(Header(0, [], []), []);
      }
      assert forall k :: 0 <= k < SLOTS ==> Now().slots[k] == slots[k] && Now().dirty[k] == dirty[k];
      NothingCached(Now());
    }

    /** Writes one table back and forgets it. */
    method EvictTable(name: Name)
      requires Valid()
      modifies this`disk, slots, dirty
      ensures Valid() && View() == old(View()) && disk.Keys == old(disk).Keys
      ensures !Now().Cached(name)
    {
      var i := FindSlot(name);
      if i >= 0 {
        GiveUp(i);
      }
    }

    /** One operation: what is seen afterwards, and the answer, are those of plain files. */
    method Step(op: Op) returns (answer: Answer)
      requires Valid() && counter + 4 < MAX_TIME && Countable(View()) && Named(disk.Keys, op)
      modifies this, slots, pool, dirty
      ensures Valid() && counter <= old(counter) + 4 && disk.Keys == old(disk).Keys
      ensures View() == Effect(old(View()), op) && answer == Reply(old(View()), op)
      ensures op.Flush? || op.Clear? ==> disk == View()
      ensures op.Evict? ==> !Now().Cached(op.name)
    {
      hide State.View, State.Consistent;
      answer := Done;
      match op {
        case Lookup(name) =>
          var i := GetPages(name);
          answer := Pages(pool[slots[i].pool]);
        case RowId(name) =>
          var id := GetAndIncrementRowId(name);
          answer := Number(id);
        case AutoIncrement(name, column) =>
          var thrown, value := GetAndIncrementAutoIncrement(name, column);
          answer := if thrown then Refused else Number(value);
        case Schema(name, page1) =>
          WriteSchema(name, page1);
        case Rest(name, rest) =>
          var i := GetPages(name);
          PutPage0(name, pool[slots[i].pool].page0.(rest := rest));
        case Evict(name) =>
          EvictTable(name);
        case Flush =>
          FlushAll();
        case Clear =>
          ClearAll();
      }
    }

    /** Over any run, whatever is evicted, flushed or cleared in between, every answer and what is seen
        at the end are those of the same run on plain files. */
    method Run(ops: seq<Op>) returns (answers: seq<Answer>)
      requires Valid() && counter + 4 * (|ops| + 1) < MAX_TIME && Countable(View())
      requires forall i :: 0 <= i < |ops| ==> Named(disk.Keys, ops[i])
      modifies this, slots, pool, dirty
      ensures Valid() && View() == RunOn(old(View()), ops)
      ensures |answers| == |ops|
      ensures forall i :: 0 <= i < |ops| ==> answers[i] == Reply(RunOn(old(View()), ops[..i]), ops[i])
      ensures ops != [] && (ops[|ops| - 1].Flush? || ops[|ops| - 1].Clear?) ==> disk == View()
    {
      hide State.View, State.Consistent, Effect, Reply, Countable;
      answers := [];
      ghost var start := View();
      assert RunOn(start, ops[..0]) == start;
      for n := 0 to |ops|
        invariant Valid() && counter + 4 * (|ops| - n + 1) < MAX_TIME
        invariant View() == RunOn(start, ops[..n]) && disk.Keys == start.Keys
        invariant |answers| == n && forall i :: 0 <= i < n ==> answers[i] == Reply(RunOn(start, ops[..i]), ops[i])
        invariant n > 0 && (ops[n - 1].Flush? || ops[n - 1].Clear?) ==> disk == View()
      {
        StaysCountable(start, ops[..n]);
        var answer := Step(ops[n]);
        RunOnOne(start, ops, n);
        answers := answers + [answer];
      }
      assert ops[..|ops|] == ops;
    }
  }
}
