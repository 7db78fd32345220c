/** UPDATE (src/executor/executors.cpp): the rows to change have been collected before the first change;
    each is then deleted and inserted again.  When it completes, the outcome is the simultaneous image
    of the old table; and exactly when it completes is said of the rows alone. */
module Update {

  type Value = int
  type Key = seq<int>
  type Tuple = seq<Value>

  datatype Row = Row(id: nat, tuple: Tuple)

  datatype Assignment = Assignment(column: string, expr: nat)

  datatype Outcome = Changed(count: nat) | NoPrimaryKey | Duplicate(at: nat)

  /** The statement: its columns, which of them is the key (or -1), how keys are stored and how an
      expression is evaluated on a tuple. */
  datatype Statement = Statement(columns: seq<string>, pk: int, assignments: seq<Assignment>, keyOf: Value -> Key,
    eval: (nat, Tuple) -> Value) {

    ghost predicate WellFormed() {
      && -1 <= pk < |columns|
      && forall i, j :: 0 <= i < j < |columns| ==> columns[i] != columns[j]
    }

    function KeyOf(t: Tuple): Key
      requires 0 <= pk < |t|
    {
      keyOf(t[pk])
    }

    /** Where a column is, or -1. */
    function Index(column: string, from: nat): (i: int)
      requires from <= |columns|
      ensures -1 <= i < |columns| && (i >= 0 ==> columns[i] == column)
      ensures i < 0 ==> forall k :: from <= k < |columns| ==> columns[k] != column
      decreases |columns| - from
    {
      if from == |columns| then -1 else if columns[from] == column then from else Index(column, from + 1)
    }

    /** The tuple after the first `n` assignments, each evaluated on the old one. */
    function Assigned(old_: Tuple, n: nat): (t: Tuple)
      requires n <= |assignments|
      ensures |t| == |old_|
    {
      if n == 0 then old_ else
      var t := Assigned(old_, n - 1);
      var a := assignments[n - 1];
      var i := Index(a.column, 0);
      if 0 <= i < |t| then t[i := eval(a.expr, old_)] else t
    }

    function New(old_: Tuple): (t: Tuple)
      ensures |t| == |old_|
    {
      Assigned(old_, |assignments|)
    }

    function NewKey(old_: Tuple): Key
      requires 0 <= pk < |old_|
    {
      KeyOf(New(old_))
    }
  }

  /** The last of the first `n` assignments to the column at `c`, or -1. */
  function LastTo(s: Statement, n: nat, c: nat): (k: int)
    requires n <= |s.assignments| && c < |s.columns|
    ensures -1 <= k < n
    ensures k >= 0 ==> s.assignments[k].column == s.columns[c]
    ensures forall l :: k < l < n ==> s.assignments[l].column != s.columns[c]
  {
    if n == 0 then -1 else if s.assignments[n - 1].column == s.columns[c] then n - 1 else LastTo(s, n - 1, c)
  }

  /** The assignments are simultaneous: each column gets the value of its last assignment on the old
      tuple, or keeps its own. */
  lemma {:induction false} AssignedAt(s: Statement, old_: Tuple, n: nat, c: nat)
    requires s.WellFormed() && n <= |s.assignments| && c < |old_| == |s.columns|
    ensures s.Assigned(old_, n)[c]
      == if LastTo(s, n, c) < 0 then old_[c] else s.eval(s.assignments[LastTo(s, n, c)].expr, old_)
  {
    if n > 0 {
      AssignedAt(s, old_, n - 1, c);
      IndexIs(s, s.assignments[n - 1].column, c);
    }
  }

  /** Assignment `k` is to column `c`, the first of its name. */
  predicate SetsColumn(s: Statement, k: nat, c: nat) {
    && k < |s.assignments| && c < |s.columns| && s.assignments[k].column == s.columns[c]
    && forall d :: 0 <= d < c ==> s.columns[d] != s.columns[c]
  }

  /** Assignment `k` is the last of the first `n` to column `c`. */
  ghost predicate LastSet(s: Statement, k: nat, n: nat, c: nat) {
    k < n && SetsColumn(s, k, c) && forall l :: k < l < n ==> !SetsColumn(s, l, c)
  }

  /** `v` is what the first `n` assignments make of column `c`: the last one to it, evaluated on `old_`, or
      what it was. */
  ghost predicate AssignedBy(s: Statement, old_: Tuple, v: Value, n: nat, c: nat)
    requires c < |old_| && n <= |s.assignments|
  {
    && (forall k: nat :: LastSet(s, k, n, c) ==> v == s.eval(s.assignments[k].expr, old_))
    && ((forall k: nat :: k < n ==> !SetsColumn(s, k, c)) ==> v == old_[c])
  }

  /** `t` is `old_` after all assignments. */
  ghost predicate IsAssigned(s: Statement, old_: Tuple, t: Tuple) {
    |t| == |old_| && forall c :: 0 <= c < |t| ==> AssignedBy(s, old_, t[c], |s.assignments|, c)
  }

  /** The new tuple is what the assignments say, all of them. */
  lemma NewAssigned(s: Statement, old_: Tuple)
    ensures IsAssigned(s, old_, s.New(old_))
  {
    forall c | 0 <= c < |old_| ensures AssignedBy(s, old_, s.New(old_)[c], |s.assignments|, c) {
      AssignedUpTo(s, old_, |s.assignments|, c);
    }
  }

  lemma {:induction false} AssignedUpTo(s: Statement, old_: Tuple, n: nat, c: nat)
    requires n <= |s.assignments| && c < |old_|
    ensures AssignedBy(s, old_, s.Assigned(old_, n)[c], n, c)
  {
    hide AssignedBy, SetsColumn, Statement.Assigned;
    if n == 0 {
      AssignedNone(s, old_, c);
    } else {
      AssignedUpTo(s, old_, n - 1, c);
      AssignedStep(s, old_, n, c);
      AssignedNext(s, old_, s.Assigned(old_, n - 1)[c], n, c);
    }
  }

  lemma AssignedNone(s: Statement, old_: Tuple, c: nat)
    requires c < |old_|
    ensures AssignedBy(s, old_, s.Assigned(old_, 0)[c], 0, c)
  {
  }

  lemma AssignedStep(s: Statement, old_: Tuple, n: nat, c: nat)
    requires 0 < n <= |s.assignments| && c < |old_|
    ensures s.Assigned(old_, n)[c]
      == if SetsColumn(s, n - 1, c) then s.eval(s.assignments[n - 1].expr, old_) else s.Assigned(old_, n - 1)[c]
  {
    hide SetsColumn;
    FirstNamed(s, n - 1, c);
  }

  lemma AssignedNext(s: Statement, old_: Tuple, v: Value, n: nat, c: nat)
    requires 0 < n <= |s.assignments| && c < |old_| && AssignedBy(s, old_, v, n - 1, c)
    ensures AssignedBy(s, old_, if SetsColumn(s, n - 1, c) then s.eval(s.assignments[n - 1].expr, old_) else v, n, c)
  {
    hide SetsColumn;
    if SetsColumn(s, n - 1, c) {
      assert forall k: nat :: LastSet(s, k, n, c) ==> k == n - 1;
    } else {
      assert forall k: nat :: LastSet(s, k, n, c) ==> LastSet(s, k, n - 1, c);
    }
  }

  /** A column is found when it is the first of its name. */
  lemma FirstNamed(s: Statement, k: nat, c: nat)
    requires k < |s.assignments|
    ensures s.Index(s.assignments[k].column, 0) == c <==> SetsColumn(s, k, c)
  {
    IndexFirst(s, s.assignments[k].column, 0);
  }

  lemma {:induction false} IndexFirst(s: Statement, column: string, from: nat)
    requires from <= |s.columns|
    ensures var i := s.Index(column, from);
      forall d :: from <= d < (if i < 0 then |s.columns| else i) ==> s.columns[d] != column
    ensures var i := s.Index(column, from); i < 0 || from <= i
    decreases |s.columns| - from
  {
    if from < |s.columns| && s.columns[from] != column {
      IndexFirst(s, column, from + 1);
    }
  }

  lemma IndexIs(s: Statement, column: string, c: nat)
    requires s.WellFormed() && c < |s.columns|
    ensures s.Index(column, 0) == c <==> column == s.columns[c]
  {
    var i := s.Index(column, 0);
    if column == s.columns[c] {
      OneColumn(s, i, c);
    }
  }

  lemma OneColumn(s: Statement, i: nat, c: nat)
    requires s.WellFormed() && i < |s.columns| && c < |s.columns| && s.columns[i] == s.columns[c]
    ensures i == c
  {
  }

  // ---- Moving rows from key to key ----

  /** A collected row: its key, and the key and tuple it gets. */
  datatype Move = Move(from: Key, to_: Key, tuple: Tuple)

  /** The rows to move; one too short to have a key is passed over. */
  function Moves(s: Statement, rows: seq<Tuple>): seq<Move>
    requires s.pk >= 0
  {
    if rows == [] then [] else
      var row := rows[|rows| - 1];
      Moves(s, rows[..|rows| - 1]) + if s.pk < |row| then [Move(s.KeyOf(row), s.NewKey(row), s.New(row))] else []
  }

  lemma {:induction false} MovesPrefix(s: Statement, rows: seq<Tuple>, i: nat)
    requires s.pk >= 0 && i <= |rows|
    ensures Moves(s, rows[..i]) <= Moves(s, rows)
    decreases |rows|
  {
    if i == |rows| {
      assert rows[..i] == rows;
    } else {
      MovesPrefix(s, rows[..|rows| - 1], i);
      assert rows[..|rows| - 1][..i] == rows[..i];
    }
  }

  lemma MovesOne(s: Statement, rows: seq<Tuple>, i: nat)
    requires s.pk >= 0 && i < |rows|
    ensures Moves(s, rows[..i + 1])
      == Moves(s, rows[..i])
      + if s.pk < |rows[i]| then [Move(s.KeyOf(rows[i]), s.NewKey(rows[i]), s.New(rows[i]))] else []
    ensures var n := |Moves(s, rows[..i])|;
      s.pk < |rows[i]| ==>
        n < |Moves(s, rows)| && Moves(s, rows)[n] == Move(s.KeyOf(rows[i]), s.NewKey(rows[i]), s.New(rows[i]))
  {
    assert rows[..i + 1][..i] == rows[..i];
    MovesPrefix(s, rows, i + 1);
  }

  /** Every row collected is in the table, and none twice. */
  ghost predicate Collected(table: map<Key, Row>, ms: seq<Move>) {
    && (forall i :: 0 <= i < |ms| ==> ms[i].from in table)
    && (forall i, j :: 0 <= i < j < |ms| ==> ms[i].from != ms[j].from)
  }

  ghost predicate FromOf(ms: seq<Move>, lo: nat, key: Key) {
    exists j :: lo <= j < |ms| && ms[j].from == key
  }

  ghost predicate ToOf(ms: seq<Move>, hi: nat, key: Key) {
    exists j :: 0 <= j < hi && j < |ms| && ms[j].to_ == key
  }

  /** A key of the table that is not collected. */
  ghost predicate Untouched(table: map<Key, Row>, ms: seq<Move>, key: Key) {
    key in table && !FromOf(ms, 0, key)
  }

  /** Row `i` runs into another key: one not collected, one of a row still to come, or a new one. */
  ghost predicate Blocked(table: map<Key, Row>, ms: seq<Move>, i: nat)
    requires i < |ms|
  {
    var key := ms[i].to_;
    key != ms[i].from && (Untouched(table, ms, key) || FromOf(ms, i + 1, key) || ToOf(ms, i, key))
  }

  /** `now` is `table` with the first `n` rows replaced by their images, under new row ids. */
  ghost predicate Replaced(table: map<Key, Row>, base: nat, ms: seq<Move>, n: nat, now: map<Key, Row>)
    requires n <= |ms|
  {
    && (forall key :: key in now <==> Untouched(table, ms, key) || FromOf(ms, n, key) || ToOf(ms, n, key))
    && (forall key :: Untouched(table, ms, key) ==> key in now && now[key] == table[key])
    && (forall j :: n <= j < |ms| ==> ms[j].from in now && ms[j].from in table && now[ms[j].from] == table[ms[j].from])
    && (forall j :: 0 <= j < n ==> ms[j].to_ in now && now[ms[j].to_] == Row(base + j, ms[j].tuple))
    && Apart(table, ms, n)
    && |now| == |table|
  }

  /** The new keys of the first `n` rows are different from each other and from all other keys. */
  ghost predicate Apart(table: map<Key, Row>, ms: seq<Move>, n: nat)
    requires n <= |ms|
  {
    forall i :: 0 <= i < n ==> !ToOf(ms, i, ms[i].to_) && !Untouched(table, ms, ms[i].to_) && !FromOf(ms, n, ms[i].to_)
  }

  lemma ReplacedNone(table: map<Key, Row>, base: nat, ms: seq<Move>)
    requires Collected(table, ms)
    ensures Replaced(table, base, ms, 0, table)
  {
    forall key ensures key in table <==> Untouched(table, ms, key) || FromOf(ms, 0, key) || ToOf(ms, 0, key) {
    }
  }

  lemma FromMore(ms: seq<Move>, i: nat, key: Key)
    requires i < |ms|
    ensures FromOf(ms, i, key) <==> ms[i].from == key || FromOf(ms, i + 1, key)
  {
    if j :| i <= j < |ms| && ms[j].from == key {
      assert j == i || i + 1 <= j;
    }
  }

  lemma ToMore(ms: seq<Move>, i: nat, key: Key)
    requires i < |ms|
    ensures ToOf(ms, i + 1, key) <==> ToOf(ms, i, key) || ms[i].to_ == key
  {
    if j :| 0 <= j < i + 1 && j < |ms| && ms[j].to_ == key {
      assert j == i || j < i;
    }
  }

  /** Whether the key of the next row is taken is whether it is blocked. */
  lemma TakenIsBlocked(table: map<Key, Row>, base: nat, ms: seq<Move>, i: nat, now: map<Key, Row>)
    requires i < |ms| && Replaced(table, base, ms, i, now)
    ensures ms[i].to_ != ms[i].from && ms[i].to_ in now <==> Blocked(table, ms, i)
  {
    hide Untouched, FromOf, ToOf;
    FromMore(ms, i, ms[i].to_);
  }

  /** A key that is moved is no other row's. */
  lemma FromAlone(table: map<Key, Row>, ms: seq<Move>, i: nat)
    requires Collected(table, ms) && i < |ms|
    ensures !FromOf(ms, i + 1, ms[i].from) && !Untouched(table, ms, ms[i].from)
    ensures forall j :: i < j < |ms| ==> ms[j].from != ms[i].from
  {
  }

  /** No row has been moved to a key that is still to be moved. */
  lemma NotMovedTo(table: map<Key, Row>, ms: seq<Move>, i: nat)
    requires i < |ms| && Apart(table, ms, i)
    ensures !ToOf(ms, i, ms[i].from)
  {
    assert FromOf(ms, i, ms[i].from);
    forall j | 0 <= j < i ensures ms[j].to_ != ms[i].from {
      assert !FromOf(ms, i, ms[j].to_);
    }
  }

  lemma ApartMore(table: map<Key, Row>, ms: seq<Move>, i: nat)
    requires Collected(table, ms) && i < |ms| && Apart(table, ms, i) && !Blocked(table, ms, i)
    ensures Apart(table, ms, i + 1)
  {
    FromAlone(table, ms, i);
    NotMovedTo(table, ms, i);
    hide FromOf, ToOf, Untouched;
    forall j | 0 <= j < i + 1
      ensures !ToOf(ms, j, ms[j].to_) && !Untouched(table, ms, ms[j].to_) && !FromOf(ms, i + 1, ms[j].to_)
    {
      FromMore(ms, i, ms[j].to_);
    }
  }

  /** Deleting the old row and inserting the new one goes on by one. */
  lemma ReplacedOne(table: map<Key, Row>, base: nat, ms: seq<Move>, i: nat, now: map<Key, Row>, next: map<Key, Row>)
    requires Collected(table, ms) && i < |ms| && Replaced(table, base, ms, i, now) && !Blocked(table, ms, i)
    requires next == (now - {ms[i].from})[ms[i].to_ := Row(base + i, ms[i].tuple)]
    ensures Replaced(table, base, ms, i + 1, next)
  {
    hide Replaced, Untouched, FromOf, ToOf, Blocked, Collected, Apart;
    BeforeOne(table, base, ms, i, now);
    ApartMore(table, ms, i);
    KeysAfter(table, base, ms, i, now, next);
    UntouchedStay(table, base, ms, i, now, next);
    WaitingStay(table, base, ms, i, now, next);
    MovedStay(table, base, ms, i, now, next);
    TakenIsBlocked(table, base, ms, i, now);
    SizeKept(now, ms[i].from, ms[i].to_, Row(base + i, ms[i].tuple));
    Assembled(table, base, ms, i + 1, next);
  }

  lemma BeforeOne(table: map<Key, Row>, base: nat, ms: seq<Move>, i: nat, now: map<Key, Row>)
    requires i < |ms| && Replaced(table, base, ms, i, now)
    ensures ms[i].from in now && |now| == |table| && Apart(table, ms, i)
  {
  }

  lemma Assembled(table: map<Key, Row>, base: nat, ms: seq<Move>, n: nat, now: map<Key, Row>)
    requires n <= |ms|
    requires forall key :: key in now <==> Untouched(table, ms, key) || FromOf(ms, n, key) || ToOf(ms, n, key)
    requires forall key :: Untouched(table, ms, key) ==> key in now && now[key] == table[key]
    requires forall j :: n <= j < |ms| ==>
      ms[j].from in now && ms[j].from in table && now[ms[j].from] == table[ms[j].from]
    requires forall j :: 0 <= j < n ==> ms[j].to_ in now && now[ms[j].to_] == Row(base + j, ms[j].tuple)
    requires Apart(table, ms, n) && |now| == |table|
    ensures Replaced(table, base, ms, n, now)
  {
    hide Untouched, FromOf, ToOf, Apart;
  }

  lemma KeysAfter(table: map<Key, Row>, base: nat, ms: seq<Move>, i: nat, now: map<Key, Row>, next: map<Key, Row>)
    requires Collected(table, ms) && i < |ms| && Replaced(table, base, ms, i, now)
    requires next == (now - {ms[i].from})[ms[i].to_ := Row(base + i, ms[i].tuple)]
    ensures forall k :: k in next <==> Untouched(table, ms, k) || FromOf(ms, i + 1, k) || ToOf(ms, i + 1, k)
  {
    FromAlone(table, ms, i);
    NotMovedTo(table, ms, i);
    hide Untouched, FromOf, ToOf, Apart;
    forall k ensures k in next <==> Untouched(table, ms, k) || FromOf(ms, i + 1, k) || ToOf(ms, i + 1, k) {
      FromMore(ms, i, k);
      ToMore(ms, i, k);
    }
  }

  lemma UntouchedStay(table: map<Key, Row>, base: nat, ms: seq<Move>, i: nat, now: map<Key, Row>, next: map<Key, Row>)
    requires Collected(table, ms) && i < |ms| && Replaced(table, base, ms, i, now) && Apart(table, ms, i + 1)
    requires next == (now - {ms[i].from})[ms[i].to_ := Row(base + i, ms[i].tuple)]
    ensures forall key :: Untouched(table, ms, key) ==> key in next && next[key] == table[key]
  {
    FromAlone(table, ms, i);
    hide Untouched, FromOf, ToOf;
  }

  lemma WaitingStay(table: map<Key, Row>, base: nat, ms: seq<Move>, i: nat, now: map<Key, Row>, next: map<Key, Row>)
    requires Collected(table, ms) && i < |ms| && Replaced(table, base, ms, i, now) && Apart(table, ms, i + 1)
    requires next == (now - {ms[i].from})[ms[i].to_ := Row(base + i, ms[i].tuple)]
    ensures forall j :: i + 1 <= j < |ms| ==>
      ms[j].from in next && ms[j].from in table && next[ms[j].from] == table[ms[j].from]
  {
    FromAlone(table, ms, i);
    assert !FromOf(ms, i + 1, ms[i].to_);
    forall j | i + 1 <= j < |ms|
      ensures ms[j].from in next && ms[j].from in table && next[ms[j].from] == table[ms[j].from]
    {
      assert ms[j].from != ms[i].to_;
    }
  }

  lemma MovedStay(table: map<Key, Row>, base: nat, ms: seq<Move>, i: nat, now: map<Key, Row>, next: map<Key, Row>)
    requires Collected(table, ms) && i < |ms| && Replaced(table, base, ms, i, now) && Apart(table, ms, i + 1)
    requires next == (now - {ms[i].from})[ms[i].to_ := Row(base + i, ms[i].tuple)]
    ensures forall j :: 0 <= j < i + 1 ==> ms[j].to_ in next && next[ms[j].to_] == Row(base + j, ms[j].tuple)
  {
    assert FromOf(ms, i, ms[i].from);
    assert !ToOf(ms, i, ms[i].to_);
    forall j | 0 <= j < i ensures ms[j].to_ in next && next[ms[j].to_] == Row(base + j, ms[j].tuple) {
      assert !FromOf(ms, i, ms[j].to_);
      assert ms[j].to_ != ms[i].to_ && ms[j].to_ != ms[i].from;
    }
  }

  lemma SizeKept(now: map<Key, Row>, was: Key, key: Key, row: Row)
    requires was in now && (key == was || key !in now)
    ensures |(now - {was})[key := row]| == |now|
  {
    var rest := now - {was};
    assert now.Keys == rest.Keys + {was};
    assert rest[key := row].Keys == rest.Keys + {key};
  }

  /** Completing is more than the image being a table: exchanging two keys has one, and is refused. */
  lemma ExchangeRefused(table: map<Key, Row>, ms: seq<Move>)
    requires Collected(table, ms) && |ms| == 2 && ms[0].to_ == ms[1].from && ms[1].to_ == ms[0].from
    ensures ms[0].to_ != ms[1].to_ && Blocked(table, ms, 0)
  {
    assert FromOf(ms, 1, ms[0].to_);
  }

  // ---- The executor ----

  // ---- The image of a table ----

  /** Every row lies under the key in it. */
  ghost predicate Keyed(s: Statement, table: map<Key, Row>) {
    s.pk >= 0 && forall key :: key in table ==> s.pk < |table[key].tuple| && s.keyOf(table[key].tuple[s.pk]) == key
  }

  ghost predicate RowIn(table: map<Key, Row>, t: Tuple) {
    exists key :: key in table && table[key].tuple == t
  }

  /** The rows collected are rows of the table, none twice. */
  ghost predicate RowsOf(table: map<Key, Row>, rows: seq<Tuple>) {
    && (forall i :: 0 <= i < |rows| ==> RowIn(table, rows[i]))
    && (forall i, j :: 0 <= i < j < |rows| ==> rows[i] != rows[j])
  }

  /** What a tuple becomes: the assignments applied if it is collected, else itself. */
  ghost predicate Becomes(s: Statement, rows: seq<Tuple>, t: Tuple, r: Tuple) {
    if t in rows then IsAssigned(s, t, r) else r == t
  }

  lemma AfterBecomes(s: Statement, rows: seq<Tuple>, t: Tuple)
    ensures Becomes(s, rows, t, After(s, rows, t))
  {
    NewAssigned(s, t);
  }

  /** What becomes of a tuple. */
  function After(s: Statement, rows: seq<Tuple>, t: Tuple): (r: Tuple)
    ensures |r| == |t|
  {
    if t in rows then s.New(t) else t
  }

  lemma RowHere(s: Statement, table: map<Key, Row>, rows: seq<Tuple>, i: nat)
    requires Keyed(s, table) && RowsOf(table, rows) && i < |rows|
    ensures s.pk < |rows[i]| && s.KeyOf(rows[i]) in table && table[s.KeyOf(rows[i])].tuple == rows[i]
  {
    assert RowIn(table, rows[i]);
    var key :| key in table && table[key].tuple == rows[i];
  }

  /** With keyed rows of the table, nothing is passed over. */
  lemma {:induction false} MovesAll(s: Statement, table: map<Key, Row>, rows: seq<Tuple>)
    requires Keyed(s, table) && RowsOf(table, rows)
    ensures |Moves(s, rows)| == |rows|
    ensures forall i :: 0 <= i < |rows| ==>
      s.pk < |rows[i]| && Moves(s, rows)[i] == Move(s.KeyOf(rows[i]), s.NewKey(rows[i]), s.New(rows[i]))
  {
    if rows != [] {
      var init := rows[..|rows| - 1];
      assert forall i :: 0 <= i < |init| ==> init[i] == rows[i];
      MovesAll(s, table, init);
      RowHere(s, table, rows, |rows| - 1);
    }
  }

  lemma CollectedRows(s: Statement, table: map<Key, Row>, rows: seq<Tuple>)
    requires Keyed(s, table) && RowsOf(table, rows)
    ensures Collected(table, Moves(s, rows))
  {
    MovesAll(s, table, rows);
    forall i | 0 <= i < |rows| ensures s.KeyOf(rows[i]) in table && table[s.KeyOf(rows[i])].tuple == rows[i] {
      RowHere(s, table, rows, i);
    }
  }

  /** A row of the table is collected when its key is that of a move. */
  lemma FromRow(s: Statement, table: map<Key, Row>, rows: seq<Tuple>, key: Key)
    requires Keyed(s, table) && RowsOf(table, rows) && key in table
    ensures FromOf(Moves(s, rows), 0, key) <==> table[key].tuple in rows
  {
    var ms := Moves(s, rows);
    MovesAll(s, table, rows);
    if j :| 0 <= j < |ms| && ms[j].from == key {
      RowHere(s, table, rows, j);
      assert rows[j] in rows;
    }
    if table[key].tuple in rows {
      var j :| 0 <= j < |rows| && rows[j] == table[key].tuple;
      assert ms[j].from == key;
    }
  }

  ghost predicate EarlierKey(s: Statement, rows: seq<Tuple>, i: nat, key: Key) {
    exists j :: 0 <= j < i && j < |rows| && 0 <= s.pk < |rows[j]| && s.KeyOf(rows[j]) == key
  }

  ghost predicate EarlierNew(s: Statement, rows: seq<Tuple>, i: nat, key: Key) {
    exists j :: 0 <= j < i && j < |rows| && 0 <= s.pk < |rows[j]| && s.NewKey(rows[j]) == key
  }

  /** Row `i` keeps its key, or gets one no row has at that time: not in the table unless an earlier row
      has left it, and not given to an earlier row. */
  ghost predicate Clear(s: Statement, table: map<Key, Row>, rows: seq<Tuple>, i: nat)
    requires i < |rows| && 0 <= s.pk < |rows[i]|
  {
    var key := s.NewKey(rows[i]);
    key == s.KeyOf(rows[i])
    || ((key in table ==> EarlierKey(s, rows, i, key)) && !EarlierNew(s, rows, i, key))
  }

  /** With keyed rows of the table a row is blocked exactly when it is not clear. */
  lemma BlockedMeans(s: Statement, table: map<Key, Row>, rows: seq<Tuple>, i: nat)
    requires Keyed(s, table) && RowsOf(table, rows) && i < |rows|
    ensures i < |Moves(s, rows)| && 0 <= s.pk < |rows[i]|
    ensures Blocked(table, Moves(s, rows), i) <==> !Clear(s, table, rows, i)
  {
    hide Moves, RowsOf, Keyed;
    PrimaryKey(s, table);
    var ms := Moves(s, rows);
    MovesAll(s, table, rows);
    CollectedRows(s, table, rows);
    var key := ms[i].to_;
    if key == ms[i].from {
      return;
    }
    KeyAmong(table, ms, i, key);
    assert EarlierKey(s, rows, i, key) <==> exists j :: 0 <= j < i && ms[j].from == key by {
      if j :| 0 <= j < i && ms[j].from == key {
        assert s.KeyOf(rows[j]) == key;
      }
    }
    assert EarlierNew(s, rows, i, key) <==> ToOf(ms, i, key) by {
      if j :| 0 <= j < i && ms[j].to_ == key {
        assert s.NewKey(rows[j]) == key;
      }
    }
  }

  /** A key other than row `i`'s own is one of a row not collected or still to come exactly when it is in
      the table and no earlier row's. */
  lemma KeyAmong(table: map<Key, Row>, ms: seq<Move>, i: nat, key: Key)
    requires Collected(table, ms) && i < |ms| && key != ms[i].from
    ensures Untouched(table, ms, key) || FromOf(ms, i + 1, key) <==>
      key in table && !exists j :: 0 <= j < i && ms[j].from == key
  {
    if j :| 0 <= j < |ms| && ms[j].from == key {
      assert j != i;
    }
  }

  /** A table with the rows collected from it replaced is its image: every tuple lies, changed or not,
      under the key it has then, and there is nothing else. */
  lemma ImageOf(s: Statement, table: map<Key, Row>, base: nat, rows: seq<Tuple>, now: map<Key, Row>)
    requires Keyed(s, table) && RowsOf(table, rows) && Replaced(table, base, Moves(s, rows), |Moves(s, rows)|, now)
    ensures IsImage(s, table, rows, now)
  {
    hide Replaced, Moves, Landed, Origin, Keyed, RowsOf;
    PrimaryKey(s, table);
    SizeSame(table, base, Moves(s, rows), now);
    forall key | key in table
      ensures Landed(s, rows, table[key].tuple, now)
      ensures table[key].tuple !in rows ==> key in now && now[key] == table[key]
    {
      RowLands(s, table, base, rows, now, key);
    }
    forall key | key in now ensures Origin(s, table, rows, now, key) {
      RowFrom(s, table, base, rows, now, key);
    }
  }

  lemma SizeSame(table: map<Key, Row>, base: nat, ms: seq<Move>, now: map<Key, Row>)
    requires Replaced(table, base, ms, |ms|, now)
    ensures |now| == |table|
  {
  }

  lemma RowLands(s: Statement, table: map<Key, Row>, base: nat, rows: seq<Tuple>, now: map<Key, Row>, key: Key)
    requires Keyed(s, table) && RowsOf(table, rows) && Replaced(table, base, Moves(s, rows), |Moves(s, rows)|, now)
    requires key in table
    ensures Landed(s, rows, table[key].tuple, now)
    ensures table[key].tuple !in rows ==> key in now && now[key] == table[key]
  {
    hide Replaced, Moves;
    var ms, t := Moves(s, rows), table[key].tuple;
    MovesAll(s, table, rows);
    ReplacedAll(table, base, ms, now);
    FromRow(s, table, rows, key);
    AfterBecomes(s, rows, t);
    if t in rows {
      var j :| 0 <= j < |rows| && rows[j] == t;
      assert now[ms[j].to_] == Row(base + j, ms[j].tuple);
      assert Lands(s, rows, t, now, ms[j].to_);
    } else {
      assert Lands(s, rows, t, now, key);
    }
  }

  lemma RowFrom(s: Statement, table: map<Key, Row>, base: nat, rows: seq<Tuple>, now: map<Key, Row>, key: Key)
    requires Keyed(s, table) && RowsOf(table, rows) && Replaced(table, base, Moves(s, rows), |Moves(s, rows)|, now)
    requires key in now
    ensures Origin(s, table, rows, now, key)
  {
    hide Replaced, Moves;
    var ms := Moves(s, rows);
    MovesAll(s, table, rows);
    ReplacedAll(table, base, ms, now);
    if Untouched(table, ms, key) {
      FromRow(s, table, rows, key);
      AfterBecomes(s, rows, table[key].tuple);
      assert Lands(s, rows, table[key].tuple, now, key);
    } else {
      var j :| 0 <= j < |ms| && ms[j].to_ == key;
      RowHere(s, table, rows, j);
      AfterBecomes(s, rows, rows[j]);
      assert now[ms[j].to_] == Row(base + j, ms[j].tuple);
      assert rows[j] in rows && Lands(s, rows, table[s.KeyOf(rows[j])].tuple, now, key);
    }
  }

  /** The tuple lies under `key` as what it has become, and `key` is the key in it. */
  ghost predicate Lands(s: Statement, rows: seq<Tuple>, t: Tuple, now: map<Key, Row>, key: Key) {
    key in now && 0 <= s.pk < |now[key].tuple| && key == s.keyOf(now[key].tuple[s.pk])
      && Becomes(s, rows, t, now[key].tuple)
  }

  ghost predicate Landed(s: Statement, rows: seq<Tuple>, t: Tuple, now: map<Key, Row>) {
    exists key :: Lands(s, rows, t, now, key)
  }

  ghost predicate Origin(s: Statement, table: map<Key, Row>, rows: seq<Tuple>, now: map<Key, Row>, key: Key) {
    exists was :: was in table && Lands(s, rows, table[was].tuple, now, key)
  }

  /** The new table holds the images of the rows of the old one and nothing else, as many; rows not
      collected are as they were. */
  ghost predicate IsImage(s: Statement, table: map<Key, Row>, rows: seq<Tuple>, now: map<Key, Row>) {
    && (forall key :: key in table ==> Landed(s, rows, table[key].tuple, now))
    && (forall key :: key in table && table[key].tuple !in rows ==> key in now && now[key] == table[key])
    && (forall key :: key in now ==> Origin(s, table, rows, now, key))
    && |now| == |table|
  }

  /** With no row replaced the table is the old one. */
  lemma ReplacedNothing(table: map<Key, Row>, base: nat, ms: seq<Move>, now: map<Key, Row>)
    requires Collected(table, ms) && Replaced(table, base, ms, 0, now)
    ensures now == table
  {
    forall key ensures key in now <==> key in table {
    }
    forall key | key in table ensures now[key] == table[key] {
      if !Untouched(table, ms, key) {
        var j :| 0 <= j < |ms| && ms[j].from == key;
      }
    }
  }

  lemma ReplacedAll(table: map<Key, Row>, base: nat, ms: seq<Move>, now: map<Key, Row>)
    requires Replaced(table, base, ms, |ms|, now)
    ensures forall key :: key in now <==> Untouched(table, ms, key) || ToOf(ms, |ms|, key)
    ensures forall key :: Untouched(table, ms, key) ==> key in now && now[key] == table[key]
    ensures forall j :: 0 <= j < |ms| ==> ms[j].to_ in now && now[ms[j].to_] == Row(base + j, ms[j].tuple)
    ensures |now| == |table|
  {
  }

  class UpdateExecutor {
    const statement: Statement
    var table: map<Key, Row>
    var nextRowId: nat

    constructor (statement: Statement, table: map<Key, Row>, nextRowId: nat)
      ensures this.statement == statement && this.table == table && this.nextRowId == nextRowId
    {
      this.statement, this.table, this.nextRowId := statement, table, nextRowId;
    }

    method FindColumn(column: string) returns (i: int)
      ensures i == statement.Index(column, 0)
    {
      i := -1;
      var k := 0;
      while k < |statement.columns|
        invariant k <= |statement.columns| && statement.Index(column, 0) == statement.Index(column, k)
      {
        if statement.columns[k] == column {
          return k;
        }
        k := k + 1;
      }
    }

    /** The new tuple: every assignment reads the old one. */
    method Apply(old_: Tuple) returns (t: Tuple)
      ensures t == statement.New(old_) && IsAssigned(statement, old_, t)
    {
      NewAssigned(statement, old_);
      t := old_;
      for n := 0 to |statement.assignments|
        invariant t == statement.Assigned(old_, n)
      {
        var a := statement.assignments[n];
        var i := FindColumn(a.column);
        if i < 0 || i >= |t| {
          continue;
        }
        t := t[i := statement.eval(a.expr, old_)];
      }
    }

    /** Replaces the collected rows one by one.  It completes exactly when no row is blocked, and then
        the table is the image of the old one under the assignments, as many rows as before. */
    method Update(rows: seq<Tuple>) returns (r: Outcome)
      requires statement.pk >= 0 ==> Collected(table, Moves(statement, rows))
      modifies this
      ensures r == NoPrimaryKey <==> statement.pk < 0 && rows != []
      ensures statement.pk < 0 ==> table == old(table)
      ensures statement.pk >= 0 ==>
        (r.Changed? <==>
        forall i :: 0 <= i < |Moves(statement, rows)| ==> !Blocked(old(table), Moves(statement, rows), i))
      ensures r.Changed? && statement.pk >= 0 ==>
        && r.count == |Moves(statement, rows)|
        && Replaced(old(table), old(nextRowId), Moves(statement, rows), r.count, table)
      ensures r.Duplicate? ==>
        statement.pk >= 0 && r.at < |Moves(statement, rows)| && Blocked(old(table), Moves(statement, rows), r.at)
      ensures r.Duplicate? ==>
        && (forall i :: 0 <= i < r.at ==> !Blocked(old(table), Moves(statement, rows), i))
        && Replaced(old(table), old(nextRowId), Moves(statement, rows), r.at, table)
    {
      hide Collected, Replaced, Blocked, Moves;
      if statement.pk < 0 {
        if rows != [] {
          return NoPrimaryKey;
        }
        return Changed(0);
      }
      ghost var ms := Moves(statement, rows);
      var count := 0;
      ReplacedNone(table, nextRowId, ms);
      NoMoves(statement, rows);
      for i := 0 to |rows|
        invariant count == |Moves(statement, rows[..i])| <= |ms| && nextRowId == old(nextRowId) + count
        invariant Replaced(old(table), old(nextRowId), ms, count, table)
        invariant forall k :: 0 <= k < count ==> !Blocked(old(table), ms, k)
      {
        MovesOne(statement, rows, i);
        if statement.pk >= |rows[i]| {
          continue;
        }
        var oldKey := statement.KeyOf(rows[i]);
        var tuple := Apply(rows[i]);
        var id := nextRowId;
        nextRowId := nextRowId + 1;
        var newKey := statement.KeyOf(tuple);
        TakenIsBlocked(old(table), old(nextRowId), ms, count, table);
        if newKey != oldKey && newKey in table {
          return Duplicate(count);
        }
        ReplacedOne(old(table), old(nextRowId), ms, count, table, (table - {oldKey})[newKey := Row(id, tuple)]);
        table := table - {oldKey};
        table := table[newKey := Row(id, tuple)];
        count := count + 1;
      }
      assert rows[..|rows|] == rows;
      return Changed(count);
    }

    lemma NoMoves(s: Statement, rows: seq<Tuple>)
      requires s.pk >= 0
      ensures Moves(s, rows[..0]) == []
    {
    }
  }

  /** UPDATE over a table and rows of it: when it completes, the table is the image of the old one. */
  method UpdateRows(executor: UpdateExecutor, rows: seq<Tuple>) returns (r: Outcome)
    requires Keyed(executor.statement, executor.table) && RowsOf(executor.table, rows)
    modifies executor
    ensures r.Changed? ==> r.count == |rows| && IsImage(executor.statement, old(executor.table), rows, executor.table)
    ensures r.Changed? ==> Keyed(executor.statement, executor.table)
    ensures forall i :: 0 <= i < |rows| ==> 0 <= executor.statement.pk < |rows[i]|
    ensures r.Changed? <==> forall i :: 0 <= i < |rows| ==> Clear(executor.statement, old(executor.table), rows, i)
    ensures !r.Changed? ==>
      && r.Duplicate? && r.at < |rows| && !Clear(executor.statement, old(executor.table), rows, r.at)
      && (forall i :: 0 <= i < r.at ==> Clear(executor.statement, old(executor.table), rows, i))
  {
    hide Collected, Replaced, Blocked, Moves, RowsOf, IsImage, Keyed, Clear;
    ghost var table, base := executor.table, executor.nextRowId;
    PrimaryKey(executor.statement, table);
    CollectedRows(executor.statement, table, rows);
    MovesAll(executor.statement, table, rows);
    forall i | 0 <= i < |rows|
      ensures i < |Moves(executor.statement, rows)| && 0 <= executor.statement.pk < |rows[i]|
      ensures Blocked(table, Moves(executor.statement, rows), i) <==> !Clear(executor.statement, table, rows, i)
    {
      BlockedMeans(executor.statement, table, rows, i);
    }
    r := executor.Update(rows);
    if r.Changed? {
      ImageOf(executor.statement, table, base, rows, executor.table);
      ImageKeyed(executor.statement, table, rows, executor.table);
    }
  }

  lemma PrimaryKey(s: Statement, table: map<Key, Row>)
    requires Keyed(s, table)
    ensures s.pk >= 0
  {
  }

  lemma ImageKeyed(s: Statement, table: map<Key, Row>, rows: seq<Tuple>, now: map<Key, Row>)
    requires Keyed(s, table) && IsImage(s, table, rows, now)
    ensures Keyed(s, now)
  {
    hide Landed, Becomes;
    forall key | key in now ensures s.pk < |now[key].tuple| && s.KeyOf(now[key].tuple) == key {
      assert Origin(s, table, rows, now, key);
      var was :| was in table && Lands(s, rows, table[was].tuple, now, key);
    }
  }

  /** Set id := 3 - id. */
  const EXCHANGE := Statement(["id"], 0, [Assignment("id", 0)], (v: Value) => [v],
    (e: nat, t: Tuple) => if t == [] then 0 else 3 - t[0])

  /** In a table with the rows 1 and 2 the image of that is the same two rows, and UPDATE refuses it at
      the first. */
  method ExchangeByUpdate() returns (executor: UpdateExecutor, r: Outcome)
    ensures fresh(executor) && r == Duplicate(0)
    ensures var table := map[[1] := Row(0, [1]), [2] := Row(1, [2])];
      && Keyed(EXCHANGE, table) && executor.table == table
      && Moves(EXCHANGE, [[1], [2]]) == [Move([1], [2], [2]), Move([2], [1], [1])]
  {
    var table: map<Key, Row> := map[[1] := Row(0, [1]), [2] := Row(1, [2])];
    executor := new UpdateExecutor(EXCHANGE, table, 2);
    ExchangeMoves();
    ExchangeRefused(table, Moves(EXCHANGE, [[1], [2]]));
    r := executor.Update([[1], [2]]);
    ReplacedNothing(table, 2, Moves(EXCHANGE, [[1], [2]]), executor.table);
  }

  lemma ExchangeMoves()
    ensures Moves(EXCHANGE, [[1], [2]]) == [Move([1], [2], [2]), Move([2], [1], [1])]
  {
    var rows: seq<Tuple> := [[1], [2]];
    assert rows[..1] == [[1]] && rows[..1][..0] == [];
    assert EXCHANGE.Index("id", 0) == 0;
    assert EXCHANGE.New([1]) == [2] && EXCHANGE.New([2]) == [1];
  }
}
