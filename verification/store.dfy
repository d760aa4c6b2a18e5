/**
  The committed contents of one table and the three statements a commit
  replays against it: INSERT, UPDATE and DELETE. Storage assigns ids from a
  sequence, fills the timestamp defaults, and enforces the primary key and
  the NOT NULL constraints.
 */
module Store {
  import opened Errors
  import opened Entity

  /** Committed rows by primary key, and the next value the id sequence hands out. */
  datatype Store = Store(rows: map<int, Row>, nextId: int)

  /**
    The storage invariant: every row has its entity type's columns, sits
    under the key its `id` column holds, and lies below the id sequence.
   */
  predicate Valid(d: Descriptor, st: Store) {
    forall k :: k in st.rows ==> d.Shaped(st.rows[k]) && st.rows[k][IdField] == VInt(k) && k < st.nextId
  }

  /** `x` is one of the rows stored under some key. */
  predicate Stored(rows: map<int, Row>, x: Row) {
    exists k :: k in rows && rows[k] == x
  }

  /** An operation staged in the unit of work and replayed at commit. */
  datatype Op =
    | Add(row: Row)                // INSERT; a NULL id or timestamp is filled by storage
    | Save(target: int, row: Row)  // UPDATE of the row stored under `target`
    | Unchanged(target: int)       // a stored object added back with no net change: no statement at all
    | Delete(target: int)          // DELETE of the row stored under `target`

  /** The rows an operation writes all carry the entity type's columns. */
  predicate OpShaped(d: Descriptor, op: Op) {
    match op
    case Add(row) => d.Shaped(row)
    case Save(_, row) => d.Shaped(row)
    case Unchanged(_) => true
    case Delete(_) => true
  }

  /** The table after one statement, and the key that statement wrote or removed. */
  datatype Step = Step(store: Store, key: int)

  /** The table after a run of statements, and the key each of them wrote or removed. */
  datatype Applied = Applied(store: Store, keys: seq<int>)

  function Max(a: int, b: int): int {
    if a < b then b else a
  }

  function Min(a: int, b: int): int {
    if a < b then a else b
  }

  /** The NOT NULL columns of the entity type hold a value. */
  predicate NotNullOk(d: Descriptor, row: Row) {
    forall f :: f in d.required && f in row ==> row[f] != VNull
  }

  /** A column default: a NULL (or missing) column takes the commit time. */
  function FillNull(row: Row, f: string, now: nat): (r: Row)
    ensures r.Keys == row.Keys + {f}
    ensures r[f] != VNull
    ensures forall g :: g in row && row[g] != VNull ==> r[g] == row[g]
  {
    if f in row && row[f] != VNull then row else row[f := VTime(now)]
  }

  /** A timestamp column as an INSERT stores it: the row's own value, or the commit time when it is NULL. */
  function Stamped(row: Row, f: string, now: nat): Value {
    if f in row && row[f] != VNull then row[f] else VTime(now)
  }

  /** The row an INSERT stores under key `k`: the key in `id`, NULL timestamps set to the commit time. */
  function Inserted(row: Row, k: int, now: nat): Row
  {
    FillNull(FillNull(row[IdField := VInt(k)], CreatedAt, now), UpdatedAt, now)
  }

  /** What an INSERT stores: the key in `id`, the timestamps stamped, every other column as given. */
  lemma InsertedColumns(row: Row, k: int, now: nat)
    ensures Inserted(row, k, now).Keys == row.Keys + ServerFields
    ensures Inserted(row, k, now)[IdField] == VInt(k)
    ensures Inserted(row, k, now)[CreatedAt] == Stamped(row, CreatedAt, now)
    ensures Inserted(row, k, now)[UpdatedAt] == Stamped(row, UpdatedAt, now)
    ensures forall f :: f in row && f !in ServerFields ==> Inserted(row, k, now)[f] == row[f]
  {
  }

  /** The NOT NULL columns that storage does not fill itself hold a value in the row as given. */
  predicate FillsNotNull(d: Descriptor, row: Row) {
    forall f :: f in d.required && f in row && f !in ServerFields ==> row[f] != VNull
  }

  /** Storage fills `id` and the timestamps, so only the other NOT NULL columns can hold NULL after an INSERT. */
  lemma InsertedNotNull(d: Descriptor, row: Row, k: int, now: nat)
    ensures NotNullOk(d, Inserted(row, k, now)) <==> FillsNotNull(d, row)
  {
    InsertedColumns(row, k, now);
  }

  /**
    INSERT. An explicit integer id is kept; a NULL id takes the next value of
    the sequence. A taken key, an id that is not an integer, or a NULL in a
    NOT NULL column violates a constraint.
   */
  function Insert(d: Descriptor, st: Store, row: Row, now: nat): (r: Result<Step>)
    ensures r.Ok? <==>
      && (IdField !in row || row[IdField].VNull? || row[IdField].VInt?)
      && (if IdField in row && row[IdField].VInt? then row[IdField].i else st.nextId) !in st.rows
      && FillsNotNull(d, row)
    ensures r.Err? ==> r.error == IntegrityError
    ensures r.Ok? ==>
      var k := r.value.key;
      && k !in st.rows
      && r.value.store.rows == st.rows[k := Inserted(row, k, now)]
      && NotNullOk(d, Inserted(row, k, now))
      && k < r.value.store.nextId
      && st.nextId <= r.value.store.nextId
      && (if IdField in row && row[IdField].VInt? then k == row[IdField].i else k == st.nextId)
  {
    var id := if IdField in row then row[IdField] else VNull;
    if !(id.VNull? || id.VInt?) then Err(IntegrityError)
    else
      var k := if id.VInt? then id.i else st.nextId;
      var full := Inserted(row, k, now);
      InsertedNotNull(d, row, k, now);
      if k in st.rows || !NotNullOk(d, full) then Err(IntegrityError)
      else Ok(Step(Store(st.rows[k := full], Max(st.nextId, k + 1)), k))
  }

  /**
    The `onupdate` default: the commit time goes into `updated_at` unless the
    written row changes that column itself.
   */
  function Touched(prior: Row, row: Row, now: nat): (r: Row)
    ensures r.Keys == row.Keys + {UpdatedAt}
    ensures forall f :: f in row && f != UpdatedAt ==> r[f] == row[f]
    ensures UpdatedAt !in row || UpdatedAt !in prior || row[UpdatedAt] == prior[UpdatedAt] ==> r[UpdatedAt] == VTime(now)
    ensures UpdatedAt in row && UpdatedAt in prior && row[UpdatedAt] != prior[UpdatedAt] ==> r[UpdatedAt] == row[UpdatedAt]
  {
    if UpdatedAt in row && UpdatedAt in prior && row[UpdatedAt] != prior[UpdatedAt] then row
    else row[UpdatedAt := VTime(now)]
  }

  /**
    The NOT NULL columns of an UPDATE's row hold a value once `updated_at` is
    stamped: every other such column as written, and `updated_at` as written
    when the row changes it itself.
   */
  predicate UpdateFillsNotNull(d: Descriptor, prior: Row, row: Row) {
    forall f :: f in d.required && f in row && (f != UpdatedAt || (f in prior && row[f] != prior[f])) ==> row[f] != VNull
  }

  /** The `onupdate` default only ever puts a value into `updated_at`, so only the written columns can hold NULL. */
  lemma TouchedNotNull(d: Descriptor, prior: Row, row: Row, now: nat)
    ensures NotNullOk(d, Touched(prior, row, now)) <==> UpdateFillsNotNull(d, prior, row)
  {
  }

  /**
    UPDATE of the row stored under `target`. A row that no longer exists is
    stale. Otherwise the row, with `updated_at` stamped, moves to the key its
    `id` column names, which must be an integer and the target itself or free.
   */
  function Overwrite(d: Descriptor, st: Store, target: int, row: Row, now: nat): (r: Result<Step>)
    ensures r.Ok? <==>
      && target in st.rows
      && IdField in row && row[IdField].VInt?
      && (row[IdField].i == target || row[IdField].i !in st.rows)
      && UpdateFillsNotNull(d, st.rows[target], row)
    ensures r.Err? ==> r.error == if target in st.rows then IntegrityError else StaleData
    ensures r.Ok? ==>
      var k := r.value.key;
      && row[IdField] == VInt(k)
      && r.value.store.rows == (st.rows - {target})[k := Touched(st.rows[target], row, now)]
      && k < r.value.store.nextId
      && st.nextId <= r.value.store.nextId
  {
    if target !in st.rows then Err(StaleData)
    else
      var prior := st.rows[target];
      if IdField !in row || !row[IdField].VInt? then Err(IntegrityError)
      else
        var k := row[IdField].i;
        var full := Touched(prior, row, now);
        TouchedNotNull(d, prior, row, now);
        if (k != target && k in st.rows) || !NotNullOk(d, full) then Err(IntegrityError)
        else Ok(Step(Store((st.rows - {target})[k := full], Max(st.nextId, k + 1)), k))
  }

  /**
    One staged operation replayed at commit time `now`. DELETE of an absent
    row removes nothing; an object added back unchanged issues no statement.
   */
  function ApplyOp(d: Descriptor, st: Store, op: Op, now: nat): (r: Result<Step>)
    ensures op.Delete? ==> r == Ok(Step(Store(st.rows - {op.target}, st.nextId), op.target))
    ensures op.Unchanged? ==> r == Ok(Step(st, op.target))
    ensures r.Ok? ==> st.nextId <= r.value.store.nextId
    ensures r.Err? ==> r.error in {StaleData, IntegrityError}
  {
    match op
    case Add(row) => Insert(d, st, row, now)
    case Save(target, row) => Overwrite(d, st, target, row, now)
    case Unchanged(target) => Ok(Step(st, target))
    case Delete(target) => Ok(Step(Store(st.rows - {target}, st.nextId), target))
  }

  /**
    The staged operations replayed in order at one commit time; the first
    failure aborts the whole run. Defined from the last operation so that
    staging one more operation adds exactly one step.
   */
  function ApplyOps(d: Descriptor, st: Store, ops: seq<Op>, now: nat): (r: Result<Applied>)
    ensures r.Ok? ==> |r.value.keys| == |ops|
    ensures r.Ok? ==> st.nextId <= r.value.store.nextId
    ensures r.Err? ==> r.error in {StaleData, IntegrityError}
    decreases |ops|
  {
    if ops == [] then Ok(Applied(st, []))
    else
      match ApplyOps(d, st, ops[..|ops| - 1], now)
      case Err(e) => Err(e)
      case Ok(a) =>
        match ApplyOp(d, a.store, ops[|ops| - 1], now)
        case Err(e) => Err(e)
        case Ok(step) => Ok(Applied(step.store, a.keys + [step.key]))
  }

  /** Staging one more statement adds exactly one step after the earlier ones. */
  lemma ApplyOpsSnoc(d: Descriptor, st: Store, ops: seq<Op>, op: Op, now: nat)
    ensures ApplyOps(d, st, ops + [op], now) ==
      match ApplyOps(d, st, ops, now)
      case Err(e) => Err(e)
      case Ok(a) =>
        match ApplyOp(d, a.store, op, now)
        case Err(e) => Err(e)
        case Ok(step) => Ok(Applied(step.store, a.keys + [step.key]))
  {
    assert (ops + [op])[..|ops|] == ops;
  }

  /** Replaying `xs + ys` replays `xs`, then `ys` against the table `xs` left. */
  lemma {:induction false} ApplyOpsAppend(d: Descriptor, st: Store, xs: seq<Op>, ys: seq<Op>, now: nat)
    ensures ApplyOps(d, st, xs + ys, now) ==
      match ApplyOps(d, st, xs, now)
      case Err(e) => Err(e)
      case Ok(a) =>
        match ApplyOps(d, a.store, ys, now)
        case Err(e) => Err(e)
        case Ok(b) => Ok(Applied(b.store, a.keys + b.keys))
    decreases |ys|
  {
    if ys == [] {
      assert xs + ys == xs;
      var a := ApplyOps(d, st, xs, now);
      if a.Ok? {
        assert a.value.keys + [] == a.value.keys;
      }
    } else {
      var init, y := ys[..|ys| - 1], ys[|ys| - 1];
      assert xs + ys == (xs + init) + [y];
      assert ys == init + [y];
      ApplyOpsSnoc(d, st, xs + init, y, now);
      ApplyOpsAppend(d, st, xs, init, now);
      var a := ApplyOps(d, st, xs, now);
      if a.Ok? {
        ApplyOpsSnoc(d, a.value.store, init, y, now);
        var b := ApplyOps(d, a.value.store, init, now);
        if b.Ok? {
          var c := ApplyOp(d, b.value.store, y, now);
          if c.Ok? {
            assert a.value.keys + b.value.keys + [c.value.key] == a.value.keys + (b.value.keys + [c.value.key]);
          }
        }
      }
    }
  }

  /** One statement keeps the storage invariant when the row it writes has the entity type's columns. */
  lemma ApplyOpPreservesValid(d: Descriptor, st: Store, op: Op, now: nat)
    requires Valid(d, st) && OpShaped(d, op)
    ensures ApplyOp(d, st, op, now).Ok? ==> Valid(d, ApplyOp(d, st, op, now).value.store)
  {
    var r := ApplyOp(d, st, op, now);
    if r.Ok? {
      var st' := r.value.store;
      match op
      case Add(row) =>
        forall k | k in st'.rows
          ensures d.Shaped(st'.rows[k]) && st'.rows[k][IdField] == VInt(k) && k < st'.nextId
        {
          if k != r.value.key {
            assert k in st.rows;
          }
        }
      case Save(target, row) =>
        forall k | k in st'.rows
          ensures d.Shaped(st'.rows[k]) && st'.rows[k][IdField] == VInt(k) && k < st'.nextId
        {
          if k != r.value.key {
            assert k in st.rows;
          }
        }
      case Unchanged(_) =>
      case Delete(_) =>
    }
  }

  /** A run of statements keeps the storage invariant when every row it writes has the entity type's columns. */
  lemma {:induction false} ApplyOpsPreservesValid(d: Descriptor, st: Store, ops: seq<Op>, now: nat)
    requires Valid(d, st)
    requires forall i :: 0 <= i < |ops| ==> OpShaped(d, ops[i])
    ensures ApplyOps(d, st, ops, now).Ok? ==> Valid(d, ApplyOps(d, st, ops, now).value.store)
    decreases |ops|
  {
    if ops != [] {
      var init := ops[..|ops| - 1];
      ApplyOpsPreservesValid(d, st, init, now);
      var a := ApplyOps(d, st, init, now);
      if a.Ok? {
        ApplyOpPreservesValid(d, a.value.store, ops[|ops| - 1], now);
      }
    }
  }

  /** `after` is `before` with exactly the keys some of `ops` target removed, and every remaining row untouched. */
  predicate DeletesApplied(before: map<int, Row>, after: map<int, Row>, ops: seq<Op>)
    requires forall i :: 0 <= i < |ops| ==> ops[i].Delete?
  {
    && (forall k :: k in after ==> k in before && after[k] == before[k] && forall i :: 0 <= i < |ops| ==> ops[i].target != k)
    && (forall k :: k in before && (forall i :: 0 <= i < |ops| ==> ops[i].target != k) ==> k in after)
  }

  /** A run of DELETEs never fails and removes exactly the keys it targets. */
  lemma {:induction false} DeletesRemoveTargets(d: Descriptor, st: Store, ops: seq<Op>, now: nat)
    requires forall i :: 0 <= i < |ops| ==> ops[i].Delete?
    ensures ApplyOps(d, st, ops, now).Ok?
    ensures
      var after := ApplyOps(d, st, ops, now).value.store;
      after.nextId == st.nextId && DeletesApplied(st.rows, after.rows, ops)
    decreases |ops|
  {
    if ops != [] {
      var init := ops[..|ops| - 1];
      DeletesRemoveTargets(d, st, init, now);
      assert forall i :: 0 <= i < |init| ==> init[i] == ops[i];
    }
  }

  /**
    A run of INSERTs that succeeds keeps every row that was there before and
    writes each of its keys, none of which was taken before, and no other.
   */
  lemma {:induction false} AddsKeepRows(d: Descriptor, st: Store, ops: seq<Op>, now: nat)
    requires forall i :: 0 <= i < |ops| ==> ops[i].Add?
    requires ApplyOps(d, st, ops, now).Ok?
    ensures
      var a := ApplyOps(d, st, ops, now).value;
      && (forall i :: 0 <= i < |ops| ==> a.keys[i] in a.store.rows && a.keys[i] !in st.rows)
      && (forall k :: k in st.rows ==> k in a.store.rows && a.store.rows[k] == st.rows[k])
      && (forall k :: k in a.store.rows ==> k in st.rows || k in a.keys)
    decreases |ops|
  {
    if ops != [] {
      var init := ops[..|ops| - 1];
      assert forall i :: 0 <= i < |init| ==> init[i] == ops[i];
      AddsKeepRows(d, st, init, now);
      ApplyOpsLast(d, st, ops, now);
      var prev := ApplyOps(d, st, init, now).value;
      var step := Insert(d, prev.store, ops[|ops| - 1].row, now).value;
      var a := ApplyOps(d, st, ops, now).value;
      forall k | k in a.store.rows
        ensures k in st.rows || k in a.keys
      {
        if k != step.key {
          assert k in prev.store.rows;
          if k !in st.rows {
            var i :| 0 <= i < |prev.keys| && prev.keys[i] == k;
            assert a.keys[i] == k;
          }
        }
      }
    }
  }

  /** Every key of the table lies below the id sequence, so the sequence's next value is free. */
  predicate BelowSequence(st: Store) {
    forall k :: k in st.rows ==> k < st.nextId
  }

  /** An INSERT that leaves `id` NULL takes the sequence's next value, which is free. */
  lemma NullIdInsert(d: Descriptor, st: Store, row: Row, now: nat)
    requires BelowSequence(st) && ColumnOf(row, IdField) == VNull
    ensures Insert(d, st, row, now).Ok? <==> FillsNotNull(d, row)
    ensures Insert(d, st, row, now).Ok? ==> BelowSequence(Insert(d, st, row, now).value.store)
  {
    assert st.nextId !in st.rows;
  }

  /** Every row of a run fills its NOT NULL columns exactly when the earlier rows and the last one do. */
  lemma FillsSplit(d: Descriptor, ops: seq<Op>)
    requires ops != [] && forall i :: 0 <= i < |ops| ==> ops[i].Add?
    ensures var init := ops[..|ops| - 1];
      (forall i :: 0 <= i < |ops| ==> FillsNotNull(d, ops[i].row)) <==>
      (forall i :: 0 <= i < |init| ==> FillsNotNull(d, init[i].row)) && FillsNotNull(d, ops[|ops| - 1].row)
  {
    var init := ops[..|ops| - 1];
    assert forall i :: 0 <= i < |init| ==> init[i] == ops[i];
  }

  /**
    A run of INSERTs that all leave `id` NULL, on a table whose keys lie below
    the id sequence, succeeds exactly when every row fills the NOT NULL
    columns storage does not fill; the sequence then stays ahead of the keys.
   */
  lemma {:induction false} NullIdAddsSucceed(d: Descriptor, st: Store, ops: seq<Op>, now: nat)
    requires BelowSequence(st)
    requires forall i :: 0 <= i < |ops| ==> ops[i].Add? && ColumnOf(ops[i].row, IdField) == VNull
    ensures ApplyOps(d, st, ops, now).Ok? <==> forall i :: 0 <= i < |ops| ==> FillsNotNull(d, ops[i].row)
    ensures ApplyOps(d, st, ops, now).Ok? ==> BelowSequence(ApplyOps(d, st, ops, now).value.store)
    decreases |ops|
  {
    if ops != [] {
      var init, last := ops[..|ops| - 1], ops[|ops| - 1];
      assert forall i :: 0 <= i < |init| ==> init[i] == ops[i];
      NullIdAddsSucceed(d, st, init, now);
      var a := ApplyOps(d, st, init, now);
      if a.Ok? {
        NullIdInsert(d, a.value.store, last.row, now);
      }
      FillsSplit(d, ops);
    }
  }

  /** A run of INSERTs that succeeds writes a different key for each row. */
  lemma {:induction false} AddsDistinctKeys(d: Descriptor, st: Store, ops: seq<Op>, now: nat)
    requires forall i :: 0 <= i < |ops| ==> ops[i].Add?
    requires ApplyOps(d, st, ops, now).Ok?
    ensures
      var a := ApplyOps(d, st, ops, now).value;
      forall i, j :: 0 <= i < j < |ops| ==> a.keys[i] != a.keys[j]
    decreases |ops|
  {
    if ops != [] {
      var init := ops[..|ops| - 1];
      assert forall i :: 0 <= i < |init| ==> init[i] == ops[i];
      AddsDistinctKeys(d, st, init, now);
      AddsKeepRows(d, st, init, now);
      ApplyOpsLast(d, st, ops, now);
      var prev := ApplyOps(d, st, init, now).value;
      var step := Insert(d, prev.store, ops[|ops| - 1].row, now).value;
      var a := ApplyOps(d, st, ops, now).value;
      forall i, j | 0 <= i < j < |ops|
        ensures a.keys[i] != a.keys[j]
      {
        assert a.keys[i] == prev.keys[i] && prev.keys[i] in prev.store.rows;
        if j < |init| {
          assert a.keys[j] == prev.keys[j];
        }
      }
    }
  }

  /** The last INSERT of a successful run adds one row under a new key and keeps the earlier keys and rows. */
  lemma AddsStep(d: Descriptor, st: Store, ops: seq<Op>, now: nat)
    requires ops != [] && ops[|ops| - 1].Add?
    requires ApplyOps(d, st, ops, now).Ok?
    ensures
      var prev := ApplyOps(d, st, ops[..|ops| - 1], now);
      var a := ApplyOps(d, st, ops, now).value;
      var k := a.keys[|ops| - 1];
      && prev.Ok?
      && (forall i :: 0 <= i < |ops| - 1 ==> a.keys[i] == prev.value.keys[i])
      && k in a.store.rows && a.store.rows[k] == Inserted(ops[|ops| - 1].row, k, now)
      && (forall j :: j in prev.value.store.rows ==> j != k && j in a.store.rows && a.store.rows[j] == prev.value.store.rows[j])
  {
    ApplyOpsLast(d, st, ops, now);
  }

  /** Every statement of `ops` is an INSERT that left its row, filled in, under the key it reported in `a`. */
  predicate RowsInserted(ops: seq<Op>, a: Applied, now: nat) {
    && |a.keys| == |ops|
    && forall i :: 0 <= i < |ops| ==>
      ops[i].Add? && a.keys[i] in a.store.rows && a.store.rows[a.keys[i]] == Inserted(ops[i].row, a.keys[i], now)
  }

  /** A run of INSERTs that succeeds stores each row, filled in, under its own key. */
  lemma {:induction false} AddsInsertRows(d: Descriptor, st: Store, ops: seq<Op>, now: nat)
    requires forall i :: 0 <= i < |ops| ==> ops[i].Add?
    requires ApplyOps(d, st, ops, now).Ok?
    ensures RowsInserted(ops, ApplyOps(d, st, ops, now).value, now)
    decreases |ops|
  {
    if ops != [] {
      var init := ops[..|ops| - 1];
      assert forall i :: 0 <= i < |init| ==> init[i] == ops[i];
      AddsInsertRows(d, st, init, now);
      AddsStep(d, st, ops, now);
      var prev := ApplyOps(d, st, init, now).value;
      var a := ApplyOps(d, st, ops, now).value;
      forall i | 0 <= i < |init|
        ensures a.keys[i] in a.store.rows && a.store.rows[a.keys[i]] == Inserted(ops[i].row, a.keys[i], now)
      {
        var k := prev.keys[i];
        assert k in prev.store.rows && prev.store.rows[k] == Inserted(init[i].row, k, now);
        assert a.keys[i] == k;
      }
      assert RowsInserted(ops, a, now);
    }
  }

  /** The stored row holds every column of `row`, `updated_at` aside. */
  predicate Carries(stored: Row, row: Row) {
    forall f :: f in row && f != UpdatedAt ==> f in stored && stored[f] == row[f]
  }

  /** A statement that leaves its row under its own key: an id-keeping UPDATE, or no statement at all. */
  predicate InPlace(op: Op) {
    op.Unchanged? || (op.Save? && IdField in op.row && op.row[IdField] == VInt(op.target))
  }

  /**
    An UPDATE that keeps its row's id and succeeds: the target was stored,
    no key appears or disappears, other rows are untouched, and the target
    holds the written row.
   */
  lemma OverwriteInPlace(d: Descriptor, st: Store, target: int, row: Row, now: nat)
    requires IdField in row && row[IdField] == VInt(target)
    requires Overwrite(d, st, target, row, now).Ok?
    ensures var after := Overwrite(d, st, target, row, now).value.store;
      && target in st.rows
      && after.rows == st.rows[target := Touched(st.rows[target], row, now)]
      && after.rows.Keys == st.rows.Keys
      && Carries(after.rows[target], row)
  {
  }

  /** The last statement of a successful run ran against the table the earlier ones left. */
  lemma ApplyOpsLast(d: Descriptor, st: Store, ops: seq<Op>, now: nat)
    requires ops != [] && ApplyOps(d, st, ops, now).Ok?
    ensures var prev := ApplyOps(d, st, ops[..|ops| - 1], now);
      && prev.Ok?
      && ApplyOp(d, prev.value.store, ops[|ops| - 1], now).Ok?
      && var step := ApplyOp(d, prev.value.store, ops[|ops| - 1], now).value;
      ApplyOps(d, st, ops, now).value == Applied(step.store, prev.value.keys + [step.key])
  {
  }

  /**
    `after` records in-place statements `ops` over `before`: every UPDATE's
    target was stored, no key appears or disappears, and rows no UPDATE
    targets are untouched.
   */
  predicate KeysKept(before: map<int, Row>, after: map<int, Row>, ops: seq<Op>) {
    && after.Keys == before.Keys
    && (forall i :: 0 <= i < |ops| && ops[i].Save? ==> ops[i].target in before)
    && (forall k :: k in before && (forall i :: 0 <= i < |ops| && ops[i].Save? ==> ops[i].target != k) ==> after[k] == before[k])
  }

  /**
    A run of in-place statements that succeeds: every UPDATE's target was
    stored, no key appears or disappears, and untargeted rows are untouched.
   */
  lemma {:induction false} SavesKeepKeys(d: Descriptor, st: Store, ops: seq<Op>, now: nat)
    requires forall i :: 0 <= i < |ops| ==> InPlace(ops[i])
    requires ApplyOps(d, st, ops, now).Ok?
    ensures KeysKept(st.rows, ApplyOps(d, st, ops, now).value.store.rows, ops)
    decreases |ops|
  {
    if ops != [] {
      var init, last := ops[..|ops| - 1], ops[|ops| - 1];
      assert forall i :: 0 <= i < |init| ==> init[i] == ops[i];
      ApplyOpsLast(d, st, ops, now);
      SavesKeepKeys(d, st, init, now);
      if last.Save? {
        var prev := ApplyOps(d, st, init, now).value.store;
        OverwriteInPlace(d, prev, last.target, last.row, now);
      }
    }
  }

  /** Each UPDATE of `ops` not followed by another UPDATE of its target left its row in `rows`. */
  predicate LastWritesKept(ops: seq<Op>, rows: map<int, Row>) {
    forall i :: 0 <= i < |ops| && ops[i].Save? && (forall j :: i < j < |ops| && ops[j].Save? ==> ops[j].target != ops[i].target) ==>
      ops[i].target in rows && Carries(rows[ops[i].target], ops[i].row)
  }

  /** One more in-place statement keeps the last writes of the earlier ones, and adds its own. */
  lemma LastWritesStep(d: Descriptor, prev: Store, init: seq<Op>, last: Op, now: nat)
    requires LastWritesKept(init, prev.rows)
    requires InPlace(last) && ApplyOp(d, prev, last, now).Ok?
    ensures LastWritesKept(init + [last], ApplyOp(d, prev, last, now).value.store.rows)
  {
    var ops, after := init + [last], ApplyOp(d, prev, last, now).value.store.rows;
    if last.Save? {
      OverwriteInPlace(d, prev, last.target, last.row, now);
    }
    forall i | 0 <= i < |ops| && ops[i].Save? && (forall j :: i < j < |ops| && ops[j].Save? ==> ops[j].target != ops[i].target)
      ensures ops[i].target in after && Carries(after[ops[i].target], ops[i].row)
    {
      if i < |init| {
        assert ops[i] == init[i];
        assert forall j :: i < j < |init| ==> ops[j] == init[j];
        assert last.Save? ==> last.target != init[i].target by {
          assert ops[|init|] == last;
        }
      }
    }
  }

  /** In a run of in-place statements that succeeds, the last UPDATE of each target is what the target holds. */
  lemma {:induction false} SavesLastWrite(d: Descriptor, st: Store, ops: seq<Op>, now: nat)
    requires forall i :: 0 <= i < |ops| ==> InPlace(ops[i])
    requires ApplyOps(d, st, ops, now).Ok?
    ensures LastWritesKept(ops, ApplyOps(d, st, ops, now).value.store.rows)
    decreases |ops|
  {
    if ops != [] {
      var init, last := ops[..|ops| - 1], ops[|ops| - 1];
      assert forall i :: 0 <= i < |init| ==> init[i] == ops[i];
      ApplyOpsLast(d, st, ops, now);
      SavesLastWrite(d, st, init, now);
      var prev := ApplyOps(d, st, init, now).value.store;
      LastWritesStep(d, prev, init, last, now);
      assert init + [last] == ops;
    }
  }

  /**
    A run of in-place statements whose UPDATEs target stored rows and fill
    the NOT NULL columns always succeeds, and keeps the key set.
   */
  lemma {:induction false} InPlaceSucceeds(d: Descriptor, st: Store, ops: seq<Op>, now: nat)
    requires forall i :: 0 <= i < |ops| ==>
      InPlace(ops[i]) && (ops[i].Save? ==> ops[i].target in st.rows && NotNullOk(d, ops[i].row))
    ensures ApplyOps(d, st, ops, now).Ok?
    ensures ApplyOps(d, st, ops, now).value.store.rows.Keys == st.rows.Keys
    decreases |ops|
  {
    if ops != [] {
      var init, last := ops[..|ops| - 1], ops[|ops| - 1];
      assert forall i :: 0 <= i < |init| ==> init[i] == ops[i];
      InPlaceSucceeds(d, st, init, now);
      var prev := ApplyOps(d, st, init, now).value.store;
      if last.Save? {
        assert Overwrite(d, prev, last.target, last.row, now).Ok?;
        OverwriteInPlace(d, prev, last.target, last.row, now);
      }
    }
  }

  /** `m` is the smallest element of `ks`. */
  predicate IsLeast(m: int, ks: set<int>) {
    m in ks && forall k :: k in ks ==> m <= k
  }

  /** The smallest key of a non-empty key set exists. */
  lemma {:induction false} LeastExists(ks: set<int>)
    requires ks != {}
    ensures exists m :: IsLeast(m, ks)
    decreases |ks|
  {
    HasElement(ks);
    var x :| x in ks;
    var rest := ks - {x};
    if rest == {} {
      assert forall k :: k in ks ==> k == x || k in rest;
      assert IsLeast(x, ks);
    } else {
      LeastExists(rest);
      var y :| IsLeast(y, rest);
      assert forall k :: k in ks ==> k == x || k in rest;
      if x < y {
        assert IsLeast(x, ks);
      } else {
        assert IsLeast(y, ks);
      }
    }
  }

  /** A non-empty set has an element. */
  lemma HasElement(ks: set<int>)
    requires ks != {}
    ensures exists x :: x in ks
  {
    // by contradiction: a set without elements equals the empty set
    if forall x :: x !in ks {
      assert false;
    }
  }

  function Least(ks: set<int>): (m: int)
    requires ks != {}
    ensures IsLeast(m, ks)
  {
    LeastExists(ks);
    var m :| IsLeast(m, ks);
    m
  }

  /** The keys in ascending order: the order a query without ORDER BY is taken to yield rows in. */
  function SortedKeys(ks: set<int>): (r: seq<int>)
    ensures forall k :: k in r <==> k in ks
    ensures |r| == |ks|
    ensures forall i, j :: 0 <= i < j < |r| ==> r[i] < r[j]
    decreases |ks|
  {
    if ks == {} then []
    else
      var m := Least(ks);
      var rest := SortedKeys(ks - {m});
      var r := [m] + rest;
      forall i, j | 0 <= i < j < |r|
        ensures r[i] < r[j]
      {
        assert r[j] == rest[j - 1] && rest[j - 1] in ks - {m};
        if i > 0 {
          assert r[i] == rest[i - 1];
        }
      }
      r
  }
}
