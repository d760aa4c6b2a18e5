/**
  The generic repository: get, create, update and remove over one entity
  type, each run against a caller-owned unit of work. Single-item writes
  stage one operation and commit it; batch writes stage every element first
  and commit once after the loop.
 */
module Crud {
  import opened Errors
  import opened Entity
  import opened Store
  import opened UnitOfWork
  import opened Query

  /** The id an entity is stored under, if it has one. An entity with a NULL id was never stored. */
  function Identity(e: Row): Option<int> {
    if IdField in e && e[IdField].VInt? then Some(e[IdField].i) else None
  }

  /** The filter `id == _id`. */
  function IdFilter(id: int): Filter {
    map[IdField := VInt(id)]
  }

  // ---------------------------------------------------------------- queries

  /** `get_by_id`: the first row whose `id` column equals `id`, or None. */
  function GetById(s: Session, id: int): (r: Option<Row>)
    ensures r.Some? ==> Stored(s.committed, r.value) && IdField in r.value && r.value[IdField] == VInt(id)
    ensures r.None? <==> forall k :: k in s.committed ==> !Matches(s.committed[k], IdFilter(id))
  {
    First(Select(Scan(s.committed), IdFilter(id)))
  }

  /**
    `get`: some stored row satisfying every equality in `filters`, or None
    when no row does. A filter on a column the entity type lacks is refused.
   */
  function Get(model: Descriptor, s: Session, filters: Filter): (r: Result<Option<Row>>)
    ensures r.Err? <==> !(filters.Keys <= model.Fields())
    ensures r.Err? ==> r.error == UnknownField
    ensures r.Ok? && r.value.Some? ==> Stored(s.committed, r.value.value) && Matches(r.value.value, filters)
    ensures r.Ok? ==> (r.value.None? <==> forall k :: k in s.committed ==> !Matches(s.committed[k], filters))
  {
    if !(filters.Keys <= model.Fields()) then Err(UnknownField)
    else Ok(First(Select(Scan(s.committed), filters)))
  }

  /** The filter `get_multi` applies: the one given, or none at all (the empty filter). */
  function Where(filters: Option<Filter>): Filter {
    if filters.Some? then filters.value else map[]
  }

  /**
    `get_multi`: the stored rows satisfying `filters` (all rows when there is
    no filter or it is empty), `skip` of them dropped, at most `limit` kept.
   */
  function GetMulti(model: Descriptor, s: Session, filters: Option<Filter>, skip: nat := 0, limit: nat := 100)
    : (r: Result<seq<Row>>)
    ensures r.Err? <==> filters.Some? && !(filters.value.Keys <= model.Fields())
    ensures r.Err? ==> r.error == UnknownField
    ensures r.Ok? ==>
      var m := MatchCount(s.committed, Where(filters));
      |r.value| == if skip >= m then 0 else Min(limit, m - skip)
    ensures r.Ok? ==> |r.value| <= limit
    ensures r.Ok? ==> forall x :: x in r.value ==> Stored(s.committed, x) && Matches(x, Where(filters))
    ensures r.Ok? && skip == 0 && |s.committed| <= limit ==>
      forall k :: k in s.committed && Matches(s.committed[k], Where(filters)) ==> s.committed[k] in r.value
  {
    var where := Where(filters);
    if !(where.Keys <= model.Fields()) then Err(UnknownField)
    else
      var matching := Select(Scan(s.committed), where);
      PageWithin(matching, skip, limit);
      PageAll(matching, limit);
      ScanSelectCount(s.committed, where);
      Ok(Page(matching, skip, limit))
  }

  // ------------------------------------------------------- staging helpers

  /**
    One element of an `update_multi` batch: the entity under `db_obj` and
    what to merge into it under `obj_in`; either key may be missing.
   */
  datatype Change = Change(entity: Option<Row>, input: Option<Input>) {

    /** The element holds both an entity and its update data. */
    predicate WellFormed() {
      entity.Some? && input.Some?
    }
  }

  /** The staged prefix of a batch and, when an element could not be staged, why. */
  datatype Staged = Staged(ops: seq<Op>, failure: Option<Error>)

  /**
    The loop of a batch write: stages the elements in order and stops at the
    first one that raises; the ones before it stay staged.
   */
  function StageAll<X>(xs: seq<X>, toOp: X -> Result<Op>): (r: Staged)
    ensures |r.ops| <= |xs|
    ensures r.failure.None? <==> forall i :: 0 <= i < |xs| ==> toOp(xs[i]).Ok?
    ensures r.failure.None? ==> |r.ops| == |xs|
    ensures forall i :: 0 <= i < |r.ops| ==> toOp(xs[i]).Ok? && r.ops[i] == toOp(xs[i]).value
    ensures r.failure.Some? ==> |r.ops| < |xs| && toOp(xs[|r.ops|]) == Err(r.failure.value)
  {
    if xs == [] then Staged([], None)
    else
      match toOp(xs[0])
      case Err(e) => Staged([], Some(e))
      case Ok(op) =>
        var rest := StageAll(xs[1..], toOp);
        Staged([op] + rest.ops, rest.failure)
  }

  /**
    `self.model(**jsonable_encoder(obj_in))`: a row with every column, those
    the input does not mention left NULL; a key that is not a column raises.
   */
  function NewRow(model: Descriptor, input: Input): (r: Result<Row>)
    ensures r.Ok? <==> CreateData(input).Keys <= model.Fields()
    ensures r.Err? ==> r.error == UnknownField
    ensures r.Ok? ==> model.Shaped(r.value)
    ensures r.Ok? ==> forall f :: f in r.value ==> r.value[f] == ColumnOf(CreateData(input), f)
  {
    var data := CreateData(input);
    if !(data.Keys <= model.Fields()) then Err(UnknownField)
    else Ok(map f | f in model.Fields() :: ColumnOf(data, f))
  }

  /** The staged INSERT for one create input. */
  function AddFor(model: Descriptor, input: Input): (r: Result<Op>)
    ensures r.Ok? <==> CreateData(input).Keys <= model.Fields()
    ensures r.Err? ==> r.error == UnknownField
    ensures r.Ok? ==> r.value.Add? && NewRow(model, input) == Ok(r.value.row)
  {
    match NewRow(model, input)
    case Err(e) => Err(e)
    case Ok(row) => Ok(Add(row))
  }

  /** The per-element step of `create_multi`. */
  function AddStep(model: Descriptor): (step: Input -> Result<Op>)
    ensures forall input :: step(input) == AddFor(model, input)
  {
    (input: Input) => AddFor(model, input)
  }

  /** The reference partial merge: a field named by the update data takes its value; every other keeps its own. */
  function Merge(e: Row, data: map<string, Value>): (r: Row)
    ensures r.Keys == e.Keys
  {
    map f | f in e :: if f in data then data[f] else e[f]
  }

  /**
    `set_data_for_update`: walks the entity's own fields and overwrites each
    one the update data names. A dictionary names all of its keys; a schema
    names only its explicitly set fields. Keys that are not entity fields are
    silently ignored, so the entity's field set never changes.
   */
  method SetDataForUpdate(e: Row, input: Input) returns (r: Row)
    ensures r.Keys == e.Keys
    ensures forall f :: f in e ==> r[f] == if f in UpdateData(input) then UpdateData(input)[f] else e[f]
    ensures r == Merge(e, UpdateData(input))
  {
    var updateData := UpdateData(input);
    r := e;
    var remaining := e.Keys;
    while remaining != {}
      invariant remaining <= e.Keys
      invariant r.Keys == e.Keys
      invariant forall f :: f in remaining ==> r[f] == e[f]
      invariant forall f :: f in e && f !in remaining ==> r[f] == if f in updateData then updateData[f] else e[f]
      decreases remaining
    {
      var f :| f in remaining;
      if f in updateData {
        r := r[f := updateData[f]];
      }
      remaining := remaining - {f};
    }
  }

  /**
    `set_data_for_update` as the code runs it: `jsonable_encoder(db_obj)`
    lists only the attributes loaded on the object, so the loop walks the
    `loaded` fields rather than every column. A commit expires every object
    in the session, after which none is loaded until it is read again.
   */
  function SetLoadedDataForUpdate(e: Row, loaded: set<string>, input: Input): (r: Row)
    ensures r.Keys == e.Keys
    ensures forall f :: f in e && f !in loaded ==> r[f] == e[f]
    ensures e.Keys <= loaded ==> r == Merge(e, UpdateData(input))
  {
    map f | f in e :: if f in loaded && f in UpdateData(input) then UpdateData(input)[f] else e[f]
  }

  /** The update issues a statement: the entity was never stored, or the merge changes it. */
  predicate IssuesWrite(e: Row, input: Input) {
    Identity(e).None? || Merge(e, UpdateData(input)) != e
  }

  /**
    The staged write for one update (`db.add` after the merge): a stored
    entity the merge changed is saved over its row, one the merge left as it
    was issues no statement, and one never stored is inserted.
   */
  function SaveFor(e: Row, input: Input): (r: Op)
    ensures Identity(e).Some? && IssuesWrite(e, input) ==> r == Save(Identity(e).value, Merge(e, UpdateData(input)))
    ensures !IssuesWrite(e, input) ==> r == Unchanged(Identity(e).value)
    ensures Identity(e).None? ==> r == Add(Merge(e, UpdateData(input)))
  {
    var merged := Merge(e, UpdateData(input));
    match Identity(e)
    case Some(k) => if merged == e then Unchanged(k) else Save(k, merged)
    case None => Add(merged)
  }

  /** `db.delete(db.query(model).get(_id))`: the lookup is by primary key; deleting nothing raises. */
  function DeleteById(stored: map<int, Row>, id: int): (r: Result<Op>)
    ensures r.Ok? <==> id in stored
    ensures r.Ok? ==> r.value == Delete(id)
    ensures r.Err? ==> r.error == MissingTarget
  {
    if id in stored then Ok(Delete(id)) else Err(MissingTarget)
  }

  /** The per-element step of `remove_multi_with_id`, looking ids up in `stored`. */
  function DeleteByIdStep(stored: map<int, Row>): (step: int -> Result<Op>)
    ensures forall id :: step(id) == DeleteById(stored, id)
  {
    (id: int) => DeleteById(stored, id)
  }

  /** `db.delete(obj)`: an entity that was never stored cannot be deleted. */
  function DeleteFor(e: Row): (r: Result<Op>)
    ensures r.Ok? <==> Identity(e).Some?
    ensures r.Ok? ==> r.value == Delete(Identity(e).value)
    ensures r.Err? ==> r.error == NotPersisted
  {
    match Identity(e)
    case Some(k) => Ok(Delete(k))
    case None => Err(NotPersisted)
  }

  /** The per-element step of `update_multi`: an element lacking its entity or its data raises. */
  function SaveStep(c: Change): (r: Result<Op>)
    ensures r.Ok? <==> c.WellFormed()
    ensures r.Ok? ==> r.value == SaveFor(c.entity.value, c.input.value)
    ensures r.Err? ==> r.error == MalformedChange
  {
    if c.WellFormed() then Ok(SaveFor(c.entity.value, c.input.value)) else Err(MalformedChange)
  }

  /** `db.refresh`: reloads the row stored under `k` after a commit. */
  function Refresh(s: Session, k: int): (r: Outcome<Row>)
    ensures r.session == s
    ensures r.Done? <==> k in s.committed
    ensures r.Done? ==> r.value == s.committed[k]
    ensures r.Failed? ==> r.error == RefreshFailed
  {
    if k in s.committed then Done(s, s.committed[k]) else Failed(s, RefreshFailed)
  }

  /**
    Stages one operation, commits, and reloads the row it names. Only an
    object added back unchanged can find its row gone at the reload.
   */
  function CommitAndRefresh(model: Descriptor, s: Session, op: Op): (r: Outcome<Row>)
    requires !op.Delete?
    ensures r.session.pending == []
    ensures r.Failed? ==> r.session.committed == s.committed || (op.Unchanged? && r.error == RefreshFailed)
    ensures r.Done? ==> r.session.clock == s.clock + 1
    ensures !op.Unchanged? ==> (r.Done? <==> Commit(model, Stage(s, [op])).Done?)
    ensures r.Done? ==>
      var before := ApplyOps(model, s.Storage(), s.pending, s.clock + 1);
      && before.Ok?
      && var step := ApplyOp(model, before.value.store, op, s.clock + 1);
      && step.Ok?
      && r.session.Storage() == step.value.store
      && step.value.key in r.session.committed
      && r.value == r.session.committed[step.value.key]
  {
    ApplyOpsSnoc(model, s.Storage(), s.pending, op, s.clock + 1);
    match Commit(model, Stage(s, [op]))
    case Failed(s', e) => Failed(s', e)
    case Done(s', keys) => Refresh(s', keys[|keys| - 1])
  }

  /**
    On a session with nothing else staged, the reload fails only when the
    single statement fails, reporting its error, or when an object added
    back unchanged has lost its row; the latter leaves the table as it was.
   */
  lemma CommitAndRefreshAlone(model: Descriptor, s: Session, op: Op)
    requires !op.Delete?
    ensures var r := CommitAndRefresh(model, s, op);
      s.pending == [] ==>
      && (op.Unchanged? ==>
            && r.session.committed == s.committed
            && (r.Done? <==> op.target in s.committed)
            && (r.Failed? ==> r.error == RefreshFailed))
      && (!op.Unchanged? ==>
            var step := ApplyOp(model, s.Storage(), op, s.clock + 1);
            && (r.Done? <==> step.Ok?)
            && (r.Failed? ==> r.error == step.error))
  {
    if s.pending == [] {
      CommitOne(model, s, op);
    }
  }

  /** When the staged write is an INSERT, the reloaded row is the one inserted, filled in by storage. */
  lemma RefreshedInsert(model: Descriptor, s: Session, op: Op)
    requires !op.Delete?
    ensures var r := CommitAndRefresh(model, s, op);
      op.Add? && r.Done? ==>
        && r.value.Keys == op.row.Keys + ServerFields
        && (forall f :: f in op.row && f !in ServerFields ==> r.value[f] == op.row[f])
        && r.value[CreatedAt] == Stamped(op.row, CreatedAt, s.clock + 1)
        && r.value[UpdatedAt] == Stamped(op.row, UpdatedAt, s.clock + 1)
  {
    var now := s.clock + 1;
    if op.Add? && CommitAndRefresh(model, s, op).Done? {
      var before := ApplyOps(model, s.Storage(), s.pending, now).value.store;
      InsertedColumns(op.row, ApplyOp(model, before, op, now).value.key, now);
    }
  }

  /** Staging one DELETE and committing removes that key; on a session with nothing else staged, only that key. */
  lemma CommitDelete(model: Descriptor, s: Session, id: int)
    ensures var r := Commit(model, Stage(s, [Delete(id)]));
      && (r.Done? ==> id !in r.session.committed)
      && (s.pending == [] ==> r.Done? && r.session.committed == s.committed - {id})
  {
    ApplyOpsSnoc(model, s.Storage(), s.pending, Delete(id), s.clock + 1);
  }

  // ---------------------------------------------------------------- writes

  /**
    `create`: materialises the input, stages it, commits, and returns the
    stored entity with its assigned id and timestamps.
   */
  function Create(model: Descriptor, s: Session, input: Input): (r: Outcome<Row>)
    ensures !(CreateData(input).Keys <= model.Fields()) ==> r == Failed(s, UnknownField)
    ensures r.Failed? ==> r.session.committed == s.committed
    ensures r.Done? ==> r.session.pending == [] && r.session.clock == s.clock + 1
    ensures r.Done? ==> model.Shaped(r.value)
    ensures r.Done? ==>
      && Identity(r.value).Some?
      && Identity(r.value).value in r.session.committed
      && r.session.committed[Identity(r.value).value] == r.value
    ensures r.Done? ==> forall f :: f in model.Fields() && f !in ServerFields ==> r.value[f] == ColumnOf(CreateData(input), f)
    ensures r.Done? ==> forall f :: f in {CreatedAt, UpdatedAt} ==>
      r.value[f] == if ColumnOf(CreateData(input), f) != VNull then CreateData(input)[f] else VTime(r.session.clock)
    ensures r.Done? && s.pending == [] ==>
      && Identity(r.value).value !in s.committed
      && r.session.committed == s.committed[Identity(r.value).value := r.value]
  {
    match AddFor(model, input)
    case Err(e) => Failed(s, e)
    case Ok(op) =>
      RefreshedInsert(model, s, op);
      CommitAndRefresh(model, s, op)
  }

  /**
    `create_multi`: stages every input, then commits once. An input that
    cannot be materialised raises before the commit, so nothing is durable.
   */
  function CreateMulti(model: Descriptor, s: Session, inputs: seq<Input>): (r: Outcome<()>)
    ensures (exists i :: 0 <= i < |inputs| && !(CreateData(inputs[i]).Keys <= model.Fields())) ==>
      r.Failed? && r.error == UnknownField
    ensures r.Failed? ==> r.session.committed == s.committed
    ensures r.Done? ==> r.session.pending == [] && r.session.clock == s.clock + 1
  {
    var staged := StageAll(inputs, AddStep(model));
    var s1 := Stage(s, staged.ops);
    if staged.failure.Some? then Failed(s1, staged.failure.value)
    else
      match Commit(model, s1)
      case Failed(s2, e) => Failed(s2, e)
      case Done(s2, _) => Done(s2, ())
  }

  /**
    `update`: merges the input into the entity, adds it back to the session,
    commits, and returns the reloaded row. A merge that changes nothing
    issues no statement, so the reload alone finds out whether the row is
    still there.
   */
  function Update(model: Descriptor, s: Session, e: Row, input: Input): (r: Outcome<Row>)
    ensures r.Failed? && r.error != RefreshFailed ==> r.session.committed == s.committed
    ensures r.Done? ==> r.session.pending == [] && r.session.clock == s.clock + 1
    ensures r.Done? && IssuesWrite(e, input) ==> forall f :: f in e && f !in ServerFields ==>
      f in r.value && r.value[f] == if f in UpdateData(input) then UpdateData(input)[f] else e[f]
    ensures r.Done? && IssuesWrite(e, input) && Identity(e).Some? && IdField !in UpdateData(input) ==>
      Identity(r.value) == Identity(e)
    ensures r.Done? && IssuesWrite(e, input) && CreatedAt in e && e[CreatedAt] != VNull && CreatedAt !in UpdateData(input) ==>
      CreatedAt in r.value && r.value[CreatedAt] == e[CreatedAt]
    ensures r.Done? && Identity(e).Some? && IdField !in UpdateData(input) ==>
      Identity(e).value in r.session.committed && r.value == r.session.committed[Identity(e).value]
    ensures s.pending == [] && !IssuesWrite(e, input) ==> r.session.committed == s.committed
    ensures s.pending == [] && Identity(e).Some? && Identity(e).value !in s.committed ==>
      r.Failed? && r.error == if IssuesWrite(e, input) then StaleData else RefreshFailed
  {
    var op := SaveFor(e, input);
    assert s.pending == [] && Identity(e).Some? && Identity(e).value !in s.committed && IssuesWrite(e, input) ==>
      Overwrite(model, s.Storage(), Identity(e).value, op.row, s.clock + 1) == Err(StaleData);
    RefreshedInsert(model, s, op);
    CommitAndRefreshAlone(model, s, op);
    CommitAndRefresh(model, s, op)
  }

  /**
    `update_multi`: merges and adds back every change, then commits once. An
    element lacking its entity or its data raises before the commit, the
    changes before it staying staged.
   */
  function UpdateMulti(model: Descriptor, s: Session, changes: seq<Change>): (r: Outcome<()>)
    ensures (exists i :: 0 <= i < |changes| && !changes[i].WellFormed()) ==> r.Failed? && r.error == MalformedChange
    ensures r.Failed? ==> r.session.committed == s.committed
    ensures r.Done? ==> r.session.pending == [] && r.session.clock == s.clock + 1
  {
    var staged := StageAll(changes, SaveStep);
    var s1 := Stage(s, staged.ops);
    if staged.failure.Some? then Failed(s1, staged.failure.value)
    else
      match Commit(model, s1)
      case Failed(s2, e) => Failed(s2, e)
      case Done(s2, _) => Done(s2, ())
  }

  /**
    `remove_with_id`: looks the id up, deletes what it found, commits, and
    returns the entity as it was. There is no existence guard: a missing id
    means deleting nothing, which raises.
   */
  function RemoveWithId(model: Descriptor, s: Session, id: int): (r: Outcome<Row>)
    ensures id !in s.committed ==> r == Failed(s, MissingTarget)
    ensures r.Failed? ==> r.session.committed == s.committed
    ensures r.Done? ==> id in s.committed && r.value == s.committed[id] && id !in r.session.committed
    ensures r.Done? ==> r.session.pending == [] && r.session.clock == s.clock + 1
    ensures r.Done? && s.pending == [] ==> r.session.committed == s.committed - {id}
    ensures s.pending == [] && id in s.committed ==> r.Done?
  {
    match DeleteById(s.committed, id)
    case Err(e) => Failed(s, e)
    case Ok(op) =>
      CommitDelete(model, s, id);
      match Commit(model, Stage(s, [op]))
      case Failed(s', e) => Failed(s', e)
      case Done(s', _) => Done(s', s.committed[id])
  }

  /**
    `remove_multi_with_id`: looks up and stages a delete for every id, then
    commits once. The first missing id raises before the commit.
   */
  function RemoveMultiWithId(model: Descriptor, s: Session, ids: seq<int>): (r: Outcome<()>)
    ensures (exists i :: 0 <= i < |ids| && ids[i] !in s.committed) ==> r.Failed? && r.error == MissingTarget
    ensures r.Failed? ==> r.session.committed == s.committed
    ensures r.Done? ==> r.session.pending == [] && r.session.clock == s.clock + 1
    ensures r.Done? ==> forall i :: 0 <= i < |ids| ==> ids[i] in s.committed
  {
    var staged := StageAll(ids, DeleteByIdStep(s.committed));
    var s1 := Stage(s, staged.ops);
    if staged.failure.Some? then Failed(s1, staged.failure.value)
    else
      match Commit(model, s1)
      case Failed(s2, e) => Failed(s2, e)
      case Done(s2, _) => Done(s2, ())
  }

  /**
    `remove`: stages a delete for the entity, commits, and returns it. An
    entity that was never stored raises; one whose row is already gone is
    deleted without complaint (the DELETE matches no row).
   */
  function Remove(model: Descriptor, s: Session, e: Row): (r: Outcome<Row>)
    ensures Identity(e).None? ==> r == Failed(s, NotPersisted)
    ensures r.Failed? ==> r.session.committed == s.committed
    ensures r.Done? ==> r.value == e && Identity(e).Some? && Identity(e).value !in r.session.committed
    ensures r.Done? ==> r.session.pending == [] && r.session.clock == s.clock + 1
    ensures r.Done? && s.pending == [] ==> r.session.committed == s.committed - {Identity(e).value}
    ensures s.pending == [] && Identity(e).Some? ==> r.Done?
  {
    match DeleteFor(e)
    case Err(err) => Failed(s, err)
    case Ok(op) =>
      CommitDelete(model, s, op.target);
      match Commit(model, Stage(s, [op]))
      case Failed(s', err) => Failed(s', err)
      case Done(s', _) => Done(s', e)
  }

  /** `remove_multi`: stages a delete for every entity, then commits once. */
  function RemoveMulti(model: Descriptor, s: Session, es: seq<Row>): (r: Outcome<()>)
    ensures (exists i :: 0 <= i < |es| && Identity(es[i]).None?) ==> r.Failed? && r.error == NotPersisted
    ensures r.Failed? ==> r.session.committed == s.committed
    ensures r.Done? ==> r.session.pending == [] && r.session.clock == s.clock + 1
  {
    var staged := StageAll(es, DeleteFor);
    var s1 := Stage(s, staged.ops);
    if staged.failure.Some? then Failed(s1, staged.failure.value)
    else
      match Commit(model, s1)
      case Failed(s2, e) => Failed(s2, e)
      case Done(s2, _) => Done(s2, ())
  }
}
