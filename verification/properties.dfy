/**
  What the repository promises across calls: lookups after writes, the
  partial-update merge, the timestamps an update leaves, and the all-or-
  nothing effect of the batch writes.
 */
module CrudProperties {
  import opened Errors
  import opened Entity
  import opened Store
  import opened UnitOfWork
  import opened Query
  import opened Crud

  // ------------------------------------------------------------ session validity

  /** Staging rows of the entity type's shape and committing keeps the session invariant. */
  lemma StageCommitValid(d: Descriptor, s: Session, ops: seq<Op>)
    requires ValidSession(d, s)
    requires forall i :: 0 <= i < |ops| ==> OpShaped(d, ops[i])
    ensures ValidSession(d, Commit(d, Stage(s, ops)).session)
  {
    var s1 := Stage(s, ops);
    assert forall i :: 0 <= i < |s1.pending| ==> OpShaped(d, s1.pending[i]) by {
      forall i | 0 <= i < |s1.pending|
        ensures OpShaped(d, s1.pending[i])
      {
        if i >= |s.pending| {
          assert s1.pending[i] == ops[i - |s.pending|];
        }
      }
    }
    CommitPreservesValid(d, s1);
  }

  // ---------------------------------------------------------------- lookups

  /** On a valid session, `get_by_id` is the primary-key lookup: the row stored under `id`, or None. */
  lemma GetByIdFindsStoredRow(d: Descriptor, s: Session, id: int)
    requires ValidSession(d, s)
    ensures GetById(s, id) == if id in s.committed then Some(s.committed[id]) else None
  {
    var r := GetById(s, id);
    if id in s.committed {
      assert Matches(s.committed[id], IdFilter(id));
      var x := r.value;
      var k :| k in s.committed && s.committed[k] == x;
      assert s.committed[k][IdField] == VInt(k);
    } else {
      forall k | k in s.committed
        ensures !Matches(s.committed[k], IdFilter(id))
      {
        assert s.committed[k][IdField] == VInt(k);
      }
    }
  }

  /**
    `db.refresh` on a valid session re-reads what `get_by_id` finds: it
    succeeds exactly when the lookup finds a row, returns that row, and
    otherwise fails with RefreshFailed.
   */
  lemma RefreshIsGetById(d: Descriptor, s: Session, k: int)
    requires ValidSession(d, s)
    ensures var r := Refresh(s, k);
      && (r.Done? <==> GetById(s, k).Some?)
      && (r.Done? ==> GetById(s, k) == Some(r.value))
      && (r.Failed? ==> r.error == RefreshFailed)
  {
    GetByIdFindsStoredRow(d, s, k);
  }

  /**
    The lookup-then-delete of `remove_with_id` on a valid session: a DELETE
    is staged exactly when `get_by_id` finds a row, and it targets the key
    that row's `id` names; otherwise the `None` found cannot be deleted.
   */
  lemma DeleteByIdDeletesFound(d: Descriptor, s: Session, id: int)
    requires ValidSession(d, s)
    ensures var r := DeleteById(s.committed, id);
      && (r.Ok? <==> GetById(s, id).Some?)
      && (r.Ok? ==> r.value == Delete(Identity(GetById(s, id).value).value))
      && (r.Err? ==> r.error == MissingTarget)
  {
    GetByIdFindsStoredRow(d, s, id);
  }

  // ----------------------------------------------------------------- create

  /** The filter that asks for exactly the non-server values an input supplies. */
  function InputFilter(input: Input): Filter {
    map f | f in CreateData(input) && f !in ServerFields :: CreateData(input)[f]
  }

  /** A created entity matches the values its input supplied. */
  lemma CreateMatchesItsInput(d: Descriptor, s: Session, input: Input)
    ensures Create(d, s, input).Done? ==> Matches(Create(d, s, input).value, InputFilter(input))
  {
    var r := Create(d, s, input);
    if r.Done? {
      forall f | f in InputFilter(input)
        ensures f in r.value && r.value[f] == InputFilter(input)[f]
      {
        assert f in d.Fields();
        assert r.value[f] == ColumnOf(CreateData(input), f);
      }
    }
  }

  /** `get_by_id` of the id `create` returned yields the created entity. */
  lemma CreateThenGetById(d: Descriptor, s: Session, input: Input)
    requires ValidSession(d, s)
    ensures var r := Create(d, s, input);
      r.Done? ==> GetById(r.session, Identity(r.value).value) == Some(r.value)
  {
    var r := Create(d, s, input);
    if r.Done? {
      var op := AddFor(d, input).value;
      StageCommitValid(d, s, [op]);
      GetByIdFindsStoredRow(d, r.session, Identity(r.value).value);
    }
  }

  /** When exactly one stored row satisfies a filter on known columns, `get` returns that row. */
  lemma GetFindsUniqueMatch(d: Descriptor, s: Session, filters: Filter, x: Row)
    requires filters.Keys <= d.Fields()
    requires Stored(s.committed, x) && Matches(x, filters)
    requires forall y :: Stored(s.committed, y) && Matches(y, filters) ==> y == x
    ensures Get(d, s, filters) == Ok(Some(x))
  {
    var k :| k in s.committed && s.committed[k] == x;
    assert Get(d, s, filters).value.Some?;
  }

  /**
    On a session with nothing staged, when no stored row satisfied a filter
    that the created entity satisfies, `get` with that filter afterwards
    returns the created entity.
   */
  lemma CreateThenGet(d: Descriptor, s: Session, input: Input, filters: Filter)
    requires s.pending == []
    requires filters.Keys <= d.Fields()
    requires forall k :: k in s.committed ==> !Matches(s.committed[k], filters)
    ensures var r := Create(d, s, input);
      r.Done? && Matches(r.value, filters) ==> Get(d, r.session, filters) == Ok(Some(r.value))
  {
    var r := Create(d, s, input);
    if r.Done? && Matches(r.value, filters) {
      var after := r.session.committed;
      forall y | Stored(after, y) && Matches(y, filters)
        ensures y == r.value
      {
        var k :| k in after && after[k] == y;
      }
      GetFindsUniqueMatch(d, r.session, filters, r.value);
    }
  }

  /** Every NOT NULL column storage does not fill is given a value by the create input. */
  predicate FillsRequired(d: Descriptor, input: Input) {
    forall f :: f in d.required && f in d.Fields() && f !in ServerFields ==> ColumnOf(CreateData(input), f) != VNull
  }

  /** The materialised row fills the NOT NULL columns exactly when its input does, and carries the input's `id`. */
  lemma NewRowFills(d: Descriptor, input: Input)
    requires NewRow(d, input).Ok?
    ensures FillsNotNull(d, NewRow(d, input).value) <==> FillsRequired(d, input)
    ensures ColumnOf(NewRow(d, input).value, IdField) == ColumnOf(CreateData(input), IdField)
  {
    var row := NewRow(d, input).value;
    assert row.Keys == d.Fields();
  }

  /**
    On a valid session with nothing staged, a `create` whose input leaves
    `id` unset succeeds exactly when the input names only columns and fills
    every NOT NULL column the storage does not fill itself.
   */
  lemma CreateSucceedsIff(d: Descriptor, s: Session, input: Input)
    requires Valid(d, s.Storage()) && s.pending == []
    requires ColumnOf(CreateData(input), IdField) == VNull
    ensures Create(d, s, input).Done? <==> CreateData(input).Keys <= d.Fields() && FillsRequired(d, input)
  {
    var op := AddFor(d, input);
    if op.Ok? {
      NewRowFills(d, input);
      CommitAndRefreshAlone(d, s, op.value);
      NullIdInsert(d, s.Storage(), op.value.row, s.clock + 1);
    }
  }

  // ----------------------------------------------------------------- update

  /** An in-place UPDATE committed alone and reloaded: the reloaded row is the written row with `updated_at` stamped, and it replaces the stored one. */
  lemma RefreshedSave(d: Descriptor, s: Session, k: int, row: Row)
    requires s.pending == [] && IdField in row && row[IdField] == VInt(k)
    ensures var r := CommitAndRefresh(d, s, Save(k, row));
      r.Done? ==>
        && k in s.committed
        && r.session.clock == s.clock + 1
        && r.value == Touched(s.committed[k], row, s.clock + 1)
        && r.session.committed == s.committed[k := r.value]
  {
    CommitAndRefreshAlone(d, s, Save(k, row));
    if CommitAndRefresh(d, s, Save(k, row)).Done? {
      CommitOne(d, s, Save(k, row));
      OverwriteInPlace(d, s.Storage(), k, row, s.clock + 1);
    }
  }

  /**
    An update that changes the stored entity and names neither `id` nor
    `updated_at` keeps the entity under its key, stamps `updated_at` with the
    commit's (later) clock tick, and leaves every other row alone.
   */
  lemma UpdateStampsUpdatedAt(d: Descriptor, s: Session, k: int, input: Input)
    requires s.pending == [] && k in s.committed && Identity(s.committed[k]) == Some(k)
    requires IdField !in UpdateData(input) && UpdatedAt !in UpdateData(input)
    requires Merge(s.committed[k], UpdateData(input)) != s.committed[k]
    ensures var r := Update(d, s, s.committed[k], input);
      r.Done? ==>
        && r.session.clock > s.clock
        && r.value[UpdatedAt] == VTime(r.session.clock)
        && r.session.committed == s.committed[k := r.value]
  {
    var e := s.committed[k];
    var merged := Merge(e, UpdateData(input));
    assert SaveFor(e, input) == Save(k, merged);
    RefreshedSave(d, s, k, merged);
    assert UpdatedAt in merged ==> merged[UpdatedAt] == e[UpdatedAt];
  }

  /**
    An update of a stored entity whose merge changes nothing issues no
    statement: it succeeds, returns the entity as stored, and leaves the
    table (and `updated_at`) as it was.
   */
  lemma UpdateWithoutChangeIsNoOp(d: Descriptor, s: Session, k: int, input: Input)
    requires s.pending == [] && k in s.committed && Identity(s.committed[k]) == Some(k)
    requires Merge(s.committed[k], UpdateData(input)) == s.committed[k]
    ensures var r := Update(d, s, s.committed[k], input);
      && r.Done?
      && r.value == s.committed[k]
      && r.session.committed == s.committed
  {
    assert SaveFor(s.committed[k], input) == Unchanged(k);
    CommitAndRefreshAlone(d, s, Unchanged(k));
  }

  /**
    On a session with nothing staged, an update of a stored entity that does
    not name `id` succeeds exactly when it issues no statement, or when the
    merged entity, its `updated_at` stamped, fills every NOT NULL column.
   */
  lemma UpdateSucceedsIff(d: Descriptor, s: Session, e: Row, input: Input)
    requires s.pending == [] && Identity(e).Some? && Identity(e).value in s.committed
    requires IdField !in UpdateData(input)
    ensures Update(d, s, e, input).Done? <==>
      !IssuesWrite(e, input) || UpdateFillsNotNull(d, s.committed[Identity(e).value], Merge(e, UpdateData(input)))
  {
    var k, merged := Identity(e).value, Merge(e, UpdateData(input));
    CommitAndRefreshAlone(d, s, SaveFor(e, input));
    if IssuesWrite(e, input) {
      assert merged[IdField] == VInt(k);
      CommitOne(d, s, Save(k, merged));
    }
  }

  // ------------------------------------------------------------------ merge

  /**
    A schema input writes exactly its explicitly set fields: an unset field
    keeps the entity's value even when the schema holds a default for it.
   */
  lemma SchemaWritesOnlyExplicitFields(e: Row, values: map<string, Value>, explicit: set<string>)
    ensures var r := Merge(e, UpdateData(Schema(values, explicit)));
      forall f :: f in e ==> r[f] == if f in explicit && f in values then values[f] else e[f]
  {
  }

  /** A dictionary input writes every entity field it names. */
  lemma DictWritesNamedFields(e: Row, data: map<string, Value>)
    ensures var r := Merge(e, UpdateData(Dict(data)));
      forall f :: f in e ==> r[f] == if f in data then data[f] else e[f]
  {
  }

  /** Keys of the update data that are not fields of the entity have no effect at all. */
  lemma MergeIgnoresForeignKeys(e: Row, data: map<string, Value>)
    ensures Merge(e, data) == Merge(e, map f | f in data && f in e :: data[f])
  {
  }

  /** Merging the same data twice is merging it once. */
  lemma MergeIdempotent(e: Row, data: map<string, Value>)
    ensures Merge(Merge(e, data), data) == Merge(e, data)
  {
  }

  /** Two merges in a row are one merge of the combined data, the later value winning. */
  lemma MergeLaterWins(e: Row, a: map<string, Value>, b: map<string, Value>)
    ensures Merge(Merge(e, a), b) == Merge(e, a + b)
  {
  }

  /**
    An entity that an earlier commit expired takes none of its update: the
    loop over its loaded attributes finds none, so `name` keeps "a" although
    the data says "b", and the update issues no statement. Merging over every
    column, as `SetDataForUpdate` does, writes "b".
   */
  lemma ExpiredEntityIgnoresUpdate()
    ensures var e := map[IdField := VInt(1), "name" := VStr("a")];
      var input := Dict(map["name" := VStr("b")]);
      && SetLoadedDataForUpdate(e, {}, input) == e
      && IssuesWrite(e, input)
      && Merge(e, UpdateData(input))["name"] == VStr("b")
  {
    var e := map[IdField := VInt(1), "name" := VStr("a")];
    var input := Dict(map["name" := VStr("b")]);
    assert Merge(e, UpdateData(input))["name"] == VStr("b");
  }

  // ----------------------------------------------------------------- remove

  /** `remove_with_id` on a valid session returns the entity `get_by_id` found under that id. */
  lemma RemoveWithIdReturnsFoundEntity(d: Descriptor, s: Session, id: int)
    requires ValidSession(d, s)
    ensures var r := RemoveWithId(d, s, id);
      r.Done? ==> GetById(s, id) == Some(r.value)
  {
    GetByIdFindsStoredRow(d, s, id);
  }

  /** On a valid session, after a `remove_with_id` that succeeds, `get_by_id` of that id finds nothing. */
  lemma RemoveWithIdThenGetByIdIsNone(d: Descriptor, s: Session, id: int)
    requires ValidSession(d, s)
    ensures var r := RemoveWithId(d, s, id);
      r.Done? ==> GetById(r.session, id) == None
  {
    var r := RemoveWithId(d, s, id);
    if r.Done? {
      var c := Commit(d, Stage(s, [Delete(id)]));
      assert r.session == c.session;
      StageCommitValid(d, s, [Delete(id)]);
      GetByIdFindsStoredRow(d, c.session, id);
    }
  }

  /**
    Removing the same id twice: on a session with nothing staged the first
    call succeeds exactly when the id is stored, and the second always fails,
    changing nothing.
   */
  lemma RemoveWithIdTwiceFails(d: Descriptor, s: Session, id: int)
    requires s.pending == []
    ensures RemoveWithId(d, s, id).Done? <==> id in s.committed
    ensures var r := RemoveWithId(d, s, id);
      r.Done? ==> RemoveWithId(d, r.session, id) == Failed(r.session, MissingTarget)
  {
  }

  /** `remove` on a valid session: afterwards `get_by_id` of the entity's id finds nothing. */
  lemma RemoveThenGetByIdIsNone(d: Descriptor, s: Session, e: Row)
    requires ValidSession(d, s)
    ensures var r := Remove(d, s, e);
      r.Done? ==> GetById(r.session, Identity(e).value) == None
  {
    var r := Remove(d, s, e);
    if r.Done? {
      StageCommitValid(d, s, [Delete(Identity(e).value)]);
      GetByIdFindsStoredRow(d, r.session, Identity(e).value);
    }
  }

  // ---------------------------------------------------------- batch removes

  /** The DELETEs a run of ids stages, in order. */
  function DeletesOf(ids: seq<int>): (ops: seq<Op>)
    ensures |ops| == |ids|
    ensures forall i :: 0 <= i < |ids| ==> ops[i] == Delete(ids[i])
  {
    seq(|ids|, i requires 0 <= i < |ids| => Delete(ids[i]))
  }

  /** Staging deletes by id succeeds exactly when every id is stored, and stages one delete per id. */
  lemma StagedDeletesById(stored: map<int, Row>, ids: seq<int>)
    ensures var staged := StageAll(ids, DeleteByIdStep(stored));
      && (staged.failure.None? <==> forall i :: 0 <= i < |ids| ==> ids[i] in stored)
      && (staged.failure.None? ==> staged.ops == DeletesOf(ids))
  {
    var step := DeleteByIdStep(stored);
    var staged := StageAll(ids, step);
    forall i | 0 <= i < |ids|
      ensures step(ids[i]).Ok? <==> ids[i] in stored
    {
      assert step(ids[i]) == DeleteById(stored, ids[i]);
    }
    if staged.failure.None? {
      var want := DeletesOf(ids);
      forall i | 0 <= i < |ids|
        ensures staged.ops[i] == want[i]
      {
        assert step(ids[i]) == DeleteById(stored, ids[i]);
      }
      assert staged.ops == want;
    }
  }

  /** Committing a run of deletes staged on a session with nothing else staged always succeeds. */
  lemma CommitDeletes(d: Descriptor, s: Session, ops: seq<Op>)
    requires s.pending == []
    requires forall i :: 0 <= i < |ops| ==> ops[i].Delete?
    ensures var c := Commit(d, Stage(s, ops));
      c.Done? && DeletesApplied(s.committed, c.session.committed, ops)
  {
    var st, s1 := s.Storage(), Stage(s, ops);
    assert s1.pending == ops && s1.Storage() == st && st.rows == s.committed;
    DeletesRemoveTargets(d, st, ops, s.clock + 1);
    var after := ApplyOps(d, st, ops, s.clock + 1).value.store;
    assert DeletesApplied(st.rows, after.rows, ops);
    assert Commit(d, s1).session.committed == after.rows;
  }

  /**
    `remove_multi_with_id` on a session with nothing staged succeeds exactly
    when every id is stored.
   */
  lemma RemoveMultiWithIdSucceedsIff(d: Descriptor, s: Session, ids: seq<int>)
    requires s.pending == []
    ensures RemoveMultiWithId(d, s, ids).Done? <==> forall i :: 0 <= i < |ids| ==> ids[i] in s.committed
  {
    StagedDeletesById(s.committed, ids);
    var staged := StageAll(ids, DeleteByIdStep(s.committed));
    if staged.failure.None? {
      CommitDeletes(d, s, staged.ops);
    }
  }

  /** Committing the deletes of a run of ids removes exactly those ids. */
  lemma CommitDeletesOf(d: Descriptor, s: Session, ids: seq<int>)
    requires s.pending == []
    ensures var c := Commit(d, Stage(s, DeletesOf(ids)));
      && c.Done?
      && (forall k :: k in c.session.committed <==> k in s.committed && k !in ids)
      && (forall k :: k in c.session.committed ==> c.session.committed[k] == s.committed[k])
  {
    var ops := DeletesOf(ids);
    CommitDeletes(d, s, ops);
    var after := Commit(d, Stage(s, ops)).session.committed;
    assert forall i :: 0 <= i < |ids| ==> ops[i].target == ids[i];
    forall k
      ensures k in after <==> k in s.committed && k !in ids
    {
      if k !in after && k in s.committed {
        var i :| 0 <= i < |ops| && ops[i].target == k;
        assert ids[i] == k;
      }
    }
  }

  /**
    A `remove_multi_with_id` that succeeds removes exactly the rows under
    the given ids in one commit and leaves every other row as it was.
   */
  lemma RemoveMultiWithIdDeletesAll(d: Descriptor, s: Session, ids: seq<int>)
    requires s.pending == []
    ensures var r := RemoveMultiWithId(d, s, ids);
      r.Done? ==>
        && (forall k :: k in r.session.committed <==> k in s.committed && k !in ids)
        && (forall k :: k in r.session.committed ==> r.session.committed[k] == s.committed[k])
  {
    StagedDeletesById(s.committed, ids);
    if StageAll(ids, DeleteByIdStep(s.committed)).failure.None? {
      CommitDeletesOf(d, s, ids);
      assert RemoveMultiWithId(d, s, ids).session == Commit(d, Stage(s, DeletesOf(ids))).session;
    }
  }

  /** Staging deletes keeps the session invariant. */
  lemma StageDeletesValid(d: Descriptor, s: Session, ops: seq<Op>)
    requires ValidSession(d, s)
    requires forall i :: 0 <= i < |ops| ==> ops[i].Delete?
    ensures ValidSession(d, Stage(s, ops))
    ensures ValidSession(d, Commit(d, Stage(s, ops)).session)
  {
    assert forall i :: 0 <= i < |ops| ==> OpShaped(d, ops[i]);
    StageCommitValid(d, s, ops);
    var s1 := Stage(s, ops);
    forall i | 0 <= i < |s1.pending|
      ensures OpShaped(d, s1.pending[i])
    {
      if i >= |s.pending| {
        assert s1.pending[i] == ops[i - |s.pending|];
      }
    }
  }

  /** `remove_multi_with_id` keeps the session invariant, whether it succeeds or not. */
  lemma RemoveMultiWithIdPreservesValid(d: Descriptor, s: Session, ids: seq<int>)
    requires ValidSession(d, s)
    ensures ValidSession(d, RemoveMultiWithId(d, s, ids).session)
  {
    var staged := StageAll(ids, DeleteByIdStep(s.committed));
    assert forall i :: 0 <= i < |staged.ops| ==> staged.ops[i].Delete?;
    StageDeletesValid(d, s, staged.ops);
  }

  /** Whatever was staged before them, a run of deletes that commits leaves none of its targets stored. */
  lemma CommitRemovesDeleted(d: Descriptor, s: Session, ops: seq<Op>)
    requires forall i :: 0 <= i < |ops| ==> ops[i].Delete?
    ensures var c := Commit(d, Stage(s, ops));
      c.Done? ==> forall i :: 0 <= i < |ops| ==> ops[i].target !in c.session.committed
  {
    var now, st := s.clock + 1, s.Storage();
    assert Stage(s, ops).Storage() == st && Stage(s, ops).pending == s.pending + ops;
    ApplyOpsAppend(d, st, s.pending, ops, now);
    var a := ApplyOps(d, st, s.pending, now);
    if a.Ok? {
      DeletesRemoveTargets(d, a.value.store, ops, now);
    }
  }

  /** On a valid session, after a `remove_multi_with_id` that succeeds, `get_by_id` finds none of the ids. */
  lemma RemoveMultiWithIdThenGetByIdIsNone(d: Descriptor, s: Session, ids: seq<int>)
    requires ValidSession(d, s)
    ensures var r := RemoveMultiWithId(d, s, ids);
      r.Done? ==> forall i :: 0 <= i < |ids| ==> GetById(r.session, ids[i]) == None
  {
    var r := RemoveMultiWithId(d, s, ids);
    RemoveMultiWithIdPreservesValid(d, s, ids);
    StagedDeletesById(s.committed, ids);
    if r.Done? {
      var ops := DeletesOf(ids);
      CommitRemovesDeleted(d, s, ops);
      assert r.session == Commit(d, Stage(s, ops)).session;
      forall i | 0 <= i < |ids|
        ensures GetById(r.session, ids[i]) == None
      {
        assert ops[i].target == ids[i];
        GetByIdFindsStoredRow(d, r.session, ids[i]);
      }
    }
  }

  /**
    When `remove_multi_with_id` meets a missing id, the deletes staged for
    the ids before it are not rolled back: the call fails and the table is
    unchanged, but those deletes stay staged, and the caller's next commit
    on the same session carries them out: it removes exactly the ids before
    the missing one and leaves every other row as it was.
   */
  lemma RemoveMultiWithIdLeavesPrefixStaged(d: Descriptor, s: Session, ids: seq<int>, n: nat)
    requires s.pending == []
    requires n < |ids| && ids[n] !in s.committed
    requires forall i :: 0 <= i < n ==> ids[i] in s.committed
    ensures var r := RemoveMultiWithId(d, s, ids);
      && r == Failed(s.(pending := DeletesOf(ids[..n])), MissingTarget)
      && Commit(d, r.session).Done?
      && var after := Commit(d, r.session).session.committed;
      && (forall k :: k in after <==> k in s.committed && k !in ids[..n])
      && (forall k :: k in after ==> after[k] == s.committed[k])
  {
    var prefix := DeletesOf(ids[..n]);
    StagedDeletesByIdUpTo(s.committed, ids, n);
    assert Stage(s, prefix) == s.(pending := prefix);
    CommitDeletesOf(d, s, ids[..n]);
  }

  /** Staging deletes by id stops at the first missing id, with one delete staged for each id before it. */
  lemma StagedDeletesByIdUpTo(stored: map<int, Row>, ids: seq<int>, n: nat)
    requires n < |ids| && ids[n] !in stored
    requires forall i :: 0 <= i < n ==> ids[i] in stored
    ensures StageAll(ids, DeleteByIdStep(stored)) == Staged(DeletesOf(ids[..n]), Some(MissingTarget))
  {
    var step := DeleteByIdStep(stored);
    var staged := StageAll(ids, step);
    var m := |staged.ops|;
    assert step(ids[n]) == Err(MissingTarget);
    assert forall i :: 0 <= i < |ids| ==> step(ids[i]) == DeleteById(stored, ids[i]);
    assert staged.failure.Some?;
    assert m == n;
    var want := DeletesOf(ids[..n]);
    forall i | 0 <= i < n
      ensures staged.ops[i] == want[i]
    {
      assert step(ids[i]) == DeleteById(stored, ids[i]);
    }
    assert staged.ops == want;
  }

  /** Staging deletes of entities succeeds exactly when every entity has an id, and stages a delete of each. */
  lemma StagedDeletesOfEntities(es: seq<Row>)
    ensures var staged := StageAll(es, DeleteFor);
      && (staged.failure.None? <==> forall i :: 0 <= i < |es| ==> Identity(es[i]).Some?)
      && (staged.failure.None? ==> |staged.ops| == |es| && forall i :: 0 <= i < |es| ==> staged.ops[i] == Delete(Identity(es[i]).value))
  {
  }

  /**
    `remove_multi` on a session with nothing staged succeeds exactly when
    every entity was stored at some point; it then removes the rows under
    all of their ids in one commit and leaves every other row as it was.
   */
  lemma RemoveMultiDeletesAll(d: Descriptor, s: Session, es: seq<Row>)
    requires s.pending == []
    ensures var r := RemoveMulti(d, s, es);
      && (r.Done? <==> forall i :: 0 <= i < |es| ==> Identity(es[i]).Some?)
      && (r.Done? ==> forall k :: k in r.session.committed <==> k in s.committed && forall i :: 0 <= i < |es| ==> Identity(es[i]) != Some(k))
      && (r.Done? ==> forall k :: k in r.session.committed ==> r.session.committed[k] == s.committed[k])
  {
    StagedDeletesOfEntities(es);
    var staged := StageAll(es, DeleteFor);
    if staged.failure.None? {
      CommitDeletes(d, s, staged.ops);
      var c := Commit(d, Stage(s, staged.ops));
      assert RemoveMulti(d, s, es) == Done(c.session, ());
    }
  }

  // ------------------------------------------------------------ batch create

  /**
    `keys` records a `create_multi` of `inputs`: one fresh, distinct key per
    input, each holding a row whose own columns are that input's values,
    and no key besides those and the ones stored before.
   */
  predicate CreatedAll(d: Descriptor, before: map<int, Row>, after: map<int, Row>, inputs: seq<Input>, keys: seq<int>) {
    && |keys| == |inputs|
    && (forall k :: k in after ==> k in before || k in keys)
    && (forall i, j :: 0 <= i < j < |keys| ==> keys[i] != keys[j])
    && forall i :: 0 <= i < |keys| ==>
         && keys[i] !in before
         && keys[i] in after
         && forall f :: f in d.Fields() && f !in ServerFields ==>
              f in after[keys[i]] && after[keys[i]][f] == ColumnOf(CreateData(inputs[i]), f)
  }

  /** Staging creates succeeds exactly when every input names only columns, and stages one INSERT per input. */
  lemma StagedAdds(d: Descriptor, inputs: seq<Input>)
    ensures var staged := StageAll(inputs, AddStep(d));
      && (staged.failure.None? <==> forall i :: 0 <= i < |inputs| ==> CreateData(inputs[i]).Keys <= d.Fields())
      && (staged.failure.None? ==> |staged.ops| == |inputs| && forall i :: 0 <= i < |inputs| ==> staged.ops[i] == Add(NewRow(d, inputs[i]).value))
  {
  }

  /**
    `after` records a run of INSERTs `ops` over `before` that reported `keys`:
    every row stored before is kept, the keys are fresh, distinct, and
    each holds its row as inserted at `now`, and no other key appears.
   */
  predicate AddsApplied(before: map<int, Row>, after: map<int, Row>, ops: seq<Op>, keys: seq<int>, now: nat) {
    && |keys| == |ops|
    && (forall k :: k in before ==> k in after && after[k] == before[k])
    && (forall k :: k in after ==> k in before || k in keys)
    && (forall i, j :: 0 <= i < j < |ops| ==> keys[i] != keys[j])
    && forall i :: 0 <= i < |ops| ==>
         && ops[i].Add?
         && keys[i] !in before
         && keys[i] in after
         && after[keys[i]] == Inserted(ops[i].row, keys[i], now)
  }

  /** Committing a run of INSERTs staged on a session with nothing else staged applies them, when it succeeds. */
  lemma CommitAdds(d: Descriptor, s: Session, ops: seq<Op>)
    requires s.pending == []
    requires forall i :: 0 <= i < |ops| ==> ops[i].Add?
    ensures var c := Commit(d, Stage(s, ops));
      c.Done? ==> AddsApplied(s.committed, c.session.committed, ops, c.value, s.clock + 1)
  {
    var st, s1, now := s.Storage(), Stage(s, ops), s.clock + 1;
    assert s1.pending == ops && s1.Storage() == st && st.rows == s.committed;
    if Commit(d, s1).Done? {
      var a := ApplyOps(d, st, ops, now).value;
      assert Commit(d, s1) == Done(Session(a.store.rows, a.store.nextId, [], now), a.keys);
      AddsKeepRows(d, st, ops, now);
      AddsInsertRows(d, st, ops, now);
      AddsDistinctKeys(d, st, ops, now);
      assert AddsApplied(st.rows, a.store.rows, ops, a.keys, now);
    }
  }

  /** The INSERTs staged for `inputs`, applied, are the inputs created. */
  lemma AddsAreCreates(d: Descriptor, before: map<int, Row>, after: map<int, Row>, inputs: seq<Input>, ops: seq<Op>, keys: seq<int>, now: nat)
    requires |ops| == |inputs|
    requires forall i :: 0 <= i < |inputs| ==> NewRow(d, inputs[i]).Ok? && ops[i] == Add(NewRow(d, inputs[i]).value)
    requires AddsApplied(before, after, ops, keys, now)
    ensures CreatedAll(d, before, after, inputs, keys)
  {
    forall i | 0 <= i < |inputs|
      ensures forall f :: f in d.Fields() && f !in ServerFields ==>
        f in after[keys[i]] && after[keys[i]][f] == ColumnOf(CreateData(inputs[i]), f)
    {
      var k, row := keys[i], ops[i].row;
      InsertedColumns(row, k, now);
      assert after[k] == Inserted(row, k, now);
      assert Ok(row) == NewRow(d, inputs[i]);
    }
  }

  /**
    A `create_multi` on a session with nothing staged that succeeds keeps
    every stored row and adds one new row per input, carrying that input's
    values, all in one commit.
   */
  lemma CreateMultiInsertsEveryInput(d: Descriptor, s: Session, inputs: seq<Input>)
    requires s.pending == []
    ensures var r := CreateMulti(d, s, inputs);
      r.Done? ==>
        && (forall k :: k in s.committed ==> k in r.session.committed && r.session.committed[k] == s.committed[k])
        && exists keys :: CreatedAll(d, s.committed, r.session.committed, inputs, keys)
  {
    var r := CreateMulti(d, s, inputs);
    StagedAdds(d, inputs);
    var ops := StageAll(inputs, AddStep(d)).ops;
    if r.Done? {
      CommitAdds(d, s, ops);
      var c := Commit(d, Stage(s, ops));
      assert r.session == c.session;
      AddsAreCreates(d, s.committed, c.session.committed, inputs, ops, c.value, s.clock + 1);
    }
  }

  /**
    On a valid session with nothing staged, a `create_multi` whose inputs
    leave `id` unset succeeds exactly when every input names only columns
    and fills every NOT NULL column the storage does not fill itself.
   */
  lemma CreateMultiSucceedsIff(d: Descriptor, s: Session, inputs: seq<Input>)
    requires Valid(d, s.Storage()) && s.pending == []
    requires forall i :: 0 <= i < |inputs| ==> ColumnOf(CreateData(inputs[i]), IdField) == VNull
    ensures CreateMulti(d, s, inputs).Done? <==>
      forall i :: 0 <= i < |inputs| ==> CreateData(inputs[i]).Keys <= d.Fields() && FillsRequired(d, inputs[i])
  {
    StagedAdds(d, inputs);
    var staged := StageAll(inputs, AddStep(d));
    if staged.failure.None? {
      CommitAlone(d, s, staged.ops);
      InsertsOfInputs(d, s.Storage(), inputs, staged.ops, s.clock + 1);
    }
  }

  /** Committing a run staged on a session with nothing else staged succeeds exactly when the run does. */
  lemma CommitAlone(d: Descriptor, s: Session, ops: seq<Op>)
    requires s.pending == []
    ensures Commit(d, Stage(s, ops)).Done? <==> ApplyOps(d, s.Storage(), ops, s.clock + 1).Ok?
  {
    var s1 := Stage(s, ops);
    assert s1.pending == ops && s1.Storage() == s.Storage();
  }

  /** The INSERTs of inputs that leave `id` unset succeed, over a table below its sequence, exactly when every input fills the NOT NULL columns. */
  lemma InsertsOfInputs(d: Descriptor, st: Store, inputs: seq<Input>, ops: seq<Op>, now: nat)
    requires BelowSequence(st) && |ops| == |inputs|
    requires forall i :: 0 <= i < |inputs| ==>
      && ColumnOf(CreateData(inputs[i]), IdField) == VNull
      && NewRow(d, inputs[i]).Ok? && ops[i] == Add(NewRow(d, inputs[i]).value)
    ensures ApplyOps(d, st, ops, now).Ok? <==> forall i :: 0 <= i < |inputs| ==> FillsRequired(d, inputs[i])
  {
    forall i | 0 <= i < |inputs|
      ensures ColumnOf(ops[i].row, IdField) == VNull
      ensures FillsNotNull(d, ops[i].row) <==> FillsRequired(d, inputs[i])
    {
      NewRowFills(d, inputs[i]);
    }
    NullIdAddsSucceed(d, st, ops, now);
  }

  // ------------------------------------------------------------ batch update

  /** The entity of a well-formed change with its data merged in. */
  function Merged(c: Change): Row
    requires c.WellFormed()
  {
    Merge(c.entity.value, UpdateData(c.input.value))
  }

  /** The change issues a statement: it is well-formed, and its entity was never stored or its merge changes it. */
  predicate Writes(c: Change) {
    c.WellFormed() && IssuesWrite(c.entity.value, c.input.value)
  }

  /** Every change is well-formed and its entity carries an id. */
  predicate Identified(changes: seq<Change>) {
    forall i :: 0 <= i < |changes| ==> changes[i].WellFormed() && Identity(changes[i].entity.value).Some?
  }

  /** The key a change writes to: the id of its (stored) entity. */
  function TargetOf(c: Change): int
    requires c.WellFormed() && Identity(c.entity.value).Some?
  {
    Identity(c.entity.value).value
  }

  /**
    Staging updates fails exactly when some element lacks its entity or its
    data, and otherwise stages one write per change, in order.
   */
  lemma StagedSaves(changes: seq<Change>)
    ensures var staged := StageAll(changes, SaveStep);
      && (staged.failure.None? <==> forall i :: 0 <= i < |changes| ==> changes[i].WellFormed())
      && (staged.failure.None? ==>
            && |staged.ops| == |changes|
            && forall i :: 0 <= i < |changes| ==> staged.ops[i] == SaveFor(changes[i].entity.value, changes[i].input.value))
  {
  }

  /** Committing a run of in-place statements staged on a session with nothing else staged applies them, when it succeeds. */
  lemma CommitSaves(d: Descriptor, s: Session, ops: seq<Op>)
    requires s.pending == []
    requires forall i :: 0 <= i < |ops| ==> InPlace(ops[i])
    ensures var c := Commit(d, Stage(s, ops));
      && (c.Done? <==> ApplyOps(d, s.Storage(), ops, s.clock + 1).Ok?)
      && (c.Done? ==> KeysKept(s.committed, c.session.committed, ops) && LastWritesKept(ops, c.session.committed))
  {
    var s1 := Stage(s, ops);
    assert s1.pending == ops && s1.Storage() == s.Storage();
    var now := s.clock + 1;
    if Commit(d, s1).Done? {
      var a := ApplyOps(d, s.Storage(), ops, now).value;
      assert Commit(d, s1) == Done(Session(a.store.rows, a.store.nextId, [], now), a.keys);
      SavesKeepKeys(d, s.Storage(), ops, now);
      SavesLastWrite(d, s.Storage(), ops, now);
    }
  }

  /**
    `after` records an `update_multi` of `changes` over `before`: every
    element was well-formed and its entity stored at some point, every
    entity a change actually modifies was still stored, no row appears or
    disappears, rows no such change targets are untouched, and each target
    holds the last such change merged in.
   */
  predicate ChangesApplied(before: map<int, Row>, after: map<int, Row>, changes: seq<Change>) {
    && Identified(changes)
    && (forall i :: 0 <= i < |changes| && Writes(changes[i]) ==> TargetOf(changes[i]) in before)
    && after.Keys == before.Keys
    && (forall k :: k in before && (forall i :: 0 <= i < |changes| && Writes(changes[i]) ==> TargetOf(changes[i]) != k) ==>
          after[k] == before[k])
    && (forall i :: 0 <= i < |changes| && Writes(changes[i]) && LastWrite(changes, i) ==>
          Carries(after[TargetOf(changes[i])], Merged(changes[i])))
  }

  /** No change after the `i`th that modifies its entity writes to the same key. */
  predicate LastWrite(changes: seq<Change>, i: int)
    requires Identified(changes) && 0 <= i < |changes| && Writes(changes[i])
  {
    forall j :: i < j < |changes| && Writes(changes[j]) ==> TargetOf(changes[j]) != TargetOf(changes[i])
  }

  /** `ops` are the statements staged for `changes`: an UPDATE of its target for each change that writes, nothing for the rest. */
  predicate StagedFor(ops: seq<Op>, changes: seq<Change>) {
    && |ops| == |changes|
    && Identified(changes)
    && forall i :: 0 <= i < |changes| ==>
         && (ops[i].Save? <==> Writes(changes[i]))
         && (ops[i].Save? ==> ops[i].target == TargetOf(changes[i]) && ops[i].row == Merged(changes[i]))
  }

  /** The in-place statements staged for `changes`, applied, are the changes applied. */
  lemma SavesAreChanges(before: map<int, Row>, after: map<int, Row>, changes: seq<Change>, ops: seq<Op>)
    requires StagedFor(ops, changes)
    requires KeysKept(before, after, ops) && LastWritesKept(ops, after)
    ensures ChangesApplied(before, after, changes)
  {
    forall i | 0 <= i < |changes| && Writes(changes[i])
      ensures TargetOf(changes[i]) in before
    {
      assert ops[i].Save?;
    }
    forall k | k in before && (forall i :: 0 <= i < |changes| && Writes(changes[i]) ==> TargetOf(changes[i]) != k)
      ensures after[k] == before[k]
    {
      forall i | 0 <= i < |ops| && ops[i].Save?
        ensures ops[i].target != k
      {
        assert Writes(changes[i]);
      }
    }
    forall i | 0 <= i < |changes| && Writes(changes[i]) && LastWrite(changes, i)
      ensures Carries(after[TargetOf(changes[i])], Merged(changes[i]))
    {
      assert ops[i].Save?;
      forall j | i < j < |ops| && ops[j].Save?
        ensures ops[j].target != ops[i].target
      {
        assert Writes(changes[j]);
      }
    }
  }

  /** The writes staged for stored entities whose data does not name `id` are in-place statements for those changes. */
  lemma StagedSavesInPlace(changes: seq<Change>, ops: seq<Op>)
    requires |ops| == |changes|
    requires forall i :: 0 <= i < |changes| ==>
      && changes[i].WellFormed() && Identity(changes[i].entity.value).Some? && IdField !in UpdateData(changes[i].input.value)
      && ops[i] == SaveFor(changes[i].entity.value, changes[i].input.value)
    ensures StagedFor(ops, changes)
    ensures forall i :: 0 <= i < |ops| ==> InPlace(ops[i])
  {
    forall i | 0 <= i < |ops|
      ensures InPlace(ops[i])
    {
      if ops[i].Save? {
        assert ops[i].row == Merged(changes[i]);
      }
    }
  }

  /**
    `update_multi`, on a session with nothing staged, of stored entities
    whose data does not name `id`: when it succeeds, every element was
    well-formed, every change that modifies its entity is applied, and
    nothing else moves. A change that modifies nothing issues no statement,
    so its row need not still be there.
   */
  lemma UpdateMultiAppliesEveryChange(d: Descriptor, s: Session, changes: seq<Change>)
    requires s.pending == []
    requires forall i :: 0 <= i < |changes| && changes[i].WellFormed() ==>
      Identity(changes[i].entity.value).Some? && IdField !in UpdateData(changes[i].input.value)
    ensures var r := UpdateMulti(d, s, changes);
      r.Done? ==> ChangesApplied(s.committed, r.session.committed, changes)
  {
    StagedSaves(changes);
    var staged := StageAll(changes, SaveStep);
    if staged.failure.None? {
      var ops := staged.ops;
      StagedSavesInPlace(changes, ops);
      CommitSaves(d, s, ops);
      var c := Commit(d, Stage(s, ops));
      assert UpdateMulti(d, s, changes).session == c.session;
      if c.Done? {
        SavesAreChanges(s.committed, c.session.committed, changes, ops);
      }
    }
  }

  /**
    `update_multi`, on a session with nothing staged, of stored entities
    whose data does not name `id` and whose merged entities fill the NOT NULL
    columns, succeeds exactly when every element is well-formed and every
    entity a change modifies is still stored.
   */
  lemma UpdateMultiSucceedsIff(d: Descriptor, s: Session, changes: seq<Change>)
    requires s.pending == []
    requires forall i :: 0 <= i < |changes| && changes[i].WellFormed() ==>
      && Identity(changes[i].entity.value).Some? && IdField !in UpdateData(changes[i].input.value)
      && NotNullOk(d, Merged(changes[i]))
    ensures UpdateMulti(d, s, changes).Done? <==>
      && (forall i :: 0 <= i < |changes| ==> changes[i].WellFormed())
      && (forall i :: 0 <= i < |changes| && Writes(changes[i]) ==> TargetOf(changes[i]) in s.committed)
  {
    StagedSaves(changes);
    UpdateMultiAppliesEveryChange(d, s, changes);
    var staged := StageAll(changes, SaveStep);
    if staged.failure.None? {
      var ops := staged.ops;
      StagedSavesInPlace(changes, ops);
      CommitSaves(d, s, ops);
      if forall i :: 0 <= i < |changes| && Writes(changes[i]) ==> TargetOf(changes[i]) in s.committed {
        InPlaceSucceeds(d, s.Storage(), ops, s.clock + 1);
      }
      assert UpdateMulti(d, s, changes).Done? <==> Commit(d, Stage(s, ops)).Done?;
    }
  }

  // ----------------------------------------------------------------- paging

  /** Reading page after page loses and repeats nothing: two consecutive pages are one page of both sizes. */
  lemma GetMultiPagesTile(d: Descriptor, s: Session, filters: Option<Filter>, skip: nat, a: nat, b: nat)
    ensures var first, next, both := GetMulti(d, s, filters, skip, a), GetMulti(d, s, filters, skip + a, b), GetMulti(d, s, filters, skip, a + b);
      && (first.Ok? <==> both.Ok?) && (next.Ok? <==> both.Ok?)
      && (both.Ok? ==> first.value + next.value == both.value)
  {
    var where := if filters.Some? then filters.value else map[];
    PagesTile(Select(Scan(s.committed), where), skip, a, b);
  }

  /** An empty filter map selects the same rows as no filter at all. */
  lemma GetMultiEmptyFilterIsNoFilter(d: Descriptor, s: Session, skip: nat, limit: nat)
    ensures GetMulti(d, s, Some(map[]), skip, limit) == GetMulti(d, s, None, skip, limit)
    ensures GetMulti(d, s, None, skip, limit).Ok?
  {
  }
}
