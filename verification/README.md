# CRUDBase repository model

A Dafny model of `CRUDBase`, the generic repository of the alert-configuration
service. It offers the same get, create, update and remove operations for
every entity type that shares the common base shape: an integer `id`, plus
`created_at` and `updated_at` timestamps. Each operation runs against a
caller-owned database session. A single-item write stages one statement and
commits it. A batch write stages every element in a loop and commits once
after the loop.

## What is modelled, and how

- **Entity (`Entity`).** An entity is a `map<string, Value>` over the columns of
  its entity type. A `Descriptor` lists the entity type's own columns and its
  NOT NULL columns, and every type also has `id`, `created_at` and
  `updated_at`.
  - Input comes in two kinds. A plain dictionary contributes all its keys.
  - A validated schema value holds a value for every field and remembers
    which fields were set explicitly. This stands in for
    `dict(exclude_unset=True)`.
- **Storage (`Store`).** The committed table is a `map<int, Row>` keyed by
  primary key, plus a counter for the id the database hands out when an
  INSERT leaves `id` NULL. It replays four kinds of staged work:
  - INSERT assigns an id unless the row names one. It fills a NULL
    `created_at`/`updated_at` with the commit time. It enforces the primary
    key and the NOT NULL columns.
  - UPDATE applies the `onupdate` default to `updated_at`. It fails with
    StaleData when its row is gone.
  - An object added back with no net change issues no statement at all.
  - DELETE removes the row.
- **Session (`UnitOfWork`).** A session is a value: the committed table, the
  statements staged since the last commit, and an abstract monotonic clock.
  - A commit replays every staged statement at one new clock tick.
  - On the first failing statement none of them takes effect. The failed
    commit returns the session as the caller's rollback would leave it: the
    staged work discarded and the committed table as it was.
- **Queries (`Query`).** A query scans the stored rows, keeps those that
  satisfy an equality filter, and pages with offset and limit.
- **Repository (`Crud`).** It holds one function per repository operation, plus
  the partial-update merge `SetDataForUpdate`. Each returns the session
  afterwards together with either its value or the error it raised.
- **Properties (`CrudProperties`).** These relate several calls:
  - lookups after writes;
  - the merge;
  - the timestamps an update leaves;
  - the all-or-nothing effect of the batch writes.

Errors the source raises are values of `Errors.Error`:

| error | raised when |
|---|---|
| `UnknownField` | A filter or create input names a column the entity type does not have. |
| `MissingTarget` | `remove_with_id` deletes the `None` that a failed primary-key lookup returned. |
| `NotPersisted` | A delete is asked of an entity that was never stored. |
| `StaleData` | An UPDATE finds its row gone. |
| `IntegrityError` | A primary-key or NOT NULL violation occurs at commit. |
| `RefreshFailed` | A refresh finds no row. |
| `MalformedChange` | An `update_multi` element lacks its `db_obj` or its `obj_in`, so `set_data_for_update` is handed `None`. |

Behaviour of the code that is easy to miss, and that the model keeps:

- **An update that changes nothing issues no UPDATE**, so `updated_at` is
  only bumped when some column changes. Such an update only finds out at
  the reload whether the row is still there.
- **`remove(obj)` of an entity whose row is already gone succeeds.** The
  DELETE matches no row and the session only warns.
- **Update data may name keys that are not entity fields.** These are
  silently ignored.
- **A batch whose element raises while staging does not roll anything back.**
  The elements staged before it stay pending in the session, but nothing is
  committed.

## Model

| member | source | states |
|---|---|---|
| Entity.Matches | crud/base.py:33 | `filter_by` with equalities: an empty filter matches every row, and a row can only match a filter whose columns it has. |
| Crud.GetById | crud/base.py:25-26 | A found row is stored and its `id` is the requested id; the result is None exactly when no stored row has that id. |
| CrudProperties.GetByIdFindsStoredRow | crud/base.py:25-26 | On a valid session, `get_by_id` is the primary-key lookup: the row stored under the id, or None when the id is not stored. |
| Crud.Get | crud/base.py:28-33 | A filter naming a column the entity type lacks is refused with UnknownField, and only then. A found row is stored and satisfies every equality. None is returned exactly when no stored row satisfies the filter. |
| CrudProperties.GetFindsUniqueMatch | crud/base.py:28-33 | When exactly one stored row satisfies a filter on known columns, `get` returns that row. |
| Crud.GetMulti | crud/base.py:35-41 | An unknown filter column is refused, and only then. With M matching rows, the page skips the first `skip` of them: it holds none when `skip >= M`, and otherwise min(`limit`, M - `skip`) rows. Every row returned is stored and satisfies the filter. With `skip` 0 and a limit covering the table, every matching row is returned. |
| Query.ScanSelectCount | crud/base.py:39-41 | Filtering the scanned table keeps exactly one row per matching key, so the query sees as many rows as there are matching keys. |
| Query.Page | crud/base.py:41 | OFFSET then LIMIT: the page is the run of elements starting at position `skip`, as long as `limit` allows and the sequence has left, in order. |
| CrudProperties.GetMultiPagesTile | crud/base.py:35-41 | Consecutive pages lose and repeat nothing: the page at `skip` of size `a`, followed by the page at `skip + a` of size `b`, is the page at `skip` of size `a + b`. |
| CrudProperties.GetMultiEmptyFilterIsNoFilter | crud/base.py:39-40 | An empty filter map selects the same rows as no filter, and neither is refused. |
| Query.PagesTile | crud/base.py:41 | Offset-then-limit paging of any sequence tiles: two adjacent pages concatenate to one page. |
| Crud.StageAll | crud/base.py:52-55 | The batch loop stages elements in order. It fails exactly when some element raises; the staged prefix is exactly the elements before the first one that raises, and the failure is that element's error. |
| Crud.Create | crud/base.py:43-49 | An unknown input key fails before anything is staged. A failure leaves the table unchanged. The created entity is stored under its id and has every column. Its own columns equal the input's values, and a timestamp the input leaves NULL is the commit's clock tick. With nothing else staged, the id is new and the table is the old one plus that row. |
| CrudProperties.CreateSucceedsIff | crud/base.py:43-49 | On a valid session with nothing staged, a `create` that leaves `id` unset succeeds exactly when the input names only columns and gives a value to every NOT NULL column the database does not fill itself. |
| Crud.RefreshedInsert | crud/base.py:46-48 | The entity `create` reloads after the commit is the row it inserted: the input's columns as given, plus `id` and the two timestamps, a NULL timestamp stamped with the commit time. |
| CrudProperties.CreateMatchesItsInput | crud/base.py:43-49 | The created entity satisfies the filter of the values its input supplied. |
| CrudProperties.CreateThenGetById | crud/base.py:43-49 | `get_by_id` of the created entity's id, after `create`, returns that entity. |
| CrudProperties.CreateThenGet | crud/base.py:43-49 | With nothing staged, when no stored row satisfied a filter that the created entity satisfies, `get` with that filter returns the created entity. |
| Crud.CreateMulti | crud/base.py:51-56 | An input with an unknown key makes the whole batch fail with UnknownField. A failure leaves the table unchanged. A success commits once. |
| CrudProperties.CreateMultiSucceedsIff | crud/base.py:51-56 | On a valid session with nothing staged, a `create_multi` whose inputs leave `id` unset succeeds exactly when every input names only columns and fills every NOT NULL column the database does not fill itself. |
| CrudProperties.CreateMultiInsertsEveryInput | crud/base.py:51-56 | With nothing staged, a successful `create_multi` keeps every stored row. It adds one fresh key per input, the keys pairwise distinct, and no other key. Each new row carries its input's values. |
| Store.NullIdAddsSucceed | crud/base.py:52-56 | A run of INSERTs that leave `id` NULL, over a table whose keys lie below the id counter, succeeds exactly when every row fills the NOT NULL columns, and keeps the keys below the counter. |
| Store.AddsInsertRows | crud/base.py:52-56 | In a successful run of INSERTs, every row is stored, filled in, under the key reported for it. |
| Store.AddsDistinctKeys | crud/base.py:52-56 | A successful run of INSERTs reports a different key for every row. |
| Store.AddsKeepRows | crud/base.py:52-56 | A successful run of INSERTs keeps every earlier row, each reported key was not taken before, and no key besides the reported ones appears. |
| Crud.SetDataForUpdate | crud/base.py:106-114 | The entity's field set never changes. Each field takes the update data's value when the data names it, and keeps its own otherwise. The result is the reference merge `Merge`. |
| Crud.SetLoadedDataForUpdate | crud/base.py:107-114 | The loop as the code runs it walks only the loaded attributes. A field that is not loaded keeps its value whatever the data says, and the field set never changes. With every column loaded, it is the reference merge `Merge`. |
| CrudProperties.ExpiredEntityIgnoresUpdate | crud/base.py:107-114 | With nothing loaded, the entity `{id: 1, name: "a"}` updated with `{"name": "b"}` comes out unchanged, although the intended merge writes "b" and so calls for an UPDATE. |
| CrudProperties.SchemaWritesOnlyExplicitFields | crud/base.py:108-114 | A schema input overwrites exactly its explicitly set fields. An unset field keeps the entity's value even when the schema holds a default for it. |
| CrudProperties.DictWritesNamedFields | crud/base.py:108-114 | A dictionary input overwrites every entity field it names and nothing else. |
| CrudProperties.MergeIgnoresForeignKeys | crud/base.py:112-114 | Update-data keys that are not entity fields have no effect. |
| CrudProperties.MergeIdempotent | crud/base.py:112-114 | Applying the same update data twice is applying it once. |
| CrudProperties.MergeLaterWins | crud/base.py:75-78 | Two updates of one entity in a row are one update with the combined data, the later value winning. |
| Crud.Update | crud/base.py:58-68 | A failure other than at the reload leaves the table unchanged. A success commits and returns the reloaded row stored under the entity's id. When a statement is issued, every non-server field holds the update data's value or its old one, the `id` stays unless the data names it, and a set `created_at` stays unless the data names it. With nothing staged, when nothing changed, the table is unchanged, and an entity whose row is gone fails with StaleData if the merge changed it, and with RefreshFailed at the reload if it did not. |
| Crud.CommitAndRefreshAlone | crud/base.py:65-67 | Committing one staged write on a session with nothing else staged and reloading fails exactly when the statement fails, with its error, or, for an object added back unchanged, when its row is gone, with RefreshFailed and the table unchanged. |
| CrudProperties.UpdateSucceedsIff | crud/base.py:58-68 | The merged entity added back (`Crud.SaveFor`) issues an UPDATE only when the merge changes it. With nothing staged, an update of a stored entity that does not name `id` succeeds exactly when it changes nothing, or when the merged entity, `updated_at` stamped, gives every NOT NULL column a value. |
| CrudProperties.UpdateStampsUpdatedAt | db/base.py:34 | With nothing staged, an update that changes the entity and names neither `id` nor `updated_at` stamps `updated_at` with the commit's clock tick, later than the clock before. The entity stays under its key and no other row changes. |
| CrudProperties.RefreshedSave | crud/base.py:65-67 | An UPDATE that keeps its row's id, committed alone and reloaded, returns the written row with `updated_at` stamped, and that row replaces the stored one. |
| CrudProperties.UpdateWithoutChangeIsNoOp | crud/base.py:58-68 | With nothing staged, an update whose merge changes nothing succeeds, returns the stored entity, and leaves the table, `updated_at` included, as it was. |
| Store.Touched | db/base.py:34 | The `onupdate` default: `updated_at` takes the commit time unless the written row changes it. Every other column is as written. |
| Store.Overwrite | crud/base.py:64-66 | An UPDATE of a row that is gone fails with StaleData. Otherwise it succeeds exactly when the row's `id` is an integer naming the target's own key or a free one, and every NOT NULL column holds a value once `updated_at` is stamped; a violation is IntegrityError. The row, touched, replaces the stored one under the key its `id` names. |
| Crud.UpdateMulti | crud/base.py:70-79 | An element lacking its entity or its data makes the batch fail with MalformedChange. A failure leaves the table unchanged. A success commits once. |
| CrudProperties.UpdateMultiAppliesEveryChange | crud/base.py:70-79 | With nothing staged, a successful `update_multi` of stored entities, none renaming its `id`, had every element well-formed. Every entity the batch modifies was stored, no row appears or disappears, rows no modifying change targets are untouched, and each modified row holds its last change merged in. |
| CrudProperties.UpdateMultiSucceedsIff | crud/base.py:70-79 | Each element is staged by `Crud.SaveStep`, which raises MalformedChange for an element lacking `db_obj` or `obj_in`. With nothing staged, an `update_multi` of stored entities none renaming its `id`, whose merges fill the NOT NULL columns, succeeds exactly when every element is well-formed and every entity a change modifies is still stored. |
| Store.InPlaceSucceeds | crud/base.py:75-79 | A run of id-keeping UPDATEs and no-change entries succeeds when every UPDATE's target is stored and its row fills the NOT NULL columns, and it keeps the key set. |
| Store.SavesLastWrite | crud/base.py:75-79 | In a successful run of id-keeping UPDATEs, each target holds the last row written to it. |
| Store.SavesKeepKeys | crud/base.py:75-79 | A successful run of id-keeping UPDATEs needs every target stored, keeps the key set, and leaves untargeted rows unchanged. |
| CrudProperties.DeleteByIdDeletesFound | crud/base.py:82-83 | `db.query(model).get(_id)` then `db.delete`, with no existence guard (`Crud.DeleteById`): on a valid session a DELETE is staged exactly when `get_by_id` finds a row, and it targets the key that row's `id` names; when nothing is found the delete raises MissingTarget. |
| Crud.RemoveWithId | crud/base.py:81-85 | A missing id fails with MissingTarget and changes nothing. A success returns the row as it was and removes its id; with nothing else staged, only that id is removed. With nothing else staged, a stored id always succeeds. |
| CrudProperties.RemoveWithIdReturnsFoundEntity | crud/base.py:81-85 | What `remove_with_id` returns is what `get_by_id` found under that id before. |
| CrudProperties.RemoveWithIdThenGetByIdIsNone | crud/base.py:81-85 | After a successful `remove_with_id`, `get_by_id` of that id is None. |
| CrudProperties.RemoveWithIdTwiceFails | crud/base.py:81-85 | With nothing staged, `remove_with_id` succeeds exactly when the id is stored. Removing the same id again fails with MissingTarget. |
| Crud.RemoveMultiWithId | crud/base.py:87-91 | Any missing id makes the batch fail with MissingTarget. A failure leaves the table unchanged. A success needed every id stored. |
| CrudProperties.RemoveMultiWithIdSucceedsIff | crud/base.py:87-91 | With nothing staged, `remove_multi_with_id` succeeds exactly when every id is stored. |
| CrudProperties.RemoveMultiWithIdDeletesAll | crud/base.py:87-91 | With nothing staged, a success removes exactly the listed ids and keeps every other row unchanged. |
| CrudProperties.RemoveMultiWithIdPreservesValid | crud/base.py:87-91 | The batch delete keeps the storage invariant. |
| CrudProperties.RemoveMultiWithIdThenGetByIdIsNone | crud/base.py:87-91 | After a successful batch delete, `get_by_id` of every listed id is None. |
| CrudProperties.RemoveMultiWithIdLeavesPrefixStaged | crud/base.py:88-90 | When the first missing id is at position `n`, the call fails with only the deletes of the ids before it staged. A later commit of that session succeeds, removes exactly those ids, and leaves every other row as it was. |
| Store.DeletesRemoveTargets | crud/base.py:88-91 | A run of DELETEs never fails, and it removes exactly the keys it targets and no other. |
| Crud.Remove | crud/base.py:93-97 | An entity without an id fails with NotPersisted. A success returns the entity and removes its id; with nothing else staged, only that id is removed, and an entity with an id always succeeds. |
| CrudProperties.RemoveThenGetByIdIsNone | crud/base.py:93-97 | After a successful `remove`, `get_by_id` of the entity's id is None. |
| Crud.RemoveMulti | crud/base.py:99-103 | An entity without an id makes the batch fail with NotPersisted. A failure leaves the table unchanged. |
| CrudProperties.RemoveMultiDeletesAll | crud/base.py:99-103 | Each `db.delete(obj)` (`Crud.DeleteFor`) stages the DELETE of the entity's id and raises NotPersisted for an entity without one. With nothing staged, `remove_multi` succeeds exactly when every entity has an id. It removes exactly those ids and keeps the other rows unchanged. |
| CrudProperties.RefreshIsGetById | crud/base.py:67 | `db.refresh` (`Crud.Refresh`) on a valid session re-reads what `get_by_id` finds: it succeeds exactly when the lookup finds a row and returns that row, and otherwise fails with RefreshFailed. |
| Store.Insert | db/base.py:32-33 | An INSERT succeeds exactly when the row's `id` is NULL or an integer, the key it takes (that integer, or the id counter when NULL) is free, and every NOT NULL column the database does not fill holds a value; otherwise it is IntegrityError. The row is stored under that key, and the counter moves past it. |
| Store.InsertedColumns | db/base.py:32-34 | The inserted row has the input's columns plus the server columns. Its `id` is its key, and every non-server column is as given. |
| Store.ApplyOps | crud/base.py:47 | The model's commit replays the staged work in staging order, one statement after another (the real flush order differs, see below). A success reports one key per statement and never moves the id counter back; a failure is StaleData or IntegrityError. |
| UnitOfWork.CommitOne | crud/base.py:46-47 | Committing a single staged statement on a session with nothing else staged succeeds exactly when that statement applies, fails with its error otherwise, and leaves the table it produced. |
| UnitOfWork.CommitPreservesValid | crud/base.py:47 | A commit keeps the session invariant: every row under the key its `id` names, below the id counter, with its entity type's columns. |
| Store.ApplyOpsAppend | crud/base.py:52-56 | Replaying two staged runs back to back is replaying the first, then the second against the table the first left. |
| Store.ApplyOpsPreservesValid | db/base.py:32-34 | Replaying well-shaped statements keeps every row under the key its `id` names, below the id sequence, with its entity type's columns. |
| CrudProperties.StageCommitValid | crud/base.py:46-47 | Staging well-shaped statements and committing keeps the session invariant. |

## Left out

- The HTTP request handler, YAML and configuration loading, the engine and
  session setup, `get_table_name`, entity mappings and enums, and the
  migrations are outside the repository core. Only the column sets of the
  entity types are used.
- Real timestamps from `func.now()` are not modelled. An abstract clock ticks
  once per commit instead.
- SQL generation is not modelled, nor the order rows come back in without
  ORDER BY. Rows are scanned in ascending id. The contracts of `get` and
  `get_multi` promise only "some matching row" and "rows that match",
  except where a unique match makes the result determined.
- Crud.GetMulti: `skip` and `limit` are natural numbers. A negative offset or
  limit passed to SQL is not modelled.
- `jsonable_encoder` conversion is not modelled; values are taken as they
  are. Type mismatches between a value and its column, and the conversions
  of datetimes and enums, are not modelled either.
- The identity map is not modelled. An entity is a copy of its row. Staleness
  of copies held across calls and the "same object added twice" case are not
  modelled.
- Crud.Update: an entity with an integer `id` that was never stored is treated
  as stored. Its update fails with StaleData when the merge changes it, and
  with RefreshFailed when it does not. SQLAlchemy would INSERT such a
  transient object instead; a transient object with its id set is not a
  separate case.
- Crud.Remove: an entity with an integer `id` is treated as persisted.
  `db.delete` raises for a transient object even when its `id` is set; the
  model stages the DELETE of that id instead, which removes nothing when no
  row is stored there.
- Crud.RemoveMulti: the same as `Crud.Remove`. A transient entity with its
  id set stages a DELETE instead of raising.
- CrudProperties.RemoveMultiDeletesAll: "every entity has an id" stands for
  "every entity is persisted", for the same reason.
- Store.Insert: the id counter never hands out an id twice. SQLite gives a new
  row max(rowid)+1, so the id of a deleted highest row comes back; the model
  does not reuse it.
- Store.ApplyOps: the model replays staged work in staging order. SQLAlchemy's
  flush does not: for each table it runs the UPDATEs of persistent objects in
  primary-key order, then the INSERTs in the order the objects were added,
  then the DELETEs. The outcomes can differ whenever one commit holds more
  than one statement. When several statements would fail, a different one
  fails first, so a different error is reported (an `update_multi` listing a
  gone row before a NOT NULL violation on a lower key fails with StaleData in
  the model and IntegrityError in the flush). And an INSERT staged before an
  UPDATE that moves a row to the key the INSERT would take clashes in the
  model but not in the flush.
- CrudProperties.CreateSucceedsIff: covers inputs that leave `id` unset. With
  an explicit id, success also needs that key to be free, as `Store.Insert`
  states.
- CrudProperties.CreateMultiSucceedsIff: covers inputs that leave `id` unset,
  for the same reason.
- CrudProperties.UpdateSucceedsIff: covers update data that does not name
  `id`. Moving a row to another key is stated by `Store.Overwrite` alone.
- CrudProperties.UpdateMultiSucceedsIff: assumes every merged entity fills the
  NOT NULL columns, and does not cover data that names `id`. When one batch
  changes a row twice, each UPDATE is checked against the row the previous
  one left. The NOT NULL failure of a single UPDATE is stated by
  `Store.Overwrite`.
- Crud.UpdateMulti: the same entity object listed twice in one batch is
  modelled as two UPDATEs of its row, of which the last wins. SQLAlchemy
  would merge both into one object before flushing; the outcome is the same
  only when the later change names every field the earlier one did.
- `db.refresh` re-reads the row the commit wrote. Lazy loading is not
  modelled.
- Crud.SetDataForUpdate: the model's entity always has every column loaded,
  so the merge walks every column. In the code the loop walks only the
  attributes loaded on the object, and the session expires every object at
  each commit (`expire_on_commit` is left at its default). An entity held
  across any earlier commit, such as one `create` returned before a second
  `create`, therefore takes none of its update: `update` and `update_multi`
  write nothing and still succeed, `update` returning the old row. The model
  states the intended merge; the behaviour as written is recorded under
  Findings. `CrudProperties.UpdateMultiAppliesEveryChange` and the update
  lemmas hold only for entities that are fully loaded.
- UnitOfWork.Commit: a failed flush inside `commit()` leaves the SQLAlchemy
  session's transaction inactive. Every later call on that session raises
  until the caller runs `rollback()`, and the repository never does. The
  model's failed session is the one after that rollback, with the staged
  work discarded and further calls accepted. A staging failure in a batch
  loop raises before any flush, and the model keeps its staged prefix.
- Crud.GetById: `_id` is an integer. The default `_id=None` filters on
  `id IS NULL`, which no stored row satisfies, so it returns None; that call
  is not modelled.
- Entity.Value: `VInt` is an unbounded integer. SQLite INTEGER holds 64 bits,
  and an `id` or column value outside -2^63..2^63-1 raises in the driver;
  that error is not modelled.
- The test fixture that replaces `commit` with `flush` is not modelled.
- Concurrency between sessions is not modelled. One session works alone
  against the table.

## Findings

| source | as written | input that shows it | evidently intended | confidence | as-written member | corrected member |
|---|---|---|---|---|---|---|
| crud/base.py:107-114 | The loop walks `jsonable_encoder(db_obj)`, which lists only the attributes loaded on the object. After a commit expires the object (db/base.py:16 keeps `expire_on_commit`), none is loaded. | An entity `{id: 1, name: "a"}` held across another commit, then `update(db, e, {"name": "b"})`: nothing is set, no UPDATE is issued, and the call returns the row with `name` still "a". | Every entity field the update data names is written, whether or not it was loaded. | medium, not executed | Crud.SetLoadedDataForUpdate, CrudProperties.ExpiredEntityIgnoresUpdate | Crud.SetDataForUpdate |
