/**
  The unit of work every repository operation receives: the committed table,
  the operations staged since the last commit, and the clock that stamps
  timestamps. Staging only queues an operation; only a commit changes the
  committed table.
 */
module UnitOfWork {
  import opened Errors
  import opened Entity
  import opened Store

  datatype Session = Session(committed: map<int, Row>, nextId: int, pending: seq<Op>, clock: nat) {

    /** The committed table as storage sees it. */
    function Storage(): Store {
      Store(committed, nextId)
    }
  }

  /**
    What an operation leaves behind: the session afterwards, and either its
    value or the error it raised.
   */
  datatype Outcome<+T> = Done(session: Session, value: T) | Failed(session: Session, error: Error)

  /** The session invariant: the table is valid and every staged row has the entity type's columns. */
  predicate ValidSession(d: Descriptor, s: Session) {
    && Valid(d, s.Storage())
    && forall i :: 0 <= i < |s.pending| ==> OpShaped(d, s.pending[i])
  }

  /** Registers operations with the session (add / delete) without touching the committed table. */
  function Stage(s: Session, ops: seq<Op>): (r: Session)
    ensures r.committed == s.committed && r.nextId == s.nextId && r.clock == s.clock
    ensures |r.pending| == |s.pending| + |ops|
  {
    s.(pending := s.pending + ops)
  }

  /**
    Commit: replays every staged operation at one new clock tick. Either all
    of them become durable at once, or (on the first failing statement) none
    does and the staged work is rolled back.
   */
  function Commit(d: Descriptor, s: Session): (r: Outcome<seq<int>>)
    ensures r.session.pending == []
    ensures r.Failed? ==> r.session.committed == s.committed && r.session.nextId == s.nextId
    ensures r.Failed? ==> r.session.clock == s.clock
    ensures r.Done? ==> r.session.clock == s.clock + 1 && |r.value| == |s.pending|
    ensures r.Done? <==> ApplyOps(d, s.Storage(), s.pending, s.clock + 1).Ok?
    ensures r.Failed? ==> r.error == ApplyOps(d, s.Storage(), s.pending, s.clock + 1).error
    ensures r.Done? ==> r.session.Storage() == ApplyOps(d, s.Storage(), s.pending, s.clock + 1).value.store
  {
    var now := s.clock + 1;
    match ApplyOps(d, s.Storage(), s.pending, now)
    case Ok(a) => Done(Session(a.store.rows, a.store.nextId, [], now), a.keys)
    case Err(e) => Failed(s.(pending := []), e)
  }

  /** Committing one statement staged on a session with nothing else staged runs exactly that statement. */
  lemma CommitOne(d: Descriptor, s: Session, op: Op)
    requires s.pending == []
    ensures var c := Commit(d, Stage(s, [op]));
      var step := ApplyOp(d, s.Storage(), op, s.clock + 1);
      && (c.Done? <==> step.Ok?)
      && (c.Failed? ==> c.error == step.error)
      && (c.Done? ==> c.session.Storage() == step.value.store && c.value == [step.value.key])
  {
    var st, now := s.Storage(), s.clock + 1;
    assert Stage(s, [op]).pending == [op] && Stage(s, [op]).Storage() == st;
    ApplyOpsSnoc(d, st, [], op, now);
    assert [] + [op] == [op];
    assert ApplyOps(d, st, [], now) == Ok(Applied(st, []));
    var step := ApplyOp(d, st, op, now);
    if step.Ok? {
      assert [] + [step.value.key] == [step.value.key];
      assert ApplyOps(d, st, [op], now) == Ok(Applied(step.value.store, [step.value.key]));
    } else {
      assert ApplyOps(d, st, [op], now) == Err(step.error);
    }
  }

  /** A commit keeps the session invariant. */
  lemma CommitPreservesValid(d: Descriptor, s: Session)
    requires ValidSession(d, s)
    ensures ValidSession(d, Commit(d, s).session)
  {
    ApplyOpsPreservesValid(d, s.Storage(), s.pending, s.clock + 1);
  }
}
