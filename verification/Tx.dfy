/** The transaction manager of database/tx.go: Execute over a store, a pool and every way its parts can end. */
module Tx {
  import opened Wrappers
  import opened ErrorX
  import Text

  // ---------------------------------------------------------------- the store

  type Store = map<string, string>

  datatype Write = Put(key: string, value: string) | Remove(key: string)

  function ApplyOne(store: Store, w: Write): Store {
    match w
    case Put(key, value) => store[key := value]
    case Remove(key) => store - {key}
  }

  /** The writes applied one after the other. */
  function Apply(store: Store, writes: seq<Write>): Store {
    if writes == [] then store
    else ApplyOne(Apply(store, writes[..|writes| - 1]), writes[|writes| - 1])
  }

  lemma {:induction false} ApplyAppend(store: Store, a: seq<Write>, b: seq<Write>)
    ensures Apply(store, a + b) == Apply(Apply(store, a), b)
  {
    if b == [] {
      assert a + b == a;
    } else {
      AppendSnoc(a, b);
      ApplyAppend(store, a, b[..|b| - 1]);
    }
  }

  function KeyOf(w: Write): string {
    match w
    case Put(key, _) => key
    case Remove(key) => key
  }

  /** A store shows under each key the last write to it, and a key that is not written stays as it was. */
  lemma {:induction false} StoreShowsLastWrite(store: Store, writes: seq<Write>, key: string)
    ensures var after := Apply(store, writes);
            && (forall i | 0 <= i < |writes| && IsLastTo(writes, i, key) ::
                  if writes[i].Put? then key in after && after[key] == writes[i].value else key !in after)
            && ((forall w | w in writes :: KeyOf(w) != key) ==>
                  (key in after <==> key in store) && (key in after ==> after[key] == store[key]))
  {
    if writes == [] {
    } else {
      var n := |writes| - 1;
      StoreShowsLastWrite(store, writes[..n], key);
      assert Apply(store, writes) == ApplyOne(Apply(store, writes[..n]), writes[n]);
      hide Apply;
      assert writes[n] in writes && forall w | w in writes[..n] :: w in writes;
      forall i | 0 <= i < n && IsLastTo(writes, i, key)
        ensures IsLastTo(writes[..n], i, key) && KeyOf(writes[n]) != key
      {
      }
    }
  }

  ghost predicate IsLastTo(writes: seq<Write>, i: nat, key: string)
    requires i < |writes|
  {
    KeyOf(writes[i]) == key && forall j | i < j < |writes| :: KeyOf(writes[j]) != key
  }

  // ---------------------------------------------------------------- what callbacks and the server do

  /** What a callback does with the transaction it is given: it may even close it, which Execute does not expect. */
  datatype Op =
    | Exec(write: Write)
    | EarlyCommit(answer: Option<Error>)
    | EarlyRollback(answer: Option<Error>)

  /** How a callback ends. Exits is runtime.Goexit, which runs deferred functions but is not a panic. */
  datatype Ending = ReturnsNil | ReturnsError(err: Error) | Panics(value: string) | Exits

  datatype Callback = Callback(ops: seq<Op>, ending: Ending)

  /** What the server answers to the three statements of Execute, as far as they reach it. */
  datatype Server = Server(begin: Option<Error>, commit: Option<Error>, rollback: Option<Error>)

  /** How a call of Execute ends for its caller. */
  datatype Outcome = Returned(err: Option<Error>) | Panicked(value: string) | Exited

  datatype Caller = TheCallback | TheManager

  datatype Event = BeginFailed | Begun | Committed(who: Caller) | RolledBack(who: Caller)

  /** The committed store, the connections in use, the transaction statements issued and the errors logged. */
  datatype Db = Db(store: Store, held: nat, trace: seq<Event>, log: seq<Error>)

  datatype TxState = TxState(closed: bool, pending: seq<Write>)

  const TX_CLOSED := Library("tx is closed", {TxClosed}, false, [])

  // ---------------------------------------------------------------- the driver: pgx on a pooled connection

  function Release(db: Db): Db {
    if db.held > 0 then db.(held := db.held - 1) else db
  }

  /** The first Commit or Rollback closes the transaction and gives the connection back, even when it fails. */
  function CommitStep(db: Db, tx: TxState, who: Caller, answer: Option<Error>): (Db, Option<Error>) {
    var seen := db.(trace := db.trace + [Committed(who)]);
    if tx.closed then (seen, Some(TX_CLOSED))
    else if answer.Some? then (Release(seen), answer)
    else (Release(seen).(store := Apply(db.store, tx.pending)), None)
  }

  function RollbackStep(db: Db, tx: TxState, who: Caller, answer: Option<Error>): (Db, Option<Error>) {
    var seen := db.(trace := db.trace + [RolledBack(who)]);
    if tx.closed then (seen, Some(TX_CLOSED)) else (Release(seen), answer)
  }

  function OpStep(db: Db, tx: TxState, op: Op): (Db, TxState) {
    match op
    case Exec(write) => (db, if tx.closed then tx else tx.(pending := tx.pending + [write]))
    case EarlyCommit(answer) => (CommitStep(db, tx, TheCallback, answer).0, tx.(closed := true))
    case EarlyRollback(answer) => (RollbackStep(db, tx, TheCallback, answer).0, tx.(closed := true))
  }

  function RunOps(db: Db, tx: TxState, ops: seq<Op>): (Db, TxState) {
    if ops == [] then (db, tx)
    else
      var (db', tx') := RunOps(db, tx, ops[..|ops| - 1]);
      OpStep(db', tx', ops[|ops| - 1])
  }

  // ---------------------------------------------------------------- Execute

  /** A rollback of a transaction that is already closed is no failure. */
  function RollbackFailure(err: Option<Error>): Option<Error> {
    if err.Some? && !Is(err.value, TxClosed) then Some(Wrapped("failed to roll back transaction", err.value)) else None
  }

  /** The deferred function: what it does with the transaction, and what the caller of Execute sees. */
  function Finish(db: Db, tx: TxState, server: Server, ending: Ending): (Db, Outcome) {
    match ending
    case Panics(value) =>
      var (after, answer) := RollbackStep(db, tx, TheManager, server.rollback);
      var failure := RollbackFailure(answer);
      (if failure.Some? then after.(log := after.log + [failure.value]) else after, Panicked(value))
    case ReturnsError(err) =>
      var (after, answer) := RollbackStep(db, tx, TheManager, server.rollback);
      var failure := RollbackFailure(answer);
      (after, Returned(Some(if failure.Some? then Joined([err, failure.value]) else err)))
    case _ =>
      var (after, answer) := CommitStep(db, tx, TheManager, server.commit);
      (after,
       if ending.Exits? then Exited
       else if answer.Some? then Returned(Some(Wrapped("failed to commit transaction", answer.value)))
       else Returned(None))
  }

  function BeginStep(db: Db): Db {
    db.(held := db.held + 1, trace := db.trace + [Begun])
  }

  const FRESH := TxState(false, [])

  function Executed(db: Db, server: Server, fn: Callback): (Db, Outcome) {
    if server.begin.Some? then
      (db.(trace := db.trace + [BeginFailed]),
       Returned(Some(Wrapped("failed to begin transaction", server.begin.value))))
    else
      var (db', tx) := RunOps(BeginStep(db), FRESH, fn.ops);
      Finish(db', tx, server, fn.ending)
  }

  class Pool {
    var store: Store
    var held: nat
    var trace: seq<Event>
    var log: seq<Error>

    ghost function State(): Db
      reads this
    {
      Db(store, held, trace, log)
    }

    constructor (store: Store)
      ensures State() == Db(store, 0, [], [])
    {
      this.store, held, trace, log := store, 0, [], [];
    }

    method Begin(answer: Option<Error>) returns (tx: Transaction?, err: Option<Error>)
      modifies this
      ensures err == answer && (tx == null <==> answer.Some?)
      ensures answer.Some? ==> State() == old(State()).(trace := old(trace) + [BeginFailed])
      ensures answer.None? ==>
                State() == BeginStep(old(State())) && fresh(tx) && tx.pool == this && tx.State() == FRESH
    {
      err := answer;
      if answer.Some? {
        trace := trace + [BeginFailed];
        return null, err;
      }
      held, trace := held + 1, trace + [Begun];
      tx := new Transaction(this);
    }

    /** rollbackErr */
    method RollbackErr(tx: Transaction, answer: Option<Error>) returns (failure: Option<Error>)
      requires tx.pool == this
      modifies this, tx
      ensures var step := old(RollbackStep(State(), tx.State(), TheManager, answer));
              State() == step.0 && failure == RollbackFailure(step.1)
    {
      var err := tx.Rollback(TheManager, answer);
      if err.Some? && !Is(err.value, TxClosed) {
        return Some(Wrapped("failed to roll back transaction", err.value));
      }
      return None;
    }

    /** rollback, for the path that cannot return an error */
    method RollbackAndLog(tx: Transaction, answer: Option<Error>)
      requires tx.pool == this
      modifies this, tx
      ensures var step := old(RollbackStep(State(), tx.State(), TheManager, answer));
              var failure := RollbackFailure(step.1);
              State() == if failure.Some? then step.0.(log := step.0.log + [failure.value]) else step.0
    {
      var err := RollbackErr(tx, answer);
      if err.Some? {
        log := log + [err.value];
      }
    }

    method Execute(server: Server, fn: Callback) returns (out: Outcome)
      modifies this
      ensures (State(), out) == Executed(old(State()), server, fn)
    {
      var err: Option<Error>;  // the named result
      var tx;
      tx, err := Begin(server.begin);
      if err.Some? {
        return Returned(Some(Wrapped("failed to begin transaction", err.value)));
      }
      var ending := tx.Call(fn);
      if ending.ReturnsError? {
        err := Some(ending.err);
      }
      // From here on the deferred function runs. After a panic or an exit, err is still what Begin left in it.
      if ending.Panics? {
        RollbackAndLog(tx, server.rollback);
        return Panicked(ending.value);
      }
      if err.Some? {
        var rbErr := RollbackErr(tx, server.rollback);
        if rbErr.Some? {
          err := Some(Joined([err.value, rbErr.value]));
        }
        return Returned(err);
      }
      var cErr := tx.Commit(TheManager, server.commit);
      if cErr.Some? {
        err := Some(Wrapped("failed to commit transaction", cErr.value));
      }
      return if ending.Exits? then Exited else Returned(err);
    }
  }

  class Transaction {
    const pool: Pool
    var closed: bool
    var pending: seq<Write>

    ghost function State(): TxState
      reads this
    {
      TxState(closed, pending)
    }

    constructor (pool: Pool)
      ensures this.pool == pool && State() == FRESH
    {
      this.pool, closed, pending := pool, false, [];
    }

    method Commit(who: Caller, answer: Option<Error>) returns (err: Option<Error>)
      modifies this, pool
      ensures (pool.State(), err) == CommitStep(old(pool.State()), old(State()), who, answer)
      ensures State() == old(State()).(closed := true)
    {
      pool.trace := pool.trace + [Committed(who)];
      if closed {
        return Some(TX_CLOSED);
      }
      if answer.None? {
        pool.store := Apply(pool.store, pending);
      }
      Close();
      return answer;
    }

    method Rollback(who: Caller, answer: Option<Error>) returns (err: Option<Error>)
      modifies this, pool
      ensures (pool.State(), err) == RollbackStep(old(pool.State()), old(State()), who, answer)
      ensures State() == old(State()).(closed := true)
    {
      pool.trace := pool.trace + [RolledBack(who)];
      if closed {
        return Some(TX_CLOSED);
      }
      Close();
      return answer;
    }

    method Close()
      modifies this, pool
      ensures pool.State() == Release(old(pool.State())) && State() == old(State()).(closed := true)
    {
      closed := true;
      if pool.held > 0 {
        pool.held := pool.held - 1;
      }
    }

    /** fn(tx) */
    method Call(fn: Callback) returns (ending: Ending)
      modifies this, pool
      ensures ending == fn.ending
      ensures (pool.State(), State()) == RunOps(old(pool.State()), old(State()), fn.ops)
    {
      for i := 0 to |fn.ops|
        invariant (pool.State(), State()) == RunOps(old(pool.State()), old(State()), fn.ops[..i])
      {
        assert fn.ops[..i + 1][..i] == fn.ops[..i];
        match fn.ops[i]
        case Exec(write) =>
          if !closed {
            pending := pending + [write];
          }
        case EarlyCommit(answer) =>
          var _ := Commit(TheCallback, answer);
        case EarlyRollback(answer) =>
          var _ := Rollback(TheCallback, answer);
      }
      assert fn.ops[..|fn.ops|] == fn.ops;
      return fn.ending;
    }
  }

  // ---------------------------------------------------------------- one call

  ghost function WritesOf(ops: seq<Op>): seq<Write> {
    if ops == [] then []
    else WritesOf(ops[..|ops| - 1]) + if ops[|ops| - 1].Exec? then [ops[|ops| - 1].write] else []
  }

  /** The callback closes the transaction itself, which it should leave to Execute. */
  ghost predicate ClosedBy(ops: seq<Op>) {
    exists op :: op in ops && !op.Exec?
  }

  /** The writes that the callback commits by itself: those before its first attempt to close, if that is a commit. */
  ghost function SelfCommitted(ops: seq<Op>): seq<Write> {
    if ops == [] then []
    else
      var n := |ops| - 1;
      if ClosedBy(ops[..n]) then SelfCommitted(ops[..n])
      else if ops[n] == EarlyCommit(None) then WritesOf(ops[..n])
      else []
  }

  lemma {:induction false} OpsBuildUp(db: Db, ops: seq<Op>)
    ensures var (after, tx) := RunOps(db, FRESH, ops);
            && (tx.closed <==> ClosedBy(ops))
            && after.store == Apply(db.store, SelfCommitted(ops))
            && (!ClosedBy(ops) ==> tx.pending == WritesOf(ops) && SelfCommitted(ops) == [])
  {
    hide Apply;
    ApplyNothing(db.store);
    if ops == [] {
    } else {
      var n := |ops| - 1;
      OpsBuildUp(db, ops[..n]);
      assert ops == ops[..n] + [ops[n]];
      assert ClosedBy(ops) <==> ClosedBy(ops[..n]) || !ops[n].Exec?;
    }
  }

  /** Execute's own commit takes place and succeeds. */
  ghost predicate ManagerCommits(server: Server, fn: Callback) {
    && server.begin.None? && !ClosedBy(fn.ops)
    && (fn.ending.ReturnsNil? || fn.ending.Exits?) && server.commit.None?
  }

  /** What a call leaves behind. */
  ghost function Kept(server: Server, fn: Callback): seq<Write> {
    if server.begin.Some? then []
    else if ClosedBy(fn.ops) then SelfCommitted(fn.ops)
    else if ManagerCommits(server, fn) then WritesOf(fn.ops)
    else []
  }

  /**
   * For every callback: all of its writes in order or none of them, unless it closed the transaction, and then what it
   * committed by itself. Nil means that Execute's own commit took place and succeeded.
   */
  lemma ExecuteIsAtomic(db: Db, server: Server, fn: Callback)
    ensures Executed(db, server, fn).0.store == Apply(db.store, Kept(server, fn))
    ensures Executed(db, server, fn).1 == Returned(None) <==> ManagerCommits(server, fn) && fn.ending.ReturnsNil?
  {
    hide RunOps, Apply, WritesOf, SelfCommitted, ClosedBy, Is;
    ApplyNothing(db.store);
    OpsBuildUp(BeginStep(db), fn.ops);
  }

  lemma ApplyNothing(store: Store)
    ensures Apply(store, []) == store
  {
  }

  /**
   * A caller that gets nil knows that all writes are in the store. A callback that closes the transaction is never
   * answered with nil, and what it wrote afterwards is lost.
   */
  lemma NilMeansCommitted(db: Db, server: Server, fn: Callback)
    ensures Executed(db, server, fn).1 == Returned(None) <==>
              server.begin.None? && fn.ending.ReturnsNil? && !ClosedBy(fn.ops) && server.commit.None?
    ensures Executed(db, server, fn).1 == Returned(None) ==>
              Executed(db, server, fn).0.store == Apply(db.store, WritesOf(fn.ops))
    ensures server.begin.None? && ClosedBy(fn.ops) ==>
              && Executed(db, server, fn).1 != Returned(None)
              && Executed(db, server, fn).0.store == Apply(db.store, SelfCommitted(fn.ops))
  {
    hide Executed, Apply;
    ExecuteIsAtomic(db, server, fn);
  }

  /** It neither commits writes by itself nor ends its goroutine on a transaction that still holds some. */
  ghost predicate LeavesCommitToExecute(fn: Callback) {
    SelfCommitted(fn.ops) == [] && (fn.ending.Exits? && !ClosedBy(fn.ops) ==> WritesOf(fn.ops) == [])
  }

  /**
   * A call that does not return nil leaves the store as it was, over all stores and servers, exactly for callbacks that
   * leave the commit to Execute. A callback does not if it commits writes by itself, nor if it ends its goroutine with
   * writes pending: the deferred function then finds neither a panic nor an error, and commits. The documentation
   * promises the rollback by what the callback returns; a callback that returns nil is then out of its scope.
   */
  lemma RollsBackUnlessNilIff(fn: Callback)
    ensures (forall db, server :: Executed(db, server, fn).1 != Returned(None) ==>
                                    Executed(db, server, fn).0.store == db.store)
            <==> LeavesCommitToExecute(fn)
    ensures (forall db, server :: !fn.ending.ReturnsNil? ==> Executed(db, server, fn).0.store == db.store)
            <==> fn.ending.ReturnsNil? || LeavesCommitToExecute(fn)
  {
    if LeavesCommitToExecute(fn) {
      forall db, server
        ensures Executed(db, server, fn).1 != Returned(None) ==> Executed(db, server, fn).0.store == db.store
      {
        ExecuteIsAtomic(db, server, fn);
        ApplyNothing(db.store);
      }
    } else {
      var server := Server(None, None, None);
      OpsBuildUp(Db(map[], 0, [], []), fn.ops);
      var store := ChangedStore(Kept(server, fn));
      ExecuteIsAtomic(Db(store, 0, [], []), server, fn);
    }
  }

  /** One write, runtime.Goexit, a server without faults: the call does not return nil, and the write is committed. */
  lemma ExitAfterWriteCommits(db: Db)
    ensures var fn := Callback([Exec(Put("k", "v"))], Exits);
            var (after, out) := Executed(db, Server(None, None, None), fn);
            out == Exited && after.store == db.store["k" := "v"]
  {
    var put, fn := Put("k", "v"), Callback([Exec(Put("k", "v"))], Exits);
    assert fn.ops[..0] == [] && WritesOf(fn.ops) == [put];
    ExecuteIsAtomic(db, Server(None, None, None), fn);
    assert Kept(Server(None, None, None), fn) == [put];
    assert [put][..0] == [] && Apply(db.store, [put]) == db.store["k" := "v"];
  }

  /** One write and a commit of its own, then an error: the call returns the error, and the write is committed. */
  lemma CommitBeforeErrorStays(db: Db, err: Error)
    ensures var fn := Callback([Exec(Put("k", "v")), EarlyCommit(None)], ReturnsError(err));
            var (after, out) := Executed(db, Server(None, None, None), fn);
            out == Returned(Some(err)) && after.store == db.store["k" := "v"]
  {
    var put, fn := Put("k", "v"), Callback([Exec(Put("k", "v")), EarlyCommit(None)], ReturnsError(err));
    hide Executed;
    assert [put][..0] == [] && Apply(db.store, [put]) == db.store["k" := "v"];
    assert fn.ops[1] in fn.ops && ClosedBy(fn.ops);
    assert SelfCommitted(fn.ops) == [put] by {
      hide Apply;
      assert fn.ops[..1] == [Exec(put)] && [Exec(put)][..0] == [];
      assert !ClosedBy([Exec(put)]) && WritesOf([Exec(put)]) == [put];
    }
    hide Apply, SelfCommitted, WritesOf, ClosedBy;
    ExecuteIsAtomic(db, Server(None, None, None), fn);
    ClosedTransactionIsBenign(db, Server(None, None, None), fn);
  }

  lemma ChangedStore(writes: seq<Write>) returns (store: Store)
    requires writes != []
    ensures Apply(store, writes) != store
  {
    match writes[|writes| - 1]
    case Put(key, value) =>
      store := map[];
      assert key in Apply(store, writes);
    case Remove(key) =>
      store := map[key := ""];
      assert key !in Apply(store, writes);
  }

  /** The transaction statements of one call: a failed begin, or a begin that Execute itself ends once, and last. */
  ghost predicate Bracket(events: seq<Event>) {
    || events == [BeginFailed]
    || (&& |events| >= 2 && events[0] == Begun
        && (forall i | 0 < i < |events| - 1 :: events[i] in {Committed(TheCallback), RolledBack(TheCallback)})
        && events[|events| - 1] in {Committed(TheManager), RolledBack(TheManager)})
  }

  /** Up to here the manager has begun a transaction that is open on a connection, unless the callback closed it. */
  ghost predicate Halfway(before: Db, db: Db, tx: TxState) {
    && |db.trace| > |before.trace| && before.trace <= db.trace && db.trace[|before.trace|] == Begun
    && (forall i | |before.trace| < i < |db.trace| :: db.trace[i] in {Committed(TheCallback), RolledBack(TheCallback)})
    && db.held == before.held + (if tx.closed then 0 else 1)
    && db.log == before.log
  }

  lemma {:induction false} OpsStayInBracket(db: Db, ops: seq<Op>)
    ensures Halfway(db, RunOps(BeginStep(db), FRESH, ops).0, RunOps(BeginStep(db), FRESH, ops).1)
  {
    if ops == [] {
    } else {
      OpsStayInBracket(db, ops[..|ops| - 1]);
    }
  }

  /** The rollback of a transaction that is still open fails, and not because the driver found it closed. */
  ghost predicate RollbackFails(server: Server, fn: Callback) {
    server.rollback.Some? && !ClosedBy(fn.ops) && !Carries(server.rollback.value, TxClosed)
  }

  lemma RollbackAnswer(db: Db, server: Server, fn: Callback)
    ensures var (open, tx) := RunOps(BeginStep(db), FRESH, fn.ops);
            RollbackFailure(RollbackStep(open, tx, TheManager, server.rollback).1)
            == if RollbackFails(server, fn)
               then Some(Wrapped("failed to roll back transaction", server.rollback.value)) else None
  {
    OpsBuildUp(BeginStep(db), fn.ops);
    assert Answers(TxClosed)(TX_CLOSED);
    if server.rollback.Some? {
      SearchesMean(server.rollback.value);
    }
  }

  /** A failed rollback is reported unless the transaction was closed, and the report holds all there is to find. */
  lemma RollbackFailureTells(err: Option<Error>, rule: Error -> bool)
    ensures RollbackFailure(err).Some? <==> err.Some? && !Carries(err.value, TxClosed)
    ensures RollbackFailure(err).Some? && Occurs(err.value, rule) ==> Find(RollbackFailure(err).value, rule).Some?
    ensures RollbackFailure(err).Some? ==>
              forall text | Says(err.value, text) :: Says(RollbackFailure(err).value, text)
  {
    if err.Some? {
      SearchesMean(err.value);
      FoundIffOccurs(err.value, rule);
    }
  }

  /** The statement that ends a transaction: a commit unless the callback failed or panicked. */
  ghost function Ended(fn: Callback): Event {
    if fn.ending.ReturnsNil? || fn.ending.Exits? then Committed(TheManager) else RolledBack(TheManager)
  }

  /**
   * Every begin that succeeds is ended by Execute, once and on all paths, by a commit exactly when the callback neither
   * failed nor panicked, and the connection it took is back. A begin that fails is all there is.
   */
  lemma BeginIsEndedOnce(db: Db, server: Server, fn: Callback)
    ensures var after := Executed(db, server, fn).0;
            && after.held == db.held
            && db.trace <= after.trace
            && var events := after.trace[|db.trace|..];
               && Bracket(events)
               && (events == [BeginFailed] <==> server.begin.Some?)
               && (server.begin.None? ==> events[|events| - 1] == Ended(fn))
  {
    if server.begin.None? {
      OpsStayInBracket(db, fn.ops);
      var (mid, tx) := RunOps(BeginStep(db), FRESH, fn.ops);
      var events := Executed(db, server, fn).0.trace;
      assert events[..|mid.trace|] == mid.trace && |events| == |mid.trace| + 1;
      forall i | |db.trace| <= i < |mid.trace|
        ensures events[i] == mid.trace[i]
      {
      }
    }
  }

  /** `rule` is found in the error, and every text of the cause is in its message. */
  ghost predicate Tells(err: Error, cause: Error, rule: Error -> bool) {
    && (Occurs(cause, rule) ==> Find(err, rule).Some?)
    && (forall text | Says(cause, text) :: Text.Contains(Message(err), text))
  }

  lemma WrapTells(prefix: string, cause: Error, rule: Error -> bool)
    ensures Tells(Wrapped(prefix, cause), cause, rule)
    ensures Text.Contains(Message(Wrapped(prefix, cause)), prefix)
  {
    hide Text.Contains;
    FoundIffOccurs(cause, rule);
    MessageTellsAll(Wrapped(prefix, cause), prefix);
    forall text | Says(cause, text)
      ensures Text.Contains(Message(Wrapped(prefix, cause)), text)
    {
      MessageTellsAll(Wrapped(prefix, cause), text);
    }
  }

  lemma JoinTells(first: Error, second: Error, rule: Error -> bool)
    ensures Tells(Joined([first, second]), first, rule) && Tells(Joined([first, second]), second, rule)
  {
    var both := Joined([first, second]);
    FoundIffOccurs(first, rule);
    FoundIffOccurs(second, rule);
    if !rule(both) {
      FindInJoin(first, second, rule);
    }
    assert [first, second][0] == first && [first, second][1] == second;
    forall text | Says(first, text) || Says(second, text)
      ensures Text.Contains(Message(both), text)
    {
      MessageTellsAll(both, text);
    }
  }

  lemma TellsThrough(err: Error, middle: Error, cause: Error, rule: Error -> bool)
    requires Tells(err, middle, rule)
    requires Find(middle, rule).Some? || !Occurs(cause, rule)
    requires forall text | Says(cause, text) :: Says(middle, text)
    ensures Tells(err, cause, rule)
  {
    FoundIffOccurs(middle, rule);
  }

  /**
   * A panic, and nothing else, comes out as a panic, with its own value. What is logged is one entry for a rollback
   * that fails after a panic, and nothing else; the entry holds all there is to find in the failure and says it.
   */
  lemma PanicIsRethrown(db: Db, server: Server, fn: Callback, rule: Error -> bool)
    ensures var (after, out) := Executed(db, server, fn);
            && (out.Panicked? <==> server.begin.None? && fn.ending.Panics?)
            && (out.Panicked? ==> fn.ending == Panics(out.value))
            && if out.Panicked? && RollbackFails(server, fn)
               then exists entry :: after.log == db.log + [entry] && Tells(entry, server.rollback.value, rule)
                                    && Text.Contains(Message(entry), "failed to roll back transaction")
               else after.log == db.log
  {
    if server.begin.None? {
      OpsStayInBracket(db, fn.ops);
      RollbackAnswer(db, server, fn);
      if fn.ending.Panics? && RollbackFails(server, fn) {
        var entry := Wrapped("failed to roll back transaction", server.rollback.value);
        WrapTells("failed to roll back transaction", server.rollback.value, rule);
        assert Executed(db, server, fn).0.log == db.log + [entry];
      }
    }
  }

  /** What a call returns for a callback that fails: its error, joined with the failure of the rollback if it fails. */
  lemma ErrorOutcome(db: Db, server: Server, fn: Callback)
    requires server.begin.None? && fn.ending.ReturnsError?
    ensures Executed(db, server, fn).1.Returned?
    ensures Executed(db, server, fn).1.err
         == Some(if RollbackFails(server, fn)
                 then Joined([fn.ending.err, Wrapped("failed to roll back transaction", server.rollback.value)])
                 else fn.ending.err)
  {
    RollbackAnswer(db, server, fn);
  }

  /**
   * A rollback that fails never hides why the call failed: whatever errors.Is or errors.As looks for, by any matching
   * rule, and would find in the callback's error, it finds in what Execute returns. Nor is its own failure lost: the
   * same holds of the rollback's error, and the message says what both say. The type of the result is the type of the
   * callback's error, except when that carries none and the rollback error carries one other than internal.
   */
  lemma RollbackKeepsCause(db: Db, server: Server, fn: Callback, rule: Error -> bool)
    requires server.begin.None? && fn.ending.ReturnsError?
    ensures var out := Executed(db, server, fn).1;
            out.Returned? && out.err.Some? && Tells(out.err.value, fn.ending.err, rule)
    ensures RollbackFails(server, fn) ==>
              && Tells(Executed(db, server, fn).1.err.value, server.rollback.value, rule)
              && Text.Contains(Message(Executed(db, server, fn).1.err.value), "failed to roll back transaction")
    ensures !RollbackFails(server, fn) ==> Executed(db, server, fn).1 == Returned(Some(fn.ending.err))
    ensures TypeOf(Executed(db, server, fn).1.err) == TypeOf(Some(fn.ending.err)) <==>
              || !RollbackFails(server, fn)
              || CarriesType(fn.ending.err)
              || !CarriesType(server.rollback.value)
              || TypeOf(server.rollback) == ErrInternal
  {
    ErrorOutcome(db, server, fn);
    hide Executed, RollbackFails;
    var err := fn.ending.err;
    if RollbackFails(server, fn) {
      var cause := server.rollback.value;
      var failure := Wrapped("failed to roll back transaction", cause);
      JoinTells(err, failure, rule);
      assert Says(failure, "failed to roll back transaction");
      FoundIffOccurs(cause, rule);
      TellsThrough(Joined([err, failure]), failure, cause, rule);
      TypeOfJoin(err, failure);
      assert Find(failure, HoldsType()) == Find(cause, HoldsType());
      SearchesMean(cause);
    } else {
      FoundIffOccurs(err, rule);
      MessageSays(err);
    }
  }

  lemma MessageSays(err: Error)
    ensures forall text | Says(err, text) :: Text.Contains(Message(err), text)
  {
    forall text | Says(err, text)
      ensures Text.Contains(Message(err), text)
    {
      MessageTellsAll(err, text);
    }
  }

  lemma TypeOfJoin(first: Error, second: Error)
    ensures TypeOf(Some(Joined([first, second]))) == TypeOf(Some(if CarriesType(first) then first else second))
    ensures !CarriesType(first) ==> TypeOf(Some(first)) == ErrInternal
  {
    assert !HoldsType()(Joined([first, second]));
    FindInJoin(first, second, HoldsType());
    SearchesMean(first);
  }

  /**
   * A begin that fails and a commit that fails are told by what Execute returns, with their type. A callback that
   * returns nil after closing the transaction is told that it is closed.
   */
  lemma FailuresAreTold(db: Db, server: Server, fn: Callback, rule: Error -> bool)
    ensures var out := Executed(db, server, fn).1;
            server.begin.Some? ==>
              && out.Returned? && out.err.Some? && Tells(out.err.value, server.begin.value, rule)
              && Text.Contains(Message(out.err.value), "failed to begin transaction")
              && TypeOf(out.err) == TypeOf(server.begin)
    ensures var out := Executed(db, server, fn).1;
            server.begin.None? && fn.ending.ReturnsNil? && !ClosedBy(fn.ops) && server.commit.Some? ==>
              && out.Returned? && out.err.Some? && Tells(out.err.value, server.commit.value, rule)
              && Text.Contains(Message(out.err.value), "failed to commit transaction")
              && TypeOf(out.err) == TypeOf(server.commit)
    ensures var out := Executed(db, server, fn).1;
            server.begin.None? && fn.ending.ReturnsNil? && ClosedBy(fn.ops) ==>
              out.Returned? && out.err.Some? && forall s :: Is(out.err.value, s) <==> s == TxClosed
  {
    if server.begin.Some? {
      WrapTells("failed to begin transaction", server.begin.value, rule);
    } else if fn.ending.ReturnsNil? {
      OpsBuildUp(BeginStep(db), fn.ops);
      if ClosedBy(fn.ops) {
        var err := Executed(db, server, fn).1.err.value;
        assert Nodes(err) == [err, TX_CLOSED];
        SearchesMean(err);
      } else if server.commit.Some? {
        WrapTells("failed to commit transaction", server.commit.value, rule);
      }
    }
  }

  /** Rolling back a transaction that the callback had already closed adds no error and logs none. */
  lemma ClosedTransactionIsBenign(db: Db, server: Server, fn: Callback)
    requires server.begin.None? && ClosedBy(fn.ops)
    ensures Executed(db, server, fn).0.log == db.log
    ensures fn.ending.ReturnsError? ==> Executed(db, server, fn).1 == Returned(Some(fn.ending.err))
  {
    OpsStayInBracket(db, fn.ops);
    RollbackAnswer(db, server, fn);
  }

  /**
   * The one way in which a failed rollback changes the type: the callback's error has none and the driver's has one.
   * The call is then answered with the type of the rollback error instead of internal.
   */
  lemma TypedRollbackErrorTakesOver(db: Db)
    ensures var fn := Callback([], ReturnsError(New("business rule")));
            var server := Server(None, None, Some(Typed(New("connection lost"), ErrUnavailable)));
            TypeOf(Executed(db, server, fn).1.err) == ErrUnavailable && TypeOf(Some(fn.ending.err)) == ErrInternal
  {
    var fn := Callback([], ReturnsError(New("business rule")));
    var rollback := Typed(New("connection lost"), ErrUnavailable);
    var server := Server(None, None, Some(rollback));
    var failure := Wrapped("failed to roll back transaction", rollback);
    assert Nodes(rollback) == [rollback, New("connection lost")] && RollbackFails(server, fn);
    ErrorOutcome(db, server, fn);
    SearchesMean(fn.ending.err);
    TypeOfJoin(fn.ending.err, failure);
  }

  // ---------------------------------------------------------------- runs of many calls

  datatype Request = Request(server: Server, fn: Callback)

  /** The calls of a run, one after the other. */
  function Run(db: Db, calls: seq<Request>): (r: (Db, seq<Outcome>))
    ensures |r.1| == |calls|
  {
    if calls == [] then (db, [])
    else
      var last := calls[|calls| - 1];
      var (mid, outs) := Run(db, calls[..|calls| - 1]);
      var (after, out) := Executed(mid, last.server, last.fn);
      (after, outs + [out])
  }

  lemma RunSnoc(db: Db, calls: seq<Request>)
    requires calls != []
    ensures var n := |calls| - 1;
            Run(db, calls).0 == Executed(Run(db, calls[..n]).0, calls[n].server, calls[n].fn).0
  {
    hide Executed;
  }

  /** What each call of a run leaves behind, in the order of the calls. */
  ghost function KeptByAll(calls: seq<Request>): seq<Write> {
    if calls == [] then []
    else
      var n := |calls| - 1;
      KeptByAll(calls[..n]) + Kept(calls[n].server, calls[n].fn)
  }

  /** Over any run, whatever the callbacks do, the final store is the initial one with exactly what each call keeps. */
  lemma {:induction false} RunKeepsWhatCallsKeep(db: Db, calls: seq<Request>)
    ensures Run(db, calls).0.store == Apply(db.store, KeptByAll(calls))
  {
    hide Executed, Kept, Apply;
    if calls == [] {
      ApplyNothing(db.store);
    } else {
      var n := |calls| - 1;
      RunKeepsWhatCallsKeep(db, calls[..n]);
      RunSnoc(db, calls);
      ExecuteIsAtomic(Run(db, calls[..n]).0, calls[n].server, calls[n].fn);
      ApplyAppend(db.store, KeptByAll(calls[..n]), Kept(calls[n].server, calls[n].fn));
    }
  }

  /** The writes of the calls that returned nil, in the order of the calls. */
  ghost function AcknowledgedWrites(calls: seq<Request>, outs: seq<Outcome>): seq<Write>
    requires |calls| == |outs|
  {
    if calls == [] then []
    else
      var n := |calls| - 1;
      AcknowledgedWrites(calls[..n], outs[..n]) + if outs[n] == Returned(None) then WritesOf(calls[n].fn.ops) else []
  }

  lemma {:induction false} KeptIsAcknowledged(db: Db, calls: seq<Request>)
    requires forall c | c in calls :: LeavesCommitToExecute(c.fn)
    ensures KeptByAll(calls) == AcknowledgedWrites(calls, Run(db, calls).1)
  {
    if calls == [] {
    } else {
      var n := |calls| - 1;
      assert calls[n] in calls && forall c | c in calls[..n] :: c in calls;
      KeptIsAcknowledged(db, calls[..n]);
      ExecuteIsAtomic(Run(db, calls[..n]).0, calls[n].server, calls[n].fn);
      hide Executed, SelfCommitted, WritesOf, ClosedBy;
      assert Run(db, calls).1[..n] == Run(db, calls[..n]).1;
    }
  }

  /**
   * Over any run of callbacks that leave the commit to Execute, the store holds the acknowledged writes and nothing
   * else: no lost write and no partial one.
   */
  lemma RunKeepsAcknowledgedWrites(db: Db, calls: seq<Request>)
    requires forall c | c in calls :: LeavesCommitToExecute(c.fn)
    ensures Run(db, calls).0.store == Apply(db.store, AcknowledgedWrites(calls, Run(db, calls).1))
  {
    RunKeepsWhatCallsKeep(db, calls);
    KeptIsAcknowledged(db, calls);
  }

  /** Over any run, whatever the callbacks do, no connection leaks and every begin is matched by one end of its own. */
  lemma {:induction false} RunConservesConnections(db: Db, calls: seq<Request>) returns (brackets: seq<seq<Event>>)
    ensures Run(db, calls).0.held == db.held
    ensures |brackets| == |calls| && forall b | b in brackets :: Bracket(b)
    ensures Run(db, calls).0.trace == db.trace + Flatten(brackets)
  {
    hide Executed, Bracket;
    if calls == [] {
      brackets := [];
    } else {
      var n := |calls| - 1;
      var front := RunConservesConnections(db, calls[..n]);
      RunSnoc(db, calls);
      hide Run;
      var mid := Run(db, calls[..n]).0;
      BeginIsEndedOnce(mid, calls[n].server, calls[n].fn);
      var last := Run(db, calls).0.trace[|mid.trace|..];
      brackets := front + [last];
      FlattenAppend(front, [last]);
      FlattenOne(last);
      hide Flatten;
      assert Run(db, calls).0.trace == mid.trace + last;
    }
  }
}
