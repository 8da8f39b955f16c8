/**
 * The profile table behind its four SQL statements, the repository that runs them, the service above it and the
 * status codes of the operations: database/repositories, internal/profile, api/operations.go.
 */
module Profiles {
  import opened Wrappers
  import opened ErrorX
  import opened ErrorPath
  import Text

  // ---------------------------------------------------------------- the table

  type Uuid = nat

  /** How Postgres reads a uuid from a text and writes it back: many texts may stand for one uuid. */
  datatype UuidText = UuidText(parse: string -> Option<Uuid>, format: Uuid -> string)
  {
    ghost predicate Lawful() {
      forall id: Uuid :: parse(format(id)) == Some(id)
    }
  }

  datatype Row = Row(firstName: string, lastName: string, createdAt: int, updatedAt: int)

  datatype Table = Table(rows: map<Uuid, Row>, now: int)

  /** NOT NULL CHECK (name <> '') on a VARCHAR(255) */
  predicate IsName(name: string) {
    0 < |name| <= 255
  }

  const NO_ROWS := Library("no rows in result set", {NoRows}, false, [])
  const BAD_UUID := Library("invalid input syntax for type uuid", {}, false, [])
  const VIOLATION := Library("new row violates a constraint", {}, false, [])

  /** A statement the server or the network failed, and whether its effect took place all the same. */
  datatype Fault = Fault(err: Error, applied: bool)

  /** What one statement meets: time that has passed, the next uuidv7(), and possibly a fault. */
  datatype Env = Env(elapsed: nat, nextId: Uuid, fault: Option<Fault>)

  datatype Statement =
    | Select(id: string)
    | Insert(firstName: string, lastName: string)
    | Update(firstName: string, lastName: string, id: string)
    | Delete(id: string)

  datatype Answer =
    | Selected(id: string, row: Row)
    | Stamped(id: string, createdAt: int, updatedAt: int)  // RETURNING id, created_at, updated_at
    | Affected(rows: nat)
    | SqlError(err: Error)

  /** The statement by itself, at the instant `now` of the table. */
  function Effect(ids: UuidText, t: Table, nextId: Uuid, s: Statement): (Table, Answer) {
    match s
    case Select(text) =>
      var id := ids.parse(text);
      if id.None? then (t, SqlError(BAD_UUID))
      else if id.value !in t.rows then (t, SqlError(NO_ROWS))
      else (t, Selected(ids.format(id.value), t.rows[id.value]))
    case Insert(first, last) =>
      if !IsName(first) || !IsName(last) || nextId in t.rows then (t, SqlError(VIOLATION))
      else (t.(rows := t.rows[nextId := Row(first, last, t.now, t.now)]), Stamped(ids.format(nextId), t.now, t.now))
    case Update(first, last, text) =>
      var id := ids.parse(text);
      if id.None? then (t, SqlError(BAD_UUID))
      else if id.value !in t.rows then (t, SqlError(NO_ROWS))
      else if !IsName(first) || !IsName(last) then (t, SqlError(VIOLATION))
      else
        var row := t.rows[id.value].(firstName := first, lastName := last, updatedAt := t.now);
        (t.(rows := t.rows[id.value := row]), Stamped(ids.format(id.value), row.createdAt, row.updatedAt))
    case Delete(text) =>
      var id := ids.parse(text);
      if id.None? then (t, SqlError(BAD_UUID))
      else (t.(rows := t.rows - {id.value}), Affected(if id.value in t.rows then 1 else 0))
  }

  function SqlStep(ids: UuidText, t: Table, env: Env, s: Statement): (Table, Answer) {
    var t := t.(now := t.now + env.elapsed);
    match env.fault
    case None => Effect(ids, t, env.nextId, s)
    case Some(Fault(err, applied)) =>
      (if applied then Effect(ids, t, env.nextId, s).0 else t, SqlError(err))
  }

  class Database {
    const ids: UuidText
    var rows: map<Uuid, Row>
    var now: int

    ghost function State(): Table
      reads this
    {
      Table(rows, now)
    }

    constructor (ids: UuidText, rows: map<Uuid, Row>, now: int)
      ensures this.ids == ids && State() == Table(rows, now)
    {
      this.ids, this.rows, this.now := ids, rows, now;
    }

    method Execute(env: Env, s: Statement) returns (a: Answer)
      modifies this
      ensures (State(), a) == SqlStep(ids, old(State()), env, s)
    {
      var (t, answer) := SqlStep(ids, Table(rows, now), env, s);
      rows, now := t.rows, t.now;
      a := answer;
    }
  }

  // ---------------------------------------------------------------- repository and service over values

  datatype View = View(id: string, firstName: string, lastName: string, createdAt: int, updatedAt: int)

  datatype Request =
    | GetRequest(id: string)
    | CreateRequest(firstName: string, lastName: string)
    | UpdateRequest(id: string, firstName: string, lastName: string)
    | DeleteRequest(id: string)

  datatype Reply = Profile(view: View) | Deleted | Failed(err: Error)

  function StatementOf(req: Request): Statement {
    match req
    case GetRequest(id) => Select(id)
    case CreateRequest(first, last) => Insert(first, last)
    case UpdateRequest(id, first, last) => Update(first, last, id)
    case DeleteRequest(id) => Delete(id)
  }

  function FailureText(req: Request): string {
    match req
    case GetRequest(_) => "failed to get profile by id"
    case CreateRequest(_, _) => "failed to create profile"
    case UpdateRequest(_, _, _) => "failed to update profile"
    case DeleteRequest(_) => "failed to delete profile by id"
  }

  /** What the repository makes of the answer to its statement. */
  function RepositoryReply(req: Request, a: Answer): Reply {
    match a
    case SqlError(err) => Failed(Classify(Wrapped(FailureText(req), err)))
    case Selected(id, row) => Profile(View(id, row.firstName, row.lastName, row.createdAt, row.updatedAt))
    case Stamped(id, createdAt, updatedAt) =>
      (match req
       case CreateRequest(first, last) => Profile(View(id, first, last, createdAt, updatedAt))
       case UpdateRequest(_, first, last) => Profile(View(id, first, last, createdAt, updatedAt))
       case _ => Deleted)
    case Affected(n) =>
      if n == 0 && req.DeleteRequest? then Failed(NotFound("profile", req.id)) else Deleted
  }

  function ServiceReply(req: Request, r: Reply): Reply {
    if r.Failed? then Failed(Rewrap(FailureText(req), r.err)) else r
  }

  function RepositoryStep(ids: UuidText, t: Table, env: Env, req: Request): (Table, Reply) {
    var (t', a) := SqlStep(ids, t, env, StatementOf(req));
    (t', RepositoryReply(req, a))
  }

  function ServiceStep(ids: UuidText, t: Table, env: Env, req: Request): (Table, Reply) {
    var (t', r) := RepositoryStep(ids, t, env, req);
    (t', ServiceReply(req, r))
  }

  /** The status the operation answers with. */
  function Status(req: Request, r: Reply): nat {
    match r
    case Failed(err) => StatusError(TypeOf(Some(err))).status
    case _ => if req.CreateRequest? then 201 else if req.DeleteRequest? then 204 else 200
  }

  // ---------------------------------------------------------------- the objects that carry the values

  class Model {
    var id: string
    var firstName: string
    var lastName: string
    var createdAt: int
    var updatedAt: int

    ghost function Value(): View
      reads this
    {
      View(id, firstName, lastName, createdAt, updatedAt)
    }

    constructor ()
      ensures Value() == View("", "", "", 0, 0)
    {
      id, firstName, lastName, createdAt, updatedAt := "", "", "", 0, 0;
    }

    method WithId(id: string)
      modifies this
      ensures Value() == old(Value()).(id := id)
    {
      this.id := id;
    }

    method WithFirstName(firstName: string)
      modifies this
      ensures Value() == old(Value()).(firstName := firstName)
    {
      this.firstName := firstName;
    }

    method WithLastName(lastName: string)
      modifies this
      ensures Value() == old(Value()).(lastName := lastName)
    {
      this.lastName := lastName;
    }
  }

  class Response {
    var id: string
    var firstName: string
    var lastName: string
    var createdAt: int
    var updatedAt: int

    ghost function Value(): View
      reads this
    {
      View(id, firstName, lastName, createdAt, updatedAt)
    }

    constructor () {
      id, firstName, lastName, createdAt, updatedAt := "", "", "", 0, 0;
    }

    method FromModel(u: Model)
      modifies this
      ensures Value() == u.Value()
    {
      id := u.id;
      firstName := u.firstName;
      lastName := u.lastName;
      createdAt := u.createdAt;
      updatedAt := u.updatedAt;
    }
  }

  /** What a repository method returned, as a reply: the profile in the object, or the error beside no object. */
  ghost predicate Returns(p: Model?, err: Option<Error>, r: Reply)
    reads p
  {
    match r
    case Profile(view) => err.None? && p != null && p.Value() == view
    case Failed(e) => err == Some(e) && p == null
    case Deleted => false
  }

  class Repository {
    const db: Database

    constructor (db: Database)
      ensures this.db == db
    {
      this.db := db;
    }

    method GetById(env: Env, id: string) returns (p: Model?, err: Option<Error>)
      modifies db
      ensures var (t, r) := RepositoryStep(db.ids, old(db.State()), env, GetRequest(id));
              db.State() == t && Returns(p, err, r)
      ensures p != null ==> fresh(p)
    {
      var found := new Model();
      var a := db.Execute(env, Select(id));
      if a.SqlError? {
        return null, Some(Classify(Wrapped("failed to get profile by id", a.err)));
      }
      found.id, found.firstName, found.lastName := a.id, a.row.firstName, a.row.lastName;
      found.createdAt, found.updatedAt := a.row.createdAt, a.row.updatedAt;
      return found, None;
    }

    /** Scan writes what RETURNING sent into the object that was passed in, and that object comes back. */
    method Create(env: Env, p: Model) returns (created: Model?, err: Option<Error>)
      modifies db, p
      ensures var (t, r) := RepositoryStep(db.ids, old(db.State()), env,
                                           CreateRequest(old(p.firstName), old(p.lastName)));
              db.State() == t && Returns(created, err, r)
      ensures created == null || created == p
      ensures created == null ==> p.Value() == old(p.Value())
    {
      var a := db.Execute(env, Insert(p.firstName, p.lastName));
      if a.SqlError? {
        return null, Some(Classify(Wrapped("failed to create profile", a.err)));
      }
      p.id, p.createdAt, p.updatedAt := a.id, a.createdAt, a.updatedAt;
      return p, None;
    }

    method Update(env: Env, p: Model) returns (updated: Model?, err: Option<Error>)
      modifies db, p
      ensures var (t, r) := RepositoryStep(db.ids, old(db.State()), env,
                                           UpdateRequest(old(p.id), old(p.firstName), old(p.lastName)));
              db.State() == t && Returns(updated, err, r)
      ensures updated == null || updated == p
      ensures updated == null ==> p.Value() == old(p.Value())
    {
      var a := db.Execute(env, Statement.Update(p.firstName, p.lastName, p.id));
      if a.SqlError? {
        return null, Some(Classify(Wrapped("failed to update profile", a.err)));
      }
      p.id, p.createdAt, p.updatedAt := a.id, a.createdAt, a.updatedAt;
      return p, None;
    }

    method DeleteById(env: Env, id: string) returns (err: Option<Error>)
      modifies db
      ensures var (t, r) := RepositoryStep(db.ids, old(db.State()), env, DeleteRequest(id));
              db.State() == t && (if err.None? then r == Deleted else r == Failed(err.value))
    {
      var a := db.Execute(env, Delete(id));
      if a.SqlError? {
        return Some(Classify(Wrapped("failed to delete profile by id", a.err)));
      }
      if a.rows == 0 {
        return Some(NotFound("profile", id));
      }
      return None;
    }
  }

  /** What a service method returned, as a reply. */
  ghost predicate Delivers(res: Response?, err: Option<Error>, r: Reply)
    reads res
  {
    match r
    case Profile(view) => err.None? && res != null && res.Value() == view
    case Failed(e) => err == Some(e) && res == null
    case Deleted => false
  }

  class Service {
    const repo: Repository

    constructor (repo: Repository)
      ensures this.repo == repo
    {
      this.repo := repo;
    }

    method GetById(env: Env, id: string) returns (res: Response?, err: Option<Error>)
      modifies repo.db
      ensures var (t, r) := ServiceStep(repo.db.ids, old(repo.db.State()), env, GetRequest(id));
              repo.db.State() == t && Delivers(res, err, r)
    {
      var u, e := repo.GetById(env, id);
      if e.Some? {
        return null, Some(Typed(Wrapped("failed to get profile by id", e.value), TypeOf(e)));
      }
      res := new Response();
      res.FromModel(u);
      return res, None;
    }

    method Create(env: Env, firstName: string, lastName: string) returns (res: Response?, err: Option<Error>)
      modifies repo.db
      ensures var (t, r) := ServiceStep(repo.db.ids, old(repo.db.State()), env, CreateRequest(firstName, lastName));
              repo.db.State() == t && Delivers(res, err, r)
    {
      var p := new Model();
      p.WithFirstName(firstName);
      p.WithLastName(lastName);
      var created, e := repo.Create(env, p);
      if e.Some? {
        return null, Some(Typed(Wrapped("failed to create profile", e.value), TypeOf(e)));
      }
      res := new Response();
      res.FromModel(created);
      return res, None;
    }

    method Update(env: Env, id: string, firstName: string, lastName: string)
      returns (res: Response?, err: Option<Error>)
      modifies repo.db
      ensures var (t, r) := ServiceStep(repo.db.ids, old(repo.db.State()), env, UpdateRequest(id, firstName, lastName));
              repo.db.State() == t && Delivers(res, err, r)
    {
      var u := new Model();
      u.WithId(id);
      u.WithFirstName(firstName);
      u.WithLastName(lastName);
      var updated, e := repo.Update(env, u);
      if e.Some? {
        return null, Some(Typed(Wrapped("failed to update profile", e.value), TypeOf(e)));
      }
      res := new Response();
      res.FromModel(updated);
      return res, None;
    }

    method DeleteById(env: Env, id: string) returns (ok: bool, err: Option<Error>)
      modifies repo.db
      ensures var (t, r) := ServiceStep(repo.db.ids, old(repo.db.State()), env, DeleteRequest(id));
              repo.db.State() == t && (if ok then err.None? && r == Deleted else err.Some? && r == Failed(err.value))
    {
      var e := repo.DeleteById(env, id);
      if e.Some? {
        return false, Some(Typed(Wrapped("failed to delete profile by id", e.value), TypeOf(e)));
      }
      return true, None;
    }
  }

  // ---------------------------------------------------------------- properties of one request

  /** What holds of the table in every reachable state. */
  ghost predicate Sound(t: Table) {
    forall id | id in t.rows :: SoundRow(t.rows[id], t.now)
  }

  ghost predicate SoundRow(row: Row, now: int) {
    && 1 <= |row.firstName| <= 255 && 1 <= |row.lastName| <= 255
    && row.createdAt <= row.updatedAt <= now
  }

  /** A request names this row in order to change it. */
  ghost predicate Targets(ids: UuidText, req: Request, id: Uuid) {
    (req.UpdateRequest? || req.DeleteRequest?) && ids.parse(req.id) == Some(id)
  }

  /**
   * A row that the request does not name is left alone; one that is there before and after has the creation instant it
   * had; only a DELETE that names a row removes it and only a CREATE that is given its id adds it; and time goes on.
   */
  ghost predicate KeepsRow(ids: UuidText, t: Table, env: Env, req: Request, t': Table, id: Uuid) {
    && t'.now == t.now + env.elapsed
    && (id in t'.rows ==> SoundRow(t'.rows[id], t'.now))
    && (id in t.rows && !Targets(ids, req, id) ==> id in t'.rows && t'.rows[id] == t.rows[id])
    && (id in t.rows && id in t'.rows ==> t'.rows[id].createdAt == t.rows[id].createdAt)
    && (id in t.rows && id !in t'.rows ==> req.DeleteRequest? && ids.parse(req.id) == Some(id))
    && (id !in t.rows && id in t'.rows ==> req.CreateRequest? && id == env.nextId)
  }

  lemma StepKeepsRow(ids: UuidText, t: Table, env: Env, req: Request, id: Uuid)
    requires id in t.rows ==> SoundRow(t.rows[id], t.now)
    ensures KeepsRow(ids, t, env, req, ServiceStep(ids, t, env, req).0, id)
  {
    hide RepositoryReply, ServiceReply;
  }

  /** Every request keeps the table sound, and every row as far as it does not name it. */
  lemma StepKeepsTable(ids: UuidText, t: Table, env: Env, req: Request)
    requires Sound(t)
    ensures var t' := ServiceStep(ids, t, env, req).0;
            Sound(t') && forall id :: KeepsRow(ids, t, env, req, t', id)
  {
    hide ServiceStep, SoundRow;
    var t' := ServiceStep(ids, t, env, req).0;
    forall id: Uuid
      ensures KeepsRow(ids, t, env, req, t', id)
    {
      StepKeepsRow(ids, t, env, req, id);
    }
    forall id | id in t'.rows
      ensures SoundRow(t'.rows[id], t'.now)
    {
      assert KeepsRow(ids, t, env, req, t', id);
    }
  }

  /** The request asks for a row of these names under this id. */
  ghost predicate Asks(ids: UuidText, env: Env, req: Request, id: Uuid, row: Row) {
    match req
    case CreateRequest(first, last) => env.nextId == id && row.firstName == first && row.lastName == last
    case UpdateRequest(text, first, last) =>
      ids.parse(text) == Some(id) && row.firstName == first && row.lastName == last
    case _ => false
  }

  /** A row that is new or differs after a request holds the names that the request asked for. */
  lemma NewRowWasAsked(ids: UuidText, t: Table, env: Env, req: Request, id: Uuid)
    requires var t' := ServiceStep(ids, t, env, req).0;
             id in t'.rows && (id in t.rows ==> t'.rows[id] != t.rows[id])
    ensures Asks(ids, env, req, id, ServiceStep(ids, t, env, req).0.rows[id])
  {
  }

  /** The row that a successful request is about, as the table has it afterwards. */
  ghost predicate Shows(ids: UuidText, t: Table, id: Uuid, view: View) {
    && id in t.rows
    && var row := t.rows[id];
       view == View(ids.format(id), row.firstName, row.lastName, row.createdAt, row.updatedAt)
  }

  /** A profile in a reply is the stored row under its canonical id, whichever request asked, under any spelling. */
  lemma RepliesShowRows(ids: UuidText, t: Table, env: Env, req: Request)
    requires ServiceStep(ids, t, env, req).1.Profile?
    ensures var (t', r) := ServiceStep(ids, t, env, req);
            exists id: Uuid :: Shows(ids, t', id, r.view) &&
                         match req
                         case CreateRequest(first, last) =>
                           id == env.nextId && id !in t.rows && r.view.firstName == first && r.view.lastName == last
                           && r.view.createdAt == r.view.updatedAt == t'.now
                         case UpdateRequest(text, first, last) =>
                           ids.parse(text) == Some(id) && r.view.firstName == first && r.view.lastName == last
                           && r.view.updatedAt == t'.now
                         case GetRequest(text) => ids.parse(text) == Some(id) && t'.rows == t.rows
                         case DeleteRequest(_) => false
  {
  }

  /** The status of a failed statement depends on nothing but the driver's error tree. */
  lemma StatusOfFailure(ids: UuidText, t: Table, env: Env, req: Request)
    requires SqlStep(ids, t, env, StatementOf(req)).1.SqlError?
    ensures Status(req, ServiceStep(ids, t, env, req).1) == StatusFor(SqlStep(ids, t, env, StatementOf(req)).1.err)
  {
    var e := SqlStep(ids, t, env, StatementOf(req)).1.err;
    StatusDecidedByDriverTree(FailureText(req), [FailureText(req)], e);
    var c := Classify(Wrapped(FailureText(req), e));
    assert [FailureText(req)][1..] == [];
    assert Rewraps([FailureText(req)], c) == Rewrap(FailureText(req), c);
  }

  /**
   * A statement that the server or the network failed is answered with the status of that fault, whatever the request,
   * and the error that is logged keeps all that errors.Is would find in it and every text of it, and says what failed.
   */
  lemma FaultDecidesStatus(ids: UuidText, t: Table, env: Env, req: Request, s: Sentinel, text: string)
    requires env.fault.Some?
    ensures var r := ServiceStep(ids, t, env, req).1;
            && r.Failed? && Status(req, r) == StatusFor(env.fault.value.err)
            && (Is(r.err, s) <==> Carries(env.fault.value.err, s))
            && (Says(env.fault.value.err, text) ==> Text.Contains(Message(r.err), text))
            && Text.Contains(Message(r.err), match req
                                             case GetRequest(_) => "failed to get profile by id"
                                             case CreateRequest(_, _) => "failed to create profile"
                                             case UpdateRequest(_, _, _) => "failed to update profile"
                                             case DeleteRequest(_) => "failed to delete profile by id")
  {
    hide Text.Contains;
    var driver := env.fault.value.err;
    StatusOfFailure(ids, t, env, req);
    LogKeepsDriverError(FailureText(req), [FailureText(req)], driver, s, text);
    LogKeepsDriverError(FailureText(req), [FailureText(req)], driver, s, FailureText(req));
    var c := Classify(Wrapped(FailureText(req), driver));
    assert [FailureText(req)][1..] == [];
    assert Rewraps([FailureText(req)], c) == Rewrap(FailureText(req), c);
  }

  /** A fault that lets its statement take place leaves the table that the statement by itself leaves. */
  lemma AppliedFaultHidesEffect(ids: UuidText, t: Table, env: Env, req: Request)
    requires env.fault.Some? && env.fault.value.applied
    ensures ServiceStep(ids, t, env, req).0 == ServiceStep(ids, t, env.(fault := None), req).0
  {
  }

  /** The stored row that a request is about is missing. */
  ghost predicate Misses(ids: UuidText, t: Table, req: Request) {
    !req.CreateRequest? && ids.parse(req.id).Some? && ids.parse(req.id).value !in t.rows
  }

  /** The id can be read, the names fit their columns, and the generated id is a new one. */
  ghost predicate WellFormed(ids: UuidText, t: Table, env: Env, req: Request) {
    && (!req.CreateRequest? ==> ids.parse(req.id).Some?)
    && (req.CreateRequest? ==> env.nextId !in t.rows)
    && (req.CreateRequest? || req.UpdateRequest? ==>
          1 <= |req.firstName| <= 255 && 1 <= |req.lastName| <= 255)
  }

  /**
   * Without faults a request is answered with 404 exactly when it names a row that is not there, with 500 when it is
   * not well formed otherwise, and in all other cases it succeeds with 201 for a create, 204 for a delete and 200 for
   * a read or an update.
   */
  lemma StatusWithoutFaults(ids: UuidText, t: Table, env: Env, req: Request)
    requires env.fault.None?
    ensures var r := ServiceStep(ids, t, env, req).1;
            if Misses(ids, t, req) then Status(req, r) == 404
            else if !WellFormed(ids, t, env, req) then Status(req, r) == 500
            else !r.Failed? && Status(req, r) == match req
                                                 case CreateRequest(_, _) => 201
                                                 case DeleteRequest(_) => 204
                                                 case GetRequest(_) => 200
                                                 case UpdateRequest(_, _, _) => 200
  {
    var (t', a) := SqlStep(ids, t, env, StatementOf(req));
    if a.SqlError? {
      StatusOfFailure(ids, t, env, req);
      assert a.err == if Misses(ids, t, req) then NO_ROWS else if a.err == BAD_UUID then BAD_UUID else VIOLATION;
      StatusOfOwnErrors();
    } else if Misses(ids, t, req) {
      ZeroRowsIsNotFound("profile", req.id, [FailureText(req)]);
      var e := NotFound("profile", req.id);
      assert [FailureText(req)][1..] == [];
      assert Rewraps([FailureText(req)], e) == Rewrap(FailureText(req), e);
    }
  }

  /** A delete of a missing row is answered with an error that names the profile and the id that was asked for. */
  lemma MissingDeleteTells(ids: UuidText, t: Table, env: Env, req: Request)
    requires req.DeleteRequest? && env.fault.None? && Misses(ids, t, req)
    ensures var r := ServiceStep(ids, t, env, req).1;
            && r.Failed? && Text.Contains(Message(r.err), "profile")
            && (Text.NeedsNoEscape(req.id) ==> Text.Contains(Message(r.err), req.id))
  {
    var r := ServiceStep(ids, t, env, req).1;
    var e := NotFound("profile", req.id);
    NotFoundTells("profile", req.id, req.id);
    assert r == Failed(Rewrap(FailureText(req), e));
    hide ServiceStep, NotFound, Text.Contains, Text.NeedsNoEscape;
    var text := FailureText(req) + ": ";
    assert Message(r.err) == text + Message(e) + "";
    Text.ContainsInside(text, Message(e), "", "profile");
    if Text.NeedsNoEscape(req.id) {
      Text.ContainsInside(text, Message(e), "", req.id);
    }
  }

  lemma StatusOfOwnErrors()
    ensures StatusFor(NO_ROWS) == 404 && StatusFor(BAD_UUID) == 500 && StatusFor(VIOLATION) == 500
  {
    assert Nodes(NO_ROWS) == [NO_ROWS] && Nodes(BAD_UUID) == [BAD_UUID] && Nodes(VIOLATION) == [VIOLATION];
    assert Answers(NoRows)(NO_ROWS) && NO_ROWS in Nodes(NO_ROWS);
  }

  /** Whatever the faults, a request for a missing row changes no row. */
  lemma MissingRowChangesNothing(ids: UuidText, t: Table, env: Env, req: Request)
    requires Misses(ids, t, req)
    ensures ServiceStep(ids, t, env, req).0.rows == t.rows
  {
    assert t.rows - {ids.parse(req.id).value} == t.rows;
  }

  /** A delete that succeeds has removed the row it names and no other one, so the next read of it is a 404. */
  lemma DeletedIsGone(ids: UuidText, t: Table, env: Env, req: Request, next: Env)
    requires ServiceStep(ids, t, env, req).1.Deleted? && next.fault.None?
    ensures req.DeleteRequest? && ids.parse(req.id).Some? && ids.parse(req.id).value in t.rows
    ensures var t' := ServiceStep(ids, t, env, req).0;
            && t'.rows == t.rows - {ids.parse(req.id).value}
            && Status(GetRequest(req.id), ServiceStep(ids, t', next, GetRequest(req.id)).1) == 404
  {
    StatusWithoutFaults(ids, ServiceStep(ids, t, env, req).0, next, GetRequest(req.id));
  }

  /** A failed request has changed nothing, unless a fault hid that its statement had taken place. */
  lemma FailureChangesNothing(ids: UuidText, t: Table, env: Env, req: Request)
    requires ServiceStep(ids, t, env, req).1.Failed?
    requires env.fault.Some? ==> !env.fault.value.applied
    ensures ServiceStep(ids, t, env, req).0.rows == t.rows
  {
    if Misses(ids, t, req) {
      MissingRowChangesNothing(ids, t, env, req);
    }
  }

  // ---------------------------------------------------------------- properties of runs

  datatype Call = Call(env: Env, req: Request)

  /** The table after a run of requests. */
  function Run(ids: UuidText, t: Table, calls: seq<Call>): Table {
    if calls == [] then t
    else
      var last := calls[|calls| - 1];
      ServiceStep(ids, Run(ids, t, calls[..|calls| - 1]), last.env, last.req).0
  }

  /** Every reachable state is sound: over any run created_at <= updated_at <= now, and time does not go back. */
  lemma {:induction false} RunStaysSound(ids: UuidText, t: Table, calls: seq<Call>)
    requires Sound(t)
    ensures Sound(Run(ids, t, calls)) && t.now <= Run(ids, t, calls).now
  {
    if calls == [] {
    } else {
      var n := |calls| - 1;
      hide ServiceStep, Sound;
      RunStaysSound(ids, t, calls[..n]);
      StepKeepsTable(ids, Run(ids, t, calls[..n]), calls[n].env, calls[n].req);
      assert KeepsRow(ids, Run(ids, t, calls[..n]), calls[n].env, calls[n].req, Run(ids, t, calls), 0);
    }
  }

  /** The call does not name this row in order to change it, or it was answered with a failure that hides no effect. */
  ghost predicate Spares(ids: UuidText, t: Table, call: Call, id: Uuid) {
    || !Targets(ids, call.req, id)
    || (&& ServiceStep(ids, t, call.env, call.req).1.Failed?
        && (call.env.fault.Some? ==> !call.env.fault.value.applied))
  }

  /** Every call of the run spares the row, in the table it meets. */
  ghost predicate AllSpare(ids: UuidText, t: Table, calls: seq<Call>, id: Uuid) {
    forall k | 0 <= k < |calls| :: Spares(ids, Run(ids, t, calls[..k]), calls[k], id)
  }

  lemma SparedRowStays(ids: UuidText, t: Table, call: Call, id: Uuid)
    requires Sound(t) && id in t.rows && Spares(ids, t, call, id)
    ensures var t' := ServiceStep(ids, t, call.env, call.req).0;
            id in t'.rows && t'.rows[id] == t.rows[id]
  {
    if Targets(ids, call.req, id) {
      FailureChangesNothing(ids, t, call.env, call.req);
    } else {
      StepKeepsTable(ids, t, call.env, call.req);
      assert KeepsRow(ids, t, call.env, call.req, ServiceStep(ids, t, call.env, call.req).0, id);
    }
  }

  lemma CreationInstantStays(ids: UuidText, t: Table, call: Call, id: Uuid)
    requires Sound(t)
    ensures var t' := ServiceStep(ids, t, call.env, call.req).0;
            id in t.rows && id in t'.rows ==> t'.rows[id].createdAt == t.rows[id].createdAt
  {
    StepKeepsTable(ids, t, call.env, call.req);
    assert KeepsRow(ids, t, call.env, call.req, ServiceStep(ids, t, call.env, call.req).0, id);
  }

  lemma RunSnoc(ids: UuidText, t: Table, calls: seq<Call>)
    requires calls != []
    ensures var n := |calls| - 1;
            Run(ids, t, calls) == ServiceStep(ids, Run(ids, t, calls[..n]), calls[n].env, calls[n].req).0
  {
    hide ServiceStep;
  }

  /**
   * Over any run a row stays as it is if every update or delete that names it fails without effect, and a row that is
   * there all the time keeps its creation instant, whatever names it.
   */
  lemma {:induction false} RunKeepsRow(ids: UuidText, t: Table, calls: seq<Call>, id: Uuid)
    requires Sound(t) && id in t.rows
    ensures AllSpare(ids, t, calls, id) ==>
              id in Run(ids, t, calls).rows && Run(ids, t, calls).rows[id] == t.rows[id]
    ensures (forall k | 0 <= k <= |calls| :: id in Run(ids, t, calls[..k]).rows) ==>
              id in Run(ids, t, calls).rows && Run(ids, t, calls).rows[id].createdAt == t.rows[id].createdAt
  {
    if calls == [] {
    } else {
      var n := |calls| - 1;
      var front, last := calls[..n], calls[n];
      RunKeepsRow(ids, t, front, id);
      RunStaysSound(ids, t, front);
      RunSnoc(ids, t, calls);
      assert calls[..|calls|] == calls;
      forall k | 0 <= k <= |front|
        ensures front[..k] == calls[..k]
      {
      }
      hide ServiceStep, Sound, Run;
      CreationInstantStays(ids, Run(ids, t, front), last, id);
      if AllSpare(ids, t, calls, id) {
        assert AllSpare(ids, t, front, id);
        SparedRowStays(ids, Run(ids, t, front), last, id);
      }
      if forall k | 0 <= k <= |calls| :: id in Run(ids, t, calls[..k]).rows {
        assert id in Run(ids, t, calls[..|calls|]).rows && id in Run(ids, t, calls[..n]).rows;
        assert forall k | 0 <= k <= |front| :: id in Run(ids, t, front[..k]).rows;
      }
    }
  }

  /**
   * What a create or an update answered is what any later read of that row answers, under every spelling of its id,
   * for as long as every other request that names the row in order to change it fails without effect.
   */
  lemma ReadsSeeTheLastWrite(ids: UuidText, t: Table, write: Call, between: seq<Call>, read: Call)
    requires ids.Lawful() && Sound(t)
    requires write.req.CreateRequest? || write.req.UpdateRequest?
    requires ServiceStep(ids, t, write.env, write.req).1.Profile?
    requires read.req.GetRequest? && read.env.fault.None?
    requires ids.parse(read.req.id) == ids.parse(ServiceStep(ids, t, write.env, write.req).1.view.id)
    requires var t1 := ServiceStep(ids, t, write.env, write.req).0;
             forall id | ids.parse(read.req.id) == Some(id) :: AllSpare(ids, t1, between, id)
    ensures var (t1, written) := ServiceStep(ids, t, write.env, write.req);
            ServiceStep(ids, Run(ids, t1, between), read.env, read.req).1 == written
  {
    var (t1, written) := ServiceStep(ids, t, write.env, write.req);
    RepliesShowRows(ids, t, write.env, write.req);
    StepKeepsTable(ids, t, write.env, write.req);
    var id: Uuid :| Shows(ids, t1, id, written.view);
    assert ids.parse(ids.format(id)) == Some(id);
    RunKeepsRow(ids, t1, between, id);
  }
}
