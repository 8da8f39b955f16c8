/**
 * From a driver error to a status code: database/repositories/errors.go, the re-wraps of the services and
 * api/errors.go.
 */
module ErrorPath {
  import opened Wrappers
  import opened ErrorX
  import Text

  // ---------------------------------------------------------------- database/repositories/errors.go

  function Classify(e: Error): Error {
    if Is(e, NoRows) then Typed(e, ErrNotFound)
    else if Is(e, DeadlineExceeded) || Is(e, Canceled) then Typed(e, ErrUnavailable)
    else Typed(e, ErrInternal)
  }

  function NotFound(entity: string, id: string): Error {
    Typed(New(entity + " " + Text.Quoted(id) + " not found"), ErrNotFound)
  }

  // ---------------------------------------------------------------- internal/profile/service.go

  /** errorx.NewError(fmt.Errorf("prefix: %w", e), errorx.TypeOf(e)) */
  function Rewrap(prefix: string, e: Error): Error {
    Typed(Wrapped(prefix, e), TypeOf(Some(e)))
  }

  /** One re-wrap for each layer, the innermost first. */
  function Rewraps(prefixes: seq<string>, e: Error): Error {
    if prefixes == [] then e else Rewraps(prefixes[1..], Rewrap(prefixes[0], e))
  }

  // ---------------------------------------------------------------- api/errors.go

  /** What the caller of the service is sent instead of a result. */
  datatype Failure = Failure(status: nat, message: string)

  function StatusError(t: ErrorType): Failure {
    match t
    case ErrInvalidInput => Failure(400, "invalid request")
    case ErrUnauthorized => Failure(401, "unauthorized")
    case ErrForbidden => Failure(403, "forbidden")
    case ErrNotFound => Failure(404, "not found")
    case ErrUnavailable => Failure(503, "service unavailable")
    case ErrInternal => Failure(500, "internal server error")
    case Undeclared(_) => Failure(500, "internal server error")
  }

  function ApiError(err: Option<Error>): Option<Failure> {
    if err.None? then None else Some(StatusError(TypeOf(err)))
  }

  // ---------------------------------------------------------------- properties

  /** The response of each type of error. A type that is not declared is answered like an internal one. */
  lemma ResponseOfType(t: ErrorType)
    ensures ApiError(None) == None
    ensures StatusError(t) == match t
                              case ErrInvalidInput => Failure(400, "invalid request")
                              case ErrUnauthorized => Failure(401, "unauthorized")
                              case ErrForbidden => Failure(403, "forbidden")
                              case ErrNotFound => Failure(404, "not found")
                              case ErrUnavailable => Failure(503, "service unavailable")
                              case _ => Failure(500, "internal server error")
  {
  }

  /** The error of a missing row names the entity and the id, and no two ids give the same message. */
  lemma NotFoundTells(entity: string, id: string, other: string)
    ensures Text.Contains(Message(NotFound(entity, id)), entity)
    ensures Text.NeedsNoEscape(id) ==> Text.Contains(Message(NotFound(entity, id)), id)
    ensures Message(NotFound(entity, id)) == Message(NotFound(entity, other)) ==> id == other
  {
    NotFoundMessage(entity, id);
    NotFoundMessage(entity, other);
    var head := entity + " \"";
    var s, s' := Text.Escaped(id) + ("\"" + " not found"), Text.Escaped(other) + ("\"" + " not found");
    Text.ContainsPiece("", entity, " \"" + s);
    assert "" + entity + (" \"" + s) == head + s;
    hide Message, NotFound;
    if Text.NeedsNoEscape(id) {
      Text.EscapedWithoutNeed(id);
      Text.ContainsPiece(head, id, "\"" + " not found");
      Text.Assoc(head, id, "\"" + " not found");
    }
    if head + s == head + s' {
      assert s == (head + s)[|head|..] && s' == (head + s')[|head|..];
      Text.QuotedIsReadable(id, other, " not found", " not found");
    }
  }

  lemma NotFoundMessage(entity: string, id: string)
    ensures Message(NotFound(entity, id)) == (entity + " \"") + (Text.Escaped(id) + ("\"" + " not found"))
  {
    var e := Text.Escaped(id);
    Text.Assoc("\"", e, "\"");
    Text.Assoc(entity + " ", "\"", e + "\"");
    Text.Assoc(entity, " ", "\"");
    assert " " + "\"" == " \"";
    Text.Assoc(entity + " \"", e + "\"", " not found");
    Text.Assoc(e, "\"", " not found");
  }

  /** A response says nothing but its status: any two errors answered with the same one are answered alike. */
  lemma ResponseHidesReason(a: Error, b: Error)
    requires ApiError(Some(a)).value.status == ApiError(Some(b)).value.status
    ensures ApiError(Some(a)) == ApiError(Some(b))
  {
  }

  /** The status that a driver error deserves, read off its tree alone. */
  ghost function StatusFor(driver: Error): nat {
    if Carries(driver, NoRows) then 404
    else if Carries(driver, DeadlineExceeded) || Carries(driver, Canceled) then 503
    else 500
  }

  /** A domain type survives any number of re-wraps, and so does everything errors.Is could find. */
  lemma {:induction false} RewrapsKeepTypeAndCause(prefixes: seq<string>, e: Error, s: Sentinel)
    ensures TypeOf(Some(Rewraps(prefixes, e))) == TypeOf(Some(e))
    ensures Is(Rewraps(prefixes, e), s) <==> Is(e, s)
  {
    if prefixes == [] {
    } else {
      var once := Rewrap(prefixes[0], e);
      assert HoldsType()(once) && !Answers(s)(once) && !Answers(s)(once.cause);
      assert Find(once, Answers(s)) == Find(once.cause, Answers(s)) == Find(e, Answers(s));
      RewrapsKeepTypeAndCause(prefixes[1..], once, s);
    }
  }

  /** No layer between the driver and the log loses a text of the error. */
  lemma {:induction false} RewrapsSay(prefixes: seq<string>, e: Error, text: string)
    requires Says(e, text)
    ensures Says(Rewraps(prefixes, e), text)
  {
    if prefixes == [] {
    } else {
      RewrapsSay(prefixes[1..], Rewrap(prefixes[0], e), text);
    }
  }

  /** What reaches the log of a driver's error answers errors.Is like that error and contains every text of it. */
  lemma LogKeepsDriverError(repository: string, layers: seq<string>, driver: Error, s: Sentinel, text: string)
    ensures var logged := Rewraps(layers, Classify(Wrapped(repository, driver)));
            && (Is(logged, s) <==> Carries(driver, s))
            && (text == repository || Says(driver, text) ==> Text.Contains(Message(logged), text))
  {
    var e := Wrapped(repository, driver);
    var classified := Classify(e);
    SearchesMean(driver);
    assert !Answers(s)(e) && !Answers(s)(classified);
    assert Find(classified, Answers(s)) == Find(e, Answers(s)) == Find(driver, Answers(s));
    RewrapsKeepTypeAndCause(layers, classified, s);
    if text == repository || Says(driver, text) {
      RewrapsSay(layers, classified, text);
      MessageTellsAll(Rewraps(layers, classified), text);
    }
  }

  /**
   * The status the client sees depends on nothing but where sentinels occur in the driver's error tree: not on the
   * repository's message, not on the layers that re-wrapped, not on typed errors inside the driver's tree.
   */
  lemma StatusDecidedByDriverTree(repository: string, layers: seq<string>, driver: Error)
    ensures ApiError(Some(Rewraps(layers, Classify(Wrapped(repository, driver))))).value.status == StatusFor(driver)
  {
    var e := Wrapped(repository, driver);
    var classified := Classify(e);
    RewrapsKeepTypeAndCause(layers, classified, NoRows);
    assert HoldsType()(classified);
    SearchesMean(driver);
    forall s: Sentinel
      ensures Is(e, s) <==> Carries(driver, s)
    {
      assert !Answers(s)(e);
    }
  }

  /** A DELETE that matched no row is a 404 through any number of layers. */
  lemma ZeroRowsIsNotFound(entity: string, id: string, layers: seq<string>)
    ensures ApiError(Some(Rewraps(layers, NotFound(entity, id)))) == Some(Failure(404, "not found"))
  {
    RewrapsKeepTypeAndCause(layers, NotFound(entity, id), NoRows);
    assert HoldsType()(NotFound(entity, id));
  }
}
