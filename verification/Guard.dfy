/** The guard in front of an operation, and what the generated document says about it: api/auth.go. */
module Guard {
  import opened Wrappers
  import opened Authx
  import opened ErrorX
  import opened ErrorPath
  import opened Requirements
  import RequirementsText
  import T = Text
  import V = Verify

  const BEARER_PREFIX := "Bearer "
  const SECURITY_SCHEME_NAME := "bearerAuth"
  const CHALLENGE := "Bearer error=\"invalid_token\""

  // ---------------------------------------------------------------- bearerToken

  function BearerToken(header: string): (string, bool) {
    if |header| < |BEARER_PREFIX| || !T.EqualFold(header[..|BEARER_PREFIX|], BEARER_PREFIX) then ("", false)
    else
      var token := T.TrimSpace(header[|BEARER_PREFIX|..]);
      (token, token != "")
  }

  /** The header is the scheme in any letter case with its space, padding, a non-empty trimmed token, padding. */
  ghost predicate Presents(header: string, token: string) {
    && token != "" && T.Trimmed(token)
    && exists scheme, l, r :: IsBearerHeader(header, scheme, l, token, r)
  }

  ghost predicate IsBearerHeader(header: string, scheme: string, l: string, token: string, r: string) {
    header == scheme + (l + token + r) && T.DifferInCaseOnly(scheme, "Bearer ") && T.AllSpace(l) && T.AllSpace(r)
  }

  lemma SameLength(s: string, t: string)
    requires T.DifferInCaseOnly(s, t)
    ensures |s| == |t|
  {
  }

  /** A header is read as a token exactly when it was formed from that token; any other header counts as absent. */
  lemma BearerTokenInvertsFormation(header: string, token: string)
    ensures BearerToken(header) == (token, true) <==> Presents(header, token)
    ensures !BearerToken(header).1 ==> BearerToken(header).0 == ""
  {
    hide T.EqualFold, T.DifferInCaseOnly;
    if |header| >= |BEARER_PREFIX| {
      T.EqualFoldIffCase(header[..|BEARER_PREFIX|], BEARER_PREFIX);
    }
    if Presents(header, token) {
      var scheme, l, r :| IsBearerHeader(header, scheme, l, token, r);
      assert |scheme| == |BEARER_PREFIX| by {
        T.EqualFoldIffCase(scheme, "Bearer ");
        SameLength(scheme, "Bearer ");
      }
      assert header[..|BEARER_PREFIX|] == scheme && header[|BEARER_PREFIX|..] == l + token + r;
      T.TrimSpaceOfPadded(l, token, r);
    }
    if BearerToken(header) == (token, true) {
      var scheme, rest := header[..|BEARER_PREFIX|], header[|BEARER_PREFIX|..];
      var l, r := T.TrimSpaceSplits(rest);
      assert header == scheme + rest;
      assert IsBearerHeader(header, scheme, l, token, r);
    }
  }

  /** The scheme in lower case, as section 2.1 of RFC 7235 allows. */
  lemma LowerCaseSchemeIsRead()
    ensures BearerToken("bearer abc") == ("abc", true)
  {
    var header := "bearer abc";
    assert header == "bearer " + ("" + "abc" + "");
    assert IsBearerHeader(header, "bearer ", "", "abc", "");
    BearerTokenInvertsFormation(header, "abc");
  }

  // ---------------------------------------------------------------- middleware and deny

  datatype Decision =
    | Admit(id: Identity)
    | Deny(etype: ErrorType, reason: string, extra: seq<(string, string)>)

  /** What the guard concludes from a header when this verifier is asked. */
  ghost function Decide(req: Requirements, header: string, verify: string -> V.Verdict): Decision {
    var (token, present) := BearerToken(header);
    if !present then Deny(ErrUnauthorized, "no bearer token presented", [])
    else
      var verdict := verify(token);
      if verdict.err.Some? then
        Deny(TypeOf(verdict.err), "token rejected", [("error", Message(verdict.err.value))])
      else if !Meets(req, verdict.id) then
        Deny(ErrForbidden, "requirement not satisfied",
             [("subject", verdict.id.subject), ("required", RequirementsText.Render(req))])
      else Admit(verdict.id)
  }

  datatype Record = Record(operation: string, reason: string, status: nat, extra: seq<(string, string)>)

  /** One request to an operation, as the router context shows it to a middleware. */
  class Exchange {
    const operation: string
    const authorization: string
    const context: Context
    var challenge: Option<string>   // the WWW-Authenticate header
    var errors: seq<Failure>        // error responses written
    var handled: seq<Context>       // calls of the next handler

    constructor (operation: string, authorization: string, context: Context)
      ensures this.operation == operation && this.authorization == authorization && this.context == context
      ensures challenge == None && errors == [] && handled == []
    {
      this.operation, this.authorization, this.context := operation, authorization, context;
      challenge, errors, handled := None, [], [];
    }
  }

  class Guard {
    const verify: string -> V.Verdict
    var log: seq<Record>

    constructor (verify: string -> V.Verdict)
      ensures this.verify == verify && log == []
    {
      this.verify, log := verify, [];
    }

    /** The check that secured attaches for one requirement, run on one request. */
    method Middleware(req: Requirements, ctx: Exchange)
      modifies this`log, ctx`challenge, ctx`errors, ctx`handled
      ensures match Decide(req, ctx.authorization, verify)
              case Admit(id) =>
                && ctx.handled == old(ctx.handled) + [NewContext(ctx.context, id)]
                && ctx.errors == old(ctx.errors) && ctx.challenge == old(ctx.challenge) && log == old(log)
              case Deny(etype, reason, extra) =>
                && ctx.handled == old(ctx.handled)
                && ctx.errors == old(ctx.errors) + [StatusError(etype)]
                && ctx.challenge == (if StatusError(etype).status == 401 then Some("Bearer error=\"invalid_token\"")
                                      else old(ctx.challenge))
                && log == old(log) + [Record(ctx.operation, reason, StatusError(etype).status, extra)]
    {
      var (token, ok) := BearerToken(ctx.authorization);
      if !ok {
        DenyRequest(ctx, ErrUnauthorized, "no bearer token presented", []);
        return;
      }
      var verdict := verify(token);
      if verdict.err.Some? {
        DenyRequest(ctx, TypeOf(verdict.err), "token rejected", [("error", Message(verdict.err.value))]);
        return;
      }
      var satisfied := Satisfied(req, verdict.id);
      if !satisfied {
        var required := RequirementsText.String(req);
        DenyRequest(ctx, ErrForbidden, "requirement not satisfied",
                    [("subject", verdict.id.subject), ("required", required)]);
        return;
      }
      ctx.handled := ctx.handled + [NewContext(ctx.context, verdict.id)];
    }

    method DenyRequest(ctx: Exchange, etype: ErrorType, reason: string, extra: seq<(string, string)>)
      modifies this`log, ctx`challenge, ctx`errors
      ensures ctx.errors == old(ctx.errors) + [StatusError(etype)]
      ensures ctx.challenge == if StatusError(etype).status == 401 then Some("Bearer error=\"invalid_token\"")
                               else old(ctx.challenge)
      ensures log == old(log) + [Record(ctx.operation, reason, StatusError(etype).status, extra)]
    {
      var status := StatusError(etype);
      if etype == ErrUnauthorized {
        ctx.challenge := Some(CHALLENGE);
      }
      log := log + [Record(ctx.operation, reason, status.status, extra)];
      ctx.errors := ctx.errors + [status];
    }
  }

  /** The repository's own verifier, as the guard calls it. */
  function OwnVerifier(cfg: V.Config, lib: V.Library): string -> V.Verdict {
    (raw: string) => V.Judge(cfg, lib, raw)
  }

  /** The status of a decision, 200 standing for a handler that was called. */
  ghost function StatusOf(d: Decision): nat {
    match d
    case Admit(_) => 200
    case Deny(etype, _, _) => StatusError(etype).status
  }

  /** The token was checked, everything about it is in order, and the identity it stands for meets the requirement. */
  ghost predicate Entitled(cfg: V.Config, lib: V.Library, req: Requirements, token: string) {
    && V.Acceptable(cfg, lib, token)
    && Meets(req, V.IdentityFrom(cfg, lib.check(token).subject, lib.check(token).decoded.claims))
  }

  /**
   * With the repository's own verifier the guard ends a request in one of four ways, each for exactly one reason:
   * no token is 401, a check that failed with the signs of an outage is 503, any other refusal is 401, an unmet
   * requirement is 403, and the handler runs for the entitled alone, with their identity. It never answers 500.
   */
  lemma GuardIsExact(cfg: V.Config, lib: V.Library, req: Requirements, header: string)
    ensures var d := Decide(req, header, OwnVerifier(cfg, lib));
            StatusOf(d) in {200, 401, 403, 503}
    ensures var d := Decide(req, header, OwnVerifier(cfg, lib));
            (forall token :: !Presents(header, token)) ==> StatusOf(d) == 401
    ensures var d := Decide(req, header, OwnVerifier(cfg, lib));
            forall token | Presents(header, token) ::
              && (StatusOf(d) == 200 <==> Entitled(cfg, lib, req, token))
              && (StatusOf(d) == 403 <==> V.Acceptable(cfg, lib, token) && !Entitled(cfg, lib, req, token))
              && (StatusOf(d) == 503 <==> V.FailsWithSigns(lib.check(token)))
              && (d.Admit? ==> d.id == V.IdentityFrom(cfg, lib.check(token).subject, lib.check(token).decoded.claims)
                               && d.id.subject != "" && Meets(req, d.id))
  {
    hide V.Judge, V.ShowsOutage, RequirementsText.Render, T.TrimSpace, T.EqualFold;
    var (token, present) := BearerToken(header);
    if present {
      BearerTokenInvertsFormation(header, token);
      V.VerifyIsExact(cfg, lib, token);
    }
    forall other | Presents(header, other)
      ensures present && other == token
    {
      BearerTokenInvertsFormation(header, other);
    }
  }

  /** A request is answered with 503 exactly when it presents a token that could not be checked. */
  ghost predicate OutageIs503(cfg: V.Config, lib: V.Library, req: Requirements, header: string) {
    StatusOf(Decide(req, header, OwnVerifier(cfg, lib))) == 503 <==>
    exists token :: Presents(header, token) && lib.check(token).Unchecked?
  }

  /**
   * 503 stands for an outage in all requests exactly when, for every token that a header can present, the error of a
   * failed check shows an outage if there was one and shows none if the token was refused.
   */
  lemma OutageIs503Iff(cfg: V.Config, lib: V.Library, req: Requirements)
    ensures (forall header :: OutageIs503(cfg, lib, req, header))
            <==> forall token | token != "" && T.Trimmed(token) :: V.ToldApart(lib.check(token))
  {
    forall header, token | Presents(header, token)
      ensures OutageIs503(cfg, lib, req, header) <==> V.ToldApart(lib.check(token))
    {
      PresentedOutage(cfg, lib, req, header, token);
    }
    forall token | token != "" && T.Trimmed(token)
      ensures exists header :: Presents(header, token)
    {
      var header := "Bearer " + ("" + token + "");
      assert IsBearerHeader(header, "Bearer ", "", token, "");
      assert Presents(header, token);
    }
    forall header | forall token :: !Presents(header, token)
      ensures OutageIs503(cfg, lib, req, header)
    {
      GuardIsExact(cfg, lib, req, header);
    }
  }

  lemma PresentedOutage(cfg: V.Config, lib: V.Library, req: Requirements, header: string, token: string)
    requires Presents(header, token)
    ensures OutageIs503(cfg, lib, req, header) <==> V.ToldApart(lib.check(token))
  {
    hide BearerToken, V.Judge, V.ShowsOutage;
    BearerTokenInvertsFormation(header, token);
    forall other | Presents(header, other)
      ensures other == token
    {
      BearerTokenInvertsFormation(header, other);
    }
    GuardIsExact(cfg, lib, req, header);
  }

  /** go-oidc's refusal of a token for another audience quotes that audience, and the guard takes it for an outage. */
  lemma RefusalAnsweredAsOutage(cfg: V.Config, lib: V.Library, req: Requirements)
    requires lib.check("token") == V.Refused(New("oidc: expected audience \"api\" got [\"fetching keys\"]"))
    ensures StatusOf(Decide(req, "Bearer token", OwnVerifier(cfg, lib))) == 503
    ensures Presents("Bearer token", "token") && !lib.check("token").Unchecked?
  {
    hide Decide, V.ShowsOutage, T.TrimSpace;
    var before, marker, after := "oidc: expected audience \"api\" got [\"", "fetching keys", "\"]";
    var err := New("oidc: expected audience \"api\" got [\"fetching keys\"]");
    assert Message(err) == before + marker + after;
    assert V.TRANSPORT_FAILURES[1] == marker;
    T.ContainsPiece(before, marker, after);
    V.RefusalCanShowOutage(err, marker);
    assert "Bearer token" == "Bearer " + ("" + "token" + "");
    assert IsBearerHeader("Bearer token", "Bearer ", "", "token", "");
    GuardIsExact(cfg, lib, req, "Bearer token");
  }

  /** The credential is never logged: a decision depends on the token through what the verifier says of it alone. */
  lemma CredentialStaysOut(
    req: Requirements, header: string, token: string, verify: string -> V.Verdict,
    header': string, token': string, verify': string -> V.Verdict)
    requires Presents(header, token) && Presents(header', token')
    requires verify(token) == verify'(token')
    ensures Decide(req, header, verify) == Decide(req, header', verify')
  {
    BearerTokenInvertsFormation(header, token);
    BearerTokenInvertsFormation(header', token');
  }

  /** Nor is a header that presents no token: all of them are decided alike, whatever they hold. */
  lemma MalformedHeaderStaysOut(
    req: Requirements, header: string, verify: string -> V.Verdict, header': string, verify': string -> V.Verdict)
    requires forall token :: !Presents(header, token) && !Presents(header', token)
    ensures Decide(req, header, verify) == Decide(req, header', verify')
    ensures StatusOf(Decide(req, header, verify)) == 401
    ensures Decide(req, header, verify).reason == "no bearer token presented"
  {
    BearerTokenInvertsFormation(header, BearerToken(header).0);
    BearerTokenInvertsFormation(header', BearerToken(header').0);
  }

  /**
   * The record of a denial tells why: every text of the error that rejected the token, or the subject and the
   * requirement it does not meet, which can be read back from the record.
   */
  lemma DenialTellsWhy(req: Requirements, header: string, token: string, verify: string -> V.Verdict)
    requires Presents(header, token)
    ensures var d, verdict := Decide(req, header, verify), verify(token);
            && (d.Admit? <==> verdict.err.None? && Meets(req, verdict.id))
            && (verdict.err.Some? ==>
                  && d.Deny? && d.reason == "token rejected"
                  && exists text :: ("error", text) in d.extra &&
                                    forall said | Says(verdict.err.value, said) :: T.Contains(text, said))
            && (verdict.err.None? && d.Deny? ==>
                  && d.etype == ErrForbidden && d.reason == "requirement not satisfied"
                  && ("subject", verdict.id.subject) in d.extra
                  && exists text :: ("required", text) in d.extra &&
                                    (RequirementsText.Clean(req) ==> RequirementsText.Read(text) == req))
  {
    hide RequirementsText.Render, RequirementsText.Read, T.Contains, T.TrimSpace, T.EqualFold;
    BearerTokenInvertsFormation(header, token);
    var d, verdict := Decide(req, header, verify), verify(token);
    if verdict.err.Some? {
      var text := Message(verdict.err.value);
      assert d.extra[0] == ("error", text);
      forall said | Says(verdict.err.value, said)
        ensures T.Contains(text, said)
      {
        MessageTellsAll(verdict.err.value, said);
      }
    } else if d.Deny? {
      var text := RequirementsText.Render(req);
      assert d.extra[0] == ("subject", verdict.id.subject) && d.extra[1] == ("required", text);
      if RequirementsText.Clean(req) {
        RequirementsText.ReadOfRendered(req);
      }
    }
  }

  /** A verifier that fails without saying why is a fault of the server, whatever it returned besides the error. */
  lemma UntypedErrorFailsClosed(req: Requirements, header: string, verify: string -> V.Verdict)
    requires BearerToken(header).1
    requires var err := verify(BearerToken(header).0).err;
             err.Some? && !CarriesType(err.value)
    ensures StatusOf(Decide(req, header, verify)) == 500
  {
    TypeOfIsFirstTypedNode(verify(BearerToken(header).0).err.value);
  }

  /** An empty requirement behind a guard refuses every caller, however privileged. */
  lemma EmptyRequirementRefusesEveryone(header: string, verify: string -> V.Verdict)
    ensures Decide([], header, verify).Deny?
  {
    EmptyIffUnsatisfiable([]);
  }

  // ---------------------------------------------------------------- secured

  datatype Middleware =
    | Enforce(guard: Guard, req: Requirements)
    | Foreign(name: string)

  datatype Operation = Operation(id: string, security: Option<Security>, middlewares: seq<Middleware>, errors: seq<nat>)

  /** The security field that documents a requirement: never empty, even when no one can meet the requirement. */
  ghost predicate Documents(security: Security, req: Requirements) {
    if req == [] then security == [map["bearerAuth" := []]]
    else
      && |security| == |req|
      && forall i | 0 <= i < |req| :: security[i] == map["bearerAuth" := req[i].scopes]
  }

  ghost predicate DocumentsSecurity(op: Operation) {
    op.security.Some? && op.security.value != []
  }

  ghost predicate EnforcesSecurity(op: Operation) {
    exists m :: m in op.middlewares && m.Enforce?
  }

  method Secured(op: Operation, req: Requirements, g: Guard?) returns (out: Operation)
    ensures g == null ==> out == op
    ensures g != null ==>
              && out.security.Some? && Documents(out.security.value, req)
              && out.middlewares == op.middlewares + [Enforce(g, req)]
              && out.errors == op.errors + [401, 403, 503]
              && out.id == op.id
    // An operation that starts bare documents security exactly when it enforces some, whatever the requirement.
    ensures op.security.None? && op.middlewares == [] ==>
              (DocumentsSecurity(out) <==> EnforcesSecurity(out)) && (EnforcesSecurity(out) <==> g != null)
  {
    out := op;
    if g == null {
      return;
    }
    var security := OpenApi(req, SECURITY_SCHEME_NAME);
    if security.None? {
      security := Some([map[SECURITY_SCHEME_NAME := []]]);
    }
    out := out.(security := security);
    out := out.(middlewares := out.middlewares + [Enforce(g, req)]);
    out := out.(errors := out.errors + [401, 403, 503]);
    assert Enforce(g, req) in out.middlewares;
  }

  ghost predicate Covers(entry: map<string, seq<string>>, id: Identity) {
    SECURITY_SCHEME_NAME in entry && forall s | s in entry[SECURITY_SCHEME_NAME] :: s in id.scopes
  }

  /** A client that reads the document believes that this identity may call the operation. */
  ghost predicate Advertised(security: Security, id: Identity) {
    exists i | 0 <= i < |security| :: Covers(security[i], id)
  }

  /** Whoever reaches the handler satisfies a documented alternative: the document never overstates what is asked. */
  lemma DocumentNeverOverstates(security: Security, req: Requirements, id: Identity)
    requires Documents(security, req) && Meets(req, id)
    ensures Advertised(security, id)
  {
  }

  ghost predicate ImpliedWithoutRoles(weaker: Requirement, alt: Requirement) {
    weaker.roles == [] && forall s | s in weaker.scopes :: s in alt.scopes
  }

  ghost predicate IsImplied(req: Requirements, alt: Requirement) {
    exists weaker :: weaker in req && ImpliedWithoutRoles(weaker, alt)
  }

  /** Every alternative is implied by one that names no role. */
  ghost predicate RolesNeverDecide(req: Requirements) {
    req != [] && forall alt {:trigger IsImplied(req, alt)} | alt in req :: IsImplied(req, alt)
  }

  /** The document says everything, so that whoever it seems to admit is admitted, exactly when roles never decide. */
  lemma DocumentIsCompleteIff(security: Security, req: Requirements)
    requires Documents(security, req)
    ensures (forall id :: Advertised(security, id) ==> Meets(req, id)) <==> RolesNeverDecide(req)
  {
    if RolesNeverDecide(req) {
      forall id | Advertised(security, id)
        ensures Meets(req, id)
      {
        AdvertisedMeets(security, req, id);
      }
    } else {
      var id := RolesDecideFor(security, req);
    }
  }

  lemma AdvertisedMeets(security: Security, req: Requirements, id: Identity)
    requires Documents(security, req) && RolesNeverDecide(req) && Advertised(security, id)
    ensures Meets(req, id)
  {
    var i :| 0 <= i < |security| && Covers(security[i], id);
    assert IsImplied(req, req[i]);
    var weaker :| weaker in req && ImpliedWithoutRoles(weaker, req[i]);
    assert Holds(weaker, id);
  }

  /** Otherwise the document seems to admit someone whom the guard refuses. */
  lemma RolesDecideFor(security: Security, req: Requirements) returns (id: Identity)
    requires Documents(security, req) && !RolesNeverDecide(req)
    ensures Advertised(security, id) && !Meets(req, id)
  {
    if req == [] {
      id := ZERO_IDENTITY;
      assert Covers(security[0], id);
    } else {
      var alt :| alt in req && forall weaker | weaker in req :: !ImpliedWithoutRoles(weaker, alt);
      id := Identity("reader", alt.scopes, [], map[]);
      var i :| 0 <= i < |req| && req[i] == alt;
      assert Covers(security[i], id);
      forall other | other in req
        ensures !Holds(other, id)
      {
        assert !ImpliedWithoutRoles(other, alt);
        if other.roles != [] {
          assert other.roles[0] in other.roles && !id.HasRole(other.roles[0]);
        } else {
          var s :| s in other.scopes && s !in alt.scopes;
          assert !id.HasScope(s);
        }
      }
    }
  }
}
