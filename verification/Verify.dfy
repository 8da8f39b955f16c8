/** From a raw bearer token to an identity or a typed refusal: pkg/oidcx/verify.go. */
module Verify {
  import opened Wrappers
  import opened Authx
  import opened ErrorX
  import opened Requirements
  import C = Claims
  import T = Text

  datatype Config = Config(requireTypedAccessToken: bool, scopeClaim: string, rolesClaim: string)

  // ---------------------------------------------------------------- what library code answers

  datatype Decoded = Claims(claims: C.Claims) | NoClaims(err: Error)

  /**
   * go-oidc on the signature, issuer, audience and expiry of a token. It reports a refusal and the failure to get the
   * provider's keys in the same way, as an error; which of the two took place is said here by the constructor, and
   * nothing below but specifications looks at that.
   */
  datatype TokenCheck = Refused(err: Error) | Unchecked(err: Error) | Checked(subject: string, decoded: Decoded)

  /** base64 and JSON decoding of a token's first segment. */
  datatype HeaderCheck = NotBase64(err: Error) | NotJson(err: Error) | Header(typ: string)

  datatype Library = Library(check: string -> TokenCheck, header: string -> HeaderCheck)

  // ---------------------------------------------------------------- classify and rejected

  const TRANSPORT_FAILURES := ["oidc: get keys failed", "fetching keys"]

  function Classify(err: Error): ErrorType {
    if Find(err, IsNetError()).Some? || Is(err, DeadlineExceeded) then ErrUnavailable
    else if exists marker | marker in TRANSPORT_FAILURES :: T.Contains(Message(err), marker) then ErrUnavailable
    else ErrUnauthorized
  }

  function Rejected(err: Error): Error {
    Typed(err, ErrUnauthorized)
  }

  /** The error holds one of the signs by which the code tells an outage; nothing but its own tree and text counts. */
  ghost predicate ShowsOutage(err: Error) {
    || CarriesNetError(err)
    || Carries(err, DeadlineExceeded)
    || T.Contains(Message(err), "oidc: get keys failed")
    || T.Contains(Message(err), "fetching keys")
  }

  lemma ClassifyGoesBySigns(err: Error)
    ensures Classify(err) == if ShowsOutage(err) then ErrUnavailable else ErrUnauthorized
  {
    SearchesMean(err);
    assert TRANSPORT_FAILURES[0] in TRANSPORT_FAILURES && TRANSPORT_FAILURES[1] in TRANSPORT_FAILURES;
  }

  // ---------------------------------------------------------------- the typ header

  const ACCESS_TOKEN_TYPES := ["at+jwt", "application/at+jwt"]

  function TypeProblem(lib: Library, raw: string): Option<Error> {
    if '.' !in raw then Some(New("token is not a signed jwt"))
    else
      match lib.header(T.Split(raw, '.')[0])
      case NotBase64(err) => Some(Wrapped("failed to decode the token header", err))
      case NotJson(err) => Some(Wrapped("failed to parse the token header", err))
      case Header(typ) =>
        if exists candidate | candidate in ACCESS_TOKEN_TYPES :: T.EqualFold(candidate, typ) then None
        else Some(New("token type " + T.Quoted(typ) + " is not an access token"))
  }

  /** The token is a JWT whose header says, in any letter case, that it is an access token. */
  ghost predicate IsTypedAccessToken(lib: Library, raw: string) {
    && '.' in raw
    && var header := lib.header(T.Split(raw, '.')[0]);
       && header.Header?
       && (T.DifferInCaseOnly(header.typ, "at+jwt") || T.DifferInCaseOnly(header.typ, "application/at+jwt"))
  }

  lemma FoldsAlike(candidate: string, typ: string)
    ensures T.EqualFold(candidate, typ) <==> T.DifferInCaseOnly(typ, candidate)
  {
    T.EqualFoldIffCase(candidate, typ);
  }

  lemma TypeProblemIffUntyped(lib: Library, raw: string)
    ensures TypeProblem(lib, raw).None? <==> IsTypedAccessToken(lib, raw)
  {
    assert ACCESS_TOKEN_TYPES[0] in ACCESS_TOKEN_TYPES && ACCESS_TOKEN_TYPES[1] in ACCESS_TOKEN_TYPES;
    hide T.EqualFold, T.DifferInCaseOnly;
    if '.' in raw {
      var header := lib.header(T.Split(raw, '.')[0]);
      if header.Header? {
        FoldsAlike("at+jwt", header.typ);
        FoldsAlike("application/at+jwt", header.typ);
      }
    }
  }

  // ---------------------------------------------------------------- Verify

  const ID_TOKEN_ONLY_CLAIMS := ["at_hash", "c_hash", "nonce"]

  /** What Verify returns: an identity, or an error beside the zero identity. */
  datatype Verdict = Verdict(id: Identity, err: Option<Error>)

  function Refusal(err: Error): Verdict {
    Verdict(ZERO_IDENTITY, Some(err))
  }

  function Unverified(err: Error): Error {
    Typed(Wrapped("failed to verify the bearer token", err), Classify(err))
  }

  function IdTokenError(claim: string): Error {
    Rejected(New("token carries " + T.Quoted(claim) + ", which marks it an id token rather than an access token"))
  }

  function FirstFound(claims: C.Claims, names: seq<string>): Option<string> {
    if names == [] then None
    else if names[0] in claims then Some(names[0])
    else FirstFound(claims, names[1..])
  }

  function Judge(cfg: Config, lib: Library, raw: string): Verdict {
    match lib.check(raw)
    case Refused(err) => Refusal(Unverified(err))
    case Unchecked(err) => Refusal(Unverified(err))
    case Checked(_, NoClaims(err)) => Refusal(Rejected(Wrapped("failed to read the token claims", err)))
    case Checked(subject, Claims(claims)) =>
      var found := FirstFound(claims, ID_TOKEN_ONLY_CLAIMS);
      var problem := TypeProblem(lib, raw);
      if found.Some? then Refusal(IdTokenError(found.value))
      else if cfg.requireTypedAccessToken && problem.Some? then Refusal(Rejected(problem.value))
      else if subject == "" then Refusal(Rejected(New("token carries no subject")))
      else Verdict(IdentityFrom(cfg, subject, claims), None)
  }

  function IdentityFrom(cfg: Config, subject: string, claims: C.Claims): Identity {
    Identity(subject,
             C.NamesIn(C.Lookup(claims, cfg.scopeClaim)),
             C.NamesIn(C.Lookup(claims, cfg.rolesClaim)),
             claims)
  }

  method Verify(cfg: Config, lib: Library, raw: string) returns (id: Identity, err: Option<Error>)
    ensures Verdict(id, err) == Judge(cfg, lib, raw)
  {
    id := ZERO_IDENTITY;
    var token := lib.check(raw);
    if !token.Checked? {
      err := Some(Unverified(token.err));
      return;
    }
    if token.decoded.NoClaims? {
      err := Some(Rejected(Wrapped("failed to read the token claims", token.decoded.err)));
      return;
    }
    var claims := token.decoded.claims;
    for i := 0 to |ID_TOKEN_ONLY_CLAIMS|
      invariant FirstFound(claims, ID_TOKEN_ONLY_CLAIMS) == FirstFound(claims, ID_TOKEN_ONLY_CLAIMS[i..])
    {
      var claim := ID_TOKEN_ONLY_CLAIMS[i];
      if claim in claims {
        err := Some(IdTokenError(claim));
        return;
      }
      assert ID_TOKEN_ONLY_CLAIMS[i..][1..] == ID_TOKEN_ONLY_CLAIMS[i + 1..];
    }
    if cfg.requireTypedAccessToken {
      err := TypeProblem(lib, raw);
      if err.Some? {
        err := Some(Rejected(err.value));
        return;
      }
    }
    if token.subject == "" {
      err := Some(Rejected(New("token carries no subject")));
      return;
    }
    var scopes := C.ClaimList(claims, cfg.scopeClaim);
    var roles := C.ClaimList(claims, cfg.rolesClaim);
    return Identity(token.subject, scopes, roles, claims), None;
  }

  // ---------------------------------------------------------------- properties

  /** Everything that has to be in order before a token stands for an identity. */
  ghost predicate Acceptable(cfg: Config, lib: Library, raw: string) {
    && lib.check(raw).Checked?
    && lib.check(raw).decoded.Claims?
    && (forall claim | claim in ["at_hash", "c_hash", "nonce"] :: claim !in lib.check(raw).decoded.claims)
    && (cfg.requireTypedAccessToken ==> IsTypedAccessToken(lib, raw))
    && lib.check(raw).subject != ""
  }

  ghost predicate FailsWithSigns(token: TokenCheck) {
    !token.Checked? && ShowsOutage(token.err)
  }

  lemma {:induction false} FirstFoundNone(claims: C.Claims, names: seq<string>)
    ensures FirstFound(claims, names).None? <==> forall n | n in names :: n !in claims
  {
    if names == [] {
    } else {
      FirstFoundNone(claims, names[1..]);
      assert names == [names[0]] + names[1..];
      assert names[0] in names;
    }
  }

  /**
   * A token is accepted exactly when all checks pass, and then its identity has a subject. A refusal carries no
   * identity and one of two types: unavailable when the check failed with an error that shows an outage, unauthorized
   * for everything else.
   */
  lemma VerifyIsExact(cfg: Config, lib: Library, raw: string)
    ensures Judge(cfg, lib, raw).err.None? <==> Acceptable(cfg, lib, raw)
    ensures Acceptable(cfg, lib, raw) ==>
              var token := lib.check(raw);
              && Judge(cfg, lib, raw).id == IdentityFrom(cfg, token.subject, token.decoded.claims)
              && Judge(cfg, lib, raw).id.subject == token.subject != ""
    ensures !Acceptable(cfg, lib, raw) ==>
              && Judge(cfg, lib, raw).id == Identity("", [], [], map[])
              && TypeOf(Judge(cfg, lib, raw).err) ==
                   if FailsWithSigns(lib.check(raw)) then ErrUnavailable else ErrUnauthorized
  {
    hide FirstFound, TypeProblem, IsTypedAccessToken, ShowsOutage, Classify;
    var token := lib.check(raw);
    if !token.Checked? {
      ClassifyGoesBySigns(token.err);
    } else if token.decoded.Claims? {
      FirstFoundNone(token.decoded.claims, ID_TOKEN_ONLY_CLAIMS);
      TypeProblemIffUntyped(lib, raw);
    }
    var err := Judge(cfg, lib, raw).err;
    if err.Some? {
      assert HoldsType()(err.value);
    }
  }

  /**
   * The identity of a token is its subject and its claims, with exactly the names that the configured claims spell as
   * its scopes and its roles.
   */
  lemma IdentityShowsToken(cfg: Config, subject: string, claims: C.Claims)
    ensures var id := IdentityFrom(cfg, subject, claims);
            && id.subject == subject && id.claims == claims
            && (forall s :: s in id.scopes <==> C.Spelled(C.Lookup(claims, cfg.scopeClaim), s))
            && (forall r :: r in id.roles <==> C.Spelled(C.Lookup(claims, cfg.rolesClaim), r))
  {
    C.NamesAreSpelled(C.Lookup(claims, cfg.scopeClaim));
    C.NamesAreSpelled(C.Lookup(claims, cfg.rolesClaim));
  }

  /** The value spells no name: it is absent, a scalar or an object. */
  ghost predicate Silent(value: Option<Any>) {
    value.None? || value.value.Scalar? || value.value.Object?
  }

  lemma FirstIsIn(names: seq<string>)
    ensures names == [] || names[0] in names
  {
  }

  /** A token without the configured claims is admitted where any identity is, and nowhere else. */
  lemma MissingClaimsGrantNothing(cfg: Config, subject: string, claims: C.Claims, r: Requirements)
    ensures var id := IdentityFrom(cfg, subject, claims);
            && (Silent(C.Lookup(claims, cfg.scopeClaim)) ==>
                  id.scopes == [] && (Meets(r, id) ==> exists alt :: alt in r && alt.scopes == []))
            && (Silent(C.Lookup(claims, cfg.rolesClaim)) ==>
                  id.roles == [] && (Meets(r, id) ==> exists alt :: alt in r && alt.roles == []))
            && (Silent(C.Lookup(claims, cfg.scopeClaim)) && Silent(C.Lookup(claims, cfg.rolesClaim)) ==>
                  (Meets(r, id) <==> UNCONSTRAINED in r))
  {
    var id := IdentityFrom(cfg, subject, claims);
    C.NamesAreSpelled(C.Lookup(claims, cfg.scopeClaim));
    C.NamesAreSpelled(C.Lookup(claims, cfg.rolesClaim));
    if Meets(r, id) {
      var alt :| alt in r && Holds(alt, id);
      FirstIsIn(alt.scopes);
      FirstIsIn(alt.roles);
    }
    if UNCONSTRAINED in r {
      assert Holds(UNCONSTRAINED, id);
    }
  }

  /** The error of the library code that made a token unusable, if it was one. */
  ghost function LibraryError(cfg: Config, lib: Library, raw: string): Option<Error> {
    var token := lib.check(raw);
    if !token.Checked? then Some(token.err)
    else if token.decoded.NoClaims? then Some(token.decoded.err)
    else if !cfg.requireTypedAccessToken || '.' !in raw || FirstFound(token.decoded.claims, ID_TOKEN_ONLY_CLAIMS).Some?
    then None
    else
      match lib.header(T.Split(raw, '.')[0])
      case NotBase64(err) => Some(err)
      case NotJson(err) => Some(err)
      case Header(_) => None
  }

  /** A refusal keeps the library's reason for the log: all that errors.Is would find, and every text. */
  lemma RefusalKeepsReason(cfg: Config, lib: Library, raw: string, s: Sentinel, text: string)
    requires LibraryError(cfg, lib, raw).Some?
    ensures Judge(cfg, lib, raw).err.Some?
    ensures Is(Judge(cfg, lib, raw).err.value, s) <==> Carries(LibraryError(cfg, lib, raw).value, s)
    ensures Says(LibraryError(cfg, lib, raw).value, text) ==>
              T.Contains(Message(Judge(cfg, lib, raw).err.value), text)
  {
    var cause, err := LibraryError(cfg, lib, raw).value, Judge(cfg, lib, raw).err.value;
    SearchesMean(cause);
    assert err.Typed? && err.cause.Wrapped? && err.cause.cause == cause;
    assert !Answers(s)(err) && !Answers(s)(err.cause);
    assert Find(err, Answers(s)) == Find(err.cause, Answers(s)) == Find(cause, Answers(s));
    if Says(cause, text) {
      assert Says(err.cause, text) && Says(err, text);
      MessageTellsAll(err, text);
    }
  }

  /** A refusal by the checks of Verify itself names what it found: the claim, the type, or the missing subject. */
  lemma RefusalNamesReason(cfg: Config, lib: Library, raw: string)
    requires lib.check(raw).Checked? && lib.check(raw).decoded.Claims? && Judge(cfg, lib, raw).err.Some?
    ensures var token, message := lib.check(raw), Message(Judge(cfg, lib, raw).err.value);
            if exists claim :: claim in ["at_hash", "c_hash", "nonce"] && claim in token.decoded.claims then
              exists claim :: claim in ["at_hash", "c_hash", "nonce"] && claim in token.decoded.claims
                              && T.Contains(message, claim)
            else if cfg.requireTypedAccessToken && !IsTypedAccessToken(lib, raw) then
              if '.' !in raw then T.Contains(message, "jwt")
              else
                var header := lib.header(T.Split(raw, '.')[0]);
                header.Header? && T.NeedsNoEscape(header.typ) ==> T.Contains(message, header.typ)
            else T.Contains(message, "subject")
  {
    hide IsTypedAccessToken, T.Contains, T.NeedsNoEscape, T.Quoted, T.Split, T.EqualFold, Message, IdentityFrom;
    var claims := lib.check(raw).decoded.claims;
    FirstFoundNone(claims, ID_TOKEN_ONLY_CLAIMS);
    TypeProblemIffUntyped(lib, raw);
    var found := FirstFound(claims, ID_TOKEN_ONLY_CLAIMS);
    if found.Some? {
      FirstFoundIsIn(claims, ID_TOKEN_ONLY_CLAIMS);
      ClaimNamesArePlain();
      IdTokenErrorNames(found.value);
    } else if cfg.requireTypedAccessToken && !IsTypedAccessToken(lib, raw) {
      if '.' in raw {
        var header := lib.header(T.Split(raw, '.')[0]);
        if header.Header? && T.NeedsNoEscape(header.typ) {
          QuoteShows("token type ", header.typ, " is not an access token");
          RejectedSays("token type " + T.Quoted(header.typ) + " is not an access token");
        }
      } else {
        RejectedSays("token is not a signed jwt");
        T.ContainsPiece("token is not a signed ", "jwt", "");
        assert "token is not a signed " + "jwt" + "" == "token is not a signed jwt";
      }
    } else {
      RejectedSays("token carries no subject");
      T.ContainsPiece("token carries no ", "subject", "");
      assert "token carries no " + "subject" + "" == "token carries no subject";
    }
  }

  lemma RejectedSays(text: string)
    ensures Message(Rejected(New(text))) == text
  {
  }

  lemma {:induction false} FirstFoundIsIn(claims: C.Claims, names: seq<string>)
    requires FirstFound(claims, names).Some?
    ensures FirstFound(claims, names).value in names && FirstFound(claims, names).value in claims
  {
    if names[0] in claims {
    } else {
      FirstFoundIsIn(claims, names[1..]);
    }
  }

  lemma IdTokenErrorNames(claim: string)
    requires T.NeedsNoEscape(claim)
    ensures T.Contains(Message(IdTokenError(claim)), claim)
  {
    hide T.NeedsNoEscape, T.Contains, T.Quoted;
    QuoteShows("token carries ", claim, ", which marks it an id token rather than an access token");
  }

  lemma ClaimNamesArePlain()
    ensures forall claim | claim in ["at_hash", "c_hash", "nonce"] :: T.NeedsNoEscape(claim)
  {
    assert T.NeedsNoEscape("at_hash") && T.NeedsNoEscape("c_hash") && T.NeedsNoEscape("nonce");
  }

  /** A text without special characters stands in its quotation. */
  lemma QuoteShows(before: string, text: string, after: string)
    requires T.NeedsNoEscape(text)
    ensures T.Contains(before + T.Quoted(text) + after, text)
  {
    T.EscapedWithoutNeed(text);
    T.ContainsPiece("\"", text, "\"");
    T.ContainsInside(before, T.Quoted(text), after, text);
  }

  /** The error of a failed check shows an outage if there was one, and shows none if the token was refused. */
  ghost predicate ToldApart(token: TokenCheck) {
    match token
    case Refused(err) => !ShowsOutage(err)
    case Unchecked(err) => ShowsOutage(err)
    case Checked(_, _) => true
  }

  /** Unavailable means that the token could not be checked exactly when the error of the check tells the two apart. */
  lemma UnavailableMeansUncheckedIff(cfg: Config, lib: Library, raw: string)
    ensures (TypeOf(Judge(cfg, lib, raw).err) == ErrUnavailable <==> lib.check(raw).Unchecked?)
            <==> ToldApart(lib.check(raw))
  {
    hide ShowsOutage, Judge;
    VerifyIsExact(cfg, lib, raw);
    if Acceptable(cfg, lib, raw) {
      assert Judge(cfg, lib, raw).err.None?;
    }
  }

  /** A refusal that quotes the token shows an outage when the token holds the words of one. */
  lemma RefusalCanShowOutage(err: Error, marker: string)
    requires marker in TRANSPORT_FAILURES && T.Contains(Message(err), marker)
    ensures !ToldApart(Refused(err))
  {
  }

  /** A provider spelled this list, in one of the ways that are in use, at the place the configured name points to. */
  ghost predicate Spells(claims: C.Claims, name: string, names: seq<string>) {
    || C.Lookup(claims, name) == Some(Any.Text(T.Join(names, " ")))
    || C.Lookup(claims, name) == Some(List(C.AsItems(names)))
    || C.Lookup(claims, name) == Some(TextList(names))
  }

  /**
   * However two tokens spell the same scopes and roles, and wherever two configurations look for them, every
   * requirement decides the two alike.
   */
  lemma SpellingDoesNotMatter(
    cfg: Config, claims: C.Claims, cfg': Config, claims': C.Claims,
    scopes: seq<string>, roles: seq<string>, subject: string, subject': string, r: Requirements)
    requires C.Words(scopes) && C.Words(roles)
    requires Spells(claims, cfg.scopeClaim, scopes) && Spells(claims', cfg'.scopeClaim, scopes)
    requires Spells(claims, cfg.rolesClaim, roles) && Spells(claims', cfg'.rolesClaim, roles)
    ensures IdentityFrom(cfg, subject, claims).scopes == scopes && IdentityFrom(cfg, subject, claims).roles == roles
    ensures Meets(r, IdentityFrom(cfg, subject, claims)) <==> Meets(r, IdentityFrom(cfg', subject', claims'))
  {
    C.SpellingsAgree(scopes);
    C.SpellingsAgree(roles);
    var a, b := IdentityFrom(cfg, subject, claims), IdentityFrom(cfg', subject', claims');
    assert a.scopes == b.scopes == scopes && a.roles == b.roles == roles;
    if Meets(r, a) {
      MeetsIsMonotone(r, a, b);
    }
    if Meets(r, b) {
      MeetsIsMonotone(r, b, a);
    }
  }
}
