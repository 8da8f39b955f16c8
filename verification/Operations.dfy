/** The profile operations behind their guards: api/operations.go, joining the guard to the service. */
module Operations {
  import opened Wrappers
  import opened Authx
  import opened Requirements
  import G = Guard
  import P = Profiles
  import V = Verify

  const PROFILE_READ := "profile:read"
  const PROFILE_WRITE := "profile:write"
  const ADMIN := "admin"

  /** What registerProfile declares for each operation. */
  function RuleOf(req: P.Request): Rule {
    match req
    case GetRequest(_) => ScopeRule([PROFILE_READ])
    case CreateRequest(_, _) => ScopeRule([PROFILE_WRITE])
    case UpdateRequest(_, _, _) => ScopeRule([PROFILE_WRITE])
    case DeleteRequest(_) => AllOfRule([ScopeRule([PROFILE_WRITE]), RoleRule([ADMIN])])
  }

  /** One HTTP request, with what its surroundings answer while it is served. */
  datatype Http = Http(header: string, lib: V.Library, env: P.Env, req: P.Request)

  /** The guard decides; only then the service runs. */
  ghost function Serve(cfg: V.Config, ids: P.UuidText, t: P.Table, h: Http): (P.Table, nat) {
    var d := G.Decide(Compile(RuleOf(h.req)), h.header, G.OwnVerifier(cfg, h.lib));
    if d.Deny? then (t, G.StatusOf(d))
    else
      var (t', r) := P.ServiceStep(ids, t, h.env, h.req);
      (t', P.Status(h.req, r))
  }

  ghost function ServeAll(cfg: V.Config, ids: P.UuidText, t: P.Table, hs: seq<Http>): P.Table {
    if hs == [] then t
    else
      var n := |hs| - 1;
      Serve(cfg, ids, ServeAll(cfg, ids, t, hs[..n]), hs[n]).0
  }

  /** The request carries a token that checks out and stands for a caller with these scopes and roles. */
  ghost predicate Authorized(cfg: V.Config, h: Http, scopes: seq<string>, roles: seq<string>) {
    exists token :: G.Presents(h.header, token) && V.Acceptable(cfg, h.lib, token) &&
                    var id := V.IdentityFrom(cfg, h.lib.check(token).subject, h.lib.check(token).decoded.claims);
                    (forall s | s in scopes :: s in id.scopes) && (forall r | r in roles :: r in id.roles)
  }

  /** What a caller has to hold for an operation. */
  function ScopesFor(req: P.Request): seq<string> {
    if req.GetRequest? then ["profile:read"] else ["profile:write"]
  }

  function RolesFor(req: P.Request): seq<string> {
    if req.DeleteRequest? then ["admin"] else []
  }

  lemma RuleAllows(req: P.Request, id: Identity)
    ensures Meets(Compile(RuleOf(req)), id) <==>
            (forall s | s in ScopesFor(req) :: s in id.scopes) && (forall r | r in RolesFor(req) :: r in id.roles)
  {
    CompilePreservesMeaning(RuleOf(req), id);
    if req.DeleteRequest? {
      var write, admin := ScopeRule([PROFILE_WRITE]), RoleRule([ADMIN]);
      assert RuleOf(req).rules == [write, admin];
      assert Allows(RuleOf(req), id) <==> Allows(write, id) && Allows(admin, id);
    }
  }

  /** The service runs for a request exactly when its caller is authorized for the operation. */
  lemma AdmittedIffAuthorized(cfg: V.Config, h: Http)
    ensures G.Decide(Compile(RuleOf(h.req)), h.header, G.OwnVerifier(cfg, h.lib)).Admit?
            <==> Authorized(cfg, h, ScopesFor(h.req), RolesFor(h.req))
  {
    var rule := Compile(RuleOf(h.req));
    var d := G.Decide(rule, h.header, G.OwnVerifier(cfg, h.lib));
    G.GuardIsExact(cfg, h.lib, rule, h.header);
    forall token | G.Presents(h.header, token) && V.Acceptable(cfg, h.lib, token)
      ensures var id := V.IdentityFrom(cfg, h.lib.check(token).subject, h.lib.check(token).decoded.claims);
              d.Admit? <==>
              (forall s | s in ScopesFor(h.req) :: s in id.scopes) && (forall r | r in RolesFor(h.req) :: r in id.roles)
    {
      StatusTellsAdmission(d);
      RuleAllows(h.req, V.IdentityFrom(cfg, h.lib.check(token).subject, h.lib.check(token).decoded.claims));
    }
    if d.Admit? {
      var token := G.BearerToken(h.header).0;
      G.BearerTokenInvertsFormation(h.header, token);
      assert G.Presents(h.header, token) && G.StatusOf(d) == 200;
    }
  }

  lemma StatusTellsAdmission(d: G.Decision)
    ensures d.Admit? <==> G.StatusOf(d) == 200
  {
  }

  /**
   * How a request is answered. No token is a 401; a token whose check failed is a 503 with the signs of an outage and a
   * 401 without; any other token that is not in order is a 401; a caller who lacks a scope or role gets a 403; none of
   * these touches the table. Everyone else gets what the service does and answers.
   */
  lemma ServeIsExact(cfg: V.Config, ids: P.UuidText, t: P.Table, h: Http)
    ensures (forall token :: !G.Presents(h.header, token)) ==> Serve(cfg, ids, t, h) == (t, 401)
    ensures forall token | G.Presents(h.header, token) ::
              if V.FailsWithSigns(h.lib.check(token)) then Serve(cfg, ids, t, h) == (t, 503)
              else if !V.Acceptable(cfg, h.lib, token) then Serve(cfg, ids, t, h) == (t, 401)
              else if !Authorized(cfg, h, ScopesFor(h.req), RolesFor(h.req)) then Serve(cfg, ids, t, h) == (t, 403)
              else
                var (t', r) := P.ServiceStep(ids, t, h.env, h.req);
                Serve(cfg, ids, t, h) == (t', P.Status(h.req, r))
  {
    hide Authorized, P.ServiceStep, P.Status, V.Acceptable, V.FailsWithSigns, Compile;
    AdmittedIffAuthorized(cfg, h);
    G.GuardIsExact(cfg, h.lib, Compile(RuleOf(h.req)), h.header);
    var d := G.Decide(Compile(RuleOf(h.req)), h.header, G.OwnVerifier(cfg, h.lib));
    StatusTellsAdmission(d);
    SignsAreNotAcceptable(cfg, h.lib);
  }

  lemma SignsAreNotAcceptable(cfg: V.Config, lib: V.Library)
    ensures forall token | V.FailsWithSigns(lib.check(token)) :: !V.Acceptable(cfg, lib, token)
  {
  }

  /** A write by a caller who held profile:write. */
  ghost predicate IsWrite(cfg: V.Config, h: Http) {
    !h.req.GetRequest? && Authorized(cfg, h, ["profile:write"], [])
  }

  /** An authorized update or delete that names the row. */
  ghost predicate IsChange(cfg: V.Config, ids: P.UuidText, h: Http, id: P.Uuid) {
    P.Targets(ids, h.req, id) && IsWrite(cfg, h)
  }

  /** An authorized create that was given this id. */
  ghost predicate IsCreate(cfg: V.Config, h: Http, id: P.Uuid) {
    h.req.CreateRequest? && h.env.nextId == id && IsWrite(cfg, h)
  }

  /** An authorized create or update that asked for the row to be as it is. */
  ghost predicate IsAuthor(cfg: V.Config, ids: P.UuidText, h: Http, id: P.Uuid, row: P.Row) {
    P.Asks(ids, h.env, h.req, id, row) && IsWrite(cfg, h)
  }

  ghost predicate IsDelete(cfg: V.Config, ids: P.UuidText, h: Http, id: P.Uuid) {
    h.req.DeleteRequest? && ids.parse(h.req.id) == Some(id) && Authorized(cfg, h, ["profile:write"], ["admin"])
  }

  /** The row is there before and after, and it is the same. */
  ghost predicate Same(t: P.Table, t': P.Table, id: P.Uuid) {
    id in t.rows && id in t'.rows && t'.rows[id] == t.rows[id]
  }

  lemma ChangeNeedsAuthority(cfg: V.Config, ids: P.UuidText, t: P.Table, h: Http, id: P.Uuid)
    requires P.Sound(t)
    ensures var t' := Serve(cfg, ids, t, h).0;
            && P.Sound(t')
            && (id in t.rows && !Same(t, t', id) ==> IsChange(cfg, ids, h, id))
            && (id in t.rows && id !in t'.rows ==> IsDelete(cfg, ids, h, id))
            && (id !in t.rows && id in t'.rows ==> IsCreate(cfg, h, id))
            && (id in t'.rows && !Same(t, t', id) ==> IsAuthor(cfg, ids, h, id, t'.rows[id]))
  {
    AdmittedIffAuthorized(cfg, h);
    if Authorized(cfg, h, ScopesFor(h.req), RolesFor(h.req)) {
      assert Authorized(cfg, h, ScopesFor(h.req), []);
    }
    hide Authorized, P.ServiceStep, P.Sound;
    P.StepKeepsTable(ids, t, h.env, h.req);
    assert P.KeepsRow(ids, t, h.env, h.req, P.ServiceStep(ids, t, h.env, h.req).0, id);
    var t' := P.ServiceStep(ids, t, h.env, h.req).0;
    if id in t'.rows && !Same(t, t', id) {
      P.NewRowWasAsked(ids, t, h.env, h.req, id);
    }
  }

  /**
   * Over any run of requests, with any tokens and any faults, row by row: one that changed or is gone was named by an
   * update or delete of a caller who held profile:write; one that is gone was deleted by a caller who was an admin as
   * well; one that is new was created by a caller who held profile:write; and one that is new or differs holds the
   * names that such a caller asked for.
   */
  lemma {:induction false} ChangesNeedAuthority(cfg: V.Config, ids: P.UuidText, t: P.Table, hs: seq<Http>, id: P.Uuid)
    requires P.Sound(t)
    ensures var t' := ServeAll(cfg, ids, t, hs);
            && P.Sound(t')
            && (id in t.rows && !Same(t, t', id) ==> exists h :: h in hs && IsChange(cfg, ids, h, id))
            && (id in t.rows && id !in t'.rows ==> exists h :: h in hs && IsDelete(cfg, ids, h, id))
            && (id !in t.rows && id in t'.rows ==> exists h :: h in hs && IsCreate(cfg, h, id))
            && (id in t'.rows && !Same(t, t', id) ==> exists h :: h in hs && IsAuthor(cfg, ids, h, id, t'.rows[id]))
  {
    if hs == [] {
    } else {
      var n := |hs| - 1;
      ChangesNeedAuthority(cfg, ids, t, hs[..n], id);
      ChangeNeedsAuthority(cfg, ids, ServeAll(cfg, ids, t, hs[..n]), hs[n], id);
      assert hs[n] in hs && forall h | h in hs[..n] :: h in hs;
      hide IsChange, IsDelete, IsCreate, IsAuthor, Serve, P.Sound;
    }
  }
}
