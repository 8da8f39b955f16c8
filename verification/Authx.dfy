/** Identities and the context that carries one: pkg/authx/identity.go and pkg/authx/context.go. */
module Authx {
  import opened Wrappers

  /** A value of Go's `any` as it is found among token claims. */
  datatype Any =
    | Text(text: string)
    | TextList(texts: seq<string>)           // []string
    | List(items: seq<Any>)                  // []any
    | Object(members: map<string, Any>)      // map[string]any
    | Scalar                                 // a number, a boolean or null

  datatype Identity = Identity(subject: string, scopes: seq<string>, roles: seq<string>, claims: map<string, Any>)
  {
    predicate HasScope(scope: string) {
      scope in scopes
    }

    predicate HasRole(role: string) {
      role in roles
    }
  }

  /** The identity of a Verify that failed. */
  const ZERO_IDENTITY := Identity("", [], [], map[])

  // A context is a chain of values. The key of the identity is unexported, so only NewContext adds a WithIdentity.
  datatype Context =
    | Background
    | WithIdentity(parent: Context, id: Identity)
    | WithOther(parent: Context, key: nat, value: Any)

  function NewContext(ctx: Context, id: Identity): Context {
    WithIdentity(ctx, id)
  }

  function FromContext(ctx: Context): Option<Identity> {
    match ctx
    case Background => None
    case WithIdentity(_, id) => Some(id)
    case WithOther(parent, _, _) => FromContext(parent)
  }

  /** ctx.Value of a key of another package. */
  function Value(ctx: Context, key: nat): Option<Any> {
    match ctx
    case Background => None
    case WithIdentity(parent, _) => Value(parent, key)
    case WithOther(parent, k, value) => if k == key then Some(value) else Value(parent, key)
  }

  /** Storing an identity replaces the one that was there and takes no other value away. */
  lemma NewContextAddsIdentity(ctx: Context, id: Identity, key: nat)
    ensures FromContext(NewContext(ctx, id)) == Some(id)
    ensures Value(NewContext(ctx, id), key) == Value(ctx, key)
  {
  }

  /** What other packages add to a context, innermost first. */
  function WithOthers(ctx: Context, entries: seq<(nat, Any)>): Context
    decreases entries
  {
    if entries == [] then ctx else WithOthers(WithOther(ctx, entries[0].0, entries[0].1), entries[1..])
  }

  /**
   * However many values other packages add, a handler reads exactly the identity that was stored last, and an
   * identity without scopes and roles stays distinguishable from no identity at all.
   */
  lemma {:induction false} IdentityReachesHandler(ctx: Context, id: Identity, entries: seq<(nat, Any)>)
    ensures FromContext(WithOthers(NewContext(ctx, id), entries)) == Some(id)
    ensures FromContext(WithOthers(Background, entries)) == None
  {
    OthersKeepIdentity(NewContext(ctx, id), entries);
    OthersKeepIdentity(Background, entries);
  }

  lemma {:induction false} OthersKeepIdentity(ctx: Context, entries: seq<(nat, Any)>)
    ensures FromContext(WithOthers(ctx, entries)) == FromContext(ctx)
    decreases entries
  {
    if entries == [] {
    } else {
      OthersKeepIdentity(WithOther(ctx, entries[0].0, entries[0].1), entries[1..]);
    }
  }
}
