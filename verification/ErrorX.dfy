/**
 * Go errors as trees, the depth-first search of errors.Is and errors.As over them, and the typed error of
 * pkg/errorx/error.go.
 */
module ErrorX {
  import opened Wrappers
  import Text

  datatype ErrorType =
    | ErrInternal
    | ErrInvalidInput
    | ErrForbidden
    | ErrNotFound
    | ErrUnauthorized
    | ErrUnavailable
    | Undeclared(code: int)  // ErrorType is an int, so nothing stops a caller from making another one

  /** The package-level error values the repository compares against. */
  datatype Sentinel = NoRows | TxClosed | DeadlineExceeded | Canceled

  datatype Error =
    // An error made by library code: its text, the sentinels errors.Is finds in this very node, whether the node
    // is a net.Error, and what it unwraps to.
    | Library(text: string, answers: set<Sentinel>, net: bool, causes: seq<Error>)
    // fmt.Errorf("prefix: %w", cause)
    | Wrapped(prefix: string, cause: Error)
    // errorx.NewError(cause, etype)
    | Typed(cause: Error, etype: ErrorType)
    // errors.Join(errs...) of non-nil errors
    | Joined(errs: seq<Error>)

  /** errors.New: an opaque error with a text. */
  function New(text: string): Error {
    Library(text, {}, false, [])
  }

  function Message(e: Error): string
    decreases e, 1
  {
    match e
    case Library(text, _, _, _) => text
    case Wrapped(prefix, cause) => prefix + ": " + Message(cause)
    case Typed(cause, _) => Message(cause)
    case Joined(errs) => Text.Join(Messages(errs), "\n")
  }

  function Messages(errs: seq<Error>): seq<string>
    decreases errs, 0
  {
    if errs == [] then [] else [Message(errs[0])] + Messages(errs[1..])
  }

  // ---------------------------------------------------------------- the search of errors.Is and errors.As

  /** The first node that `p` accepts: a node before what it unwraps to, and those from left to right. */
  function Find(e: Error, p: Error -> bool): Option<Error>
    decreases e, 1
  {
    if p(e) then Some(e)
    else
      match e
      case Library(_, _, _, causes) => FindAny(causes, p)
      case Wrapped(_, cause) => Find(cause, p)
      case Typed(cause, _) => Find(cause, p)
      case Joined(errs) => FindAny(errs, p)
  }

  function FindAny(es: seq<Error>, p: Error -> bool): Option<Error>
    decreases es, 0
  {
    if es == [] then None
    else
      var found := Find(es[0], p);
      if found.Some? then found else FindAny(es[1..], p)
  }

  /** Every node of the tree in pre-order: what the search ranges over, written without the search. */
  function Nodes(e: Error): (nodes: seq<Error>)
    ensures nodes != [] && nodes[0] == e
    decreases e, 1
  {
    match e
    case Library(_, _, _, causes) => [e] + NodesOf(causes)
    case Wrapped(_, cause) => [e] + Nodes(cause)
    case Typed(cause, _) => [e] + Nodes(cause)
    case Joined(errs) => [e] + NodesOf(errs)
  }

  function NodesOf(es: seq<Error>): seq<Error>
    decreases es, 0
  {
    if es == [] then [] else Nodes(es[0]) + NodesOf(es[1..])
  }

  ghost predicate IsFirst(nodes: seq<Error>, p: Error -> bool, found: Option<Error>) {
    match found
    case None => forall n | n in nodes :: !p(n)
    case Some(f) => exists i | 0 <= i < |nodes| :: nodes[i] == f && p(f) && forall j | 0 <= j < i :: !p(nodes[j])
  }

  lemma IsFirstAppend(a: seq<Error>, b: seq<Error>, p: Error -> bool, inA: Option<Error>, inB: Option<Error>)
    requires IsFirst(a, p, inA) && IsFirst(b, p, inB)
    ensures IsFirst(a + b, p, if inA.Some? then inA else inB)
  {
    if inA.Some? {
      var i :| 0 <= i < |a| && a[i] == inA.value && p(inA.value) && forall j | 0 <= j < i :: !p(a[j]);
      assert (a + b)[i] == a[i];
    } else if inB.Some? {
      var i :| 0 <= i < |b| && b[i] == inB.value && p(inB.value) && forall j | 0 <= j < i :: !p(b[j]);
      assert (a + b)[|a| + i] == b[i];
    }
  }

  /** The search returns the first accepted node of the pre-order listing, and nothing only when there is none. */
  lemma {:induction false} FindIsFirstInPreOrder(e: Error, p: Error -> bool)
    ensures IsFirst(Nodes(e), p, Find(e, p))
    decreases e, 1
  {
    var root := if p(e) then Some(e) else None;
    assert IsFirst([e], p, root) by {
      assert p(e) ==> [e][0] == e;
    }
    match e
    case Library(_, _, _, causes) =>
      FindAnyIsFirstInPreOrder(causes, p);
      IsFirstAppend([e], NodesOf(causes), p, root, FindAny(causes, p));
    case Wrapped(_, cause) =>
      FindIsFirstInPreOrder(cause, p);
      IsFirstAppend([e], Nodes(cause), p, root, Find(cause, p));
    case Typed(cause, _) =>
      FindIsFirstInPreOrder(cause, p);
      IsFirstAppend([e], Nodes(cause), p, root, Find(cause, p));
    case Joined(errs) =>
      FindAnyIsFirstInPreOrder(errs, p);
      IsFirstAppend([e], NodesOf(errs), p, root, FindAny(errs, p));
  }

  lemma {:induction false} FindAnyIsFirstInPreOrder(es: seq<Error>, p: Error -> bool)
    ensures IsFirst(NodesOf(es), p, FindAny(es, p))
    decreases es, 0
  {
    if es == [] {
    } else {
      FindIsFirstInPreOrder(es[0], p);
      FindAnyIsFirstInPreOrder(es[1..], p);
      IsFirstAppend(Nodes(es[0]), NodesOf(es[1..]), p, Find(es[0], p), FindAny(es[1..], p));
    }
  }

  // ---------------------------------------------------------------- errors.Is, errors.As, TypeOf

  function Answers(s: Sentinel): Error -> bool {
    (e: Error) => e.Library? && s in e.answers
  }

  function HoldsType(): Error -> bool {
    (e: Error) => e.Typed?
  }

  function IsNetError(): Error -> bool {
    (e: Error) => e.Library? && e.net
  }

  /** errors.Is(e, s) */
  predicate Is(e: Error, s: Sentinel) {
    Find(e, Answers(s)).Some?
  }

  /** TypeOf takes a nil error too, and reports it as internal. */
  function TypeOf(err: Option<Error>): ErrorType {
    match err
    case None => ErrInternal
    case Some(e) =>
      var typed := Find(e, HoldsType());
      if typed.Some? && typed.value.Typed? then typed.value.etype else ErrInternal
  }

  /** Some node of the tree accepts: the reading of errors.Is and errors.As that does not mention an order. */
  ghost predicate Occurs(e: Error, p: Error -> bool) {
    exists n :: n in Nodes(e) && p(n)
  }

  lemma FoundIffOccurs(e: Error, p: Error -> bool)
    ensures Find(e, p).Some? <==> Occurs(e, p)
    ensures Find(e, p).Some? ==> p(Find(e, p).value) && Find(e, p).value in Nodes(e)
  {
    FindIsFirstInPreOrder(e, p);
  }

  /** Some node of the tree is this sentinel, or says that it is one. */
  ghost predicate Carries(e: Error, s: Sentinel) {
    exists n :: n in Nodes(e) && n.Library? && s in n.answers
  }

  ghost predicate CarriesNetError(e: Error) {
    exists n :: n in Nodes(e) && n.Library? && n.net
  }

  ghost predicate CarriesType(e: Error) {
    exists n :: n in Nodes(e) && n.Typed?
  }

  /** What the three searches of the repository look for, said of the tree. */
  lemma SearchesMean(e: Error)
    ensures forall s :: Is(e, s) <==> Carries(e, s)
    ensures Find(e, IsNetError()).Some? <==> CarriesNetError(e)
    ensures Find(e, HoldsType()).Some? <==> CarriesType(e)
  {
    forall s
      ensures Is(e, s) <==> Carries(e, s)
    {
      FoundIffOccurs(e, Answers(s));
      forall n: Error
        ensures Answers(s)(n) <==> n.Library? && s in n.answers
      {
      }
    }
    FoundIffOccurs(e, IsNetError());
    FoundIffOccurs(e, HoldsType());
    forall n: Error
      ensures IsNetError()(n) <==> n.Library? && n.net
      ensures HoldsType()(n) <==> n.Typed?
    {
    }
  }

  /** Some layer of the error put this text in. */
  ghost predicate Says(e: Error, text: string) {
    match e
    case Library(own, _, _, _) => text == own
    case Wrapped(prefix, cause) => text == prefix || Says(cause, text)
    case Typed(cause, _) => Says(cause, text)
    case Joined(errs) => exists i | 0 <= i < |errs| :: Says(errs[i], text)
  }

  /** No layer loses a text: the message contains what every layer put in. */
  lemma {:induction false} MessageTellsAll(e: Error, text: string)
    requires Says(e, text)
    ensures Text.Contains(Message(e), text)
    decreases e
  {
    match e
    case Library(own, _, _, _) =>
      Text.ContainsPiece("", text, "");
      assert "" + text + "" == text;
    case Wrapped(prefix, cause) =>
      var m := prefix + ": " + Message(cause);
      if text == prefix {
        assert m == "" + prefix + (": " + Message(cause));
        Text.ContainsPiece("", prefix, ": " + Message(cause));
      } else {
        MessageTellsAll(cause, text);
        assert m == (prefix + ": ") + Message(cause) + "";
        Text.ContainsInside(prefix + ": ", Message(cause), "", text);
      }
    case Typed(cause, _) =>
      MessageTellsAll(cause, text);
    case Joined(errs) =>
      var i :| 0 <= i < |errs| && Says(errs[i], text);
      MessageTellsAll(errs[i], text);
      MessagesAt(errs, i);
      Text.JoinContains(Messages(errs), "\n", i, text);
  }

  lemma {:induction false} MessagesAt(errs: seq<Error>, i: nat)
    requires i < |errs|
    ensures |Messages(errs)| == |errs| && Messages(errs)[i] == Message(errs[i])
  {
    if |errs| == 1 {
      assert Messages(errs[1..]) == [];
    } else {
      MessagesAt(errs[1..], if i == 0 then 0 else i - 1);
    }
  }

  /** TypeOf reports the first typed node in pre-order, and internal when there is none. */
  lemma TypeOfIsFirstTypedNode(e: Error)
    ensures Occurs(e, HoldsType()) ==>
              exists i | 0 <= i < |Nodes(e)| ::
                && Nodes(e)[i].Typed? && Nodes(e)[i].etype == TypeOf(Some(e))
                && forall j | 0 <= j < i :: !Nodes(e)[j].Typed?
    ensures !Occurs(e, HoldsType()) ==> TypeOf(Some(e)) == ErrInternal
    ensures TypeOf(None) == ErrInternal
  {
    FoundIffOccurs(e, HoldsType());
    FindIsFirstInPreOrder(e, HoldsType());
    if Find(e, HoldsType()).Some? {
      var f := Find(e, HoldsType()).value;
      var i :| 0 <= i < |Nodes(e)| && Nodes(e)[i] == f && HoldsType()(f)
               && forall j | 0 <= j < i :: !HoldsType()(Nodes(e)[j]);
      forall j | 0 <= j < i
        ensures !Nodes(e)[j].Typed?
      {
        assert !HoldsType()(Nodes(e)[j]);
      }
    }
  }

  /** Whatever errors.Is or errors.As looks for, a join finds it in the first error, and only then in the second. */
  lemma FindInJoin(first: Error, second: Error, p: Error -> bool)
    requires !p(Joined([first, second]))
    ensures Find(Joined([first, second]), p) == if Find(first, p).Some? then Find(first, p) else Find(second, p)
  {
    var es := [first, second];
    assert es[1..] == [second] && [second][1..] == [];
    assert FindAny([second], p) == Find(second, p);
  }
}
