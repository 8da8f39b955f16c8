/** The authorization algebra of pkg/authx/requirements.go over values. */
module Requirements {
  import opened Wrappers
  import opened Authx

  /** One conjunction. A nil list and an empty one are the same value here: no code tells them apart. */
  datatype Requirement = Requirement(scopes: seq<string>, roles: seq<string>)

  /** A disjunction of conjunctions. */
  type Requirements = seq<Requirement>

  const UNCONSTRAINED := Requirement([], [])

  function Scope(names: seq<string>): Requirements {
    [Requirement(names, [])]
  }

  function Role(names: seq<string>): Requirements {
    [Requirement([], names)]
  }

  function Authenticated(): Requirements {
    [UNCONSTRAINED]
  }

  // ---------------------------------------------------------------- evaluation

  ghost predicate Holds(alt: Requirement, id: Identity) {
    && (forall s | s in alt.scopes :: id.HasScope(s))
    && (forall r | r in alt.roles :: id.HasRole(r))
  }

  ghost predicate Meets(r: Requirements, id: Identity) {
    exists alt :: alt in r && Holds(alt, id)
  }

  method SatisfiedOne(alt: Requirement, id: Identity) returns (ok: bool)
    ensures ok <==> Holds(alt, id)
  {
    for i := 0 to |alt.scopes|
      invariant forall j | 0 <= j < i :: id.HasScope(alt.scopes[j])
    {
      if !id.HasScope(alt.scopes[i]) {
        return false;
      }
    }
    for i := 0 to |alt.roles|
      invariant forall j | 0 <= j < i :: id.HasRole(alt.roles[j])
    {
      if !id.HasRole(alt.roles[i]) {
        return false;
      }
    }
    return true;
  }

  method Satisfied(r: Requirements, id: Identity) returns (ok: bool)
    ensures ok <==> Meets(r, id)
  {
    for i := 0 to |r|
      invariant forall j | 0 <= j < i :: !Holds(r[j], id)
    {
      var one := SatisfiedOne(r[i], id);
      if one {
        return true;
      }
    }
    return false;
  }

  // ---------------------------------------------------------------- the cross product

  function Merge(a: Requirement, b: Requirement): Requirement {
    Requirement(a.scopes + b.scopes, a.roles + b.roles)
  }

  /** One alternative crossed with a disjunction. */
  function MergeEach(a: Requirement, r: Requirements): (out: Requirements)
    ensures |out| == |r| && forall j | 0 <= j < |r| :: out[j] == Merge(a, r[j])
  {
    seq(|r|, j requires 0 <= j < |r| => Merge(a, r[j]))
  }

  function Cross(acc: Requirements, r: Requirements): Requirements {
    if acc == [] then [] else MergeEach(acc[0], r) + Cross(acc[1..], r)
  }

  /** The conjunction of every argument, crossed from left to right. */
  function ConjunctionOf(rs: seq<Requirements>): Requirements {
    if rs == [] then [UNCONSTRAINED] else Cross(ConjunctionOf(rs[..|rs| - 1]), rs[|rs| - 1])
  }

  lemma {:induction false} CrossWithNothing(acc: Requirements)
    ensures Cross(acc, []) == []
  {
    if acc == [] {
    } else {
      CrossWithNothing(acc[1..]);
    }
  }

  lemma {:induction false} CrossAppend(a: Requirements, b: Requirements, r: Requirements)
    ensures Cross(a + b, r) == Cross(a, r) + Cross(b, r)
  {
    if a == [] {
      assert a + b == b;
    } else {
      assert (a + b)[1..] == a[1..] + b;
      CrossAppend(a[1..], b, r);
    }
  }

  lemma {:induction false} MergeEachCross(x: Requirement, b: Requirements, c: Requirements)
    ensures Cross(MergeEach(x, b), c) == MergeEach(x, Cross(b, c))
  {
    if b == [] {
    } else {
      var y := b[0];
      assert MergeEach(x, b)[1..] == MergeEach(x, b[1..]);
      MergeEachCross(x, b[1..], c);
      assert MergeEach(Merge(x, y), c) == MergeEach(x, MergeEach(y, c)) by {
        forall j | 0 <= j < |c|
          ensures Merge(Merge(x, y), c[j]) == Merge(x, Merge(y, c[j]))
        {
          assert (x.scopes + y.scopes) + c[j].scopes == x.scopes + (y.scopes + c[j].scopes);
          assert (x.roles + y.roles) + c[j].roles == x.roles + (y.roles + c[j].roles);
        }
      }
      assert MergeEach(x, MergeEach(y, c) + Cross(b[1..], c))
          == MergeEach(x, MergeEach(y, c)) + MergeEach(x, Cross(b[1..], c));
    }
  }

  lemma {:induction false} CrossAssociative(a: Requirements, b: Requirements, c: Requirements)
    ensures Cross(Cross(a, b), c) == Cross(a, Cross(b, c))
  {
    if a == [] {
    } else {
      CrossAppend(MergeEach(a[0], b), Cross(a[1..], b), c);
      MergeEachCross(a[0], b, c);
      CrossAssociative(a[1..], b, c);
    }
  }

  lemma MergeUnit(x: Requirement)
    ensures Merge(UNCONSTRAINED, x) == x && Merge(x, UNCONSTRAINED) == x
  {
  }

  lemma {:induction false} CrossUnitRight(a: Requirements)
    ensures Cross(a, Authenticated()) == a
  {
    if a == [] {
    } else {
      CrossUnitRight(a[1..]);
      MergeUnit(a[0]);
      assert MergeEach(a[0], Authenticated()) == [a[0]];
    }
  }

  lemma CrossUnitLeft(a: Requirements)
    ensures Cross(Authenticated(), a) == a
  {
    forall j | 0 <= j < |a|
      ensures MergeEach(UNCONSTRAINED, a)[j] == a[j]
    {
      MergeUnit(a[j]);
    }
    assert MergeEach(UNCONSTRAINED, a) == a;
    assert Authenticated()[1..] == [];
  }

  lemma {:induction false} ConjunctionAppend(a: seq<Requirements>, b: seq<Requirements>)
    ensures ConjunctionOf(a + b) == Cross(ConjunctionOf(a), ConjunctionOf(b))
  {
    if b == [] {
      assert a + b == a;
      CrossUnitRight(ConjunctionOf(a));
    } else {
      var init, last := b[..|b| - 1], b[|b| - 1];
      assert (a + b)[..|a + b| - 1] == a + init;
      ConjunctionAppend(a, init);
      CrossAssociative(ConjunctionOf(a), ConjunctionOf(init), last);
    }
  }

  function ConjunctionOfEach(groups: seq<seq<Requirements>>): (rs: seq<Requirements>)
    ensures |rs| == |groups|
  {
    if groups == [] then [] else [ConjunctionOf(groups[0])] + ConjunctionOfEach(groups[1..])
  }

  /** AllOf of nested AllOfs is AllOf of the flattened list: the same alternatives with the same names in one order. */
  lemma {:induction false} NestedAllOfFlattens(groups: seq<seq<Requirements>>)
    ensures ConjunctionOf(ConjunctionOfEach(groups)) == ConjunctionOf(Flatten(groups))
  {
    if groups == [] {
    } else {
      var first := ConjunctionOf(groups[0]);
      NestedAllOfFlattens(groups[1..]);
      ConjunctionAppend([first], ConjunctionOfEach(groups[1..]));
      ConjunctionAppend(groups[0], Flatten(groups[1..]));
      assert [first][..0] == [];
      CrossUnitLeft(first);
    }
  }

  // ---------------------------------------------------------------- shape: mixed-radix choices

  /** The number of ways to pick one alternative from each argument. */
  function Product(rs: seq<Requirements>): nat {
    if rs == [] then 1 else Product(rs[..|rs| - 1]) * |rs[|rs| - 1]|
  }

  /** A choice names one alternative of each argument. */
  ghost predicate IsChoice(rs: seq<Requirements>, choice: seq<nat>) {
    |choice| == |rs| && forall i | 0 <= i < |rs| :: choice[i] < |rs[i]|
  }

  /** The place of a choice: its value as a mixed-radix number whose last digit varies fastest. */
  ghost function Place(rs: seq<Requirements>, choice: seq<nat>): nat
    requires |choice| == |rs|
  {
    if rs == [] then 0
    else
      var n := |rs| - 1;
      Place(rs[..n], choice[..n]) * |rs[n]| + choice[n]
  }

  ghost function ChoiceAt(rs: seq<Requirements>, k: nat): seq<nat> {
    if rs == [] then []
    else
      var n := |rs| - 1;
      if |rs[n]| == 0 then [] else ChoiceAt(rs[..n], k / |rs[n]|) + [k % |rs[n]|]
  }

  /** What a choice asks for: the chosen names of every argument, in the order of the arguments. */
  ghost function Chosen(rs: seq<Requirements>, choice: seq<nat>): Requirement
    requires IsChoice(rs, choice)
  {
    Requirement(Flatten(ChosenScopes(rs, choice)), Flatten(ChosenRoles(rs, choice)))
  }

  ghost function ChosenScopes(rs: seq<Requirements>, choice: seq<nat>): seq<seq<string>>
    requires IsChoice(rs, choice)
  {
    seq(|rs|, i requires 0 <= i < |rs| => rs[i][choice[i]].scopes)
  }

  ghost function ChosenRoles(rs: seq<Requirements>, choice: seq<nat>): seq<seq<string>>
    requires IsChoice(rs, choice)
  {
    seq(|rs|, i requires 0 <= i < |rs| => rs[i][choice[i]].roles)
  }

  lemma ChosenSnoc(rs: seq<Requirements>, choice: seq<nat>)
    requires rs != [] && IsChoice(rs, choice)
    ensures var n := |rs| - 1;
            IsChoice(rs[..n], choice[..n]) &&
            Chosen(rs, choice) == Merge(Chosen(rs[..n], choice[..n]), rs[n][choice[n]])
  {
    var n := |rs| - 1;
    var init, front, last := rs[..n], choice[..n], rs[n][choice[n]];
    assert ChosenScopes(rs, choice) == ChosenScopes(init, front) + [last.scopes];
    assert ChosenRoles(rs, choice) == ChosenRoles(init, front) + [last.roles];
    FlattenAppend(ChosenScopes(init, front), [last.scopes]);
    FlattenAppend(ChosenRoles(init, front), [last.roles]);
    FlattenOne(last.scopes);
    FlattenOne(last.roles);
  }

  lemma MulMonotone(a: int, b: int, m: nat)
    requires a <= b
    ensures a * m <= b * m
  {
    assert b * m == a * m + (b - a) * m;
  }

  lemma MulCancel(a: int, b: int, m: nat)
    requires a * m < b * m
    ensures a < b && m > 0
  {
    if b <= a {
      MulMonotone(b, a, m);
    }
  }

  lemma DivModUnique(x: nat, m: nat, q: nat, d: nat)
    requires d < m && x == q * m + d
    ensures x / m == q && x % m == d
  {
    var q' := x / m;
    assert x == q' * m + x % m;
    assert (q' + 1) * m == q' * m + m;
    assert (q + 1) * m == q * m + m;
    MulCancel(q, q' + 1, m);
    MulCancel(q', q + 1, m);
  }

  lemma PlaceBounds(q: nat, p: nat, m: nat, d: nat)
    requires q < p && d < m
    ensures q * m + d < p * m
    ensures (q * m + d) / m == q && (q * m + d) % m == d
  {
    assert (q + 1) * m == q * m + m;
    MulMonotone(q + 1, p, m);
    DivModUnique(q * m + d, m, q, d);
  }

  lemma QuotientBound(k: nat, p: nat, m: nat)
    requires k < p * m
    ensures m > 0 && k / m < p
  {
    MulCancel(0, p, m);
    assert k == k / m * m + k % m;
    MulCancel(k / m, p, m);
  }

  /** ChoiceAt and Place are inverse bijections between the places below Product and the choices. */
  lemma {:induction false} PlacesAreChoices(rs: seq<Requirements>, k: nat)
    requires k < Product(rs)
    ensures IsChoice(rs, ChoiceAt(rs, k)) && Place(rs, ChoiceAt(rs, k)) == k
  {
    if rs == [] {
    } else {
      var n := |rs| - 1;
      var m := |rs[n]|;
      QuotientBound(k, Product(rs[..n]), m);
      PlacesAreChoices(rs[..n], k / m);
      ChoiceSnoc(rs, ChoiceAt(rs[..n], k / m), k % m);
    }
  }

  lemma ChoiceSnoc(rs: seq<Requirements>, front: seq<nat>, last: nat)
    requires rs != [] && IsChoice(rs[..|rs| - 1], front) && last < |rs[|rs| - 1]|
    ensures IsChoice(rs, front + [last])
    ensures Place(rs, front + [last]) == Place(rs[..|rs| - 1], front) * |rs[|rs| - 1]| + last
  {
    var n := |rs| - 1;
    var choice := front + [last];
    assert choice[..n] == front && choice[n] == last;
    forall i | 0 <= i < n
      ensures choice[i] < |rs[i]|
    {
      assert rs[i] == rs[..n][i] && choice[i] == front[i];
    }
  }

  lemma {:induction false} ChoicesArePlaces(rs: seq<Requirements>, choice: seq<nat>)
    requires IsChoice(rs, choice)
    ensures Place(rs, choice) < Product(rs) && ChoiceAt(rs, Place(rs, choice)) == choice
  {
    if rs == [] {
    } else {
      var n := |rs| - 1;
      ChoicesArePlaces(rs[..n], choice[..n]);
      PlaceBounds(Place(rs[..n], choice[..n]), Product(rs[..n]), |rs[n]|, choice[n]);
      assert choice == choice[..n] + [choice[n]];
    }
  }

  lemma {:induction false} CrossAt(acc: Requirements, r: Requirements, i: nat, j: nat)
    requires i < |acc| && j < |r|
    ensures |Cross(acc, r)| == |acc| * |r|
    ensures i * |r| + j < |acc| * |r|
    ensures Cross(acc, r)[i * |r| + j] == Merge(acc[i], r[j])
  {
    CrossLength(acc, r);
    PlaceBounds(i, |acc|, |r|, j);
    if i == 0 {
    } else {
      CrossAt(acc[1..], r, i - 1, j);
      assert i * |r| + j == |r| + ((i - 1) * |r| + j);
      assert Cross(acc, r)[i * |r| + j] == Cross(acc[1..], r)[(i - 1) * |r| + j];
    }
  }

  lemma {:induction false} CrossLength(acc: Requirements, r: Requirements)
    ensures |Cross(acc, r)| == |acc| * |r|
  {
    if acc == [] {
    } else {
      CrossLength(acc[1..], r);
      assert |acc| * |r| == |r| + (|acc| - 1) * |r|;
    }
  }

  lemma {:induction false} ConjunctionLength(rs: seq<Requirements>)
    ensures |ConjunctionOf(rs)| == Product(rs)
  {
    if rs == [] {
    } else {
      ConjunctionLength(rs[..|rs| - 1]);
      CrossLength(ConjunctionOf(rs[..|rs| - 1]), rs[|rs| - 1]);
    }
  }

  /** The alternative at the place of a choice is the ordered concatenation of what the choice picks. */
  lemma {:induction false} ConjunctionAtPlace(rs: seq<Requirements>, choice: seq<nat>)
    requires IsChoice(rs, choice)
    ensures Place(rs, choice) < |ConjunctionOf(rs)|
    ensures ConjunctionOf(rs)[Place(rs, choice)] == Chosen(rs, choice)
  {
    if rs == [] {
    } else {
      var n := |rs| - 1;
      var init, front := rs[..n], choice[..n];
      ConjunctionAtPlace(init, front);
      CrossAt(ConjunctionOf(init), rs[n], Place(init, front), choice[n]);
      ChosenSnoc(rs, choice);
    }
  }

  lemma ConjunctionSnoc(rs: seq<Requirements>, i: nat)
    requires i < |rs|
    ensures ConjunctionOf(rs[..i + 1]) == Cross(ConjunctionOf(rs[..i]), rs[i])
  {
    assert rs[..i + 1][..i] == rs[..i];
  }

  // ---------------------------------------------------------------- AllOf and AnyOf as the source runs them

  /** Every choice sits at its place, and there is nothing else. */
  ghost predicate IsProductOf(out: Requirements, rs: seq<Requirements>) {
    && |out| == Product(rs)
    && forall choice | IsChoice(rs, choice) ::
         Place(rs, choice) < |out| && out[Place(rs, choice)] == Chosen(rs, choice)
  }

  lemma ConjunctionIsProduct(rs: seq<Requirements>)
    ensures IsProductOf(ConjunctionOf(rs), rs)
  {
    ConjunctionLength(rs);
    forall choice | IsChoice(rs, choice)
      ensures Place(rs, choice) < |ConjunctionOf(rs)| && ConjunctionOf(rs)[Place(rs, choice)] == Chosen(rs, choice)
    {
      ConjunctionAtPlace(rs, choice);
    }
  }

  /** IsProductOf leaves no freedom: it determines the list. */
  lemma ProductIsUnique(out: Requirements, rs: seq<Requirements>)
    requires IsProductOf(out, rs)
    ensures out == ConjunctionOf(rs)
  {
    ConjunctionIsProduct(rs);
    forall k | 0 <= k < |out|
      ensures out[k] == ConjunctionOf(rs)[k]
    {
      PlacesAreChoices(rs, k);
      assert out[Place(rs, ChoiceAt(rs, k))] == Chosen(rs, ChoiceAt(rs, k));
    }
  }

  lemma {:induction false} ConjunctionWithNothing(rs: seq<Requirements>, i: nat)
    requires i < |rs| && rs[i] == []
    ensures ConjunctionOf(rs) == []
  {
    var n := |rs| - 1;
    if i == n {
      CrossWithNothing(ConjunctionOf(rs[..n]));
    } else {
      ConjunctionWithNothing(rs[..n], i);
    }
  }

  /** The capacity that AllOf reserves for crossing n alternatives with m terms. */
  function Capacity(n: nat, m: nat): nat {
    n * m
  }

  lemma CapacityGrows(a: nat, n: nat, m: nat)
    requires a < n
    ensures Capacity(0, m) == 0 && Capacity(a + 1, m) == Capacity(a, m) + m <= Capacity(n, m)
  {
    assert (a + 1) * m == a * m + m;
    MulMonotone(a + 1, n, m);
  }

  /** The inner loop of AllOf: it appends one row to the n alternatives in the buffer, within its capacity. */
  method AppendRow(buffer: array<Requirement>, n: nat, acc: Requirement, r: Requirements)
    requires n + |r| <= buffer.Length
    modifies buffer
    ensures buffer[..n + |r|] == old(buffer[..n]) + MergeEach(acc, r)
  {
    for t := 0 to |r|
      invariant buffer[..n + t] == old(buffer[..n]) + MergeEach(acc, r)[..t]
    {
      buffer[n + t] := Merge(acc, r[t]);
    }
  }

  /** The two inner loops of AllOf: no append exceeds the reserved capacity, and the last one fills it. */
  method CrossInto(out: Requirements, r: Requirements) returns (next: Requirements)
    ensures next == Cross(out, r) && |next| == Capacity(|out|, |r|)
  {
    var buffer := new Requirement[Capacity(|out|, |r|)];
    var n := 0;
    assert Capacity(0, |r|) == 0;
    hide Capacity;
    for a := 0 to |out|
      invariant n == Capacity(a, |r|) <= buffer.Length && buffer[..n] == Cross(out[..a], r)
    {
      CapacityGrows(a, |out|, |r|);
      AppendRow(buffer, n, out[a], r);
      n := n + |r|;
      CrossSnoc(out, r, a);
    }
    assert out[..|out|] == out;
    next := buffer[..n];
  }

  lemma CrossSnoc(acc: Requirements, r: Requirements, a: nat)
    requires a < |acc|
    ensures Cross(acc[..a + 1], r) == Cross(acc[..a], r) + MergeEach(acc[a], r)
  {
    assert acc[..a + 1] == acc[..a] + [acc[a]] && [acc[a]][1..] == [];
    CrossAppend(acc[..a], [acc[a]], r);
  }

  method AllOf(rs: seq<Requirements>) returns (out: Requirements)
    ensures IsProductOf(out, rs)
    ensures out == ConjunctionOf(rs)
  {
    out := [UNCONSTRAINED];
    for i := 0 to |rs|
      invariant out == ConjunctionOf(rs[..i])
    {
      var r := rs[i];
      if |r| == 0 {
        ConjunctionWithNothing(rs, i);
        ConjunctionIsProduct(rs);
        return [];
      }
      out := CrossInto(out, r);
      ConjunctionSnoc(rs, i);
    }
    assert rs[..|rs|] == rs;
    ConjunctionIsProduct(rs);
  }

  method AnyOf(rs: seq<Requirements>) returns (out: Requirements)
    ensures out == Flatten(rs)
  {
    out := [];
    for i := 0 to |rs|
      invariant out == Flatten(rs[..i])
    {
      out := out + rs[i];
      assert rs[..i + 1] == rs[..i] + [rs[i]];
      FlattenAppend(rs[..i], [rs[i]]);
      assert Flatten([rs[i]]) == rs[i];
    }
    assert rs[..|rs|] == rs;
  }

  // ---------------------------------------------------------------- meaning

  lemma MeetsAppend(a: Requirements, b: Requirements, id: Identity)
    ensures Meets(a + b, id) <==> Meets(a, id) || Meets(b, id)
  {
  }

  lemma MeetsMergeEach(x: Requirement, r: Requirements, id: Identity)
    ensures Meets(MergeEach(x, r), id) <==> Holds(x, id) && Meets(r, id)
  {
    forall j | 0 <= j < |r|
      ensures Holds(Merge(x, r[j]), id) <==> Holds(x, id) && Holds(r[j], id)
    {
      var m := Merge(x, r[j]);
      assert forall s | s in x.scopes :: s in m.scopes;
      assert forall s | s in r[j].scopes :: s in m.scopes;
      assert forall s | s in x.roles :: s in m.roles;
      assert forall s | s in r[j].roles :: s in m.roles;
    }
    if Holds(x, id) && Meets(r, id) {
      var alt :| alt in r && Holds(alt, id);
      var j :| 0 <= j < |r| && r[j] == alt;
      assert MergeEach(x, r)[j] in MergeEach(x, r);
    }
    if Meets(MergeEach(x, r), id) {
      var alt :| alt in MergeEach(x, r) && Holds(alt, id);
      var j :| 0 <= j < |r| && MergeEach(x, r)[j] == alt;
      assert r[j] in r;
    }
  }

  lemma {:induction false} MeetsCross(a: Requirements, b: Requirements, id: Identity)
    ensures Meets(Cross(a, b), id) <==> Meets(a, id) && Meets(b, id)
  {
    if a == [] {
    } else {
      MeetsMergeEach(a[0], b, id);
      MeetsCross(a[1..], b, id);
      MeetsAppend(MergeEach(a[0], b), Cross(a[1..], b), id);
      MeetsAppend([a[0]], a[1..], id);
      assert a == [a[0]] + a[1..];
      assert Meets([a[0]], id) <==> Holds(a[0], id) by {
        assert a[0] in [a[0]];
      }
    }
  }

  /** AllOf asks for all of its arguments. */
  lemma {:induction false} MeetsConjunction(rs: seq<Requirements>, id: Identity)
    ensures Meets(ConjunctionOf(rs), id) <==> forall r | r in rs :: Meets(r, id)
  {
    if rs == [] {
      assert UNCONSTRAINED in ConjunctionOf(rs) && Holds(UNCONSTRAINED, id);
    } else {
      var n := |rs| - 1;
      MeetsConjunction(rs[..n], id);
      MeetsCross(ConjunctionOf(rs[..n]), rs[n], id);
      assert rs == rs[..n] + [rs[n]];
    }
  }

  /** AnyOf asks for one of its arguments. */
  lemma {:induction false} MeetsDisjunction(rs: seq<Requirements>, id: Identity)
    ensures Meets(Flatten(rs), id) <==> exists r :: r in rs && Meets(r, id)
  {
    if rs == [] {
    } else {
      MeetsDisjunction(rs[1..], id);
      MeetsAppend(rs[0], Flatten(rs[1..]), id);
      assert rs == [rs[0]] + rs[1..];
    }
  }

  /** What an operation writes down: nested calls of the five combinators. */
  datatype Rule =
    | ScopeRule(names: seq<string>)
    | RoleRule(names: seq<string>)
    | AuthenticatedRule
    | AllOfRule(rules: seq<Rule>)
    | AnyOfRule(rules: seq<Rule>)

  /** The rule read directly: and, or, membership. */
  ghost predicate Allows(rule: Rule, id: Identity) {
    match rule
    case ScopeRule(names) => forall s | s in names :: s in id.scopes
    case RoleRule(names) => forall r | r in names :: r in id.roles
    case AuthenticatedRule => true
    case AllOfRule(rules) => forall r | r in rules :: Allows(r, id)
    case AnyOfRule(rules) => exists r | r in rules :: Allows(r, id)
  }

  /** The rule as the combinators evaluate it. */
  function Compile(rule: Rule): Requirements
    decreases rule, 1
  {
    match rule
    case ScopeRule(names) => Scope(names)
    case RoleRule(names) => Role(names)
    case AuthenticatedRule => Authenticated()
    case AllOfRule(rules) => ConjunctionOf(CompileEach(rules))
    case AnyOfRule(rules) => Flatten(CompileEach(rules))
  }

  function CompileEach(rules: seq<Rule>): (rs: seq<Requirements>)
    ensures |rs| == |rules|
    decreases rules, 0
  {
    if rules == [] then [] else [Compile(rules[0])] + CompileEach(rules[1..])
  }

  /** Normalisation preserves meaning, at any nesting depth and for nodes without arguments too. */
  lemma {:induction false} CompilePreservesMeaning(rule: Rule, id: Identity)
    ensures Meets(Compile(rule), id) <==> Allows(rule, id)
    decreases rule, 1
  {
    match rule
    case ScopeRule(names) =>
      assert Requirement(names, []) in Compile(rule);
    case RoleRule(names) =>
      assert Requirement([], names) in Compile(rule);
    case AuthenticatedRule =>
      assert UNCONSTRAINED in Compile(rule);
    case AllOfRule(rules) =>
      CompileEachPreservesMeaning(rules, id);
      MeetsConjunction(CompileEach(rules), id);
    case AnyOfRule(rules) =>
      CompileEachPreservesMeaning(rules, id);
      MeetsDisjunction(CompileEach(rules), id);
  }

  lemma {:induction false} CompileEachPreservesMeaning(rules: seq<Rule>, id: Identity)
    ensures forall i | 0 <= i < |rules| :: Meets(CompileEach(rules)[i], id) <==> Allows(rules[i], id)
    decreases rules, 0
  {
    if rules == [] {
    } else {
      CompilePreservesMeaning(rules[0], id);
      CompileEachPreservesMeaning(rules[1..], id);
      forall i | 0 < i < |rules|
        ensures Meets(CompileEach(rules)[i], id) <==> Allows(rules[i], id)
      {
        assert rules[i] == rules[1..][i - 1] && CompileEach(rules)[i] == CompileEach(rules[1..])[i - 1];
      }
    }
  }

  // ---------------------------------------------------------------- emptiness and monotonicity

  /** The identity that holds exactly what an alternative names. */
  ghost function Bearer(alt: Requirement): Identity {
    Identity("bearer", alt.scopes, alt.roles, map[])
  }

  /** A requirement is empty exactly when no identity whatsoever satisfies it. */
  lemma EmptyIffUnsatisfiable(r: Requirements)
    ensures r == [] <==> forall id :: !Meets(r, id)
  {
    if r != [] {
      assert r[0] in r && Holds(r[0], Bearer(r[0]));
      assert Meets(r, Bearer(r[0]));
    }
  }

  /** More scopes and more roles never lose access. */
  lemma MeetsIsMonotone(r: Requirements, id: Identity, more: Identity)
    requires forall s | s in id.scopes :: s in more.scopes
    requires forall s | s in id.roles :: s in more.roles
    requires Meets(r, id)
    ensures Meets(r, more)
  {
    var alt :| alt in r && Holds(alt, id);
    assert forall s | s in alt.scopes :: id.HasScope(s);
    assert forall s | s in alt.roles :: id.HasRole(s);
    assert Holds(alt, more);
  }

  /** AllOf is empty exactly when some argument is; AnyOf exactly when every argument is. */
  lemma {:induction false} EmptinessOfCombinators(rs: seq<Requirements>)
    ensures ConjunctionOf(rs) == [] <==> [] in rs
    ensures Flatten(rs) == [] <==> forall r | r in rs :: r == []
  {
    if [] in rs {
      var i :| 0 <= i < |rs| && rs[i] == [];
      ConjunctionWithNothing(rs, i);
    } else {
      ConjunctionIsProduct(rs);
      var choice := seq(|rs|, i requires 0 <= i < |rs| => 0);
      assert IsChoice(rs, choice);
    }
    FlattenEmpty(rs);
  }

  lemma {:induction false} FlattenEmpty(rs: seq<Requirements>)
    ensures Flatten(rs) == [] <==> forall r | r in rs :: r == []
  {
    if rs == [] {
    } else {
      FlattenEmpty(rs[1..]);
      assert |Flatten(rs)| == |rs[0]| + |Flatten(rs[1..])|;
      if forall r | r in rs :: r == [] {
        assert rs[0] in rs && forall r | r in rs[1..] :: r in rs;
      }
      if Flatten(rs) == [] {
        assert rs[0] == [] && Flatten(rs[1..]) == [];
        assert forall r | r in rs :: r == rs[0] || r in rs[1..];
      }
    }
  }

  // ---------------------------------------------------------------- the OpenAPI projection

  /** An OpenAPI security field: alternatives that map a scheme to the scopes it must carry. */
  type Security = seq<map<string, seq<string>>>

  /** None is Go's nil field, which OpenAPI readers tell apart from an empty one. */
  method OpenApi(r: Requirements, scheme: string) returns (out: Option<Security>)
    ensures out.None? <==> r == []
    ensures r != [] ==> |out.value| == |r| && forall i | 0 <= i < |r| :: out.value[i] == map[scheme := r[i].scopes]
  {
    if |r| == 0 {
      return None;
    }
    var alternatives: Security := [];
    for i := 0 to |r|
      invariant |alternatives| == i && forall j | 0 <= j < i :: alternatives[j] == map[scheme := r[j].scopes]
    {
      var scopes: seq<string> := [];
      scopes := scopes + r[i].scopes;
      assert scopes == r[i].scopes;
      alternatives := alternatives + [map[scheme := scopes]];
    }
    return Some(alternatives);
  }
}
