/** The denial log's rendering of a requirement, Requirements.String, and why it can be read back. */
module RequirementsText {
  import opened Text
  import opened Requirements

  const NONE_SATISFIABLE := "none satisfiable"
  const AUTHENTICATED := "authenticated"
  const OR := " or "

  function Prefixed(prefix: string, names: seq<string>): (parts: seq<string>)
    ensures |parts| == |names| && forall i | 0 <= i < |names| :: parts[i] == prefix + names[i]
  {
    seq(|names|, i requires 0 <= i < |names| => prefix + names[i])
  }

  function Parts(alt: Requirement): seq<string> {
    Prefixed("scope:", alt.scopes) + Prefixed("role:", alt.roles)
  }

  function RenderOne(alt: Requirement): string {
    if Parts(alt) == [] then AUTHENTICATED else Join(Parts(alt), "+")
  }

  function RenderEach(r: Requirements): (texts: seq<string>)
    ensures |texts| == |r|
  {
    seq(|r|, i requires 0 <= i < |r| => RenderOne(r[i]))
  }

  function Render(r: Requirements): string {
    if r == [] then NONE_SATISFIABLE else Join(RenderEach(r), OR)
  }

  method String(r: Requirements) returns (text: string)
    ensures text == Render(r)
    ensures r == [] ==> text == "none satisfiable"
  {
    if |r| == 0 {
      return NONE_SATISFIABLE;
    }
    var alts: seq<string> := [];
    for i := 0 to |r|
      invariant alts == RenderEach(r)[..i]
    {
      var alt := r[i];
      var parts: seq<string> := [];
      for j := 0 to |alt.scopes|
        invariant parts == Prefixed("scope:", alt.scopes)[..j]
      {
        parts := parts + ["scope:" + alt.scopes[j]];
      }
      ghost var scopes := Prefixed("scope:", alt.scopes);
      assert parts == scopes;
      for j := 0 to |alt.roles|
        invariant parts == scopes + Prefixed("role:", alt.roles)[..j]
      {
        parts := parts + ["role:" + alt.roles[j]];
      }
      assert parts == Parts(alt);
      assert RenderEach(r)[..i + 1] == RenderEach(r)[..i] + [RenderOne(alt)];
      hide Parts, Prefixed;
      if |parts| == 0 {
        alts := alts + [AUTHENTICATED];
        continue;
      }
      alts := alts + [Join(parts, "+")];
    }
    assert alts == RenderEach(r);
    return Join(alts, OR);
  }

  // ---------------------------------------------------------------- reading a rendering back

  ghost predicate CleanName(name: string) {
    '+' !in name && ' ' !in name
  }

  /** All names of the requirement are free of the characters the rendering puts between them. */
  ghost predicate Clean(r: Requirements) {
    forall alt | alt in r ::
      (forall s | s in alt.scopes :: CleanName(s)) && (forall s | s in alt.roles :: CleanName(s))
  }

  ghost function Gather(parts: seq<string>): Requirement {
    if parts == [] then UNCONSTRAINED
    else
      var rest := Gather(parts[1..]);
      if "scope:" <= parts[0] then Requirement([parts[0][6..]] + rest.scopes, rest.roles)
      else if "role:" <= parts[0] then Requirement(rest.scopes, [parts[0][5..]] + rest.roles)
      else rest
  }

  ghost function ReadOne(text: string): Requirement {
    if text == AUTHENTICATED then UNCONSTRAINED else Gather(Split(text, '+'))
  }

  /** Cuts at each first space and drops the three characters that follow it. */
  ghost function ReadAlternatives(text: string): Requirements
    decreases |text|
  {
    var words := Split(text, ' ');
    var n := |words[0]|;
    if n + 4 <= |text| then [ReadOne(words[0])] + ReadAlternatives(text[n + 4..]) else [ReadOne(text)]
  }

  ghost function Read(text: string): Requirements {
    if text == NONE_SATISFIABLE then [] else ReadAlternatives(text)
  }

  lemma {:induction false} GatherRoles(roles: seq<string>)
    ensures Gather(Prefixed("role:", roles)) == Requirement([], roles)
  {
    if roles == [] {
    } else {
      assert Prefixed("role:", roles)[1..] == Prefixed("role:", roles[1..]);
      GatherRoles(roles[1..]);
      assert ("role:" + roles[0])[0] == 'r' && ("role:" + roles[0])[5..] == roles[0];
    }
  }

  lemma {:induction false} GatherParts(alt: Requirement)
    ensures Gather(Parts(alt)) == alt
    decreases |alt.scopes|
  {
    if alt.scopes == [] {
      GatherRoles(alt.roles);
      assert Parts(alt) == Prefixed("role:", alt.roles);
    } else {
      var rest := Requirement(alt.scopes[1..], alt.roles);
      assert Parts(alt)[1..] == Parts(rest);
      GatherParts(rest);
      assert ("scope:" + alt.scopes[0])[6..] == alt.scopes[0];
    }
  }

  lemma PartsAreClean(alt: Requirement)
    requires Clean([alt])
    ensures forall p | p in Parts(alt) :: '+' !in p && ' ' !in p
    ensures forall p | p in Parts(alt) :: p != "" && p[0] in {'s', 'r'}
  {
    assert alt in [alt];
    forall p | p in Parts(alt)
      ensures '+' !in p && ' ' !in p && p != "" && p[0] in {'s', 'r'}
    {
      var i :| 0 <= i < |Parts(alt)| && Parts(alt)[i] == p;
      if i < |alt.scopes| {
        assert p == "scope:" + alt.scopes[i] && CleanName(alt.scopes[i]);
      } else {
        assert p == "role:" + alt.roles[i - |alt.scopes|] && CleanName(alt.roles[i - |alt.scopes|]);
      }
    }
  }

  lemma {:induction false} JoinAvoids(parts: seq<string>, sep: string, c: char)
    requires c !in sep && forall p | p in parts :: c !in p
    ensures c !in Join(parts, sep)
  {
    if |parts| <= 1 {
    } else {
      assert forall p | p in parts[1..] :: p in parts;
      JoinAvoids(parts[1..], sep, c);
    }
  }

  lemma ReadOneOfRendered(alt: Requirement)
    requires Clean([alt])
    ensures ReadOne(RenderOne(alt)) == alt
    ensures ' ' !in RenderOne(alt)
  {
    var parts := Parts(alt);
    PartsAreClean(alt);
    if parts == [] {
      assert alt.scopes == [] && alt.roles == [] by {
        assert |parts| == |alt.scopes| + |alt.roles|;
      }
    } else {
      JoinAvoids(parts, "+", ' ');
      assert Join(parts, "+")[0] == parts[0][0] by {
        assert parts[0] in parts;
      }
      SplitOfJoin(parts, '+');
      GatherParts(alt);
    }
  }

  lemma RenderCons(r: Requirements)
    requires |r| > 1
    ensures Render(r) == RenderOne(r[0]) + OR + Render(r[1..])
  {
    assert RenderEach(r)[1..] == RenderEach(r[1..]);
  }

  lemma ReadAlternativesStep(first: string, rest: string)
    requires ' ' !in first
    ensures ReadAlternatives(first + OR + rest) == [ReadOne(first)] + ReadAlternatives(rest)
  {
    var text := first + OR + rest;
    assert text == first + [' '] + ("or " + rest);
    SplitAtSeparator(first, ' ', "or " + rest);
    assert text[|first| + 4..] == rest;
  }

  lemma {:induction false} ReadAlternativesOfRendered(r: Requirements)
    requires r != [] && Clean(r)
    ensures ReadAlternatives(Render(r)) == r
  {
    assert Clean([r[0]]) && Clean(r[1..]);
    ReadOneOfRendered(r[0]);
    if |r| == 1 {
      assert Render(r) == RenderOne(r[0]);
      SplitWithoutSeparator(RenderOne(r[0]), ' ');
    } else {
      RenderCons(r);
      ReadAlternativesStep(RenderOne(r[0]), Render(r[1..]));
      ReadAlternativesOfRendered(r[1..]);
    }
  }

  lemma DiffersFromNone(first: string, rest: string)
    requires ' ' !in first
    ensures first + OR + rest != NONE_SATISFIABLE
  {
    var text := first + OR + rest;
    assert text[|first|] == ' ' && text[|first| + 1] == 'o';
    if |first| > 4 {
      assert text[4] == first[4];
    }
  }

  lemma RenderIsNotNone(r: Requirements)
    requires r != [] && Clean(r)
    ensures Render(r) != NONE_SATISFIABLE
  {
    var first := RenderOne(r[0]);
    assert Clean([r[0]]);
    ReadOneOfRendered(r[0]);
    if |r| == 1 {
      assert Render(r) == first;
      assert NONE_SATISFIABLE[4] == ' ';
    } else {
      RenderCons(r);
      DiffersFromNone(first, Render(r[1..]));
    }
  }

  /** Rendering loses nothing as long as no name holds a plus sign or a space. */
  lemma ReadOfRendered(r: Requirements)
    requires Clean(r)
    ensures Read(Render(r)) == r
  {
    if r != [] {
      RenderIsNotNone(r);
      ReadAlternativesOfRendered(r);
    }
  }

  /** Two requirements that a log line cannot tell apart are the same list of alternatives. */
  lemma RenderIsUnambiguous(a: Requirements, b: Requirements)
    requires Clean(a) && Clean(b)
    requires Render(a) == Render(b)
    ensures a == b
  {
    ReadOfRendered(a);
    ReadOfRendered(b);
  }

  // ---------------------------------------------------------------- what a rendering identifies among all requirements

  /** The name reads as the end of an alternative and the beginning of the next one. */
  predicate HidesAlternative(name: string) {
    Contains(name, " or scope:") || Contains(name, " or role:") || EndsWith(name, " or authenticated")
  }

  /** A scope name that reads as more than one name. */
  predicate ScopeReadsAsMore(name: string) {
    Contains(name, "+scope:") || Contains(name, "+role:") || HidesAlternative(name)
  }

  /** A role name that reads as more than one name: scopes come before roles, so it cannot hide one. */
  predicate RoleReadsAsMore(name: string) {
    Contains(name, "+role:") || HidesAlternative(name)
  }

  /** At most one name in the last alternative, which reads as no more than one, and no names before it. */
  predicate Plain(r: Requirements) {
    if r == [] then true
    else if r[0] == UNCONSTRAINED then Plain(r[1..])
    else if |r| > 1 then false
    else
      || (|r[0].scopes| == 1 && r[0].roles == [] && !ScopeReadsAsMore(r[0].scopes[0]))
      || (r[0].scopes == [] && |r[0].roles| == 1 && !RoleReadsAsMore(r[0].roles[0]))
  }

  lemma RenderOneName(name: string)
    ensures Render(Scope([name])) == "scope:" + name
    ensures Render(Role([name])) == "role:" + name
  {
    assert Parts(Requirement([name], [])) == ["scope:" + name];
    assert Parts(Requirement([], [name])) == ["role:" + name];
    assert RenderEach(Scope([name])) == ["scope:" + name] && RenderEach(Role([name])) == ["role:" + name];
  }

  lemma RenderAuthenticated()
    ensures RenderOne(UNCONSTRAINED) == AUTHENTICATED && Render(Authenticated()) == AUTHENTICATED
  {
    assert Parts(UNCONSTRAINED) == [];
    assert RenderEach(Authenticated()) == [AUTHENTICATED];
  }

  /** How the rendering of an alternative begins and goes on. */
  lemma RenderOneBegins(alt: Requirement)
    ensures alt != UNCONSTRAINED ==>
              && Parts(alt) != []
              && RenderOne(alt) == Parts(alt)[0] + if |Parts(alt)| > 1 then "+" + Join(Parts(alt)[1..], "+") else ""
    ensures alt.scopes != [] ==> Parts(alt) != [] && Parts(alt)[0] == "scope:" + alt.scopes[0]
    ensures alt.scopes == [] && alt.roles != [] ==> Parts(alt) != [] && Parts(alt)[0] == "role:" + alt.roles[0]
  {
    assert |Parts(alt)| == |alt.scopes| + |alt.roles|;
    if |Parts(alt)| == 1 {
      assert Parts(alt)[0] + "" == Parts(alt)[0];
    } else if |Parts(alt)| > 1 {
      assert Parts(alt)[0] + "+" + Join(Parts(alt)[1..], "+") == Parts(alt)[0] + ("+" + Join(Parts(alt)[1..], "+"));
    }
  }

  /** What follows the first part of an alternative with several parts. */
  lemma SecondPartBegins(alt: Requirement)
    requires |Parts(alt)| > 1
    ensures "role:" <= Join(Parts(alt)[1..], "+") || (alt.scopes != [] && "scope:" <= Join(Parts(alt)[1..], "+"))
  {
    var rest := Parts(alt)[1..];
    assert rest[0] == Parts(alt)[1] && rest[0] <= Join(rest, "+");
  }

  /** The text after a first part, which is empty for a list of one part. */
  ghost function AfterFirst(r: Requirements): string
    requires r != []
  {
    (if |Parts(r[0])| > 1 then "+" + Join(Parts(r[0])[1..], "+") else "") +
    (if |r| > 1 then OR + Render(r[1..]) else "")
  }

  lemma RenderSingle(r: Requirements)
    requires |r| == 1
    ensures Render(r) == RenderOne(r[0])
  {
    assert RenderEach(r) == [RenderOne(r[0])];
  }

  lemma RenderAsFirst(r: Requirements)
    requires r != [] && r[0] != UNCONSTRAINED
    ensures Parts(r[0]) != [] && Render(r) == Parts(r[0])[0] + AfterFirst(r)
  {
    hide Render, RenderOne, Parts, Join;
    RenderOneBegins(r[0]);
    var part := Parts(r[0])[0];
    var more := if |Parts(r[0])| > 1 then "+" + Join(Parts(r[0])[1..], "+") else "";
    if |r| > 1 {
      RenderCons(r);
      Assoc(part + more, OR, Render(r[1..]));
      Assoc(part, more, OR + Render(r[1..]));
    } else {
      RenderSingle(r);
      Assoc(part, more, "");
      assert part + more + "" == part + more;
    }
  }

  lemma RenderAsAuthenticated(r: Requirements)
    requires r != [] && r[0] == UNCONSTRAINED
    ensures Render(r) == AUTHENTICATED + if |r| > 1 then OR + Render(r[1..]) else ""
  {
    RenderAuthenticated();
    if |r| > 1 {
      RenderCons(r);
    } else {
      assert r == Authenticated();
    }
  }

  /** The first character of a rendering tells how the list begins. */
  lemma FirstCharacter(r: Requirements)
    ensures Render(r) != ""
    ensures r == [] <==> Render(r)[0] == 'n'
    ensures r != [] && r[0] == UNCONSTRAINED <==> Render(r)[0] == 'a'
    ensures r != [] && r[0].scopes != [] <==> Render(r)[0] == 's'
    ensures r != [] && r[0].scopes == [] && r[0].roles != [] <==> Render(r)[0] == 'r'
  {
    if r != [] {
      if r[0] == UNCONSTRAINED {
        RenderAsAuthenticated(r);
      } else {
        RenderAsFirst(r);
        RenderOneBegins(r[0]);
      }
    }
  }

  lemma DropPrefix(prefix: string, x: string, y: string)
    requires prefix + x == prefix + y
    ensures x == y
  {
    assert (prefix + x)[|prefix|..] == x && (prefix + y)[|prefix|..] == y;
  }

  /** What follows an alternative hides an alternative when it is read as the end of a name. */
  lemma {:induction false} TailHides(name: string, rest: Requirements)
    requires rest != []
    ensures HidesAlternative(name + OR + Render(rest))
    decreases |rest|
  {
    hide HidesAlternative, Parts, Render;
    if rest[0] != UNCONSTRAINED {
      RenderAsFirst(rest);
      RenderOneBegins(rest[0]);
      var part, more := Parts(rest[0])[0], AfterFirst(rest);
      if rest[0].scopes != [] {
        ScopeHides(name, rest[0].scopes[0] + more);
        Assoc("scope:", rest[0].scopes[0], more);
        Assoc(OR, "scope:", rest[0].scopes[0] + more);
        assert OR + "scope:" == " or scope:";
      } else {
        RoleHides(name, rest[0].roles[0] + more);
        Assoc("role:", rest[0].roles[0], more);
        Assoc(OR, "role:", rest[0].roles[0] + more);
        assert OR + "role:" == " or role:";
      }
      Assoc(name, OR, part + more);
    } else {
      RenderAsAuthenticated(rest);
      if |rest| == 1 {
        AuthenticatedHides(name);
        Assoc(name, OR, AUTHENTICATED);
        assert OR + AUTHENTICATED == " or authenticated" && AUTHENTICATED + "" == AUTHENTICATED;
      } else {
        TailHides(name + OR + AUTHENTICATED, rest[1..]);
        Assoc(name + OR, AUTHENTICATED, OR + Render(rest[1..]));
        Assoc(name + OR + AUTHENTICATED, OR, Render(rest[1..]));
      }
    }
  }

  lemma ScopeHides(l: string, r: string)
    ensures HidesAlternative(l + (" or scope:" + r))
  {
    ContainsPiece(l, " or scope:", r);
    assert l + " or scope:" + r == l + (" or scope:" + r);
  }

  lemma RoleHides(l: string, r: string)
    ensures HidesAlternative(l + (" or role:" + r))
  {
    ContainsPiece(l, " or role:", r);
    assert l + " or role:" + r == l + (" or role:" + r);
  }

  lemma AuthenticatedHides(l: string)
    ensures HidesAlternative(l + " or authenticated")
  {
  }

  lemma PartIsMore(first: string, prefix: string, more: string, end: string)
    requires prefix <= more
    ensures Contains(first + ("+" + more + end), "+" + prefix)
  {
    ContainsPiece(first, "+" + prefix, more[|prefix|..] + end);
    assert more == prefix + more[|prefix|..];
    assert first + ("+" + prefix) + (more[|prefix|..] + end) == first + ("+" + more + end);
  }

  /** Whatever follows a first name makes it read as more. */
  lemma RestReadsAsMore(r: Requirements, first: string)
    requires r != [] && r[0] != UNCONSTRAINED
    ensures AfterFirst(r) == "" ==> |r| == 1 && |Parts(r[0])| <= 1
    ensures AfterFirst(r) != "" ==>
              if r[0].scopes != [] then ScopeReadsAsMore(first + AfterFirst(r))
              else RoleReadsAsMore(first + AfterFirst(r))
  {
    hide Contains, HidesAlternative, Parts, Render;
    if |Parts(r[0])| > 1 {
      var end := if |r| > 1 then OR + Render(r[1..]) else "";
      var more := Join(Parts(r[0])[1..], "+");
      SecondPartBegins(r[0]);
      if "role:" <= more {
        PartIsMore(first, "role:", more, end);
        assert "+" + "role:" == "+role:";
      } else {
        PartIsMore(first, "scope:", more, end);
        assert "+" + "scope:" == "+scope:";
      }
    } else if |r| > 1 {
      TailHides(first, r[1..]);
      assert first + AfterFirst(r) == first + OR + Render(r[1..]);
    }
  }

  lemma PartsCount(r: Requirements)
    ensures forall alt | alt in r :: |Parts(alt)| == |alt.scopes| + |alt.roles|
  {
  }

  /** A list whose rendering begins like that of one scope is that scope, or the text after the prefix reads as more. */
  lemma ScopeFirst(r: Requirements, name: string)
    requires Render(r) == "scope:" + name
    ensures r == Scope([name]) || ScopeReadsAsMore(name)
  {
    PartsCount(r);
    hide Render, Parts, ScopeReadsAsMore;
    FirstCharacter(r);
    RenderAsFirst(r);
    RenderOneBegins(r[0]);
    var first := r[0].scopes[0];
    Assoc("scope:", first, AfterFirst(r));
    DropPrefix("scope:", first + AfterFirst(r), name);
    RestReadsAsMore(r, first);
    if AfterFirst(r) == "" {
      assert first + "" == first && r[0].scopes == [first] && r == [r[0]];
    }
  }

  lemma RoleFirst(r: Requirements, name: string)
    requires Render(r) == "role:" + name
    ensures r == Role([name]) || RoleReadsAsMore(name)
  {
    PartsCount(r);
    hide Render, Parts, RoleReadsAsMore;
    FirstCharacter(r);
    RenderAsFirst(r);
    RenderOneBegins(r[0]);
    var first := r[0].roles[0];
    Assoc("role:", first, AfterFirst(r));
    DropPrefix("role:", first + AfterFirst(r), name);
    RestReadsAsMore(r, first);
    if AfterFirst(r) == "" {
      assert first + "" == first && r[0].roles == [first] && r == [r[0]];
    }
  }

  lemma HiddenAlternative(name: string) returns (l: string, next: Requirements)
    requires HidesAlternative(name)
    ensures |next| == 1 && name == l + OR + Render(next)
  {
    hide Render, Contains;
    if Contains(name, " or scope:") {
      var a, b := ContainsSplits(name, " or scope:");
      l, next := a, Scope([b]);
      RenderOneName(b);
      assert " or scope:" == OR + "scope:";
      Assoc(a, OR, "scope:" + b);
      Assoc(OR, "scope:", b);
      Assoc(a, " or scope:", b);
    } else if Contains(name, " or role:") {
      var a, b := ContainsSplits(name, " or role:");
      l, next := a, Role([b]);
      RenderOneName(b);
      assert " or role:" == OR + "role:";
      Assoc(a, OR, "role:" + b);
      Assoc(OR, "role:", b);
      Assoc(a, " or role:", b);
    } else {
      l, next := name[..|name| - |" or authenticated"|], Authenticated();
      RenderAuthenticated();
      assert name == l + " or authenticated";
      assert " or authenticated" == OR + AUTHENTICATED;
      Assoc(l, OR, AUTHENTICATED);
    }
  }

  lemma RenderFollowed(one: Requirements, next: Requirements)
    requires |one| == 1 && next != []
    ensures Render(one + next) == Render(one) + OR + Render(next)
  {
    RenderCons(one + next);
    assert (one + next)[1..] == next && RenderEach(one) == [RenderOne(one[0])];
  }

  /** A name that hides an alternative is rendered by a list of two alternatives as well. */
  lemma HiddenReading(name: string) returns (l: string, next: Requirements)
    requires HidesAlternative(name)
    ensures |next| == 1
    ensures Render(Scope([l]) + next) == Render(Scope([name]))
    ensures Render(Role([l]) + next) == Render(Role([name]))
  {
    hide Render;
    l, next := HiddenAlternative(name);
    RenderFollowed(Scope([l]), next);
    RenderFollowed(Role([l]), next);
    RenderOneName(l);
    RenderOneName(name);
    Assoc("scope:" + l, OR, Render(next));
    Assoc("scope:", l, OR + Render(next));
    Assoc("role:" + l, OR, Render(next));
    Assoc("role:", l, OR + Render(next));
    Assoc(l, OR, Render(next));
  }

  lemma RenderTwoParts(alt: Requirement, a: string, b: string)
    requires Parts(alt) == [a, b]
    ensures Render([alt]) == a + ("+" + b)
  {
    assert [a, b][1..] == [b];
    assert Join([b], "+") == b;
    assert Join([a, b], "+") == a + "+" + b;
    assert RenderEach([alt]) == [RenderOne(alt)];
  }

  lemma Regroup(a: string, b: string, c: string, d: string, e: string)
    ensures a + b + (c + (d + e)) == a + (b + (c + d) + e)
  {
  }

  /** Two scopes, a scope and a role, or two roles are rendered as one name would be. */
  lemma RenderPairs(l: string, m: string)
    ensures Render(Scope([l, m])) == Render(Scope([l + "+scope:" + m]))
    ensures Render([Requirement([l], [m])]) == Render(Scope([l + "+role:" + m]))
    ensures Render(Role([l, m])) == Render(Role([l + "+role:" + m]))
  {
    assert Parts(Requirement([l, m], [])) == ["scope:" + l, "scope:" + m];
    assert Parts(Requirement([l], [m])) == ["scope:" + l, "role:" + m];
    assert Parts(Requirement([], [l, m])) == ["role:" + l, "role:" + m];
    hide Render, Parts;
    RenderTwoParts(Requirement([l, m], []), "scope:" + l, "scope:" + m);
    RenderTwoParts(Requirement([l], [m]), "scope:" + l, "role:" + m);
    RenderTwoParts(Requirement([], [l, m]), "role:" + l, "role:" + m);
    RenderOneName(l + "+scope:" + m);
    RenderOneName(l + "+role:" + m);
    assert "+" + "scope:" == "+scope:" && "+" + "role:" == "+role:";
    Regroup("scope:", l, "+", "scope:", m);
    Regroup("scope:", l, "+", "role:", m);
    Regroup("role:", l, "+", "role:", m);
  }

  /** A scope name that reads as more is rendered by another requirement as well. */
  lemma AnotherScopeReading(name: string) returns (r: Requirements)
    requires ScopeReadsAsMore(name)
    ensures r != [] && r != Scope([name]) && Render(r) == Render(Scope([name]))
  {
    hide Render, Contains, HidesAlternative;
    if HidesAlternative(name) {
      var l, next := HiddenReading(name);
      r := Scope([l]) + next;
      assert |r| == 2;
    } else if Contains(name, "+role:") {
      var l, m := ContainsSplits(name, "+role:");
      RenderPairs(l, m);
      r := [Requirement([l], [m])];
      assert r[0].roles != [];
    } else {
      var l, m := ContainsSplits(name, "+scope:");
      RenderPairs(l, m);
      r := Scope([l, m]);
      assert |r[0].scopes| == 2;
    }
  }

  lemma AnotherRoleReading(name: string) returns (r: Requirements)
    requires RoleReadsAsMore(name)
    ensures r != [] && r != Role([name]) && Render(r) == Render(Role([name]))
  {
    hide Render, Contains, HidesAlternative;
    if HidesAlternative(name) {
      var l, next := HiddenReading(name);
      r := Role([l]) + next;
      assert |r| == 2;
    } else {
      var l, m := ContainsSplits(name, "+role:");
      RenderPairs(l, m);
      r := Role([l, m]);
      assert |r[0].roles| == 2;
    }
  }

  /** A plain list is the only one with its rendering. */
  lemma {:induction false} PlainIsIdentified(a: Requirements, b: Requirements)
    requires Plain(a) && Render(a) == Render(b)
    ensures a == b
  {
    FirstCharacter(a);
    FirstCharacter(b);
    hide Render, ScopeReadsAsMore, RoleReadsAsMore;
    if a == [] {
    } else if a[0] == UNCONSTRAINED {
      RenderAsAuthenticated(a);
      RenderAsAuthenticated(b);
      if |a| > 1 {
        AlternativesFollow(a, b);
        PlainIsIdentified(a[1..], b[1..]);
      } else {
        AlternativesFollow(b, a);
      }
      assert a == [a[0]] + a[1..] && b == [b[0]] + b[1..];
    } else if a[0].scopes != [] {
      var name := a[0].scopes[0];
      assert a[0].scopes == [name] && a == Scope([name]);
      RenderOneName(name);
      ScopeFirst(b, name);
    } else {
      var name := a[0].roles[0];
      assert a[0].roles == [name] && a == Role([name]);
      RenderOneName(name);
      RoleFirst(b, name);
    }
  }

  /** After an alternative without names, the rendering tells whether and how the list goes on. */
  lemma AlternativesFollow(a: Requirements, b: Requirements)
    requires a != [] && b != [] && a[0] == b[0] == UNCONSTRAINED && Render(a) == Render(b)
    ensures |a| > 1 ==> |b| > 1 && Render(a[1..]) == Render(b[1..])
  {
    hide Render;
    RenderAsAuthenticated(a);
    RenderAsAuthenticated(b);
    if |a| > 1 {
      DropPrefix(AUTHENTICATED, OR + Render(a[1..]), if |b| > 1 then OR + Render(b[1..]) else "");
      if |b| > 1 {
        DropPrefix(OR, Render(a[1..]), Render(b[1..]));
      }
    }
  }

  /** A list that is not plain shares its rendering with another one. */
  lemma {:induction false} OtherwiseShared(a: Requirements) returns (b: Requirements)
    requires !Plain(a)
    ensures b != [] && b != a && Render(b) == Render(a)
  {
    hide Render, ScopeReadsAsMore, RoleReadsAsMore;
    if a[0] == UNCONSTRAINED {
      var rest := OtherwiseShared(a[1..]);
      b := [a[0]] + rest;
      assert b[1..] == rest && a[1..] != [];
      RenderCons(a);
      RenderCons(b);
    } else {
      RenderAsFirst(a);
      RenderOneBegins(a[0]);
      if a[0].scopes != [] {
        var name := a[0].scopes[0] + AfterFirst(a);
        RenderOneName(name);
        Assoc("scope:", a[0].scopes[0], AfterFirst(a));
        b := Scope([name]);
        if b == a {
          b := AnotherScopeReading(name);
        }
      } else {
        var name := a[0].roles[0] + AfterFirst(a);
        RenderOneName(name);
        Assoc("role:", a[0].roles[0], AfterFirst(a));
        b := Role([name]);
        if b == a {
          b := AnotherRoleReading(name);
        }
      }
    }
  }

  /**
   * Among all requirements, with any names, a rendering stands for one list alone exactly when that list is plain.
   * Everything that names two things, and every name that reads as more than one, is rendered by another list too.
   */
  lemma RenderIdentifiesIff(a: Requirements)
    ensures (forall b :: Render(b) == Render(a) ==> b == a) <==> Plain(a)
  {
    if Plain(a) {
      forall b | Render(b) == Render(a)
        ensures b == a
      {
        PlainIsIdentified(a, b);
      }
    } else {
      var b := OtherwiseShared(a);
    }
  }

  /** The case of one name: what exactly makes it ambiguous. */
  lemma NameIsAmbiguousIff(name: string)
    ensures (exists r :: r != Scope([name]) && Render(r) == Render(Scope([name]))) <==> ScopeReadsAsMore(name)
    ensures (exists r :: r != Role([name]) && Render(r) == Render(Role([name]))) <==> RoleReadsAsMore(name)
  {
    RenderIdentifiesIff(Scope([name]));
    RenderIdentifiesIff(Role([name]));
  }

  /**
   * Clean names do not make a rendering unmistakable by themselves: one other name can spell out two clean ones, be
   * they the names of one alternative or of two.
   */
  lemma CleanRenderingsAreShared(l: string, m: string)
    requires CleanName(l) && CleanName(m)
    ensures Clean(Scope([l, m])) && Render(Scope([l, m])) == Render(Scope([l + "+scope:" + m]))
    ensures Clean([Requirement([l], [m])]) && Render([Requirement([l], [m])]) == Render(Scope([l + "+role:" + m]))
    ensures Clean(Role([l, m])) && Render(Role([l, m])) == Render(Role([l + "+role:" + m]))
    ensures Clean(Scope([l]) + Scope([m])) && Render(Scope([l]) + Scope([m])) == Render(Scope([l + " or scope:" + m]))
  {
    hide Render;
    RenderPairs(l, m);
    RenderFollowed(Scope([l]), Scope([m]));
    RenderOneName(l);
    RenderOneName(m);
    RenderOneName(l + " or scope:" + m);
    assert OR + "scope:" == " or scope:";
    Regroup("scope:", l, OR, "scope:", m);
    Assoc("scope:" + l, OR, "scope:" + m);
  }
}
