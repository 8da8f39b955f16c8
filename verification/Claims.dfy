/** Reading scope and role lists out of token claims: pkg/oidcx/claims.go. */
module Claims {
  import opened Wrappers
  import opened Authx
  import T = Text

  type Claims = map<string, Any>

  // ---------------------------------------------------------------- lookupClaim

  /** Recursive descent along a path. */
  function Descend(value: Any, path: seq<string>): Option<Any> {
    if path == [] then Some(value)
    else if value.Object? && path[0] in value.members then Descend(value.members[path[0]], path[1..])
    else None
  }

  /** The value a claim name stands for. */
  function Lookup(claims: Claims, name: string): Option<Any> {
    if name == "" then None
    else if name in claims then Some(claims[name])
    else Descend(Object(claims), T.Split(name, '.'))
  }

  method LookupClaim(claims: Claims, name: string) returns (value: Option<Any>)
    ensures value == Lookup(claims, name)
  {
    if name == "" {
      return None;
    }
    if name in claims {
      return Some(claims[name]);
    }
    var current := Object(claims);
    var segments := T.Split(name, '.');
    for i := 0 to |segments|
      invariant Descend(current, segments[i..]) == Descend(Object(claims), segments)
    {
      if !current.Object? {
        return None;
      }
      var nested := current.members;
      if segments[i] !in nested {
        return None;
      }
      current := nested[segments[i]];
      assert segments[i..][1..] == segments[i + 1..];
    }
    return Some(current);
  }

  /** `maps` are the objects met on the way: each step but the last finds the next object, the last finds the leaf. */
  ghost predicate LeadsTo(maps: seq<Claims>, path: seq<string>, leaf: Any) {
    && |maps| == |path| > 0
    && (forall i | 0 <= i < |path| - 1 :: path[i] in maps[i] && maps[i][path[i]] == Object(maps[i + 1]))
    && path[|path| - 1] in maps[|path| - 1] && maps[|path| - 1][path[|path| - 1]] == leaf
  }

  /** Every proper prefix of the path resolves to an object, and the last segment is a member of the last one. */
  ghost predicate Nested(claims: Claims, path: seq<string>, leaf: Any) {
    exists maps :: LeadsTo(maps, path, leaf) && maps[0] == claims
  }

  lemma {:induction false} DescendIffNested(claims: Claims, path: seq<string>, leaf: Any)
    requires path != []
    ensures Descend(Object(claims), path) == Some(leaf) <==> Nested(claims, path, leaf)
    decreases |path|
  {
    var rest := path[1..];
    if path[0] in claims {
      var next := claims[path[0]];
      if rest == [] {
        assert Descend(next, rest) == Some(next);
        assert next == leaf ==> LeadsTo([claims], path, leaf);
      } else if next.Object? {
        DescendIffNested(next.members, rest, leaf);
        if Nested(next.members, rest, leaf) {
          var maps :| LeadsTo(maps, rest, leaf) && maps[0] == next.members;
          PrependMap(claims, maps, path, leaf);
        }
      }
      if Nested(claims, path, leaf) {
        var maps :| LeadsTo(maps, path, leaf) && maps[0] == claims;
        if rest != [] {
          DropMap(maps, path, leaf);
          assert next == Object(maps[1]) && maps[1..][0] == maps[1];
          DescendIffNested(maps[1], rest, leaf);
        }
      }
    }
  }

  lemma PrependMap(claims: Claims, maps: seq<Claims>, path: seq<string>, leaf: Any)
    requires |path| > 1 && LeadsTo(maps, path[1..], leaf)
    requires path[0] in claims && claims[path[0]] == Object(maps[0])
    ensures LeadsTo([claims] + maps, path, leaf)
  {
  }

  lemma DropMap(maps: seq<Claims>, path: seq<string>, leaf: Any)
    requires |path| > 1 && LeadsTo(maps, path, leaf)
    ensures LeadsTo(maps[1..], path[1..], leaf)
  {
  }

  /** A claim has a value exactly when it is a top-level key, which wins, or else its dotted path resolves. */
  lemma LookupFindsExactly(claims: Claims, name: string, value: Any)
    ensures Lookup(claims, name) == Some(value) <==>
            && name != ""
            && if name in claims then claims[name] == value else Nested(claims, T.Split(name, '.'), value)
  {
    if name != "" && name !in claims {
      DescendIffNested(claims, T.Split(name, '.'), value);
    }
  }

  /** A value that sits below segments without dots is reached by the dotted name of the segments. */
  lemma NestedClaimIsFound(claims: Claims, segments: seq<string>, leaf: Any)
    requires Nested(claims, segments, leaf) && forall s | s in segments :: '.' !in s
    requires T.Join(segments, ".") != "" && T.Join(segments, ".") !in claims
    ensures Lookup(claims, T.Join(segments, ".")) == Some(leaf)
  {
    T.SplitOfJoin(segments, '.');
    LookupFindsExactly(claims, T.Join(segments, "."), leaf);
  }

  // ---------------------------------------------------------------- claimList

  /** The non-empty texts among the items, in order. */
  function TextsOf(items: seq<Any>): seq<string> {
    if items == [] then []
    else
      var last := items[|items| - 1];
      TextsOf(items[..|items| - 1]) + if last.Text? && last.text != "" then [last.text] else []
  }

  /** The names a claim value spells. */
  function NamesIn(value: Option<Any>): seq<string> {
    match value
    case Some(Text(text)) => T.Fields(text)
    case Some(TextList(texts)) => texts
    case Some(List(items)) => TextsOf(items)
    case _ => []
  }

  method ClaimList(claims: Claims, name: string) returns (names: seq<string>)
    ensures names == NamesIn(Lookup(claims, name))
  {
    var value := LookupClaim(claims, name);
    match value
    case Some(Text(text)) =>
      return T.Fields(text);
    case Some(TextList(texts)) =>
      return texts;
    case Some(List(items)) =>
      names := [];
      for i := 0 to |items|
        invariant names == TextsOf(items[..i])
      {
        if items[i].Text? && items[i].text != "" {
          names := names + [items[i].text];
        }
        assert items[..i + 1][..i] == items[..i];
      }
      assert items[..|items|] == items;
      return names;
    case _ =>
      return [];
  }

  function AsItems(names: seq<string>): (items: seq<Any>)
    ensures |items| == |names|
  {
    seq(|names|, i requires 0 <= i < |names| => Text(names[i]))
  }

  lemma {:induction false} TextsOfItems(names: seq<string>)
    requires forall n | n in names :: n != ""
    ensures TextsOf(AsItems(names)) == names
  {
    if names == [] {
    } else {
      var n := |names| - 1;
      assert AsItems(names)[..n] == AsItems(names[..n]);
      assert names == names[..n] + [names[n]] && names[n] in names;
      assert forall x | x in names[..n] :: x in names;
      TextsOfItems(names[..n]);
    }
  }

  /** The words a provider can spell in either way. */
  ghost predicate Words(names: seq<string>) {
    forall n | n in names :: n != "" && T.SpaceFree(n)
  }

  /** One space-joined text, one array from JSON and one typed array spell the same list of names. */
  lemma SpellingsAgree(names: seq<string>)
    requires Words(names)
    ensures NamesIn(Some(Text(T.Join(names, " ")))) == names
    ensures NamesIn(Some(List(AsItems(names)))) == names
    ensures NamesIn(Some(TextList(names))) == names
  {
    T.FieldsOfJoin(names);
    TextsOfItems(names);
  }

  /** An array yields its non-empty texts and nothing else, in their order, whatever stands between them. */
  lemma {:induction false} TextsOfFilters(items: seq<Any>, more: seq<Any>)
    ensures forall n :: n in TextsOf(items) <==> n != "" && Text(n) in items
    ensures TextsOf(items + more) == TextsOf(items) + TextsOf(more)
    decreases |items| + |more|
  {
    if more != [] {
      TextsOfFilters(items, more[..|more| - 1]);
      AppendSnoc(items, more);
    } else {
      assert items + more == items;
      if items != [] {
        var n := |items| - 1;
        TextsOfFilters(items[..n], []);
        assert items == items[..n] + [items[n]];
      }
    }
  }

  /** `name` is one of the names that a value spells: a field of a text, an element of an array, and nothing else. */
  ghost predicate Spelled(value: Option<Any>, name: string) {
    match value
    case Some(Text(text)) => name in T.Fields(text)
    case Some(TextList(texts)) => name in texts
    case Some(List(items)) => name != "" && Text(name) in items
    case Some(Object(_)) => false
    case Some(Scalar) => false
    case None => false
  }

  /** A claim that is absent, an object or a scalar gives no names at all; any other gives the names it spells. */
  lemma NamesAreSpelled(value: Option<Any>)
    ensures value.None? || value.value.Scalar? || value.value.Object? ==> NamesIn(value) == []
    ensures forall n :: n in NamesIn(value) <==> Spelled(value, n)
  {
    if value.Some? && value.value.List? {
      TextsOfFilters(value.value.items, []);
    }
  }

  /**
   * Names read from a text are non-empty and free of white space, and names read from a JSON array are its non-empty
   * texts. A typed array is taken as it is, with any empty names it holds.
   */
  lemma NamesAreClean(value: Any)
    ensures value.Text? ==> Words(NamesIn(Some(value)))
    ensures value.List? ==> forall n :: n in NamesIn(Some(value)) <==> n != "" && Text(n) in value.items
    ensures value.TextList? ==> NamesIn(Some(value)) == value.texts
  {
    if value.List? {
      TextsOfFilters(value.items, []);
    }
  }
}
