/** The functions of Go's `strings` package that the modelled code calls. */
module Text {

  /** unicode.IsSpace: the characters that TrimSpace and Fields drop. */
  predicate IsSpace(c: char) {
    || '\U{9}' <= c <= '\U{D}'
    || c in {' ', '\U{85}', '\U{A0}', '\U{1680}', '\U{2028}', '\U{2029}', '\U{202F}', '\U{205F}', '\U{3000}'}
    || '\U{2000}' <= c <= '\U{200A}'
  }

  predicate AllSpace(s: string) {
    forall c | c in s :: IsSpace(c)
  }

  predicate SpaceFree(s: string) {
    forall c | c in s :: !IsSpace(c)
  }

  // ---------------------------------------------------------------- Split and Join

  function Split(s: string, sep: char): (parts: seq<string>)
    ensures |parts| > 0
  {
    if s == "" then [""]
    else
      var rest := Split(s[1..], sep);
      if s[0] == sep then [""] + rest else [[s[0]] + rest[0]] + rest[1..]
  }

  function Join(parts: seq<string>, sep: string): string {
    if |parts| == 0 then ""
    else if |parts| == 1 then parts[0]
    else parts[0] + sep + Join(parts[1..], sep)
  }

  lemma {:induction false} SplitAtSeparator(p: string, sep: char, rest: string)
    requires sep !in p
    ensures Split(p + [sep] + rest, sep) == [p] + Split(rest, sep)
  {
    var s := p + [sep] + rest;
    if p == "" {
      assert s[1..] == rest;
    } else {
      assert s[1..] == p[1..] + [sep] + rest;
      SplitAtSeparator(p[1..], sep, rest);
      assert [p[0]] + p[1..] == p;
    }
  }

  lemma {:induction false} SplitWithoutSeparator(p: string, sep: char)
    requires sep !in p
    ensures Split(p, sep) == [p]
  {
    if p == "" {
    } else {
      SplitWithoutSeparator(p[1..], sep);
      assert [p[0]] + p[1..] == p;
    }
  }

  /** Splitting undoes joining when no part holds the separator. */
  lemma {:induction false} SplitOfJoin(parts: seq<string>, sep: char)
    requires |parts| > 0 && forall p | p in parts :: sep !in p
    ensures Split(Join(parts, [sep]), sep) == parts
  {
    if |parts| == 1 {
      SplitWithoutSeparator(parts[0], sep);
    } else {
      SplitOfJoin(parts[1..], sep);
      SplitAtSeparator(parts[0], sep, Join(parts[1..], [sep]));
    }
  }

  /** Joining undoes splitting, and no part holds the separator: with SplitOfJoin, Split is fully determined. */
  lemma {:induction false} JoinOfSplit(s: string, sep: char)
    ensures Join(Split(s, sep), [sep]) == s
    ensures forall p | p in Split(s, sep) :: sep !in p
  {
    if s == "" {
    } else {
      JoinOfSplit(s[1..], sep);
      var rest := Split(s[1..], sep);
      if s[0] == sep {
        assert Split(s, sep)[1..] == rest;
        assert s == "" + [sep] + s[1..];
      } else {
        var parts := [[s[0]] + rest[0]] + rest[1..];
        assert parts == Split(s, sep) && parts[1..] == rest[1..];
        assert s == [s[0]] + s[1..];
        if |rest| > 1 {
          assert [s[0]] + (rest[0] + [sep] + Join(rest[1..], [sep])) == parts[0] + [sep] + Join(parts[1..], [sep]);
        }
      }
    }
  }

  lemma Assoc(a: string, b: string, c: string)
    ensures a + b + c == a + (b + c)
  {
  }

  // ---------------------------------------------------------------- Fields

  /** The length of the longest prefix of `s` without white space. */
  function RunLength(s: string): (n: nat)
    ensures n <= |s| && SpaceFree(s[..n]) && (n < |s| ==> IsSpace(s[n]))
  {
    if s == "" || IsSpace(s[0]) then 0
    else
      var n := 1 + RunLength(s[1..]);
      assert s[..n] == [s[0]] + s[1..][..n - 1];
      n
  }

  function Fields(s: string): (fields: seq<string>)
    ensures forall f | f in fields :: f != "" && SpaceFree(f)
    decreases |s|
  {
    if s == "" then []
    else if IsSpace(s[0]) then Fields(s[1..])
    else [s[..RunLength(s)]] + Fields(s[RunLength(s)..])
  }

  lemma {:induction false} RunLengthOfWord(w: string, rest: string)
    requires SpaceFree(w) && (rest != "" ==> IsSpace(rest[0]))
    ensures RunLength(w + rest) == |w|
  {
    hide IsSpace;
    if w == "" {
      assert w + rest == rest;
    } else {
      assert (w + rest)[1..] == w[1..] + rest;
      RunLengthOfWord(w[1..], rest);
    }
  }

  /** Fields undoes joining with a space when every word is non-empty and free of white space. */
  lemma {:induction false} FieldsOfJoin(words: seq<string>)
    requires forall w | w in words :: w != "" && SpaceFree(w)
    ensures Fields(Join(words, " ")) == words
  {
    if |words| == 1 {
      var w := words[0];
      RunLengthOfWord(w, "");
      assert w + "" == w && w[|w|..] == "";
    } else if |words| > 1 {
      var w, tail := words[0], Join(words[1..], " ");
      var rest := " " + tail;
      var s := Join(words, " ");
      assert s == w + rest;
      RunLengthOfWord(w, rest);
      assert s[..|w|] == w && s[|w|..] == rest && rest[1..] == tail;
      assert forall x | x in words[1..] :: x in words;
      FieldsOfJoin(words[1..]);
    }
  }

  lemma FieldsFromWord(w: string, rest: string)
    requires w != "" && SpaceFree(w) && (rest != "" ==> IsSpace(rest[0]))
    ensures Fields(w + rest) == [w] + Fields(rest)
  {
    var s := w + rest;
    RunLengthOfWord(w, rest);
    assert s[..|w|] == w && s[|w|..] == rest;
    assert s[0] == w[0];
    hide IsSpace, RunLength;
  }

  /**
   * Fields reads the text on either side of a space by itself, and a text without space as one field: together with
   * the empty text these cases cover all texts.
   */
  lemma {:induction false} FieldsAtSpace(a: string, c: char, b: string)
    requires IsSpace(c)
    ensures Fields(a + [c] + b) == Fields(a) + Fields(b)
    decreases |a|
  {
    hide IsSpace, RunLength;
    var s := a + [c] + b;
    if a == "" {
      assert s[1..] == b;
    } else if IsSpace(a[0]) {
      assert s[1..] == a[1..] + [c] + b;
      FieldsAtSpace(a[1..], c, b);
    } else {
      var n := RunLength(a);
      var w, rest := a[..n], a[n..];
      assert a == w + rest && s == w + (rest + [c] + b);
      FieldsFromWord(w, rest);
      FieldsFromWord(w, rest + [c] + b);
      hide Fields;
      FieldsAtSpace(rest, c, b);
    }
  }

  lemma FieldsWithoutSpace(w: string)
    requires SpaceFree(w)
    ensures Fields(w) == if w == "" then [] else [w]
  {
    if w != "" {
      FieldsOfJoin([w]);
    }
  }

  /** The white space of Unicode, by code point. */
  lemma SpacesByCodePoint(c: char)
    ensures IsSpace(c) <==>
              || 9 <= c as int <= 13 || 0x2000 <= c as int <= 0x200A
              || c as int in {0x20, 0x85, 0xA0, 0x1680, 0x2028, 0x2029, 0x202F, 0x205F, 0x3000}
  {
  }

  // ---------------------------------------------------------------- TrimSpace

  function TrimLeft(s: string): string {
    if s != "" && IsSpace(s[0]) then TrimLeft(s[1..]) else s
  }

  function TrimRight(s: string): string {
    if s != "" && IsSpace(s[|s| - 1]) then TrimRight(s[..|s| - 1]) else s
  }

  function TrimSpace(s: string): string {
    TrimRight(TrimLeft(s))
  }

  /** Neither the first nor the last character is white space. */
  predicate Trimmed(s: string) {
    s != "" ==> !IsSpace(s[0]) && !IsSpace(s[|s| - 1])
  }

  lemma {:induction false} TrimLeftOfPadded(l: string, s: string)
    requires AllSpace(l) && (s == "" || !IsSpace(s[0]))
    ensures TrimLeft(l + s) == s
  {
    hide IsSpace;
    if l == "" {
      assert l + s == s;
    } else {
      assert (l + s)[1..] == l[1..] + s;
      TrimLeftOfPadded(l[1..], s);
    }
  }

  lemma {:induction false} TrimRightOfPadded(s: string, r: string)
    requires AllSpace(r) && (s == "" || !IsSpace(s[|s| - 1]))
    ensures TrimRight(s + r) == s
  {
    hide IsSpace;
    if r == "" {
      assert s + r == s;
    } else {
      assert (s + r)[..|s + r| - 1] == s + r[..|r| - 1];
      TrimRightOfPadded(s, r[..|r| - 1]);
    }
  }

  /** TrimSpace finds the non-empty trimmed text between any two runs of padding. */
  lemma TrimSpaceOfPadded(l: string, s: string, r: string)
    requires AllSpace(l) && AllSpace(r) && s != "" && Trimmed(s)
    ensures TrimSpace(l + s + r) == s
  {
    hide IsSpace;
    assert l + s + r == l + (s + r);
    TrimLeftOfPadded(l, s + r);
    TrimRightOfPadded(s, r);
  }

  lemma {:induction false} TrimLeftSplits(s: string) returns (l: string)
    ensures AllSpace(l) && s == l + TrimLeft(s)
    ensures TrimLeft(s) == "" || !IsSpace(TrimLeft(s)[0])
  {
    hide IsSpace;
    if s != "" && IsSpace(s[0]) {
      var rest := TrimLeftSplits(s[1..]);
      l := [s[0]] + rest;
      assert s == [s[0]] + s[1..];
    } else {
      l := "";
    }
  }

  lemma {:induction false} TrimRightSplits(s: string) returns (r: string)
    ensures AllSpace(r) && s == TrimRight(s) + r
    ensures TrimRight(s) == "" || !IsSpace(TrimRight(s)[|TrimRight(s)| - 1])
  {
    hide IsSpace;
    if s != "" && IsSpace(s[|s| - 1]) {
      var rest := TrimRightSplits(s[..|s| - 1]);
      r := rest + [s[|s| - 1]];
      assert s == s[..|s| - 1] + [s[|s| - 1]];
    } else {
      r := "";
    }
  }

  /** What TrimSpace drops on either side is white space, and what it keeps is trimmed. */
  lemma TrimSpaceSplits(s: string) returns (l: string, r: string)
    ensures AllSpace(l) && AllSpace(r) && Trimmed(TrimSpace(s))
    ensures s == l + TrimSpace(s) + r
  {
    hide IsSpace;
    l := TrimLeftSplits(s);
    r := TrimRightSplits(TrimLeft(s));
    var kept := TrimSpace(s);
    assert TrimLeft(s) == kept + r;
    assert kept != "" ==> kept[0] == TrimLeft(s)[0];
  }

  // ---------------------------------------------------------------- EqualFold and Contains

  function Fold(c: char): char {
    if 'A' <= c <= 'Z' then (c as int + 32) as char else c
  }

  /**
   * strings.EqualFold against a text of ASCII characters other than k and s. Those two are the only ASCII letters
   * that Unicode's simple folding equates with characters outside ASCII, and no text compared here holds one.
   */
  predicate EqualFold(s: string, t: string) {
    |s| == |t| && forall i | 0 <= i < |s| :: Fold(s[i]) == Fold(t[i])
  }

  /** At every place the two texts hold the same character, or one of them the capital of the other's ASCII letter. */
  ghost predicate DifferInCaseOnly(s: string, t: string) {
    |s| == |t| && forall i | 0 <= i < |s| :: s[i] == t[i] || IsCapitalOf(s[i], t[i]) || IsCapitalOf(t[i], s[i])
  }

  ghost predicate IsCapitalOf(c: char, letter: char) {
    'A' <= c <= 'Z' && letter as int == c as int + 32
  }

  lemma EqualFoldIffCase(s: string, t: string)
    ensures EqualFold(s, t) <==> DifferInCaseOnly(s, t)
  {
  }

  predicate OccursAt(s: string, sub: string, i: nat) {
    i + |sub| <= |s| && s[i..i + |sub|] == sub
  }

  predicate Contains(s: string, sub: string) {
    exists i | 0 <= i <= |s| :: OccursAt(s, sub, i)
  }

  predicate EndsWith(s: string, end: string) {
    |end| <= |s| && s[|s| - |end|..] == end
  }

  /** A text that contains another one falls into what is before it and what is after it. */
  lemma ContainsSplits(s: string, sub: string) returns (l: string, r: string)
    requires Contains(s, sub)
    ensures s == l + sub + r
  {
    var i :| 0 <= i <= |s| && OccursAt(s, sub, i);
    l, r := s[..i], s[i + |sub|..];
  }

  lemma ContainsInside(l: string, s: string, r: string, sub: string)
    requires Contains(s, sub)
    ensures Contains(l + s + r, sub)
  {
    var a, b := ContainsSplits(s, sub);
    assert l + s + r == (l + a) + sub + (b + r);
    ContainsPiece(l + a, sub, b + r);
  }

  lemma {:induction false} JoinContains(parts: seq<string>, sep: string, i: nat, sub: string)
    requires i < |parts| && Contains(parts[i], sub)
    ensures Contains(Join(parts, sep), sub)
  {
    if |parts| == 1 {
    } else if i == 0 {
      assert Join(parts, sep) == "" + parts[0] + (sep + Join(parts[1..], sep));
      ContainsInside("", parts[0], sep + Join(parts[1..], sep), sub);
    } else {
      JoinContains(parts[1..], sep, i - 1, sub);
      assert Join(parts, sep) == (parts[0] + sep) + Join(parts[1..], sep) + "";
      ContainsInside(parts[0] + sep, Join(parts[1..], sep), "", sub);
    }
  }

  /** A text contains each of the pieces it is put together from. */
  lemma ContainsPiece(l: string, sub: string, r: string)
    ensures Contains(l + sub + r, sub)
  {
    assert OccursAt(l + sub + r, sub, |l|);
  }

  // ---------------------------------------------------------------- the verb %q

  /** strconv.IsPrint up to U+00FF; every later character counts as printable. */
  predicate Printable(c: char) {
    ' ' <= c <= '~' || ('\U{A1}' <= c && c != '\U{AD}')
  }

  function HexDigit(n: nat): char
    requires n < 16
  {
    (if n < 10 then '0' as int + n else 'a' as int + n - 10) as char
  }

  function Escape(c: char): string {
    if c == '"' || c == '\\' then ['\\', c]
    else if Printable(c) then [c]
    else if '\U{7}' <= c <= '\U{D}' then ['\\', "abtnvfr"[c as int - 7]]
    else (if c <= '\U{7F}' then "\\x" else "\\u00") + [HexDigit(c as int / 16), HexDigit(c as int % 16)]
  }

  /** Samples of every kind of escape in Go: quotes, the seven letters, and code points in hexadecimal. */
  lemma EscapesOfGo(c: char)
    ensures ' ' <= c <= '~' && c != '"' && c != '\\' ==> Escape(c) == [c]
    ensures Escape('"') == "\\\"" && Escape('\\') == "\\\\"
    ensures Escape('\U{7}') == "\\a" && Escape('\U{8}') == "\\b" && Escape('\U{9}') == "\\t"
    ensures Escape('\U{A}') == "\\n" && Escape('\U{B}') == "\\v" && Escape('\U{C}') == "\\f"
    ensures Escape('\U{D}') == "\\r"
    ensures Escape('\U{0}') == "\\x00" && Escape('\U{1B}') == "\\x1b" && Escape('\U{7F}') == "\\x7f"
    ensures Escape('\U{85}') == "\\u0085" && Escape('\U{A0}') == "\\u00a0" && Escape('\U{AD}') == "\\u00ad"
  {
  }

  function Escaped(s: string): string {
    if s == "" then "" else Escape(s[0]) + Escaped(s[1..])
  }

  function Quoted(s: string): string {
    "\"" + Escaped(s) + "\""
  }

  predicate NeedsNoEscape(s: string) {
    forall c | c in s :: Printable(c) && c != '"' && c != '\\'
  }

  lemma {:induction false} EscapedWithoutNeed(s: string)
    requires NeedsNoEscape(s)
    ensures Escaped(s) == s
  {
    if s == "" {
    } else {
      assert s == [s[0]] + s[1..];
      assert s[0] in s;
      EscapedWithoutNeed(s[1..]);
    }
  }

  /** The second character of an escape tells its length. */
  function LengthAfter(second: char): nat {
    if second == 'x' then 4 else if second == 'u' then 6 else 2
  }

  lemma EscapeShowsItsLength(c: char)
    ensures |Escape(c)| == 1 ==> Escape(c) == [c] && c != '"' && c != '\\'
    ensures |Escape(c)| != 1 ==> |Escape(c)| > 1 && Escape(c)[0] == '\\' && |Escape(c)| == LengthAfter(Escape(c)[1])
  {
  }

  lemma EscapesDiffer(c: char, d: char)
    requires Escape(c) == Escape(d)
    ensures c == d
  {
    var e := Escape(c);
    EscapeShowsItsLength(c);
    EscapeShowsItsLength(d);
    if |e| > 2 {
      var n := |e|;
      assert e[n - 2] == HexDigit(c as int / 16) == HexDigit(d as int / 16);
      assert e[n - 1] == HexDigit(c as int % 16) == HexDigit(d as int % 16);
      assert c as int / 16 == d as int / 16 && c as int % 16 == d as int % 16;
      assert c as int == 16 * (c as int / 16) + c as int % 16 == d as int;
    } else if |e| == 2 && e[1] != '"' && e[1] != '\\' {
      assert e[1] == "abtnvfr"[c as int - 7] == "abtnvfr"[d as int - 7];
    }
  }

  /** An escape shows where it ends and which character it stands for. */
  lemma EscapeIsReadable(c: char, d: char, x: string, y: string)
    requires Escape(c) + x == Escape(d) + y
    ensures c == d && x == y
  {
    var s, t := Escape(c), Escape(d);
    EscapeShowsItsLength(c);
    EscapeShowsItsLength(d);
    hide Escape;
    assert s[0] == (s + x)[0] == (t + y)[0] == t[0];
    if |s| > 1 {
      assert s[1] == (s + x)[1] == (t + y)[1] == t[1];
    }
    assert s == (s + x)[..|s|] && t == (t + y)[..|t|];
    assert x == (s + x)[|s|..] && y == (t + y)[|t|..];
    EscapesDiffer(c, d);
  }

  lemma EscapedBegins(a: string, rest: string)
    requires a != ""
    ensures Escaped(a) + rest == Escape(a[0]) + (Escaped(a[1..]) + rest)
    ensures (Escaped(a) + rest)[0] != '"'
  {
    EscapeShowsItsLength(a[0]);
    hide Escape;
    Assoc(Escape(a[0]), Escaped(a[1..]), rest);
  }

  /** A quoted text can be read back from the beginning of a longer text. */
  lemma {:induction false} QuotedIsReadable(a: string, b: string, x: string, y: string)
    requires Escaped(a) + ("\"" + x) == Escaped(b) + ("\"" + y)
    ensures a == b && x == y
  {
    hide Escape;
    var s, t := "\"" + x, "\"" + y;
    if a != "" {
      EscapedBegins(a, s);
    }
    if b != "" {
      EscapedBegins(b, t);
    }
    if a == "" || b == "" {
      assert a == b == "";
      assert Escaped(a) + s == s && Escaped(b) + t == t;
      assert x == s[1..] && y == t[1..];
    } else {
      EscapeIsReadable(a[0], b[0], Escaped(a[1..]) + s, Escaped(b[1..]) + t);
      QuotedIsReadable(a[1..], b[1..], x, y);
      assert a == [a[0]] + a[1..] && b == [b[0]] + b[1..];
    }
  }
}
