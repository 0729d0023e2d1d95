/** TEXT value escaping for iCalendar content lines (section 3.3.11 of RFC 5545), as
    `escapeIcsField` and `unescapeIcsField` perform it with chains of global regular
    expression replacements. */
module IcsEscape {
  import opened Wrappers

  /** `s.replace(/c/g, rep)` for a single character `c`. */
  function ReplaceChar(s: string, c: char, rep: string): string {
    if s == [] then [] else (if s[0] == c then rep else [s[0]]) + ReplaceChar(s[1..], c, rep)
  }

  /** `escapeIcsField`: null becomes "", then backslash, ';', ',' and line feed are
      escaped, in that order. */
  function EscapeIcsField(field: Option<string>): string {
    match field
    case None => ""
    case Some(s) =>
      ReplaceChar(ReplaceChar(ReplaceChar(ReplaceChar(s, '\\', "\\\\"), ';', "\\;"), ',', "\\,"), '\n', "\\n")
  }

  /** The TEXT escape of a single character. */
  function EscapeChar(c: char): string {
    if c == '\\' then "\\\\"
    else if c == ';' then "\\;"
    else if c == ',' then "\\,"
    else if c == '\n' then "\\n"
    else [c]
  }

  /** Reference definition: escape every character independently. */
  function EscapeChars(s: string): string {
    if s == [] then [] else EscapeChar(s[0]) + EscapeChars(s[1..])
  }

  lemma {:induction false} ReplaceCharConcat(a: string, b: string, c: char, rep: string)
    ensures ReplaceChar(a + b, c, rep) == ReplaceChar(a, c, rep) + ReplaceChar(b, c, rep)
    decreases |a|
  {
    if a == [] {
      assert a + b == b;
    } else {
      assert (a + b)[0] == a[0];
      assert (a + b)[1..] == a[1..] + b;
      ReplaceCharConcat(a[1..], b, c, rep);
    }
  }

  lemma ReplaceCharSingle(x: char, c: char, rep: string)
    ensures ReplaceChar([x], c, rep) == if x == c then rep else [x]
  {
    assert [x][1..] == [];
  }

  lemma {:induction false} ReplaceCharAbsent(s: string, c: char, rep: string)
    requires c !in s
    ensures ReplaceChar(s, c, rep) == s
    decreases |s|
  {
    if s != [] {
      assert s == [s[0]] + s[1..];
      ReplaceCharAbsent(s[1..], c, rep);
    }
  }

  lemma EscapeOneChar(c: char)
    ensures EscapeIcsField(Some([c])) == EscapeChar(c)
  {
    ReplaceCharSingle(c, '\\', "\\\\");
    var r1 := ReplaceChar([c], '\\', "\\\\");
    if c == '\\' {
      ReplaceCharAbsent(r1, ';', "\\;");
      ReplaceCharAbsent(r1, ',', "\\,");
      ReplaceCharAbsent(r1, '\n', "\\n");
    } else {
      ReplaceCharSingle(c, ';', "\\;");
      var r2 := ReplaceChar(r1, ';', "\\;");
      if c == ';' {
        ReplaceCharAbsent(r2, ',', "\\,");
        ReplaceCharAbsent(r2, '\n', "\\n");
      } else {
        ReplaceCharSingle(c, ',', "\\,");
        var r3 := ReplaceChar(r2, ',', "\\,");
        if c == ',' {
          ReplaceCharAbsent(r3, '\n', "\\n");
        } else {
          ReplaceCharSingle(c, '\n', "\\n");
        }
      }
    }
  }

  /** The chain of four global replacements escapes each character on its own: no
      replacement rewrites the output of an earlier one. */
  lemma {:induction false} EscapeIsPerCharacter(s: string)
    ensures EscapeIcsField(Some(s)) == EscapeChars(s)
    decreases |s|
  {
    if s != [] {
      var c := s[0];
      var t := s[1..];
      assert s == [c] + t;
      ReplaceCharConcat([c], t, '\\', "\\\\");
      var a1 := ReplaceChar([c], '\\', "\\\\");
      var b1 := ReplaceChar(t, '\\', "\\\\");
      ReplaceCharConcat(a1, b1, ';', "\\;");
      var a2 := ReplaceChar(a1, ';', "\\;");
      var b2 := ReplaceChar(b1, ';', "\\;");
      ReplaceCharConcat(a2, b2, ',', "\\,");
      var a3 := ReplaceChar(a2, ',', "\\,");
      var b3 := ReplaceChar(b2, ',', "\\,");
      ReplaceCharConcat(a3, b3, '\n', "\\n");
      EscapeOneChar(c);
      EscapeIsPerCharacter(t);
    }
  }

  /** `s.replace(/\\X/g, out)` where X ranges over `targets`: a left-to-right scan that
      turns each backslash followed by a target into `out` and never rescans its output. */
  function ReplaceEscape(s: string, targets: set<char>, out: char): string
    decreases |s|
  {
    if |s| >= 2 && s[0] == '\\' && s[1] in targets then [out] + ReplaceEscape(s[2..], targets, out)
    else if s == [] then []
    else [s[0]] + ReplaceEscape(s[1..], targets, out)
  }

  /** `unescapeIcsField` as written: null becomes ""; then `\n`/`\N`, `\,`, `\;` and
      `\\` are replaced in four separate passes. */
  function UnescapeIcsField(field: Option<string>): string {
    match field
    case None => ""
    case Some(s) =>
      ReplaceEscape(ReplaceEscape(ReplaceEscape(ReplaceEscape(s, {'n', 'N'}, '\n'), {','}, ','), {';'}, ';'), {'\\'}, '\\')
  }

  /** Single-pass TEXT unescape (section 3.3.11 of RFC 5545): each backslash escape is
      decoded once, left to right; an unknown escape keeps its backslash. */
  function UnescapeText(s: string): string
    decreases |s|
  {
    if |s| >= 2 && s[0] == '\\' && (s[1] == 'n' || s[1] == 'N') then "\n" + UnescapeText(s[2..])
    else if |s| >= 2 && s[0] == '\\' && (s[1] == ',' || s[1] == ';' || s[1] == '\\') then [s[1]] + UnescapeText(s[2..])
    else if s == [] then []
    else [s[0]] + UnescapeText(s[1..])
  }

  /** The corrected unescape: null becomes "", anything else is decoded in one pass. */
  function UnescapeIcsFieldFixed(field: Option<string>): string {
    match field
    case None => ""
    case Some(s) => UnescapeText(s)
  }

  lemma {:induction false} UnescapeTextOfEscaped(s: string)
    ensures UnescapeText(EscapeChars(s)) == s
    decreases |s|
  {
    if s != [] {
      var rest := EscapeChars(s[1..]);
      assert EscapeChars(s) == EscapeChar(s[0]) + rest;
      UnescapeTextOfEscaped(s[1..]);
      UnescapeEscapedHead(s[0], rest);
    }
  }

  /** Unescaping decodes the escape of one character and goes on with the rest. */
  lemma UnescapeEscapedHead(c: char, rest: string)
    ensures UnescapeText(EscapeChar(c) + rest) == [c] + UnescapeText(rest)
  {
    if c == '\\' || c == ';' || c == ',' || c == '\n' {
      assert (EscapeChar(c) + rest)[2..] == rest;
    } else {
      assert (EscapeChar(c) + rest)[1..] == rest;
    }
  }

  /** The corrected unescape inverts the escape for every string, and both map a
      missing field to "". */
  lemma UnescapeFixedInvertsEscape(field: Option<string>)
    ensures UnescapeIcsFieldFixed(Some(EscapeIcsField(field))) == field.GetOr("")
  {
    if field.Some? {
      EscapeIsPerCharacter(field.value);
      UnescapeTextOfEscaped(field.value);
    }
  }

  // ---- the as-written unescape on escaped text without backslashes ----

  /** What each original character has become after the first pass (`\n` decoded). */
  function AfterNewlinePass(c: char): string {
    if c == ';' then "\\;" else if c == ',' then "\\," else [c]
  }

  /** What each original character has become after the second pass (`\,` decoded). */
  function AfterCommaPass(c: char): string {
    if c == ';' then "\\;" else [c]
  }

  function MapChars(s: string, pass: nat): string
    requires pass <= 2
  {
    if s == [] then []
    else (if pass == 0 then EscapeChar(s[0]) else if pass == 1 then AfterNewlinePass(s[0]) else AfterCommaPass(s[0]))
         + MapChars(s[1..], pass)
  }

  lemma {:induction false} NewlinePass(s: string)
    requires '\\' !in s
    ensures ReplaceEscape(MapChars(s, 0), {'n', 'N'}, '\n') == MapChars(s, 1)
    decreases |s|
  {
    if s != [] {
      var c := s[0];
      var rest := MapChars(s[1..], 0);
      NewlinePass(s[1..]);
      if c == ';' || c == ',' || c == '\n' {
        assert (EscapeChar(c) + rest)[2..] == rest;
      } else {
        assert (EscapeChar(c) + rest)[1..] == rest;
      }
    }
  }

  lemma {:induction false} CommaPass(s: string)
    requires '\\' !in s
    ensures ReplaceEscape(MapChars(s, 1), {','}, ',') == MapChars(s, 2)
    decreases |s|
  {
    if s != [] {
      var c := s[0];
      var rest := MapChars(s[1..], 1);
      CommaPass(s[1..]);
      if c == ';' || c == ',' {
        assert (AfterNewlinePass(c) + rest)[2..] == rest;
      } else {
        assert (AfterNewlinePass(c) + rest)[1..] == rest;
      }
    }
  }

  lemma {:induction false} SemicolonPass(s: string)
    requires '\\' !in s
    ensures ReplaceEscape(MapChars(s, 2), {';'}, ';') == s
    decreases |s|
  {
    if s != [] {
      var c := s[0];
      var rest := MapChars(s[1..], 2);
      SemicolonPass(s[1..]);
      if c == ';' {
        assert (AfterCommaPass(c) + rest)[2..] == rest;
      } else {
        assert (AfterCommaPass(c) + rest)[1..] == rest;
      }
    }
  }

  /** A pass finds nothing to replace in a text without a backslash. */
  lemma {:induction false} PassIdentity(s: string, targets: set<char>, out: char)
    requires '\\' !in s
    ensures ReplaceEscape(s, targets, out) == s
    decreases |s|
  {
    if s != [] {
      PassIdentity(s[1..], targets, out);
    }
  }

  /** The source's unescape leaves a text without a backslash unchanged. */
  lemma UnescapePlainAsWritten(s: string)
    requires '\\' !in s
    ensures UnescapeIcsField(Some(s)) == s
  {
    PassIdentity(s, {'n', 'N'}, '\n');
    PassIdentity(s, {','}, ',');
    PassIdentity(s, {';'}, ';');
    PassIdentity(s, {'\\'}, '\\');
  }

  lemma {:induction false} EscapeCharsIsMapChars(s: string)
    ensures EscapeChars(s) == MapChars(s, 0)
    decreases |s|
  {
    if s != [] {
      EscapeCharsIsMapChars(s[1..]);
    }
  }

  /** The source's own unescape inverts its escape on every string without a backslash. */
  lemma UnescapeInvertsEscapeWithoutBackslash(s: string)
    requires '\\' !in s
    ensures UnescapeIcsField(Some(EscapeIcsField(Some(s)))) == s
  {
    EscapeIsPerCharacter(s);
    EscapeCharsIsMapChars(s);
    NewlinePass(s);
    CommaPass(s);
    SemicolonPass(s);
    PassIdentity(s, {'\\'}, '\\');
  }

  lemma EscapeBackslashN()
    ensures EscapeIcsField(Some("\\n")) == "\\\\n"
  {
    EscapeIsPerCharacter("\\n");
    assert EscapeChars("\\n") == "\\\\n";
  }

  lemma UnescapeEscapedBackslashN()
    ensures UnescapeIcsField(Some("\\\\n")) == "\\\n"
  {
    var a := ReplaceEscape("\\\\n", {'n', 'N'}, '\n');
    assert "\\\\n"[1..] == "\\n";
    assert a == "\\\n";
    assert ReplaceEscape(a, {','}, ',') == a;
    assert ReplaceEscape(a, {';'}, ';') == a;
    assert ReplaceEscape(a, {'\\'}, '\\') == a;
  }

  /** ...but not on a literal backslash followed by 'n': the escaped backslash pair is
      split and its second half joins the 'n' into a line feed. */
  lemma UnescapeAsWrittenBreaksBackslashN()
    ensures EscapeIcsField(Some("\\n")) == "\\\\n"
    ensures UnescapeIcsField(Some(EscapeIcsField(Some("\\n")))) == "\\\n"
    ensures UnescapeIcsField(Some(EscapeIcsField(Some("\\n")))) != "\\n"
  {
    EscapeBackslashN();
    UnescapeEscapedBackslashN();
  }
}
