/** String primitives with JavaScript semantics: digit formatting, `parseInt`,
    `split`, `trim` and `toUpperCase` restricted to what the calendar uses. */
module Text {
  import opened Wrappers

  predicate IsDigit(c: char) {
    '0' <= c <= '9'
  }

  function DigitValue(c: char): int
    requires IsDigit(c)
  {
    c as int - '0' as int
  }

  function DigitChar(d: int): (c: char)
    requires 0 <= d <= 9
    ensures IsDigit(c) && DigitValue(c) == d
  {
    ('0' as int + d) as char
  }

  predicate AllDigits(s: string) {
    forall i :: 0 <= i < |s| ==> IsDigit(s[i])
  }

  /** Decimal value of a digit string, leading zeros allowed. */
  function DigitsValue(s: string): nat
    requires AllDigits(s)
  {
    if s == [] then 0 else DigitsValue(s[..|s| - 1]) * 10 + DigitValue(s[|s| - 1])
  }

  lemma DigitsValueSnoc(s: string, c: char)
    requires AllDigits(s) && IsDigit(c)
    ensures AllDigits(s + [c]) && DigitsValue(s + [c]) == DigitsValue(s) * 10 + DigitValue(c)
  {
    assert (s + [c])[..|s|] == s;
  }

  /** Decimal digits of `n` without leading zeros ("0" for zero), as `String(n)` prints them. */
  function Decimal(n: nat): (s: string)
    ensures 1 <= |s| && AllDigits(s) && DigitsValue(s) == n
    decreases n
  {
    if n < 10 then
      DigitsValueSnoc([], DigitChar(n));
      [DigitChar(n)]
    else
      var p := Decimal(n / 10);
      DigitsValueSnoc(p, DigitChar(n % 10));
      p + [DigitChar(n % 10)]
  }

  /** Two-digit zero-padded number (luxon tokens `dd`, `MM`, `HH`, `mm`, `ss`). */
  function Pad2(n: int): (s: string)
    requires 0 <= n <= 99
    ensures |s| == 2 && AllDigits(s) && DigitsValue(s) == n
  {
    DigitsValueSnoc([], DigitChar(n / 10));
    DigitsValueSnoc([DigitChar(n / 10)], DigitChar(n % 10));
    [DigitChar(n / 10), DigitChar(n % 10)]
  }

  /** Four-digit zero-padded number (luxon token `yyyy` for years 0..9999). */
  function Pad4(n: int): (s: string)
    requires 0 <= n <= 9999
    ensures |s| == 4 && AllDigits(s) && DigitsValue(s) == n
  {
    var a := Pad2(n / 100);
    var b := Pad2(n % 100);
    DigitsValueSnoc(a, b[0]);
    assert a + b == (a + [b[0]]) + [b[1]];
    DigitsValueSnoc(a + [b[0]], b[1]);
    assert b == [b[0]] + [b[1]];
    a + b
  }

  /** luxon's `yyyy` token: at least four digits, with a sign for negative years. */
  function FormatYear(y: int): string {
    if 0 <= y <= 9999 then Pad4(y)
    else if y > 9999 then Decimal(y)
    else if -y <= 9999 then "-" + Pad4(-y)
    else "-" + Decimal(-y)
  }

  // ---- searching ----

  /** Number of occurrences of `c` in `s`. */
  function Count(s: string, c: char): nat {
    multiset(s)[c]
  }

  /** Index of the first occurrence of `c`, like `indexOf` (None for -1). */
  function Find(s: string, c: char): (r: Option<nat>)
    ensures r.None? <==> c !in s
    ensures r.Some? ==> r.value < |s| && s[r.value] == c && c !in s[..r.value]
  {
    if |s| == 0 then None
    else if s[0] == c then Some(0)
    else match Find(s[1..], c)
      case None => None
      case Some(k) =>
        assert s[..k + 1] == [s[0]] + s[1..][..k];
        Some(k + 1)
  }

  /** The first `c` after a prefix without one is where the prefix ends. */
  lemma FindAfter(a: string, b: string, c: char)
    requires c !in a && |b| > 0 && b[0] == c
    ensures Find(a + b, c) == Some(|a|)
  {
    var s := a + b;
    assert s[|a|] == c;
    assert s[..|a|] == a;
  }

  predicate StartsWith(s: string, prefix: string) {
    |prefix| <= |s| && s[..|prefix|] == prefix
  }

  predicate EndsWith(s: string, suffix: string) {
    |suffix| <= |s| && s[|s| - |suffix|..] == suffix
  }

  /** `t` occurs in `s` at index `i`. */
  predicate OccursAt(s: string, t: string, i: int) {
    0 <= i <= |s| - |t| && s[i..i + |t|] == t
  }

  /** `s.includes(t)`. */
  predicate Contains(s: string, t: string) {
    exists i | 0 <= i <= |s| :: OccursAt(s, t, i)
  }

  /** JavaScript `split(sep)` on a single-character separator. */
  function Split(s: string, sep: char): (parts: seq<string>)
    ensures |parts| >= 1
    ensures forall i :: 0 <= i < |parts| ==> sep !in parts[i]
    decreases |s|
  {
    match Find(s, sep)
    case None => [s]
    case Some(k) => [s[..k]] + Split(s[k + 1..], sep)
  }

  /** `split` yields one more part than there are separators. */
  lemma {:induction false} SplitCount(s: string, sep: char)
    ensures |Split(s, sep)| == Count(s, sep) + 1
    decreases |s|
  {
    match Find(s, sep)
    case None =>
    case Some(k) =>
      assert s == s[..k] + [sep] + s[k + 1..];
      assert multiset(s) == multiset(s[..k]) + multiset{sep} + multiset(s[k + 1..]);
      SplitCount(s[k + 1..], sep);
  }

  /** Joining the parts with the separator gives back the string. */
  function Join(parts: seq<string>, sep: char): string
    requires |parts| >= 1
  {
    if |parts| == 1 then parts[0] else parts[0] + [sep] + Join(parts[1..], sep)
  }

  lemma {:induction false} SplitJoin(s: string, sep: char)
    ensures Join(Split(s, sep), sep) == s
    decreases |s|
  {
    match Find(s, sep)
    case None =>
    case Some(k) =>
      var a, b := s[..k], s[k + 1..];
      var rest := Split(b, sep);
      var parts := [a] + rest;
      assert Split(s, sep) == parts;
      assert |parts| > 1 && parts[0] == a && parts[1..] == rest;
      assert Join(parts, sep) == a + [sep] + Join(rest, sep);
      SplitJoin(b, sep);
      assert s == a + [sep] + b;
  }

  // ---- whitespace ----

  /** JavaScript WhiteSpace and LineTerminator code points (what `trim`, `parseInt`
      and the regular-expression class `\s` skip). */
  predicate IsJsSpace(c: char) {
    var n := c as int;
    n == 0x09 || n == 0x0A || n == 0x0B || n == 0x0C || n == 0x0D || n == 0x20
    || n == 0xA0 || n == 0x1680 || (0x2000 <= n <= 0x200A) || n == 0x2028 || n == 0x2029
    || n == 0x202F || n == 0x205F || n == 0x3000 || n == 0xFEFF
  }

  /** Number of JavaScript whitespace characters at the front of `s`. */
  function LeadingSpaces(s: string): (n: nat)
    ensures n <= |s|
  {
    if |s| > 0 && IsJsSpace(s[0]) then 1 + LeadingSpaces(s[1..]) else 0
  }

  /** Number of JavaScript whitespace characters at the end of `s`. */
  function TrailingSpaces(s: string): (n: nat)
    ensures n <= |s|
  {
    if |s| > 0 && IsJsSpace(s[|s| - 1]) then 1 + TrailingSpaces(s[..|s| - 1]) else 0
  }

  function TrimStart(s: string): string {
    s[LeadingSpaces(s)..]
  }

  function TrimEnd(s: string): string {
    s[..|s| - TrailingSpaces(s)]
  }

  /** `TrimStart` removes exactly the leading run of whitespace. */
  lemma {:induction false} LeadingSpacesSpec(s: string)
    ensures forall i :: 0 <= i < LeadingSpaces(s) ==> IsJsSpace(s[i])
    ensures LeadingSpaces(s) < |s| ==> !IsJsSpace(s[LeadingSpaces(s)])
  {
    if |s| > 0 && IsJsSpace(s[0]) {
      LeadingSpacesSpec(s[1..]);
    }
  }

  /** `TrimEnd` removes exactly the trailing run of whitespace. */
  lemma {:induction false} TrailingSpacesSpec(s: string)
    ensures forall i :: |s| - TrailingSpaces(s) <= i < |s| ==> IsJsSpace(s[i])
    ensures TrailingSpaces(s) < |s| ==> !IsJsSpace(s[|s| - TrailingSpaces(s) - 1])
  {
    if |s| > 0 && IsJsSpace(s[|s| - 1]) {
      TrailingSpacesSpec(s[..|s| - 1]);
    }
  }

  /** `String.prototype.trim`. */
  function Trim(s: string): string {
    TrimEnd(TrimStart(s))
  }

  // ---- case ----

  function UpperChar(c: char): char {
    if 'a' <= c <= 'z' then (c as int - 32) as char else c
  }

  /** `toUpperCase` on ASCII letters. */
  function Upper(s: string): (r: string)
    ensures |r| == |s| && forall i :: 0 <= i < |s| ==> r[i] == UpperChar(s[i])
  {
    seq(|s|, i requires 0 <= i < |s| => UpperChar(s[i]))
  }

  // ---- parseInt ----

  /** The longest prefix of `s` made of decimal digits. */
  function DigitPrefix(s: string): (r: string)
    ensures AllDigits(r) && |r| <= |s| && r == s[..|r|]
    ensures |r| < |s| ==> !IsDigit(s[|r|])
  {
    if |s| > 0 && IsDigit(s[0]) then
      var rest := DigitPrefix(s[1..]);
      assert [s[0]] + rest == s[..|rest| + 1];
      [s[0]] + rest
    else []
  }

  /** `parseInt(s, 10)`: skip leading whitespace, an optional sign, then as many
      digits as follow; NaN (None) when there is none. (`-0` reads as 0.) */
  function ParseIntJs(s: string): (r: Option<int>)
  {
    var t := TrimStart(s);
    var negative := |t| > 0 && t[0] == '-';
    var unsigned := if |t| > 0 && (t[0] == '-' || t[0] == '+') then t[1..] else t;
    var digits := DigitPrefix(unsigned);
    var magnitude: int := if |digits| == 0 then 0 else DigitsValue(digits);
    if |digits| == 0 then None
    else if negative then Some(-magnitude)
    else Some(magnitude)
  }

  lemma DigitPrefixOfDigits(s: string)
    requires AllDigits(s)
    ensures DigitPrefix(s) == s
  {
    if |s| > 0 {
      DigitPrefixOfDigits(s[1..]);
    }
  }

  /** parseInt reads back any digit string it is given. */
  lemma ParseIntOfDigits(s: string)
    requires AllDigits(s) && |s| > 0
    ensures ParseIntJs(s) == Some(DigitsValue(s))
  {
    assert !IsJsSpace(s[0]);
    assert TrimStart(s) == s;
    DigitPrefixOfDigits(s);
  }

  // ---- HH:mm ----

  /** luxon `toFormat("HH:mm")` of a minute of the day. */
  function FormatHHmm(minute: int): (s: string)
    requires 0 <= minute < 1440
    ensures |s| == 5 && s[2] == ':'
  {
    Pad2(minute / 60) + ":" + Pad2(minute % 60)
  }

  lemma SplitHHmm(minute: int)
    requires 0 <= minute < 1440
    ensures Split(FormatHHmm(minute), ':') == [Pad2(minute / 60), Pad2(minute % 60)]
  {
    var s := FormatHHmm(minute);
    var h := Pad2(minute / 60);
    var m := Pad2(minute % 60);
    assert s[..2] == h && s[3..] == m;
    assert ':' !in h && ':' !in m;
    assert Find(s, ':') == Some(2);
    assert Find(m, ':') == None;
  }
}
