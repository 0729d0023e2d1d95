/** `DateUtils.timeToFraction`: an "HH:mm" string as a fraction of the day. Fractions are
    kept as minutes of the day, so 1440 stands for 1.0 and one minute for 1/1440. */
module TimeText {
  import opened Wrappers
  import opened Text
  import opened Civil

  /** `timeToFraction`: null for "" or unless the string splits on ':' into exactly two
      parts whose `parseInt` values are an hour 0..23 and a minute 0..59. */
  function TimeToFraction(s: string): (r: Option<int>)
    ensures r.Some? ==> 0 <= r.value < MinutesPerDay
  {
    if s == "" then None
    else
      var parts := Split(s, ':');
      if |parts| != 2 then None
      else
        match (ParseIntJs(parts[0]), ParseIntJs(parts[1]))
        case (Some(h), Some(m)) =>
          if 0 <= h <= 23 && 0 <= m <= 59 then Some(h * 60 + m) else None
        case _ => None
  }

  /** Only a string with exactly one ':' can be read. */
  lemma OneColonNeeded(s: string)
    requires Count(s, ':') != 1
    ensures TimeToFraction(s).None?
  {
    SplitCount(s, ':');
  }

  /** A fraction that is read decomposes into the hour and minute parts it was read from. */
  lemma TimeToFractionParts(s: string)
    requires TimeToFraction(s).Some?
    ensures |Split(s, ':')| == 2
    ensures ParseIntJs(Split(s, ':')[0]) == Some(TimeToFraction(s).value / 60)
    ensures ParseIntJs(Split(s, ':')[1]) == Some(TimeToFraction(s).value % 60)
  {
    var parts := Split(s, ':');
    var h := ParseIntJs(parts[0]).value;
    var m := ParseIntJs(parts[1]).value;
    var f := h * 60 + m;
    assert TimeToFraction(s) == Some(f);
    assert f / 60 == h && f % 60 == m by {
      assert f == 60 * h + m && 0 <= m < 60;
    }
  }

  lemma TimeToFractionOf(s: string, minute: int)
    requires 0 <= minute < MinutesPerDay && s != "" && |Split(s, ':')| == 2
    requires ParseIntJs(Split(s, ':')[0]) == Some(minute / 60) && ParseIntJs(Split(s, ':')[1]) == Some(minute % 60)
    ensures TimeToFraction(s) == Some(minute)
  {
    assert minute / 60 * 60 + minute % 60 == minute;
  }

  /** Every "HH:mm" that luxon prints reads back as the minute it came from. */
  lemma FractionOfFormat(minute: int)
    requires 0 <= minute < MinutesPerDay
    ensures TimeToFraction(FormatHHmm(minute)) == Some(minute)
  {
    var s := FormatHHmm(minute);
    SplitHHmm(minute);
    ParseIntOfDigits(Pad2(minute / 60));
    ParseIntOfDigits(Pad2(minute % 60));
    assert s != "" by {
      assert |s| > 0;
    }
    TimeToFractionOf(s, minute);
  }

  /** Distinct minutes print differently; in particular only minute 0 prints "00:00". */
  lemma FormatHHmmInjective(a: int, b: int)
    requires 0 <= a < MinutesPerDay && 0 <= b < MinutesPerDay
    ensures FormatHHmm(a) == FormatHHmm(b) <==> a == b
  {
    if FormatHHmm(a) == FormatHHmm(b) {
      FractionOfFormat(a);
      FractionOfFormat(b);
    }
  }

  lemma MidnightText(minute: int)
    requires 0 <= minute < MinutesPerDay
    ensures FormatHHmm(minute) == "00:00" <==> minute == 0
  {
    assert FormatHHmm(0) == "00:00";
    FormatHHmmInjective(minute, 0);
  }

  // ---- strict clock texts ----

  /** A clock text of the form luxon writes and reads as an ISO time, "HH:mm", as a
      minute of the day; None for any other text. */
  function ClockOf(s: string): (r: Option<int>)
    ensures r.Some? ==> 0 <= r.value < MinutesPerDay
  {
    if |s| == 5 && s[2] == ':' && AllDigits(s[..2]) && AllDigits(s[3..])
       && DigitsValue(s[..2]) <= 23 && DigitsValue(s[3..]) <= 59
    then Some(DigitsValue(s[..2]) * 60 + DigitsValue(s[3..]))
    else None
  }

  lemma Pad2OfDigits(x: string)
    requires |x| == 2 && AllDigits(x)
    ensures DigitsValue(x) <= 99 && Pad2(DigitsValue(x)) == x
  {
    assert x[..1][..0] == [] && x[..1][0] == x[0];
    assert DigitsValue(x[..1]) == DigitValue(x[0]);
    assert DigitsValue(x) == DigitValue(x[0]) * 10 + DigitValue(x[1]);
    assert 0 <= DigitValue(x[0]) <= 9 && 0 <= DigitValue(x[1]) <= 9;
  }

  /** Printing a minute and reading the text back are inverse: every minute of the
      day survives the round trip ... */
  lemma ClockOfFormat(minute: int)
    requires 0 <= minute < MinutesPerDay
    ensures ClockOf(FormatHHmm(minute)) == Some(minute)
  {
    var s := FormatHHmm(minute);
    assert s[..2] == Pad2(minute / 60) && s[3..] == Pad2(minute % 60);
  }

  /** ... and every text that reads as a minute is the text that minute prints as. */
  lemma FormatOfClock(s: string)
    requires ClockOf(s).Some?
    ensures FormatHHmm(ClockOf(s).value) == s
  {
    var h := DigitsValue(s[..2]);
    var m := DigitsValue(s[3..]);
    assert (h * 60 + m) / 60 == h && (h * 60 + m) % 60 == m;
    Pad2OfDigits(s[..2]);
    Pad2OfDigits(s[3..]);
    assert s == s[..2] + ":" + s[3..];
  }

  /** On a well-formed clock text, `timeToFraction` reads the same minute. */
  lemma FractionOfClock(s: string)
    requires ClockOf(s).Some?
    ensures TimeToFraction(s) == ClockOf(s)
  {
    FormatOfClock(s);
    FractionOfFormat(ClockOf(s).value);
  }

  // ---- clock texts read with `split(":").map(Number)` ----

  /** `Number(text)` for the texts a clock part holds: white space around it is
      ignored, an empty text is 0, and an optional sign followed by decimal digits
      is that integer. None stands for NaN, and also for the numeric forms this
      model does not read (a decimal point, an exponent, a radix prefix, Infinity). */
  function NumberOf(s: string): (r: Option<int>)
    ensures AllDigits(s) ==> r == Some(DigitsValue(s))
    ensures r.None? ==> Trim(s) != "" && exists i :: 0 <= i < |Trim(s)| && !IsDigit(Trim(s)[i])
  {
    TrimDigits(s);
    var t := Trim(s);
    if t == "" then Some(0)
    else if (t[0] == '-' || t[0] == '+') && |t| > 1 && AllDigits(t[1..]) then
      var v: int := DigitsValue(t[1..]);
      Some(if t[0] == '-' then -v else v)
    else if AllDigits(t) then Some(DigitsValue(t))
    else None
  }

  /** A text of digits has no white space to trim. */
  lemma TrimDigits(s: string)
    ensures AllDigits(s) ==> Trim(s) == s
  {
    if AllDigits(s) && s != [] {
      assert LeadingSpaces(s) == 0;
      assert TrimStart(s) == s;
      assert TrailingSpaces(s) == 0;
    }
  }

  /** What `text.split(":").map(Number)` hands to luxon's `set({ hour, minute })`:
      `Unreadable` when a part it uses is NaN (luxon throws), otherwise the hour and
      the minute, the minute None when the text has no ':' (undefined: the minute is
      left as it was). Parts after a second ':' are ignored. */
  datatype ClockSet = Unreadable | SetTo(hour: int, minute: Option<int>)

  function ClockSetOf(s: string): (r: ClockSet)
    ensures r.SetTo? ==> NumberOf(Split(s, ':')[0]) == Some(r.hour)
    ensures r.SetTo? ==> (r.minute.Some? <==> ':' in s)
    ensures r.Unreadable? <==>
              NumberOf(Split(s, ':')[0]).None? || (':' in s && NumberOf(Split(s, ':')[1]).None?)
  {
    var parts := Split(s, ':');
    var h := NumberOf(parts[0]);
    var m := if |parts| >= 2 then Some(NumberOf(parts[1])) else None;
    if h.None? || (m.Some? && m.value.None?) then Unreadable
    else SetTo(h.value, if m.Some? then Some(m.value.value) else None)
  }

  /** The minute of the local day `set({ hour, minute })` gives a DateTime whose
      minute was `kept`: hours past 23 and minutes past 59 run on into later days. */
  function SetMinutes(c: ClockSet, kept: int): int
    requires c.SetTo?
  {
    c.hour * 60 + c.minute.GetOr(kept)
  }

  /** On an "HH:mm" text the `Number` read and the strict read agree. */
  lemma ClockSetOfClock(s: string)
    requires ClockOf(s).Some?
    ensures ClockSetOf(s) == SetTo(ClockOf(s).value / 60, Some(ClockOf(s).value % 60))
  {
    assert s == s[..2] + ":" + s[3..];
    ReadsAs(s[..2], s[3..], DigitsValue(s[..2]), DigitsValue(s[3..]));
  }

  /** A text with one ':' sets the hour and minute its parts read as. */
  lemma ClockSetOfTwo(a: string, b: string)
    requires ':' !in a && ':' !in b
    ensures ClockSetOf(a + ":" + b)
            == if NumberOf(a).Some? && NumberOf(b).Some? then SetTo(NumberOf(a).value, Some(NumberOf(b).value)) else Unreadable
  {
    ClockSetOfParts(a, b);
  }

  /** "9:00", which the strict read refuses, sets 9 o'clock. */
  lemma ShortHourClock()
    ensures ClockOf("9:00").None? && ClockSetOf("9:00") == SetTo(9, Some(0))
  {
    assert "9" + ":" + "00" == "9:00";
    ReadsAs("9", "00", 9, 0);
  }

  /** "9" sets the hour and leaves the minute as it was. */
  lemma HourOnlyClock()
    ensures ClockSetOf("9") == SetTo(9, None)
  {
    assert Split("9", ':') == ["9"];
    DigitsText("9", 9);
  }

  /** "24:00" sets hour 24, the midnight that ends the day. */
  lemma MidnightEndClock()
    ensures ClockOf("24:00").None? && ClockSetOf("24:00") == SetTo(24, Some(0))
    ensures SetMinutes(SetTo(24, Some(0)), 0) == MinutesPerDay
  {
    assert "24" + ":" + "00" == "24:00";
    ReadsAs("24", "00", 24, 0);
  }

  /** "ab:cd" is NaN, on which `set` throws. */
  lemma LettersClock()
    ensures ClockSetOf("ab:cd") == Unreadable
  {
    assert "ab" + ":" + "cd" == "ab:cd";
    ClockSetOfTwo("ab", "cd");
    NotDigitsText("ab");
  }

  lemma ReadsAs(a: string, b: string, h: int, m: int)
    requires ':' !in a && ':' !in b && AllDigits(a) && AllDigits(b) && DigitsValue(a) == h && DigitsValue(b) == m
    ensures ClockSetOf(a + ":" + b) == SetTo(h, Some(m))
  {
    ClockSetOfTwo(a, b);
    DigitsText(a, h);
    DigitsText(b, m);
  }

  lemma NotDigitsText(s: string)
    requires |s| == 2 && !IsJsSpace(s[0]) && !IsJsSpace(s[1]) && !IsDigit(s[1])
    ensures NumberOf(s).None?
  {
    assert LeadingSpaces(s) == 0 && TrailingSpaces(s) == 0;
    assert Trim(s) == s;
  }

  lemma DigitsText(s: string, v: int)
    requires AllDigits(s) && DigitsValue(s) == v
    ensures NumberOf(s) == Some(v)
  {
  }

  lemma ClockSetOfParts(a: string, b: string)
    requires ':' !in a && ':' !in b
    ensures Split(a + ":" + b, ':') == [a, b]
  {
    var s := a + ":" + b;
    assert s == a + (":" + b);
    FindAfter(a, ":" + b, ':');
    assert s[..|a|] == a && s[|a| + 1..] == b;
    assert Split(b, ':') == [b];
  }
}
