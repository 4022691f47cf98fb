/** `_format_duration`: a track length in seconds rendered as `M:SS` or
    `H:MM:SS`, and the clock-text reader that inverts it. */
module Duration {
  import opened Optional
  import opened Decimal

  /** `_format_duration(seconds)`. None stands for a Python `None`; a missing
      duration reaches the function as the call sites' default 0. Python's
      `divmod` by 60 floors, which is what Dafny's `/` and `%` do for a
      positive divisor. */
  function FormatDuration(seconds: Option<int>): (r: string)
    ensures r == "Unknown" <==> seconds == None || seconds == Some(0)
  {
    if seconds.None? || seconds.value == 0 then "Unknown"
    else
      var s := seconds.value;
      var minutes, secs := s / 60, s % 60;
      var hours, mins := minutes / 60, minutes % 60;
      if hours > 0 then LongClock(hours, mins, secs) else ShortClock(mins, secs)
  }

  /** `f"{minutes}:{seconds:02d}"` */
  function ShortClock(m: nat, sec: nat): (r: string)
    requires sec < 60
    ensures |r| > 0 && IsDigit(r[0])
  {
    NatToText(m) + ":" + PadTwo(sec)
  }

  /** `f"{hours}:{minutes:02d}:{seconds:02d}"` */
  function LongClock(h: nat, m: nat, sec: nat): (r: string)
    requires m < 60 && sec < 60
    ensures |r| > 0 && IsDigit(r[0])
  {
    NatToText(h) + ":" + PadTwo(m) + ":" + PadTwo(sec)
  }

  lemma SplitShort(m: nat, sec: nat)
    requires sec < 60
    ensures Split(ShortClock(m, sec), ':') == [NatToText(m), PadTwo(sec)]
  {
    var a, b := NatToText(m), PadTwo(sec);
    NoColon(a);
    NoColon(b);
    assert ShortClock(m, sec) == a + [':'] + b;
    SplitAt(a, ':', b);
  }

  lemma SplitLong(h: nat, m: nat, sec: nat)
    requires m < 60 && sec < 60
    ensures Split(LongClock(h, m, sec), ':') == [NatToText(h), PadTwo(m), PadTwo(sec)]
  {
    var a, b, c := NatToText(h), PadTwo(m), PadTwo(sec);
    NoColon(a);
    NoColon(b);
    NoColon(c);
    assert LongClock(h, m, sec) == a + [':'] + (b + [':'] + c);
    SplitAt(a, ':', b + [':'] + c);
    SplitAt(b, ':', c);
  }

  /** Two digits below 60: a minutes or seconds field after the first. */
  predicate SexagesimalField(f: string) { |f| == 2 && AllDigits(f) && DigitsValue(f) < 60 }

  /** Reads `M:SS` (M < 60) or `H:MM:SS` (H > 0) written without superfluous
      leading zeros, and returns the positive number of seconds it denotes. */
  function ParseClock(t: string): (r: Option<int>)
    ensures r.Some? ==> r.value > 0
  {
    ClockFields(Split(t, ':'))
  }

  /** The reader on the colon-separated fields. */
  function ClockFields(f: seq<string>): (r: Option<int>)
    ensures r.Some? ==> r.value > 0
  {
    if |f| == 2 && Canonical(f[0]) && DigitsValue(f[0]) < 60 && SexagesimalField(f[1])
       && DigitsValue(f[0]) * 60 + DigitsValue(f[1]) > 0
    then Some(DigitsValue(f[0]) * 60 + DigitsValue(f[1]))
    else if |f| == 3 && Canonical(f[0]) && f[0][0] != '0' && SexagesimalField(f[1]) && SexagesimalField(f[2])
    then DigitsValueBound(f[0]); Some(DigitsValue(f[0]) * 3600 + DigitsValue(f[1]) * 60 + DigitsValue(f[2]))
    else None
  }

  lemma DivMod60(x: int, q: int, r: int)
    requires 0 <= r < 60 && x == q * 60 + r
    ensures x / 60 == q && x % 60 == r
  {
  }

  /** The two floor divisions of `_format_duration` take apart h*3600 + m*60 + s. */
  lemma ClockArith(h: int, m: int, sec: int)
    requires 0 <= m < 60 && 0 <= sec < 60
    ensures var s := h * 3600 + m * 60 + sec;
            s / 60 / 60 == h && s / 60 % 60 == m && s % 60 == sec
  {
    var s := h * 3600 + m * 60 + sec;
    DivMod60(s, h * 60 + m, sec);
    DivMod60(h * 60 + m, h, m);
  }

  lemma NoColon(s: string)
    requires AllDigits(s)
    ensures ':' !in s
  {
    DigitsHaveNo(s, ':');
  }

  /** A positive duration is printed with two fields below an hour and three
      from an hour on, and reading the text back gives the input: the fields
      recombine as h*3600 + m*60 + s. */
  lemma FormatThenParse(s: int)
    requires s > 0
    ensures var t := FormatDuration(Some(s));
            ParseClock(t) == Some(s) && |Split(t, ':')| == (if s < 3600 then 2 else 3)
  {
    var minutes, secs := s / 60, s % 60;
    var hours, mins := minutes / 60, minutes % 60;
    assert s == hours * 3600 + mins * 60 + secs;
    ValueOfText(mins);
    if hours > 0 {
      SplitLong(hours, mins, secs);
      LongValue(hours, mins, secs);
    } else {
      SplitShort(mins, secs);
    }
  }

  lemma LongValue(h: nat, m: nat, sec: nat)
    requires h > 0 && m < 60 && sec < 60
    ensures ParseClock(LongClock(h, m, sec)) == Some(h * 3600 + m * 60 + sec)
  {
    SplitLong(h, m, sec);
    ValueOfText(h);
    var a, b, c := NatToText(h), PadTwo(m), PadTwo(sec);
    assert a[0] != '0' && SexagesimalField(b) && SexagesimalField(c);
    ThreeFields(a, b, c);
    assert ParseClock(LongClock(h, m, sec)) == ClockFields([a, b, c]);
  }

  /** The reader on three well-formed fields. */
  lemma ThreeFields(a: string, b: string, c: string)
    requires Canonical(a) && a[0] != '0' && SexagesimalField(b) && SexagesimalField(c)
    ensures ClockFields([a, b, c]) == Some(DigitsValue(a) * 3600 + DigitsValue(b) * 60 + DigitsValue(c))
  {
    var r := ClockFields([a, b, c]);
    assert r.Some?;
    assert r.value == DigitsValue(a) * 3600 + DigitsValue(b) * 60 + DigitsValue(c);
  }

  /** Conversely, every text the reader accepts is exactly what the formatter
      prints for the value read. */
  lemma ParseThenFormat(t: string)
    requires ParseClock(t).Some?
    ensures FormatDuration(ParseClock(t)) == t
  {
    JoinSplit(t, ':');
    if |Split(t, ':')| == 2 {
      ParseThenFormatShort(t);
    } else {
      ParseThenFormatLong(t);
    }
  }

  lemma ParseThenFormatShort(t: string)
    requires ParseClock(t).Some? && |Split(t, ':')| == 2
    ensures FormatDuration(ParseClock(t)) == t
  {
    var f := Split(t, ':');
    JoinSplit(t, ':');
    var m, sec := DigitsValue(f[0]), DigitsValue(f[1]);
    var s := ParseClock(t).value;
    assert s == m * 60 + sec;
    DivMod60(s, m, sec);
    DivMod60(m, 0, m);
    TextOfValue(f[0]);
    PadTwoOfValue(f[1]);
    assert t == ShortClock(m, sec);
  }

  lemma ParseThenFormatLong(t: string)
    requires ParseClock(t).Some? && |Split(t, ':')| == 3
    ensures FormatDuration(ParseClock(t)) == t
  {
    var f := Split(t, ':');
    JoinThree(t);
    assert Canonical(f[0]) && f[0][0] != '0' && SexagesimalField(f[1]) && SexagesimalField(f[2]);
    var h, m, sec := DigitsValue(f[0]), DigitsValue(f[1]), DigitsValue(f[2]);
    assert ParseClock(t) == Some(h * 3600 + m * 60 + sec);
    DigitsValueBound(f[0]);
    TextOfValue(f[0]);
    PadTwoOfValue(f[1]);
    PadTwoOfValue(f[2]);
    assert LongClock(h, m, sec) == t;
    FormatLong(h, m, sec);
  }

  lemma JoinThree(t: string)
    requires |Split(t, ':')| == 3
    ensures var f := Split(t, ':'); t == f[0] + ":" + f[1] + ":" + f[2]
  {
    var f := Split(t, ':');
    JoinSplit(t, ':');
    assert f[1..][0] == f[1] && f[1..][1..] == [f[2]];
    assert Join(f[1..], ':') == f[1] + [':'] + f[2];
  }

  lemma FormatLong(h: nat, m: nat, sec: nat)
    requires h > 0 && m < 60 && sec < 60
    ensures FormatDuration(Some(h * 3600 + m * 60 + sec)) == LongClock(h, m, sec)
  {
    ClockArith(h, m, sec);
  }

  /** A negative input (never produced by the extractor) is not rejected: the
      floor divisions leave a negative hour count, so only the minutes and
      seconds of `seconds mod 3600` are printed. */
  lemma NegativeWraps(s: int)
    requires s < 0
    ensures FormatDuration(Some(s)) ==
              if s % 3600 == 0 then "0:00" else FormatDuration(Some(s % 3600))
  {
    var w := s % 3600;
    NegativeShort(s);
    if w == 0 {
      assert ShortClock(0, 0) == "0:00";
    } else {
      ClockArith(0, w / 60, w % 60);
      assert FormatDuration(Some(w)) == ShortClock(w / 60, w % 60);
    }
  }

  /** The floor divisions of a negative s leave hours below 0, so the short
      form of the minutes and seconds of s mod 3600 is printed. */
  lemma NegativeShort(s: int)
    requires s < 0
    ensures var w := s % 3600; FormatDuration(Some(s)) == ShortClock(w / 60, w % 60)
  {
    var a, w := s / 3600, s % 3600;
    var b, c := w / 60, w % 60;
    assert s == a * 3600 + b * 60 + c && a < 0;
    ClockArith(a, b, c);
  }
}
