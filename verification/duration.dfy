/** Compact durations such as "3d2h30m": the formatter the edit dialog shows
    and the lenient parse loop both appointment dialogs run on what is typed. */
module Duration {
  import opened CArith

  const MinutesPerDay: int := 24 * 60
  const MinutesPerHour: int := 60

  predicate IsDigit(c: char) {
    '0' <= c <= '9'
  }

  function DigitValue(c: char): (v: int)
    requires IsDigit(c)
    ensures 0 <= v <= 9
  {
    c as int - '0' as int
  }

  function DigitChar(v: int): (c: char)
    requires 0 <= v <= 9
    ensures IsDigit(c) && DigitValue(c) == v
  {
    ('0' as int + v) as char
  }

  predicate AllDigits(s: string) {
    forall i | 0 <= i < |s| :: IsDigit(s[i])
  }

  /** The unit letters the parser knows, in either case. */
  predicate IsUnit(c: char) {
    c == 'd' || c == 'D' || c == 'h' || c == 'H' || c == 'm' || c == 'M'
  }

  /** Minutes per unit letter. */
  function UnitWeight(c: char): (w: int)
    requires IsUnit(c)
    ensures w in {MinutesPerDay, MinutesPerHour, 1}
  {
    if c == 'd' || c == 'D' then MinutesPerDay
    else if c == 'h' || c == 'H' then MinutesPerHour
    else 1
  }

  // ---------------------------------------------------------------------------
  // Parsing

  /** The parse loop from the current character on. `total` holds the minutes
      accumulated so far and `num` the digits read since the last unit letter.
      A digit extends `num`; a unit letter adds `num` times its weight and
      clears `num`; any other character is skipped. At the end of the text a
      positive `num` is taken as minutes. */
  function ParseFrom(s: string, total: int, num: int): (n: int)
    requires total >= 0 && num >= 0
    ensures n >= total
    decreases |s|
  {
    if |s| == 0 then (if num > 0 then total + num else total)
    else if IsDigit(s[0]) then ParseFrom(s[1..], total, num * 10 + DigitValue(s[0]))
    else if IsUnit(s[0]) then ParseFrom(s[1..], total + num * UnitWeight(s[0]), 0)
    else ParseFrom(s[1..], total, num)
  }

  /** The duration, in minutes, that the dialogs store for the typed text. */
  function ParseDuration(s: string): (n: int)
    ensures n >= 0
  {
    ParseFrom(s, 0, 0)
  }

  /** The characters the parser acts on: digits and unit letters. */
  function Significant(s: string): (r: string)
    ensures forall i | 0 <= i < |r| :: IsDigit(r[i]) || IsUnit(r[i])
    ensures |r| <= |s|
  {
    if |s| == 0 then []
    else if IsDigit(s[0]) || IsUnit(s[0]) then [s[0]] + Significant(s[1..])
    else Significant(s[1..])
  }

  lemma {:induction false} SignificantParsesTheSame(s: string, total: int, num: int)
    requires total >= 0 && num >= 0
    ensures ParseFrom(s, total, num) == ParseFrom(Significant(s), total, num)
    decreases |s|
  {
    if |s| > 0 {
      var total', num' :=
        if IsDigit(s[0]) then total else if IsUnit(s[0]) then total + num * UnitWeight(s[0]) else total,
        if IsDigit(s[0]) then num * 10 + DigitValue(s[0]) else if IsUnit(s[0]) then 0 else num;
      SignificantParsesTheSame(s[1..], total', num');
      if IsDigit(s[0]) || IsUnit(s[0]) {
        assert Significant(s)[0] == s[0] && Significant(s)[1..] == Significant(s[1..]);
      }
    }
  }

  /** Characters other than digits and unit letters are ignored, wherever they
      stand, even between a number and its unit. */
  lemma OtherCharactersIgnored(s: string)
    ensures ParseDuration(s) == ParseDuration(Significant(s))
  {
    SignificantParsesTheSame(s, 0, 0);
  }

  lemma {:induction false} AppendMinuteUnit(s: string, total: int, num: int)
    requires total >= 0 && num >= 0
    ensures ParseFrom(s + "m", total, num) == ParseFrom(s, total, num)
    decreases |s|
  {
    if |s| == 0 {
      assert s + "m" == "m";
      assert ParseFrom("m", total, num) == ParseFrom("", total + num, 0);
    } else {
      assert (s + "m")[0] == s[0] && (s + "m")[1..] == s[1..] + "m";
      var total', num' :=
        if IsDigit(s[0]) then total else if IsUnit(s[0]) then total + num * UnitWeight(s[0]) else total,
        if IsDigit(s[0]) then num * 10 + DigitValue(s[0]) else if IsUnit(s[0]) then 0 else num;
      AppendMinuteUnit(s[1..], total', num');
    }
  }

  /** Digits left without a unit at the end count as minutes: appending an `m`
      never changes the result. */
  lemma TrailingDigitsAreMinutes(s: string)
    ensures ParseDuration(s + "m") == ParseDuration(s)
  {
    AppendMinuteUnit(s, 0, 0);
  }

  /** The examples from the dialog's prompt. */
  lemma ParseExamples()
    ensures ParseDuration("3d2h30m") == 3 * 1440 + 2 * 60 + 30
    ensures ParseDuration("") == 0
    ensures ParseDuration("4h") == 240
  {
    assert "3d2h30m"[0] == '3' && "3d2h30m"[1..] == "d2h30m";
    assert "d2h30m"[0] == 'd' && "d2h30m"[1..] == "2h30m";
    assert "2h30m"[0] == '2' && "2h30m"[1..] == "h30m";
    assert "h30m"[0] == 'h' && "h30m"[1..] == "30m";
    assert "30m"[0] == '3' && "30m"[1..] == "0m";
    assert "0m"[0] == '0' && "0m"[1..] == "m";
    assert "m"[0] == 'm' && "m"[1..] == "";
    assert "4h"[0] == '4' && "4h"[1..] == "h";
    assert "h"[0] == 'h' && "h"[1..] == "";
    assert ParseFrom("m", 4440, 30) == 4470;
    assert ParseFrom("0m", 4440, 3) == 4470;
    assert ParseFrom("30m", 4440, 0) == 4470;
    assert ParseFrom("h30m", 4320, 2) == 4470;
    assert ParseFrom("2h30m", 4320, 0) == 4470;
    assert ParseFrom("d2h30m", 0, 3) == 4470;
  }

  /** How lenient input is read: a bare number is minutes, and spaces and
      unknown letters are skipped. */
  lemma LenientExamples()
    ensures ParseDuration("30") == 30
    ensures ParseDuration(" 1h ") == 60
    ensures ParseDuration("5x") == 5
  {
    assert "30"[0] == '3' && "30"[1..] == "0";
    assert "0"[0] == '0' && "0"[1..] == "";
    assert " 1h "[0] == ' ' && " 1h "[1..] == "1h ";
    assert "1h "[0] == '1' && "1h "[1..] == "h ";
    assert "h "[0] == 'h' && "h "[1..] == " ";
    assert " "[0] == ' ' && " "[1..] == "";
    assert "5x"[0] == '5' && "5x"[1..] == "x";
    assert "x"[0] == 'x' && "x"[1..] == "";
  }

  // ---------------------------------------------------------------------------
  // Formatting

  /** `%d` of a non-negative number: its decimal digits, most significant first. */
  function NatToString(v: int): (s: string)
    requires v >= 0
    ensures |s| >= 1 && AllDigits(s)
    decreases v
  {
    if v < 10 then [DigitChar(v)] else NatToString(v / 10) + [DigitChar(v % 10)]
  }

  /** The number a run of digits denotes when read after `num`. */
  function DigitsValue(num: int, ds: string): int
    requires AllDigits(ds)
    decreases |ds|
  {
    if |ds| == 0 then num else DigitsValue(num * 10 + DigitValue(ds[0]), ds[1..])
  }

  lemma {:induction false} DigitsValueAppend(num: int, a: string, b: string)
    requires AllDigits(a) && AllDigits(b)
    ensures AllDigits(a + b)
    ensures DigitsValue(num, a + b) == DigitsValue(DigitsValue(num, a), b)
    decreases |a|
  {
    assert AllDigits(a + b) by {
      forall i | 0 <= i < |a + b| ensures IsDigit((a + b)[i]) {
        if i < |a| { assert (a + b)[i] == a[i]; } else { assert (a + b)[i] == b[i - |a|]; }
      }
    }
    if |a| > 0 {
      assert (a + b)[0] == a[0] && (a + b)[1..] == a[1..] + b;
      DigitsValueAppend(num * 10 + DigitValue(a[0]), a[1..], b);
    } else {
      assert a + b == b;
    }
  }

  lemma {:induction false} NatToStringValue(v: int)
    requires v >= 0
    ensures DigitsValue(0, NatToString(v)) == v
    decreases v
  {
    if v >= 10 {
      NatToStringValue(v / 10);
      DigitsValueAppend(0, NatToString(v / 10), [DigitChar(v % 10)]);
    }
  }

  lemma {:induction false} ParseDigits(ds: string, rest: string, total: int, num: int)
    requires AllDigits(ds) && total >= 0 && num >= 0
    ensures DigitsValue(num, ds) >= 0
    ensures ParseFrom(ds + rest, total, num) == ParseFrom(rest, total, DigitsValue(num, ds))
    decreases |ds|
  {
    if |ds| > 0 {
      assert (ds + rest)[0] == ds[0] && (ds + rest)[1..] == ds[1..] + rest;
      ParseDigits(ds[1..], rest, total, num * 10 + DigitValue(ds[0]));
    } else {
      assert ds + rest == rest;
    }
  }

  /** One component of the compact form: the count and its unit letter, or
      nothing when the count is not positive. */
  function Part(v: int, unit: char): string {
    if v > 0 then NatToString(v) + [unit] else ""
  }

  lemma ParsePart(v: int, unit: char, rest: string, total: int)
    requires v >= 0 && IsUnit(unit) && total >= 0
    ensures ParseFrom(Part(v, unit) + rest, total, 0) == ParseFrom(rest, total + v * UnitWeight(unit), 0)
  {
    if v > 0 {
      assert Part(v, unit) + rest == NatToString(v) + ([unit] + rest);
      ParseDigits(NatToString(v), [unit] + rest, total, 0);
      NatToStringValue(v);
    } else {
      assert Part(v, unit) + rest == rest;
    }
  }

  /** `format_duration_compact`: days, hours and minutes, each left out when
      zero, and "0m" for no time at all. The parts are computed with C's
      truncating division, so a negative count leaves every part out. Read back
      by the parser, the text gives the same number of minutes. */
  function FormatDurationCompact(n: int): (s: string)
    ensures n == 0 ==> s == "0m"
    ensures n < 0 ==> s == ""
    ensures n > 0 ==> |s| >= 2 && (forall i | 0 <= i < |s| :: IsDigit(s[i]) || IsUnit(s[i]))
    ensures n >= 0 ==> ParseDuration(s) == n
  {
    if n == 0 then "0m"
    else
      var days := Quot(n, MinutesPerDay);
      var remaining := Rem(n, MinutesPerDay);
      var hours := Quot(remaining, MinutesPerHour);
      var minutes := Rem(remaining, MinutesPerHour);
      var s := Part(days, 'd') + Part(hours, 'h') + Part(minutes, 'm');
      if n > 0 then
        assert days == n / 1440 && remaining == n % 1440;
        assert hours == remaining / 60 && minutes == remaining % 60;
        PartsParseBack(days, hours, minutes);
        s
      else
        assert days <= 0 && remaining <= 0;
        assert hours <= 0 && minutes <= 0;
        s
  }

  /** The three parts, not all zero, are read back as the minutes they stand for. */
  lemma PartsParseBack(days: int, hours: int, minutes: int)
    requires days >= 0 && hours >= 0 && minutes >= 0
    requires days > 0 || hours > 0 || minutes > 0
    ensures var s := Part(days, 'd') + Part(hours, 'h') + Part(minutes, 'm');
      && |s| >= 2 && (forall i | 0 <= i < |s| :: IsDigit(s[i]) || IsUnit(s[i]))
      && ParseDuration(s) == days * 1440 + hours * 60 + minutes
  {
    var s := Part(days, 'd') + Part(hours, 'h') + Part(minutes, 'm');
    assert s == Part(days, 'd') + (Part(hours, 'h') + (Part(minutes, 'm') + ""));
    calc {
      ParseDuration(s);
      ParseFrom(Part(days, 'd') + (Part(hours, 'h') + (Part(minutes, 'm') + "")), 0, 0);
      { ParsePart(days, 'd', Part(hours, 'h') + (Part(minutes, 'm') + ""), 0); }
      ParseFrom(Part(hours, 'h') + (Part(minutes, 'm') + ""), days * 1440, 0);
      { ParsePart(hours, 'h', Part(minutes, 'm') + "", days * 1440); }
      ParseFrom(Part(minutes, 'm') + "", days * 1440 + hours * 60, 0);
      { ParsePart(minutes, 'm', "", days * 1440 + hours * 60); }
      ParseFrom("", days * 1440 + hours * 60 + minutes, 0);
    }
  }

  /** A positive count is written as whole days, then hours below 24, then
      minutes below 60, each part present exactly when it is not zero. */
  lemma FormatComponents(n: int)
    requires n > 0
    ensures exists d, h, m ::
      && d >= 0 && 0 <= h < 24 && 0 <= m < 60 && d * 1440 + h * 60 + m == n
      && FormatDurationCompact(n) == Part(d, 'd') + Part(h, 'h') + Part(m, 'm')
  {
    var d, h, m := n / 1440, n % 1440 / 60, n % 1440 % 60;
    assert d * 1440 + h * 60 + m == n;
    assert FormatDurationCompact(n) == Part(d, 'd') + Part(h, 'h') + Part(m, 'm');
  }
}
