/**
 * The duration parser of `ScheduleApp.parseTimeString` and the duration label
 * of `createTodoBox`.
 *
 * The three regular expressions of the parser are modelled as leftmost-start
 * scans. At a fixed start the match is deterministic: `\d+` can only give up
 * digits if the next character (a digit) could start `.`, `\s` or the unit,
 * which it cannot; the optional `\.\d+` is taken whole or not at all for the
 * same reason; and `\s*` can only give up a whitespace character where the
 * unit must follow. So each `...At` function tries the one path that can
 * succeed, and each `...From` function tries the starts left to right.
 *
 * Quantities are exact: a matched numeral `w.f` is the rational
 * value(w f) / 10^|f|, and a duration is a whole number of minutes
 * (the hours the source returns are that number divided by 60).
 */
module Duration {
  import opened Grid
  import opened Text

  /** The text captured by `\d+(?:\.\d+)?`: its integer digits and its fraction digits. */
  datatype Numeral = Numeral(whole: string, fraction: string)

  predicate ValidNumeral(n: Numeral) {
    n.whole != [] && AllDigits(n.whole) && AllDigits(n.fraction)
  }

  /** An exact non-negative rational num / den. */
  datatype Ratio = Ratio(num: nat, den: nat)

  /** `parseFloat` of a captured numeral, exactly. */
  function NumeralValue(n: Numeral): (r: Ratio)
    requires ValidNumeral(n)
    ensures r.den > 0
  {
    assert AllDigits(n.whole + n.fraction) by {
      assert forall i :: 0 <= i < |n.whole + n.fraction| ==>
        (n.whole + n.fraction)[i] == (if i < |n.whole| then n.whole[i] else n.fraction[i - |n.whole|]);
    }
    Ratio(DigitsValue(n.whole + n.fraction), Pow10(|n.fraction|))
  }

  /** The length of the maximal run of ASCII digits starting at `i`. */
  function DigitRun(s: string, i: nat): (r: nat)
    requires i <= |s|
    ensures i + r <= |s|
    ensures forall p {:trigger IsDigit(s[p])} :: i <= p < i + r ==> IsDigit(s[p])
    ensures i + r == |s| || !IsDigit(s[i + r])
    decreases |s| - i
  {
    if i < |s| && IsDigit(s[i]) then 1 + DigitRun(s, i + 1) else 0
  }

  /** The length of the maximal run of `\s` characters starting at `i`. */
  function SpaceRun(s: string, i: nat): (r: nat)
    requires i <= |s|
    ensures i + r <= |s|
    ensures forall p {:trigger IsSpace(s[p])} :: i <= p < i + r ==> IsSpace(s[p])
    ensures i + r == |s| || !IsSpace(s[i + r])
    decreases |s| - i
  {
    if i < |s| && IsSpace(s[i]) then 1 + SpaceRun(s, i + 1) else 0
  }

  /** `\d+(?:\.\d+)?` anchored at `i`: the captured numeral and the end of the match. */
  function NumeralAt(s: string, i: nat): (r: Option<(Numeral, nat)>)
    requires i <= |s|
    ensures r.Some? ==> ValidNumeral(r.value.0) && i < r.value.1 <= |s|
  {
    var a := DigitRun(s, i);
    if a == 0 then None
    else
      var j := i + a;
      if j < |s| && s[j] == '.' && DigitRun(s, j + 1) > 0 then
        var k := j + 1 + DigitRun(s, j + 1);
        Some((Numeral(s[i..j], s[j + 1..k]), k))
      else
        Some((Numeral(s[i..j], ""), j))
  }

  /** `(\d+(?:\.\d+)?)\s*時間` anchored at `i`. */
  function HourAt(s: string, i: nat): (r: Option<Numeral>)
    requires i <= |s|
    ensures r.Some? ==> ValidNumeral(r.value)
  {
    match NumeralAt(s, i)
    case None => None
    case Some((n, j)) =>
      var k := j + SpaceRun(s, j);
      if k + 1 < |s| && s[k] == '時' && s[k + 1] == '間' then Some(n) else None
  }

  /** The leftmost match of `(\d+(?:\.\d+)?)\s*時間` starting at `i` or later. */
  function HourFrom(s: string, i: nat): (r: Option<Numeral>)
    requires i <= |s|
    ensures r.Some? ==> ValidNumeral(r.value)
    decreases |s| - i
  {
    if i == |s| then None
    else if HourAt(s, i).Some? then HourAt(s, i)
    else HourFrom(s, i + 1)
  }

  /** `(\d+)\s*分` anchored at `i`, with `parseInt` of the captured digits. */
  function MinuteAt(s: string, i: nat): Option<nat>
    requires i <= |s|
  {
    var a := DigitRun(s, i);
    if a == 0 then None
    else
      var k := i + a + SpaceRun(s, i + a);
      if k < |s| && s[k] == '分' then Some(DigitsValue(s[i..i + a])) else None
  }

  /** The leftmost match of `(\d+)\s*分` starting at `i` or later. */
  function MinuteFrom(s: string, i: nat): Option<nat>
    requires i <= |s|
    decreases |s| - i
  {
    if i == |s| then None
    else if MinuteAt(s, i).Some? then MinuteAt(s, i)
    else MinuteFrom(s, i + 1)
  }

  /** The leftmost match of `(\d+(?:\.\d+)?)`: it starts at the first digit. */
  function NumberFrom(s: string, i: nat): (r: Option<Numeral>)
    requires i <= |s|
    ensures r.Some? ==> ValidNumeral(r.value)
    decreases |s| - i
  {
    if i == |s| then None
    else if IsDigit(s[i]) then
      match NumeralAt(s, i)
      case Some((n, _)) => Some(n)
      case None => None
    else NumberFrom(s, i + 1)
  }

  /**
   * `totalMinutes` before rounding: the hour match times 60 plus the minute
   * match; only when neither matches, the first bare number times 60.
   */
  function TotalMinutes(s: string): (t: Ratio)
    ensures t.den > 0
  {
    var h := HourFrom(s, 0);
    var m := MinuteFrom(s, 0);
    if h.None? && m.None? then
      match NumberFrom(s, 0)
      case Some(n) => var v := NumeralValue(n); Ratio(60 * v.num, v.den)
      case None => Ratio(0, 1)
    else
      var hours := if h.Some? then NumeralValue(h.value) else Ratio(0, 1);
      var minutes := if m.Some? then m.value else 0;
      Ratio(60 * hours.num + minutes * hours.den, hours.den)
  }

  /**
   * `parseTimeString`: `None` (JavaScript `null`) for the empty string and for
   * a total of zero minutes; otherwise the total rounded to the nearest
   * multiple of 15 minutes, ties going up. Any positive total below 7.5
   * minutes, fractional ones from decimal hours included, rounds to 0,
   * which is returned, not `None`.
   */
  function ParseTimeString(s: string): (r: Option<nat>)
    ensures r.Some? ==> r.value % Step == 0
  {
    if s == [] then None
    else
      var t := TotalMinutes(s);
      if t.num <= 0 then None
      else
        RoundToStepNearest(t.num, t.den);
        Some(RoundToStep(t.num, t.den))
  }

  /**
   * What `parseTimeString` returns: `None` exactly for the empty string and a
   * zero total, otherwise the multiple of 15 nearest to the total (within
   * half a step, ties going up).
   */
  lemma ParseTimeStringSpec(s: string)
    ensures ParseTimeString(s).None? <==> s == [] || TotalMinutes(s).num == 0
    ensures ParseTimeString(s).Some? ==> var t := TotalMinutes(s);
      -Step * t.den < 2 * (ParseTimeString(s).value * t.den - t.num) <= Step * t.den
  {
    var t := TotalMinutes(s);
    RoundToStepNearest(t.num, t.den);
  }

  /** Without an ASCII digit no pattern matches, and the result is `None` (`"abc"`). */
  lemma NoDigitNoDuration(s: string)
    requires forall i :: 0 <= i < |s| ==> !IsDigit(s[i])
    ensures ParseTimeString(s) == None
  {
    NoDigitNoMatch(s, 0);
  }

  lemma {:induction false} NoDigitNoMatch(s: string, i: nat)
    requires i <= |s|
    requires forall p :: i <= p < |s| ==> !IsDigit(s[p])
    ensures HourFrom(s, i) == None && MinuteFrom(s, i) == None && NumberFrom(s, i) == None
    decreases |s| - i
  {
    if i < |s| {
      NoDigitNoMatch(s, i + 1);
    }
  }

  // ---- Scanning facts used by the round-trip lemmas -------------------------

  /** Inside a maximal block of `n` digits starting at `i`, every digit run ends where the block ends. */
  lemma {:induction false} DigitBlock(s: string, i: nat, n: nat, p: nat)
    requires i + n <= |s| && i <= p <= i + n
    requires forall q :: i <= q < i + n ==> IsDigit(s[q])
    requires i + n == |s| || !IsDigit(s[i + n])
    ensures DigitRun(s, p) == i + n - p
    decreases i + n - p
  {
    if p < i + n {
      DigitBlock(s, i, n, p + 1);
    }
  }

  /**
   * No hour and no minute match starts inside a block of digits that is
   * followed by the end of the string or by a character that is neither a
   * digit, a `.`, whitespace nor a unit.
   */
  lemma BlockNoMatch(s: string, i: nat, n: nat, p: nat)
    requires i + n <= |s| && i <= p < i + n
    requires forall q :: i <= q < i + n ==> IsDigit(s[q])
    requires i + n == |s| || (!IsDigit(s[i + n]) && s[i + n] != '.' && !IsSpace(s[i + n])
                               && s[i + n] != '時' && s[i + n] != '分')
    ensures HourAt(s, p) == None && MinuteAt(s, p) == None
  {
    DigitBlock(s, i, n, p);
    if i + n < |s| {
      assert SpaceRun(s, i + n) == 0;
    }
  }

  /** The minute pattern does not start inside a block of digits followed by `時` or `.`. */
  lemma BlockNoMinute(s: string, i: nat, n: nat, p: nat)
    requires i + n < |s| && i <= p < i + n
    requires forall q :: i <= q < i + n ==> IsDigit(s[q])
    requires s[i + n] == '時' || s[i + n] == '.'
    ensures MinuteAt(s, p) == None
  {
    DigitBlock(s, i, n, p);
    assert SpaceRun(s, i + n) == 0;
  }

  /** The hour pattern does not start inside a block of digits followed by `分`. */
  lemma BlockNoHour(s: string, i: nat, n: nat, p: nat)
    requires i + n < |s| && i <= p < i + n
    requires forall q :: i <= q < i + n ==> IsDigit(s[q])
    requires s[i + n] == '分'
    ensures HourAt(s, p) == None
  {
    DigitBlock(s, i, n, p);
    assert SpaceRun(s, i + n) == 0;
  }

  /** Starts at which neither pattern matches can be skipped. */
  lemma {:induction false} SkipHours(s: string, i: nat, j: nat)
    requires i <= j <= |s|
    requires forall p :: i <= p < j ==> HourAt(s, p) == None
    ensures HourFrom(s, i) == HourFrom(s, j)
    decreases j - i
  {
    if i < j {
      SkipHours(s, i + 1, j);
    }
  }

  lemma {:induction false} SkipMinutes(s: string, i: nat, j: nat)
    requires i <= j <= |s|
    requires forall p :: i <= p < j ==> MinuteAt(s, p) == None
    ensures MinuteFrom(s, i) == MinuteFrom(s, j)
    decreases j - i
  {
    if i < j {
      SkipMinutes(s, i + 1, j);
    }
  }

  lemma DigitsValueEmptyFraction(d: string)
    requires AllDigits(d)
    ensures AllDigits(d + "") && DigitsValue(d + "") == DigitsValue(d)
  {
    assert d + "" == d;
  }

  // ---- The accepted token shapes -------------------------------------------

  /** How the matches combine into the total (the four cases of `TotalMinutes`). */
  lemma TotalOfMatches(s: string, h: Option<Numeral>, m: Option<nat>)
    requires HourFrom(s, 0) == h && MinuteFrom(s, 0) == m && (h.Some? || m.Some?)
    ensures h.Some? && m.Some? ==> var v := NumeralValue(h.value);
      TotalMinutes(s) == Ratio(60 * v.num + m.value * v.den, v.den)
    ensures h.Some? && m.None? ==> var v := NumeralValue(h.value);
      TotalMinutes(s) == Ratio(60 * v.num, v.den)
    ensures h.None? && m.Some? ==> TotalMinutes(s) == Ratio(m.value, 1)
  {
  }

  /** A whole-hour match and a minute match add up to a whole number of minutes. */
  lemma TotalOfWholeHoursAndMinutes(s: string, d: string, minutes: nat)
    requires d != [] && AllDigits(d)
    requires HourFrom(s, 0) == Some(Numeral(d, "")) && MinuteFrom(s, 0) == Some(minutes)
    ensures TotalMinutes(s) == Ratio(60 * DigitsValue(d) + minutes, 1)
  {
    DigitsValueEmptyFraction(d);
    TotalOfMatches(s, Some(Numeral(d, "")), Some(minutes));
  }

  /** A block of digits directly followed by `時間` is an hour match. */
  lemma HourAtBlock(s: string, i: nat, n: nat)
    requires 0 < n && i + n + 1 < |s|
    requires forall q :: i <= q < i + n ==> IsDigit(s[q])
    requires s[i + n] == '時' && s[i + n + 1] == '間'
    ensures HourAt(s, i) == Some(Numeral(s[i..i + n], ""))
  {
    DigitBlock(s, i, n, i);
    assert SpaceRun(s, i + n) == 0;
  }

  /** A block of digits directly followed by `分` is a minute match. */
  lemma MinuteAtBlock(s: string, i: nat, n: nat)
    requires 0 < n && i + n < |s|
    requires forall q :: i <= q < i + n ==> IsDigit(s[q])
    requires s[i + n] == '分'
    ensures AllDigits(s[i..i + n])
    ensures MinuteAt(s, i) == Some(DigitsValue(s[i..i + n]))
  {
    DigitBlock(s, i, n, i);
    assert SpaceRun(s, i + n) == 0;
  }

  /** Two digit blocks joined by `.` form one numeral with a fraction. */
  lemma NumeralAtFraction(s: string, i: nat, n: nat, m: nat)
    requires 0 < n && 0 < m && i + n + 1 + m <= |s|
    requires forall q :: i <= q < i + n ==> IsDigit(s[q])
    requires s[i + n] == '.'
    requires forall q :: i + n + 1 <= q < i + n + 1 + m ==> IsDigit(s[q])
    requires i + n + 1 + m == |s| || !IsDigit(s[i + n + 1 + m])
    ensures NumeralAt(s, i) == Some((Numeral(s[i..i + n], s[i + n + 1..i + n + 1 + m]), i + n + 1 + m))
  {
    DigitBlock(s, i, n, i);
    DigitBlock(s, i + n + 1, m, i + n + 1);
  }

  /** The hour match in a string laid out as `{digits}時間{digits}分`. */
  lemma HoursAndMinutesHour(s: string, n: nat, m: nat)
    requires 0 < n && 0 < m && |s| == n + m + 3
    requires forall q :: 0 <= q < n ==> IsDigit(s[q])
    requires s[n] == '時' && s[n + 1] == '間' && s[n + 2 + m] == '分'
    ensures HourFrom(s, 0) == Some(Numeral(s[..n], ""))
  {
    HourAtBlock(s, 0, n);
  }

  /** No minute match starts before the minute digits of `{digits}時間{digits}分`. */
  lemma HoursAndMinutesSkip(s: string, n: nat, m: nat)
    requires 0 < n && 0 < m && |s| == n + m + 3
    requires forall q :: 0 <= q < n ==> IsDigit(s[q])
    requires s[n] == '時' && s[n + 1] == '間'
    ensures MinuteFrom(s, 0) == MinuteFrom(s, n + 2)
  {
    forall p | 0 <= p < n + 2 ensures MinuteAt(s, p) == None {
      if p < n { BlockNoMinute(s, 0, n, p); }
    }
    SkipMinutes(s, 0, n + 2);
  }

  /** The minute match in a string laid out as `{digits}時間{digits}分`. */
  lemma HoursAndMinutesMinute(s: string, n: nat, m: nat)
    requires 0 < n && 0 < m && |s| == n + m + 3
    requires forall q :: 0 <= q < n ==> IsDigit(s[q])
    requires s[n] == '時' && s[n + 1] == '間' && s[n + 2 + m] == '分'
    requires forall q :: n + 2 <= q < n + 2 + m ==> IsDigit(s[q])
    ensures AllDigits(s[n + 2..n + 2 + m])
    ensures MinuteFrom(s, 0) == Some(DigitsValue(s[n + 2..n + 2 + m]))
  {
    HoursAndMinutesSkip(s, n, m);
    MinuteAtBlock(s, n + 2, m);
    MinuteFromMatch(s, n + 2);
  }

  /** A scan that starts at a minute match returns it. */
  lemma MinuteFromMatch(s: string, i: nat)
    requires i < |s| && MinuteAt(s, i).Some?
    ensures MinuteFrom(s, i) == MinuteAt(s, i)
  {
  }

  /** `{D}時間{E}分` reads as D hours plus E minutes (`"1時間30分"`). */
  lemma HoursAndMinutes(d: string, e: string)
    requires d != [] && AllDigits(d) && e != [] && AllDigits(e)
    ensures TotalMinutes(d + "時間" + e + "分") == Ratio(60 * DigitsValue(d) + DigitsValue(e), 1)
  {
    var s := d + "時間" + e + "分";
    var n, m := |d|, |e|;
    assert s[..n] == d;
    assert s[n + 2..n + 2 + m] == e;
    HoursAndMinutesHour(s, n, m);
    HoursAndMinutesMinute(s, n, m);
    TotalOfWholeHoursAndMinutes(s, d, DigitsValue(e));
  }

  /** `{D}時間` reads as D hours (`"2時間"`). */
  lemma {:induction false} HoursOnly(d: string)
    requires d != [] && AllDigits(d)
    ensures TotalMinutes(d + "時間") == Ratio(60 * DigitsValue(d), 1)
  {
    var s := d + "時間";
    var n := |d|;
    assert s[n] == '時' && s[n + 1] == '間';
    assert forall q :: 0 <= q < n ==> s[q] == d[q];
    assert s[0..n] == d;
    DigitBlock(s, 0, n, 0);
    assert SpaceRun(s, n) == 0;
    assert HourAt(s, 0) == Some(Numeral(d, ""));
    forall p | 0 <= p < |s| ensures MinuteAt(s, p) == None {
      if p < n { BlockNoMinute(s, 0, n, p); }
    }
    SkipMinutes(s, 0, |s|);
    DigitsValueEmptyFraction(d);
  }

  /** `{E}分` reads as E minutes (`"90分"`). */
  lemma {:induction false} MinutesOnly(e: string)
    requires e != [] && AllDigits(e)
    ensures TotalMinutes(e + "分") == Ratio(DigitsValue(e), 1)
  {
    var s := e + "分";
    var m := |e|;
    assert s[m] == '分';
    assert forall q :: 0 <= q < m ==> s[q] == e[q];
    assert s[0..m] == e;
    forall p | 0 <= p < |s| ensures HourAt(s, p) == None {
      if p < m { BlockNoHour(s, 0, m, p); }
    }
    SkipHours(s, 0, |s|);
    DigitBlock(s, 0, m, 0);
    assert SpaceRun(s, m) == 0;
    assert MinuteAt(s, 0) == Some(DigitsValue(e));
  }

  /** A bare number `{D}` reads as D hours (`"2"`). */
  lemma {:induction false} BareNumber(d: string)
    requires d != [] && AllDigits(d)
    ensures TotalMinutes(d) == Ratio(60 * DigitsValue(d), 1)
  {
    var n := |d|;
    forall p | 0 <= p < n ensures HourAt(d, p) == None && MinuteAt(d, p) == None {
      BlockNoMatch(d, 0, n, p);
    }
    SkipHours(d, 0, n);
    SkipMinutes(d, 0, n);
    DigitBlock(d, 0, n, 0);
    assert d[0..n] == d;
    assert NumeralAt(d, 0) == Some((Numeral(d, ""), n));
    DigitsValueEmptyFraction(d);
  }

  /** The hour match in a string laid out as `{digits}.{digits}時間`. */
  lemma DecimalHoursLayout(s: string, n: nat, m: nat)
    requires 0 < n && 0 < m && |s| == n + m + 3
    requires forall q :: 0 <= q < n ==> IsDigit(s[q])
    requires s[n] == '.' && s[n + 1 + m] == '時' && s[n + 2 + m] == '間'
    requires forall q :: n + 1 <= q < n + 1 + m ==> IsDigit(s[q])
    ensures HourFrom(s, 0) == Some(Numeral(s[..n], s[n + 1..n + 1 + m]))
  {
    NumeralAtFraction(s, 0, n, m);
    assert SpaceRun(s, n + 1 + m) == 0;
    assert HourFrom(s, 0) == HourAt(s, 0);
  }

  lemma DecimalNoMinute(s: string, n: nat, m: nat)
    requires 0 < n && 0 < m && |s| == n + m + 3
    requires forall q :: 0 <= q < n ==> IsDigit(s[q])
    requires s[n] == '.' && s[n + 1 + m] == '時' && s[n + 2 + m] == '間'
    requires forall q :: n + 1 <= q < n + 1 + m ==> IsDigit(s[q])
    ensures MinuteFrom(s, 0) == None
  {
    forall p | 0 <= p < |s| ensures MinuteAt(s, p) == None {
      if p < n { BlockNoMinute(s, 0, n, p); }
      else if n < p < n + 1 + m { BlockNoMinute(s, n + 1, m, p); }
    }
    SkipMinutes(s, 0, |s|);
  }

  /** `{D}.{F}時間` reads as the decimal D.F hours (`"1.5時間"`). */
  lemma DecimalHours(d: string, f: string)
    requires d != [] && AllDigits(d) && f != [] && AllDigits(f)
    ensures var v := NumeralValue(Numeral(d, f));
      TotalMinutes(d + "." + f + "時間") == Ratio(60 * v.num, v.den)
  {
    var s := d + "." + f + "時間";
    var n, m := |d|, |f|;
    assert s[..n] == d;
    assert s[n + 1..n + 1 + m] == f;
    DecimalHoursLayout(s, n, m);
    DecimalNoMinute(s, n, m);
    TotalOfMatches(s, Some(Numeral(d, f)), None);
  }

  // ---- The examples the parser is designed for -----------------------------

  /** A non-empty string with a positive total reads as that total rounded to the step. */
  lemma ParseOfTotal(s: string, num: nat, den: nat)
    requires s != [] && TotalMinutes(s) == Ratio(num, den) && num > 0
    ensures ParseTimeString(s) == Some(RoundToStep(num, den))
  {
  }

  /** The roundings of the examples: 90/1 and 900/10 minutes are already on the grid. */
  lemma ExampleRoundings()
    ensures RoundToStep(90, 1) == 90 && RoundToStep(900, 10) == 90
  {
  }

  lemma TotalHoursAndMinutes(s: string)
    requires s == "1時間30分"
    ensures TotalMinutes(s) == Ratio(90, 1)
  {
    assert s == "1" + "時間" + "30" + "分";
    assert DigitsValue("30") == 30 by { assert "30"[..1] == "3"; }
    HoursAndMinutes("1", "30");
  }

  lemma ExampleHoursAndMinutes(s: string)
    requires s == "1時間30分"
    ensures ParseTimeString(s) == Some(90)
  {
    TotalHoursAndMinutes(s);
    ParseOfTotal(s, 90, 1);
    ExampleRoundings();
  }

  lemma ExampleMinutes(s: string)
    requires s == "90分"
    ensures ParseTimeString(s) == Some(90)
  {
    assert s == "90" + "分";
    assert DigitsValue("90") == 90 by { assert "90"[..1] == "9"; }
    MinutesOnly("90");
  }

  lemma TotalDecimalHours(s: string)
    requires s == "1.5時間"
    ensures TotalMinutes(s) == Ratio(900, 10)
  {
    assert s == "1" + "." + "5" + "時間";
    DecimalHours("1", "5");
    assert NumeralValue(Numeral("1", "5")) == Ratio(15, 10) by {
      assert "1" + "5" == "15";
      assert DigitsValue("15") == 15 by { assert "15"[..1] == "1"; }
      assert Pow10(1) == 10;
    }
  }

  lemma ExampleDecimalHours(s: string)
    requires s == "1.5時間"
    ensures ParseTimeString(s) == Some(90)
  {
    TotalDecimalHours(s);
    ParseOfTotal(s, 900, 10);
    ExampleRoundings();
  }

  lemma ExampleBareNumber(s: string)
    requires s == "2"
    ensures ParseTimeString(s) == Some(120)
  {
    BareNumber(s);
  }

  /** `"abc"` gives `None`. */
  lemma ExampleNoDigits(a: string)
    requires a == "abc"
    ensures ParseTimeString(a) == None
  {
    NoDigitNoDuration(a);
  }

  /** `"0分"` gives `None`. */
  lemma ExampleZeroMinutes(z: string)
    requires z == "0分"
    ensures ParseTimeString(z) == None
  {
    assert z == "0" + "分";
    MinutesOnly("0");
  }

  /** `"5分"` rounds to 0 minutes, which is returned, not `None`. */
  lemma ExampleRoundsToZero(f: string)
    requires f == "5分"
    ensures ParseTimeString(f) == Some(0)
  {
    assert f == "5" + "分";
    MinutesOnly("5");
  }

  // ---- The duration label --------------------------------------------------

  /**
   * A duration in minutes written as whole hours and remaining minutes with
   * the given unit words, leaving out a zero part: `{h}{hu}{m}{mu}`,
   * `{h}{hu}` or `{m}{mu}`. The hour part is floor(d / 60) and the minute
   * part round(d - 60 * floor(d / 60)), which for whole minutes is d % 60.
   */
  function Compose(d: int, hourUnit: string, minuteUnit: string): string
  {
    var h := d / MinutesPerHour;
    var m := d % MinutesPerHour;
    if h > 0 && m > 0 then NatStr(h) + hourUnit + NatStr(m) + minuteUnit
    else if h > 0 then NatStr(h) + hourUnit
    else NatStr(m) + minuteUnit
  }

  /** The label of a task box: `{h}h{m}m`, `{h}h` or `{m}m`. */
  function DurationLabel(d: int): string
  {
    Compose(d, "h", "m")
  }

  /** The same split written with the memo's own unit words `時間` and `分`. */
  function MemoToken(d: int): string
  {
    Compose(d, "時間", "分")
  }

  /** The label ends in `h` exactly when the duration is a positive whole number of hours, and in `m` otherwise. */
  lemma LabelUnits(d: int)
    ensures |DurationLabel(d)| >= 2
    ensures var l := DurationLabel(d);
      (l[|l| - 1] == 'h' <==> d >= 60 && d % 60 == 0)
      && (l[|l| - 1] == 'm' <==> !(d >= 60 && d % 60 == 0))
  {
  }

  /**
   * The label's hour/minute split loses nothing: for every duration the
   * parser can produce, writing that split with the memo's unit words and
   * parsing it back gives the same duration.
   */
  lemma TokenRoundTrip(d: nat)
    requires d > 0 && d % Step == 0
    ensures ParseTimeString(MemoToken(d)) == Some(d)
  {
    var h := d / MinutesPerHour;
    var m := d % MinutesPerHour;
    var t := MemoToken(d);
    if h > 0 && m > 0 {
      HoursAndMinutes(NatStr(h), NatStr(m));
    } else if h > 0 {
      HoursOnly(NatStr(h));
    } else {
      MinutesOnly(NatStr(m));
    }
    assert TotalMinutes(t) == Ratio(d, 1);
    SnapOfMultiple(d);
  }
}
