/**
 * `fmtTime`, the clock formatter of the download page script: seconds are
 * split into hours, minutes and seconds with JavaScript's `Math.floor` and
 * `%`, each field is written with `toString().padStart(2, '0')` and the
 * three are joined with `:`. Seconds are modelled as a `real`; NaN,
 * infinities and floating-point rounding are outside the model.
 */
module Clock {
  import opened Results
  import opened Text

  /** JavaScript's `Math.trunc`. */
  function Trunc(x: real): int {
    if x >= 0.0 then x.Floor else -((-x).Floor)
  }

  /** JavaScript's `a % b`: the remainder takes the sign of `a`. */
  function JsRem(a: real, b: real): real
    requires b != 0.0
  {
    a - b * Trunc(a / b) as real
  }

  /** The three fields `[h, m, sec]` that `fmtTime` prints. */
  datatype Fields = Fields(hours: int, minutes: int, seconds: int)

  function ClockFields(s: real): Fields {
    Fields((s / 3600.0).Floor, (JsRem(s, 3600.0) / 60.0).Floor, JsRem(s, 60.0).Floor)
  }

  /** `x.toString().padStart(2, '0')`. */
  function Pad2(x: int): string {
    PadStart(IntToString(x), 2, '0')
  }

  /** `[h, m, sec].map(x => x.toString().padStart(2, '0')).join(':')`. */
  function Show(f: Fields): string {
    JoinWith(ShowParts(f), ':')
  }

  function ShowParts(f: Fields): seq<string> {
    [Pad2(f.hours), Pad2(f.minutes), Pad2(f.seconds)]
  }

  function FmtTime(s: real): string {
    Show(ClockFields(s))
  }

  predicate IsDigitField(s: string) {
    |s| > 0 && AllDigits(s)
  }

  /** Reads `HH:MM:SS` back: three colon-separated runs of digits. */
  function ParseClock(t: string): Option<Fields> {
    var parts := SplitOn(t, ':');
    if |parts| == 3 && IsDigitField(parts[0]) && IsDigitField(parts[1]) && IsDigitField(parts[2]) then
      Some(Fields(ParseNat(parts[0]), ParseNat(parts[1]), ParseNat(parts[2])))
    else None
  }

  // ---------------------------------------------------------------- arithmetic

  /** For `s >= 0` and a positive whole divisor, flooring the quotient is integer division of the floor. */
  lemma FloorOfQuotient(s: real, k: int)
    requires s >= 0.0 && (k == 60 || k == 3600)
    ensures (s / k as real).Floor == s.Floor / k
  {
    var n := s.Floor;
    var q, r := n / k, n % k;
    assert n == q * k + r && 0 <= r < k;
    assert (q * k) as real == q as real * k as real;
    assert q as real * k as real <= s < (q + 1) as real * k as real;
  }

  /** For `s >= 0` JavaScript's remainder is the floored one, and its floor is that of `s` modulo `k`. */
  lemma FloorOfRemainder(s: real, k: int)
    requires s >= 0.0 && (k == 60 || k == 3600)
    ensures JsRem(s, k as real) >= 0.0
    ensures JsRem(s, k as real).Floor == s.Floor % k
    ensures JsRem(s, k as real) - (s.Floor % k) as real == s - s.Floor as real
  {
    FloorOfQuotient(s, k);
    var n := s.Floor;
    var q := n / k;
    assert Trunc(s / k as real) == q;
    assert (q * k) as real == q as real * k as real;
    assert JsRem(s, k as real) == s - (q * k) as real;
  }

  /**
   * For `s >= 0` the fields are the hours, the minutes within the hour and
   * the seconds within the minute of the whole seconds elapsed, and they add
   * back up to them.
   */
  lemma ClockFieldsOfNonNegative(s: real)
    requires s >= 0.0
    ensures var f := ClockFields(s); var n := s.Floor;
      f.hours == n / 3600 && f.minutes == (n % 3600) / 60 && f.seconds == n % 60
      && f.hours >= 0 && 0 <= f.minutes < 60 && 0 <= f.seconds < 60
      && f.hours * 3600 + f.minutes * 60 + f.seconds == n
  {
    var n := s.Floor;
    FloorOfQuotient(s, 3600);
    FloorOfRemainder(s, 3600);
    FloorOfRemainder(s, 60);
    var r := JsRem(s, 3600.0);
    FloorOfQuotient(r, 60);
    assert r.Floor == n % 3600;
    DivModSplit(n);
  }

  /** Whole seconds are hours, minutes within the hour and seconds within the minute. */
  lemma DivModSplit(n: int)
    requires n >= 0
    ensures 0 <= (n % 3600) / 60 < 60
    ensures n / 3600 * 3600 + (n % 3600) / 60 * 60 + n % 60 == n
  {
    var h, r := n / 3600, n % 3600;
    var m, sec := r / 60, r % 60;
    assert n == h * 3600 + r;
    assert r == m * 60 + sec && 0 <= sec < 60;
    assert n == (h * 60 + m) * 60 + sec;
    ModOfSixty(n, h * 60 + m, sec);
  }

  lemma ModOfSixty(n: int, q: int, r: int)
    requires 0 <= r < 60 && n == q * 60 + r
    ensures n % 60 == r
  {
  }

  // ---------------------------------------------------------------- padding

  /** A field below 100 prints as exactly two digits that read back as its value. */
  lemma Pad2OfSmall(x: int)
    requires 0 <= x < 100
    ensures |Pad2(x)| == 2 && AllDigits(Pad2(x)) && ParseNat(Pad2(x)) == x
  {
    var d := NatToString(x);
    ParseNatOfNatToString(x);
    if x >= 10 {
      assert NatToString(x / 10) == [DigitChar(x / 10)];
    } else {
      assert Pad2(x) == "0" + d;
      ParseNatLeadingZero(d);
    }
  }

  /** Any non-negative field prints as at least two digits that read back as its value. */
  lemma Pad2OfNat(x: int)
    requires x >= 0
    ensures |Pad2(x)| >= 2 && AllDigits(Pad2(x)) && ParseNat(Pad2(x)) == x
    ensures Lacks(Pad2(x), ':')
  {
    if x < 100 {
      Pad2OfSmall(x);
    } else {
      ParseNatOfNatToString(x);
    }
    assert forall j :: 0 <= j < |Pad2(x)| ==> IsDigit(Pad2(x)[j]);
  }

  // ---------------------------------------------------------------- reading the clock back

  /** No printed field of non-negative values holds the separator. */
  lemma ShowPartsLackColon(f: Fields)
    requires f.hours >= 0 && f.minutes >= 0 && f.seconds >= 0
    ensures forall i :: 0 <= i < |ShowParts(f)| ==> Lacks(ShowParts(f)[i], ':')
  {
    Pad2OfNat(f.hours);
    Pad2OfNat(f.minutes);
    Pad2OfNat(f.seconds);
    LacksInThree(Pad2(f.hours), Pad2(f.minutes), Pad2(f.seconds), ':');
  }

  lemma LacksInThree(a: string, b: string, c: string, ch: char)
    requires Lacks(a, ch) && Lacks(b, ch) && Lacks(c, ch)
    ensures forall i :: 0 <= i < 3 ==> Lacks([a, b, c][i], ch)
  {
    forall i | 0 <= i < 3
      ensures Lacks([a, b, c][i], ch)
    {
      if i == 0 {
        assert [a, b, c][i] == a;
      } else if i == 1 {
        assert [a, b, c][i] == b;
      } else {
        assert [a, b, c][i] == c;
      }
    }
  }

  /** Non-negative fields print as a clock that reads back as the same fields. */
  lemma ParseClockOfShow(f: Fields)
    requires f.hours >= 0 && f.minutes >= 0 && f.seconds >= 0
    ensures ParseClock(Show(f)) == Some(f)
  {
    ShowPartsLackColon(f);
    SplitOfJoin(ShowParts(f), ':');
    Pad2OfNat(f.hours);
    Pad2OfNat(f.minutes);
    Pad2OfNat(f.seconds);
  }

  /** For `s >= 0` the printed clock reads back as the hours, minutes and seconds of `s`. */
  lemma ParseClockOfFmtTime(s: real)
    requires s >= 0.0
    ensures ParseClock(FmtTime(s)) == Some(ClockFields(s))
  {
    ClockFieldsOfNonNegative(s);
    ParseClockOfShow(ClockFields(s));
  }

  /** For `s >= 0` the clock shows the whole seconds: two times print alike exactly when their floors agree. */
  lemma FmtTimeShowsWholeSeconds(s1: real, s2: real)
    requires s1 >= 0.0 && s2 >= 0.0
    ensures FmtTime(s1) == FmtTime(s2) <==> s1.Floor == s2.Floor
  {
    ClockFieldsOfNonNegative(s1);
    ClockFieldsOfNonNegative(s2);
    if FmtTime(s1) == FmtTime(s2) {
      ParseClockOfFmtTime(s1);
      ParseClockOfFmtTime(s2);
    }
  }

  /** An hour, two minutes and five and a bit seconds. */
  lemma ExampleClock()
    ensures FmtTime(3725.9) == "01:02:05"
  {
    ClockFieldsOfNonNegative(3725.9);
    assert (3725.9).Floor == 3725;
    Pad2OfSmall(1);
    Pad2OfSmall(2);
    Pad2OfSmall(5);
  }

  /**
   * In the last second before zero every field floors to -1, and `padStart`
   * leaves the two-character `-1` as it is.
   */
  lemma NegativeClock(s: real)
    requires -1.0 <= s < 0.0
    ensures ClockFields(s) == Fields(-1, -1, -1)
    ensures FmtTime(s) == "-1:-1:-1"
  {
    assert Trunc(s / 3600.0) == 0 && Trunc(s / 60.0) == 0;
    assert (s / 3600.0).Floor == -1 && (s / 60.0).Floor == -1 && s.Floor == -1;
    assert IntToString(-1) == "-1";
  }

  /** Further below zero the fields part ways: 61 seconds before zero prints `-1:-2:-1`. */
  lemma NegativeMinuteClock()
    ensures ClockFields(-61.0) == Fields(-1, -2, -1)
    ensures FmtTime(-61.0) == "-1:-2:-1"
  {
    assert Trunc(-61.0 / 3600.0) == 0 && Trunc(-61.0 / 60.0) == -1;
    assert IntToString(-1) == "-1" && IntToString(-2) == "-2";
  }
}
