/** The close-duration phrase of a ticket: the time from an issue's creation to
    its closing, rounded to whole hours and written in days and weeks
    (update-issues.go, lines 114-149). Instants and durations are integers of
    nanoseconds; after rounding, every quantity the phrase depends on is a
    whole number of hours. */
module CloseDuration {
  import opened Wrappers
  import opened Decimal

  const NsPerHour: int := 3_600_000_000_000
  const HoursPerDay: int := 24
  const HoursPerWeek: int := 168

  lemma {:induction false} AtLeastDivisor(k: int, b: int)
    requires k >= 1 && b > 0
    ensures k * b >= b
  {
    if k > 1 {
      AtLeastDivisor(k - 1, b);
      assert k * b == (k - 1) * b + b;
    }
  }

  /** A multiple of `b` leaves no remainder. */
  lemma MultipleMod(q: int, b: int)
    requires b > 0
    ensures (q * b) % b == 0
  {
    var x := q * b;
    var d, m := x / b, x % b;
    assert x == d * b + m && 0 <= m < b;
    assert (q - d) * b == m;
    if q - d >= 1 {
      AtLeastDivisor(q - d, b);
    } else if q - d <= -1 {
      assert (d - q) * b == -m;
      AtLeastDivisor(d - q, b);
    }
  }

  /** Go's `%` on integers: truncated division, so the remainder takes the
      sign of `a`, is smaller than `b` in size, and differs from `a` by a
      multiple of `b`. */
  function TruncRem(a: int, b: int): (r: int)
    requires b > 0
    ensures a >= 0 ==> 0 <= r < b
    ensures a < 0 ==> -b < r <= 0
    ensures (a - r) % b == 0
  {
    if a >= 0 then
      var q := a / b;
      assert a - a % b == q * b;
      MultipleMod(q, b);
      a % b
    else
      var q := (-a) / b;
      assert a + (-a) % b == (-q) * b;
      MultipleMod(-q, b);
      -((-a) % b)
  }

  /** `n` is a whole number of hours. */
  lemma WholeHours(n: int)
    ensures (n * NsPerHour) % NsPerHour == 0
  {
  }

  /** `d.Round(time.Hour)`: the multiple of an hour nearest to the duration
      `d`, an exact half hour rounded away from zero. */
  function RoundToHour(d: int): (rounded: int)
    ensures rounded % NsPerHour == 0
    ensures d >= 0 ==> rounded - NsPerHour / 2 <= d < rounded + NsPerHour / 2
    ensures d < 0 ==> rounded - NsPerHour / 2 < d <= rounded + NsPerHour / 2
  {
    var r := TruncRem(d, NsPerHour);
    if d < 0 then
      var r' := -r;
      WholeHours(-((-d) / NsPerHour));
      WholeHours(-((-d) / NsPerHour) - 1);
      if r' + r' < NsPerHour then d + r' else d - NsPerHour + r'
    else
      WholeHours(d / NsPerHour);
      WholeHours(d / NsPerHour + 1);
      if r + r < NsPerHour then d - r else d + NsPerHour - r
  }

  /** `d.Round(time.Hour).Hours()`: the whole number of hours nearest to the
      duration `d`, halves rounded away from zero. */
  function RoundedHours(d: int): (h: int)
    ensures d >= 0 ==> h * NsPerHour - NsPerHour / 2 <= d < h * NsPerHour + NsPerHour / 2
    ensures d < 0 ==> h * NsPerHour - NsPerHour / 2 < d <= h * NsPerHour + NsPerHour / 2
  {
    RoundToHour(d) / NsPerHour
  }

  /** The phrase for an elapsed time of `h` whole hours (lines 117-146), on
      integer hours: `nDays` rounded is `(h + 12) / 24`, the whole weeks are
      `h / 168` and the remainder in days is `(h % 168) / 24`. */
  function HoursPhrase(h: int): (phrase: string)
    ensures ' ' in phrase
  {
    if h < HoursPerDay then "< 1 day"
    else if h < HoursPerWeek then FormatInt((h + HoursPerDay / 2) / HoursPerDay) + " days"
    else
      var weeks := h / HoursPerWeek;
      var rem := h % HoursPerWeek;
      if rem < HoursPerDay then
        (if weeks == 1 then "1 week" else FormatInt(weeks) + " weeks")
      else if rem == HoursPerDay then
        (if weeks == 1 then "1 week 1 day" else FormatInt(weeks) + " weeks 1 day")
      else
        (if weeks == 1 then "1 week " + FormatInt(rem / HoursPerDay) + " days"
         else FormatInt(weeks) + " weeks " + FormatInt(rem / HoursPerDay) + " days")
  }

  /** `TimeToClose` of a ticket: "--" for an issue that is still open,
      otherwise the phrase for the rounded hours between creation and closing. */
  function ClosePhrase(createdAt: int, closedAt: Option<int>): (phrase: string)
    ensures phrase == "--" <==> closedAt.None?
    ensures phrase != ""
  {
    match closedAt
    case None => "--"
    case Some(closed) => ClosedPhrase(createdAt, closed)
  }

  /** The phrase of an issue closed at `closedAt`: the phrase for the rounded
      hours elapsed since `createdAt`. */
  function ClosedPhrase(createdAt: int, closedAt: int): string
  {
    HoursPhrase(RoundedHours(closedAt - createdAt))
  }

  /** `math.Round`: nearest integer, halves away from zero. */
  function RoundHalfAway(x: real): (n: int)
    ensures x - 0.5 <= n as real <= x + 0.5
    ensures n as real == x - 0.5 ==> x < 0.0
    ensures n as real == x + 0.5 ==> x > 0.0
  {
    if x >= 0.0 then (x + 0.5).Floor else -((-x + 0.5).Floor)
  }

  /** Lines 116-146 as written, on exact reals in place of `float64`:
      `nDays` and `nWeeks` are real quotients and the branches compare them
      with 1, round them with `math.Round` and truncate them with `math.Floor`.
      The final `else if nWeeks >= 1` of the source is the negation of the
      test before it, so it is written as a plain `else`. */
  function SourceShapedPhrase(h: int): (phrase: string)
    ensures ' ' in phrase
  {
    var nHours := h as real;
    var nDays := nHours / 24.0;
    var nWeeks := nDays / 7.0;
    if nHours < 24.0 then "< 1 day"
    else if nWeeks < 1.0 then FormatInt(RoundHalfAway(nDays)) + " days"
    else
      var nWeeksRnd := nWeeks.Floor;
      var nRemDays := TruncRem(RoundHalfAway(nHours), 168) as real / 24.0;
      if nRemDays < 1.0 then
        (if nWeeksRnd == 1 then "1 week" else FormatInt(nWeeksRnd) + " weeks")
      else if nRemDays == 1.0 then
        (if nWeeksRnd == 1 then "1 week 1 day" else FormatInt(nWeeksRnd) + " weeks 1 day")
      else
        (if nWeeksRnd == 1 then "1 week " + FormatInt(nRemDays.Floor) + " days"
         else FormatInt(nWeeksRnd) + " weeks " + FormatInt(nRemDays.Floor) + " days")
  }

  lemma FloorOver24(a: int)
    ensures (a as real / 24.0).Floor == a / 24
  {
    var q := a / 24;
    assert q as real <= a as real / 24.0 < q as real + 1.0;
  }

  lemma FloorOver168(a: int)
    ensures (a as real / 168.0).Floor == a / 168
  {
    var q := a / 168;
    assert q as real <= a as real / 168.0 < q as real + 1.0;
  }

  lemma RoundHalfAwayOfInt(n: int)
    ensures RoundHalfAway(n as real) == n
  {
  }

  /** The quantities the source derives in floating point, and their
      integer counterparts, for `h` of at least one day. */
  lemma SourceQuantities(h: int)
    requires h >= 24
    ensures (h as real / 24.0) / 7.0 < 1.0 <==> h < 168
    ensures h < 168 ==> RoundHalfAway(h as real / 24.0) == (h + 12) / 24
    ensures ((h as real / 24.0) / 7.0).Floor == h / 168
    ensures h >= 168 ==> TruncRem(RoundHalfAway(h as real), 168) == h % 168
  {
    assert (h as real / 24.0) / 7.0 == h as real / 168.0;
    FloorOver168(h);
    if h < 168 {
      assert h as real / 24.0 + 0.5 == (h + 12) as real / 24.0;
      FloorOver24(h + 12);
    }
    RoundHalfAwayOfInt(h);
  }

  /** The remainder-in-days comparisons of lines 127 and 133 and the
      truncation of line 141, on the remainder `rem` in hours. */
  lemma RemainderDays(rem: int)
    requires 0 <= rem < 168
    ensures rem as real / 24.0 < 1.0 <==> rem < 24
    ensures rem as real / 24.0 == 1.0 <==> rem == 24
    ensures (rem as real / 24.0).Floor == rem / 24
  {
    FloorOver24(rem);
  }

  lemma SourceShapedAgreesDays(h: int)
    requires 24 <= h < 168
    ensures SourceShapedPhrase(h) == HoursPhrase(h)
  {
    SourceQuantities(h);
    assert SourceShapedPhrase(h) == FormatInt((h + 12) / 24) + " days";
  }

  lemma SourceShapedAgreesWeeks(h: int)
    requires h >= 168
    ensures SourceShapedPhrase(h) == HoursPhrase(h)
  {
    SourceQuantities(h);
    RemainderDays(h % 168);
    var nRemDays := TruncRem(RoundHalfAway(h as real), 168) as real / 24.0;
    assert nRemDays == (h % 168) as real / 24.0;
  }

  /** The integer-hour phrase agrees with the source's real-valued arithmetic
      for every whole number of hours. */
  lemma SourceShapedAgrees(h: int)
    ensures SourceShapedPhrase(h) == HoursPhrase(h)
  {
    if h >= 168 {
      SourceShapedAgreesWeeks(h);
    } else if h >= 24 {
      SourceShapedAgreesDays(h);
    }
  }

  /** A whole number of hours is left unchanged by rounding. */
  lemma RoundedWholeHours(elapsed: int, n: int)
    requires elapsed == n * NsPerHour
    ensures RoundedHours(elapsed) == n
  {
  }

  /** Unfolding steps for the phrase of a closed issue. */
  lemma ClosePhraseOfClosed(createdAt: int, closedAt: int)
    ensures ClosePhrase(createdAt, Some(closedAt)) == ClosedPhrase(createdAt, closedAt)
  {
  }

  lemma ClosedPhraseOfRounded(createdAt: int, closedAt: int, h: int)
    requires RoundedHours(closedAt - createdAt) == h
    ensures ClosedPhrase(createdAt, closedAt) == HoursPhrase(h)
  {
  }

  lemma ClosePhraseOfRounded(createdAt: int, closedAt: int, h: int)
    requires RoundedHours(closedAt - createdAt) == h
    ensures ClosePhrase(createdAt, Some(closedAt)) == HoursPhrase(h)
  {
    ClosePhraseOfClosed(createdAt, closedAt);
    ClosedPhraseOfRounded(createdAt, closedAt, h);
  }

  /** Closing after a whole number of hours gives the phrase of those hours,
      whatever the creation instant. */
  lemma ClosePhraseWholeHours(createdAt: int, closedAt: int, n: int)
    requires closedAt == createdAt + n * NsPerHour
    ensures ClosePhrase(createdAt, Some(closedAt)) == HoursPhrase(n)
  {
    RoundedWholeHours(closedAt - createdAt, n);
    ClosePhraseOfRounded(createdAt, closedAt, n);
  }

  /** An issue still open, and issues closed ten hours and three days after
      they were opened. */
  lemma ClosePhraseExamplesDays()
    ensures ClosePhrase(0, None) == "--"
    ensures ClosePhrase(0, Some(10 * NsPerHour)) == "< 1 day"
    ensures ClosePhrase(0, Some(72 * NsPerHour)) == "3 days"
  {
    ClosePhraseWholeHours(0, 10 * NsPerHour, 10);
    ClosePhraseWholeHours(0, 72 * NsPerHour, 72);
    assert FormatInt(3) == "3";
  }

  /** Issues closed one week and three weeks after they were opened. */
  lemma ClosePhraseExamplesWeeks()
    ensures ClosePhrase(0, Some(168 * NsPerHour)) == "1 week"
    ensures ClosePhrase(0, Some(504 * NsPerHour)) == "3 weeks"
  {
    assert HoursPhrase(168) == "1 week";
    assert FormatInt(3) == "3";
    assert HoursPhrase(504) == FormatInt(3) + " weeks";
    ClosePhraseWholeHours(0, 168 * NsPerHour, 168);
    ClosePhraseWholeHours(0, 504 * NsPerHour, 504);
  }

  /** An issue closed nine days after it was opened. */
  lemma ClosePhraseExampleNineDays()
    ensures ClosePhrase(0, Some(216 * NsPerHour)) == "1 week 2 days"
  {
    assert FormatInt(2) == "2";
    assert HoursPhrase(216) == "1 week " + FormatInt(2) + " days";
    ClosePhraseWholeHours(0, 216 * NsPerHour, 216);
  }

  /** An issue closed 35.5 hours after it was opened: the half hour rounds
      up to 36 hours, which is a day and a half and rounds up to 2 days. */
  lemma ClosePhraseExampleHalfHour()
    ensures ClosePhrase(0, Some(35 * NsPerHour + NsPerHour / 2)) == "2 days"
  {
    assert RoundedHours(35 * NsPerHour + NsPerHour / 2) == 36;
    assert FormatInt(2) == "2";
    assert HoursPhrase(36) == FormatInt(2) + " days";
  }

  /** The day count is written with "days" even when it is 1: every
      duration from 24 to 35 hours reads "1 days". */
  lemma OneDays(h: int)
    requires 24 <= h < 36
    ensures HoursPhrase(h) == "1 days"
  {
    assert (h + 12) / 24 == 1;
    assert FormatInt(1) == "1";
  }

  /** A duration just under a week, 156 to 167 hours, still reads as days:
      "7 days". */
  lemma SevenDays(h: int)
    requires 156 <= h < 168
    ensures HoursPhrase(h) == "7 days"
  {
    assert (h + 12) / 24 == 7;
    assert FormatInt(7) == "7";
  }

  /** The week part of a phrase: "1 week" or "W weeks". */
  function WeeksText(weeks: int): string {
    if weeks == 1 then "1 week" else FormatInt(weeks) + " weeks"
  }

  /** After the weeks, a remainder of exactly 24 hours reads " 1 day". */
  lemma OneDayAfterWeeks(h: int)
    requires h >= 168 && h % 168 == 24
    ensures HoursPhrase(h) == WeeksText(h / 168) + " 1 day"
  {
    if h / 168 != 1 {
      assert FormatInt(h / 168) + " weeks 1 day" == FormatInt(h / 168) + " weeks" + " 1 day";
    }
  }

  /** After the weeks, a remainder of 25 to 47 hours reads " 1 days". */
  lemma OneDaysAfterWeeks(h: int)
    requires h >= 168 && 24 < h % 168 < 48
    ensures HoursPhrase(h) == WeeksText(h / 168) + " 1 days"
  {
    assert h % 168 / 24 == 1;
    assert FormatInt(1) == "1";
    if h / 168 == 1 {
      assert "1 week " + "1" + " days" == "1 week" + " 1 days";
    } else {
      assert FormatInt(h / 168) + " weeks " + "1" + " days" == FormatInt(h / 168) + " weeks" + " 1 days";
    }
  }

  /** After one week, a remainder of exactly one day reads "1 day" but a
      remainder over a day and under two reads "1 days". */
  lemma WeeksQuirks()
    ensures HoursPhrase(192) == "1 week 1 day"
    ensures HoursPhrase(198) == "1 week 1 days"
  {
    assert FormatInt(1) == "1";
    assert HoursPhrase(198) == "1 week " + FormatInt(1) + " days";
  }

  /** The same after two weeks. */
  lemma WeeksQuirksTwoWeeks()
    ensures HoursPhrase(360) == "2 weeks 1 day"
    ensures HoursPhrase(366) == "2 weeks 1 days"
  {
    assert FormatInt(1) == "1" && FormatInt(2) == "2";
    assert HoursPhrase(360) == FormatInt(2) + " weeks 1 day";
    assert HoursPhrase(366) == FormatInt(2) + " weeks " + FormatInt(1) + " days";
  }
}
