/** What a close-duration phrase says about the time it took to close an
    issue. A phrase is read back into a `Reading`, and each reading denotes a
    window of whole hours; the lemmas show that the phrase written for `h`
    hours reads back to the one reading whose window holds `h`. */
module PhraseReading {
  import opened Wrappers
  import opened Decimal
  import opened CloseDuration

  /** Position of the first space in `s`. */
  function IndexOfSpace(s: string): (i: nat)
    requires ' ' in s
    ensures i < |s| && s[i] == ' ' && ' ' !in s[..i]
  {
    if s[0] == ' ' then 0 else 1 + IndexOfSpace(s[1..])
  }

  /** The words of `s`, split at every single space. */
  function Words(s: string): (ws: seq<string>)
    ensures |ws| >= 1
    ensures forall k :: 0 <= k < |ws| ==> ' ' !in ws[k]
    decreases |s|
  {
    if ' ' in s then
      var i := IndexOfSpace(s);
      [s[..i]] + Words(s[i + 1..])
    else [s]
  }

  lemma {:induction false} IndexOfSpaceAfterWord(a: string, b: string)
    requires ' ' !in a
    ensures IndexOfSpace(a + " " + b) == |a|
  {
    if a != [] {
      assert (a + " " + b)[1..] == a[1..] + " " + b;
      assert ' ' !in a[1..] by {
        forall k | 0 <= k < |a[1..]| ensures a[1..][k] != ' ' { assert a[1..][k] == a[k + 1]; }
      }
      IndexOfSpaceAfterWord(a[1..], b);
    }
  }

  lemma WordsAfterWord(a: string, b: string)
    requires ' ' !in a
    ensures Words(a + " " + b) == [a] + Words(b)
  {
    var s := a + " " + b;
    assert s[|a|] == ' ';
    IndexOfSpaceAfterWord(a, b);
    assert s[..|a|] == a;
    assert s[|a| + 1..] == b;
  }

  lemma Words2(a: string, b: string)
    requires ' ' !in a && ' ' !in b
    ensures Words(a + " " + b) == [a, b]
  {
    WordsAfterWord(a, b);
  }

  lemma Words4(a: string, b: string, c: string, d: string)
    requires ' ' !in a && ' ' !in b && ' ' !in c && ' ' !in d
    ensures Words(a + " " + (b + " " + (c + " " + d))) == [a, b, c, d]
  {
    WordsAfterWord(a, b + " " + (c + " " + d));
    WordsAfterWord(b, c + " " + d);
    Words2(c, d);
  }

  /** What a phrase states about the elapsed time. */
  datatype Reading =
    | StillOpen
    | UnderOneDay
    | RoundedDays(days: int)
    | WeeksAndDays(weeks: int, days: int)

  predicate IsWeekWord(w: string) { w == "week" || w == "weeks" }

  predicate IsDayWord(w: string) { w == "day" || w == "days" }

  /** Reads a phrase in any of the forms the report writes, accepting either
      number for the words "week" and "day". */
  function Read(phrase: string): Option<Reading>
  {
    var ws := Words(phrase);
    if ws == ["--"] then Some(StillOpen)
    else if ws == ["<", "1", "day"] then Some(UnderOneDay)
    else if |ws| == 2 && ws[1] == "days" && ParseInt(ws[0]).Some? then
      Some(RoundedDays(ParseInt(ws[0]).value))
    else if |ws| == 2 && IsWeekWord(ws[1]) && ParseInt(ws[0]).Some? then
      Some(WeeksAndDays(ParseInt(ws[0]).value, 0))
    else if |ws| == 4 && IsWeekWord(ws[1]) && IsDayWord(ws[3])
            && ParseInt(ws[0]).Some? && ParseInt(ws[2]).Some? then
      Some(WeeksAndDays(ParseInt(ws[0]).value, ParseInt(ws[2]).value))
    else None
  }

  /** The whole hours a reading stands for; `None` is an issue still open.
      "N days" is the nearest whole number of days, and "W weeks D days" is
      truncated to whole weeks and whole days. */
  predicate Denotes(r: Reading, hours: Option<int>)
  {
    match r
    case StillOpen => hours.None?
    case UnderOneDay => hours.Some? && hours.value < 24
    case RoundedDays(n) =>
      hours.Some? && 24 <= hours.value < 168 && 24 * n - 12 <= hours.value < 24 * n + 12
    case WeeksAndDays(w, d) =>
      hours.Some? && 1 <= w && 0 <= d < 7 && 168 * w + 24 * d <= hours.value < 168 * w + 24 * d + 24
  }

  lemma WordsWeeksAndDays(w: string, weekWord: string, m: string, dayWord: string)
    requires ' ' !in w && ' ' !in m
    requires weekWord in {"week", "weeks"} && dayWord in {"day", "days"}
    ensures Words(w + (" " + weekWord + " ") + m + (" " + dayWord)) == [w, weekWord, m, dayWord]
  {
    var s := w + (" " + weekWord + " ") + m + (" " + dayWord);
    assert s == w + " " + (weekWord + " " + (m + " " + dayWord));
    Words4(w, weekWord, m, dayWord);
  }

  lemma WordsOfUnderADay()
    ensures Words("< 1 day") == ["<", "1", "day"]
  {
    Words2("1", "day");
    assert "1" + " " + "day" == "1 day";
    WordsAfterWord("<", "1 day");
    assert "<" + " " + "1 day" == "< 1 day";
    assert ["<"] + ["1", "day"] == ["<", "1", "day"];
  }

  lemma WordsOfDays(n: int)
    ensures Words(FormatInt(n) + " days") == [FormatInt(n), "days"]
  {
    assert FormatInt(n) + " days" == FormatInt(n) + " " + "days";
    Words2(FormatInt(n), "days");
  }

  lemma WordsOfWeeks(w: int)
    ensures Words(if w == 1 then "1 week" else FormatInt(w) + " weeks")
         == [FormatInt(w), if w == 1 then "week" else "weeks"]
  {
    if w == 1 {
      assert FormatInt(1) == "1";
      assert "1 week" == "1" + " " + "week";
      Words2("1", "week");
    } else {
      assert FormatInt(w) + " weeks" == FormatInt(w) + " " + "weeks";
      Words2(FormatInt(w), "weeks");
    }
  }

  lemma WordsOfWeeksOneDay(w: int)
    ensures Words(if w == 1 then "1 week 1 day" else FormatInt(w) + " weeks 1 day")
         == [FormatInt(w), if w == 1 then "week" else "weeks", "1", "day"]
  {
    if w == 1 {
      assert FormatInt(1) == "1";
      assert "1 week 1 day" == "1" + (" " + "week" + " ") + "1" + (" " + "day");
      WordsWeeksAndDays("1", "week", "1", "day");
    } else {
      assert " weeks 1 day" == (" " + "weeks" + " ") + "1" + (" " + "day");
      assert FormatInt(w) + " weeks 1 day" == FormatInt(w) + (" " + "weeks" + " ") + "1" + (" " + "day");
      WordsWeeksAndDays(FormatInt(w), "weeks", "1", "day");
    }
  }

  lemma WordsOfWeeksDays(w: int, m: int)
    ensures Words(if w == 1 then "1 week " + FormatInt(m) + " days"
                  else FormatInt(w) + " weeks " + FormatInt(m) + " days")
         == [FormatInt(w), if w == 1 then "week" else "weeks", FormatInt(m), "days"]
  {
    if w == 1 {
      assert FormatInt(1) == "1";
      assert "1 week " == "1" + (" " + "week" + " ");
      assert " days" == " " + "days";
      WordsWeeksAndDays("1", "week", FormatInt(m), "days");
    } else {
      assert " weeks " == " " + "weeks" + " ";
      assert " days" == " " + "days";
      WordsWeeksAndDays(FormatInt(w), "weeks", FormatInt(m), "days");
    }
  }

  /** The words of the phrase for `h` hours, branch by branch. */
  lemma PhraseWords(h: int)
    ensures h < 24 ==> Words(HoursPhrase(h)) == ["<", "1", "day"]
    ensures 24 <= h < 168 ==> Words(HoursPhrase(h)) == [FormatInt((h + 12) / 24), "days"]
    ensures h >= 168 && h % 168 < 24 ==>
      Words(HoursPhrase(h)) == [FormatInt(h / 168), if h / 168 == 1 then "week" else "weeks"]
    ensures h >= 168 && h % 168 == 24 ==>
      Words(HoursPhrase(h)) == [FormatInt(h / 168), if h / 168 == 1 then "week" else "weeks", "1", "day"]
    ensures h >= 168 && h % 168 > 24 ==>
      Words(HoursPhrase(h)) ==
        [FormatInt(h / 168), if h / 168 == 1 then "week" else "weeks", FormatInt(h % 168 / 24), "days"]
  {
    var w := h / 168;
    if h < 24 {
      WordsOfUnderADay();
    } else if h < 168 {
      assert HoursPhrase(h) == FormatInt((h + 12) / 24) + " days";
      WordsOfDays((h + 12) / 24);
    } else if h % 168 < 24 {
      assert HoursPhrase(h) == if w == 1 then "1 week" else FormatInt(w) + " weeks";
      WordsOfWeeks(w);
    } else if h % 168 == 24 {
      assert HoursPhrase(h) == if w == 1 then "1 week 1 day" else FormatInt(w) + " weeks 1 day";
      WordsOfWeeksOneDay(w);
    } else {
      var m := h % 168 / 24;
      assert HoursPhrase(h) == if w == 1 then "1 week " + FormatInt(m) + " days"
                               else FormatInt(w) + " weeks " + FormatInt(m) + " days";
      WordsOfWeeksDays(w, m);
    }
  }

  lemma ReadUnderADay(h: int)
    requires h < 24
    ensures Read(HoursPhrase(h)) == Some(UnderOneDay)
  {
    PhraseWords(h);
  }

  lemma ReadDays(h: int)
    requires 24 <= h < 168
    ensures Read(HoursPhrase(h)) == Some(RoundedDays((h + 12) / 24))
  {
    var n := (h + 12) / 24;
    PhraseWords(h);
    FormatIntRoundTrip(n);
    var ws := Words(HoursPhrase(h));
    assert ws == [FormatInt(n), "days"];
    assert ws != ["--"] && ws != ["<", "1", "day"];
  }

  lemma ReadWeeks(h: int)
    requires h >= 168
    ensures Read(HoursPhrase(h)) ==
      Some(WeeksAndDays(h / 168, if h % 168 < 24 then 0 else h % 168 / 24))
  {
    var w, rem := h / 168, h % 168;
    PhraseWords(h);
    FormatIntRoundTrip(w);
    var ws := Words(HoursPhrase(h));
    assert ws[0] == FormatInt(w) && IsWeekWord(ws[1]) && ws[1] != "days";
    assert ws != ["--"] && ws != ["<", "1", "day"];
    if rem >= 24 {
      assert |ws| == 4 && IsDayWord(ws[3]);
      if rem == 24 {
        FormatIntRoundTrip(1);
        assert FormatInt(1) == "1";
      } else {
        FormatIntRoundTrip(rem / 24);
      }
    }
  }

  /** The phrase for `h` hours reads back to a reading whose window holds `h`. */
  lemma ReadHoursPhrase(h: int)
    ensures Read(HoursPhrase(h)).Some?
    ensures Denotes(Read(HoursPhrase(h)).value, Some(h))
  {
    if h < 24 {
      ReadUnderADay(h);
    } else if h < 168 {
      ReadDays(h);
    } else {
      ReadWeeks(h);
    }
  }

  /** The windows of different readings never overlap, so a reading pins the
      elapsed time down to its window and the phrase is never ambiguous. */
  lemma DenotesUnique(r1: Reading, r2: Reading, hours: Option<int>)
    requires Denotes(r1, hours) && Denotes(r2, hours)
    ensures r1 == r2
  {
  }

  /** `TimeToClose` reads back to the reading of the rounded hours between
      creation and closing, and to `StillOpen` exactly for an open issue. */
  lemma ReadClosePhrase(createdAt: int, closedAt: Option<int>)
    ensures Read(ClosePhrase(createdAt, closedAt)).Some?
    ensures Denotes(Read(ClosePhrase(createdAt, closedAt)).value,
                    if closedAt.Some? then Some(RoundedHours(closedAt.value - createdAt)) else None)
  {
    if closedAt.Some? {
      ReadHoursPhrase(RoundedHours(closedAt.value - createdAt));
    } else {
      assert Words("--") == ["--"];
    }
  }

  /** Singular and plural words: "days" after the rounded day count even
      when it is 1, "week" exactly when the whole weeks are 1, no day part
      exactly when under a day remains beyond the weeks, and "day" after the
      remainder exactly when that remainder is 24 hours to the hour. */
  lemma Pluralisation(h: int)
    ensures 24 <= h < 168 ==> Words(HoursPhrase(h))[|Words(HoursPhrase(h))| - 1] == "days"
    ensures h >= 168 ==> |Words(HoursPhrase(h))| >= 2
    ensures h >= 168 ==> (Words(HoursPhrase(h))[1] == "week" <==> h / 168 == 1)
    ensures h >= 168 ==> (|Words(HoursPhrase(h))| == 2 <==> h % 168 < 24)
    ensures h >= 168 && h % 168 >= 24 ==>
      |Words(HoursPhrase(h))| == 4 && (Words(HoursPhrase(h))[3] == "day" <==> h % 168 == 24)
  {
    PhraseWords(h);
    var ws := Words(HoursPhrase(h));
    if h >= 168 {
      var weekWord := if h / 168 == 1 then "week" else "weeks";
      assert ws[1] == weekWord;
      assert weekWord == "week" <==> h / 168 == 1;
      if h % 168 >= 24 {
        assert |ws| == 4;
        assert ws[3] == (if h % 168 == 24 then "day" else "days");
      }
    }
  }
}
