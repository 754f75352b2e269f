/**
 The timestamp normaliser of the Naver crawler (`_parse_datetime`,
 src/crawlers/naver.py:166-194).

 Two regular expressions are tried in order with `re.search`, which finds
 only the LEFTMOST match of a pattern:
   1. `(\d{4})[.-](\d{2})[.-](\d{2})\s*(\d{2}):(\d{2})`
   2. `(\d{4})[.-](\d{2})[.-](\d{2})`
 A match whose numbers `datetime(...)` rejects is skipped (the `ValueError`
 is caught) and the next pattern is tried; if none gives a date the result
 is `None`. Digits are ASCII digits.
 */
module Timestamps {
  import opened Wrappers
  import opened Text
  import opened Models

  predicate IsLeapYear(y: int) {
    y % 4 == 0 && (y % 100 != 0 || y % 400 == 0)
  }

  function DaysInMonth(y: int, m: int): int
    requires 1 <= m <= 12
  {
    if m == 2 then (if IsLeapYear(y) then 29 else 28)
    else if m == 4 || m == 6 || m == 9 || m == 11 then 30
    else 31
  }

  /** The arguments Python's `datetime(year, month, day, hour, minute)`
      accepts without raising `ValueError` (`MINYEAR` is 1, `MAXYEAR` 9999). */
  predicate IsValid(dt: DateTime) {
    && 1 <= dt.year <= 9999
    && 1 <= dt.month <= 12
    && 1 <= dt.day <= DaysInMonth(dt.year, dt.month)
    && 0 <= dt.hour <= 23
    && 0 <= dt.minute <= 59
  }

  function Midnight(dt: DateTime): DateTime {
    dt.(hour := 0, minute := 0)
  }

  /** `n` ASCII digits start at `i`. */
  predicate DigitsAt(s: string, i: nat, n: nat) {
    i + n <= |s| && AllDigits(s[i..i + n])
  }

  /** `[.-]` matches at `i`. */
  predicate SeparatorAt(s: string, i: nat) {
    i < |s| && (s[i] == '-' || s[i] == '.')
  }

  /** Pattern 2, `\d{4}[.-]\d{2}[.-]\d{2}`, matches at `i`. */
  predicate DateAt(s: string, i: nat) {
    && DigitsAt(s, i, 4) && SeparatorAt(s, i + 4)
    && DigitsAt(s, i + 5, 2) && SeparatorAt(s, i + 7)
    && DigitsAt(s, i + 8, 2)
  }

  /** Where the hour starts once the greedy `\s*` after a date at `i` has
      consumed all whitespace. Backtracking into a shorter `\s*` cannot help:
      it would leave a whitespace character where `\d` is required. */
  function HourStart(s: string, i: nat): nat
    requires DateAt(s, i)
  {
    LeadingSpaces(s, i + 10)
  }

  /** Pattern 1, `\d{4}[.-]\d{2}[.-]\d{2}\s*\d{2}:\d{2}`, matches at `i`. */
  predicate DateTimeAt(s: string, i: nat) {
    && DateAt(s, i)
    && var j := HourStart(s, i);
       DigitsAt(s, j, 2) && j + 2 < |s| && s[j + 2] == ':' && DigitsAt(s, j + 3, 2)
  }

  /** `int(group)` for the `n`-digit group at `i`. */
  function Number(s: string, i: nat, n: nat): nat
    requires DigitsAt(s, i, n)
  {
    DigitsValue(s[i..i + n])
  }

  /** The three groups of a date match at `i`, at midnight. */
  function DateGroups(s: string, i: nat): DateTime
    requires DateAt(s, i)
  {
    DateTime(Number(s, i, 4), Number(s, i + 5, 2), Number(s, i + 8, 2), 0, 0)
  }

  /** The five groups of a date-and-time match at `i`. */
  function DateTimeGroups(s: string, i: nat): DateTime
    requires DateTimeAt(s, i)
  {
    var j := HourStart(s, i);
    DateTime(Number(s, i, 4), Number(s, i + 5, 2), Number(s, i + 8, 2), Number(s, j, 2), Number(s, j + 3, 2))
  }

  /** `re.search` for pattern 2 from index `from`: the leftmost match. */
  function SearchDate(s: string, from: nat): (r: Option<nat>)
    ensures r.Some? ==> from <= r.value < |s| && DateAt(s, r.value)
    ensures r.Some? ==> forall j :: from <= j < r.value ==> !DateAt(s, j)
    ensures r.None? ==> forall j :: from <= j < |s| ==> !DateAt(s, j)
    decreases |s| - from
  {
    if from >= |s| then None
    else if DateAt(s, from) then Some(from)
    else SearchDate(s, from + 1)
  }

  /** `re.search` for pattern 1 from index `from`: the leftmost match. */
  function SearchDateTime(s: string, from: nat): (r: Option<nat>)
    ensures r.Some? ==> from <= r.value < |s| && DateTimeAt(s, r.value)
    ensures r.Some? ==> forall j :: from <= j < r.value ==> !DateTimeAt(s, j)
    ensures r.None? ==> forall j :: from <= j < |s| ==> !DateTimeAt(s, j)
    decreases |s| - from
  {
    if from >= |s| then None
    else if DateTimeAt(s, from) then Some(from)
    else SearchDateTime(s, from + 1)
  }

  /** The second pattern alone: the leftmost date, if `datetime` accepts it. */
  function ParseDateOnly(s: string): (r: Option<DateTime>)
    ensures r.Some? ==> IsValid(r.value) && r.value.hour == 0 && r.value.minute == 0
    ensures r.Some? <==> SearchDate(s, 0).Some? && IsValid(DateGroups(s, SearchDate(s, 0).value))
    ensures r.Some? ==> r.value == DateGroups(s, SearchDate(s, 0).value)
  {
    match SearchDate(s, 0)
    case Some(i) => if IsValid(DateGroups(s, i)) then Some(DateGroups(s, i)) else None
    case None => None
  }

  /** `_parse_datetime`. Whatever it returns is a date Python's `datetime`
      accepts; a text in which no date pattern occurs gives `None`; and a
      valid leftmost date-and-time match always wins. */
  function ParseDateTime(s: string): (r: Option<DateTime>)
    ensures r.Some? ==> IsValid(r.value)
    ensures (forall i :: 0 <= i < |s| ==> !DateAt(s, i)) ==> r == None
    ensures SearchDateTime(s, 0).Some? && IsValid(DateTimeGroups(s, SearchDateTime(s, 0).value))
      ==> r == Some(DateTimeGroups(s, SearchDateTime(s, 0).value))
    ensures SearchDateTime(s, 0).None? ==> r == ParseDateOnly(s)
    ensures SearchDateTime(s, 0).Some? && !IsValid(DateTimeGroups(s, SearchDateTime(s, 0).value))
      ==> r == ParseDateOnly(s)
  {
    if s == "" then None
    else
      match SearchDateTime(s, 0)
      case Some(i) =>
        if IsValid(DateTimeGroups(s, i)) then Some(DateTimeGroups(s, i)) else ParseDateOnly(s)
      case None => ParseDateOnly(s)
  }

  // ---------------------------------------------------------------------
  // Rendered timestamps parse back to what was rendered.

  /** Every field fits the pattern's fixed digit count. */
  predicate Renderable(dt: DateTime) {
    && 0 <= dt.year < 10000 && 0 <= dt.month < 100 && 0 <= dt.day < 100
    && 0 <= dt.hour < 100 && 0 <= dt.minute < 100
  }

  predicate IsSeparator(c: char) {
    c == '-' || c == '.'
  }

  predicate AllSpaces(s: string) {
    forall k :: 0 <= k < |s| ==> IsSpace(s[k])
  }

  /** `YYYY<sep1>MM<sep2>DD`. */
  function RenderDate(dt: DateTime, sep1: char, sep2: char): string
    requires Renderable(dt)
  {
    FixedDigits(dt.year, 4) + [sep1] + FixedDigits(dt.month, 2) + [sep2] + FixedDigits(dt.day, 2)
  }

  /** `YYYY<sep1>MM<sep2>DD<gap>HH:MM`. */
  function Render(dt: DateTime, sep1: char, sep2: char, gap: string): string
    requires Renderable(dt)
  {
    RenderDate(dt, sep1, sep2) + gap + FixedDigits(dt.hour, 2) + ":" + FixedDigits(dt.minute, 2)
  }

  /** The date groups of a rendered date, followed by anything, are its fields. */
  lemma RenderedDateMatches(dt: DateTime, sep1: char, sep2: char, rest: string)
    requires Renderable(dt) && IsSeparator(sep1) && IsSeparator(sep2)
    ensures DateAt(RenderDate(dt, sep1, sep2) + rest, 0)
    ensures DateGroups(RenderDate(dt, sep1, sep2) + rest, 0) == Midnight(dt)
  {
    var s := RenderDate(dt, sep1, sep2) + rest;
    var y, m, d := FixedDigits(dt.year, 4), FixedDigits(dt.month, 2), FixedDigits(dt.day, 2);
    assert s == y + [sep1] + m + [sep2] + d + rest;
    assert s[0..4] == y;
    assert s[5..7] == m;
    assert s[8..10] == d;
  }

  /** Pattern 1 matches a rendered date and time at its start, with the
      rendered fields as its groups. */
  lemma RenderedTimeMatches(dt: DateTime, sep1: char, sep2: char, gap: string, rest: string)
    requires Renderable(dt) && IsSeparator(sep1) && IsSeparator(sep2) && AllSpaces(gap)
    ensures DateTimeAt(Render(dt, sep1, sep2, gap) + rest, 0)
    ensures DateTimeGroups(Render(dt, sep1, sep2, gap) + rest, 0) == dt
  {
    var date := RenderDate(dt, sep1, sep2);
    var h, mi := FixedDigits(dt.hour, 2), FixedDigits(dt.minute, 2);
    var tail := gap + h + ":" + mi + rest;
    var s := Render(dt, sep1, sep2, gap) + rest;
    assert s == date + tail;
    RenderedDateMatches(dt, sep1, sep2, tail);
    TimeLayout(date, gap, h, mi, rest);
  }

  /** Where the pieces of a date, gap and time sit in the text. */
  lemma TimeLayout(date: string, gap: string, h: string, mi: string, rest: string)
    requires |date| == 10 && |h| == 2 && |mi| == 2 && AllSpaces(gap) && AllDigits(h) && AllDigits(mi)
    ensures var s := date + gap + h + ":" + mi + rest;
      var j := 10 + |gap|;
      && LeadingSpaces(s, 10) == j
      && s[j..j + 2] == h && s[j + 2] == ':' && s[j + 3..j + 5] == mi
  {
    var s := date + gap + h + ":" + mi + rest;
    var j := 10 + |gap|;
    assert s[10..j] == gap;
    assert s[j..j + 2] == h;
    assert !IsSpace(s[j]) by {
      assert s[j] == h[0];
    }
    assert s[j + 3..j + 5] == mi;
    LeadingSpacesOver(s, 10, j);
  }

  /** A rendered date and time, followed by anything, parses to that moment
      when it is valid, to midnight of its date when only the time is out of
      range, and to `None` when the date itself is out of range (the leftmost
      date match is the only one `re.search` offers). */
  lemma ParseRendered(dt: DateTime, sep1: char, sep2: char, gap: string, rest: string)
    requires Renderable(dt) && IsSeparator(sep1) && IsSeparator(sep2) && AllSpaces(gap)
    ensures IsValid(dt) ==> ParseDateTime(Render(dt, sep1, sep2, gap) + rest) == Some(dt)
    ensures !IsValid(dt) && IsValid(Midnight(dt)) ==>
      ParseDateTime(Render(dt, sep1, sep2, gap) + rest) == Some(Midnight(dt))
    ensures !IsValid(Midnight(dt)) ==> ParseDateTime(Render(dt, sep1, sep2, gap) + rest) == None
  {
    var s := Render(dt, sep1, sep2, gap) + rest;
    RenderedTimeMatches(dt, sep1, sep2, gap, rest);
    assert SearchDateTime(s, 0) == Some(0);
    assert SearchDate(s, 0) == Some(0);
    assert DateGroups(s, 0) == Midnight(dt);
  }

  /** A rendered date with no digit after it parses to midnight of that
      date, or to `None` when the date is out of range. */
  lemma ParseRenderedDate(dt: DateTime, sep1: char, sep2: char, rest: string)
    requires Renderable(dt) && IsSeparator(sep1) && IsSeparator(sep2)
    requires forall k :: 0 <= k < |rest| ==> !IsDigit(rest[k])
    ensures ParseDateTime(RenderDate(dt, sep1, sep2) + rest) ==
      if IsValid(Midnight(dt)) then Some(Midnight(dt)) else None
  {
    var s := RenderDate(dt, sep1, sep2) + rest;
    RenderedDateMatches(dt, sep1, sep2, rest);
    NoTimeAfter(RenderDate(dt, sep1, sep2), rest);
    assert SearchDate(s, 0) == Some(0);
  }

  /** Pattern 1 cannot match a ten-character date followed by no digit:
      its hour would have to start after the date. */
  lemma NoTimeAfter(date: string, rest: string)
    requires |date| == 10
    requires forall k :: 0 <= k < |rest| ==> !IsDigit(rest[k])
    ensures forall i :: 0 <= i < |date + rest| ==> !DateTimeAt(date + rest, i)
  {
    var s := date + rest;
    forall i | 0 <= i < |s| ensures !DateTimeAt(s, i) {
      if DateAt(s, i) {
        var j := HourStart(s, i);
        if j + 2 <= |s| {
          assert s[j..j + 2][0] == s[j] == rest[j - 10];
          assert !AllDigits(s[j..j + 2]);
        }
      }
    }
  }

  /** A rendered date directly followed by something other than whitespace
      or a digit, with no further `-` or `.`, parses to midnight of that date:
      pattern 1 allows only whitespace between date and time, so a time
      written after a `T` (ISO-8601) is lost. */
  lemma ParseDateBeforeLetter(dt: DateTime, sep1: char, sep2: char, rest: string)
    requires Renderable(dt) && IsSeparator(sep1) && IsSeparator(sep2)
    requires rest != [] && !IsDigit(rest[0]) && !IsSpace(rest[0])
    requires forall k :: 0 <= k < |rest| ==> !IsSeparator(rest[k])
    ensures ParseDateTime(RenderDate(dt, sep1, sep2) + rest) ==
      if IsValid(Midnight(dt)) then Some(Midnight(dt)) else None
  {
    var date := RenderDate(dt, sep1, sep2);
    var s := date + rest;
    RenderedDateMatches(dt, sep1, sep2, rest);
    assert s[10] == rest[0];
    assert HourStart(s, 0) == 10;
    forall i | 0 <= i < |s| ensures !DateTimeAt(s, i) {
      if 3 <= i {
        if i + 7 < |s| {
          assert s[i + 7] == rest[i + 7 - 10];
        }
      } else if 1 <= i {
        assert IsDigit(s[i + 4]) by {
          assert s[5..7] == FixedDigits(dt.month, 2);
          assert s[i + 4] == s[5..7][i - 1];
        }
      }
    }
    assert SearchDate(s, 0) == Some(0);
  }

  // ---------------------------------------------------------------------
  // The documented examples. Literal strings are glued from their fields in
  // small steps: the solver handles each step but not all of them at once.

  lemma Year2025() ensures FixedDigits(2025, 4) == "2025" {}
  lemma Two01() ensures FixedDigits(1, 2) == "01" {}
  lemma Two02() ensures FixedDigits(2, 2) == "02" {}
  lemma Two13() ensures FixedDigits(13, 2) == "13" {}
  lemma Two14() ensures FixedDigits(14, 2) == "14" {}
  lemma Two25() ensures FixedDigits(25, 2) == "25" {}
  lemma Two27() ensures FixedDigits(27, 2) == "27" {}
  lemma Two30() ensures FixedDigits(30, 2) == "30" {}

  lemma GlueDateTime(y: string, m: string, d: string, h: string, mi: string, text: string)
    requires y == "2025" && m == "01" && d == "27" && mi == "30"
    requires (h == "14" && text == "2025-01-27 14:30") || (h == "25" && text == "2025-01-27 25:30")
    ensures y + ['-'] + m + ['-'] + d + " " + h + ":" + mi == text
  {
  }

  lemma GlueDate(y: string, m: string, d: string, sep: char, text: string)
    requires y == "2025"
    requires || (m == "01" && d == "27" && sep == '.' && text == "2025.01.27")
             || (m == "13" && d == "27" && sep == '.' && text == "2025.13.27")
             || (m == "02" && d == "30" && sep == '-' && text == "2025-02-30")
             || (m == "01" && d == "27" && sep == '-' && text == "2025-01-27")
    ensures y + [sep] + m + [sep] + d == text
  {
  }

  lemma RenderedDateTimeText(dt: DateTime, text: string)
    requires || (dt == DateTime(2025, 1, 27, 14, 30) && text == "2025-01-27 14:30")
             || (dt == DateTime(2025, 1, 27, 25, 30) && text == "2025-01-27 25:30")
    ensures Render(dt, '-', '-', " ") == text
  {
    Year2025(); Two01(); Two27(); Two30(); Two14(); Two25();
    GlueDateTime(FixedDigits(dt.year, 4), FixedDigits(dt.month, 2), FixedDigits(dt.day, 2),
                 FixedDigits(dt.hour, 2), FixedDigits(dt.minute, 2), text);
  }

  lemma RenderedDateText(dt: DateTime, sep: char, text: string)
    requires || (dt == DateTime(2025, 1, 27, 0, 0) && sep == '.' && text == "2025.01.27")
             || (dt == DateTime(2025, 13, 27, 0, 0) && sep == '.' && text == "2025.13.27")
             || (dt == DateTime(2025, 2, 30, 0, 0) && sep == '-' && text == "2025-02-30")
             || (dt == DateTime(2025, 1, 27, 0, 0) && sep == '-' && text == "2025-01-27")
    ensures RenderDate(dt, sep, sep) == text
  {
    Year2025(); Two01(); Two02(); Two13(); Two27(); Two30();
    GlueDate(FixedDigits(dt.year, 4), FixedDigits(dt.month, 2), FixedDigits(dt.day, 2), sep, text);
  }

  /** "2025-01-27 14:30" gives 2025-01-27 14:30. */
  lemma DateTimeExample(dt: DateTime)
    requires dt == DateTime(2025, 1, 27, 14, 30)
    ensures ParseDateTime("2025-01-27 14:30") == Some(dt)
  {
    var text := "2025-01-27 14:30";
    RenderedDateTimeText(dt, text);
    assert text + "" == text;
    ParseRendered(dt, '-', '-', " ", "");
    assert IsValid(dt) by {
      assert DaysInMonth(2025, 1) == 31;
    }
  }

  /** An hour of 25 does not raise: the text falls back to midnight of its date. */
  lemma InvalidHourExample(dt: DateTime)
    requires dt == DateTime(2025, 1, 27, 25, 30)
    ensures ParseDateTime("2025-01-27 25:30") == Some(Midnight(dt))
  {
    var text := "2025-01-27 25:30";
    RenderedDateTimeText(dt, text);
    assert text + "" == text;
    ParseRendered(dt, '-', '-', " ", "");
    assert !IsValid(dt);
    assert IsValid(Midnight(dt)) by {
      assert DaysInMonth(2025, 1) == 31;
    }
  }

  /** "2025.01.27" gives midnight of 2025-01-27. */
  lemma DateOnlyExample(dt: DateTime)
    requires dt == DateTime(2025, 1, 27, 0, 0)
    ensures ParseDateTime("2025.01.27") == Some(dt)
  {
    var text := "2025.01.27";
    RenderedDateText(dt, '.', text);
    assert text + "" == text;
    ParseRenderedDate(dt, '.', '.', "");
  }

  /** Month 13 gives `None` instead of raising. */
  lemma InvalidMonthExample(dt: DateTime)
    requires dt == DateTime(2025, 13, 27, 0, 0)
    ensures ParseDateTime("2025.13.27") == None
  {
    var text := "2025.13.27";
    RenderedDateText(dt, '.', text);
    assert text + "" == text;
    ParseRenderedDate(dt, '.', '.', "");
  }

  /** February 30th gives `None` instead of raising. */
  lemma InvalidDayExample(dt: DateTime)
    requires dt == DateTime(2025, 2, 30, 0, 0)
    ensures ParseDateTime("2025-02-30") == None
  {
    var text := "2025-02-30";
    RenderedDateText(dt, '-', text);
    assert text + "" == text;
    ParseRenderedDate(dt, '-', '-', "");
    assert !IsValid(Midnight(dt)) by {
      assert DaysInMonth(2025, 2) == 28;
    }
  }

  /** A text without any date, such as "not a date", gives `None`. */
  lemma NoDateExample()
    ensures ParseDateTime("not a date") == None
  {
    var text := "not a date";
    forall i | 0 <= i < |text| ensures !DateAt(text, i) {
      if DigitsAt(text, i, 4) {
        assert IsDigit(text[i..i + 4][0]);
      }
    }
  }

  /** An ISO-8601 timestamp with a `T` between date and time does not match
      the first pattern (only whitespace may separate them), so its time of
      day is lost. */
  lemma IsoTimestampLosesTime(dt: DateTime)
    requires dt == DateTime(2025, 1, 27, 0, 0)
    ensures ParseDateTime("2025-01-27T14:30:00") == Some(dt)
  {
    var date := "2025-01-27";
    var rest := "T14:30:00";
    RenderedDateText(dt, '-', date);
    IsoText(date, rest);
    IsoRest(rest);
    ParseDateBeforeLetter(dt, '-', '-', rest);
    assert IsValid(Midnight(dt)) by {
      assert DaysInMonth(2025, 1) == 31;
    }
  }

  lemma IsoText(date: string, rest: string)
    requires date == "2025-01-27" && rest == "T14:30:00"
    ensures date + rest == "2025-01-27T14:30:00"
  {
  }

  lemma IsoRest(rest: string)
    requires rest == "T14:30:00"
    ensures rest != [] && !IsDigit(rest[0]) && !IsSpace(rest[0])
    ensures forall k :: 0 <= k < |rest| ==> !IsSeparator(rest[k])
  {
  }
}
