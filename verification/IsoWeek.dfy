/** The ISO week arithmetic of the time formatter, against the calendar. */
module IsoWeek {
  import opened Powers

  // ----- The source: truncating division, Sunday is day 0 of the week -----

  function TruncDiv(a: int, b: int): int
    requires 0 < b
  {
    if a >= 0 then a / b else -(-a / b)
  }

  function TruncMod(a: int, b: int): int
    requires 0 < b
  {
    a - TruncDiv(a, b) * b
  }

  function YearSum(year: int): int
  {
    year + TruncDiv(year, 4) - TruncDiv(year, 100) + TruncDiv(year, 400)
  }

  function IsoYearWeeks(year: int): int
  {
    52 + if TruncMod(YearSum(year), 7) == 4 || TruncMod(YearSum(year - 1), 7) == 3 then 1 else 0
  }

  function IsoWeekNum(yday: int, wday: int): int
  {
    TruncDiv(yday + 11 - (if wday == 0 then 7 else wday), 7)
  }

  function TmIsoWeekYear(year: int, yday: int, wday: int): int
  {
    var w := IsoWeekNum(yday, wday);
    if w < 1 then year - 1 else if w > IsoYearWeeks(year) then year + 1 else year
  }

  function TmIsoWeekOfYear(year: int, yday: int, wday: int): int
  {
    var w := IsoWeekNum(yday, wday);
    if w < 1 then IsoYearWeeks(year - 1) else if w > IsoYearWeeks(year) then 1 else w
  }

  // ----- The calendar: days counted from Monday, 1 January of year 1 -----

  predicate IsLeap(year: int) { year % 4 == 0 && (year % 100 != 0 || year % 400 == 0) }

  function YearLength(year: int): int { if IsLeap(year) then 366 else 365 }

  function FirstDay(year: int): int
  {
    365 * (year - 1) + (year - 1) / 4 - (year - 1) / 100 + (year - 1) / 400
  }

  /** The closed form above is the running sum of the year lengths. */
  lemma FirstDaySums(year: int)
    ensures FirstDay(1) == 0 && FirstDay(year + 1) == FirstDay(year) + YearLength(year)
  {
    var y := year - 1;
    QuotientStep(y, 4);
    QuotientStep(y, 100);
    QuotientStep(y, 400);
    MultipleOf(year, 4, 25);
    MultipleOf(year, 100, 4);
  }

  lemma MultipleOf(y: int, d: int, k: int)
    requires 0 < d && 0 < k
    ensures 0 < d * k && (y % (d * k) == 0 ==> y % d == 0)
  {
    if y % (d * k) == 0 {
      assert y == d * k * (y / (d * k));
      assert y == (k * (y / (d * k))) * d;
      DivModUnique(y, d, k * (y / (d * k)), 0);
    }
  }

  lemma QuotientStep(y: int, d: int)
    requires 0 < d
    ensures (y + 1) / d == y / d + if (y + 1) % d == 0 then 1 else 0
  {
    assert y == d * (y / d) + y % d;
    if y % d == d - 1 {
      assert (y / d + 1) * d == d * (y / d) + d;
      DivModUnique(y + 1, d, y / d + 1, 0);
    } else {
      DivModUnique(y + 1, d, y / d, y % d + 1);
    }
  }

  /** A consistent broken-down date: day of the year in range, weekday right. */
  ghost predicate IsDate(year: int, yday: int, wday: int)
  {
    0 <= yday < YearLength(year) && wday == (FirstDay(year) + yday + 1) % 7
  }

  function Thursday(day: int): int { day - day % 7 + 3 }

  /** The week of a day is numbered by its Thursday: the year it falls in, and which Thursday it is there. */
  ghost predicate IsIsoWeek(day: int, isoYear: int, week: int)
  {
    var t := Thursday(day) - FirstDay(isoYear);
    0 <= t < YearLength(isoYear) && week == t / 7 + 1
  }

  lemma {:induction false} YearsAscend(a: int, b: int)
    requires a < b
    ensures FirstDay(a) + YearLength(a) <= FirstDay(b)
    decreases b - a
  {
    hide FirstDay;
    FirstDaySums(a);
    if a + 1 < b {
      YearsAscend(a + 1, b);
    }
  }

  lemma IsoWeekUnique(day: int, y1: int, w1: int, y2: int, w2: int)
    requires IsIsoWeek(day, y1, w1) && IsIsoWeek(day, y2, w2)
    ensures y1 == y2 && w1 == w2
  {
    if y1 < y2 {
      YearsAscend(y1, y2);
    } else if y2 < y1 {
      YearsAscend(y2, y1);
    }
  }

  // ----- Weeks in a year -----

  /** The number of Thursdays of the year. */
  function Thursdays(year: int): int
  {
    if FirstDay(year) % 7 == 3 || (FirstDay(year + 1) - 1) % 7 == 3 then 53 else 52
  }

  /** A week number occurs in a year exactly up to the number of its Thursdays. */
  lemma LastWeek(year: int, t: int)
    requires 0 <= t < YearLength(year) && (FirstDay(year) + t) % 7 == 3
    ensures 1 <= t / 7 + 1 <= Thursdays(year)
    ensures t + 7 >= YearLength(year) ==> t / 7 + 1 == Thursdays(year)
  {
    hide FirstDay, IsLeap;
    FirstDaySums(year);
    LastThursday(FirstDay(year), YearLength(year), t);
  }

  /** The Thursdays of a stretch of days that starts on day f of the count. */
  lemma LastThursday(f: int, length: int, t: int)
    requires length == 365 || length == 366
    requires 0 <= t < length && (f + t) % 7 == 3
    ensures var n := if f % 7 == 3 || (f + length - 1) % 7 == 3 then 53 else 52;
      1 <= t / 7 + 1 <= n && (t + 7 >= length ==> t / 7 + 1 == n)
  {
    var week, r := t / 7, t % 7;
    assert t == 7 * week + r;
    assert f % 7 == (3 - r) % 7 by {
      DivModUnique(f, 7, (f + t) / 7 - week + (3 - r) / 7, (3 - r) % 7);
    }
    assert week <= 52;
  }

  lemma YearSumIsDays(year: int)
    requires 0 <= year
    ensures FirstDay(year + 1) == YearSum(year) + 364 * year && 0 <= YearSum(year)
  {
  }

  lemma YearSumNegative(year: int)
    requires year < 0
    ensures YearSum(year) <= 0
  {
  }

  lemma TruncModSigns(a: int)
    ensures 0 <= a ==> TruncMod(a, 7) == a % 7
    ensures a <= 0 ==> TruncMod(a, 7) <= 0
  {
  }

  /** The formula counts Thursdays from year 0 on; before, its remainders have the wrong sign. */
  lemma WeeksAreThursdays(year: int)
    ensures 0 <= year ==> IsoYearWeeks(year) == Thursdays(year)
    ensures year < 0 ==> IsoYearWeeks(year) == 52
  {
    hide FirstDay, YearSum, TruncMod;
    TruncModSigns(YearSum(year));
    TruncModSigns(YearSum(year - 1));
    if year < 0 {
      YearSumNegative(year);
      YearSumNegative(year - 1);
    } else {
      YearSumIsDays(year);
      DayShift(year, YearSum(year));
      if year == 0 {
        YearZero();
      } else {
        YearSumIsDays(year - 1);
        DayShift(year - 1, YearSum(year - 1));
      }
    }
  }

  lemma DayShift(year: int, s: int)
    ensures (s + 364 * year) % 7 == s % 7
    ensures (s + 364 * year - 1) % 7 == 3 <==> s % 7 == 4
  {
    DivModUnique(s + 364 * year, 7, s / 7 + 52 * year, s % 7);
    DayBefore(s + 364 * year);
  }

  lemma DayBefore(m: int)
    ensures (m - 1) % 7 == 3 <==> m % 7 == 4
  {
  }

  lemma YearZero()
    ensures FirstDay(0) % 7 == 5 && YearSum(-1) == -1
  {
  }

  // ----- The main results -----

  /** The Thursday of the week of a date, counted from 1 January, is what iso_week_num divides. */
  lemma WeekNumIs(year: int, yday: int, wday: int)
    requires IsDate(year, yday, wday)
    ensures var t := Thursday(FirstDay(year) + yday) - FirstDay(year);
      && -3 <= t < YearLength(year) + 3 && (FirstDay(year) + t) % 7 == 3
      && IsoWeekNum(yday, wday) == (t + 7) / 7
  {
    hide FirstDay;
    var day := FirstDay(year) + yday;
    assert (day + 1) % 7 == if day % 7 == 6 then 0 else day % 7 + 1;
  }

  /** The reference week of a date, in terms of the same Thursday. */
  lemma ReferenceWeek(year: int, yday: int, wday: int) returns (isoYear: int, week: int)
    requires IsDate(year, yday, wday)
    ensures IsIsoWeek(FirstDay(year) + yday, isoYear, week) && year - 1 <= isoYear <= year + 1
    ensures var w := IsoWeekNum(yday, wday);
      && (isoYear < year ==> w < 1 && week == Thursdays(isoYear))
      && (isoYear == year ==> 1 <= w == week <= Thursdays(year))
      && (isoYear > year ==> Thursdays(year) < w && week == 1)
  {
    hide FirstDay, YearLength, IsoWeekNum, Thursday, Thursdays, IsIsoWeek, IsDate;
    WeekNumIs(year, yday, wday);
    var day := FirstDay(year) + yday;
    var t := Thursday(day) - FirstDay(year);
    FirstDaySums(year);
    FirstDaySums(year - 1);
    AtLeastAWeek(year);
    AtLeastAWeek(year - 1);
    AtLeastAWeek(year + 1);
    if t < 0 {
      isoYear := year - 1;
      LastWeek(isoYear, t + YearLength(isoYear));
      week := ThursdayDecides(day, isoYear);
      NextQuotient(t);
    } else if t < YearLength(year) {
      isoYear := year;
      LastWeek(year, t);
      week := ThursdayDecides(day, year);
      NextQuotient(t);
    } else {
      isoYear := year + 1;
      LastWeek(year, t - 7);
      week := ThursdayDecides(day, isoYear);
      NextQuotient(t - 7);
      NextQuotient(t);
    }
  }

  lemma ThursdayDecides(day: int, year: int) returns (week: int)
    requires 0 <= Thursday(day) - FirstDay(year) < YearLength(year)
    ensures IsIsoWeek(day, year, week) && week == (Thursday(day) - FirstDay(year)) / 7 + 1
    ensures Thursday(day) - FirstDay(year) < 7 ==> week == 1
  {
    hide FirstDay, Thursday, YearLength;
    week := (Thursday(day) - FirstDay(year)) / 7 + 1;
  }

  lemma AtLeastAWeek(year: int)
    ensures 7 <= YearLength(year)
  {
  }

  lemma NextQuotient(t: int)
    ensures (t + 7) / 7 == t / 7 + 1 && (-7 <= t < 0 ==> t / 7 == -1) && (0 <= t ==> 0 <= t / 7)
  {
  }

  /** Measured by the answer: what goes wrong are the dates of a 53rd week of a year before year 0. */
  lemma WrongOnlyInWeek53(year: int, yday: int, wday: int, isoYear: int, week: int)
    requires IsDate(year, yday, wday)
    requires IsIsoWeek(FirstDay(year) + yday, isoYear, week)
    ensures TmIsoWeekYear(year, yday, wday) == isoYear && TmIsoWeekOfYear(year, yday, wday) == week
            <==> 0 <= isoYear || week != 53
    ensures 1 <= year ==> 0 <= isoYear
  {
    hide FirstDay, IsoWeekNum, IsoYearWeeks, Thursdays, IsIsoWeek, IsDate;
    var y, w := ReferenceWeek(year, yday, wday);
    IsoWeekUnique(FirstDay(year) + yday, y, w, isoYear, week);
    WeeksAreThursdays(year);
    WeeksAreThursdays(year - 1);
    ThursdayCount(year);
    ThursdayCount(year - 1);
  }

  /** The dates that go wrong, told from the date itself: before year 0, in week 53 of a year that has
      one, or before the first week of a year that follows such a year. */
  predicate Misread(year: int, yday: int, wday: int)
  {
    year < 0 && ((IsoWeekNum(yday, wday) == 53 && Thursdays(year) == 53)
                 || (IsoWeekNum(yday, wday) < 1 && Thursdays(year - 1) == 53))
  }

  /** For every consistent date of every year the result is the ISO year and week of the date if and only
      if the date is not one of those. */
  lemma IsoWeekCorrect(year: int, yday: int, wday: int)
    requires IsDate(year, yday, wday)
    ensures IsIsoWeek(FirstDay(year) + yday, TmIsoWeekYear(year, yday, wday), TmIsoWeekOfYear(year, yday, wday))
            <==> !Misread(year, yday, wday)
  {
    hide FirstDay, IsoWeekNum, Thursdays, IsIsoWeek, IsDate, TmIsoWeekYear, TmIsoWeekOfYear;
    var day := FirstDay(year) + yday;
    var y, w := ReferenceWeek(year, yday, wday);
    WrongOnlyInWeek53(year, yday, wday, y, w);
    ThursdayCount(year);
    ThursdayCount(year - 1);
    NoWeek53BeforeYear0();
    if IsIsoWeek(day, TmIsoWeekYear(year, yday, wday), TmIsoWeekOfYear(year, yday, wday)) {
      IsoWeekUnique(day, y, w, TmIsoWeekYear(year, yday, wday), TmIsoWeekOfYear(year, yday, wday));
    }
  }

  lemma NoWeek53BeforeYear0()
    ensures Thursdays(-1) == 52
  {
  }

  /** Such dates exist: 31 December of year -2 is a Thursday of week 53, but is given week 1 of year -1. */
  lemma MisreadDate()
    ensures IsDate(-2, 364, 4) && IsIsoWeek(FirstDay(-2) + 364, -2, 53) && Misread(-2, 364, 4)
    ensures TmIsoWeekYear(-2, 364, 4) == -1 && TmIsoWeekOfYear(-2, 364, 4) == 1
  {
  }

  lemma ThursdayCount(year: int)
    ensures Thursdays(year) == 52 || Thursdays(year) == 53
  {
  }

  /** Two dates one day apart. */
  ghost predicate NextDay(year: int, yday: int, year': int, yday': int)
  {
    FirstDay(year') + yday' == FirstDay(year) + yday + 1
  }

  /** From one day to the next the pair changes exactly from Sunday to Monday, to the next week of the
      year or from its last week to the first week of the next year. */
  lemma ChangesOnMondays(year: int, yday: int, wday: int, year': int, yday': int, wday': int)
    requires IsDate(year, yday, wday) && IsDate(year', yday', wday') && NextDay(year, yday, year', yday')
    requires !Misread(year, yday, wday) && !Misread(year', yday', wday')
    ensures var y, w := TmIsoWeekYear(year, yday, wday), TmIsoWeekOfYear(year, yday, wday);
      var y', w' := TmIsoWeekYear(year', yday', wday'), TmIsoWeekOfYear(year', yday', wday');
      if wday' != 1 then y' == y && w' == w
      else (y' == y && w' == w + 1) || (y' == y + 1 && w == IsoYearWeeks(y) && w' == 1)
  {
    hide TmIsoWeekYear, TmIsoWeekOfYear, IsoYearWeeks, FirstDay, IsIsoWeek, Thursdays, IsoWeekNum, IsDate, Misread;
    MondayIs(year', yday', wday');
    var day := FirstDay(year) + yday;
    var y, w := TmIsoWeekYear(year, yday, wday), TmIsoWeekOfYear(year, yday, wday);
    var y', w' := TmIsoWeekYear(year', yday', wday'), TmIsoWeekOfYear(year', yday', wday');
    IsoWeekCorrect(year, yday, wday);
    IsoWeekCorrect(year', yday', wday');
    WeekToWeek(day, y, w, y', w');
    WrongOnlyInWeek53(year, yday, wday, y, w);
    WeeksAreThursdays(y);
    ThursdayCount(y);
  }

  lemma MondayIs(year: int, yday: int, wday: int)
    requires IsDate(year, yday, wday)
    ensures wday == 1 <==> (FirstDay(year) + yday) % 7 == 0
  {
    hide FirstDay;
  }

  lemma WeekToWeek(day: int, y: int, w: int, y': int, w': int)
    requires IsIsoWeek(day, y, w) && IsIsoWeek(day + 1, y', w')
    ensures if (day + 1) % 7 != 0 then y' == y && w' == w
            else (y' == y && w' == w + 1) || (y' == y + 1 && w == Thursdays(y) && w' == 1)
  {
    hide FirstDay, Thursdays;
    if (day + 1) % 7 != 0 {
      assert Thursday(day + 1) == Thursday(day);
      assert IsIsoWeek(day, y', w');
      IsoWeekUnique(day, y, w, y', w');
    } else {
      var t := Thursday(day) - FirstDay(y);
      assert Thursday(day + 1) == Thursday(day) + 7;
      assert (FirstDay(y) + t) % 7 == 3;
      LastWeek(y, t);
      FirstDaySums(y);
      if t + 7 < YearLength(y) {
        assert IsIsoWeek(day + 1, y, w + 1);
        IsoWeekUnique(day + 1, y, w + 1, y', w');
      } else {
        assert IsIsoWeek(day + 1, y + 1, 1);
        IsoWeekUnique(day + 1, y + 1, 1, y', w');
      }
    }
  }
}
