/**
 * The Gregorian calendar as pandas uses it: the leap-year rule, the month
 * table, the ordering of days, the range of days a pandas Timestamp can hold,
 * and the full calendar of one year (`pd.date_range(year-01-01, year-12-31)`).
 */
module Calendar {

  /** A calendar day, as the triple of the Year, Mth and Day columns. */
  datatype Date = Date(year: int, month: int, day: int)

  /** The Gregorian leap-year rule of `is_leap_year`. */
  predicate IsLeapYear(y: int) {
    y % 4 == 0 && (y % 100 != 0 || y % 400 == 0)
  }

  /** The number of days the percentage divides by, per place. */
  function DaysInYear(y: int): nat {
    if IsLeapYear(y) then 366 else 365
  }

  function DaysInMonth(y: int, m: int): nat
    requires 1 <= m <= 12
  {
    if m == 2 then (if IsLeapYear(y) then 29 else 28)
    else if m == 4 || m == 6 || m == 9 || m == 11 then 30
    else 31
  }

  /** The triple names a real day of the Gregorian calendar. */
  predicate IsCalendarDate(d: Date) {
    1 <= d.month <= 12 && 1 <= d.day <= DaysInMonth(d.year, d.month)
  }

  /** Chronological order: lexicographic on (year, month, day). */
  predicate DateLess(a: Date, b: Date) {
    || a.year < b.year
    || (a.year == b.year && a.month < b.month)
    || (a.year == b.year && a.month == b.month && a.day < b.day)
  }

  /** The first and the last midnight a nanosecond pandas Timestamp can hold. */
  const FirstTimestampDay := Date(1677, 9, 22)
  const LastTimestampDay := Date(2262, 4, 11)

  predicate Representable(d: Date) {
    !DateLess(d, FirstTimestampDay) && !DateLess(LastTimestampDay, d)
  }

  /** A day `pd.to_datetime` turns into a Timestamp instead of raising. */
  predicate ValidDate(d: Date) {
    IsCalendarDate(d) && Representable(d)
  }

  /** The years whose whole calendar `pd.date_range` can produce. */
  predicate YearInRange(y: int) {
    1678 <= y <= 2261
  }

  function MonthDates(y: int, m: int): seq<Date>
    requires 1 <= m <= 12
  {
    seq(DaysInMonth(y, m), i => Date(y, m, i + 1))
  }

  /** The days of year `y` from month `m` to December, in order. */
  function DatesFrom(y: int, m: int): seq<Date>
    requires 1 <= m <= 13
    decreases 13 - m
  {
    if m == 13 then [] else MonthDates(y, m) + DatesFrom(y, m + 1)
  }

  /** Every day from `y`-01-01 to `y`-12-31 inclusive (the `full_range`). */
  function YearDates(y: int): seq<Date> {
    DatesFrom(y, 1)
  }

  lemma {:induction false} DatesFromMembers(y: int, m: int, d: Date)
    requires 1 <= m <= 13
    ensures d in DatesFrom(y, m) <==> d.year == y && m <= d.month && IsCalendarDate(d)
    decreases 13 - m
  {
    if m < 13 {
      DatesFromMembers(y, m + 1, d);
      var month := MonthDates(y, m);
      if d.year == y && d.month == m && 1 <= d.day <= DaysInMonth(y, m) {
        assert month[d.day - 1] == d;
      }
      assert d in DatesFrom(y, m) <==> d in month || d in DatesFrom(y, m + 1);
    }
  }

  lemma {:induction false} DatesFromAscending(y: int, m: int)
    requires 1 <= m <= 13
    ensures forall i, j :: 0 <= i < j < |DatesFrom(y, m)| ==> DateLess(DatesFrom(y, m)[i], DatesFrom(y, m)[j])
    decreases 13 - m
  {
    if m < 13 {
      DatesFromAscending(y, m + 1);
      var month, rest := MonthDates(y, m), DatesFrom(y, m + 1);
      forall j | 0 <= j < |rest| ensures rest[j].year == y && rest[j].month > m {
        DatesFromMembers(y, m + 1, rest[j]);
      }
      var all := DatesFrom(y, m);
      assert all == month + rest;
      forall i, j | 0 <= i < j < |all| ensures DateLess(all[i], all[j]) {
        if j < |month| {
          assert all[i] == month[i] && all[j] == month[j];
        } else if i < |month| {
          assert all[j] == rest[j - |month|];
        } else {
          assert all[i] == rest[i - |month|] && all[j] == rest[j - |month|];
        }
      }
    }
  }

  /** The full range holds exactly the calendar days of year `y`. */
  lemma YearDatesExact(y: int)
    ensures forall d :: d in YearDates(y) <==> d.year == y && IsCalendarDate(d)
  {
    forall d ensures d in YearDates(y) <==> d.year == y && IsCalendarDate(d) {
      DatesFromMembers(y, 1, d);
    }
  }

  /** The full range is in strictly increasing order, so it has no repeats. */
  lemma YearDatesAscending(y: int)
    ensures forall i, j :: 0 <= i < j < |YearDates(y)| ==> DateLess(YearDates(y)[i], YearDates(y)[j])
  {
    DatesFromAscending(y, 1);
  }

  /** Summing the month table gives 366 days exactly in leap years, else 365. */
  lemma YearDatesLength(y: int)
    ensures |YearDates(y)| == DaysInYear(y)
    ensures |YearDates(y)| == 366 <==> IsLeapYear(y)
    ensures |YearDates(y)| == 365 <==> !IsLeapYear(y)
  {
    assert |DatesFrom(y, 13)| == 0;
    assert |DatesFrom(y, 12)| == 31;
    assert |DatesFrom(y, 11)| == 61;
    assert |DatesFrom(y, 10)| == 92;
    assert |DatesFrom(y, 9)| == 122;
    assert |DatesFrom(y, 8)| == 153;
    assert |DatesFrom(y, 7)| == 184;
    assert |DatesFrom(y, 6)| == 214;
    assert |DatesFrom(y, 5)| == 245;
    assert |DatesFrom(y, 4)| == 275;
    assert |DatesFrom(y, 3)| == 306;
    assert |DatesFrom(y, 2)| == 306 + DaysInMonth(y, 2);
    assert |DatesFrom(y, 1)| == 337 + DaysInMonth(y, 2);
  }

  /** `pd.date_range` over year `y` succeeds exactly when every one of its days is a Timestamp. */
  lemma YearInRangeIffRepresentable(y: int)
    ensures YearInRange(y) <==> forall d :: d in YearDates(y) ==> Representable(d)
  {
    YearDatesExact(y);
    if !YearInRange(y) {
      var edge := if y < 1678 then Date(y, 1, 1) else Date(y, 12, 31);
      assert edge in YearDates(y) && !Representable(edge);
    }
  }
}
