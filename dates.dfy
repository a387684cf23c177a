/**
 * Calendar dates, their successor and predecessor, the comparison
 * operators and the five day-count conventions (test/date.cpp).
 */
module Dates {

  /** The day-count conventions of test/date.h. */
  datatype DayCountConvention = Thirty360 | Thirty365 | Actual360 | Actual365 | ActualActual

  /** A date as stored by the source: three unconstrained integers. */
  datatype Date = Date(day: int, month: int, year: int)

  /** What the default constructor builds, and what next/previous return for an invalid date. */
  const DefaultDate := Date(1, 1, 1900)

  /** Gregorian leap-year rule (is_leap_year, and the inline test of valid). */
  predicate IsLeapYear(year: int)
  {
    year % 4 == 0 && (year % 100 != 0 || year % 400 == 0)
  }

  /** The checks of date::valid, in the source's order. */
  predicate Valid(d: Date)
  {
    if d.year < 0 then false
    else if d.month < 1 || d.month > 12 then false
    else if d.day < 1 || d.day > 31 then false
    else if (d.month == 4 || d.month == 6 || d.month == 9 || d.month == 11) && d.day > 30 then false
    else if d.month == 2 && (d.day > 29 || (d.day == 29 && !IsLeapYear(d.year))) then false
    else true
  }

  /** Length of a month: an independent reference for Valid. */
  function DaysInMonth(month: int, year: int): int
  {
    if month == 2 then (if IsLeapYear(year) then 29 else 28)
    else if month == 4 || month == 6 || month == 9 || month == 11 then 30
    else 31
  }

  lemma ValidIffWithinMonth(d: Date)
    ensures Valid(d) <==> 0 <= d.year && 1 <= d.month <= 12 && 1 <= d.day <= DaysInMonth(d.month, d.year)
  {
  }

  /** 29 February is a valid date exactly in leap years. */
  lemma LeapDayValid(year: int)
    ensures Valid(Date(29, 2, year)) <==> 0 <= year && IsLeapYear(year)
  {
  }

  // ---------------------------------------------------------------------
  // Comparison operators (operator==, <, <=, >=, >, !=)
  // ---------------------------------------------------------------------

  predicate Equal(a: Date, b: Date)
  {
    if !(Valid(a) && Valid(b)) then false
    else a.day == b.day && a.month == b.month && a.year == b.year
  }

  predicate Less(a: Date, b: Date)
  {
    if !(Valid(a) && Valid(b)) then false
    else if a.year == b.year then
      if a.month == b.month then a.day < b.day else a.month < b.month
    else a.year < b.year
  }

  predicate LessEq(a: Date, b: Date)
  {
    if Equal(a, b) then true else Less(a, b)
  }

  predicate Greater(a: Date, b: Date)
  {
    !LessEq(a, b)
  }

  predicate GreaterEq(a: Date, b: Date)
  {
    if Equal(a, b) then true else Greater(a, b)
  }

  predicate NotEqual(a: Date, b: Date)
  {
    !Equal(a, b)
  }

  /** On valid dates, < is the lexicographic order on (year, month, day) and == is field equality. */
  lemma LessIsLexicographic(a: Date, b: Date)
    requires Valid(a) && Valid(b)
    ensures Less(a, b) <==> (a.year < b.year || (a.year == b.year && (a.month < b.month || (a.month == b.month && a.day < b.day))))
    ensures Equal(a, b) <==> a == b
  {
  }

  /** Both primitive comparisons are false as soon as one operand is invalid. */
  lemma InvalidOperandsCompareFalse(a: Date, b: Date)
    requires !Valid(a) || !Valid(b)
    ensures !Less(a, b) && !Equal(a, b) && !LessEq(a, b) && NotEqual(a, b)
  {
  }

  /** The quirk of the derived operators: with an invalid operand, > and >= both hold. */
  lemma InvalidOperandsCompareGreater(a: Date, b: Date)
    requires !Valid(a) || !Valid(b)
    ensures Greater(a, b) && GreaterEq(a, b) && Greater(b, a) && GreaterEq(b, a)
  {
  }

  /** On valid dates the operators form a strict total order with its derived companions. */
  lemma ValidDatesTotallyOrdered(a: Date, b: Date, c: Date)
    requires Valid(a) && Valid(b) && Valid(c)
    ensures !Less(a, a) && Equal(a, a)
    ensures Less(a, b) && Less(b, c) ==> Less(a, c)
    ensures Less(a, b) || Equal(a, b) || Less(b, a)
    ensures Greater(a, b) <==> Less(b, a)
    ensures GreaterEq(a, b) <==> LessEq(b, a)
  {
  }

  // ---------------------------------------------------------------------
  // Successor and predecessor (next_date, previous_date)
  // ---------------------------------------------------------------------

  function NextDate(d: Date): (r: Date)
    ensures Valid(d) ==> Valid(r) && Less(d, r)
    ensures !Valid(d) ==> r == DefaultDate
  {
    if !Valid(d) then DefaultDate
    else if Valid(Date(d.day + 1, d.month, d.year)) then Date(d.day + 1, d.month, d.year)
    else if Valid(Date(1, d.month + 1, d.year)) then Date(1, d.month + 1, d.year)
    else Date(1, 1, d.year + 1)
  }

  /**
   * Closed form of what previous_date returns: the day before in the same month,
   * else the last day of the previous month, else 31 December of the year before.
   */
  function Predecessor(d: Date): Date
  {
    if !Valid(d) then DefaultDate
    else if Valid(Date(d.day - 1, d.month, d.year)) then Date(d.day - 1, d.month, d.year)
    else if 1 <= d.month - 1 then Date(DaysInMonth(d.month - 1, d.year), d.month - 1, d.year)
    else Date(31, 12, d.year - 1)
  }

  /** Whether the month of the year has a (valid) day k. */
  predicate HasDay(month: int, year: int, k: int)
  {
    Valid(Date(k, month, year))
  }

  /** previous_date, with its downward search over the candidate last days 31..28. */
  method PreviousDate(d: Date) returns (p: Date)
    ensures p == Predecessor(d)
  {
    if !Valid(d) {
      return DefaultDate;
    }
    p := Date(d.day - 1, d.month, d.year);
    if Valid(p) {
      return p;
    }
    var m, y := d.month - 1, d.year;
    p := Date(31, m, y);
    var day := 31;
    while day >= 28
      invariant 27 <= day <= 31
      invariant forall k :: day < k <= 31 ==> !HasDay(m, y, k)
    {
      p := Date(day, m, y);
      if Valid(p) {
        ValidIffWithinMonth(p);
        if day < 31 {
          assert !HasDay(m, y, day + 1);
          ValidIffWithinMonth(Date(day + 1, m, y));
        }
        return p;
      }
      day := day - 1;
    }
    assert !HasDay(m, y, 28);
    p := Date(31, 12, d.year - 1);
  }

  /** A valid date whose next day is invalid is the last day of its month. */
  lemma LastDayOfMonth(d: Date)
    requires Valid(d) && !Valid(Date(d.day + 1, d.month, d.year))
    ensures d.day == DaysInMonth(d.month, d.year)
  {
    ValidIffWithinMonth(d);
    ValidIffWithinMonth(Date(d.day + 1, d.month, d.year));
  }

  /** Round trip: stepping forward then back returns every valid date. */
  lemma {:induction false} PredecessorOfNext(d: Date)
    requires Valid(d)
    ensures Predecessor(NextDate(d)) == d
  {
    var n := NextDate(d);
    if Valid(Date(d.day + 1, d.month, d.year)) {
    } else {
      LastDayOfMonth(d);
      ValidIffWithinMonth(d);
      if Valid(Date(1, d.month + 1, d.year)) {
        assert n == Date(1, d.month + 1, d.year);
      } else {
        assert d.month == 12;
      }
    }
  }

  /** Round trip the other way, for every valid date but the very first one (1 January of year 0). */
  lemma {:induction false} NextOfPredecessor(d: Date)
    requires Valid(d) && d != Date(1, 1, 0)
    ensures NextDate(Predecessor(d)) == d
  {
    ValidIffWithinMonth(d);
    if Valid(Date(d.day - 1, d.month, d.year)) {
    } else if 1 <= d.month - 1 {
      var p := Date(DaysInMonth(d.month - 1, d.year), d.month - 1, d.year);
      ValidIffWithinMonth(p);
      ValidIffWithinMonth(Date(p.day + 1, p.month, p.year));
    } else {
      assert d == Date(1, 1, d.year);
    }
  }

  // ---------------------------------------------------------------------
  // Day numbers: an independent reference for the day-by-day count
  // ---------------------------------------------------------------------

  function DaysInYear(year: int): int
  {
    if IsLeapYear(year) then 366 else 365
  }

  /** Days from 1 January of year 0 to 1 January of the given year. */
  function DaysBeforeYear(year: int): int
    decreases year
  {
    if year <= 0 then 0 else DaysBeforeYear(year - 1) + DaysInYear(year - 1)
  }

  /** Days from 1 January to the first of the given month. */
  function DaysBeforeMonth(month: int, year: int): int
    decreases month
  {
    if month <= 1 then 0 else DaysBeforeMonth(month - 1, year) + DaysInMonth(month - 1, year)
  }

  /** Number of days between 1 January of year 0 and the date. */
  function Ordinal(d: Date): int
  {
    DaysBeforeYear(d.year) + DaysBeforeMonth(d.month, d.year) + d.day - 1
  }

  lemma WholeYearOfMonths(year: int)
    ensures DaysBeforeMonth(12, year) + 31 == DaysInYear(year)
  {
  }

  lemma {:induction false} DaysBeforeMonthMonotone(m1: int, m2: int, year: int)
    requires 1 <= m1 < m2
    ensures DaysBeforeMonth(m1, year) + DaysInMonth(m1, year) <= DaysBeforeMonth(m2, year)
    decreases m2
  {
    if m1 + 1 < m2 {
      DaysBeforeMonthMonotone(m1, m2 - 1, year);
    }
  }

  lemma {:induction false} DaysBeforeYearMonotone(y1: int, y2: int)
    requires 0 <= y1 < y2
    ensures DaysBeforeYear(y1) + DaysInYear(y1) <= DaysBeforeYear(y2)
    decreases y2
  {
    if y1 + 1 < y2 {
      DaysBeforeYearMonotone(y1, y2 - 1);
    }
  }

  /** A valid date lies inside its year. */
  lemma DayOfYearBound(d: Date)
    requires Valid(d)
    ensures 0 <= DaysBeforeMonth(d.month, d.year) + d.day - 1 < DaysInYear(d.year)
  {
    ValidIffWithinMonth(d);
    WholeYearOfMonths(d.year);
    if d.month < 12 {
      DaysBeforeMonthMonotone(d.month, 12, d.year);
    }
  }

  /** next_date advances the day number by exactly one. */
  lemma OrdinalOfNext(d: Date)
    requires Valid(d)
    ensures Ordinal(NextDate(d)) == Ordinal(d) + 1
  {
    if !Valid(Date(d.day + 1, d.month, d.year)) {
      LastDayOfMonth(d);
      if !Valid(Date(1, d.month + 1, d.year)) {
        assert d.month == 12;
        WholeYearOfMonths(d.year);
      }
    }
  }

  /** On valid dates, < agrees with the order of day numbers. */
  lemma LessIffOrdinal(a: Date, b: Date)
    requires Valid(a) && Valid(b)
    ensures Less(a, b) <==> Ordinal(a) < Ordinal(b)
    ensures a == b <==> Ordinal(a) == Ordinal(b)
  {
    DayOfYearBound(a);
    DayOfYearBound(b);
    ValidIffWithinMonth(a);
    ValidIffWithinMonth(b);
    if a.year < b.year {
      DaysBeforeYearMonotone(a.year, b.year);
    } else if b.year < a.year {
      DaysBeforeYearMonotone(b.year, a.year);
    } else if a.month < b.month {
      DaysBeforeMonthMonotone(a.month, b.month, a.year);
    } else if b.month < a.month {
      DaysBeforeMonthMonotone(b.month, a.month, a.year);
    }
  }

  /** Number of next_date steps from a until a is no longer < b (the ActualActual loop). */
  function StepsUntil(a: Date, b: Date): nat
    decreases Ordinal(b) - Ordinal(a)
  {
    if Less(a, b) then
      OrdinalOfNext(a);
      LessIffOrdinal(a, b);
      1 + StepsUntil(NextDate(a), b)
    else 0
  }

  /** The day-by-day count equals the distance in day numbers, and is 0 unless a < b. */
  lemma {:induction false} StepsUntilIsDayDistance(a: Date, b: Date)
    requires Valid(a) && Valid(b)
    ensures StepsUntil(a, b) == if Less(a, b) then Ordinal(b) - Ordinal(a) else 0
    decreases Ordinal(b) - Ordinal(a)
  {
    if Less(a, b) {
      var n := NextDate(a);
      OrdinalOfNext(a);
      LessIffOrdinal(a, b);
      LessIffOrdinal(n, b);
      StepsUntilIsDayDistance(n, b);
    }
  }

  // ---------------------------------------------------------------------
  // Year fractions (years_until)
  // ---------------------------------------------------------------------

  function Min(a: int, b: int): int
  {
    if a < b then a else b
  }

  /** The value years_until returns, convention by convention. */
  function YearFraction(start: Date, other: Date, dcc: DayCountConvention): real
  {
    if !Valid(start) || !Valid(other) then 0.0
    else
      var d1, d2 := start.day, other.day;
      var m1, m2 := start.month, other.month;
      var y1, y2 := start.year, other.year;
      match dcc
      case Thirty360 =>
        var d1' := Min(d1, 30);
        var d2' := if d1' == 30 && d2 == 31 then 30 else d2;
        ((y2 - y1) * 360 + (m2 - m1) * 30 + (d2' - d1')) as real / 360.0
      case Thirty365 =>
        var d1' := Min(d1, 30);
        var d2' := if d1' == 30 && d2 == 31 then 30 else d2;
        ((y2 - y1) * 365 + (m2 - m1) * 30 + (d2' - d1')) as real / 365.0
      case Actual360 =>
        ((y2 - y1) * 360 + (m2 - m1) * 30 + (d2 - d1)) as real / 360.0
      case Actual365 =>
        ((y2 - y1) * 365 + (m2 - m1) * 30 + (d2 - d1)) as real / 365.0
      case ActualActual =>
        DayCount(StepsUntil(start, other), y2)
  }

  /** A number of days as a fraction of the given year's length. */
  function DayCount(days: nat, year: int): real
  {
    days as real / (if IsLeapYear(year) then 366.0 else 365.0)
  }

  /** years_until; the ActualActual branch walks a copy of the start date forward one day at a time. */
  method YearsUntil(start: Date, other: Date, dcc: DayCountConvention) returns (r: real)
    ensures r == YearFraction(start, other, dcc)
  {
    if !Valid(start) || !Valid(other) {
      return 0.0;
    }
    if dcc != ActualActual {
      return YearFraction(start, other, dcc);
    }
    var days := 0;
    var tmp := new MutableDate.FromParts(start.day, start.month, start.year);
    while Less(tmp.Value(), other)
      invariant Valid(tmp.Value())
      invariant days + StepsUntil(tmp.Value(), other) == StepsUntil(start, other)
      decreases Ordinal(other) - Ordinal(tmp.Value())
    {
      LessIffOrdinal(tmp.Value(), other);
      OrdinalOfNext(tmp.Value());
      var _ := tmp.PostIncrement();
      days := days + 1;
    }
    r := days as real / (if IsLeapYear(other.year) then 366.0 else 365.0);
  }

  /** The fraction is 0 when either date is invalid, and from any date to itself. */
  lemma YearFractionZero(a: Date, b: Date, dcc: DayCountConvention)
    requires !Valid(a) || !Valid(b) || a == b
    ensures YearFraction(a, b, dcc) == 0.0
  {
  }

  /**
   * ActualActual counts the calendar days from start to other (none when other is not
   * later) and divides by the length of other's year.
   */
  lemma ActualActualCountsDays(start: Date, other: Date)
    requires Valid(start) && Valid(other)
    ensures YearFraction(start, other, ActualActual)
            == DayCount(if Ordinal(start) < Ordinal(other) then Ordinal(other) - Ordinal(start) else 0, other.year)
  {
    StepsUntilIsDayDistance(start, other);
    LessIffOrdinal(start, other);
  }

  /** Within one calendar year the ActualActual fraction lies in [0, 1). */
  lemma ActualActualWithinYear(start: Date, other: Date)
    requires Valid(start) && Valid(other) && start.year == other.year
    ensures 0.0 <= YearFraction(start, other, ActualActual) < 1.0
  {
    ActualActualCountsDays(start, other);
    DayOfYearBound(start);
    DayOfYearBound(other);
    var days := if Ordinal(start) < Ordinal(other) then Ordinal(other) - Ordinal(start) else 0;
    assert days < DaysInYear(other.year);
  }

  /**
   * The Actual360 and Actual365 branches as their comments describe them: the actual
   * number of calendar days from start to other (negative when other is earlier) over
   * a 360- or 365-day year.
   */
  function ActualFraction(start: Date, other: Date, basis: real): real
    requires basis > 0.0
  {
    if !Valid(start) || !Valid(other) then 0.0
    else (Ordinal(other) - Ordinal(start)) as real / basis
  }

  /** The corrected fraction counts exactly the next_date steps from start to a later other. */
  lemma ActualFractionCountsSteps(start: Date, other: Date, basis: real)
    requires basis > 0.0 && Valid(start) && Valid(other) && Less(start, other)
    ensures ActualFraction(start, other, basis) == StepsUntil(start, other) as real / basis
  {
    StepsUntilIsDayDistance(start, other);
  }

  /** The corrected fraction from a date to the next one is one day's worth. */
  lemma ActualFractionOfNextDay(d: Date, basis: real)
    requires basis > 0.0 && Valid(d)
    ensures ActualFraction(d, NextDate(d), basis) == 1.0 / basis
  {
    OrdinalOfNext(d);
  }

  /**
   * As written, Actual360 and Actual365 count every month as 30 days: from 31 January 2023
   * to the next day, 1 February 2023, they give 0 where one day has passed.
   */
  lemma ActualConventionsCountThirtyDayMonths()
    ensures NextDate(Date(31, 1, 2023)) == Date(1, 2, 2023)
    ensures YearFraction(Date(31, 1, 2023), Date(1, 2, 2023), Actual360) == 0.0
    ensures YearFraction(Date(31, 1, 2023), Date(1, 2, 2023), Actual365) == 0.0
    ensures ActualFraction(Date(31, 1, 2023), Date(1, 2, 2023), 360.0) == 1.0 / 360.0
  {
    ActualFractionOfNextDay(Date(31, 1, 2023), 360.0);
  }

  /** Under the 30/360 convention a span from a day to the same day of a later month is whole months of 1/12. */
  lemma Thirty360WholeMonths(a: Date, b: Date)
    requires Valid(a) && Valid(b) && a.day == b.day
    ensures YearFraction(a, b, Thirty360) == ((b.year - a.year) * 12 + (b.month - a.month)) as real / 12.0
  {
  }

  // ---------------------------------------------------------------------
  // The mutable date object: setters and the increment/decrement operators
  // ---------------------------------------------------------------------

  class MutableDate {
    var day: int
    var month: int
    var year: int

    function Value(): Date
      reads this
    {
      Date(day, month, year)
    }

    constructor ()
      ensures Value() == DefaultDate
    {
      day, month, year := 1, 1, 1900;
    }

    constructor FromParts(day: int, month: int, year: int)
      ensures Value() == Date(day, month, year)
    {
      this.day, this.month, this.year := day, month, year;
    }

    method SetDay(day: int)
      modifies this
      ensures Value() == old(Value()).(day := day)
    {
      this.day := day;
    }

    method SetMonth(month: int)
      modifies this
      ensures Value() == old(Value()).(month := month)
    {
      this.month := month;
    }

    method SetYear(year: int)
      modifies this
      ensures Value() == old(Value()).(year := year)
    {
      this.year := year;
    }

    /** Prefix ++: advance, return the new value. */
    method Increment() returns (r: Date)
      modifies this
      ensures Value() == NextDate(old(Value())) && r == Value()
    {
      var n := NextDate(Value());
      day, month, year := n.day, n.month, n.year;
      r := n;
    }

    /** Postfix ++: advance, return the old value. */
    method PostIncrement() returns (r: Date)
      modifies this
      ensures Value() == NextDate(old(Value())) && r == old(Value())
    {
      r := Value();
      var n := NextDate(r);
      day, month, year := n.day, n.month, n.year;
    }

    /** Prefix --: step back, return the new value. */
    method Decrement() returns (r: Date)
      modifies this
      ensures Value() == Predecessor(old(Value())) && r == Value()
    {
      var p := PreviousDate(Value());
      day, month, year := p.day, p.month, p.year;
      r := p;
    }

    /** Postfix --: step back, return the old value. */
    method PostDecrement() returns (r: Date)
      modifies this
      ensures Value() == Predecessor(old(Value())) && r == old(Value())
    {
      r := Value();
      var p := PreviousDate(r);
      day, month, year := p.day, p.month, p.year;
    }
  }
}
