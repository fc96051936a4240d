/** Days since the epoch for a proleptic Gregorian date, and the calendar it must agree with. */
module Calendar {
  import opened Prelude

  /** Integer division and remainder as the source has them: toward zero. */
  function Quotient(a: int, b: int): int
    requires b > 0
  {
    if a >= 0 then a / b else -(-a / b)
  }

  function Remainder(a: int, b: int): int
    requires b > 0
  {
    a - Quotient(a, b) * b
  }

  /** `days_from_civil`. */
  function DaysFromCivil(year: int, month: int, day: int): int {
    var y := if month <= 2 then year - 1 else year;
    var era := Quotient(if y >= 0 then y else y - 399, 400);
    var yoe := y - era * 400;
    var mp := Remainder(month + 9, 12);
    var doy := Quotient(153 * mp + 2, 5) + day - 1;
    var doe := yoe * 365 + Quotient(yoe, 4) - Quotient(yoe, 100) + doy;
    era * 146_097 + doe - 719_468
  }

  // ----- the calendar -----

  datatype Date = Date(year: int, month: int, day: int)

  const EPOCH := Date(1970, 1, 1)

  predicate Leap(year: int) {
    year % 4 == 0 && (year % 100 != 0 || year % 400 == 0)
  }

  function DaysInMonth(year: int, month: int): (n: int)
    ensures 28 <= n <= 31
  {
    if month == 2 then if Leap(year) then 29 else 28
    else if month == 4 || month == 6 || month == 9 || month == 11 then 30
    else 31
  }

  predicate Valid(d: Date) {
    1 <= d.month <= 12 && 1 <= d.day <= DaysInMonth(d.year, d.month)
  }

  predicate Before(a: Date, b: Date) {
    a.year < b.year || (a.year == b.year && (a.month < b.month || (a.month == b.month && a.day < b.day)))
  }

  function NextDay(d: Date): (next: Date)
    requires Valid(d)
    ensures Valid(next) && Before(d, next)
  {
    if d.day < DaysInMonth(d.year, d.month) then d.(day := d.day + 1)
    else if d.month < 12 then Date(d.year, d.month + 1, 1)
    else Date(d.year + 1, 1, 1)
  }

  // ----- counting days -----

  function YearDays(year: int): int {
    if Leap(year) then 366 else 365
  }

  /** Days from the start of 1970 to the start of a year, counted year by year. */
  function DaysBeforeYear(year: int): int
    decreases Abs(year - 1970)
  {
    if year == 1970 then 0
    else if year > 1970 then DaysBeforeYear(year - 1) + YearDays(year - 1)
    else DaysBeforeYear(year + 1) - YearDays(year)
  }

  /** Days from the start of a year to the start of a month, counted month by month. */
  function DaysBeforeMonth(year: int, month: int): nat {
    if month <= 1 then 0 else DaysBeforeMonth(year, month - 1) + DaysInMonth(year, month - 1)
  }

  /** Calendar days from the epoch to a date, counted. */
  function DayNumber(d: Date): int {
    DaysBeforeYear(d.year) + DaysBeforeMonth(d.year, d.month) + d.day - 1
  }

  lemma NextYear(year: int)
    ensures DaysBeforeYear(year + 1) == DaysBeforeYear(year) + YearDays(year)
  {}

  lemma MonthTable(year: int, month: int)
    requires 1 <= month <= 13
    ensures var feb := if Leap(year) then 1 else 0;
            DaysBeforeMonth(year, month) == if month <= 2 then 31 * (month - 1)
                                            else (153 * (month - 3) + 2) / 5 + 59 + feb
    ensures month == 13 ==> DaysBeforeMonth(year, month) == YearDays(year)
    ensures month <= 12 ==> DaysBeforeMonth(year, month) + DaysInMonth(year, month) <= YearDays(year)
  {
    if month > 1 {
      MonthTable(year, month - 1);
    }
  }

  lemma NextDayCounts(d: Date)
    requires Valid(d)
    ensures DayNumber(NextDay(d)) == DayNumber(d) + 1
  {
    NextYear(d.year);
    MonthTable(d.year, 13);
  }

  lemma {:induction false} YearsIncrease(y: int, z: int)
    requires y < z
    ensures DaysBeforeYear(y + 1) <= DaysBeforeYear(z)
    decreases z - y
  {
    if y + 1 < z {
      NextYear(y + 1);
      YearsIncrease(y + 1, z);
    }
  }

  lemma {:induction false} MonthsIncrease(year: int, m: int, n: int)
    requires 1 <= m < n
    ensures DaysBeforeMonth(year, m) + DaysInMonth(year, m) <= DaysBeforeMonth(year, n)
  {
    if m + 1 < n {
      MonthsIncrease(year, m, n - 1);
    }
  }

  lemma NumbersIncrease(a: Date, b: Date)
    requires Valid(a) && Valid(b) && Before(a, b)
    ensures DayNumber(a) < DayNumber(b)
  {
    if a.year < b.year {
      MonthTable(a.year, a.month);
      NextYear(a.year);
      YearsIncrease(a.year, b.year);
    } else if a.month < b.month {
      MonthsIncrease(a.year, a.month, b.month);
    }
  }

  // ----- the formula counts days -----

  /** Leap days in the years up to and including one. */
  function LeapDays(year: int): int {
    year / 4 - year / 100 + year / 400
  }

  lemma {:induction false} MulStep(b: int, p: int, q: int)
    requires b > 0
    ensures p < q ==> b * p + b <= b * q
  {
    if p < q {
      var k := q - p - 1;
      assert b * k >= 0;
      assert b * q == b * (p + 1 + k) == b * p + b + b * k;
    }
  }

  /** A quotient and a remainder in range are the quotient and the remainder. */
  lemma Divides(a: int, b: int, q: int, r: int)
    requires 0 <= r < b && a == b * q + r
    ensures a / b == q && a % b == r
  {
    assert a == b * (a / b) + a % b;
    MulStep(b, a / b, q);
    MulStep(b, q, a / b);
  }

  lemma StepOver(y: int, n: int)
    requires n > 1
    ensures y / n - (y - 1) / n == if y % n == 0 then 1 else 0
  {
    if y % n == 0 {
      Divides(y - 1, n, y / n - 1, n - 1);
    } else {
      Divides(y - 1, n, y / n, y % n - 1);
    }
  }

  lemma LeapDaysStep(y: int)
    ensures LeapDays(y) - LeapDays(y - 1) == if Leap(y) then 1 else 0
  {
    StepOver(y, 4);
    StepOver(y, 100);
    StepOver(y, 400);
    assert y % 400 == 0 ==> y % 100 == 0;
    assert y % 100 == 0 ==> y % 4 == 0;
  }

  lemma {:induction false} YearsClosed(year: int)
    ensures DaysBeforeYear(year) == 365 * (year - 1970) + LeapDays(year - 1) - 477
    decreases Abs(year - 1970)
  {
    if year > 1970 {
      YearsClosed(year - 1);
      LeapDaysStep(year - 1);
    } else if year < 1970 {
      YearsClosed(year + 1);
      LeapDaysStep(year);
    }
  }

  /** The era is the floor of a four-hundredth, though the source divides toward zero. */
  lemma EraIsFloor(y: int)
    ensures Quotient(if y >= 0 then y else y - 399, 400) == y / 400
  {
    if y < 0 {
      Divides(399 - y, 400, -(y / 400), 399 - y % 400);
    }
  }

  /** An era, the years of it and their leap days add up to the years before. */
  lemma EraSplits(y: int)
    ensures y / 400 * 146_097 + y % 400 * 365 + y % 400 / 4 - y % 400 / 100 == 365 * y + LeapDays(y)
  {
    var e, yoe := y / 400, y % 400;
    Divides(y, 4, 100 * e + yoe / 4, yoe % 4);
    Divides(y, 100, 4 * e + yoe / 100, yoe % 100);
  }

  lemma FormulaIsSum(year: int, month: int, day: int)
    requires 1 <= month <= 12
    ensures var y := if month <= 2 then year - 1 else year;
            var mp := if month <= 2 then month + 9 else month - 3;
            DaysFromCivil(year, month, day) == 365 * y + LeapDays(y) + (153 * mp + 2) / 5 + day - 1 - 719_468
  {
    var y := if month <= 2 then year - 1 else year;
    EraIsFloor(y);
    EraSplits(y);
  }

  /** `days_from_civil` is the number of calendar days since the epoch, for every year. */
  lemma FormulaCountsDays(d: Date)
    requires 1 <= d.month <= 12
    ensures DaysFromCivil(d.year, d.month, d.day) == DayNumber(d)
  {
    FormulaIsSum(d.year, d.month, d.day);
    YearsClosed(d.year);
    LeapDaysStep(d.year);
    MonthTable(d.year, d.month);
  }

  /** The epoch is day zero, the next date is the next number, and earlier dates have smaller ones. */
  lemma FormulaFollowsTheCalendar(a: Date, b: Date)
    requires Valid(a) && Valid(b)
    ensures DaysFromCivil(1970, 1, 1) == 0
    ensures b == NextDay(a) ==> DaysFromCivil(b.year, b.month, b.day) == DaysFromCivil(a.year, a.month, a.day) + 1
    ensures Before(a, b) <==> DaysFromCivil(a.year, a.month, a.day) < DaysFromCivil(b.year, b.month, b.day)
  {
    FormulaCountsDays(EPOCH);
    FormulaCountsDays(a);
    FormulaCountsDays(b);
    CalendarOrder(a, b);
  }

  lemma CalendarOrder(a: Date, b: Date)
    requires Valid(a) && Valid(b)
    ensures b == NextDay(a) ==> DayNumber(b) == DayNumber(a) + 1
    ensures Before(a, b) <==> DayNumber(a) < DayNumber(b)
    ensures DayNumber(a) == DayNumber(b) <==> a == b
  {
    NextDayCounts(a);
    if Before(a, b) {
      NumbersIncrease(a, b);
    } else if Before(b, a) {
      NumbersIncrease(b, a);
    }
  }

  // ----- the inverse -----

  datatype YearAndDay = YearAndDay(year: int, day: int)

  /** The March year a day number falls in, and the day of it: eras, centuries, quads, years. */
  function SplitYears(z: int): YearAndDay {
    var era, doe := z / 146_097, z % 146_097;
    var century := Min(doe / 36_524, 3);
    var r := doe - century * 36_524;
    var quad, s := r / 1_461, r % 1_461;
    var year := Min(s / 365, 3);
    YearAndDay(400 * era + 100 * century + 4 * quad + year, s - year * 365)
  }

  /** The date a number of days into a March year. */
  function DateIn(yd: YearAndDay): Date {
    var mp := (5 * yd.day + 2) / 153;
    var day := yd.day - (153 * mp + 2) / 5 + 1;
    if mp < 10 then Date(yd.year, mp + 3, day) else Date(yd.year + 1, mp - 9, day)
  }

  /** The date with a given day number. */
  function CivilFromDays(n: int): Date {
    DateIn(SplitYears(n + 719_468))
  }

  lemma LastOfCycle(era: int, century: int, quad: int, year: int)
    requires 0 <= century <= 3 && 0 <= quad <= 24 && 0 <= year <= 3
    ensures var y := 400 * era + 100 * century + 4 * quad + year;
            && LeapDays(y) == 97 * era + 24 * century + quad
            && (Leap(y + 1) <==> year == 3 && (quad == 24 ==> century == 3))
  {
    var y := 400 * era + 100 * century + 4 * quad + year;
    Divides(y, 400, era, 100 * century + 4 * quad + year);
    Divides(y, 100, 4 * era + century, 4 * quad + year);
    Divides(y, 4, 100 * era + 25 * century + quad, year);
    LeapDaysStep(y + 1);
    StepOver(y + 1, 4);
    StepOver(y + 1, 100);
    StepOver(y + 1, 400);
    if year == 3 {
      Divides(y + 1, 4, 100 * era + 25 * century + quad + 1, 0);
      if quad == 24 {
        Divides(y + 1, 100, 4 * era + century + 1, 0);
        if century == 3 {
          Divides(y + 1, 400, era + 1, 0);
        } else {
          Divides(y + 1, 400, era, 100 * century + 100);
        }
      } else {
        Divides(y + 1, 100, 4 * era + century, 4 * quad + 4);
      }
    } else {
      Divides(y + 1, 4, 100 * era + 25 * century + quad, year + 1);
    }
  }

  lemma YearsSplit(z: int)
    ensures var yd := SplitYears(z);
            365 * yd.year + LeapDays(yd.year) + yd.day == z && 0 <= yd.day < YearDays(yd.year + 1)
  {
    var era, doe := z / 146_097, z % 146_097;
    var century := Min(doe / 36_524, 3);
    var r := doe - century * 36_524;
    var quad, s := r / 1_461, r % 1_461;
    var year := Min(s / 365, 3);
    LastOfCycle(era, century, quad, year);
  }

  lemma DateOfNumber(n: int)
    ensures Valid(CivilFromDays(n)) && DayNumber(CivilFromDays(n)) == n
  {
    YearsSplit(n + 719_468);
    DateInYear(SplitYears(n + 719_468));
  }

  lemma DateInYear(yd: YearAndDay)
    requires 0 <= yd.day < YearDays(yd.year + 1)
    ensures Valid(DateIn(yd)) && DayNumber(DateIn(yd)) == 365 * yd.year + LeapDays(yd.year) + yd.day - 719_468
  {
    DateInMonth(yd);
    var d := DateIn(yd);
    FormulaCountsDays(d);
    FormulaIsSum(d.year, d.month, d.day);
  }

  lemma DateInMonth(yd: YearAndDay)
    requires 0 <= yd.day < YearDays(yd.year + 1)
    ensures Valid(DateIn(yd))
  {
    DayOfMonth(yd.day, Leap(yd.year + 1));
  }

  lemma DayOfMonth(doy: nat, leap: bool)
    requires doy < if leap then 366 else 365
    ensures var mp := (5 * doy + 2) / 153;
            && mp < 12
            && 0 <= doy - (153 * mp + 2) / 5 <
               if mp == 11 then if leap then 29 else 28
               else if mp == 1 || mp == 3 || mp == 6 || mp == 8 then 30 else 31
  {}

  /** Every integer is the number of exactly one valid date, and that date can be computed. */
  lemma CivilRoundTrip(n: int, d: Date)
    ensures var c := CivilFromDays(n); Valid(c) && DaysFromCivil(c.year, c.month, c.day) == n
    ensures Valid(d) && DaysFromCivil(d.year, d.month, d.day) == n ==> d == CivilFromDays(n)
  {
    DateOfNumber(n);
    FormulaCountsDays(CivilFromDays(n));
    if Valid(d) {
      FormulaCountsDays(d);
      CalendarOrder(d, CivilFromDays(n));
    }
  }

  // ----- instants -----

  datatype Clock = Clock(hour: int, minute: int, second: int, millis: int)

  predicate OnClock(c: Clock) {
    0 <= c.hour < 24 && 0 <= c.minute < 60 && 0 <= c.second < 60 && 0 <= c.millis < 1000
  }

  function MillisOf(d: Date, c: Clock): int {
    DaysFromCivil(d.year, d.month, d.day) * 86_400_000 + c.hour * 3_600_000 + c.minute * 60_000 + c.second * 1_000
      + c.millis
  }

  /** A year whose instants are within 64 bits, as every year as far from zero is. */
  const LAST_YEAR := 292_000_000

  predicate Fits64(n: int) {
    I64_MIN <= n <= I64_MAX
  }

  /** Up to that year no sum on the way to the milliseconds leaves 64 bits. */
  lemma MillisFit(d: Date, c: Clock)
    requires Valid(d) && OnClock(c) && Abs(d.year) <= LAST_YEAR
    ensures var days := DaysFromCivil(d.year, d.month, d.day) * 86_400_000;
            && Fits64(days) && Fits64(days + c.hour * 3_600_000)
            && Fits64(days + c.hour * 3_600_000 + c.minute * 60_000)
            && Fits64(days + c.hour * 3_600_000 + c.minute * 60_000 + c.second * 1_000)
            && Fits64(MillisOf(d, c))
  {
    FormulaIsSum(d.year, d.month, d.day);
  }

  predicate Earlier(a: Clock, b: Clock) {
    a.hour < b.hour || (a.hour == b.hour && (a.minute < b.minute || (a.minute == b.minute
      && (a.second < b.second || (a.second == b.second && a.millis < b.millis)))))
  }

  /** Timestamps keep the order of the instants they were read from, to the millisecond. */
  lemma MillisKeepOrder(a: Date, b: Clock, c: Date, d: Clock)
    requires Valid(a) && OnClock(b) && Valid(c) && OnClock(d)
    ensures MillisOf(a, b) < MillisOf(c, d) <==> Before(a, c) || (a == c && Earlier(b, d))
  {
    FormulaCountsDays(a);
    FormulaCountsDays(c);
    CalendarOrder(a, c);
    CalendarOrder(c, a);
  }
}
