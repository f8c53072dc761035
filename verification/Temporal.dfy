/**
 Calendar arithmetic in the proleptic Gregorian calendar: a closed day count, Zeller's weekday, a
 summing loop, the field-by-field order and differences in months.
 */
module Temporal {
  import opened Arithmetic
  import opened Sequences

  const FEBRUARY := 2

  datatype DateTime = DateTime(year: int, month: int, day: int, hour: int, minute: int, second: int)

  datatype Error = InvalidDateTime | CalculationFailed

  datatype Result<+T> = Ok(value: T) | Err(error: Error)

  predicate IsLeapYear(year: int) {
    year % 4 == 0 && (year % 100 != 0 || year % 400 == 0)
  }

  function DaysInMonth(year: int, month: int): (d: int)
    requires 1 <= month <= 12
    ensures 28 <= d <= 31
  {
    if month == FEBRUARY && IsLeapYear(year) then 29
    else [31, 28, 31, 30, 31, 30, 31, 31, 30, 31, 30, 31][month - 1]
  }

  /** A date-time of the calendar, in any year. */
  predicate Proper(d: DateTime) {
    && 1 <= d.month <= 12 && 1 <= d.day <= DaysInMonth(d.year, d.month)
    && 0 <= d.hour <= 23 && 0 <= d.minute <= 59 && 0 <= d.second <= 59
  }

  predicate IsValid(d: DateTime) {
    1 <= d.year <= 9999 && Proper(d)
  }

  // ---------- Counting days ----------

  /** The days of the months before `month`. */
  function DaysBefore(year: int, month: int): int
    requires 1 <= month <= 12
  {
    if month == 1 then 0 else DaysBefore(year, month - 1) + DaysInMonth(year, month - 1)
  }

  /** The day within the year, by adding up the months. */
  method YearDay(d: DateTime) returns (r: Result<int>)
    ensures r == if IsValid(d) then Ok(DaysBefore(d.year, d.month) + d.day) else Err(InvalidDateTime)
  {
    if !IsValid(d) {
      return Err(InvalidDateTime);
    }
    var yearDay := d.day;
    var month := 1;
    while month < d.month
      invariant 1 <= month <= d.month && yearDay == DaysBefore(d.year, month) + d.day
    {
      yearDay := yearDay + DaysInMonth(d.year, month);
      month := month + 1;
    }
    r := Ok(yearDay);
  }

  function YearLength(year: int): int {
    if IsLeapYear(year) then 366 else 365
  }

  /** The days of the years from 1 to before `year`. */
  function DaysBeforeYear(year: int): int
    requires year >= 1
  {
    if year == 1 then 0 else DaysBeforeYear(year - 1) + YearLength(year - 1)
  }

  /** The months make up the year. */
  lemma MonthsFillYear(year: int)
    ensures YearLength(year) == DaysBefore(year, 12) + DaysInMonth(year, 12)
  {
    MonthsAddUp(year, 12);
  }

  /** The closed day count, in eras of 400 years that start in March. */
  function DayNumber(d: DateTime): int {
    var year := if d.month <= 2 then d.year - 1 else d.year;
    var era := Quotient(year, 400);
    var yearOfEra := year - era * 400;
    var monthOfYear := d.month + if d.month > 2 then -3 else 9;
    var dayOfYear := Quotient(153 * monthOfYear + 2, 5) + d.day - 1;
    var dayOfEra := yearOfEra * 365 + Quotient(yearOfEra, 4) - Quotient(yearOfEra, 100) + dayOfYear;
    era * 146097 + dayOfEra
  }

  function ToSeconds(d: DateTime): int {
    DayNumber(d) * 86400 + d.hour * 3600 + d.minute * 60 + d.second
  }

  /** Days before March of a year, counted from March of year 0. */
  function Marches(year: int): int {
    365 * year + year / 4 - year / 100 + year / 400
  }

  lemma MarchesInEras(year: int)
    requires year >= 0
    ensures var era := year / 400; var y := year - era * 400;
      era * 146097 + y * 365 + y / 4 - y / 100 == Marches(year)
  {
    var era, y := year / 400, year % 400;
    assert year == era * 400 + y;
    assert year / 4 == era * 100 + y / 4;
    assert year / 100 == era * 4 + y / 100;
  }

  lemma DivStep(a: int, n: int)
    requires n > 1
    ensures a / n - (a - 1) / n == if a % n == 0 then 1 else 0
  {
    var q, r := a / n, a % n;
    assert a == q * n + r;
    if r == 0 {
      assert a - 1 == (q - 1) * n + (n - 1);
      DivMod(a - 1, q - 1, n - 1, n);
    } else {
      DivMod(a - 1, q, r - 1, n);
    }
  }

  lemma MultipleOfMultiple(a: int, k: int, n: int)
    requires k > 0 && n > 0 && a % (k * n) == 0
    ensures a % n == 0
  {
    var q := a / (k * n);
    assert a == q * (k * n) == (q * k) * n;
    DivMod(a, q * k, 0, n);
  }

  lemma MarchesStep(year: int)
    ensures Marches(year) == Marches(year - 1) + YearLength(year)
  {
    DivStep(year, 4);
    DivStep(year, 100);
    DivStep(year, 400);
    if year % 400 == 0 {
      MultipleOfMultiple(year, 4, 100);
    }
    if year % 100 == 0 {
      MultipleOfMultiple(year, 25, 4);
    }
  }

  lemma {:induction false} YearsAddUp(year: int)
    requires year >= 1
    ensures DaysBeforeYear(year) == Marches(year - 1)
    decreases year
  {
    if year > 1 {
      YearsAddUp(year - 1);
      MarchesStep(year - 1);
    }
  }

  lemma MonthsAddUp(year: int, month: int)
    requires 1 <= month <= 12
    ensures DaysBefore(year, month) ==
      [0, 31, 59, 90, 120, 151, 181, 212, 243, 273, 304, 334][month - 1]
      + if month > 2 && IsLeapYear(year) then 1 else 0
  {
    MonthAddsUp(year, 1, month);
  }

  lemma {:induction false} MonthAddsUp(year: int, from: int, month: int)
    requires 1 <= from <= month <= 12
    ensures DaysBefore(year, month) ==
      [0, 31, 59, 90, 120, 151, 181, 212, 243, 273, 304, 334][month - 1]
      + if month > 2 && IsLeapYear(year) then 1 else 0
    decreases month
  {
    if month > 1 {
      MonthAddsUp(year, 1, month - 1);
    }
  }

  lemma InMarches(d: DateTime)
    requires d.year >= 1 && 1 <= d.month <= 12
    ensures d.month > 2 ==> DayNumber(d) == Marches(d.year) + (153 * (d.month - 3) + 2) / 5 + d.day - 1
    ensures d.month <= 2 ==> DayNumber(d) == Marches(d.year - 1) + (153 * (d.month + 9) + 2) / 5 + d.day - 1
  {
    MarchesInEras(d.year);
    MarchesInEras(d.year - 1);
  }

  /** The closed count agrees with adding up years, months and days. */
  lemma DayNumberAddsUp(d: DateTime)
    requires d.year >= 1 && 1 <= d.month <= 12
    ensures DayNumber(d) == 305 + DaysBeforeYear(d.year) + DaysBefore(d.year, d.month) + d.day
  {
    hide DayNumber, Marches, DaysBefore, DaysBeforeYear;
    InMarches(d);
    MonthsAddUp(d.year, d.month);
    YearsAddUp(d.year);
    MarchesStep(d.year);
  }

  // ---------- Days of the week ----------

  /** Zeller's congruence; 1 is Sunday. */
  function WeekDay(d: DateTime): (r: Result<int>)
    ensures r.Ok? <==> IsValid(d)
  {
    if !IsValid(d) then Err(InvalidDateTime)
    else
      var month := if d.month < 3 then d.month + 12 else d.month;
      var year := if d.month < 3 then d.year - 1 else d.year;
      var century, yearOfCentury := Quotient(year, 100), Remainder(year, 100);
      var day := Remainder(d.day + Quotient(13 * (month + 1), 5) + yearOfCentury + Quotient(yearOfCentury, 4)
                           + Quotient(century, 4) + 5 * century, 7);
      Ok(Remainder(day + 6, 7) + 1)
  }

  /** The sum that the congruence reduces, for the year that starts in March. */
  function ZellerSum(day: int, month: int, year: int): int {
    var j, k := year / 100, year % 100;
    day + 13 * (month + 1) / 5 + k + k / 4 + j / 4 + 5 * j
  }

  lemma WeekDayIsZeller(d: DateTime)
    requires IsValid(d)
    ensures d.month >= 3 ==> WeekDay(d) == Ok((ZellerSum(d.day, d.month, d.year) + 6) % 7 + 1)
    ensures d.month < 3 ==> WeekDay(d) == Ok((ZellerSum(d.day, d.month + 12, d.year - 1) + 6) % 7 + 1)
  {
    SumMod(ZellerSum(d.day, d.month, d.year), 6, 7);
    SumMod(ZellerSum(d.day, d.month + 12, d.year - 1), 6, 7);
  }

  lemma {:induction false} AddSevens(a: int, k: int)
    ensures (a + 7 * k) % 7 == a % 7
  {
    DivMod(a + 7 * k, a / 7 + k, a % 7, 7);
  }

  lemma MarchesWeeks(year: int)
    requires year >= 0
    ensures var j, k := year / 100, year % 100;
      Marches(year) == 7 * (5217 * j + 52 * k) + 5 * j + k + k / 4 + j / 4
  {
    var j, k := year / 100, year % 100;
    assert year == 100 * j + k;
    assert year / 4 == 25 * j + k / 4;
    assert year / 400 == j / 4;
  }

  lemma ZellerFollowsDays(day: int, month: int, year: int)
    requires 3 <= month <= 14 && year >= 0
    ensures (Marches(year) + (153 * (month - 3) + 2) / 5 + day - 1 + 3) % 7 == (ZellerSum(day, month, year) + 6) % 7
  {
    var j, k := year / 100, year % 100;
    var m, z := (153 * (month - 3) + 2) / 5, 13 * (month + 1) / 5;
    MarchesWeeks(year);
    MonthShift(month);
    var t := (m - z + 3) / 7;
    assert m - z + 3 == 7 * t;
    var q := 5217 * j + 52 * k;
    hide Marches;
    AddSevens(ZellerSum(day, month, year) + 6, q + t - 1);
  }

  /** The congruence advances by one with every day: day 0, the first of March of year 0, is a Wednesday. */
  lemma WeekDayAdvances(d: DateTime)
    requires IsValid(d)
    ensures WeekDay(d) == Ok((DayNumber(d) + 3) % 7 + 1)
  {
    hide DayNumber, Marches, WeekDay, ZellerSum;
    InMarches(d);
    WeekDayIsZeller(d);
    if d.month < 3 {
      ZellerFollowsDays(d.day, d.month + 12, d.year - 1);
    } else {
      ZellerFollowsDays(d.day, d.month, d.year);
    }
  }

  lemma MonthShift(month: int)
    requires 3 <= month <= 14
    ensures ((153 * (month - 3) + 2) / 5 - 13 * (month + 1) / 5 + 3) % 7 == 0
  {
  }

  // ---------- Order ----------

  /** Field by field, the first difference decides. */
  predicate IsBefore(a: DateTime, b: DateTime) {
    if a.year != b.year then a.year < b.year
    else if a.month != b.month then a.month < b.month
    else if a.day != b.day then a.day < b.day
    else if a.hour != b.hour then a.hour < b.hour
    else if a.minute != b.minute then a.minute < b.minute
    else a.second < b.second
  }

  function Compare(a: DateTime, b: DateTime): int {
    if IsBefore(b, a) then 1 else if IsBefore(a, b) then -1 else 0
  }

  /** The year that starts in March, and the month counted from there. */
  function MarchYear(d: DateTime): int {
    if d.month <= 2 then d.year - 1 else d.year
  }

  function MarchMonth(d: DateTime): int {
    if d.month <= 2 then d.month + 9 else d.month - 3
  }

  /**
     The seconds since March of year 0, for any year and for days, hours, minutes and seconds out of their
     ranges too.
   */
  function Seconds(d: DateTime): int {
    (Marches(MarchYear(d)) + (153 * MarchMonth(d) + 2) / 5 + d.day - 1) * 86400
    + d.hour * 3600 + d.minute * 60 + d.second
  }

  lemma SecondsAgree(d: DateTime)
    requires d.year >= 1 && 1 <= d.month <= 12
    ensures ToSeconds(d) == Seconds(d)
  {
    hide DayNumber, Marches;
    InMarches(d);
  }

  lemma {:induction false} MarchesGrow(a: int, b: int)
    requires a < b
    ensures Marches(a) + YearLength(a + 1) <= Marches(b)
    decreases b - a
  {
    hide Marches;
    MarchesStep(b);
    if a + 1 < b {
      MarchesGrow(a, b - 1);
    }
  }

  lemma InMarchYear(d: DateTime)
    requires Proper(d)
    ensures var days := (153 * MarchMonth(d) + 2) / 5;
      && 0 <= days && days + d.day <= YearLength(MarchYear(d) + 1)
      && forall m | MarchMonth(d) < m <= 11 :: days + d.day <= (153 * m + 2) / 5
  {
    var offsets := [0, 31, 61, 92, 122, 153, 184, 214, 245, 275, 306, 337];
    assert forall m | 0 <= m <= 11 :: offsets[m] == (153 * m + 2) / 5;
  }

  lemma TimeOfDay(d: DateTime)
    requires Proper(d)
    ensures 0 <= d.hour * 3600 + d.minute * 60 + d.second < 86400
  {
  }

  lemma Earlier(a: DateTime, b: DateTime)
    requires Proper(a) && Proper(b) && IsBefore(a, b)
    ensures Seconds(a) < Seconds(b)
  {
    hide Marches, DaysInMonth;
    InMarchYear(a);
    InMarchYear(b);
    TimeOfDay(a);
    TimeOfDay(b);
    if MarchYear(a) < MarchYear(b) {
      MarchesGrow(MarchYear(a), MarchYear(b));
    }
  }

  /** The order is that of the seconds, in all years. */
  lemma SecondsInOrder(a: DateTime, b: DateTime)
    requires Proper(a) && Proper(b)
    ensures IsBefore(a, b) <==> Seconds(a) < Seconds(b)
    ensures a == b <==> Seconds(a) == Seconds(b)
  {
    hide Seconds, Proper;
    if IsBefore(a, b) {
      Earlier(a, b);
    } else if IsBefore(b, a) {
      Earlier(b, a);
    }
  }

  /** A date-time comes before another one exactly when its seconds are fewer. */
  lemma SecondsFollowOrder(a: DateTime, b: DateTime)
    requires IsValid(a) && IsValid(b)
    ensures IsBefore(a, b) <==> ToSeconds(a) < ToSeconds(b)
    ensures a == b <==> ToSeconds(a) == ToSeconds(b)
  {
    hide ToSeconds, Seconds;
    SecondsAgree(a);
    SecondsAgree(b);
    SecondsInOrder(a, b);
  }

  // ---------- No gaps ----------

  const FIRST := DateTime(1, 1, 1, 0, 0, 0)
  const LAST := DateTime(9999, 12, 31, 23, 59, 59)

  /** The next second, carried as far as need be. */
  function Tick(d: DateTime): DateTime
    requires Proper(d)
  {
    if d.second < 59 then d.(second := d.second + 1)
    else if d.minute < 59 then d.(minute := d.minute + 1, second := 0)
    else if d.hour < 23 then d.(hour := d.hour + 1, minute := 0, second := 0)
    else if d.day < DaysInMonth(d.year, d.month) then DateTime(d.year, d.month, d.day + 1, 0, 0, 0)
    else if d.month < 12 then DateTime(d.year, d.month + 1, 1, 0, 0, 0)
    else DateTime(d.year + 1, 1, 1, 0, 0, 0)
  }

  lemma NextDay(d: DateTime, e: DateTime)
    requires IsValid(d) && e.year >= 1 && 1 <= e.month <= 12
    requires e.year == d.year && e.month == d.month ==> e.day == d.day + 1
    requires e.year == d.year && e.month != d.month ==>
      e.month == d.month + 1 && d.day == DaysInMonth(d.year, d.month) && e.day == 1
    requires e.year != d.year ==>
      e.year == d.year + 1 && d.month == 12 && d.day == DaysInMonth(d.year, 12) && e.month == e.day == 1
    ensures DayNumber(e) == DayNumber(d) + 1
  {
    hide DayNumber, DaysInMonth, YearLength;
    DayNumberAddsUp(d);
    DayNumberAddsUp(e);
    MonthsFillYear(d.year);
  }

  lemma Ticked(d: DateTime)
    requires IsValid(d) && d != LAST
    ensures IsValid(Tick(d)) && ToSeconds(Tick(d)) == ToSeconds(d) + 1
  {
    hide DayNumber;
    var e := Tick(d);
    if e.hour == 0 && d.hour == 23 {
      NextDay(d, e);
    } else {
      SameDay(d, e);
    }
  }

  lemma SameDay(d: DateTime, e: DateTime)
    requires e.year == d.year && e.month == d.month && e.day == d.day
    ensures DayNumber(e) == DayNumber(d)
  {
  }

  /** Every number of seconds from the first to the last valid date-time is that of one. */
  lemma {:induction false} NoGap(seconds: int) returns (d: DateTime)
    requires ToSeconds(FIRST) <= seconds <= ToSeconds(LAST)
    ensures IsValid(d) && ToSeconds(d) == seconds
    decreases seconds - ToSeconds(FIRST)
  {
    hide ToSeconds;
    if seconds == ToSeconds(FIRST) {
      d := FIRST;
    } else {
      var before := NoGap(seconds - 1);
      Ticked(before);
      d := Tick(before);
    }
  }

  // ---------- Months ----------

  /** The months since year 0; the fields of a result follow from it. */
  function MonthIndex(d: DateTime): int {
    d.year * 12 + d.month - 1
  }

  /** The day moves back to the end of a shorter month. */
  function InMonth(d: DateTime, index: int): DateTime {
    var year, month := index / 12, index % 12 + 1;
    var last := DaysInMonth(year, month);
    d.(year := year, month := month, day := if d.day > last then last else d.day)
  }

  datatype TimeUnit = Year | Month | Week | Day | Hour | Minute | Second

  function Months(value: int, unit: TimeUnit): int {
    if unit.Year? then 12 * value else value
  }

  function SecondsIn(unit: TimeUnit): int
    requires !unit.Year? && !unit.Month?
    ensures SecondsIn(unit) > 0
  {
    match unit
    case Week => 604800
    case Day => 86400
    case Hour => 3600
    case Minute => 60
    case Second => 1
  }

  /** The fields as they are handed to `mktime`: in the right month, or with one of the others out of its range. */
  function Sum(d: DateTime, value: int, unit: TimeUnit): DateTime {
    match unit
    case Year => InMonth(d, MonthIndex(d) + Months(value, unit))
    case Month => InMonth(d, MonthIndex(d) + Months(value, unit))
    case Week => d.(day := d.day + value * 7)
    case Day => d.(day := d.day + value)
    case Hour => d.(hour := d.hour + value)
    case Minute => d.(minute := d.minute + value)
    case Second => d.(second := d.second + value)
  }

  /** What is asked of `mktime`: a result is the date-time with as many seconds. Clocks that change do otherwise. */
  ghost predicate Normalises(mktime: DateTime -> Option<DateTime>) {
    forall t: DateTime :: 1 <= t.month <= 12 && mktime(t).Some? ==>
      Proper(mktime(t).value) && Seconds(mktime(t).value) == Seconds(t)
  }

  /** Adding to a date-time: what `mktime` makes of the fields, unless it fails or the year is out of range. */
  method Plus(d: DateTime, value: int, unit: TimeUnit, mktime: DateTime -> Option<DateTime>)
    returns (r: Result<DateTime>)
    ensures !IsValid(d) ==> r == Err(InvalidDateTime)
    ensures IsValid(d) ==>
      var t := mktime(Sum(d, value, unit));
      r == if t == None then Err(CalculationFailed) else if IsValid(t.value) then Ok(t.value) else Err(InvalidDateTime)
  {
    if !IsValid(d) {
      return Err(InvalidDateTime);
    }
    var sum := d;
    match unit {
      case Year => sum := sum.(year := sum.year + value);
      case Month => sum := sum.(month := sum.month + value);
      case Week => sum := sum.(day := sum.day + value * 7);
      case Day => sum := sum.(day := sum.day + value);
      case Hour => sum := sum.(hour := sum.hour + value);
      case Minute => sum := sum.(minute := sum.minute + value);
      case Second => sum := sum.(second := sum.second + value);
    }
    if unit.Year? || unit.Month? {
      sum := Carried(sum);
    }
    assert sum == Sum(d, value, unit);
    var t := mktime(sum);
    r := if t == None then Err(CalculationFailed) else if IsValid(t.value) then Ok(t.value) else Err(InvalidDateTime);
  }

  /** Carries months out of range over to the year and moves the day back into the month. */
  method Carried(d: DateTime) returns (r: DateTime)
    ensures r == InMonth(d, MonthIndex(d))
  {
    var year, month, day := d.year, d.month, d.day;
    while month > 12
      invariant 12 * year + month - 1 == MonthIndex(d)
      decreases month
    {
      month := month - 12;
      year := year + 1;
    }
    while month < 1
      invariant 12 * year + month - 1 == MonthIndex(d) && month <= 12
      decreases 12 - month
    {
      month := month + 12;
      year := year - 1;
    }
    DivMod(MonthIndex(d), year, month - 1, 12);
    var maxDay := DaysInMonth(year, month);
    if day > maxDay {
      day := maxDay;
    }
    r := d.(year := year, month := month, day := day);
  }

  /**
     Adding is exact: years and months lead to the month that many months on, its end at the latest, and
     the smaller units to the date-time that many seconds later or earlier.
   */
  lemma PlusIsExact(d: DateTime, value: int, unit: TimeUnit, mktime: DateTime -> Option<DateTime>)
    requires IsValid(d) && Normalises(mktime) && mktime(Sum(d, value, unit)).Some?
    ensures var t := mktime(Sum(d, value, unit)).value;
      if unit.Year? || unit.Month? then
        && t == InMonth(d, MonthIndex(d) + Months(value, unit))
        && 12 * t.year + t.month == 12 * d.year + d.month + (if unit.Year? then 12 * value else value)
        && t.day <= d.day && (t.day == d.day || t.day == DaysInMonth(t.year, t.month))
        && t.hour == d.hour && t.minute == d.minute && t.second == d.second
      else Seconds(t) == Seconds(d) + value * SecondsIn(unit)
           && (t.year >= 1 ==> ToSeconds(t) == ToSeconds(d) + value * SecondsIn(unit))
  {
    hide Marches, InMonth, ToSeconds;
    var sum := Sum(d, value, unit);
    var t := mktime(sum).value;
    if unit.Year? || unit.Month? {
      InMonthIsProper(d, MonthIndex(d) + Months(value, unit));
      InMonthMeans(d, MonthIndex(d) + Months(value, unit));
      SecondsInOrder(t, sum);
    } else {
      SecondsAgree(d);
      if t.year >= 1 {
        SecondsAgree(t);
      }
    }
  }

  /** The day stays as it is, or moves back to the last one of the month, and the time of day stays. */
  lemma InMonthMeans(d: DateTime, index: int)
    requires IsValid(d)
    ensures var t := InMonth(d, index);
      && 12 * t.year + t.month - 1 == index && 1 <= t.month <= 12
      && t.day <= d.day && (t.day == d.day || t.day == DaysInMonth(t.year, t.month))
      && t.hour == d.hour && t.minute == d.minute && t.second == d.second
  {
    MonthOf(d, index);
  }

  lemma InMonthIsProper(d: DateTime, index: int)
    requires IsValid(d)
    ensures Proper(InMonth(d, index)) && 1 <= InMonth(d, index).month <= 12
  {
  }

  /** The whole months from one date-time to another. */
  function MonthsBetween(a: DateTime, b: DateTime): int {
    var months := MonthIndex(b) - MonthIndex(a);
    var c := Compare(InMonth(a, MonthIndex(a) + months), b);
    if months > 0 && c > 0 then months - 1 else if months < 0 && c < 0 then months + 1 else months
  }

  lemma MonthOf(d: DateTime, index: int)
    ensures MonthIndex(InMonth(d, index)) == index
    ensures 1 <= InMonth(d, index).month <= 12
  {
    assert index == index / 12 * 12 + index % 12;
  }

  lemma MonthsDecide(a: DateTime, b: DateTime)
    requires 1 <= a.month <= 12 && 1 <= b.month <= 12
    ensures MonthIndex(a) < MonthIndex(b) ==> IsBefore(a, b)
  {
  }

  /**
     The difference is exact: that many months from `a` do not pass `b`, and one more in the same
     direction does.
   */
  lemma DifferenceIsExact(a: DateTime, b: DateTime)
    requires IsValid(a) && IsValid(b)
    ensures var k := MonthsBetween(a, b); var i := MonthIndex(a);
      if IsBefore(b, a)
      then k <= 0 && !IsBefore(InMonth(a, i + k), b) && IsBefore(InMonth(a, i + k - 1), b)
      else k >= 0 && !IsBefore(b, InMonth(a, i + k)) && IsBefore(b, InMonth(a, i + k + 1))
  {
    hide InMonth;
    var k, i := MonthsBetween(a, b), MonthIndex(a);
    SameMonth(a);
    Moved(a, i, b);
    Moved(a, i + k, b);
    Moved(a, i + k - 1, b);
    Moved(a, i + k + 1, b);
    Moved(a, MonthIndex(b), b);
  }

  /** Any smaller number of months stays on this side of `b` and any larger one passes it. */
  lemma Reaches(a: DateTime, b: DateTime, j: int)
    requires IsValid(a) && IsValid(b)
    ensures var k, x := MonthsBetween(a, b), InMonth(a, MonthIndex(a) + j);
      if IsBefore(b, a) then !IsBefore(x, b) <==> j >= k else !IsBefore(b, x) <==> j <= k
  {
    hide InMonth, IsBefore, MonthsBetween, IsValid;
    var k, i := MonthsBetween(a, b), MonthIndex(a);
    DifferenceIsExact(a, b);
    Moved(a, i + j, b);
    Moved(a, i + k, b);
    Moved(a, i + k - 1, b);
    Moved(a, i + k + 1, b);
  }

  lemma Moved(a: DateTime, index: int, b: DateTime)
    requires IsValid(b)
    ensures index < MonthIndex(b) ==> IsBefore(InMonth(a, index), b) && !IsBefore(b, InMonth(a, index))
    ensures index > MonthIndex(b) ==> IsBefore(b, InMonth(a, index)) && !IsBefore(InMonth(a, index), b)
  {
    MonthOf(a, index);
    MonthsDecide(InMonth(a, index), b);
    MonthsDecide(b, InMonth(a, index));
  }

  lemma SameMonth(a: DateTime)
    requires IsValid(a)
    ensures InMonth(a, MonthIndex(a)) == a
  {
    DivMod(MonthIndex(a), a.year, a.month - 1, 12);
  }

  /** The difference in a unit; both divisions round towards zero. */
  function Between(a: DateTime, b: DateTime, unit: TimeUnit): int {
    if unit.Year? then Quotient(MonthsBetween(a, b), 12)
    else if unit.Month? then MonthsBetween(a, b)
    else Quotient(ToSeconds(b) - ToSeconds(a), SecondsIn(unit))
  }

  /** So is the difference in years, in whole years. */
  lemma YearsAreExact(a: DateTime, b: DateTime)
    requires IsValid(a) && IsValid(b)
    ensures var y, i := Between(a, b, Year), MonthIndex(a);
      if IsBefore(b, a)
      then y <= 0 && !IsBefore(InMonth(a, i + 12 * y), b) && IsBefore(InMonth(a, i + 12 * (y - 1)), b)
      else y >= 0 && !IsBefore(b, InMonth(a, i + 12 * y)) && IsBefore(b, InMonth(a, i + 12 * (y + 1)))
  {
    hide InMonth, IsBefore, MonthsBetween, IsValid;
    var y := Quotient(MonthsBetween(a, b), 12);
    DifferenceIsExact(a, b);
    QuotientRemainder(MonthsBetween(a, b), 12);
    Reaches(a, b, 12 * y);
    Reaches(a, b, 12 * (y - 1));
    Reaches(a, b, 12 * (y + 1));
  }

  /** The units nest, and a second is the smallest step there is. */
  lemma UnitsNest()
    ensures SecondsIn(Second) == 1 && SecondsIn(Minute) == 60 * SecondsIn(Second)
    ensures SecondsIn(Hour) == 60 * SecondsIn(Minute) && SecondsIn(Day) == 24 * SecondsIn(Hour)
    ensures SecondsIn(Week) == 7 * SecondsIn(Day)
  {
  }

  /** The same time on the next day of a month comes a day later. */
  lemma DayLater(d: DateTime)
    requires IsValid(d) && d.day < DaysInMonth(d.year, d.month)
    ensures Between(d, d.(day := d.day + 1), Day) == 1
    ensures ToSeconds(d.(day := d.day + 1)) == ToSeconds(d) + SecondsIn(Day)
  {
    hide DayNumber;
    NextDay(d, d.(day := d.day + 1));
  }

  /** Weeks to seconds count whole units, rounded towards zero: what is left over is less than one. */
  lemma DifferenceRounds(a: DateTime, b: DateTime, unit: TimeUnit)
    requires !unit.Year? && !unit.Month?
    ensures var k, n, s := Between(a, b, unit), SecondsIn(unit), ToSeconds(b) - ToSeconds(a);
      if s >= 0 then k * n <= s < k * n + n else k * n - n < s <= k * n
  {
    hide ToSeconds, SecondsIn;
    QuotientRemainder(ToSeconds(b) - ToSeconds(a), SecondsIn(unit));
  }

  /** Adding in any unit and taking the difference is a round trip, clamped days included. */
  lemma DifferenceUndoesPlus(a: DateTime, value: int, unit: TimeUnit, mktime: DateTime -> Option<DateTime>)
    requires IsValid(a) && Normalises(mktime)
    ensures var t := mktime(Sum(a, value, unit)); t.Some? && IsValid(t.value) ==> Between(a, t.value, unit) == value
  {
    hide ToSeconds, Seconds, InMonth, Sum, IsValid, Proper;
    var t := mktime(Sum(a, value, unit));
    if t.Some? && IsValid(t.value) {
      PlusIsExact(a, value, unit, mktime);
      if unit.Year? || unit.Month? {
        MonthsRoundTrip(a, Months(value, unit));
        WholeQuotient(value, 12);
      } else {
        ValidYear(t.value);
        WholeQuotient(value, SecondsIn(unit));
      }
    }
  }

  lemma ValidYear(d: DateTime)
    requires IsValid(d)
    ensures d.year >= 1
  {
  }

  lemma WholeQuotient(k: int, n: int)
    requires n > 0
    ensures Quotient(k * n, n) == k && Quotient(n * k, n) == k
  {
    if k * n >= 0 {
      DivMod(k * n, k, 0, n);
    } else {
      DivMod(-(k * n), -k, 0, n);
    }
  }

  lemma MonthsRoundTrip(a: DateTime, k: int)
    requires IsValid(a)
    ensures MonthsBetween(a, InMonth(a, MonthIndex(a) + k)) == k
  {
    MonthOf(a, MonthIndex(a) + k);
  }

  /** The comparison by the three field-by-field tests, each of which fails on an invalid date-time. */
  method CompareChecked(a: DateTime, b: DateTime) returns (c: int, error: Option<Error>)
    ensures IsValid(a) && IsValid(b) ==> c == Compare(a, b) && error == None
    ensures !(IsValid(a) && IsValid(b)) ==> c == 0 && error == Some(InvalidDateTime)
  {
    if !IsValid(a) || !IsValid(b) {
      return 0, Some(InvalidDateTime);
    }
    c, error := Compare(a, b), None;
  }

  /**
     The difference, and the last error raised on the way. When `mktime` fails the calculation goes on with
     a date-time of zeros, whose comparison fails in turn, and the months are left as they are.
   */
  method Difference(a: DateTime, b: DateTime, unit: TimeUnit, mktime: DateTime -> Option<DateTime>)
    returns (difference: int, error: Option<Error>)
    ensures !(IsValid(a) && IsValid(b)) ==> difference == -1 && error == Some(InvalidDateTime)
    ensures IsValid(a) && IsValid(b) && !unit.Year? && !unit.Month? ==>
      difference == Between(a, b, unit) && error == None
    ensures IsValid(a) && IsValid(b) && (unit.Year? || unit.Month?) && Normalises(mktime) ==>
      if mktime(InMonth(a, MonthIndex(b))).Some? then difference == Between(a, b, unit) && error == None
      else
        && error == Some(InvalidDateTime)
        && var months := MonthIndex(b) - MonthIndex(a);
        difference == if unit.Year? then Quotient(months, 12) else months
  {
    hide ToSeconds, Seconds, InMonth, Normalises, Proper, IsBefore, DaysInMonth;
    if !IsValid(a) || !IsValid(b) {
      return -1, Some(InvalidDateTime);
    }
    if unit.Year? || unit.Month? {
      var months := (b.year - a.year) * 12 + b.month - a.month;
      ghost var normal := Normalises(mktime);
      if normal && mktime(Sum(a, months, Month)).Some? {
        PlusIsExact(a, months, Month, mktime);
        OtherMonth(a, b);
      }
      var sum := Plus(a, months, Month, mktime);
      var adjusted := if sum.Ok? then sum.value else DateTime(0, 0, 0, 0, 0, 0);
      var comparison;
      comparison, error := CompareChecked(adjusted, b);
      if (months > 0 && comparison > 0) || (months < 0 && comparison < 0) {
        months := months + if months > 0 then -1 else 1;
      }
      difference := if unit.Year? then Quotient(months, 12) else months;
    } else {
      difference, error := Quotient(ToSeconds(b) - ToSeconds(a), SecondsIn(unit)), None;
    }
  }

  /** Moving to the month of a valid date-time gives a valid one. */
  lemma OtherMonth(a: DateTime, b: DateTime)
    requires IsValid(a) && IsValid(b)
    ensures IsValid(InMonth(a, MonthIndex(b)))
  {
    DivMod(MonthIndex(b), b.year, b.month - 1, 12);
  }
}
