/** Broken-down times as seconds since 1970, against the Gregorian calendar counted day by day. */
module CalendarTime {

  const DAY := 86400

  // ---- The calendar ----

  predicate IsLeap(y: int) {
    y % 4 == 0 && (y % 100 != 0 || y % 400 == 0)
  }

  /** Months are counted from 0. */
  function DaysInMonth(y: int, m: int): int
    requires 0 <= m < 12
  {
    if m == 1 then if IsLeap(y) then 29 else 28
    else if m == 3 || m == 5 || m == 8 || m == 10 then 30
    else 31
  }

  /** The days of the months before m. */
  function DaysBefore(y: int, m: int): int
    requires 0 <= m <= 12
  {
    if m == 0 then 0 else DaysBefore(y, m - 1) + DaysInMonth(y, m - 1)
  }

  /** The days from the beginning of 1970 to the beginning of y, year by year. */
  function DaysToYear(y: int): int
    decreases if y < 1970 then 1970 - y else y - 1970
  {
    if y == 1970 then 0
    else if y > 1970 then DaysToYear(y - 1) + DaysBefore(y - 1, 12)
    else DaysToYear(y + 1) - DaysBefore(y, 12)
  }

  datatype Date = Date(y: int, m: int, d: int) {
    predicate Valid() {
      0 <= m < 12 && 1 <= d <= DaysInMonth(y, m)
    }

    function Next(): Date
      requires Valid()
    {
      if d < DaysInMonth(y, m) then Date(y, m, d + 1)
      else if m < 11 then Date(y, m + 1, 1)
      else Date(y + 1, 0, 1)
    }
  }

  function DayNumber(date: Date): int
    requires 0 <= date.m < 12
  {
    DaysToYear(date.y) + DaysBefore(date.y, date.m) + date.d - 1
  }

  /** The count starts at the first of January 1970 and goes up by one every day. */
  lemma DayByDay(date: Date)
    requires date.Valid()
    ensures date.Next().Valid() && DayNumber(date.Next()) == DayNumber(date) + 1
    ensures DayNumber(Date(1970, 0, 1)) == 0
  {
    if date.m == 11 && date.d == 31 {
      YearAfter(date.y);
    }
  }

  lemma YearAfter(y: int)
    ensures DaysToYear(y + 1) == DaysToYear(y) + DaysBefore(y, 12)
  {}

  // ---- The code ----

  /** The C operators / and %, which cut off towards zero. */
  function Quotient(a: int, b: int): int
    requires b > 0
  {
    if a >= 0 then a / b else -(-a / b)
  }

  function Remainder(a: int, b: int): int
    requires b > 0
  {
    a - b * Quotient(a, b)
  }

  /** `struct tm`: years since 1900, months from 0, of which there may be any number. */
  datatype Tm = Tm(year: int, mon: int, mday: int, hour: int, min: int, sec: int)

  /** The table of days before each month of a year that is not leap. */
  const MONTH_DAY: seq<int> := [0, 31, 59, 90, 120, 151, 181, 212, 243, 273, 304, 334]

  /** Year and month after the month has been brought between 0 and 11. */
  function Normal(tm: Tm): (r: (int, int))
    ensures 0 <= r.1 < 12
  {
    var month, year := Remainder(tm.mon, 12), tm.year + Quotient(tm.mon, 12);
    if month < 0 then (year - 1, month + 12) else (year, month)
  }

  /** The Februaries since 1900. */
  function YearForLeap(tm: Tm): int {
    var (year, month) := Normal(tm);
    if month > 1 then year + 1 else year
  }

  function Days(tm: Tm): int {
    var (year, month) := Normal(tm);
    var leap := YearForLeap(tm);
    MONTH_DAY[month] + tm.mday - 1 + 365 * (year - 70)
    + Quotient(leap - 69, 4) - Quotient(leap - 1, 100) + Quotient(leap + 299, 400)
  }

  /** `cs_timegm`, where its sums stay within an int. */
  function TimeGm(tm: Tm): int {
    var rt := tm.sec + 60 * (tm.min + 60 * (tm.hour + 24 * Days(tm)));
    if rt < 0 then -1 else rt
  }

  // ---- The code against the calendar ----

  /** The seconds since 1970 by the calendar, with the months carried into years. */
  function Seconds(tm: Tm): int {
    var (year, month) := (tm.year + tm.mon / 12, tm.mon % 12);
    tm.sec + 60 * (tm.min + 60 * (tm.hour + 24 * DayNumber(Date(1900 + year, month, tm.mday))))
  }

  /** The leap years from 1970 up to y, less those from y up to 1970. */
  function LeapDays(y: int): int {
    (y - 1969) / 4 - (y - 1901) / 100 + (y - 1601) / 400
  }

  lemma {:induction false} YearsInClosedForm(y: int)
    ensures DaysToYear(y) == 365 * (y - 1970) + LeapDays(y)
    decreases if y < 1970 then 1970 - y else y - 1970
  {
    hide DaysBefore, LeapDays, IsLeap;
    assert LeapDays(1970) == 0 by { NoLeapDays(); }
    if y > 1970 {
      YearsInClosedForm(y - 1);
      YearLength(y - 1);
      LeapStep(y - 1);
    } else if y < 1970 {
      YearsInClosedForm(y + 1);
      YearLength(y);
      LeapStep(y);
    }
  }

  lemma YearLength(y: int)
    ensures DaysBefore(y, 12) == if IsLeap(y) then 366 else 365
    ensures forall m :: 0 <= m < 12 ==> DaysBefore(y, m) == MONTH_DAY[m] + if m > 1 && IsLeap(y) then 1 else 0
  {
    assert DaysBefore(y, 1) == 31;
    assert DaysBefore(y, 3) == if IsLeap(y) then 91 - 1 + 1 else 90;
    assert DaysBefore(y, 5) == DaysBefore(y, 3) + 61;
    assert DaysBefore(y, 7) == DaysBefore(y, 5) + 61;
    assert DaysBefore(y, 9) == DaysBefore(y, 7) + 61;
    assert DaysBefore(y, 11) == DaysBefore(y, 9) + 61;
  }

  lemma NoLeapDays()
    ensures LeapDays(1970) == 0
  {}

  lemma LeapStep(y: int)
    ensures LeapDays(y + 1) == LeapDays(y) + if IsLeap(y) then 1 else 0
  {
    Every4(y);
    Every100(y);
    Every400(y);
  }

  lemma Every4(y: int)
    ensures (y - 1968) / 4 - (y - 1969) / 4 == if y % 4 == 0 then 1 else 0
  {}

  lemma Every100(y: int)
    ensures (y - 1900) / 100 - (y - 1901) / 100 == if y % 100 == 0 then 1 else 0
    ensures y % 100 == 0 ==> y % 4 == 0
  {}

  lemma Every400(y: int)
    ensures (y - 1600) / 400 - (y - 1601) / 400 == if y % 400 == 0 then 1 else 0
    ensures y % 400 == 0 ==> y % 100 == 0
  {}

  lemma NormalIsFloor(tm: Tm)
    ensures Normal(tm) == (tm.year + tm.mon / 12, tm.mon % 12)
  {}

  /** The number of days, with divisions that round down. */
  lemma DaysInClosedForm(tm: Tm)
    ensures var (year, month) := Normal(tm);
            var leap := YearForLeap(tm);
            DayNumber(Date(1900 + year, month, tm.mday))
            == MONTH_DAY[month] + tm.mday - 1 + 365 * (year - 70)
               + (leap - 69) / 4 - (leap - 1) / 100 + (leap + 299) / 400
  {
    hide Normal, DaysToYear, DaysBefore, LeapDays, IsLeap;
    var (year, month) := Normal(tm);
    YearsInClosedForm(1900 + year);
    YearLength(1900 + year);
    LeapStep(1900 + year);
    LeapDaysTo(YearForLeap(tm));
  }

  lemma LeapDaysTo(leap: int)
    ensures LeapDays(1900 + leap) == (leap - 69) / 4 - (leap - 1) / 100 + (leap + 299) / 400
  {}

  /** From 1900 on, the days are right but for those from before March 1968 whose leap years do not come out even. */
  lemma DaysAreRightIff(tm: Tm)
    requires Normal(tm).0 >= 0
    ensures var (year, month) := Normal(tm);
            var leap := YearForLeap(tm);
            Days(tm) == DayNumber(Date(1900 + year, month, tm.mday)) <==> leap >= 69 || leap % 4 == 1 || leap == 0
    ensures var (year, month) := Normal(tm);
            0 <= Days(tm) - DayNumber(Date(1900 + year, month, tm.mday)) <= 1
  {
    hide DaysToYear, DaysBefore;
    DaysInClosedForm(tm);
    var leap := YearForLeap(tm);
    CutOff(leap);
  }

  lemma CutOff(leap: int)
    requires leap >= 0
    ensures Quotient(leap - 69, 4) - (leap - 69) / 4 == if leap >= 69 || leap % 4 == 1 then 0 else 1
    ensures Quotient(leap - 1, 100) - (leap - 1) / 100 == if leap == 0 then 1 else 0
    ensures Quotient(leap + 299, 400) == (leap + 299) / 400
  {}

  /** From March 1968 on, whatever the other fields: the seconds since 1970, or -1 for a time before. */
  lemma TimeGmIsSeconds(tm: Tm)
    requires YearForLeap(tm) >= 69
    ensures TimeGm(tm) == if Seconds(tm) < 0 then -1 else Seconds(tm)
  {
    hide DaysToYear, DaysBefore;
    NormalIsFloor(tm);
    DaysAreRightIff(tm);
  }

  /** And from 1900 on, when the day and the time of day are not carried. */
  lemma TimeGmIsSecondsWhenInRange(tm: Tm)
    requires Normal(tm).0 >= 0 && 1 <= tm.mday <= 31 && 0 <= tm.hour < 24 && 0 <= tm.min < 60 && 0 <= tm.sec <= 60
    ensures TimeGm(tm) == if Seconds(tm) < 0 then -1 else Seconds(tm)
  {
    hide DaysToYear, DaysBefore;
    NormalIsFloor(tm);
    DaysAreRightIff(tm);
    DaysInClosedForm(tm);
  }

  // ---- Dates in HTTP headers ----

  /** `mg_num_leap_years`, of a year after 1970. */
  function LeapYears(year: int): int {
    year / 4 - year / 100 + year / 400
  }

  /** What `mg_parse_date_string` makes of the six fields it has scanned, where its sums stay within an int. */
  function ParseDate(day: int, month: int, year: int, hour: int, minute: int, second: int): int
    requires 0 <= month < 12
  {
    if year <= 1970 then 0
    else
      var leapDays := LeapYears(year) - LeapYears(1970);
      var days := (year - 1970) * 365 + MONTH_DAY[month] + (day - 1) + leapDays;
      days * 24 * 3600 + hour * 3600 + minute * 60 + second
  }

  /** It is the seconds since 1970, but in January and February of leap years, where it is a day late. */
  lemma ParseDateIsLate(day: int, month: int, year: int, hour: int, minute: int, second: int)
    requires 0 <= month < 12 && year > 1970
    ensures ParseDate(day, month, year, hour, minute, second)
            == Seconds(Tm(year - 1900, month, day, hour, minute, second)) + if IsLeap(year) && month < 2 then DAY else 0
  {
    YearsInClosedForm(year);
    YearLength(year);
    LeapStep(year);
    LeapCounts(year);
    hide DaysToYear, DaysBefore, IsLeap;
  }

  lemma LeapCounts(y: int)
    ensures y / 4 - 492 == (y - 1968) / 4 && y / 100 - 19 == (y - 1900) / 100 && y / 400 - 4 == (y - 1600) / 400
  {}

  /** The two agree on dates after 1970 exactly outside January and February of leap years. */
  lemma ParseDateAgreesIff(day: int, month: int, year: int, hour: int, minute: int, second: int)
    requires 0 <= month < 12 && year > 1970 && 1 <= day && 0 <= hour && 0 <= minute && 0 <= second
    ensures ParseDate(day, month, year, hour, minute, second)
            == TimeGm(Tm(year - 1900, month, day, hour, minute, second))
            <==> !(IsLeap(year) && month < 2)
  {
    hide DaysToYear, DaysBefore, Days, ParseDate;
    var tm := Tm(year - 1900, month, day, hour, minute, second);
    NormalIsFloor(tm);
    TimeGmIsSeconds(tm);
    ParseDateIsLate(day, month, year, hour, minute, second);
    NotNegative(tm);
  }

  lemma NotNegative(tm: Tm)
    requires tm.year > 70 && 0 <= tm.mon < 12 && tm.mday >= 1 && tm.hour >= 0 && tm.min >= 0 && tm.sec >= 0
    ensures Seconds(tm) >= 0
  {
    YearsInClosedForm(1900 + tm.year);
    YearLength(1900 + tm.year);
    LeapDaysTo(tm.year);
    hide DaysToYear, DaysBefore;
  }
}
