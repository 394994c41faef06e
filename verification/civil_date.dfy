/** Civil dates: the seconds-to-date conversion of the report renderer and the
    proleptic Gregorian calendar it has to invert. */
module CivilDate {

  datatype Date = Date(year: int, month: int, day: int)

  /** A rendered instant: a calendar date and a time of day. */
  datatype Instant = Instant(date: Date, hour: int, minute: int, second: int)

  const SECONDS_PER_DAY := 86_400
  const EPOCH := Date(1970, 1, 1)

  // ----- The calendar, stated without reference to the conversion -----

  /** The leap-year rule of Appendix C of RFC 3339. */
  predicate IsLeap(year: int) {
    year % 4 == 0 && (year % 100 != 0 || year % 400 == 0)
  }

  function DaysInMonth(year: int, month: int): int {
    if month == 2 then (if IsLeap(year) then 29 else 28)
    else if month == 4 || month == 6 || month == 9 || month == 11 then 30
    else 31
  }

  predicate ValidDate(x: Date) {
    1 <= x.month <= 12 && 1 <= x.day <= DaysInMonth(x.year, x.month)
  }

  /** The day after `x`. */
  function NextDay(x: Date): Date {
    if x.day < DaysInMonth(x.year, x.month) then x.(day := x.day + 1)
    else if x.month < 12 then Date(x.year, x.month + 1, 1)
    else Date(x.year + 1, 1, 1)
  }

  /** The reference calendar: the date `days` days after 1970-01-01, one day at a time. */
  function Calendar(days: nat): Date {
    if days == 0 then EPOCH else NextDay(Calendar(days - 1))
  }

  function DaysBeforeMonth(year: int, month: nat): int {
    if month <= 1 then 0 else DaysBeforeMonth(year, month - 1) + DaysInMonth(year, month - 1)
  }

  /** Days from the start of year 1 to the start of `year`. */
  function DaysBeforeYear(year: int): int {
    365 * (year - 1) + (year - 1) / 4 - (year - 1) / 100 + (year - 1) / 400
  }

  /** Days from 1970-01-01 to `x`, from the lengths of the years and months between. */
  function DayNumber(x: Date): int
    requires 1 <= x.month
  {
    DaysBeforeYear(x.year) - DaysBeforeYear(1970) + DaysBeforeMonth(x.year, x.month) + x.day - 1
  }

  // ----- The conversion -----

  /** Year of a 400-year era, from a day of that era; eras and their years start on 1 March. */
  function YearOfEra(dayOfEra: int): int {
    (dayOfEra - dayOfEra / 1_460 + dayOfEra / 36_524 - dayOfEra / 146_096) / 365
  }

  /** First day of year `y` of an era. */
  function YearStart(y: int): int {
    365 * y + y / 4 - y / 100
  }

  /** Month, counted from March, of a day of the March-based year. */
  function MonthFromMarch(dayOfYear: int): int {
    (5 * dayOfYear + 2) / 153
  }

  /** First day of the month `mp`, counted from March. */
  function MonthStart(mp: int): int {
    (153 * mp + 2) / 5
  }

  /** The date of day `day` of the March-based month `mp` of year `yearOfEra` of `era`. */
  function FromParts(era: int, yearOfEra: int, mp: int, day: int): Date {
    var month := if mp < 10 then mp + 3 else mp - 9;
    var year := yearOfEra + era * 400;
    Date(if month <= 2 then year + 1 else year, month, day)
  }

  function CivilInEra(era: int, dayOfEra: int): Date {
    var yearOfEra := YearOfEra(dayOfEra);
    var dayOfYear := dayOfEra - YearStart(yearOfEra);
    var mp := MonthFromMarch(dayOfYear);
    FromParts(era, yearOfEra, mp, dayOfYear - MonthStart(mp) + 1)
  }

  function CivilFromDays(days: int): Date {
    var z := days + 719_468;
    CivilInEra(z / 146_097, z % 146_097)
  }

  function Utc(secs: nat): Instant {
    var rem := secs % SECONDS_PER_DAY;
    Instant(CivilFromDays(secs / SECONDS_PER_DAY), rem / 3600, rem % 3600 / 60, rem % 60)
  }

  // ----- The nested truncated divisions find the right year -----

  /** The last March-based year that may be one day longer: its 29 February comes last. */
  predicate LongYear(y: int) {
    y % 4 == 3 && (y % 100 != 99 || y == 399)
  }

  /** A day given by century, four-year block, year of block and day of year. */
  lemma YearOfEraOf(c: int, q: int, a: int, d: int)
    requires 0 <= c <= 3 && 0 <= q <= 24 && 0 <= a <= 3 && 0 <= d
    requires d <= 364 || (d == 365 && a == 3 && (q < 24 || c == 3))
    ensures YearOfEra(36_524 * c + 1_461 * q + 365 * a + d) == 100 * c + 4 * q + a
    ensures YearStart(100 * c + 4 * q + a) == 36_524 * c + 1_461 * q + 365 * a
  {
    var doe := 36_524 * c + 1_461 * q + 365 * a + d;
    var e := 24 * c + q + 365 * a + d;
    assert doe == 1_460 * (25 * c + q) + e;
    assert doe / 1_460 == 25 * c + q + (if e >= 1_460 then 1 else 0);
    assert doe / 36_524 - doe / 146_096 == c;
    var y := 100 * c + 4 * q + a;
    assert y / 4 == 25 * c + q && y / 100 == c;
  }

  /** Day `d` of year `y` of an era is found again by the conversion. */
  lemma YearFound(y: int, d: int)
    requires 0 <= y <= 399 && 0 <= d && (d <= 364 || (d == 365 && LongYear(y)))
    ensures 0 <= YearStart(y) + d < 146_097
    ensures YearOfEra(YearStart(y) + d) == y
  {
    var c, q, a := y / 100, y % 100 / 4, y % 4;
    assert y == 100 * c + 4 * q + a;
    YearOfEraOf(c, q, a, d);
  }

  /** Every day of an era lies in the year the conversion computes. */
  lemma YearBrackets(doe: int)
    requires 0 <= doe < 146_097
    ensures var y := YearOfEra(doe);
            0 <= y <= 399 && 0 <= doe - YearStart(y) <= (if LongYear(y) then 365 else 364)
  {
    var c := if doe == 146_096 then 3 else doe / 36_524;
    var r := doe - 36_524 * c;
    var q := r / 1_461;
    var s := r - 1_461 * q;
    var a := if s == 1_460 then 3 else s / 365;
    YearOfEraOf(c, q, a, s - 365 * a);
  }

  // ----- The month formula finds the right month -----

  /** The March-based month lengths 31, 30, 31, 30, 31, 31, 30, 31, 30, 31, 31 and February. */
  function MarchLength(mp: int): int {
    if mp == 1 || mp == 3 || mp == 6 || mp == 8 then 30 else if mp == 11 then 29 else 31
  }

  lemma MonthFound(mp: int, d: int)
    requires 0 <= mp <= 11 && 0 <= d < MarchLength(mp)
    ensures MonthFromMarch(MonthStart(mp) + d) == mp
  {
  }

  lemma MonthBrackets(doy: int)
    requires 0 <= doy <= 365
    ensures var mp := MonthFromMarch(doy);
            0 <= mp <= 11 && 0 <= doy - MonthStart(mp) < MarchLength(mp)
  {
  }

  // ----- The calendar day count in March-based terms -----

  lemma {:induction false} DaysBeforeMonthFromMarch(year: int, m: nat)
    requires 3 <= m <= 12
    ensures DaysBeforeMonth(year, m) == MonthStart(m - 3) + (if IsLeap(year) then 60 else 59)
  {
    if m == 3 {
      assert DaysBeforeMonth(year, 2) == DaysBeforeMonth(year, 1) + 31;
    } else {
      DaysBeforeMonthFromMarch(year, m - 1);
    }
  }

  lemma DivByEra(era: int, yoe: int, k: int)
    requires 0 <= yoe < 400 && (k == 4 || k == 100 || k == 400)
    ensures (yoe + era * 400) / k == yoe / k + era * (400 / k)
    ensures (yoe + era * 400) % k == yoe % k
  {
  }

  lemma StepDiv(y: int, k: int)
    requires k == 4 || k == 100 || k == 400
    ensures y / k == (y - 1) / k + (if y % k == 0 then 1 else 0)
    ensures (y - 1) % k == (if y % k == 0 then k - 1 else y % k - 1)
  {
  }

  /** Passing from `y - 1` to `y` counts a leap day exactly when `y` is a leap year. */
  lemma LeapDayCounted(y: int)
    ensures DaysBeforeYear(y + 1) == DaysBeforeYear(y) + (if IsLeap(y) then 366 else 365)
  {
    StepDiv(y, 4);
    StepDiv(y, 100);
    StepDiv(y, 400);
  }

  /** A March-based year is long exactly when its January and February are of a leap year. */
  lemma LongYearIsLeap(era: int, yoe: int)
    requires 0 <= yoe < 400
    ensures LongYear(yoe) <==> IsLeap(yoe + era * 400 + 1)
  {
    var y := yoe + era * 400 + 1;
    StepDiv(y, 4); StepDiv(y, 100); StepDiv(y, 400);
    DivByEra(era, yoe, 4); DivByEra(era, yoe, 100); DivByEra(era, yoe, 400);
  }

  /** Days of the calendar before the January inside a March-based year. */
  lemma DaysBeforeMarchYear(era: int, yoe: int)
    requires 0 <= yoe < 400
    ensures DaysBeforeYear(yoe + era * 400 + 1) == 146_097 * era + YearStart(yoe)
  {
    DivByEra(era, yoe, 4); DivByEra(era, yoe, 100); DivByEra(era, yoe, 400);
  }

  /** The calendar's day count of a date given by its March-based parts. */
  lemma DayNumberOfParts(era: int, yoe: int, mp: int, day: int)
    requires 0 <= yoe < 400 && 0 <= mp <= 11
    ensures DayNumber(FromParts(era, yoe, mp, day)) + 719_468
         == 146_097 * era + YearStart(yoe) + MonthStart(mp) + day - 1
  {
    var x := FromParts(era, yoe, mp, day);
    DaysBeforeMarchYear(era, yoe);
    if mp < 10 {
      DaysBeforeMonthFromMarch(x.year, x.month);
      LeapDayCounted(x.year);
    } else {
      assert DaysBeforeMonth(x.year, 2) == DaysBeforeMonth(x.year, 1) + 31;
    }
  }

  /** Valid dates are the ones whose March-based parts are in range. */
  lemma ValidParts(era: int, yoe: int, mp: int, day: int)
    requires 0 <= yoe < 400 && 0 <= mp <= 11
    ensures ValidDate(FromParts(era, yoe, mp, day)) <==>
            1 <= day <= MarchLength(mp) && (mp == 11 && day == 29 ==> LongYear(yoe))
  {
    LongYearIsLeap(era, yoe);
  }

  // ----- Main results -----

  /** The parts the conversion computes are in range and add up to the day converted. */
  lemma CivilParts(days: int) returns (era: int, yoe: int, mp: int, day: int)
    ensures CivilFromDays(days) == FromParts(era, yoe, mp, day)
    ensures 0 <= yoe < 400 && 0 <= mp <= 11
    ensures 1 <= day <= MarchLength(mp) && (mp == 11 && day == 29 ==> LongYear(yoe))
    ensures 146_097 * era + YearStart(yoe) + MonthStart(mp) + day - 1 == days + 719_468
  {
    var z := days + 719_468;
    var doe := z % 146_097;
    era, yoe := z / 146_097, YearOfEra(doe);
    YearBrackets(doe);
    var doy := doe - YearStart(yoe);
    mp := MonthFromMarch(doy);
    MonthBrackets(doy);
    day := doy - MonthStart(mp) + 1;
    assert MonthStart(11) == 337;
  }

  /** Each converted date is a valid date, and its calendar day count is the day converted. */
  lemma CivilFromDaysIsValid(days: int)
    ensures ValidDate(CivilFromDays(days))
    ensures DayNumber(CivilFromDays(days)) == days
  {
    var era, yoe, mp, day := CivilParts(days);
    ValidParts(era, yoe, mp, day);
    DayNumberOfParts(era, yoe, mp, day);
  }

  lemma EraFound(era: int, doe: int)
    requires 0 <= doe < 146_097
    ensures CivilFromDays(146_097 * era + doe - 719_468) == CivilInEra(era, doe)
  {
    var z := 146_097 * era + doe;
    assert z / 146_097 == era && z % 146_097 == doe;
  }

  /** Each valid date of any year is the conversion of its calendar day count. */
  lemma CivilFromDaysInverts(x: Date)
    requires ValidDate(x)
    ensures CivilFromDays(DayNumber(x)) == x
  {
    var y := if x.month <= 2 then x.year - 1 else x.year;
    var mp := if x.month > 2 then x.month - 3 else x.month + 9;
    var era, yoe := y / 400, y % 400;
    assert x == FromParts(era, yoe, mp, x.day);
    ValidParts(era, yoe, mp, x.day);
    DayNumberOfParts(era, yoe, mp, x.day);
    PartsFound(era, yoe, mp, x.day);
  }

  /** The conversion finds the parts a day was built from. */
  lemma PartsFound(era: int, yoe: int, mp: int, day: int)
    requires 0 <= yoe < 400 && 0 <= mp <= 11
    requires 1 <= day <= MarchLength(mp) && (mp == 11 && day == 29 ==> LongYear(yoe))
    ensures CivilFromDays(146_097 * era + YearStart(yoe) + MonthStart(mp) + day - 1 - 719_468)
         == FromParts(era, yoe, mp, day)
  {
    var doy := MonthStart(mp) + day - 1;
    DayOfYearBound(mp, day);
    YearFound(yoe, doy);
    MonthFound(mp, day - 1);
    var doe := YearStart(yoe) + doy;
    assert CivilInEra(era, doe) == FromParts(era, yoe, mp, day);
    EraFound(era, doe);
  }

  lemma DayOfYearBound(mp: int, day: int)
    requires 0 <= mp <= 11 && 1 <= day <= MarchLength(mp)
    ensures 0 <= MonthStart(mp) + day - 1 <= (if mp == 11 && day == 29 then 365 else 364)
  {
  }

  lemma NextDayCounts(x: Date)
    requires ValidDate(x)
    ensures ValidDate(NextDay(x))
    ensures DayNumber(NextDay(x)) == DayNumber(x) + 1
  {
    if x.month == 12 && x.day == 31 {
      DaysBeforeMonthFromMarch(x.year, 12);
      LeapDayCounted(x.year);
    }
  }

  /** Consecutive days convert to successive calendar dates, over all days before and after 1970. */
  lemma ConsecutiveDays(days: int)
    ensures CivilFromDays(days + 1) == NextDay(CivilFromDays(days))
  {
    CivilFromDaysIsValid(days);
    var x := CivilFromDays(days);
    NextDayCounts(x);
    CivilFromDaysInverts(NextDay(x));
  }

  lemma CalendarStep(days: nat)
    requires CivilFromDays(days) == Calendar(days)
    ensures CivilFromDays(days + 1) == Calendar(days + 1)
  {
    ConsecutiveDays(days);
  }

  lemma EpochIsDayZero()
    ensures CivilFromDays(0) == EPOCH
  {
  }

  /** The conversion is the reference calendar. */
  lemma {:induction false} CivilFromDaysIsCalendar(days: nat)
    ensures CivilFromDays(days) == Calendar(days)
  {
    EpochIsDayZero();
    for i := 0 to days
      invariant CivilFromDays(i) == Calendar(i)
    {
      CalendarStep(i);
    }
  }

  lemma TimeOfDay(rem: int)
    requires 0 <= rem < SECONDS_PER_DAY
    ensures 0 <= rem / 3600 < 24 && 0 <= rem % 3600 / 60 < 60 && 0 <= rem % 60 < 60
    ensures rem / 3600 * 3600 + rem % 3600 / 60 * 60 + rem % 60 == rem
  {
  }

  /** The rendered instant is the calendar date of its day, and its fields give back the second. */
  lemma UtcIsExact(secs: nat)
    ensures var t := Utc(secs);
            && t.date == Calendar(secs / SECONDS_PER_DAY)
            && ValidDate(t.date)
            && 0 <= t.hour < 24 && 0 <= t.minute < 60 && 0 <= t.second < 60
            && DayNumber(t.date) * SECONDS_PER_DAY + t.hour * 3600 + t.minute * 60 + t.second == secs
  {
    CivilFromDaysIsCalendar(secs / SECONDS_PER_DAY);
    CivilFromDaysIsValid(secs / SECONDS_PER_DAY);
    TimeOfDay(secs % SECONDS_PER_DAY);
  }
}
