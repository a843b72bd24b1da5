/** Day numbers and calendar dates, as the service host stamps its log lines. */
module CivilCalendar {

  datatype Date = Date(year: int, month: int, day: int)

  // The Gregorian rules, stated without reference to the algorithm below
  // (proleptic Gregorian calendar, section 3.2.1 of ISO 8601:2004).

  predicate IsLeap(year: int) {
    year % 4 == 0 && (year % 100 != 0 || year % 400 == 0)
  }

  function MonthLength(year: int, month: int): int {
    if month == 2 then (if IsLeap(year) then 29 else 28)
    else if month in {4, 6, 9, 11} then 30
    else 31
  }

  predicate ValidDate(date: Date) {
    1 <= date.month <= 12 && 1 <= date.day <= MonthLength(date.year, date.month)
  }

  function NextDate(date: Date): Date {
    if date.day < MonthLength(date.year, date.month) then date.(day := date.day + 1)
    else if date.month < 12 then Date(date.year, date.month + 1, 1)
    else Date(date.year + 1, 1, 1)
  }

  // The algorithm.

  /** Year of the 400-year era for a day of the era, years starting on 1 March. */
  function YearOfEra(doe: int): int {
    (doe - doe / 1460 + doe / 36524 - doe / 146096) / 365
  }

  function CivilFromDays(days: int): Date {
    var z := days + 719468;
    var era := z / 146097;
    var doe := z % 146097;
    var yoe := YearOfEra(doe);
    var y := yoe + era * 400;
    var doy := doe - (365 * yoe + yoe / 4 - yoe / 100);
    var mp := (5 * doy + 2) / 153;
    var d := doy - (153 * mp + 2) / 5 + 1;
    var m := if mp < 10 then mp + 3 else mp - 9;
    Date(if m <= 2 then y + 1 else y, m, d)
  }

  /** The day number of a date: the inverse, worked out from the calendar's layout. */
  function DaysFromCivil(date: Date): int {
    var y := if date.month <= 2 then date.year - 1 else date.year;
    var yoe := y % 400;
    var mp := if date.month <= 2 then date.month + 9 else date.month - 3;
    var doy := (153 * mp + 2) / 5 + date.day - 1;
    146097 * (y / 400) + 365 * yoe + yoe / 4 - yoe / 100 + doy - 719468
  }

  /** A day of the era, split into centuries, four-year groups, years and days. */
  ghost predicate Split(doe: int, c: int, q: int, r: int, doy: int) {
    && 0 <= c <= 3 && 0 <= q <= 24 && 0 <= r <= 3
    && 0 <= doy <= 365
    && (doy == 365 ==> r == 3 && (q < 24 || c == 3))
    && doe == 36524 * c + 1461 * q + 365 * r + doy
  }

  lemma MulGap(d: int, e: int)
    requires d > 0
    ensures e >= 1 ==> d * e >= d
    ensures e <= -1 ==> d * e <= -d
  {
  }

  lemma DivIs(n: int, d: int, k: int)
    requires d > 0 && d * k <= n < d * k + d
    ensures n / d == k && n % d == n - d * k
  {
    MulGap(d, n / d - k);
    assert d * (n / d) == d * k + d * (n / d - k);
  }

  lemma SplitExists(doe: int) returns (c: int, q: int, r: int, doy: int)
    requires 0 <= doe < 146097
    ensures Split(doe, c, q, r, doy)
  {
    c := if doe == 146096 then 3 else doe / 36524;
    var doc := doe - 36524 * c;
    q := doc / 1461;
    var doq := doc - 1461 * q;
    r := if doq == 1460 then 3 else doq / 365;
    doy := doq - 365 * r;
  }

  lemma YearOfEraIs(doe: int, c: int, q: int, r: int, doy: int)
    requires Split(doe, c, q, r, doy)
    ensures YearOfEra(doe) == 100 * c + 4 * q + r
  {
    var late := if 24 * c + q + 365 * r + doy >= 1460 then 1 else 0;
    var last := if q == 24 && r == 3 && doy == 365 then 1 else 0;
    DivIs(doe, 1460, 25 * c + q + late);
    DivIs(doe, 36524, c + last);
    DivIs(doe, 146096, last);
    DivIs(doe - doe / 1460 + doe / 36524 - doe / 146096, 365, 100 * c + 4 * q + r);
  }

  /** Days before month `mp` of a year that starts in March (0) and ends in February (11). */
  function MonthStart(mp: int): int {
    (153 * mp + 2) / 5
  }

  lemma MonthOfDay(doy: int)
    requires 0 <= doy <= 365
    ensures 0 <= (5 * doy + 2) / 153 <= 11
    ensures MonthStart((5 * doy + 2) / 153) <= doy < MonthStart((5 * doy + 2) / 153 + 1)
  {
  }

  lemma MonthIs(doy: int, mp: int)
    requires 0 <= mp <= 11 && MonthStart(mp) <= doy < MonthStart(mp + 1)
    ensures (5 * doy + 2) / 153 == mp
  {
  }

  /** The date `day` days into month `mp` of the March year `y`. */
  function MarchDate(y: int, mp: int, day: int): Date {
    if mp < 10 then Date(y, mp + 3, day) else Date(y + 1, mp - 9, day)
  }

  lemma CivilOfSplit(days: int, era: int, doe: int, c: int, q: int, r: int, doy: int)
    requires days + 719468 == 146097 * era + doe
    requires 0 <= doe < 146097 && Split(doe, c, q, r, doy)
    ensures var mp := (5 * doy + 2) / 153;
            CivilFromDays(days) == MarchDate(400 * era + 100 * c + 4 * q + r, mp, doy - MonthStart(mp) + 1)
  {
    DivIs(days + 719468, 146097, era);
    YearOfEraIs(doe, c, q, r, doy);
    DayOfYearIs(doe, c, q, r, doy);
    MonthOfDay(doy);
    CivilIs(days, era, doe, 100 * c + 4 * q + r, doy);
  }

  lemma DayOfYearIs(doe: int, c: int, q: int, r: int, doy: int)
    requires Split(doe, c, q, r, doy)
    ensures var yoe := 100 * c + 4 * q + r;
            doe - (365 * yoe + yoe / 4 - yoe / 100) == doy
  {
    DivIs(100 * c + 4 * q + r, 4, 25 * c + q);
    DivIs(100 * c + 4 * q + r, 100, c);
  }

  lemma CivilIs(days: int, era: int, doe: int, yoe: int, doy: int)
    requires (days + 719468) / 146097 == era && (days + 719468) % 146097 == doe
    requires YearOfEra(doe) == yoe && doe - (365 * yoe + yoe / 4 - yoe / 100) == doy
    requires 0 <= (5 * doy + 2) / 153 <= 11
    ensures var mp := (5 * doy + 2) / 153;
            CivilFromDays(days) == MarchDate(400 * era + yoe, mp, doy - MonthStart(mp) + 1)
  {
  }

  lemma DaysOfSplit(era: int, c: int, q: int, r: int, mp: int, day: int)
    requires 0 <= c <= 3 && 0 <= q <= 24 && 0 <= r <= 3 && 0 <= mp <= 11
    ensures DaysFromCivil(MarchDate(400 * era + 100 * c + 4 * q + r, mp, day))
         == 146097 * era + 36524 * c + 1461 * q + 365 * r + MonthStart(mp) + day - 1 - 719468
  {
    var yoe := 100 * c + 4 * q + r;
    DivIs(400 * era + yoe, 400, era);
    DivIs(yoe, 4, 25 * c + q);
    DivIs(yoe, 100, c);
  }

  lemma YearSplit(y: int) returns (era: int, c: int, q: int, r: int)
    ensures y == 400 * era + 100 * c + 4 * q + r
    ensures 0 <= c <= 3 && 0 <= q <= 24 && 0 <= r <= 3
  {
    era := y / 400;
    var yoe := y - 400 * era;
    c := yoe / 100;
    q := (yoe - 100 * c) / 4;
    r := yoe - 100 * c - 4 * q;
  }

  lemma LeapOfEra(era: int, c: int, q: int, r: int, y: int)
    requires 0 <= c <= 3 && 0 <= q <= 24 && 0 <= r <= 3
    requires y == 400 * era + 100 * c + 4 * q + r
    ensures IsLeap(y + 1) <==> r == 3 && (q < 24 || c == 3)
  {
    DivIs(y + 1, 4, 100 * era + 25 * c + q + (if r == 3 then 1 else 0));
    var century := if q == 24 && r == 3 then 1 else 0;
    DivIs(y + 1, 100, 4 * era + c + century);
    DivIs(y + 1, 400, era + (if c == 3 then century else 0));
  }

  lemma MarchDateIsValid(y: int, mp: int, day: int)
    requires 0 <= mp <= 11 && 1 <= day <= MonthStart(mp + 1) - MonthStart(mp)
    requires mp == 11 ==> day <= (if IsLeap(y + 1) then 29 else 28)
    ensures ValidDate(MarchDate(y, mp, day))
  {
  }

  /** Every day number names a date that exists. */
  lemma CivilIsValid(days: int)
    ensures ValidDate(CivilFromDays(days))
  {
    var era, doe := (days + 719468) / 146097, (days + 719468) % 146097;
    var c, q, r, doy := SplitExists(doe);
    CivilOfSplit(days, era, doe, c, q, r, doy);
    MonthOfDay(doy);
    var y, mp := 400 * era + 100 * c + 4 * q + r, (5 * doy + 2) / 153;
    LeapOfEra(era, c, q, r, y);
    MarchDateIsValid(y, mp, doy - MonthStart(mp) + 1);
  }

  /** No two day numbers share a date: the day number can be read back. */
  lemma DaysOfCivil(days: int)
    ensures DaysFromCivil(CivilFromDays(days)) == days
  {
    var era, doe := (days + 719468) / 146097, (days + 719468) % 146097;
    var c, q, r, doy := SplitExists(doe);
    CivilOfSplit(days, era, doe, c, q, r, doy);
    MonthOfDay(doy);
    var mp := (5 * doy + 2) / 153;
    DaysOfSplit(era, c, q, r, mp, doy - MonthStart(mp) + 1);
  }

  /** A valid date as a day of a March year, with the leap rule in terms of the split year. */
  lemma MarchForm(date: Date) returns (era: int, c: int, q: int, r: int, mp: int)
    requires ValidDate(date)
    ensures 0 <= c <= 3 && 0 <= q <= 24 && 0 <= r <= 3 && 0 <= mp <= 11
    ensures date == MarchDate(400 * era + 100 * c + 4 * q + r, mp, date.day)
    ensures 1 <= date.day <= MonthStart(mp + 1) - MonthStart(mp)
    ensures mp < 11 ==> MonthLength(date.year, date.month) == MonthStart(mp + 1) - MonthStart(mp)
    ensures mp == 11 ==> date.day <= 29 && (date.day == 29 ==> r == 3 && (q < 24 || c == 3))
    ensures mp == 11 ==> (MonthLength(date.year, 2) == 29 <==> r == 3 && (q < 24 || c == 3))
  {
    var y := if date.month <= 2 then date.year - 1 else date.year;
    mp := if date.month <= 2 then date.month + 9 else date.month - 3;
    era, c, q, r := YearSplit(y);
    LeapOfEra(era, c, q, r, y);
  }

  /** Every date that exists is named by a day number. */
  lemma CivilOfDays(date: Date)
    requires ValidDate(date)
    ensures CivilFromDays(DaysFromCivil(date)) == date
  {
    var era, c, q, r, mp := MarchForm(date);
    DaysOfSplit(era, c, q, r, mp, date.day);
    var doy := MonthStart(mp) + date.day - 1;
    MonthIs(doy, mp);
    CivilOfSplit(DaysFromCivil(date), era, 36524 * c + 1461 * q + 365 * r + doy, c, q, r, doy);
  }

  lemma EpochIsDayZero()
    ensures CivilFromDays(0) == Date(1970, 1, 1)
  {
    CivilOfSplit(0, 4, 135080, 3, 17, 1, 306);
    assert (5 * 306 + 2) / 153 == 10 && MonthStart(10) == 306;
  }

  lemma NewYearInMarch(era: int, c: int, q: int, r: int)
    requires 0 <= c <= 3 && 0 <= q <= 24 && 0 <= r <= 3
    ensures DaysFromCivil(MarchDate(400 * era + 100 * c + 4 * q + r + 1, 0, 1))
         == 146097 * era + 36524 * c + 1461 * q + 365 * r + 365
            + (if r == 3 && (q < 24 || c == 3) then 1 else 0) - 719468
  {
    if r < 3 {
      DaysOfSplit(era, c, q, r + 1, 0, 1);
    } else if q < 24 {
      DaysOfSplit(era, c, q + 1, 0, 0, 1);
    } else if c < 3 {
      DaysOfSplit(era, c + 1, 0, 0, 0, 1);
    } else {
      DaysOfSplit(era + 1, 0, 0, 0, 0, 1);
    }
  }

  lemma NextInMarchYear(date: Date, y: int, mp: int)
    requires 0 <= mp <= 11 && date == MarchDate(y, mp, date.day)
    ensures NextDate(date)
         == if date.day < MonthLength(date.year, date.month) then MarchDate(y, mp, date.day + 1)
            else if mp < 11 then MarchDate(y, mp + 1, 1)
            else MarchDate(y + 1, 0, 1)
  {
  }

  lemma NextIsOneDayOn(date: Date)
    requires ValidDate(date)
    ensures DaysFromCivil(NextDate(date)) == DaysFromCivil(date) + 1
  {
    var era, c, q, r, mp := MarchForm(date);
    DaysOfSplit(era, c, q, r, mp, date.day);
    NextInMarchYear(date, 400 * era + 100 * c + 4 * q + r, mp);
    if date.day < MonthLength(date.year, date.month) {
      DaysOfSplit(era, c, q, r, mp, date.day + 1);
    } else if mp < 11 {
      DaysOfSplit(era, c, q, r, mp + 1, 1);
    } else {
      NewYearInMarch(era, c, q, r);
    }
  }

  lemma NextIsValid(date: Date)
    requires ValidDate(date)
    ensures ValidDate(NextDate(date))
  {
  }

  /** The calendar advances one date a day: 29 February exactly in leap years. */
  lemma TomorrowIsNextDate(days: int)
    ensures CivilFromDays(days + 1) == NextDate(CivilFromDays(days))
  {
    CivilIsValid(days);
    DaysOfCivil(days);
    NextIsValid(CivilFromDays(days));
    NextIsOneDayOn(CivilFromDays(days));
    CivilOfDays(NextDate(CivilFromDays(days)));
  }
}
