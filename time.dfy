/** Instants with a local UTC offset, as chrono's `DateTime<Local>` holds them,
    whole-second durations, and the local calendar date and time of day. */
module Time {

  /** A signed span of time in whole seconds (chrono's `Duration`). */
  type Duration = int


  /** An instant (seconds since 1970-01-01T00:00:00Z) together with the UTC
      offset, in seconds, of the local time zone at that instant. */
  datatype Timestamp = Timestamp(utc: int, offset: int)

  /** The instant at hour:minute:second of the given day since 1970-01-01, in
      UTC (offset 0). */
  function At(day: int, hour: nat, minute: nat, second: nat): Timestamp {
    Timestamp(day * 86400 + hour * 3600 + minute * 60 + second, 0)
  }

  /** Seconds since 1970-01-01T00:00:00 on the local wall clock. */
  function LocalSeconds(t: Timestamp): int {
    t.utc + t.offset
  }

  /** `later - earlier`: the time elapsed between two instants; offsets play no part. */
  function Elapsed(earlier: Timestamp, later: Timestamp): (d: Duration)
    ensures d == 0 <==> earlier.utc == later.utc
    ensures d > 0 <==> earlier.utc < later.utc
  {
    later.utc - earlier.utc
  }

  /** The local calendar day (`date_naive()`), as a count of days since 1970-01-01. */
  function LocalDay(t: Timestamp): (day: int)
    ensures day * 86400 <= LocalSeconds(t) < (day + 1) * 86400
  {
    LocalSeconds(t) / 86400
  }

  /** Seconds since local midnight: the local day and the second of that day
      together give back the local time. */
  function SecondOfDay(t: Timestamp): (s: nat)
    ensures s < 86400
    ensures LocalSeconds(t) == LocalDay(t) * 86400 + s
  {
    LocalSeconds(t) % 86400
  }

  /** chrono's `Timelike::hour`, `minute` and `second` of the local time. */
  function Hour(t: Timestamp): (h: nat)
    ensures h < 24
  {
    SecondOfDay(t) / 3600
  }

  function Minute(t: Timestamp): (m: nat)
    ensures m < 60
  {
    SecondOfDay(t) % 3600 / 60
  }

  function Second(t: Timestamp): (s: nat)
    ensures s < 60
  {
    SecondOfDay(t) % 60
  }

  lemma ClockDecomposition(t: Timestamp)
    ensures Hour(t) * 3600 + Minute(t) * 60 + Second(t) == SecondOfDay(t)
  {
  }

  /** A date of the proleptic Gregorian calendar. */
  datatype Date = Date(year: int, month: nat, day: nat)

  /** The year of a 400-year era (eras start on 0000-03-01) that holds the
      given day of the era, and that day's offset from the year's March 1. */
  function YearOfEra(doe: int): int {
    (doe - doe / 1460 + doe / 36524 - doe / 146096) / 365
  }

  function DayOfYear(doe: int, yoe: int): int {
    doe - (365 * yoe + yoe / 4 - yoe / 100)
  }

  /** The year of a 400-year era is counted in four centuries of 36524 days,
      each made of 25 four-year cycles of 1461 days (the last one a day short):
      day `g` of cycle `f` of century `c` lies in year `4 f + g / 365` of the
      century, and the last day of a leap cycle still in its fourth year. */
  function YearInCycle(g: int): int {
    if g == 1460 then 3 else g / 365
  }

  predicate InCentury(c: int, f: int, g: int) {
    0 <= c <= 3 && 0 <= f <= 24 && 0 <= g < 1461 && (f == 24 ==> g < 1460)
  }

  lemma EraDivisions(c: int, f: int, g: int)
    requires InCentury(c, f, g)
    ensures var doe, e := 36524 * c + 1461 * f + g, (24 * c + f + g) / 1460;
      && 0 <= e <= 1 && (e == 1 ==> g >= 1364)
      && doe / 1460 == 25 * c + f + e && doe / 36524 == c && doe / 146096 == 0
      && doe - doe / 1460 + doe / 36524 - doe / 146096 == 365 * (100 * c + 4 * f) + (g - e)
  {
    var doe := 36524 * c + 1461 * f + g;
    assert doe == 1460 * (25 * c + f) + (24 * c + f + g);
  }

  lemma YearOfEraInCentury(c: int, f: int, g: int)
    requires InCentury(c, f, g)
    ensures YearOfEra(36524 * c + 1461 * f + g) == 100 * c + 4 * f + YearInCycle(g)
  {
    var doe, e := 36524 * c + 1461 * f + g, (24 * c + f + g) / 1460;
    EraDivisions(c, f, g);
    YearInCycleCorrection(g, e);
    DivideShifted(100 * c + 4 * f, g - e);
  }

  /** Dropping the leap day counted in `e` does not move a day of the cycle
      to another year. */
  lemma YearInCycleCorrection(g: int, e: int)
    requires 0 <= g < 1461 && 0 <= e <= 1 && (e == 1 ==> g >= 1364) && (g == 1460 ==> e == 1)
    ensures (g - e) / 365 == YearInCycle(g)
  {
  }

  lemma DivideShifted(a: int, b: int)
    ensures (365 * a + b) / 365 == a + b / 365
  {
  }

  lemma DayOfYearInCentury(c: int, f: int, g: int)
    requires InCentury(c, f, g)
    ensures DayOfYear(36524 * c + 1461 * f + g, 100 * c + 4 * f + YearInCycle(g)) == g - 365 * YearInCycle(g)
  {
    var yoe := 100 * c + 4 * f + YearInCycle(g);
    assert yoe / 4 == 25 * c + f && yoe / 100 == c;
  }

  lemma DayOfYearBoundsInCentury(doe: int, c: int)
    requires 0 <= c <= 3 && 36524 * c <= doe < 36524 * (c + 1)
    ensures var yoe := YearOfEra(doe);
      100 * c <= yoe < 100 * (c + 1) && 0 <= DayOfYear(doe, yoe) <= 365
  {
    var r := doe - 36524 * c;
    var f, g := r / 1461, r % 1461;
    assert doe == 36524 * c + 1461 * f + g;
    YearOfEraInCentury(c, f, g);
    DayOfYearInCentury(c, f, g);
  }

  lemma DayOfYearBounds(doe: int)
    requires 0 <= doe < 146097
    ensures var yoe := YearOfEra(doe);
      0 <= yoe < 400 && 0 <= DayOfYear(doe, yoe) <= 365
  {
    if doe == 146096 {
      assert YearOfEra(doe) == 399;
    } else {
      DayOfYearBoundsInCentury(doe, doe / 36524);
    }
  }

  /** The civil date of the given day (counted from March 1) of a year that
      starts on March 1. */
  function DateInMarchYear(y: int, doy: int): (d: Date)
    requires 0 <= doy <= 365
    ensures 1 <= d.month <= 12 && 1 <= d.day <= 31
  {
    var mp := (5 * doy + 2) / 153;
    var day := doy - (153 * mp + 2) / 5 + 1;
    var month := if mp < 10 then mp + 3 else mp - 9;
    Date(y + (if month <= 2 then 1 else 0), month, day)
  }

  /** The year (starting on March 1) of a civil date, and the position of the
      date's month counted from March. */
  function MarchYear(d: Date): int {
    if d.month <= 2 then d.year - 1 else d.year
  }

  function MonthFromMarch(d: Date): int {
    if d.month > 2 then d.month - 3 else d.month + 9
  }

  lemma DateInMarchYearInverse(y: int, doy: int)
    requires 0 <= doy <= 365
    ensures var d := DateInMarchYear(y, doy);
      MarchYear(d) == y && (153 * MonthFromMarch(d) + 2) / 5 + d.day - 1 == doy
  {
  }

  /** The civil date of a day count since 1970-01-01 (chrono's `NaiveDate`
      of a day number), by the days-to-civil algorithm over 400-year eras
      counted from 0000-03-01. */
  function CivilFromDays(days: int): (d: Date)
    ensures 1 <= d.month <= 12 && 1 <= d.day <= 31
  {
    var z := days + 719468;
    CivilFromEra(z / 146097, z % 146097)
  }

  /** The civil date of the given day of the given 400-year era. */
  function CivilFromEra(era: int, doe: int): (d: Date)
    requires 0 <= doe < 146097
    ensures 1 <= d.month <= 12 && 1 <= d.day <= 31
  {
    var yoe := YearOfEra(doe);
    DayOfYearBounds(doe);
    DateInMarchYear(yoe + era * 400, DayOfYear(doe, yoe))
  }

  /** The day count since 1970-01-01 of the given day (counted from March 1)
      of a year that starts on March 1. */
  function DaysFromMarchYear(y: int, doy: int): int {
    var era := y / 400;
    var yoe := y % 400;
    era * 146097 + yoe * 365 + yoe / 4 - yoe / 100 + doy - 719468
  }

  /** The inverse: the day count since 1970-01-01 of a civil date. */
  function DaysFromCivil(d: Date): int
    requires 1 <= d.month <= 12 && 1 <= d.day <= 31
  {
    DaysFromMarchYear(MarchYear(d), (153 * MonthFromMarch(d) + 2) / 5 + d.day - 1)
  }

  lemma DaysFromDateInMarchYear(y: int, doy: int)
    requires 0 <= doy <= 365
    ensures DaysFromCivil(DateInMarchYear(y, doy)) == DaysFromMarchYear(y, doy)
  {
    DateInMarchYearInverse(y, doy);
  }

  lemma DaysFromEraParts(era: int, yoe: int, doe: int)
    requires 0 <= yoe < 400
    ensures DaysFromMarchYear(yoe + era * 400, DayOfYear(doe, yoe)) == era * 146097 + doe - 719468
  {
    var y := yoe + era * 400;
    assert y / 400 == era && y % 400 == yoe;
  }

  /** Converting a day of an era to a date and back gives the same day. */
  lemma CivilFromEraRoundTrip(era: int, doe: int)
    requires 0 <= doe < 146097
    ensures DaysFromCivil(CivilFromEra(era, doe)) == era * 146097 + doe - 719468
  {
    var yoe := YearOfEra(doe);
    DayOfYearBounds(doe);
    DaysFromDateInMarchYear(yoe + era * 400, DayOfYear(doe, yoe));
    DaysFromEraParts(era, yoe, doe);
  }

  /** Every day count names exactly one civil date: converting there and back
      is the identity. */
  lemma CivilRoundTrip(days: int)
    ensures DaysFromCivil(CivilFromDays(days)) == days
  {
    var z := days + 719468;
    var era, doe := z / 146097, z % 146097;
    assert era * 146097 + doe == z;
    CivilFromEraRoundTrip(era, doe);
  }

  /** Day 19266 since 1970-01-01 is 2022-10-01, the day the examples use. */
  lemma CivilFromDaysExample()
    ensures CivilFromDays(19266) == Date(2022, 10, 1)
    ensures CivilFromDays(19267) == Date(2022, 10, 2)
  {
    CivilFromDaysOfEra(19266, 5, 8249, 22, 214);
    CivilFromDaysOfEra(19267, 5, 8250, 22, 215);
  }

  lemma CivilFromDaysOfEra(days: int, era: int, doe: int, yoe: int, doy: int)
    requires 0 <= doe < 146097 && days + 719468 == era * 146097 + doe
    requires YearOfEra(doe) == yoe && DayOfYear(doe, yoe) == doy && 0 <= doy <= 365
    ensures CivilFromDays(days) == DateInMarchYear(yoe + era * 400, doy)
  {
    var z := days + 719468;
    assert z / 146097 == era && z % 146097 == doe;
    assert CivilFromDays(days) == CivilFromEra(era, doe);
  }
}
