/** `date_time`: days to a civil date, against a calendar stepped one day at a time. */
module Calendar {
  datatype Date = Date(year: int, month: int, day: int)

  // ---------------------------------------------------------------------
  // The Gregorian calendar, one day after the other
  // ---------------------------------------------------------------------

  predicate Leap(year: int) {
    year % 4 == 0 && (year % 100 != 0 || year % 400 == 0)
  }

  function MonthDays(year: int, month: int): int {
    if month == 2 then (if Leap(year) then 29 else 28)
    else if month in {4, 6, 9, 11} then 30
    else 31
  }

  predicate ValidDate(d: Date) {
    1 <= d.month <= 12 && 1 <= d.day <= MonthDays(d.year, d.month)
  }

  function NextDay(d: Date): Date {
    if d.day < MonthDays(d.year, d.month) then d.(day := d.day + 1)
    else if d.month < 12 then Date(d.year, d.month + 1, 1)
    else Date(d.year + 1, 1, 1)
  }

  /** The date `n` days after 1970-01-01. */
  function DateOf(n: nat): (d: Date)
    ensures ValidDate(d)
  {
    if n == 0 then Date(1970, 1, 1) else NextDay(DateOf(n - 1))
  }

  // ---------------------------------------------------------------------
  // The algorithm
  // ---------------------------------------------------------------------

  const EPOCH := 719_468
  const ERA_DAYS := 146_097

  function YearOfEra(doe: int): int {
    (doe - doe / 1_460 + doe / 36_524 - doe / 146_096) / 365
  }

  /** The date on day `doy` of the year `year` that starts on 1 March. */
  function FromMarch(year: int, doy: int): Date {
    var mp := (5 * doy + 2) / 153;
    var day := doy - (153 * mp + 2) / 5 + 1;
    var month := if mp < 10 then mp + 3 else mp - 9;
    Date(year + (if month <= 2 then 1 else 0), month, day)
  }

  function Civil(days: int): Date {
    var z := days + EPOCH;
    var era := z / ERA_DAYS;
    var doe := z - era * ERA_DAYS;
    var yoe := YearOfEra(doe);
    var doy := doe - (365 * yoe + yoe / 4 - yoe / 100);
    FromMarch(yoe + era * 400, doy)
  }

  // ---------------------------------------------------------------------
  // Years that start in March
  // ---------------------------------------------------------------------

  /** The days before 1 March of `year`, counted from 1 March of year 0. */
  function Start(year: int): int {
    365 * year + year / 4 - year / 100 + year / 400
  }

  /** Such a year ends with a February of the next year. */
  function YearDays(year: int): int {
    if Leap(year + 1) then 366 else 365
  }

  lemma StartNext(year: int)
    ensures Start(year + 1) == Start(year) + YearDays(year)
  {
    Steps(year, 4);
    Steps(year, 100);
    Steps(year, 400);
    var n := year + 1;
    assert n % 100 == 0 ==> n % 4 == 0;
    assert n % 400 == 0 ==> n % 100 == 0;
  }

  lemma Steps(year: int, k: nat)
    requires k in {4, 100, 400}
    ensures (year + 1) / k == year / k + if (year + 1) % k == 0 then 1 else 0
  {
  }

  lemma {:induction false} StartIncreases(a: int, b: int)
    requires a < b
    ensures Start(a + 1) <= Start(b)
    decreases b - a
  {
    if a + 1 < b {
      StartIncreases(a, b - 1);
      StartNext(b - 1);
    }
  }

  /** A day belongs to one year only. */
  lemma YearIsUnique(z: int, a: int, b: int)
    requires Start(a) <= z < Start(a + 1) && Start(b) <= z < Start(b + 1)
    ensures a == b
  {
    if a < b { StartIncreases(a, b); }
    if b < a { StartIncreases(b, a); }
  }

  /** A day of an era as centuries, groups of four years, years and days. */
  lemma EraParts(doe: int) returns (c: int, q: int, r: int, d: int)
    requires 0 <= doe < ERA_DAYS
    ensures doe == 36_524 * c + 1_461 * q + 365 * r + d
    ensures 0 <= c <= 3 && 0 <= q <= 24 && 0 <= r <= 3
    ensures 0 <= d < 365 || (d == 365 && r == 3 && (q < 24 || c == 3))
  {
    c := if doe / 36_524 < 4 then doe / 36_524 else 3;
    var rem := doe - 36_524 * c;
    q := rem / 1_461;
    var rem' := rem - 1_461 * q;
    r := if rem' / 365 < 4 then rem' / 365 else 3;
    d := rem' - 365 * r;
  }

  /** The closed formula finds the year of the era: its 1460 and 36524 correct for leap days exactly. */
  lemma YearOfEraIs(c: int, q: int, r: int, d: int)
    requires 0 <= c <= 3 && 0 <= q <= 24 && 0 <= r <= 3
    requires 0 <= d < 365 || (d == 365 && r == 3 && (q < 24 || c == 3))
    ensures YearOfEra(36_524 * c + 1_461 * q + 365 * r + d) == 100 * c + 4 * q + r
  {
    var doe := 36_524 * c + 1_461 * q + 365 * r + d;
    var e := if 24 * c + q + 365 * r + d >= 1_460 then 1 else 0;
    assert doe == 1_460 * (25 * c + q) + (24 * c + q + 365 * r + d);
    assert doe / 1_460 == 25 * c + q + e;
    var last := if doe == 146_096 then 1 else 0;
    assert doe / 146_096 == last;
    assert doe / 36_524 == c + last;
    assert doe - doe / 1_460 + doe / 36_524 - doe / 146_096 == 365 * (100 * c + 4 * q + r) + (d - e);
    assert 0 <= d - e < 365;
  }

  /** The algorithm's year and day of year are the ones the day falls in. */
  lemma CivilYear(days: int) returns (year: int)
    ensures Start(year) <= days + EPOCH < Start(year + 1)
    ensures Civil(days) == FromMarch(year, days + EPOCH - Start(year))
  {
    hide YearOfEra, FromMarch, Leap, Start;
    var z := days + EPOCH;
    var era := z / ERA_DAYS;
    var doe := z - era * ERA_DAYS;
    var c, q, r, d := EraParts(doe);
    YearOfEraIs(c, q, r, d);
    var yoe := 100 * c + 4 * q + r;
    Quarters(c, q, r);
    year := yoe + era * 400;
    EraStart(era, yoe);
    StartNext(year);
    EraLeap(era, c, q, r);
  }

  lemma Quarters(c: int, q: int, r: int)
    requires 0 <= q <= 24 && 0 <= r <= 3
    ensures (100 * c + 4 * q + r) / 4 == 25 * c + q && (100 * c + 4 * q + r) / 100 == c
  {
  }

  lemma EraStart(era: int, yoe: int)
    requires 0 <= yoe < 400
    ensures Start(yoe + era * 400) == era * ERA_DAYS + 365 * yoe + yoe / 4 - yoe / 100
  {
    var y := yoe + era * 400;
    assert y / 4 == yoe / 4 + era * 100;
    assert y / 100 == yoe / 100 + era * 4;
    assert y / 400 == era;
  }

  lemma EraLeap(era: int, c: int, q: int, r: int)
    requires 0 <= c <= 3 && 0 <= q <= 24 && 0 <= r <= 3
    ensures Leap(100 * c + 4 * q + r + era * 400 + 1) <==> r == 3 && (q < 24 || c == 3)
  {
    var k := 100 * c + 4 * q + r + 1;
    Wraps(k, 100 * era, 4);
    Wraps(k, 4 * era, 100);
    Wraps(k, era, 400);
    Wraps(r + 1, 25 * c + q, 4);
    Wraps(4 * q + r + 1, c, 100);
    assert k % 400 == 0 <==> k == 400;
  }

  lemma Wraps(k: int, n: int, m: int)
    requires m in {4, 100, 400}
    ensures (k + n * m) % m == k % m
  {
  }

  lemma NextInFirstHalf(year: int, doy: int)
    requires 0 <= doy < 184
    ensures ValidDate(FromMarch(year, doy)) && NextDay(FromMarch(year, doy)) == FromMarch(year, doy + 1)
  {
    hide Leap;
    var mp := (5 * doy + 2) / 153;
    if mp == 0 { assert 0 <= doy <= 30; }
    else if mp == 1 { assert 31 <= doy <= 60; }
    else if mp == 2 { assert 61 <= doy <= 91; }
    else if mp == 3 { assert 92 <= doy <= 121; }
    else if mp == 4 { assert 122 <= doy <= 152; }
    else { assert 153 <= doy <= 183; }
  }

  lemma NextInSecondHalf(year: int, doy: int)
    requires 184 <= doy < YearDays(year)
    ensures ValidDate(FromMarch(year, doy))
    ensures NextDay(FromMarch(year, doy)) ==
      if doy + 1 < YearDays(year) then FromMarch(year, doy + 1) else FromMarch(year + 1, 0)
  {
    hide Leap;
    var mp := (5 * doy + 2) / 153;
    if mp == 6 { assert 184 <= doy <= 213; }
    else if mp == 7 { assert 214 <= doy <= 244; }
    else if mp == 8 { assert 245 <= doy <= 274; }
    else if mp == 9 { assert 275 <= doy <= 305; }
    else if mp == 10 { assert 306 <= doy <= 336; }
    else { assert 337 <= doy <= 365; }
  }

  /** One day on within a year that starts in March is the calendar's next day. */
  lemma NextInYear(year: int, doy: int)
    requires 0 <= doy < YearDays(year)
    ensures ValidDate(FromMarch(year, doy))
    ensures NextDay(FromMarch(year, doy)) ==
      if doy + 1 < YearDays(year) then FromMarch(year, doy + 1) else FromMarch(year + 1, 0)
  {
    if doy < 184 {
      NextInFirstHalf(year, doy);
    } else {
      NextInSecondHalf(year, doy);
    }
    hide FromMarch, NextDay, ValidDate;
  }

  /** The algorithm takes the next day to the calendar's next day. */
  lemma CivilSteps(days: int)
    ensures ValidDate(Civil(days))
    ensures Civil(days + 1) == NextDay(Civil(days))
  {
    hide Civil, FromMarch, Start, Leap, NextDay, ValidDate;
    var a := CivilYear(days);
    var b := CivilYear(days + 1);
    StartNext(a);
    NextInYear(a, days + EPOCH - Start(a));
    if days + 1 + EPOCH < Start(a + 1) {
      YearIsUnique(days + 1 + EPOCH, a, b);
    } else {
      StartNext(a + 1);
      YearIsUnique(days + 1 + EPOCH, a + 1, b);
    }
  }

  lemma EpochDate()
    ensures Civil(0) == Date(1970, 1, 1)
  {
    assert YearOfEra(135_080) == 369;
    assert FromMarch(1969, 306) == Date(1970, 1, 1);
  }

  /** For every day count, the algorithm's date is the one reached by stepping the calendar. */
  lemma {:induction false} CivilIsStepped(n: nat)
    ensures Civil(n) == DateOf(n)
  {
    hide Civil, NextDay, ValidDate;
    if n == 0 {
      EpochDate();
    } else {
      CivilIsStepped(n - 1);
      CivilSteps(n - 1);
    }
  }

  // ---------------------------------------------------------------------
  // And back
  // ---------------------------------------------------------------------

  /** The day number of a date, from its parts alone. */
  function DayNumber(d: Date): int {
    var year := if d.month <= 2 then d.year - 1 else d.year;
    var mp := if d.month > 2 then d.month - 3 else d.month + 9;
    Start(year) + (153 * mp + 2) / 5 + d.day - 1 - EPOCH
  }

  /** Converting the date back gives the day number: no two days share a date. */
  lemma DayNumberInverts(days: int)
    ensures DayNumber(Civil(days)) == days
  {
    var year := CivilYear(days);
    StartNext(year);
    var doy := days + EPOCH - Start(year);
    assert 0 <= (5 * doy + 2) / 153 <= 11;
  }

  // ---------------------------------------------------------------------
  // In 64-bit integers
  // ---------------------------------------------------------------------

  newtype u64 = x: int | 0 <= x < 0x1_0000_0000_0000_0000
  newtype i64 = x: int | -0x8000_0000_0000_0000 <= x < 0x8000_0000_0000_0000

  /**
   * The algorithm as `date_time` runs it. The types make every step a proof
   * that it stays within 64 bits.
   */
  method DaysToDate(days: i64) returns (year: i64, month: i64, day: i64)
    requires 0 <= days <= 213_503_982_334_601
    ensures Date(year as int, month as int, day as int) == Civil(days as int)
  {
    hide Civil, FromMarch;
    var z := days + 719_468;
    var era := z / 146_097;
    var doe := z - era * 146_097;
    DayOfEra(doe as int);
    assert 0 <= doe / 1_460 <= 101 && 0 <= doe / 36_524 <= 4 && 0 <= doe / 146_096 <= 1;
    var yoe := (doe - doe / 1_460 + doe / 36_524 - doe / 146_096) / 365;
    assert yoe as int == YearOfEra(doe as int);
    hide YearOfEra;
    var doy := doe - (365 * yoe + yoe / 4 - yoe / 100);
    assert 0 <= doy <= 365;
    CivilIs(days as int, era as int, doe as int, yoe as int, doy as int);
    var mp := (5 * doy + 2) / 153;
    day := doy - (153 * mp + 2) / 5 + 1;
    month := if mp < 10 then mp + 3 else mp - 9;
    year := yoe + era * 400 + if month <= 2 then 1 else 0;
    FromMarchIs((yoe + era * 400) as int, doy as int, mp as int);
  }

  lemma CivilIs(days: int, era: int, doe: int, yoe: int, doy: int)
    requires era == (days + EPOCH) / ERA_DAYS && doe == days + EPOCH - era * ERA_DAYS
    requires yoe == YearOfEra(doe) && doy == doe - (365 * yoe + yoe / 4 - yoe / 100)
    ensures Civil(days) == FromMarch(yoe + era * 400, doy)
  {
  }

  lemma FromMarchIs(year: int, doy: int, mp: int)
    requires mp == (5 * doy + 2) / 153
    ensures FromMarch(year, doy) ==
      var month := if mp < 10 then mp + 3 else mp - 9;
      Date(year + (if month <= 2 then 1 else 0), month, doy - (153 * mp + 2) / 5 + 1)
  {
  }

  /** `date_time`, before it is printed: for every second count there is. */
  method DateTime(seconds: u64) returns (year: i64, month: i64, day: i64, hour: u64, minute: u64, second: u64)
    ensures Date(year as int, month as int, day as int) == DateOf(seconds as int / 86_400)
    ensures hour < 24 && minute < 60 && second < 60
    ensures seconds as int ==
      seconds as int / 86_400 * 86_400 + hour as int * 3_600 + minute as int * 60 + second as int
  {
    hide Civil, DateOf;
    CivilIsStepped(seconds as int / 86_400);
    Clock(seconds as int);
    var days := (seconds / 86_400) as i64;
    var rem := seconds % 86_400;
    year, month, day := DaysToDate(days);
    hour := rem / 3_600;
    minute := rem % 3_600 / 60;
    second := rem % 60;
  }

  lemma Clock(seconds: nat)
    ensures var rem := seconds % 86_400;
      && rem / 3_600 < 24 && rem % 3_600 / 60 < 60
      && seconds == seconds / 86_400 * 86_400 + rem / 3_600 * 3_600 + rem % 3_600 / 60 * 60 + rem % 60
  {
    var rem := seconds % 86_400;
    var h, x := rem / 3_600, rem % 3_600;
    var m, t := x / 60, x % 60;
    assert rem == 60 * (60 * h + m) + t;
    Sixties(60 * h + m, t);
  }

  lemma Sixties(k: int, t: int)
    requires 0 <= t < 60
    ensures (60 * k + t) % 60 == t
  {
  }

  lemma DayOfEra(doe: int)
    requires 0 <= doe < ERA_DAYS
    ensures 0 <= YearOfEra(doe) < 400
    ensures var yoe := YearOfEra(doe); 0 <= doe - (365 * yoe + yoe / 4 - yoe / 100) <= 365
  {
    var c, q, r, d := EraParts(doe);
    YearOfEraIs(c, q, r, d);
    var yoe := 100 * c + 4 * q + r;
    assert yoe / 4 == 25 * c + q && yoe / 100 == c;
  }
}
