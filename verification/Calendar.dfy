/**
 The closed-form calendar arithmetic of history.rs against the calendar itself: month
 lengths, leap years and the next day. Dafny's `/` and `%` round down, as `div_euclid` does;
 every other division there is of numbers that are not negative.
 */
module Calendar {

  // history.rs.

  /** Days before a year of its 400-year era; years here start in March. */
  function YearStart(yoe: int): int {
    365 * yoe + yoe / 4 - yoe / 100
  }

  /** Days before a month of its year; `mp` counts months from March. */
  function MonthStart(mp: int): int {
    (153 * mp + 2) / 5
  }

  function YearOfEra(doe: int): int {
    (doe - doe / 1460 + doe / 36524 - doe / 146096) / 365
  }

  function MonthOfYear(doy: int): int {
    (5 * doy + 2) / 153
  }

  function DaysFromCivil(y: int, m: int, d: int): int {
    var y' := if m <= 2 then y - 1 else y;
    var era := y' / 400;
    var yoe := y' - era * 400;
    var mp := (m + 9) % 12;
    var doy := MonthStart(mp) + d - 1;
    var doe := YearStart(yoe) + doy;
    era * 146097 + doe - 719468
  }

  function CivilFromDays(z: int): Date {
    var z' := z + 719468;
    var era := z' / 146097;
    var doe := z' - era * 146097;
    var yoe := YearOfEra(doe);
    var doy := doe - YearStart(yoe);
    var mp := MonthOfYear(doy);
    var d := doy - MonthStart(mp) + 1;
    var m := if mp < 10 then mp + 3 else mp - 9;
    Date(yoe + era * 400 + (if m <= 2 then 1 else 0), m, d)
  }

  // The proleptic Gregorian calendar.

  datatype Date = Date(y: int, m: int, d: int)

  predicate Leap(y: int) {
    y % 4 == 0 && (y % 100 != 0 || y % 400 == 0)
  }

  function MonthLength(y: int, m: int): int {
    if m == 2 then (if Leap(y) then 29 else 28)
    else if m == 4 || m == 6 || m == 9 || m == 11 then 30
    else 31
  }

  predicate ValidDate(t: Date) {
    1 <= t.m <= 12 && 1 <= t.d <= MonthLength(t.y, t.m)
  }

  function NextDay(t: Date): Date {
    if t.d < MonthLength(t.y, t.m) then Date(t.y, t.m, t.d + 1)
    else if t.m < 12 then Date(t.y, t.m + 1, 1)
    else Date(t.y + 1, 1, 1)
  }

  predicate Before(a: Date, b: Date) {
    a.y < b.y || (a.y == b.y && (a.m < b.m || (a.m == b.m && a.d < b.d)))
  }

  function Days(t: Date): int {
    DaysFromCivil(t.y, t.m, t.d)
  }

  // The same days counted from March: an era of 400 years, a year of it, a month from March.

  datatype Marched = Marched(era: int, yoe: int, mp: int, d: int)

  /** Whether the year's last month, February, has 29 days. */
  predicate LongYear(yoe: int) {
    yoe % 4 == 3 && (yoe % 100 != 99 || yoe == 399)
  }

  function MarchLength(yoe: int, mp: int): int {
    if mp == 11 then (if LongYear(yoe) then 29 else 28)
    else if mp == 1 || mp == 3 || mp == 6 || mp == 8 then 30
    else 31
  }

  predicate ValidMarched(s: Marched) {
    0 <= s.yoe < 400 && 0 <= s.mp < 12 && 1 <= s.d <= MarchLength(s.yoe, s.mp)
  }

  function DayOfEra(s: Marched): int {
    YearStart(s.yoe) + MonthStart(s.mp) + s.d - 1
  }

  function ToMarch(t: Date): Marched {
    var y' := if t.m <= 2 then t.y - 1 else t.y;
    Marched(y' / 400, y' % 400, (t.m + 9) % 12, t.d)
  }

  function FromMarch(s: Marched): Date {
    var m := if s.mp < 10 then s.mp + 3 else s.mp - 9;
    Date(s.yoe + s.era * 400 + (if m <= 2 then 1 else 0), m, s.d)
  }

  lemma DivIs(x: int, d: int, q: int)
    requires d > 0 && q * d <= x < q * d + d
    ensures x / d == q
  {
    var k := x / d - q;
    assert k * d == x - x % d - q * d;
    if k >= 1 {
      AtLeast(k, d);
    } else if k <= -1 {
      AtLeast(-k, d);
    }
  }

  lemma AtLeast(k: int, d: int)
    requires k >= 1 && d > 0
    ensures k * d >= d && -k * d <= -d
  {
  }

  lemma LongYearIsLeap(era: int, yoe: int)
    requires 0 <= yoe < 400
    ensures LongYear(yoe) <==> Leap(400 * era + yoe + 1)
  {
    var y, k := 400 * era + yoe + 1, yoe + 1;
    DivIs(y, 4, 100 * era + k / 4);
    DivIs(y, 100, 4 * era + k / 100);
    DivIs(y, 400, era + k / 400);
    assert y % 4 == k % 4 && y % 100 == k % 100 && y % 400 == k % 400;
  }

  lemma MarchedDate(t: Date)
    requires ValidDate(t)
    ensures ValidMarched(ToMarch(t)) && FromMarch(ToMarch(t)) == t
    ensures Days(t) == ToMarch(t).era * 146097 + DayOfEra(ToMarch(t)) - 719468
  {
    hide LongYear, Leap;
    var s := ToMarch(t);
    LongYearIsLeap(s.era, s.yoe);
    assert s.mp == if t.m <= 2 then t.m + 9 else t.m - 3;
  }

  lemma DateMarched(s: Marched)
    requires ValidMarched(s)
    ensures ValidDate(FromMarch(s)) && ToMarch(FromMarch(s)) == s
  {
    LongYearIsLeap(s.era, s.yoe);
    var t := FromMarch(s);
    var y' := if t.m <= 2 then t.y - 1 else t.y;
    assert y' == 400 * s.era + s.yoe;
    assert y' / 400 == s.era && y' % 400 == s.yoe;
  }

  /** The month formula finds a day's month again. */
  lemma MonthFound(yoe: int, mp: int, d: int)
    requires 0 <= mp < 12 && 1 <= d <= MarchLength(yoe, mp)
    ensures MonthOfYear(MonthStart(mp) + d - 1) == mp
    ensures 0 <= MonthStart(mp) + d - 1 <= 365
    ensures MonthStart(mp) + d - 1 == 365 ==> LongYear(yoe)
  {
    var doy := MonthStart(mp) + d - 1;
    assert 153 * mp <= 5 * doy + 2 < 153 * mp + 153;
    DivIs(5 * doy + 2, 153, mp);
  }

  /** Every day of a year is in some month. */
  lemma MonthOfDay(yoe: int, doy: int) returns (mp: int, d: int)
    requires 0 <= doy <= 365 && (doy == 365 ==> LongYear(yoe))
    ensures 0 <= mp < 12 && 1 <= d <= MarchLength(yoe, mp)
    ensures doy == MonthStart(mp) + d - 1
  {
    mp := (5 * doy + 2) / 153;
    d := doy - MonthStart(mp) + 1;
  }

  /** A year of the era as a century, a leap cycle of that and a year of the cycle. */
  lemma YearParts(yoe: int, c: int, q: int, r: int)
    requires 0 <= c < 4 && 0 <= q < 25 && 0 <= r < 4 && yoe == 100 * c + 4 * q + r
    ensures YearStart(yoe) == 36524 * c + 1461 * q + 365 * r
    ensures LongYear(yoe) <==> r == 3 && (q < 24 || c == 3)
  {
    DivIs(yoe, 4, 25 * c + q);
    DivIs(yoe, 100, c);
  }

  lemma CyclesBefore(c: int, q: int, r: int, doy: int)
    requires 0 <= c < 4 && 0 <= q < 25 && 0 <= r < 4 && 0 <= doy <= 365
    ensures var over := 24 * c + q + 365 * r + doy;
            (36524 * c + 1461 * q + 365 * r + doy) / 1460 == 25 * c + q + (if over >= 1460 then 1 else 0)
  {
    var over := 24 * c + q + 365 * r + doy;
    DivIs(36524 * c + 1461 * q + 365 * r + doy, 1460, 25 * c + q + (if over >= 1460 then 1 else 0));
  }

  lemma CenturiesBefore(c: int, q: int, r: int, doy: int)
    requires 0 <= c < 4 && 0 <= q < 25 && 0 <= r < 4
    requires 0 <= doy <= 365 && (doy == 365 ==> r == 3 && (q < 24 || c == 3))
    ensures var doe := 36524 * c + 1461 * q + 365 * r + doy;
            0 <= doe < 146097 && doe / 36524 - doe / 146096 == c
  {
    var doe := 36524 * c + 1461 * q + 365 * r + doy;
    var last := c == 3 && q == 24 && r == 3 && doy == 365;
    DivIs(doe, 36524, if last then 4 else c);
    DivIs(doe, 146096, if last then 1 else 0);
  }

  lemma YearFromParts(c: int, q: int, r: int, doy: int)
    requires 0 <= c < 4 && 0 <= q < 25 && 0 <= r < 4
    requires 0 <= doy <= 365 && (doy == 365 ==> r == 3 && (q < 24 || c == 3))
    ensures var doe := 36524 * c + 1461 * q + 365 * r + doy;
            && 0 <= doe < 146097
            && YearOfEra(doe) == 100 * c + 4 * q + r
  {
    CyclesBefore(c, q, r, doy);
    CenturiesBefore(c, q, r, doy);
    var k := if 24 * c + q + 365 * r + doy >= 1460 then 1 else 0;
    DivIs(365 * (100 * c + 4 * q + r) + doy - k, 365, 100 * c + 4 * q + r);
  }

  /** The year formula finds a day's year again. */
  lemma YearFound(yoe: int, doy: int)
    requires 0 <= yoe < 400 && 0 <= doy <= 365 && (doy == 365 ==> LongYear(yoe))
    ensures var doe := YearStart(yoe) + doy;
            && 0 <= doe < 146097
            && YearOfEra(doe) == yoe
  {
    hide YearStart, LongYear, YearOfEra;
    YearParts(yoe, yoe / 100, yoe % 100 / 4, yoe % 4);
    YearFromParts(yoe / 100, yoe % 100 / 4, yoe % 4, doy);
  }

  /** Every day of an era is in some year. */
  lemma YearOfDay(doe: int) returns (yoe: int, doy: int)
    requires 0 <= doe < 146097
    ensures 0 <= yoe < 400 && 0 <= doy <= 365 && (doy == 365 ==> LongYear(yoe))
    ensures doe == YearStart(yoe) + doy
  {
    var c := if doe / 36524 == 4 then 3 else doe / 36524;
    var inCentury := doe - 36524 * c;
    var q := inCentury / 1461;
    var inCycle := inCentury - 1461 * q;
    var r := if inCycle / 365 == 4 then 3 else inCycle / 365;
    yoe := 100 * c + 4 * q + r;
    doy := inCycle - 365 * r;
    assert 0 <= c < 4 && 0 <= q < 25 && 0 <= r < 4;
    assert yoe / 4 == 25 * c + q && yoe / 100 == c;
    assert doy == 365 ==> r == 3 && (q < 24 || c == 3);
    assert yoe % 4 == r && yoe % 100 == 4 * q + r;
  }

  lemma CivilOfMarched(s: Marched)
    requires ValidMarched(s)
    ensures CivilFromDays(s.era * 146097 + DayOfEra(s) - 719468) == FromMarch(s)
  {
    hide LongYear, YearStart, MonthStart, YearOfEra, MonthOfYear;
    var doy := MonthStart(s.mp) + s.d - 1;
    MonthFound(s.yoe, s.mp, s.d);
    YearFound(s.yoe, doy);
    DivIs(s.era * 146097 + DayOfEra(s), 146097, s.era);
  }

  /** A valid date's day is that date again. */
  lemma DateOfDays(t: Date)
    requires ValidDate(t)
    ensures CivilFromDays(Days(t)) == t
  {
    hide DaysFromCivil, CivilFromDays, ValidMarched, DayOfEra, FromMarch;
    MarchedDate(t);
    CivilOfMarched(ToMarch(t));
  }

  /** Every integer is the day of the date it is given. */
  lemma DaysOfDate(z: int)
    ensures ValidDate(CivilFromDays(z)) && Days(CivilFromDays(z)) == z
  {
    hide DaysFromCivil, CivilFromDays, LongYear, YearStart, MonthStart;
    var era := (z + 719468) / 146097;
    var yoe, doy := YearOfDay(z + 719468 - era * 146097);
    var mp, d := MonthOfDay(yoe, doy);
    var s := Marched(era, yoe, mp, d);
    CivilOfMarched(s);
    DateMarched(s);
    MarchedDate(FromMarch(s));
  }

  lemma Epoch()
    ensures DaysFromCivil(1970, 1, 1) == 0 && CivilFromDays(0) == Date(1970, 1, 1)
  {
    assert DaysFromCivil(1970, 1, 1) == 0;
    hide CivilFromDays, DaysFromCivil;
    DateOfDays(Date(1970, 1, 1));
  }

  lemma NextYearStarts(yoe: int)
    requires 0 <= yoe < 400
    ensures YearStart(yoe) + 365 + (if LongYear(yoe) then 1 else 0)
         == if yoe == 399 then 146097 else YearStart(yoe + 1)
  {
    var a, b := yoe / 4, yoe / 100;
    assert (yoe + 1) / 4 == if yoe % 4 == 3 then a + 1 else a;
    assert (yoe + 1) / 100 == if yoe % 100 == 99 then b + 1 else b;
    assert yoe % 100 == 99 ==> yoe % 4 == 3;
  }

  /** The calendar's next day is the next integer. */
  lemma NextDayIsNext(t: Date)
    requires ValidDate(t)
    ensures ValidDate(NextDay(t)) && Days(NextDay(t)) == Days(t) + 1
  {
    hide DaysFromCivil, YearStart, LongYear, Leap;
    var s, n := ToMarch(t), ToMarch(NextDay(t));
    MarchedDate(t);
    MarchedDate(NextDay(t));
    if t.d < MonthLength(t.y, t.m) {
      assert n == s.(d := s.d + 1);
    } else if t.m == 2 {
      NextYearStarts(s.yoe);
      LongYearIsLeap(s.era, s.yoe);
      assert n == if s.yoe == 399 then Marched(s.era + 1, 0, 0, 1) else Marched(s.era, s.yoe + 1, 0, 1);
      assert YearStart(0) == 0 by {
        YearParts(0, 0, 0, 0);
      }
    } else {
      assert n == Marched(s.era, s.yoe, s.mp + 1, 1);
    }
  }

  lemma {:induction false} DaysInOrder(a: int, b: int)
    requires a < b
    ensures Before(CivilFromDays(a), CivilFromDays(b))
    decreases b - a
  {
    hide CivilFromDays, DaysFromCivil;
    DaysOfDate(a);
    DaysOfDate(a + 1);
    NextDayIsNext(CivilFromDays(a));
    DateOfDays(NextDay(CivilFromDays(a)));
    assert CivilFromDays(a + 1) == NextDay(CivilFromDays(a));
    if a + 1 < b {
      DaysInOrder(a + 1, b);
    }
  }

  /** Dates are in the order of their days. */
  lemma CountIsMonotone(a: Date, b: Date)
    requires ValidDate(a) && ValidDate(b)
    ensures Before(a, b) <==> Days(a) < Days(b)
  {
    hide CivilFromDays, DaysFromCivil;
    DateOfDays(a);
    DateOfDays(b);
    if Days(a) < Days(b) {
      DaysInOrder(Days(a), Days(b));
    } else if Days(b) < Days(a) {
      DaysInOrder(Days(b), Days(a));
    }
  }

  /** A day past its month's end counts on into the next: what `parse_ts` makes of February 31. */
  lemma DaysRunOn(y: int, m: int, d: int)
    ensures DaysFromCivil(y, m, d) == DaysFromCivil(y, m, 1) + d - 1
  {
  }
}
