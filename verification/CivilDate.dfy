/**
 * The build timestamp's civil-date conversion, checked against a calendar defined on its own:
 * leap years, month lengths and a next day.
 */
module CivilDate {

  datatype Date = Date(year: int, month: int, day: int)

  // ---------------------------------------------------------------- the calendar

  predicate IsLeap(y: int) {
    y % 4 == 0 && (y % 100 != 0 || y % 400 == 0)
  }

  function DaysInMonth(y: int, m: int): int {
    if m == 2 then (if IsLeap(y) then 29 else 28)
    else if m == 4 || m == 6 || m == 9 || m == 11 then 30
    else 31
  }

  predicate IsValid(date: Date) {
    1 <= date.month <= 12 && 1 <= date.day <= DaysInMonth(date.year, date.month)
  }

  function NextDay(date: Date): Date {
    if date.day < DaysInMonth(date.year, date.month) then Date(date.year, date.month, date.day + 1)
    else if date.month < 12 then Date(date.year, date.month + 1, 1)
    else Date(date.year + 1, 1, 1)
  }

  const EPOCH := Date(1970, 1, 1)

  function YearLength(y: int): int {
    if IsLeap(y) then 366 else 365
  }

  /** Days from the epoch to January 1 of `y`, counted year by year. */
  function DaysBeforeYear(y: int): int
    decreases if y >= 1970 then y - 1970 else 1970 - y
  {
    if y == 1970 then 0
    else if y > 1970 then DaysBeforeYear(y - 1) + YearLength(y - 1)
    else DaysBeforeYear(y + 1) - YearLength(y)
  }

  function DaysBeforeMonth(y: int, m: int): int
    requires 1 <= m <= 12
  {
    if m == 1 then 0 else DaysBeforeMonth(y, m - 1) + DaysInMonth(y, m - 1)
  }

  /** The number of days from the epoch to a date; negative for earlier dates. */
  function DayCount(date: Date): int
    requires 1 <= date.month <= 12
  {
    DaysBeforeYear(date.year) + DaysBeforeMonth(date.year, date.month) + date.day - 1
  }

  // ---------------------------------------------------------------- the conversion

  /** Integer division as the source's signed types do it. */
  function TruncDiv(a: int, b: int): int
    requires b > 0
  {
    if a >= 0 then a / b else -((-a) / b)
  }

  function Era(z: int): int {
    TruncDiv(if z >= 0 then z else z - 146_096, 146_097)
  }

  function YearOfEra(doe: nat): int {
    (doe - doe / 1460 + doe / 36_524 - doe / 146_096) / 365
  }

  function DayOfYear(doe: nat): int {
    var yoe := YearOfEra(doe);
    doe - (365 * yoe + yoe / 4 - yoe / 100)
  }

  function MonthOfYear(doy: int): int {
    (5 * doy + 2) / 153
  }

  /** The conversion before the year is cut to 32 bits. */
  function Civil(days: int): Date {
    var z := days + 719_468;
    var era := Era(z);
    var doe := z - era * 146_097;
    DayOfEraInRange(z);
    FromMarch(era, YearOfEra(doe), DayOfYear(doe))
  }

  /** Year, month and day from an era, its year, and a day of the year that starts in March. */
  function FromMarch(era: int, yoe: int, doy: int): Date {
    var mp := MonthOfYear(doy);
    var d := doy - (153 * mp + 2) / 5 + 1;
    var m := if mp < 10 then mp + 3 else mp - 9;
    var y := yoe + era * 400;
    Date(if m <= 2 then y + 1 else y, m, d)
  }

  function AsI32(y: int): int {
    (y + 0x8000_0000) % 0x1_0000_0000 - 0x8000_0000
  }

  function DaysToYmd(days: int): Date {
    var date := Civil(days);
    date.(year := AsI32(date.year))
  }

  // ---------------------------------------------------------------- stated ranges

  lemma DayOfEraInRange(z: int)
    ensures Era(z) == z / 146_097
    ensures 0 <= z - Era(z) * 146_097 <= 146_096
  {
    if z < 0 {
      var w := 146_096 - z;
      assert -((w) / 146_097) == z / 146_097;
    }
  }

  /** The first day of year `y` of an era, for years 0 to 399. */
  function YearStart(y: int): int {
    365 * y + y / 4 - y / 100
  }

  /** Days with the leap days removed; its quotient by 365 is the year of the era. */
  function Flattened(doe: int): int {
    doe - doe / 1460 + doe / 36_524 - doe / 146_096
  }

  lemma {:induction false} FlattenedMonotone(a: int, b: int)
    ensures 0 <= a <= b ==> Flattened(a) <= Flattened(b)
    decreases b - a
  {
    if 0 <= a < b {
      FlattenedMonotone(a, b - 1);
      hide Flattened;
      FlattenedStep(b);
    }
  }

  lemma FlattenedIs(x: int, a: int, b: int, c: int)
    requires 1460 * a <= x < 1460 * a + 1460
    requires 36_524 * b <= x < 36_524 * b + 36_524
    requires 146_096 * c <= x < 146_096 * c + 146_096
    ensures Flattened(x) == x - a + b - c
  {
    assert x / 1460 == a;
    assert x / 36_524 == b;
    assert x / 146_096 == c;
  }

  lemma FlattenedStep(x: int)
    requires x > 0
    ensures Flattened(x - 1) <= Flattened(x)
  {
    var a, b, c := x / 1460, x / 36_524, x / 146_096;
    FlattenedIs(x, a, b, c);
    hide Flattened;
    FlattenedIs(x - 1, if x == 1460 * a then a - 1 else a, if x == 36_524 * b then b - 1 else b,
                if x == 146_096 * c then c - 1 else c);
    if x == 146_096 * c {
      assert x == 36_524 * (4 * c);
      assert x == 36_524 * b;
    }
  }

  lemma FlattenedAtYearStart(y: int)
    requires 0 <= y < 400
    ensures Flattened(YearStart(y)) == 365 * y
    ensures y > 0 ==> Flattened(YearStart(y) - 1) < 365 * y
  {
    var q, r := y / 4, y % 4;
    var c, k := y / 100, y % 100;
    assert y == 4 * q + r == 100 * c + k && 0 <= r < 4 && 0 <= k < 100;
    assert q == 25 * c + k / 4;
    var s := YearStart(y);
    assert s == 1460 * q + (365 * r + q - c) == 36_524 * c + (365 * k + k / 4);
    FlattenedIs(s, q, c, 0);
    if y > 0 {
      hide Flattened, YearStart;
      FlattenedIs(s - 1, q, if k == 0 then c - 1 else c, 0);
    }
  }

  /** The year of the era holds the day: its start is not after it, the next year's start is. */
  lemma YearOfEraBrackets(doe: nat)
    requires doe <= 146_096
    ensures 0 <= YearOfEra(doe) <= 399
    ensures YearStart(YearOfEra(doe)) <= doe
    ensures YearOfEra(doe) < 399 ==> doe < YearStart(YearOfEra(doe) + 1)
  {
    var y := YearOfEra(doe);
    YearOfEraQuotient(doe);
    hide YearOfEra, Flattened, YearStart;
    FlattenedAtYearStart(y);
    FlattenedMonotone(doe, YearStart(y) - 1);
    if y < 399 {
      FlattenedAtYearStart(y + 1);
      FlattenedMonotone(YearStart(y + 1), doe);
      assert 0 <= YearStart(y + 1) by { YearStartIs(y + 1); }
    }
    if y == 0 {
      YearStartIs(0);
    }
  }

  lemma YearOfEraQuotient(doe: nat)
    requires doe <= 146_096
    ensures 0 <= YearOfEra(doe) <= 399
    ensures 365 * YearOfEra(doe) <= Flattened(doe) < 365 * YearOfEra(doe) + 365
  {
    FlattenedMonotone(0, doe);
    FlattenedMonotone(doe, 146_096);
    assert Flattened(0) == 0 && Flattened(146_096) == 145_999;
    assert YearOfEra(doe) == Flattened(doe) / 365;
    hide Flattened, YearOfEra;
  }

  /** Length of the year that starts in March of `yoe` and ends in February of the next year. */
  function MarchYearLength(yoe: int): int {
    if IsLeap(yoe + 1) then 366 else 365
  }

  lemma RangesHold(doe: nat)
    requires doe <= 146_096
    ensures 0 <= YearOfEra(doe) <= 399
    ensures 0 <= DayOfYear(doe) < MarchYearLength(YearOfEra(doe))
    ensures 0 <= MonthOfYear(DayOfYear(doe)) <= 11
  {
    hide YearOfEra;
    var y := YearOfEra(doe);
    YearOfEraBrackets(doe);
    if y < 399 {
      YearStartStep(y);
    }
    hide YearStart;
    assert DayOfYear(doe) == doe - YearStart(y) by { YearStartIs(y); }
    if y == 399 {
      assert YearStart(399) == 145_731 by { YearStartIs(399); }
    }
  }

  lemma YearStartIs(y: int)
    ensures YearStart(y) == 365 * y + y / 4 - y / 100
  {
  }

  lemma YearStartStep(y: int)
    requires 0 <= y < 399
    ensures YearStart(y + 1) - YearStart(y) == MarchYearLength(y)
  {
    assert (y + 1) / 4 == if (y + 1) % 4 == 0 then y / 4 + 1 else y / 4;
    assert (y + 1) / 100 == if (y + 1) % 100 == 0 then y / 100 + 1 else y / 100;
  }

  lemma QuotientIs(doe: nat, y: int)
    requires 365 * y <= Flattened(doe) < 365 * y + 365
    ensures YearOfEra(doe) == y
  {
    assert YearOfEra(doe) == Flattened(doe) / 365;
    hide Flattened, YearOfEra;
  }

  /** A day from the start of year `y` on and before that of the next year has that quotient. */
  lemma QuotientInYear(doe: nat, y: int)
    requires doe <= 146_096 && 0 <= y <= 399 && YearStart(y) <= doe
    requires y < 399 ==> doe < YearStart(y + 1)
    ensures 365 * y <= Flattened(doe) < 365 * y + 365
  {
    hide *;
    FlattenedAtYearStart(y);
    assert 0 <= YearStart(y) by { YearStartIs(y); }
    FlattenedMonotone(YearStart(y), doe);
    if y < 399 {
      FlattenedAtYearStart(y + 1);
      FlattenedMonotone(doe, YearStart(y + 1) - 1);
    } else {
      FlattenedMonotone(doe, 146_096);
      FlattenedAtEnd();
    }
  }

  lemma FlattenedAtEnd()
    ensures Flattened(146_096) == 145_999
  {
  }

  /** The year of the era is the only one that holds the day. */
  lemma YearOfEraIs(doe: nat, y: int)
    requires doe <= 146_096 && 0 <= y <= 399 && YearStart(y) <= doe
    requires y < 399 ==> doe < YearStart(y + 1)
    ensures YearOfEra(doe) == y && DayOfYear(doe) == doe - YearStart(y)
  {
    hide *;
    QuotientInYear(doe, y);
    QuotientIs(doe, y);
    DayOfYearIs(doe);
  }

  // ---------------------------------------------------------------- the next day

  /** First day of month `mp`, counting months and days from March. */
  function MonthStart(mp: int): int {
    (153 * mp + 2) / 5
  }

  lemma MonthBrackets(doy: int)
    requires 0 <= doy <= 365
    ensures 0 <= MonthOfYear(doy) <= 11
    ensures MonthStart(MonthOfYear(doy)) <= doy < MonthStart(MonthOfYear(doy) + 1)
  {
  }

  lemma MonthIs(doy: int, mp: int)
    requires MonthStart(mp) <= doy < MonthStart(mp + 1)
    ensures MonthOfYear(doy) == mp
  {
  }

  function MonthNumber(mp: int): int {
    if mp < 10 then mp + 3 else mp - 9
  }

  lemma MonthLengths(mp: int, y: int)
    requires 0 <= mp <= 10
    ensures MonthStart(mp + 1) - MonthStart(mp) == DaysInMonth(y, MonthNumber(mp))
    ensures MonthStart(11) == 337
  {
  }

  lemma RemaindersOf(y: int, a: int, b: int, c: int)
    requires 0 <= y - 4 * a < 4 && 0 <= y - 100 * b < 100 && 0 <= y - 400 * c < 400
    ensures y % 4 == y - 4 * a && y % 100 == y - 100 * b && y % 400 == y - 400 * c
  {
    assert y / 4 == a;
    assert y / 100 == b;
    assert y / 400 == c;
  }

  lemma LeapRepeats(yoe: int, era: int)
    ensures IsLeap(yoe + 400 * era) == IsLeap(yoe)
  {
    var a, b, c := yoe / 4, yoe / 100, yoe / 400;
    RemaindersOf(yoe + 400 * era, a + 100 * era, b + 4 * era, c + era);
    RemaindersOf(yoe, a, b, c);
  }

  predicate IsMarchDay(yoe: int, doy: int) {
    0 <= yoe <= 399 && 0 <= doy < MarchYearLength(yoe)
  }

  lemma FromMarchIsValid(era: int, yoe: int, doy: int)
    requires IsMarchDay(yoe, doy)
    ensures IsValid(FromMarch(era, yoe, doy))
  {
    var mp := MonthOfYear(doy);
    MonthBrackets(doy);
    LeapRepeats(yoe + 1, era);
    if mp <= 10 {
      MonthLengths(mp, FromMarch(era, yoe, doy).year);
    } else {
      MonthLengths(10, 0);
    }
  }

  lemma NextInYear(era: int, yoe: int, doy: int)
    requires IsMarchDay(yoe, doy) && doy + 1 < MarchYearLength(yoe)
    ensures FromMarch(era, yoe, doy + 1) == NextDay(FromMarch(era, yoe, doy))
  {
    var mp := MonthOfYear(doy);
    MonthBrackets(doy);
    MonthBrackets(doy + 1);
    LeapRepeats(yoe + 1, era);
    if doy + 1 < MonthStart(mp + 1) {
      MonthIs(doy + 1, mp);
    } else {
      MonthBrackets(MonthStart(mp + 1));
      MonthIs(doy + 1, mp + 1);
    }
    hide MonthOfYear;
    if mp <= 10 {
      MonthLengths(mp, FromMarch(era, yoe, doy).year);
    } else {
      MonthLengths(10, 0);
    }
  }

  lemma NextAfterYear(era: int, yoe: int)
    requires 0 <= yoe <= 399
    ensures FromMarch(era, yoe + 1, 0) == NextDay(FromMarch(era, yoe, MarchYearLength(yoe) - 1))
  {
    LeapRepeats(yoe + 1, era);
    MonthIs(MarchYearLength(yoe) - 1, 11);
  }

  /** Consecutive day numbers are consecutive calendar days, before and after the epoch. */
  lemma CivilIsSuccessive(days: int)
    ensures IsValid(Civil(days))
    ensures Civil(days + 1) == NextDay(Civil(days))
  {
    hide FromMarch, YearOfEra, NextDay, Era, IsValid, YearStart, DayOfYear;
    var z := days + 719_468;
    DayOfEraInRange(z);
    DayOfEraInRange(z + 1);
    var era, doe := Era(z), z - Era(z) * 146_097;
    var yoe, doy := YearOfEra(doe), DayOfYear(doe);
    RangesHold(doe);
    YearOfEraBrackets(doe);
    assert doy == doe - YearStart(yoe) by { DayOfYearIs(doe); }
    FromMarchIsValid(era, yoe, doy);
    if doe == 146_096 {
      assert Era(z + 1) == era + 1;
      LastDayOfEra(doe);
      YearOfEraIs(0, 0) by { YearStartIs(0); YearStartIs(1); }
      assert YearStart(0) == 0 by { YearStartIs(0); }
      NextAfterYear(era, 399);
      EraCarries(era);
    } else {
      assert Era(z + 1) == era;
      if doy + 1 < MarchYearLength(yoe) {
        if yoe < 399 {
          YearStartStep(yoe);
        }
        YearOfEraIs(doe + 1, yoe);
        NextInYear(era, yoe, doy);
      } else {
        LastYearIsLong(doe);
        YearStartStep(yoe);
        if yoe + 1 < 399 {
          YearStartStep(yoe + 1);
        }
        YearOfEraIs(doe + 1, yoe + 1);
        NextAfterYear(era, yoe);
      }
    }
  }

  lemma DayOfYearIs(doe: nat)
    ensures DayOfYear(doe) == doe - YearStart(YearOfEra(doe))
  {
    hide YearOfEra;
  }

  lemma LastDayOfEra(doe: nat)
    requires doe == 146_096
    ensures YearOfEra(doe) == 399 && DayOfYear(doe) == MarchYearLength(399) - 1
  {
  }

  lemma LastYearIsLong(doe: nat)
    requires doe < 146_096 && DayOfYear(doe) + 1 >= MarchYearLength(YearOfEra(doe))
    ensures YearOfEra(doe) < 399
  {
    YearOfEraBrackets(doe);
    DayOfYearIs(doe);
    YearStartIs(399);
    hide YearOfEra, DayOfYear;
  }

  lemma EraCarries(era: int)
    ensures FromMarch(era, 400, 0) == FromMarch(era + 1, 0, 0)
  {
  }

  // ---------------------------------------------------------------- inverse of counting days

  lemma NextDayCounts(date: Date)
    requires IsValid(date)
    ensures IsValid(NextDay(date)) && DayCount(NextDay(date)) == DayCount(date) + 1
  {
    if date.month == 12 {
      YearEnds(date.year);
    }
    hide IsLeap;
  }

  lemma YearEnds(y: int)
    ensures DaysBeforeMonth(y, 12) + 31 == YearLength(y)
    ensures DaysBeforeYear(y + 1) == DaysBeforeYear(y) + YearLength(y)
  {
    hide IsLeap, YearLength;
    assert DaysBeforeMonth(y, 2) == 31;
    assert DaysBeforeMonth(y, 3) == 31 + DaysInMonth(y, 2);
    assert DaysBeforeMonth(y, 5) == DaysBeforeMonth(y, 3) + 61;
    assert DaysBeforeMonth(y, 7) == DaysBeforeMonth(y, 5) + 61;
    assert DaysBeforeMonth(y, 9) == DaysBeforeMonth(y, 7) + 62;
    assert DaysBeforeMonth(y, 11) == DaysBeforeMonth(y, 9) + 61;
    assert DaysInMonth(y, 2) == YearLength(y) - 337 by { FebruaryIsRest(y); }
  }

  lemma FebruaryIsRest(y: int)
    ensures DaysInMonth(y, 2) == YearLength(y) - 337
  {
  }

  lemma {:induction false} MonthsFit(y: int, m: int, later: int)
    requires 1 <= m < later <= 12
    ensures DaysBeforeMonth(y, m) + DaysInMonth(y, m) <= DaysBeforeMonth(y, later)
  {
    hide IsLeap;
    if later > m + 1 {
      MonthsFit(y, m, later - 1);
    }
  }

  lemma {:induction false} YearsFit(y: int, later: int)
    requires y < later
    ensures DaysBeforeYear(y) + YearLength(y) <= DaysBeforeYear(later)
    decreases later - y
  {
    if later > y + 1 {
      YearsFit(y, later - 1);
      YearEnds(later - 1);
    } else {
      YearEnds(y);
    }
  }

  /** The days of a year all fall before the next year. */
  lemma DayInYear(date: Date)
    requires IsValid(date)
    ensures DaysBeforeYear(date.year) <= DayCount(date) < DaysBeforeYear(date.year) + YearLength(date.year)
  {
    YearEnds(date.year);
    if date.month < 12 {
      MonthsFit(date.year, date.month, 12);
    }
    if date.month > 1 {
      MonthsFit(date.year, 1, date.month);
    }
    hide DaysInMonth, DaysBeforeYear, IsLeap;
  }

  /** Counting days tells valid dates apart. */
  lemma DayCountInjective(a: Date, b: Date)
    requires IsValid(a) && IsValid(b) && DayCount(a) == DayCount(b)
    ensures a == b
  {
    DayInYear(a);
    DayInYear(b);
    if a.year < b.year {
      YearsFit(a.year, b.year);
    } else if b.year < a.year {
      YearsFit(b.year, a.year);
    }
    assert a.year == b.year;
    if a.month < b.month {
      MonthsFit(a.year, a.month, b.month);
    } else if b.month < a.month {
      MonthsFit(a.year, b.month, a.month);
    }
    hide DaysBeforeYear, DaysBeforeMonth, DaysInMonth;
  }

  lemma EpochIsDayZero()
    ensures Civil(0) == EPOCH && DayCount(EPOCH) == 0
  {
  }

  lemma {:induction false} CivilCounts(days: int)
    ensures IsValid(Civil(days)) && DayCount(Civil(days)) == days
    decreases if days >= 0 then days else -days
  {
    hide Civil, DayCount, NextDay;
    EpochIsDayZero();
    CivilIsSuccessive(days);
    if days > 0 {
      CivilCounts(days - 1);
      CivilIsSuccessive(days - 1);
      NextDayCounts(Civil(days - 1));
    } else if days < 0 {
      CivilCounts(days + 1);
      NextDayCounts(Civil(days));
    }
  }

  /** The conversion and day counting undo each other. */
  lemma CivilInvertsDayCount(days: int, date: Date)
    requires IsValid(date)
    ensures DayCount(Civil(days)) == days && IsValid(Civil(days))
    ensures Civil(DayCount(date)) == date
  {
    CivilCounts(days);
    CivilCounts(DayCount(date));
    hide Civil;
    DayCountInjective(date, Civil(DayCount(date)));
  }

  // ---------------------------------------------------------------- the 32-bit year

  /** Day numbers of January 1 of the least and December 31 of the greatest 32-bit year. */
  const FIRST_DAY := -784_353_015_833
  const LAST_DAY := 784_351_576_776

  lemma {:induction false} YearMonotone(a: int, b: int)
    requires a <= b
    ensures Civil(a).year <= Civil(b).year
  {
    hide Civil, DayCount;
    CivilCounts(a);
    CivilCounts(b);
    DayInYear(Civil(a));
    DayInYear(Civil(b));
    if Civil(b).year < Civil(a).year {
      YearsFit(Civil(b).year, Civil(a).year);
    }
  }

  lemma CivilAt(days: int, era: int, yoe: int)
    requires 0 <= yoe <= 399 && YearStart(yoe) <= days + 719_468 - 146_097 * era <= 146_096
    requires yoe < 399 ==> days + 719_468 - 146_097 * era < YearStart(yoe + 1)
    ensures Civil(days) == FromMarch(era, yoe, days + 719_468 - 146_097 * era - YearStart(yoe))
  {
    DayOfEraInRange(days + 719_468);
    YearStartIs(yoe);
    hide Era, YearStart, YearOfEra, DayOfYear, FromMarch;
    assert Era(days + 719_468) == era;
    YearOfEraIs(days + 719_468 - 146_097 * era, yoe);
  }

  lemma AtTheLimits()
    ensures Civil(FIRST_DAY) == Date(-0x8000_0000, 1, 1) && Civil(FIRST_DAY - 1).year == -0x8000_0001
    ensures Civil(LAST_DAY) == Date(0x7fff_ffff, 12, 31) && Civil(LAST_DAY + 1).year == 0x8000_0000
  {
    hide Civil;
    CivilAt(FIRST_DAY, -5_368_710, 351);
    CivilAt(FIRST_DAY - 1, -5_368_710, 351);
    CivilAt(LAST_DAY, 5_368_709, 47);
    CivilAt(LAST_DAY + 1, 5_368_709, 47);
  }

  lemma YearWraps(y: int)
    ensures exists wraps: int :: y == AsI32(y) + 0x1_0000_0000 * wraps
  {
    var wraps := (y + 0x8000_0000) / 0x1_0000_0000;
    assert y == AsI32(y) + 0x1_0000_0000 * wraps;
  }

  /**
   * The returned year is right exactly for the days whose year fits 32 bits; for others it is the
   * only 32-bit year congruent to it, with the right month and day.
   */
  lemma YearFits(days: int)
    ensures DaysToYmd(days) == Civil(days) <==> FIRST_DAY <= days <= LAST_DAY
    ensures DaysToYmd(days).month == Civil(days).month && DaysToYmd(days).day == Civil(days).day
    ensures -0x8000_0000 <= DaysToYmd(days).year <= 0x7FFF_FFFF
    ensures exists wraps: int :: Civil(days).year == DaysToYmd(days).year + 0x1_0000_0000 * wraps
  {
    YearWraps(Civil(days).year);
    AtTheLimits();
    hide Civil;
    if days < FIRST_DAY {
      YearMonotone(days, FIRST_DAY - 1);
    } else if days > LAST_DAY {
      YearMonotone(LAST_DAY + 1, days);
    } else {
      YearMonotone(FIRST_DAY, days);
      YearMonotone(days, LAST_DAY);
    }
  }

  // ---------------------------------------------------------------- the time of day

  datatype Timestamp = Timestamp(date: Date, hour: nat, minute: nat, second: nat)

  function BuildTimestamp(secs: nat): Timestamp {
    var days := secs / 86_400;
    var tod := secs % 86_400;
    Timestamp(DaysToYmd(days), tod / 3600, tod % 3600 / 60, tod % 60)
  }

  predicate IsValidTimestamp(t: Timestamp) {
    IsValid(t.date) && t.hour < 24 && t.minute < 60 && t.second < 60
  }

  function SecondsSinceEpoch(t: Timestamp): int
    requires IsValidTimestamp(t)
  {
    DayCount(t.date) * 86_400 + t.hour * 3600 + t.minute * 60 + t.second
  }

  /** The timestamp names the input second exactly while its year fits 32 bits. */
  lemma TimestampRecombines(secs: nat)
    ensures IsValidTimestamp(BuildTimestamp(secs)) && SecondsSinceEpoch(BuildTimestamp(secs)) == secs
       <==> secs < (LAST_DAY + 1) * 86_400
  {
    var days := secs / 86_400;
    YearFits(days);
    CivilCounts(days);
    var date := DaysToYmd(days);
    hide Civil, DayCount, IsValid;
    if IsValid(date) && DayCount(date) == days {
      hide DaysToYmd;
      DayCountInjective(date, Civil(days));
    }
    TimeOfDay(secs % 86_400);
  }

  lemma TimeOfDay(tod: nat)
    requires tod < 86_400
    ensures tod / 3600 < 24 && tod % 3600 / 60 < 60 && tod % 60 < 60
    ensures tod / 3600 * 3600 + tod % 3600 / 60 * 60 + tod % 60 == tod
  {
    assert tod % 60 == tod % 3600 % 60;
  }
}
