/** The proleptic Gregorian calendar (RFC 3339, section 5.7 and Appendix C) as a walk from
    1970-01-01, one day at a time, and the closed form the logger uses instead. */
module Calendar {
  import opened Arithmetic

  datatype Date = Date(year: int, month: int, day: int)

  // ---- The specification: a calendar one can only step through ----

  predicate IsLeap(year: int) {
    year % 4 == 0 && (year % 100 != 0 || year % 400 == 0)
  }

  function DaysInMonth(year: int, month: int): int {
    if month == 2 then (if IsLeap(year) then 29 else 28)
    else if month == 4 || month == 6 || month == 9 || month == 11 then 30
    else 31
  }

  predicate ValidDate(d: Date) {
    1 <= d.month <= 12 && 1 <= d.day <= DaysInMonth(d.year, d.month)
  }

  function NextDay(d: Date): Date {
    if d.day < DaysInMonth(d.year, d.month) then Date(d.year, d.month, d.day + 1)
    else if d.month < 12 then Date(d.year, d.month + 1, 1)
    else Date(d.year + 1, 1, 1)
  }

  function PrevDay(d: Date): Date {
    if d.day > 1 then Date(d.year, d.month, d.day - 1)
    else if d.month > 1 then Date(d.year, d.month - 1, DaysInMonth(d.year, d.month - 1))
    else Date(d.year - 1, 12, 31)
  }

  /** The date reached from 1970-01-01 by `z` single-day steps, forwards or backwards. */
  function DateOfDay(z: int): Date
    decreases if z < 0 then -z else z
  {
    if z == 0 then Date(1970, 1, 1)
    else if z > 0 then NextDay(DateOfDay(z - 1))
    else PrevDay(DateOfDay(z + 1))
  }

  predicate DateLess(a: Date, b: Date) {
    a.year < b.year || (a.year == b.year && (a.month < b.month || (a.month == b.month && a.day < b.day)))
  }

  // ---- Machine integers of the release build, which wraps ----

  const TWO32: int := 0x1_0000_0000
  const I32_MAX: int := 0x7fff_ffff
  const I64_MAX: int := 0x7fff_ffff_ffff_ffff

  predicate IsI64(x: int) { -I64_MAX - 1 <= x <= I64_MAX }

  function WrapI32(x: int): int {
    (x + I32_MAX + 1) % TWO32 - I32_MAX - 1
  }

  function WrapU32(x: int): int {
    x % TWO32
  }

  /** Rust's `/` on signed integers: rounds towards zero. */
  function TruncDiv(a: int, b: int): int
    requires b > 0
  {
    if a >= 0 then a / b else -((-a) / b)
  }

  // ---- The closed form ----

  function EraOf(z: int): int {
    TruncDiv(if z >= 0 then z else z - 146_096, 146_097)
  }

  function YearOfEra(doe: int): int {
    (doe - doe / 1460 + doe / 36_524 - doe / 146_096) / 365
  }

  function DayOfYear(doe: int, yoe: int): int {
    doe - (365 * yoe + yoe / 4 - yoe / 100)
  }

  function MonthIndex(doy: int): int {
    (5 * doy + 2) / 153
  }

  function DayOfMonth(doy: int, mp: int): int {
    doy - (153 * mp + 2) / 5 + 1
  }

  function MonthOfIndex(mp: int): int {
    if mp < 10 then mp + 3 else mp - 9
  }

  /** `civil_from_days`, with the casts to 32 bits and the wrapping 32-bit year arithmetic written out. */
  function CivilFromDays(day: int): Date {
    var z := day + 719_468;
    var era := EraOf(z);
    var doe := WrapU32(z - era * 146_097);
    var yoe := YearOfEra(doe);
    var y := WrapI32(yoe + WrapI32(WrapI32(era) * 400));
    var doy := DayOfYear(doe, yoe);
    var mp := MonthIndex(doy);
    var m := MonthOfIndex(mp);
    Date(if m <= 2 then WrapI32(y + 1) else y, m, DayOfMonth(doy, mp))
  }

  // ---- Division and the stated ranges ----

  /** The negative branch turns truncating division into floor division, so the day of the era is never negative. */
  lemma EraIsFloor(z: int)
    ensures EraOf(z) == z / 146_097
    ensures z - EraOf(z) * 146_097 == z % 146_097
    ensures 0 <= z - EraOf(z) * 146_097 <= 146_096
  {
    var q, r := z / 146_097, z % 146_097;
    assert z == q * 146_097 + r;
    if z < 0 {
      var n := 146_096 - z;
      assert n == (-q) * 146_097 + (146_096 - r);
    }
  }

  /** First day of March-based year `yoe` within its era. */
  function YearStart(yoe: int): int {
    365 * yoe + yoe / 4 - yoe / 100
  }

  lemma YearStartByCycles(c: int, q: int, k: int)
    requires 0 <= c <= 3 && 0 <= q <= 24 && 0 <= k <= 3
    ensures YearStart(100 * c + 4 * q + k) == 36_524 * c + 1461 * q + 365 * k
  {
    var y := 100 * c + 4 * q + k;
    assert y / 4 == 25 * c + q;
    assert y / 100 == c;
  }

  lemma YearOfEraByCycles(doe: int, c: int, q: int, r: int)
    requires 0 <= c <= 3 && 0 <= q <= 24 && 0 <= r <= 1460 && 0 <= 1461 * q + r < 36_524
    requires doe == 36_524 * c + 1461 * q + r
    ensures YearOfEra(doe) == 100 * c + 4 * q + (if r == 1460 then 3 else r / 365)
  {
    var e := if 24 * c + q + r >= 1460 then 1 else 0;
    assert doe / 1460 == 25 * c + q + e by {
      assert doe == 1460 * (25 * c + q + e) + (24 * c + q + r - 1460 * e);
      assert 0 <= 24 * c + q + r - 1460 * e < 1460;
    }
    assert doe / 36_524 == c;
    assert doe / 146_096 == 0;
    assert doe - doe / 1460 + doe / 36_524 == 365 * (100 * c + 4 * q) + (r - e);
    assert YearOfEra(doe) == 100 * c + 4 * q + (r - e) / 365;
    var k := if r == 1460 then 3 else r / 365;
    assert 365 * k <= r - e < 365 * (k + 1);
  }

  lemma LastDayOfEra()
    ensures YearOfEra(146_096) == 399 && YearStart(399) == 145_731 && YearStart(400) == 146_096
  {
  }

  /** Day `r` of four-year cycle `q` of century `c`. */
  lemma YearContainsDay(c: int, q: int, r: int)
    requires 0 <= c <= 3 && 0 <= q <= 24 && 0 <= r <= 1460 && 0 <= 1461 * q + r < 36_524
    ensures var y, doe := 100 * c + 4 * q + (if r == 1460 then 3 else r / 365), 36_524 * c + 1461 * q + r;
            0 <= y <= 399 && YearStart(y) <= doe < YearStart(y + 1)
  {
    hide YearStart;
    LastDayOfEra();
    var k := if r == 1460 then 3 else r / 365;
    YearStartByCycles(c, q, k);
    if k < 3 {
      YearStartByCycles(c, q, k + 1);
    } else if q < 24 {
      YearStartByCycles(c, q + 1, 0);
    } else if c < 3 {
      YearStartByCycles(c + 1, 0, 0);
    }
  }

  /** The year of the era is the one whose days contain `doe`; its last day closes year 399. */
  lemma YearOfEraContains(doe: int)
    requires 0 <= doe <= 146_096
    ensures 0 <= YearOfEra(doe) <= 399
    ensures YearStart(YearOfEra(doe)) <= doe
    ensures doe < YearStart(YearOfEra(doe) + 1) + (if YearOfEra(doe) == 399 then 1 else 0)
  {
    hide YearOfEra, YearStart;
    LastDayOfEra();
    if doe < 146_096 {
      var c, n := doe / 36_524, doe % 36_524;
      var q, r := n / 1461, n % 1461;
      YearOfEraByCycles(doe, c, q, r);
      YearContainsDay(c, q, r);
    }
  }

  /** Days before March-based month `mp`. */
  function MonthStart(mp: int): int {
    (153 * mp + 2) / 5
  }

  lemma MonthContains(doy: int)
    requires 0 <= doy <= 365
    ensures 0 <= MonthIndex(doy) <= 11
    ensures MonthStart(MonthIndex(doy)) <= doy < MonthStart(MonthIndex(doy) + 1)
    ensures DayOfMonth(doy, MonthIndex(doy)) <= 31
  {
    var mp := MonthIndex(doy);
    assert 153 * mp <= 5 * doy + 2 < 153 * (mp + 1);
  }

  /** Every intermediate of the closed form stays in the range its comment states, and no unsigned subtraction dips
      below zero. */
  lemma IntermediateRanges(doe: int)
    requires 0 <= doe <= 146_096
    ensures 0 <= doe - doe / 1460 && 0 <= doe - doe / 1460 + doe / 36_524 - doe / 146_096
    ensures 0 <= YearOfEra(doe) <= 399
    ensures var doy := DayOfYear(doe, YearOfEra(doe));
            && 0 <= doy <= 365
            && 0 <= MonthIndex(doy) <= 11
            && 1 <= DayOfMonth(doy, MonthIndex(doy)) <= 31
            && 1 <= MonthOfIndex(MonthIndex(doy)) <= 12
  {
    YearOfEraContains(doe);
    var yoe := YearOfEra(doe);
    assert YearStart(yoe + 1) - YearStart(yoe) <= 366;
    MonthContains(DayOfYear(doe, yoe));
  }

  // ---- One step of the closed form is one step of the calendar ----

  function MarchDate(y: int, doy: int): Date {
    var mp := MonthIndex(doy);
    var m := MonthOfIndex(mp);
    Date(if m <= 2 then y + 1 else y, m, DayOfMonth(doy, mp))
  }

  /** The date of day `doe` of era `era`, over unbounded integers. */
  function CivilInEra(era: int, doe: int): Date {
    var yoe := YearOfEra(doe);
    MarchDate(yoe + era * 400, DayOfYear(doe, yoe))
  }

  function MarchYearLength(y: int): int {
    if IsLeap(y + 1) then 366 else 365
  }

  lemma DayInMonth(doy: int)
    ensures DayOfMonth(doy, MonthIndex(doy)) == doy - MonthStart(MonthIndex(doy)) + 1
  {
  }

  lemma YearEnds(doy: int)
    requires 0 <= doy <= 365
    ensures MonthIndex(0) == 0 && DayOfMonth(0, 0) == 1 && MonthStart(12) > 366
    ensures doy >= 364 ==> MonthIndex(doy) == 11
  {
  }

  lemma NextMonthIndex(doy: int)
    requires 0 <= doy < 365
    ensures MonthIndex(doy + 1) == MonthIndex(doy) + if doy + 1 < MonthStart(MonthIndex(doy) + 1) then 0 else 1
  {
  }

  lemma MonthStarts()
    ensures MonthStart(0) == 0 && MonthStart(1) == 31 && MonthStart(2) == 61 && MonthStart(3) == 92
    ensures MonthStart(4) == 122 && MonthStart(5) == 153 && MonthStart(6) == 184 && MonthStart(7) == 214
    ensures MonthStart(8) == 245 && MonthStart(9) == 275 && MonthStart(10) == 306 && MonthStart(11) == 337
  {
  }

  /** The formula's month lengths are the calendar's; February closes the March-based year. */
  lemma MonthLength(y: int, mp: int)
    requires 0 <= mp <= 11
    ensures var m := MonthOfIndex(mp);
            DaysInMonth(if m <= 2 then y + 1 else y, m) ==
              (if mp < 11 then MonthStart(mp + 1) else MarchYearLength(y)) - MonthStart(mp)
  {
    MonthStarts();
    hide MonthStart, IsLeap;
  }

  lemma MarchDateStep(y: int, doy: int)
    requires 0 <= doy < MarchYearLength(y)
    ensures ValidDate(MarchDate(y, doy))
    ensures doy + 1 < MarchYearLength(y) ==> MarchDate(y, doy + 1) == NextDay(MarchDate(y, doy))
    ensures doy + 1 == MarchYearLength(y) ==> MarchDate(y + 1, 0) == NextDay(MarchDate(y, doy))
  {
    MonthContains(doy);
    MonthLength(y, MonthIndex(doy));
    DayInMonth(doy);
    hide MonthIndex, MonthStart, DayOfMonth, IsLeap, DaysInMonth;
    YearEnds(doy);
    if doy < 365 {
      NextMonthIndex(doy);
      DayInMonth(doy + 1);
    }
  }

  lemma LeapInEra(era: int, n: int)
    ensures IsLeap(n + era * 400) == IsLeap(n)
  {
    ModShift(n, 100 * era, 4);
    ModShift(n, 4 * era, 100);
    ModShift(n, era, 400);
  }

  lemma YearStartGrows(yoe: int)
    requires 0 <= yoe <= 399
    ensures (if IsLeap(yoe + 1) then 366 else 365) ==
            YearStart(yoe + 1) - YearStart(yoe) + (if yoe == 399 then 1 else 0)
  {
    var n := yoe + 1;
    assert n / 4 - yoe / 4 == if n % 4 == 0 then 1 else 0;
    assert n / 100 - yoe / 100 == if n % 100 == 0 then 1 else 0;
  }

  lemma EraYearLength(era: int, yoe: int)
    requires 0 <= yoe <= 399
    ensures MarchYearLength(yoe + era * 400) == YearStart(yoe + 1) - YearStart(yoe) + (if yoe == 399 then 1 else 0)
  {
    LeapInEra(era, yoe + 1);
    assert yoe + era * 400 + 1 == yoe + 1 + era * 400;
    YearStartGrows(yoe);
  }

  lemma YearStartMonotone(a: int, b: int)
    requires 0 <= a <= b
    ensures YearStart(a) <= YearStart(b)
  {
  }

  lemma YearOfEraUnique(doe: int, y: int)
    requires 0 <= doe <= 146_096 && 0 <= y <= 399
    requires YearStart(y) <= doe < YearStart(y + 1) + (if y == 399 then 1 else 0)
    ensures YearOfEra(doe) == y
  {
    YearOfEraContains(doe);
    var yoe := YearOfEra(doe);
    if yoe < y {
      YearStartMonotone(yoe + 1, y);
    } else if y < yoe {
      YearStartMonotone(y + 1, yoe);
    }
  }

  lemma CivilInEraAt(era: int, doe: int, y: int)
    requires 0 <= doe <= 146_096 && 0 <= y <= 399
    requires YearStart(y) <= doe < YearStart(y + 1) + (if y == 399 then 1 else 0)
    ensures CivilInEra(era, doe) == MarchDate(y + era * 400, doe - YearStart(y))
  {
    YearOfEraUnique(doe, y);
  }

  /** As `MarchDateStep`, with the year's place in its era given. */
  lemma MarchDateStepInEra(era: int, yoe: int, doy: int)
    requires 0 <= yoe <= 399
    requires 0 <= doy < YearStart(yoe + 1) - YearStart(yoe) + (if yoe == 399 then 1 else 0)
    ensures var length := YearStart(yoe + 1) - YearStart(yoe) + (if yoe == 399 then 1 else 0);
            var d := MarchDate(yoe + era * 400, doy);
            && ValidDate(d)
            && NextDay(d) ==
               if doy + 1 < length then MarchDate(yoe + era * 400, doy + 1) else MarchDate(yoe + 1 + era * 400, 0)
  {
    EraYearLength(era, yoe);
    MarchDateStep(yoe + era * 400, doy);
    assert yoe + era * 400 + 1 == yoe + 1 + era * 400;
  }

  lemma YearStartBounds(yoe: int)
    requires 0 <= yoe <= 399
    ensures YearStart(0) == 0
    ensures YearStart(yoe) + 365 <= YearStart(yoe + 1)
    ensures YearStart(yoe) <= 145_731
    ensures yoe < 399 ==> YearStart(yoe + 1) <= 145_731
    ensures yoe == 399 ==> YearStart(yoe + 1) == 146_096
  {
    YearStartGrows(yoe);
    YearStartMonotone(yoe, 399);
    if yoe < 399 {
      YearStartMonotone(yoe + 1, 399);
    }
  }

  lemma CivilInEraStep(era: int, doe: int, yoe: int)
    requires 0 <= doe <= 146_096 && 0 <= yoe <= 399
    requires YearStart(yoe) <= doe < YearStart(yoe + 1) + (if yoe == 399 then 1 else 0)
    ensures ValidDate(CivilInEra(era, doe))
    ensures NextDay(CivilInEra(era, doe)) == if doe < 146_096 then CivilInEra(era, doe + 1) else CivilInEra(era + 1, 0)
  {
    hide CivilInEra, MarchDate, ValidDate, NextDay, YearStart;
    YearStartBounds(yoe);
    YearStartBounds(0);
    CivilInEraAt(era, doe, yoe);
    MarchDateStepInEra(era, yoe, doe - YearStart(yoe));
    if doe + 1 < YearStart(yoe + 1) + (if yoe == 399 then 1 else 0) {
      CivilInEraAt(era, doe + 1, yoe);
    } else if yoe < 399 {
      YearStartBounds(yoe + 1);
      CivilInEraAt(era, doe + 1, yoe + 1);
    } else {
      assert yoe + 1 + era * 400 == 0 + (era + 1) * 400;
      CivilInEraAt(era + 1, 0, 0);
    }
  }

  function Civil(z: int): Date {
    CivilInEra((z + 719_468) / 146_097, (z + 719_468) % 146_097)
  }

  lemma CivilAt(era: int, doe: int)
    requires 0 <= doe <= 146_096
    ensures Civil(era * 146_097 + doe - 719_468) == CivilInEra(era, doe)
  {
    DivModUnique(era * 146_097 + doe, era, doe, 146_097);
  }

  lemma CivilStep(z: int)
    ensures ValidDate(Civil(z))
    ensures Civil(z + 1) == NextDay(Civil(z))
  {
    hide CivilInEra, YearOfEra, ValidDate, NextDay, YearStart;
    var n := z + 719_468;
    var era, doe := n / 146_097, n % 146_097;
    YearOfEraContains(doe);
    CivilInEraStep(era, doe, YearOfEra(doe));
    CivilAt(era, doe);
    if doe < 146_096 {
      CivilAt(era, doe + 1);
    } else {
      CivilAt(era + 1, 0);
    }
  }

  lemma EpochInMarchYear()
    ensures MarchDate(1969, 306) == Date(1970, 1, 1)
  {
  }

  lemma EpochDate()
    ensures Civil(0) == Date(1970, 1, 1)
  {
    hide CivilInEra, MarchDate;
    CivilAt(4, 135_080);
    CivilInEraAt(4, 135_080, 369);
    EpochInMarchYear();
  }

  lemma PrevUndoesNext(d: Date)
    requires ValidDate(d)
    ensures PrevDay(NextDay(d)) == d
    ensures DateLess(d, NextDay(d))
  {
  }

  lemma {:induction false} CivilIsDateOfDay(z: int)
    ensures Civil(z) == DateOfDay(z)
    decreases if z < 0 then -z else z
  {
    hide Civil, ValidDate, NextDay, PrevDay, DateLess;
    if z == 0 {
      EpochDate();
    } else if z > 0 {
      CivilIsDateOfDay(z - 1);
      CivilStep(z - 1);
    } else {
      CivilIsDateOfDay(z + 1);
      CivilStep(z);
      PrevUndoesNext(Civil(z));
    }
  }

  // ---- Main results ----

  lemma WrapI32Period(x: int, k: int)
    ensures WrapI32(x + k * TWO32) == WrapI32(x)
  {
    var n := x + I32_MAX + 1;
    var q, r := n / TWO32, n % TWO32;
    assert n + k * TWO32 == (q + k) * TWO32 + r;
    assert (n + k * TWO32) % TWO32 == r;
  }

  lemma WrapI32Splits(x: int) returns (k: int)
    ensures WrapI32(x) == x + k * TWO32
  {
    k := -((x + I32_MAX + 1) / TWO32);
  }

  lemma WrappedYear(era: int, yoe: int)
    ensures WrapI32(yoe + WrapI32(WrapI32(era) * 400)) == WrapI32(yoe + era * 400)
    ensures WrapI32(WrapI32(yoe + era * 400) + 1) == WrapI32(yoe + era * 400 + 1)
  {
    var a := WrapI32Splits(era);
    var b := WrapI32Splits(WrapI32(era) * 400);
    assert (era + a * TWO32) * 400 == era * 400 + (400 * a) * TWO32;
    assert (400 * a) * TWO32 + b * TWO32 == (400 * a + b) * TWO32;
    assert yoe + WrapI32(WrapI32(era) * 400) == yoe + era * 400 + (400 * a + b) * TWO32;
    WrapI32Period(yoe + era * 400, 400 * a + b);
    var c := WrapI32Splits(yoe + era * 400);
    assert WrapI32(yoe + era * 400) + 1 == yoe + era * 400 + 1 + c * TWO32;
    WrapI32Period(yoe + era * 400 + 1, c);
  }

  /** For every day number the month and day are the stepped calendar's, and the year is its year modulo 2^32. */
  lemma CivilFromDaysIsTheCalendar(z: int)
    ensures ValidDate(DateOfDay(z))
    ensures CivilFromDays(z) == DateOfDay(z).(year := WrapI32(DateOfDay(z).year))
  {
    hide DateOfDay, ValidDate, WrapI32, EraOf, YearOfEra, DayOfYear, MonthIndex, DayOfMonth, MonthOfIndex;
    CivilIsDateOfDay(z);
    CivilStep(z);
    var n := z + 719_468;
    EraIsFloor(n);
    assert WrapU32(n % 146_097) == n % 146_097;
    IntermediateRanges(n % 146_097);
    WrappedYear(n / 146_097, YearOfEra(n % 146_097));
  }

  /** 1 January of the year -2^31. */
  const FIRST_EXACT_DAY: int := -784_353_015_833
  /** 31 December of the year 2^31 - 1. */
  const LAST_EXACT_DAY: int := 784_351_576_776

  lemma DayInEra(era: int, yoe: int, doy: int)
    requires 0 <= yoe <= 399 && 0 <= doy < YearStart(yoe + 1) - YearStart(yoe)
    ensures DateOfDay(era * 146_097 + YearStart(yoe) + doy - 719_468) == MarchDate(yoe + era * 400, doy)
  {
    hide DateOfDay, Civil, CivilInEra, MarchDate, YearStart;
    YearStartBounds(yoe);
    YearStartBounds(0);
    YearStartMonotone(0, yoe);
    CivilAt(era, YearStart(yoe) + doy);
    CivilInEraAt(era, YearStart(yoe) + doy, yoe);
    CivilIsDateOfDay(era * 146_097 + (YearStart(yoe) + doy) - 719_468);
  }

  lemma TurnOfMarchYear(y: int)
    ensures MarchDate(y, 305) == Date(y, 12, 31) && MarchDate(y, 306) == Date(y + 1, 1, 1)
  {
  }

  lemma ExactDaysEnd()
    ensures DateOfDay(LAST_EXACT_DAY) == Date(I32_MAX, 12, 31)
    ensures DateOfDay(LAST_EXACT_DAY + 1) == Date(I32_MAX + 1, 1, 1)
    ensures DateOfDay(FIRST_EXACT_DAY) == Date(-I32_MAX - 1, 1, 1)
    ensures DateOfDay(FIRST_EXACT_DAY - 1) == Date(-I32_MAX - 2, 12, 31)
  {
    hide DateOfDay, MarchDate;
    DayInEra(5_368_709, 47, 305);
    DayInEra(5_368_709, 47, 306);
    DayInEra(-5_368_710, 351, 306);
    DayInEra(-5_368_710, 351, 305);
    TurnOfMarchYear(47 + 5_368_709 * 400);
    TurnOfMarchYear(351 + -5_368_710 * 400);
  }

  lemma {:induction false} DatesIncrease(a: int, b: int)
    requires a < b
    ensures DateLess(DateOfDay(a), DateOfDay(b))
    decreases b - a
  {
    CivilStep(b - 1);
    CivilIsDateOfDay(b - 1);
    CivilIsDateOfDay(b);
    PrevUndoesNext(DateOfDay(b - 1));
    if a < b - 1 {
      DatesIncrease(a, b - 1);
    }
  }

  /** The closed form is exact on these days and no others; no 64-bit sum overflows while the shifted day fits. */
  lemma CivilFromDaysExactly(z: int)
    ensures IsI64(z) && IsI64(z + 719_468) ==> IsI64(z + 719_468 - 146_096)
    ensures CivilFromDays(z) == DateOfDay(z) <==> FIRST_EXACT_DAY <= z <= LAST_EXACT_DAY
  {
    hide CivilFromDays, DateOfDay, ValidDate;
    CivilFromDaysIsTheCalendar(z);
    ExactDaysEnd();
    if z < FIRST_EXACT_DAY - 1 {
      DatesIncrease(z, FIRST_EXACT_DAY - 1);
    } else if FIRST_EXACT_DAY < z {
      DatesIncrease(FIRST_EXACT_DAY, z);
    }
    if z < LAST_EXACT_DAY {
      DatesIncrease(z, LAST_EXACT_DAY);
    } else if LAST_EXACT_DAY + 1 < z {
      DatesIncrease(LAST_EXACT_DAY + 1, z);
    }
  }

  /** The day after the last one: its year wraps round. */
  lemma FirstWrongDay()
    ensures DateOfDay(784_351_576_777) == Date(0x8000_0000, 1, 1)
    ensures CivilFromDays(784_351_576_777) == Date(-0x8000_0000, 1, 1)
  {
    hide CivilFromDays, DateOfDay;
    ExactDaysEnd();
    CivilFromDaysIsTheCalendar(LAST_EXACT_DAY + 1);
  }
}
