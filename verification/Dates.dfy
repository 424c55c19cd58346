/**
 * Civil dates from day numbers and back, over all integers. Day 0 is 1 January 1970.
 */
module Dates {
  datatype Date = Date(y: int, m: int, d: int)

  /** Division as the source's `/`: truncated toward zero. */
  function Quot(a: int, b: int): int
    requires b > 0
  {
    if a >= 0 then a / b else -((-a) / b)
  }

  // ---------- The Gregorian calendar ----------

  predicate LeapYear(y: int) {
    y % 4 == 0 && (y % 100 != 0 || y % 400 == 0)
  }

  function DaysInMonth(y: int, m: int): int
    requires 1 <= m <= 12
  {
    if m == 2 then (if LeapYear(y) then 29 else 28)
    else if m == 4 || m == 6 || m == 9 || m == 11 then 30
    else 31
  }

  predicate Valid(t: Date) {
    1 <= t.m <= 12 && 1 <= t.d <= DaysInMonth(t.y, t.m)
  }

  function NextDay(t: Date): (n: Date)
    requires Valid(t)
    ensures Valid(n)
  {
    if t.d < DaysInMonth(t.y, t.m) then Date(t.y, t.m, t.d + 1)
    else if t.m < 12 then Date(t.y, t.m + 1, 1)
    else Date(t.y + 1, 1, 1)
  }

  // ---------- The conversions ----------

  function EraOfDay(z: int): int {
    Quot(if z >= 0 then z else z - 146_096, 146_097)
  }

  function EraOfYear(y: int): int {
    Quot(if y >= 0 then y else y - 399, 400)
  }

  function YearOfEra(doe: int): int {
    Quot(doe - Quot(doe, 1460) + Quot(doe, 36524) - Quot(doe, 146_096), 365)
  }

  function DaysBefore(yoe: int): int {
    365 * yoe + Quot(yoe, 4) - Quot(yoe, 100)
  }

  /** Month and day from the day of a year that starts in March. */
  function FromMarch(y: int, doy: int): Date {
    var mp := Quot(5 * doy + 2, 153);
    var d := doy - Quot(153 * mp + 2, 5) + 1;
    var m := if mp < 10 then mp + 3 else mp - 9;
    Date(if m <= 2 then y + 1 else y, m, d)
  }

  function CivilFromDays(z0: int): Date {
    var z := z0 + 719_468;
    var era := EraOfDay(z);
    var doe := z - era * 146_097;
    var yoe := YearOfEra(doe);
    var y := yoe + era * 400;
    FromMarch(y, doe - DaysBefore(yoe))
  }

  function DaysFromCivil(t: Date): int {
    var y := if t.m <= 2 then t.y - 1 else t.y;
    var era := EraOfYear(y);
    var yoe := y - era * 400;
    var mp := if t.m > 2 then t.m - 3 else t.m + 9;
    var doy := Quot(153 * mp + 2, 5) + t.d - 1;
    var doe := DaysBefore(yoe) + doy;
    era * 146_097 + doe - 719_468
  }

  // ---------- Years, counted from March, within an era of 400 ----------

  /** The first day of year `yoe` of an era. */
  function YearStart(yoe: int): int {
    365 * yoe + yoe / 4 - yoe / 100
  }

  /** Whether the year of an era ends in a leap February. */
  predicate LongYear(yoe: int) {
    yoe % 4 == 3 && (yoe % 100 != 99 || yoe == 399)
  }

  function YearLength(yoe: int): int {
    if LongYear(yoe) then 366 else 365
  }

  /** Century, four-year group, year and day within an era. */
  predicate Split(doe: int, c: int, q: int, k: int, doy: int) {
    && doe == 36524 * c + 1461 * q + 365 * k + doy
    && 0 <= c < 4 && 0 <= q < 25 && 0 <= k < 4 && 0 <= doy
    && (if k == 3 && (q < 24 || c == 3) then doy < 366 else doy < 365)
  }

  lemma SplitExists(doe: int) returns (c: int, q: int, k: int, doy: int)
    requires 0 <= doe < 146_097
    ensures Split(doe, c, q, k, doy)
  {
    c := if doe / 36524 == 4 then 3 else doe / 36524;
    var r := doe - 36524 * c;
    q := r / 1461;
    var s := r - 1461 * q;
    k := if s / 365 == 4 then 3 else s / 365;
    doy := s - 365 * k;
  }

  lemma SplitYear(doe: int, c: int, q: int, k: int, doy: int)
    requires Split(doe, c, q, k, doy)
    ensures var yoe := 100 * c + 4 * q + k;
            0 <= yoe < 400 && YearStart(yoe) + doy == doe && doy < YearLength(yoe) && YearOfEra(doe) == yoe
  {
    var e := if 24 * c + q + 365 * k + doy >= 1460 then 1 else 0;
    var f := if doe == 146_096 then 1 else 0;
    assert doe / 1460 == 25 * c + q + e;
    assert doe / 36524 == c + f;
    assert doe / 146_096 == f;
    assert YearOfEra(doe) == Quot(365 * (100 * c + 4 * q + k) + doy - e, 365);
    assert (100 * c + 4 * q + k) / 4 == 25 * c + q;
    assert (100 * c + 4 * q + k) / 100 == c;
    assert (100 * c + 4 * q + k) % 4 == k;
    assert (100 * c + 4 * q + k) % 100 == 4 * q + k;
  }

  /** The closed formula finds the year that holds the day. */
  lemma YearOfEraHolds(doe: int)
    requires 0 <= doe < 146_097
    ensures var yoe := YearOfEra(doe);
            0 <= yoe < 400 && YearStart(yoe) <= doe < YearStart(yoe) + YearLength(yoe)
  {
    var c, q, k, doy := SplitExists(doe);
    SplitYear(doe, c, q, k, doy);
  }

  lemma {:induction false} YearOfEraUnique(yoe: int, doy: int)
    requires 0 <= yoe < 400 && 0 <= doy < YearLength(yoe)
    ensures 0 <= YearStart(yoe) + doy < 146_097 && YearOfEra(YearStart(yoe) + doy) == yoe
  {
    var c, q, k := yoe / 100, yoe % 100 / 4, yoe % 4;
    assert yoe == 100 * c + 4 * q + k;
    SplitYear(YearStart(yoe) + doy, c, q, k, doy);
  }

  lemma NextYearStart(yoe: int)
    requires 0 <= yoe < 400
    ensures YearStart(yoe) + YearLength(yoe) == if yoe < 399 then YearStart(yoe + 1) else 146_097
  {
    assert (yoe + 1) / 4 == yoe / 4 + if yoe % 4 == 3 then 1 else 0;
    assert (yoe + 1) / 100 == yoe / 100 + if yoe % 100 == 99 then 1 else 0;
    assert yoe % 100 == 99 ==> yoe % 4 == 3;
  }

  // ---------- Months, counted from March, within a year ----------

  /** The first day of month `mp` of a year that starts in March. */
  function MonthStart(mp: int): int {
    (153 * mp + 2) / 5
  }

  function MonthOf(mp: int): int {
    if mp < 10 then mp + 3 else mp - 9
  }

  function YearOf(y: int, mp: int): int {
    if mp < 10 then y else y + 1
  }

  /** The formula finds the month that holds the day. */
  lemma MonthHolds(doy: int)
    requires 0 <= doy < 366
    ensures var mp := (5 * doy + 2) / 153;
            0 <= mp < 12 && MonthStart(mp) <= doy < if mp == 11 then 366 else MonthStart(mp + 1)
  {
  }

  lemma MonthUnique(mp: int, doy: int)
    requires 0 <= mp < 12 && MonthStart(mp) <= doy < if mp == 11 then 366 else MonthStart(mp + 1)
    ensures (5 * doy + 2) / 153 == mp
  {
  }

  lemma Shift4(a: int, k: int)
    ensures (a + 4 * k) % 4 == a % 4
  {
  }

  lemma Shift100(a: int, k: int)
    ensures (a + 100 * k) % 100 == a % 100
  {
  }

  lemma Shift400(a: int, k: int)
    ensures (a + 400 * k) % 400 == a % 400
  {
  }

  /** Leap years repeat with the era. */
  lemma LeapByEras(a: int, era: int)
    ensures LeapYear(a + 400 * era) == LeapYear(a)
  {
    Shift4(a, 100 * era);
    Shift100(a, 4 * era);
    Shift400(a, era);
  }

  lemma LeapWithinEra(yoe: int)
    requires 0 <= yoe < 400
    ensures LeapYear(yoe + 1) == LongYear(yoe)
  {
  }

  /** The February that ends a March-year is leap exactly when the formula says so. */
  lemma LeapFebruary(era: int, yoe: int)
    requires 0 <= yoe < 400
    ensures LeapYear(yoe + era * 400 + 1) == LongYear(yoe)
  {
    LeapByEras(yoe + 1, era);
    hide LeapYear;
    LeapWithinEra(yoe);
  }

  /** March-based months are as long as the calendar's, February included. */
  lemma MonthLengths(era: int, yoe: int, mp: int)
    requires 0 <= yoe < 400 && 0 <= mp < 12
    ensures DaysInMonth(YearOf(yoe + era * 400, mp), MonthOf(mp))
            == (if mp == 11 then YearLength(yoe) else MonthStart(mp + 1)) - MonthStart(mp)
  {
    LeapFebruary(era, yoe);
    hide LeapYear, LongYear;
  }

  // ---------- Both conversions in one form ----------

  /** Day `doy` of March-year `yoe` of an era is day `z`, and falls on date `t`. */
  predicate Corresponds(era: int, yoe: int, mp: int, z: int, t: Date) {
    && 0 <= yoe < 400 && 0 <= mp < 12
    && t.y == YearOf(yoe + era * 400, mp) && t.m == MonthOf(mp)
    && 1 <= t.d <= (if mp == 11 then YearLength(yoe) else MonthStart(mp + 1)) - MonthStart(mp)
    && z + 719_468 == era * 146_097 + YearStart(yoe) + MonthStart(mp) + t.d - 1
  }

  lemma CorrespondsValid(era: int, yoe: int, mp: int, z: int, t: Date)
    requires Corresponds(era, yoe, mp, z, t)
    ensures Valid(t)
  {
    MonthLengths(era, yoe, mp);
  }

  /** The two era divisions round down, also for negative arguments. */
  lemma EraOfDayFloors(era: int, doe: int)
    requires 0 <= doe < 146_097
    ensures EraOfDay(era * 146_097 + doe) == era
  {
    var z := era * 146_097 + doe;
    if z < 0 {
      assert -(z - 146_096) == 146_097 * -era + (146_096 - doe);
    }
  }

  lemma EraOfYearFloors(era: int, yoe: int)
    requires 0 <= yoe < 400
    ensures EraOfYear(yoe + era * 400) == era
  {
    var y := yoe + era * 400;
    if y < 0 {
      assert -(y - 399) == 400 * -era + (399 - yoe);
    }
  }

  lemma DaysBeforeIsStart(yoe: int)
    requires 0 <= yoe
    ensures DaysBefore(yoe) == YearStart(yoe)
  {
  }

  lemma FromMarchDate(y: int, mp: int, d: int)
    requires 0 <= mp < 12 && 1 <= d && MonthStart(mp) + d - 1 < if mp == 11 then 366 else MonthStart(mp + 1)
    ensures FromMarch(y, MonthStart(mp) + d - 1) == Date(YearOf(y, mp), MonthOf(mp), d)
  {
    MonthUnique(mp, MonthStart(mp) + d - 1);
  }

  lemma YearLengthBound(yoe: int)
    requires 0 <= yoe < 400
    ensures 0 <= YearStart(yoe) && YearStart(yoe) + YearLength(yoe) <= 146_097 && 365 <= YearLength(yoe) <= 366
    ensures MonthStart(11) == 337
  {
  }

  lemma MonthStartRange(mp: int)
    requires 0 <= mp < 12
    ensures 0 <= MonthStart(mp) <= 337 && (mp < 11 ==> MonthStart(mp) < MonthStart(mp + 1) <= 337)
  {
  }

  lemma CorrespondsCivil(era: int, yoe: int, mp: int, z: int, t: Date)
    requires Corresponds(era, yoe, mp, z, t)
    ensures CivilFromDays(z) == t
  {
    hide EraOfDay, YearOfEra, DaysBefore, FromMarch, YearStart, MonthStart, YearLength, YearOf, MonthOf;
    var doy := MonthStart(mp) + t.d - 1;
    var doe := YearStart(yoe) + doy;
    YearLengthBound(yoe);
    MonthStartRange(mp);
    YearOfEraUnique(yoe, doy);
    EraOfDayFloors(era, doe);
    DaysBeforeIsStart(yoe);
    FromMarchDate(yoe + era * 400, mp, t.d);
  }

  lemma CivilCorresponds(z: int) returns (era: int, yoe: int, mp: int)
    ensures Corresponds(era, yoe, mp, z, CivilFromDays(z))
  {
    era := (z + 719_468) / 146_097;
    var doe := z + 719_468 - era * 146_097;
    YearOfEraHolds(doe);
    yoe := YearOfEra(doe);
    var doy := doe - YearStart(yoe);
    YearLengthBound(yoe);
    MonthHolds(doy);
    mp := (5 * doy + 2) / 153;
    var t := Date(YearOf(yoe + era * 400, mp), MonthOf(mp), doy - MonthStart(mp) + 1);
    hide EraOfDay, YearOfEra, DaysBefore, FromMarch, YearStart, MonthStart, YearLength, YearOf, MonthOf, CivilFromDays;
    CorrespondsCivil(era, yoe, mp, z, t);
  }

  lemma CorrespondsDays(era: int, yoe: int, mp: int, z: int, t: Date)
    requires Corresponds(era, yoe, mp, z, t)
    ensures DaysFromCivil(t) == z
  {
    EraOfYearFloors(era, yoe);
    DaysBeforeIsStart(yoe);
    hide EraOfYear, DaysBefore, YearStart, YearLength;
  }

  lemma DaysCorresponds(t: Date) returns (era: int, yoe: int, mp: int)
    requires Valid(t)
    ensures Corresponds(era, yoe, mp, DaysFromCivil(t), t)
  {
    var y := if t.m <= 2 then t.y - 1 else t.y;
    era := y / 400;
    yoe := y - era * 400;
    mp := if t.m > 2 then t.m - 3 else t.m + 9;
    MonthLengths(era, yoe, mp);
    hide DaysInMonth, YearStart, YearLength, MonthStart, DaysFromCivil;
    CorrespondsDays(era, yoe, mp, era * 146_097 + YearStart(yoe) + MonthStart(mp) + t.d - 1 - 719_468, t);
  }

  // ---------- The results ----------

  /** Every day number gives a date of the calendar, and the date gives the day number back. */
  lemma DateOfEveryDay(z: int)
    ensures Valid(CivilFromDays(z)) && DaysFromCivil(CivilFromDays(z)) == z
  {
    var era, yoe, mp := CivilCorresponds(z);
    CorrespondsValid(era, yoe, mp, z, CivilFromDays(z));
    CorrespondsDays(era, yoe, mp, z, CivilFromDays(z));
  }

  /** Every date of the calendar is the date of its day number. */
  lemma DayOfEveryDate(t: Date)
    requires Valid(t)
    ensures CivilFromDays(DaysFromCivil(t)) == t
  {
    var era, yoe, mp := DaysCorresponds(t);
    CorrespondsCivil(era, yoe, mp, DaysFromCivil(t), t);
  }

  /** The day after the last of a month that is not February. */
  lemma NextInYear(era: int, yoe: int, mp: int, z: int, t: Date)
    requires Corresponds(era, yoe, mp, z, t) && mp < 11 && t.d == MonthStart(mp + 1) - MonthStart(mp)
    ensures Corresponds(era, yoe, mp + 1, z + 1, Date(YearOf(yoe + era * 400, mp + 1), MonthOf(mp + 1), 1))
  {
    MonthStartRange(mp + 1);
    YearLengthBound(yoe);
    hide MonthStart, YearStart, YearLength, YearOf, MonthOf;
  }

  lemma MarchFirst()
    ensures MonthStart(0) == 0 && YearStart(0) == 0
  {
  }

  /** The day after the last of February. */
  lemma NextYear(era: int, yoe: int, z: int, t: Date) returns (era1: int, yoe1: int)
    requires Corresponds(era, yoe, 11, z, t) && t.d == YearLength(yoe) - MonthStart(11)
    ensures yoe1 + era1 * 400 == yoe + era * 400 + 1
    ensures Corresponds(era1, yoe1, 0, z + 1, Date(YearOf(yoe1 + era1 * 400, 0), MonthOf(0), 1))
  {
    hide MonthStart, YearStart, YearLength, YearOf, MonthOf;
    NextYearStart(yoe);
    MarchFirst();
    MonthStartRange(0);
    era1, yoe1 := if yoe < 399 then era else era + 1, if yoe < 399 then yoe + 1 else 0;
    assert z + 1 + 719_468 == era * 146_097 + YearStart(yoe) + YearLength(yoe);
    assert z + 1 + 719_468 == era1 * 146_097 + YearStart(yoe1);
  }

  /** The day after `t` corresponds to the day after `z`. */
  lemma NextCorresponds(era: int, yoe: int, mp: int, z: int, t: Date) returns (era1: int, yoe1: int, mp1: int)
    requires Corresponds(era, yoe, mp, z, t) && Valid(t)
    ensures Corresponds(era1, yoe1, mp1, z + 1, NextDay(t))
  {
    MonthLengths(era, yoe, mp);
    era1, yoe1, mp1 := era, yoe, mp;
    hide DaysInMonth, Valid, MonthStart, YearStart, YearLength;
    if t.d == DaysInMonth(t.y, t.m) {
      if mp < 11 {
        NextInYear(era, yoe, mp, z, t);
        mp1 := mp + 1;
      } else {
        mp1 := 0;
        era1, yoe1 := NextYear(era, yoe, z, t);
      }
    }
  }

  lemma NextDayCounts(t: Date)
    requires Valid(t)
    ensures DaysFromCivil(NextDay(t)) == DaysFromCivil(t) + 1
  {
    hide Corresponds, NextDay, DaysFromCivil, Valid;
    var era, yoe, mp := DaysCorresponds(t);
    var era1, yoe1, mp1 := NextCorresponds(era, yoe, mp, DaysFromCivil(t), t);
    CorrespondsDays(era1, yoe1, mp1, DaysFromCivil(t) + 1, NextDay(t));
  }

  /** Consecutive days have consecutive dates. */
  lemma ConsecutiveDays(z: int)
    ensures Valid(CivilFromDays(z)) && CivilFromDays(z + 1) == NextDay(CivilFromDays(z))
  {
    hide NextDay, DaysFromCivil, CivilFromDays, Valid;
    DateOfEveryDay(z);
    NextDayCounts(CivilFromDays(z));
    DayOfEveryDate(NextDay(CivilFromDays(z)));
  }

  /** The one date from which ConsecutiveDays fixes all the others. */
  lemma Epoch()
    ensures CivilFromDays(0) == Date(1970, 1, 1) && DaysFromCivil(Date(1970, 1, 1)) == 0
  {
    assert YearStart(369) == 134_774;
    assert Corresponds(4, 369, 10, 0, Date(1970, 1, 1));
    hide CivilFromDays, DaysFromCivil;
    CorrespondsCivil(4, 369, 10, 0, Date(1970, 1, 1));
    CorrespondsDays(4, 369, 10, 0, Date(1970, 1, 1));
  }
}
