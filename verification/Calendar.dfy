/**
 The proleptic Gregorian calendar in closed form (crates/model/src/time.rs), against the
 day-by-day calendar of month lengths and leap years.
 */
module Calendar {
  import opened RustInt

  predicate IsLeapYear(y: int) {
    (TruncMod(y, 4) == 0 && TruncMod(y, 100) != 0) || TruncMod(y, 400) == 0
  }

  function DaysInMonth(y: int, m: int): int {
    if m == 1 || m == 3 || m == 5 || m == 7 || m == 8 || m == 10 || m == 12 then 31
    else if m == 4 || m == 6 || m == 9 || m == 11 then 30
    else if m == 2 then (if IsLeapYear(y) then 29 else 28)
    else 0
  }

  datatype Date = Date(year: int, month: int, day: int) {
    predicate Valid() {
      1 <= month <= 12 && 1 <= day <= DaysInMonth(year, month)
    }
  }

  /** `era`: the 400-year cycle, by a truncating division that is corrected for negative years. */
  function EraOfYear(y: int): int {
    TruncDiv(if y >= 0 then y else y - 399, 400)
  }

  function EraOfDay(z: int): int {
    TruncDiv(if z >= 0 then z else z - 146_096, 146_097)
  }

  function DaysFromCivil(date: Date): int {
    var y := if date.month <= 2 then date.year - 1 else date.year;
    var era := EraOfYear(y);
    var yoe := y - era * 400;
    var mp := if date.month > 2 then date.month - 3 else date.month + 9;
    var doy := TruncDiv(153 * mp + 2, 5) + date.day - 1;
    var doe := yoe * 365 + TruncDiv(yoe, 4) - TruncDiv(yoe, 100) + doy;
    era * 146_097 + doe - 719_468
  }

  function YearOfEra(doe: int): int {
    TruncDiv(doe - TruncDiv(doe, 1_460) + TruncDiv(doe, 36_524) - TruncDiv(doe, 146_096), 365)
  }

  function CivilFromDays(days: int): Date {
    var z := days + 719_468;
    var era := EraOfDay(z);
    var doe := z - era * 146_097;
    var yoe := YearOfEra(doe);
    var y := yoe + era * 400;
    var doy := doe - (365 * yoe + TruncDiv(yoe, 4) - TruncDiv(yoe, 100));
    var mp := TruncDiv(5 * doy + 2, 153);
    var d := doy - TruncDiv(153 * mp + 2, 5) + 1;
    var m := if mp < 10 then mp + 3 else mp - 9;
    Date(if m <= 2 then y + 1 else y, m, d)
  }

  /** The corrected truncating divisions are floor divisions. */
  lemma {:induction false} ErasAreFloors(y: int, z: int)
    ensures EraOfYear(y) == y / 400
    ensures EraOfDay(z) == z / 146_097
  {}

  /** The first day, counted within the era, of the year that starts in March of year yoe. */
  function YearStart(yoe: nat): int { 365 * yoe + yoe / 4 - yoe / 100 }

  /** Whether that year contains a 29th of February, at its end. */
  predicate LongYear(yoe: nat) {
    (yoe + 1) % 4 == 0 && ((yoe + 1) % 100 != 0 || yoe == 399)
  }

  /** A day of an era, split into centuries, four-year groups, years and days. */
  lemma {:induction false} YearOfEraSplit(c: nat, q: nat, r: nat, doy: nat)
    requires c < 4 && q < 25 && r < 4 && doy <= 365
    requires doy == 365 ==> r == 3 && (q == 24 ==> c == 3)
    ensures YearOfEra(36_524 * c + 1_461 * q + 365 * r + doy) == 100 * c + 4 * q + r
  {
    var w := 1_461 * q + 365 * r + doy;
    var doe := 36_524 * c + w;
    if w < 36_524 {
      assert doe / 36_524 == c && doe / 146_096 == 0;
      var f := (q + 24 * c + 365 * r + doy) / 1_460;
      assert doe == 1_460 * (25 * c + q) + (q + 24 * c + 365 * r + doy);
      assert doe / 1_460 == 25 * c + q + f;
      assert 0 <= doy - f <= 364;
    }
  }

  lemma {:induction false} YearSplit(c: nat, q: nat, r: nat)
    requires c < 4 && q < 25 && r < 4
    ensures YearStart(100 * c + 4 * q + r) == 36_524 * c + 1_461 * q + 365 * r
    ensures LongYear(100 * c + 4 * q + r) <==> r == 3 && (q == 24 ==> c == 3)
  {
    var yoe := 100 * c + 4 * q + r;
    assert yoe / 4 == 25 * c + q && yoe / 100 == c;
    assert (yoe + 1) % 4 == 0 <==> r == 3;
    assert r == 3 ==> ((yoe + 1) % 100 == 0 <==> q == 24);
  }

  /** The closed form recovers the year of the era from any day in it. */
  lemma {:induction false} YearOfEraInverse(yoe: nat, doy: nat)
    requires yoe < 400 && doy <= 365 && (doy == 365 ==> LongYear(yoe))
    ensures YearOfEra(YearStart(yoe) + doy) == yoe
  {
    var c := yoe / 100;
    var q := yoe % 100 / 4;
    var r := yoe % 4;
    assert yoe == 100 * c + 4 * q + r;
    YearSplit(c, q, r);
    YearOfEraSplit(c, q, r, doy);
  }

  /** Every day of an era lies in exactly one year of it. */
  lemma {:induction false} SplitDayOfEra(doe: nat) returns (yoe: nat, doy: nat)
    requires doe < 146_097
    ensures yoe < 400 && doy <= 365 && (doy == 365 ==> LongYear(yoe))
    ensures doe == YearStart(yoe) + doy && YearOfEra(doe) == yoe
  {
    var c := if doe / 36_524 < 3 then doe / 36_524 else 3;
    var w := doe - 36_524 * c;
    assert 0 <= w <= 36_524 && (w == 36_524 ==> c == 3);
    var q := if w / 1_461 < 24 then w / 1_461 else 24;
    var v := w - 1_461 * q;
    assert 0 <= v <= 1_460 && (q == 24 && v == 1_460 ==> c == 3);
    var r := if v / 365 < 3 then v / 365 else 3;
    yoe, doy := 100 * c + 4 * q + r, v - 365 * r;
    YearSplit(c, q, r);
    YearOfEraSplit(c, q, r, doy);
  }

  /** The day, counted from 1 March, on which month mp (0 is March) starts. */
  function MonthStart(mp: nat): int { (153 * mp + 2) / 5 }

  lemma {:induction false} MonthInverse(mp: nat, day: nat)
    requires mp < 12 && day < MonthStart(mp + 1) - MonthStart(mp)
    ensures (5 * (MonthStart(mp) + day) + 2) / 153 == mp
  {}

  /** Month lengths read off the closed form; the last month of the March-based year is February. */
  lemma {:induction false} MonthLengths(y: int, m: int)
    requires 1 <= m <= 12 && m != 2
    ensures var mp := if m > 2 then m - 3 else m + 9; DaysInMonth(y, m) == MonthStart(mp + 1) - MonthStart(mp)
  {}

  /** The truncated remainder vanishes exactly when the floor remainder does. */
  lemma {:induction false} TruncModZero(y: int, n: int, b: int)
    requires n == 0 - y
    requires b == 4 || b == 100 || b == 400
    ensures TruncMod(y, b) == 0 <==> y % b == 0
  {
    assert TruncMod(y, b) == if y >= 0 then y % b else -(n % b);
    var p, q := y / b, n / b;
    if b == 4 {
      assert 0 == 4 * (p + q) + y % b + n % b;
    } else if b == 100 {
      assert 0 == 100 * (p + q) + y % b + n % b;
    } else {
      assert 0 == 400 * (p + q) + y % b + n % b;
    }
  }

  lemma {:induction false} LeapByFloor(y: int)
    ensures IsLeapYear(y) <==> (y % 4 == 0 && y % 100 != 0) || y % 400 == 0
  {
    TruncModZero(y, 0 - y, 4);
    TruncModZero(y, 0 - y, 100);
    TruncModZero(y, 0 - y, 400);
    hide TruncMod;
  }

  lemma {:induction false} Mod4(j: int, s: int)
    ensures (4 * j + s) % 4 == s % 4
  {}

  lemma {:induction false} Mod100(j: int, s: int)
    ensures (100 * j + s) % 100 == s % 100
  {}

  lemma {:induction false} Mod400(j: int, s: int)
    ensures (400 * j + s) % 400 == s % 400
  {}

  /** A year is leap exactly when the March-based year that ends in its February is long. */
  lemma {:induction false} LeapIsLong(era: int, yoe: nat)
    requires yoe < 400
    ensures IsLeapYear(400 * era + yoe + 1) <==> LongYear(yoe)
  {
    hide IsLeapYear;
    LeapByFloor(400 * era + yoe + 1);
    Mod4(100 * era, yoe + 1);
    Mod100(4 * era, yoe + 1);
    Mod400(era, yoe + 1);
  }

  // ----- the two directions

  /** The March-based form of a date: its era, year of era and day of that year. */
  lemma {:induction false} Decompose(date: Date) returns (era: int, yoe: nat, mp: nat, doy: nat)
    requires date.Valid()
    ensures mp < 12 && date.month == (if mp < 10 then mp + 3 else mp - 9)
    ensures date.year == era * 400 + yoe + (if mp >= 10 then 1 else 0)
    ensures yoe < 400 && doy <= 365 && (doy == 365 ==> LongYear(yoe))
    ensures MonthStart(mp) <= doy && doy == MonthStart(mp) + date.day - 1
    ensures mp < 11 ==> doy < MonthStart(mp + 1)
    ensures DaysFromCivil(date) == era * 146_097 + YearStart(yoe) + doy - 719_468
  {
    var y := if date.month <= 2 then date.year - 1 else date.year;
    ErasAreFloors(y, 0);
    era, yoe := y / 400, y % 400;
    mp := if date.month > 2 then date.month - 3 else date.month + 9;
    doy := MonthStart(mp) + date.day - 1;
    if date.month == 2 {
      FebruaryEnds(date.year, era, yoe);
    } else {
      MonthLengths(date.year, date.month);
    }
  }

  /** Building a date back from the March-based form. */
  lemma {:induction false} CivilOfParts(era: int, yoe: nat, mp: nat, doy: nat)
    requires yoe < 400 && mp < 12 && doy <= 365 && (doy == 365 ==> LongYear(yoe))
    requires MonthStart(mp) <= doy && (mp < 11 ==> doy < MonthStart(mp + 1))
    ensures CivilFromDays(era * 146_097 + YearStart(yoe) + doy - 719_468) ==
            Date(era * 400 + yoe + (if mp >= 10 then 1 else 0), if mp < 10 then mp + 3 else mp - 9, doy - MonthStart(mp) + 1)
  {
    hide *;
    var days := era * 146_097 + YearStart(yoe) + doy - 719_468;
    EraOfParts(era, yoe, doy);
    YearOfEraInverse(yoe, doy);
    MonthOfParts(mp, doy);
    DateOfParts(days, era, yoe, doy, mp);
  }

  /** The month half: the closed form recovers the month from the day of the year. */
  lemma {:induction false} MonthOfParts(mp: nat, doy: nat)
    requires mp < 12 && doy <= 365 && MonthStart(mp) <= doy && (mp < 11 ==> doy < MonthStart(mp + 1))
    ensures TruncDiv(5 * doy + 2, 153) == mp
  {
    MonthInverse(mp, doy - MonthStart(mp));
  }

  /** The year half, put together with the month. */
  lemma {:induction false} DateOfParts(days: int, era: int, yoe: nat, doy: nat, mp: nat)
    requires mp < 12 && days + 719_468 == era * 146_097 + YearStart(yoe) + doy
    requires EraOfDay(days + 719_468) == era && YearOfEra(YearStart(yoe) + doy) == yoe
    requires TruncDiv(5 * doy + 2, 153) == mp
    ensures CivilFromDays(days) ==
            Date(era * 400 + yoe + (if mp >= 10 then 1 else 0), if mp < 10 then mp + 3 else mp - 9, doy - MonthStart(mp) + 1)
  {
    Truncated(yoe, mp);
    hide EraOfDay, YearOfEra, YearStart, MonthStart, TruncDiv;
  }

  lemma {:induction false} Truncated(yoe: nat, mp: nat)
    ensures YearStart(yoe) == 365 * yoe + TruncDiv(yoe, 4) - TruncDiv(yoe, 100)
    ensures MonthStart(mp) == TruncDiv(153 * mp + 2, 5)
  {}

  lemma {:induction false} EraOfParts(era: int, yoe: nat, doy: nat)
    requires yoe < 400 && doy <= 365 && (doy == 365 ==> LongYear(yoe))
    ensures EraOfDay(era * 146_097 + YearStart(yoe) + doy) == era
  {
    hide EraOfDay, YearStart, LongYear;
    YearStartBound(yoe);
    ErasAreFloors(0, era * 146_097 + YearStart(yoe) + doy);
  }

  lemma {:induction false} YearStartBound(yoe: nat)
    requires yoe < 400
    ensures 0 <= YearStart(yoe) && YearStart(yoe) + (if LongYear(yoe) then 366 else 365) <= 146_097
  {}

  /** `civil_from_days` undoes `days_from_civil` on every valid date. */
  lemma {:induction false} CivilOfDays(date: Date)
    requires date.Valid()
    ensures CivilFromDays(DaysFromCivil(date)) == date
  {
    hide *;
    var era, yoe, mp, doy := Decompose(date);
    CivilOfParts(era, yoe, mp, doy);
  }

  lemma {:induction false} MonthOfDay(doy: nat) returns (mp: nat)
    requires doy <= 365
    ensures mp < 12 && MonthStart(mp) <= doy && (mp < 11 ==> doy < MonthStart(mp + 1))
  {
    mp := (5 * doy + 2) / 153;
  }

  /** Every day number is that of a valid date, and `days_from_civil` undoes `civil_from_days`. */
  lemma {:induction false} DaysOfCivil(days: int)
    ensures CivilFromDays(days).Valid()
    ensures DaysFromCivil(CivilFromDays(days)) == days
  {
    hide *;
    var z := days + 719_468;
    var era, doe := z / 146_097, z % 146_097;
    var yoe, doy := SplitDayOfEra(doe);
    var mp := MonthOfDay(doy);
    CivilOfParts(era, yoe, mp, doy);
    DateOfPartsValid(era, yoe, mp, doy);
    DaysOfParts(CivilFromDays(days), era, yoe, mp, doy);
  }

  lemma {:induction false} DateOfPartsValid(era: int, yoe: nat, mp: nat, doy: nat)
    requires yoe < 400 && mp < 12 && doy <= 365 && (doy == 365 ==> LongYear(yoe))
    requires MonthStart(mp) <= doy && (mp < 11 ==> doy < MonthStart(mp + 1))
    ensures Date(era * 400 + yoe + (if mp >= 10 then 1 else 0), if mp < 10 then mp + 3 else mp - 9,
                 doy - MonthStart(mp) + 1).Valid()
  {
    var y := era * 400 + yoe + if mp >= 10 then 1 else 0;
    var m := if mp < 10 then mp + 3 else mp - 9;
    hide LongYear, IsLeapYear;
    if m == 2 {
      FebruaryEnds(y, era, yoe);
    } else {
      MonthLengths(y, m);
    }
  }

  /** The parts of a date are unique. */
  lemma {:induction false} DaysOfParts(date: Date, era: int, yoe: nat, mp: nat, doy: nat)
    requires date.Valid() && yoe < 400 && mp < 12
    requires date == Date(era * 400 + yoe + (if mp >= 10 then 1 else 0), if mp < 10 then mp + 3 else mp - 9,
                          doy - MonthStart(mp) + 1)
    ensures DaysFromCivil(date) == era * 146_097 + YearStart(yoe) + doy - 719_468
  {
    hide DaysFromCivil, YearStart, LongYear, MonthStart, DaysInMonth, IsLeapYear;
    var era', yoe', mp', doy' := Decompose(date);
    assert mp' == mp;
    assert era' * 400 + yoe' == era * 400 + yoe;
  }

  // ----- the day-by-day calendar

  /** The day after. */
  function NextDay(date: Date): Date {
    if date.day < DaysInMonth(date.year, date.month) then Date(date.year, date.month, date.day + 1)
    else if date.month < 12 then Date(date.year, date.month + 1, 1)
    else Date(date.year + 1, 1, 1)
  }

  /** n days later, one day at a time. */
  function Later(date: Date, n: nat): Date {
    if n == 0 then date else NextDay(Later(date, n - 1))
  }

  const EPOCH: Date := Date(1970, 1, 1)

  /** The closed form counts days: the next day has the next number. */
  lemma {:induction false} NextDayCounts(date: Date)
    requires date.Valid()
    ensures NextDay(date).Valid() && DaysFromCivil(NextDay(date)) == DaysFromCivil(date) + 1
  {
    hide DaysFromCivil, YearStart, LongYear;
    var era, yoe, mp, doy := Decompose(date);
    var next := NextDay(date);
    NextDayValid(date);
    if next.day > 1 {
      DaysOfParts(next, era, yoe, mp, doy + 1);
    } else if mp < 11 {
      MonthLengths(date.year, date.month);
      DaysOfParts(next, era, yoe, mp + 1, doy + 1);
    } else {
      LastDayOfYear(yoe);
      FebruaryEnds(date.year, era, yoe);
      if yoe == 399 {
        DaysOfParts(next, era + 1, 0, 0, 0);
      } else {
        DaysOfParts(next, era, yoe + 1, 0, 0);
      }
    }
  }

  lemma {:induction false} FebruaryEnds(year: int, era: int, yoe: nat)
    requires year == era * 400 + yoe + 1 && yoe < 400
    ensures DaysInMonth(year, 2) == if LongYear(yoe) then 29 else 28
  {
    hide LongYear, IsLeapYear;
    LeapIsLong(era, yoe);
  }

  lemma {:induction false} NextDayValid(date: Date)
    requires date.Valid()
    ensures NextDay(date).Valid()
  {}

  lemma {:induction false} LastDayOfYear(yoe: nat)
    requires yoe < 400
    ensures YearStart(0) == 0
    ensures yoe < 399 ==> YearStart(yoe + 1) == YearStart(yoe) + if LongYear(yoe) then 366 else 365
    ensures yoe == 399 ==> 146_097 == YearStart(yoe) + if LongYear(yoe) then 366 else 365
  {
    assert (yoe + 1) / 4 == yoe / 4 + if (yoe + 1) % 4 == 0 then 1 else 0;
    assert (yoe + 1) / 100 == yoe / 100 + if (yoe + 1) % 100 == 0 then 1 else 0;
    assert (yoe + 1) % 100 == 0 ==> (yoe + 1) % 4 == 0;
  }

  /** Counting from any valid date agrees with the closed form, over any number of days. */
  lemma {:induction false} LaterCounts(date: Date, n: nat)
    requires date.Valid()
    ensures Later(date, n).Valid() && DaysFromCivil(Later(date, n)) == DaysFromCivil(date) + n
  {
    if n > 0 {
      LaterCounts(date, n - 1);
      NextDayCounts(Later(date, n - 1));
    }
  }

  /** Day n is reached from 1 January 1970 in n steps, and n days before it that date is reached in as many. */
  lemma {:induction false} CivilIsCounted(n: nat)
    ensures CivilFromDays(n) == Later(EPOCH, n)
    ensures Later(CivilFromDays(0 - n), n) == EPOCH
  {
    EpochIsDayZero();
    hide *;
    LaterCounts(EPOCH, n);
    CivilOfDays(Later(EPOCH, n));
    DaysOfCivil(0 - n);
    LaterCounts(CivilFromDays(0 - n), n);
    CivilOfDays(Later(CivilFromDays(0 - n), n));
    CivilOfDays(EPOCH);
  }

  lemma {:induction false} EpochIsDayZero()
    ensures EPOCH.Valid() && DaysFromCivil(EPOCH) == 0
  {}

  /** Dates are ordered as their day numbers are. */
  lemma {:induction false} LaterDatesHaveLaterDays(a: Date, b: Date)
    requires a.Valid() && b.Valid()
    ensures DaysFromCivil(a) < DaysFromCivil(b) <==>
            Before(a, b)
  {
    hide DaysFromCivil, DaysInMonth;
    if DaysFromCivil(a) <= DaysFromCivil(b) {
      OrderedByDays(a, b, DaysFromCivil(b) - DaysFromCivil(a));
    } else {
      OrderedByDays(b, a, DaysFromCivil(a) - DaysFromCivil(b));
    }
  }

  predicate Before(a: Date, b: Date) {
    a.year < b.year || (a.year == b.year && (a.month < b.month || (a.month == b.month && a.day < b.day)))
  }

  lemma {:induction false} LaterIsBefore(a: Date, n: nat)
    requires a.Valid() && n > 0
    ensures Later(a, n).Valid() && Before(a, Later(a, n))
  {
    hide DaysFromCivil, DaysInMonth;
    LaterCounts(a, n);
    if n > 1 {
      LaterIsBefore(a, n - 1);
    }
  }

  lemma {:induction false} OrderedByDays(a: Date, b: Date, n: nat)
    requires a.Valid() && b.Valid() && DaysFromCivil(b) == DaysFromCivil(a) + n
    ensures if n == 0 then a == b else Before(a, b)
  {
    hide *;
    LaterCounts(a, n);
    CivilOfDays(Later(a, n));
    CivilOfDays(b);
    assert b == Later(a, n);
    if n == 0 {
      CivilOfDays(a);
    } else {
      LaterIsBefore(a, n);
    }
  }
}
