/**
  Proleptic Gregorian calendar arithmetic: days since 1970-01-01 from a civil
  date and back, and the split of a millisecond instant into calendar fields.

  The computation follows the era scheme (400-year eras of 146097 days whose
  years start on 1 March): the year of an era is found by a search over the
  400 years of the era, and the month by the rule that five months starting
  in March hold 153 days.
*/
module Civil {

  predicate IsLeapYear(y: int) {
    y % 4 == 0 && (y % 100 != 0 || y % 400 == 0)
  }

  function DaysInMonth(y: int, m: int): (n: int)
    requires 1 <= m <= 12
    ensures 28 <= n <= 31
  {
    if m == 2 then (if IsLeapYear(y) then 29 else 28)
    else if m == 4 || m == 6 || m == 9 || m == 11 then 30
    else 31
  }

  predicate ValidDate(y: int, m: int, d: int) {
    1 <= m <= 12 && 1 <= d <= DaysInMonth(y, m)
  }

  datatype Date = Date(year: int, month: int, day: int)

  /** Days from 0000-03-01 to 1970-01-01. */
  const EpochShift := 719468
  /** Days in a 400-year era; products and quotients below write it out as 146097. */
  const DaysPerEra := 146097

  /** Days from the start of an era to 1 March of its year `yoe`. */
  function DaysBeforeYoe(yoe: int): int {
    365 * yoe + yoe / 4 - yoe / 100
  }

  /** Length of the March-based year `yoe` of an era: it holds the February of year yoe + 1. */
  function DaysInMarchYear(yoe: int): int {
    if IsLeapYear(yoe + 1) then 366 else 365
  }

  /** Months counted from March: index 0 is March, index 11 is February. */
  function MarchIndex(m: int): int {
    if m > 2 then m - 3 else m + 9
  }

  /** Days from 1 March to the first of month `m` in a March-based year (30.6 days a month, rounded). */
  function DaysBeforeMarchMonth(m: int): int {
    (153 * MarchIndex(m) + 2) / 5
  }

  /** Month holding day `doy` (0-based) of a March-based year. */
  function MonthOfMarchDay(doy: int): int {
    var mp := (5 * doy + 2) / 153;
    if mp < 10 then mp + 3 else mp - 9
  }

  /** Days since 1970-01-01 (negative before it) of a civil date. */
  function DaysFromCivil(y: int, m: int, d: int): int
    requires 1 <= m <= 12
  {
    var y' := if m <= 2 then y - 1 else y;
    var era := y' / 400;
    var yoe := y' - 400 * era;
    146097 * era + DaysBeforeYoe(yoe) + DaysBeforeMarchMonth(m) + d - 1 - EpochShift
  }

  /** The first March-based year of an era, from `k` on, that holds day `doe` of the era. */
  function YearFrom(doe: int, k: int): int
    requires 0 <= k < 400
    decreases 400 - k
  {
    if k == 399 || doe < DaysBeforeYoe(k + 1) then k else YearFrom(doe, k + 1)
  }

  /** Year of an era holding day `doe` of the era. */
  function YearOfEra(doe: int): int {
    YearFrom(doe, 0)
  }

  /** The civil date on day `doe` of era `era` (eras start on 0000-03-01). */
  function DateOfEraDay(era: int, doe: int): Date
    requires 0 <= doe < DaysPerEra
  {
    var yoe := YearOfEra(doe);
    DateOfMarchDay(era, yoe, doe - DaysBeforeYoe(yoe))
  }

  /** The civil date on day `doy` of the March-based year `yoe` of era `era`. */
  function DateOfMarchDay(era: int, yoe: int, doy: int): Date {
    var m := MonthOfMarchDay(doy);
    Date(400 * era + yoe + (if m <= 2 then 1 else 0), m, doy - DaysBeforeMarchMonth(m) + 1)
  }

  /** The civil date `z` days after 1970-01-01. */
  function CivilFromDays(z: int): Date {
    DateOfEraDay((z + EpochShift) / 146097, (z + EpochShift) % 146097)
  }

  lemma Mod4Shift(a: int, k: int)
    ensures (4 * a + k) % 4 == k % 4
  {
  }

  lemma Mod100Shift(a: int, k: int)
    ensures (100 * a + k) % 100 == k % 100
  {
  }

  lemma Mod400Shift(a: int, k: int)
    ensures (400 * a + k) % 400 == k % 400
  {
  }

  /** Whether a year is leap does not change from one 400-year era to the next. */
  lemma LeapShift(era: int, k: int)
    ensures IsLeapYear(400 * era + k) == IsLeapYear(k)
  {
    Mod4Shift(100 * era, k);
    Mod100Shift(4 * era, k);
    Mod400Shift(era, k);
  }

  lemma Quot4Step(k: int)
    requires 0 <= k
    ensures (k + 1) / 4 == k / 4 + (if (k + 1) % 4 == 0 then 1 else 0)
  {
  }

  lemma Quot100Step(k: int)
    requires 0 <= k
    ensures (k + 1) / 100 == k / 100 + (if (k + 1) % 100 == 0 then 1 else 0)
  {
  }

  /** Each March-based year of an era starts where the one before it ends. */
  lemma DaysBeforeYoeStep(k: int)
    requires 0 <= k < 399
    ensures DaysBeforeYoe(k + 1) == DaysBeforeYoe(k) + DaysInMarchYear(k)
  {
    Quot4Step(k);
    Quot100Step(k);
    assert (k + 1) % 400 != 0;
  }

  /** The whole era is 146097 days: its last March-based year ends on the era's last day. */
  lemma LastYearOfEra()
    ensures DaysBeforeYoe(399) + DaysInMarchYear(399) == DaysPerEra
  {
  }

  /** YearFrom brackets its day: the day falls inside the March-based year it names. */
  lemma {:induction false} YearFromBrackets(doe: int, k: int)
    requires 0 <= doe < DaysPerEra && 0 <= k < 400 && DaysBeforeYoe(k) <= doe
    ensures k <= YearFrom(doe, k) < 400
    ensures DaysBeforeYoe(YearFrom(doe, k)) <= doe < DaysBeforeYoe(YearFrom(doe, k)) + DaysInMarchYear(YearFrom(doe, k))
    decreases 400 - k
  {
    if k == 399 {
      LastYearOfEra();
    } else {
      DaysBeforeYoeStep(k);
      if DaysBeforeYoe(k + 1) <= doe {
        YearFromBrackets(doe, k + 1);
      }
    }
  }

  /** YearOfEra brackets its day: the day falls inside the March-based year it names. */
  lemma YearOfEraBrackets(doe: int)
    requires 0 <= doe < DaysPerEra
    ensures 0 <= YearOfEra(doe) < 400
    ensures DaysBeforeYoe(YearOfEra(doe)) <= doe < DaysBeforeYoe(YearOfEra(doe)) + DaysInMarchYear(YearOfEra(doe))
  {
    YearFromBrackets(doe, 0);
  }

  lemma {:induction false} DaysBeforeYoeMonotone(k1: int, k2: int)
    requires 0 <= k1 < k2 < 400
    ensures DaysBeforeYoe(k1) + DaysInMarchYear(k1) <= DaysBeforeYoe(k2)
    decreases k2 - k1
  {
    DaysBeforeYoeStep(k1);
    if k1 + 1 < k2 {
      DaysBeforeYoeMonotone(k1 + 1, k2);
      assert DaysInMarchYear(k1 + 1) >= 0;
    }
  }

  /** Only one March-based year of an era holds a given day. */
  lemma YearOfEraUnique(doe: int, k: int)
    requires 0 <= doe < DaysPerEra && 0 <= k < 400
    requires DaysBeforeYoe(k) <= doe < DaysBeforeYoe(k) + DaysInMarchYear(k)
    ensures YearOfEra(doe) == k
  {
    YearOfEraBrackets(doe);
    var y := YearOfEra(doe);
    if y < k {
      DaysBeforeYoeMonotone(y, k);
    } else if k < y {
      DaysBeforeYoeMonotone(k, y);
    }
  }

  /** A day of a March-based year names a valid date; February 29 only when that February is leap. */
  lemma MarchDayIsValid(y: int, doy: int)
    requires 0 <= doy <= 365 && (doy == 365 ==> IsLeapYear(y))
    ensures ValidDate(if MonthOfMarchDay(doy) <= 2 then y else y - 1, MonthOfMarchDay(doy),
                      doy - DaysBeforeMarchMonth(MonthOfMarchDay(doy)) + 1)
  {
  }

  /** The month table inverts DaysBeforeMarchMonth on the days of that month. */
  lemma MonthOfMarchDayInverse(y: int, m: int, d: int)
    requires ValidDate(y, m, d)
    ensures MonthOfMarchDay(DaysBeforeMarchMonth(m) + d - 1) == m
  {
  }

  /** A day of a valid date lies inside its March-based year, which is long when it ends in a leap February. */
  lemma MarchDayBound(y: int, m: int, d: int)
    requires ValidDate(y, m, d)
    ensures 0 <= DaysBeforeMarchMonth(m) + d - 1
    ensures DaysBeforeMarchMonth(m) + d - 1 < if IsLeapYear(if m <= 2 then y else y + 1) then 366 else 365
  {
  }

  lemma EraSplit(n: int, q: int, r: int)
    requires 0 <= r < DaysPerEra && n == 146097 * q + r
    ensures n / 146097 == q && n % 146097 == r
  {
  }

  lemma DivBy400(q: int, r: int)
    requires 0 <= r < 400
    ensures (400 * q + r) / 400 == q
  {
  }

  /** A day of a March-based year names a valid date that counts back to the same day. */
  lemma MarchDayDate(era: int, yoe: int, doy: int)
    requires 0 <= yoe < 400 && 0 <= doy < DaysInMarchYear(yoe)
    ensures var r := DateOfMarchDay(era, yoe, doy);
      && ValidDate(r.year, r.month, r.day)
      && DaysFromCivil(r.year, r.month, r.day) == 146097 * era + DaysBeforeYoe(yoe) + doy - EpochShift
  {
    var r := DateOfMarchDay(era, yoe, doy);
    assert IsLeapYear(400 * era + yoe + 1) == IsLeapYear(yoe + 1) by { LeapShift(era, yoe + 1); }
    MarchDayIsValid(400 * era + yoe + 1, doy);
    DaysFromCivilParts(r.year, r.month, r.day, era, yoe);
  }

  /** A day of an era names a valid date that counts back to the same day. */
  lemma EraDayDate(era: int, doe: int)
    requires 0 <= doe < DaysPerEra
    ensures var r := DateOfEraDay(era, doe);
      && ValidDate(r.year, r.month, r.day)
      && DaysFromCivil(r.year, r.month, r.day) == 146097 * era + doe - EpochShift
  {
    YearOfEraBrackets(doe);
    MarchDayDate(era, YearOfEra(doe), doe - DaysBeforeYoe(YearOfEra(doe)));
  }

  /** Every day number names a valid date, and that date counts back to the same day. */
  lemma {:induction false} CivilFromDaysInverse(z: int)
    ensures ValidDate(CivilFromDays(z).year, CivilFromDays(z).month, CivilFromDays(z).day)
    ensures DaysFromCivil(CivilFromDays(z).year, CivilFromDays(z).month, CivilFromDays(z).day) == z
  {
    EraDayDate((z + EpochShift) / 146097, (z + EpochShift) % 146097);
  }

  /** CivilFromDays of a day given by its era and day of that era. */
  lemma CivilFromEraDay(z: int, era: int, doe: int)
    requires 0 <= doe < DaysPerEra && z + EpochShift == 146097 * era + doe
    ensures CivilFromDays(z) == DateOfEraDay(era, doe)
  {
    EraSplit(z + EpochShift, era, doe);
  }

  /** CivilFromDays of a day given by its era, March-based year of the era and day of that year. */
  lemma CivilFromEraParts(z: int, era: int, yoe: int, doy: int)
    requires 0 <= yoe < 400 && 0 <= doy < DaysInMarchYear(yoe)
    requires z == 146097 * era + DaysBeforeYoe(yoe) + doy - EpochShift
    ensures CivilFromDays(z) == DateOfMarchDay(era, yoe, doy)
  {
    var doe := DaysBeforeYoe(yoe) + doy;
    assert doe < DaysPerEra by {
      if yoe < 399 {
        DaysBeforeYoeMonotone(yoe, 399);
      } else {
        LastYearOfEra();
      }
    }
    assert DateOfEraDay(era, doe) == DateOfMarchDay(era, yoe, doy) by {
      YearOfEraUnique(doe, yoe);
      assert doe - DaysBeforeYoe(yoe) == doy;
    }
    CivilFromEraDay(z, era, doe);
  }

  /** A valid date is the date of its own day of its March-based year. */
  lemma MarchDayOfDate(y: int, m: int, d: int, era: int, yoe: int)
    requires ValidDate(y, m, d) && (if m <= 2 then y - 1 else y) == 400 * era + yoe
    ensures DateOfMarchDay(era, yoe, DaysBeforeMarchMonth(m) + d - 1) == Date(y, m, d)
  {
    MonthOfMarchDayInverse(y, m, d);
  }

  /** The day of its March-based year of a valid date lies inside that year. */
  lemma DateInMarchYear(y: int, m: int, d: int, era: int, yoe: int)
    requires ValidDate(y, m, d) && (if m <= 2 then y - 1 else y) == 400 * era + yoe
    ensures 0 <= DaysBeforeMarchMonth(m) + d - 1 < DaysInMarchYear(yoe)
  {
    LeapShift(era, yoe + 1);
    MarchDayBound(y, m, d);
  }

  /** DaysFromCivil of a valid date, by its era and March-based year of the era. */
  lemma DaysFromCivilParts(y: int, m: int, d: int, era: int, yoe: int)
    requires 1 <= m <= 12 && 0 <= yoe < 400 && (if m <= 2 then y - 1 else y) == 400 * era + yoe
    ensures DaysFromCivil(y, m, d) == 146097 * era + DaysBeforeYoe(yoe) + DaysBeforeMarchMonth(m) + d - 1 - EpochShift
  {
    DivBy400(era, yoe);
  }

  /** A valid date survives the trip to a day number and back. */
  lemma {:induction false} DaysFromCivilInverse(y: int, m: int, d: int)
    requires ValidDate(y, m, d)
    ensures CivilFromDays(DaysFromCivil(y, m, d)) == Date(y, m, d)
  {
    var y' := if m <= 2 then y - 1 else y;
    var era, yoe := y' / 400, y' % 400;
    DateInMarchYear(y, m, d, era, yoe);
    DaysFromCivilParts(y, m, d, era, yoe);
    CivilFromEraParts(DaysFromCivil(y, m, d), era, yoe, DaysBeforeMarchMonth(m) + d - 1);
    MarchDayOfDate(y, m, d, era, yoe);
  }

  /** Wall-clock fields of an instant, down to the millisecond. */
  datatype DateTime = DateTime(date: Date, hour: int, minute: int, second: int, millis: int)

  predicate ValidTimeOfDay(hour: int, minute: int, second: int) {
    0 <= hour < 24 && 0 <= minute < 60 && 0 <= second < 60
  }

  predicate ValidDateTime(f: DateTime) {
    && ValidDate(f.date.year, f.date.month, f.date.day)
    && ValidTimeOfDay(f.hour, f.minute, f.second)
    && 0 <= f.millis < 1000
  }

  /** Milliseconds since the epoch of a civil date and time of day read as UTC. */
  function InstantOf(date: Date, hour: int, minute: int, second: int): int
    requires 1 <= date.month <= 12
  {
    (DaysFromCivil(date.year, date.month, date.day) * 86400 + hour * 3600 + minute * 60 + second) * 1000
  }

  /** The UTC calendar fields of an instant given in milliseconds since the epoch. */
  function FieldsOf(t: int): DateTime {
    var secs := t / 1000;
    var sod := secs % 86400;
    DateTime(CivilFromDays(secs / 86400), sod / 3600, sod % 3600 / 60, sod % 60, t % 1000)
  }

  lemma FieldsOfWholeSeconds(secs: int, days: int, sod: int)
    requires secs == days * 86400 + sod && 0 <= sod < 86400
    ensures FieldsOf(secs * 1000) == DateTime(CivilFromDays(days), sod / 3600, sod % 3600 / 60, sod % 60, 0)
  {
    assert (secs * 1000) / 1000 == secs && (secs * 1000) % 1000 == 0;
    assert secs / 86400 == days && secs % 86400 == sod;
  }

  lemma SecondOfDaySplit(sod: int)
    requires 0 <= sod < 86400
    ensures ValidTimeOfDay(sod / 3600, sod % 3600 / 60, sod % 60)
    ensures sod == sod / 3600 * 3600 + sod % 3600 / 60 * 60 + sod % 60
  {
    var r := sod % 3600;
    assert sod == 3600 * (sod / 3600) + r;
    assert r == 60 * (r / 60) + r % 60;
    assert sod == 60 * (60 * (sod / 3600) + r / 60) + r % 60;
  }

  lemma SecondOfDayFields(hour: int, minute: int, second: int)
    requires ValidTimeOfDay(hour, minute, second)
    ensures (hour * 3600 + minute * 60 + second) / 3600 == hour
    ensures (hour * 3600 + minute * 60 + second) % 3600 / 60 == minute
    ensures (hour * 3600 + minute * 60 + second) % 60 == second
  {
    var sod := hour * 3600 + minute * 60 + second;
    DivMod3600(sod, hour, minute * 60 + second);
    DivMod60(minute * 60 + second, minute, second);
    DivMod60(sod, 60 * hour + minute, second);
  }

  lemma DivMod3600(n: int, q: int, r: int)
    requires 0 <= r < 3600 && n == q * 3600 + r
    ensures n / 3600 == q && n % 3600 == r
  {
  }

  lemma DivMod60(n: int, q: int, r: int)
    requires 0 <= r < 60 && n == q * 60 + r
    ensures n / 60 == q && n % 60 == r
  {
  }

  /** The fields of an instant are valid and add back up to the instant. */
  lemma {:induction false} FieldsOfInverse(t: int)
    ensures ValidDateTime(FieldsOf(t)) && FieldsOf(t).millis == t % 1000
    ensures InstantOf(FieldsOf(t).date, FieldsOf(t).hour, FieldsOf(t).minute, FieldsOf(t).second)
            + FieldsOf(t).millis == t
  {
    var secs := t / 1000;
    var days := secs / 86400;
    var sod := secs % 86400;
    var f := FieldsOf(t);
    assert f.date == CivilFromDays(days) && f.hour == sod / 3600 && f.minute == sod % 3600 / 60
        && f.second == sod % 60 && f.millis == t % 1000;
    assert ValidDate(f.date.year, f.date.month, f.date.day)
        && DaysFromCivil(f.date.year, f.date.month, f.date.day) == days by {
      CivilFromDaysInverse(days);
    }
    assert sod == f.hour * 3600 + f.minute * 60 + f.second && ValidTimeOfDay(f.hour, f.minute, f.second) by {
      SecondOfDaySplit(sod);
    }
    assert t == (days * 86400 + sod) * 1000 + f.millis by {
      assert secs == days * 86400 + sod;
      assert t == secs * 1000 + t % 1000;
    }
  }

  /** Valid fields are recovered from the instant they name (with no milliseconds). */
  lemma {:induction false} InstantOfInverse(date: Date, hour: int, minute: int, second: int)
    requires ValidDate(date.year, date.month, date.day) && ValidTimeOfDay(hour, minute, second)
    ensures FieldsOf(InstantOf(date, hour, minute, second)) == DateTime(date, hour, minute, second, 0)
  {
    var z := DaysFromCivil(date.year, date.month, date.day);
    var sod := hour * 3600 + minute * 60 + second;
    var secs := z * 86400 + sod;
    assert InstantOf(date, hour, minute, second) == secs * 1000;
    assert FieldsOf(secs * 1000) == DateTime(CivilFromDays(z), hour, minute, second, 0) by {
      FieldsOfWholeSeconds(secs, z, sod);
      SecondOfDayFields(hour, minute, second);
    }
    assert CivilFromDays(z) == date by {
      DaysFromCivilInverse(date.year, date.month, date.day);
    }
  }
}
