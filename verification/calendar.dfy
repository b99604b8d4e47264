/**
 Day numbers and civil dates in the proleptic Gregorian calendar, as used by
 ECMAScript Date objects (section 21.4.1 of ECMA-262): day 0 is 1970-01-01,
 every year has 365 or 366 days and there are no leap seconds.

 `CivilFromDays` is the days-to-civil-date algorithm (a 400-year era split
 into March-based years); `DaysFromCivil` is the independent reference
 definition built from ECMA-262's DayFromYear. The two are proved inverse.
 */
module Calendar {

  datatype Date = Date(year: int, month: int, day: int)

  predicate IsLeapYear(y: int) {
    y % 4 == 0 && (y % 100 != 0 || y % 400 == 0)
  }

  function DaysInYear(y: int): int {
    if IsLeapYear(y) then 366 else 365
  }

  function DaysInMonth(y: int, m: int): int
    requires 1 <= m <= 12
  {
    if m == 2 then (if IsLeapYear(y) then 29 else 28)
    else if m == 4 || m == 6 || m == 9 || m == 11 then 30
    else 31
  }

  predicate Valid(d: Date) {
    1 <= d.month <= 12 && 1 <= d.day <= DaysInMonth(d.year, d.month)
  }

  /** DayFromYear of ECMA-262: the day number of January 1st of year y. */
  function DayFromYear(y: int): int {
    365 * (y - 1970) + (y - 1969) / 4 - (y - 1901) / 100 + (y - 1601) / 400
  }

  /** Days of year y that precede the first of month m. */
  function DaysBeforeMonth(y: int, m: int): int
    requires 1 <= m <= 12
  {
    [0, 31, 59, 90, 120, 151, 181, 212, 243, 273, 304, 334][m - 1]
    + (if m > 2 && IsLeapYear(y) then 1 else 0)
  }

  /** The day number of a civil date (reference definition). */
  function DaysFromCivil(d: Date): int
    requires 1 <= d.month <= 12
  {
    DayFromYear(d.year) + DaysBeforeMonth(d.year, d.month) + d.day - 1
  }

  /** Lexicographic order on (year, month, day). */
  predicate Before(a: Date, b: Date) {
    a.year < b.year
    || (a.year == b.year && a.month < b.month)
    || (a.year == b.year && a.month == b.month && a.day < b.day)
  }

  /** Days from 0000-03-01 to March 1st of year y. */
  function MarchYearStart(y: int): int {
    365 * y + y / 4 - y / 100 + y / 400
  }

  /** Offset of the mp-th month of a year that starts in March (0 = March). */
  function MonthStart(mp: int): int {
    (153 * mp + 2) / 5
  }

  /** The civil date of a day number: the era of 400 years, the day of the era,
      then the March-based year of the era and the day of that year. */
  function CivilFromDays(z: int): Date {
    var shifted := z + 719468;
    var doe := shifted % 146097;
    MarchDate(400 * (shifted / 146097) + YearOfEra(doe), DayOfMarchYear(doe))
  }

  /** The March-based year of a day of the era: each term removes the leap days
      of the 4-, 100- and 400-year cycles before dividing by 365. */
  function YearOfEra(doe: int): int {
    (doe - doe / 1460 + doe / 36524 - doe / 146096) / 365
  }

  function DayOfMarchYear(doe: int): int {
    var yoe := YearOfEra(doe);
    doe - (365 * yoe + yoe / 4 - yoe / 100)
  }

  /** The date named by day `doy` of the March-based year y. */
  function MarchDate(y: int, doy: int): Date {
    var mp := (5 * doy + 2) / 153;
    var month := if mp < 10 then mp + 3 else mp - 9;
    Date(y + (if month <= 2 then 1 else 0), month, doy - (153 * mp + 2) / 5 + 1)
  }

  /* ---------------- the algorithm: one 400-year era at a time ---------------- */

  /** Splits a day of an era into century, 4-year block, year of block and day of year. */
  lemma SplitEra(doe: int) returns (c: int, q: int, yq: int, doy: int)
    requires 0 <= doe < 146097
    ensures 0 <= c <= 3 && 0 <= q <= 24 && 0 <= yq <= 3 && 0 <= doy <= 365
    ensures doe == 36524 * c + 1461 * q + 365 * yq + doy
    ensures doy == 365 ==> yq == 3 && (q < 24 || doe == 146096)
  {
    c := if doe / 36524 < 4 then doe / 36524 else 3;
    var doc := doe - 36524 * c;
    q := doc / 1461;
    var r := doc - 1461 * q;
    yq := if r / 365 < 4 then r / 365 else 3;
    doy := r - 365 * yq;
  }

  /** The closed-form year of era agrees with the split. */
  lemma ClosedFormYear(doe: int, c: int, q: int, yq: int, doy: int)
    requires 0 <= doe < 146097
    requires 0 <= c <= 3 && 0 <= q <= 24 && 0 <= yq <= 3 && 0 <= doy <= 365
    requires doe == 36524 * c + 1461 * q + 365 * yq + doy
    requires doy == 365 ==> yq == 3 && (q < 24 || doe == 146096)
    ensures (doe - doe / 1460 + doe / 36524 - doe / 146096) / 365 == 100 * c + 4 * q + yq
  {
    var s := 24 * c + q + 365 * yq + doy;
    var carry := if s >= 1460 then 1 else 0;
    assert doe / 1460 == 25 * c + q + carry;
    assert doe / 36524 - doe / 146096 == c;
    assert 0 <= doy - carry < 365;
    assert doe - doe / 1460 + doe / 36524 - doe / 146096 == 365 * (100 * c + 4 * q + yq) + (doy - carry);
  }

  lemma SplitYearBounds(doe: int, c: int, q: int, yq: int, doy: int)
    requires 0 <= c <= 3 && 0 <= q <= 24 && 0 <= yq <= 3 && 0 <= doy <= 365
    requires doe == 36524 * c + 1461 * q + 365 * yq + doy
    requires doy == 365 ==> yq == 3 && (q < 24 || doe == 146096)
    ensures var yoe := 100 * c + 4 * q + yq;
      MarchYearStart(yoe) <= doe < MarchYearStart(yoe + 1)
  {
    var yoe := 100 * c + 4 * q + yq;
    assert yoe / 4 == 25 * c + q && yoe / 100 == c && yoe / 400 == 0;
    assert MarchYearStart(yoe) == doe - doy;
    MarchYearLength(yoe);
  }

  /** The closed-form year of era names the March-based year holding day `doe`. */
  lemma YearOfEraBounds(doe: int)
    requires 0 <= doe < 146097
    ensures var yoe := YearOfEra(doe);
      0 <= yoe <= 399 && MarchYearStart(yoe) <= doe < MarchYearStart(yoe + 1)
  {
    var c, q, yq, doy := SplitEra(doe);
    ClosedFormYear(doe, c, q, yq, doy);
    SplitYearBounds(doe, c, q, yq, doy);
  }

  /** The closed-form month names the March-based month holding day `doy`. */
  lemma MonthOfYear(doy: int)
    requires 0 <= doy <= 365
    ensures var mp := (5 * doy + 2) / 153;
      0 <= mp <= 11 && MonthStart(mp) <= doy < MonthStart(mp + 1)
  {
  }

  lemma MarchYearStartShift(era: int, k: int)
    ensures MarchYearStart(400 * era + k) == 146097 * era + MarchYearStart(k)
  {
    assert (400 * era + k) / 4 == 100 * era + k / 4;
    assert (400 * era + k) / 100 == 4 * era + k / 100;
    assert (400 * era + k) / 400 == era + k / 400;
  }

  /** January 1st of y comes 306 days after March 1st of y - 1; 719468 is the
      number of days from 0000-03-01 to 1970-01-01. */
  lemma DayFromYearMarch(y: int)
    ensures DayFromYear(y) + 719468 == MarchYearStart(y - 1) + 306
  {
    var x := y - 1;
    assert (y - 1969) / 4 == (x - 1968) / 4 == x / 4 - 492;
    assert (y - 1901) / 100 == (x - 1900) / 100 == x / 100 - 19;
    assert (y - 1601) / 400 == (x - 1600) / 400 == x / 400 - 4;
  }

  /** A March-based year is as long as the calendar year its February belongs to. */
  lemma MarchYearLength(y: int)
    ensures MarchYearStart(y + 1) - MarchYearStart(y) == DaysInYear(y + 1)
  {
    assert (y + 1) / 4 == y / 4 + (if (y + 1) % 4 == 0 then 1 else 0);
    assert (y + 1) / 100 == y / 100 + (if (y + 1) % 100 == 0 then 1 else 0);
    assert (y + 1) / 400 == y / 400 + (if (y + 1) % 400 == 0 then 1 else 0);
  }

  /** March-based month offsets against the January-based tables. */
  lemma MonthTables(y: int, mp: int)
    requires 0 <= mp <= 11
    ensures mp < 10 ==> DaysBeforeMonth(y, mp + 3) == MonthStart(mp) + 59 + (if IsLeapYear(y) then 1 else 0)
    ensures mp < 10 ==> DaysInMonth(y, mp + 3) == MonthStart(mp + 1) - MonthStart(mp)
    ensures mp >= 10 ==> DaysBeforeMonth(y, mp - 9) == MonthStart(mp) - 306
    ensures mp == 10 ==> DaysInMonth(y, 1) == MonthStart(11) - MonthStart(10)
    ensures mp == 11 ==> MonthStart(11) == 337 && DaysInMonth(y, 2) == DaysInYear(y) - 337
  {
  }

  lemma MarchDateCorrect(y: int, doy: int)
    requires 0 <= doy < DaysInYear(y + 1)
    ensures Valid(MarchDate(y, doy))
    ensures DaysFromCivil(MarchDate(y, doy)) + 719468 == MarchYearStart(y) + doy
  {
    MonthOfYear(doy);
    var mp := (5 * doy + 2) / 153;
    if mp < 10 {
      MonthTables(y, mp);
      DayFromYearMarch(y);
      MarchYearLength(y - 1);
    } else {
      MonthTables(y + 1, mp);
      DayFromYearMarch(y + 1);
    }
  }

  lemma EraYearShift(era: int, doe: int, yoe: int)
    requires MarchYearStart(yoe) <= doe < MarchYearStart(yoe + 1)
    ensures var y := 400 * era + yoe;
      0 <= doe - MarchYearStart(yoe) < DaysInYear(y + 1)
      && 146097 * era + doe == MarchYearStart(y) + (doe - MarchYearStart(yoe))
  {
    MarchYearStartShift(era, yoe);
    MarchYearStartShift(era, yoe + 1);
    assert 400 * era + (yoe + 1) == (400 * era + yoe) + 1;
    MarchYearLength(400 * era + yoe);
  }

  lemma CivilFromDaysUnfold(z: int)
    ensures var shifted := z + 719468;
      CivilFromDays(z) == MarchDate(400 * (shifted / 146097) + YearOfEra(shifted % 146097), DayOfMarchYear(shifted % 146097))
  {
  }

  /** The March-based year and day of year that CivilFromDays settles on. */
  lemma EraYear(z: int) returns (y: int, doy: int)
    ensures 0 <= doy < DaysInYear(y + 1)
    ensures z + 719468 == MarchYearStart(y) + doy
    ensures CivilFromDays(z) == MarchDate(y, doy)
  {
    var shifted := z + 719468;
    var era := shifted / 146097;
    var doe := shifted % 146097;
    var yoe := YearOfEra(doe);
    doy := DayOfMarchYear(doe);
    y := 400 * era + yoe;
    YearOfEraBounds(doe);
    assert doy == doe - MarchYearStart(yoe) by {
      assert yoe / 400 == 0;
    }
    EraYearShift(era, doe, yoe);
    assert shifted == 146097 * era + doe;
    CivilFromDaysUnfold(z);
  }

  /** Every day number names a valid date, and the reference definition maps
      that date back to the same day number. */
  lemma CivilFromDaysInverse(z: int)
    ensures Valid(CivilFromDays(z))
    ensures DaysFromCivil(CivilFromDays(z)) == z
  {
    var y, doy := EraYear(z);
    MarchDateCorrect(y, doy);
  }

  /* ---------------- the reference definition is strictly monotone ---------------- */

  lemma DayFromYearStep(y: int)
    ensures DayFromYear(y + 1) == DayFromYear(y) + DaysInYear(y)
  {
    DayFromYearMarch(y);
    DayFromYearMarch(y + 1);
    MarchYearLength(y - 1);
  }

  lemma {:induction false} DayFromYearIncreasing(a: int, b: int)
    requires a < b
    ensures DayFromYear(a) + DaysInYear(a) <= DayFromYear(b)
    decreases b - a
  {
    DayFromYearStep(a);
    if a + 1 < b {
      DayFromYearIncreasing(a + 1, b);
    }
  }

  lemma DaysBeforeNextMonth(y: int, m: int)
    requires 1 <= m <= 12
    ensures m < 12 ==> DaysBeforeMonth(y, m + 1) == DaysBeforeMonth(y, m) + DaysInMonth(y, m)
    ensures m == 12 ==> DaysBeforeMonth(y, m) + DaysInMonth(y, m) == DaysInYear(y)
  {
  }

  lemma {:induction false} DaysBeforeMonthIncreasing(y: int, a: int, b: int)
    requires 1 <= a < b <= 12
    ensures DaysBeforeMonth(y, a) + DaysInMonth(y, a) <= DaysBeforeMonth(y, b)
    decreases b - a
  {
    DaysBeforeNextMonth(y, a);
    if a + 1 < b {
      DaysBeforeMonthIncreasing(y, a + 1, b);
      DaysBeforeNextMonth(y, a + 1);
    }
  }

  /** A valid date lies inside its year: YearFromTime of ECMA-262 gives back its year. */
  lemma DayOfYearBounds(d: Date)
    requires Valid(d)
    ensures DayFromYear(d.year) <= DaysFromCivil(d) < DayFromYear(d.year + 1)
  {
    if d.month < 12 {
      DaysBeforeMonthIncreasing(d.year, d.month, 12);
    }
    DaysBeforeNextMonth(d.year, 12);
    DayFromYearStep(d.year);
  }

  /** A date of an earlier year comes earlier. */
  lemma EarlierYearEarlier(a: Date, b: Date)
    requires Valid(a) && Valid(b) && a.year < b.year
    ensures DaysFromCivil(a) < DaysFromCivil(b)
  {
    DayOfYearBounds(a);
    DayOfYearBounds(b);
    if a.year + 1 < b.year {
      DayFromYearIncreasing(a.year + 1, b.year);
    }
  }

  /** The reference definition is strictly monotone in calendar order. */
  lemma DaysFromCivilMonotone(a: Date, b: Date)
    requires Valid(a) && Valid(b)
    ensures Before(a, b) <==> DaysFromCivil(a) < DaysFromCivil(b)
  {
    if a.year < b.year {
      EarlierYearEarlier(a, b);
    } else if b.year < a.year {
      EarlierYearEarlier(b, a);
    } else if a.month < b.month {
      DaysBeforeMonthIncreasing(a.year, a.month, b.month);
    } else if b.month < a.month {
      DaysBeforeMonthIncreasing(a.year, b.month, a.month);
    }
  }

  /* ---------------- consequences ---------------- */

  /** The algorithm inverts the reference definition on valid dates. */
  lemma DaysFromCivilInverse(d: Date)
    requires Valid(d)
    ensures CivilFromDays(DaysFromCivil(d)) == d
  {
    var e := CivilFromDays(DaysFromCivil(d));
    CivilFromDaysInverse(DaysFromCivil(d));
    DaysFromCivilMonotone(d, e);
    DaysFromCivilMonotone(e, d);
  }

  /** Later days have later dates. */
  lemma CivilFromDaysMonotone(z1: int, z2: int)
    ensures z1 < z2 <==> Before(CivilFromDays(z1), CivilFromDays(z2))
  {
    CivilFromDaysInverse(z1);
    CivilFromDaysInverse(z2);
    DaysFromCivilMonotone(CivilFromDays(z1), CivilFromDays(z2));
  }

  /** The year of a day number is YearFromTime of ECMA-262: the year whose
      first day is the last year start not after z. */
  lemma CivilYear(z: int)
    ensures var y := CivilFromDays(z).year; DayFromYear(y) <= z < DayFromYear(y + 1)
  {
    CivilFromDaysInverse(z);
    DayOfYearBounds(CivilFromDays(z));
  }

  /** Day numbers between 0000-01-01 and 9999-12-31 have four-digit years. */
  lemma FourDigitYears(z: int)
    requires DayFromYear(0) <= z < DayFromYear(10000)
    ensures 0 <= CivilFromDays(z).year <= 9999
  {
    var y := CivilFromDays(z).year;
    CivilYear(z);
    if y < 0 {
      DayFromYearIncreasing(y, 0);
      DayFromYearStep(y);
    } else if y > 9999 {
      DayFromYearIncreasing(10000, y);
    }
  }
}
