/** src/tsv.rs: from a day count to a date of the proleptic Gregorian calendar
    (section 4.2.1 of ISO 8601-1:2019), and from seconds to a clock reading. */
module Calendar {
  import opened Base

  datatype Date = Date(year: int, month: nat, day: nat)

  // ---- The calendar --------------------------------------------------------------

  predicate Leap(y: int) {
    y % 4 == 0 && (y % 100 != 0 || y % 400 == 0)
  }

  function MonthDays(y: int, m: nat): nat {
    if m == 2 then if Leap(y) then 29 else 28
    else if m in {4, 6, 9, 11} then 30
    else 31
  }

  predicate IsDate(d: Date) {
    1 <= d.month <= 12 && 1 <= d.day <= MonthDays(d.year, d.month)
  }

  function NextDay(d: Date): Date {
    if d.day < MonthDays(d.year, d.month) then Date(d.year, d.month, d.day + 1)
    else if d.month < 12 then Date(d.year, d.month + 1, 1)
    else Date(d.year + 1, 1, 1)
  }

  // ---- The code --------------------------------------------------------------------

  const I64_MAX: int := 0x7FFF_FFFF_FFFF_FFFF

  function TruncDiv(a: int, b: int): int
    requires b > 0
  {
    if a >= 0 then a / b else -(-a / b)
  }

  /** `civil_from_days`; the first addition can overflow. */
  function CivilFromDays(days: int): Result<Date> {
    var z := days + 719468;
    if z > I64_MAX then Err(Panic) else Ok(Civil(z))
  }

  function Civil(z: int): Date {
    var era := TruncDiv(if z >= 0 then z else z - 146096, 146097);
    EraOf(z);
    var doe: nat := z - era * 146097;
    var yoe := YearOfEra(doe);
    YearSpan(doe);
    var doy: nat := doe - (365 * yoe + yoe / 4 - yoe / 100);
    var mp := (5 * doy + 2) / 153;
    MonthSpan(doy);
    var d: nat := doy - (153 * mp + 2) / 5 + 1;
    var m: nat := if mp < 10 then mp + 3 else mp - 9;
    var y := yoe + era * 400 + if m <= 2 then 1 else 0;
    Date(y, m, d)
  }

  function YearOfEra(doe: nat): nat {
    assert doe / 1460 + doe / 146096 <= doe;
    (doe - doe / 1460 + doe / 36524 - doe / 146096) / 365
  }

  /** Truncating division, helped along for negative numbers, rounds down. */
  lemma EraOf(z: int)
    ensures var era := TruncDiv(if z >= 0 then z else z - 146096, 146097);
            era == z / 146097 && 0 <= z - era * 146097 < 146097
  {
    if z < 0 {
      var a := 146096 - z;
      var q := a / 146097;
      assert q * 146097 <= a < (q + 1) * 146097;
      assert -q * 146097 <= z < (1 - q) * 146097;
    }
  }

  /** Where a March-based year starts within its 400-year era. */
  function YearStart(y: nat): int {
    365 * y + y / 4 - y / 100
  }

  lemma YearSpan(doe: nat)
    requires doe < 146097
    ensures var y := YearOfEra(doe);
            y < 400 && YearStart(y) <= doe && (y < 399 ==> doe < YearStart(y + 1)) && doe - YearStart(y) < 366
  {
    var b := doe / 36524;
    assert 0 <= b <= 4;
    if b == 0 { CenturySpan(doe, 0); }
    else if b == 1 { CenturySpan(doe, 1); }
    else if b == 2 { CenturySpan(doe, 2); }
    else if b == 3 { CenturySpan(doe, 3); }
    else { assert doe == 146096; }
  }

  lemma CenturySpan(doe: nat, b: nat)
    requires b <= 3 && 36524 * b <= doe < 36524 * (b + 1)
    ensures var y := YearOfEra(doe);
            y < 400 && YearStart(y) <= doe && (y < 399 ==> doe < YearStart(y + 1)) && doe - YearStart(y) < 366
  {
    hide YearOfEra, YearStart;
    var r := doe - 36524 * b;
    var yy := YearInCentury(r, b);
    CenturyYear(r, b);
    StartInCentury(b, yy);
    if yy < 99 {
      StartInCentury(b, yy + 1);
    } else {
      StartInCentury(b + 1, 0);
    }
  }

  lemma CenturyYear(r: nat, b: nat)
    requires b <= 3 && r < 36524
    ensures YearOfEra(36524 * b + r) == 100 * b + (r - (r + 24 * b) / 1460) / 365
  {
    var doe, q := 36524 * b + r, (r + 24 * b) / 1460;
    assert doe / 1460 == 25 * b + q by {
      assert 1460 * q <= r + 24 * b < 1460 * (q + 1);
    }
    assert doe / 36524 == b;
  }

  lemma StartInCentury(b: nat, yy: nat)
    requires yy < 100
    ensures YearStart(100 * b + yy) == 36524 * b + 365 * yy + yy / 4
  {
    assert (100 * b + yy) / 4 == 25 * b + yy / 4;
    assert (100 * b + yy) / 100 == b;
  }

  lemma YearInCentury(r: nat, b: nat) returns (yy: nat)
    requires b <= 3 && r < 36524
    ensures yy == (r - (r + 24 * b) / 1460) / 365
    ensures yy < 100 && 365 * yy + yy / 4 <= r
    ensures r < if yy < 99 then 365 * (yy + 1) + (yy + 1) / 4 else 36524
    ensures r - (365 * yy + yy / 4) < 366
  {
    var k, t := r / 1461, r % 1461;
    assert (r + 24 * b) / 1460 == k + (k + t + 24 * b) / 1460;
    assert k <= 24;
    yy := (r - (r + 24 * b) / 1460) / 365;
  }

  lemma MonthSpan(doy: nat)
    requires doy < 366
    ensures var mp := (5 * doy + 2) / 153;
            mp <= 11 && (153 * mp + 2) / 5 <= doy && (mp < 11 ==> doy < (153 * (mp + 1) + 2) / 5)
  {
  }

  // ---- Counting days, independently --------------------------------------------------

  /** Days from 1 January of year 1 to 1 January of year `y`. */
  function DaysToYear(y: int): int {
    365 * (y - 1) + (y - 1) / 4 - (y - 1) / 100 + (y - 1) / 400
  }

  function DaysToMonth(y: int, m: nat): nat {
    if m <= 1 then 0 else DaysToMonth(y, m - 1) + MonthDays(y, m - 1)
  }

  const EPOCH: int := 719162  // 1970-01-01, counted from 0001-01-01

  /** The day number of a date, with day 0 on 1970-01-01. */
  function DayNumber(d: Date): int {
    DaysToYear(d.year) + DaysToMonth(d.year, d.month) + d.day - 1 - EPOCH
  }

  /** A year has 365 days, a leap year one more. */
  lemma YearLength(y: int)
    ensures DaysToYear(y + 1) == DaysToYear(y) + 365 + if Leap(y) then 1 else 0
  {
    DivStep(y, 4);
    DivStep(y, 100);
    DivStep(y, 400);
    MultipleOf(y, 25, 4, 100);
    MultipleOf(y, 4, 100, 400);
  }

  lemma DivStep(y: int, k: nat)
    requires k > 0
    ensures y / k == (y - 1) / k + if y % k == 0 then 1 else 0
  {
    var q, r := (y - 1) / k, (y - 1) % k;
    assert y - 1 == q * k + r;
    if r == k - 1 {
      assert y == (q + 1) * k;
      DivUnique(y, k, q + 1, 0);
    } else {
      DivUnique(y, k, q, r + 1);
    }
  }

  lemma DivUnique(a: int, k: nat, q: int, r: nat)
    requires k > 0 && a == q * k + r && r < k
    ensures a / k == q && a % k == r
  {
    var p, t := a / k, a % k;
    assert a == p * k + t;
    assert p < q ==> (p + 1) * k <= q * k;
    assert p > q ==> (q + 1) * k <= p * k;
  }

  lemma MultipleOf(y: int, a: nat, b: nat, ab: nat)
    requires b > 0 && ab == a * b
    ensures ab > 0 && y % ab == 0 ==> y % b == 0
  {
    if ab > 0 && y % ab == 0 {
      var q := y / ab;
      assert y == q * a * b;
      DivUnique(y, b, q * a, 0);
    }
  }

  lemma MonthTable(y: int)
    ensures var l := if Leap(y) then 1 else 0;
            && DaysToMonth(y, 1) == 0 && DaysToMonth(y, 2) == 31 && DaysToMonth(y, 3) == 59 + l
            && DaysToMonth(y, 4) == 90 + l && DaysToMonth(y, 5) == 120 + l && DaysToMonth(y, 6) == 151 + l
            && DaysToMonth(y, 7) == 181 + l && DaysToMonth(y, 8) == 212 + l && DaysToMonth(y, 9) == 243 + l
            && DaysToMonth(y, 10) == 273 + l && DaysToMonth(y, 11) == 304 + l && DaysToMonth(y, 12) == 334 + l
            && DaysToMonth(y, 13) == 365 + l
  {
    hide Leap;
  }

  lemma {:induction false} YearsAdvance(y: int, k: nat)
    ensures DaysToYear(y + k) >= DaysToYear(y) + 365 * k
    decreases k
  {
    hide DaysToYear;
    if k > 0 {
      YearsAdvance(y, k - 1);
      YearLength(y + k - 1);
    }
  }

  /** A date lies within its year. */
  lemma WithinYear(d: Date)
    requires IsDate(d)
    ensures DaysToYear(d.year) <= DayNumber(d) + EPOCH < DaysToYear(d.year + 1)
  {
    hide DaysToYear, DaysToMonth, Leap;
    MonthTable(d.year);
    YearLength(d.year);
  }

  lemma DayNumberInYear(a: Date, b: Date)
    requires IsDate(a) && IsDate(b) && a.year < b.year
    ensures DayNumber(a) < DayNumber(b)
  {
    hide DaysToYear, DayNumber;
    WithinYear(a);
    WithinYear(b);
    YearsAdvance(a.year + 1, b.year - a.year - 1);
  }

  /** Different dates have different day numbers. */
  lemma DayNumberIsInjective(a: Date, b: Date)
    requires IsDate(a) && IsDate(b) && DayNumber(a) == DayNumber(b)
    ensures a == b
  {
    if a.year < b.year {
      DayNumberInYear(a, b);
    } else if b.year < a.year {
      DayNumberInYear(b, a);
    } else {
      hide DaysToYear, DaysToMonth, Leap;
      MonthTable(a.year);
    }
  }

  lemma NextDayCounts(d: Date)
    requires IsDate(d)
    ensures IsDate(NextDay(d)) && DayNumber(NextDay(d)) == DayNumber(d) + 1
  {
    hide DaysToYear, DaysToMonth, Leap;
    MonthTable(d.year);
    MonthTable(d.year + 1);
    YearLength(d.year);
  }

  // ---- What the code computes -----------------------------------------------------------

  /** Day counts of March-based years. */
  lemma MarchYear(y: int)
    ensures DaysToYear(y) + DaysToMonth(y, 3) == 365 * y + y / 4 - y / 100 + y / 400 - 306
  {
    hide DaysToMonth;
    YearLength(y);
    MonthTable(y);
  }

  lemma EraYears(era: int, yoe: nat)
    requires yoe < 400
    ensures var y := yoe + era * 400;
            365 * y + y / 4 - y / 100 + y / 400 == 146097 * era + YearStart(yoe)
  {
    var y := yoe + era * 400;
    DivUnique(y, 400, era, yoe);
    DivUnique(y, 4, 100 * era + yoe / 4, yoe % 4);
    DivUnique(y, 100, 4 * era + yoe / 100, yoe % 100);
  }

  /** Leap days as seen from March: the era's last year has 366 days exactly
      when the next January falls in a leap year. */
  lemma MarchLength(era: int, yoe: nat, doy: nat)
    requires yoe < 400 && doy < 366 && YearStart(yoe) + doy < 146097
    requires yoe < 399 ==> YearStart(yoe) + doy < YearStart(yoe + 1)
    ensures doy == 365 ==> Leap(yoe + era * 400 + 1)
  {
    if doy == 365 {
      hide YearStart;
      EraYears(era, yoe);
      MarchYear(yoe + era * 400);
      MarchYear(yoe + era * 400 + 1);
      if yoe < 399 {
        EraYears(era, yoe + 1);
      } else {
        EraYears(era + 1, 0);
        assert YearStart(0) == 0;
      }
      MarchGap(yoe + era * 400);
    }
  }

  lemma MarchGap(y: int)
    ensures DaysToYear(y + 1) + DaysToMonth(y + 1, 3) - DaysToYear(y) - DaysToMonth(y, 3)
         == 365 + if Leap(y + 1) then 1 else 0
  {
    hide DaysToYear, DaysToMonth, Leap;
    YearLength(y);
    MonthTable(y);
    MonthTable(y + 1);
  }

  /** Day `doy` of the March-based year. */
  function MarchDate(year: int, doy: nat): Date
    requires doy < 366
  {
    MonthSpan(doy);
    var mp := (5 * doy + 2) / 153;
    var m: nat := if mp < 10 then mp + 3 else mp - 9;
    Date(year + if m <= 2 then 1 else 0, m, doy - (153 * mp + 2) / 5 + 1)
  }

  lemma CivilIs(z: int, era: int, doe: nat)
    requires era == z / 146097 && doe == z - era * 146097 < 146097
    ensures var doy := doe - YearStart(YearOfEra(doe));
            0 <= doy < 366 && Civil(z) == MarchDate(YearOfEra(doe) + era * 400, doy)
  {
    hide TruncDiv, YearOfEra;
    EraOf(z);
    YearSpan(doe);
  }

  /** The date computed for a day is a date, and is that day by the calendar. */
  lemma CivilCounts(z: int)
    ensures IsDate(Civil(z)) && DayNumber(Civil(z)) == z - 719468
  {
    hide *;
    EraOf(z);
    var era := z / 146097;
    var doe: nat := z - era * 146097;
    YearSpan(doe);
    CivilIs(z, era, doe);
    var yoe := YearOfEra(doe);
    var doy: nat := doe - YearStart(yoe);
    MarchLength(era, yoe, doy);
    EraYears(era, yoe);
    MarchYear(yoe + era * 400);
    DateInYear(yoe + era * 400, doy);
    EpochIs();
  }

  lemma EpochIs()
    ensures EPOCH == 719162
  {
  }

  /** Month and day within a March-based year. */
  lemma DateInYear(year: int, doy: nat)
    requires doy < 366 && (doy == 365 ==> Leap(year + 1))
    ensures var d := MarchDate(year, doy);
            IsDate(d) && DayNumber(d) == DaysToYear(year) + DaysToMonth(year, 3) + doy - EPOCH
  {
    hide DaysToYear, DaysToMonth, Leap;
    MonthSpan(doy);
    YearLength(year);
    MonthTable(year);
    MonthTable(year + 1);
  }

  /** The calendar theorem: every output is a date, day 0 is 1970-01-01, and the
      day after has the next date, for every day the addition can take. */
  lemma CivilIsGregorian(days: int)
    requires days + 719468 <= I64_MAX
    ensures var r := CivilFromDays(days);
            r.Ok? && IsDate(r.value) && DayNumber(r.value) == days
    ensures days == 0 ==> CivilFromDays(days).value == Date(1970, 1, 1)
    ensures days + 719468 < I64_MAX ==> CivilFromDays(days + 1) == Ok(NextDay(CivilFromDays(days).value))
  {
    hide Civil, DayNumber, NextDay, IsDate;
    CivilCounts(days + 719468);
    if days == 0 {
      EpochDay();
      DayNumberIsInjective(Civil(719468), Date(1970, 1, 1));
    }
    if days + 719468 < I64_MAX {
      var d := Civil(days + 719468);
      CivilCounts(days + 719469);
      NextDayCounts(d);
      DayNumberIsInjective(Civil(days + 719469), NextDay(d));
    }
  }

  lemma EpochDay()
    ensures IsDate(Date(1970, 1, 1)) && DayNumber(Date(1970, 1, 1)) == 0
  {
  }

  /** Every date is reached, from its own day number. */
  lemma CivilReaches(d: Date)
    requires IsDate(d) && DayNumber(d) + 719468 <= I64_MAX
    ensures CivilFromDays(DayNumber(d)) == Ok(d)
  {
    hide Civil, DayNumber, IsDate;
    CivilCounts(DayNumber(d) + 719468);
    DayNumberIsInjective(Civil(DayNumber(d) + 719468), d);
  }
}
