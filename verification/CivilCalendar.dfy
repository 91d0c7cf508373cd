/**
 The civil calendar. The reference is a count of days since 1970-01-01 that adds up
 Gregorian year and month lengths; the codec's era / year-of-era / day-of-year
 formulas, in both directions, agree with it.
 */
module CivilCalendar {
  import opened Bytes
  import opened Digits

  datatype Date = Date(year: int, month: int, day: int)

  predicate IsLeap(y: int) {
    y % 4 == 0 && (y % 100 != 0 || y % 400 == 0)
  }

  function DaysInYear(y: int): (r: nat) {
    if IsLeap(y) then 366 else 365
  }

  function DaysInMonth(y: int, m: int): (r: nat) {
    if m == 2 then (if IsLeap(y) then 29 else 28)
    else if m == 4 || m == 6 || m == 9 || m == 11 then 30
    else 31
  }

  /** Days in the years from 1970 up to `y`. */
  function DaysBeforeYear(y: int): (r: nat) {
    if y <= 1970 then 0 else DaysBeforeYear(y - 1) + DaysInYear(y - 1)
  }

  /** Days in the months of year `y` before month `m`. */
  function DaysBeforeMonth(y: int, m: int): (r: nat) {
    if m <= 1 then 0 else DaysBeforeMonth(y, m - 1) + DaysInMonth(y, m - 1)
  }

  /** Days since 1970-01-01, by adding up year and month lengths. */
  function DayNumber(date: Date): int {
    DaysBeforeYear(date.year) + DaysBeforeMonth(date.year, date.month) + date.day - 1
  }

  predicate IsMonth(date: Date) {
    date.year >= 1970 && 1 <= date.month <= 12
  }

  predicate IsDate(date: Date) {
    IsMonth(date) && 1 <= date.day <= DaysInMonth(date.year, date.month)
  }

  predicate Before(a: Date, b: Date) {
    a.year < b.year
    || (a.year == b.year && (a.month < b.month || (a.month == b.month && a.day < b.day)))
  }

  /** Days since the epoch of a date, as the timestamp parser computes them. */
  function DaysFromCivil(date: Date): int {
    var year := if date.month <= 2 then date.year - 1 else date.year;
    var era := year / 400;
    var yoe := year - era * 400;
    var doy := (153 * (date.month + (if date.month > 2 then -3 else 9)) + 2) / 5 + date.day - 1;
    var doe := yoe * 365 + yoe / 4 - yoe / 100 + doy;
    era * 146097 + doe - 719468
  }

  /** The year of an era from the day of that era, as the timestamp writer computes it. */
  function YearOfEra(doe: int): int {
    (doe - doe / 1460 + doe / 36524 - doe / 146096) / 365
  }

  /** The date of day `doy`, counted from March 1, of the year that starts then. */
  function DateInYear(year: int, doy: int): Date {
    var mp := (5 * doy + 2) / 153;
    var day := doy - (153 * mp + 2) / 5 + 1;
    var month := mp + (if mp < 10 then 3 else -9);
    Date(if month <= 2 then year + 1 else year, month, day)
  }

  /** The date of a day count, by the writer's formula in unbounded integers. */
  function UnboundedCivil(daysSinceEpoch: nat): Date {
    var days := daysSinceEpoch + 719468;
    var era := days / 146097;
    var doe := days - era * 146097;
    var yoe := YearOfEra(doe);
    DateInYear(yoe + era * 400, doe - (365 * yoe + yoe / 4 - yoe / 100))
  }

  /**
   The date of a day count, as the timestamp writer computes it: the count is 64 bits
   wide, but the era, its product, the day of the era and the year are 32-bit words.
   */
  function CivilFromDays(daysSinceEpoch: nat): Date {
    var days := daysSinceEpoch + 719468;
    var era := ToUint32(days / 146097);
    var doe := ToUint32(days - ToUint32(era * 146097));
    var yoe := YearOfEra(doe);
    var year := ToInt32(yoe + ToUint32(era * 400));
    var date := DateInYear(year, doe - (365 * yoe + yoe / 4 - yoe / 100));
    date.(year := ToInt32(date.year))
  }

  const LAST_DATE := Date(0x7FFF_FFFF, 12, 31)
  const LAST_DAY: nat := 784_351_576_776

  /** Days from March 1 of year 0 to March 1 of year `y`. */
  function MarchDays(y: int): int {
    365 * y + y / 4 - y / 100 + y / 400
  }

  lemma EraForm(y: int)
    requires y >= 0
    ensures var era := y / 400; var yoe := y - era * 400;
            era * 146097 + yoe * 365 + yoe / 4 - yoe / 100 == MarchDays(y)
  {
    var era := y / 400;
    var yoe := y - era * 400;
    assert y == 400 * era + yoe && 0 <= yoe < 400;
    assert y / 4 == 100 * era + yoe / 4;
    assert y / 100 == 4 * era + yoe / 100;
  }

  /** How a quotient grows from one year to the next. */
  lemma DivStep(y: int, m: int)
    requires y >= 0 && (m == 4 || m == 100 || m == 400)
    ensures (y + 1) / m - y / m == if (y + 1) % m == 0 then 1 else 0
  {
  }

  lemma LeapDivisors(y: int)
    ensures y % 400 == 0 ==> y % 100 == 0
    ensures y % 100 == 0 ==> y % 4 == 0
  {
    if y % 400 == 0 {
      ModUnique(y, 100, 4 * (y / 400), 0);
    }
    if y % 100 == 0 {
      ModUnique(y, 4, 25 * (y / 100), 0);
    }
  }

  lemma MarchStep(y: int)
    requires y >= 0
    ensures MarchDays(y + 1) == MarchDays(y) + DaysInYear(y + 1)
  {
    DivStep(y, 4);
    DivStep(y, 100);
    DivStep(y, 400);
    LeapDivisors(y + 1);
  }

  lemma {:induction false} YearStart(y: int)
    requires y >= 1970
    ensures MarchDays(y - 1) + 306 - 719468 == DaysBeforeYear(y)
  {
    if y > 1970 {
      YearStart(y - 1);
      MarchStep(y - 2);
    }
  }

  lemma YearLength(y: int)
    ensures DaysInYear(y) == 365 + if IsLeap(y) then 1 else 0
  {
  }

  lemma MonthStart(y: int, m: int)
    requires 1 <= m <= 12
    ensures DaysBeforeMonth(y, m) ==
            if m <= 2 then (153 * (m + 9) + 2) / 5 - 306
            else (153 * (m - 3) + 2) / 5 + 59 + (if IsLeap(y) then 1 else 0)
  {
    assert DaysBeforeMonth(y, 2) == 31;
    assert DaysBeforeMonth(y, 3) == 59 + if IsLeap(y) then 1 else 0;
    assert m > 5 ==> DaysBeforeMonth(y, 5) == DaysBeforeMonth(y, 3) + 61;
    assert m > 7 ==> DaysBeforeMonth(y, 7) == DaysBeforeMonth(y, 5) + 61;
    assert m > 9 ==> DaysBeforeMonth(y, 9) == DaysBeforeMonth(y, 7) + 62;
    assert m > 11 ==> DaysBeforeMonth(y, 11) == DaysBeforeMonth(y, 9) + 61;
  }

  /**
   The parser's formula is the day count, for every month of every year from 1970
   on, and any day number, also one past the end of its month.
   */
  lemma CivilFormulaCounts(date: Date)
    requires IsMonth(date)
    ensures DaysFromCivil(date) == DayNumber(date)
  {
    hide DaysBeforeYear, DaysBeforeMonth, MarchDays, DaysInYear;
    YearStart(date.year);
    MonthStart(date.year, date.month);
    YearLength(date.year);
    if date.month <= 2 {
      EraForm(date.year - 1);
    } else {
      EraForm(date.year);
      MarchStep(date.year - 1);
    }
  }

  /** Centuries are counted exactly: the last day of an era is corrected for. */
  lemma CenturyOfEra(doe: int, c: int, x: int)
    requires doe == 36524 * c + x && 0 <= c < 4
    requires 0 <= x < 36524 || (c == 3 && x == 36524)
    ensures doe / 36524 - doe / 146096 == c
  {
  }

  /** `YearOfEra` inverts the start of a year of an era: `doe` lies in year 100c + 4q + r. */
  lemma YearOfEraParts(doe: int, c: int, q: int, z: int)
    requires 0 <= c < 4 && 0 <= q < 25 && 0 <= z < 1461
    requires q == 24 && z == 1460 ==> c == 3
    requires doe == 36524 * c + 1461 * q + z
    ensures YearOfEra(doe) == 100 * c + 4 * q + (if z == 1460 then 3 else z / 365)
  {
    CenturyOfEra(doe, c, 1461 * q + z);
    assert doe == 1460 * (25 * c + q) + (24 * c + q + z);
    assert 0 <= 24 * c + q <= 96;
    var t := if 24 * c + q + z >= 1460 then 1 else 0;
    assert doe / 1460 == 25 * c + q + t;
    assert doe - doe / 1460 + c == 365 * (100 * c + 4 * q) + (z - t);
    assert (z - t) / 365 == if z == 1460 then 3 else z / 365;
  }

  lemma SplitEra(doe: int) returns (c: int, q: int, z: int)
    requires 0 <= doe < 146097
    ensures 0 <= c < 4 && 0 <= q < 25 && 0 <= z < 1461
    ensures q == 24 && z == 1460 ==> c == 3
    ensures doe == 36524 * c + 1461 * q + z
  {
    c := if doe == 146096 then 3 else doe / 36524;
    var x := doe - 36524 * c;
    q, z := x / 1461, x % 1461;
  }

  /** The day of the year that remains lies inside that year. */
  lemma DayOfYearBounds(doe: int)
    requires 0 <= doe < 146097
    ensures var yoe := YearOfEra(doe);
            0 <= yoe < 400 &&
            0 <= doe - (365 * yoe + yoe / 4 - yoe / 100) < DaysInYear(yoe + 1)
  {
    hide YearOfEra, DaysInYear;
    var c, q, z := SplitEra(doe);
    YearOfEraParts(doe, c, q, z);
    var r := if z == 1460 then 3 else z / 365;
    var yoe := 100 * c + 4 * q + r;
    assert 0 <= 4 * q + r < 100;
    assert yoe / 4 == 25 * c + q && yoe / 100 == c;
    assert doe - (365 * yoe + yoe / 4 - yoe / 100) == z - 365 * r;
    LeapAtEnd(c, q, z, yoe);
  }

  /** The last day of a cycle of four years is there only in a leap year. */
  lemma LeapAtEnd(c: int, q: int, z: int, yoe: int)
    requires 0 <= c < 4 && 0 <= q < 25 && (q == 24 && z == 1460 ==> c == 3)
    requires yoe == 100 * c + 4 * q + if z == 1460 then 3 else z / 365
    ensures DaysInYear(yoe + 1) >= 365 && (z == 1460 ==> DaysInYear(yoe + 1) == 366)
  {
    if z == 1460 {
      assert (yoe + 1) % 4 == 0;
      assert q < 24 ==> (yoe + 1) % 100 != 0;
      assert q == 24 ==> (yoe + 1) % 400 == 0;
    }
  }

  lemma ModShift(x: int, m: int, k: int)
    requires m == 4 || m == 100 || m == 400
    ensures (x + m * k) % m == x % m
  {
    ModUnique(x + m * k, m, x / m + k, x % m);
  }

  lemma LeapPeriod(yoe: int, era: int)
    ensures IsLeap(yoe + era * 400) == IsLeap(yoe)
  {
    ModShift(yoe, 4, 100 * era);
    ModShift(yoe, 100, 4 * era);
    ModShift(yoe, 400, era);
  }

  /** Months counted from March: the date is real, and the parser's formula takes it back. */
  lemma DateInEraCorrect(era: int, yoe: int, doy: int)
    requires era >= 0 && 0 <= yoe < 400 && 0 <= doy < DaysInYear(yoe + 1)
    ensures var date := DateInYear(yoe + era * 400, doy);
            1 <= date.month <= 12 && 1 <= date.day <= DaysInMonth(date.year, date.month) &&
            yoe + era * 400 <= date.year &&
            DaysFromCivil(date) == era * 146097 + (365 * yoe + yoe / 4 - yoe / 100) + doy - 719468
  {
    var year := yoe + era * 400;
    var mp := (5 * doy + 2) / 153;
    LeapPeriod(yoe + 1, era);
    assert 153 * mp <= 5 * doy + 2 < 153 * mp + 153;
    assert 0 <= mp < 12;
    var date := DateInYear(yoe + era * 400, doy);
    assert 1 <= date.day <= DaysInMonth(date.year, date.month);
    assert date.month + (if date.month > 2 then -3 else 9) == mp;
    assert year / 400 == era && year - era * 400 == yoe;
  }

  /** The era, year of era and day of year a day count splits into. */
  lemma SplitDays(days: nat) returns (era: int, yoe: int, doy: int)
    ensures era >= 0 && 0 <= yoe < 400 && 0 <= doy < DaysInYear(yoe + 1)
    ensures era * 146097 + (365 * yoe + yoe / 4 - yoe / 100) + doy == days + 719468
    ensures UnboundedCivil(days) == DateInYear(yoe + era * 400, doy)
  {
    hide YearOfEra, DaysInYear, DateInYear;
    era := (days + 719468) / 146097;
    var doe := days + 719468 - era * 146097;
    DayOfYearBounds(doe);
    yoe := YearOfEra(doe);
    doy := doe - (365 * yoe + yoe / 4 - yoe / 100);
  }

  /** In unbounded integers the writer's formula gives a real date with the right day count. */
  lemma UnboundedCorrect(days: nat)
    ensures IsDate(UnboundedCivil(days)) && DayNumber(UnboundedCivil(days)) == days
  {
    var era, yoe, doy := SplitDays(days);
    DateInEraCorrect(era, yoe, doy);
    NotBefore1970(era, yoe, doy);
    CivilFormulaCounts(DateInYear(yoe + era * 400, doy));
  }

  lemma NotBefore1970(era: int, yoe: int, doy: int)
    requires era >= 0 && 0 <= yoe < 400 && 0 <= doy < DaysInYear(yoe + 1)
    requires era * 146097 + (365 * yoe + yoe / 4 - yoe / 100) + doy >= 719468
    ensures DateInYear(yoe + era * 400, doy).year >= 1970
  {
    DateInEraCorrect(era, yoe, doy);
    if era < 5 && yoe + era * 400 < 1970 {
      assert era == 4;
      assert yoe == 369 && doy >= 306;
      assert (5 * doy + 2) / 153 >= 10;
    }
  }

  lemma {:induction false} YearsAdd(y: int, later: int)
    requires 1970 <= y < later
    ensures DaysBeforeYear(y) + DaysInYear(y) <= DaysBeforeYear(later)
  {
    if y < later - 1 {
      YearsAdd(y, later - 1);
    }
  }

  lemma {:induction false} MonthsAdd(y: int, m: int, later: int)
    requires 1 <= m < later
    ensures DaysBeforeMonth(y, m) + DaysInMonth(y, m) <= DaysBeforeMonth(y, later)
  {
    if m < later - 1 {
      MonthsAdd(y, m, later - 1);
    }
  }

  lemma DateWithinYear(date: Date)
    requires IsDate(date)
    ensures DaysBeforeMonth(date.year, date.month) + date.day <= DaysInYear(date.year)
  {
    MonthStart(date.year, date.month);
  }

  /** Later dates have larger day counts. */
  lemma DayNumberMonotone(a: Date, b: Date)
    requires IsDate(a) && IsDate(b) && Before(a, b)
    ensures DayNumber(a) < DayNumber(b)
  {
    if a.year < b.year {
      YearsAdd(a.year, b.year);
      DateWithinYear(a);
    } else if a.month < b.month {
      MonthsAdd(a.year, a.month, b.month);
    }
  }

  /** Dates in the order of their day counts. */
  lemma OrderOfDays(a: Date, b: Date)
    requires IsDate(a) && IsDate(b)
    ensures DayNumber(a) < DayNumber(b) <==> Before(a, b)
  {
    if Before(a, b) {
      DayNumberMonotone(a, b);
    } else if Before(b, a) {
      DayNumberMonotone(b, a);
    }
  }

  /** The last day of the greatest year an `int` can hold. */
  lemma LastDay()
    ensures IsDate(LAST_DATE) && DayNumber(LAST_DATE) == LAST_DAY
  {
    LastIsDate();
    LastFormula();
    hide *;
    CivilFormulaCounts(LAST_DATE);
  }

  lemma LastIsDate()
    ensures IsMonth(LAST_DATE) && IsDate(LAST_DATE)
  {
  }

  lemma LastFormula()
    ensures DaysFromCivil(LAST_DATE) == LAST_DAY
  {
    assert 0x7FFF_FFFF / 400 == 5_368_709 && 0x7FFF_FFFF - 5_368_709 * 400 == 47;
    assert (153 * (12 - 3) + 2) / 5 + 31 - 1 == 305 && 47 * 365 + 47 / 4 - 47 / 100 + 305 == 17_471;
  }

  /** Taking a product off modulo 2^32 leaves the day of the era. */
  lemma DayOfEraWord(days: nat, era: nat)
    requires era == days / 146097
    ensures ToUint32(days - ToUint32(era * 146097)) == days - era * 146097
  {
    var product := era * 146097;
    var doe := days - product;
    var k := product / TWO_TO_THE_32;
    ModUnique(doe + k * TWO_TO_THE_32, TWO_TO_THE_32, k, doe);
  }

  /** The 32-bit words give the date of the unbounded formula exactly as long as its year fits an `int`. */
  lemma WordsSuffice(days: nat)
    ensures CivilFromDays(days) == UnboundedCivil(days) <==> days <= LAST_DAY
  {
    var date := UnboundedCivil(days);
    UnboundedCorrect(days);
    LastDay();
    OrderOfDays(LAST_DATE, date);
    assert days <= LAST_DAY <==> date.year <= LAST_DATE.year;
    hide DayNumber, IsDate;
    if date.year <= LAST_DATE.year {
      YearInWords(days);
    }
  }

  lemma Word(x: nat)
    requires x < TWO_TO_THE_31
    ensures ToUint32(x) == x && ToInt32(x) == x
  {
  }

  /** The words are small enough while the year of the date is. */
  lemma YearBounds(days: nat)
    requires UnboundedCivil(days).year <= LAST_DATE.year
    ensures var era := (days + 719468) / 146097;
            var yoe := YearOfEra(days + 719468 - era * 146097);
            && 0 <= yoe && 0 <= era
            && era * 400 <= yoe + era * 400 <= UnboundedCivil(days).year < TWO_TO_THE_31
  {
    var era := (days + 719468) / 146097;
    var doe := days + 719468 - era * 146097;
    var yoe := YearOfEra(doe);
    DayOfYearBounds(doe);
    hide YearOfEra, DateInYear, DaysInYear;
  }

  lemma YearInWords(days: nat)
    requires UnboundedCivil(days).year <= LAST_DATE.year
    ensures CivilFromDays(days) == UnboundedCivil(days)
  {
    hide YearOfEra, DateInYear, ToUint32, ToInt32;
    YearBounds(days);
    var era := (days + 719468) / 146097;
    var yoe := YearOfEra(days + 719468 - era * 146097);
    Word(era);
    Word(era * 400);
    Word(yoe + era * 400);
    Word(UnboundedCivil(days).year);
    DayOfEraWord(days + 719468, era);
  }

  /** The writer's formula gives a real date, and the date's day count is what went in. */
  lemma CivilFromDaysCorrect(days: nat)
    requires days <= LAST_DAY
    ensures IsDate(CivilFromDays(days)) && DayNumber(CivilFromDays(days)) == days
  {
    WordsSuffice(days);
    UnboundedCorrect(days);
  }

  /** The two directions are inverse to each other, on every date whose year fits an `int`. */
  lemma CivilRoundTrip(date: Date)
    requires IsDate(date) && IsInt32(date.year)
    ensures 0 <= DayNumber(date) == DaysFromCivil(date) <= LAST_DAY && CivilFromDays(DaysFromCivil(date)) == date
  {
    CivilFormulaCounts(date);
    LastDay();
    OrderOfDays(LAST_DATE, date);
    var back := CivilFromDays(DayNumber(date));
    CivilFromDaysCorrect(DayNumber(date));
    hide CivilFromDays, DaysFromCivil, DayNumber;
    OrderOfDays(back, date);
    OrderOfDays(date, back);
  }

  /** The writer's direction is strictly monotone as well. */
  lemma CivilFromDaysMonotone(a: nat, b: nat)
    requires a < b <= LAST_DAY
    ensures Before(CivilFromDays(a), CivilFromDays(b))
  {
    CivilFromDaysCorrect(a);
    CivilFromDaysCorrect(b);
    hide CivilFromDays, DayNumber;
    OrderOfDays(CivilFromDays(a), CivilFromDays(b));
  }
}
