/**
 UTCTimestamp fields: an epoch count is split into civil parts and written as
 padded digits; the text is read back digit-parallel and recombined.
 */
module Timestamps {
  import opened Bytes
  import opened Digits
  import opened Swar
  import opened CivilCalendar

  const MIN_SUPPORTED_YEAR := 1970
  const MAX_SUPPORTED_YEAR := 2200
  const DAY_SECONDS := 86400

  /** Clock time; `fraction` counts milliseconds or nanoseconds. */
  datatype Clock = Clock(hour: int, minute: int, second: int, fraction: int)

  predicate IsClock(t: Clock, ticks: nat) {
    0 <= t.hour < 24 && 0 <= t.minute < 60 && 0 <= t.second < 60 && 0 <= t.fraction < ticks
  }

  /** The parts of a time, the fraction aside, fit their two digits; second 60 does. */
  predicate PartsFit(t: Clock) {
    0 <= t.hour < 100 && 0 <= t.minute < 100 && 0 <= t.second < 100
  }

  predicate ClockFits(t: Clock, ticks: nat) {
    PartsFit(t) && 0 <= t.fraction < ticks
  }

  /** The parts of a date fit their digits. */
  predicate DateFits(date: Date) {
    0 <= date.year < 10_000 && 0 <= date.month < 100 && 0 <= date.day < 100
  }

  // ----- reading

  function TwoDigitInt(p: bytes, charSigned: bool): int
    requires |p| >= 2
  {
    ToInt32(ParseTwoDigits(p, charSigned))
  }

  /** `YYYYMMDD`, any eight bytes. */
  function ParseDate(s: bytes): Date
    requires |s| == 8
  {
    var yyyymmdd := ParseEightDigits(s);
    Date(yyyymmdd / 10000, (yyyymmdd / 100) % 100, yyyymmdd % 100)
  }

  /** `HH:MM:SS[.sss]` */
  function ParseTimeMillis(s: bytes, charSigned: bool): Option<Clock> {
    if |s| != 8 && |s| != 12 then None
    else
      var millis := if |s| == 12
                    then TwoDigitInt(s[9..11], charSigned) * 10 + (CharValue(s[11], charSigned) - ZERO)
                    else 0;
      Some(Clock(TwoDigitInt(s[..2], charSigned), TwoDigitInt(s[3..5], charSigned), TwoDigitInt(s[6..8], charSigned),
                 millis))
  }

  /** `HH:MM:SS.sss`, `.ssssss` or `.sssssssss` */
  function ParseTimeNanos(s: bytes, charSigned: bool): Option<Clock> {
    if |s| != 12 && |s| != 15 && |s| != 18 then None
    else
      var nanos :=
        if |s| == 12 then
          ToInt32(ToInt32(ParseTwoDigits(s[9..11], charSigned) * 10 + (CharValue(s[11], charSigned) - ZERO)) * 1_000_000)
        else if |s| == 15 then
          ToInt32(ToInt32(ParseFourDigits(s[9..13]) * 100 + ParseTwoDigits(s[13..15], charSigned)) * 1000)
        else
          ToInt32(ParseEightDigits(s[9..17]) * 10 + (CharValue(s[17], charSigned) - ZERO));
      Some(Clock(TwoDigitInt(s[..2], charSigned), TwoDigitInt(s[3..5], charSigned), TwoDigitInt(s[6..8], charSigned),
                 nanos))
  }

  predicate InSupportedRange(date: Date) {
    MIN_SUPPORTED_YEAR <= date.year <= MAX_SUPPORTED_YEAR && 1 <= date.month <= 12 && 1 <= date.day <= 31
  }

  function SecondsOf(days: int, t: Clock): int {
    days * DAY_SECONDS + t.hour * 3600 + t.minute * 60 + t.second
  }

  /** `as_timestamp`: date and time, without a check of their ranges. */
  function ParseStampMillis(s: bytes, charSigned: bool): Option<(Date, Clock)> {
    if |s| < 9 then None
    else match ParseTimeMillis(s[9..], charSigned)
      case None => None
      case Some(t) => Some((ParseDate(s[..8]), t))
  }

  /** `as_timestamp_nano` */
  function ParseStampNanos(s: bytes, charSigned: bool): Option<(Date, Clock)> {
    if |s| < 9 then None
    else match ParseTimeNanos(s[9..], charSigned)
      case None => None
      case Some(t) => Some((ParseDate(s[..8]), t))
  }

  /** `as_epoch_millis`: milliseconds since the epoch. */
  function ParseEpochMillis(s: bytes, charSigned: bool): Option<int> {
    if |s| < 9 then None
    else match ParseTimeMillis(s[9..], charSigned)
      case None => None
      case Some(t) =>
        var date := ParseDate(s[..8]);
        if !InSupportedRange(date) then None
        else Some(SecondsOf(DaysFromCivil(date), t) * 1000 + t.fraction)
  }

  /** `as_epoch_nanos`: nanoseconds since the epoch. */
  function ParseEpochNanos(s: bytes, charSigned: bool): Option<int> {
    if |s| < 9 then None
    else match ParseTimeNanos(s[9..], charSigned)
      case None => None
      case Some(t) =>
        var date := ParseDate(s[..8]);
        if !InSupportedRange(date) then None
        else Some(SecondsOf(DaysFromCivil(date), t) * 1_000_000_000 + t.fraction)
  }

  // ----- writing

  /** The text of a timestamp with `width` fraction digits: none, 3 for milliseconds, 9 for nanoseconds. */
  function StampText(date: Date, t: Clock, width: nat): (s: bytes)
    ensures |s| == 17 + if width == 0 then 0 else 1 + width
  {
    DateText(date) + [MINUS] + TimeText(t, width)
  }

  function DateText(date: Date): (s: bytes)
    ensures |s| == 8
  {
    Padded(date.year, 4) + Padded(date.month, 2) + Padded(date.day, 2)
  }

  function TimeText(t: Clock, width: nat): (s: bytes)
    ensures |s| == 8 + if width == 0 then 0 else 1 + width
  {
    ClockText(t) + if width == 0 then [] else [DOT] + Padded(t.fraction, width)
  }

  /** `HH:MM:SS` */
  function ClockText(t: Clock): (s: bytes)
    ensures |s| == 8
  {
    Padded(t.hour, 2) + [COLON] + Padded(t.minute, 2) + [COLON] + Padded(t.second, 2)
  }

  /** Splitting a count of ticks since the epoch, at or after 1970, into a date and a clock time. */
  function SplitTicks(epoch: nat, perSecond: nat): (Date, Clock)
    requires perSecond > 0
  {
    var daySeconds := StartOfDay(epoch / perSecond);
    var inDay := epoch - daySeconds * perSecond;
    (CivilFromDays(daySeconds / DAY_SECONDS), SplitDay(inDay, perSecond))
  }

  function StartOfDay(epochSeconds: nat): (r: nat)
    ensures r <= epochSeconds && r / DAY_SECONDS == epochSeconds / DAY_SECONDS
  {
    epochSeconds - epochSeconds % DAY_SECONDS
  }

  function SplitDay(inDay: int, perSecond: nat): Clock
    requires perSecond > 0
  {
    var hour := inDay / (3600 * perSecond);
    var afterHours := inDay - hour * 3600 * perSecond;
    var minute := afterHours / (60 * perSecond);
    var afterMinutes := afterHours - minute * 60 * perSecond;
    var second := afterMinutes / perSecond;
    Clock(hour, minute, second, afterMinutes - second * perSecond)
  }

  function EpochMillisText(epoch: nat): bytes {
    var (date, t) := SplitTicks(epoch, 1000);
    StampText(date, t, 3)
  }

  function EpochNanosText(epoch: nat): bytes {
    var (date, t) := SplitTicks(epoch, 1_000_000_000);
    StampText(date, t, 9)
  }

  // ----- digits of the parts

  lemma TwoDigitText(x: nat, charSigned: bool)
    requires x < 100
    ensures TwoDigitInt(Padded(x, 2), charSigned) == x
  {
    hide Padded, Pow10, ParseTwoDigits, DigitsValue;
    SmallPowers();
    PaddedValue(x, 2, 100);
    ParseTwo(Padded(x, 2), charSigned);
  }

  /** The eight date digits as one number: only the four low digits of the year are there. */
  lemma DateNumber(date: Date)
    requires date.year >= 0 && 0 <= date.month < 100 && 0 <= date.day < 100
    ensures AllDigits(DateText(date))
    ensures DigitsValue(DateText(date)) == (date.year % 10_000 * 100 + date.month) * 100 + date.day
  {
    hide Padded, Pow10, DigitsValue;
    var y, m, d := Padded(date.year, 4), Padded(date.month, 2), Padded(date.day, 2);
    SmallPowers();
    PaddedDigits(date.year, 4);
    PaddedValue(date.month, 2, 100);
    PaddedValue(date.day, 2, 100);
    ValueAppend4(y, m);
    ValueAppend4(y + m, d);
  }

  /** Reading back the date digits. */
  lemma DateDigits(date: Date)
    requires date.year >= 0 && 0 <= date.month < 100 && 0 <= date.day < 100
    ensures ParseDate(DateText(date)) == date.(year := date.year % 10_000)
  {
    hide DateText, ParseEightDigits, DigitsValue;
    DateNumber(date);
    ParseEight(DateText(date));
  }

  /** Where the parts of a time stand in its text. */
  lemma TimePlaces(t: Clock, width: nat)
    ensures var s := TimeText(t, width);
            && s[..2] == Padded(t.hour, 2) && s[3..5] == Padded(t.minute, 2) && s[6..8] == Padded(t.second, 2)
            && (width > 0 ==> s[9..] == Padded(t.fraction, width))
  {
    hide Padded;
    var h, m, c := Padded(t.hour, 2), Padded(t.minute, 2), Padded(t.second, 2);
    var clock := h + [COLON] + m + [COLON] + c;
    assert clock[..2] == h && clock[3..5] == m && clock[6..8] == c;
    assert TimeText(t, width)[..8] == clock;
  }

  lemma ClockRead(t: Clock, width: nat, charSigned: bool)
    requires PartsFit(t)
    ensures var s := TimeText(t, width);
            && TwoDigitInt(s[..2], charSigned) == t.hour
            && TwoDigitInt(s[3..5], charSigned) == t.minute
            && TwoDigitInt(s[6..8], charSigned) == t.second
  {
    hide TimeText, Padded, TwoDigitInt, Pow10;
    TimePlaces(t, width);
    TwoDigitText(t.hour, charSigned);
    TwoDigitText(t.minute, charSigned);
    TwoDigitText(t.second, charSigned);
  }

  lemma ClockDigits(t: Clock, width: nat, ticks: nat, charSigned: bool)
    requires width > 0 && ticks == Pow10(width) && ClockFits(t, ticks)
    ensures var s := TimeText(t, width);
            && TwoDigitInt(s[..2], charSigned) == t.hour
            && TwoDigitInt(s[3..5], charSigned) == t.minute
            && TwoDigitInt(s[6..8], charSigned) == t.second
            && AllDigits(s[9..]) && DigitsValue(s[9..]) == t.fraction
  {
    hide TimeText, Padded, TwoDigitInt, DigitsValue, Pow10;
    ClockRead(t, width, charSigned);
    TimePlaces(t, width);
    PaddedValue(t.fraction, width, ticks);
  }

  /** The fraction digits are read as a pair and a single digit. */
  lemma MillisDigits(f: bytes, charSigned: bool)
    requires |f| == 3 && AllDigits(f)
    ensures TwoDigitInt(f[..2], charSigned) * 10 + (CharValue(f[2], charSigned) - ZERO) == DigitsValue(f)
  {
    hide ParseTwoDigits;
    ParseTwo(f[..2], charSigned);
    assert IsDigit(f[0]) && IsDigit(f[1]);
    assert DigitsValue(f[..2]) < 100 by {
      assert f[..2][..1] == f[..1];
      assert DigitsValue(f[..1]) == f[0] - ZERO by { assert f[..1][..0] == []; }
    }
  }

  lemma MillisTextRead(t: Clock, charSigned: bool)
    requires ClockFits(t, 1000)
    ensures ParseTimeMillis(TimeText(t, 3), charSigned) == Some(t)
  {
    hide TimeText, Padded, TwoDigitInt, Pow10, DigitsValue;
    SmallPowers();
    ClockDigits(t, 3, 1000, charSigned);
    var s := TimeText(t, 3);
    assert s[9..11] == s[9..][..2] && s[11] == s[9..][2];
    MillisDigits(s[9..], charSigned);
  }

  /** A time without a fraction is read back with none. */
  lemma SecondsTextRead(t: Clock, charSigned: bool)
    requires PartsFit(t)
    ensures ParseTimeMillis(TimeText(t, 0), charSigned) == Some(t.(fraction := 0))
  {
    hide TimeText, TwoDigitInt;
    ClockRead(t, 0, charSigned);
  }

  /** The fraction digits are read as a block of eight and a single digit. */
  lemma NanosDigits(f: bytes, charSigned: bool)
    requires |f| == 9 && AllDigits(f)
    ensures ParseEightDigits(f[..8]) * 10 + (CharValue(f[8], charSigned) - ZERO) == DigitsValue(f)
  {
    hide ParseEightDigits;
    ParseEight(f[..8]);
  }

  lemma NanosTextRead(t: Clock, charSigned: bool)
    requires ClockFits(t, 1_000_000_000)
    ensures ParseTimeNanos(TimeText(t, 9), charSigned) == Some(t)
  {
    hide TimeText, Padded, TwoDigitInt, ParseTwoDigits, ParseFourDigits, ParseEightDigits, Pow10, DigitsValue;
    SmallPowers();
    ClockDigits(t, 9, 1_000_000_000, charSigned);
    var s := TimeText(t, 9);
    assert s[9..17] == s[9..][..8] && s[17] == s[9..][8];
    NanosDigits(s[9..], charSigned);
  }

  /** Six fraction digits are read as a block of four and a pair. */
  lemma MicrosDigits(f: bytes, charSigned: bool)
    requires |f| == 6 && AllDigits(f)
    ensures ParseFourDigits(f[..4]) * 100 + ParseTwoDigits(f[4..], charSigned) == DigitsValue(f)
    ensures 0 <= DigitsValue(f) < 1_000_000
  {
    hide ParseTwoDigits, ParseFourDigits;
    ParseFour(f[..4]);
    ParseTwo(f[4..], charSigned);
    assert f == f[..4] + f[4..];
    DigitsAppend(f[..4], f[4..]);
    DigitsBelow(f);
    SmallPowers();
    hide DigitsValue;
  }

  lemma {:induction false} DigitsBelow(f: bytes)
    requires AllDigits(f)
    ensures 0 <= DigitsValue(f) < Pow10(|f|)
  {
    if |f| > 0 {
      DigitsBelow(f[..|f| - 1]);
      assert IsDigit(f[|f| - 1]);
      assert Pow10(|f|) == 10 * Pow10(|f| - 1);
    }
  }

  /** Microseconds are read as thousands of nanoseconds. */
  lemma MicrosTextRead(t: Clock, charSigned: bool)
    requires ClockFits(t, 1_000_000)
    ensures ParseTimeNanos(TimeText(t, 6), charSigned) == Some(t.(fraction := t.fraction * 1000))
  {
    hide TimeText, Padded, TwoDigitInt, ParseTwoDigits, ParseFourDigits, ParseEightDigits, Pow10, DigitsValue;
    SmallPowers();
    ClockDigits(t, 6, 1_000_000, charSigned);
    var s := TimeText(t, 6);
    var f := s[9..];
    assert s[9..13] == f[..4] && s[13..15] == f[4..];
    MicrosDigits(f, charSigned);
  }

  /** Milliseconds are read as millions of nanoseconds. */
  lemma MillisAsNanosRead(t: Clock, charSigned: bool)
    requires ClockFits(t, 1000)
    ensures ParseTimeNanos(TimeText(t, 3), charSigned) == Some(t.(fraction := t.fraction * 1_000_000))
  {
    hide TimeText, Padded, TwoDigitInt, ParseTwoDigits, ParseFourDigits, ParseEightDigits, Pow10, DigitsValue;
    SmallPowers();
    ClockDigits(t, 3, 1000, charSigned);
    var s := TimeText(t, 3);
    var f := s[9..];
    assert s[9..11] == f[..2] && s[11] == f[2];
    ThreeDigits(f, charSigned);
  }

  lemma ThreeDigits(f: bytes, charSigned: bool)
    requires |f| == 3 && AllDigits(f)
    ensures ParseTwoDigits(f[..2], charSigned) * 10 + (CharValue(f[2], charSigned) - ZERO) == DigitsValue(f)
    ensures 0 <= DigitsValue(f) < 1000
  {
    hide ParseTwoDigits;
    ParseTwo(f[..2], charSigned);
    assert f == f[..2] + f[2..];
    DigitsAppend(f[..2], f[2..]);
    assert IsDigit(f[2]) && DigitsValue(f[2..]) == f[2] - ZERO by { assert f[2..][..0] == []; }
    DigitsBelow(f);
    SmallPowers();
    hide DigitsValue;
  }

  /** How long a time may be: with or without milliseconds, and with 3, 6 or 9 digits for the nanosecond parser. */
  lemma TimeLengths(s: bytes, charSigned: bool)
    ensures ParseTimeMillis(s, charSigned).Some? <==> |s| == 8 || |s| == 12
    ensures ParseTimeNanos(s, charSigned).Some? <==> |s| == 12 || |s| == 15 || |s| == 18
  {
    hide TwoDigitInt, ParseTwoDigits, ParseFourDigits, ParseEightDigits;
  }

  // ----- the parts of a count

  lemma TimesAtLeast(a: nat, b: nat, k: nat)
    requires a >= b
    ensures a * k >= b * k
  {
  }

  lemma Distribute(a: int, b: int, k: int)
    ensures (a + b) * k == a * k + b * k
  {
  }

  lemma Associate(a: int, b: int, k: int)
    ensures a * b * k == a * (b * k) && a * b == b * a
  {
  }

  /** Taking whole units of `unit` seconds off a count of ticks. */
  lemma PeelUnits(x: nat, perSecond: nat, unit: nat, seconds: nat, fraction: nat)
    requires unit > 0 && perSecond > 0
    requires x == seconds * perSecond + fraction && fraction < perSecond
    ensures x / (unit * perSecond) == seconds / unit
    ensures x - seconds / unit * unit * perSecond == seconds % unit * perSecond + fraction
  {
    var q, r := seconds / unit, seconds % unit;
    var m := unit * perSecond;
    assert seconds == q * unit + r;
    Distribute(q * unit, r, perSecond);
    Associate(q, unit, perSecond);
    Associate(q, m, 1);
    TimesAtLeast(unit - 1, r, perSecond);
    Distribute(unit - 1, 1, perSecond);
    ModUnique(x, m, q, r * perSecond + fraction);
  }

  /** Splitting one day's ticks loses nothing. */
  lemma SplitDayCorrect(inDay: nat, perSecond: nat, seconds: nat, fraction: nat)
    requires perSecond > 0 && seconds < DAY_SECONDS
    requires inDay == seconds * perSecond + fraction && fraction < perSecond
    ensures SplitDay(inDay, perSecond) == Clock(seconds / 3600, seconds % 3600 / 60, seconds % 3600 % 60, fraction)
  {
    PeelUnits(inDay, perSecond, 3600, seconds, fraction);
    var afterHours := inDay - seconds / 3600 * 3600 * perSecond;
    PeelUnits(afterHours, perSecond, 60, seconds % 3600, fraction);
    var afterMinutes := afterHours - seconds % 3600 / 60 * 60 * perSecond;
    PeelUnits(afterMinutes, perSecond, 1, seconds % 3600 % 60, fraction);
  }

  /** The parts are a real date and clock time, and they count back to the epoch value. */
  lemma SplitTicksCorrect(epoch: nat, perSecond: nat)
    requires perSecond > 0 && epoch / perSecond / DAY_SECONDS <= LAST_DAY
    ensures var (date, t) := SplitTicks(epoch, perSecond);
            && IsDate(date) && IsClock(t, perSecond)
            && (DayNumber(date) * 86_400 + t.hour * 3600 + t.minute * 60 + t.second) * perSecond + t.fraction == epoch
            && DayNumber(date) == epoch / perSecond / DAY_SECONDS
  {
    hide CivilFromDays, DayNumber, SplitDay;
    var epochSeconds, fraction := epoch / perSecond, epoch % perSecond;
    var seconds := epochSeconds % DAY_SECONDS;
    InDayParts(epoch, perSecond, epochSeconds, fraction);
    var inDay := epoch - StartOfDay(epochSeconds) * perSecond;
    SplitDayCorrect(inDay, perSecond, seconds, fraction);
    CivilFromDaysCorrect(epochSeconds / DAY_SECONDS);
    assert SecondsOf(epochSeconds / DAY_SECONDS, SplitDay(inDay, perSecond)) == epochSeconds;
  }

  /** The ticks since midnight. */
  lemma InDayParts(epoch: nat, perSecond: nat, epochSeconds: nat, fraction: nat)
    requires epoch == epochSeconds * perSecond + fraction
    ensures epoch - StartOfDay(epochSeconds) * perSecond == epochSeconds % DAY_SECONDS * perSecond + fraction
  {
    Distribute(StartOfDay(epochSeconds), epochSeconds % DAY_SECONDS, perSecond);
  }

  lemma SampleYears()
    ensures DaysBeforeYear(1970) == 0 && DaysBeforeYear(2024) == 19_723
  {
    YearStart(2024);
  }

  lemma SampleDays()
    ensures DayNumber(Date(1970, 1, 1)) == 0 && DayNumber(Date(2024, 1, 15)) == 19_737
  {
    hide DaysBeforeYear;
    SampleYears();
  }

  lemma SampleDay()
    ensures CivilFromDays(19_737) == Date(2024, 1, 15)
  {
    hide CivilFromDays, DayNumber;
    SampleDays();
    CivilRoundTrip(Date(2024, 1, 15));
  }

  lemma SampleClock()
    ensures SplitDay(45_045_123, 1000) == Clock(12, 30, 45, 123)
    ensures StartOfDay(1_705_321_845) == 19_737 * 86_400
  {
  }

  /** 2024-01-15 12:30:45.123, in milliseconds since the epoch. */
  lemma EpochSample()
    ensures SplitTicks(1_705_321_845_123, 1000) == (Date(2024, 1, 15), Clock(12, 30, 45, 123))
  {
    hide CivilFromDays, SplitDay, StartOfDay;
    SampleDay();
    SampleClock();
  }

  // ----- round trips

  /** The first count past the supported years. */
  function EndOfRange(perSecond: nat): nat {
    DaysBeforeYear(MAX_SUPPORTED_YEAR + 1) * DAY_SECONDS * perSecond
  }

  /** The supported years end 7 289 654 400 seconds after the epoch. */
  lemma EndInSeconds(perSecond: nat)
    ensures EndOfRange(perSecond) == 7_289_654_400 * perSecond
  {
    hide DaysBeforeYear;
    YearStart(2201);
  }

  /** A count is below the end of the range exactly when its date is in a supported year. */
  lemma RangeByYear(epoch: nat, perSecond: nat)
    requires perSecond > 0 && epoch / perSecond / DAY_SECONDS <= LAST_DAY
    ensures epoch < EndOfRange(perSecond) <==> SplitTicks(epoch, perSecond).0.year <= MAX_SUPPORTED_YEAR
  {
    hide CivilFromDays;
    var (date, t) := SplitTicks(epoch, perSecond);
    var end := DaysBeforeYear(MAX_SUPPORTED_YEAR + 1);
    var days := DayNumber(date);
    SplitTicksCorrect(epoch, perSecond);
    var seconds := epoch / perSecond;
    assert epoch < end * DAY_SECONDS * perSecond <==> days < end by {
      BelowMultiple(epoch, perSecond, end * DAY_SECONDS);
      BelowMultiple(seconds, DAY_SECONDS, end);
    }
    DateWithinYear(date);
    if date.year <= MAX_SUPPORTED_YEAR {
      YearsAdd(date.year, MAX_SUPPORTED_YEAR + 1);
    } else if date.year > MAX_SUPPORTED_YEAR + 1 {
      YearsAdd(MAX_SUPPORTED_YEAR + 1, date.year);
      MonthStart(date.year, date.month);
    } else {
      MonthStart(date.year, date.month);
    }
  }

  lemma BelowMultiple(x: nat, m: nat, k: nat)
    requires m > 0
    ensures x < k * m <==> x / m < k
  {
    var q := x / m;
    assert x == q * m + x % m;
    if q < k {
      TimesAtLeast(k, q + 1, m);
      Distribute(q, 1, m);
    } else {
      TimesAtLeast(q, k, m);
    }
  }

  /** A date read with its year cut to four digits lies before a date of a later year. */
  lemma CutYearEarlier(date: Date, cut: Date)
    requires IsDate(date) && cut.year >= 1970 && cut.month == date.month && cut.day == date.day
    requires cut.year < date.year
    ensures DayNumber(cut) < DayNumber(date)
  {
    YearsAdd(cut.year, date.year);
    MonthStart(cut.year, cut.month);
    MonthStart(date.year, date.month);
  }

  /**
   Milliseconds written and read back are the same exactly up to the end of the
   last supported year; later ones are refused or, when the year no longer fits
   four digits, read as something else.
   */
  lemma EpochMillisRoundTrip(epoch: nat, charSigned: bool)
    requires IsInt64(epoch)
    ensures ParseEpochMillis(EpochMillisText(epoch), charSigned) == Some(epoch) <==> epoch < EndOfRange(1000)
  {
    hide CivilFromDays, SplitDay, ParseDate, ParseTimeMillis, DaysFromCivil, DayNumber, EndOfRange, DateText, TimeText;
    var (date, t) := SplitTicks(epoch, 1000);
    SplitTicksCorrect(epoch, 1000);
    RangeByYear(epoch, 1000);
    hide SplitTicks;
    MillisTextRead(t, charSigned);
    DateDigits(date);
    var s := StampText(date, t, 3);
    assert s[..8] == DateText(date) && s[9..] == TimeText(t, 3);
    var cut := date.(year := date.year % 10000);
    ReadDate(date, cut);
  }

  /** What the range check and the day count make of a date read back. */
  lemma ReadDate(date: Date, cut: Date)
    requires IsDate(date) && cut == date.(year := date.year % 10000)
    ensures date.year <= MAX_SUPPORTED_YEAR ==> InSupportedRange(cut) && DaysFromCivil(cut) == DayNumber(date)
    ensures date.year > MAX_SUPPORTED_YEAR && InSupportedRange(cut) ==> DaysFromCivil(cut) < DayNumber(date)
  {
    if date.year <= MAX_SUPPORTED_YEAR {
      assert cut == date;
      CivilFormulaCounts(date);
    } else if InSupportedRange(cut) {
      CivilFormulaCounts(cut);
      CutYearEarlier(date, cut);
    }
  }

  /** Nanoseconds written and read back, likewise. */
  lemma EpochNanosRoundTrip(epoch: nat, charSigned: bool)
    requires IsInt64(epoch)
    ensures ParseEpochNanos(EpochNanosText(epoch), charSigned) == Some(epoch) <==> epoch < EndOfRange(1_000_000_000)
  {
    hide CivilFromDays, SplitDay, ParseDate, ParseTimeNanos, DaysFromCivil, DayNumber, EndOfRange, DateText, TimeText;
    var (date, t) := SplitTicks(epoch, 1_000_000_000);
    SplitTicksCorrect(epoch, 1_000_000_000);
    RangeByYear(epoch, 1_000_000_000);
    hide SplitTicks;
    NanosTextRead(t, charSigned);
    DateDigits(date);
    var s := StampText(date, t, 9);
    assert s[..8] == DateText(date) && s[9..] == TimeText(t, 9);
    var cut := date.(year := date.year % 10000);
    ReadDate(date, cut);
  }

  // ----- years of more than four digits

  /** Ten thousand years are a whole number of eras. */
  const PERIOD_DAYS: nat := 3_652_425

  lemma PeriodShift(date: Date, q: nat)
    requires IsMonth(date)
    ensures DayNumber(date.(year := date.year + 10_000 * q)) == DayNumber(date) + PERIOD_DAYS * q
  {
    hide DayNumber, DaysFromCivil;
    CivilFormulaCounts(date);
    CivilFormulaCounts(date.(year := date.year + 10_000 * q));
    FormulaShift(date, q);
  }

  lemma FormulaShift(date: Date, q: nat)
    requires IsMonth(date)
    ensures DaysFromCivil(date.(year := date.year + 10_000 * q)) == DaysFromCivil(date) + PERIOD_DAYS * q
  {
    var year := if date.month <= 2 then date.year - 1 else date.year;
    EraShift(year, q);
    assert year + 10_000 * q - (year / 400 + 25 * q) * 400 == year - year / 400 * 400;
  }

  lemma EraShift(year: nat, q: nat)
    ensures (year + 10_000 * q) / 400 == year / 400 + 25 * q
  {
    ModUnique(year + 10_000 * q, 400, year / 400 + 25 * q, year % 400);
  }

  /**
   What any count of milliseconds reads back as: its own year must, cut to four digits, be
   a supported one, and every ten thousand years cut off are missing from the result.
   */
  lemma EpochMillisReadBack(epoch: nat, charSigned: bool)
    requires IsInt64(epoch)
    ensures var year := SplitTicks(epoch, 1000).0.year;
            ParseEpochMillis(EpochMillisText(epoch), charSigned) ==
            if 1970 <= year % 10_000 <= 2200
            then Some(epoch - year / 10_000 * 3_652_425 * 86_400 * 1000)
            else None
  {
    hide *;
    var (date, t) := SplitTicks(epoch, 1000);
    WithinWords(epoch);
    SplitTicksCorrect(epoch, 1000);
    CutParts(date, t, charSigned);
    EpochOfParts(StampText(date, t, 3), charSigned);
    TextOfEpoch(epoch);
    var cut := date.(year := date.year % 10_000);
    if 1970 <= cut.year <= 2200 {
      InRange(date, cut);
      ShiftBack(cut, date, t);
    } else {
      OutOfRange(cut);
    }
  }

  lemma WithinWords(epoch: nat)
    requires IsInt64(epoch)
    ensures epoch / 1000 / DAY_SECONDS <= LAST_DAY
  {
  }

  lemma TextOfEpoch(epoch: nat)
    ensures var (date, t) := SplitTicks(epoch, 1000); EpochMillisText(epoch) == StampText(date, t, 3)
  {
    hide SplitTicks, StampText;
  }

  /** A timestamp of any real date is read back with its year cut to four digits. */
  lemma CutParts(date: Date, t: Clock, charSigned: bool)
    requires IsDate(date) && IsClock(t, 1000)
    ensures ParseStampMillis(StampText(date, t, 3), charSigned) == Some((date.(year := date.year % 10_000), t))
  {
    hide ParseDate, ParseTimeMillis, DateText, TimeText, StampText;
    MillisTextRead(t, charSigned);
    DateDigits(date);
    StampPlaces(date, t, 3);
  }

  lemma InRange(date: Date, cut: Date)
    requires IsDate(date) && cut == date.(year := cut.year) && 1970 <= cut.year <= 2200
    ensures InSupportedRange(cut) && IsMonth(cut) && date.year >= 0
  {
  }

  lemma OutOfRange(cut: Date)
    requires !(1970 <= cut.year <= 2200)
    ensures !InSupportedRange(cut)
  {
  }

  /** The ticks that go with the ten thousands of years cut off. */
  lemma ShiftBack(cut: Date, date: Date, t: Clock)
    requires IsMonth(cut) && date.year >= 0 && cut == date.(year := date.year % 10_000)
    ensures (DayNumber(cut) * 86_400 + t.hour * 3600 + t.minute * 60 + t.second) * 1000 ==
            (DayNumber(date) * 86_400 + t.hour * 3600 + t.minute * 60 + t.second) * 1000
            - date.year / 10_000 * 3_652_425 * 86_400 * 1000
  {
    hide DayNumber;
    PeriodShift(cut, date.year / 10_000);
    assert cut.(year := cut.year + 10_000 * (date.year / 10_000)) == date;
  }

  const FIRST_OF_11970 := Date(11_970, 1, 1)

  lemma DaysTo11970()
    ensures IsDate(FIRST_OF_11970) && IsInt32(FIRST_OF_11970.year) && DaysFromCivil(FIRST_OF_11970) == PERIOD_DAYS
  {
    FormulaOf11970();
    hide DaysFromCivil;
  }

  lemma FormulaOf11970()
    ensures DaysFromCivil(FIRST_OF_11970) == PERIOD_DAYS
  {
  }

  lemma SplitWholeDays(days: nat)
    ensures SplitTicks(days * DAY_SECONDS * 1000, 1000).0 == CivilFromDays(days)
  {
    hide CivilFromDays, SplitDay;
  }

  /** The first millisecond of year 11970 reads back as the first of 1970. */
  lemma YearCutOff(charSigned: bool)
    ensures ParseEpochMillis(EpochMillisText(PERIOD_DAYS * DAY_SECONDS * 1000), charSigned) == Some(0)
  {
    hide SplitTicks, ParseEpochMillis, EpochMillisText, CivilFromDays, DaysFromCivil, DayNumber, IsDate;
    DaysTo11970();
    CivilRoundTrip(FIRST_OF_11970);
    SplitWholeDays(PERIOD_DAYS);
    EpochMillisReadBack(PERIOD_DAYS * DAY_SECONDS * 1000, charSigned);
  }

  // ----- typed fields

  /** `YYYYMM`, two runs of digits. */
  function MonthYearText(year: int, month: int): (s: bytes)
    ensures |s| == 6
  {
    Padded(year, 4) + Padded(month, 2)
  }

  /** `as_monthyear` on digits. */
  function ParseMonthYear(s: bytes): Option<(int, int)> {
    if |s| != 6 then None else Some((DigitsValue(s[..4]), DigitsValue(s[4..])))
  }

  lemma MonthYearRead(year: int, month: int)
    requires 0 <= year < 10_000 && 0 <= month < 100
    ensures AllDigits(MonthYearText(year, month))
    ensures ParseMonthYear(MonthYearText(year, month)) == Some((year, month))
  {
    hide Padded, Pow10, DigitsValue;
    SmallPowers();
    PaddedValue(year, 4, 10_000);
    PaddedValue(month, 2, 100);
    var s := MonthYearText(year, month);
    assert s[..4] == Padded(year, 4) && s[4..] == Padded(month, 2);
  }

  /** Where date and time stand in a timestamp. */
  lemma StampPlaces(date: Date, t: Clock, width: nat)
    ensures StampText(date, t, width)[..8] == DateText(date) && StampText(date, t, width)[9..] == TimeText(t, width)
  {
    hide DateText, TimeText;
  }

  /** A timestamp whose parts fit their digits is read back part by part. */
  lemma StampPartsRead(date: Date, t: Clock, charSigned: bool)
    requires DateFits(date)
    ensures PartsFit(t) ==> ParseStampMillis(StampText(date, t, 0), charSigned) == Some((date, t.(fraction := 0)))
    ensures ClockFits(t, 1000) ==> ParseStampMillis(StampText(date, t, 3), charSigned) == Some((date, t))
    ensures ClockFits(t, 1000) ==>
              ParseStampNanos(StampText(date, t, 3), charSigned) == Some((date, t.(fraction := t.fraction * 1_000_000)))
    ensures ClockFits(t, 1_000_000) ==>
              ParseStampNanos(StampText(date, t, 6), charSigned) == Some((date, t.(fraction := t.fraction * 1000)))
    ensures ClockFits(t, 1_000_000_000) ==> ParseStampNanos(StampText(date, t, 9), charSigned) == Some((date, t))
  {
    hide DateText, TimeText, StampText, ParseDate, ParseTimeMillis, ParseTimeNanos;
    DateDigits(date);
    StampPlaces(date, t, 0);
    StampPlaces(date, t, 3);
    StampPlaces(date, t, 6);
    StampPlaces(date, t, 9);
    if PartsFit(t) {
      SecondsTextRead(t, charSigned);
    }
    if ClockFits(t, 1000) {
      MillisTextRead(t, charSigned);
      MillisAsNanosRead(t, charSigned);
    }
    if ClockFits(t, 1_000_000) {
      MicrosTextRead(t, charSigned);
    }
    if ClockFits(t, 1_000_000_000) {
      NanosTextRead(t, charSigned);
    }
  }

  /** `20240115-12:30:45.123456` as nanoseconds. */
  lemma MicrosSample(charSigned: bool)
    ensures ParseStampNanos(StampText(Date(2024, 1, 15), Clock(12, 30, 45, 123_456), 6), charSigned)
            == Some((Date(2024, 1, 15), Clock(12, 30, 45, 123_456_000)))
  {
    hide StampText, ParseStampNanos;
    StampPartsRead(Date(2024, 1, 15), Clock(12, 30, 45, 123_456), charSigned);
  }

  /** The epoch count of a timestamp is that of its parts, if the date is in the supported range. */
  lemma EpochOfParts(s: bytes, charSigned: bool)
    ensures ParseEpochMillis(s, charSigned) ==
            (match ParseStampMillis(s, charSigned)
             case None => None
             case Some((date, t)) =>
               if 1970 <= date.year <= 2200 && 1 <= date.month <= 12 && 1 <= date.day <= 31
               then Some((DayNumber(date) * 86_400 + t.hour * 3600 + t.minute * 60 + t.second) * 1000 + t.fraction)
               else None)
    ensures ParseEpochNanos(s, charSigned) ==
            (match ParseStampNanos(s, charSigned)
             case None => None
             case Some((date, t)) =>
               if 1970 <= date.year <= 2200 && 1 <= date.month <= 12 && 1 <= date.day <= 31
               then Some((DayNumber(date) * 86_400 + t.hour * 3600 + t.minute * 60 + t.second) * 1_000_000_000 + t.fraction)
               else None)
  {
    hide ParseDate, ParseTimeMillis, ParseTimeNanos, DaysFromCivil, DayNumber;
    if |s| >= 9 && InSupportedRange(ParseDate(s[..8])) {
      CivilFormulaCounts(ParseDate(s[..8]));
    }
  }

  // ----- no overflow

  /** The sums `chrono` forms on the way to the nanosecond count, in order. */
  function NanoSteps(days: int, t: Clock): seq<int> {
    [ days * DAY_SECONDS,
      t.hour * 3600,
      days * DAY_SECONDS + t.hour * 3600,
      t.minute * 60,
      days * DAY_SECONDS + t.hour * 3600 + t.minute * 60,
      SecondsOf(days, t),
      SecondsOf(days, t) * 1_000_000_000,
      SecondsOf(days, t) * 1_000_000_000 + t.fraction ]
  }

  /** Unsigned arithmetic on differences comes out as the signed value. */
  lemma WrappedPair(a: int, b: int)
    requires -256 <= a < 256 && -256 <= b < 256
    ensures ToInt32(ToUint32(ToUint32(a) * 10 + ToUint32(b))) == a * 10 + b
  {
    var u, v := (if a < 0 then 1 else 0), (if b < 0 then 1 else 0);
    assert ToUint32(a) == a + u * TWO_TO_THE_32 && ToUint32(b) == b + v * TWO_TO_THE_32;
    var exact, k := a * 10 + b, 10 * u + v;
    var w := if exact < 0 then 1 else 0;
    ModUnique(exact + k * TWO_TO_THE_32, TWO_TO_THE_32, k - w, exact + w * TWO_TO_THE_32);
  }

  lemma TwoDigitBounds(p: bytes, charSigned: bool)
    requires |p| >= 2
    ensures -1936 <= TwoDigitInt(p, charSigned) <= 2277
  {
    hide TwoDigitInt;
    TwoDigitValue(p, charSigned);
  }

  lemma TwoDigitValue(p: bytes, charSigned: bool)
    requires |p| >= 2
    ensures TwoDigitInt(p, charSigned) ==
            (CharValue(p[0], charSigned) - ZERO) * 10 + (CharValue(p[1], charSigned) - ZERO)
  {
    hide ToInt32, ToUint32, CharValue;
    WrappedPair(CharValue(p[0], charSigned) - ZERO, CharValue(p[1], charSigned) - ZERO);
  }

  lemma SupportedDays(date: Date)
    requires InSupportedRange(date)
    ensures 0 <= DaysFromCivil(date) < 84_400
  {
    hide DaysFromCivil, DaysBeforeYear, DaysBeforeMonth;
    CivilFormulaCounts(date);
    MonthStart(date.year, date.month);
    YearStart(date.year);
    assert MarchDays(date.year - 1) <= 365 * 2199 + 2199 / 4 - 2199 / 100 + 6;
  }

  /**
   Whatever bytes the nanosecond parser accepts, digits or not, no sum on the way
   to the result leaves the 64-bit range.
   */
  lemma NanosNeverOverflow(s: bytes, charSigned: bool)
    requires ParseEpochNanos(s, charSigned).Some?
    ensures var t := ParseTimeNanos(s[9..], charSigned).value;
            var days := DaysFromCivil(ParseDate(s[..8]));
            && (forall i | 0 <= i < |NanoSteps(days, t)| :: IsInt64(NanoSteps(days, t)[i]))
            && ParseEpochNanos(s, charSigned) == Some(NanoSteps(days, t)[7])
            && IsInt32(t.hour) && IsInt32(t.minute) && IsInt32(t.second) && IsInt32(t.fraction)
  {
    hide ParseDate, DaysFromCivil, ParseFourDigits, ParseEightDigits, ParseTwoDigits, TwoDigitInt, ToInt32;
    var clock := s[9..];
    TwoDigitBounds(clock[..2], charSigned);
    TwoDigitBounds(clock[3..5], charSigned);
    TwoDigitBounds(clock[6..8], charSigned);
    SupportedDays(ParseDate(s[..8]));
  }
}
