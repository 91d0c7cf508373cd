/**
 Messages and fields written out byte by byte: what the writer leaves in the buffer, in the
 codes of the wire, and what the reader's checksum is.
 */
module WireSamples {
  import opened Bytes
  import opened Digits
  import opened IntegerCodec
  import opened DecimalCodec
  import opened MessageModel
  import opened Frames
  import Batch
  import CivilCalendar
  import Timestamps

  /** `FIX.4.2` */
  const FIX42: bytes := [0x46, 0x49, 0x58, 0x2E, 0x34, 0x2E, 0x32]

  /** `8=FIX.4.2|9=000005|35=0|` */
  const HEARTBEAT_FRONT: bytes :=
    [0x38, 0x3D, 0x46, 0x49, 0x58, 0x2E, 0x34, 0x2E, 0x32, 0x01,
     0x39, 0x3D, 0x30, 0x30, 0x30, 0x30, 0x30, 0x35, 0x01, 0x33, 0x35, 0x3D, 0x30, 0x01]

  /** `10=145|` */
  const HEARTBEAT_TRAILER: bytes := [0x31, 0x30, 0x3D, 0x31, 0x34, 0x35, 0x01]

  /** `8=FIX.4.2|9=5|35=0|` */
  const SHORT_FRONT: bytes :=
    [0x38, 0x3D, 0x46, 0x49, 0x58, 0x2E, 0x34, 0x2E, 0x32, 0x01, 0x39, 0x3D, 0x35, 0x01, 0x33, 0x35, 0x3D, 0x30, 0x01]

  lemma TwoBytes(a: byte, b: byte)
    ensures ByteSum([a, b]) == a + b
  {
    hide ByteSum;
    OneByteSum(a);
    OneByteSum(b);
    ByteSumParts([a], [b]);
    assert [a] + [b] == [a, b];
  }

  lemma FourBytes(a: byte, b: byte, c: byte, d: byte)
    ensures ByteSum([a, b, c, d]) == a + b + c + d
  {
    hide ByteSum;
    TwoBytes(a, b);
    TwoBytes(c, d);
    ByteSumParts([a, b], [c, d]);
    assert [a, b] + [c, d] == [a, b, c, d];
  }

  lemma FiveBytes(a: byte, b: byte, c: byte, d: byte, e: byte)
    ensures ByteSum([a, b, c, d, e]) == a + b + c + d + e
  {
    hide ByteSum;
    FourBytes(a, b, c, d);
    OneByteSum(e);
    ByteSumParts([a, b, c, d], [e]);
    assert [a, b, c, d] + [e] == [a, b, c, d, e];
  }

  lemma PartsSum(a: bytes, b: bytes, c: bytes, d: bytes)
    ensures ByteSum(a + b + c + d) == ByteSum(a) + ByteSum(b) + ByteSum(c) + ByteSum(d)
  {
    ByteSumParts(a, b);
    ByteSumParts(a + b, c);
    ByteSumParts(a + b + c, d);
    hide ByteSum;
  }

  const BEGIN: bytes := [0x38, 0x3D, 0x46, 0x49, 0x58, 0x2E, 0x34, 0x2E, 0x32, 0x01]

  lemma BeginSum()
    ensures ByteSum(BEGIN) == 543
  {
    hide ByteSum;
    FiveBytes(0x38, 0x3D, 0x46, 0x49, 0x58);
    FiveBytes(0x2E, 0x34, 0x2E, 0x32, 0x01);
    ByteSumParts([0x38, 0x3D, 0x46, 0x49, 0x58], [0x2E, 0x34, 0x2E, 0x32, 0x01]);
    assert BEGIN == [0x38, 0x3D, 0x46, 0x49, 0x58] + [0x2E, 0x34, 0x2E, 0x32, 0x01];
  }

  /** The checksum of `8=FIX.4.2|9=000005|35=0|`. */
  lemma HeartbeatSum()
    ensures Checksum(HEARTBEAT_FRONT) == 145
  {
    hide ByteSum;
    var b, c, d := [0x39, 0x3D, 0x30, 0x30, 0x30], [0x30, 0x30, 0x35, 0x01, 0x33], [0x35, 0x3D, 0x30, 0x01];
    BeginSum();
    FiveBytes(0x39, 0x3D, 0x30, 0x30, 0x30);
    FiveBytes(0x30, 0x30, 0x35, 0x01, 0x33);
    FourBytes(0x35, 0x3D, 0x30, 0x01);
    PartsSum(BEGIN, b, c, d);
    assert HEARTBEAT_FRONT == BEGIN + b + c + d;
  }

  /** The checksum of `8=FIX.4.2|9=5|35=0|`. */
  lemma ShortSum()
    ensures Checksum(SHORT_FRONT) == 161
  {
    hide ByteSum;
    var b, c := [0x39, 0x3D, 0x35, 0x01, 0x33], [0x35, 0x3D, 0x30, 0x01];
    BeginSum();
    FiveBytes(0x39, 0x3D, 0x35, 0x01, 0x33);
    FourBytes(0x35, 0x3D, 0x30, 0x01);
    PartsSum(BEGIN, b, c, []);
    assert ByteSum([]) == 0 by { NothingSum(); }
    assert SHORT_FRONT == BEGIN + b + c + [];
  }

  lemma NothingSum()
    ensures ByteSum([]) == 0
  {
  }

  /** What the trailer of `8=FIX.4.2|9=......|35=0|` writes, on any buffer with room for it. */
  lemma SampleTrailer(gap: bytes, capacity: nat)
    requires |gap| == 6 && capacity >= 31
    ensures var front := State(HEARTBEAT_FRONT[..12] + gap + HEARTBEAT_FRONT[18..], capacity, Some(12), false);
            Apply(front, Trailer(true), gap)
            == State(HEARTBEAT_FRONT + HEARTBEAT_TRAILER, capacity, Some(12), false)
  {
    var written := HEARTBEAT_FRONT[..12] + gap + HEARTBEAT_FRONT[18..];
    HeartbeatSum();
    SampleDigits();
    hide Checksum, Padded;
    assert Splice(written, 12, Padded(5, 6)) == HEARTBEAT_FRONT;
    assert TrailerText(145) == HEARTBEAT_TRAILER;
  }

  /** `8=FIX.4.2|9=`, six bytes skipped, `|` */
  lemma SampleHeader(gap: bytes, capacity: nat)
    requires |gap| == 6 && capacity >= 19
    ensures Apply(Start(capacity), Header(FIX42), gap)
            == State([0x38, 0x3D] + FIX42 + [0x01, 0x39, 0x3D] + gap + [0x01], capacity, Some(12), false)
  {
    assert [] + HeaderStart(FIX42) == [0x38, 0x3D] + FIX42 + [0x01, 0x39, 0x3D];
  }

  /** Header, MsgType `0` and trailer, called one after the other: the whole Heartbeat, byte for byte. */
  lemma SampleMessage(gap: bytes, capacity: nat)
    requires |gap| == 6 && capacity >= 64
    ensures var begun := Apply(Start(capacity), Header(FIX42), gap);
            var filled := Apply(begun, Text(35, [0x30]), gap);
            Apply(filled, Trailer(true), gap) == State(HEARTBEAT_FRONT + HEARTBEAT_TRAILER, capacity, Some(12), false)
  {
    SampleHeader(gap, capacity);
    SampleTrailer(gap, capacity);
    MsgTypeField();
    var begun := Apply(Start(capacity), Header(FIX42), gap);
    var filled := Apply(begun, Text(35, [0x30]), gap);
    FrontBytes(gap);
    hide Push.Bytes, HeaderStart, ApplyTrailer;
    assert filled.written == begun.written + [0x33, 0x35, 0x3D, 0x30, 0x01];
  }

  lemma FrontBytes(gap: bytes)
    ensures [0x38, 0x3D] + FIX42 + [0x01, 0x39, 0x3D] + gap + [0x01] + [0x33, 0x35, 0x3D, 0x30, 0x01]
            == HEARTBEAT_FRONT[..12] + gap + HEARTBEAT_FRONT[18..]
  {
    assert HEARTBEAT_FRONT[..12] == [0x38, 0x3D] + FIX42 + [0x01, 0x39, 0x3D];
    assert HEARTBEAT_FRONT[18..] == [0x01] + [0x33, 0x35, 0x3D, 0x30, 0x01];
  }

  lemma MsgTypeField()
    ensures Text(35, [0x30]).Bytes() == [0x33, 0x35, 0x3D, 0x30, 0x01]
  {
    TwoDigits(3, 5);
    PlainField(Text(35, [0x30]), [0x33, 0x35, 0x3D], [0x30]);
    assert [0x33, 0x35, 0x3D] + [0x30] + [0x01] == [0x33, 0x35, 0x3D, 0x30, 0x01];
  }

  lemma SampleDigits()
    ensures Padded(5, 6) == [0x30, 0x30, 0x30, 0x30, 0x30, 0x35] && Padded(145, 3) == [0x31, 0x34, 0x35]
  {
    assert Padded(5, 0) == [] && Padded(0, 5) == [0x30, 0x30, 0x30, 0x30, 0x30] by {
      assert Padded(0, 2) == [0x30, 0x30] && Padded(0, 3) == [0x30, 0x30, 0x30];
      assert Padded(0, 4) == [0x30, 0x30, 0x30, 0x30];
    }
    assert Padded(1, 1) == [0x31] && Padded(14, 2) == [0x31, 0x34];
  }

  // ----- fields of every kind

  lemma SampleTags()
    ensures TagText(38) == [0x33, 0x38, 0x3D] && TagText(44) == [0x34, 0x34, 0x3D] && TagText(54) == [0x35, 0x34, 0x3D]
    ensures TagText(75) == [0x37, 0x35, 0x3D] && TagText(58) == [0x35, 0x38, 0x3D] && TagText(52) == [0x35, 0x32, 0x3D]
    ensures TagText(95) == [0x39, 0x35, 0x3D] && TagText(96) == [0x39, 0x36, 0x3D]
    ensures TagText(200) == [0x32, 0x30, 0x30, 0x3D] && TagText(273) == [0x32, 0x37, 0x33, 0x3D]
  {
    TwoDigits(3, 8);
    TwoDigits(4, 4);
    TwoDigits(5, 4);
    TwoDigits(7, 5);
    TwoDigits(5, 8);
    TwoDigits(5, 2);
    TwoDigits(9, 5);
    TwoDigits(9, 6);
    ThreeDigits(2, 0, 0);
    ThreeDigits(2, 7, 3);
    hide Utoa;
  }

  lemma TwoDigits(a: nat, b: nat)
    requires 1 <= a < 10 && b < 10
    ensures Utoa(10 * a + b) == [0x30 + a, 0x30 + b]
  {
    assert (10 * a + b) / 10 == a && (10 * a + b) % 10 == b;
    assert Utoa(a) == [0x30 + a];
  }

  lemma ThreeDigits(a: nat, b: nat, c: nat)
    requires 1 <= a < 10 && b < 10 && c < 10
    ensures Utoa(100 * a + 10 * b + c) == [0x30 + a, 0x30 + b, 0x30 + c]
  {
    TwoDigits(a, b);
    assert (100 * a + 10 * b + c) / 10 == 10 * a + b && (100 * a + 10 * b + c) % 10 == c;
  }

  lemma PadTwo(a: nat, b: nat)
    requires a < 10 && b < 10
    ensures Padded(10 * a + b, 2) == [0x30 + a, 0x30 + b]
  {
    assert (10 * a + b) / 10 == a && (10 * a + b) % 10 == b;
    assert Padded(a, 1) == [0x30 + a] by { assert Padded(0, 0) == []; }
  }

  lemma PadThree(a: nat, b: nat, c: nat)
    requires a < 10 && b < 10 && c < 10
    ensures Padded(100 * a + 10 * b + c, 3) == [0x30 + a, 0x30 + b, 0x30 + c]
  {
    PadTwo(a, b);
    assert (100 * a + 10 * b + c) / 10 == 10 * a + b && (100 * a + 10 * b + c) % 10 == c;
  }

  lemma PadFour(a: nat, b: nat, c: nat, d: nat)
    requires a < 10 && b < 10 && c < 10 && d < 10
    ensures Padded(1000 * a + 100 * b + 10 * c + d, 4) == [0x30 + a, 0x30 + b, 0x30 + c, 0x30 + d]
  {
    PadThree(a, b, c);
    assert (1000 * a + 100 * b + 10 * c + d) / 10 == 100 * a + 10 * b + c;
    assert (1000 * a + 100 * b + 10 * c + d) % 10 == d;
  }

  /** What a field is made of, given its tag and its value in bytes. */
  lemma PlainField(push: Push, tag: bytes, value: bytes)
    requires push.IsField() && !push.Data? && TagText(push.tag) == tag && push.Value() == value
    ensures push.Bytes() == tag + value + [0x01]
  {
    hide TagText, Push.Value;
  }

  /** `58=A|`, `54=1|`, `38=-5|` and `95=2|96=<01>=|` */
  lemma PlainSamples()
    ensures Text(58, [0x41]).Bytes() == [0x35, 0x38, 0x3D, 0x41, 0x01]
    ensures Char(54, 0x31).Bytes() == [0x35, 0x34, 0x3D, 0x31, 0x01]
    ensures Integer(38, -5, INT32).Bytes() == [0x33, 0x38, 0x3D, 0x2D, 0x35, 0x01]
    ensures Data(95, 96, [0x01, 0x3D]).Bytes() == [0x39, 0x35, 0x3D, 0x32, 0x01, 0x39, 0x36, 0x3D, 0x01, 0x3D, 0x01]
  {
    SampleTags();
    assert Utoa(5) == [0x35] && Utoa(2) == [0x32];
    DataSample();
    hide TagText, Utoa, Push.Bytes;
    PlainField(Text(58, [0x41]), [0x35, 0x38, 0x3D], [0x41]);
    PlainField(Char(54, 0x31), [0x35, 0x34, 0x3D], [0x31]);
    PlainField(Integer(38, -5, INT32), [0x33, 0x38, 0x3D], [0x2D, 0x35]);
  }

  lemma DataSample()
    ensures Data(95, 96, [0x01, 0x3D]).Bytes() == [0x39, 0x35, 0x3D, 0x32, 0x01, 0x39, 0x36, 0x3D, 0x01, 0x3D, 0x01]
  {
    SampleTags();
    assert Utoa(2) == [0x32];
    hide TagText, Utoa;
  }

  /** `44=-123.45|` */
  lemma DecimalSample()
    ensures Decimal(44, -12345, -2, INT32).Bytes()
            == [0x34, 0x34, 0x3D] + [0x2D, 0x31, 0x32, 0x33] + [0x2E, 0x34, 0x35] + [0x01]
  {
    hide Push.Bytes, TagText, DtoaIn;
    SampleTags();
    DecimalText();
    var push := Decimal(44, -12345, -2, INT32);
    PlainField(push, [0x34, 0x34, 0x3D], push.Value());
    assert [0x34, 0x34, 0x3D] + ([0x2D, 0x31, 0x32, 0x33] + [0x2E, 0x34, 0x35]) + [0x01]
           == [0x34, 0x34, 0x3D] + [0x2D, 0x31, 0x32, 0x33] + [0x2E, 0x34, 0x35] + [0x01];
  }

  /** `-123` and `.45` */
  lemma DecimalText()
    ensures DtoaIn(-12345, -2, INT32) == [0x2D, 0x31, 0x32, 0x33] + [0x2E, 0x34, 0x35]
  {
    ThreeDigits(1, 2, 3);
    PadTwo(4, 5);
    PadLow(12345);
    assert WholePart(12345, 2) == 123 by { assert WholePart(1234, 1) == 123; }
    assert !CountOverflows(-12345, -2, INT32) by { CountFits(); }
    hide Utoa, WholePart, Padded, CountOverflows;
    assert [0x2D] + ([0x31, 0x32, 0x33] + [0x2E] + [0x34, 0x35]) == [0x2D, 0x31, 0x32, 0x33] + [0x2E, 0x34, 0x35];
  }

  lemma PadLow(x: nat)
    requires x == 12345
    ensures Padded(x, 2) == Padded(45, 2)
  {
    assert Padded(1234, 1) == Padded(4, 1);
  }

  lemma CountFits()
    ensures !CountOverflows(-12345, -2, INT32)
  {
    SmallPowers();
    hide Pow10;
    assert |Utoa(12345)| <= 6 by { UtoaLength(12345, 6); }
    hide Utoa;
  }

  const JANUARY_15: Date := CivilCalendar.Date(2024, 1, 15)

  /** `20240115` and `12:30:45` */
  lemma DateAndTime(fraction: int)
    ensures Timestamps.DateText(JANUARY_15) == [0x32, 0x30, 0x32, 0x34, 0x30, 0x31, 0x31, 0x35]
    ensures Timestamps.ClockText(Timestamps.Clock(12, 30, 45, fraction)) == [0x31, 0x32, 0x3A, 0x33, 0x30, 0x3A, 0x34, 0x35]
  {
    hide *;
    DayText();
    TimeOfDay(fraction);
  }

  lemma DayText()
    ensures Timestamps.DateText(JANUARY_15) == [0x32, 0x30, 0x32, 0x34, 0x30, 0x31, 0x31, 0x35]
  {
    hide Padded;
    PadFour(2, 0, 2, 4);
    PadTwo(0, 1);
    PadTwo(1, 5);
    assert [0x32, 0x30, 0x32, 0x34] + [0x30, 0x31] + [0x31, 0x35] == [0x32, 0x30, 0x32, 0x34, 0x30, 0x31, 0x31, 0x35];
  }

  lemma TimeOfDay(fraction: int)
    ensures Timestamps.ClockText(Timestamps.Clock(12, 30, 45, fraction)) == [0x31, 0x32, 0x3A, 0x33, 0x30, 0x3A, 0x34, 0x35]
  {
    hide Padded;
    PadTwo(1, 2);
    PadTwo(3, 0);
    PadTwo(4, 5);
    assert [0x31, 0x32] + [COLON] + [0x33, 0x30] + [COLON] + [0x34, 0x35] == [0x31, 0x32, 0x3A, 0x33, 0x30, 0x3A, 0x34, 0x35];
  }

  /** `75=20240115|` and `200=202403|` */
  lemma DateSamples()
    ensures DateOnly(75, JANUARY_15).Bytes()
            == [0x37, 0x35, 0x3D] + [0x32, 0x30, 0x32, 0x34, 0x30, 0x31, 0x31, 0x35] + [0x01]
    ensures MonthYear(200, 2024, 3).Bytes() == [0x32, 0x30, 0x30, 0x3D] + [0x32, 0x30, 0x32, 0x34, 0x30, 0x33] + [0x01]
  {
    hide Push.Bytes, TagText, Timestamps.DateText, Timestamps.MonthYearText;
    SampleTags();
    DateAndTime(0);
    MonthText();
    PlainField(DateOnly(75, JANUARY_15), [0x37, 0x35, 0x3D], Timestamps.DateText(JANUARY_15));
    PlainField(MonthYear(200, 2024, 3), [0x32, 0x30, 0x30, 0x3D], Timestamps.MonthYearText(2024, 3));
  }

  lemma MonthText()
    ensures Timestamps.MonthYearText(2024, 3) == [0x32, 0x30, 0x32, 0x34, 0x30, 0x33]
  {
    PadFour(2, 0, 2, 4);
    PadTwo(0, 3);
    hide Padded;
  }

  /** `273=12:30:45|` and `52=20240115-12:30:45.123|` */
  lemma TimeSamples()
    ensures TimeOnly(273, Timestamps.Clock(12, 30, 45, 0), 0).Bytes()
            == [0x32, 0x37, 0x33, 0x3D] + [0x31, 0x32, 0x3A, 0x33, 0x30, 0x3A, 0x34, 0x35] + [0x01]
    ensures Stamp(52, JANUARY_15, Timestamps.Clock(12, 30, 45, 123), 3).Bytes()
            == [0x35, 0x32, 0x3D]
               + ([0x32, 0x30, 0x32, 0x34, 0x30, 0x31, 0x31, 0x35] + [0x2D]
                  + ([0x31, 0x32, 0x3A, 0x33, 0x30, 0x3A, 0x34, 0x35] + [0x2E, 0x31, 0x32, 0x33])) + [0x01]
  {
    hide Push.Bytes, TagText, Timestamps.TimeText, Timestamps.StampText;
    SampleTags();
    TimeTexts();
    var time, stamp := Timestamps.Clock(12, 30, 45, 0), Timestamps.Clock(12, 30, 45, 123);
    PlainField(TimeOnly(273, time, 0), [0x32, 0x37, 0x33, 0x3D], Timestamps.TimeText(time, 0));
    PlainField(Stamp(52, JANUARY_15, stamp, 3), [0x35, 0x32, 0x3D], Timestamps.StampText(JANUARY_15, stamp, 3));
  }

  /** `12:30:45`, `20240115-` and `12:30:45.123` */
  lemma TimeTexts()
    ensures Timestamps.TimeText(Timestamps.Clock(12, 30, 45, 0), 0) == [0x31, 0x32, 0x3A, 0x33, 0x30, 0x3A, 0x34, 0x35]
    ensures Timestamps.StampText(JANUARY_15, Timestamps.Clock(12, 30, 45, 123), 3)
            == [0x32, 0x30, 0x32, 0x34, 0x30, 0x31, 0x31, 0x35] + [0x2D]
               + ([0x31, 0x32, 0x3A, 0x33, 0x30, 0x3A, 0x34, 0x35] + [0x2E, 0x31, 0x32, 0x33])
  {
    DateAndTime(0);
    DateAndTime(123);
    PadThree(1, 2, 3);
    hide Padded, Timestamps.DateText, Timestamps.ClockText;
    assert [0x2E] + [0x31, 0x32, 0x33] == [0x2E, 0x31, 0x32, 0x33];
    assert [0x31, 0x32, 0x3A, 0x33, 0x30, 0x3A, 0x34, 0x35] + [] == [0x31, 0x32, 0x3A, 0x33, 0x30, 0x3A, 0x34, 0x35];
  }

  // ----- the reader

  /** `8=FIX.4.2|9=5|35=0|10=161|` */
  const SHORT_MESSAGE: bytes := SHORT_FRONT + [0x31, 0x30, 0x3D, 0x31, 0x36, 0x31, 0x01]

  /** The reader accepts it, and calculates the checksum that it states. */
  lemma SampleRead()
    ensures Recognise(SHORT_MESSAGE) == Valid(Frame(9, 14, 18, 19))
    ensures Checksum(SHORT_MESSAGE[..19]) == 161
  {
    ShortSum();
    assert SHORT_MESSAGE[..19] == SHORT_FRONT;
    hide Checksum;
    assert BodyLength(SHORT_MESSAGE[12..13]) == 5 by {
      assert SHORT_MESSAGE[12..13] == [0x35];
      assert DigitsValue([0x35][..0]) == 0;
      assert DigitsValue([0x35]) == 5;
    }
    hide BodyLength, Recognise, FirstSoh;
    PlacesRecognised(SHORT_MESSAGE, 9, 14, 5);
    assert SHORT_MESSAGE[17] != SOH && SHORT_MESSAGE[18] == SOH;
  }

  /** `garbage_bytes_not_a_fix_frame` */
  const GARBAGE: bytes :=
    [0x67, 0x61, 0x72, 0x62, 0x61, 0x67, 0x65, 0x5F, 0x62, 0x79, 0x74, 0x65, 0x73, 0x5F,
     0x6E, 0x6F, 0x74, 0x5F, 0x61, 0x5F, 0x66, 0x69, 0x78, 0x5F, 0x66, 0x72, 0x61, 0x6D, 0x65]

  /** Garbage in front of the message: the message is delivered. */
  lemma GarbageSkipped()
    ensures Batch.Run(GARBAGE + SHORT_MESSAGE) == Batch.Outcome([SHORT_MESSAGE], [])
  {
    hide *;
    GarbageInvalid();
    OneFrame();
    Batch.Recovers(GARBAGE, [SHORT_MESSAGE]);
  }

  lemma OneFrame()
    ensures Batch.IsStream([SHORT_MESSAGE]) && StartsFix([SHORT_MESSAGE][0], 0)
    ensures Batch.Concat([SHORT_MESSAGE]) == SHORT_MESSAGE
  {
    SampleRead();
    hide Recognise, Checksum;
    FixStart(SHORT_MESSAGE, 0);
    assert [SHORT_MESSAGE][1..] == [];
  }

  lemma GarbageInvalid()
    ensures |GARBAGE| > 0 && Recognise(GARBAGE + SHORT_MESSAGE).Invalid?
    ensures forall i | 1 <= i < |GARBAGE| :: !StartsFix(GARBAGE + SHORT_MESSAGE, i)
  {
    var whole := GARBAGE + SHORT_MESSAGE;
    hide StartsFix, Recognise;
    assert forall i | 0 <= i < |GARBAGE| :: whole[i] == GARBAGE[i];
    assert forall i | 0 <= i < |GARBAGE| :: GARBAGE[i] != 0x38 && GARBAGE[i] != 0x01;
    VerdictExactly(whole);
    forall i | 1 <= i < |GARBAGE|
      ensures !StartsFix(whole, i)
    {
      FixStart(whole, i);
    }
  }
}
