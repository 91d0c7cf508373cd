/**
 Writing and reading are inverse: what a header-first run of the writer leaves in the
 buffer is one frame, and iterating it gives back the pushed fields, with the length
 fields of data hidden.
 */
module RoundTrip {
  import opened Bytes
  import opened Digits
  import opened IntegerCodec
  import opened DecimalCodec
  import opened MessageModel
  import opened Frames
  import opened FieldIterator

  /** A field as the reader reports it. */
  datatype Entry = Entry(tag: int, value: bytes)

  function EntryAt(m: bytes, c: Cursor): Entry
    requires InMessage(m, c)
  {
    Entry(c.tag, m[c.valueBegin..c.valueEnd])
  }

  function Entries(m: bytes, fields: seq<Cursor>): (r: seq<Entry>)
    requires forall i | 0 <= i < |fields| :: InMessage(m, fields[i])
    ensures |r| == |fields|
  {
    if |fields| == 0 then [] else [EntryAt(m, fields[0])] + Entries(m, fields[1..])
  }

  /** What iterating a valid frame reports. */
  function ReadEntries(cfg: Config, buf: bytes): seq<Entry>
    requires Recognise(buf).Valid?
  {
    IterationTerminates(cfg, buf);
    Entries(buf[..Recognise(buf).frame.Size()], Fields(cfg, buf))
  }

  function PushedEntry(push: Push): Entry
    requires push.IsField()
  {
    Entry(push.tag, push.Value())
  }

  function PushedEntries(fields: seq<Push>): (r: seq<Entry>)
    requires forall i | 0 <= i < |fields| :: fields[i].IsField()
    ensures |r| == |fields|
  {
    if |fields| == 0 then [] else [PushedEntry(fields[0])] + PushedEntries(fields[1..])
  }

  /**
   Fields that can be told apart on the wire: plain text without SOH under a tag that
   is no length tag, and data of any bytes behind a length tag.
   */
  ghost predicate Readable(cfg: Config, push: Push) {
    && push.IsField() && push.Valid()
    && (if push.Data? then push.lengthTag in cfg.lengthTags
        else push.tag !in cfg.lengthTags && (push.Text? ==> SohFree(push.value)) && (push.Char? ==> push.c != SOH))
  }

  ghost predicate AllReadable(cfg: Config, fields: seq<Push>) {
    forall i | 0 <= i < |fields| :: Readable(cfg, fields[i])
  }

  /** The typed pushes never write an SOH into a value. */
  lemma ValueSohFree(cfg: Config, push: Push)
    requires Readable(cfg, push) && !push.Data?
    ensures SohFree(push.Value())
  {
    match push
    case Text(_, _) =>
    case Char(_, _) =>
    case Integer(_, n, _) => ItoaSohFree(n);
    case Decimal(_, mantissa, exponent, ty) => DtoaSohFree(mantissa, ActsAs(mantissa, exponent, ty));
    case DateOnly(_, date) => DateSohFree(date);
    case MonthYear(_, year, month) =>
      PaddedSohFree(year, 4);
      PaddedSohFree(month, 2);
    case TimeOnly(_, time, width) => TimeSohFree(time, width);
    case Stamp(_, date, time, width) =>
      DateSohFree(date);
      TimeSohFree(time, width);
      hide Timestamps.DateText, Timestamps.TimeText;
  }

  lemma DateSohFree(date: Date)
    ensures SohFree(Timestamps.DateText(date))
  {
    PaddedSohFree(date.year, 4);
    PaddedSohFree(date.month, 2);
    PaddedSohFree(date.day, 2);
    hide Padded;
  }

  lemma TimeSohFree(time: Clock, width: nat)
    ensures SohFree(Timestamps.TimeText(time, width))
  {
    PaddedSohFree(time.hour, 2);
    PaddedSohFree(time.minute, 2);
    PaddedSohFree(time.second, 2);
    PaddedSohFree(time.fraction, width);
    hide Padded;
  }

  // ----- reading one written field

  lemma AccumulateDigit(value: nat, b: byte, modulus: nat, charSigned: bool)
    requires IsDigit(b) && modulus > 0
    ensures Accumulate(value % modulus, b, modulus, charSigned) == (value * 10 + (b - ZERO)) % modulus
  {
    var q, r := value / modulus, value % modulus;
    var x := r * 10 + (b - ZERO);
    assert value * 10 + (b - ZERO) == modulus * (10 * q) + x by {
      assert value == modulus * q + r;
      assert 10 * (modulus * q) == modulus * (10 * q);
    }
    var q', r' := x / modulus, x % modulus;
    assert x == modulus * q' + r';
    assert modulus * (10 * q) + modulus * q' == modulus * (10 * q + q');
    ModUnique(value * 10 + (b - ZERO), modulus, 10 * q + q', r');
  }

  /** On digits, unsigned accumulation is the decimal value modulo the word size. */
  lemma {:induction false} AccumulatedDigits(s: bytes, modulus: nat, charSigned: bool)
    requires AllDigits(s) && modulus > 0
    ensures DigitsValue(s) >= 0
    ensures Accumulated(s, modulus, charSigned) == DigitsValue(s) % modulus
  {
    if |s| == 0 {
      ModUnique(0, modulus, 0, 0);
    } else {
      var init := s[..|s| - 1];
      assert AllDigits(init) && IsDigit(s[|s| - 1]);
      AccumulatedDigits(init, modulus, charSigned);
      AccumulateDigit(DigitsValue(init), s[|s| - 1], modulus, charSigned);
      hide Accumulate;
    }
  }

  /** A number written as digits is read back by the accumulating loop. */
  lemma AccumulatedUtoa(n: nat, modulus: nat, charSigned: bool)
    requires n < modulus
    ensures Accumulated(Utoa(n), modulus, charSigned) == n
  {
    AccumulatedDigits(Utoa(n), modulus, charSigned);
    UtoaValue(n);
    hide Accumulated, DigitsValue, Utoa;
    ModUnique(n, modulus, 0, n);
  }

  lemma TagReadBack(tag: int, charSigned: bool)
    requires IsInt32(tag)
    ensures TagValue(Utoa(ToUint32(tag)), charSigned) == tag
  {
    AccumulatedUtoa(ToUint32(tag), TWO_TO_THE_32, charSigned);
    hide Accumulated, Utoa;
  }

  /** `text` stands in the message at `p`. */
  predicate TextAt(m: bytes, p: nat, text: bytes) {
    p + |text| <= |m| && m[p..p + |text|] == text
  }

  lemma TextSplit(m: bytes, p: nat, a: bytes, b: bytes)
    requires TextAt(m, p, a + b)
    ensures TextAt(m, p, a) && TextAt(m, p + |a|, b)
  {
    var whole := m[p..p + |a + b|];
    assert m[p..p + |a|] == whole[..|a|];
    assert m[p + |a|..p + |a| + |b|] == whole[|a|..];
  }

  lemma TextBytes(m: bytes, p: nat, text: bytes, i: nat)
    requires TextAt(m, p, text) && p <= i < p + |text|
    ensures m[i] == text[i - p]
  {
    assert m[i] == m[p..p + |text|][i - p];
  }

  /** `tag=` at `p`, read by the tag loop. */
  lemma TagAt(m: bytes, p: nat, tag: int, soh: bool, charSigned: bool)
    requires IsInt32(tag) && TextAt(m, p, TagText(tag))
    ensures var stop := p + |TagText(tag)| - 1;
            p <= stop && TagStop(m, p, soh) == stop && m[stop] == EQUALS && TagValue(m[p..stop], charSigned) == tag
  {
    var digits := Utoa(ToUint32(tag));
    var stop := p + |digits|;
    TextSplit(m, p, digits, [EQUALS]);
    TextBytes(m, stop, [EQUALS], stop);
    DigitsSohFree(digits);
    TagReadBack(tag, charSigned);
    hide Utoa, TagValue;
    forall i | p <= i < stop
      ensures m[i] != EQUALS && m[i] != SOH
    {
      TextBytes(m, p, digits, i);
    }
  }

  /** An SOH-free text with an SOH behind it, read by the value scan. */
  lemma ValueAt(m: bytes, p: nat, value: bytes)
    requires SohFree(value) && TextAt(m, p, value) && TextAt(m, p + |value|, [SOH])
    ensures FirstSoh(m, p, |m|) == p + |value| < |m|
  {
    var end := p + |value|;
    TextBytes(m, end, [SOH], end);
    forall i | p <= i < end
      ensures m[i] != SOH
    {
      TextBytes(m, p, value, i);
    }
  }

  lemma FieldTextSplit(m: bytes, p: nat, tag: int, value: bytes)
    requires TextAt(m, p, FieldText(tag, value))
    ensures var begin := p + |TagText(tag)|;
            && TextAt(m, p, TagText(tag)) && TextAt(m, begin, value) && TextAt(m, begin + |value|, [SOH])
            && begin + |value| + 1 == p + |FieldText(tag, value)|
  {
    hide TagText;
    TextSplit(m, p, TagText(tag) + value, [SOH]);
    TextSplit(m, p, TagText(tag), value);
  }

  /** What an increment does once its tag loop has stopped at an `=`. */
  lemma NextAtEquals(cfg: Config, m: bytes, c: Cursor, stop: nat, valueEnd: nat, tag: int)
    requires IsMessageBytes(m) && c.valueEnd + 1 <= stop < |m| && TagStop(m, c.valueEnd + 1, true) == stop
    requires m[stop] == EQUALS && TagValue(m[c.valueEnd + 1..stop], cfg.charSigned) == tag
    requires FirstSoh(m, stop + 1, |m|) == valueEnd < |m|
    ensures Next(cfg, m, c) == if tag in cfg.lengthTags then NextData(cfg, m, stop + 1, valueEnd)
                               else Cursor(c.valueEnd + 1, tag, stop + 1, valueEnd)
  {
    hide TagStop, TagValue, FirstSoh, NextData;
  }

  /** A plain field in front of the cursor is the next field. */
  lemma NextPlain(cfg: Config, m: bytes, c: Cursor, tag: int, value: bytes)
    requires IsMessageBytes(m) && IsInt32(tag) && tag !in cfg.lengthTags && SohFree(value)
    requires TextAt(m, c.valueEnd + 1, FieldText(tag, value))
    ensures var n := Next(cfg, m, c);
            && InMessage(m, n) && EntryAt(m, n) == Entry(tag, value)
            && n.at == c.valueEnd + 1 && n.valueEnd == c.valueEnd + |FieldText(tag, value)|
  {
    var p := c.valueEnd + 1;
    hide TagText, TagStop, TagValue, FirstSoh, NextData, FieldText, Next;
    FieldTextSplit(m, p, tag, value);
    TagAt(m, p, tag, true, cfg.charSigned);
    var begin := p + |TagText(tag)|;
    ValueAt(m, begin, value);
    NextAtEquals(cfg, m, c, begin - 1, begin + |value|, tag);
  }

  /** The data field behind a length of the right size. */
  lemma DataBehindLength(cfg: Config, m: bytes, begin: nat, end: nat, tag: int, value: bytes)
    requires IsMessageBytes(m) && IsInt32(tag) && IsInt32(|value|)
    requires begin <= end < |m| && m[begin..end] == Utoa(|value|)
    requires TextAt(m, end + 1, FieldText(tag, value))
    ensures var n := NextData(cfg, m, begin, end);
            && InMessage(m, n) && EntryAt(m, n) == Entry(tag, value)
            && n.at == end + 1 && n.valueEnd == end + |FieldText(tag, value)|
  {
    hide Accumulated, Utoa, TagText, TagStop, TagValue, FieldText, NextData;
    var p := end + 1;
    AccumulatedUtoa(|value|, TWO_TO_THE_64, cfg.charSigned);
    FieldTextSplit(m, p, tag, value);
    TagAt(m, p, tag, false, cfg.charSigned);
    NextDataAtEquals(cfg, m, begin, end, p + |TagText(tag)| - 1, tag, |value|);
  }

  /** What the data branch does once its tag loop has stopped at an `=`. */
  lemma NextDataAtEquals(cfg: Config, m: bytes, begin: nat, end: nat, stop: nat, tag: int, length: nat)
    requires IsMessageBytes(m) && begin <= end < |m| && TagStop(m, end + 1, false) == stop
    requires Accumulated(m[begin..end], TWO_TO_THE_64, cfg.charSigned) == length
    requires end + 1 <= stop && stop + 1 + length <= |m| && TagValue(m[end + 1..stop], cfg.charSigned) == tag
    ensures NextData(cfg, m, begin, end) == Cursor(end + 1, tag, stop + 1, stop + 1 + length)
  {
    hide TagStop, TagValue, Accumulated;
  }

  lemma DataTextSplit(m: bytes, p: nat, push: Push)
    requires push.Data? && IsInt32(|push.value|) && TextAt(m, p, push.Bytes())
    ensures var digits := Utoa(|push.value|);
            var begin := p + |TagText(push.lengthTag)|;
            && TextAt(m, p, TagText(push.lengthTag)) && TextAt(m, begin, digits)
            && TextAt(m, begin + |digits|, [SOH])
            && TextAt(m, begin + |digits| + 1, FieldText(push.tag, push.value))
            && p + |push.Bytes()| == begin + |digits| + 1 + |FieldText(push.tag, push.value)|
  {
    var first, second := FieldText(push.lengthTag, Itoa(ToInt32(|push.value|))), FieldText(push.tag, push.value);
    assert push.Bytes() == first + second;
    assert Itoa(ToInt32(|push.value|)) == Utoa(|push.value|);
    hide Push.Bytes, Utoa, Itoa, FieldText;
    TextSplit(m, p, first, second);
    FieldTextSplit(m, p, push.lengthTag, Utoa(|push.value|));
  }

  /** A length field and its data field in front of the cursor: the data field is the next field. */
  lemma NextLengthAndData(cfg: Config, m: bytes, c: Cursor, push: Push)
    requires IsMessageBytes(m) && push.Data? && Readable(cfg, push) && IsInt32(|push.value|)
    requires TextAt(m, c.valueEnd + 1, push.Bytes())
    ensures var n := Next(cfg, m, c);
            && InMessage(m, n) && EntryAt(m, n) == Entry(push.tag, push.value)
            && n.at > c.valueEnd + 1 && n.valueEnd == c.valueEnd + |push.Bytes()|
  {
    hide Push.Bytes, TagText, TagStop, TagValue, FirstSoh, NextData, Utoa, FieldText, Next;
    hide InMessage, EntryAt, Readable, IsMessageBytes;
    var p := c.valueEnd + 1;
    DataFacts(cfg, push);
    DataTextSplit(m, p, push);
    var digits := Utoa(|push.value|);
    var begin := p + |TagText(push.lengthTag)|;
    DigitsSohFree(digits);
    TagAt(m, p, push.lengthTag, true, cfg.charSigned);
    ValueAt(m, begin, digits);
    NextAtEquals(cfg, m, c, begin - 1, begin + |digits|, push.lengthTag);
    DataBehindLength(cfg, m, begin, begin + |digits|, push.tag, push.value);
  }

  lemma DataFacts(cfg: Config, push: Push)
    requires Readable(cfg, push) && push.Data?
    ensures IsInt32(push.lengthTag) && IsInt32(push.tag) && push.lengthTag in cfg.lengthTags
  {
  }

  lemma PushBytes(push: Push)
    requires push.IsField()
    ensures |push.Bytes()| > 0 && push.Bytes()[|push.Bytes()| - 1] == SOH
    ensures push.Data? ==> |push.value| <= |push.Bytes()|
    ensures !push.Data? ==> push.Bytes() == FieldText(push.tag, push.Value())
  {
    hide TagText, Itoa, ToInt32, Push.Value;
    if push.Data? {
      assert push.Value() == push.value by { DataValue(push); }
    }
    var tail := FieldText(push.tag, push.Value());
    assert tail[|tail| - 1] == SOH;
  }

  lemma DataValue(push: Push)
    requires push.Data?
    ensures push.Value() == push.value
  {
  }

  /** One pushed field in front of the cursor is the next field read. */
  lemma NextPushed(cfg: Config, m: bytes, c: Cursor, push: Push)
    requires IsMessageBytes(m) && Readable(cfg, push) && |push.Bytes()| < TWO_TO_THE_31
    requires TextAt(m, c.valueEnd + 1, push.Bytes())
    ensures var n := Next(cfg, m, c);
            && InMessage(m, n) && EntryAt(m, n) == PushedEntry(push)
            && n.at >= c.valueEnd + 1 && n.valueEnd == c.valueEnd + |push.Bytes()|
  {
    hide Next, Push.Bytes, FieldText, EntryAt, TextAt;
    PushBytes(push);
    if push.Data? {
      DataValue(push);
      NextLengthAndData(cfg, m, c, push);
    } else {
      PlainFacts(cfg, push);
      hide Push.Value, Readable;
      NextPlain(cfg, m, c, push.tag, push.Value());
    }
  }

  lemma PlainFacts(cfg: Config, push: Push)
    requires Readable(cfg, push) && !push.Data?
    ensures IsInt32(push.tag) && push.tag !in cfg.lengthTags && SohFree(push.Value())
  {
    ValueSohFree(cfg, push);
    hide Push.Value;
  }

  // ----- reading the whole body

  /** In front of the trailer, one increment lands on the CheckSum. */
  lemma NextIsTrailer(cfg: Config, m: bytes, c: Cursor, checksum: byte)
    requires IsMessageBytes(m) && c.valueEnd + 1 + TRAILER_SIZE == |m|
    requires TextAt(m, c.valueEnd + 1, TrailerText(checksum))
    ensures AtEnd(m, Next(cfg, m, c))
  {
    hide TrailerText, TextAt, TagStop, FirstSoh, TagValue, NextData;
    var p := c.valueEnd + 1;
    TrailerBytes(m, p, checksum);
    AtTrailer(cfg, m, c);
  }

  /** The bytes of a trailer: `10=`, three digits, SOH. */
  lemma TrailerBytes(m: bytes, p: nat, checksum: byte)
    requires p + TRAILER_SIZE <= |m| && TextAt(m, p, TrailerText(checksum))
    ensures m[p] == 0x31 && m[p + 1] == 0x30 && m[p + 2] == EQUALS && m[p + 6] == SOH
    ensures forall i | p + 3 <= i < p + 6 :: m[i] != SOH
  {
    var text := TrailerText(checksum);
    PaddedDigits(checksum, 3);
    DigitsSohFree(Padded(checksum, 3));
    hide Padded, TextAt;
    assert text[0] == 0x31 && text[1] == 0x30 && text[2] == EQUALS && text[3..6] == Padded(checksum, 3) && text[6] == SOH;
    TextBytes(m, p, text, p);
    TextBytes(m, p, text, p + 1);
    TextBytes(m, p, text, p + 2);
    TextBytes(m, p, text, p + 6);
    forall i | p + 3 <= i < p + 6
      ensures m[i] != SOH
    {
      TextBytes(m, p, text, i);
      assert m[i] == text[3..6][i - p - 3];
    }
  }

  /** An increment whose tag and value end where the message ends: the cursor is on the CheckSum, or behind its length. */
  lemma AtTrailer(cfg: Config, m: bytes, c: Cursor)
    requires IsMessageBytes(m) && c.valueEnd + 1 + TRAILER_SIZE == |m|
    requires TagStop(m, c.valueEnd + 1, true) == c.valueEnd + 3 && m[c.valueEnd + 3] == EQUALS
    requires FirstSoh(m, c.valueEnd + 4, |m|) == |m| - 1 && TagStop(m, |m|, false) == |m|
    ensures AtEnd(m, Next(cfg, m, c))
  {
    hide TagStop, FirstSoh, TagValue, Accumulated;
  }

  /** Walking over the bytes of pushed fields, with the trailer behind them, reports those fields. */
  lemma {:induction false} WalkPushed(cfg: Config, m: bytes, c: Cursor, fields: seq<Push>, checksum: byte)
    requires IsMessageBytes(m) && AllReadable(cfg, fields) && |Body(fields)| < TWO_TO_THE_31
    requires c.valueEnd + 1 + |Body(fields)| + TRAILER_SIZE == |m|
    requires TextAt(m, c.valueEnd + 1, Body(fields)) && TextAt(m, |m| - TRAILER_SIZE, TrailerText(checksum))
    ensures var n := Next(cfg, m, c);
            && InMessage(m, n)
            && (forall i | 0 <= i < |Walk(cfg, m, n)| :: InMessage(m, Walk(cfg, m, n)[i]))
            && Entries(m, Walk(cfg, m, n)) == PushedEntries(fields)
    decreases |fields|
  {
    hide Next, Walk, Push.Bytes, TrailerText, PushedEntry, EntryAt;
    var n := Next(cfg, m, c);
    NextAdvances(cfg, m, c);
    WalkStep(cfg, m, n);
    WalkOrdered(cfg, m, n);
    if |fields| == 0 {
      NextIsTrailer(cfg, m, c, checksum);
    } else {
      var first, later := fields[0].Bytes(), Body(fields[1..]);
      assert Body(fields) == first + later;
      hide Body;
      TextSplit(m, c.valueEnd + 1, first, later);
      NextPushed(cfg, m, c, fields[0]);
      assert !AtEnd(m, n);
      WalkPushed(cfg, m, n, fields[1..], checksum);
      EntriesStep(m, n, Walk(cfg, m, Next(cfg, m, n)));
    }
  }

  lemma EntriesStep(m: bytes, c: Cursor, rest: seq<Cursor>)
    requires InMessage(m, c) && (forall i | 0 <= i < |rest| :: InMessage(m, rest[i]))
    ensures forall i | 0 <= i < |[c] + rest| :: InMessage(m, ([c] + rest)[i])
    ensures Entries(m, [c] + rest) == [EntryAt(m, c)] + Entries(m, rest)
  {
    assert ([c] + rest)[1..] == rest;
    hide EntryAt;
  }

  // ----- the whole message

  lemma {:induction false} BodyEndsSoh(fields: seq<Push>)
    requires |fields| > 0 && (forall i | 0 <= i < |fields| :: fields[i].IsField())
    ensures |Body(fields)| > 0 && Body(fields)[|Body(fields)| - 1] == SOH
    decreases |fields|
  {
    hide Push.Bytes;
    PushBytes(fields[0]);
    if |fields| == 1 {
      assert Body(fields[1..]) == [];
    } else {
      BodyEndsSoh(fields[1..]);
    }
  }

  const MSG_TYPE_HEAD: bytes := [DIGIT_3, DIGIT_5, EQUALS]

  lemma MsgTypeBytes(msgType: bytes)
    ensures Text(MSG_TYPE_TAG, msgType).Bytes() == MSG_TYPE_HEAD + msgType + [SOH]
  {
    assert Utoa(35) == [DIGIT_3, DIGIT_5] by {
      assert Utoa(3) == [DIGIT_3];
    }
    assert [DIGIT_3, DIGIT_5] + [EQUALS] == MSG_TYPE_HEAD;
  }

  /** The body of a message that starts with MsgType. */
  lemma MsgTypeFirst(msgType: bytes, fields: seq<Push>)
    requires forall i | 0 <= i < |fields| :: fields[i].IsField()
    ensures var body := Body([Text(MSG_TYPE_TAG, msgType)] + fields);
            && body == MSG_TYPE_HEAD + msgType + [SOH] + Body(fields)
            && |body| == |msgType| + 4 + |Body(fields)|
            && body[0] == DIGIT_3 && body[1] == DIGIT_5 && body[|body| - 1] == SOH
  {
    hide Push.Bytes;
    var all := [Text(MSG_TYPE_TAG, msgType)] + fields;
    assert all[1..] == fields;
    MsgTypeBytes(msgType);
    BodyEndsSoh(all);
  }

  lemma BodyLengthDigits(n: nat)
    requires n <= MAX_BODY_LENGTH
    ensures AllDigits(Padded(n, 6)) && BodyLength(Padded(n, 6)) == n
  {
    SmallPowers();
    PaddedValue(n, 6, 1_000_000);
    hide Padded, DigitsValue;
  }

  lemma TrailerEnd(checksum: byte)
    ensures TrailerText(checksum)[6] == SOH && TrailerText(checksum)[3..6] == Padded(checksum, 3)
  {
    hide Padded;
  }

  function FullBody(msgType: bytes, fields: seq<Push>): bytes
    requires forall i | 0 <= i < |fields| :: fields[i].IsField()
  {
    Body([Text(MSG_TYPE_TAG, msgType)] + fields)
  }

  /** A message of the writer. */
  ghost predicate Written(m: bytes, v: bytes, msgType: bytes, fields: seq<Push>, checksummed: bool) {
    && (forall i | 0 <= i < |fields| :: fields[i].IsField())
    && SohFree(v) && SohFree(msgType)
    && |FullBody(msgType, fields)| <= MAX_BODY_LENGTH
    && m == MessageText(v, FullBody(msgType, fields), checksummed)
  }

  /** Everything before the body. */
  function Head(v: bytes, digits: bytes): bytes {
    (BEGIN_STRING_TAG + v) + [SOH, DIGIT_9, EQUALS] + digits + [SOH]
  }

  lemma HeadText(v: bytes, digits: bytes)
    ensures HeaderStart(v) + digits + [SOH] == Head(v, digits)
    ensures |Head(v, digits)| == |v| + 6 + |digits|
  {
    assert HeaderStart(v) == (BEGIN_STRING_TAG + v) + [SOH, DIGIT_9, EQUALS];
  }

  predicate InThree(m: bytes, head: bytes, body: bytes, trailer: bytes) {
    m == head + body + trailer
  }

  /** A body whose first field is MsgType. */
  predicate OpensWith(body: bytes, msgType: bytes, later: bytes) {
    body == MSG_TYPE_HEAD + msgType + [SOH] + later
  }

  /** Head, body and trailer of a message, whatever its body. */
  lemma AnyLayout(m: bytes, v: bytes, body: bytes, checksummed: bool) returns (digits: bytes, sum: byte)
    requires |body| <= MAX_BODY_LENGTH && m == MessageText(v, body, checksummed)
    ensures |digits| == 6 && AllDigits(digits) && BodyLength(digits) == |body|
    ensures InThree(m, Head(v, digits), body, TrailerText(sum)) && |Head(v, digits)| == |v| + 12
    ensures |m| == |v| + 12 + |body| + TRAILER_SIZE
    ensures sum == if checksummed then Checksum(m[..|m| - TRAILER_SIZE]) else 0
  {
    hide Checksum, TrailerText, Padded, BodyLength, HeaderStart, Head;
    digits := Padded(|body|, 6);
    BodyLengthDigits(|body|);
    HeadText(v, digits);
    var front := HeaderStart(v) + digits + [SOH] + body;
    sum := if checksummed then Checksum(front) else 0;
    assert m == front + TrailerText(sum);
    assert m[..|m| - TRAILER_SIZE] == front;
  }

  /** The parts of a written message: head, body, trailer. */
  lemma Layout(m: bytes, v: bytes, msgType: bytes, fields: seq<Push>, checksummed: bool)
    returns (digits: bytes, body: bytes, sum: byte)
    requires Written(m, v, msgType, fields, checksummed)
    ensures forall i | 0 <= i < |fields| :: fields[i].IsField()
    ensures body == FullBody(msgType, fields) && |body| == |msgType| + 4 + |Body(fields)|
    ensures OpensWith(body, msgType, Body(fields))
    ensures body[0] == DIGIT_3 && body[1] == DIGIT_5 && body[|body| - 1] == SOH
    ensures |digits| == 6 && AllDigits(digits) && BodyLength(digits) == |body|
    ensures InThree(m, Head(v, digits), body, TrailerText(sum)) && |Head(v, digits)| == |v| + 12
    ensures |m| == |v| + 12 + |body| + TRAILER_SIZE && |body| <= MAX_BODY_LENGTH
    ensures SohFree(v) && SohFree(msgType)
    ensures sum == if checksummed then Checksum(m[..|m| - TRAILER_SIZE]) else 0
  {
    MsgTypeFirst(msgType, fields);
    hide Body, Checksum, TrailerText, BodyLength, Head, MessageText, InThree;
    body := FullBody(msgType, fields);
    digits, sum := AnyLayout(m, v, body, checksummed);
  }

  lemma WrittenParts(m: bytes, v: bytes, digits: bytes, body: bytes, sum: byte)
    requires InThree(m, Head(v, digits), body, TrailerText(sum))
    requires SohFree(v) && 7 <= |v| <= 10 && AllDigits(digits) && BodyLength(digits) == |body|
    requires |body| >= 4 && body[0] == DIGIT_3 && body[1] == DIGIT_5 && body[|body| - 1] == SOH
    ensures FrameParts(m, BEGIN_STRING_TAG + v, EQUALS, digits, body, TrailerText(sum), [])
  {
    TrailerEnd(sum);
    hide TrailerText, BodyLength;
    assert (BEGIN_STRING_TAG + v)[9..] == v[7..];
    assert m + [] == m;
  }

  /** Head, body and trailer are recognised as a frame. */
  lemma PartsAreFrame(m: bytes, v: bytes, digits: bytes, body: bytes, sum: byte)
    requires InThree(m, Head(v, digits), body, TrailerText(sum)) && |digits| == 6
    requires SohFree(v) && 7 <= |v| <= 10 && AllDigits(digits) && BodyLength(digits) == |body|
    requires |body| >= 4 && body[0] == DIGIT_3 && body[1] == DIGIT_5 && body[|body| - 1] == SOH
    ensures var at := |v| + 12;
            |m| == at + |body| + 7
            && Recognise(m) == Valid(Frame(|v| + 2, at, FirstSoh(m, at + 3, at + |body|), at + |body|))
  {
    HeadText(v, digits);
    hide Head, TrailerText, BodyLength, FrameParts, Recognise, FirstSoh;
    PiecesAt(m, Head(v, digits), body, TrailerText(sum));
    hide TextAt;
    WrittenParts(m, v, digits, body, sum);
    PartsRecognised(m, BEGIN_STRING_TAG + v, EQUALS, digits, body, TrailerText(sum), []);
  }

  lemma PiecesAt(m: bytes, head: bytes, body: bytes, trailer: bytes)
    requires InThree(m, head, body, trailer)
    ensures TextAt(m, 0, head) && TextAt(m, |head|, body) && TextAt(m, |head| + |body|, trailer)
  {
    assert m[0..|head|] == head;
  }

  /** With a BeginString of 7 to 10 bytes the message is one valid frame, trailer to the end. */
  lemma MessageRecognised(m: bytes, v: bytes, msgType: bytes, fields: seq<Push>, checksummed: bool)
    requires Written(m, v, msgType, fields, checksummed) && 7 <= |v| <= 10
    ensures forall i | 0 <= i < |fields| :: fields[i].IsField()
    ensures var at := |v| + 12;
            && |m| == at + |msgType| + 4 + |Body(fields)| + TRAILER_SIZE
            && Recognise(m) == Valid(Frame(|v| + 2, at, at + 3 + |msgType|, |m| - TRAILER_SIZE))
  {
    hide Written, FullBody, Body, BodyLength, Checksum, TrailerText, Head, InThree, OpensWith, Recognise, FirstSoh, TextAt;
    var digits, body, sum := Layout(m, v, msgType, fields, checksummed);
    PartsAreFrame(m, v, digits, body, sum);
    PiecesAt(m, Head(v, digits), body, TrailerText(sum));
    MsgTypeEnd(m, |v| + 12, body, msgType, Body(fields));
  }

  /** The first SOH behind `35=` ends the MsgType value. */
  lemma MsgTypeEnd(m: bytes, at: nat, body: bytes, msgType: bytes, later: bytes)
    requires TextAt(m, at, body) && SohFree(msgType)
    requires OpensWith(body, msgType, later)
    ensures FirstSoh(m, at + 3, at + |body|) == at + 3 + |msgType|
  {
    var end := at + 3 + |msgType|;
    TextBytes(m, at, body, end);
    forall i | at + 3 <= i < end
      ensures m[i] != SOH
    {
      TextBytes(m, at, body, i);
      assert m[i] == msgType[i - at - 3];
    }
  }

  /** With a shorter or longer BeginString the reader calls the message invalid. */
  lemma OtherBeginString(m: bytes, v: bytes, msgType: bytes, fields: seq<Push>, checksummed: bool)
    requires Written(m, v, msgType, fields, checksummed) && !(7 <= |v| <= 10)
    ensures Recognise(m) == Invalid
  {
    hide Written, FullBody, Body, BodyLength, Checksum, TrailerText, Head, InThree, OpensWith, TextAt;
    var digits, body, sum := Layout(m, v, msgType, fields, checksummed);
    DigitsSohFree(digits);
    HeadBytes(v, digits);
    PiecesAt(m, Head(v, digits), body, TrailerText(sum));
    var n := |v|;
    forall i | 0 <= i < n + 12
      ensures m[i] == Head(v, digits)[i]
    {
      TextBytes(m, 0, Head(v, digits), i);
    }
    TextBytes(m, n + 12, body, n + 12);
    if n <= 1 {
      PrefixFound(m, 9, n + 11);
    } else {
      NoPrefix(m, 9);
    }
    hide PrefixScan, LengthScan;
  }

  /** Where the SOHs stand in front of the body. */
  lemma HeadBytes(v: bytes, digits: bytes)
    requires |digits| == 6 && SohFree(v) && SohFree(digits)
    ensures var head := Head(v, digits);
            var n := |v|;
            && |head| == n + 12 && head[n + 2] == SOH && head[n + 11] == SOH
            && (forall i | 0 <= i < n + 11 && i != n + 2 :: head[i] != SOH)
  {
    var head := Head(v, digits);
    var n := |v|;
    forall i | 0 <= i < n + 11 && i != n + 2
      ensures head[i] != SOH
    {
      if 2 <= i < n + 2 {
        assert head[i] == v[i - 2];
      } else if i >= n + 5 {
        assert head[i] == digits[i - n - 5];
      }
    }
  }

  lemma {:induction false} NoPrefix(m: bytes, b: nat)
    requires 9 <= b <= 12 < |m| && (forall i | b <= i <= 12 :: m[i] != SOH)
    ensures PrefixScan(m, b) == Bad
    decreases 12 - b
  {
    if b < 12 {
      NoPrefix(m, b + 1);
    }
  }

  /** Where MsgType, the other fields and the trailer of a written message stand. */
  lemma WrittenPlaces(m: bytes, v: bytes, msgType: bytes, fields: seq<Push>, checksummed: bool) returns (sum: byte)
    requires Written(m, v, msgType, fields, checksummed)
    ensures forall i | 0 <= i < |fields| :: fields[i].IsField()
    ensures var begin := |v| + 15; var end := begin + |msgType|;
            && end + 1 + |Body(fields)| + TRAILER_SIZE == |m| && |Body(fields)| <= MAX_BODY_LENGTH
            && m[begin..end] == msgType && TextAt(m, end + 1, Body(fields))
            && TextAt(m, |m| - TRAILER_SIZE, TrailerText(sum))
    ensures sum == if checksummed then Checksum(m[..|m| - TRAILER_SIZE]) else 0
  {
    hide Written, FullBody, Body, BodyLength, Checksum, TrailerText, Head, InThree, OpensWith, TextAt;
    var digits, body, s := Layout(m, v, msgType, fields, checksummed);
    sum := s;
    BodyPlaces(m, Head(v, digits), body, msgType, Body(fields), TrailerText(sum));
  }

  /** Where MsgType, the other fields and the trailer stand. */
  lemma BodyPlaces(m: bytes, head: bytes, body: bytes, msgType: bytes, later: bytes, trailer: bytes)
    requires InThree(m, head, body, trailer) && OpensWith(body, msgType, later) && |trailer| == TRAILER_SIZE
    ensures var begin := |head| + 3; var end := begin + |msgType|;
            && end + 1 + |later| + TRAILER_SIZE == |m|
            && m[begin..end] == msgType && TextAt(m, end + 1, later) && TextAt(m, |m| - TRAILER_SIZE, trailer)
  {
  }

  /** A cursor on the MsgType field, with the bytes of the other fields and a trailer behind it. */
  ghost predicate ReadyToWalk(m: bytes, c: Cursor, msgType: bytes, fields: seq<Push>, sum: byte) {
    && IsMessageBytes(m) && InMessage(m, c) && !AtEnd(m, c) && EntryAt(m, c) == Entry(MSG_TYPE_TAG, msgType)
    && (forall i | 0 <= i < |fields| :: fields[i].IsField())
    && |Body(fields)| <= MAX_BODY_LENGTH && c.valueEnd + 1 + |Body(fields)| + TRAILER_SIZE == |m|
    && TextAt(m, c.valueEnd + 1, Body(fields)) && TextAt(m, |m| - TRAILER_SIZE, TrailerText(sum))
  }

  lemma WrittenIsReady(m: bytes, v: bytes, msgType: bytes, fields: seq<Push>, checksummed: bool) returns (sum: byte)
    requires Written(m, v, msgType, fields, checksummed) && 7 <= |v| <= 10
    ensures Recognise(m).Valid? && Recognise(m).frame.Size() == |m| && m[..|m|] == m
    ensures ReadyToWalk(m, BeginCursor(Recognise(m).frame), msgType, fields, sum)
  {
    hide Written, Body, TrailerText, Recognise, TextAt;
    sum := WrittenPlaces(m, v, msgType, fields, checksummed);
    MessageRecognised(m, v, msgType, fields, checksummed);
    MessageOf(m);
    assert m[..|m|] == m;
  }

  /** Walking from the MsgType field on. */
  lemma WalkMessage(cfg: Config, m: bytes, c: Cursor, msgType: bytes, fields: seq<Push>, sum: byte)
    requires ReadyToWalk(m, c, msgType, fields, sum) && AllReadable(cfg, fields)
    ensures IsMessageBytes(m) && InMessage(m, c) && (forall i | 0 <= i < |fields| :: fields[i].IsField())
    ensures (forall i | 0 <= i < |Walk(cfg, m, c)| :: InMessage(m, Walk(cfg, m, c)[i]))
    ensures Entries(m, Walk(cfg, m, c)) == [Entry(MSG_TYPE_TAG, msgType)] + PushedEntries(fields)
  {
    hide Walk, Next, PushedEntries, Body, TrailerText, TextAt, AllReadable;
    WalkPushed(cfg, m, c, fields, sum);
    WalkStep(cfg, m, c);
    EntriesStep(m, c, Walk(cfg, m, Next(cfg, m, c)));
  }

  /** Iterating a written message reports MsgType and then the pushed fields. */
  lemma MessageFields(cfg: Config, m: bytes, v: bytes, msgType: bytes, fields: seq<Push>, checksummed: bool)
    requires Written(m, v, msgType, fields, checksummed) && 7 <= |v| <= 10 && AllReadable(cfg, fields)
    ensures forall i | 0 <= i < |fields| :: fields[i].IsField()
    ensures Recognise(m).Valid? && ReadEntries(cfg, m) == [Entry(MSG_TYPE_TAG, msgType)] + PushedEntries(fields)
  {
    hide Written, Recognise, ReadyToWalk, Walk, Entries, PushedEntries, AllReadable;
    var sum := WrittenIsReady(m, v, msgType, fields, checksummed);
    WalkMessage(cfg, m, BeginCursor(Recognise(m).frame), msgType, fields, sum);
  }

  /**
   The round trip. When a header-first run of the writer succeeds, with a SOH-free
   BeginString and MsgType first, the reader finds a complete, valid frame exactly when
   the BeginString has 7 to 10 bytes; it then ends where the writer ended, and iterates
   exactly the pushed tags and values, with the length fields hidden.
   */
  lemma WriteThenRead(cfg: Config, capacity: nat, v: bytes, msgType: bytes, fields: seq<Push>, checksummed: bool,
                      gaps: seq<bytes>)
    requires SohFree(v) && SohFree(msgType) && AllReadable(cfg, fields)
    requires |gaps| == |fields| + 3 && (forall i | 0 <= i < |gaps| :: |gaps[i]| == 6)
    ensures var pushes := MessagePushes(v, [Text(MSG_TYPE_TAG, msgType)] + fields, checksummed);
            && (forall i | 0 <= i < |pushes| :: pushes[i].Valid())
            && var end := Run(Start(capacity), pushes, gaps);
               !end.error ==>
                 && !Recognise(end.written).Incomplete?
                 && (Recognise(end.written).Valid? <==> 7 <= |v| <= 10)
                 && (7 <= |v| <= 10 ==>
                       && Recognise(end.written).frame.Size() == |end.written|
                       && end.written[2..Recognise(end.written).frame.prefixEnd] == v
                       && ReadEntries(cfg, end.written) == [Entry(MSG_TYPE_TAG, msgType)] + PushedEntries(fields))
  {
    hide *;
    RunWritten(cfg, capacity, v, msgType, fields, checksummed, gaps);
    var m := Run(Start(capacity), MessagePushes(v, [Text(MSG_TYPE_TAG, msgType)] + fields, checksummed), gaps).written;
    if Written(m, v, msgType, fields, checksummed) {
      if 7 <= |v| <= 10 {
        MessageRecognised(m, v, msgType, fields, checksummed);
        MessageFields(cfg, m, v, msgType, fields, checksummed);
        BeginStringPlace(m, v, msgType, fields, checksummed);
        FrameOf(m);
      } else {
        OtherBeginString(m, v, msgType, fields, checksummed);
      }
    }
  }

  lemma FrameOf(m: bytes)
    requires Recognise(m).Valid?
    ensures Recognise(m).frame.Size() == Recognise(m).frame.checkSumAt + TRAILER_SIZE
  {
    hide Recognise;
  }

  /** A successful header-first run with MsgType first leaves a written message. */
  lemma RunWritten(cfg: Config, capacity: nat, v: bytes, msgType: bytes, fields: seq<Push>, checksummed: bool,
                   gaps: seq<bytes>)
    requires SohFree(v) && SohFree(msgType) && AllReadable(cfg, fields)
    requires |gaps| == |fields| + 3 && (forall i | 0 <= i < |gaps| :: |gaps[i]| == 6)
    ensures forall i | 0 <= i < |fields| :: fields[i].IsField()
    ensures var pushes := MessagePushes(v, [Text(MSG_TYPE_TAG, msgType)] + fields, checksummed);
            && |pushes| == |gaps| && (forall i | 0 <= i < |pushes| :: pushes[i].Valid())
            && var end := Run(Start(capacity), pushes, gaps);
               !end.error ==> Written(end.written, v, msgType, fields, checksummed)
  {
    var all := [Text(MSG_TYPE_TAG, msgType)] + fields;
    forall i | 0 <= i < |all|
      ensures all[i].IsField() && all[i].Valid()
    {
      assert i > 0 ==> all[i] == fields[i - 1];
    }
    hide Run, Body, MessageText, Push.Valid;
    MessageRun(capacity, v, all, checksummed, gaps);
  }

  // ----- messages whose first field is any field

  /** The bytes at the start of a body that the reader takes for MsgType. */
  predicate StartsMsgType(body: bytes) {
    |body| >= 2 && body[0] == DIGIT_3 && body[1] == DIGIT_5
  }

  /** Digits that start with 35: the tags 35, 350 to 359, 3500 and so on. */
  predicate ReadsAsMsgType(tag: int) {
    StartsMsgType(Utoa(ToUint32(tag)))
  }

  function FirstTagOf(push: Push): int
    requires push.IsField()
  {
    if push.Data? then push.lengthTag else push.tag
  }

  /** A body starts with the digits of its first tag. */
  lemma BodyStart(fields: seq<Push>)
    requires |fields| > 0 && forall i | 0 <= i < |fields| :: fields[i].IsField()
    ensures var digits := Utoa(ToUint32(FirstTagOf(fields[0])));
            |digits| + 2 <= |Body(fields)| && Body(fields)[..|digits|] == digits && Body(fields)[|digits|] == EQUALS
  {
    hide Push.Bytes, Utoa;
    var tag := FirstTagOf(fields[0]);
    var digits := Utoa(ToUint32(tag));
    BytesStart(fields[0]);
    assert TagText(tag) == digits + [EQUALS];
    hide TagText;
  }

  /** A field starts with its first tag. */
  lemma BytesStart(push: Push)
    requires push.IsField()
    ensures var opening := TagText(FirstTagOf(push));
            |push.Bytes()| > |opening| && push.Bytes()[..|opening|] == opening
  {
    hide TagText, Itoa, ToInt32, Push.Value;
  }

  /** Whether the body of a run starts like a MsgType field is decided by the first tag. */
  lemma StartOfBody(fields: seq<Push>)
    requires forall i | 0 <= i < |fields| :: fields[i].IsField()
    ensures StartsMsgType(Body(fields)) <==> |fields| > 0 && ReadsAsMsgType(FirstTagOf(fields[0]))
    ensures |Body(fields)| > 0 ==> |Body(fields)| >= 3 && Body(fields)[|Body(fields)| - 1] == SOH
    ensures StartsMsgType(Body(fields)) ==> |Body(fields)| >= 4
  {
    if |fields| > 0 {
      BodyStart(fields);
      BodyEndsSoh(fields);
      hide Body;
      var digits := Utoa(ToUint32(FirstTagOf(fields[0])));
      DigitsSohFree(digits);
      assert Body(fields)[0] == Body(fields)[..|digits|][0];
      if |digits| >= 2 {
        assert Body(fields)[1] == Body(fields)[..|digits|][1];
      }
    }
  }

  /** The verdict on a message, whatever its body. */
  lemma VerdictByBody(m: bytes, v: bytes, body: bytes, checksummed: bool)
    requires SohFree(v) && |body| <= MAX_BODY_LENGTH && m == MessageText(v, body, checksummed)
    requires |body| > 0 ==> |body| >= 3 && body[|body| - 1] == SOH
    requires StartsMsgType(body) ==> |body| >= 4
    requires |v| >= 2 || |body| == 0 || body[0] != DIGIT_9
    ensures !Recognise(m).Incomplete?
    ensures Recognise(m).Valid? <==> 7 <= |v| <= 10 && StartsMsgType(body)
  {
    hide MessageText, BodyLength, TrailerText, Head, InThree, TextAt, Checksum, Recognise;
    var digits, sum := AnyLayout(m, v, body, checksummed);
    if 7 <= |v| <= 10 && StartsMsgType(body) {
      PartsAreFrame(m, v, digits, body, sum);
    } else {
      AnyBytes(m, v, digits, body, sum);
      NotAFrame(m, |v|, digits);
    }
  }

  /** Where the bytes stand that decide against a message. */
  lemma AnyBytes(m: bytes, v: bytes, digits: bytes, body: bytes, sum: byte)
    requires InThree(m, Head(v, digits), body, TrailerText(sum)) && |Head(v, digits)| == |v| + 12
    requires SohFree(v) && |digits| == 6 && AllDigits(digits)
    ensures var n := |v|;
            && |m| == n + 12 + |body| + TRAILER_SIZE
            && m[n + 2] == SOH && m[n + 3] == DIGIT_9 && m[n + 11] == SOH && m[n + 5..n + 11] == digits
            && (forall i | 0 <= i < n + 11 && i != n + 2 :: m[i] != SOH)
            && (|body| >= 2 ==> m[n + 12] == body[0] && m[n + 13] == body[1])
            && (|body| == 0 ==> m[n + 12] == 0x31)
  {
    hide InThree, TextAt;
    DigitsSohFree(digits);
    HeadBytes(v, digits);
    var head := Head(v, digits);
    PiecesAt(m, head, body, TrailerText(sum));
    assert |m| == |head| + |body| + TRAILER_SIZE by { ThreeLength(m, head, body, TrailerText(sum)); }
    forall i | 0 <= i < |v| + 12
      ensures m[i] == head[i]
    {
      TextBytes(m, 0, head, i);
    }
    assert m[|v| + 5..|v| + 11] == head[|v| + 5..|v| + 11] == digits;
    if |body| >= 2 {
      TextBytes(m, |head|, body, |head|);
      TextBytes(m, |head|, body, |head| + 1);
    } else if |body| == 0 {
      TextBytes(m, |head|, TrailerText(sum), |head|);
    }
  }

  lemma ThreeLength(m: bytes, head: bytes, body: bytes, trailer: bytes)
    requires InThree(m, head, body, trailer)
    ensures |m| == |head| + |body| + |trailer|
  {
  }

  lemma NotAFrame(m: bytes, n: nat, digits: bytes)
    requires |m| >= n + 19 && |digits| == 6 && AllDigits(digits)
    requires m[n + 2] == SOH && m[n + 3] == DIGIT_9 && m[n + 11] == SOH && m[n + 5..n + 11] == digits
    requires forall i | 0 <= i < n + 11 && i != n + 2 :: m[i] != SOH
    requires n <= 1 ==> m[n + 12] != DIGIT_9
    requires 7 <= n <= 10 ==> !(m[n + 12] == DIGIT_3 && m[n + 13] == DIGIT_5)
    ensures Recognise(m).Invalid?
  {
    hide PrefixScan, LengthScan, BodyLength;
    if n <= 1 {
      PrefixFound(m, 9, n + 11);
    } else if 7 <= n <= 10 {
      PrefixFound(m, 9, n + 2);
      assert forall i | n + 5 <= i < n + 11 :: m[i] == digits[i - n - 5];
      LengthFound(m, n + 5, n + 11);
    } else {
      NoPrefix(m, 9);
    }
  }

  /**
   What the reader makes of any header-first run that succeeds: the message is complete,
   and it is valid exactly when the BeginString has 7 to 10 bytes and the digits of the
   first tag start with 35. (With a BeginString of at most one byte, a first tag that
   starts with 9 is set aside: it is taken for BodyLength.)
   */
  lemma FirstTagDecides(capacity: nat, v: bytes, fields: seq<Push>, checksummed: bool, gaps: seq<bytes>)
    requires SohFree(v) && AreFields(fields)
    requires |gaps| == |fields| + 2 && (forall i | 0 <= i < |gaps| :: |gaps[i]| == 6)
    requires |v| >= 2 || |fields| == 0 || Utoa(ToUint32(FirstTagOf(fields[0])))[0] != DIGIT_9
    ensures var pushes := MessagePushes(v, fields, checksummed);
            && (forall i | 0 <= i < |pushes| :: pushes[i].Valid())
            && var end := Run(Start(capacity), pushes, gaps);
               !end.error ==>
                 && !Recognise(end.written).Incomplete?
                 && (Recognise(end.written).Valid? <==>
                       7 <= |v| <= 10 && |fields| > 0 && ReadsAsMsgType(FirstTagOf(fields[0])))
  {
    MessageRun(capacity, v, fields, checksummed, gaps);
    hide Run, Body, MessageText, Recognise, StartsMsgType, ReadsAsMsgType;
    var end := Run(Start(capacity), MessagePushes(v, fields, checksummed), gaps);
    if !end.error {
      StartOfBody(fields);
      if |fields| > 0 {
        BodyStart(fields);
        var digits := Utoa(ToUint32(FirstTagOf(fields[0])));
        assert Body(fields)[0] == Body(fields)[..|digits|][0];
      } else {
        NoBody(fields);
      }
      VerdictByBody(end.written, v, Body(fields), checksummed);
    }
  }

  lemma NoBody(fields: seq<Push>)
    requires |fields| == 0
    ensures Body(fields) == []
  {
  }

  /** Such a message: without a BeginString, the first field is taken for BodyLength, and the frame is valid. */
  lemma LengthInTheBody(checksummed: bool)
    ensures Recognise(MessageText([], Body([Text(9, [DIGIT_5]), Text(MSG_TYPE_TAG, [0x41])]), checksummed)).Valid?
  {
    var inner: bytes := [DIGIT_3, DIGIT_5, EQUALS, 0x41, SOH];
    var body: bytes := [DIGIT_9, EQUALS, DIGIT_5, SOH] + inner;
    SmallBody();
    hide Body, MessageText, Head;
    var m := MessageText([], body, checksummed);
    var digits, sum := AnyLayout(m, [], body, checksummed);
    ShortParts(m, digits, inner, sum);
    hide Recognise;
    PartsRecognised(m, BEGIN_STRING_TAG + [SOH, DIGIT_9, EQUALS] + digits, EQUALS, [DIGIT_5], inner, TrailerText(sum), []);
  }

  lemma SmallBody()
    ensures Body([Text(9, [DIGIT_5]), Text(MSG_TYPE_TAG, [0x41])])
            == [DIGIT_9, EQUALS, DIGIT_5, SOH] + [DIGIT_3, DIGIT_5, EQUALS, 0x41, SOH]
  {
    var fields := [Text(9, [DIGIT_5]), Text(MSG_TYPE_TAG, [0x41])];
    assert Utoa(9) == [DIGIT_9];
    assert fields[0].Bytes() == [DIGIT_9, EQUALS, DIGIT_5, SOH];
    MsgTypeBytes([0x41]);
    hide Push.Bytes;
    assert Body(fields[1..]) == fields[1].Bytes() + Body([]);
    assert fields[1].Bytes() == [DIGIT_3, DIGIT_5, EQUALS, 0x41, SOH];
  }

  lemma ShortParts(m: bytes, digits: bytes, inner: bytes, sum: byte)
    requires |digits| == 6 && AllDigits(digits) && inner == [DIGIT_3, DIGIT_5, EQUALS, 0x41, SOH]
    requires InThree(m, Head([], digits), [DIGIT_9, EQUALS, DIGIT_5, SOH] + inner, TrailerText(sum))
    ensures FrameParts(m, BEGIN_STRING_TAG + [SOH, DIGIT_9, EQUALS] + digits, EQUALS, [DIGIT_5], inner,
                       TrailerText(sum), [])
  {
    DigitsSohFree(digits);
    TrailerEnd(sum);
    hide TrailerText;
    var prefix := BEGIN_STRING_TAG + [SOH, DIGIT_9, EQUALS] + digits;
    assert prefix[9..] == digits[4..];
    assert BodyLength([DIGIT_5]) == 5 by {
      assert DigitsValue([DIGIT_5][..0]) == 0;
      assert DigitsValue([DIGIT_5]) == 5;
    }
    hide BodyLength;
    assert Head([], digits) == prefix + [SOH];
    assert m == prefix + [SOH, DIGIT_9, EQUALS] + [DIGIT_5] + [SOH] + inner + TrailerText(sum) + [];
  }

  lemma BeginStringPlace(m: bytes, v: bytes, msgType: bytes, fields: seq<Push>, checksummed: bool)
    requires Written(m, v, msgType, fields, checksummed)
    ensures |v| + 2 <= |m| && m[2..|v| + 2] == v
  {
    hide Written, FullBody, Body, BodyLength, Checksum, TrailerText, Head, InThree, OpensWith;
    var digits, body, sum := Layout(m, v, msgType, fields, checksummed);
    PiecesAt(m, Head(v, digits), body, TrailerText(sum));
    HeadSplit(v, digits);
    assert m[0..|v| + 12][2..|v| + 2] == m[2..|v| + 2];
  }

  lemma HeadSplit(v: bytes, digits: bytes)
    ensures |Head(v, digits)| >= |v| + 2 && Head(v, digits)[2..|v| + 2] == v
  {
  }

  /**
   The checksum the reader computes over a written message is the one its trailer
   states, read with the reader's own unsigned parser.
   */
  lemma ChecksumAgrees(cfg: Config, m: bytes, v: bytes, msgType: bytes, fields: seq<Push>)
    requires Written(m, v, msgType, fields, true) && 7 <= |v| <= 10
    ensures var cs := |m| - TRAILER_SIZE;
            && cs >= 0 && Recognise(m).Valid? && Recognise(m).frame.checkSumAt == cs
            && Accumulated(m[cs + 3..cs + 6], 256, cfg.charSigned) == Checksum(m[..cs])
  {
    hide Written, Body, Checksum, Recognise, Accumulated, TrailerText, TextAt;
    var sum := WrittenPlaces(m, v, msgType, fields, true);
    ChecksumDigits(m, |m| - TRAILER_SIZE, sum, cfg.charSigned);
    MessageRecognised(m, v, msgType, fields, true);
  }

  lemma ChecksumDigits(m: bytes, cs: nat, sum: byte, charSigned: bool)
    requires TextAt(m, cs, TrailerText(sum))
    ensures Accumulated(m[cs + 3..cs + 6], 256, charSigned) == sum
  {
    hide Accumulated, Padded, DigitsValue, TrailerText;
    TrailerEnd(sum);
    assert m[cs + 3..cs + 6] == m[cs..cs + 7][3..6] == Padded(sum, 3);
    SmallPowers();
    PaddedValue(sum, 3, 1000);
    AccumulatedDigits(Padded(sum, 3), 256, charSigned);
    ModUnique(sum, 256, 0, sum);
  }

  // ----- typed values

  /** The reader's parser for the kind of field makes of the bytes what was pushed. */
  ghost predicate ParsesTo(push: Push, v: bytes, charSigned: bool) {
    match push
    case Text(_, value) => v == value
    case Data(_, _, value) => v == value
    case Char(_, c) => v == [c]
    case Integer(_, n, ty) => IntegerOf(v, ty) == Some(n)
    case Decimal(_, mantissa, exponent, ty) =>
      DecimalOf(v, ty) == Some((mantissa, if exponent <= 0 then exponent else 0))
    case DateOnly(_, date) =>
      Timestamps.DateFits(date) ==> |v| == 8 && Timestamps.ParseDate(v) == date
    case MonthYear(_, year, month) =>
      0 <= year < 10_000 && 0 <= month < 100 ==> Timestamps.ParseMonthYear(v) == Some((year, month))
    case TimeOnly(_, time, width) => TimeParsesTo(time, width, v, charSigned)
    case Stamp(_, date, time, width) =>
      Timestamps.DateFits(date) ==> StampParsesTo(date, time, width, v, charSigned)
    case _ => false
  }

  ghost predicate TimeParsesTo(time: Clock, width: nat, v: bytes, charSigned: bool) {
    && (width == 0 && Timestamps.PartsFit(time) ==>
          Timestamps.ParseTimeMillis(v, charSigned) == Some(time.(fraction := 0)))
    && (width == 3 && Timestamps.ClockFits(time, 1000) ==> Timestamps.ParseTimeMillis(v, charSigned) == Some(time))
    && (width == 9 && Timestamps.ClockFits(time, 1_000_000_000) ==>
          Timestamps.ParseTimeNanos(v, charSigned) == Some(time))
  }

  /** Part by part, and as the ticks counted if the date is in the supported range. */
  ghost predicate StampParsesTo(date: Date, time: Clock, width: nat, v: bytes, charSigned: bool) {
    var seconds := Timestamps.SecondsOf(CivilCalendar.DayNumber(date), time);
    && (width == 0 && Timestamps.PartsFit(time) ==>
          && Timestamps.ParseStampMillis(v, charSigned) == Some((date, time.(fraction := 0)))
          && (Timestamps.InSupportedRange(date) ==> Timestamps.ParseEpochMillis(v, charSigned) == Some(seconds * 1000)))
    && (width == 3 && Timestamps.ClockFits(time, 1000) ==>
          && Timestamps.ParseStampMillis(v, charSigned) == Some((date, time))
          && (Timestamps.InSupportedRange(date) ==>
                Timestamps.ParseEpochMillis(v, charSigned) == Some(seconds * 1000 + time.fraction)))
    && (width == 9 && Timestamps.ClockFits(time, 1_000_000_000) ==>
          && Timestamps.ParseStampNanos(v, charSigned) == Some((date, time))
          && (Timestamps.InSupportedRange(date) ==>
                Timestamps.ParseEpochNanos(v, charSigned) == Some(seconds * 1_000_000_000 + time.fraction)))
  }

  lemma StampRead(date: Date, time: Clock, width: nat, charSigned: bool)
    requires Timestamps.DateFits(date) && (width == 0 || width == 3 || width == 9)
    ensures StampParsesTo(date, time, width, Timestamps.StampText(date, time, width), charSigned)
  {
    hide Timestamps.StampText, Timestamps.ParseStampMillis, Timestamps.ParseStampNanos, CivilCalendar.DayNumber;
    hide Timestamps.ParseEpochMillis, Timestamps.ParseEpochNanos;
    Timestamps.StampPartsRead(date, time, charSigned);
    Timestamps.EpochOfParts(Timestamps.StampText(date, time, width), charSigned);
  }

  lemma TimeRead(time: Clock, width: nat, charSigned: bool)
    ensures TimeParsesTo(time, width, Timestamps.TimeText(time, width), charSigned)
  {
    hide Timestamps.TimeText, Timestamps.ParseTimeMillis, Timestamps.ParseTimeNanos;
    if Timestamps.PartsFit(time) {
      Timestamps.SecondsTextRead(time, charSigned);
    }
    if Timestamps.ClockFits(time, 1000) {
      Timestamps.MillisTextRead(time, charSigned);
    }
    if Timestamps.ClockFits(time, 1_000_000_000) {
      Timestamps.NanosTextRead(time, charSigned);
    }
  }

  /** The value bytes of a push parse to what was pushed. */
  lemma ValueParses(push: Push, charSigned: bool)
    requires push.IsField() && push.Valid()
    ensures ParsesTo(push, push.Value(), charSigned)
  {
    hide Itoa, DtoaIn, IntegerOf, DecimalOf, TimeParsesTo, StampParsesTo, CountOverflows;
    hide Timestamps.DateText, Timestamps.TimeText, Timestamps.StampText, Timestamps.MonthYearText;
    hide Timestamps.ParseDate, Timestamps.ParseEpochMillis, Timestamps.ParseEpochNanos, Timestamps.ParseMonthYear;
    match push {
      case Integer(_, n, ty) => IntegerRoundTrip(n, ty);
      case Decimal(_, mantissa, exponent, ty) => DecimalRoundTrip(mantissa, exponent, ty);
      case DateOnly(_, date) =>
        if Timestamps.DateFits(date) {
          Timestamps.DateDigits(date);
        }
      case MonthYear(_, year, month) =>
        if 0 <= year < 10_000 && 0 <= month < 100 {
          Timestamps.MonthYearRead(year, month);
        }
      case TimeOnly(_, time, width) => TimeRead(time, width, charSigned);
      case Stamp(_, date, time, width) =>
        if Timestamps.DateFits(date) {
          StampRead(date, time, width, charSigned);
        }
      case _ =>
    }
  }

  lemma {:induction false} PushedAt(fields: seq<Push>, i: nat)
    requires i < |fields| && forall j | 0 <= j < |fields| :: fields[j].IsField()
    ensures PushedEntries(fields)[i] == PushedEntry(fields[i])
  {
    if |fields| > 1 {
      PushedAt(fields[1..], if i > 0 then i - 1 else 0);
    }
  }

  /**
   A message read back value by value: behind MsgType, the fields are the pushed ones, in
   order, and the reader's parsers make of their bytes what was pushed.
   */
  lemma TypedWriteThenRead(cfg: Config, capacity: nat, v: bytes, msgType: bytes, fields: seq<Push>, checksummed: bool,
                           gaps: seq<bytes>)
    requires SohFree(v) && SohFree(msgType) && AllReadable(cfg, fields) && 7 <= |v| <= 10
    requires |gaps| == |fields| + 3 && (forall i | 0 <= i < |gaps| :: |gaps[i]| == 6)
    ensures var pushes := MessagePushes(v, [Text(MSG_TYPE_TAG, msgType)] + fields, checksummed);
            && (forall i | 0 <= i < |pushes| :: pushes[i].Valid())
            && var m := Run(Start(capacity), pushes, gaps);
               !m.error ==>
                 && Recognise(m.written).Valid?
                 && var read := ReadEntries(cfg, m.written);
                    && |read| == |fields| + 1
                    && forall i | 0 <= i < |fields| ::
                         read[i + 1].tag == fields[i].tag && ParsesTo(fields[i], read[i + 1].value, cfg.charSigned)
  {
    hide Run, Recognise, ReadEntries, ParsesTo, Push.Value, Push.Valid, PushedEntries;
    WriteThenRead(cfg, capacity, v, msgType, fields, checksummed, gaps);
    forall i | 0 <= i < |fields|
      ensures PushedEntries(fields)[i].tag == fields[i].tag
      ensures ParsesTo(fields[i], PushedEntries(fields)[i].value, cfg.charSigned)
    {
      assert Readable(cfg, fields[i]);
      PushedAt(fields, i);
      ValueParses(fields[i], cfg.charSigned);
    }
  }

  /** `push_back_timestamp_epoch_millis` and `_nanos` */
  function EpochMillisPush(tag: int, epoch: nat): (r: Push)
    ensures r.Stamp? && r.IsField()
  {
    var (date, t) := Timestamps.SplitTicks(epoch, 1000);
    Stamp(tag, date, t, 3)
  }

  function EpochNanosPush(tag: int, epoch: nat): (r: Push)
    ensures r.Stamp? && r.IsField()
  {
    var (date, t) := Timestamps.SplitTicks(epoch, 1_000_000_000);
    Stamp(tag, date, t, 9)
  }

  lemma EpochValues(tag: int, epoch: nat)
    ensures EpochMillisPush(tag, epoch).Value() == Timestamps.EpochMillisText(epoch)
    ensures EpochNanosPush(tag, epoch).Value() == Timestamps.EpochNanosText(epoch)
  {
    hide Timestamps.SplitTicks, Timestamps.StampText;
  }

  /** The value of a pushed epoch count parses to the count exactly up to the end of the last supported year. */
  lemma EpochsRead(tag: int, epoch: nat, charSigned: bool)
    requires IsInt64(epoch)
    ensures Timestamps.ParseEpochMillis(EpochMillisPush(tag, epoch).Value(), charSigned) == Some(epoch) <==>
            epoch < Timestamps.EndOfRange(1000)
    ensures Timestamps.ParseEpochNanos(EpochNanosPush(tag, epoch).Value(), charSigned) == Some(epoch) <==>
            epoch < Timestamps.EndOfRange(1_000_000_000)
  {
    hide *;
    EpochValues(tag, epoch);
    Timestamps.EpochMillisRoundTrip(epoch, charSigned);
    Timestamps.EpochNanosRoundTrip(epoch, charSigned);
  }
}
