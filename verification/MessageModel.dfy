/**
 The message writer as a state machine: every `push_back_*` call is a `Push`, and
 `Apply` says what it does to the bytes written so far, to the remembered place of
 the BodyLength digits, and to the sticky error flag. The theorems are about whole
 runs of calls.
 */
module MessageModel {
  import opened Bytes
  import opened Digits
  import opened IntegerCodec
  import opened DecimalCodec
  import CivilCalendar
  import Timestamps

  type Date = CivilCalendar.Date
  type Clock = Timestamps.Clock

  datatype State = State(written: bytes, capacity: nat, bodyLengthAt: Option<nat>, error: bool)

  datatype Push =
    | Header(beginString: bytes)
    | Text(tag: int, value: bytes)
    | Char(tag: int, c: byte)
    | Integer(tag: int, n: int, ty: IntType)
    | Decimal(tag: int, mantissa: int, exponent: int, ty: IntType)
    | DateOnly(tag: int, date: Date)
    | MonthYear(tag: int, year: int, month: int)
    | TimeOnly(tag: int, time: Clock, width: nat)
    | Stamp(tag: int, date: Date, time: Clock, width: nat)
    | Data(lengthTag: int, tag: int, value: bytes)
    | BackwardData
    | Trailer(checksummed: bool)
  {
    /** A push that appends a field. */
    predicate IsField() {
      !Header? && !BackwardData? && !Trailer?
    }

    /**
     What the caller's types guarantee, the three widths of a fraction, and the
     exponents for which the space reserved for a decimal is enough.
     */
    ghost predicate Valid() {
      && (IsField() ==> IsInt32(tag))
      && (Data? ==> IsInt32(lengthTag))
      && (Integer? ==> ty.Valid() && ty.Fits(n))
      && (Decimal? ==>
            ty.Valid() && ty.signed && ty.Fits(mantissa) && ty.Fits(exponent) && InReserve(mantissa, exponent, ty))
      && (TimeOnly? || Stamp? ==> width == 0 || width == 3 || width == 9)
    }

    /** The value bytes of the field. */
    function Value(): bytes
      requires IsField()
    {
      match this
      case Text(_, value) => value
      case Char(_, c) => [c]
      case Integer(_, n, _) => Itoa(n)
      case Decimal(_, mantissa, exponent, ty) => DtoaIn(mantissa, exponent, ty)
      case DateOnly(_, date) => Timestamps.DateText(date)
      case MonthYear(_, year, month) => Timestamps.MonthYearText(year, month)
      case TimeOnly(_, time, width) => Timestamps.TimeText(time, width)
      case Stamp(_, date, time, width) => Timestamps.StampText(date, time, width)
      case Data(_, _, value) => value
    }

    /** All bytes the push appends, length field included. */
    function Bytes(): bytes
      requires IsField()
    {
      (if Data? then FieldText(lengthTag, Itoa(ToInt32(|value|))) else []) + FieldText(tag, Value())
    }

    /** The space the writer insists on before it starts to write the field. */
    function Need(): nat
      requires IsField()
    {
      MAX_INT_CHARS + 1 +
      (match this
       case Text(_, value) => |value|
       case Char(_, _) => 1
       case Integer(_, _, ty) => ty.digits10 + 2
       case Decimal(_, _, _, ty) => ty.digits10 + 2 + 1
       case DateOnly(_, _) => 8
       case MonthYear(_, _, _) => 6
       case TimeOnly(_, _, width) => if width == 0 then 8 else if width == 3 then 12 else 18
       case Stamp(_, _, _, width) => if width == 0 then 17 else if width == 3 then 21 else 27
       case Data(_, _, value) => MAX_INT_CHARS + 1 + MAX_INT_CHARS + 1 + |value|) + 1
    }
  }

  /** `max_ascii_chars<int>` */
  const MAX_INT_CHARS := 11
  const MAX_BODY_LENGTH := 999_999
  const TRAILER_SIZE := 7

  function TagText(tag: int): bytes {
    Utoa(ToUint32(tag)) + [EQUALS]
  }

  /** `tag=value<SOH>` */
  function FieldText(tag: int, value: bytes): bytes {
    TagText(tag) + value + [SOH]
  }

  const BEGIN_STRING_TAG: bytes := [0x38, EQUALS]
  const BODY_LENGTH_TAG: bytes := [0x39, EQUALS]
  const CHECKSUM_TAG: bytes := [0x31, 0x30, EQUALS]

  /** Everything before the BodyLength digits. */
  function HeaderStart(beginString: bytes): bytes {
    BEGIN_STRING_TAG + beginString + [SOH] + BODY_LENGTH_TAG
  }

  function ByteSum(s: bytes): nat {
    if |s| == 0 then 0 else ByteSum(s[..|s| - 1]) + s[|s| - 1]
  }

  /** The FIX checksum: the byte sum modulo 256. */
  function Checksum(s: bytes): (r: byte) {
    ByteSum(s) % 256
  }

  lemma ChecksumStep(s: bytes, i: nat)
    requires i < |s|
    ensures Checksum(s[..i + 1]) == (Checksum(s[..i]) + s[i]) % 256
  {
    assert s[..i + 1][..i] == s[..i];
  }

  lemma {:induction false} ByteSumParts(a: bytes, b: bytes)
    ensures ByteSum(a + b) == ByteSum(a) + ByteSum(b)
  {
    if |b| == 0 {
      assert a + b == a;
    } else {
      assert (a + b)[..|a + b| - 1] == a + b[..|b| - 1];
      ByteSumParts(a, b[..|b| - 1]);
    }
  }

  /** The checksum of nothing, of one byte, and of two parts. */
  lemma ChecksumParts(x: byte, a: bytes, b: bytes)
    ensures Checksum([]) == 0 && Checksum([x]) == x
    ensures Checksum(a + b) == (Checksum(a) + Checksum(b)) % 256
  {
    ByteSumParts(a, b);
    OneByteSum(x);
    hide ByteSum;
  }

  lemma OneByteSum(x: byte)
    ensures ByteSum([]) == 0 && ByteSum([x]) == x
  {
    assert [x][..0] == [];
  }

  /** `checksum_bytes`: the byte sum, wrapping at 256. */
  method ChecksumBytes(s: bytes) returns (sum: byte)
    ensures sum == Checksum(s)
  {
    sum := 0;
    assert Checksum(s[..0]) == 0;
    hide Checksum;
    var i := 0;
    while i < |s|
      invariant 0 <= i <= |s| && sum == Checksum(s[..i])
    {
      ChecksumStep(s, i);
      sum := (sum + s[i]) % 256;
      i := i + 1;
    }
    assert s[..i] == s;
  }

  function TrailerText(checksum: byte): (r: bytes)
    ensures |r| == TRAILER_SIZE
  {
    CHECKSUM_TAG + Padded(checksum, 3) + [SOH]
  }

  function Start(capacity: nat): (st: State)
    ensures Inv(st) && |st.written| == 0 && st.capacity == capacity && st.bodyLengthAt.None? && !st.error
  {
    State([], capacity, None, false)
  }

  ghost predicate Inv(st: State) {
    && |st.written| <= st.capacity
    && (st.bodyLengthAt.Some? ==> st.bodyLengthAt.value + 7 <= |st.written|)
  }

  /**
   The effect of one call. The six digits a header leaves unwritten keep what the
   buffer held before; `gap` stands for those bytes.
   */
  function Apply(st: State, push: Push, gap: bytes): State
    requires |gap| == 6
    requires st.bodyLengthAt.Some? ==> st.bodyLengthAt.value + 7 <= |st.written| <= st.capacity
    requires |st.written| <= st.capacity
  {
    if st.error then st
    else match push
      case BackwardData => st.(error := true)
      case Header(v) =>
        if st.bodyLengthAt.Some? || st.capacity - |st.written| < 2 + |v| + 3 + 7 then st.(error := true)
        else
          var start := st.written + HeaderStart(v);
          st.(written := start + gap + [SOH], bodyLengthAt := Some(|start|))
      case Trailer(checksummed) => ApplyTrailer(st, checksummed)
      case _ =>
        if st.capacity - |st.written| < push.Need() then st.(error := true)
        else st.(written := st.written + push.Bytes())
  }

  function ApplyTrailer(st: State, checksummed: bool): State
    requires st.bodyLengthAt.Some? ==> st.bodyLengthAt.value + 7 <= |st.written|
    requires |st.written| <= st.capacity
  {
    if st.bodyLengthAt.None? then st.(error := true)
    else
      var at := st.bodyLengthAt.value;
      var length := |st.written| - (at + 7);
      if length > MAX_BODY_LENGTH then st.(error := true)
      else
        var patched := Splice(st.written, at, Padded(length, 6));
        if st.capacity - |st.written| < TRAILER_SIZE then st.(written := patched, error := true)
        else st.(written := patched + TrailerText(if checksummed then Checksum(patched) else 0))
  }

  /** A call that leaves no digits unwritten has no gap to fill. */
  const NO_GAP: bytes := [0, 0, 0, 0, 0, 0]

  /** The six bytes before the SOH that ends at `at`. */
  function GapBefore(contents: bytes, at: nat): (gap: bytes)
    ensures |gap| == 6
  {
    if 7 <= at <= |contents| then contents[at - 7..at - 1] else NO_GAP
  }

  // ----- the reserved space covers what is written

  lemma TagLength(tag: int)
    ensures |TagText(tag)| <= MAX_INT_CHARS
  {
    SmallPowers();
    assert Pow10(10) == 10 * Pow10(9);
    UtoaLength(ToUint32(tag), 10);
  }

  /** No push writes more than the space it checked for. */
  lemma NeedCovers(push: Push)
    requires push.IsField() && push.Valid()
    ensures |push.Bytes()| <= push.Need()
  {
    hide Utoa, Itoa, DtoaIn, Pow10;
    TagLength(push.tag);
    match push
    case Integer(_, n, ty) => IntegerLength(n, ty);
    case Decimal(_, mantissa, exponent, ty) => DecimalLength(mantissa, exponent, ty);
    case Data(lengthTag, _, value) =>
      TagLength(lengthTag);
      StandardTypes();
      IntegerLength(ToInt32(|value|), INT32);
    case _ =>
  }

  // ----- what every call keeps

  /** `later` may differ from `st` in the bytes already written only inside the BodyLength digits. */
  ghost predicate Extends(st: State, later: State) {
    && |st.written| <= |later.written| && later.capacity == st.capacity
    && (st.bodyLengthAt.Some? ==> later.bodyLengthAt == st.bodyLengthAt)
    && (st.bodyLengthAt.None? && later.bodyLengthAt.Some? ==> later.bodyLengthAt.value >= |st.written|)
    && (st.error ==> later == st)
    && forall i | 0 <= i < |st.written| ::
         later.written[i] == st.written[i]
         || (st.bodyLengthAt.Some? && st.bodyLengthAt.value <= i < st.bodyLengthAt.value + 6)
  }

  /** A field push is all or nothing. */
  lemma FieldStep(st: State, push: Push, gap: bytes)
    requires Inv(st) && push.IsField() && |gap| == 6
    ensures var next := Apply(st, push, gap);
            && (next == st.(error := true) || (!next.error && next == st.(written := st.written + push.Bytes())))
            && (st.error ==> next.error)
            && (!st.error ==> (next.error <==> st.capacity - |st.written| < push.Need()))
  {
    hide Push.Bytes, Push.Need;
  }

  /**
   When a call fails: a second header, a backward range, a trailer without header or behind
   too long a body, and any call that does not find the space it insists on.
   */
  lemma WhenCallsFail(st: State, push: Push, gap: bytes)
    requires Inv(st) && !st.error && |gap| == 6 && push.Valid()
    ensures var room := st.capacity - |st.written|;
            Apply(st, push, gap).error <==>
            match push
            case Header(v) => st.bodyLengthAt.Some? || room < |v| + 12
            case BackwardData => true
            case Trailer(_) =>
              st.bodyLengthAt.None? || |st.written| - (st.bodyLengthAt.value + 7) > 999_999 || room < 7
            case Text(_, value) => room < |value| + 13
            case Char(_, _) => room < 14
            case Integer(_, _, ty) => room < ty.digits10 + 15
            case Decimal(_, _, _, ty) => room < ty.digits10 + 16
            case DateOnly(_, _) => room < 21
            case MonthYear(_, _, _) => room < 19
            case TimeOnly(_, _, width) => room < (if width == 0 then 21 else if width == 3 then 25 else 31)
            case Stamp(_, _, _, width) => room < (if width == 0 then 30 else if width == 3 then 34 else 40)
            case Data(_, _, value) => room < |value| + 37
  {
    hide Push.Bytes, HeaderStart, Checksum, Padded, TrailerText, Splice;
  }

  /** A failing trailer: without header or behind too long a body nothing but the flag changes; for
      want of room the six digits have been written, and nothing else. */
  lemma FailedTrailer(st: State, checksummed: bool, gap: bytes)
    requires Inv(st) && !st.error && |gap| == 6 && Apply(st, Trailer(checksummed), gap).error
    ensures var end := Apply(st, Trailer(checksummed), gap);
            if st.bodyLengthAt.None? || |st.written| - (st.bodyLengthAt.value + 7) > 999_999 then end == st.(error := true)
            else
              var at := st.bodyLengthAt.value;
              && end == st.(written := end.written, error := true) && |end.written| == |st.written|
              && end.written[..at] == st.written[..at] && end.written[at + 6..] == st.written[at + 6..]
              && AllDigits(end.written[at..at + 6])
              && DigitsValue(end.written[at..at + 6]) == |st.written| - (at + 7)
  {
    hide *;
    ErrorsStick(st, checksummed, gap);
    FailedCases(st, checksummed);
    if st.bodyLengthAt.Some? && |st.written| - (st.bodyLengthAt.value + 7) <= 999_999 {
      var length := |st.written| - (st.bodyLengthAt.value + 7);
      SixDigits(length);
      SplicedDigits(st.written, st.bodyLengthAt.value, Padded(length, 6));
    }
  }

  lemma SixDigits(n: nat)
    requires n <= 999_999
    ensures |Padded(n, 6)| == 6 && AllDigits(Padded(n, 6)) && DigitsValue(Padded(n, 6)) == n
  {
    SmallPowers();
    PaddedValue(n, 6, 1_000_000);
    hide Padded, DigitsValue;
  }

  lemma FailedCases(st: State, checksummed: bool)
    requires Inv(st) && !st.error && ApplyTrailer(st, checksummed).error
    ensures ApplyTrailer(st, checksummed) ==
            if st.bodyLengthAt.None? || |st.written| - (st.bodyLengthAt.value + 7) > 999_999 then st.(error := true)
            else
              var at := st.bodyLengthAt.value;
              st.(written := Splice(st.written, at, Padded(|st.written| - (at + 7), 6)), error := true)
    ensures st.bodyLengthAt.Some? ==> st.bodyLengthAt.value + 7 <= |st.written|
  {
    hide Checksum, TrailerText, Splice, Padded;
  }

  lemma SplicedDigits(written: bytes, at: nat, digits: bytes)
    requires |digits| == 6 && at + 6 <= |written|
    ensures var end := Splice(written, at, digits);
            |end| == |written| && end[..at] == written[..at] && end[at..at + 6] == digits
            && end[at + 6..] == written[at + 6..]
  {
  }

  lemma TrailerStep(st: State, checksummed: bool)
    requires Inv(st) && !st.error
    ensures Inv(ApplyTrailer(st, checksummed)) && Extends(st, ApplyTrailer(st, checksummed))
  {
    hide Checksum, Padded, TrailerText;
  }

  lemma ApplyKeepsInv(st: State, push: Push, gap: bytes)
    requires Inv(st) && push.Valid() && |gap| == 6
    ensures Inv(Apply(st, push, gap)) && Extends(st, Apply(st, push, gap))
  {
    hide ApplyTrailer, HeaderStart, Push.Bytes, Push.Need;
    if push.IsField() {
      NeedCovers(push);
      FieldStep(st, push, gap);
      hide Apply;
    } else if push.Trailer? && !st.error {
      TrailerStep(st, push.checksummed);
    } else if push.Header? {
      assert |HeaderStart(push.beginString)| == |push.beginString| + 5 by {
        HeaderLength(push.beginString);
      }
    }
  }

  lemma HeaderLength(beginString: bytes)
    ensures |HeaderStart(beginString)| == |beginString| + 5
  {
  }

  /** A call that is not the trailer leaves every byte before the cursor as it was. */
  lemma OnlyTrailerPatches(st: State, push: Push, gap: bytes)
    requires Inv(st) && |gap| == 6 && !push.Trailer?
    ensures st.written <= Apply(st, push, gap).written
    ensures Apply(st, push, gap).error && !st.error ==> Apply(st, push, gap) == st.(error := true)
  {
    hide Push.Bytes, Push.Need;
  }

  /** The states a run of calls goes through; `gaps` supplies the unwritten digit bytes. */
  ghost function Run(st: State, pushes: seq<Push>, gaps: seq<bytes>): State
    requires Inv(st) && |gaps| == |pushes| && (forall i | 0 <= i < |pushes| :: pushes[i].Valid() && |gaps[i]| == 6)
    ensures Inv(Run(st, pushes, gaps))
    decreases |pushes|
  {
    if |pushes| == 0 then st
    else
      ApplyKeepsInv(st, pushes[0], gaps[0]);
      Run(Apply(st, pushes[0], gaps[0]), pushes[1..], gaps[1..])
  }

  /**
   Over every run of calls, in any order and on any buffer size: the cursor stays
   inside the buffer, nothing changes after an error, and a byte once written only
   ever changes inside the six BodyLength digits, and only if the run has a trailer.
   */
  lemma {:induction false} EveryRun(st: State, pushes: seq<Push>, gaps: seq<bytes>)
    requires Inv(st) && |gaps| == |pushes| && (forall i | 0 <= i < |pushes| :: pushes[i].Valid() && |gaps[i]| == 6)
    ensures var end := Run(st, pushes, gaps);
            && Inv(end) && Extends(st, end)
            && ((forall i | 0 <= i < |pushes| :: !pushes[i].Trailer?) ==> st.written <= end.written)
    decreases |pushes|
  {
    if |pushes| > 0 {
      var next := Apply(st, pushes[0], gaps[0]);
      ApplyKeepsInv(st, pushes[0], gaps[0]);
      if !pushes[0].Trailer? {
        OnlyTrailerPatches(st, pushes[0], gaps[0]);
      }
      EveryRun(next, pushes[1..], gaps[1..]);
      hide Apply;
      var end := Run(st, pushes, gaps);
      if forall i | 0 <= i < |pushes| :: !pushes[i].Trailer? {
        assert forall i | 0 <= i < |pushes[1..]| :: pushes[1..][i] == pushes[i + 1];
      }
      assert |next.written| <= |end.written|;
    }
  }

  lemma {:induction false} RunSplit(st: State, a: seq<Push>, b: seq<Push>, gaps: seq<bytes>)
    requires Inv(st) && |gaps| == |a| + |b|
    requires forall i | 0 <= i < |a + b| :: (a + b)[i].Valid() && |gaps[i]| == 6
    ensures (forall i | 0 <= i < |a| :: a[i].Valid()) && (forall i | 0 <= i < |b| :: b[i].Valid())
    ensures Run(st, a + b, gaps) == Run(Run(st, a, gaps[..|a|]), b, gaps[|a|..])
    decreases |a|
  {
    hide Apply, Run, Push.Valid;
    assert forall i | 0 <= i < |a| :: a[i] == (a + b)[i];
    assert forall i | 0 <= i < |b| :: b[i] == (a + b)[|a| + i];
    if |a| == 0 {
      assert a + b == b && gaps[0..] == gaps && a == [] && gaps[..0] == [];
      RunNothing(st);
    } else {
      var front := gaps[..|a|];
      RunStep(st, a + b, gaps);
      RunStep(st, a, front);
      assert (a + b)[1..] == a[1..] + b && (a + b)[0] == a[0] && front[0] == gaps[0];
      RunSplit(Apply(st, a[0], gaps[0]), a[1..], b, gaps[1..]);
      assert gaps[1..][..|a| - 1] == front[1..] && gaps[1..][|a| - 1..] == gaps[|a|..];
    }
  }

  lemma RunNothing(st: State)
    requires Inv(st)
    ensures Run(st, [], []) == st
  {
  }

  /** The first call of a run, and the rest. */
  lemma RunStep(st: State, pushes: seq<Push>, gaps: seq<bytes>)
    requires Inv(st) && |gaps| == |pushes| > 0
    requires forall i | 0 <= i < |pushes| :: pushes[i].Valid() && |gaps[i]| == 6
    ensures Inv(Apply(st, pushes[0], gaps[0]))
    ensures Run(st, pushes, gaps) == Run(Apply(st, pushes[0], gaps[0]), pushes[1..], gaps[1..])
  {
    ApplyKeepsInv(st, pushes[0], gaps[0]);
    hide Apply;
  }

  lemma RunOne(st: State, push: Push, gaps: seq<bytes>)
    requires Inv(st) && push.Valid() && |gaps| == 1 && |gaps[0]| == 6
    ensures Run(st, [push], gaps) == Apply(st, push, gaps[0])
  {
    RunStep(st, [push], gaps);
    hide Apply;
  }

  /** A run with one more call at its end. */
  lemma RunOneMore(st: State, pushes: seq<Push>, gaps: seq<bytes>, push: Push, gap: bytes)
    requires Inv(st) && |gaps| == |pushes| && push.Valid() && |gap| == 6
    requires forall i | 0 <= i < |pushes| :: pushes[i].Valid() && |gaps[i]| == 6
    ensures forall i | 0 <= i < |pushes + [push]| :: (pushes + [push])[i].Valid() && |(gaps + [gap])[i]| == 6
    ensures Run(st, pushes + [push], gaps + [gap]) == Apply(Run(st, pushes, gaps), push, gap)
  {
    RunSplit(st, pushes, [push], gaps + [gap]);
    hide Apply, Run;
    assert (gaps + [gap])[..|pushes|] == gaps && (gaps + [gap])[|pushes|..] == [gap];
    RunOne(Run(st, pushes, gaps), push, [gap]);
  }

  // ----- a message: header first, then fields, then one trailer

  ghost predicate AreFields(fields: seq<Push>) {
    forall i | 0 <= i < |fields| :: fields[i].IsField() && fields[i].Valid()
  }

  /** The bytes of a run of field pushes. */
  function Body(fields: seq<Push>): bytes
    requires forall i | 0 <= i < |fields| :: fields[i].IsField()
  {
    if |fields| == 0 then [] else fields[0].Bytes() + Body(fields[1..])
  }

  ghost function MessagePushes(beginString: bytes, fields: seq<Push>, checksummed: bool): seq<Push> {
    [Header(beginString)] + fields + [Trailer(checksummed)]
  }

  /** A run of fields either appends them all or ends in error. */
  lemma {:induction false} FieldsRun(st: State, fields: seq<Push>, gaps: seq<bytes>)
    requires Inv(st) && AreFields(fields) && |gaps| == |fields| && (forall i | 0 <= i < |gaps| :: |gaps[i]| == 6)
    ensures var end := Run(st, fields, gaps);
            && end.bodyLengthAt == st.bodyLengthAt && end.capacity == st.capacity
            && (!end.error ==> end.written == st.written + Body(fields))
            && (st.error ==> end.error)
    decreases |fields|
  {
    if |fields| == 0 {
      assert st.written + [] == st.written;
    } else {
      hide *;
      FirstField(fields);
      LaterGaps(gaps);
      RunStep(st, fields, gaps);
      FieldStep(st, fields[0], gaps[0]);
      FieldsRun(Apply(st, fields[0], gaps[0]), fields[1..], gaps[1..]);
      Regroup(st.written, fields[0].Bytes(), Body(fields[1..]));
    }
  }

  /** The first of some fields, and the rest. */
  lemma FirstField(fields: seq<Push>)
    requires AreFields(fields) && |fields| > 0
    ensures (forall i | 0 <= i < |fields| :: fields[i].IsField() && fields[i].Valid())
    ensures AreFields(fields[1..]) && (forall i | 0 <= i < |fields[1..]| :: fields[1..][i].IsField())
    ensures Body(fields) == fields[0].Bytes() + Body(fields[1..])
  {
    hide Push.Bytes, Push.Valid;
  }

  lemma LaterGaps(gaps: seq<bytes>)
    requires |gaps| > 0 && forall i | 0 <= i < |gaps| :: |gaps[i]| == 6
    ensures forall i | 0 <= i < |gaps[1..]| :: |gaps[1..][i]| == 6
  {
  }

  lemma Regroup(a: bytes, b: bytes, c: bytes)
    ensures (a + b) + c == a + (b + c)
  {
  }

  /** The whole message a successful header-first run leaves in the buffer. */
  function MessageText(beginString: bytes, body: bytes, checksummed: bool): bytes {
    var front := HeaderStart(beginString) + Padded(|body|, 6) + [SOH] + body;
    front + TrailerText(if checksummed then Checksum(front) else 0)
  }

  /** The three stretches of a message run. */
  lemma MessageStretches(st: State, beginString: bytes, fields: seq<Push>, checksummed: bool, gaps: seq<bytes>)
    requires Inv(st) && AreFields(fields)
    requires |gaps| == |fields| + 2 && (forall i | 0 <= i < |gaps| :: |gaps[i]| == 6)
    ensures var pushes := MessagePushes(beginString, fields, checksummed);
            && (forall i | 0 <= i < |pushes| :: pushes[i].Valid())
            && var begun := Apply(st, Header(beginString), gaps[0]);
               Inv(begun) &&
               var filled := Run(begun, fields, gaps[1..|fields| + 1]);
               Run(st, pushes, gaps) == Apply(filled, Trailer(checksummed), gaps[|fields| + 1])
  {
    var trailer := [Trailer(checksummed)];
    var pushes := MessagePushes(beginString, fields, checksummed);
    assert pushes == [Header(beginString)] + (fields + trailer);
    assert forall i | 0 <= i < |pushes| :: pushes[i].Valid();
    assert pushes[1..] == fields + trailer;
    RunStep(st, pushes, gaps);
    var begun := Apply(st, Header(beginString), gaps[0]);
    RunSplit(begun, fields, trailer, gaps[1..]);
    assert gaps[1..][..|fields|] == gaps[1..|fields| + 1];
    RunOne(Run(begun, fields, gaps[1..|fields| + 1]), Trailer(checksummed), gaps[1..][|fields|..]);
  }

  /**
   Trailer correctness: when the trailer of a header-first run succeeds, the six
   digits are the count of bytes between their SOH and `10=`, and the CheckSum is
   that of all bytes before it.
   */
  lemma MessageRun(capacity: nat, beginString: bytes, fields: seq<Push>, checksummed: bool, gaps: seq<bytes>)
    requires AreFields(fields)
    requires |gaps| == |fields| + 2 && (forall i | 0 <= i < |gaps| :: |gaps[i]| == 6)
    ensures var pushes := MessagePushes(beginString, fields, checksummed);
            && (forall i | 0 <= i < |pushes| :: pushes[i].Valid())
            && var end := Run(Start(capacity), pushes, gaps);
               !end.error ==>
                 && |Body(fields)| <= MAX_BODY_LENGTH
                 && end.written == MessageText(beginString, Body(fields), checksummed)
                 && |end.written| <= capacity
  {
    var start := Start(capacity);
    MessageStretches(start, beginString, fields, checksummed, gaps);
    var begun := Apply(start, Header(beginString), gaps[0]);
    var fieldGaps := gaps[1..|fields| + 1];
    FieldsRun(begun, fields, fieldGaps);
    OpenMessage(capacity, beginString, gaps[0]);
    hide Run, Apply, ApplyTrailer, MessageText;
    var filled := Run(begun, fields, fieldGaps);
    if !filled.error {
      CloseMessage(filled, beginString, gaps[0], Body(fields), checksummed);
    }
    ErrorsStick(filled, checksummed, gaps[|fields| + 1]);
  }

  lemma ErrorsStick(st: State, checksummed: bool, gap: bytes)
    requires Inv(st) && |gap| == 6
    ensures st.error ==> Apply(st, Trailer(checksummed), gap).error
    ensures !st.error ==> Apply(st, Trailer(checksummed), gap) == ApplyTrailer(st, checksummed)
  {
    hide ApplyTrailer;
  }

  lemma OpenMessage(capacity: nat, beginString: bytes, gap: bytes)
    requires |gap| == 6
    ensures var begun := Apply(Start(capacity), Header(beginString), gap);
            begun.error
            || begun == State(HeaderStart(beginString) + gap + [SOH], capacity, Some(|HeaderStart(beginString)|), false)
  {
    assert [] + HeaderStart(beginString) == HeaderStart(beginString);
    hide HeaderStart;
  }

  lemma CloseMessage(filled: State, beginString: bytes, gap: bytes, body: bytes, checksummed: bool)
    requires |gap| == 6 && Inv(filled) && !filled.error
    requires filled.written == HeaderStart(beginString) + gap + [SOH] + body
    requires filled.bodyLengthAt == Some(|HeaderStart(beginString)|)
    ensures var end := ApplyTrailer(filled, checksummed);
            !end.error ==>
              && |body| <= MAX_BODY_LENGTH
              && end.written == MessageText(beginString, body, checksummed)
              && |end.written| <= filled.capacity
  {
    hide Checksum, Padded, TrailerText, HeaderStart, Splice;
    PatchedFront(beginString, gap, body);
  }

  /** Patching the digits of an opened and filled message. */
  lemma PatchedFront(beginString: bytes, gap: bytes, body: bytes)
    requires |gap| == 6
    ensures var start := HeaderStart(beginString);
            var filled := start + gap + [SOH] + body;
            && |filled| - (|start| + 7) == |body|
            && forall digits: bytes | |digits| == 6 ::
                 Splice(filled, |start|, digits) == start + digits + [SOH] + body
  {
    var start := HeaderStart(beginString);
    var filled := start + gap + [SOH] + body;
    forall digits: bytes | |digits| == 6
      ensures Splice(filled, |start|, digits) == start + digits + [SOH] + body
    {
      assert filled[..|start|] == start && filled[|start| + 6..] == [SOH] + body;
    }
  }

  /** Whether every field finds the space it insists on at its own cursor. */
  predicate FieldsFit(fields: seq<Push>, at: nat, capacity: nat)
    requires forall i | 0 <= i < |fields| :: fields[i].IsField()
  {
    |fields| == 0
    || (at + fields[0].Need() <= capacity && FieldsFit(fields[1..], at + |fields[0].Bytes()|, capacity))
  }

  lemma {:induction false} FieldsRunFits(st: State, fields: seq<Push>, gaps: seq<bytes>)
    requires Inv(st) && AreFields(fields) && |gaps| == |fields| && (forall i | 0 <= i < |gaps| :: |gaps[i]| == 6)
    requires !st.error
    ensures !Run(st, fields, gaps).error <==> FieldsFit(fields, |st.written|, st.capacity)
    decreases |fields|
  {
    if |fields| > 0 {
      hide *;
      FirstField(fields);
      FirstFits(fields, |st.written|, st.capacity);
      LaterGaps(gaps);
      RunStep(st, fields, gaps);
      FieldStep(st, fields[0], gaps[0]);
      var next := Apply(st, fields[0], gaps[0]);
      FieldsRun(next, fields[1..], gaps[1..]);
      if !next.error {
        FieldsRunFits(next, fields[1..], gaps[1..]);
      }
    }
  }

  lemma FirstFits(fields: seq<Push>, at: nat, capacity: nat)
    requires |fields| > 0 && forall i | 0 <= i < |fields| :: fields[i].IsField()
    ensures FieldsFit(fields, at, capacity) <==>
            at + fields[0].Need() <= capacity && FieldsFit(fields[1..], at + |fields[0].Bytes()|, capacity)
  {
    hide Push.Need, Push.Bytes;
  }

  /**
   A message is written exactly when there is room for the header, each field finds
   the space it insists on, the body has at most 999999 bytes, and the trailer fits.
   */
  lemma MessageSucceeds(capacity: nat, beginString: bytes, fields: seq<Push>, checksummed: bool, gaps: seq<bytes>)
    requires AreFields(fields)
    requires |gaps| == |fields| + 2 && (forall i | 0 <= i < |gaps| :: |gaps[i]| == 6)
    ensures var pushes := MessagePushes(beginString, fields, checksummed);
            var body := |beginString| + 12;
            && (forall i | 0 <= i < |pushes| :: pushes[i].Valid())
            && (!Run(Start(capacity), pushes, gaps).error <==>
                  && body <= capacity
                  && FieldsFit(fields, body, capacity)
                  && |Body(fields)| <= MAX_BODY_LENGTH
                  && body + |Body(fields)| + TRAILER_SIZE <= capacity)
  {
    hide *;
    AllAreFields(fields);
    var start := Start(capacity);
    MessageStretches(start, beginString, fields, checksummed, gaps);
    var begun := Apply(start, Header(beginString), gaps[0]);
    var fieldGaps := gaps[1..|fields| + 1];
    HeaderRoom(capacity, beginString, gaps[0]);
    FieldsRun(begun, fields, fieldGaps);
    var filled := Run(begun, fields, fieldGaps);
    if !begun.error {
      FieldsRunFits(begun, fields, fieldGaps);
    }
    ErrorsStick(filled, checksummed, gaps[|fields| + 1]);
    if !filled.error {
      TrailerRoom(filled, |beginString| + 5, checksummed);
    }
  }

  lemma AllAreFields(fields: seq<Push>)
    requires AreFields(fields)
    ensures forall i | 0 <= i < |fields| :: fields[i].IsField() && fields[i].Valid()
  {
  }

  /** The header is written exactly when it has room. */
  lemma HeaderRoom(capacity: nat, beginString: bytes, gap: bytes)
    requires |gap| == 6
    ensures Inv(Start(capacity))
    ensures var begun := Apply(Start(capacity), Header(beginString), gap);
            && (!begun.error <==> |beginString| + 12 <= capacity)
            && begun.capacity == capacity
            && (!begun.error ==>
                  |begun.written| == |beginString| + 12 && begun.bodyLengthAt == Some(|beginString| + 5))
  {
    HeaderLength(beginString);
    hide HeaderStart;
  }

  /** The trailer is written exactly when the body is short enough and the trailer has room. */
  lemma TrailerRoom(filled: State, at: nat, checksummed: bool)
    requires Inv(filled) && !filled.error && filled.bodyLengthAt == Some(at)
    ensures !ApplyTrailer(filled, checksummed).error <==>
            |filled.written| - (at + 7) <= MAX_BODY_LENGTH && |filled.written| + TRAILER_SIZE <= filled.capacity
  {
    hide Checksum, Padded, TrailerText, Splice;
  }
}
