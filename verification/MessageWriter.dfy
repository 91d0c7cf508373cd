/**
 The message writer in place: a cursor over one byte array, the place of the
 BodyLength digits, and a sticky error flag. Every method refines one step of the
 writer's state machine.
 */
module MessageWriter {
  import opened Bytes
  import opened Digits
  import opened IntegerCodec
  import opened DecimalCodec
  import opened MessageModel
  import Timestamps

  class MessageWriter {
    const buffer: array<byte>
    var next: nat
    var bodyLengthAt: Option<nat>
    var error: bool

    ghost predicate Valid()
      reads this
    {
      next <= buffer.Length && (bodyLengthAt.Some? ==> bodyLengthAt.value + 7 <= next)
    }

    ghost function Abstract(): (st: State)
      requires Valid()
      reads this, buffer
      ensures Inv(st)
    {
      State(buffer[..next], buffer.Length, bodyLengthAt, error)
    }

    constructor (buffer: array<byte>)
      ensures Valid() && this.buffer == buffer && Abstract() == Start(buffer.Length)
    {
      this.buffer := buffer;
      next, bodyLengthAt, error := 0, None, false;
    }

    // ----- unchecked writes at the cursor

    /** Within a call: `text` has been written over `before` from `start` up to the cursor. */
    ghost predicate Wrote(before: bytes, start: nat, text: bytes)
      reads this, buffer
    {
      |before| == buffer.Length && next == start + |text| <= buffer.Length && buffer[..] == Splice(before, start, text)
    }

    /** `memcpy` to the cursor. */
    method PutBytes(ghost before: bytes, ghost start: nat, ghost text: bytes, x: bytes)
      requires Wrote(before, start, text) && next + |x| <= buffer.Length
      modifies this`next, buffer
      ensures Wrote(before, start, text + x)
    {
      ghost var entry := next;
      var i := 0;
      while i < |x|
        invariant 0 <= i <= |x| && next == entry + i
        invariant Wrote(before, start, text + x[..i])
      {
        assert text + x[..i] + [x[i]] == text + x[..i + 1];
        buffer[next] := x[i];
        next, i := next + 1, i + 1;
      }
      assert x[..i] == x;
    }

    method PutByte(ghost before: bytes, ghost start: nat, ghost text: bytes, c: byte)
      requires Wrote(before, start, text) && next < buffer.Length
      modifies this`next, buffer
      ensures Wrote(before, start, text + [c])
    {
      buffer[next] := c;
      next := next + 1;
    }

    method PutInteger(ghost before: bytes, ghost start: nat, ghost text: bytes, n: int)
      requires Wrote(before, start, text) && next + |Itoa(n)| <= buffer.Length
      modifies this`next, buffer
      ensures Wrote(before, start, text + Itoa(n))
    {
      hide Splice, Itoa;
      SpliceTwice(before, start, text, Itoa(n));
      next := ItoaUnchecked(buffer, next, n);
    }

    method PutDecimal(ghost before: bytes, ghost start: nat, ghost text: bytes, mantissa: int, exponent: int, ty: IntType)
      requires ty.Valid() && ty.signed && ty.Fits(mantissa) && ty.Fits(exponent)
      requires Wrote(before, start, text) && next + |DtoaIn(mantissa, exponent, ty)| <= buffer.Length
      modifies this`next, buffer
      ensures Wrote(before, start, text + DtoaIn(mantissa, exponent, ty))
    {
      hide Splice, DtoaIn;
      SpliceTwice(before, start, text, DtoaIn(mantissa, exponent, ty));
      next := DtoaUnchecked(buffer, next, mantissa, exponent, ty);
    }

    method PutPadded(ghost before: bytes, ghost start: nat, ghost text: bytes, x: int, width: nat)
      requires Wrote(before, start, text) && next + width <= buffer.Length
      modifies this`next, buffer
      ensures Wrote(before, start, text + Padded(x, width))
    {
      hide Splice, Padded;
      SpliceTwice(before, start, text, Padded(x, width));
      ItoaPaddedUnchecked(buffer, x, next, width);
      next := next + width;
    }

    /** `tag=` */
    method PutTag(ghost before: bytes, ghost start: nat, ghost text: bytes, tag: int)
      requires Wrote(before, start, text) && next + |TagText(tag)| <= buffer.Length
      modifies this`next, buffer
      ensures Wrote(before, start, text + TagText(tag))
    {
      PutInteger(before, start, text, ToUint32(tag));
      PutByte(before, start, text + Utoa(ToUint32(tag)), EQUALS);
      assert text + Utoa(ToUint32(tag)) + [EQUALS] == text + TagText(tag);
    }

    method PutDate(ghost before: bytes, ghost start: nat, ghost text: bytes, date: Date)
      requires Wrote(before, start, text) && next + 8 <= buffer.Length
      modifies this`next, buffer
      ensures Wrote(before, start, text + Timestamps.DateText(date))
    {
      hide Splice, Padded;
      var y, m, d := Padded(date.year, 4), Padded(date.month, 2), Padded(date.day, 2);
      PutPadded(before, start, text, date.year, 4);
      PutPadded(before, start, text + y, date.month, 2);
      PutPadded(before, start, text + y + m, date.day, 2);
      assert text + y + m + d == text + (y + m + d);
    }

    method PutMonthYear(ghost before: bytes, ghost start: nat, ghost text: bytes, year: int, month: int)
      requires Wrote(before, start, text) && next + 6 <= buffer.Length
      modifies this`next, buffer
      ensures Wrote(before, start, text + Timestamps.MonthYearText(year, month))
    {
      hide Splice, Padded;
      PutPadded(before, start, text, year, 4);
      PutPadded(before, start, text + Padded(year, 4), month, 2);
      assert text + Padded(year, 4) + Padded(month, 2) == text + (Padded(year, 4) + Padded(month, 2));
    }

    method PutClock(ghost before: bytes, ghost start: nat, ghost text: bytes, time: Clock)
      requires Wrote(before, start, text) && next + 8 <= buffer.Length
      modifies this`next, buffer
      ensures Wrote(before, start, text + Timestamps.ClockText(time))
    {
      hide Splice, Padded, Wrote;
      ghost var h, m, s := Padded(time.hour, 2), Padded(time.minute, 2), Padded(time.second, 2);
      assert next == start + |text| by { Cursor(before, start, text); }
      ghost var t := text;
      PutPadded(before, start, t, time.hour, 2);
      t := t + h;
      Cursor(before, start, t);
      PutByte(before, start, t, COLON);
      t := t + [COLON];
      Cursor(before, start, t);
      PutPadded(before, start, t, time.minute, 2);
      t := t + m;
      Cursor(before, start, t);
      PutByte(before, start, t, COLON);
      t := t + [COLON];
      Cursor(before, start, t);
      PutPadded(before, start, t, time.second, 2);
      assert t + s == text + (h + [COLON] + m + [COLON] + s);
    }

    method PutTime(ghost before: bytes, ghost start: nat, ghost text: bytes, time: Clock, width: nat)
      requires Wrote(before, start, text) && next + |Timestamps.TimeText(time, width)| <= buffer.Length
      modifies this`next, buffer
      ensures Wrote(before, start, text + Timestamps.TimeText(time, width))
    {
      hide Splice, Padded, Wrote, Timestamps.ClockText;
      assert next == start + |text| by { Cursor(before, start, text); }
      ghost var clock := Timestamps.ClockText(time);
      PutClock(before, start, text, time);
      if width == 0 {
        assert text + clock == text + Timestamps.TimeText(time, 0);
        return;
      }
      Cursor(before, start, text + clock);
      PutByte(before, start, text + clock, DOT);
      Cursor(before, start, text + clock + [DOT]);
      PutPadded(before, start, text + clock + [DOT], time.fraction, width);
      assert text + clock + [DOT] + Padded(time.fraction, width) == text + Timestamps.TimeText(time, width);
    }

    lemma Cursor(before: bytes, start: nat, text: bytes)
      requires Wrote(before, start, text)
      ensures next == start + |text| <= buffer.Length
    {
    }

    /** The value of a field whose space has been checked. */
    method PutValue(ghost before: bytes, ghost start: nat, ghost text: bytes, push: Push)
      requires push.IsField() && push.Valid() && Wrote(before, start, text)
      requires next + |push.Value()| <= buffer.Length
      modifies this`next, buffer
      ensures Wrote(before, start, text + push.Value())
    {
      hide Splice, Wrote, Itoa, DtoaIn, Padded;
      Cursor(before, start, text);
      match push {
        case Text(_, value) => PutBytes(before, start, text, value);
        case Char(_, c) => PutByte(before, start, text, c);
        case Integer(_, n, _) => PutInteger(before, start, text, n);
        case Decimal(_, mantissa, exponent, ty) => PutDecimal(before, start, text, mantissa, exponent, ty);
        case DateOnly(_, date) => PutDate(before, start, text, date);
        case MonthYear(_, year, month) => PutMonthYear(before, start, text, year, month);
        case TimeOnly(_, time, width) => PutTime(before, start, text, time, width);
        case Stamp(_, date, time, width) =>
          PutDate(before, start, text, date);
          ghost var day := text + Timestamps.DateText(date);
          Cursor(before, start, day);
          PutByte(before, start, day, MINUS);
          Cursor(before, start, day + [MINUS]);
          PutTime(before, start, day + [MINUS], time, width);
          assert day + [MINUS] + Timestamps.TimeText(time, width) == text + push.Value();
        case Data(_, _, value) => PutBytes(before, start, text, value);
      }
    }

    /** What a finished write means for the bytes before and behind the cursor. */
    lemma Appended(before: bytes, start: nat, text: bytes)
      requires Wrote(before, start, text)
      ensures buffer[..next] == before[..start] + text && buffer[next..] == before[next..]
    {
    }

    /** A field without further checks: tag, value, SOH. */
    method WriteField(push: Push)
      requires push.IsField() && push.Valid() && !push.Data? && next + |push.Bytes()| <= buffer.Length
      modifies this`next, buffer
      ensures next <= buffer.Length
      ensures buffer[..next] == old(buffer[..next]) + push.Bytes()
      ensures buffer[next..] == old(buffer[..])[next..]
    {
      ghost var before: bytes := buffer[..];
      ghost var start := next;
      ghost var text := TagText(push.tag);
      FieldLayout(push);
      hide Push.Bytes, Push.Value, TagText, Splice;
      SpliceNothing(before, start);
      PutTag(before, start, [], push.tag);
      assert [] + TagText(push.tag) == text;
      PutValue(before, start, text, push);
      PutByte(before, start, text + push.Value(), SOH);
      Appended(before, start, push.Bytes());
    }

    lemma FieldLayout(push: Push)
      requires push.IsField() && !push.Data?
      ensures push.Bytes() == TagText(push.tag) + push.Value() + [SOH]
    {
    }

    lemma DataLayout(lengthTag: int, tag: int, value: bytes)
      ensures Data(lengthTag, tag, value).Bytes()
              == TagText(lengthTag) + Itoa(ToInt32(|value|)) + [SOH] + TagText(tag) + value + [SOH]
    {
      hide TagText, Itoa, ToInt32;
    }

    /** The length field, then the data field. */
    method WriteData(lengthTag: int, tag: int, value: bytes)
      requires next + |Data(lengthTag, tag, value).Bytes()| <= buffer.Length
      modifies this`next, buffer
      ensures next <= buffer.Length
      ensures buffer[..next] == old(buffer[..next]) + Data(lengthTag, tag, value).Bytes()
      ensures buffer[next..] == old(buffer[..])[next..]
    {
      ghost var before: bytes := buffer[..];
      ghost var start := next;
      ghost var text: bytes := [];
      DataLayout(lengthTag, tag, value);
      SpliceNothing(before, start);
      assert Wrote(before, start, text);
      hide Push.Bytes, TagText, Itoa, Splice, ToInt32, Wrote;
      PutTag(before, start, text, lengthTag);
      assert [] + TagText(lengthTag) == TagText(lengthTag);
      text := TagText(lengthTag);
      Cursor(before, start, text);
      PutInteger(before, start, text, ToInt32(|value|));
      text := text + Itoa(ToInt32(|value|));
      Cursor(before, start, text);
      PutByte(before, start, text, SOH);
      text := text + [SOH];
      Cursor(before, start, text);
      PutTag(before, start, text, tag);
      text := text + TagText(tag);
      Cursor(before, start, text);
      PutBytes(before, start, text, value);
      text := text + value;
      Cursor(before, start, text);
      PutByte(before, start, text, SOH);
      Cursor(before, start, text + [SOH]);
      Appended(before, start, text + [SOH]);
    }

    /** `8=...<SOH>9=` */
    method WriteHeaderStart(v: bytes)
      requires next + |HeaderStart(v)| <= buffer.Length
      modifies this`next, buffer
      ensures Wrote(old(buffer[..]), old(next), HeaderStart(v))
    {
      ghost var before: bytes := buffer[..];
      ghost var start := next;
      ghost var text: bytes := [];
      SpliceNothing(before, start);
      assert Wrote(before, start, text);
      hide Splice, Wrote;
      PutBytes(before, start, text, BEGIN_STRING_TAG);
      assert [] + BEGIN_STRING_TAG == BEGIN_STRING_TAG;
      text := BEGIN_STRING_TAG;
      Cursor(before, start, text);
      PutBytes(before, start, text, v);
      text := text + v;
      Cursor(before, start, text);
      PutByte(before, start, text, SOH);
      text := text + [SOH];
      Cursor(before, start, text);
      PutBytes(before, start, text, BODY_LENGTH_TAG);
    }

    /** Moving the cursor past six bytes leaves them as they were. */
    method SkipDigits(ghost before: bytes, ghost start: nat, ghost text: bytes) returns (ghost digits: bytes)
      requires Wrote(before, start, text) && next + 6 <= buffer.Length
      modifies this`next
      ensures |digits| == 6 && Wrote(before, start, text + digits)
      ensures digits == before[next - 6..next]
    {
      digits := before[next..next + 6];
      next := next + 6;
    }

    /** The header with its digits skipped, then SOH. */
    method WriteHeader(v: bytes) returns (digitsAt: nat)
      requires next + |HeaderStart(v)| + 7 <= buffer.Length
      modifies this`next, buffer
      ensures next <= buffer.Length && digitsAt == old(next) + |HeaderStart(v)| == next - 7
      ensures buffer[..next] == old(buffer[..next]) + (HeaderStart(v) + GapBefore(old(buffer[..]), next) + [SOH])
      ensures buffer[next..] == old(buffer[..])[next..]
    {
      hide HeaderStart, Splice, Wrote;
      ghost var before: bytes := buffer[..];
      ghost var start := next;
      ghost var text := HeaderStart(v);
      WriteHeaderStart(v);
      Cursor(before, start, text);
      digitsAt := next;
      ghost var digits := SkipDigits(before, start, text);
      Cursor(before, start, text + digits);
      PutByte(before, start, text + digits, SOH);
      Cursor(before, start, text + digits + [SOH]);
      assert digits == GapBefore(before, next);
      Appended(before, start, text + digits + [SOH]);
    }

    /** The seven bytes of the trailer. */
    method WriteTrailer(ghost checksum: byte, checksummed: bool)
      requires next + TRAILER_SIZE <= buffer.Length
      requires checksum == if checksummed then Checksum(buffer[..next]) else 0
      modifies this`next, buffer
      ensures next <= buffer.Length
      ensures buffer[..next] == old(buffer[..next]) + TrailerText(checksum)
      ensures buffer[next..] == old(buffer[..])[next..]
    {
      ghost var before: bytes := buffer[..];
      ghost var start := next;
      SpliceNothing(before, start);
      hide Splice, Padded, Checksum;
      if checksummed {
        var sum := ChecksumBytes(buffer[..next]);
        PutBytes(before, start, [], CHECKSUM_TAG);
        assert [] + CHECKSUM_TAG == CHECKSUM_TAG;
        PutPadded(before, start, CHECKSUM_TAG, sum, 3);
        PutByte(before, start, CHECKSUM_TAG + Padded(sum, 3), SOH);
      } else {
        ZeroTrailer();
        PutBytes(before, start, [], [0x31, 0x30, 0x3D, 0x30, 0x30, 0x30, SOH]);
        assert [] + TrailerText(0) == TrailerText(0);
      }
      Appended(before, start, TrailerText(checksum));
    }

    // ----- the public calls

    /**
     `push_back_string`, `_char`, `_int`, `_decimal`, `_date`, `_monthyear`, `_timeonly`,
     `_timestamp`: one space check, then tag, value and SOH without further checks.
     */
    method PushField(push: Push)
      requires Valid() && push.Valid() && push.IsField() && !push.Data?
      modifies this, buffer
      ensures Valid() && Abstract() == Apply(old(Abstract()), push, NO_GAP)
      ensures buffer[next..] == old(buffer[..])[next..]
    {
      FieldStep(Abstract(), push, NO_GAP);
      hide Apply, Push.Bytes, Push.Need, Push.Valid, Push.Value;
      if error {
        return;
      }
      if buffer.Length - next < push.Need() {
        error := true;
        return;
      }
      NeedCovers(push);
      WriteField(push);
    }

    /** `push_back_data`: the length field, then the raw bytes of `source` from `begin` to `end`. */
    method PushData(lengthTag: int, tag: int, source: bytes, begin: nat, end: nat)
      requires Valid() && IsInt32(lengthTag) && IsInt32(tag) && begin <= |source| && end <= |source|
      modifies this, buffer
      ensures Valid()
      ensures Abstract() == Apply(old(Abstract()),
                                  if end < begin then BackwardData else Data(lengthTag, tag, source[begin..end]),
                                  NO_GAP)
      ensures buffer[next..] == old(buffer[..])[next..]
    {
      if error {
        return;
      }
      if end < begin {
        error := true;
        return;
      }
      var value := source[begin..end];
      ghost var push := Data(lengthTag, tag, value);
      assert push.Need() == MAX_INT_CHARS + 1 + MAX_INT_CHARS + 1 + MAX_INT_CHARS + 1 + |value| + 1;
      FieldStep(Abstract(), push, NO_GAP);
      NeedCovers(push);
      hide Apply, Push.Bytes, Push.Need, Push.Value;
      if buffer.Length - next < MAX_INT_CHARS + 1 + MAX_INT_CHARS + 1 + MAX_INT_CHARS + 1 + |value| + 1 {
        error := true;
        return;
      }
      WriteData(lengthTag, tag, value);
    }

    /** `push_back_header`: the BodyLength digits are skipped and remembered. */
    method PushHeader(v: bytes)
      requires Valid()
      modifies this, buffer
      ensures Valid()
      ensures Abstract() == Apply(old(Abstract()), Header(v), GapBefore(old(buffer[..]), next))
      ensures buffer[next..] == old(buffer[..])[next..]
    {
      if error {
        return;
      }
      if bodyLengthAt.Some? {
        error := true;
        return;
      }
      if buffer.Length - next < 2 + |v| + 3 + 7 {
        error := true;
        return;
      }
      ghost var st := Abstract();
      HeaderLength(v);
      hide HeaderStart, Apply;
      var digitsAt := WriteHeader(v);
      bodyLengthAt := Some(digitsAt);
      HeaderStep(st, v, GapBefore(old(buffer[..]), next));
      hide GapBefore;
    }

    lemma HeaderStep(st: State, v: bytes, gap: bytes)
      requires Inv(st) && |gap| == 6 && !st.error && st.bodyLengthAt.None?
      requires st.capacity - |st.written| >= 2 + |v| + 3 + 7
      ensures Apply(st, Header(v), gap) ==
              st.(written := st.written + (HeaderStart(v) + gap + [SOH]),
                  bodyLengthAt := Some(|st.written| + |HeaderStart(v)|))
    {
      hide HeaderStart;
      assert st.written + HeaderStart(v) + gap + [SOH] == st.written + (HeaderStart(v) + gap + [SOH]);
    }

    /** `push_back_trailer` */
    method PushTrailer(checksummed: bool) returns (ok: bool)
      requires Valid()
      modifies this, buffer
      ensures Valid() && Abstract() == Apply(old(Abstract()), Trailer(checksummed), NO_GAP)
      ensures ok == !error
      ensures buffer[next..] == old(buffer[..])[next..]
    {
      ErrorsStick(Abstract(), checksummed, NO_GAP);
      hide Apply, Padded, Checksum, TrailerText, Splice;
      if error {
        return false;
      }
      if bodyLengthAt.None? {
        error := true;
        return false;
      }
      var length := next - (bodyLengthAt.value + 7);
      if length > MAX_BODY_LENGTH {
        error := true;
        return false;
      }
      hide ApplyTrailer;
      ok := CloseMessage(length, checksummed);
    }

    /** The digits are patched before the room for the trailer is checked. */
    method CloseMessage(length: nat, checksummed: bool) returns (ok: bool)
      requires Valid() && !error && bodyLengthAt.Some?
      requires length == next - (bodyLengthAt.value + 7) <= MAX_BODY_LENGTH
      modifies this, buffer
      ensures Valid() && Abstract() == ApplyTrailer(old(Abstract()), checksummed)
      ensures ok == !error
      ensures buffer[next..] == old(buffer[..])[next..]
    {
      hide Padded, Checksum, TrailerText, Splice;
      ghost var st := Abstract();
      PatchBodyLength(bodyLengthAt.value, length);
      ghost var patched := Splice(st.written, st.bodyLengthAt.value, Padded(length, 6));
      if buffer.Length - next < TRAILER_SIZE {
        error := true;
        return false;
      }
      WriteTrailer(if checksummed then Checksum(patched) else 0, checksummed);
      return true;
    }

    /** The BodyLength digits, written into the place the header left for them. */
    method PatchBodyLength(at: nat, length: nat)
      requires at + 6 <= next <= buffer.Length
      modifies buffer
      ensures buffer[..next] == Splice(old(buffer[..next]), at, Padded(length, 6))
      ensures buffer[next..] == old(buffer[next..])
    {
      hide Padded, Splice;
      SpliceWithin(buffer[..], next, at, Padded(length, 6));
      assert buffer[..][..next] == buffer[..next] && buffer[..][next..] == buffer[next..];
      ItoaPaddedUnchecked(buffer, length, at, 6);
      assert buffer[..][..next] == buffer[..next] && buffer[..][next..] == buffer[next..];
    }
  }

  lemma ZeroTrailer()
    ensures TrailerText(0) == [0x31, 0x30, 0x3D, 0x30, 0x30, 0x30, SOH]
  {
    assert Padded(0, 1) == [ZERO];
    assert Padded(0, 2) == [ZERO, ZERO];
    assert Padded(0, 3) == [ZERO, ZERO, ZERO];
  }

  /** `itoa_padded_unchecked`, from the last digit to the first. */
  method ItoaPaddedUnchecked(buffer: array<byte>, x: int, at: nat, width: nat)
    requires at + width <= buffer.Length
    modifies buffer
    ensures buffer[..] == Splice(old(buffer[..]), at, Padded(x, width))
  {
    ghost var before: bytes := buffer[..];
    var e := at + width;
    var rest := x;
    ghost var out: bytes := [];
    SpliceNothing(before, e);
    hide Splice;
    while e > at
      invariant at <= e && e + |out| == at + width
      invariant Padded(x, width) == Padded(rest, e - at) + out
      invariant buffer[..] == Splice(before, e, out)
    {
      hide Padded;
      ghost var digit: byte := ZERO + TruncMod10(rest);
      PaddedLast(rest, e - at);
      assert Padded(TruncDiv10(rest), e - at - 1) + [digit] + out == Padded(TruncDiv10(rest), e - at - 1) + ([digit] + out);
      SpliceGrowFront(before, e - 1, digit, out);
      e := e - 1;
      buffer[e] := ZERO + TruncMod10(rest);
      out := [digit] + out;
      rest := TruncDiv10(rest);
    }
  }

  lemma PaddedLast(x: int, width: nat)
    requires width > 0
    ensures Padded(x, width) == Padded(TruncDiv10(x), width - 1) + [ZERO + TruncMod10(x)]
  {
  }

  /**
   `try_write_message`: a writer over the buffer, the caller's calls, the trailer.
   The body is the list of calls it makes.
   */
  method TryWriteMessage(buffer: array<byte>, body: seq<Push>) returns (end: Option<nat>)
    requires forall i | 0 <= i < |body| :: body[i].Valid()
    modifies buffer
    ensures exists gaps: seq<bytes> ::
              RanTo(buffer.Length, body, gaps, end, buffer[..])
  {
    var w := new MessageWriter(buffer);
    ghost var gaps := RunBody(w, body);
    hide Apply, Run;
    var ok := w.PushTrailer(true);
    RunOneMore(Start(buffer.Length), body, gaps, Trailer(true), NO_GAP);
    end := if ok then Some(w.next) else None;
    assert RanTo(buffer.Length, body, gaps + [NO_GAP], end, buffer[..]);
  }

  /** The calls of a body, one after the other. */
  method RunBody(w: MessageWriter, body: seq<Push>) returns (ghost gaps: seq<bytes>)
    requires w.Valid() && w.Abstract() == Start(w.buffer.Length)
    requires forall i | 0 <= i < |body| :: body[i].Valid()
    modifies w, w.buffer
    ensures w.Valid() && |gaps| == |body| && forall k | 0 <= k < |gaps| :: |gaps[k]| == 6
    ensures w.Abstract() == Run(Start(w.buffer.Length), body, gaps)
  {
    gaps := [];
    var i := 0;
    assert body[..0] == [];
    while i < |body|
      invariant 0 <= i == |gaps| <= |body| && w.Valid()
      invariant forall k | 0 <= k < |gaps| :: |gaps[k]| == 6
      invariant w.Abstract() == Run(Start(w.buffer.Length), body[..i], gaps)
    {
      hide Apply, Run, Push.Valid, MessageWriter.Valid, MessageWriter.Abstract;
      ghost var gap := Step(w, body[i]);
      RunOneMore(Start(w.buffer.Length), body[..i], gaps, body[i], gap);
      assert body[..i] + [body[i]] == body[..i + 1];
      gaps := gaps + [gap];
      i := i + 1;
    }
    assert body[..i] == body;
  }

  /** One call of a body. */
  method Step(w: MessageWriter, push: Push) returns (ghost gap: bytes)
    requires w.Valid() && push.Valid()
    modifies w, w.buffer
    ensures w.Valid() && |gap| == 6 && w.Abstract() == Apply(old(w.Abstract()), push, gap)
  {
    hide Apply;
    gap := NO_GAP;
    if push.Header? {
      ghost var before: bytes := w.buffer[..];
      w.PushHeader(push.beginString);
      gap := GapBefore(before, w.next);
    } else if push.Data? {
      assert push.value[0..|push.value|] == push.value;
      w.PushData(push.lengthTag, push.tag, push.value, 0, |push.value|);
    } else if push.BackwardData? {
      w.PushData(0, 0, [SOH], 1, 0);
    } else if push.Trailer? {
      var _ := w.PushTrailer(push.checksummed);
    } else {
      w.PushField(push);
    }
  }

  ghost predicate RanTo(capacity: nat, body: seq<Push>, gaps: seq<bytes>, end: Option<nat>, contents: bytes) {
    && |gaps| == |body| + 1 && |contents| == capacity
    && (forall i | 0 <= i < |gaps| :: |gaps[i]| == 6)
    && (forall i | 0 <= i < |body + [Trailer(true)]| :: (body + [Trailer(true)])[i].Valid())
    && var st := Run(Start(capacity), body + [Trailer(true)], gaps);
       && (end.Some? <==> !st.error)
       && (end.Some? ==> end.value <= capacity && contents[..end.value] == st.written)
  }
}
