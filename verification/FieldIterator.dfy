/**
 The field iterator: a cursor that moves from field to field of an accepted frame,
 hides data-length fields, and lands on the CheckSum whatever bytes it meets.
 */
module FieldIterator {
  import opened Bytes
  import opened Frames

  /** What the iterator depends on besides the bytes: the length tags, and whether `char` is signed. */
  datatype Config = Config(lengthTags: set<int>, charSigned: bool)

  /** Where an iterator stands: the first byte of the field, its tag, and the range of its value. */
  datatype Cursor = Cursor(at: nat, tag: int, valueBegin: nat, valueEnd: nat)

  const MSG_TYPE_TAG := 35
  const CHECKSUM_TAG := 10

  /** All bytes of a frame, up to its message end. */
  predicate IsMessageBytes(m: bytes) {
    |m| >= 8 && m[|m| - 1] == SOH
  }

  /** One step of digit accumulation in unsigned arithmetic. */
  function Accumulate(value: nat, b: byte, modulus: nat, charSigned: bool): (r: nat)
    requires modulus > 0
    ensures r < modulus
  {
    (value * 10 + CharValue(b, charSigned) - ZERO) % modulus
  }

  /** A digit string accumulated in unsigned arithmetic of the given modulus, whatever its bytes. */
  function Accumulated(s: bytes, modulus: nat, charSigned: bool): (r: nat)
    requires modulus > 0
    ensures r < modulus
  {
    if |s| == 0 then 0
    else Accumulate(Accumulated(s[..|s| - 1], modulus, charSigned), s[|s| - 1], modulus, charSigned)
  }

  function TagValue(s: bytes, charSigned: bool): int {
    ToInt32(Accumulated(s, TWO_TO_THE_32, charSigned))
  }

  /** The first `=` or, when `soh` is set, SOH at or after `p`; the message end when there is none. */
  function TagStop(m: bytes, p: nat, soh: bool): (r: nat)
    ensures p <= r
    ensures p <= |m| ==> r <= |m|
    ensures r < |m| ==> m[r] == EQUALS || (soh && m[r] == SOH)
    ensures forall i | p <= i < r && i < |m| :: m[i] != EQUALS && (soh ==> m[i] != SOH)
    decreases |m| - p
  {
    if p >= |m| || m[p] == EQUALS || (soh && m[p] == SOH) then p else TagStop(m, p + 1, soh)
  }

  function EndCursor(m: bytes): Cursor
    requires |m| >= 8
  {
    Cursor(|m| - 7, CHECKSUM_TAG, |m| - 4, |m| - 1)
  }

  predicate AtEnd(m: bytes, c: Cursor)
    requires |m| >= 8
  {
    c.at == |m| - 7
  }

  /** The data field behind a length field whose value ends at `lengthEnd`. */
  function NextData(cfg: Config, m: bytes, lengthBegin: nat, lengthEnd: nat): Cursor
    requires IsMessageBytes(m) && lengthBegin <= lengthEnd < |m|
  {
    var length := Accumulated(m[lengthBegin..lengthEnd], TWO_TO_THE_64, cfg.charSigned);
    var p := lengthEnd + 1;
    var stop := TagStop(m, p, false);
    if stop >= |m| || length > |m| - (stop + 1) then EndCursor(m)
    else Cursor(p, TagValue(m[p..stop], cfg.charSigned), stop + 1, stop + 1 + length)
  }

  /** One increment. */
  function Next(cfg: Config, m: bytes, c: Cursor): Cursor
    requires IsMessageBytes(m)
  {
    var p := c.valueEnd + 1;
    var stop := TagStop(m, p, true);
    if stop >= |m| then EndCursor(m)
    else
      var tag := TagValue(m[p..stop], cfg.charSigned);
      if m[stop] == SOH then Cursor(p, tag, stop, stop)
      else
        var valueEnd := FirstSoh(m, stop + 1, |m|);
        LastByteIsSoh(m, stop);
        if tag in cfg.lengthTags then NextData(cfg, m, stop + 1, valueEnd)
        else Cursor(p, tag, stop + 1, valueEnd)
  }

  /** Behind an `=` there is always an SOH, at the latest the message's last byte. */
  lemma LastByteIsSoh(m: bytes, stop: nat)
    requires IsMessageBytes(m) && stop < |m| && m[stop] == EQUALS
    ensures stop + 1 <= FirstSoh(m, stop + 1, |m|) < |m|
  {
  }

  predicate InMessage(m: bytes, c: Cursor) {
    c.at <= c.valueBegin <= c.valueEnd <= |m|
  }

  /** An increment lands on the CheckSum or moves strictly forward inside the message. */
  lemma NextAdvances(cfg: Config, m: bytes, c: Cursor)
    requires IsMessageBytes(m)
    ensures var n := Next(cfg, m, c);
            && InMessage(m, n)
            && (n == EndCursor(m) || (c.valueEnd < n.at && c.valueEnd < n.valueEnd))
  {
    hide Accumulated, TagValue, TagStop, FirstSoh;
    var p := c.valueEnd + 1;
    var stop := TagStop(m, p, true);
    if stop < |m| && m[stop] == EQUALS {
      LastByteIsSoh(m, stop);
    }
  }

  /** The cursors from `c` on up to the end: the fields a loop `it != end()` visits. */
  function Walk(cfg: Config, m: bytes, c: Cursor): seq<Cursor>
    requires IsMessageBytes(m) && InMessage(m, c)
    decreases if AtEnd(m, c) then 0 else |m| + 2 - c.valueEnd
  {
    if AtEnd(m, c) then []
    else
      NextAdvances(cfg, m, c);
      [c] + Walk(cfg, m, Next(cfg, m, c))
  }

  lemma WalkStep(cfg: Config, m: bytes, c: Cursor)
    requires IsMessageBytes(m) && InMessage(m, c)
    ensures InMessage(m, Next(cfg, m, c))
    ensures AtEnd(m, c) ==> Walk(cfg, m, c) == []
    ensures !AtEnd(m, c) ==> Walk(cfg, m, c) == [c] + Walk(cfg, m, Next(cfg, m, c))
  {
    NextAdvances(cfg, m, c);
    hide Next;
  }

  function BeginCursor(f: Frame): Cursor {
    Cursor(f.msgTypeAt, MSG_TYPE_TAG, f.msgTypeAt + 3, f.msgTypeEnd)
  }

  /** The fields of a valid frame, from MsgType to the one before CheckSum. */
  function Fields(cfg: Config, buf: bytes): (r: seq<Cursor>)
    requires Recognise(buf).Valid?
  {
    MessageOf(buf);
    var f := Recognise(buf).frame;
    Walk(cfg, buf[..f.Size()], BeginCursor(f))
  }

  lemma MessageOf(buf: bytes)
    requires Recognise(buf).Valid?
    ensures var f := Recognise(buf).frame;
            && 24 <= f.Size() <= |buf| && IsMessageBytes(buf[..f.Size()])
            && InMessage(buf[..f.Size()], BeginCursor(f)) && !AtEnd(buf[..f.Size()], BeginCursor(f))
  {
    RecognisedPlaces(buf);
    hide Recognise, BodyLength, FirstSoh;
  }

  /** The i-th increment from a cursor. */
  function Iterate(cfg: Config, m: bytes, c: Cursor, i: nat): Cursor
    requires IsMessageBytes(m)
    decreases i
  {
    if i == 0 then c else Iterate(cfg, m, Next(cfg, m, c), i - 1)
  }

  // ----- what iteration guarantees on any accepted bytes

  /** Each field lies behind the one before it and inside the message. */
  ghost predicate Ordered(m: bytes, fields: seq<Cursor>) {
    && (forall i | 0 <= i < |fields| :: InMessage(m, fields[i]))
    && (forall i, j | 0 <= i < j < |fields| :: fields[i].valueEnd < fields[j].at)
  }

  lemma {:induction false} WalkOrdered(cfg: Config, m: bytes, c: Cursor)
    requires IsMessageBytes(m) && InMessage(m, c)
    ensures var fields := Walk(cfg, m, c);
            && Ordered(m, fields)
            && (|fields| > 0 ==> fields[0] == c)
            && |fields| <= |m| + 1 - c.valueEnd
            && (forall i | 0 <= i < |fields| :: !AtEnd(m, fields[i]))
    decreases if AtEnd(m, c) then 0 else |m| + 2 - c.valueEnd
  {
    WalkStep(cfg, m, c);
    hide Next, Walk;
    if !AtEnd(m, c) {
      NextAdvances(cfg, m, c);
      var n := Next(cfg, m, c);
      WalkOrdered(cfg, m, n);
      if n == EndCursor(m) {
        WalkStep(cfg, m, n);
      }
      OrderedGrows(m, c, Walk(cfg, m, n));
    }
  }

  /** One more field in front of ordered ones. */
  lemma OrderedGrows(m: bytes, c: Cursor, rest: seq<Cursor>)
    requires |m| >= 8 && InMessage(m, c) && !AtEnd(m, c) && Ordered(m, rest)
    requires |rest| > 0 ==> c.valueEnd < rest[0].at && c.valueEnd < rest[0].valueEnd
    requires forall i | 0 <= i < |rest| :: !AtEnd(m, rest[i])
    ensures Ordered(m, [c] + rest) && forall i | 0 <= i < |[c] + rest| :: !AtEnd(m, ([c] + rest)[i])
  {
    var fields := [c] + rest;
    assert forall i | 1 <= i < |fields| :: fields[i] == rest[i - 1];
    forall i, j | 0 <= i < j < |fields|
      ensures fields[i].valueEnd < fields[j].at
    {
      if i == 0 && j > 1 {
        assert rest[0].valueEnd < rest[j - 1].at;
      }
    }
  }

  /** After as many increments as there are fields the iterator stands on the CheckSum. */
  lemma {:induction false} WalkReachesEnd(cfg: Config, m: bytes, c: Cursor)
    requires IsMessageBytes(m) && InMessage(m, c)
    ensures AtEnd(m, Iterate(cfg, m, c, |Walk(cfg, m, c)|))
    ensures forall i | 0 <= i < |Walk(cfg, m, c)| :: Walk(cfg, m, c)[i] == Iterate(cfg, m, c, i)
    decreases if AtEnd(m, c) then 0 else |m| + 2 - c.valueEnd
  {
    WalkStep(cfg, m, c);
    hide Next, Walk;
    if !AtEnd(m, c) {
      NextAdvances(cfg, m, c);
      var n := Next(cfg, m, c);
      WalkReachesEnd(cfg, m, n);
      var fields, rest := Walk(cfg, m, c), Walk(cfg, m, n);
      forall i | 0 <= i < |fields|
        ensures fields[i] == Iterate(cfg, m, c, i)
      {
        if i > 0 {
          assert fields[i] == rest[i - 1];
        }
      }
    }
  }

  /**
   Iterating any accepted frame, whatever its bytes: at most as many increments as
   the message has bytes lead to the CheckSum, and the fields visited on the way are
   ordered, disjoint and inside the message.
   */
  lemma IterationTerminates(cfg: Config, buf: bytes)
    requires Recognise(buf).Valid?
    ensures var f := Recognise(buf).frame;
            var m := buf[..f.Size()];
            && IsMessageBytes(m)
            && 1 <= |Fields(cfg, buf)| <= |m|
            && Ordered(m, Fields(cfg, buf))
            && Fields(cfg, buf)[0] == BeginCursor(f)
            && (forall i | 0 <= i < |Fields(cfg, buf)| :: Iterate(cfg, m, BeginCursor(f), i) == Fields(cfg, buf)[i])
            && Iterate(cfg, m, BeginCursor(f), |Fields(cfg, buf)|).at == f.checkSumAt
  {
    MessageOf(buf);
    var f := Recognise(buf).frame;
    var m := buf[..f.Size()];
    RecognisedPlaces(buf);
    hide Recognise, Places, Next, Walk, Iterate;
    WalkOrdered(cfg, m, BeginCursor(f));
    WalkReachesEnd(cfg, m, BeginCursor(f));
    WalkStep(cfg, m, BeginCursor(f));
  }

  // ----- the iterator in place

  lemma AccumulatedStep(s: bytes, from: nat, p: nat, modulus: nat, charSigned: bool)
    requires from <= p < |s| && modulus > 0
    ensures Accumulated(s[from..p + 1], modulus, charSigned)
            == Accumulate(Accumulated(s[from..p], modulus, charSigned), s[p], modulus, charSigned)
  {
    hide Accumulate;
    assert s[from..p + 1][..p - from] == s[from..p];
  }

  class FieldIterator {
    const message: bytes
    const cfg: Config
    var at: nat
    var tag: int
    var valueBegin: nat
    var valueEnd: nat

    function Where(): Cursor
      reads this
    {
      Cursor(at, tag, valueBegin, valueEnd)
    }

    /** A copy of an iterator that stands at `c`. */
    constructor (cfg: Config, message: bytes, c: Cursor)
      ensures this.message == message && this.cfg == cfg && Where() == c
    {
      this.message, this.cfg := message, cfg;
      at, tag, valueBegin, valueEnd := c.at, c.tag, c.valueBegin, c.valueEnd;
    }

    method SetAtEnd()
      requires IsMessageBytes(message)
      modifies this
      ensures Where() == EndCursor(message)
    {
      at := |message| - 7;
      tag := 10;
      valueBegin := |message| - 4;
      valueEnd := |message| - 1;
    }

    /** The tag loop: accumulate bytes up to `=` (or SOH), in 32-bit unsigned arithmetic. */
    method ScanTag(from: nat, soh: bool) returns (p: nat, t: int)
      ensures p == TagStop(message, from, soh)
      ensures p < |message| ==> t == TagValue(message[from..p], cfg.charSigned)
    {
      hide Accumulate;
      p := from;
      var utag := 0;
      while p < |message| && message[p] != EQUALS && !(soh && message[p] == SOH)
        invariant from <= p && (p <= |message| || p == from)
        invariant TagStop(message, p, soh) == TagStop(message, from, soh)
        invariant p <= |message| ==> utag == Accumulated(message[from..p], TWO_TO_THE_32, cfg.charSigned)
      {
        AccumulatedStep(message, from, p, TWO_TO_THE_32, cfg.charSigned);
        utag := Accumulate(utag, message[p], TWO_TO_THE_32, cfg.charSigned);
        p := p + 1;
      }
      t := ToInt32(utag);
    }

    /** `atou<size_t>` on a range of the message. */
    method ScanLength(begin: nat, end: nat) returns (n: nat)
      requires begin <= end <= |message|
      ensures n == Accumulated(message[begin..end], TWO_TO_THE_64, cfg.charSigned)
    {
      hide Accumulate;
      n := 0;
      var p := begin;
      while p < end
        invariant begin <= p <= end
        invariant n == Accumulated(message[begin..p], TWO_TO_THE_64, cfg.charSigned)
      {
        AccumulatedStep(message, begin, p, TWO_TO_THE_64, cfg.charSigned);
        n := Accumulate(n, message[p], TWO_TO_THE_64, cfg.charSigned);
        p := p + 1;
      }
    }

    /** `increment` */
    method Increment()
      requires IsMessageBytes(message)
      modifies this
      ensures Where() == Next(cfg, message, old(Where()))
    {
      hide TagStop, TagValue, FirstSoh, NextData;
      var from := valueEnd + 1;
      at := from;
      var p, t := ScanTag(from, true);
      if p >= |message| {
        SetAtEnd();
        return;
      }
      if message[p] == SOH {
        tag, valueBegin, valueEnd := t, p, p;
        return;
      }
      LastByteIsSoh(message, p);
      var begin := p + 1;
      var end := FindSoh(message, begin, |message|);
      if t in cfg.lengthTags {
        IncrementOverLength(begin, end);
        return;
      }
      tag, valueBegin, valueEnd := t, begin, end;
    }

    /** The field behind a data-length field: its value has the given length. */
    method IncrementOverLength(begin: nat, end: nat)
      requires IsMessageBytes(message) && begin <= end < |message|
      modifies this
      ensures Where() == NextData(cfg, message, begin, end)
    {
      hide TagStop, TagValue, Accumulated;
      var length := ScanLength(begin, end);
      at := end + 1;
      var p, t := ScanTag(end + 1, false);
      if p >= |message| {
        SetAtEnd();
        return;
      }
      p := p + 1;
      if length > |message| - p {
        SetAtEnd();
        return;
      }
      tag, valueBegin, valueEnd := t, p, p + length;
    }
  }
}
