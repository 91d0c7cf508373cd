/**
 The frame recogniser. `Recognise` says what verdict a buffer gets: a frame is
 incomplete, invalid or valid with a fixed geometry. `MessageReader` computes it with
 moving cursors.
 */
module Frames {
  import opened Bytes
  import opened Digits
  import MessageModel

  /** The places of a valid frame, counted from its first byte. */
  datatype Frame = Frame(prefixEnd: nat, msgTypeAt: nat, msgTypeEnd: nat, checkSumAt: nat) {
    function Size(): nat {
      checkSumAt + 7
    }
  }

  datatype Verdict = Incomplete | Invalid | Valid(frame: Frame)

  /** A scan runs off the buffer, hits a byte it refuses, or finds its SOH. */
  datatype Scan = More | Bad | Found(at: nat)

  const DIGIT_3: byte := 0x33
  const DIGIT_5: byte := 0x35
  const DIGIT_9: byte := 0x39
  const FIX_START: bytes := [0x38, 0x3D, 0x46, 0x49, 0x58]

  /** The SOH that ends the BeginString, looked for from offset 9 to offset 12. */
  function PrefixScan(buf: bytes, b: nat): (r: Scan)
    requires b >= 9
    ensures r.Found? ==> b <= r.at < |buf| && r.at <= (if b > 12 then b else 12) && buf[r.at] == SOH
    ensures r.Bad? ==> |buf| > 12
    decreases |buf| - b
  {
    if b >= |buf| then More
    else if buf[b] == SOH then Found(b)
    else if b > 11 then Bad
    else PrefixScan(buf, b + 1)
  }

  /** The SOH that ends the BodyLength digits. */
  function LengthScan(buf: bytes, b: nat): (r: Scan)
    ensures r.Found? ==> b <= r.at < |buf| && buf[r.at] == SOH && AllDigits(buf[b..r.at])
    decreases |buf| - b
  {
    if b >= |buf| then More
    else if buf[b] == SOH then Found(b)
    else if !IsDigit(buf[b]) then Bad
    else
      var r := LengthScan(buf, b + 1);
      assert r.Found? ==> buf[b..r.at] == [buf[b]] + buf[b + 1..r.at];
      r
  }

  /** BodyLength as accumulated in a 64-bit `size_t`. */
  function BodyLength(digits: bytes): (r: nat)
    ensures r < TWO_TO_THE_64
  {
    DigitsValue(digits) % TWO_TO_THE_64
  }

  /** The checks from the MsgType field at `b` on, for a body of `n` bytes. */
  function RecogniseBody(buf: bytes, prefixEnd: nat, b: nat, n: nat): Verdict
    requires b >= 1
  {
    if b + 3 >= |buf| then Incomplete
    else if buf[b] != DIGIT_3 || buf[b + 1] != DIGIT_5 then Invalid
    else if n > |buf| - b || b + n + 7 > |buf| then Incomplete
    else if buf[b + n - 1] != SOH || buf[b + n + 6] != SOH then Invalid
    else
      var msgTypeEnd := FirstSoh(buf, b + 3, b + n);
      if msgTypeEnd >= b + n then Invalid else Valid(Frame(prefixEnd, b, msgTypeEnd, b + n))
  }

  /** The verdict on a buffer: what `init` finds at its start. */
  function Recognise(buf: bytes): Verdict {
    if |buf| < 9 then Incomplete
    else match PrefixScan(buf, 9)
      case More => Incomplete
      case Bad => Invalid
      case Found(p) =>
        if p + 1 >= |buf| then Incomplete
        else if buf[p + 1] != DIGIT_9 then Invalid
        else match LengthScan(buf, p + 3)
          case More => Incomplete
          case Bad => Invalid
          case Found(e) => RecogniseBody(buf, p, e + 1, BodyLength(buf[p + 3..e]))
  }

  // ----- an independent description of a frame

  /** A buffer that starts with a frame, part by part. `any` is the byte behind the 9, never looked at. */
  ghost predicate FrameParts(buf: bytes, prefix: bytes, any: byte, digits: bytes, body: bytes, trailer: bytes, rest: bytes) {
    && buf == prefix + [SOH, DIGIT_9, any] + digits + [SOH] + body + trailer + rest
    && 9 <= |prefix| <= 12 && SohFree(prefix[9..])
    && AllDigits(digits) && |body| == BodyLength(digits)
    && |body| >= 4 && body[0] == DIGIT_3 && body[1] == DIGIT_5 && body[|body| - 1] == SOH
    && |trailer| == 7 && trailer[6] == SOH
  }

  lemma {:induction false} PrefixFound(buf: bytes, b: nat, at: nat)
    requires 9 <= b <= at <= 12 && at < |buf| && buf[at] == SOH
    requires forall i | b <= i < at :: buf[i] != SOH
    ensures PrefixScan(buf, b) == Found(at)
    decreases at - b
  {
    if b < at {
      PrefixFound(buf, b + 1, at);
    }
  }

  lemma {:induction false} PrefixFoundFirst(buf: bytes, b: nat)
    requires b >= 9 && PrefixScan(buf, b).Found?
    ensures forall i | b <= i < PrefixScan(buf, b).at :: buf[i] != SOH
    decreases |buf| - b
  {
    if buf[b] != SOH {
      PrefixFoundFirst(buf, b + 1);
    }
  }

  lemma {:induction false} LengthFound(buf: bytes, b: nat, at: nat)
    requires b <= at < |buf| && buf[at] == SOH
    requires forall i | b <= i < at :: IsDigit(buf[i])
    ensures LengthScan(buf, b) == Found(at)
    decreases at - b
  {
    if b < at {
      assert IsDigit(buf[b]);
      LengthFound(buf, b + 1, at);
    }
  }

  /** Where the parts of a frame stand in its buffer. */
  lemma PartsPlaces(buf: bytes, prefix: bytes, any: byte, digits: bytes, body: bytes, trailer: bytes, rest: bytes)
    requires FrameParts(buf, prefix, any, digits, body, trailer, rest)
    ensures var p := |prefix|; var at := p + 4 + |digits|;
            && |buf| >= at + |body| + 7
            && buf[p] == SOH && buf[p + 1] == DIGIT_9 && buf[at - 1] == SOH
            && (forall i | 9 <= i < p :: buf[i] != SOH)
            && buf[p + 3..at - 1] == digits && (forall i | p + 3 <= i < at - 1 :: IsDigit(buf[i]))
            && buf[at..at + |body|] == body && buf[at + |body| + 6] == SOH
            && buf[..at] == prefix + [SOH, DIGIT_9, any] + digits + [SOH]
  {
    hide BodyLength;
    var p := |prefix|;
    var at := p + 4 + |digits|;
    assert buf[p + 3..at - 1] == digits;
    forall i | 9 <= i < p
      ensures buf[i] != SOH
    {
      assert buf[i] == prefix[9..][i - 9];
    }
    forall i | p + 3 <= i < at - 1
      ensures IsDigit(buf[i])
    {
      assert buf[i] == digits[i - (p + 3)];
    }
    assert buf[at + |body| + 6] == trailer[6];
  }

  /** The tests `init` makes, as facts about single bytes of the buffer. */
  ghost predicate Places(buf: bytes, p: nat, at: nat, n: nat) {
    && 9 <= p <= 12 && p + 4 <= at && 4 <= n && at + n + 7 <= |buf|
    && buf[p] == SOH && (forall i | 9 <= i < p :: buf[i] != SOH) && buf[p + 1] == DIGIT_9
    && (forall i | p + 3 <= i < at - 1 :: IsDigit(buf[i])) && buf[at - 1] == SOH
    && n == BodyLength(buf[p + 3..at - 1])
    && buf[at] == DIGIT_3 && buf[at + 1] == DIGIT_5
    && buf[at + n - 1] == SOH && buf[at + n + 6] == SOH
  }

  lemma BodyRecognised(buf: bytes, p: nat, at: nat, n: nat)
    requires Places(buf, p, at, n)
    ensures FirstSoh(buf, at + 3, at + n) < at + n
    ensures RecogniseBody(buf, p, at, n) == Valid(Frame(p, at, FirstSoh(buf, at + 3, at + n), at + n))
  {
    hide BodyLength;
  }

  lemma PlacesRecognised(buf: bytes, p: nat, at: nat, n: nat)
    requires Places(buf, p, at, n)
    ensures Recognise(buf) == Valid(Frame(p, at, FirstSoh(buf, at + 3, at + n), at + n))
    ensures FirstSoh(buf, at + 3, at + n) < at + n
  {
    hide PrefixScan, LengthScan, BodyLength, RecogniseBody;
    PrefixFound(buf, 9, p);
    LengthFound(buf, p + 3, at - 1);
    BodyRecognised(buf, p, at, n);
  }

  lemma RecognisedPlaces(buf: bytes)
    requires Recognise(buf).Valid?
    ensures var f := Recognise(buf).frame;
            && f.prefixEnd + 4 <= f.msgTypeAt && f.msgTypeAt + 3 <= f.msgTypeEnd < f.checkSumAt
            && Places(buf, f.prefixEnd, f.msgTypeAt, f.checkSumAt - f.msgTypeAt)
            && f.msgTypeEnd == FirstSoh(buf, f.msgTypeAt + 3, f.checkSumAt)
  {
    PrefixFoundFirst(buf, 9);
    hide PrefixScan, BodyLength;
    var f := Recognise(buf).frame;
    assert AllDigits(buf[f.prefixEnd + 3..f.msgTypeAt - 1]);
    forall i | f.prefixEnd + 3 <= i < f.msgTypeAt - 1
      ensures IsDigit(buf[i])
    {
      assert buf[i] == buf[f.prefixEnd + 3..f.msgTypeAt - 1][i - (f.prefixEnd + 3)];
    }
  }

  lemma PartsArePlaces(buf: bytes, prefix: bytes, any: byte, digits: bytes, body: bytes, trailer: bytes, rest: bytes)
    requires FrameParts(buf, prefix, any, digits, body, trailer, rest)
    ensures Places(buf, |prefix|, |prefix| + 4 + |digits|, |body|)
  {
    var at := |prefix| + 4 + |digits|;
    PartsPlaces(buf, prefix, any, digits, body, trailer, rest);
    assert |body| >= 4 && |body| == BodyLength(digits) && 9 <= |prefix| <= 12;
    assert body[0] == DIGIT_3 && body[1] == DIGIT_5 && body[|body| - 1] == SOH;
    hide FrameParts, BodyLength;
    var slice := buf[at..at + |body|];
    assert buf[at] == slice[0] && buf[at + 1] == slice[1] && buf[at + |body| - 1] == slice[|body| - 1];
  }

  lemma PlacesWithin(buf: bytes, p: nat, at: nat, n: nat)
    requires Places(buf, p, at, n)
    ensures |buf| >= at + n + 7
  {
  }

  /** A buffer with the parts of a frame is recognised, at exactly the places of those parts. */
  lemma PartsRecognised(buf: bytes, prefix: bytes, any: byte, digits: bytes, body: bytes, trailer: bytes, rest: bytes)
    requires FrameParts(buf, prefix, any, digits, body, trailer, rest)
    ensures var at := |prefix| + 4 + |digits|;
            |buf| >= at + |body| + 7
            && Recognise(buf) == Valid(Frame(|prefix|, at, FirstSoh(buf, at + 3, at + |body|), at + |body|))
            && FirstSoh(buf, at + 3, at + |body|) < at + |body|
  {
    hide *;
    PartsArePlaces(buf, prefix, any, digits, body, trailer, rest);
    PlacesWithin(buf, |prefix|, |prefix| + 4 + |digits|, |body|);
    PlacesRecognised(buf, |prefix|, |prefix| + 4 + |digits|, |body|);
  }

  lemma PlacesArePieces(buf: bytes, p: nat, at: nat, n: nat)
    requires Places(buf, p, at, n)
    ensures buf == buf[..p] + [SOH, DIGIT_9, buf[p + 2]] + buf[p + 3..at - 1] + [SOH] + buf[at..at + n]
                   + buf[at + n..at + n + 7] + buf[at + n + 7..]
  {
    hide BodyLength;
  }

  lemma PlacesAreParts(buf: bytes, p: nat, at: nat, n: nat)
    requires Places(buf, p, at, n)
    ensures FrameParts(buf, buf[..p], buf[p + 2], buf[p + 3..at - 1], buf[at..at + n], buf[at + n..at + n + 7],
                       buf[at + n + 7..])
  {
    PlacesArePieces(buf, p, at, n);
    hide BodyLength;
    var prefix, digits, body, trailer := buf[..p], buf[p + 3..at - 1], buf[at..at + n], buf[at + n..at + n + 7];
    assert forall i | 0 <= i < |prefix[9..]| :: prefix[9..][i] == buf[9 + i];
    assert forall i | 0 <= i < |digits| :: digits[i] == buf[p + 3 + i];
    assert body[0] == buf[at] && body[1] == buf[at + 1] && body[n - 1] == buf[at + n - 1] && trailer[6] == buf[at + n + 6];
  }

  /** Conversely, a buffer recognised as valid has the parts of a frame, at the recognised places. */
  lemma RecognisedParts(buf: bytes)
    requires Recognise(buf).Valid?
    ensures var f := Recognise(buf).frame;
            && f.prefixEnd + 4 <= f.msgTypeAt && f.msgTypeAt + 3 <= f.msgTypeEnd < f.checkSumAt && f.Size() <= |buf|
            && FrameParts(buf, buf[..f.prefixEnd], buf[f.prefixEnd + 2], buf[f.prefixEnd + 3..f.msgTypeAt - 1],
                          buf[f.msgTypeAt..f.checkSumAt], buf[f.checkSumAt..f.Size()], buf[f.Size()..])
            && buf[f.msgTypeEnd] == SOH && SohFree(buf[f.msgTypeAt + 3..f.msgTypeEnd])
  {
    hide Recognise, FrameParts, BodyLength, FirstSoh;
    RecognisedPlaces(buf);
    var f := Recognise(buf).frame;
    PlacesAreParts(buf, f.prefixEnd, f.msgTypeAt, f.checkSumAt - f.msgTypeAt);
    hide Places;
  }

  // ----- stability

  lemma {:induction false} PrefixStable(buf: bytes, ext: bytes, b: nat)
    requires b >= 9 && !PrefixScan(buf, b).More?
    ensures PrefixScan(buf + ext, b) == PrefixScan(buf, b)
    decreases |buf| - b
  {
    assert (buf + ext)[b] == buf[b];
    if buf[b] != SOH && b <= 11 {
      PrefixStable(buf, ext, b + 1);
    }
  }

  lemma {:induction false} LengthStable(buf: bytes, ext: bytes, b: nat)
    requires !LengthScan(buf, b).More?
    ensures LengthScan(buf + ext, b) == LengthScan(buf, b)
    decreases |buf| - b
  {
    assert (buf + ext)[b] == buf[b];
    if buf[b] != SOH && IsDigit(buf[b]) {
      LengthStable(buf, ext, b + 1);
    }
  }

  lemma {:induction false} FirstSohStable(buf: bytes, ext: bytes, from: nat, to: nat)
    requires to <= |buf|
    ensures FirstSoh(buf + ext, from, to) == FirstSoh(buf, from, to)
    decreases if from <= to then to - from else 0
  {
    if from < to && buf[from] != SOH {
      FirstSohStable(buf, ext, from + 1, to);
    }
  }

  lemma BodyStable(buf: bytes, ext: bytes, prefixEnd: nat, b: nat, n: nat)
    requires b >= 1 && !RecogniseBody(buf, prefixEnd, b, n).Incomplete?
    ensures RecogniseBody(buf + ext, prefixEnd, b, n) == RecogniseBody(buf, prefixEnd, b, n)
  {
    var more := buf + ext;
    assert more[b] == buf[b] && more[b + 1] == buf[b + 1];
    if b + n + 7 <= |buf| {
      assert more[b + n - 1] == buf[b + n - 1] && more[b + n + 6] == buf[b + n + 6];
      FirstSohStable(buf, ext, b + 3, b + n);
    }
  }

  /** A verdict once reached does not change when more bytes arrive. */
  lemma VerdictStable(buf: bytes, ext: bytes)
    requires !Recognise(buf).Incomplete?
    ensures Recognise(buf + ext) == Recognise(buf)
  {
    hide PrefixScan, LengthScan, BodyLength, RecogniseBody;
    PrefixStable(buf, ext, 9);
    var prefix := PrefixScan(buf, 9);
    if prefix.Found? {
      var p := prefix.at;
      assert (buf + ext)[p + 1] == buf[p + 1];
      if buf[p + 1] == DIGIT_9 {
        LengthStable(buf, ext, p + 3);
        var length := LengthScan(buf, p + 3);
        if length.Found? {
          assert (buf + ext)[p + 3..length.at] == buf[p + 3..length.at];
          BodyStable(buf, ext, p, length.at + 1, BodyLength(buf[p + 3..length.at]));
        }
      }
    }
  }

  /** A prefix of a buffer gets the buffer's verdict, or is still incomplete. */
  lemma PrefixVerdict(buf: bytes, n: nat)
    requires n <= |buf|
    ensures Recognise(buf[..n]).Incomplete? || Recognise(buf[..n]) == Recognise(buf)
  {
    if !Recognise(buf[..n]).Incomplete? {
      VerdictStable(buf[..n], buf[n..]);
      assert buf[..n] + buf[n..] == buf;
    }
  }

  /** Positions whose bytes the reader never looks at: the first nine, those behind the 9 and the 35,
      the trailer's first six. */
  predicate Unread(f: Frame, i: nat) {
    i < 9 || i == f.prefixEnd + 2 || i == f.msgTypeAt + 2 || f.checkSumAt <= i < f.checkSumAt + 6
  }

  /** Whatever stands at the unread positions of a valid frame, its verdict is the same. */
  lemma UnreadBytes(buf: bytes, other: bytes)
    requires Recognise(buf).Valid? && |other| == |buf|
    requires forall i | 0 <= i < |buf| && !Unread(Recognise(buf).frame, i) :: other[i] == buf[i]
    ensures Recognise(other) == Recognise(buf)
  {
    var f := Recognise(buf).frame;
    RecognisedPlaces(buf);
    hide Recognise, Places;
    var p, at, n := f.prefixEnd, f.msgTypeAt, f.checkSumAt - f.msgTypeAt;
    OtherPlaces(buf, other, f, p, at, n);
    PlacesRecognised(other, p, at, n);
    PlacesRecognised(buf, p, at, n);
  }

  lemma OtherPlaces(buf: bytes, other: bytes, f: Frame, p: nat, at: nat, n: nat)
    requires Places(buf, p, at, n) && |other| == |buf| && f.prefixEnd == p && f.msgTypeAt == at && f.checkSumAt == at + n
    requires forall i | 0 <= i < |buf| && !Unread(f, i) :: other[i] == buf[i]
    ensures Places(other, p, at, n) && FirstSoh(other, at + 3, at + n) == FirstSoh(buf, at + 3, at + n)
  {
    hide BodyLength, FirstSoh;
    assert other[p + 3..at - 1] == buf[p + 3..at - 1];
  }

  /** A frame without `8=`, without an `=` behind 9 and 35, and without `10=`, is valid all the same. */
  lemma AcceptedAnyway()
    ensures var x: byte := 0x78;
            var buf := [x, x, x, x, x, x, x, x, x, SOH, DIGIT_9, x, DIGIT_5, SOH, DIGIT_3, DIGIT_5, x, x, SOH,
                        x, x, x, x, x, x, SOH];
            Recognise(buf) == Valid(Frame(9, 14, 18, 19))
  {
    var x: byte := 0x78;
    var buf := [x, x, x, x, x, x, x, x, x, SOH, DIGIT_9, x, DIGIT_5, SOH, DIGIT_3, DIGIT_5, x, x, SOH,
                x, x, x, x, x, x, SOH];
    assert BodyLength(buf[12..13]) == 5 by {
      assert buf[12..13] == [DIGIT_5];
      assert DigitsValue([DIGIT_5][..0]) == 0;
      assert DigitsValue([DIGIT_5]) == 5;
    }
    hide BodyLength, Recognise, FirstSoh;
    PlacesRecognised(buf, 9, 14, 5);
    assert buf[17] != SOH && buf[18] == SOH;
  }

  /** BodyLength is taken modulo 2^64: with twenty digits for 2^64 + 5 the body has five bytes. */
  lemma WrappedBodyLength()
    ensures var x: byte := 0x78;
            var digits: bytes := [0x31, 0x38, 0x34, 0x34, 0x36, 0x37, 0x34, 0x34, 0x30, 0x37,
                                  0x33, 0x37, 0x30, 0x39, 0x35, 0x35, 0x31, 0x36, 0x32, 0x31];
            var buf := [x, x, x, x, x, x, x, x, x, 0x01, 0x39, x] + digits
                       + [0x01, 0x33, 0x35, x, x, 0x01, x, x, x, x, x, x, 0x01];
            Recognise(buf) == Valid(Frame(9, 33, 37, 38))
  {
    var x: byte := 0x78;
    var digits: bytes := [0x31, 0x38, 0x34, 0x34, 0x36, 0x37, 0x34, 0x34, 0x30, 0x37,
                          0x33, 0x37, 0x30, 0x39, 0x35, 0x35, 0x31, 0x36, 0x32, 0x31];
    var buf := [x, x, x, x, x, x, x, x, x, 0x01, 0x39, x] + digits
               + [0x01, 0x33, 0x35, x, x, 0x01, x, x, x, x, x, x, 0x01];
    TwentyDigits(digits);
    assert buf[12..32] == digits;
    hide BodyLength, Recognise, FirstSoh;
    PlacesRecognised(buf, 9, 33, 5);
    assert buf[36] != SOH && buf[37] == SOH;
  }

  lemma TwentyDigits(digits: bytes)
    requires digits == [0x31, 0x38, 0x34, 0x34, 0x36, 0x37, 0x34, 0x34, 0x30, 0x37,
                        0x33, 0x37, 0x30, 0x39, 0x35, 0x35, 0x31, 0x36, 0x32, 0x31]
    ensures AllDigits(digits) && BodyLength(digits) == 5
  {
    var a, b := digits[..10], digits[10..];
    TenDigits(a);
    TenDigits(b);
    assert digits == a + b;
    DigitsAppend(a, b);
    SmallPowers();
    hide DigitsValue;
    assert Pow10(10) == 10 * Pow10(9);
  }

  lemma TenDigits(d: bytes)
    requires |d| == 10
    ensures DigitsValue(d) == 1_000_000_000 * (d[0] - ZERO) + 100_000_000 * (d[1] - ZERO) + 10_000_000 * (d[2] - ZERO)
                              + 1_000_000 * (d[3] - ZERO) + 100_000 * (d[4] - ZERO) + 10_000 * (d[5] - ZERO)
                              + 1000 * (d[6] - ZERO) + 100 * (d[7] - ZERO) + 10 * (d[8] - ZERO) + (d[9] - ZERO)
  {
    assert DigitsValue(d[..0]) == 0;
    hide DigitsValue;
    OneDigitMore(d, 10);
    OneDigitMore(d, 9);
    OneDigitMore(d, 8);
    OneDigitMore(d, 7);
    OneDigitMore(d, 6);
    OneDigitMore(d, 5);
    OneDigitMore(d, 4);
    OneDigitMore(d, 3);
    OneDigitMore(d, 2);
    OneDigitMore(d, 1);
    assert d[..10] == d;
  }

  lemma OneDigitMore(d: bytes, k: nat)
    requires 0 < k <= |d|
    ensures DigitsValue(d[..k]) == 10 * DigitsValue(d[..k - 1]) + (d[k - 1] - ZERO)
  {
    assert d[..k][..k - 1] == d[..k - 1];
  }

  // ----- which buffers wait for more bytes, and which are refused

  /** The BeginString part ends at `p`: the first SOH from offset 9 on, at offset 12 at the latest. */
  ghost predicate PrefixEndsAt(buf: bytes, p: nat) {
    9 <= p <= 12 && p < |buf| && buf[p] == 0x01 && forall i | 9 <= i < p :: buf[i] != 0x01
  }

  /** The BodyLength digits behind it end with an SOH in front of `at`. */
  ghost predicate LengthEndsAt(buf: bytes, p: nat, at: nat) {
    p + 4 <= at <= |buf| && buf[at - 1] == 0x01 && forall i | p + 3 <= i < at - 1 :: 0x30 <= buf[i] <= 0x39
  }

  /** BodyLength, of whatever digits, in 64 bits. */
  function LengthAt(buf: bytes, p: nat, at: nat): nat
    requires p + 4 <= at <= |buf|
  {
    BodyLength(buf[p + 3..at - 1])
  }

  /** The buffer ends before the byte that would decide: while BeginString, */
  ghost predicate EndsTooEarly(buf: bytes) {
    || (|buf| <= 12 && forall i | 9 <= i < |buf| :: buf[i] != 0x01)
    || (exists p: nat :: PrefixEndsAt(buf, p) && EndsEarlyBehind(buf, p))
  }

  /** while BodyLength is read, */
  ghost predicate EndsEarlyBehind(buf: bytes, p: nat) {
    || p + 1 >= |buf|
    || (buf[p + 1] == 0x39 && (
          || (forall i | p + 3 <= i < |buf| :: 0x30 <= buf[i] <= 0x39)
          || (exists at: nat :: LengthEndsAt(buf, p, at) && EndsEarlyInBody(buf, p, at))))
  }

  /** in front of MsgType or before the end of the trailer. */
  ghost predicate EndsEarlyInBody(buf: bytes, p: nat, at: nat)
    requires p + 4 <= at <= |buf|
  {
    || at + 3 >= |buf|
    || (buf[at] == 0x33 && buf[at + 1] == 0x35 && at + LengthAt(buf, p, at) + 7 > |buf|)
  }

  /** Some byte that is there rules a frame out: BeginString is too long, */
  ghost predicate HoldsWrongByte(buf: bytes) {
    || (|buf| > 12 && forall i | 9 <= i <= 12 :: buf[i] != 0x01)
    || (exists p: nat :: PrefixEndsAt(buf, p) && WrongBehind(buf, p))
  }

  /** something else than a 9 and digits follows it, */
  ghost predicate WrongBehind(buf: bytes, p: nat) {
    p + 1 < |buf| && (
      || buf[p + 1] != 0x39
      || (exists i: nat :: RefusedDigit(buf, p, i))
      || (exists at: nat :: LengthEndsAt(buf, p, at) && WrongInBody(buf, p, at)))
  }

  /** or something else than 35 follows those, or the body is too short for MsgType, or does not
      end in SOH, or the trailer does not. */
  ghost predicate WrongInBody(buf: bytes, p: nat, at: nat)
    requires p + 4 <= at <= |buf|
  {
    at + 3 < |buf| && (
      || buf[at] != 0x33 || buf[at + 1] != 0x35
      || (var n := LengthAt(buf, p, at);
          at + n + 7 <= |buf| && (n <= 3 || buf[at + n - 1] != 0x01 || buf[at + n + 6] != 0x01)))
  }

  /** The first byte behind `9=` that is no digit is no SOH either. */
  ghost predicate RefusedDigit(buf: bytes, p: nat, i: nat) {
    && p + 3 <= i < |buf| && buf[i] != 0x01 && !(0x30 <= buf[i] <= 0x39)
    && forall j | p + 3 <= j < i :: 0x30 <= buf[j] <= 0x39
  }

  lemma {:induction false} PrefixScanCases(buf: bytes, b: nat)
    requires 9 <= b <= 12 && b <= |buf| && forall i | 9 <= i < b :: buf[i] != 0x01
    ensures PrefixScan(buf, b).More? <==> |buf| <= 12 && forall i | 9 <= i < |buf| :: buf[i] != 0x01
    ensures PrefixScan(buf, b).Bad? <==> |buf| > 12 && forall i | 9 <= i <= 12 :: buf[i] != 0x01
    ensures PrefixScan(buf, b).Found? ==> PrefixEndsAt(buf, PrefixScan(buf, b).at)
    decreases 12 - b
  {
    if b < |buf| && buf[b] != SOH && b <= 11 {
      PrefixScanCases(buf, b + 1);
    }
  }

  lemma {:induction false} LengthScanCases(buf: bytes, p: nat, b: nat)
    requires p + 3 <= b && forall i | p + 3 <= i < b && i < |buf| :: 0x30 <= buf[i] <= 0x39
    ensures LengthScan(buf, b).More? ==> forall i | p + 3 <= i < |buf| :: 0x30 <= buf[i] <= 0x39
    ensures LengthScan(buf, b).Bad? ==> exists i: nat :: RefusedDigit(buf, p, i)
    ensures LengthScan(buf, b).Found? ==> LengthEndsAt(buf, p, LengthScan(buf, b).at + 1)
    decreases |buf| - b
  {
    if b < |buf| && buf[b] != SOH {
      if IsDigit(buf[b]) {
        LengthScanCases(buf, p, b + 1);
      } else {
        assert RefusedDigit(buf, p, b);
      }
    }
  }

  lemma PrefixUnique(buf: bytes, p: nat, q: nat)
    requires PrefixEndsAt(buf, p) && PrefixEndsAt(buf, q)
    ensures p == q
  {
  }

  /** The digits end in one way only. */
  lemma LengthUnique(buf: bytes, p: nat, at: nat, other: nat)
    requires LengthEndsAt(buf, p, at)
    ensures LengthEndsAt(buf, p, other) ==> other == at
    ensures !RefusedDigit(buf, p, other)
    ensures !(forall i | p + 3 <= i < |buf| :: 0x30 <= buf[i] <= 0x39)
  {
    assert buf[at - 1] == 0x01;
    assert LengthEndsAt(buf, p, other) ==> buf[other - 1] == 0x01;
  }

  lemma RefusedUnique(buf: bytes, p: nat, i: nat, at: nat)
    requires RefusedDigit(buf, p, i)
    ensures !LengthEndsAt(buf, p, at)
    ensures !(forall j | p + 3 <= j < |buf| :: 0x30 <= buf[j] <= 0x39)
  {
    if LengthEndsAt(buf, p, at) {
      LengthUnique(buf, p, at, i);
    }
  }

  /** From MsgType on. */
  lemma BodyVerdict(buf: bytes, p: nat, at: nat)
    requires p + 4 <= at <= |buf| && buf[at - 1] == 0x01
    ensures RecogniseBody(buf, p, at, LengthAt(buf, p, at)).Incomplete? <==> EndsEarlyInBody(buf, p, at)
    ensures RecogniseBody(buf, p, at, LengthAt(buf, p, at)).Invalid? <==> WrongInBody(buf, p, at)
  {
    hide BodyLength;
  }

  /** From behind the BeginString on. */
  lemma LengthVerdict(buf: bytes, p: nat)
    requires PrefixEndsAt(buf, p) && PrefixScan(buf, 9) == Found(p)
    ensures Recognise(buf).Incomplete? <==> EndsEarlyBehind(buf, p)
    ensures Recognise(buf).Invalid? <==> WrongBehind(buf, p)
  {
    hide PrefixScan, LengthScan, RecogniseBody, BodyLength, LengthEndsAt, RefusedDigit, EndsEarlyInBody, WrongInBody;
    if p + 1 < |buf| && buf[p + 1] == 0x39 {
      LengthScanCases(buf, p, p + 3);
      var r := LengthScan(buf, p + 3);
      if r.Found? {
        var at := r.at + 1;
        AtFits(buf, p, at);
        BodyVerdict(buf, p, at);
        forall other: nat
          ensures LengthEndsAt(buf, p, other) ==> other == at
          ensures !RefusedDigit(buf, p, other)
        {
          LengthUnique(buf, p, at, other);
        }
        LengthUnique(buf, p, at, at);
      } else if r.Bad? {
        var i: nat :| RefusedDigit(buf, p, i);
        forall at: nat
          ensures !LengthEndsAt(buf, p, at)
        {
          RefusedUnique(buf, p, i, at);
        }
        RefusedUnique(buf, p, i, 0);
      } else {
        forall i: nat
          ensures !RefusedDigit(buf, p, i) && !LengthEndsAt(buf, p, i)
        {
          NotAmongDigits(buf, p, i);
        }
      }
    }
  }

  lemma AtFits(buf: bytes, p: nat, at: nat)
    requires LengthEndsAt(buf, p, at)
    ensures p + 4 <= at <= |buf| && buf[at - 1] == 0x01
  {
  }

  lemma NotAmongDigits(buf: bytes, p: nat, i: nat)
    requires forall j | p + 3 <= j < |buf| :: 0x30 <= buf[j] <= 0x39
    ensures !RefusedDigit(buf, p, i) && !LengthEndsAt(buf, p, i)
  {
    assert p + 4 <= i <= |buf| ==> 0x30 <= buf[i - 1] <= 0x39;
  }

  /**
   The verdict on any buffer, byte by byte: incomplete exactly when the buffer ends before
   the byte that would decide, invalid exactly when a byte that is there rules a frame out.
   */
  lemma VerdictExactly(buf: bytes)
    ensures Recognise(buf).Incomplete? <==> EndsTooEarly(buf)
    ensures Recognise(buf).Invalid? <==> HoldsWrongByte(buf)
  {
    if |buf| < 9 {
      assert Recognise(buf).Incomplete?;
    } else {
      PrefixScanCases(buf, 9);
      var r := PrefixScan(buf, 9);
      if r.Found? {
        LengthVerdict(buf, r.at);
        hide Recognise, EndsEarlyBehind, WrongBehind, PrefixScan;
        forall p: nat | PrefixEndsAt(buf, p)
          ensures p == r.at
        {
          PrefixUnique(buf, p, r.at);
        }
        PrefixRules(buf, r.at);
      } else {
        hide EndsEarlyBehind, WrongBehind, PrefixScan;
        forall p: nat
          ensures !PrefixEndsAt(buf, p)
        {
          NoPrefixRules(buf, p);
        }
      }
    }
  }

  lemma PrefixRules(buf: bytes, p: nat)
    requires PrefixEndsAt(buf, p)
    ensures !(|buf| <= 12 && forall i | 9 <= i < |buf| :: buf[i] != 0x01)
    ensures !(|buf| > 12 && forall i | 9 <= i <= 12 :: buf[i] != 0x01)
  {
  }

  lemma NoPrefixRules(buf: bytes, p: nat)
    requires (|buf| <= 12 && forall i | 9 <= i < |buf| :: buf[i] != 0x01)
             || (|buf| > 12 && forall i | 9 <= i <= 12 :: buf[i] != 0x01)
    ensures !PrefixEndsAt(buf, p)
  {
  }

  /** Cut to its own size, a frame is still recognised; cut shorter, it is not. */
  lemma FrameIsMinimal(buf: bytes, n: nat)
    requires Recognise(buf).Valid? && n <= |buf|
    ensures Recognise(buf[..n]) == if n < Recognise(buf).frame.Size() then Incomplete else Recognise(buf)
  {
    hide Recognise, Places;
    PrefixVerdict(buf, n);
    RecognisedPlaces(buf);
    var f := Recognise(buf).frame;
    if n < f.Size() {
      if Recognise(buf[..n]).Valid? {
        FrameFits(buf[..n]);
      }
    } else {
      CutPlaces(buf, n, f.prefixEnd, f.msgTypeAt, f.checkSumAt - f.msgTypeAt);
      PlacesRecognised(buf[..n], f.prefixEnd, f.msgTypeAt, f.checkSumAt - f.msgTypeAt);
    }
  }

  lemma FrameFits(buf: bytes)
    requires Recognise(buf).Valid?
    ensures Recognise(buf).frame.Size() <= |buf|
    ensures Recognise(buf).frame.prefixEnd >= 9 && Recognise(buf).frame.checkSumAt >= 17
  {
    RecognisedPlaces(buf);
    hide Recognise, BodyLength;
  }

  lemma CutPlaces(buf: bytes, cutAt: nat, p: nat, at: nat, n: nat)
    requires Places(buf, p, at, n) && at + n + 7 <= cutAt <= |buf|
    ensures Places(buf[..cutAt], p, at, n)
  {
    assert buf[..cutAt][p + 3..at - 1] == buf[p + 3..at - 1];
    hide BodyLength;
  }

  /** An invalid verdict takes at least 11 bytes; 10 bytes or fewer are always incomplete. */
  lemma VerdictNeedsEleven(buf: bytes)
    ensures |buf| <= 10 ==> Recognise(buf).Incomplete?
    ensures Recognise(buf).Invalid? ==> |buf| >= 11
  {
  }

  /** Eleven bytes can be enough: nothing but the byte behind the BeginString is wrong here. */
  lemma ElevenSuffice(begin: bytes, c: byte)
    requires |begin| == 9 && c != DIGIT_9
    ensures Recognise(begin + [SOH, c]).Invalid?
  {
    var buf := begin + [SOH, c];
    PrefixFound(buf, 9, 9);
  }

  // ----- the next frame

  predicate StartsFix(buf: bytes, b: nat) {
    b + 5 <= |buf| && buf[b..b + 5] == FIX_START
  }

  /** The five bytes a resync looks for: `8=FIX`. */
  lemma FixStart(buf: bytes, b: nat)
    ensures StartsFix(buf, b) <==>
            && b + 5 <= |buf|
            && buf[b] == 0x38 && buf[b + 1] == 0x3D && buf[b + 2] == 0x46 && buf[b + 3] == 0x49 && buf[b + 4] == 0x58
  {
    if b + 5 <= |buf| {
      assert buf[b..b + 5] == [buf[b], buf[b + 1], buf[b + 2], buf[b + 3], buf[b + 4]];
    }
  }

  /** The resync scan: the first `8=FIX` at or after `b`, or ten bytes before the end. */
  function ResyncFrom(buf: bytes, b: nat): (r: nat)
    requires |buf| >= 10
    ensures b <= r
    ensures b + 10 <= |buf| ==> r + 10 <= |buf|
    ensures forall i | b <= i < r :: !StartsFix(buf, i)
    ensures r + 10 < |buf| ==> StartsFix(buf, r)
    decreases |buf| - b
  {
    if b + 10 >= |buf| || StartsFix(buf, b) then b else ResyncFrom(buf, b + 1)
  }

  /** Where `next_message_reader` goes from a complete frame. */
  function NextOffset(buf: bytes): (r: nat)
    requires !Recognise(buf).Incomplete?
  {
    if Recognise(buf).Valid? then Recognise(buf).frame.Size()
    else if |buf| < 10 then |buf|
    else ResyncFrom(buf, 1)
  }

  /** Every step goes forward and stays inside the buffer. */
  lemma NextOffsetAdvances(buf: bytes)
    requires !Recognise(buf).Incomplete?
    ensures 1 <= NextOffset(buf) <= |buf|
  {
    VerdictNeedsEleven(buf);
    if Recognise(buf).Valid? {
      FrameFits(buf);
    }
    hide Recognise;
  }

  /** The reader over one buffer, set up once by its constructor. */
  class MessageReader {
    const buffer: bytes
    var isComplete: bool
    var isValid: bool
    var prefixEnd: nat
    var msgTypeAt: nat
    var msgTypeEnd: nat
    var checkSumAt: nat

    ghost function Abstract(): Verdict
      reads this
    {
      if !isComplete then Incomplete
      else if !isValid then Invalid
      else Valid(Frame(prefixEnd, msgTypeAt, msgTypeEnd, checkSumAt))
    }

    constructor (buffer: bytes)
      ensures this.buffer == buffer && Abstract() == Recognise(buffer)
    {
      this.buffer := buffer;
      isComplete, isValid := false, true;
      prefixEnd, msgTypeAt, msgTypeEnd, checkSumAt := 0, 0, 0, 0;
      new;
      Init();
    }

    method Invalidate()
      modifies this
      ensures Abstract() == Invalid
    {
      isComplete := true;
      isValid := false;
    }

    /** The scan for the end of the BeginString. */
    method ScanPrefix() returns (r: Scan)
      requires |buffer| >= 9
      ensures r == PrefixScan(buffer, 9)
    {
      var b := 9;
      while true
        invariant 9 <= b <= 12 && PrefixScan(buffer, b) == PrefixScan(buffer, 9)
        decreases 13 - b
      {
        if b >= |buffer| {
          return More;
        }
        if buffer[b] == SOH {
          return Found(b);
        }
        if b > 11 {
          return Bad;
        }
        b := b + 1;
      }
    }

    /** The scan over the BodyLength digits, accumulating them in 64 bits. */
    method ScanLength(from: nat) returns (r: Scan, n: nat)
      ensures r == LengthScan(buffer, from)
      ensures r.Found? ==> n == BodyLength(buffer[from..r.at])
    {
      var b := from;
      n := 0;
      while true
        invariant from <= b && (b <= |buffer| || b == from)
        invariant LengthScan(buffer, b) == LengthScan(buffer, from)
        invariant b <= |buffer| ==> n == DigitsValue(buffer[from..b]) % TWO_TO_THE_64
        decreases |buffer| - b
      {
        if b >= |buffer| {
          return More, n;
        }
        if buffer[b] == SOH {
          return Found(b), n;
        }
        if buffer[b] < ZERO || buffer[b] > NINE {
          return Bad, n;
        }
        assert buffer[from..b + 1][..b - from] == buffer[from..b];
        WrapStep(DigitsValue(buffer[from..b]), buffer[b] - ZERO);
        n := (n * 10 % TWO_TO_THE_64 + (buffer[b] - ZERO)) % TWO_TO_THE_64;
        b := b + 1;
      }
    }

    method Init()
      requires !isComplete && isValid
      modifies this
      ensures Abstract() == Recognise(buffer)
    {
      if |buffer| < 9 {
        return;
      }
      var prefix := ScanPrefix();
      if prefix.More? {
        return;
      }
      if prefix.Bad? {
        Invalidate();
        return;
      }
      prefixEnd := prefix.at;
      if prefixEnd + 1 >= |buffer| {
        return;
      }
      if buffer[prefixEnd + 1] != DIGIT_9 {
        Invalidate();
        return;
      }
      var length, n := ScanLength(prefixEnd + 3);
      if length.More? {
        return;
      }
      if length.Bad? {
        Invalidate();
        return;
      }
      hide PrefixScan, LengthScan, BodyLength;
      InitBody(length.at + 1, n);
    }

    /** The second half of `init`, from the MsgType field on. */
    method InitBody(b: nat, n: nat)
      requires !isComplete && isValid && b >= 1
      modifies this
      ensures Abstract() == RecogniseBody(buffer, old(prefixEnd), b, n)
    {
      if b + 3 >= |buffer| {
        return;
      }
      if buffer[b] != DIGIT_3 || buffer[b + 1] != DIGIT_5 {
        Invalidate();
        return;
      }
      if n > |buffer| - b {
        return;
      }
      var checksum := b + n;
      if checksum + 7 > |buffer| {
        return;
      }
      if buffer[checksum - 1] != SOH {
        Invalidate();
        return;
      }
      if buffer[checksum + 6] != SOH {
        Invalidate();
        return;
      }
      msgTypeAt := b;
      var end := FindSoh(buffer, b + 3, checksum);
      if end >= checksum {
        Invalidate();
        return;
      }
      msgTypeEnd := end;
      checkSumAt := checksum;
      isComplete := true;
    }

    /** `next_message_reader` */
    method NextMessageReader() returns (r: MessageReader)
      requires isComplete && Abstract() == Recognise(buffer)
      ensures fresh(r) && 1 <= NextOffset(buffer) <= |buffer|
      ensures r.buffer == buffer[NextOffset(buffer)..] && r.Abstract() == Recognise(r.buffer)
    {
      NextOffsetAdvances(buffer);
      if !isValid {
        if |buffer| < 10 {
          r := new MessageReader([]);
          return;
        }
        var b := 1;
        while b + 10 < |buffer|
          invariant 1 <= b && ResyncFrom(buffer, b) == ResyncFrom(buffer, 1)
        {
          if buffer[b..b + 5] == FIX_START {
            break;
          }
          b := b + 1;
        }
        r := new MessageReader(buffer[b..]);
        return;
      }
      r := new MessageReader(buffer[checkSumAt + 7..]);
    }

    /** `calculate_check_sum` */
    method CalculateCheckSum() returns (sum: byte)
      requires isComplete && isValid && Abstract() == Recognise(buffer)
      ensures checkSumAt <= |buffer| && sum == MessageModel.Checksum(buffer[..checkSumAt])
    {
      FrameFits(buffer);
      sum := MessageModel.ChecksumBytes(buffer[..checkSumAt]);
    }
  }

  lemma WrapStep(value: int, d: int)
    ensures (value % TWO_TO_THE_64 * 10 % TWO_TO_THE_64 + d) % TWO_TO_THE_64 == (value * 10 + d) % TWO_TO_THE_64
  {
    var q := value / TWO_TO_THE_64;
    assert value == q * TWO_TO_THE_64 + value % TWO_TO_THE_64;
  }
}
