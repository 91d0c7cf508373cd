/**
 Integers as ASCII: the validating parsers `try_atoi` / `try_atou`, and the
 writer `itoa_unchecked`, which emits digits backwards and reverses them in place.
 An `IntType` stands for any fixed-width C++ integer type, by its limits.
 */
module IntegerCodec {
  import opened Bytes
  import opened Digits

  /** A fixed-width integer type: its least and greatest value, and its `digits10`. */
  datatype IntType = IntType(signed: bool, max: nat, digits10: nat) {
    const min: int := if signed then 0 - max - 1 else 0

    ghost predicate Valid() {
      max >= 9 && Pow10(digits10) <= max + 1 < Pow10(digits10 + 1)
    }

    predicate Fits(n: int) {
      min <= n <= max
    }

    /** The two's complement reading of an unsigned word of this type's width. */
    function OfWord(u: int): int {
      if u <= max then u else u - 2 * (max + 1)
    }
  }

  const INT32: IntType := IntType(true, 0x7FFF_FFFF, 9)
  const INT64: IntType := IntType(true, 0x7FFF_FFFF_FFFF_FFFF, 18)
  const UINT64: IntType := IntType(false, 0xFFFF_FFFF_FFFF_FFFF, 19)

  predicate IsUnsigned(s: bytes) {
    |s| > 0 && AllDigits(s)
  }

  /** `-?[0-9]+` */
  predicate IsInteger(s: bytes) {
    IsUnsigned(s) || (|s| > 0 && s[0] == MINUS && IsUnsigned(s[1..]))
  }

  function IntegerValue(s: bytes): int {
    if |s| > 0 && s[0] == MINUS then -DigitsValue(s[1..]) else DigitsValue(s)
  }

  /** What a parser of type `ty` must answer on `s`. */
  function IntegerOf(s: bytes, ty: IntType): (r: Option<int>)
    ensures r.Some? ==> ty.Fits(r.value)
  {
    if (if ty.signed then IsInteger(s) else IsUnsigned(s)) && ty.Fits(IntegerValue(s))
    then Some(IntegerValue(s))
    else None
  }

  /** The text of `n`. */
  function Itoa(n: int): (s: bytes)
    ensures |s| >= 1
  {
    if n < 0 then [MINUS] + Utoa(-n) else Utoa(n)
  }

  /** One more digit that does not fit makes the whole string unrepresentable. */
  lemma TooLarge(s: bytes, k: nat, limit: nat)
    requires k < |s| && AllDigits(s[..k + 1])
    requires DigitsValue(s[..k]) * 10 + (s[k] - ZERO) > limit
    ensures AllDigits(s) ==> DigitsValue(s) > limit
  {
    assert s[..k + 1][..k] == s[..k];
    if AllDigits(s) {
      DigitsValuePrefix(s, k + 1);
    }
  }

  /**
   The digit loop shared by the signed and unsigned parsers: accumulate, refusing
   the first digit that would push the value over `limit`.
   */
  method AccumulateDigits(s: bytes, limit: nat) returns (r: Option<nat>)
    requires limit >= 9
    ensures r == if AllDigits(s) && DigitsValue(s) <= limit then Some(DigitsValue(s)) else None
  {
    var val := 0;
    var i := 0;
    while i < |s|
      invariant 0 <= i <= |s|
      invariant AllDigits(s[..i])
      invariant val == DigitsValue(s[..i]) && 0 <= val <= limit
    {
      var c := s[i];
      if c < ZERO || c > NINE {
        assert !IsDigit(s[i]);
        return None;
      }
      var d := c - ZERO;
      assert s[..i + 1][..i] == s[..i];
      assert AllDigits(s[..i + 1]);
      if val > (limit - d) / 10 {
        TooLarge(s, i, limit);
        return None;
      }
      val := val * 10 + d;
      i := i + 1;
    }
    assert s[..i] == s;
    return Some(val);
  }

  /** `U{0} - u` read back as a signed value is the negation, down to the minimum. */
  lemma NegatedWord(u: nat, ty: IntType)
    requires u <= ty.max + 1
    ensures ty.OfWord((0 - u) % (2 * (ty.max + 1))) == 0 - u
  {
    var modulus := 2 * (ty.max + 1);
    if u > 0 {
      ModUnique(0 - u, modulus, -1, modulus - u);
    } else {
      ModUnique(0, modulus, 0, 0);
    }
  }

  method TryAtoi(s: bytes, ty: IntType) returns (r: Option<int>)
    requires ty.Valid() && ty.signed
    ensures r == IntegerOf(s, ty)
  {
    if |s| == 0 {
      return None;
    }
    var neg := false;
    var body := s;
    if s[0] == MINUS {
      neg := true;
      body := s[1..];
      if |body| == 0 {
        return None;
      }
    }
    var limit := if neg then ty.max + 1 else ty.max;
    var val := AccumulateDigits(body, limit);
    if val.None? {
      return None;
    }
    if neg {
      NegatedWord(val.value, ty);
      return Some(ty.OfWord((0 - val.value) % (2 * (ty.max + 1))));
    }
    return Some(ty.OfWord(val.value));
  }

  method TryAtou(s: bytes, ty: IntType) returns (r: Option<nat>)
    requires ty.Valid() && !ty.signed
    ensures r == IntegerOf(s, ty)
  {
    if |s| == 0 {
      return None;
    }
    assert AllDigits(s) ==> IsDigit(s[0]);
    if AllDigits(s) {
      DigitsValueNonNegative(s);
    }
    r := AccumulateDigits(s, ty.max);
  }

  function Reverse(s: bytes): (r: bytes)
    ensures |r| == |s|
    ensures forall i | 0 <= i < |s| :: r[i] == s[|s| - 1 - i]
  {
    seq(|s|, i requires 0 <= i < |s| => s[|s| - 1 - i])
  }

  /** Reversing under way: from `first` to `lo` and from `hi` to `last` the bytes have changed places. */
  ghost predicate HalfReversed(was: bytes, now: bytes, first: nat, lo: nat, hi: nat, last: nat) {
    && |now| == |was| && first <= lo <= hi <= last <= |was| && lo - first == last - hi
    && (forall i | 0 <= i < first || last <= i < |was| :: now[i] == was[i])
    && (forall i | first <= i < lo :: now[i] == was[first + last - 1 - i])
    && (forall i | hi <= i < last :: now[i] == was[first + last - 1 - i])
    && (forall i | lo <= i < hi :: now[i] == was[i])
  }

  lemma HalfStep(was: bytes, now: bytes, first: nat, lo: nat, hi: nat, last: nat)
    requires HalfReversed(was, now, first, lo, hi, last) && lo + 1 < hi
    ensures hi <= |now| && HalfReversed(was, now[lo := now[hi - 1]][hi - 1 := now[lo]], first, lo + 1, hi - 1, last)
  {
    var next := now[lo := now[hi - 1]][hi - 1 := now[lo]];
    assert first + last - 1 - lo == hi - 1 && first + last - 1 - (hi - 1) == lo;
    assert next[lo] == was[hi - 1] && next[hi - 1] == was[lo];
    assert forall i | 0 <= i < |was| && i != lo && i != hi - 1 :: next[i] == now[i];
  }

  lemma HalfDone(was: bytes, now: bytes, first: nat, lo: nat, hi: nat, last: nat)
    requires HalfReversed(was, now, first, lo, hi, last) && hi - lo <= 1
    ensures now == Splice(was, first, Reverse(was[first..last]))
  {
    hide Splice, Reverse;
    var range, part := was[first..last], now[first..last];
    forall k | 0 <= k < |part|
      ensures part[k] == range[|range| - 1 - k]
    {
      var i := first + k;
      assert now[i] == was[first + last - 1 - i] by {
        if lo <= i < hi {
          assert first + last - 1 - i == i;
        }
      }
      assert range[|range| - 1 - k] == was[first + last - 1 - i];
    }
    IsReverse(range, part);
    OnlyWithin(was, now, first, last);
  }

  lemma IsReverse(range: bytes, part: bytes)
    requires |part| == |range| && forall k | 0 <= k < |part| :: part[k] == range[|range| - 1 - k]
    ensures part == Reverse(range)
  {
  }

  lemma OnlyWithin(was: bytes, now: bytes, first: nat, last: nat)
    requires first <= last <= |was| == |now|
    requires forall i | 0 <= i < first || last <= i < |was| :: now[i] == was[i]
    ensures now == Splice(was, first, now[first..last])
  {
    assert now == now[..first] + now[first..last] + now[last..];
    assert now[..first] == was[..first] && now[last..] == was[last..];
  }

  /** `std::reverse` on the range from `first` to `last`. */
  method ReverseInPlace(buffer: array<byte>, first: nat, last: nat)
    requires first <= last <= buffer.Length
    modifies buffer
    ensures buffer[..] == Splice(old(buffer[..]), first, Reverse(old(buffer[first..last])))
  {
    hide Splice, Reverse;
    ghost var was: bytes := buffer[..];
    assert was[first..last] == buffer[first..last];
    var lo, hi := first, last;
    while lo < hi
      invariant HalfReversed(was, buffer[..], first, lo, hi, last)
    {
      if hi - 1 == lo {
        break;
      }
      ghost var now: bytes := buffer[..];
      HalfStep(was, now, first, lo, hi, last);
      buffer[lo], buffer[hi - 1] := buffer[hi - 1], buffer[lo];
      assert buffer[..] == now[lo := now[hi - 1]][hi - 1 := now[lo]];
      lo, hi := lo + 1, hi - 1;
    }
    HalfDone(was, buffer[..], first, lo, hi, last);
  }

  /** What is left to emit and what has been emitted make up the whole. */
  ghost predicate Joined(whole: bytes, left: bytes, emitted: bytes) {
    whole == left + emitted
  }

  lemma JoinStep(whole: bytes, left: bytes, emitted: bytes, high: bytes, low: bytes)
    requires Joined(whole, left, emitted) && left == high + low
    ensures Joined(whole, high, low + emitted) && |whole| == |high| + |low| + |emitted|
  {
    assert (high + low) + emitted == high + (low + emitted);
  }

  lemma JoinEnds(whole: bytes)
    ensures Joined(whole, whole, [])
    ensures forall emitted: bytes :: Joined(whole, [], emitted) ==> emitted == whole
  {
    assert forall emitted: bytes :: [] + emitted == emitted;
  }

  /** Store one byte behind the bytes `out` already written over `before` at `at`. */
  method PutByte(buffer: array<byte>, ghost before: bytes, ghost at: nat, ghost out: bytes, b: nat, c: byte)
    returns (next: nat)
    requires |before| == buffer.Length && b == at + |out| < buffer.Length
    requires buffer[..] == Splice(before, at, out)
    modifies buffer
    ensures next == b + 1 && buffer[..] == Splice(before, at, out + [c])
    ensures Reverse(out + [c]) == [c] + Reverse(out)
  {
    buffer[b] := c;
    next := b + 1;
  }

  /** The final step of every digit writer: reverse what has been written. */
  method ReverseWritten(buffer: array<byte>, ghost before: bytes, at: nat, ghost out: bytes, b: nat)
    requires |before| == buffer.Length && b == at + |out| <= buffer.Length
    requires buffer[..] == Splice(before, at, out)
    modifies buffer
    ensures buffer[..] == Splice(before, at, Reverse(out))
  {
    assert buffer[at..b] == buffer[..][at..b];
    ReverseInPlace(buffer, at, b);
  }

  /** The digit loop: `out` is what it has written, least significant digit first. */
  method WriteDigits(buffer: array<byte>, at: nat, n: nat) returns (end: nat, ghost out: bytes)
    requires at + |Utoa(n)| <= buffer.Length
    modifies buffer
    ensures end == at + |out| && Reverse(out) == Utoa(n)
    ensures buffer[..] == Splice(old(buffer[..]), at, out)
  {
    hide Splice, Utoa, Reverse, Joined;
    ghost var before: bytes := buffer[..];
    var rest := n;
    out := [];
    SpliceNothing(before, at);
    JoinEnds(Utoa(n));
    end := at;
    var more := true;
    while more
      invariant end == at + |out| <= |before|
      invariant buffer[..] == Splice(before, at, out)
      invariant Joined(Utoa(n), if more then Utoa(rest) else [], Reverse(out))
      decreases more, rest
    {
      UtoaStep(rest);
      ghost var high: bytes := if rest / 10 > 0 then Utoa(rest / 10) else [];
      ghost var digit: bytes := [ZERO + rest % 10];
      JoinStep(Utoa(n), Utoa(rest), Reverse(out), high, digit);
      end := PutByte(buffer, before, at, out, end, ZERO + rest % 10);
      out := out + digit;
      rest := rest / 10;
      more := rest > 0;
    }
  }

  /**
   `utoa_unchecked` / `itoa_unchecked`: write the digits of `n` at `at`, least
   significant first, then the sign, then reverse what was written.
   */
  method ItoaUnchecked(buffer: array<byte>, at: nat, n: int) returns (end: nat)
    requires at + |Itoa(n)| <= buffer.Length
    modifies buffer
    ensures end == at + |Itoa(n)|
    ensures buffer[..] == Splice(old(buffer[..]), at, Itoa(n))
  {
    hide Splice, Utoa, Reverse;
    ghost var before: bytes := buffer[..];
    ghost var out: bytes;
    end, out := WriteDigits(buffer, at, if n < 0 then -n else n);
    if n < 0 {
      end := PutByte(buffer, before, at, out, end, MINUS);
      out := out + [MINUS];
    }
    ReverseWritten(buffer, before, at, out, end);
  }

  lemma UtoaStep(n: nat)
    ensures Utoa(n) == (if n / 10 > 0 then Utoa(n / 10) else []) + [ZERO + n % 10]
  {
  }

  /** Every value of a type, its minimum included, parses back from its own text. */
  lemma IntegerRoundTrip(n: int, ty: IntType)
    requires ty.Valid() && ty.Fits(n)
    ensures IntegerOf(Itoa(n), ty) == Some(n)
  {
    var magnitude := if n < 0 then -n else n;
    UtoaValue(magnitude);
    if n < 0 {
      assert Itoa(n)[1..] == Utoa(magnitude);
    } else {
      assert IsDigit(Itoa(n)[0]);
    }
  }

  /** The text of any value takes at most `max_ascii_chars` = `digits10` + 2 bytes. */
  lemma IntegerLength(n: int, ty: IntType)
    requires ty.Valid() && ty.Fits(n)
    ensures |Itoa(n)| <= ty.digits10 + 2
  {
    UtoaLength(if n < 0 then -n else n, ty.digits10 + 1);
  }

  lemma ItoaSohFree(n: int)
    ensures SohFree(Itoa(n)) && EQUALS !in Itoa(n)
  {
    DigitsSohFree(Utoa(if n < 0 then -n else n));
  }

  lemma StandardTypes()
    ensures INT32.Valid() && INT64.Valid() && UINT64.Valid()
  {
    assert Pow10(2) == 100;
    assert Pow10(4) == 100 * Pow10(2);
    assert Pow10(6) == 100 * Pow10(4);
    assert Pow10(8) == 100 * Pow10(6);
    assert Pow10(10) == 100 * Pow10(8) && Pow10(9) == 10 * Pow10(8);
    assert Pow10(12) == 100 * Pow10(10);
    assert Pow10(14) == 100 * Pow10(12);
    assert Pow10(16) == 100 * Pow10(14);
    assert Pow10(18) == 100 * Pow10(16) && Pow10(20) == 100 * Pow10(18);
    assert Pow10(19) == 10 * Pow10(18);
  }

  /** The three widths the library is used with. */
  lemma Widths()
    ensures forall n: int :: INT32.Fits(n) <==> -2_147_483_648 <= n <= 2_147_483_647
    ensures forall n: int :: INT64.Fits(n) <==> -9_223_372_036_854_775_808 <= n <= 9_223_372_036_854_775_807
    ensures forall n: int :: UINT64.Fits(n) <==> 0 <= n <= 18_446_744_073_709_551_615
    ensures INT32.Valid() && INT64.Valid() && UINT64.Valid()
  {
    StandardTypes();
  }

  /** A sign where the type has one, and at least one digit. */
  ghost predicate Reads(s: bytes, signed: bool, n: int, negative: bool, digits: bytes) {
    && |digits| > 0
    && (forall i | 0 <= i < |digits| :: 0x30 <= digits[i] <= 0x39)
    && (negative ==> signed)
    && s == (if negative then [0x2D] else []) + digits
    && n == (if negative then -DigitsValue(digits) else DigitsValue(digits))
  }

  /** What the integer parsers accept, and as what. */
  lemma IntegerGrammar(s: bytes, ty: IntType, n: int)
    ensures IntegerOf(s, ty) == Some(n) <==>
            && (if ty.signed then 0 - ty.max - 1 <= n <= ty.max else 0 <= n <= ty.max)
            && exists negative, digits :: Reads(s, ty.signed, n, negative, digits)
  {
    hide DigitsValue;
    assert AllDigits(s) && |s| > 0 ==> IsDigit(s[0]);
    if IntegerOf(s, ty) == Some(n) {
      if s[0] == MINUS {
        assert s == [0x2D] + s[1..];
        assert Reads(s, ty.signed, n, true, s[1..]);
      } else {
        assert s == [] + s;
        assert Reads(s, ty.signed, n, false, s);
      }
    }
    forall negative, digits | ty.Fits(n) && Reads(s, ty.signed, n, negative, digits)
      ensures IntegerOf(s, ty) == Some(n)
    {
      assert IsDigit(digits[0]);
      if negative {
        assert s[1..] == digits;
      } else {
        assert s == digits;
      }
    }
  }
}
