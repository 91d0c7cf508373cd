/**
 Decimal floats as ASCII: `dtoa_unchecked` writes mantissa * 10^exponent without
 normalising it, and `try_atod` reads it back.
 */
module DecimalCodec {
  import opened Bytes
  import opened Digits
  import opened IntegerCodec

  /** `m` without its `places` low decimal places. */
  function WholePart(m: nat, places: nat): nat {
    if places == 0 then m else WholePart(m / 10, places - 1)
  }

  function UnsignedDtoa(m: nat, places: nat): (s: bytes)
    ensures |s| >= 1
  {
    if places == 0 then Utoa(m) else Utoa(WholePart(m, places)) + [DOT] + Padded(m, places)
  }

  /** The text of mantissa * 10^exponent: `-exponent` digits stand behind the point. */
  function Dtoa(mantissa: int, exponent: int): (s: bytes)
    ensures |s| >= 1
  {
    (if mantissa < 0 then [MINUS] else []) + UnsignedDtoa(Magnitude(mantissa), Places(exponent))
  }

  /**
   `dtoa_unchecked` counts the exponent up once for every digit, in the integer type.
   Whether that count passes the greatest value of the type.
   */
  predicate CountOverflows(mantissa: int, exponent: int, ty: IntType) {
    exponent + |Utoa(Magnitude(mantissa))| > ty.max
  }

  /** The exponent that the loop acts on: past the greatest value it goes on from the least. */
  function ActsAs(mantissa: int, exponent: int, ty: IntType): int {
    if CountOverflows(mantissa, exponent, ty) then exponent - 2 * (ty.max + 1) else exponent
  }

  /** The text `dtoa_unchecked` writes for a mantissa and an exponent of type `ty`. */
  function DtoaIn(mantissa: int, exponent: int, ty: IntType): (s: bytes)
    ensures |s| >= 1
  {
    Dtoa(mantissa, ActsAs(mantissa, exponent, ty))
  }

  function Magnitude(n: int): nat {
    if n < 0 then -n else n
  }

  function Places(exponent: int): nat {
    if exponent < 0 then -exponent else 0
  }

  /** The text without its decimal points. */
  function Undotted(s: bytes): (r: bytes)
    ensures |r| <= |s|
  {
    if |s| == 0 then []
    else if s[|s| - 1] == DOT then Undotted(s[..|s| - 1])
    else Undotted(s[..|s| - 1]) + [s[|s| - 1]]
  }

  /** The number of bytes behind the last decimal point. */
  function FractionLength(s: bytes): (r: nat)
    ensures r <= |s|
  {
    if |s| == 0 || DOT !in s || s[|s| - 1] == DOT then 0 else FractionLength(s[..|s| - 1]) + 1
  }

  predicate AtMostOneDot(s: bytes) {
    forall i, j | 0 <= i < j < |s| :: !(s[i] == DOT && s[j] == DOT)
  }

  /** Digits with at most one decimal point among them, and at least one digit. */
  predicate IsUnsignedDecimal(s: bytes) {
    |Undotted(s)| > 0 && AllDigits(Undotted(s)) && AtMostOneDot(s)
  }

  function UnsignedPart(s: bytes): bytes {
    if |s| > 0 && s[0] == MINUS then s[1..] else s
  }

  /** What the decimal parser must answer: mantissa and exponent, or a refusal. */
  function DecimalOf(s: bytes, ty: IntType): Option<(int, int)> {
    var body := UnsignedPart(s);
    var m := if |s| > 0 && s[0] == MINUS then -DigitsValue(Undotted(body)) else DigitsValue(Undotted(body));
    if IsUnsignedDecimal(body) && ty.Fits(m) then Some((m, WrappedExponent(FractionLength(body), ty))) else None
  }

  /** The exponent after `places` decrements in the integer type. */
  function WrappedExponent(places: nat, ty: IntType): int {
    if places == 0 then 0
    else
      var e := WrappedExponent(places - 1, ty);
      if e == ty.min then ty.max else e - 1
  }

  lemma {:induction false} ExponentExact(places: nat, ty: IntType)
    requires ty.Valid() && ty.signed && places <= 2 * ty.max + 1
    ensures WrappedExponent(places, ty) == if places <= ty.max + 1 then 0 - places else 2 * (ty.max + 1) - places
  {
    if places > 0 {
      ExponentExact(places - 1, ty);
    }
  }

  lemma {:induction false} UndottedAppend(s: bytes, t: bytes)
    ensures Undotted(s + t) == Undotted(s) + Undotted(t)
  {
    if |t| == 0 {
      assert s + t == s;
    } else {
      assert (s + t)[..|s + t| - 1] == s + t[..|t| - 1];
      UndottedAppend(s, t[..|t| - 1]);
    }
  }

  lemma {:induction false} UndottedDigits(s: bytes)
    requires AllDigits(s)
    ensures Undotted(s) == s && FractionLength(s) == 0 && DOT !in s
  {
    DigitsSohFree(s);
    if |s| > 0 {
      UndottedDigits(s[..|s| - 1]);
      assert s == s[..|s| - 1] + [s[|s| - 1]];
    }
  }

  lemma {:induction false} FractionBehindDot(s: bytes, t: bytes)
    requires AllDigits(t)
    ensures FractionLength(s + [DOT] + t) == |t|
  {
    var whole := s + [DOT] + t;
    assert whole[|s|] == DOT;
    if |t| > 0 {
      assert IsDigit(t[|t| - 1]);
      assert whole[..|whole| - 1] == s + [DOT] + t[..|t| - 1];
      FractionBehindDot(s, t[..|t| - 1]);
    }
  }

  lemma UndottedSplit(s: bytes, k: nat)
    requires k < |s| && s[k] != DOT
    ensures Undotted(s[..k + 1]) == Undotted(s[..k]) + [s[k]]
    ensures Undotted(s) == Undotted(s[..k + 1]) + Undotted(s[k + 1..])
  {
    assert s[..k + 1][..k] == s[..k];
    assert s == s[..k + 1] + s[k + 1..];
    UndottedAppend(s[..k + 1], s[k + 1..]);
  }

  /** One more digit that does not fit makes the whole mantissa unrepresentable. */
  lemma MantissaTooLarge(s: bytes, k: nat, limit: nat)
    requires k < |s| && s[k] != DOT && AllDigits(Undotted(s[..k])) && IsDigit(s[k])
    requires DigitsValue(Undotted(s[..k])) * 10 + (s[k] - ZERO) > limit
    ensures AllDigits(Undotted(s)) ==> DigitsValue(Undotted(s)) > limit
  {
    UndottedSplit(s, k);
    hide Undotted;
    var digits, before := Undotted(s), Undotted(s[..k]);
    if AllDigits(digits) {
      assert digits[..|before|] == before && digits[|before|] == s[k];
      assert digits[..|before| + 1] == before + [s[k]];
      TooLarge(digits, |before|, limit);
    }
  }

  lemma UndottedMember(s: bytes, k: nat)
    requires k < |s| && s[k] != DOT
    ensures AllDigits(Undotted(s)) ==> IsDigit(s[k])
  {
    UndottedSplit(s, k);
    hide Undotted;
    assert Undotted(s)[|Undotted(s[..k])|] == s[k];
  }

  /** How one more byte changes what has been read so far. */
  lemma ReadOneMore(s: bytes, i: nat)
    requires i < |s|
    ensures s[i] == DOT ==> Undotted(s[..i + 1]) == Undotted(s[..i]) && FractionLength(s[..i + 1]) == 0
    ensures s[i] != DOT ==> Undotted(s[..i + 1]) == Undotted(s[..i]) + [s[i]]
                            && FractionLength(s[..i + 1]) == (if DOT in s[..i] then FractionLength(s[..i]) + 1 else 0)
    ensures DOT in s[..i + 1] <==> s[i] == DOT || DOT in s[..i]
    ensures AtMostOneDot(s[..i + 1]) <==> AtMostOneDot(s[..i]) && !(s[i] == DOT && DOT in s[..i])
  {
    var now, before := s[..i + 1], s[..i];
    assert now[..i] == before && now == before + [s[i]];
    assert forall k | 0 <= k < i :: now[k] == before[k];
  }

  lemma ValueOneMore(s: bytes, d: byte)
    ensures DigitsValue(s + [d]) == DigitsValue(s) * 10 + (d - ZERO)
  {
    assert (s + [d])[..|s|] == s;
  }

  /** A second point anywhere spoils the whole string. */
  lemma SecondDot(s: bytes, i: nat)
    requires i < |s| && s[i] == DOT && DOT in s[..i]
    ensures !AtMostOneDot(s)
  {
    var k :| 0 <= k < i && s[..i][k] == DOT;
    assert s[k] == DOT;
  }

  method AccumulateDecimal(s: bytes, limit: nat, ty: IntType) returns (r: Option<(nat, int)>)
    requires limit >= 9
    ensures r == if IsUnsignedDecimal(s) && DigitsValue(Undotted(s)) <= limit
                 then Some((DigitsValue(Undotted(s)), WrappedExponent(FractionLength(s), ty)))
                 else None
  {
    hide Undotted, FractionLength, AtMostOneDot;
    assert Undotted(s[..0]) == [] && FractionLength(s[..0]) == 0 && AtMostOneDot(s[..0]) by {
      EmptyText();
      assert s[..0] == [];
    }
    var m, e := 0, 0;
    var seenDot, seenDigit := false, false;
    var i := 0;
    while i < |s|
      invariant 0 <= i <= |s|
      invariant AllDigits(Undotted(s[..i])) && AtMostOneDot(s[..i])
      invariant m == DigitsValue(Undotted(s[..i])) && 0 <= m <= limit
      invariant seenDot == (DOT in s[..i])
      invariant seenDigit == (|Undotted(s[..i])| > 0)
      invariant e == WrappedExponent(FractionLength(s[..i]), ty)
      invariant !seenDot ==> FractionLength(s[..i]) == 0
    {
      var c := s[i];
      ReadOneMore(s, i);
      if c == DOT {
        if seenDot {
          SecondDot(s, i);
          return None;
        }
        seenDot := true;
      } else {
        if c < ZERO || c > NINE {
          UndottedMember(s, i);
          return None;
        }
        seenDigit := true;
        var d := c - ZERO;
        if m > (limit - d) / 10 {
          MantissaTooLarge(s, i, limit);
          return None;
        }
        ValueOneMore(Undotted(s[..i]), c);
        m := m * 10 + d;
        if seenDot {
          e := if e == ty.min then ty.max else e - 1;
        }
      }
      i := i + 1;
    }
    assert s[..i] == s;
    return if seenDigit then Some((m, e)) else None;
  }

  lemma EmptyText()
    ensures Undotted([]) == [] && FractionLength([]) == 0 && AtMostOneDot([])
  {
  }

  method TryAtod(s: bytes, ty: IntType) returns (r: Option<(int, int)>)
    requires ty.Valid() && ty.signed
    ensures r == DecimalOf(s, ty)
  {
    hide Undotted, FractionLength, AtMostOneDot, DigitsValue, WrappedExponent;
    if |s| == 0 {
      EmptyText();
      return None;
    }
    var neg := s[0] == MINUS;
    var body := s;
    if neg {
      body := s[1..];
      if |body| == 0 {
        EmptyText();
        return None;
      }
    }
    if AllDigits(Undotted(body)) {
      DigitsValueNonNegative(Undotted(body));
    }
    var parsed := AccumulateDecimal(body, if neg then ty.max + 1 else ty.max, ty);
    if parsed.None? {
      return None;
    }
    var (m, e) := parsed.value;
    if neg {
      NegatedWord(m, ty);
      return Some((ty.OfWord((0 - m) % (2 * (ty.max + 1))), e));
    }
    return Some((ty.OfWord(m), e));
  }

  /** `++exponent` in the integer type. */
  function Increment(exponent: int, ty: IntType): int {
    if exponent == ty.max then ty.min else exponent + 1
  }

  /** What the digit loop of `dtoa_unchecked` still has to emit, most significant byte first. */
  function Emitted(m: nat, exponent: int, ty: IntType): bytes
    requires ty.max > 0
    decreases m, Rank(exponent, ty)
  {
    var e := Increment(exponent, ty);
    var rest := if m / 10 > 0 || e < 1 then Emitted(m / 10, e, ty) else [];
    rest + ((if e == 0 then [DOT] else []) + [ZERO + m % 10])
  }

  /** One turn of the emitting loop. */
  lemma EmittedStep(m: nat, exponent: int, ty: IntType)
    requires ty.max > 0
    ensures var e := Increment(exponent, ty);
            Emitted(m, exponent, ty) ==
            (if m / 10 > 0 || e < 1 then Emitted(m / 10, e, ty) else [])
            + ((if e == 0 then [DOT] else []) + [ZERO + m % 10])
  {
  }

  /** The last digit of the decimal form, and what stands before it. */
  lemma UnsignedStep(m: nat, places: nat)
    requires places > 0
    ensures UnsignedDtoa(m, places) ==
            (if places == 1 then Utoa(m / 10) + [DOT] else UnsignedDtoa(m / 10, places - 1)) + [ZERO + m % 10]
  {
    PaddedStep(m, places);
    assert WholePart(m, places) == WholePart(m / 10, places - 1);
    hide WholePart, Padded, Utoa;
    var digit := [ZERO + m % 10];
    if places == 1 {
      assert Padded(m / 10, 0) == [];
      assert WholePart(m / 10, 0) == m / 10 by { WholeAll(m / 10); }
    } else {
      var whole, fraction := Utoa(WholePart(m / 10, places - 1)), Padded(m / 10, places - 1);
      assert whole + [DOT] + fraction + digit == whole + [DOT] + (fraction + digit);
    }
  }

  lemma WholeAll(m: nat)
    ensures WholePart(m, 0) == m
  {
  }

  /** While the count stays in the type, the emitting loop produces the decimal form. */
  lemma {:induction false} EmittedForm(m: nat, exponent: int, ty: IntType)
    requires ty.Valid() && ty.signed && ty.Fits(exponent) && exponent + |Utoa(m)| <= ty.max
    ensures Emitted(m, exponent, ty) == UnsignedDtoa(m, Places(exponent))
    decreases m, if exponent < 1 then 1 - exponent else 0
  {
    hide Emitted, Utoa, UnsignedDtoa;
    EmittedStep(m, exponent, ty);
    UtoaStep(m);
    UtoaStep(m / 10);
    UnsignedAll(m);
    UnsignedAll(m / 10);
    if m / 10 > 0 || exponent + 1 < 1 {
      EmittedForm(m / 10, exponent + 1, ty);
    }
    if exponent < 0 {
      UnsignedStep(m, Places(exponent));
    }
  }

  lemma UnsignedAll(m: nat)
    ensures UnsignedDtoa(m, 0) == Utoa(m)
  {
  }

  /** A count that passes the greatest value: the loop goes on as if from a far smaller exponent. */
  lemma {:induction false} EmittedPastMax(m: nat, exponent: int, ty: IntType)
    requires ty.Valid() && ty.signed && 0 < exponent <= ty.max && |Utoa(m)| <= ty.max
    requires exponent + |Utoa(m)| > ty.max
    ensures Emitted(m, exponent, ty) == UnsignedDtoa(m, 2 * (ty.max + 1) - exponent)
    decreases m
  {
    EmittedStep(m, exponent, ty);
    UtoaStep(m);
    if m / 10 == 0 {
      UtoaStep(0);
    }
    UnsignedStep(m, 2 * (ty.max + 1) - exponent);
    hide Emitted, UnsignedDtoa;
    if exponent == ty.max {
      EmittedForm(m / 10, ty.min, ty);
    } else {
      EmittedPastMax(m / 10, exponent + 1, ty);
    }
  }

  /** The mantissa of a type has few enough digits for its exponents. */
  lemma FewDigits(mantissa: int, ty: IntType)
    requires ty.Valid() && ty.Fits(mantissa)
    ensures |Utoa(Magnitude(mantissa))| <= ty.digits10 + 1 <= ty.max
    ensures ty.digits10 >= 1
  {
    UtoaLength(Magnitude(mantissa), ty.digits10 + 1);
    PowerAbove(ty.digits10);
    assert Pow10(1) == 10;
  }

  lemma {:induction false} PowerAbove(n: nat)
    ensures Pow10(n) > n && (n >= 1 ==> Pow10(n) >= n + 2)
  {
    if n > 0 {
      PowerAbove(n - 1);
    }
  }

  /** The emitting loop writes the text of the type, whether the count overflows or not. */
  lemma EmittedText(mantissa: int, exponent: int, ty: IntType)
    requires ty.Valid() && ty.signed && ty.Fits(mantissa) && ty.Fits(exponent)
    ensures CountOverflows(mantissa, exponent, ty) ==> exponent > 0
    ensures DtoaIn(mantissa, exponent, ty)
            == (if mantissa < 0 then [MINUS] else []) + Emitted(Magnitude(mantissa), exponent, ty)
  {
    hide Emitted, UnsignedDtoa, Utoa;
    FewDigits(mantissa, ty);
    if CountOverflows(mantissa, exponent, ty) {
      EmittedPastMax(Magnitude(mantissa), exponent, ty);
    } else {
      EmittedForm(Magnitude(mantissa), exponent, ty);
    }
  }

  lemma PaddedStep(m: nat, width: nat)
    requires width > 0
    ensures Padded(m, width) == Padded(m / 10, width - 1) + [ZERO + m % 10]
    ensures Padded(m, 0) == []
  {
  }

  /** One turn of the digit loop: a digit and, behind it, perhaps the point. */
  method PutDigit(buffer: array<byte>, ghost before: bytes, ghost at: nat, ghost out: bytes, b: nat, c: byte, point: bool)
    returns (next: nat, ghost longer: bytes)
    requires |before| == buffer.Length && b == at + |out| && b + (if point then 2 else 1) <= buffer.Length
    requires buffer[..] == Splice(before, at, out)
    modifies buffer
    ensures next == at + |longer| == b + (if point then 2 else 1)
    ensures buffer[..] == Splice(before, at, longer)
    ensures Reverse(longer) == ((if point then [DOT] else []) + [c]) + Reverse(out)
  {
    hide Splice, Reverse;
    next := PutByte(buffer, before, at, out, b, c);
    longer := out + [c];
    if point {
      next := PutByte(buffer, before, at, longer, next, DOT);
      assert [DOT] + ([c] + Reverse(out)) == ([DOT] + [c]) + Reverse(out);
      longer := longer + [DOT];
    } else {
      assert [] + [c] == [c];
    }
  }

  /** The digit loop: a point goes in when the counted-up exponent reaches zero. */
  method WritePlaces(buffer: array<byte>, at: nat, mantissa: nat, exponent: int, ty: IntType)
    returns (end: nat, ghost out: bytes)
    requires ty.max > 0 && at + |Emitted(mantissa, exponent, ty)| <= buffer.Length
    modifies buffer
    ensures end == at + |out| && Reverse(out) == Emitted(mantissa, exponent, ty)
    ensures buffer[..] == Splice(old(buffer[..]), at, out)
  {
    hide Splice, Emitted, Reverse, Joined, Increment;
    ghost var before: bytes := buffer[..];
    ghost var whole := Emitted(mantissa, exponent, ty);
    var m, e := mantissa, exponent;
    out := [];
    SpliceNothing(before, at);
    JoinEnds(whole);
    end := at;
    var more := true;
    while more
      invariant end == at + |out| <= |before|
      invariant buffer[..] == Splice(before, at, out)
      invariant Joined(whole, if more then Emitted(m, e, ty) else [], Reverse(out))
      decreases more, m, Rank(e, ty)
    {
      EmittedStep(m, e, ty);
      RankFalls(e, ty);
      ghost var left := Emitted(m, e, ty);
      e := Increment(e, ty);
      ghost var high := if m / 10 > 0 || e < 1 then Emitted(m / 10, e, ty) else [];
      ghost var low := (if e == 0 then [DOT] else []) + [ZERO + m % 10];
      JoinStep(whole, left, Reverse(out), high, low);
      end, out := PutDigit(buffer, before, at, out, end, ZERO + m % 10, e == 0);
      m := m / 10;
      more := m > 0 || e < 1;
    }
  }

  /** How far the count is from ending the loop. */
  function Rank(exponent: int, ty: IntType): nat {
    if exponent < 1 then 1 - exponent else 2 - ty.min
  }

  lemma RankFalls(exponent: int, ty: IntType)
    requires ty.max > 0
    ensures Increment(exponent, ty) < 1 ==> Rank(Increment(exponent, ty), ty) < Rank(exponent, ty)
  {
  }

  /** `dtoa_unchecked`, in place: the digits, the sign, and then the reversal. */
  method DtoaUnchecked(buffer: array<byte>, at: nat, mantissa: int, exponent: int, ty: IntType) returns (end: nat)
    requires ty.Valid() && ty.signed && ty.Fits(mantissa) && ty.Fits(exponent)
    requires at + |DtoaIn(mantissa, exponent, ty)| <= buffer.Length
    modifies buffer
    ensures end == at + |DtoaIn(mantissa, exponent, ty)|
    ensures buffer[..] == Splice(old(buffer[..]), at, DtoaIn(mantissa, exponent, ty))
  {
    hide Splice, Emitted, Reverse, DtoaIn;
    ghost var before: bytes := buffer[..];
    ghost var out: bytes;
    EmittedText(mantissa, exponent, ty);
    end, out := WritePlaces(buffer, at, Magnitude(mantissa), exponent, ty);
    if mantissa < 0 {
      end := PutByte(buffer, before, at, out, end, MINUS);
      out := out + [MINUS];
    }
    assert Reverse(out) == DtoaIn(mantissa, exponent, ty);
    ReverseWritten(buffer, before, at, out, end);
  }

  /** Whole part and padded fraction side by side are the digits of `m`. */
  lemma {:induction false} PlacesRejoined(m: nat, places: nat)
    ensures DigitsValue(Utoa(WholePart(m, places)) + Padded(m, places)) == m
    ensures AllDigits(Padded(m, places))
    decreases places
  {
    var s := Utoa(WholePart(m, places)) + Padded(m, places);
    if places == 0 {
      UtoaValue(m);
      assert s == Utoa(m);
    } else {
      PlacesRejoined(m / 10, places - 1);
      assert s[..|s| - 1] == Utoa(WholePart(m / 10, places - 1)) + Padded(m / 10, places - 1);
    }
  }

  /** Two digit strings around a point read as one mantissa with a fraction. */
  lemma DottedDigits(whole: bytes, fraction: bytes)
    requires AllDigits(whole) && AllDigits(fraction)
    ensures var s := whole + [DOT] + fraction;
            Undotted(s) == whole + fraction && FractionLength(s) == |fraction| && AtMostOneDot(s)
  {
    FractionBehindDot(whole, fraction);
    UndottedDigits(whole);
    UndottedDigits(fraction);
    UndottedAppend(whole, [DOT]);
    UndottedAppend(whole + [DOT], fraction);
    assert Undotted([DOT]) == [];
    hide Undotted, FractionLength;
    var s := whole + [DOT] + fraction;
    assert whole + [] + fraction == whole + fraction;
    assert forall i | 0 <= i < |s| && i != |whole| :: s[i] != DOT;
  }

  /** Reading the unsigned text back: the digits without the point are the mantissa. */
  lemma UnsignedRoundTrip(m: nat, places: nat)
    ensures var s := UnsignedDtoa(m, places);
            IsUnsignedDecimal(s) && DigitsValue(Undotted(s)) == m && FractionLength(s) == places
  {
    hide Undotted, FractionLength, DigitsValue, WholePart, Padded, Utoa;
    if places == 0 {
      UndottedDigits(Utoa(m));
      UtoaValue(m);
    } else {
      PlacesRejoined(m, places);
      DottedDigits(Utoa(WholePart(m, places)), Padded(m, places));
    }
  }

  lemma DecimalReadBack(mantissa: int, exponent: int, ty: IntType)
    requires ty.Fits(mantissa)
    ensures DecimalOf(Dtoa(mantissa, exponent), ty) == Some((mantissa, WrappedExponent(Places(exponent), ty)))
  {
    var m, places := Magnitude(mantissa), Places(exponent);
    var s, body := Dtoa(mantissa, exponent), UnsignedDtoa(m, places);
    UnsignedRoundTrip(m, places);
    assert body[0] != MINUS by {
      DigitsSohFree(if places == 0 then Utoa(m) else Utoa(WholePart(m, places)));
    }
    if mantissa < 0 {
      assert s[1..] == body;
    } else {
      assert s == body;
    }
  }

  /** What counting the places down, in the type, makes of the exponent acted on. */
  lemma CountedBack(mantissa: int, exponent: int, ty: IntType)
    requires ty.Valid() && ty.signed && ty.Fits(exponent)
    requires CountOverflows(mantissa, exponent, ty) ==> exponent > 0
    ensures WrappedExponent(Places(ActsAs(mantissa, exponent, ty)), ty) ==
            if exponent <= 0 || CountOverflows(mantissa, exponent, ty) then exponent else 0
  {
    hide CountOverflows, WrappedExponent;
    ExponentExact(Places(ActsAs(mantissa, exponent, ty)), ty);
  }

  /**
   A decimal written and read back is the same mantissa and exponent exactly when the
   exponent is not positive, or its count overflows: a positive exponent is not written
   at all, and one whose count overflows comes back by overflowing again.
   */
  lemma DecimalRoundTrip(mantissa: int, exponent: int, ty: IntType)
    requires ty.Valid() && ty.signed && ty.Fits(mantissa) && ty.Fits(exponent)
    ensures DecimalOf(DtoaIn(mantissa, exponent, ty), ty) == Some((mantissa, exponent)) <==>
            exponent <= 0 || CountOverflows(mantissa, exponent, ty)
    ensures exponent > 0 && !CountOverflows(mantissa, exponent, ty) ==>
              DecimalOf(DtoaIn(mantissa, exponent, ty), ty) == Some((mantissa, 0))
  {
    EmittedText(mantissa, exponent, ty);
    hide Dtoa, DecimalOf, CountOverflows, ActsAs, Emitted, WrappedExponent, Places;
    CountedBack(mantissa, exponent, ty);
    DecimalReadBack(mantissa, ActsAs(mantissa, exponent, ty), ty);
  }

  /** The exponents for which the writer reserves enough: few places, and a count that stays in the type. */
  predicate InReserve(mantissa: int, exponent: int, ty: IntType) {
    && (if mantissa < 0 then -exponent <= ty.digits10 else -exponent <= ty.digits10 + 1)
    && !CountOverflows(mantissa, exponent, ty)
  }

  lemma DtoaLength(mantissa: int, exponent: int, ty: IntType)
    requires ty.Valid() && ty.Fits(mantissa)
    ensures |Dtoa(mantissa, exponent)| <= ty.digits10 + 3 <==>
            if mantissa < 0 then -exponent <= ty.digits10 else -exponent <= ty.digits10 + 1
  {
    FewDigits(mantissa, ty);
    hide Utoa, WholePart, Padded, Pow10;
    var m, places := Magnitude(mantissa), Places(exponent);
    UtoaLength(m, ty.digits10 + 1);
    if 0 < places <= ty.digits10 {
      ShiftedLength(m, places, ty.digits10 + 1);
    } else if places == ty.digits10 + 1 {
      NoWhole(m, places);
    }
  }

  /** The text fits the space the writer reserves, `digits10` + 2 and one for the point, exactly then. */
  lemma DecimalLength(mantissa: int, exponent: int, ty: IntType)
    requires ty.Valid() && ty.signed && ty.Fits(mantissa) && ty.Fits(exponent)
    ensures |DtoaIn(mantissa, exponent, ty)| <= ty.digits10 + 3 <==> InReserve(mantissa, exponent, ty)
  {
    EmittedText(mantissa, exponent, ty);
    FewDigits(mantissa, ty);
    hide Emitted, Dtoa, CountOverflows;
    DtoaLength(mantissa, ActsAs(mantissa, exponent, ty), ty);
  }

  lemma {:induction false} NoWhole(m: nat, places: nat)
    requires m < Pow10(places)
    ensures WholePart(m, places) == 0 && |Utoa(0)| == 1
  {
    hide Utoa;
    UtoaStep(0);
    if places > 0 {
      assert Pow10(places) == 10 * Pow10(places - 1);
      NoWhole(m / 10, places - 1);
    }
  }

  /** An exponent near the greatest value of an eight-bit type: 5 bytes are reserved, 132 are written. */
  lemma OverflowingCount()
    ensures var ty := IntType(true, 127, 2);
            && ty.Valid() && ty.Fits(10) && ty.Fits(126)
            && CountOverflows(10, 126, ty) && |DtoaIn(10, 126, ty)| == 132 > ty.digits10 + 3
  {
    hide WholePart, Padded, Pow10, Utoa;
    SmallPowers();
    UtoaStep(10);
    UtoaStep(1);
    Pow10Monotone(2, 130);
    NoWhole(10, 130);
  }

  /** Dropping the low decimal places leaves that many digits fewer, but at least one. */
  lemma {:induction false} ShiftedLength(m: nat, places: nat, digits: nat)
    requires m < Pow10(digits) && places < digits
    ensures |Utoa(WholePart(m, places))| + places <= digits
    decreases places
  {
    if places == 0 {
      UtoaLength(m, digits);
    } else {
      ShiftedLength(m / 10, places - 1, digits - 1);
    }
  }

  lemma DtoaSohFree(mantissa: int, exponent: int)
    ensures SohFree(Dtoa(mantissa, exponent))
  {
    var m, places := Magnitude(mantissa), Places(exponent);
    DigitsSohFree(Utoa(m));
    DigitsSohFree(Utoa(WholePart(m, places)));
    PaddedSohFree(m, places);
  }

  // ---- the grammar ---------------------------------------------------------------------------

  /** A sign or none, digits, a point or none, digits behind it, and at least one digit in all. */
  ghost predicate ReadsDecimal(s: bytes, m: int, negative: bool, whole: bytes, dotted: bool, fraction: bytes) {
    && |whole| + |fraction| > 0 && AllDigits(whole) && AllDigits(fraction) && (!dotted ==> fraction == [])
    && s == (if negative then [0x2D] else []) + whole + (if dotted then [0x2E] else []) + fraction
    && m == (if negative then -DigitsValue(whole + fraction) else DigitsValue(whole + fraction))
  }

  /** An unsigned decimal falls into the digits in front of its point and those behind it. */
  lemma UnsignedSplits(s: bytes) returns (whole: bytes, dotted: bool, fraction: bytes)
    requires IsUnsignedDecimal(s)
    ensures AllDigits(whole) && AllDigits(fraction) && (!dotted ==> fraction == [])
    ensures s == whole + (if dotted then [0x2E] else []) + fraction
  {
    hide Undotted;
    forall k | 0 <= k < |s| && s[k] != DOT ensures IsDigit(s[k]) {
      UndottedMember(s, k);
    }
    dotted := DOT in s;
    whole, fraction := s, [];
    if dotted {
      var k :| 0 <= k < |s| && s[k] == DOT;
      whole, fraction := s[..k], s[k + 1..];
      assert s == s[..k] + [s[k]] + s[k + 1..];
    }
  }

  lemma UnsignedJoined(whole: bytes, dotted: bool, fraction: bytes)
    requires |whole| + |fraction| > 0 && AllDigits(whole) && AllDigits(fraction) && (!dotted ==> fraction == [])
    ensures var s := whole + (if dotted then [0x2E] else []) + fraction;
            && IsUnsignedDecimal(s) && Undotted(s) == whole + fraction && FractionLength(s) == |fraction|
            && s[0] != MINUS
  {
    hide Undotted, FractionLength;
    var s := whole + (if dotted then [0x2E] else []) + fraction;
    if dotted {
      DottedDigits(whole, fraction);
    } else {
      UndottedDigits(whole);
      assert s == whole && whole + fraction == whole;
    }
    if |whole| > 0 {
      assert IsDigit(whole[0]) && s[0] == whole[0];
    }
  }

  /** What the decimal parser accepts, and as what. */
  lemma DecimalGrammar(s: bytes, ty: IntType, m: int, e: int)
    requires ty.signed
    ensures DecimalOf(s, ty) == Some((m, e)) <==>
            && 0 - ty.max - 1 <= m <= ty.max
            && exists negative, whole, dotted, fraction ::
                 ReadsDecimal(s, m, negative, whole, dotted, fraction) && e == WrappedExponent(|fraction|, ty)
  {
    hide Undotted, FractionLength, DigitsValue, WrappedExponent;
    if DecimalOf(s, ty) == Some((m, e)) {
      var negative, body := |s| > 0 && s[0] == MINUS, UnsignedPart(s);
      var whole, dotted, fraction := UnsignedSplits(body);
      assert s == (if negative then [0x2D] else []) + body;
      ReadsBack(s, ty, m, negative, whole, dotted, fraction);
    }
    forall negative, whole, dotted, fraction | ty.Fits(m) && ReadsDecimal(s, m, negative, whole, dotted, fraction)
      ensures DecimalOf(s, ty) == Some((m, WrappedExponent(|fraction|, ty)))
    {
      DecimalReads(s, ty, m, negative, whole, dotted, fraction);
    }
  }

  lemma FourParts(a: bytes, b: bytes, c: bytes, d: bytes)
    ensures a + (b + c + d) == a + b + c + d
  {
  }

  lemma SignedBody(sign: bool, body: bytes)
    requires |body| > 0 && body[0] != MINUS
    ensures var s := (if sign then [0x2D] else []) + body;
            |s| > 0 && (s[0] == MINUS <==> sign) && UnsignedPart(s) == body
  {
  }

  lemma DecimalReads(s: bytes, ty: IntType, m: int, negative: bool, whole: bytes, dotted: bool, fraction: bytes)
    requires ty.Fits(m) && ReadsDecimal(s, m, negative, whole, dotted, fraction)
    ensures DecimalOf(s, ty) == Some((m, WrappedExponent(|fraction|, ty)))
  {
    hide Undotted, FractionLength, DigitsValue, WrappedExponent, AllDigits, UnsignedPart, AtMostOneDot, IsUnsignedDecimal;
    UnsignedJoined(whole, dotted, fraction);
    SignedBody(negative, whole + (if dotted then [0x2E] else []) + fraction);
    FourParts(if negative then [0x2D] else [], whole, if dotted then [0x2E] else [], fraction);
  }

  lemma PointAlone(dotted: bool)
    ensures Undotted(if dotted then [0x2E] else []) == []
  {
  }

  lemma ReadsBack(s: bytes, ty: IntType, m: int, negative: bool, whole: bytes, dotted: bool, fraction: bytes)
    requires AllDigits(whole) && AllDigits(fraction) && (!dotted ==> fraction == [])
    requires negative == (|s| > 0 && s[0] == MINUS) && UnsignedPart(s) == whole + (if dotted then [0x2E] else []) + fraction
    requires s == (if negative then [0x2D] else []) + UnsignedPart(s)
    requires DecimalOf(s, ty).Some? && DecimalOf(s, ty).value.0 == m
    ensures ReadsDecimal(s, m, negative, whole, dotted, fraction)
    ensures DecimalOf(s, ty).value.1 == WrappedExponent(|fraction|, ty)
  {
    hide Undotted, FractionLength, DigitsValue, WrappedExponent, AllDigits, UnsignedPart, AtMostOneDot;
    FourParts(if negative then [0x2D] else [], whole, if dotted then [0x2E] else [], fraction);
    NotEmpty(whole, dotted, fraction);
    UnsignedJoined(whole, dotted, fraction);
  }

  lemma NotEmpty(whole: bytes, dotted: bool, fraction: bytes)
    requires IsUnsignedDecimal(whole + (if dotted then [0x2E] else []) + fraction)
    ensures |whole| + |fraction| > 0
  {
    hide Undotted;
    var point: bytes := if dotted then [0x2E] else [];
    PointAlone(dotted);
    assert |whole| + |fraction| == 0 ==> whole + point + fraction == point;
  }
}
