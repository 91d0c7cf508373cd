/**
 Digit-parallel parsing: four or eight ASCII digits are loaded into one
 little-endian machine word and combined by masking, multiplying and shifting.
 */
module Swar {
  import opened Bytes
  import opened Digits

  function Pow2(k: nat): (r: nat)
    ensures r >= 1
  {
    if k == 0 then 1 else 2 * Pow2(k - 1)
  }

  function BitAnd(a: nat, b: nat): nat {
    if a % 2 == 1 && b % 2 == 1 then 1 else 0
  }

  /** Bitwise and of two unsigned words. */
  function And(a: nat, b: nat): (r: nat)
    ensures r <= a && r <= b
  {
    if a == 0 || b == 0 then 0 else 2 * And(a / 2, b / 2) + BitAnd(a, b)
  }

  /** The little-endian word loaded from a run of bytes. */
  function Load(p: bytes): (r: nat) {
    if |p| == 0 then 0 else p[0] + 256 * Load(p[1..])
  }

  /** Lifting a split one bit to the left. */
  lemma AndStep(x: nat, m: nat, y: nat, n: nat, r: nat)
    requires And(x / 2 + y, m / 2 + n) == And(x / 2, m / 2) + r
    ensures And(x + 2 * y, m + 2 * n) == And(x, m) + 2 * r
  {
    hide And;
    AndHalves(x, m);
    AndHalves(x + 2 * y, m + 2 * n);
    assert (x + 2 * y) / 2 == x / 2 + y && (m + 2 * n) / 2 == m / 2 + n;
  }

  lemma TwiceTimes(p: nat, y: nat)
    ensures 2 * p * y == 2 * (p * y)
  {
  }

  /** Bitwise and works on low and high parts separately. */
  lemma {:induction false} AndParts(k: nat, x: nat, m: nat, y: nat, n: nat)
    requires x < Pow2(k) && m < Pow2(k)
    ensures And(x + Pow2(k) * y, m + Pow2(k) * n) == And(x, m) + Pow2(k) * And(y, n)
  {
    hide And;
    if k == 0 {
      assert x == 0 && m == 0 && Pow2(0) == 1;
    } else {
      var p := Pow2(k - 1);
      AndParts(k - 1, x / 2, m / 2, y, n);
      AndStep(x, m, p * y, p * n, p * And(y, n));
      TwiceTimes(p, y);
      TwiceTimes(p, n);
      TwiceTimes(p, And(y, n));
    }
  }

  lemma AndHalves(a: nat, b: nat)
    ensures And(a, b) == 2 * And(a / 2, b / 2) + BitAnd(a, b)
  {
  }

  /** A mask of k ones keeps what fits in k bits. */
  lemma {:induction false} AndOnes(k: nat, x: nat)
    requires x < Pow2(k)
    ensures And(x, Pow2(k) - 1) == x
  {
    if k > 0 && x > 0 {
      AndOnes(k - 1, x / 2);
      assert (Pow2(k) - 1) / 2 == Pow2(k - 1) - 1 && (Pow2(k) - 1) % 2 == 1;
    }
  }

  lemma PowersOfTwo()
    ensures Pow2(4) == 16 && Pow2(8) == 256 && Pow2(16) == 65536
  {
    assert Pow2(4) == 16;
    assert Pow2(8) == 16 * Pow2(4);
    assert Pow2(12) == 16 * Pow2(8);
  }

  /** One byte lane under the mask 0x0f or 0x00, the lanes above it under `n`. */
  lemma AndDigitLane(d: nat, keep: bool, y: nat, n: nat)
    requires d < 16
    ensures And(d + 256 * y, (if keep then 15 else 0) + 256 * n) == (if keep then d else 0) + 256 * And(y, n)
  {
    hide And, Pow2;
    PowersOfTwo();
    AndOnes(4, d);
    AndParts(8, d, if keep then 15 else 0, y, n);
  }

  /** One byte lane under the mask 0xff or 0x00, the lanes above it under `n`. */
  lemma AndByteLane(d: nat, keep: bool, y: nat, n: nat)
    requires d < 256
    ensures And(d + 256 * y, (if keep then 255 else 0) + 256 * n) == (if keep then d else 0) + 256 * And(y, n)
  {
    hide And, Pow2;
    PowersOfTwo();
    AndOnes(8, d);
    AndParts(8, d, if keep then 255 else 0, y, n);
  }

  function ParseTwoDigits(p: bytes, charSigned: bool): (r: nat)
    requires |p| >= 2
    ensures r < TWO_TO_THE_32
  {
    ToUint32(ToUint32(CharValue(p[0], charSigned) - ZERO) * 10 + ToUint32(CharValue(p[1], charSigned) - ZERO))
  }

  /** Pairs, then all four digit lanes of a word combined into one number. */
  function CombineQuad(v: nat): (r: nat)
    ensures r < TWO_TO_THE_32
  {
    var w := ToUint32(And(v, 0x000f000f) * 10 + And(v, 0x0f000f00) / 256);
    ToUint32(And(w, 0x000000ff) * 100 + And(w, 0x00ff0000) / 65536)
  }

  function ParseFourDigits(p: bytes): (r: nat)
    requires |p| >= 4
    ensures r < TWO_TO_THE_32
  {
    CombineQuad(ToUint32(Load(p[..4]) - 0x30303030))
  }

  function ToUint64(x: int): (r: nat)
    ensures r < TWO_TO_THE_64
  {
    x % TWO_TO_THE_64
  }

  /** Pairs, then quads, then all eight digit lanes of a word combined into one number. */
  function Combine(v: nat): (r: nat)
    ensures r < TWO_TO_THE_32
  {
    var w := ToUint64(And(v, 0x000f000f000f000f) * 10 + And(v, 0x0f000f000f000f00) / 256);
    var x := ToUint64(And(w, 0x000000ff000000ff) * 100 + And(w, 0x00ff000000ff0000) / 65536);
    ToUint32(ToUint64(And(x, 0x000000000000ffff) * 10000 + x / TWO_TO_THE_32))
  }

  function ParseEightDigits(p: bytes): (r: nat)
    requires |p| >= 8
    ensures r < TWO_TO_THE_32
  {
    Combine(ToUint64(Load(p[..8]) - 0x3030303030303030))
  }

  /** A word of digit lanes: the digits of `p`, one to a byte. */
  function Lanes(p: bytes): (r: nat)
    requires AllDigits(p)
  {
    if |p| == 0 then 0 else
      assert IsDigit(p[0]) && forall i | 0 <= i < |p[1..]| :: p[1..][i] == p[i + 1];
      p[0] - ZERO + 256 * Lanes(p[1..])
  }

  /** The word of n ones, one to a byte. */
  function Ones(n: nat): nat {
    if n == 0 then 0 else 1 + 256 * Ones(n - 1)
  }

  /** Subtracting '0' from every lane at once borrows nothing between digits. */
  lemma {:induction false} LoadDigits(p: bytes)
    requires AllDigits(p)
    ensures Load(p) == Lanes(p) + ZERO * Ones(|p|)
  {
    if |p| > 0 {
      assert forall i | 0 <= i < |p[1..]| :: p[1..][i] == p[i + 1];
      LoadDigits(p[1..]);
    }
  }

  lemma Ones48()
    ensures ZERO * Ones(4) == 0x30303030 && ZERO * Ones(8) == 0x3030303030303030
  {
    assert Ones(4) == 0x01010101;
    assert Ones(6) == 0x010101010101;
  }

  /** Four digit lanes under a mask of alternating nibbles, with lanes `y` above them. */
  lemma AlternateLanes4(d0: nat, d1: nat, d2: nat, d3: nat, even: bool, y: nat, n: nat)
    requires d0 < 16 && d1 < 16 && d2 < 16 && d3 < 16
    ensures And(d0 + 256 * d1 + 65536 * d2 + 0x100_0000 * d3 + TWO_TO_THE_32 * y,
                (if even then 0x000f000f else 0x0f000f00) + TWO_TO_THE_32 * n)
            == (if even then d0 + 65536 * d2 else 256 * (d1 + 65536 * d3)) + TWO_TO_THE_32 * And(y, n)
  {
    hide And;
    var v3, m3 := d3 + 256 * y, (if !even then 15 else 0) + 256 * n;
    AndDigitLane(d3, !even, y, n);
    var v2, m2 := d2 + 256 * v3, (if even then 15 else 0) + 256 * m3;
    AndDigitLane(d2, even, v3, m3);
    var v1, m1 := d1 + 256 * v2, (if !even then 15 else 0) + 256 * m2;
    AndDigitLane(d1, !even, v2, m2);
    var v0, m0 := d0 + 256 * v1, (if even then 15 else 0) + 256 * m1;
    AndDigitLane(d0, even, v1, m1);
    assert v0 == d0 + 256 * d1 + 65536 * d2 + 0x100_0000 * d3 + TWO_TO_THE_32 * y;
    assert m0 == (if even then 0x000f000f else 0x0f000f00) + TWO_TO_THE_32 * n;
  }

  /** Two-digit values in every other lane, under a mask for the even or the odd one. */
  lemma AlternateLanes2(e0: nat, e1: nat, even: bool, y: nat, n: nat)
    requires e0 < 256 && e1 < 256
    ensures And(e0 + 65536 * e1 + TWO_TO_THE_32 * y, (if even then 0x000000ff else 0x00ff0000) + TWO_TO_THE_32 * n)
            == (if even then e0 else 65536 * e1) + TWO_TO_THE_32 * And(y, n)
  {
    hide And;
    var v3, m3 := 256 * y, 256 * n;
    AndByteLane(0, false, y, n);
    var v2, m2 := e1 + 256 * v3, (if !even then 255 else 0) + 256 * m3;
    AndByteLane(e1, !even, v3, m3);
    var v1, m1 := 256 * v2, 256 * m2;
    AndByteLane(0, false, v2, m2);
    var v0, m0 := e0 + 256 * v1, (if even then 255 else 0) + 256 * m1;
    AndByteLane(e0, even, v1, m1);
    assert v0 == e0 + 65536 * e1 + TWO_TO_THE_32 * y;
    assert m0 == (if even then 0x000000ff else 0x00ff0000) + TWO_TO_THE_32 * n;
  }

  /** Four digits of a digit string, as a word of lanes and as a number. */
  lemma FourDigits(p: bytes)
    requires |p| == 4 && AllDigits(p)
    ensures var d0, d1, d2, d3 := p[0] - ZERO, p[1] - ZERO, p[2] - ZERO, p[3] - ZERO;
            && 0 <= d0 < 10 && 0 <= d1 < 10 && 0 <= d2 < 10 && 0 <= d3 < 10
            && Lanes(p) == d0 + 256 * d1 + 65536 * d2 + 0x100_0000 * d3
            && DigitsValue(p) == 1000 * d0 + 100 * d1 + 10 * d2 + d3
  {
    assert IsDigit(p[0]) && IsDigit(p[1]) && IsDigit(p[2]) && IsDigit(p[3]);
    assert p[1..][1..] == p[2..] && p[2..][1..] == p[3..] && p[3..][1..] == [];
    assert Lanes(p[3..]) == p[3] - ZERO;
    assert Lanes(p[2..]) == p[2] - ZERO + 256 * Lanes(p[3..]);
    assert Lanes(p[1..]) == p[1] - ZERO + 256 * Lanes(p[2..]);
    assert p[..3][..2] == p[..2] && p[..2][..1] == p[..1] && p[..1][..0] == [];
    assert DigitsValue(p[..1]) == p[0] - ZERO;
    assert DigitsValue(p[..2]) == DigitsValue(p[..1]) * 10 + (p[1] - ZERO);
    assert DigitsValue(p[..3]) == DigitsValue(p[..2]) * 10 + (p[2] - ZERO);
  }

  lemma {:induction false} LanesAppend(p: bytes, q: bytes)
    requires AllDigits(p) && AllDigits(q) && |p| <= 4
    ensures AllDigits(p + q)
    ensures Lanes(p + q) == Lanes(p) + (if |p| == 0 then 1 else if |p| == 1 then 256 else if |p| == 2 then 65536
                                        else if |p| == 3 then 0x100_0000 else TWO_TO_THE_32) * Lanes(q)
  {
    if |p| == 0 {
      assert p + q == q;
    } else {
      assert (p + q)[1..] == p[1..] + q;
      LanesAppend(p[1..], q);
    }
  }

  lemma {:induction false} ValueAppend4(p: bytes, q: bytes)
    requires |q| <= 4
    ensures DigitsValue(p + q) == DigitsValue(p) * (if |q| == 0 then 1 else if |q| == 1 then 10 else if |q| == 2 then 100
                                                    else if |q| == 3 then 1000 else 10000) + DigitsValue(q)
  {
    if |q| == 0 {
      assert p + q == p;
    } else {
      assert (p + q)[..|p + q| - 1] == p + q[..|q| - 1];
      ValueAppend4(p, q[..|q| - 1]);
    }
  }

  /** Both combining steps on four digit lanes. */
  lemma CombineFour(d0: nat, d1: nat, d2: nat, d3: nat)
    requires d0 < 10 && d1 < 10 && d2 < 10 && d3 < 10
    ensures CombineQuad(d0 + 256 * d1 + 65536 * d2 + 0x100_0000 * d3) == 1000 * d0 + 100 * d1 + 10 * d2 + d3
  {
    hide And, CombineQuad;
    FourPairs(d0, d1, d2, d3);
    QuadOfPairs(d0 + 256 * d1 + 65536 * d2 + 0x100_0000 * d3, 10 * d0 + d1, 10 * d2 + d3);
  }

  lemma QuadOfPairs(v: nat, e0: nat, e1: nat)
    requires e0 < 100 && e1 < 100 && And(v, 0x000f000f) * 10 + And(v, 0x0f000f00) / 256 == e0 + 65536 * e1
    ensures CombineQuad(v) == 100 * e0 + e1
  {
    hide And, ToUint32;
    TwoPairs(e0, e1);
    Small32(e0 + 65536 * e1);
    Small32(100 * e0 + e1);
  }

  lemma FourPairs(d0: nat, d1: nat, d2: nat, d3: nat)
    requires d0 < 10 && d1 < 10 && d2 < 10 && d3 < 10
    ensures var v := d0 + 256 * d1 + 65536 * d2 + 0x100_0000 * d3;
            And(v, 0x000f000f) * 10 + And(v, 0x0f000f00) / 256 == 10 * d0 + d1 + 65536 * (10 * d2 + d3)
  {
    hide And;
    AlternateLanes4(d0, d1, d2, d3, true, 0, 0);
    AlternateLanes4(d0, d1, d2, d3, false, 0, 0);
  }

  lemma TwoPairs(e0: nat, e1: nat)
    requires e0 < 100 && e1 < 100
    ensures var w := e0 + 65536 * e1;
            And(w, 0x000000ff) * 100 + And(w, 0x00ff0000) / 65536 == 100 * e0 + e1
  {
    hide And;
    AlternateLanes2(e0, e1, true, 0, 0);
    AlternateLanes2(e0, e1, false, 0, 0);
  }

  /** The digit-parallel parser on four digits is their decimal value. */
  lemma ParseFour(p: bytes)
    requires |p| == 4 && AllDigits(p)
    ensures ParseFourDigits(p) == DigitsValue(p)
  {
    hide Lanes, Load, Ones, CombineQuad, DigitsValue;
    assert p[..4] == p;
    LoadDigits(p);
    Ones48();
    FourDigits(p);
    CombineFour(p[0] - ZERO, p[1] - ZERO, p[2] - ZERO, p[3] - ZERO);
  }

  /** The first combining step on eight digit lanes leaves four two-digit lanes. */
  lemma PairStep(p: bytes)
    requires |p| == 8 && AllDigits(p)
    ensures var v := Lanes(p);
            v < TWO_TO_THE_64 &&
            And(v, 0x000f000f000f000f) * 10 + And(v, 0x0f000f000f000f00) / 256
            == 10 * (p[0] - ZERO) + (p[1] - ZERO) + 65536 * (10 * (p[2] - ZERO) + (p[3] - ZERO))
               + TWO_TO_THE_32 * (10 * (p[4] - ZERO) + (p[5] - ZERO) + 65536 * (10 * (p[6] - ZERO) + (p[7] - ZERO)))
  {
    hide And, Lanes;
    EightLanes(p);
    PairLanes(p[0] - ZERO, p[1] - ZERO, p[2] - ZERO, p[3] - ZERO,
              p[4] - ZERO, p[5] - ZERO, p[6] - ZERO, p[7] - ZERO);
  }

  lemma EightLanes(p: bytes)
    requires |p| == 8 && AllDigits(p)
    ensures forall i | 0 <= i < 8 :: 0 <= p[i] - ZERO < 10
    ensures Lanes(p) ==
            (p[0] - ZERO) + 256 * (p[1] - ZERO) + 65536 * (p[2] - ZERO) + 0x100_0000 * (p[3] - ZERO)
            + TWO_TO_THE_32 *
              ((p[4] - ZERO) + 256 * (p[5] - ZERO) + 65536 * (p[6] - ZERO) + 0x100_0000 * (p[7] - ZERO))
  {
    hide Lanes, DigitsValue;
    var lo, hi := p[..4], p[4..];
    FourDigits(lo);
    FourDigits(hi);
    LanesAppend(lo, hi);
    assert p == lo + hi;
    assert forall i | 0 <= i < 8 :: IsDigit(p[i]);
  }

  lemma PairLanes(d0: nat, d1: nat, d2: nat, d3: nat, d4: nat, d5: nat, d6: nat, d7: nat)
    requires d0 < 10 && d1 < 10 && d2 < 10 && d3 < 10 && d4 < 10 && d5 < 10 && d6 < 10 && d7 < 10
    ensures var v := d0 + 256 * d1 + 65536 * d2 + 0x100_0000 * d3
                     + TWO_TO_THE_32 * (d4 + 256 * d5 + 65536 * d6 + 0x100_0000 * d7);
            v < TWO_TO_THE_64 &&
            And(v, 0x000f000f000f000f) * 10 + And(v, 0x0f000f000f000f00) / 256
            == 10 * d0 + d1 + 65536 * (10 * d2 + d3) + TWO_TO_THE_32 * (10 * d4 + d5 + 65536 * (10 * d6 + d7))
  {
    hide And;
    PairLanesEven(d0, d1, d2, d3, d4, d5, d6, d7);
    PairLanesOdd(d0, d1, d2, d3, d4, d5, d6, d7);
  }

  lemma PairLanesEven(d0: nat, d1: nat, d2: nat, d3: nat, d4: nat, d5: nat, d6: nat, d7: nat)
    requires d0 < 10 && d1 < 10 && d2 < 10 && d3 < 10 && d4 < 10 && d5 < 10 && d6 < 10 && d7 < 10
    ensures And(d0 + 256 * d1 + 65536 * d2 + 0x100_0000 * d3
                + TWO_TO_THE_32 * (d4 + 256 * d5 + 65536 * d6 + 0x100_0000 * d7), 0x000f000f000f000f)
            == d0 + 65536 * d2 + TWO_TO_THE_32 * (d4 + 65536 * d6)
  {
    hide And;
    AlternateLanes4(d4, d5, d6, d7, true, 0, 0);
    AlternateLanes4(d0, d1, d2, d3, true, d4 + 256 * d5 + 65536 * d6 + 0x100_0000 * d7, 0x000f000f);
  }

  lemma PairLanesOdd(d0: nat, d1: nat, d2: nat, d3: nat, d4: nat, d5: nat, d6: nat, d7: nat)
    requires d0 < 10 && d1 < 10 && d2 < 10 && d3 < 10 && d4 < 10 && d5 < 10 && d6 < 10 && d7 < 10
    ensures And(d0 + 256 * d1 + 65536 * d2 + 0x100_0000 * d3
                + TWO_TO_THE_32 * (d4 + 256 * d5 + 65536 * d6 + 0x100_0000 * d7), 0x0f000f000f000f00)
            == 256 * (d1 + 65536 * d3 + TWO_TO_THE_32 * (d5 + 65536 * d7))
  {
    hide And;
    AlternateLanes4(d4, d5, d6, d7, false, 0, 0);
    AlternateLanes4(d0, d1, d2, d3, false, d4 + 256 * d5 + 65536 * d6 + 0x100_0000 * d7, 0x0f000f00);
  }

  /** The second step leaves two four-digit lanes, the third one number. */
  lemma QuadStep(e0: nat, e1: nat, e2: nat, e3: nat)
    requires e0 < 100 && e1 < 100 && e2 < 100 && e3 < 100
    ensures var w := e0 + 65536 * e1 + TWO_TO_THE_32 * (e2 + 65536 * e3);
            w < TWO_TO_THE_64 &&
            And(w, 0x000000ff000000ff) * 100 + And(w, 0x00ff000000ff0000) / 65536
            == 100 * e0 + e1 + TWO_TO_THE_32 * (100 * e2 + e3)
  {
    hide And;
    AlternateLanes2(e2, e3, true, 0, 0);
    AlternateLanes2(e2, e3, false, 0, 0);
    AlternateLanes2(e0, e1, true, e2 + 65536 * e3, 0x000000ff);
    AlternateLanes2(e0, e1, false, e2 + 65536 * e3, 0x00ff0000);
  }

  lemma LastStep(f0: nat, f1: nat)
    requires f0 < 10000 && f1 < 10000
    ensures var x := f0 + TWO_TO_THE_32 * f1;
            And(x, 0xffff) * 10000 + x / TWO_TO_THE_32 == f0 * 10000 + f1
  {
    PowersOfTwo();
    AndOnes(16, f0);
    AndParts(16, f0, 0xffff, 65536 * f1, 0);
    assert f0 + 65536 * (65536 * f1) == f0 + TWO_TO_THE_32 * f1;
  }

  /** The three combining steps, on two-digit values known to be below a hundred. */
  lemma CombineSteps(v: nat, e0: nat, e1: nat, e2: nat, e3: nat)
    requires e0 < 100 && e1 < 100 && e2 < 100 && e3 < 100
    requires And(v, 0x000f000f000f000f) * 10 + And(v, 0x0f000f000f000f00) / 256
             == e0 + 65536 * e1 + TWO_TO_THE_32 * (e2 + 65536 * e3)
    ensures Combine(v) == (100 * e0 + e1) * 10000 + (100 * e2 + e3)
  {
    hide And, Combine;
    var w, f0, f1 := e0 + 65536 * e1 + TWO_TO_THE_32 * (e2 + 65536 * e3), 100 * e0 + e1, 100 * e2 + e3;
    QuadStep(e0, e1, e2, e3);
    LastStep(f0, f1);
    CombineOf(v, w, f0 + TWO_TO_THE_32 * f1, f0 * 10000 + f1);
  }

  lemma CombineOf(v: nat, w: nat, x: nat, r: nat)
    requires And(v, 0x000f000f000f000f) * 10 + And(v, 0x0f000f000f000f00) / 256 == w < TWO_TO_THE_64
    requires And(w, 0x000000ff000000ff) * 100 + And(w, 0x00ff000000ff0000) / 65536 == x < TWO_TO_THE_64
    requires And(x, 0xffff) * 10000 + x / TWO_TO_THE_32 == r < TWO_TO_THE_32
    ensures Combine(v) == r
  {
    hide And, ToUint64, ToUint32;
    Small64(w);
    Small64(x);
    Small64(r);
    Small32(r);
  }

  lemma Small32(x: nat)
    requires x < TWO_TO_THE_32
    ensures ToUint32(x) == x
  {
  }

  lemma Small64(x: nat)
    requires x < TWO_TO_THE_64
    ensures ToUint64(x) == x
  {
  }

  /** The digit-parallel parser on eight digits is their decimal value. */
  lemma ParseEight(p: bytes)
    requires |p| == 8 && AllDigits(p)
    ensures ParseEightDigits(p) == DigitsValue(p)
  {
    hide And, Lanes, Load, Ones, Combine, DigitsValue;
    var lo, hi := p[..4], p[4..];
    assert p[..8] == p && p == lo + hi;
    LoadDigits(p);
    Ones48();
    PairStep(p);
    FourDigits(lo);
    FourDigits(hi);
    ValueAppend4(lo, hi);
    assert Lanes(p) == ToUint64(Load(p) - 0x3030303030303030) by {
      Small64(Lanes(p));
    }
    CombineSteps(Lanes(p),
                 10 * (p[0] - ZERO) + (p[1] - ZERO), 10 * (p[2] - ZERO) + (p[3] - ZERO),
                 10 * (p[4] - ZERO) + (p[5] - ZERO), 10 * (p[6] - ZERO) + (p[7] - ZERO));
  }

  lemma ParseTwo(p: bytes, charSigned: bool)
    requires |p| == 2 && AllDigits(p)
    ensures ParseTwoDigits(p, charSigned) == DigitsValue(p)
  {
    assert IsDigit(p[0]) && IsDigit(p[1]);
    assert p[..1][..0] == [];
    assert DigitsValue(p[..1]) == p[0] - ZERO;
  }
}
