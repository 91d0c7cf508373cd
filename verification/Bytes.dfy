/**
 The bytes of a FIX buffer, the handful of character codes the wire format uses,
 fixed-width arithmetic, and the splicing of a run of bytes into a buffer.
 */
module Bytes {

  type byte = x: int | 0 <= x < 256
  type bytes = seq<byte>

  const SOH: byte := 0x01
  const MINUS: byte := 0x2D
  const DOT: byte := 0x2E
  const ZERO: byte := 0x30
  const NINE: byte := 0x39
  const COLON: byte := 0x3A
  const EQUALS: byte := 0x3D

  const TWO_TO_THE_31: int := 0x8000_0000
  const TWO_TO_THE_32: int := 0x1_0000_0000
  const TWO_TO_THE_63: int := 0x8000_0000_0000_0000
  const TWO_TO_THE_64: int := 0x1_0000_0000_0000_0000

  datatype Option<+T> = None | Some(value: T)

  predicate IsDigit(b: byte) {
    ZERO <= b <= NINE
  }

  predicate AllDigits(s: bytes) {
    forall i | 0 <= i < |s| :: IsDigit(s[i])
  }

  predicate SohFree(s: bytes) {
    SOH !in s
  }

  /** The value of a `char`, which is signed on some platforms and unsigned on others. */
  function CharValue(b: byte, charSigned: bool): (r: int)
    ensures -128 <= r < 256
    ensures b < 128 ==> r == b
  {
    if charSigned && b >= 128 then b - 256 else b
  }

  predicate IsInt64(x: int) {
    -TWO_TO_THE_63 <= x < TWO_TO_THE_63
  }

  predicate IsInt32(x: int) {
    -TWO_TO_THE_31 <= x < TWO_TO_THE_31
  }

  /** The conversion of any integer to a 32-bit two's complement `int`. */
  function ToInt32(x: int): (r: int)
    ensures IsInt32(r) && (r - x) % TWO_TO_THE_32 == 0
    ensures IsInt32(x) ==> r == x
  {
    var u := x % TWO_TO_THE_32;
    if u < TWO_TO_THE_31 then u else u - TWO_TO_THE_32
  }

  /** The conversion of any integer to a 32-bit `unsigned`. */
  function ToUint32(x: int): (r: nat)
    ensures r < TWO_TO_THE_32 && ToInt32(r) == ToInt32(x)
  {
    x % TWO_TO_THE_32
  }

  /** `buffer` with the bytes from `at` on overwritten by `x`. */
  function Splice(buffer: bytes, at: nat, x: bytes): (r: bytes)
    requires at + |x| <= |buffer|
    ensures |r| == |buffer|
  {
    buffer[..at] + x + buffer[at + |x|..]
  }

  /** Two adjacent writes are one write. */
  lemma SpliceTwice(buffer: bytes, at: nat, x: bytes, y: bytes)
    requires at + |x| + |y| <= |buffer|
    ensures Splice(Splice(buffer, at, x), at + |x|, y) == Splice(buffer, at, x + y)
  {
    var once := Splice(buffer, at, x);
    assert once[..at + |x|] == buffer[..at] + x;
    assert once[at + |x| + |y|..] == buffer[at + |x| + |y|..];
  }

  /** One more byte in front of a write. */
  lemma SpliceGrowFront(buffer: bytes, at: nat, c: byte, x: bytes)
    requires at + 1 + |x| <= |buffer|
    ensures Splice(buffer, at + 1, x)[at := c] == Splice(buffer, at, [c] + x)
  {
  }

  /** A write inside the first `n` bytes leaves the others alone. */
  lemma SpliceWithin(buffer: bytes, n: nat, at: nat, x: bytes)
    requires at + |x| <= n <= |buffer|
    ensures Splice(buffer, at, x)[..n] == Splice(buffer[..n], at, x)
    ensures Splice(buffer, at, x)[n..] == buffer[n..]
  {
  }

  lemma SpliceNothing(buffer: bytes, at: nat)
    requires at <= |buffer|
    ensures Splice(buffer, at, []) == buffer
  {
  }

  /** The first SOH of `s[from..to]`, `to` when there is none, `from` when the range is empty. */
  function FirstSoh(s: bytes, from: nat, to: nat): (r: nat)
    requires to <= |s|
    ensures from <= r
    ensures from <= to ==> r <= to
    ensures to <= from ==> r == from
    ensures forall i | from <= i < r :: s[i] != SOH
    ensures r < to ==> s[r] == SOH
    decreases if from <= to then to - from else 0
  {
    if from >= to || s[from] == SOH then from else FirstSoh(s, from + 1, to)
  }

  method FindSoh(s: bytes, from: nat, to: nat) returns (r: nat)
    requires to <= |s|
    ensures r == FirstSoh(s, from, to)
  {
    r := from;
    while r < to && s[r] != SOH
      invariant from <= r
      invariant FirstSoh(s, r, to) == FirstSoh(s, from, to)
    {
      r := r + 1;
    }
  }
}
