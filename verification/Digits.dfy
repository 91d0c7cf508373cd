/**
 Decimal digit strings: what a string of digits is worth, and the two ways of
 writing a number as digits (shortest form, and padded to a fixed width).
 */
module Digits {
  import opened Bytes

  function Pow10(n: nat): (r: nat)
    ensures r >= 1
  {
    if n == 0 then 1 else 10 * Pow10(n - 1)
  }

  /** The number a digit string stands for. */
  function DigitsValue(s: bytes): int {
    if |s| == 0 then 0 else DigitsValue(s[..|s| - 1]) * 10 + (s[|s| - 1] - ZERO)
  }

  /** The shortest decimal form of `n`. */
  function Utoa(n: nat): (s: bytes)
    ensures |s| >= 1 && AllDigits(s)
  {
    if n < 10 then [ZERO + n] else Utoa(n / 10) + [ZERO + n % 10]
  }

  /** The remainder of C++'s division, which truncates toward zero. */
  function TruncMod10(x: int): (r: int)
    ensures -9 <= r <= 9
    ensures x >= 0 ==> r == x % 10
  {
    if x >= 0 then x % 10 else -((-x) % 10)
  }

  function TruncDiv10(x: int): (r: int)
    ensures x == 10 * r + TruncMod10(x)
    ensures x >= 0 ==> r == x / 10
  {
    if x >= 0 then x / 10 else -((-x) / 10)
  }

  /** The `width` low decimal places of `x`. */
  function Padded(x: int, width: nat): (s: bytes)
    ensures |s| == width
    decreases width
  {
    if width == 0 then [] else Padded(TruncDiv10(x), width - 1) + [ZERO + TruncMod10(x)]
  }

  lemma {:induction false} UtoaValue(n: nat)
    ensures DigitsValue(Utoa(n)) == n
  {
    if n < 10 {
      assert Utoa(n)[..0] == [];
    } else {
      UtoaValue(n / 10);
      assert Utoa(n)[..|Utoa(n)| - 1] == Utoa(n / 10);
    }
  }

  /** A number below 10^k takes at most k digits, and one at or above 10^k takes more than k. */
  lemma {:induction false} UtoaLength(n: nat, k: nat)
    ensures k >= 1 && n < Pow10(k) <==> |Utoa(n)| <= k
  {
    if n < 10 {
      if k >= 1 {
        Pow10Monotone(1, k);
      }
    } else if k >= 1 {
      UtoaLength(n / 10, k - 1);
      if k == 1 {
        assert Pow10(1) == 10;
      } else {
        assert n < 10 * Pow10(k - 1) <==> n / 10 < Pow10(k - 1);
      }
    }
  }

  lemma {:induction false} Pow10Monotone(a: nat, b: nat)
    requires a <= b
    ensures Pow10(a) <= Pow10(b)
  {
    if a < b {
      Pow10Monotone(a, b - 1);
    }
  }

  lemma {:induction false} PaddedDigits(x: nat, width: nat)
    ensures AllDigits(Padded(x, width))
    ensures DigitsValue(Padded(x, width)) == x % Pow10(width)
  {
    if width > 0 {
      var s := Padded(x, width);
      PaddedDigits(x / 10, width - 1);
      assert s[..width - 1] == Padded(x / 10, width - 1);
      ModTimes10(x, Pow10(width - 1));
    }
  }

  /** A number that fits is recovered from its padded digits. */
  lemma PaddedValue(x: nat, width: nat, limit: nat)
    requires limit == Pow10(width) && x < limit
    ensures |Padded(x, width)| == width && AllDigits(Padded(x, width)) && DigitsValue(Padded(x, width)) == x
  {
    hide Padded, Pow10, DigitsValue;
    PaddedDigits(x, width);
    ModUnique(x, limit, 0, x);
  }

  lemma SmallPowers()
    ensures Pow10(2) == 100 && Pow10(3) == 1000 && Pow10(4) == 10_000 && Pow10(6) == 1_000_000
    ensures Pow10(9) == 1_000_000_000
  {
    assert Pow10(1) == 10 && Pow10(2) == 100;
    assert Pow10(3) == 100 * Pow10(1) && Pow10(4) == 100 * Pow10(2);
    assert Pow10(5) == 100 * Pow10(3) && Pow10(6) == 100 * Pow10(4);
    assert Pow10(7) == 100 * Pow10(5) && Pow10(9) == 100 * Pow10(7);
  }

  lemma ModTimes10(x: nat, p: nat)
    requires p >= 1
    ensures x % (10 * p) == (x / 10) % p * 10 + x % 10
  {
    var q, r := (x / 10) / p, (x / 10) % p;
    assert x == 10 * p * q + (10 * r + x % 10) by {
      assert x / 10 == p * q + r;
      assert 10 * (p * q) == 10 * p * q;
    }
    assert 0 <= 10 * r + x % 10 < 10 * p;
    ModUnique(x, 10 * p, q, 10 * r + x % 10);
  }

  lemma MulAtLeast(m: int, d: int)
    requires m > 0 && d >= 1
    ensures m * d >= m
  {
  }

  lemma ModUnique(x: int, m: int, q: int, r: int)
    requires m > 0 && x == m * q + r && 0 <= r < m
    ensures x % m == r && x / m == q
  {
    var q', r' := x / m, x % m;
    var d := q' - q;
    assert m * d == m * q' - m * q == r - r';
    if d >= 1 {
      MulAtLeast(m, d);
    } else if d <= -1 {
      MulAtLeast(m, -d);
    }
  }

  lemma {:induction false} PaddedSohFree(x: int, width: nat)
    ensures SohFree(Padded(x, width))
    decreases width
  {
    if width > 0 {
      PaddedSohFree(TruncDiv10(x), width - 1);
    }
  }

  lemma {:induction false} DigitsValueNonNegative(s: bytes)
    requires AllDigits(s)
    ensures 0 <= DigitsValue(s)
  {
    if |s| > 0 {
      DigitsValueNonNegative(s[..|s| - 1]);
    }
  }

  /** A digit string is worth at least what any of its prefixes is. */
  lemma {:induction false} DigitsValuePrefix(s: bytes, k: nat)
    requires AllDigits(s) && k <= |s|
    ensures 0 <= DigitsValue(s[..k]) <= DigitsValue(s)
  {
    if k == |s| {
      assert s[..k] == s;
      DigitsValueNonNegative(s);
    } else {
      var init := s[..|s| - 1];
      DigitsValuePrefix(init, k);
      assert init[..k] == s[..k];
    }
  }

  /** Two digit runs side by side. */
  lemma {:induction false} DigitsAppend(a: bytes, b: bytes)
    ensures DigitsValue(a + b) == DigitsValue(a) * Pow10(|b|) + DigitsValue(b)
  {
    if |b| == 0 {
      assert a + b == a;
    } else {
      var c := b[..|b| - 1];
      assert (a + b)[..|a + b| - 1] == a + c;
      DigitsAppend(a, c);
      assert DigitsValue(a) * Pow10(|b|) == 10 * (DigitsValue(a) * Pow10(|c|));
    }
  }

  lemma DigitsSohFree(s: bytes)
    requires AllDigits(s)
    ensures SohFree(s) && EQUALS !in s && MINUS !in s && DOT !in s
  {
    forall i | 0 <= i < |s|
      ensures s[i] != SOH && s[i] != EQUALS && s[i] != MINUS && s[i] != DOT
    {
      assert IsDigit(s[i]);
    }
  }
}
