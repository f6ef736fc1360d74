/** Facts about Java's 32-bit integers that the hash map relies on. Bits are
    handled through the unsigned value of a 32-bit word (a nat below 2^32):
    `And` is Java's `&` on such values and `/ Pow2(n)` is `>>> n`. */
module JavaInt {

  const TwoTo32: nat := 0x1_0000_0000

  function Pow2(n: nat): (r: nat)
    ensures r >= 1
  {
    if n == 0 then 1 else 2 * Pow2(n - 1)
  }

  /** Bitwise and of two non-negative integers, one bit at a time. */
  function And(a: nat, b: nat): nat
  {
    if a == 0 || b == 0 then 0 else 2 * And(a / 2, b / 2) + (a % 2) * (b % 2)
  }

  /** Java's `x >>> n` on the unsigned value of a 32-bit word: the shift
      distance is taken modulo 32, so a distance of 32 shifts by nothing. */
  function UnsignedShiftRight(x: nat, n: nat): nat
  {
    x / Pow2(n % 32)
  }

  /** Java's wrap-around of an int result to 32 bits (two's complement). */
  function Wrap32(x: int): (r: int)
    ensures -0x8000_0000 <= r < 0x8000_0000
    ensures (r - x) % TwoTo32 == 0
  {
    var m := x % TwoTo32;
    if m < 0x8000_0000 then m else m - TwoTo32
  }

  /** Java's long division, which truncates toward zero: the quotient is the
      multiple of the divisor nearest the dividend on the side of zero. */
  function TruncDiv(a: int, b: int): (r: int)
    requires b > 0
    ensures a >= 0 ==> 0 <= r && 0 <= r * b <= a < r * b + b
    ensures a < 0 ==> r <= 0 && r * b - b < a <= r * b <= 0
  {
    if a >= 0 then
      DivBounds(a, b);
      a / b
    else
      DivBounds(-a, b);
      NegMul((-a) / b, b);
      -((-a) / b)
  }

  lemma DivBounds(a: int, b: int)
    requires a >= 0 && b > 0
    ensures 0 <= a / b && 0 <= (a / b) * b <= a < (a / b) * b + b
  {
    assert a == (a / b) * b + a % b;
  }

  lemma NegMul(q: int, b: int)
    ensures (-q) * b == -(q * b)
  {
  }

  lemma MulAtLeast(k: int, d: int)
    requires k >= 1 && d > 0
    ensures k * d >= d
  {
    assert k * d == (k - 1) * d + d;
  }

  /** Quotient and remainder are determined by h == q * d + r with 0 <= r < d. */
  lemma DivModUnique(h: int, d: int, q: int, r: int)
    requires d > 0 && 0 <= r < d && h == q * d + r
    ensures h / d == q && h % d == r
  {
    var q', r' := h / d, h % d;
    assert h == q' * d + r';
    assert q * d - q' * d == (q - q') * d;
    if q > q' {
      MulAtLeast(q - q', d);
    } else if q < q' {
      MulAtLeast(q' - q, d);
    }
  }

  lemma ModDouble(h: nat, p: nat)
    requires p >= 1
    ensures h % (2 * p) == 2 * ((h / 2) % p) + h % 2
  {
    var q := (h / 2) / p;
    var r := (h / 2) % p;
    assert h / 2 == q * p + r;
    assert h == 2 * (h / 2) + h % 2;
    assert h == q * (2 * p) + (2 * r + h % 2);
    DivModUnique(h, 2 * p, q, 2 * r + h % 2);
  }

  /** Masking with 2^s - 1 keeps the low s bits: `h & (2^s - 1) == h mod 2^s`. */
  lemma {:induction false} AndMask(h: nat, s: nat)
    ensures And(h, Pow2(s) - 1) == h % Pow2(s)
    ensures And(h, Pow2(s) - 1) < Pow2(s)
  {
    if s == 0 {
    } else if h == 0 {
    } else {
      AndMask(h / 2, s - 1);
      assert (Pow2(s) - 1) / 2 == Pow2(s - 1) - 1;
      assert (Pow2(s) - 1) % 2 == 1;
      ModDouble(h, Pow2(s - 1));
    }
  }

  /** Reducing modulo 2p and then modulo p is reducing modulo p. */
  lemma ModOfDouble(h: nat, p: nat)
    requires p >= 1
    ensures h % (2 * p) % p == h % p
  {
    var q := h / (2 * p);
    var r := h % (2 * p);
    assert h == (2 * q) * p + r;
    if r < p {
      DivModUnique(r, p, 0, r);
      DivModUnique(h, p, 2 * q, r);
    } else {
      DivModUnique(r, p, 1, r - p);
      DivModUnique(h, p, 2 * q + 1, r - p);
    }
  }

  lemma {:induction false} Pow2Add(a: nat, b: nat)
    ensures Pow2(a + b) == Pow2(a) * Pow2(b)
  {
    if a > 0 {
      Pow2Add(a - 1, b);
    }
  }

  lemma {:induction false} Pow2Monotone(a: nat, b: nat)
    requires a <= b
    ensures Pow2(a) <= Pow2(b)
  {
    if a < b {
      Pow2Monotone(a, b - 1);
    }
  }

  /** The powers of two the map's constants are written as. */
  lemma Pow2Values()
    ensures Pow2(16) == 0x1_0000 && Pow2(30) == 0x4000_0000 && Pow2(32) == 0x1_0000_0000
  {
    assert Pow2(8) == 256;
    assert Pow2(16) == 0x1_0000 by { Pow2Add(8, 8); }
    assert Pow2(14) == 0x4000 by { Pow2Add(8, 6); }
    Pow2Add(16, 14);
    Pow2Add(16, 16);
  }
}
