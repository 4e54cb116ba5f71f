/** Java `int` arithmetic written out over Dafny's unbounded integers:
    32-bit wrap-around, division truncating toward zero, and the bits
    that `&` with a one-bit mask observes. */
module JavaInt {

  const IntMin: int := -0x8000_0000
  const IntMax: int := 0x7fff_ffff

  /** True when `n` fits in a Java `int`. */
  predicate IsInt(n: int) {
    IntMin <= n <= IntMax
  }

  /** The Java `int` that an exact result `n` wraps to. */
  function ToInt(n: int): (r: int)
    ensures IsInt(r)
    ensures IsInt(n) ==> r == n
    ensures (n - r) % 0x1_0000_0000 == 0
  {
    (n - IntMin) % 0x1_0000_0000 + IntMin
  }

  function Pow2(n: nat): (r: nat)
    ensures r >= 1
  {
    if n == 0 then 1 else 2 * Pow2(n - 1)
  }

  /** Java's `a / b` for a positive divisor: the quotient truncated toward zero. */
  function Quot(a: int, b: int): (q: int)
    requires b > 0
    ensures a >= 0 ==> q == a / b
    ensures a >= 0 ==> b * q <= a < b * q + b
    ensures a < 0 ==> b * q - b < a <= b * q
  {
    if a >= 0 then a / b else -((-a) / b)
  }

  /** Java's `a / b` for any non-zero divisor: truncated toward zero, with
      `Integer.MIN_VALUE / -1` wrapping back to `Integer.MIN_VALUE`. A zero
      divisor throws `ArithmeticException`. */
  function Div(a: int, b: int): (q: int)
    requires b != 0
    ensures IsInt(q)
    ensures IsInt(a) && b > 0 && a >= 0 ==> b * q <= a < b * q + b
    ensures IsInt(a) && b > 0 && a < 0 ==> b * q - b < a <= b * q
    ensures IsInt(a) && b < 0 && a >= 0 ==> b * q <= a < b * q - b
    ensures IsInt(a) && b < 0 && a < 0 && a != IntMin ==> b * q + b < a <= b * q
  {
    if b > 0 then
      QuotBetween(a, b);
      ToInt(Quot(a, b))
    else
      var q := Quot(a, -b);
      QuotBetween(a, -b);
      assert b * -q == (-b) * q;
      ToInt(-q)
  }

  /** A truncated quotient lies between 0 and the dividend. */
  lemma QuotBetween(a: int, b: int)
    requires b > 0
    ensures a >= 0 ==> 0 <= Quot(a, b) <= a
    ensures a < 0 ==> a <= Quot(a, b) <= 0
  {
    if a >= 0 {
      QuotOfNat(a, b);
    } else {
      QuotOfNat(-a, b);
    }
  }

  lemma QuotOfNat(a: nat, b: int)
    requires b > 0
    ensures 0 <= a / b <= a
  {
    var q := a / b;
    assert b * q + a % b == a;
    if q > 0 {
      MulMono(q, 1, b);
      assert q * b == b * q;
    }
  }

  /** Bit `b` of `x` in two's complement: whether `x & (1 << b)` is non-zero.
      Dafny's `/` and `%` by 2 round toward negative infinity, which is what
      an arithmetic shift does to a negative `int`. */
  function Bit(x: int, b: nat): (r: int)
    ensures r == 0 || r == 1
    decreases b
  {
    if b == 0 then x % 2 else Bit(x / 2, b - 1)
  }

  lemma MulAtLeast(d: int, k: int)
    requires d > 0 && k >= 1
    ensures d * k >= d
  {
    assert d * k == d * (k - 1) + d;
    assert d * (k - 1) >= 0;
  }

  lemma DivUnique(x: int, d: int, q: int, r: int)
    requires d > 0 && 0 <= r < d && x == d * q + r
    ensures x / d == q && x % d == r
  {
    var q0, r0 := x / d, x % d;
    assert x == d * q0 + r0;
    if q > q0 {
      assert d * (q - q0) == d * q - d * q0;
      MulAtLeast(d, q - q0);
    } else if q < q0 {
      assert d * (q0 - q) == d * q0 - d * q;
      MulAtLeast(d, q0 - q);
    }
  }

  lemma MulDistrib(a: int, b: int, c: int)
    ensures a * (b + c) == a * b + a * c
  {
  }

  lemma MulAssoc(a: int, b: int, c: int)
    ensures a * (b * c) == (a * b) * c
  {
  }

  lemma MulMono(a: int, b: int, c: int)
    requires a >= 0 && 0 <= b <= c
    ensures 0 <= a * b <= a * c
  {
    assert a * c - a * b == a * (c - b);
  }

  /** Dividing twice is dividing by the product (for positive divisors). */
  lemma DivDiv(x: int, a: int, b: int)
    requires a > 0 && b > 0
    ensures (x / a) / b == x / (a * b)
  {
    var q1, r1 := x / a, x % a;
    var q2, r2 := q1 / b, q1 % b;
    assert x == a * q1 + r1;
    assert q1 == b * q2 + r2;
    MulDistrib(a, b * q2, r2);
    MulAssoc(a, b, q2);
    assert a * q1 == (a * b) * q2 + a * r2;
    MulMono(a, r2, b - 1);
    MulDistrib(a, b, -1);
    assert 0 <= a * r2;
    assert 0 <= a * r2 + r1 < a * b;
    DivUnique(x, a * b, q2, a * r2 + r1);
  }

  /** Shifting right by `a` and then reading bit `b` reads bit `a + b`. */
  lemma {:induction false} BitOfShifted(x: int, a: nat, b: nat)
    ensures Bit(x / Pow2(a), b) == Bit(x, a + b)
    decreases a
  {
    if a > 0 {
      BitOfShifted(x / 2, a - 1, b);
      DivDiv(x, 2, Pow2(a - 1));
    }
  }
}
