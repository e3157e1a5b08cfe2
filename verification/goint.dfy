/**
 Go's 64-bit signed integer arithmetic written out over Dafny's unbounded `int`.

 The counter works on `int64` and `int` (64 bits on the platforms it targets):
 additions and multiplications wrap around in two's complement, `/` truncates
 toward zero and `%` takes the sign of its dividend. Dafny's `/` and `%` are
 Euclidean, so the Go operators are defined here explicitly.
 */
module GoInt {

  const Int64Min: int := -0x8000_0000_0000_0000
  const Int64Max: int := 0x7fff_ffff_ffff_ffff
  /** The number of distinct int64 values. */
  const Modulus: int := 0x1_0000_0000_0000_0000

  predicate InInt64(x: int) {
    Int64Min <= x <= Int64Max
  }

  function Abs(x: int): nat {
    if x < 0 then -x else x
  }

  /** Two's-complement wrap-around: the int64 value congruent to `x` modulo 2^64. */
  function Wrap64(x: int): (r: int)
    ensures InInt64(r)
    ensures InInt64(x) ==> r == x
    ensures (x - r) % Modulus == 0
  {
    (x - Int64Min) % Modulus + Int64Min
  }

  /** Go's `a / b`: the quotient truncated toward zero. */
  function TruncDiv(a: int, b: int): (q: int)
    requires b != 0
    ensures 0 <= a && 0 < b ==> q == a / b
    ensures q >= 1 <==> (a < 0) == (b < 0) && Abs(b) <= Abs(a)
  {
    DivAtLeastOne(Abs(a), Abs(b));
    var q := Abs(a) / Abs(b);
    if (a < 0) != (b < 0) then -q else q
  }

  /** A non-negative quotient is at least one exactly when the divisor fits in the dividend. */
  lemma DivAtLeastOne(x: nat, y: nat)
    requires 0 < y
    ensures x / y >= 1 <==> y <= x
  {
    if y <= x {
      assert x == (x - y) + 1 * y;
      DivAddMultiple(x - y, 1, y);
    }
  }

  /** Go's `a % b`: the remainder whose sign is that of the dividend. */
  function GoRem(a: int, b: int): (r: int)
    requires b != 0
    ensures Abs(r) < Abs(b)
    ensures 0 <= a ==> 0 <= r
    ensures a < 0 ==> r <= 0
    ensures 0 <= a && 0 < b ==> r == a % b
  {
    var r := Abs(a) % Abs(b);
    if a < 0 then -r else r
  }

  /** Go's `int64 / int64`, where `math.MinInt64 / -1` overflows back to `math.MinInt64`. */
  function Quot64(a: int, b: int): (q: int)
    requires InInt64(a) && InInt64(b) && b != 0
    ensures InInt64(q)
    ensures q == Wrap64(TruncDiv(a, b))
    ensures 0 <= a && 0 < b ==> 0 <= q == a / b
  {
    QuotientBound(a, b);
    if a == Int64Min && b == -1 then Int64Min else TruncDiv(a, b)
  }

  /** Truncating division never grows the magnitude of the dividend. */
  lemma QuotientBound(a: int, b: int)
    requires b != 0
    ensures Abs(TruncDiv(a, b)) <= Abs(a)
    ensures 0 <= a && 0 < b ==> 0 <= a / b
  {
    var x, y := Abs(a), Abs(b);
    assert x == (x / y) * y + x % y;
    if x / y > x {
      MulAtLeast(y, x / y);
    }
  }

  /** A positive multiple of a positive number is at least that number. */
  lemma MulAtLeast(d: int, m: int)
    requires 1 <= d && 0 < m
    ensures d * m >= m
  {
    assert d * m == (d - 1) * m + m;
    assert (d - 1) * m >= 0;
  }

  /** Euclidean division has a unique quotient and remainder. */
  lemma DivModUnique(y: int, m: int, q: int, r: int)
    requires 0 < m && 0 <= r < m
    requires y == q * m + r
    ensures y / m == q && y % m == r
  {
    var q', r' := y / m, y % m;
    assert y == q' * m + r';
    if q' > q {
      MulAtLeast(q' - q, m);
      assert false;
    } else if q' < q {
      MulAtLeast(q - q', m);
      assert false;
    }
  }

  /** Adding k multiples of the divisor adds k to the quotient. */
  lemma DivAddMultiple(x: int, k: int, m: int)
    requires 0 < m
    ensures (x + k * m) / m == x / m + k
    ensures (x + k * m) % m == x % m
  {
    var q := x / m;
    assert x == q * m + x % m;
    assert x + k * m == (q + k) * m + x % m;
    DivModUnique(x + k * m, m, q + k, x % m);
  }

  /** Go's identity for its division operators: `a == (a / b) * b + a % b`. */
  lemma DivRemIdentity(a: int, b: int)
    requires b != 0
    ensures a == TruncDiv(a, b) * b + GoRem(a, b)
  {
    var q, r := Abs(a) / Abs(b), Abs(a) % Abs(b);
    assert Abs(a) == q * Abs(b) + r;
  }

  /** Wrapping an intermediate result does not change the wrapped sum. */
  lemma WrapAddLeft(a: int, b: int)
    ensures Wrap64(Wrap64(a) + b) == Wrap64(a + b)
  {
    var w := Wrap64(a);
    var k := (a - w) / Modulus;
    assert a - w == k * Modulus;
    DivAddMultiple(w + b - Int64Min, k, Modulus);
    assert (w + b - Int64Min) + k * Modulus == a + b - Int64Min;
  }

  /** Wrap-around preserves parity, because 2^64 is even. */
  lemma WrapPreservesEven(x: int)
    requires x % 2 == 0
    ensures Wrap64(x) % 2 == 0
  {
    var r := Wrap64(x);
    var k := (x - r) / Modulus;
    assert x - r == k * Modulus;
    assert Modulus == 2 * 0x8000_0000_0000_0000;
    assert r == x - 2 * (k * 0x8000_0000_0000_0000);
  }
}
