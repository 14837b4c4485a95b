/** The integer arithmetic of the tick count: the absl::int128 range and the C++
    division operators, which truncate toward zero (Dafny's own `/` and `%` are
    Euclidean, so they are not used on signed operands anywhere else). */
module Arith {

  const INT128_MIN: int := -0x8000_0000_0000_0000_0000_0000_0000_0000
  const INT128_MAX: int := 0x7fff_ffff_ffff_ffff_ffff_ffff_ffff_ffff

  predicate InInt128(x: int) {
    INT128_MIN <= x <= INT128_MAX
  }

  /** The values of a signed 128-bit integer. */
  type Int128 = x: int | InInt128(x)

  function Abs(x: int): nat {
    if x < 0 then -x else x
  }

  /** C++ `a / b` on signed integers: the exact quotient truncated toward zero. */
  function Quot(a: int, b: int): (q: int)
    requires b != 0
    ensures Abs(q) * Abs(b) <= Abs(a) < (Abs(q) + 1) * Abs(b)
    ensures q == 0 || ((q > 0) <==> ((a > 0) == (b > 0)))
  {
    var m := Abs(a) / Abs(b);
    DivBounds(Abs(a), Abs(b));
    assert Abs(a) == 0 ==> m == 0;
    var q := if (a < 0) == (b < 0) then m else -m;
    assert Abs(q) == m;
    q
  }

  /** Floor division of naturals brackets the dividend. */
  lemma DivBounds(x: nat, y: nat)
    requires y > 0
    ensures (x / y) * y <= x < (x / y + 1) * y
  {
    var m, r := x / y, x % y;
    assert x == m * y + r;
    assert (m + 1) * y == m * y + y;
  }

  /** C++ `a % b` on signed integers: the remainder that goes with `Quot`, whose
      sign is that of the dividend. */
  function Rem(a: int, b: int): (r: int)
    requires b != 0
    ensures a == b * Quot(a, b) + r
    ensures Abs(r) < Abs(b)
    ensures r == 0 || ((r > 0) == (a > 0))
  {
    RemBounds(a, b, Quot(a, b));
    a - b * Quot(a, b)
  }

  /** What is left of `a` after `q` times `b`, for the truncated quotient `q`. */
  lemma RemBounds(a: int, b: int, q: int)
    requires b != 0
    requires Abs(q) * Abs(b) <= Abs(a) < (Abs(q) + 1) * Abs(b)
    requires q == 0 || ((q > 0) <==> ((a > 0) == (b > 0)))
    ensures Abs(a - b * q) < Abs(b)
    ensures a - b * q == 0 || ((a - b * q > 0) == (a > 0))
  {
    var B: int, Q: int := Abs(b), Abs(q);
    assert (Q + 1) * B == Q * B + B;
    if q == 0 {
    } else if a > 0 {
      assert b * q == Q * B by {
        if b > 0 { assert q > 0; } else { assert q < 0 && b * q == (-b) * (-q); }
      }
    } else {
      assert b * q == -(Q * B) by {
        if b > 0 { assert q < 0 && b * q == -(b * (-q)); }
        else { assert q > 0 && b * q == -((-b) * q); }
      }
    }
  }

  /** `x` is an integer multiple of `p`. */
  predicate IsMultiple(x: int, p: int)
    requires p != 0
  {
    Rem(x, p) == 0
  }

  /** The truncated quotient and remainder are the only pair with their properties. */
  lemma QuotUnique(a: int, b: int, q: int, r: int)
    requires b != 0
    requires a == b * q + r
    requires Abs(r) < Abs(b)
    requires r == 0 || ((r > 0) == (a > 0))
    ensures Quot(a, b) == q && Rem(a, b) == r
  {
    DivModUnique(b, q, r, Quot(a, b), Rem(a, b));
  }

  /** Two quotient-remainder pairs of the same dividend, with remainders below the
      divisor in magnitude and not of opposite signs, are equal. */
  lemma DivModUnique(b: int, q: int, r: int, q': int, r': int)
    requires b != 0 && b * q + r == b * q' + r'
    requires Abs(r) < Abs(b) && Abs(r') < Abs(b)
    requires r == 0 || r' == 0 || ((r > 0) == (r' > 0))
    ensures q == q' && r == r'
  {
    assert b * (q - q') == r' - r by {
      assert b * (q - q') == b * q - b * q';
    }
    if q != q' {
      AbsProductAtLeast(b, q - q');
      assert false;
    }
  }

  lemma AbsProductAtLeast(b: int, k: int)
    requires k != 0
    ensures Abs(b * k) >= Abs(b)
  {
    var B: int, K: int := Abs(b), Abs(k);
    assert K >= 1;
    assert B * K >= B * 1 by { MulMonotone(B, 1, K); }
    assert Abs(b * k) == B * K by {
      if b < 0 && k < 0 { assert b * k == B * K; }
      else if b < 0 { assert b * k == -(B * K); }
      else if k < 0 { assert b * k == -(B * K); }
      else { assert b * k == B * K; }
    }
  }

  lemma MulMonotone(x: nat, y: int, z: int)
    requires y <= z
    ensures x * y <= x * z
  {
    assert x * z - x * y == x * (z - y);
  }

  /** An exact multiple divides without remainder. */
  lemma QuotOfMultiple(q: int, b: int)
    requires b != 0
    ensures Quot(q * b, b) == q && Rem(q * b, b) == 0
  {
    QuotUnique(q * b, b, q, 0);
  }

  /** Multiples of `p` are exactly the values `k * p`. */
  lemma MultipleIsProduct(x: int, p: int)
    requires p != 0
    ensures IsMultiple(x, p) <==> x == p * Quot(x, p)
  {
  }

  /** The remainder depends only on the magnitude of the divisor. */
  lemma RemNegatedDivisor(a: int, b: int)
    requires b != 0
    ensures Rem(a, -b) == Rem(a, b) && Quot(a, -b) == -Quot(a, b)
  {
    var q, r := Quot(a, b), Rem(a, b);
    assert a == (-b) * (-q) + r;
    QuotUnique(a, -b, -q, r);
  }

  /** Dafny's `/` and `%` with a positive divisor are floor division and its remainder;
      they are the only pair with these properties. */
  lemma FloorDivUnique(x: int, d: int, q: int, r: int)
    requires d > 0
    requires x == d * q + r
    requires 0 <= r < d
    ensures x / d == q && x % d == r
  {
    DivModUnique(d, q, r, x / d, x % d);
  }

  /** Floor division advances by one exactly when the next dividend is a multiple. */
  lemma FloorDivStep(x: int, d: int)
    requires d > 0
    ensures (x + 1) / d == x / d + (if (x + 1) % d == 0 then 1 else 0)
  {
    var q, r := x / d, x % d;
    if r == d - 1 {
      FloorDivUnique(x + 1, d, q + 1, 0);
    } else {
      FloorDivUnique(x + 1, d, q, r + 1);
    }
  }

  /** On a non-negative dividend and a positive divisor, truncation and floor agree. */
  lemma QuotOfNonnegative(a: int, b: int)
    requires a >= 0 && b > 0
    ensures Quot(a, b) == a / b && Rem(a, b) == a % b
  {
    QuotUnique(a, b, a / b, a % b);
  }

  /** Two distinct multiples of `p` are at least `|p|` apart. */
  lemma MultipleGap(x: int, y: int, p: int)
    requires p != 0 && IsMultiple(x, p) && IsMultiple(y, p) && x < y
    ensures y - x >= Abs(p)
  {
    var qx, qy := Quot(x, p), Quot(y, p);
    assert x == p * qx && y == p * qy;
    ProductGap(p, qx, qy);
  }

  lemma ProductGap(p: int, a: int, b: int)
    requires a != b
    ensures Abs(p * b - p * a) >= Abs(p)
  {
    assert p * b - p * a == p * (b - a);
    AbsProductAtLeast(p, b - a);
  }

  /** Moving a multiple of `p` by `|p|` in either direction gives a multiple again. */
  lemma MultipleShift(x: int, p: int)
    requires p != 0 && IsMultiple(x, p)
    ensures IsMultiple(x + Abs(p), p) && IsMultiple(x - Abs(p), p)
    ensures Quot(x + Abs(p), p) == Quot(x, p) + (if p > 0 then 1 else -1)
    ensures Quot(x - Abs(p), p) == Quot(x, p) - (if p > 0 then 1 else -1)
  {
    var q, s := Quot(x, p), if p > 0 then 1 else -1;
    assert x == q * p;
    ShiftProduct(q, s, p);
    QuotOfMultiple(q + s, p);
    QuotOfMultiple(q - s, p);
  }

  lemma ShiftProduct(q: int, s: int, p: int)
    requires s == (if p > 0 then 1 else -1)
    ensures q * p + Abs(p) == (q + s) * p && q * p - Abs(p) == (q - s) * p
  {
  }

  // ------------------------------------------------------- greatest common divisor

  /** The greatest common divisor of `a > 0` and `b`, by Euclid's algorithm: the
      factor by which `std::ratio` reduces a fraction to lowest terms. */
  function Gcd(a: nat, b: nat): (g: nat)
    requires a > 0
    ensures g > 0 && a % g == 0 && b % g == 0
    decreases b
  {
    if b == 0 then a
    else
      var g := Gcd(b, a % b);
      DividesDividend(a, b, g);
      g
  }

  /** A common divisor of `b` and `a % b` divides `a`. */
  lemma DividesDividend(a: nat, b: nat, c: nat)
    requires b > 0 && c > 0 && b % c == 0 && (a % b) % c == 0
    ensures a % c == 0
  {
    var q, r := a / b, a % b;
    var u, v := b / c, r / c;
    assert b == c * u && r == c * v;
    assert a == c * (u * q + v) by {
      assert a == b * q + r;
      assert b * q == c * (u * q);
    }
    FloorDivUnique(a, c, u * q + v, 0);
  }

  /** A common divisor of `a` and `b` divides `a % b`. */
  lemma DividesRemainder(a: nat, b: nat, c: nat)
    requires b > 0 && c > 0 && a % c == 0 && b % c == 0
    ensures (a % b) % c == 0
  {
    var q, r := a / b, a % b;
    var u, v := a / c, b / c;
    assert a == c * u && b == c * v;
    assert r == c * (u - v * q) by {
      assert r == a - b * q;
      assert b * q == c * (v * q);
    }
    FloorDivUnique(r, c, u - v * q, 0);
  }

  /** Every common divisor of `a` and `b` divides their greatest common divisor. */
  lemma {:induction false} GcdGreatest(a: nat, b: nat, c: nat)
    requires a > 0 && c > 0 && a % c == 0 && b % c == 0
    ensures Gcd(a, b) % c == 0
    decreases b
  {
    if b > 0 {
      DividesRemainder(a, b, c);
      GcdGreatest(b, a % b, c);
    }
  }

  /** A divisor of `a` is its own greatest common divisor with `a`. */
  lemma GcdOfDivisor(a: nat, d: nat)
    requires a > 0 && d > 0 && a % d == 0
    ensures Gcd(a, d) == d
  {
    assert Gcd(a, d) == Gcd(d, 0);
  }

  /** Dividing two numbers by their greatest common divisor leaves numbers whose
      greatest common divisor is 1: the fraction `a / b` in lowest terms. */
  lemma ReducedCoprime(a: nat, b: nat)
    requires a > 0
    ensures a / Gcd(a, b) > 0 && Gcd(a / Gcd(a, b), b / Gcd(a, b)) == 1
  {
    var g := Gcd(a, b);
    DivisorAtMost(a, g);
    var c := Gcd(a / g, b / g);
    ScaledDivides(a, c, g);
    ScaledDivides(b, c, g);
    GcdGreatest(a, b, c * g);
    DivisorAtMost(g, c * g);
    if c >= 2 {
      MulMonotone(g, 2, c);
    }
  }

  /** If `g` divides `n` and `c` divides `n / g`, then `c * g` divides `n`. */
  lemma ScaledDivides(n: nat, c: nat, g: nat)
    requires c > 0 && g > 0 && n % g == 0 && (n / g) % c == 0
    ensures c * g > 0 && n % (c * g) == 0
  {
    var m := n / g;
    var k := m / c;
    assert n == g * m && m == c * k;
    assert n == (c * g) * k;
    MulMonotone(g, 1, c);
    FloorDivUnique(n, c * g, k, 0);
  }

  /** A positive divisor of a positive number is at most that number, and the
      quotient is positive. */
  lemma DivisorAtMost(n: nat, d: nat)
    requires n > 0 && d > 0 && n % d == 0
    ensures d <= n && n / d > 0
  {
    var k := n / d;
    assert n == d * k;
    if k == 0 {
      assert false;
    }
    MulMonotone(d, 1, k);
  }

  /** Scaling dividend and divisor by the same positive factor keeps the truncated
      quotient. */
  lemma QuotScale(x: int, y: int, g: int)
    requires g > 0 && y != 0
    ensures Quot(g * x, g * y) == Quot(x, y)
  {
    var q, r := Quot(x, y), Rem(x, y);
    ScaleIdentity(x, y, q, r, g);
    var gx, gy, gr := g * x, g * y, g * r;
    assert Abs(gr) < Abs(gy) by {
      PositiveScale(g, y);
      PositiveScale(g, r);
      MulMonotone(g, Abs(r) + 1, Abs(y));
      assert g * (Abs(r) + 1) == g * Abs(r) + g;
    }
    assert gr == 0 || ((gr > 0) == (gx > 0)) by {
      PositiveScale(g, x);
      PositiveScale(g, r);
    }
    QuotUnique(gx, gy, q, gr);
  }

  lemma ScaleIdentity(x: int, y: int, q: int, r: int, g: int)
    requires x == y * q + r
    ensures g * x == (g * y) * q + g * r
  {
    assert g * (y * q + r) == (g * y) * q + g * r;
  }

  /** Multiplying by a positive factor scales the magnitude and keeps the sign. */
  lemma PositiveScale(g: int, x: int)
    requires g > 0
    ensures Abs(g * x) == g * Abs(x)
    ensures (g * x > 0) == (x > 0) && (g * x == 0) == (x == 0)
  {
    if x < 0 {
      assert g * x == -(g * -x);
      MulMonotone(g, 1, -x);
    } else if x > 0 {
      MulMonotone(g, 1, x);
    }
  }

  /** A truncated quotient by a non-zero divisor is no larger in magnitude than the
      dividend. */
  lemma QuotAtMost(x: int, y: int)
    requires y != 0
    ensures Abs(Quot(x, y)) <= Abs(x)
  {
    MulMonotone(Abs(Quot(x, y)), 1, Abs(y));
  }
}
