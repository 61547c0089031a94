/** Facts about integer division and exact real quotients used by the crop geometry. */
module Arith {

  /** A positive factor keeps the sign of a positive product on the other factor. */
  lemma PositiveFactor(b: int, k: int)
    requires b > 0 && b * k > 0
    ensures k > 0
  {
  }

  /** The quotient reaches every integer whose multiple by the divisor fits in the dividend. */
  lemma DivAtLeast(a: int, b: int, c: int)
    requires b > 0 && a >= b * c
    ensures a / b >= c
  {
    var q, r := a / b, a % b;
    assert a == b * q + r && r < b;
    assert b * (q - c + 1) == b * q - b * c + b;
    PositiveFactor(b, q - c + 1);
  }

  /** Dividing an exact multiple recovers the factor. */
  lemma DivExact(a: int, b: int, q: int)
    requires b > 0 && a == b * q
    ensures a / b == q
  {
    var q', r := a / b, a % b;
    assert a == b * q' + r && 0 <= r;
    DivAtLeast(a, b, q);
    assert b * (q - q' + 1) == b * q - b * q' + b;
    PositiveFactor(b, q - q' + 1);
  }

  /** The exact real quotient of two integers rounds down to their integer quotient. */
  lemma FloorOfQuotient(a: int, b: int)
    requires b > 0
    ensures (a as real / b as real).Floor == a / b
  {
    var q, r := a / b, a % b;
    assert a == b * q + r && 0 <= r < b;
    assert a as real == b as real * q as real + r as real;
    QuotientSplit(q as real, r as real, b as real);
    FractionBelowOne(r as real, b as real);
    var x := a as real / b as real;
    assert x == (b as real * q as real + r as real) / b as real;
    assert x == q as real + r as real / b as real;
    FloorBetween(x, q);
  }

  /** A real between `q` and `q + 1` rounds down to `q`. */
  lemma FloorBetween(x: real, q: int)
    requires q as real <= x < q as real + 1.0
    ensures x.Floor == q
  {
  }

  /** `(b * q + r) / b` is `q + r / b` over the reals. */
  lemma QuotientSplit(q: real, r: real, b: real)
    requires b > 0.0
    ensures (b * q + r) / b == q + r / b
  {
  }

  /** A fraction whose numerator lies in `[0, b)` lies in `[0, 1)`. */
  lemma FractionBelowOne(r: real, b: real)
    requires b > 0.0 && 0.0 <= r < b
    ensures 0.0 <= r / b < 1.0
  {
    AtLeastQuotient(1.0, r, b);
  }

  /** Comparing two ratios is comparing the cross products. */
  lemma RatioOrder(a: int, b: int, c: int, d: int)
    requires b > 0 && d > 0
    ensures a as real / b as real > c as real / d as real <==> a * d > c * b
  {
  }

  /** Multiplying both sides by a positive number keeps an order of integers. */
  lemma MulMono(x: int, y: int, m: int)
    requires m > 0 && x <= y
    ensures x * m <= y * m
  {
    assert y * m - x * m == (y - x) * m;
  }

  /**
    Two sizes `rx`, `ry` obtained by truncating `T * x / S` and `T * y / S`:
    the cross product `rx * y - ry * x` stays below `x`.
  */
  lemma TruncatedCrossBelow(S: int, T: int, x: int, y: int, rx: int, ry: int)
    requires S > 0 && x > 0 && y > 0
    requires S * rx <= T * x
    requires T * y < S * ry + S
    ensures rx * y - ry * x < x
  {
    MulMono(S * rx, T * x, y);
    MulMono(T * y + 1, S * ry + S, x);
    CrossIdentity(S, T, x, y, rx, ry);
    PositiveFactor(S, x - (rx * y - ry * x));
  }

  /** The ring identities behind TruncatedCrossBelow. */
  lemma CrossIdentity(S: int, T: int, x: int, y: int, rx: int, ry: int)
    ensures S * (x - (rx * y - ry * x)) == (S * ry + S) * x - (S * rx) * y
    ensures (T * y + 1) * x == (T * x) * y + x
  {
  }

  /** Over positive reals, `k * w` reaches `t` exactly when `k` reaches `t / w`. */
  lemma AtLeastQuotient(k: real, t: real, w: real)
    requires w > 0.0
    ensures k * w >= t <==> k >= t / w
  {
    assert (t / w) * w == t;
    assert k * w - t == (k - t / w) * w;
  }
}
