/**
 The arithmetic of module Scaling as the operator really performs it: in 64-bit floating
 point, through a rounding about which only the guarantees of IEEE 754 are used.
 */
module FloatCeiling {
  import opened Scaling

  const TWO53: int := 0x20_0000_0000_0000

  /** Above every machine integer. */
  const TWO63: int := 0x8000_0000_0000_0000

  predicate Whole(x: real) {
    x.Floor as real == x
  }

  predicate Ordered(x: real, y: real) {
    0.0 <= x <= y
  }

  /**
   Round to nearest (section 4.3.1 of IEEE 754-2019), as far as it is needed here: monotone,
   exact on the integers up to 2^53 and on 2^63, and, for all quotients of machine integers
   up to 2^53, never more than one part in 2^53 below the exact value.
   */
  ghost predicate Rounding(rnd: real -> real) {
    && (forall x, y {:trigger Ordered(x, y)} :: Ordered(x, y) ==> rnd(x) <= rnd(y))
    && (forall x :: 0.0 <= x <= TWO53 as real && Whole(x) ==> rnd(x) == x)
    && rnd(TWO63 as real) == TWO63 as real
    && (forall x :: 1.0 <= x * TWO63 as real && x <= TWO53 as real ==> (x - rnd(x)) * TWO53 as real <= x)
  }

  /** math.Ceil, as an integer. */
  function Ceil(x: real): int {
    -((-x).Floor)
  }

  lemma RoundedKeepsBounds(rnd: real -> real, x: real)
    requires Rounding(rnd) && 0.0 <= x
    ensures 0.0 <= rnd(x) && (1.0 <= x ==> 1.0 <= rnd(x))
  {
    assert Whole(0.0) && rnd(0.0) == 0.0 && Whole(1.0) && rnd(1.0) == 1.0;
    assert Ordered(0.0, x) && (1.0 <= x ==> Ordered(1.0, x));
  }

  /** float64(n) / float64(d), rounded up. */
  function FloatCeilDiv(rnd: real -> real, n: nat, d: nat): (r: int)
    requires Rounding(rnd) && d >= 1
    ensures r >= 0
  {
    RoundedKeepsBounds(rnd, n as real);
    RoundedKeepsBounds(rnd, d as real);
    RoundedKeepsBounds(rnd, rnd(n as real) / rnd(d as real));
    Ceil(rnd(rnd(n as real) / rnd(d as real)))
  }

  lemma CeilDivAtMost(n: nat, d: nat)
    requires d >= 1
    ensures CeilDiv(n, d) <= n
  {
    assert n <= n * d;
    CeilDivLeast(n, d, n);
  }

  lemma QuotientInRange(a: real, b: real, q: real, top: real, far: real)
    requires 1.0 <= a < top && 1.0 <= b <= far && q * b == a
    ensures 0.0 < q && 1.0 <= q * far && q <= top
  {
    assert 0.0 < q;
    assert q * b <= q * far;
    assert q * 1.0 <= q * b;
  }

  lemma ProductsCommute(e: real, t: real, b: real)
    ensures (e * t) * b == (e * b) * t
  {
  }

  lemma RealProductMonotone(y: real, q: real, b: real)
    requires y <= q && 0.0 <= b
    ensures y * b <= q * b
  {
  }

  lemma ErrorBelowOne(a: real, b: real, q: real, err: real, top: real)
    requires 0.0 <= a < top && 1.0 <= b && q * b == a && err * top <= q
    ensures err * b < 1.0
  {
    ProductsCommute(err, top, b);
    RealProductMonotone(err * top, q, b);
    AboveMultiple(1.0, err * b, top);
  }

  lemma AboveMultiple(r: real, m: real, b: real)
    requires 0.0 < b && m * b < r * b
    ensures m < r
  {
  }

  lemma NotAbove(r: real, m: real, b: real)
    requires 0.0 < b && r * b <= m * b
    ensures r <= m
  {
  }

  lemma IntProduct(c: int, d: int)
    ensures (c * d) as real == c as real * d as real
  {
  }

  /** Multiplied out by the divisor, the rounded quotient is less than one below the numerator. */
  lemma RoundedQuotient(rnd: real -> real, n: nat, d: nat, q: real)
    requires Rounding(rnd) && 1 <= n < TWO53 && 1 <= d <= TWO63 && q * d as real == n as real
    ensures rnd(q) * d as real > n as real - 1.0
  {
    QuotientInRange(n as real, d as real, q, TWO53 as real, TWO63 as real);
    ErrorBelowOne(n as real, d as real, q, q - rnd(q), TWO53 as real);
    assert (q - rnd(q)) * d as real == q * d as real - rnd(q) * d as real;
  }

  /** An exact quotient lies between zero and its integer ceiling. */
  lemma QuotientBelowCeiling(n: nat, d: nat, q: real)
    requires 1 <= d && q * d as real == n as real
    ensures 0.0 <= q <= CeilDiv(n, d) as real
  {
    var c := CeilDiv(n, d);
    CeilDivLeast(n, d, c);
    IntProduct(c, d);
    NotAbove(0.0, q, d as real);
    NotAbove(q, c as real, d as real);
  }

  /** The ceiling of the rounded quotient is the integer ceiling: rounding never crosses an integer. */
  lemma CeilingSurvivesRounding(rnd: real -> real, n: nat, d: nat, q: real)
    requires Rounding(rnd) && n < TWO53 && 1 <= d <= TWO63 && q * d as real == n as real
    ensures Ceil(rnd(q)) == CeilDiv(n, d)
  {
    var c := CeilDiv(n, d);
    CeilDivAtMost(n, d);
    QuotientBelowCeiling(n, d, q);
    RoundedAtMost(rnd, q, c);
    CeilDivLeast(n, d, 0);
    if c > 0 {
      RoundedQuotient(rnd, n, d, q);
      CeilDivLeast(n, d, c - 1);
      RoundedAbove(rnd(q), n, d, c - 1);
    }
  }

  lemma RoundedAtMost(rnd: real -> real, q: real, c: nat)
    requires Rounding(rnd) && 0.0 <= q <= c as real && c <= TWO53
    ensures rnd(q) <= c as real && (c == 0 ==> rnd(q) == 0.0)
  {
    RoundedKeepsBounds(rnd, q);
    assert Whole(c as real) && rnd(c as real) == c as real && Ordered(q, c as real);
  }

  lemma RoundedAbove(r: real, n: nat, d: nat, m: nat)
    requires 1 <= d && m * d < n && r * d as real > n as real - 1.0
    ensures m as real < r
  {
    IntProduct(m, d);
    AboveMultiple(r, m as real, d as real);
  }

  /** A positive quotient below one is rounded to something positive and at most one. */
  lemma RoundedFraction(rnd: real -> real, q: real)
    requires Rounding(rnd) && 0.0 < q <= 1.0 && 1.0 <= q * TWO63 as real
    ensures 0.0 < rnd(q) <= 1.0
  {
    assert Whole(1.0) && rnd(1.0) == 1.0 && Ordered(q, 1.0);
    AboveMultiple(q, q - rnd(q), TWO53 as real);
  }

  /** Divisors too large to be converted exactly: the quotient is a fraction all the same. */
  lemma LargeDivisor(rnd: real -> real, n: nat, d: nat)
    requires Rounding(rnd) && 1 <= n < TWO53 < d <= TWO63
    ensures FloatCeilDiv(rnd, n, d) == 1 == CeilDiv(n, d)
  {
    var a, b := n as real, rnd(d as real);
    assert Whole(a) && Whole(TWO53 as real) && rnd(a) == a;
    assert Ordered(TWO53 as real, d as real) && Ordered(d as real, TWO63 as real);
    FractionOf(a, b, a / b);
    RoundedFraction(rnd, a / b);
    CeilDivLeast(n, d, 0);
    CeilDivLeast(n, d, 1);
  }

  lemma FractionOf(a: real, b: real, q: real)
    requires 1.0 <= a <= b <= TWO63 as real && q * b == a
    ensures 0.0 < q <= 1.0 && 1.0 <= q * TWO63 as real
  {
    AboveMultiple(q, 0.0, b);
    NotAbove(q, 1.0, b);
    RealProductMonotone(b, TWO63 as real, q);
  }

  /** For every machine integer as divisor. */
  lemma FloatCeilingIsExact(rnd: real -> real, n: nat, d: nat)
    requires Rounding(rnd) && n < TWO53 && 1 <= d <= TWO63
    ensures FloatCeilDiv(rnd, n, d) == CeilDiv(n, d)
  {
    assert Whole(n as real) && Whole(0.0);
    if d <= TWO53 {
      assert Whole(d as real);
      CeilingSurvivesRounding(rnd, n, d, n as real / d as real);
    } else if n > 0 {
      LargeDivisor(rnd, n, d);
    } else {
      RoundedKeepsBounds(rnd, d as real);
      CeilDivLeast(0, d, 0);
    }
  }

  /** int(math.Ceil(float64(n)/math.Max(float64(max), 1)) + 1) */
  function FloatPodsFor(rnd: real -> real, n: nat, max: int): (r: int)
    requires Rounding(rnd)
    ensures r >= 1
  {
    RoundedKeepsBounds(rnd, FloatCeilDiv(rnd, n, AtLeastOne(max)) as real + 1.0);
    rnd(FloatCeilDiv(rnd, n, AtLeastOne(max)) as real + 1.0).Floor
  }

  /** int(math.Ceil(float64(n)/float64(pods)) + 1) */
  function FloatTarget(rnd: real -> real, n: nat, pods: nat): (r: int)
    requires Rounding(rnd) && pods >= 1
    ensures r >= 1
  {
    RoundedKeepsBounds(rnd, FloatCeilDiv(rnd, n, pods) as real + 1.0);
    rnd(FloatCeilDiv(rnd, n, pods) as real + 1.0).Floor
  }

  lemma AddOneIsExact(rnd: real -> real, c: int)
    requires Rounding(rnd) && 0 <= c < TWO53
    ensures rnd(c as real + 1.0).Floor == c + 1
  {
    assert c as real + 1.0 == (c + 1) as real && Whole((c + 1) as real);
  }

  /** The floating-point pod count is the integer one. */
  lemma FloatPodsAreExact(rnd: real -> real, n: nat, max: int)
    requires Rounding(rnd) && n < TWO53 && max <= TWO63
    ensures FloatPodsFor(rnd, n, max) == PodsFor(n, max)
  {
    FloatCeilingIsExact(rnd, n, AtLeastOne(max));
    CeilDivAtMost(n, AtLeastOne(max));
    AddOneIsExact(rnd, CeilDiv(n, AtLeastOne(max)));
  }

  /** The floating-point target is the integer one, slack included. */
  lemma FloatTargetIsExact(rnd: real -> real, n: nat, pods: nat)
    requires Rounding(rnd) && n < TWO53 && 1 <= pods <= TWO63
    ensures FloatTarget(rnd, n, pods) == Target(n, pods, false)
  {
    FloatCeilingIsExact(rnd, n, pods);
    CeilDivAtMost(n, pods);
    AddOneIsExact(rnd, CeilDiv(n, pods));
  }
}
