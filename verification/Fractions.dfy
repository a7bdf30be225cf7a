/** Exact rational arithmetic: the class `Fract` of js-packages/scripts/calibrate.ts.

    A fraction is an immutable pair of unbounded integers. Its meaning is the real number
    `Value(f)`; every operation is proved against real arithmetic. */
module Fractions {
  import opened Common

  datatype Error =
    | DivisionByZero
    | MissingNormalization
    | NegativeRoot
    | StackUnderflow
    | NotOneElement
    | UnknownOperand

  datatype Ratio = Ratio(a: int, b: int)

  /** What the constructor lets through. `New(..).value` below carries the proof that a
      constructor call inside an operation does not throw. */
  type Fract = r: Ratio | 0 < r.b witness Ratio(0, 1)

  const ZERO: Fract := Ratio(0, 1)

  function New(a: int, b: int): Result<Fract, Error> {
    if b == 0 then Err(DivisionByZero)
    else if b < 0 then Err(MissingNormalization)
    else Ok(Ratio(a, b))
  }

  /** The rational number a fraction stands for. */
  function Value(f: Fract): real {
    f.a as real / f.b as real
  }

  // ----- greatest common divisor -----

  ghost predicate IsMultiple(n: int, d: int, k: int) {
    n == d * k
  }

  ghost predicate Divides(d: int, n: int) {
    exists k :: IsMultiple(n, d, k)
  }

  /** Greatest in the divisibility order; this also covers gcd(0, 0) = 0. */
  ghost predicate IsGcd(g: int, x: int, y: int) {
    && 0 <= g
    && Divides(g, x)
    && Divides(g, y)
    && forall d :: Divides(d, x) && Divides(d, y) ==> Divides(d, g)
  }

  function Gcd(x: nat, y: nat): nat
    decreases y
  {
    if y == 0 then x else Gcd(y, x % y)
  }

  lemma {:induction false} GcdDivides(x: nat, y: nat)
    ensures Divides(Gcd(x, y), x)
    ensures Divides(Gcd(x, y), y)
    decreases y
  {
    var g := Gcd(x, y);
    if y == 0 {
      assert IsMultiple(x, g, 1);
      assert IsMultiple(y, g, 0);
    } else {
      GcdDivides(y, x % y);
      var k :| IsMultiple(y, g, k);
      var m :| IsMultiple(x % y, g, m);
      var q := x / y;
      calc {
        x;
        y * q + x % y;
        (g * k) * q + g * m;
        g * (k * q) + g * m;
        g * (k * q + m);
      }
      assert IsMultiple(x, g, k * q + m);
    }
  }

  /** The gcd is an integer combination of its arguments. */
  lemma {:induction false} Bezout(x: nat, y: nat) returns (u: int, v: int)
    ensures u * x + v * y == Gcd(x, y)
    decreases y
  {
    if y == 0 {
      u, v := 1, 0;
    } else {
      var u', v' := Bezout(y, x % y);
      var q := x / y;
      u, v := v', u' - v' * q;
      calc {
        Gcd(x, y);
        u' * y + v' * (x % y);
        { assert x % y == x - y * q; }
        u' * y + v' * (x - y * q);
        u' * y + v' * x - v' * (y * q);
        { assert v' * (y * q) == (v' * q) * y; }
        v' * x + (u' - v' * q) * y;
      }
    }
  }

  lemma DividesCombination(d: int, x: int, y: int, u: int, v: int)
    requires Divides(d, x) && Divides(d, y)
    ensures Divides(d, u * x + v * y)
  {
    var k :| IsMultiple(x, d, k);
    var m :| IsMultiple(y, d, m);
    calc {
      u * x + v * y;
      u * (d * k) + v * (d * m);
      d * (u * k) + d * (v * m);
      d * (u * k + v * m);
    }
    assert IsMultiple(u * x + v * y, d, u * k + v * m);
  }

  lemma DividesAbs(d: int, x: int)
    ensures Divides(d, x) <==> Divides(d, Abs(x))
  {
    if Divides(d, x) {
      var k :| IsMultiple(x, d, k);
      assert IsMultiple(-x, d, -k);
    }
    if Divides(d, Abs(x)) {
      var k :| IsMultiple(Abs(x), d, k);
      assert x == d * k || x == d * -k;
      assert IsMultiple(x, d, k) || IsMultiple(x, d, -k);
    }
  }

  lemma GcdIsGreatest(x: int, y: int)
    ensures IsGcd(Gcd(Abs(x), Abs(y)), x, y)
  {
    var g := Gcd(Abs(x), Abs(y));
    GcdDivides(Abs(x), Abs(y));
    DividesAbs(g, x);
    DividesAbs(g, y);
    var u, v := Bezout(Abs(x), Abs(y));
    forall d | Divides(d, x) && Divides(d, y)
      ensures Divides(d, g)
    {
      DividesAbs(d, x);
      DividesAbs(d, y);
      DividesCombination(d, Abs(x), Abs(y), u, v);
    }
  }

  /** The loop inside `optimize`. */
  method GcdLoop(x0: int, y0: int) returns (x: nat)
    ensures x == Gcd(Abs(x0), Abs(y0))
    ensures IsGcd(x, x0, y0)
  {
    GcdIsGreatest(x0, y0);
    x := if x0 < 0 then -x0 else x0;
    var y: nat := if y0 < 0 then -y0 else y0;
    while y != 0
      invariant Gcd(x, y) == Gcd(Abs(x0), Abs(y0))
      decreases y
    {
      var t := y;
      TruncModIsMod(x, y);
      y := TruncMod(x, y);
      x := t;
    }
  }

  lemma TruncModIsMod(x: nat, y: nat)
    requires 0 < y
    ensures TruncMod(x, y) == x % y
  {
  }

  // ----- the operations -----

  /** No common factor is left; over the integers this is the canonical form. */
  predicate LowestTerms(f: Fract) {
    Gcd(Abs(f.a), f.b) == 1
  }

  function Optimize(f: Fract): Fract {
    var v := Gcd(Abs(f.a), f.b);
    OptimizeDivisor(f);
    New(TruncDiv(f.a, v), TruncDiv(f.b, v)).value
  }

  function Mul(f: Fract, g: Fract): Fract {
    MulPositive(f.b, g.b);
    Optimize(New(f.a * g.a, f.b * g.b).value)
  }

  function Plus(f: Fract, g: Fract): Fract {
    if f.b == g.b then New(f.a + g.a, f.b).value
    else
      MulPositive(f.b, g.b);
      Optimize(New(f.a * g.b + g.a * f.b, f.b * g.b).value)
  }

  function Neg(f: Fract): Fract {
    New(-f.a, f.b).value
  }

  function Minus(f: Fract, g: Fract): Fract {
    Plus(f, Neg(g))
  }

  function Inv(f: Fract): Result<Fract, Error> {
    if f.a < 0 then New(-f.b, -f.a) else New(f.b, f.a)
  }

  function Div(f: Fract, g: Fract): Result<Fract, Error> {
    var i :- Inv(g);
    Ok(Mul(f, i))
  }

  function ToBigInt(f: Fract): int {
    TruncDiv(f.a, f.b)
  }

  predicate Lt(f: Fract, g: Fract) {
    f.a * g.b < g.a * f.b
  }

  predicate Eq(f: Fract, g: Fract) {
    f.a * g.b == g.a * f.b
  }

  // ----- integers inside the reals -----

  lemma RealOfProduct(x: int, y: int)
    ensures (x * y) as real == x as real * y as real
  {
  }

  lemma RealCancel(x: real, y: real, d: real)
    requires 0.0 < d
    ensures x * d == y * d <==> x == y
    ensures x * d < y * d <==> x < y
  {
  }

  lemma ValueTimesDenominator(f: Fract)
    ensures Value(f) * f.b as real == f.a as real
  {
  }

  /** Cross-multiplying compares two fractions. */
  lemma CrossMultiply(f: Fract, g: Fract)
    ensures (f.a * g.b) as real == Value(f) * (f.b as real * g.b as real)
    ensures (g.a * f.b) as real == Value(g) * (f.b as real * g.b as real)
    ensures 0.0 < f.b as real * g.b as real
  {
  }

  lemma EqIsEqual(f: Fract, g: Fract)
    ensures Eq(f, g) <==> Value(f) == Value(g)
  {
  }

  lemma LtIsLess(f: Fract, g: Fract)
    ensures Lt(f, g) <==> Value(f) < Value(g)
  {
  }

  // ----- reduction -----

  lemma OptimizeDivisor(f: Fract)
    ensures 0 < Gcd(Abs(f.a), f.b)
    ensures var v := Gcd(Abs(f.a), f.b);
            TruncDiv(f.a, v) * v == f.a && TruncDiv(f.b, v) * v == f.b && 0 < TruncDiv(f.b, v)
  {
    var v := Gcd(Abs(f.a), f.b);
    GcdIsGreatest(f.a, f.b);
    var m :| IsMultiple(f.a, v, m);
    var k :| IsMultiple(f.b, v, k);
    assert 0 < v;
    TruncDivExact(m, v);
    TruncDivExact(k, v);
    assert 0 < k;
  }

  lemma TruncDivExact(k: int, v: int)
    requires 0 < v
    ensures TruncDiv(v * k, v) == k
  {
    DivUnique(v * Abs(k), v, Abs(k), 0);
    if k < 0 {
      assert v * k == -(v * Abs(k)) <= -v;
    } else {
      assert v * k == v * Abs(k);
    }
  }

  /** Dividing out the gcd keeps the value and leaves no common factor. */
  lemma OptimizeExact(f: Fract)
    ensures Value(Optimize(f)) == Value(f)
    ensures LowestTerms(Optimize(f))
  {
    hide Gcd, Value, TruncDiv;
    var v := Gcd(Abs(f.a), f.b);
    OptimizeDivisor(f);
    var o := Optimize(f);
    assert o.a * v == f.a && o.b * v == f.b;
    CrossScaled(o.a, o.b, v, f.a, f.b);
    EqIsEqual(o, f);
    GcdOfQuotients(f, o, v);
  }

  lemma CrossScaled(a: int, b: int, v: int, a': int, b': int)
    requires a * v == a' && b * v == b'
    ensures a * b' == a' * b
  {
  }

  lemma GcdOfQuotients(f: Fract, o: Fract, v: nat)
    requires v == Gcd(Abs(f.a), f.b) && 0 < v
    requires o.a * v == f.a && o.b * v == f.b
    ensures LowestTerms(o)
  {
    var g := Gcd(Abs(o.a), o.b);
    GcdIsGreatest(o.a, o.b);
    GcdIsGreatest(f.a, f.b);
    DividesScaled(g, v, o.a);
    DividesScaled(g, v, o.b);
    assert Divides(g * v, f.a) && Divides(g * v, f.b);
    var j :| IsMultiple(v, g * v, j);
    UnitFactor(g, v, j);
  }

  lemma DividesScaled(g: int, v: int, x: int)
    requires Divides(g, x)
    ensures Divides(g * v, x * v)
  {
    var k :| IsMultiple(x, g, k);
    assert (g * k) * v == (g * v) * k;
    assert IsMultiple(x * v, g * v, k);
  }

  lemma UnitFactor(g: nat, v: nat, j: int)
    requires 0 < v && v == (g * v) * j
    ensures g == 1
  {
    var m := g * j;
    assert v * m == v * 1 by { assert (g * v) * j == v * (g * j); }
    if m <= 0 {
      MulMonotone(v, m, 0);
    } else if 2 <= m {
      MulMonotone(v, 2, m);
    }
    assert g * j == 1;
    if 2 <= g {
      if j <= 0 {
        MulMonotone(g, j, 0);
      } else {
        MulMonotone(g, 1, j);
      }
    }
  }

  /** Two fractions in lowest terms with the same value are the same pair of integers. */
  lemma LowestTermsCanonical(f: Fract, g: Fract)
    requires LowestTerms(f) && LowestTerms(g)
    requires Value(f) == Value(g)
    ensures f == g
  {
    EqIsEqual(f, g);
    DenominatorDivides(f, g);
    DenominatorDivides(g, f);
    var k :| IsMultiple(g.b, f.b, k);
    var m :| IsMultiple(f.b, g.b, m);
    assert f.b <= g.b && g.b <= f.b;
  }

  lemma DenominatorDivides(f: Fract, g: Fract)
    requires LowestTerms(f)
    requires Eq(f, g)
    ensures Divides(f.b, g.b)
    ensures f.b <= g.b
  {
    var u, v := Bezout(Abs(f.a), f.b);
    var w := if f.a < 0 then -u else u;
    assert u * Abs(f.a) == w * f.a;
    BezoutScaled(f.a, f.b, g.a, g.b, w, v);
    var k := w * g.a + v * g.b;
    assert IsMultiple(g.b, f.b, k);
    if k <= 0 {
      MulMonotone(f.b, k, 0);
    } else {
      MulMonotone(f.b, 1, k);
    }
  }

  lemma BezoutScaled(a: int, b: int, a': int, b': int, w: int, v: int)
    requires w * a + v * b == 1 && a * b' == a' * b
    ensures b' == b * (w * a' + v * b')
  {
  }

  /** `optimize` yields one normal form per rational number, so comparing normal forms
      (which `toString` prints) decides equality. */
  lemma NormalFormDecidesEquality(f: Fract, g: Fract)
    ensures Optimize(f) == Optimize(g) <==> Eq(f, g)
  {
    OptimizeExact(f);
    OptimizeExact(g);
    EqIsEqual(f, g);
    if Eq(f, g) {
      LowestTermsCanonical(Optimize(f), Optimize(g));
    }
  }

  // ----- every operation is the rational operation -----

  lemma QuotientValue(a: int, b: int, v: real)
    requires 0 < b
    requires a as real == v * b as real
    ensures Value(Ratio(a, b)) == v
  {
  }

  lemma MulExact(f: Fract, g: Fract)
    ensures Value(Mul(f, g)) == Value(f) * Value(g)
    ensures LowestTerms(Mul(f, g))
  {
    MulPositive(f.b, g.b);
    RealOfProduct(f.a, g.a);
    RealOfProduct(f.b, g.b);
    var v, w, p, q := Value(f), Value(g), f.b as real, g.b as real;
    ValueTimesDenominator(f);
    ValueTimesDenominator(g);
    assert (v * p) * (w * q) == (v * w) * (p * q);
    QuotientValue(f.a * g.a, f.b * g.b, v * w);
    OptimizeExact(Ratio(f.a * g.a, f.b * g.b));
  }

  /** Addition is exact. A shared denominator is kept as it is; otherwise the sum is reduced. */
  lemma PlusExact(f: Fract, g: Fract)
    ensures Value(Plus(f, g)) == Value(f) + Value(g)
    ensures if f.b == g.b then Plus(f, g).b == f.b else LowestTerms(Plus(f, g))
  {
    var v, w, p, q := Value(f), Value(g), f.b as real, g.b as real;
    ValueTimesDenominator(f);
    ValueTimesDenominator(g);
    if f.b == g.b {
      assert v * p + w * p == (v + w) * p;
      QuotientValue(f.a + g.a, f.b, v + w);
    } else {
      MulPositive(f.b, g.b);
      RealOfProduct(f.b, g.b);
      CrossMultiply(f, g);
      assert v * (p * q) + w * (p * q) == (v + w) * (p * q);
      QuotientValue(f.a * g.b + g.a * f.b, f.b * g.b, v + w);
      OptimizeExact(Ratio(f.a * g.b + g.a * f.b, f.b * g.b));
    }
  }

  lemma NegExact(f: Fract)
    ensures Value(Neg(f)) == -Value(f)
  {
  }

  lemma MinusExact(f: Fract, g: Fract)
    ensures Value(Minus(f, g)) == Value(f) - Value(g)
  {
    NegExact(g);
    PlusExact(f, Neg(g));
  }

  lemma ZeroValue(f: Fract)
    ensures Value(f) == 0.0 <==> f.a == 0
    ensures Value(f) < 0.0 <==> f.a < 0
  {
  }

  /** Inversion throws exactly on zero, and only "division by zero"; it never builds a
      denominator that needs normalisation. */
  lemma InvExact(f: Fract)
    ensures Inv(f).Ok? <==> Value(f) != 0.0
    ensures Inv(f).Ok? ==> Value(Inv(f).value) == 1.0 / Value(f)
    ensures Inv(f).Err? ==> Inv(f).error == DivisionByZero
  {
  }

  lemma DivExact(f: Fract, g: Fract)
    ensures Div(f, g).Ok? <==> Value(g) != 0.0
    ensures Div(f, g).Ok? ==> Value(Div(f, g).value) == Value(f) / Value(g)
    ensures Div(f, g).Ok? ==> LowestTerms(Div(f, g).value)
    ensures Div(f, g).Err? ==> Div(f, g).error == DivisionByZero
  {
    InvExact(g);
    if Inv(g).Ok? {
      MulExact(f, Inv(g).value);
      assert Value(f) * (1.0 / Value(g)) == Value(f) / Value(g);
    }
  }

  /** `t` is the integer next to `v` on the side of zero. */
  ghost predicate Truncates(t: int, v: real) {
    if v < 0.0 then v <= t as real <= 0.0 && t as real < v + 1.0
    else 0.0 <= t as real <= v < t as real + 1.0
  }

  lemma ToBigIntTruncates(f: Fract)
    ensures Truncates(ToBigInt(f), Value(f))
  {
    ZeroValue(f);
    ValueTimesDenominator(f);
    if f.a < 0 {
      TruncationGap(-f.a, f.b, -Value(f));
    } else {
      TruncationGap(f.a, f.b, Value(f));
    }
  }

  lemma TruncationGap(n: nat, d: nat, w: real)
    requires 0 < d && w * d as real == n as real
    ensures 0.0 <= (n / d) as real <= w < (n / d) as real + 1.0
  {
    var q, r := n / d, n % d;
    assert n == d * q + r;
    RealOfProduct(d, q);
    var t, p := q as real, d as real;
    assert (w - t) * p == w * p - p * t == r as real;
    RealCancel(w - t, 1.0, p);
    RealCancel(0.0, w - t, p);
    if w - t < 0.0 {
      RealCancel(w - t, 0.0, p);
    }
  }
}
