/** Closed-form least squares over exact fractions: `linearRegression` and `hypothesisLinear`
    of js-packages/scripts/calibrate.ts. */
module Regression {
  import opened Common
  import opened Fractions
  import opened Rpn

  datatype Point = Point(x: Fract, y: Fract)

  /** The fitted line y = a * x + b. */
  datatype Line = Line(a: Fract, b: Fract)

  /** A point in the real plane. */
  datatype RealPoint = RealPoint(x: real, y: real)

  /** The measured points as real points; all sums below are over these. */
  function Plot(points: seq<Point>): seq<RealPoint> {
    seq(|points|, i requires 0 <= i < |points| => RealPoint(Value(points[i].x), Value(points[i].y)))
  }

  // ----- sums over the points, in real arithmetic -----

  ghost function Product(v: real, w: real): real { v * w }

  ghost function Squared(v: real): real { Product(v, v) }

  ghost function SumX(ps: seq<RealPoint>): real {
    if ps == [] then 0.0 else SumX(ps[..|ps| - 1]) + ps[|ps| - 1].x
  }

  ghost function SumY(ps: seq<RealPoint>): real {
    if ps == [] then 0.0 else SumY(ps[..|ps| - 1]) + ps[|ps| - 1].y
  }

  ghost function SumXY(ps: seq<RealPoint>): real {
    if ps == [] then 0.0 else SumXY(ps[..|ps| - 1]) + Product(ps[|ps| - 1].x, ps[|ps| - 1].y)
  }

  ghost function SumXX(ps: seq<RealPoint>): real {
    if ps == [] then 0.0 else SumXX(ps[..|ps| - 1]) + Squared(ps[|ps| - 1].x)
  }

  ghost function Residual(p: RealPoint, a: real, b: real): real {
    p.y - (a * p.x + b)
  }

  /** Sum of squared residuals of the line y = a * x + b. */
  ghost function Error2(ps: seq<RealPoint>, a: real, b: real): real {
    if ps == [] then 0.0 else Error2(ps[..|ps| - 1], a, b) + Squared(Residual(ps[|ps| - 1], a, b))
  }

  ghost function Fitted(a: real, u: real, b: real, v: real): real {
    a * u + b * v
  }

  /** a * Sum(x^2) + b * Sum(x) == Sum(x * y) and a * Sum(x) + b * n == Sum(y). */
  ghost predicate NormalEquations(ps: seq<RealPoint>, a: real, b: real) {
    && Fitted(a, SumXX(ps), b, SumX(ps)) == SumXY(ps)
    && Fitted(a, SumX(ps), b, |ps| as real) == SumY(ps)
  }

  ghost predicate TwoDistinctX(ps: seq<RealPoint>) {
    exists i, j :: 0 <= i < j < |ps| && ps[i].x != ps[j].x
  }

  ghost predicate OnLine(ps: seq<RealPoint>, a: real, b: real) {
    forall p :: p in ps ==> p.y == a * p.x + b
  }

  // ----- the Lagrange identity -----

  /** Sum of (x_i - x)^2. */
  ghost function SpreadFrom(ps: seq<RealPoint>, x: real): real {
    if ps == [] then 0.0 else SpreadFrom(ps[..|ps| - 1], x) + Squared(ps[|ps| - 1].x - x)
  }

  /** Sum of (x_i - x_j)^2 over all pairs i < j. */
  ghost function PairSpread(ps: seq<RealPoint>): real {
    if ps == [] then 0.0
    else PairSpread(ps[..|ps| - 1]) + SpreadFrom(ps[..|ps| - 1], ps[|ps| - 1].x)
  }

  /** Sum of (x_i - x)^2 written with n points, their sum s and their sum of squares q. */
  ghost function SpreadForm(x: real, n: real, s: real, q: real): real {
    q - 2.0 * x * s + n * (x * x)
  }

  lemma {:induction false} SpreadFromExpanded(ps: seq<RealPoint>, x: real)
    ensures SpreadFrom(ps, x) == SpreadForm(x, |ps| as real, SumX(ps), SumXX(ps))
  {
    if ps != [] {
      hide SpreadForm, Squared;
      var init, z := ps[..|ps| - 1], ps[|ps| - 1].x;
      SpreadFromExpanded(init, x);
      SpreadStep(x, z, |init| as real, SumX(init), SumXX(init), |ps| as real, SumX(ps), SumXX(ps));
    }
  }

  lemma SpreadStep(x: real, z: real, n: real, s: real, q: real, n': real, s': real, q': real)
    requires n' == n + 1.0 && s' == s + z && q' == q + Squared(z)
    ensures SpreadForm(x, n, s, q) + Squared(z - x) == SpreadForm(x, n', s', q')
  {
  }

  /** The denominator of the slope. */
  ghost function Discriminant(n: real, s: real, q: real): real {
    n * q - s * s
  }

  lemma {:induction false} LagrangeIdentity(ps: seq<RealPoint>)
    ensures Discriminant(|ps| as real, SumX(ps), SumXX(ps)) == PairSpread(ps)
  {
    if ps != [] {
      hide Discriminant, SpreadForm, Squared;
      var init, z := ps[..|ps| - 1], ps[|ps| - 1].x;
      LagrangeIdentity(init);
      SpreadFromExpanded(init, z);
      LagrangeStep(z, |init| as real, SumX(init), SumXX(init), |ps| as real, SumX(ps), SumXX(ps));
    }
  }

  lemma LagrangeStep(z: real, n: real, s: real, q: real, n': real, s': real, q': real)
    requires n' == n + 1.0 && s' == s + z && q' == q + Squared(z)
    ensures Discriminant(n', s', q') == Discriminant(n, s, q) + SpreadForm(z, n, s, q)
  {
  }

  lemma ProductSquared(v: real)
    ensures Product(v, v) == Squared(v)
  {
  }

  lemma PositiveProduct(v: real, w: real)
    requires 0.0 < v && 0.0 < w
    ensures 0.0 < Product(v, w)
  {
  }

  lemma NegatedSquare(v: real)
    ensures Squared(-v) == Squared(v)
  {
  }

  lemma SquareSign(v: real)
    ensures 0.0 <= Squared(v)
    ensures Squared(v) == 0.0 <==> v == 0.0
  {
    if v < 0.0 {
      NegatedSquare(v);
      PositiveProduct(-v, -v);
    } else if 0.0 < v {
      PositiveProduct(v, v);
    }
  }

  lemma {:induction false} SpreadFromSign(ps: seq<RealPoint>, x: real)
    ensures 0.0 <= SpreadFrom(ps, x)
    ensures SpreadFrom(ps, x) == 0.0 <==> forall p :: p in ps ==> p.x == x
  {
    if ps != [] {
      var init, last := ps[..|ps| - 1], ps[|ps| - 1];
      SpreadFromSign(init, x);
      SquareSign(last.x - x);
      assert ps == init + [last];
    }
  }

  /** The spread vanishes exactly when all x agree. */
  lemma {:induction false} PairSpreadSign(ps: seq<RealPoint>)
    ensures 0.0 <= PairSpread(ps)
    ensures PairSpread(ps) != 0.0 <==> TwoDistinctX(ps)
  {
    if ps != [] {
      var init, last := ps[..|ps| - 1], ps[|ps| - 1];
      PairSpreadSign(init);
      SpreadFromSign(init, last.x);
      if PairSpread(ps) != 0.0 {
        if PairSpread(init) != 0.0 {
          var i, j :| 0 <= i < j < |init| && init[i].x != init[j].x;
          assert ps[i].x != ps[j].x;
        } else {
          var p :| p in init && p.x != last.x;
          var i :| 0 <= i < |init| && init[i] == p;
          assert ps[i].x != ps[|ps| - 1].x;
        }
      }
      if TwoDistinctX(ps) {
        var i, j :| 0 <= i < j < |ps| && ps[i].x != ps[j].x;
        if j < |init| {
          assert init[i].x != init[j].x;
        } else {
          assert init[i] in init;
        }
      }
    }
  }

  // ----- least squares -----

  ghost function Moment0(ps: seq<RealPoint>, a: real, b: real): real {
    if ps == [] then 0.0 else Moment0(ps[..|ps| - 1], a, b) + Residual(ps[|ps| - 1], a, b)
  }

  ghost function Moment1(ps: seq<RealPoint>, a: real, b: real): real {
    if ps == [] then 0.0
    else Moment1(ps[..|ps| - 1], a, b) + Product(Residual(ps[|ps| - 1], a, b), ps[|ps| - 1].x)
  }

  ghost function Offset(p: RealPoint, da: real, db: real): real {
    da * p.x + db
  }

  /** Sum of (da * x_i + db)^2: what moving the line by (da, db) costs. */
  ghost function Shift(ps: seq<RealPoint>, da: real, db: real): real {
    if ps == [] then 0.0 else Shift(ps[..|ps| - 1], da, db) + Squared(Offset(ps[|ps| - 1], da, db))
  }

  lemma {:induction false} MomentsAreNormalEquations(ps: seq<RealPoint>, a: real, b: real)
    ensures Moment0(ps, a, b) == SumY(ps) - Fitted(a, SumX(ps), b, |ps| as real)
    ensures Moment1(ps, a, b) == SumXY(ps) - Fitted(a, SumXX(ps), b, SumX(ps))
  {
    if ps != [] {
      hide Fitted, Residual, Product, Squared;
      var init, p := ps[..|ps| - 1], ps[|ps| - 1];
      MomentsAreNormalEquations(init, a, b);
      Moment0Step(a, b, p, |init| as real, SumX(init), |ps| as real, SumX(ps));
      Moment1Step(a, b, p, SumX(init), SumXX(init), SumX(ps), SumXX(ps));
    }
  }

  lemma Moment0Step(a: real, b: real, p: RealPoint, n: real, s: real, n': real, s': real)
    requires n' == n + 1.0 && s' == s + p.x
    ensures Residual(p, a, b) - Fitted(a, s, b, n) == p.y - Fitted(a, s', b, n')
  {
  }

  lemma Moment1Step(a: real, b: real, p: RealPoint, s: real, q: real, s': real, q': real)
    requires s' == s + p.x && q' == q + Squared(p.x)
    ensures Product(Residual(p, a, b), p.x) - Fitted(a, q, b, s) == Product(p.x, p.y) - Fitted(a, q', b, s')
  {
  }

  /** First-order change of the error when the line moves by (da, db). */
  ghost function Gradient(da: real, db: real, m1: real, m0: real): real {
    2.0 * da * m1 + 2.0 * db * m0
  }

  lemma {:induction false} ErrorOfShiftedLine(
      ps: seq<RealPoint>, a: real, b: real, da: real, db: real, a': real, b': real)
    requires a' == a + da && b' == b + db
    ensures Error2(ps, a', b')
         == Error2(ps, a, b) - Gradient(da, db, Moment1(ps, a, b), Moment0(ps, a, b)) + Shift(ps, da, db)
  {
    if ps != [] {
      hide Gradient, Residual, Product, Squared, Offset;
      var init, p := ps[..|ps| - 1], ps[|ps| - 1];
      ErrorOfShiftedLine(init, a, b, da, db, a', b');
      ShiftedStep(p, a, b, da, db, a', b',
        Moment1(init, a, b), Moment0(init, a, b), Moment1(ps, a, b), Moment0(ps, a, b));
    }
  }

  lemma ShiftedStep(p: RealPoint, a: real, b: real, da: real, db: real, a': real, b': real,
                    m1: real, m0: real, m1': real, m0': real)
    requires a' == a + da && b' == b + db
    requires m1' == m1 + Product(Residual(p, a, b), p.x) && m0' == m0 + Residual(p, a, b)
    ensures Squared(Residual(p, a', b')) - Gradient(da, db, m1, m0)
         == Squared(Residual(p, a, b)) + Squared(Offset(p, da, db)) - Gradient(da, db, m1', m0')
  {
  }

  lemma {:induction false} ShiftSign(ps: seq<RealPoint>, da: real, db: real)
    ensures 0.0 <= Shift(ps, da, db)
    ensures Shift(ps, da, db) == 0.0 ==> forall p :: p in ps ==> Offset(p, da, db) == 0.0
  {
    if ps != [] {
      hide Squared, Offset;
      var init, last := ps[..|ps| - 1], ps[|ps| - 1];
      ShiftSign(init, da, db);
      SquareSign(Offset(last, da, db));
      assert ps == init + [last];
    }
  }

  /** A solution of the normal equations is the one and only least-squares line. */
  lemma LeastSquares(ps: seq<RealPoint>, a: real, b: real, a': real, b': real)
    requires NormalEquations(ps, a, b)
    ensures Error2(ps, a, b) <= Error2(ps, a', b')
    ensures TwoDistinctX(ps) && Error2(ps, a', b') == Error2(ps, a, b) ==> a' == a && b' == b
  {
    hide Gradient, Offset, Squared, Residual, Product;
    var da, db := a' - a, b' - b;
    MomentsVanish(ps, a, b);
    ErrorOfShiftedLine(ps, a, b, da, db, a', b');
    NoGradient(da, db, Moment1(ps, a, b), Moment0(ps, a, b));
    ShiftSign(ps, da, db);
    if TwoDistinctX(ps) && Shift(ps, da, db) == 0.0 {
      var i, j :| 0 <= i < j < |ps| && ps[i].x != ps[j].x;
      assert ps[i] in ps && ps[j] in ps;
      TwoRoots(da, db, ps[i], ps[j]);
    }
  }

  lemma MomentsVanish(ps: seq<RealPoint>, a: real, b: real)
    requires NormalEquations(ps, a, b)
    ensures Moment0(ps, a, b) == 0.0 && Moment1(ps, a, b) == 0.0
  {
    hide Moment0, Moment1;
    MomentsAreNormalEquations(ps, a, b);
  }

  lemma NoGradient(da: real, db: real, m1: real, m0: real)
    requires m1 == 0.0 && m0 == 0.0
    ensures Gradient(da, db, m1, m0) == 0.0
  {
  }

  lemma TwoRoots(da: real, db: real, p: RealPoint, q: RealPoint)
    requires p.x != q.x && Offset(p, da, db) == 0.0 && Offset(q, da, db) == 0.0
    ensures da == 0.0 && db == 0.0
  {
  }

  /** No line has a smaller squared error, and no other line has the same. */
  ghost predicate BestLine(ps: seq<RealPoint>, a: real, b: real) {
    forall a', b' ::
      && Error2(ps, a, b) <= Error2(ps, a', b')
      && (Error2(ps, a', b') == Error2(ps, a, b) ==> a' == a && b' == b)
  }

  lemma NormalEquationsGiveBestLine(ps: seq<RealPoint>, a: real, b: real)
    requires NormalEquations(ps, a, b) && TwoDistinctX(ps)
    ensures BestLine(ps, a, b)
  {
    hide Error2, NormalEquations, TwoDistinctX;
    forall a', b'
      ensures Error2(ps, a, b) <= Error2(ps, a', b')
      ensures Error2(ps, a', b') == Error2(ps, a, b) ==> a' == a && b' == b
    {
      LeastSquares(ps, a, b, a', b');
    }
  }

  lemma {:induction false} NoErrorOnLine(ps: seq<RealPoint>, a: real, b: real)
    requires OnLine(ps, a, b)
    ensures Error2(ps, a, b) == 0.0
  {
    if ps != [] {
      var init, last := ps[..|ps| - 1], ps[|ps| - 1];
      assert ps == init + [last];
      NoErrorOnLine(init, a, b);
    }
  }

  lemma {:induction false} ErrorNonNegative(ps: seq<RealPoint>, a: real, b: real)
    ensures 0.0 <= Error2(ps, a, b)
  {
    if ps != [] {
      ErrorNonNegative(ps[..|ps| - 1], a, b);
      SquareSign(Residual(ps[|ps| - 1], a, b));
    }
  }

  /** Points that lie on a line give that line back. */
  lemma LineRecovered(ps: seq<RealPoint>, a: real, b: real, alpha: real, beta: real)
    requires NormalEquations(ps, a, b) && TwoDistinctX(ps)
    requires OnLine(ps, alpha, beta)
    ensures a == alpha && b == beta
  {
    LeastSquares(ps, a, b, alpha, beta);
    NoErrorOnLine(ps, alpha, beta);
    ErrorNonNegative(ps, a, b);
  }

  // ----- the programs handed to the stack machine -----

  lemma ProductCode(x: Fract, y: Fract)
    ensures Compile(Bin(Times, Lit(x), Lit(y))) == [Push(x), Push(y), Binary(Times)]
    ensures Meaning(Bin(Times, Lit(x), Lit(y))) == Some(Value(x) * Value(y))
  {
    assert Meaning(Lit(x)) == Some(Value(x)) && Meaning(Lit(y)) == Some(Value(y));
  }

  lemma MultiplyAdd(x: Fract, y: Fract, s: Fract)
    ensures var r := Run([Push(x), Push(y), Binary(Times), Push(s), Binary(Add)]);
            r.Ok? && Value(r.value) == Product(Value(x), Value(y)) + Value(s)
  {
    hide Value, Run;
    var e := Bin(Add, Bin(Times, Lit(x), Lit(y)), Lit(s));
    ProductCode(x, y);
    assert Meaning(Lit(s)) == Some(Value(s));
    assert Meaning(e) == Some(Value(x) * Value(y) + Value(s));
    assert Compile(e) == [Push(x), Push(y), Binary(Times), Push(s), Binary(Add)];
    CompileCorrect(e);
  }

  function Determinant(n: Fract, u: Fract, v: Fract, w: Fract): seq<Op> {
    [Push(n), Push(u), Binary(Times), Push(v), Push(w), Binary(Times), Binary(Sub)]
  }

  lemma SlopeValue(n: Fract, sxy: Fract, sx: Fract, sy: Fract, sxx: Fract)
    ensures var num := Value(n) * Value(sxy) - Value(sx) * Value(sy);
            var den := Value(n) * Value(sxx) - Value(sx) * Value(sx);
            var r := Run([Nested(Determinant(n, sxy, sx, sy)), Nested(Determinant(n, sxx, sx, sx)), Binary(Over)]);
            if den == 0.0 then r == Err(DivisionByZero) else r.Ok? && Value(r.value) == num / den
  {
    hide Value, Run;
    var num := Bin(Sub, Bin(Times, Lit(n), Lit(sxy)), Bin(Times, Lit(sx), Lit(sy)));
    var den := Bin(Sub, Bin(Times, Lit(n), Lit(sxx)), Bin(Times, Lit(sx), Lit(sx)));
    ProductCode(n, sxy);
    ProductCode(n, sxx);
    ProductCode(sx, sy);
    ProductCode(sx, sx);
    assert Compile(num) == Determinant(n, sxy, sx, sy);
    assert Compile(den) == Determinant(n, sxx, sx, sx);
    var e := Bin(Over, Group(num), Group(den));
    assert Meaning(num) == Some(Value(n) * Value(sxy) - Value(sx) * Value(sy));
    assert Meaning(den) == Some(Value(n) * Value(sxx) - Value(sx) * Value(sx));
    assert Meaning(Group(num)) == Meaning(num) && Meaning(Group(den)) == Meaning(den);
    assert Compile(e) == [Nested(Compile(num)), Nested(Compile(den)), Binary(Over)];
    CompileCorrect(e);
  }

  lemma InterceptValue(n: Fract, sy: Fract, a: Fract, sx: Fract)
    ensures var r := Run([Nested([Push(sy), Push(a), Push(sx), Binary(Times), Binary(Sub)]), Push(n), Binary(Over)]);
            if Value(n) == 0.0 then r == Err(DivisionByZero)
            else r.Ok? && Value(r.value) == (Value(sy) - Value(a) * Value(sx)) / Value(n)
  {
    hide Value, Run;
    var num := Bin(Sub, Lit(sy), Bin(Times, Lit(a), Lit(sx)));
    ProductCode(a, sx);
    assert Compile(num) == [Push(sy), Push(a), Push(sx), Binary(Times), Binary(Sub)];
    var e := Bin(Over, Group(num), Lit(n));
    assert Meaning(Lit(sy)) == Some(Value(sy)) && Meaning(Lit(n)) == Some(Value(n));
    assert Meaning(num) == Some(Value(sy) - Value(a) * Value(sx));
    assert Meaning(Group(num)) == Meaning(num);
    assert Compile(e) == [Nested(Compile(num)), Push(n), Binary(Over)];
    CompileCorrect(e);
  }

  lemma CramerSolves(n: real, sx: real, sy: real, sxy: real, sxx: real, a: real, b: real)
    requires n * sxx - sx * sx != 0.0 && n != 0.0
    requires a == (n * sxy - sx * sy) / (n * sxx - sx * sx)
    requires b == (sy - a * sx) / n
    ensures a * sxx + b * sx == sxy
    ensures a * sx + b * n == sy
  {
  }

  /** The two closing formulas of `linearRegression`. */
  function Solve(nb: Fract, sumxy: Fract, sumx: Fract, sumy: Fract, sumx2: Fract): Result<Line, Error> {
    var a :- Run([
      Nested(Determinant(nb, sumxy, sumx, sumy)),
      Nested(Determinant(nb, sumx2, sumx, sumx)),
      Binary(Over)
    ]);
    var b :- Run([
      Nested([Push(sumy), Push(a), Push(sumx), Binary(Times), Binary(Sub)]),
      Push(nb),
      Binary(Over)
    ]);
    Ok(Line(a, b))
  }

  lemma SolveCorrect(nb: Fract, sumxy: Fract, sumx: Fract, sumy: Fract, sumx2: Fract)
    requires Value(nb) == 0.0 ==> Value(sumx) == 0.0
    ensures var n, sxy, sx, sy, sxx := Value(nb), Value(sumxy), Value(sumx), Value(sumy), Value(sumx2);
            var r := Solve(nb, sumxy, sumx, sumy, sumx2);
            if Discriminant(n, sx, sxx) == 0.0 then r == Err(DivisionByZero)
            else r.Ok? && var a, b := Value(r.value.a), Value(r.value.b);
              Fitted(a, sxx, b, sx) == sxy && Fitted(a, sx, b, n) == sy
  {
    var n, sxy, sx, sy, sxx := Value(nb), Value(sumxy), Value(sumx), Value(sumy), Value(sumx2);
    hide Value, Run;
    SlopeValue(nb, sumxy, sumx, sumy, sumx2);
    if n * sxx - sx * sx != 0.0 {
      var a := Run([
        Nested(Determinant(nb, sumxy, sumx, sumy)),
        Nested(Determinant(nb, sumx2, sumx, sumx)),
        Binary(Over)
      ]).value;
      InterceptValue(nb, sumy, a, sumx);
      var r := Solve(nb, sumxy, sumx, sumy, sumx2).value;
      CramerSolves(n, sx, sy, sxy, sxx, Value(r.a), Value(r.b));
    }
  }

  lemma SolveFits(ps: seq<RealPoint>, nb: Fract, sumxy: Fract, sumx: Fract, sumy: Fract, sumx2: Fract)
    requires Value(nb) == |ps| as real && Value(sumxy) == SumXY(ps)
    requires Value(sumx) == SumX(ps) && Value(sumy) == SumY(ps) && Value(sumx2) == SumXX(ps)
    ensures var r := Solve(nb, sumxy, sumx, sumy, sumx2);
            if TwoDistinctX(ps)
            then
              && r.Ok?
              && NormalEquations(ps, Value(r.value.a), Value(r.value.b))
              && BestLine(ps, Value(r.value.a), Value(r.value.b))
            else r == Err(DivisionByZero)
  {
    hide Value, Solve, Discriminant, Fitted, BestLine, TwoDistinctX;
    SolveCorrect(nb, sumxy, sumx, sumy, sumx2);
    LagrangeIdentity(ps);
    PairSpreadSign(ps);
    var r := Solve(nb, sumxy, sumx, sumy, sumx2);
    if r.Ok? {
      NormalEquationsGiveBestLine(ps, Value(r.value.a), Value(r.value.b));
    }
  }

  lemma WholeValue(n: nat, f: Fract)
    requires f == Ratio(n, 1)
    ensures Value(f) == n as real
  {
  }

  /** `linearRegression`: it throws only "division by zero", exactly when no two points differ
      in x; otherwise it returns the unique line of least squared error. */
  method LinearRegression(points: seq<Point>) returns (r: Result<Line, Error>)
    ensures r.Ok? <==> TwoDistinctX(Plot(points))
    ensures r.Err? ==> r.error == DivisionByZero
    ensures r.Ok? ==> NormalEquations(Plot(points), Value(r.value.a), Value(r.value.b))
    ensures r.Ok? ==> BestLine(Plot(points), Value(r.value.a), Value(r.value.b))
  {
    hide Value, Run, Plus, Solve, Product, Squared, NormalEquations, BestLine, TwoDistinctX;
    WholeValue(0, ZERO);
    var sumxy, sumx, sumy, sumx2 := ZERO, ZERO, ZERO, ZERO;
    var n := |points|;
    ghost var ps := Plot(points);
    for i := 0 to n
      invariant Value(sumx) == SumX(ps[..i])
      invariant Value(sumy) == SumY(ps[..i])
      invariant Value(sumxy) == SumXY(ps[..i])
      invariant Value(sumx2) == SumXX(ps[..i])
    {
      var p := points[i];
      assert ps[..i + 1][..i] == ps[..i];
      MultiplyAdd(p.x, p.y, sumxy);
      sumxy := Run([Push(p.x), Push(p.y), Binary(Times), Push(sumxy), Binary(Add)]).value;
      PlusExact(sumx, p.x);
      sumx := Plus(sumx, p.x);
      PlusExact(sumy, p.y);
      sumy := Plus(sumy, p.y);
      MultiplyAdd(p.x, p.x, sumx2);
      ProductSquared(Value(p.x));
      sumx2 := Run([Push(p.x), Push(p.x), Binary(Times), Push(sumx2), Binary(Add)]).value;
    }
    assert ps[..n] == ps;

    var nb: Fract := New(n, 1).value;
    WholeValue(n, nb);
    r := Solve(nb, sumxy, sumx, sumy, sumx2);
    SolveFits(ps, nb, sumxy, sumx, sumy, sumx2);
  }

  /** `hypothesisLinear(a, b)(x)`. */
  function Hypothesis(line: Line, x: Fract): Result<Fract, Error> {
    Run([Push(x), Push(line.a), Binary(Times), Push(line.b), Binary(Add)])
  }

  lemma PredictionOnLine(points: seq<Point>, line: Line, target: Fract, alpha: real, beta: real)
    requires NormalEquations(Plot(points), Value(line.a), Value(line.b)) && TwoDistinctX(Plot(points))
    requires OnLine(Plot(points), alpha, beta)
    ensures Hypothesis(line, target).Ok?
    ensures Value(Hypothesis(line, target).value) == Product(alpha, Value(target)) + beta
  {
    hide Value, Run, Product, NormalEquations, TwoDistinctX, OnLine;
    LineRecovered(Plot(points), Value(line.a), Value(line.b), alpha, beta);
    MultiplyAdd(target, line.a, line.b);
    ProductSymmetric(Value(target), alpha);
  }

  lemma ProductSymmetric(v: real, w: real)
    ensures Product(v, w) == Product(w, v)
  {
  }

  lemma BestLineUnique(ps: seq<RealPoint>, a: real, b: real, a': real, b': real)
    requires BestLine(ps, a, b) && BestLine(ps, a', b')
    ensures a == a' && b == b'
  {
    hide Error2;
    assert Error2(ps, a, b) <= Error2(ps, a', b') && Error2(ps, a', b') <= Error2(ps, a, b);
  }

  /** The calibration step: fit, predict at `target`, truncate. The result is the value at `target`
      of the line of least squared error through all the measurements, with its fraction cut off;
      when the measurements lie on a line, it is that line's. */
  method Calibrate(points: seq<Point>, target: Fract) returns (r: Result<int, Error>)
    ensures r.Ok? <==> TwoDistinctX(Plot(points))
    ensures r.Err? ==> r.error == DivisionByZero
    ensures r.Ok? ==> forall a, b :: BestLine(Plot(points), a, b) ==>
              Truncates(r.value, Product(a, Value(target)) + b)
    ensures r.Ok? ==> forall alpha, beta :: OnLine(Plot(points), alpha, beta) ==>
              Truncates(r.value, Product(alpha, Value(target)) + beta)
  {
    hide Value, Run, Product, Truncates, NormalEquations, BestLine, TwoDistinctX, OnLine, ToBigInt;
    var line :- LinearRegression(points);
    MultiplyAdd(target, line.a, line.b);
    var v := Hypothesis(line, target).value;
    ToBigIntTruncates(v);
    ProductSymmetric(Value(target), Value(line.a));
    forall a, b | BestLine(Plot(points), a, b)
      ensures Value(v) == Product(a, Value(target)) + b
    {
      BestLineUnique(Plot(points), Value(line.a), Value(line.b), a, b);
    }
    forall alpha, beta | OnLine(Plot(points), alpha, beta)
      ensures Value(v) == Product(alpha, Value(target)) + beta
    {
      PredictionOnLine(points, line, target, alpha, beta);
    }
    return Ok(ToBigInt(v));
  }
}
