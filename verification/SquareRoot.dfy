/** `Fract.sqrt` of js-packages/scripts/calibrate.ts: Newton's iteration, with the stopping test
    as it is written.

    The iteration is a recursion without a bound. `fuel` counts the calls of `newtonIteration`
    that are allowed to start; `Running` means that the next call is still to come. */
module SquareRoot {
  import opened Common
  import opened Fractions
  import opened Rpn

  const ONE: Fract := Ratio(1, 1)
  const TWO: Fract := Ratio(2, 1)

  datatype Outcome = Returned(f: Fract) | Threw(error: Error) | Running

  /** The program that computes (n / x0 + x0) / 2. */
  function NewtonStep(n: Fract, x0: Fract): Result<Fract, Error> {
    Run([Push(n), Push(x0), Binary(Over), Push(x0), Binary(Add), Push(TWO), Binary(Over)])
  }

  predicate Stops(x0: Fract, x1: Fract) {
    Eq(x0, x1) || Eq(x0, Minus(x1, ONE))
  }

  function NewtonIteration(n: Fract, x0: Fract, fuel: nat): Outcome
    decreases fuel
  {
    if fuel == 0 then Running
    else match NewtonStep(n, x0)
      case Err(e) => Threw(e)
      case Ok(x1) => if Stops(x0, x1) then Returned(x0) else NewtonIteration(n, x1, fuel - 1)
  }

  function Sqrt(f: Fract, fuel: nat): Outcome {
    if f.a < 0 then Threw(NegativeRoot)
    else if Lt(f, TWO) then Returned(f)
    else NewtonIteration(f, ONE, fuel)
  }

  // ----- one Newton step over the reals -----

  ghost function Next(n: real, x: real): real
    requires 0.0 < x
  {
    (n / x + x) / 2.0
  }

  /** x^2 - n: how far the square of an iterate is from its target. */
  ghost function Excess(n: real, x: real): real {
    x * x - n
  }

  lemma NewtonStepValue(n: Fract, x: Fract)
    requires 0.0 < Value(x)
    ensures NewtonStep(n, x).Ok?
    ensures Value(NewtonStep(n, x).value) == Next(Value(n), Value(x))
  {
    hide Value, Run;
    var quotient := Bin(Over, Lit(n), Lit(x));
    assert Compile(quotient) == [Push(n), Push(x), Binary(Over)];
    assert Meaning(Lit(n)) == Some(Value(n)) && Meaning(Lit(x)) == Some(Value(x));
    assert Meaning(quotient) == Some(Value(n) / Value(x));
    var sum := Bin(Add, quotient, Lit(x));
    assert Compile(sum) == [Push(n), Push(x), Binary(Over), Push(x), Binary(Add)];
    assert Meaning(sum) == Some(Value(n) / Value(x) + Value(x));
    var e := Bin(Over, sum, Lit(TWO));
    assert Compile(e) == [Push(n), Push(x), Binary(Over), Push(x), Binary(Add), Push(TWO), Binary(Over)];
    WholeValues();
    assert Meaning(Lit(TWO)) == Some(2.0);
    CompileCorrect(e);
  }

  lemma WholeValues()
    ensures Value(ONE) == 1.0 && Value(TWO) == 2.0
  {
  }

  /** The excess of the next iterate is a square. */
  lemma ExcessIsSquare(n: real, x: real)
    requires 0.0 < x
    ensures var h := Excess(n, x) / (2.0 * x); Excess(n, Next(n, x)) == h * h
  {
    var y, h := Next(n, x), Excess(n, x) / (2.0 * x);
    assert n / x * x == n;
    assert 2.0 * x * y == n + x * x;
    assert 2.0 * x * h == x * x - n;
    assert (2.0 * x * y) * (2.0 * x * y) - (2.0 * x * h) * (2.0 * x * h) == 4.0 * (x * x) * n by {
      assert (n + x * x) * (n + x * x) - (x * x - n) * (x * x - n) == 4.0 * (x * x) * n;
    }
    assert 4.0 * (x * x) * (y * y - n - h * h) == 0.0;
    assert 0.0 < 4.0 * (x * x);
  }

  /** Above the root an iterate moves down, stays above, and loses three quarters of its excess. */
  lemma StepDown(n: real, x: real)
    requires 0.0 < x && 0.0 < n && 0.0 < Excess(n, x)
    ensures 0.0 < Next(n, x) < x
    ensures 0.0 < 4.0 * Excess(n, Next(n, x)) <= Excess(n, x)
  {
    var y, e := Next(n, x), Excess(n, x);
    var h := e / (2.0 * x);
    ExcessIsSquare(n, x);
    assert 0.0 < n / x;
    assert n / x * x == n;
    RealCancel(n / x, x, x);
    assert h * (2.0 * x) == e;
    assert 0.0 < h;
    RealCancel(2.0 * h, x, x);
    assert 0.0 < h * h;
    assert 4.0 * (h * h) == (2.0 * h) * (2.0 * h) <= (2.0 * h) * x == e;
  }

  // ----- the whole iteration -----

  lemma MinusOneValue(x: Fract)
    ensures Value(Minus(x, ONE)) == Value(x) - 1.0
  {
    MinusExact(x, ONE);
    WholeValues();
  }

  lemma StopsMeans(x0: Fract, x1: Fract)
    ensures Stops(x0, x1) <==> Value(x0) == Value(x1) || Value(x0) == Value(x1) - 1.0
  {
    EqIsEqual(x0, x1);
    EqIsEqual(x0, Minus(x1, ONE));
    MinusOneValue(x1);
  }

  /** From an iterate above the root the stopping test never succeeds again. */
  lemma {:induction false} NeverStopsAbove(n: Fract, x0: Fract, fuel: nat)
    requires 0.0 < Value(n) && 0.0 < Value(x0) && 0.0 < Excess(Value(n), Value(x0))
    ensures NewtonIteration(n, x0, fuel) == Running
    decreases fuel
  {
    hide Value, Excess, NewtonStep, Stops, Next;
    if fuel != 0 {
      NewtonStepValue(n, x0);
      var x1 := NewtonStep(n, x0).value;
      StepDown(Value(n), Value(x0));
      StopsMeans(x0, x1);
      NeverStopsAbove(n, x1, fuel - 1);
    }
  }

  /** The first step, from 1 to (n + 1) / 2. */
  lemma FirstStep(n: Fract)
    requires 2.0 <= Value(n)
    ensures NewtonStep(n, ONE).Ok?
    ensures Value(NewtonStep(n, ONE).value) == (Value(n) + 1.0) / 2.0
    ensures 0.0 < Excess(Value(n), Value(NewtonStep(n, ONE).value))
    ensures Stops(ONE, NewtonStep(n, ONE).value) <==> Value(n) == 3.0
  {
    WholeValues();
    NewtonStepValue(n, ONE);
    StopsMeans(ONE, NewtonStep(n, ONE).value);
    FirstExcess(Value(n));
  }

  lemma FirstExcess(v: real)
    requires 2.0 <= v
    ensures Next(v, 1.0) == (v + 1.0) / 2.0
    ensures 0.0 < Excess(v, (v + 1.0) / 2.0)
    ensures 4.0 * Excess(v, (v + 1.0) / 2.0) == (v - 1.0) * (v - 1.0)
  {
  }

  /** What `sqrt` does on every input, however long it is left running: negative numbers throw,
      numbers below 2 come back unchanged, 3 gives 1, and on nothing else does it ever return. */
  lemma SqrtOutcome(f: Fract, fuel: nat)
    ensures var v := Value(f);
            Sqrt(f, fuel) ==
            if v < 0.0 then Threw(NegativeRoot)
            else if v < 2.0 then Returned(f)
            else if v == 3.0 && 0 < fuel then Returned(ONE)
            else Running
  {
    ZeroValue(f);
    LtIsLess(f, TWO);
    WholeValues();
    if 2.0 <= Value(f) && fuel != 0 {
      FirstStep(f);
      if Value(f) != 3.0 {
        NeverStopsAbove(f, NewtonStep(f, ONE).value, fuel - 1);
      }
    }
  }

  /** A value handed back by `sqrt` is a square root of the input exactly for 0 and 1. */
  lemma SqrtIsRootOnlyOfZeroAndOne(f: Fract, fuel: nat)
    requires Sqrt(f, fuel).Returned?
    ensures var r := Value(Sqrt(f, fuel).f);
            r * r == Value(f) <==> Value(f) == 0.0 || Value(f) == 1.0
  {
    hide Value, Sqrt;
    SqrtOutcome(f, fuel);
    WholeValues();
    SelfSquare(Value(Sqrt(f, fuel).f), Value(f));
  }

  lemma SelfSquare(r: real, v: real)
    requires r == v || (r == 1.0 && v == 3.0)
    ensures r * r == v <==> v == 0.0 || v == 1.0
  {
    if r == v {
      FixedSquare(r);
    } else {
      assert r * r == 1.0 * r;
    }
  }

  lemma FixedSquare(v: real)
    ensures v * v == v <==> v == 0.0 || v == 1.0
  {
  }

  // ----- the iterates converge all the same -----

  /** The k-th argument `x0` of `newtonIteration`. */
  function Iterate(n: Fract, k: nat): (x: Fract)
    requires 2.0 <= Value(n)
    ensures 0.0 < Value(x)
    ensures k != 0 ==> 0.0 < Excess(Value(n), Value(x))
    ensures k == 1 ==> Value(x) == (Value(n) + 1.0) / 2.0
  {
    WholeValues();
    if k == 0 then ONE
    else
      var x := Iterate(n, k - 1);
      NewtonStepValue(n, x);
      if k == 1 then FirstStep(n); NewtonStep(n, x).value
      else StepDown(Value(n), Value(x)); NewtonStep(n, x).value
  }

  /** `sqrt` does go through these iterates: for every value but 3, where it stops at once, the call
      on the k-th iterate is what the first call comes to after k steps. */
  lemma {:induction false} IteratesAreReached(n: Fract, k: nat, fuel: nat)
    requires 2.0 <= Value(n) && Value(n) != 3.0 && k <= fuel
    ensures NewtonIteration(n, ONE, fuel) == NewtonIteration(n, Iterate(n, k), fuel - k)
    decreases k
  {
    hide Value, Excess, NewtonStep, Stops, Next;
    if k != 0 {
      IteratesAreReached(n, k - 1, fuel);
      var x := Iterate(n, k - 1);
      NewtonStepValue(n, x);
      if k == 1 {
        FirstStep(n);
      } else {
        StepDown(Value(n), Value(x));
        StopsMeans(x, Iterate(n, k));
      }
    }
  }

  /** The excess `e` is at most ((v - 1) / 2)^2 / 4^(k - 1). */
  ghost predicate Shrunk(k: nat, e: real, v: real) {
    Pow(4, k) as real * e <= (v - 1.0) * (v - 1.0)
  }

  /** From the first step on the iterates fall strictly, stay above the root, and lose at least
      three quarters of their excess each time. */
  lemma {:induction false} IteratesConverge(n: Fract, k: nat)
    requires 2.0 <= Value(n) && 0 < k
    ensures Value(Iterate(n, k + 1)) < Value(Iterate(n, k))
    ensures 0.0 < Excess(Value(n), Value(Iterate(n, k)))
    ensures Shrunk(k, Excess(Value(n), Value(Iterate(n, k))), Value(n))
    decreases k
  {
    hide Value, Excess, Next, NewtonStep, Shrunk;
    var x := Iterate(n, k);
    StepDown(Value(n), Value(x));
    NewtonStepValue(n, x);
    if k == 1 {
      ShrunkFirst(Value(n));
    } else {
      IteratesConverge(n, k - 1);
      var y := Iterate(n, k - 1);
      StepDown(Value(n), Value(y));
      NewtonStepValue(n, y);
      ShrunkStep(k, Excess(Value(n), Value(y)), Excess(Value(n), Value(x)), Value(n));
    }
  }

  lemma ShrunkFirst(v: real)
    requires 2.0 <= v
    ensures Shrunk(1, Excess(v, (v + 1.0) / 2.0), v)
  {
  }

  lemma ShrunkStep(k: nat, e: real, e': real, v: real)
    requires 0 < k && Shrunk(k - 1, e, v) && 4.0 * e' <= e
    ensures Shrunk(k, e', v)
  {
  }
}
