/** The stack machine `rpn` of js-packages/scripts/calibrate.ts: postfix programs over exact
    fractions, with nested programs that run on a stack of their own. */
module Rpn {
  import opened Common
  import opened Fractions

  datatype Operator = Add | Sub | Times | Over

  datatype Op =
    | Push(f: Fract)
    | Binary(operator: Operator)
    | Dup
    | Nested(ops: seq<Op>)
    | Other(text: string)

  function Apply(operator: Operator, a: Fract, b: Fract): Result<Fract, Error> {
    match operator
    case Add => Ok(Plus(a, b))
    case Sub => Ok(Minus(a, b))
    case Times => Ok(Mul(a, b))
    case Over => Div(a, b)
  }

  /** One turn of the loop; the top of the stack is the last element. */
  function Step(stack: seq<Fract>, op: Op): Result<seq<Fract>, Error>
    decreases op
  {
    match op
    case Push(f) => Ok(stack + [f])
    case Binary(operator) =>
      if |stack| < 2 then Err(StackUnderflow)
      else
        var v :- Apply(operator, stack[|stack| - 2], stack[|stack| - 1]);
        Ok(stack[..|stack| - 2] + [v])
    case Dup =>
      if |stack| < 1 then Err(StackUnderflow) else Ok(stack + [stack[|stack| - 1]])
    case Nested(ops) =>
      var v :- Run(ops);
      Ok(stack + [v])
    case Other(_) => Err(UnknownOperand)
  }

  function Exec(stack: seq<Fract>, ops: seq<Op>): Result<seq<Fract>, Error>
    decreases ops, 0
  {
    if ops == [] then Ok(stack)
    else
      var s :- Step(stack, ops[0]);
      Exec(s, ops[1..])
  }

  function Run(ops: seq<Op>): Result<Fract, Error>
    decreases ops, 1
  {
    var s :- Exec([], ops);
    if |s| != 1 then Err(NotOneElement) else Ok(s[0])
  }

  /** The loop of `rpn`, popping and pushing on a mutable stack. */
  method RunLoop(ops: seq<Op>) returns (r: Result<Fract, Error>)
    ensures r == Run(ops)
    decreases ops
  {
    var stack: seq<Fract> := [];
    for i := 0 to |ops|
      invariant Exec([], ops) == Exec(stack, ops[i..])
    {
      var op := ops[i];
      assert ops[i..][0] == op && ops[i..][1..] == ops[i + 1..];
      match op {
        case Push(f) =>
          stack := stack + [f];
        case Binary(operator) =>
          if |stack| < 2 {
            return Err(StackUnderflow);
          }
          ghost var before := stack;
          var b := stack[|stack| - 1];
          stack := stack[..|stack| - 1];
          var a := stack[|stack| - 1];
          stack := stack[..|stack| - 1];
          assert stack == before[..|before| - 2];
          var v :- Apply(operator, a, b);
          stack := stack + [v];
        case Dup =>
          if |stack| < 1 {
            return Err(StackUnderflow);
          }
          stack := stack + [stack[|stack| - 1]];
        case Nested(inner) =>
          var v :- RunLoop(inner);
          stack := stack + [v];
        case Other(_) =>
          return Err(UnknownOperand);
      }
    }
    return if |stack| != 1 then Err(NotOneElement) else Ok(stack[0]);
  }

  // ----- sequencing and framing -----

  lemma ExecOne(stack: seq<Fract>, op: Op)
    ensures Exec(stack, [op]) == Step(stack, op)
  {
  }

  /** `dup` leaves the top of the stack twice, and underflows exactly on the empty stack. */
  lemma DupExactly(stack: seq<Fract>, a: Fract)
    ensures Exec(stack + [a], [Dup]) == Ok(stack + [a, a])
    ensures Exec([], [Dup]) == Err(StackUnderflow)
  {
    ExecOne(stack + [a], Dup);
    assert stack + [a] + [a] == stack + [a, a];
  }

  lemma {:induction false} ExecAppend(stack: seq<Fract>, p: seq<Op>, q: seq<Op>)
    ensures Exec(stack, p + q) ==
            match Exec(stack, p) { case Ok(s) => Exec(s, q) case Err(e) => Err(e) }
    decreases |p|
  {
    if p == [] {
      assert p + q == q;
    } else {
      assert (p + q)[0] == p[0] && (p + q)[1..] == p[1..] + q;
      if Step(stack, p[0]).Ok? {
        ExecAppend(Step(stack, p[0]).value, p[1..], q);
      }
    }
  }

  /** The outcome a program has when `base` lies under its stack. */
  function OnTopOf(base: seq<Fract>, r: Result<seq<Fract>, Error>): Result<seq<Fract>, Error> {
    match r
    case Ok(s) => Ok(base + s)
    case Err(e) => Err(e)
  }

  lemma StepFrame(base: seq<Fract>, stack: seq<Fract>, op: Op)
    requires Step(stack, op) != Err(StackUnderflow)
    ensures Step(base + stack, op) == OnTopOf(base, Step(stack, op))
  {
    var all := base + stack;
    match op
    case Push(f) =>
      assert all + [f] == base + (stack + [f]);
    case Binary(operator) =>
      assert all[|all| - 1] == stack[|stack| - 1] && all[|all| - 2] == stack[|stack| - 2];
      assert all[..|all| - 2] == base + stack[..|stack| - 2];
      var v := Apply(operator, stack[|stack| - 2], stack[|stack| - 1]);
      if v.Ok? {
        assert (base + stack[..|stack| - 2]) + [v.value] == base + (stack[..|stack| - 2] + [v.value]);
      }
    case Dup =>
      assert all + [all[|all| - 1]] == base + (stack + [stack[|stack| - 1]]);
    case Nested(ops) =>
      if Run(ops).Ok? {
        assert all + [Run(ops).value] == base + (stack + [Run(ops).value]);
      }
    case Other(_) =>
  }

  /** A program that does not underflow never looks below the stack it started with. */
  lemma {:induction false} ExecFrame(base: seq<Fract>, stack: seq<Fract>, ops: seq<Op>)
    requires Exec(stack, ops) != Err(StackUnderflow)
    ensures Exec(base + stack, ops) == OnTopOf(base, Exec(stack, ops))
    decreases |ops|
  {
    if ops != [] {
      StepFrame(base, stack, ops[0]);
      if Step(stack, ops[0]).Ok? {
        ExecFrame(base, Step(stack, ops[0]).value, ops[1..]);
      }
    }
  }

  // ----- inlining nested programs -----

  /** A position inside a program, at any nesting depth, where a piece of program can stand. */
  datatype Context =
    | Hole(pre: seq<Op>, post: seq<Op>)
    | Inside(pre: seq<Op>, inner: Context, post: seq<Op>)

  function Fill(c: Context, ops: seq<Op>): seq<Op> {
    match c
    case Hole(pre, post) => pre + ops + post
    case Inside(pre, inner, post) => pre + [Nested(Fill(inner, ops))] + post
  }

  /** Faults a program can owe to having a stack of its own. */
  predicate ShapeFault(r: Result<Fract, Error>) {
    r == Err(StackUnderflow) || r == Err(NotOneElement)
  }

  lemma NestedIsInline(stack: seq<Fract>, inner: seq<Op>)
    requires !ShapeFault(Run(inner))
    ensures Exec(stack, [Nested(inner)]) == Exec(stack, inner)
  {
    ExecOne(stack, Nested(inner));
    ExecFrame(stack, [], inner);
    assert stack + [] == stack;
    if Run(inner).Ok? {
      assert Exec([], inner).value == [Run(inner).value];
    }
  }

  lemma SameEffectSameRun(pre: seq<Op>, p: seq<Op>, q: seq<Op>, post: seq<Op>)
    requires forall stack :: Exec(stack, p) == Exec(stack, q)
    ensures Run(pre + p + post) == Run(pre + q + post)
  {
    ExecAppend([], pre + p, post);
    ExecAppend([], pre + q, post);
    ExecAppend([], pre, p);
    ExecAppend([], pre, q);
  }

  /** Pieces of program with the same effect can stand for each other at any nesting depth. */
  lemma {:induction false} SameEffectSameFill(c: Context, p: seq<Op>, q: seq<Op>)
    requires forall stack :: Exec(stack, p) == Exec(stack, q)
    ensures Run(Fill(c, p)) == Run(Fill(c, q))
    decreases c
  {
    match c
    case Hole(pre, post) =>
      SameEffectSameRun(pre, p, q, post);
    case Inside(pre, deeper, post) =>
      SameEffectSameFill(deeper, p, q);
      var p', q' := [Nested(Fill(deeper, p))], [Nested(Fill(deeper, q))];
      forall stack ensures Exec(stack, p') == Exec(stack, q') {
        ExecOne(stack, p'[0]);
        ExecOne(stack, q'[0]);
      }
      SameEffectSameRun(pre, p', q', post);
  }

  /** Inlining a nested program whose own run is not a shape fault (in particular one that
      succeeds) changes nothing, wherever in the surrounding program it stands. */
  lemma InliningPreservesRun(c: Context, inner: seq<Op>)
    requires !ShapeFault(Run(inner))
    ensures Run(Fill(c, [Nested(inner)])) == Run(Fill(c, inner))
  {
    forall stack ensures Exec(stack, [Nested(inner)]) == Exec(stack, inner) {
      NestedIsInline(stack, inner);
    }
    SameEffectSameFill(c, [Nested(inner)], inner);
  }

  /** Code that builds up a stack. */
  function Pushes(stack: seq<Fract>): seq<Op> {
    seq(|stack|, i requires 0 <= i < |stack| => Push(stack[i]))
  }

  lemma {:induction false} PushesBuild(base: seq<Fract>, stack: seq<Fract>)
    ensures Exec(base, Pushes(stack)) == Ok(base + stack)
    decreases |stack|
  {
    if stack == [] {
      assert base + stack == base;
    } else {
      assert Pushes(stack)[1..] == Pushes(stack[1..]);
      PushesBuild(base + [stack[0]], stack[1..]);
      assert base + [stack[0]] + stack[1..] == base + stack;
    }
  }

  /** With `stack` pushed before and an unknown operand after, a piece of program shows whether it
      ends in an error. */
  lemma ProbeShows(stack: seq<Fract>, p: seq<Op>)
    ensures Run(Fill(Hole(Pushes(stack), [Other("")]), p)) ==
            match Exec(stack, p) { case Ok(_) => Err(UnknownOperand) case Err(e) => Err(e) }
  {
    var pre, post := Pushes(stack), [Other("")];
    PushesBuild([], stack);
    assert [] + stack == stack;
    ExecAppend([], pre + p, post);
    ExecAppend([], pre, p);
    if Exec(stack, p).Ok? {
      ExecOne(Exec(stack, p).value, Other(""));
    }
  }

  /** Nested or inlined, the program runs the same in every context. */
  ghost predicate InlinesEverywhere(inner: seq<Op>) {
    forall c :: Run(Fill(c, [Nested(inner)])) == Run(Fill(c, inner))
  }

  /** The program ends in the error of its own run on top of every stack. */
  ghost predicate FaultsAnyway(inner: seq<Op>)
    requires Run(inner).Err?
  {
    forall stack :: Exec(stack, inner) == Err(Run(inner).error)
  }

  lemma NestedFault(stack: seq<Fract>, inner: seq<Op>)
    requires Run(inner).Err?
    ensures Exec(stack, [Nested(inner)]) == Err(Run(inner).error)
  {
    ExecOne(stack, Nested(inner));
  }

  /** The exact condition: a nested program can be inlined everywhere exactly when its own run is
      not a shape fault, or it ends in that same fault on top of every stack. */
  lemma InliningExact(inner: seq<Op>)
    ensures InlinesEverywhere(inner) <==> !ShapeFault(Run(inner)) || FaultsAnyway(inner)
  {
    if !ShapeFault(Run(inner)) {
      forall c ensures Run(Fill(c, [Nested(inner)])) == Run(Fill(c, inner)) {
        InliningPreservesRun(c, inner);
      }
    } else {
      if FaultsAnyway(inner) {
        forall stack ensures Exec(stack, [Nested(inner)]) == Exec(stack, inner) {
          NestedFault(stack, inner);
        }
        forall c ensures Run(Fill(c, [Nested(inner)])) == Run(Fill(c, inner)) {
          SameEffectSameFill(c, [Nested(inner)], inner);
        }
      }
      if InlinesEverywhere(inner) {
        forall stack ensures Exec(stack, inner) == Err(Run(inner).error) {
          NestedFault(stack, inner);
          ProbeShows(stack, [Nested(inner)]);
          ProbeShows(stack, inner);
        }
      }
    }
  }

  // ----- the condition, by running the program -----

  /** The program divides only inside nested programs. */
  predicate NoOwnDivision(ops: seq<Op>) {
    forall k :: 0 <= k < |ops| ==> ops[k] != Binary(Over)
  }

  /** A stack too tall for any underflow but that of a nested program. */
  function Tall(ops: seq<Op>): (stack: seq<Fract>)
    ensures |stack| == |ops| + 1
  {
    seq(|ops| + 1, _ => ZERO)
  }

  /** Same error, or stacks of the same height. */
  predicate SameShape(r: Result<seq<Fract>, Error>, q: Result<seq<Fract>, Error>) {
    match (r, q)
    case (Ok(s), Ok(t)) => |s| == |t|
    case (Err(e), Err(f)) => e == f
    case _ => false
  }

  lemma StepHeight(s: seq<Fract>, t: seq<Fract>, op: Op)
    requires |s| == |t| && op != Binary(Over)
    ensures SameShape(Step(s, op), Step(t, op))
  {
  }

  lemma {:induction false} ExecHeight(s: seq<Fract>, t: seq<Fract>, ops: seq<Op>)
    requires |s| == |t| && NoOwnDivision(ops)
    ensures SameShape(Exec(s, ops), Exec(t, ops))
    decreases |ops|
  {
    hide Step;
    if ops != [] {
      StepHeight(s, t, ops[0]);
      if Step(s, ops[0]).Ok? {
        ExecHeight(Step(s, ops[0]).value, Step(t, ops[0]).value, ops[1..]);
      }
    }
  }

  /** On a stack that is tall enough a step underflows only for a nested program, hence on any. */
  lemma TallStep(base: seq<Fract>, s: seq<Fract>, op: Op)
    requires 2 <= |s|
    ensures Step(s, op) == Err(StackUnderflow) ==> Step(base + s, op) == Err(StackUnderflow)
    ensures Step(s, op).Ok? ==> |s| - 1 <= |Step(s, op).value|
  {
  }

  lemma {:induction false} TallExec(base: seq<Fract>, s: seq<Fract>, ops: seq<Op>)
    requires |ops| < |s| && Exec(s, ops) == Err(StackUnderflow)
    ensures Exec(base + s, ops) == Err(StackUnderflow)
    decreases |ops|
  {
    hide Step;
    if ops != [] {
      TallStep(base, s, ops[0]);
      if Step(s, ops[0]).Ok? {
        StepFrame(base, s, ops[0]);
        TallExec(base, Step(s, ops[0]).value, ops[1..]);
      }
    }
  }

  /** Without a division of its own, a program underflows on every stack as soon as it does on the
      tall one. */
  lemma UnderflowAnyway(stack: seq<Fract>, ops: seq<Op>)
    requires NoOwnDivision(ops) && Exec(Tall(ops), ops) == Err(StackUnderflow)
    ensures Exec(stack, ops) == Err(StackUnderflow)
  {
    var tall := Tall(ops);
    if |tall| <= |stack| {
      var cut := |stack| - |tall|;
      ExecHeight(tall, stack[cut..], ops);
      TallExec(stack[..cut], stack[cut..], ops);
      assert stack[..cut] + stack[cut..] == stack;
    } else if Exec(stack, ops) != Err(StackUnderflow) {
      var base := tall[..|tall| - |stack|];
      ExecFrame(base, stack, ops);
      ExecHeight(tall, base + stack, ops);
    }
  }

  /** When a program that does not leave one element faults on every stack: if it already faults on
      the empty one. */
  lemma FaultsAnywayOneElement(inner: seq<Op>)
    requires Run(inner) == Err(NotOneElement)
    ensures FaultsAnyway(inner) <==> Exec([], inner).Err?
  {
    if Exec([], inner).Err? {
      forall stack ensures Exec(stack, inner) == Err(NotOneElement) {
        ExecFrame(stack, [], inner);
        assert stack + [] == stack;
      }
    }
  }

  /** When an underflowing program without a division of its own underflows on every stack: if it
      still does on a stack taller than the program is long. */
  lemma FaultsAnywayUnderflow(inner: seq<Op>)
    requires Run(inner) == Err(StackUnderflow) && NoOwnDivision(inner)
    ensures FaultsAnyway(inner) <==> Exec(Tall(inner), inner) == Err(StackUnderflow)
  {
    if Exec(Tall(inner), inner) == Err(StackUnderflow) {
      forall stack ensures Exec(stack, inner) == Err(StackUnderflow) {
        UnderflowAnyway(stack, inner);
      }
    }
  }

  /** Inlining can change the result: `1 2 [+]` fails, `1 2 +` is 3. */
  lemma InliningCanChangeRun()
    ensures var one, two := Push(Ratio(1, 1)), Push(Ratio(2, 1));
            && Run([one, two, Nested([Binary(Add)])]) == Err(StackUnderflow)
            && Run([one, two, Binary(Add)]) == Ok(Ratio(3, 1))
  {
    var one, two := Push(Ratio(1, 1)), Push(Ratio(2, 1));
    var s2: seq<Fract> := [Ratio(1, 1), Ratio(2, 1)];
    forall op ensures Exec([], [one, two, op]) == Step(s2, op) {
      assert [one, two, op] == Pushes(s2) + [op];
      PushesBuild([], s2);
      assert [] + s2 == s2;
      ExecAppend([], Pushes(s2), [op]);
      ExecOne(s2, op);
    }
    ExecOne([], Binary(Add));
    assert Plus(s2[0], s2[1]) == Ratio(3, 1);
    assert Step(s2, Binary(Add)).value == [Ratio(3, 1)];
  }

  // ----- static depth count -----

  /** Stack height after one operation, counted without looking at any value. */
  function DepthStep(d: nat, op: Op): Result<nat, Error>
    decreases op
  {
    match op
    case Push(_) => Ok(d + 1)
    case Binary(_) => if d < 2 then Err(StackUnderflow) else Ok(d - 1)
    case Dup => if d < 1 then Err(StackUnderflow) else Ok(d + 1)
    case Nested(ops) =>
      var _ :- DepthCheck(ops);
      Ok(d + 1)
    case Other(_) => Err(UnknownOperand)
  }

  function Depth(d: nat, ops: seq<Op>): Result<nat, Error>
    decreases ops, 0
  {
    if ops == [] then Ok(d)
    else
      var d' :- DepthStep(d, ops[0]);
      Depth(d', ops[1..])
  }

  function DepthCheck(ops: seq<Op>): Result<nat, Error>
    decreases ops, 1
  {
    var d :- Depth(0, ops);
    if d != 1 then Err(NotOneElement) else Ok(d)
  }

  /** `r` is a division by zero, or succeeds and fails just as the count `d` does. */
  predicate Foretold<T, U>(d: Result<T, Error>, r: Result<U, Error>) {
    || r == Err(DivisionByZero)
    || match d { case Ok(_) => r.Ok? case Err(e) => r == Err(e) }
  }

  lemma {:induction false} StepForetold(stack: seq<Fract>, op: Op)
    ensures Foretold(DepthStep(|stack|, op), Step(stack, op))
    ensures Step(stack, op).Ok? ==> DepthStep(|stack|, op) == Ok(|Step(stack, op).value|)
    decreases op
  {
    match op
    case Nested(ops) => RunForetold(ops);
    case Binary(operator) =>
      if |stack| >= 2 {
        DivExact(stack[|stack| - 2], stack[|stack| - 1]);
      }
    case _ =>
  }

  lemma {:induction false} ExecForetold(stack: seq<Fract>, ops: seq<Op>)
    ensures Foretold(Depth(|stack|, ops), Exec(stack, ops))
    ensures Exec(stack, ops).Ok? ==> Depth(|stack|, ops) == Ok(|Exec(stack, ops).value|)
    decreases ops, 0
  {
    if ops != [] {
      StepForetold(stack, ops[0]);
      if Step(stack, ops[0]).Ok? {
        ExecForetold(Step(stack, ops[0]).value, ops[1..]);
      }
    }
  }

  /** Underflow, leftover and unknown-operand errors are decided by the depth count alone;
      the only thing values can add is a division by zero. */
  lemma {:induction false} RunForetold(ops: seq<Op>)
    ensures Foretold(DepthCheck(ops), Run(ops))
    decreases ops, 1
  {
    ExecForetold([], ops);
  }

  // ----- compiling expressions -----

  datatype Expr =
    | Lit(f: Fract)
    | Bin(operator: Operator, left: Expr, right: Expr)
    | Square(e: Expr)
    | Group(e: Expr)

  /** Postfix code. A square duplicates its operand; a group becomes a nested program. */
  function Compile(e: Expr): seq<Op> {
    match e
    case Lit(f) => [Push(f)]
    case Bin(operator, l, r) => Compile(l) + Compile(r) + [Binary(operator)]
    case Square(e) => Compile(e) + [Dup, Binary(Times)]
    case Group(e) => [Nested(Compile(e))]
  }

  /** The real number an expression denotes; none when some divisor is zero. */
  function Meaning(e: Expr): Option<real> {
    match e
    case Lit(f) => Some(Value(f))
    case Square(e) =>
      (match Meaning(e) case None => None case Some(v) => Some(v * v))
    case Group(e) => Meaning(e)
    case Bin(operator, l, r) =>
      var v, w := Meaning(l), Meaning(r);
      if v.None? || w.None? then None
      else Combine(operator, v.value, w.value)
  }

  function Combine(operator: Operator, v: real, w: real): Option<real> {
    match operator
    case Add => Some(v + w)
    case Sub => Some(v - w)
    case Times => Some(v * w)
    case Over => if w == 0.0 then None else Some(v / w)
  }

  /** `r` leaves one more fraction, worth `m`, on the stack; or divides by zero when `m` is none. */
  predicate Delivers(m: Option<real>, stack: seq<Fract>, r: Result<seq<Fract>, Error>) {
    match m
    case None => r == Err(DivisionByZero)
    case Some(v) =>
      && r.Ok?
      && |r.value| == |stack| + 1
      && r.value[..|stack|] == stack
      && Value(r.value[|stack|]) == v
  }

  lemma ApplyExact(operator: Operator, a: Fract, b: Fract)
    ensures match Combine(operator, Value(a), Value(b))
            case None => Apply(operator, a, b) == Err(DivisionByZero)
            case Some(v) => Apply(operator, a, b).Ok? && Value(Apply(operator, a, b).value) == v
  {
    match operator
    case Add => PlusExact(a, b);
    case Sub => MinusExact(a, b);
    case Times => MulExact(a, b);
    case Over => DivExact(a, b);
  }

  lemma BinaryDelivers(operator: Operator, stack: seq<Fract>, a: Fract, b: Fract)
    ensures Delivers(Combine(operator, Value(a), Value(b)), stack, Exec(stack + [a] + [b], [Binary(operator)]))
  {
    var t := stack + [a] + [b];
    ExecOne(t, Binary(operator));
    ApplyExact(operator, a, b);
    assert t[..|t| - 2] == stack;
  }

  lemma SquareDelivers(stack: seq<Fract>, a: Fract)
    ensures Delivers(Some(Value(a) * Value(a)), stack, Exec(stack + [a], [Dup, Binary(Times)]))
  {
    var s := stack + [a];
    assert [Dup, Binary(Times)] == [Dup] + [Binary(Times)];
    ExecAppend(s, [Dup], [Binary(Times)]);
    ExecOne(s, Dup);
    BinaryDelivers(Times, stack, a, a);
  }

  lemma DeliveredTop(v: real, stack: seq<Fract>, r: Result<seq<Fract>, Error>) returns (a: Fract)
    requires Delivers(Some(v), stack, r)
    ensures r == Ok(stack + [a]) && Value(a) == v
  {
    a := r.value[|stack|];
    assert r.value == stack + [a];
  }

  lemma LitDelivers(f: Fract, stack: seq<Fract>)
    ensures Delivers(Some(Value(f)), stack, Exec(stack, [Push(f)]))
  {
  }

  lemma GroupDelivers(m: Option<real>, code: seq<Op>, stack: seq<Fract>)
    requires Delivers(m, [], Exec([], code))
    ensures Delivers(m, stack, Exec(stack, [Nested(code)]))
  {
    ExecOne(stack, Nested(code));
  }

  lemma {:induction false} CompileExec(e: Expr, stack: seq<Fract>)
    ensures Delivers(Meaning(e), stack, Exec(stack, Compile(e)))
    decreases e
  {
    hide Exec, Step, Run, Value, Combine;
    match e
    case Lit(f) =>
      LitDelivers(f, stack);
    case Bin(operator, l, r) =>
      ExecAppend(stack, Compile(l) + Compile(r), [Binary(operator)]);
      ExecAppend(stack, Compile(l), Compile(r));
      CompileExec(l, stack);
      if Meaning(l).Some? {
        var a := DeliveredTop(Meaning(l).value, stack, Exec(stack, Compile(l)));
        CompileExec(r, stack + [a]);
        if Meaning(r).Some? {
          var b := DeliveredTop(Meaning(r).value, stack + [a], Exec(stack + [a], Compile(r)));
          BinaryDelivers(operator, stack, a, b);
        }
      }
    case Square(x) =>
      ExecAppend(stack, Compile(x), [Dup, Binary(Times)]);
      CompileExec(x, stack);
      if Meaning(x).Some? {
        var a := DeliveredTop(Meaning(x).value, stack, Exec(stack, Compile(x)));
        SquareDelivers(stack, a);
      }
    case Group(x) =>
      CompileExec(x, []);
      GroupDelivers(Meaning(x), Compile(x), stack);
  }

  /** Compiler correctness: the machine returns exactly the value of the expression, and throws
      "division by zero" exactly when some divisor in the expression is zero. */
  lemma CompileCorrect(e: Expr)
    ensures match Meaning(e)
            case None => Run(Compile(e)) == Err(DivisionByZero)
            case Some(v) => Run(Compile(e)).Ok? && Value(Run(Compile(e)).value) == v
  {
    CompileExec(e, []);
  }
}
