/** What the dynamically scoped evaluator of src/interpreter.ts guarantees: lazy tuples,
    projections and calls that work in the table current where they happen, checks that come
    before any argument is evaluated, untaken branches that have no effect, and results that
    do not depend on the fuel once it suffices. */
module DynamicProperties {
  import opened Syntax
  import opened Errors
  import Operators
  import Bindings
  import opened DynamicInterp

  /** Building a tuple evaluates nothing and prints nothing. */
  lemma TupleIsLazy(fuel: nat, a: Term, b: Term, env: Env, out: seq<string>)
    ensures Evaluate(fuel, Tuple(a, b), env, out) == Outcome(Ok(LazyPair(a, b)), out)
  {
  }

  /** A projection of a tuple evaluates the selected component only, and in the table
      current at the projection. */
  lemma ProjectionOfTuple(fuel: nat, a: Term, b: Term, env: Env, out: seq<string>)
    ensures Evaluate(fuel + 1, First(Tuple(a, b)), env, out) == Evaluate(fuel, a, env, out)
    ensures Evaluate(fuel + 1, Second(Tuple(a, b)), env, out) == Evaluate(fuel, b, env, out)
  {
    assert Evaluate(fuel + 1, Tuple(a, b), env, out) == Outcome(Ok(LazyPair(a, b)), out);
    assert Project(fuel + 1, Tuple(a, b), true, env, out) == Evaluate(fuel, a, env, out);
    assert Project(fuel + 1, Tuple(a, b), false, env, out) == Evaluate(fuel, b, env, out);
  }

  /** `let p = (x, 0); let x = 7; first(p)` yields 7: the component `x` is looked up when `p`
      is projected, although no `x` exists where the tuple is written. */
  lemma ProjectionSeesLaterBinding(fuel: nat)
    requires fuel >= 1
    ensures Interpretate(fuel, Let("p", Tuple(Var("x"), Int(0)), Let("x", Int(7), First(Var("p"))))) ==
            Outcome(Ok(IntVal(7)), [])
  {
    var env0: Env := map[];
    var env1 := env0["p" := LazyPair(Var("x"), Int(0))];
    var env2 := env1["x" := IntVal(7)];
    assert Evaluate(fuel, Var("p"), env2, []) == Outcome(Ok(LazyPair(Var("x"), Int(0))), []);
    assert Evaluate(fuel - 1, Var("x"), env2, []) == Outcome(Ok(IntVal(7)), []);
    assert Project(fuel, Var("p"), true, env2, []) == Outcome(Ok(IntVal(7)), []);
    assert Evaluate(fuel, First(Var("p")), env2, []) == Outcome(Ok(IntVal(7)), []);
    assert Evaluate(fuel, Int(7), env1, []) == Outcome(Ok(IntVal(7)), []);
    assert EvaluateLet(fuel, "x", Int(7), First(Var("p")), env1, []) == Outcome(Ok(IntVal(7)), []);
    assert Evaluate(fuel, Let("x", Int(7), First(Var("p"))), env1, []) == Outcome(Ok(IntVal(7)), []);
    assert Evaluate(fuel, Tuple(Var("x"), Int(0)), env0, []) == Outcome(Ok(LazyPair(Var("x"), Int(0))), []);
    assert EvaluateLet(fuel, "p", Tuple(Var("x"), Int(0)), Let("x", Int(7), First(Var("p"))), env0, []) == Outcome(Ok(IntVal(7)), []);
  }

  /** `let p = (first(p), 0); first(p)` never finishes: every projection of `p` projects `p`
      again, and no fuel is enough. */
  lemma SelfProjectionDiverges(fuel: nat)
    ensures Interpretate(fuel, Let("p", Tuple(First(Var("p")), Int(0)), First(Var("p")))).res == OutOfFuel
  {
    var env0: Env := map[];
    var env := env0["p" := LazyPair(First(Var("p")), Int(0))];
    assert Evaluate(fuel, Tuple(First(Var("p")), Int(0)), env0, []) == Outcome(Ok(LazyPair(First(Var("p")), Int(0))), []);
    SelfProjectionLoops(fuel, env);
    assert EvaluateLet(fuel, "p", Tuple(First(Var("p")), Int(0)), First(Var("p")), env0, []) == Evaluate(fuel, First(Var("p")), env, []);
  }

  lemma {:induction false} SelfProjectionLoops(fuel: nat, env: Env)
    requires "p" in env && env["p"] == LazyPair(First(Var("p")), Int(0))
    ensures Evaluate(fuel, First(Var("p")), env, []).res == OutOfFuel
  {
    assert Evaluate(fuel, Var("p"), env, []) == Outcome(Ok(LazyPair(First(Var("p")), Int(0))), []);
    if fuel > 0 {
      SelfProjectionLoops(fuel - 1, env);
      assert Project(fuel, Var("p"), true, env, []) == Evaluate(fuel - 1, First(Var("p")), env, []);
    } else {
      assert Project(fuel, Var("p"), true, env, []).res == OutOfFuel;
    }
  }

  /** `If` evaluates its condition and then the selected branch only; the other branch may be
      anything. */
  lemma IfEvaluatesOneBranch(fuel: nat, c: Term, t: Term, e: Term, env: Env, out: seq<string>)
    requires Evaluate(fuel, c, env, out).res.Ok? && Evaluate(fuel, c, env, out).res.value.BoolVal?
    ensures var oc := Evaluate(fuel, c, env, out);
      Evaluate(fuel, If(c, t, e), env, out) == Evaluate(fuel, if oc.res.value.b then t else e, env, oc.out)
  {
  }

  /** `And` with a false left operand and `Or` with a true one are decided by the left operand:
      the right operand is not evaluated. */
  lemma ShortCircuit(fuel: nat, lhs: Term, op: BinaryOp, rhs: Term, env: Env, out: seq<string>)
    requires op == And || op == Or
    requires Evaluate(fuel, lhs, env, out).res == Ok(BoolVal(op == Or))
    ensures Evaluate(fuel, Binary(lhs, op, rhs), env, out) == Evaluate(fuel, lhs, env, out)
  {
    assert DoBinaryOp(fuel, lhs, op, rhs, env, out) == ShortCircuitOp(fuel, lhs, op, rhs, env, out);
  }

  /** A callee that is not a function value fails before any argument is evaluated. */
  lemma NotCallableFailsFirst(fuel: nat, callee: Term, args: seq<Term>, env: Env, out: seq<string>)
    requires Evaluate(fuel, callee, env, out).res.Ok? && !Evaluate(fuel, callee, env, out).res.value.FunctionVal?
    ensures Evaluate(fuel, Call(callee, args), env, out) == Outcome(Error(NotCallable), Evaluate(fuel, callee, env, out).out)
  {
  }

  /** A wrong number of arguments fails before any argument is evaluated: only the callee's
      output has been produced. */
  lemma ArityCheckedFirst(fuel: nat, callee: Term, args: seq<Term>, env: Env, out: seq<string>, ps: seq<string>, body: Term)
    requires Evaluate(fuel, callee, env, out).res == Ok(FunctionVal(ps, body))
    requires |args| != |ps|
    ensures Evaluate(fuel, Call(callee, args), env, out) ==
            Outcome(Error(ArityMismatch(|ps|, |args|)), Evaluate(fuel, callee, env, out).out)
  {
  }

  /** Dynamic scoping: the body runs in the caller's table with the parameters set in it, so
      every caller binding that no parameter shadows is visible in the body. */
  lemma CallSeesCallerBindings(fuel: nat, callee: Term, args: seq<Term>, env: Env, out: seq<string>, ps: seq<string>, body: Term)
    requires fuel >= 1
    requires Evaluate(fuel, callee, env, out).res == Ok(FunctionVal(ps, body))
    requires |args| == |ps|
    requires BindArguments(fuel, callee, args, ps, 0, env, env, Evaluate(fuel, callee, env, out).out).res.Ok?
    ensures var ob := BindArguments(fuel, callee, args, ps, 0, env, env, Evaluate(fuel, callee, env, out).out);
      Evaluate(fuel, Call(callee, args), env, out) == Evaluate(fuel - 1, body, ob.res.value, ob.out) &&
      ob.res.value.Keys == env.Keys + set p | p in ps &&
      forall y :: y in env && y !in ps ==> ob.res.value[y] == env[y]
    ensures var ob := BindArguments(fuel, callee, args, ps, 0, env, env, Evaluate(fuel, callee, env, out).out);
      var av := ArgumentValues(fuel, args, 0, env, Evaluate(fuel, callee, env, out).out);
      av.res.Ok? && |av.res.value| == |ps| &&
      forall j :: 0 <= j < |ps| && ps[j] !in ps[j + 1..] ==> ob.res.value[ps[j]] == av.res.value[j]
  {
    var oc := Evaluate(fuel, callee, env, out);
    var ob := BindArguments(fuel, callee, args, ps, 0, env, env, oc.out);
    assert Evaluate(fuel, Call(callee, args), env, out) == CallFunction(fuel, callee, args, env, out);
    assert CallFunction(fuel, callee, args, env, out) == Evaluate(fuel - 1, body, ob.res.value, ob.out);
    assert ps[0..] == ps;
    ParametersTakeArgumentValues(fuel, callee, args, ps, env, oc.out);
  }

  /** After a successful binding, each parameter not repeated later holds the value of its
      argument as evaluated in the caller's table. */
  lemma ParametersTakeArgumentValues(fuel: nat, callee: Term, args: seq<Term>, ps: seq<string>, env: Env, out: seq<string>)
    requires |args| == |ps|
    requires BindArguments(fuel, callee, args, ps, 0, env, env, out).res.Ok?
    ensures var ob := BindArguments(fuel, callee, args, ps, 0, env, env, out);
      var av := ArgumentValues(fuel, args, 0, env, out);
      av.res.Ok? && |av.res.value| == |ps| &&
      forall j :: 0 <= j < |ps| && ps[j] !in ps[j + 1..] ==> ob.res.value[ps[j]] == av.res.value[j]
  {
    BindArgumentsIsBind(fuel, callee, args, ps, 0, env, env, out);
    assert ps[0..] == ps;
    var vals := ArgumentValues(fuel, args, 0, env, out).res.value;
    forall j | 0 <= j < |ps| && ps[j] !in ps[j + 1..]
      ensures BindArguments(fuel, callee, args, ps, 0, env, env, out).res.value[ps[j]] == vals[j]
    {
      Bindings.BindLastWins(env, ps, vals, j);
    }
  }

  /** Binding the arguments is evaluating all of them in the caller's table and then setting
      each value under its parameter in turn, so a later equal parameter wins; the output and
      the failure, if any, are the same. */
  lemma {:induction false} BindArgumentsIsBind(fuel: nat, callee: Term, args: seq<Term>, ps: seq<string>, i: nat,
                                               env: Env, local: Env, out: seq<string>)
    requires |ps| == |args| && i <= |args|
    ensures var ob := BindArguments(fuel, callee, args, ps, i, env, local, out);
      var av := ArgumentValues(fuel, args, i, env, out);
      ob.out == av.out && ob.res.Ok? == av.res.Ok? &&
      (ob.res.Ok? ==> ob.res.value == Bindings.Bind(local, ps[i..], av.res.value)) &&
      (ob.res.Error? <==> av.res.Error?) &&
      (ob.res.Error? ==> ob.res.kind == av.res.kind)
    decreases |args| - i
  {
    if i < |args| {
      var ov := Evaluate(fuel, args[i], env, out);
      if ov.res.Ok? {
        BindArgumentsIsBind(fuel, callee, args, ps, i + 1, env, local[ps[i] := ov.res.value], ov.out);
        assert ps[i..][1..] == ps[i + 1..];
      }
    } else {
      assert ps[i..] == [];
    }
  }

  /** `let x = 1; let f = fn () => x; let x = 2; f()` yields 2: the body's `x` is the one
      bound where `f` is called. */
  lemma CallSeesShadowingBinding(fuel: nat)
    requires fuel >= 1
    ensures Interpretate(fuel, Let("x", Int(1), Let("f", Function([], Var("x")), Let("x", Int(2), Call(Var("f"), []))))) ==
            Outcome(Ok(IntVal(2)), [])
  {
    var env0: Env := map[];
    var env1 := env0["x" := IntVal(1)];
    var env2 := env1["f" := FunctionVal([], Var("x"))];
    var env3 := env2["x" := IntVal(2)];
    assert Evaluate(fuel, Var("f"), env3, []) == Outcome(Ok(FunctionVal([], Var("x"))), []);
    assert BindArguments(fuel, Var("f"), [], [], 0, env3, env3, []) == Outcome(Ok(env3), []);
    assert Evaluate(fuel - 1, Var("x"), env3, []) == Outcome(Ok(IntVal(2)), []);
    assert CallFunction(fuel, Var("f"), [], env3, []) == Outcome(Ok(IntVal(2)), []);
    assert Evaluate(fuel, Call(Var("f"), []), env3, []) == Outcome(Ok(IntVal(2)), []);
    assert Evaluate(fuel, Int(2), env2, []) == Outcome(Ok(IntVal(2)), []);
    assert EvaluateLet(fuel, "x", Int(2), Call(Var("f"), []), env2, []) == Outcome(Ok(IntVal(2)), []);
    assert Evaluate(fuel, Let("x", Int(2), Call(Var("f"), [])), env2, []) == Outcome(Ok(IntVal(2)), []);
    assert Evaluate(fuel, Function([], Var("x")), env1, []) == Outcome(Ok(FunctionVal([], Var("x"))), []);
    assert EvaluateLet(fuel, "f", Function([], Var("x")), Let("x", Int(2), Call(Var("f"), [])), env1, []) == Outcome(Ok(IntVal(2)), []);
    assert Evaluate(fuel, Let("f", Function([], Var("x")), Let("x", Int(2), Call(Var("f"), []))), env1, []) == Outcome(Ok(IntVal(2)), []);
    assert Evaluate(fuel, Int(1), env0, []) == Outcome(Ok(IntVal(1)), []);
    assert EvaluateLet(fuel, "x", Int(1), Let("f", Function([], Var("x")), Let("x", Int(2), Call(Var("f"), []))), env0, []) == Outcome(Ok(IntVal(2)), []);
  }

  /** `Print` yields its argument's value and adds the printed text as one line after whatever
      printing that text caused: nothing for a scalar or a function, the output of both
      components, in order, for a tuple. */
  lemma PrintAppendsOneLine(fuel: nat, e: Term, env: Env, out: seq<string>)
    requires Evaluate(fuel, e, env, out).res.Ok?
    ensures var o := Evaluate(fuel, e, env, out);
      var p := ToPrint(fuel, o.res.value, env, o.out);
      p.res.Ok? ==> Evaluate(fuel, Print(e), env, out) == Outcome(o.res, p.out + [p.res.value])
    ensures var o := Evaluate(fuel, e, env, out);
      !o.res.value.LazyPair? ==> Evaluate(fuel, Print(e), env, out).out == o.out + [ToPrint(fuel, o.res.value, env, o.out).res.value]
  {
  }

  /** Printing a tuple evaluates both components, in the table current at the `Print`, and
      prints the fixed text for a pair of records after their output. */
  lemma PrintTuple(fuel: nat, a: Term, b: Term, env: Env, out: seq<string>)
    requires fuel >= 1
    requires Evaluate(fuel - 1, a, env, out).res.Ok?
    requires Evaluate(fuel - 1, b, env, Evaluate(fuel - 1, a, env, out).out).res.Ok?
    ensures Evaluate(fuel, Print(Tuple(a, b)), env, out) ==
            Outcome(Ok(LazyPair(a, b)), Evaluate(fuel - 1, b, env, Evaluate(fuel - 1, a, env, out).out).out + [PairText])
  {
    assert Evaluate(fuel, Tuple(a, b), env, out) == Outcome(Ok(LazyPair(a, b)), out);
    var o1 := Evaluate(fuel - 1, a, env, out);
    var o2 := Evaluate(fuel - 1, b, env, o1.out);
    assert ToPrint(fuel, LazyPair(a, b), env, out) == Outcome(Ok(PairText), o2.out);
    assert EvaluatePrint(fuel, Tuple(a, b), env, out) == Outcome(Ok(LazyPair(a, b)), o2.out + [PairText]);
  }

  /** More fuel never changes an outcome that did not run out of fuel. */
  lemma {:induction false} EvaluateMonotone(fuel: nat, t: Term, env: Env, out: seq<string>)
    requires !Evaluate(fuel, t, env, out).res.OutOfFuel?
    ensures Evaluate(fuel + 1, t, env, out) == Evaluate(fuel, t, env, out)
    decreases fuel, 1, t, 2, 0
  {
    match t
    case Int(_) =>
    case Str(_) =>
    case Bool(_) =>
    case Tuple(_, _) =>
    case First(e) => ProjectMonotone(fuel, e, true, env, out);
    case Second(e) => ProjectMonotone(fuel, e, false, env, out);
    case Binary(lhs, op, rhs) => DoBinaryOpMonotone(fuel, lhs, op, rhs, env, out);
    case If(c, th, el) => EvaluateIfMonotone(fuel, c, th, el, env, out);
    case Print(e) => EvaluatePrintMonotone(fuel, e, env, out);
    case Let(x, value, next) => EvaluateLetMonotone(fuel, x, value, next, env, out);
    case Function(_, _) =>
    case Call(callee, args) => CallFunctionMonotone(fuel, callee, args, env, out);
    case Var(_) =>
  }

  lemma {:induction false} ProjectMonotone(fuel: nat, e: Term, fst: bool, env: Env, out: seq<string>)
    requires !Project(fuel, e, fst, env, out).res.OutOfFuel?
    ensures Project(fuel + 1, e, fst, env, out) == Project(fuel, e, fst, env, out)
    decreases fuel, 1, if fst then First(e) else Second(e), 1, 0
  {
    ProjectParts(fuel, e, fst, env, out);
    var o := Evaluate(fuel, e, env, out);
    EvaluateMonotone(fuel, e, env, out);
    if o.res.Ok? && o.res.value.LazyPair? {
      var c := if fst then o.res.value.first else o.res.value.second;
      EvaluateMonotone(fuel - 1, c, env, o.out);
    }
    ProjectStep(fuel, e, fst, env, out);
  }

  /** The parts of a projection that did not run out of fuel did not run out either. */
  lemma ProjectParts(fuel: nat, e: Term, fst: bool, env: Env, out: seq<string>)
    requires !Project(fuel, e, fst, env, out).res.OutOfFuel?
    ensures var o := Evaluate(fuel, e, env, out);
      !o.res.OutOfFuel? &&
      (o.res.Ok? && o.res.value.LazyPair? ==>
        fuel > 0 &&
        !Evaluate(fuel - 1, if fst then o.res.value.first else o.res.value.second, env, o.out).res.OutOfFuel?)
  {
  }

  /** A projection takes one more unit of fuel in its stride once its parts do. */
  lemma ProjectStep(fuel: nat, e: Term, fst: bool, env: Env, out: seq<string>)
    requires Evaluate(fuel + 1, e, env, out) == Evaluate(fuel, e, env, out)
    requires var o := Evaluate(fuel, e, env, out);
      o.res.Ok? && o.res.value.LazyPair? ==>
        var c := if fst then o.res.value.first else o.res.value.second;
        fuel > 0 && Evaluate(fuel, c, env, o.out) == Evaluate(fuel - 1, c, env, o.out)
    ensures Project(fuel + 1, e, fst, env, out) == Project(fuel, e, fst, env, out)
  {
  }

  lemma {:induction false} EvaluateIfMonotone(fuel: nat, c: Term, th: Term, el: Term, env: Env, out: seq<string>)
    requires !EvaluateIf(fuel, c, th, el, env, out).res.OutOfFuel?
    ensures EvaluateIf(fuel + 1, c, th, el, env, out) == EvaluateIf(fuel, c, th, el, env, out)
    decreases fuel, 1, If(c, th, el), 1, 0
  {
    EvaluateIfParts(fuel, c, th, el, env, out);
    var o := Evaluate(fuel, c, env, out);
    EvaluateMonotone(fuel, c, env, out);
    if o.res.Ok? && o.res.value.BoolVal? {
      var branch := if o.res.value.b then th else el;
      EvaluateMonotone(fuel, branch, env, o.out);
    }
    EvaluateIfStep(fuel, c, th, el, env, out);
  }

  lemma EvaluateIfParts(fuel: nat, c: Term, th: Term, el: Term, env: Env, out: seq<string>)
    requires !EvaluateIf(fuel, c, th, el, env, out).res.OutOfFuel?
    ensures var o := Evaluate(fuel, c, env, out);
      !o.res.OutOfFuel? &&
      (o.res.Ok? && o.res.value.BoolVal? ==>
        !Evaluate(fuel, if o.res.value.b then th else el, env, o.out).res.OutOfFuel?)
  {
  }

  lemma EvaluateIfStep(fuel: nat, c: Term, th: Term, el: Term, env: Env, out: seq<string>)
    requires Evaluate(fuel + 1, c, env, out) == Evaluate(fuel, c, env, out)
    requires var o := Evaluate(fuel, c, env, out);
      o.res.Ok? && o.res.value.BoolVal? ==>
        var branch := if o.res.value.b then th else el;
        Evaluate(fuel + 1, branch, env, o.out) == Evaluate(fuel, branch, env, o.out)
    ensures EvaluateIf(fuel + 1, c, th, el, env, out) == EvaluateIf(fuel, c, th, el, env, out)
  {
  }

  lemma {:induction false} EvaluatePrintMonotone(fuel: nat, e: Term, env: Env, out: seq<string>)
    requires !EvaluatePrint(fuel, e, env, out).res.OutOfFuel?
    ensures EvaluatePrint(fuel + 1, e, env, out) == EvaluatePrint(fuel, e, env, out)
    decreases fuel, 1, Print(e), 1, 0
  {
    var o := Evaluate(fuel, e, env, out);
    assert !o.res.OutOfFuel?;
    EvaluateMonotone(fuel, e, env, out);
    if o.res.Ok? {
      assert !ToPrint(fuel, o.res.value, env, o.out).res.OutOfFuel?;
      ToPrintMonotone(fuel, o.res.value, env, o.out);
    }
  }

  lemma {:induction false} EvaluateLetMonotone(fuel: nat, x: string, value: Term, next: Term, env: Env, out: seq<string>)
    requires !EvaluateLet(fuel, x, value, next, env, out).res.OutOfFuel?
    ensures EvaluateLet(fuel + 1, x, value, next, env, out) == EvaluateLet(fuel, x, value, next, env, out)
    decreases fuel, 1, Let(x, value, next), 1, 0
  {
    EvaluateLetParts(fuel, x, value, next, env, out);
    var o := Evaluate(fuel, value, env, out);
    EvaluateMonotone(fuel, value, env, out);
    if o.res.Ok? {
      EvaluateMonotone(fuel, next, env[x := o.res.value], o.out);
    }
    EvaluateLetStep(fuel, x, value, next, env, out);
  }

  lemma EvaluateLetParts(fuel: nat, x: string, value: Term, next: Term, env: Env, out: seq<string>)
    requires !EvaluateLet(fuel, x, value, next, env, out).res.OutOfFuel?
    ensures var o := Evaluate(fuel, value, env, out);
      !o.res.OutOfFuel? &&
      (o.res.Ok? ==> !Evaluate(fuel, next, env[x := o.res.value], o.out).res.OutOfFuel?)
  {
  }

  lemma EvaluateLetStep(fuel: nat, x: string, value: Term, next: Term, env: Env, out: seq<string>)
    requires Evaluate(fuel + 1, value, env, out) == Evaluate(fuel, value, env, out)
    requires var o := Evaluate(fuel, value, env, out);
      o.res.Ok? ==>
        Evaluate(fuel + 1, next, env[x := o.res.value], o.out) == Evaluate(fuel, next, env[x := o.res.value], o.out)
    ensures EvaluateLet(fuel + 1, x, value, next, env, out) == EvaluateLet(fuel, x, value, next, env, out)
  {
  }

  lemma {:induction false} DoBinaryOpMonotone(fuel: nat, lhs: Term, op: BinaryOp, rhs: Term, env: Env, out: seq<string>)
    requires !DoBinaryOp(fuel, lhs, op, rhs, env, out).res.OutOfFuel?
    ensures DoBinaryOp(fuel + 1, lhs, op, rhs, env, out) == DoBinaryOp(fuel, lhs, op, rhs, env, out)
    decreases fuel, 1, Binary(lhs, op, rhs), 1, 0
  {
    if Operators.IsLogical(op) {
      ShortCircuitMonotone(fuel, lhs, op, rhs, env, out);
    } else {
      StrictOpMonotone(fuel, lhs, op, rhs, env, out);
    }
  }

  lemma {:induction false} ShortCircuitMonotone(fuel: nat, lhs: Term, op: BinaryOp, rhs: Term, env: Env, out: seq<string>)
    requires Operators.IsLogical(op)
    requires !ShortCircuitOp(fuel, lhs, op, rhs, env, out).res.OutOfFuel?
    ensures ShortCircuitOp(fuel + 1, lhs, op, rhs, env, out) == ShortCircuitOp(fuel, lhs, op, rhs, env, out)
    decreases fuel, 1, Binary(lhs, op, rhs), 0, 0
  {
    ShortCircuitParts(fuel, lhs, op, rhs, env, out);
    var ol := Evaluate(fuel, lhs, env, out);
    EvaluateMonotone(fuel, lhs, env, out);
    if ol.res == Ok(BoolVal(op != Or)) {
      EvaluateMonotone(fuel, rhs, env, ol.out);
    }
    ShortCircuitStep(fuel, lhs, op, rhs, env, out);
  }

  lemma ShortCircuitParts(fuel: nat, lhs: Term, op: BinaryOp, rhs: Term, env: Env, out: seq<string>)
    requires Operators.IsLogical(op)
    requires !ShortCircuitOp(fuel, lhs, op, rhs, env, out).res.OutOfFuel?
    ensures var ol := Evaluate(fuel, lhs, env, out);
      !ol.res.OutOfFuel? &&
      (ol.res == Ok(BoolVal(op != Or)) ==> !Evaluate(fuel, rhs, env, ol.out).res.OutOfFuel?)
  {
  }

  lemma ShortCircuitStep(fuel: nat, lhs: Term, op: BinaryOp, rhs: Term, env: Env, out: seq<string>)
    requires Operators.IsLogical(op)
    requires Evaluate(fuel + 1, lhs, env, out) == Evaluate(fuel, lhs, env, out)
    requires var ol := Evaluate(fuel, lhs, env, out);
      ol.res == Ok(BoolVal(op != Or)) ==>
        Evaluate(fuel + 1, rhs, env, ol.out) == Evaluate(fuel, rhs, env, ol.out)
    ensures ShortCircuitOp(fuel + 1, lhs, op, rhs, env, out) == ShortCircuitOp(fuel, lhs, op, rhs, env, out)
  {
  }

  lemma {:induction false} StrictOpMonotone(fuel: nat, lhs: Term, op: BinaryOp, rhs: Term, env: Env, out: seq<string>)
    requires !Operators.IsLogical(op)
    requires !StrictOp(fuel, lhs, op, rhs, env, out).res.OutOfFuel?
    ensures StrictOp(fuel + 1, lhs, op, rhs, env, out) == StrictOp(fuel, lhs, op, rhs, env, out)
    decreases fuel, 1, Binary(lhs, op, rhs), 0, 0
  {
    StrictOpParts(fuel, lhs, op, rhs, env, out);
    var ol := Evaluate(fuel, lhs, env, out);
    EvaluateMonotone(fuel, lhs, env, out);
    if ol.res.Ok? {
      EvaluateMonotone(fuel, rhs, env, ol.out);
    }
    StrictOpStep(fuel, lhs, op, rhs, env, out);
  }

  lemma StrictOpParts(fuel: nat, lhs: Term, op: BinaryOp, rhs: Term, env: Env, out: seq<string>)
    requires !Operators.IsLogical(op)
    requires !StrictOp(fuel, lhs, op, rhs, env, out).res.OutOfFuel?
    ensures var ol := Evaluate(fuel, lhs, env, out);
      !ol.res.OutOfFuel? && (ol.res.Ok? ==> !Evaluate(fuel, rhs, env, ol.out).res.OutOfFuel?)
  {
  }

  lemma StrictOpStep(fuel: nat, lhs: Term, op: BinaryOp, rhs: Term, env: Env, out: seq<string>)
    requires !Operators.IsLogical(op)
    requires Evaluate(fuel + 1, lhs, env, out) == Evaluate(fuel, lhs, env, out)
    requires var ol := Evaluate(fuel, lhs, env, out);
      ol.res.Ok? ==> Evaluate(fuel + 1, rhs, env, ol.out) == Evaluate(fuel, rhs, env, ol.out)
    ensures StrictOp(fuel + 1, lhs, op, rhs, env, out) == StrictOp(fuel, lhs, op, rhs, env, out)
  {
  }

  lemma {:induction false} ToPrintMonotone(fuel: nat, v: Value, env: Env, out: seq<string>)
    requires !ToPrint(fuel, v, env, out).res.OutOfFuel?
    ensures ToPrint(fuel + 1, v, env, out) == ToPrint(fuel, v, env, out)
    decreases fuel, 0
  {
    if v.LazyPair? {
      EvaluateMonotone(fuel - 1, v.first, env, out);
      var o1 := Evaluate(fuel - 1, v.first, env, out);
      if o1.res.Ok? {
        EvaluateMonotone(fuel - 1, v.second, env, o1.out);
      }
    }
  }

  lemma {:induction false} CallFunctionMonotone(fuel: nat, callee: Term, args: seq<Term>, env: Env, out: seq<string>)
    requires !CallFunction(fuel, callee, args, env, out).res.OutOfFuel?
    ensures CallFunction(fuel + 1, callee, args, env, out) == CallFunction(fuel, callee, args, env, out)
    decreases fuel, 1, Call(callee, args), 1, 0
  {
    CallFunctionParts(fuel, callee, args, env, out);
    var oc := Evaluate(fuel, callee, env, out);
    EvaluateMonotone(fuel, callee, env, out);
    if oc.res.Ok? && oc.res.value.FunctionVal? && |args| == |oc.res.value.parameters| {
      var FunctionVal(ps, body) := oc.res.value;
      var ob := BindArguments(fuel, callee, args, ps, 0, env, env, oc.out);
      BindArgumentsMonotone(fuel, callee, args, ps, 0, env, env, oc.out);
      if ob.res.Ok? {
        EvaluateMonotone(fuel - 1, body, ob.res.value, ob.out);
      }
    }
    CallFunctionStep(fuel, callee, args, env, out);
  }

  lemma CallFunctionParts(fuel: nat, callee: Term, args: seq<Term>, env: Env, out: seq<string>)
    requires !CallFunction(fuel, callee, args, env, out).res.OutOfFuel?
    ensures var oc := Evaluate(fuel, callee, env, out);
      !oc.res.OutOfFuel? &&
      (oc.res.Ok? && oc.res.value.FunctionVal? && |args| == |oc.res.value.parameters| ==>
        var ob := BindArguments(fuel, callee, args, oc.res.value.parameters, 0, env, env, oc.out);
        !ob.res.OutOfFuel? &&
        (ob.res.Ok? ==>
          fuel > 0 && !Evaluate(fuel - 1, oc.res.value.body, ob.res.value, ob.out).res.OutOfFuel?))
  {
  }

  /** A call takes one more unit of fuel in its stride once the callee, the arguments and the
      body do. */
  lemma CallFunctionStep(fuel: nat, callee: Term, args: seq<Term>, env: Env, out: seq<string>)
    requires Evaluate(fuel + 1, callee, env, out) == Evaluate(fuel, callee, env, out)
    requires var oc := Evaluate(fuel, callee, env, out);
      oc.res.Ok? && oc.res.value.FunctionVal? && |args| == |oc.res.value.parameters| ==>
        var ob := BindArguments(fuel, callee, args, oc.res.value.parameters, 0, env, env, oc.out);
        BindArguments(fuel + 1, callee, args, oc.res.value.parameters, 0, env, env, oc.out) == ob &&
        (ob.res.Ok? ==>
          fuel > 0 &&
          Evaluate(fuel, oc.res.value.body, ob.res.value, ob.out) == Evaluate(fuel - 1, oc.res.value.body, ob.res.value, ob.out))
    ensures CallFunction(fuel + 1, callee, args, env, out) == CallFunction(fuel, callee, args, env, out)
  {
  }

  lemma {:induction false} BindArgumentsMonotone(fuel: nat, callee: Term, args: seq<Term>, ps: seq<string>, i: nat,
                                                 env: Env, local: Env, out: seq<string>)
    requires |ps| == |args| && i <= |args|
    requires !BindArguments(fuel, callee, args, ps, i, env, local, out).res.OutOfFuel?
    ensures BindArguments(fuel + 1, callee, args, ps, i, env, local, out) == BindArguments(fuel, callee, args, ps, i, env, local, out)
    decreases fuel, 1, Call(callee, args), 0, |args| - i
  {
    if i < |args| {
      assert args[i] in args;
      EvaluateMonotone(fuel, args[i], env, out);
      var ov := Evaluate(fuel, args[i], env, out);
      if ov.res.Ok? {
        BindArgumentsMonotone(fuel, callee, args, ps, i + 1, env, local[ps[i] := ov.res.value], ov.out);
      }
    }
  }

  /** Two fuels that both suffice give the same outcome. */
  lemma {:induction false} FuelIrrelevant(fuel: nat, fuel': nat, t: Term, env: Env, out: seq<string>)
    requires fuel <= fuel'
    requires !Evaluate(fuel, t, env, out).res.OutOfFuel?
    ensures Evaluate(fuel', t, env, out) == Evaluate(fuel, t, env, out)
    decreases fuel' - fuel
  {
    if fuel < fuel' {
      EvaluateMonotone(fuel, t, env, out);
      FuelIrrelevant(fuel + 1, fuel', t, env, out);
    }
  }

  /** A whole program: once the fuel suffices, more fuel gives the same value and output. */
  lemma InterpretateFuelIrrelevant(fuel: nat, fuel': nat, t: Term)
    requires fuel <= fuel'
    requires !Interpretate(fuel, t).res.OutOfFuel?
    ensures Interpretate(fuel', t) == Interpretate(fuel, t)
  {
    FuelIrrelevant(fuel, fuel', t, map[], []);
  }
}
