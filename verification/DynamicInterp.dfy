/** The dynamically scoped evaluator of src/interpreter.ts.

    Name tables here are never changed once another part of the evaluator can see them: a
    `Let` or a call binds names in a fresh copy. So a table is a plain map value. A tuple
    keeps its two component terms unevaluated, and a function value is its own syntax with
    no table attached: a projection evaluates the selected component, and a call runs the
    body, in whatever table is current at that point. */
module DynamicInterp {
  import opened Syntax
  import opened Errors
  import Numbers
  import Operators

  /** What an expression can evaluate to. */
  datatype Value =
    | IntVal(i: int)
    | StrVal(s: string)
    | BoolVal(b: bool)
    | LazyPair(first: Term, second: Term)
    | FunctionVal(parameters: seq<string>, body: Term)

  type Env = map<string, Value>

  /** The result of a step and every line printed so far. */
  datatype Outcome<T> = Outcome(res: Result<T>, out: seq<string>)

  /** What `to_print` yields for a tuple: each component is evaluated, and the record that
      evaluation returns is interpolated into the text as a plain object. */
  const PairText: string := "([object Object], [object Object])"

  predicate IsScalar(v: Value) {
    v.IntVal? || v.StrVal? || v.BoolVal?
  }

  function ToPrim(v: Value): Operators.Prim
    requires IsScalar(v)
  {
    match v
    case IntVal(i) => Operators.PInt(i)
    case StrVal(s) => Operators.PStr(s)
    case BoolVal(b) => Operators.PBool(b)
  }

  function FromPrim(p: Operators.Prim): (v: Value)
    ensures IsScalar(v) && ToPrim(v) == p
  {
    match p
    case PInt(i) => IntVal(i)
    case PStr(s) => StrVal(s)
    case PBool(b) => BoolVal(b)
  }

  /** A non-logical operator applied to two evaluated operands. */
  function ApplyOp(op: BinaryOp, x: Value, y: Value): (r: Result<Value>)
    requires !Operators.IsLogical(op)
    ensures r.Ok? <==> IsScalar(x) && IsScalar(y) && Operators.Apply(op, ToPrim(x), ToPrim(y)).Ok?
    ensures r.Ok? ==> IsScalar(r.value) && Operators.Apply(op, ToPrim(x), ToPrim(y)) == Ok(ToPrim(r.value))
  {
    if !(IsScalar(x) && IsScalar(y)) then Error(BadOperands(op))
    else
      match Operators.Apply(op, ToPrim(x), ToPrim(y))
      case Ok(p) => Ok(FromPrim(p))
      case Error(k) => Error(k)
      case OutOfFuel => OutOfFuel
  }

  /** Evaluation of `t` in the table `env`. Fuel is spent whenever evaluation moves to a term
      that is not part of the current one: a function body, the selected component of a tuple,
      a component evaluated for printing. */
  function Evaluate(fuel: nat, t: Term, env: Env, out: seq<string>): (o: Outcome<Value>)
    ensures out <= o.out
    decreases fuel, 1, t, 2, 0
  {
    match t
    case Int(n) => Outcome(Ok(IntVal(n)), out)
    case Str(s) => Outcome(Ok(StrVal(s)), out)
    case Bool(b) => Outcome(Ok(BoolVal(b)), out)
    case Tuple(first, second) => Outcome(Ok(LazyPair(first, second)), out)
    case First(e) => Project(fuel, e, true, env, out)
    case Second(e) => Project(fuel, e, false, env, out)
    case Binary(lhs, op, rhs) => DoBinaryOp(fuel, lhs, op, rhs, env, out)
    case If(condition, consequent, otherwise) => EvaluateIf(fuel, condition, consequent, otherwise, env, out)
    case Print(e) => EvaluatePrint(fuel, e, env, out)
    case Let(x, value, next) => EvaluateLet(fuel, x, value, next, env, out)
    case Function(parameters, body) => Outcome(Ok(FunctionVal(parameters, body)), out)
    case Call(callee, arguments) => CallFunction(fuel, callee, arguments, env, out)
    case Var(x) =>
      if x in env then Outcome(Ok(env[x]), out)
      else Outcome(Error(UnboundVariable(x)), out)
  }

  /** `First` (`fst`) and `Second`: the operand must evaluate to a tuple, whose selected
      component is then evaluated in the current table. */
  function Project(fuel: nat, e: Term, fst: bool, env: Env, out: seq<string>): (o: Outcome<Value>)
    ensures out <= o.out
    decreases fuel, 1, if fst then First(e) else Second(e), 1, 0
  {
    var o := Evaluate(fuel, e, env, out);
    if !o.res.Ok? then o
    else if !o.res.value.LazyPair? then Outcome(Error(NotAPair), o.out)
    else if fuel == 0 then Outcome(OutOfFuel, o.out)
    else Evaluate(fuel - 1, if fst then o.res.value.first else o.res.value.second, env, o.out)
  }

  /** `If`: the condition must be a boolean; only the branch it selects is evaluated. */
  function EvaluateIf(fuel: nat, condition: Term, consequent: Term, otherwise: Term, env: Env, out: seq<string>): (o: Outcome<Value>)
    ensures out <= o.out
    decreases fuel, 1, If(condition, consequent, otherwise), 1, 0
  {
    var o := Evaluate(fuel, condition, env, out);
    if !o.res.Ok? then o
    else if !o.res.value.BoolVal? then Outcome(Error(NotABool), o.out)
    else Evaluate(fuel, if o.res.value.b then consequent else otherwise, env, o.out)
  }

  /** `Print`: the value's text, after whatever output producing it caused, as one more
      line; the value itself is the result. */
  function EvaluatePrint(fuel: nat, e: Term, env: Env, out: seq<string>): (o: Outcome<Value>)
    ensures out <= o.out
    decreases fuel, 1, Print(e), 1, 0
  {
    var o := Evaluate(fuel, e, env, out);
    if !o.res.Ok? then o
    else
      var p := ToPrint(fuel, o.res.value, env, o.out);
      if !p.res.Ok? then Outcome(p.res.Propagate(), p.out)
      else Outcome(o.res, p.out + [p.res.value])
  }

  /** `Let`: the value, evaluated in the current table, is bound in a copy of it, where
      `next` runs. */
  function EvaluateLet(fuel: nat, x: string, value: Term, next: Term, env: Env, out: seq<string>): (o: Outcome<Value>)
    ensures out <= o.out
    decreases fuel, 1, Let(x, value, next), 1, 0
  {
    var o := Evaluate(fuel, value, env, out);
    if !o.res.Ok? then o
    else Evaluate(fuel, next, env[x := o.res.value], o.out)
  }

  /** `lhs op rhs`: `And` and `Or` short-circuit, every other operator is strict. */
  function DoBinaryOp(fuel: nat, lhs: Term, op: BinaryOp, rhs: Term, env: Env, out: seq<string>): (o: Outcome<Value>)
    ensures out <= o.out
    decreases fuel, 1, Binary(lhs, op, rhs), 1, 0
  {
    if Operators.IsLogical(op) then ShortCircuitOp(fuel, lhs, op, rhs, env, out)
    else StrictOp(fuel, lhs, op, rhs, env, out)
  }

  /** `And` and `Or`: the left operand must be a boolean; the right operand is evaluated only
      when the left one does not decide the result, and is then yielded unchanged. */
  function ShortCircuitOp(fuel: nat, lhs: Term, op: BinaryOp, rhs: Term, env: Env, out: seq<string>): (o: Outcome<Value>)
    requires Operators.IsLogical(op)
    ensures out <= o.out
    decreases fuel, 1, Binary(lhs, op, rhs), 0, 0
  {
    var ol := Evaluate(fuel, lhs, env, out);
    if !ol.res.Ok? then ol
    else if !ol.res.value.BoolVal? then Outcome(Error(NotABool), ol.out)
    else if ol.res.value.b == (op == Or) then ol
    else Evaluate(fuel, rhs, env, ol.out)
  }

  /** Every other operator: both operands, left first, then the operator on their values. */
  function StrictOp(fuel: nat, lhs: Term, op: BinaryOp, rhs: Term, env: Env, out: seq<string>): (o: Outcome<Value>)
    requires !Operators.IsLogical(op)
    ensures out <= o.out
    decreases fuel, 1, Binary(lhs, op, rhs), 0, 0
  {
    var ol := Evaluate(fuel, lhs, env, out);
    if !ol.res.Ok? then ol
    else
      var or := Evaluate(fuel, rhs, env, ol.out);
      if !or.res.Ok? then or
      else Outcome(ApplyOp(op, ol.res.value, or.res.value), or.out)
  }

  /** The text printed for a value. A tuple's components are evaluated, in the table current
      at the `Print`, for their effects; the text itself does not show them. */
  function ToPrint(fuel: nat, v: Value, env: Env, out: seq<string>): (o: Outcome<string>)
    ensures out <= o.out
    ensures !v.LazyPair? ==> o.out == out && o.res.Ok?
    decreases fuel, 0
  {
    match v
    case IntVal(i) => Outcome(Ok(Numbers.IntToString(i)), out)
    case StrVal(s) => Outcome(Ok(s), out)
    case BoolVal(b) => Outcome(Ok(if b then "true" else "false"), out)
    case FunctionVal(_, _) => Outcome(Ok("<#closure>"), out)
    case LazyPair(a, b) =>
      if fuel == 0 then Outcome(OutOfFuel, out)
      else
        var o1 := Evaluate(fuel - 1, a, env, out);
        if !o1.res.Ok? then Outcome(o1.res.Propagate(), o1.out)
        else
          var o2 := Evaluate(fuel - 1, b, env, o1.out);
          if !o2.res.Ok? then Outcome(o2.res.Propagate(), o2.out)
          else Outcome(Ok(PairText), o2.out)
  }

  /** A call: the callee must be a function value and the arity must match before any
      argument is evaluated; the arguments are then evaluated left to right in the caller's
      table and bound in a copy of it, where the body runs. */
  function CallFunction(fuel: nat, callee: Term, args: seq<Term>, env: Env, out: seq<string>): (o: Outcome<Value>)
    ensures out <= o.out
    decreases fuel, 1, Call(callee, args), 1, 0
  {
    var oc := Evaluate(fuel, callee, env, out);
    if !oc.res.Ok? then oc
    else if !oc.res.value.FunctionVal? then Outcome(Error(NotCallable), oc.out)
    else
      var FunctionVal(ps, body) := oc.res.value;
      if |args| != |ps| then Outcome(Error(ArityMismatch(|ps|, |args|)), oc.out)
      else
        var ob := BindArguments(fuel, callee, args, ps, 0, env, env, oc.out);
        if !ob.res.Ok? then Outcome(ob.res.Propagate(), ob.out)
        else if fuel == 0 then Outcome(OutOfFuel, ob.out)
        else Evaluate(fuel - 1, body, ob.res.value, ob.out)
  }

  /** Arguments `i..`, each evaluated in the caller's table `env`, left to right, and set
      under its parameter in `local` as soon as it is known. On success every parameter from
      `i` on is bound and every other name keeps its binding in `local`. */
  function BindArguments(fuel: nat, callee: Term, args: seq<Term>, ps: seq<string>, i: nat,
                         env: Env, local: Env, out: seq<string>): (o: Outcome<Env>)
    requires |ps| == |args| && i <= |args|
    ensures out <= o.out
    ensures o.res.Ok? ==> o.res.value.Keys == local.Keys + set p | p in ps[i..]
    ensures o.res.Ok? ==> forall y :: y in local && y !in ps[i..] ==> o.res.value[y] == local[y]
    decreases fuel, 1, Call(callee, args), 0, |args| - i
  {
    if i == |args| then Outcome(Ok(local), out)
    else
      assert args[i] in args;
      var ov := Evaluate(fuel, args[i], env, out);
      if !ov.res.Ok? then Outcome(ov.res.Propagate(), ov.out)
      else
        assert ps[i..] == [ps[i]] + ps[i + 1..];
        BindArguments(fuel, callee, args, ps, i + 1, env, local[ps[i] := ov.res.value], ov.out)
  }

  /** The arguments from `i` on, evaluated left to right in the caller's table `env`: their
      values in order, or the first failure. The first value is the first argument's. */
  function ArgumentValues(fuel: nat, args: seq<Term>, i: nat, env: Env, out: seq<string>): (o: Outcome<seq<Value>>)
    requires i <= |args|
    ensures out <= o.out
    ensures o.res.Ok? ==> |o.res.value| == |args| - i
    ensures o.res.Ok? && i < |args| ==> Evaluate(fuel, args[i], env, out).res == Ok(o.res.value[0])
    decreases |args| - i
  {
    if i == |args| then Outcome(Ok([]), out)
    else
      var ov := Evaluate(fuel, args[i], env, out);
      if !ov.res.Ok? then Outcome(ov.res.Propagate(), ov.out)
      else
        var rest := ArgumentValues(fuel, args, i + 1, env, ov.out);
        if !rest.res.Ok? then rest
        else Outcome(Ok([ov.res.value] + rest.res.value), rest.out)
  }

  /** The loop of `call_function`: a copy of the caller's table into which each argument,
      evaluated in the caller's table, is set under its parameter in turn. */
  method BindParameters(fuel: nat, callee: Term, args: seq<Term>, ps: seq<string>, env: Env, out: seq<string>)
    returns (res: Result<Env>, out': seq<string>)
    requires |ps| == |args|
    ensures var o := BindArguments(fuel, callee, args, ps, 0, env, env, out);
      res == o.res && out' == o.out
  {
    var local := env;
    var i := 0;
    out' := out;
    while i < |args|
      invariant i <= |args|
      invariant BindArguments(fuel, callee, args, ps, 0, env, env, out) == BindArguments(fuel, callee, args, ps, i, env, local, out')
    {
      var o := Evaluate(fuel, args[i], env, out');
      if !o.res.Ok? {
        return o.res.Propagate(), o.out;
      }
      local := local[ps[i] := o.res.value];
      out' := o.out;
      i := i + 1;
    }
    return Ok(local), out';
  }

  /** `interpretate`: the program evaluated in an empty table. */
  function Interpretate(fuel: nat, t: Term): (o: Outcome<Value>)
    ensures o == Evaluate(fuel, t, map[], [])
    ensures t.Var? ==> o == Outcome(Error(UnboundVariable(t.text)), [])
  {
    Evaluate(fuel, t, map[], [])
  }
}
