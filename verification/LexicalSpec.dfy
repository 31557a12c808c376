/** The meaning of the closure-capturing evaluator of dist/interpreter.js, written as functions.

    The evaluator keeps its bindings in mutable name tables: a `Let` writes into the table it
    runs in, and a function value holds a reference to a live table. Here the tables live in
    an explicit store, a sequence indexed by address; a closure holds the address of the
    table it captured, and evaluation threads the store and the printed lines through.
    `LexicalInterp` runs the same evaluator on heap-allocated tables and is proved to
    compute exactly what these functions say. */
module LexicalSpec {
  import opened Syntax
  import opened Errors
  import Numbers
  import Operators
  import Bindings

  /** Position of a name table in the store. */
  type Addr = nat

  /** A runtime value. `E` is how a closure refers to the table it captured: an address
      here, a heap reference in `LexicalInterp`. */
  datatype Value<E> =
    | IntVal(i: int)
    | StrVal(s: string)
    | BoolVal(b: bool)
    | PairVal(fst: Value<E>, snd: Value<E>)
    | ClosureVal(parameters: seq<string>, body: Term, env: E)

  type Val = Value<Addr>
  type Table = map<string, Val>
  type Store = seq<Table>

  /** What an evaluation step returns: its result, the store after it and every line
      printed so far. */
  datatype Outcome<T> = Outcome(res: Result<T>, store: Store, out: seq<string>)

  /** The text `console.log` prints for a value. */
  function ToPrint<E>(v: Value<E>): (r: string)
    ensures v.IntVal? ==> Numbers.IsNumeral(r) && Numbers.ParseInt(r) == v.i
  {
    match v
    case IntVal(i) => Numbers.IntToStringRoundTrip(i); Numbers.IntToString(i)
    case StrVal(s) => s
    case BoolVal(b) => if b then "true" else "false"
    case ClosureVal(_, _, _) => "<#closure>"
    case PairVal(a, b) => "(" + ToPrint(a) + ", " + ToPrint(b) + ")"
  }

  predicate IsScalar<E>(v: Value<E>) {
    v.IntVal? || v.StrVal? || v.BoolVal?
  }

  function ToPrim<E>(v: Value<E>): Operators.Prim
    requires IsScalar(v)
  {
    match v
    case IntVal(i) => Operators.PInt(i)
    case StrVal(s) => Operators.PStr(s)
    case BoolVal(b) => Operators.PBool(b)
  }

  function FromPrim<E>(p: Operators.Prim): Value<E> {
    match p
    case PInt(i) => IntVal(i)
    case PStr(s) => StrVal(s)
    case PBool(b) => BoolVal(b)
  }

  /** A non-logical operator applied to two evaluated operands. */
  function ApplyOp<E>(op: BinaryOp, x: Value<E>, y: Value<E>): (r: Result<Value<E>>)
    requires !Operators.IsLogical(op)
    ensures r.Ok? ==> IsScalar(r.value)
    ensures r.Ok? ==> IsScalar(x) && IsScalar(y) && Operators.Apply(op, ToPrim(x), ToPrim(y)) == Ok(ToPrim(r.value))
  {
    if !(IsScalar(x) && IsScalar(y)) then Error(BadOperands(op))
    else
      match Operators.Apply(op, ToPrim(x), ToPrim(y))
      case Ok(p) => Ok(FromPrim(p))
      case Error(k) => Error(k)
      case OutOfFuel => OutOfFuel
  }

  /** The addresses of the tables captured by the closures inside a value. */
  function Captured(v: Val): set<Addr> {
    match v
    case PairVal(a, b) => Captured(a) + Captured(b)
    case ClosureVal(_, _, e) => {e}
    case _ => {}
  }

  /** A value refers only to tables of a store of the given size. */
  predicate ValidValue(v: Val, size: nat) {
    forall e :: e in Captured(v) ==> e < size
  }

  /** No value in the store refers past its end. */
  predicate ValidStore(st: Store) {
    forall i, x :: 0 <= i < |st| && x in st[i] ==> ValidValue(st[i][x], |st|)
  }

  /** Copying a table to a new address keeps the store valid. */
  lemma ValidStoreAppend(st: Store, a: Addr)
    requires ValidStore(st) && a < |st|
    ensures ValidStore(st + [st[a]])
  {
  }

  /** Binding a valid value in a table keeps the store valid. */
  lemma ValidStoreSet(st: Store, a: Addr, x: string, v: Val)
    requires ValidStore(st) && a < |st| && ValidValue(v, |st|)
    ensures ValidStore(st[a := st[a][x := v]])
  {
  }

  /** How a step may change the machine: the store only grows and stays valid, lines are only
      appended, and of the tables that existed before only those in `touched` can change. */
  predicate Extends(st: Store, st': Store, out: seq<string>, out': seq<string>, touched: set<Addr>) {
    |st| <= |st'| && ValidStore(st') && out <= out' &&
    forall i :: 0 <= i < |st| && i !in touched ==> st'[i] == st[i]
  }

  /** Evaluation of `t` in the table at address `a`. Fuel is spent only when a function body
      is entered, so every program that terminates has a fuel that suffices. */
  function Evaluate(fuel: nat, t: Term, a: Addr, st: Store, out: seq<string>): (o: Outcome<Val>)
    requires a < |st| && ValidStore(st)
    ensures Extends(st, o.store, out, o.out, {a})
    ensures o.res.Ok? ==> ValidValue(o.res.value, |o.store|)
    decreases fuel, t, 4, 0
  {
    match t
    case Int(n) => Outcome(Ok(IntVal(n)), st, out)
    case Str(s) => Outcome(Ok(StrVal(s)), st, out)
    case Bool(b) => Outcome(Ok(BoolVal(b)), st, out)
    case Tuple(first, second) =>
      var o1 := Evaluate(fuel, first, a, st, out);
      if !o1.res.Ok? then o1
      else
        var o2 := Evaluate(fuel, second, a, o1.store, o1.out);
        if !o2.res.Ok? then o2
        else Outcome(Ok(PairVal(o1.res.value, o2.res.value)), o2.store, o2.out)
    case First(e) =>
      var o := Evaluate(fuel, e, a, st, out);
      if !o.res.Ok? then o
      else if !o.res.value.PairVal? then Outcome(Error(NotAPair), o.store, o.out)
      else
        assert Captured(o.res.value) == Captured(o.res.value.fst) + Captured(o.res.value.snd);
        Outcome(Ok(o.res.value.fst), o.store, o.out)
    case Second(e) =>
      var o := Evaluate(fuel, e, a, st, out);
      if !o.res.Ok? then o
      else if !o.res.value.PairVal? then Outcome(Error(NotAPair), o.store, o.out)
      else
        assert Captured(o.res.value) == Captured(o.res.value.fst) + Captured(o.res.value.snd);
        Outcome(Ok(o.res.value.snd), o.store, o.out)
    case Binary(lhs, op, rhs) => DoBinaryOp(fuel, lhs, op, rhs, a, st, out)
    case If(condition, consequent, otherwise) =>
      var o := Evaluate(fuel, condition, a, st, out);
      if !o.res.Ok? then o
      else if !o.res.value.BoolVal? then Outcome(Error(NotABool), o.store, o.out)
      else if o.res.value.b then Evaluate(fuel, consequent, a, o.store, o.out)
      else Evaluate(fuel, otherwise, a, o.store, o.out)
    case Print(e) =>
      var o := Evaluate(fuel, e, a, st, out);
      if !o.res.Ok? then o
      else Outcome(o.res, o.store, o.out + [ToPrint(o.res.value)])
    case Let(x, value, next) =>
      // the copy is taken before `value` runs; the binding then goes into both tables
      var n := |st|;
      var o := Evaluate(fuel, value, a, st + [st[a]], out);
      if !o.res.Ok? then o
      else
        var v := o.res.value;
        var st' := o.store[a := o.store[a][x := v]][n := o.store[n][x := v]];
        Evaluate(fuel, next, n, st', o.out)
    case Function(parameters, body) =>
      Outcome(Ok(ClosureVal(parameters, body, a)), st, out)
    case Call(callee, arguments) => CallFunction(fuel, callee, arguments, a, st, out)
    case Var(x) =>
      if x in st[a] then Outcome(Ok(st[a][x]), st, out)
      else Outcome(Error(UnboundVariable(x)), st, out)
  }

  /** `lhs op rhs`: `And` and `Or` short-circuit, every other operator is strict. */
  function DoBinaryOp(fuel: nat, lhs: Term, op: BinaryOp, rhs: Term, a: Addr, st: Store, out: seq<string>): (o: Outcome<Val>)
    requires a < |st| && ValidStore(st)
    ensures Extends(st, o.store, out, o.out, {a})
    ensures o.res.Ok? ==> ValidValue(o.res.value, |o.store|)
    decreases fuel, Binary(lhs, op, rhs), 3, 0
  {
    if Operators.IsLogical(op) then ShortCircuitOp(fuel, lhs, op, rhs, a, st, out)
    else StrictOp(fuel, lhs, op, rhs, a, st, out)
  }

  /** `And` and `Or`: the left operand must be a boolean; the right operand is evaluated only
      when the left one does not decide the result, and is then yielded unchanged. */
  function ShortCircuitOp(fuel: nat, lhs: Term, op: BinaryOp, rhs: Term, a: Addr, st: Store, out: seq<string>): (o: Outcome<Val>)
    requires Operators.IsLogical(op)
    requires a < |st| && ValidStore(st)
    ensures Extends(st, o.store, out, o.out, {a})
    ensures o.res.Ok? ==> ValidValue(o.res.value, |o.store|)
    decreases fuel, Binary(lhs, op, rhs), 2, 0
  {
    var ol := Evaluate(fuel, lhs, a, st, out);
    if !ol.res.Ok? then ol
    else if !ol.res.value.BoolVal? then Outcome(Error(NotABool), ol.store, ol.out)
    else if ol.res.value.b == (op == Or) then ol
    else Evaluate(fuel, rhs, a, ol.store, ol.out)
  }

  /** Every other operator: both operands, left first, then the operator on their values. */
  function StrictOp(fuel: nat, lhs: Term, op: BinaryOp, rhs: Term, a: Addr, st: Store, out: seq<string>): (o: Outcome<Val>)
    requires !Operators.IsLogical(op)
    requires a < |st| && ValidStore(st)
    ensures Extends(st, o.store, out, o.out, {a})
    ensures o.res.Ok? ==> ValidValue(o.res.value, |o.store|)
    decreases fuel, Binary(lhs, op, rhs), 2, 0
  {
    var ol := Evaluate(fuel, lhs, a, st, out);
    if !ol.res.Ok? then ol
    else
      var or := Evaluate(fuel, rhs, a, ol.store, ol.out);
      if !or.res.Ok? then or
      else Outcome(ApplyOp(op, ol.res.value, or.res.value), or.store, or.out)
  }

  /** A call: the callee first, which must yield a closure, then the closure applied. */
  function CallFunction(fuel: nat, callee: Term, args: seq<Term>, a: Addr, st: Store, out: seq<string>): (o: Outcome<Val>)
    requires a < |st| && ValidStore(st)
    ensures Extends(st, o.store, out, o.out, {a})
    ensures o.res.Ok? ==> ValidValue(o.res.value, |o.store|)
    decreases fuel, Call(callee, args), 3, 0
  {
    var oc := Evaluate(fuel, callee, a, st, out);
    if !oc.res.Ok? then oc
    else if !oc.res.value.ClosureVal? then Outcome(Error(NotCallable), oc.store, oc.out)
    else
      var ClosureVal(ps, body, e) := oc.res.value;
      assert e in Captured(oc.res.value);
      ApplyClosure(fuel, callee, args, ps, body, e, a, oc.store, oc.out)
  }

  /** The closure `ps`, `body` over table `e` applied to `args` from table `a`: a copy of
      `e`, then the arity check, then the rest of the call in the copy. */
  function ApplyClosure(fuel: nat, callee: Term, args: seq<Term>, ps: seq<string>, body: Term, e: Addr,
                        a: Addr, st: Store, out: seq<string>): (o: Outcome<Val>)
    requires a < |st| && e < |st| && ValidStore(st)
    ensures Extends(st, o.store, out, o.out, {a})
    ensures o.res.Ok? ==> ValidValue(o.res.value, |o.store|)
    decreases fuel, Call(callee, args), 2, 0
  {
    var st1 := st + [st[e]];
    if |args| != |ps| then Outcome(Error(ArityMismatch(|ps|, |args|)), st1, out)
    else RunClosure(fuel, callee, args, ps, body, a, |st|, st1, out)
  }

  /** The arguments bound one by one into the callee's table `n`, then the body run there. */
  function RunClosure(fuel: nat, callee: Term, args: seq<Term>, ps: seq<string>, body: Term,
                      a: Addr, n: Addr, st: Store, out: seq<string>): (o: Outcome<Val>)
    requires |ps| == |args|
    requires a < |st| && n < |st| && a != n && ValidStore(st)
    ensures Extends(st, o.store, out, o.out, {a, n})
    ensures o.res.Ok? ==> ValidValue(o.res.value, |o.store|)
    decreases fuel, Call(callee, args), 1, 0
  {
    var ob := BindArguments(fuel, callee, args, ps, 0, a, n, st, out);
    if !ob.res.Ok? then Outcome(ob.res.Propagate(), ob.store, ob.out)
    else if fuel == 0 then Outcome(OutOfFuel, ob.store, ob.out)
    else Evaluate(fuel - 1, body, n, ob.store, ob.out)
  }

  /** Arguments `i..` evaluated left to right in the caller's table `a`, each stored under its
      parameter in the callee's fresh table `n` as soon as it is known. On success it yields
      the argument values, and table `n` is its old contents bound to them. */
  function BindArguments(fuel: nat, callee: Term, args: seq<Term>, ps: seq<string>, i: nat,
                         a: Addr, n: Addr, st: Store, out: seq<string>): (o: Outcome<seq<Val>>)
    requires |ps| == |args| && i <= |args|
    requires a < |st| && n < |st| && a != n && ValidStore(st)
    ensures Extends(st, o.store, out, o.out, {a, n})
    ensures o.res.Ok? ==> |o.res.value| == |args| - i && o.store[n] == Bindings.Bind(st[n], ps[i..], o.res.value)
    decreases fuel, Call(callee, args), 0, |args| - i
  {
    if i == |args| then Outcome(Ok([]), st, out)
    else
      assert args[i] in args;
      var ov := Evaluate(fuel, args[i], a, st, out);
      if !ov.res.Ok? then Outcome(ov.res.Propagate(), ov.store, ov.out)
      else
        var v := ov.res.value;
        var st1 := ov.store[n := ov.store[n][ps[i] := v]];
        var rest := BindArguments(fuel, callee, args, ps, i + 1, a, n, st1, ov.out);
        if !rest.res.Ok? then rest
        else
          assert ps[i..][1..] == ps[i + 1..];
          Outcome(Ok([v] + rest.res.value), rest.store, rest.out)
  }

  /** A whole program, evaluated in one empty table. */
  function Interpretate(fuel: nat, t: Term): (o: Outcome<Val>)
    ensures |o.store| >= 1 && ValidStore(o.store)
    ensures o.res.Ok? ==> ValidValue(o.res.value, |o.store|)
  {
    Evaluate(fuel, t, 0, [map[]], [])
  }
}
