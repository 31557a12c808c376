/** What the closure-capturing evaluator of dist/interpreter.js guarantees, stated over
    `LexicalSpec` (and so, by the refinement proved in `LexicalInterp`, over the evaluator
    that runs on heap tables): eager tuples, one branch per `If`, one line per `Print`, `Let`
    bindings written into the caller's table and its copy, closures that see later bindings of
    the table they captured, and calls that bind parameters in a copy of that table. */
module LexicalProperties {
  import opened Syntax
  import opened Errors
  import Numbers
  import Operators
  import Bindings
  import opened LexicalSpec

  /** Both components of a tuple are evaluated, first then second, whichever one is projected;
      the projection yields the selected value. */
  lemma ProjectionOfTuple(fuel: nat, x: Term, y: Term, a: Addr, st: Store, out: seq<string>)
    requires a < |st| && ValidStore(st)
    ensures var o1 := Evaluate(fuel, x, a, st, out);
      o1.res.Ok? ==>
        var o2 := Evaluate(fuel, y, a, o1.store, o1.out);
        (o2.res.Ok? ==>
          Evaluate(fuel, First(Tuple(x, y)), a, st, out) == Outcome(Ok(o1.res.value), o2.store, o2.out) &&
          Evaluate(fuel, Second(Tuple(x, y)), a, st, out) == Outcome(Ok(o2.res.value), o2.store, o2.out)) &&
        (!o2.res.Ok? ==>
          Evaluate(fuel, First(Tuple(x, y)), a, st, out) == o2 &&
          Evaluate(fuel, Second(Tuple(x, y)), a, st, out) == o2)
  {
    var o1 := Evaluate(fuel, x, a, st, out);
    if o1.res.Ok? {
      var o2 := Evaluate(fuel, y, a, o1.store, o1.out);
      if o2.res.Ok? {
        var p := Evaluate(fuel, Tuple(x, y), a, st, out);
        assert p == Outcome(Ok(PairVal(o1.res.value, o2.res.value)), o2.store, o2.out);
      }
    }
  }

  /** `If` evaluates its condition and then the selected branch only; the other branch may be
      anything. */
  lemma IfEvaluatesOneBranch(fuel: nat, c: Term, t: Term, e: Term, a: Addr, st: Store, out: seq<string>)
    requires a < |st| && ValidStore(st)
    requires Evaluate(fuel, c, a, st, out).res.Ok? && Evaluate(fuel, c, a, st, out).res.value.BoolVal?
    ensures var oc := Evaluate(fuel, c, a, st, out);
      Evaluate(fuel, If(c, t, e), a, st, out) == Evaluate(fuel, if oc.res.value.b then t else e, a, oc.store, oc.out)
  {
  }

  /** `Print` yields its argument's value unchanged and appends exactly one line, the value's
      text. */
  lemma PrintAppendsOneLine(fuel: nat, e: Term, a: Addr, st: Store, out: seq<string>)
    requires a < |st| && ValidStore(st)
    requires Evaluate(fuel, e, a, st, out).res.Ok?
    ensures var o := Evaluate(fuel, e, a, st, out);
      Evaluate(fuel, Print(e), a, st, out) == Outcome(o.res, o.store, o.out + [ToPrint(o.res.value)])
  {
  }

  /** A negative number is printed with its sign and all of its digits. */
  lemma NegativeTwentyText()
    ensures Numbers.IntToString(-20) == "-20"
  {
    assert Numbers.NatToString(2) == "2";
    assert Numbers.NatToString(20) == "20";
  }

  /** The text of a nested pair is built from the texts of its parts. */
  lemma PrintNestedPair()
    ensures ToPrint<Addr>(PairVal(PairVal(IntVal(1), IntVal(-20)), PairVal(StrVal("a"), BoolVal(false)))) == "((1, -20), (a, false))"
    ensures ToPrint<Addr>(ClosureVal(["x"], Var("x"), 0)) == "<#closure>"
  {
    NegativeTwentyText();
    assert Numbers.IntToString(1) == "1";
    assert ToPrint<Addr>(PairVal(IntVal(1), IntVal(-20))) == "(1, -20)";
    assert ToPrint<Addr>(PairVal(StrVal("a"), BoolVal(false))) == "(a, false)";
  }

  /** `Let`: the copy of the caller's table is taken before the value is evaluated, so the
      copy in which `next` runs holds exactly the caller's bindings from before the `Let`
      plus the new one, while the caller's table gets the binding too. */
  lemma LetRunsNextInCopy(fuel: nat, x: string, value: Term, next: Term, a: Addr, st: Store, out: seq<string>)
    requires a < |st| && ValidStore(st)
    ensures ValidStore(st + [st[a]])
    ensures var n := |st|;
      var o := Evaluate(fuel, value, a, st + [st[a]], out);
      o.res.Ok? ==>
        var v := o.res.value;
        var st' := o.store[a := o.store[a][x := v]][n := st[a][x := v]];
        ValidStore(st') &&
        Evaluate(fuel, Let(x, value, next), a, st, out) == Evaluate(fuel, next, n, st', o.out)
  {
    ValidStoreAppend(st, a);
    var n := |st|;
    var o := Evaluate(fuel, value, a, st + [st[a]], out);
    if o.res.Ok? {
      var v := o.res.value;
      ValidStoreSet(o.store, a, x, v);
      ValidStoreSet(o.store[a := o.store[a][x := v]], n, x, v);
    }
  }

  /** `Let` writes its binding into the caller's table, where it stays after `next` is done:
      `next` runs in the copy and can change only that copy and tables created after it. */
  lemma LetUpdatesCaller(fuel: nat, x: string, value: Term, next: Term, a: Addr, st: Store, out: seq<string>)
    requires a < |st| && ValidStore(st)
    ensures ValidStore(st + [st[a]])
    ensures var o := Evaluate(fuel, value, a, st + [st[a]], out);
      o.res.Ok? ==> Evaluate(fuel, Let(x, value, next), a, st, out).store[a] == o.store[a][x := o.res.value]
  {
    ValidStoreAppend(st, a);
  }

  /** `let f = fn ... => body; next`: the closure captures the caller's table, and the `Let`
      then binds `f` to that very closure in the captured table. So the body, run in a copy of
      that table, finds `f`: this is how recursion works. */
  lemma RecursiveBinding(fuel: nat, f: string, ps: seq<string>, body: Term, next: Term, a: Addr, st: Store, out: seq<string>)
    requires a < |st| && ValidStore(st)
    ensures var c := ClosureVal(ps, body, a);
      var st' := st[a := st[a][f := c]] + [st[a][f := c]];
      ValidStore(st') && st'[c.env][f] == c &&
      Evaluate(fuel, Let(f, Function(ps, body), next), a, st, out) == Evaluate(fuel, next, |st|, st', out)
  {
    var c: Val := ClosureVal(ps, body, a);
    var n := |st|;
    var st0 := st + [st[a]];
    ValidStoreAppend(st, a);
    assert Evaluate(fuel, Function(ps, body), a, st0, out) == Outcome(Ok(c), st0, out);
    ValidStoreSet(st0, a, f, c);
    ValidStoreSet(st0[a := st0[a][f := c]], n, f, c);
    assert st0[a := st0[a][f := c]][n := st0[n][f := c]] == st[a := st[a][f := c]] + [st[a][f := c]];
  }

  /** `let x = 1; let f = fn () => x; let x = 2; f()` yields 1: the body's `x` is looked up in
      the table `f` captured, which the later `let x = 2` does not write to. */
  lemma CallSeesCapturedBinding(fuel: nat)
    requires fuel >= 1
    ensures var o := Interpretate(fuel, Let("x", Int(1), Let("f", Function([], Var("x")), Let("x", Int(2), Call(Var("f"), [])))));
      o.res == Ok(IntVal(1)) && o.out == []
  {
    var t0: Table := map[];
    var st0: Store := [t0, t0];
    assert [t0] + [[t0][0]] == st0;
    assert ValidStore([t0]) && ValidStore(st0);
    assert Evaluate(fuel, Int(1), 0, st0, []) == Outcome(Ok(IntVal(1)), st0, []);
    var st1 := st0[0 := t0["x" := IntVal(1)]][1 := t0["x" := IntVal(1)]];
    assert st1[1]["x"] == IntVal(1);
    assert Evaluate(fuel, Let("x", Int(1), Let("f", Function([], Var("x")), Let("x", Int(2), Call(Var("f"), [])))), 0, [t0], []) ==
           Evaluate(fuel, Let("f", Function([], Var("x")), Let("x", Int(2), Call(Var("f"), []))), 1, st1, []);
    CapturingLet(fuel, st1);
  }

  /** The middle of the example above: `f` captures table 1, which binds `x` to 1. */
  lemma CapturingLet(fuel: nat, st: Store)
    requires fuel >= 1 && |st| == 2 && ValidStore(st)
    requires "x" in st[1] && st[1]["x"] == IntVal(1)
    ensures var o := Evaluate(fuel, Let("f", Function([], Var("x")), Let("x", Int(2), Call(Var("f"), []))), 1, st, []);
      o.res == Ok(IntVal(1)) && o.out == []
  {
    var c: Val := ClosureVal([], Var("x"), 1);
    RecursiveBinding(fuel, "f", [], Var("x"), Let("x", Int(2), Call(Var("f"), [])), 1, st, []);
    var st' := st[1 := st[1]["f" := c]] + [st[1]["f" := c]];
    ShadowingLet(fuel, st');
  }

  /** The end of the example above: `x` is rebound to 2 in table 2 only, and `f` is called. */
  lemma ShadowingLet(fuel: nat, st: Store)
    requires fuel >= 1 && |st| == 3 && ValidStore(st)
    requires "x" in st[1] && st[1]["x"] == IntVal(1)
    requires "f" in st[2] && st[2]["f"] == ClosureVal([], Var("x"), 1)
    ensures var o := Evaluate(fuel, Let("x", Int(2), Call(Var("f"), [])), 2, st, []);
      o.res == Ok(IntVal(1)) && o.out == []
  {
    var t := st[2];
    var st0 := st + [t];
    ValidStoreAppend(st, 2);
    assert Evaluate(fuel, Int(2), 2, st0, []) == Outcome(Ok(IntVal(2)), st0, []);
    var st' := st0[2 := t["x" := IntVal(2)]][3 := t["x" := IntVal(2)]];
    ValidStoreSet(st0, 2, "x", IntVal(2));
    ValidStoreSet(st0[2 := t["x" := IntVal(2)]], 3, "x", IntVal(2));
    assert Evaluate(fuel, Let("x", Int(2), Call(Var("f"), [])), 2, st, []) == Evaluate(fuel, Call(Var("f"), []), 3, st', []);
    CallOfCapturingClosure(fuel, st');
  }

  /** Calling `f`, a closure over table 1 with no parameters, from table 3: its body reads
      `x` in a copy of table 1. */
  lemma CallOfCapturingClosure(fuel: nat, st: Store)
    requires fuel >= 1 && |st| == 4 && ValidStore(st)
    requires "x" in st[1] && st[1]["x"] == IntVal(1)
    requires "f" in st[3] && st[3]["f"] == ClosureVal([], Var("x"), 1)
    ensures var o := Evaluate(fuel, Call(Var("f"), []), 3, st, []);
      o.res == Ok(IntVal(1)) && o.out == []
  {
    var st1 := st + [st[1]];
    ValidStoreAppend(st, 1);
    assert Evaluate(fuel, Var("f"), 3, st, []) == Outcome(Ok(ClosureVal([], Var("x"), 1)), st, []);
    assert BindArguments(fuel, Var("f"), [], [], 0, 3, 4, st1, []) == Outcome(Ok([]), st1, []);
    assert Evaluate(fuel - 1, Var("x"), 4, st1, []) == Outcome(Ok(IntVal(1)), st1, []);
    assert RunClosure(fuel, Var("f"), [], [], Var("x"), 3, 4, st1, []) == Outcome(Ok(IntVal(1)), st1, []);
    assert ApplyClosure(fuel, Var("f"), [], [], Var("x"), 1, 3, st, []) == Outcome(Ok(IntVal(1)), st1, []);
  }

  /** An argument is evaluated in the caller's table `a`, not in the callee's table: the
      first value bound is what the first argument evaluates to there. */
  lemma ArgumentEvaluatedInCaller(fuel: nat, callee: Term, args: seq<Term>, ps: seq<string>, i: nat,
                                  a: Addr, n: Addr, st: Store, out: seq<string>)
    requires |ps| == |args| && i < |args|
    requires a < |st| && n < |st| && a != n && ValidStore(st)
    ensures var o := BindArguments(fuel, callee, args, ps, i, a, n, st, out);
      o.res.Ok? ==> |o.res.value| > 0 && Evaluate(fuel, args[i], a, st, out).res == Ok(o.res.value[0])
  {
    var ov := Evaluate(fuel, args[i], a, st, out);
    if ov.res.Ok? {
      ValidStoreSet(ov.store, n, ps[i], ov.res.value);
    }
  }

  /** `let f = fn (x) => x; let y = 5; f(y)` yields 5: the argument `y` is evaluated in the
      caller's table, although the table `f` captured has no `y`. */
  lemma CallSeesCallerArgument(fuel: nat)
    requires fuel >= 1
    ensures var o := Interpretate(fuel, Let("f", Function(["x"], Var("x")), Let("y", Int(5), Call(Var("f"), [Var("y")]))));
      o.res == Ok(IntVal(5)) && o.out == []
  {
    var t0: Table := map[];
    assert ValidStore([t0]);
    RecursiveBinding(fuel, "f", ["x"], Var("x"), Let("y", Int(5), Call(Var("f"), [Var("y")])), 0, [t0], []);
    var c: Val := ClosureVal(["x"], Var("x"), 0);
    ArgumentLet(fuel, [t0][0 := t0["f" := c]] + [t0["f" := c]]);
  }

  /** The middle of the example above: `y` is bound to 5 in table 1 and in its copy, table 2. */
  lemma ArgumentLet(fuel: nat, st: Store)
    requires fuel >= 1 && |st| == 2 && ValidStore(st)
    requires "f" in st[1] && st[1]["f"] == ClosureVal(["x"], Var("x"), 0)
    ensures var o := Evaluate(fuel, Let("y", Int(5), Call(Var("f"), [Var("y")])), 1, st, []);
      o.res == Ok(IntVal(5)) && o.out == []
  {
    var t := st[1];
    var st0 := st + [t];
    ValidStoreAppend(st, 1);
    assert Evaluate(fuel, Int(5), 1, st0, []) == Outcome(Ok(IntVal(5)), st0, []);
    var st' := st0[1 := t["y" := IntVal(5)]][2 := t["y" := IntVal(5)]];
    ValidStoreSet(st0, 1, "y", IntVal(5));
    ValidStoreSet(st0[1 := t["y" := IntVal(5)]], 2, "y", IntVal(5));
    assert Evaluate(fuel, Let("y", Int(5), Call(Var("f"), [Var("y")])), 1, st, []) == Evaluate(fuel, Call(Var("f"), [Var("y")]), 2, st', []);
    CallWithCallerArgument(fuel, st');
  }

  /** The end of the example above: `y` is read in the caller's table 2 and bound to `x` in a
      fresh copy of table 0, where the body reads it. */
  lemma CallWithCallerArgument(fuel: nat, st: Store)
    requires fuel >= 1 && |st| == 3 && ValidStore(st)
    requires "y" in st[2] && st[2]["y"] == IntVal(5)
    requires "f" in st[2] && st[2]["f"] == ClosureVal(["x"], Var("x"), 0)
    ensures var o := Evaluate(fuel, Call(Var("f"), [Var("y")]), 2, st, []);
      o.res == Ok(IntVal(5)) && o.out == []
  {
    var st1 := st + [st[0]];
    ValidStoreAppend(st, 0);
    assert Evaluate(fuel, Var("f"), 2, st, []) == Outcome(Ok(ClosureVal(["x"], Var("x"), 0)), st, []);
    assert Evaluate(fuel, Var("y"), 2, st1, []) == Outcome(Ok(IntVal(5)), st1, []);
    var st2 := st1[3 := st1[3]["x" := IntVal(5)]];
    ValidStoreSet(st1, 3, "x", IntVal(5));
    assert BindArguments(fuel, Var("f"), [Var("y")], ["x"], 1, 2, 3, st2, []) == Outcome(Ok([]), st2, []);
    var five: seq<Val> := [IntVal(5)];
    assert five + [] == five;
    assert BindArguments(fuel, Var("f"), [Var("y")], ["x"], 0, 2, 3, st1, []) == Outcome(Ok([IntVal(5)]), st2, []);
    assert Evaluate(fuel - 1, Var("x"), 3, st2, []) == Outcome(Ok(IntVal(5)), st2, []);
    assert RunClosure(fuel, Var("f"), [Var("y")], ["x"], Var("x"), 2, 3, st1, []) == Outcome(Ok(IntVal(5)), st2, []);
    assert ApplyClosure(fuel, Var("f"), [Var("y")], ["x"], Var("x"), 0, 2, st, []) == Outcome(Ok(IntVal(5)), st2, []);
  }

  /** A call whose arguments all have values runs the body, with one unit of fuel less, in
      the callee's table as the arguments left it. */
  lemma RunClosureEntersBody(fuel: nat, callee: Term, args: seq<Term>, ps: seq<string>, body: Term,
                             a: Addr, n: Addr, st: Store, out: seq<string>)
    requires |ps| == |args| && fuel > 0
    requires a < |st| && n < |st| && a != n && ValidStore(st)
    requires BindArguments(fuel, callee, args, ps, 0, a, n, st, out).res.Ok?
    ensures var ob := BindArguments(fuel, callee, args, ps, 0, a, n, st, out);
      n < |ob.store| && ValidStore(ob.store) &&
      RunClosure(fuel, callee, args, ps, body, a, n, st, out) == Evaluate(fuel - 1, body, n, ob.store, ob.out)
  {
  }

  /** A call whose arity matches: the arguments are evaluated in the caller's table `a` and
      bound in a fresh copy of the captured table `e`, where the body runs. In that copy every
      parameter is bound, a repeated parameter to its last argument, and every other name is
      bound exactly when, and to what, the captured table binds it; a name the caller binds
      but the captured table does not is unbound in the body. */
  lemma CallBindsInCopyOfCaptured(fuel: nat, callee: Term, args: seq<Term>, ps: seq<string>, body: Term, e: Addr,
                                  a: Addr, st: Store, out: seq<string>)
    requires a < |st| && e < |st| && ValidStore(st)
    requires |args| == |ps| && fuel >= 1
    ensures ValidStore(st + [st[e]])
    ensures var n := |st|;
      var ob := BindArguments(fuel, callee, args, ps, 0, a, n, st + [st[e]], out);
      ob.res.Ok? ==>
        ApplyClosure(fuel, callee, args, ps, body, e, a, st, out) == Evaluate(fuel - 1, body, n, ob.store, ob.out) &&
        (forall y :: y !in ps ==> (y in ob.store[n] <==> y in st[e])) &&
        (forall y :: y !in ps && y in st[e] ==> ob.store[n][y] == st[e][y]) &&
        (forall j :: 0 <= j < |ps| && ps[j] !in ps[j + 1..] ==> ps[j] in ob.store[n] && ob.store[n][ps[j]] == ob.res.value[j])
  {
    ValidStoreAppend(st, e);
    var n := |st|;
    var st1 := st + [st[e]];
    var ob := BindArguments(fuel, callee, args, ps, 0, a, n, st1, out);
    if ob.res.Ok? {
      assert ps[0..] == ps;
      assert ob.store[n] == Bindings.Bind(st[e], ps, ob.res.value);
      forall y | y !in ps
        ensures (y in ob.store[n] <==> y in st[e])
        ensures y in st[e] ==> ob.store[n][y] == st[e][y]
      {
        Bindings.BindKeepsUnshadowed(st[e], ps, ob.res.value, y);
      }
      forall j | 0 <= j < |ps| && ps[j] !in ps[j + 1..]
        ensures ps[j] in ob.store[n] && ob.store[n][ps[j]] == ob.res.value[j]
      {
        Bindings.BindLastWins(st[e], ps, ob.res.value, j);
      }
    }
  }

  /** A wrong number of arguments fails before any argument is evaluated: the captured table
      has been copied, and nothing else has happened. */
  lemma ArityCheckedFirst(fuel: nat, callee: Term, args: seq<Term>, ps: seq<string>, body: Term, e: Addr,
                          a: Addr, st: Store, out: seq<string>)
    requires a < |st| && e < |st| && ValidStore(st)
    requires |args| != |ps|
    ensures ApplyClosure(fuel, callee, args, ps, body, e, a, st, out) == Outcome(Error(ArityMismatch(|ps|, |args|)), st + [st[e]], out)
  {
  }

  /** A call whose arity matches runs in a copy of the captured table, placed at the next
      free address; the captured table itself is not what the callee binds into. */
  lemma ApplyClosureCopiesCaptured(fuel: nat, callee: Term, args: seq<Term>, ps: seq<string>, body: Term, e: Addr,
                                   a: Addr, st: Store, out: seq<string>)
    requires a < |st| && e < |st| && ValidStore(st)
    requires |args| == |ps|
    ensures ValidStore(st + [st[e]])
    ensures ApplyClosure(fuel, callee, args, ps, body, e, a, st, out) == RunClosure(fuel, callee, args, ps, body, a, |st|, st + [st[e]], out)
  {
  }

  /** A call leaves the table its closure captured as it was, unless that table is the
      caller's own (which the arguments may change). */
  lemma CallKeepsCapturedTable(fuel: nat, callee: Term, args: seq<Term>, ps: seq<string>, body: Term, e: Addr,
                               a: Addr, st: Store, out: seq<string>)
    requires a < |st| && e < |st| && ValidStore(st) && e != a
    ensures ApplyClosure(fuel, callee, args, ps, body, e, a, st, out).store[e] == st[e]
  {
  }

  /** A callee that is not a closure fails before any argument is evaluated. */
  lemma NotCallableFailsFirst(fuel: nat, callee: Term, args: seq<Term>, a: Addr, st: Store, out: seq<string>)
    requires a < |st| && ValidStore(st)
    requires Evaluate(fuel, callee, a, st, out).res.Ok? && !Evaluate(fuel, callee, a, st, out).res.value.ClosureVal?
    ensures var oc := Evaluate(fuel, callee, a, st, out);
      Evaluate(fuel, Call(callee, args), a, st, out) == Outcome(Error(NotCallable), oc.store, oc.out)
  {
  }

  /** A name that is not in the current table fails, and changes nothing. */
  lemma UnboundVariableFails(fuel: nat, x: string, a: Addr, st: Store, out: seq<string>)
    requires a < |st| && ValidStore(st) && x !in st[a]
    ensures Evaluate(fuel, Var(x), a, st, out) == Outcome(Error(UnboundVariable(x)), st, out)
  {
  }

  /** `And` with a false left operand and `Or` with a true one are decided by the left operand:
      the right operand is not evaluated. */
  lemma ShortCircuit(fuel: nat, lhs: Term, op: BinaryOp, rhs: Term, a: Addr, st: Store, out: seq<string>)
    requires a < |st| && ValidStore(st)
    requires op == And || op == Or
    requires Evaluate(fuel, lhs, a, st, out).res == Ok(BoolVal(op == Or))
    ensures Evaluate(fuel, Binary(lhs, op, rhs), a, st, out) == Evaluate(fuel, lhs, a, st, out)
  {
    assert DoBinaryOp(fuel, lhs, op, rhs, a, st, out) == ShortCircuitOp(fuel, lhs, op, rhs, a, st, out);
  }

  /** More fuel never changes an outcome that did not run out of fuel. */
  lemma {:induction false} EvaluateMonotone(fuel: nat, t: Term, a: Addr, st: Store, out: seq<string>)
    requires a < |st| && ValidStore(st)
    requires !Evaluate(fuel, t, a, st, out).res.OutOfFuel?
    ensures Evaluate(fuel + 1, t, a, st, out) == Evaluate(fuel, t, a, st, out)
    decreases fuel, t, 4, 0
  {
    match t
    case Int(_) =>
    case Str(_) =>
    case Bool(_) =>
    case Tuple(x, y) =>
      EvaluateMonotone(fuel, x, a, st, out);
      var o := Evaluate(fuel, x, a, st, out);
      if o.res.Ok? {
        EvaluateMonotone(fuel, y, a, o.store, o.out);
      }
    case First(e) =>
      EvaluateMonotone(fuel, e, a, st, out);
    case Second(e) =>
      EvaluateMonotone(fuel, e, a, st, out);
    case Binary(lhs, op, rhs) =>
      DoBinaryOpMonotone(fuel, lhs, op, rhs, a, st, out);
    case If(c, th, el) =>
      EvaluateMonotone(fuel, c, a, st, out);
      var o := Evaluate(fuel, c, a, st, out);
      if o.res == Ok(BoolVal(true)) {
        EvaluateMonotone(fuel, th, a, o.store, o.out);
      } else if o.res == Ok(BoolVal(false)) {
        EvaluateMonotone(fuel, el, a, o.store, o.out);
      }
    case Print(e) =>
      EvaluateMonotone(fuel, e, a, st, out);
    case Let(x, value, next) =>
      ValidStoreAppend(st, a);
      EvaluateMonotone(fuel, value, a, st + [st[a]], out);
      var o := Evaluate(fuel, value, a, st + [st[a]], out);
      if o.res.Ok? {
        var n := |st|;
        var v := o.res.value;
        ValidStoreSet(o.store, a, x, v);
        ValidStoreSet(o.store[a := o.store[a][x := v]], n, x, v);
        EvaluateMonotone(fuel, next, n, o.store[a := o.store[a][x := v]][n := o.store[n][x := v]], o.out);
      }
    case Function(_, _) =>
    case Call(callee, args) =>
      CallFunctionMonotone(fuel, callee, args, a, st, out);
    case Var(_) =>
  }

  lemma {:induction false} DoBinaryOpMonotone(fuel: nat, lhs: Term, op: BinaryOp, rhs: Term, a: Addr, st: Store, out: seq<string>)
    requires a < |st| && ValidStore(st)
    requires !DoBinaryOp(fuel, lhs, op, rhs, a, st, out).res.OutOfFuel?
    ensures DoBinaryOp(fuel + 1, lhs, op, rhs, a, st, out) == DoBinaryOp(fuel, lhs, op, rhs, a, st, out)
    decreases fuel, Binary(lhs, op, rhs), 3, 0
  {
    if Operators.IsLogical(op) {
      assert DoBinaryOp(fuel, lhs, op, rhs, a, st, out) == ShortCircuitOp(fuel, lhs, op, rhs, a, st, out);
      ShortCircuitMonotone(fuel, lhs, op, rhs, a, st, out);
      assert DoBinaryOp(fuel + 1, lhs, op, rhs, a, st, out) == ShortCircuitOp(fuel + 1, lhs, op, rhs, a, st, out);
    } else {
      assert DoBinaryOp(fuel, lhs, op, rhs, a, st, out) == StrictOp(fuel, lhs, op, rhs, a, st, out);
      StrictOpMonotone(fuel, lhs, op, rhs, a, st, out);
      assert DoBinaryOp(fuel + 1, lhs, op, rhs, a, st, out) == StrictOp(fuel + 1, lhs, op, rhs, a, st, out);
    }
  }

  lemma {:induction false} ShortCircuitMonotone(fuel: nat, lhs: Term, op: BinaryOp, rhs: Term, a: Addr, st: Store, out: seq<string>)
    requires Operators.IsLogical(op)
    requires a < |st| && ValidStore(st)
    requires !ShortCircuitOp(fuel, lhs, op, rhs, a, st, out).res.OutOfFuel?
    ensures ShortCircuitOp(fuel + 1, lhs, op, rhs, a, st, out) == ShortCircuitOp(fuel, lhs, op, rhs, a, st, out)
    decreases fuel, Binary(lhs, op, rhs), 2, 0
  {
    var ol := Evaluate(fuel, lhs, a, st, out);
    assert !ol.res.OutOfFuel?;
    EvaluateMonotone(fuel, lhs, a, st, out);
    if ol.res == Ok(BoolVal(op != Or)) {
      assert ShortCircuitOp(fuel, lhs, op, rhs, a, st, out) == Evaluate(fuel, rhs, a, ol.store, ol.out);
      EvaluateMonotone(fuel, rhs, a, ol.store, ol.out);
    }
    ShortCircuitStep(fuel, lhs, op, rhs, a, st, out);
  }

  /** `And`/`Or` take one more unit of fuel in their stride once both operands do. */
  lemma ShortCircuitStep(fuel: nat, lhs: Term, op: BinaryOp, rhs: Term, a: Addr, st: Store, out: seq<string>)
    requires Operators.IsLogical(op)
    requires a < |st| && ValidStore(st)
    requires Evaluate(fuel + 1, lhs, a, st, out) == Evaluate(fuel, lhs, a, st, out)
    requires var ol := Evaluate(fuel, lhs, a, st, out);
      ol.res == Ok(BoolVal(op != Or)) ==>
        Evaluate(fuel + 1, rhs, a, ol.store, ol.out) == Evaluate(fuel, rhs, a, ol.store, ol.out)
    ensures ShortCircuitOp(fuel + 1, lhs, op, rhs, a, st, out) == ShortCircuitOp(fuel, lhs, op, rhs, a, st, out)
  {
  }

  lemma {:induction false} StrictOpMonotone(fuel: nat, lhs: Term, op: BinaryOp, rhs: Term, a: Addr, st: Store, out: seq<string>)
    requires !Operators.IsLogical(op)
    requires a < |st| && ValidStore(st)
    requires !StrictOp(fuel, lhs, op, rhs, a, st, out).res.OutOfFuel?
    ensures StrictOp(fuel + 1, lhs, op, rhs, a, st, out) == StrictOp(fuel, lhs, op, rhs, a, st, out)
    decreases fuel, Binary(lhs, op, rhs), 2, 0
  {
    var ol := Evaluate(fuel, lhs, a, st, out);
    assert !ol.res.OutOfFuel?;
    EvaluateMonotone(fuel, lhs, a, st, out);
    if ol.res.Ok? {
      assert !Evaluate(fuel, rhs, a, ol.store, ol.out).res.OutOfFuel?;
      EvaluateMonotone(fuel, rhs, a, ol.store, ol.out);
    }
    StrictOpStep(fuel, lhs, op, rhs, a, st, out);
  }

  /** The strict operators take more fuel in their stride once both operands do. */
  lemma StrictOpStep(fuel: nat, lhs: Term, op: BinaryOp, rhs: Term, a: Addr, st: Store, out: seq<string>)
    requires !Operators.IsLogical(op)
    requires a < |st| && ValidStore(st)
    requires Evaluate(fuel + 1, lhs, a, st, out) == Evaluate(fuel, lhs, a, st, out)
    requires var ol := Evaluate(fuel, lhs, a, st, out);
      ol.res.Ok? ==> Evaluate(fuel + 1, rhs, a, ol.store, ol.out) == Evaluate(fuel, rhs, a, ol.store, ol.out)
    ensures StrictOp(fuel + 1, lhs, op, rhs, a, st, out) == StrictOp(fuel, lhs, op, rhs, a, st, out)
  {
  }

  lemma {:induction false} CallFunctionMonotone(fuel: nat, callee: Term, args: seq<Term>, a: Addr, st: Store, out: seq<string>)
    requires a < |st| && ValidStore(st)
    requires !CallFunction(fuel, callee, args, a, st, out).res.OutOfFuel?
    ensures CallFunction(fuel + 1, callee, args, a, st, out) == CallFunction(fuel, callee, args, a, st, out)
    decreases fuel, Call(callee, args), 3, 0
  {
    EvaluateMonotone(fuel, callee, a, st, out);
    var oc := Evaluate(fuel, callee, a, st, out);
    if oc.res.Ok? && oc.res.value.ClosureVal? {
      var ClosureVal(ps, body, e) := oc.res.value;
      assert e in Captured(oc.res.value);
      ApplyClosureMonotone(fuel, callee, args, ps, body, e, a, oc.store, oc.out);
    }
  }

  lemma {:induction false} ApplyClosureMonotone(fuel: nat, callee: Term, args: seq<Term>, ps: seq<string>, body: Term, e: Addr,
                                                a: Addr, st: Store, out: seq<string>)
    requires a < |st| && e < |st| && ValidStore(st)
    requires !ApplyClosure(fuel, callee, args, ps, body, e, a, st, out).res.OutOfFuel?
    ensures ApplyClosure(fuel + 1, callee, args, ps, body, e, a, st, out) == ApplyClosure(fuel, callee, args, ps, body, e, a, st, out)
    decreases fuel, Call(callee, args), 2, 0
  {
    if |args| == |ps| {
      ValidStoreAppend(st, e);
      RunClosureMonotone(fuel, callee, args, ps, body, a, |st|, st + [st[e]], out);
    }
  }

  lemma {:induction false} RunClosureMonotone(fuel: nat, callee: Term, args: seq<Term>, ps: seq<string>, body: Term,
                                              a: Addr, n: Addr, st: Store, out: seq<string>)
    requires |ps| == |args|
    requires a < |st| && n < |st| && a != n && ValidStore(st)
    requires !RunClosure(fuel, callee, args, ps, body, a, n, st, out).res.OutOfFuel?
    ensures RunClosure(fuel + 1, callee, args, ps, body, a, n, st, out) == RunClosure(fuel, callee, args, ps, body, a, n, st, out)
    decreases fuel, Call(callee, args), 1, 2
  {
    var ob := BindArguments(fuel, callee, args, ps, 0, a, n, st, out);
    if ob.res.OutOfFuel? {
      assert false;
    }
    BindArgumentsMonotone(fuel, callee, args, ps, 0, a, n, st, out);
    if ob.res.Ok? {
      if fuel == 0 {
        assert false;
      }
      RunBodyMonotone(fuel, callee, args, ps, body, a, n, st, out);
    }
  }

  /** The step of `RunClosureMonotone` where every argument has a value and the body runs. */
  lemma {:induction false} RunBodyMonotone(fuel: nat, callee: Term, args: seq<Term>, ps: seq<string>, body: Term,
                                           a: Addr, n: Addr, st: Store, out: seq<string>)
    requires |ps| == |args| && fuel > 0
    requires a < |st| && n < |st| && a != n && ValidStore(st)
    requires BindArguments(fuel, callee, args, ps, 0, a, n, st, out).res.Ok?
    requires BindArguments(fuel + 1, callee, args, ps, 0, a, n, st, out) == BindArguments(fuel, callee, args, ps, 0, a, n, st, out)
    requires !RunClosure(fuel, callee, args, ps, body, a, n, st, out).res.OutOfFuel?
    ensures RunClosure(fuel + 1, callee, args, ps, body, a, n, st, out) == RunClosure(fuel, callee, args, ps, body, a, n, st, out)
    decreases fuel, Call(callee, args), 1, 1
  {
    var ob := BindArguments(fuel, callee, args, ps, 0, a, n, st, out);
    RunClosureEntersBody(fuel, callee, args, ps, body, a, n, st, out);
    RunClosureEntersBody(fuel + 1, callee, args, ps, body, a, n, st, out);
    EvaluateMonotone(fuel - 1, body, n, ob.store, ob.out);
  }

  lemma {:induction false} BindArgumentsMonotone(fuel: nat, callee: Term, args: seq<Term>, ps: seq<string>, i: nat,
                                                 a: Addr, n: Addr, st: Store, out: seq<string>)
    requires |ps| == |args| && i <= |args|
    requires a < |st| && n < |st| && a != n && ValidStore(st)
    requires !BindArguments(fuel, callee, args, ps, i, a, n, st, out).res.OutOfFuel?
    ensures BindArguments(fuel + 1, callee, args, ps, i, a, n, st, out) == BindArguments(fuel, callee, args, ps, i, a, n, st, out)
    decreases fuel, Call(callee, args), 0, |args| - i
  {
    if i < |args| {
      assert args[i] in args;
      EvaluateMonotone(fuel, args[i], a, st, out);
      var ov := Evaluate(fuel, args[i], a, st, out);
      if ov.res.Ok? {
        ValidStoreSet(ov.store, n, ps[i], ov.res.value);
        BindArgumentsMonotone(fuel, callee, args, ps, i + 1, a, n, ov.store[n := ov.store[n][ps[i] := ov.res.value]], ov.out);
      }
    }
  }

  /** Two fuels that both suffice give the same outcome. */
  lemma {:induction false} FuelIrrelevant(fuel: nat, fuel': nat, t: Term, a: Addr, st: Store, out: seq<string>)
    requires a < |st| && ValidStore(st)
    requires fuel <= fuel'
    requires !Evaluate(fuel, t, a, st, out).res.OutOfFuel?
    ensures Evaluate(fuel', t, a, st, out) == Evaluate(fuel, t, a, st, out)
    decreases fuel' - fuel
  {
    if fuel < fuel' {
      EvaluateMonotone(fuel, t, a, st, out);
      FuelIrrelevant(fuel + 1, fuel', t, a, st, out);
    }
  }
}
