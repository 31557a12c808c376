/** The closure-capturing evaluator of dist/interpreter.js as it runs: name tables are heap
    objects, `Let` and argument binding update them in place, and a function value holds a
    reference to the live table it was created in. Every method is proved to compute what
    `LexicalSpec` says, reading each table as the store entry at its address. */
module LexicalInterp {
  import opened Syntax
  import opened Errors
  import Operators
  import Spec = LexicalSpec
  import LexicalProperties

  /** A value whose closures point at heap tables. */
  type Value = Spec.Value<NameTable>

  /** A JavaScript `Map` from names to values. */
  class NameTable {
    var m: map<string, Value>
    /** Where this table sits in the abstract store; fixed when it is allocated. */
    ghost const addr: nat

    constructor (m0: map<string, Value>, ghost addr0: nat)
      ensures m == m0 && addr == addr0
    {
      m := m0;
      addr := addr0;
    }

    /** `map.set(x, v)`, and the matching update of the abstract store. */
    method Set(x: string, v: Value, ghost tables: seq<NameTable>, ghost st: Spec.Store)
      requires Refines(tables, st) && Registered(this, tables) && Known(v, tables)
      modifies this
      ensures m == old(m)[x := v]
      ensures Refines(tables, st[addr := st[addr][x := Abs(v)]])
    {
      ghost var snap := Snapshot(tables);
      RefinesSnapshot(tables, st);
      m := m[x := v];
      CorrespondsSet(tables, snap, st, addr, x, v);
      assert Snapshot(tables) == snap[addr := snap[addr][x := v]];
      RefinesSnapshot(tables, st[addr := st[addr][x := Abs(v)]]);
    }
  }

  /** The abstract value: each captured table replaced by its address. */
  ghost function Abs(v: Value): Spec.Val {
    match v
    case IntVal(i) => Spec.IntVal(i)
    case StrVal(s) => Spec.StrVal(s)
    case BoolVal(b) => Spec.BoolVal(b)
    case PairVal(a, b) => Spec.PairVal(Abs(a), Abs(b))
    case ClosureVal(ps, body, env) => Spec.ClosureVal(ps, body, env.addr)
  }

  ghost function AbsTable(m: map<string, Value>): Spec.Table {
    map x | x in m :: Abs(m[x])
  }

  ghost function AbsResult(r: Result<Value>): Result<Spec.Val> {
    match r
    case Ok(v) => Ok(Abs(v))
    case Error(k) => Error(k)
    case OutOfFuel => OutOfFuel
  }

  /** The tables captured by the closures inside a value. */
  ghost function Envs(v: Value): set<NameTable> {
    match v
    case PairVal(a, b) => Envs(a) + Envs(b)
    case ClosureVal(_, _, env) => {env}
    case _ => {}
  }

  /** `t` is the table registered at its own address. */
  ghost predicate Registered(t: NameTable, tables: seq<NameTable>) {
    t.addr < |tables| && tables[t.addr] == t
  }

  /** Every table captured inside `v` is registered. */
  ghost predicate Known(v: Value, tables: seq<NameTable>) {
    forall e :: e in Envs(v) ==> Registered(e, tables)
  }

  /** The contents of the registered tables, in address order. */
  ghost function Snapshot(tables: seq<NameTable>): (s: seq<map<string, Value>>)
    reads tables
    ensures |s| == |tables| && forall i :: 0 <= i < |tables| ==> s[i] == tables[i].m
  {
    if tables == [] then [] else Snapshot(tables[..|tables| - 1]) + [tables[|tables| - 1].m]
  }

  /** Tables with contents `snap` stand for the store `st`: each is registered at its own
      address, reads as the store entry there, and holds only closures over registered tables. */
  ghost predicate Corresponds(tables: seq<NameTable>, snap: seq<map<string, Value>>, st: Spec.Store) {
    |tables| == |snap| == |st| &&
    (forall i :: 0 <= i < |tables| ==> tables[i].addr == i && AbsTable(snap[i]) == st[i]) &&
    (forall i, x :: 0 <= i < |tables| && x in snap[i] ==> Known(snap[i][x], tables))
  }

  /** The registered tables, as they are now, stand for the store `st`. */
  ghost predicate Refines(tables: seq<NameTable>, st: Spec.Store)
    reads tables
  {
    |tables| == |st| &&
    (forall i :: 0 <= i < |tables| ==> tables[i].addr == i && AbsTable(tables[i].m) == st[i]) &&
    (forall i, x :: 0 <= i < |tables| && x in tables[i].m ==> Known(tables[i].m[x], tables))
  }

  lemma RefinesSnapshot(tables: seq<NameTable>, st: Spec.Store)
    ensures Refines(tables, st) <==> Corresponds(tables, Snapshot(tables), st)
  {
  }

  /** The concrete result, output and tables are those of the abstract outcome `o`. */
  ghost predicate Matches(o: Spec.Outcome<Spec.Val>, r: Result<Value>, out: seq<string>, tables: seq<NameTable>)
    reads tables
  {
    AbsResult(r) == o.res && out == o.out && Refines(tables, o.store) &&
    (r.Ok? ==> Known(r.value, tables))
  }

  lemma ToPrintAbs(v: Value)
    ensures Spec.ToPrint(v) == Spec.ToPrint(Abs(v))
  {
  }

  lemma AbsTableSet(m: map<string, Value>, x: string, v: Value)
    ensures AbsTable(m[x := v]) == AbsTable(m)[x := Abs(v)]
  {
  }

  /** A freshly allocated table registered at the next address extends the correspondence. */
  lemma RefinesExtend(tables: seq<NameTable>, st: Spec.Store, t: NameTable)
    requires Refines(tables, st) && t.addr == |tables|
    requires forall x :: x in t.m ==> Known(t.m[x], tables)
    ensures Refines(tables + [t], st + [AbsTable(t.m)])
  {
    var tables' := tables + [t];
    forall v | Known(v, tables) ensures Known(v, tables') {
      forall e | e in Envs(v) ensures Registered(e, tables') {
        assert Registered(e, tables);
      }
    }
  }

  /** Setting name `x` to `v` in the table at address `a` sets it in the store entry there. */
  lemma CorrespondsSet(tables: seq<NameTable>, snap: seq<map<string, Value>>, st: Spec.Store, a: nat, x: string, v: Value)
    requires Corresponds(tables, snap, st) && a < |tables| && Known(v, tables)
    ensures Corresponds(tables, snap[a := snap[a][x := v]], st[a := st[a][x := Abs(v)]])
  {
    AbsTableSet(snap[a], x, v);
  }

  lemma ApplyOpAbs(op: BinaryOp, x: Value, y: Value)
    requires !Operators.IsLogical(op)
    ensures AbsResult(Spec.ApplyOp(op, x, y)) == Spec.ApplyOp(op, Abs(x), Abs(y))
    ensures Spec.ApplyOp(op, x, y).Ok? ==> Envs(Spec.ApplyOp(op, x, y).value) == {}
  {
    if Spec.IsScalar(x) && Spec.IsScalar(y) {
      assert Spec.ToPrim(x) == Spec.ToPrim(Abs(x)) && Spec.ToPrim(y) == Spec.ToPrim(Abs(y));
    }
  }

  /** Applying an operator to concrete values matches applying it to their abstractions. */
  lemma MatchesApplyOp(op: BinaryOp, x: Value, y: Value, o: Spec.Outcome<Spec.Val>, out: seq<string>,
                       tables: seq<NameTable>)
    requires !Operators.IsLogical(op)
    requires out == o.out && Refines(tables, o.store)
    ensures Matches(Spec.Outcome(Spec.ApplyOp(op, Abs(x), Abs(y)), o.store, o.out), Spec.ApplyOp(op, x, y), out, tables)
  {
    ApplyOpAbs(op, x, y);
  }

  /** `evaluate(term, nametable)`. Only `tbl` and tables allocated during the call are
      written, and the outcome is the abstract evaluation of `t` at `tbl`'s address. */
  method Evaluate(fuel: nat, t: Term, tbl: NameTable, out: seq<string>,
                  ghost tables: seq<NameTable>, ghost st: Spec.Store)
    returns (r: Result<Value>, out': seq<string>, ghost tables': seq<NameTable>)
    requires Spec.ValidStore(st) && Refines(tables, st) && Registered(tbl, tables)
    modifies tbl
    ensures tables <= tables'
    ensures Matches(Spec.Evaluate(fuel, t, tbl.addr, st, out), r, out', tables')
    decreases fuel, t, 4, 0
  {
    match t
    case Int(n) =>
      r, out', tables' := Ok(Spec.IntVal(n)), out, tables;
    case Str(s) =>
      r, out', tables' := Ok(Spec.StrVal(s)), out, tables;
    case Bool(b) =>
      r, out', tables' := Ok(Spec.BoolVal(b)), out, tables;
    case Tuple(first, second) =>
      r, out', tables' := EvaluateTuple(fuel, first, second, tbl, out, tables, st);
    case First(e) =>
      r, out', tables' := EvaluateProjection(fuel, e, true, tbl, out, tables, st);
    case Second(e) =>
      r, out', tables' := EvaluateProjection(fuel, e, false, tbl, out, tables, st);
    case Binary(lhs, op, rhs) =>
      r, out', tables' := DoBinaryOp(fuel, lhs, op, rhs, tbl, out, tables, st);
    case If(condition, consequent, otherwise) =>
      r, out', tables' := EvaluateIf(fuel, condition, consequent, otherwise, tbl, out, tables, st);
    case Print(e) =>
      r, out', tables' := EvaluatePrint(fuel, e, tbl, out, tables, st);
    case Let(x, value, next) =>
      r, out', tables' := EvaluateLet(fuel, x, value, next, tbl, out, tables, st);
    case Function(parameters, body) =>
      r, out', tables' := Ok(Spec.ClosureVal(parameters, body, tbl)), out, tables;
    case Call(callee, arguments) =>
      r, out', tables' := CallFunction(fuel, callee, arguments, tbl, out, tables, st);
    case Var(x) =>
      r, out', tables' := if x in tbl.m then Ok(tbl.m[x]) else Error(UnboundVariable(x)), out, tables;
  }

  /** The `Tuple` case of `evaluate`: both components, left first. */
  method EvaluateTuple(fuel: nat, first: Term, second: Term, tbl: NameTable, out: seq<string>,
                       ghost tables: seq<NameTable>, ghost st: Spec.Store)
    returns (r: Result<Value>, out': seq<string>, ghost tables': seq<NameTable>)
    requires Spec.ValidStore(st) && Refines(tables, st) && Registered(tbl, tables)
    modifies tbl
    ensures tables <= tables'
    ensures Matches(Spec.Evaluate(fuel, Tuple(first, second), tbl.addr, st, out), r, out', tables')
    decreases fuel, Tuple(first, second), 3, 0
  {
    ghost var o1 := Spec.Evaluate(fuel, first, tbl.addr, st, out);
    var r1;
    r1, out', tables' := Evaluate(fuel, first, tbl, out, tables, st);
    if !r1.Ok? {
      r := r1;
    } else {
      var r2;
      r2, out', tables' := Evaluate(fuel, second, tbl, out', tables', o1.store);
      r := if r2.Ok? then Ok(Spec.PairVal(r1.value, r2.value)) else r2;
    }
  }

  /** The `First` (`fst`) and `Second` cases of `evaluate`: the operand must be a pair, and
      the selected component is yielded. */
  method EvaluateProjection(fuel: nat, e: Term, fst: bool, tbl: NameTable, out: seq<string>,
                            ghost tables: seq<NameTable>, ghost st: Spec.Store)
    returns (r: Result<Value>, out': seq<string>, ghost tables': seq<NameTable>)
    requires Spec.ValidStore(st) && Refines(tables, st) && Registered(tbl, tables)
    modifies tbl
    ensures tables <= tables'
    ensures Matches(Spec.Evaluate(fuel, if fst then First(e) else Second(e), tbl.addr, st, out), r, out', tables')
    decreases fuel, if fst then First(e) else Second(e), 3, 0
  {
    ghost var o := Spec.Evaluate(fuel, e, tbl.addr, st, out);
    ghost var d := Spec.Evaluate(fuel, if fst then First(e) else Second(e), tbl.addr, st, out);
    r, out', tables' := Evaluate(fuel, e, tbl, out, tables, st);
    if r.Ok? {
      if r.value.PairVal? {
        assert Envs(r.value) == Envs(r.value.fst) + Envs(r.value.snd);
        assert d == Spec.Outcome(Ok(if fst then o.res.value.fst else o.res.value.snd), o.store, o.out);
        r := Ok(if fst then r.value.fst else r.value.snd);
      } else {
        assert d == Spec.Outcome(Error(NotAPair), o.store, o.out);
        r := Error(NotAPair);
      }
    } else {
      assert d == o;
    }
  }

  /** The `Print` case of `evaluate`: the value's text is appended as one line and the value
      is yielded unchanged. */
  method EvaluatePrint(fuel: nat, e: Term, tbl: NameTable, out: seq<string>,
                       ghost tables: seq<NameTable>, ghost st: Spec.Store)
    returns (r: Result<Value>, out': seq<string>, ghost tables': seq<NameTable>)
    requires Spec.ValidStore(st) && Refines(tables, st) && Registered(tbl, tables)
    modifies tbl
    ensures tables <= tables'
    ensures Matches(Spec.Evaluate(fuel, Print(e), tbl.addr, st, out), r, out', tables')
    decreases fuel, Print(e), 3, 0
  {
    r, out', tables' := Evaluate(fuel, e, tbl, out, tables, st);
    if r.Ok? {
      ToPrintAbs(r.value);
      out' := out' + [Spec.ToPrint(r.value)];
    }
  }

  /** The `If` case of `evaluate`: the condition must be a boolean, and only the branch it
      selects is evaluated. */
  method EvaluateIf(fuel: nat, condition: Term, consequent: Term, otherwise: Term, tbl: NameTable, out: seq<string>,
                    ghost tables: seq<NameTable>, ghost st: Spec.Store)
    returns (r: Result<Value>, out': seq<string>, ghost tables': seq<NameTable>)
    requires Spec.ValidStore(st) && Refines(tables, st) && Registered(tbl, tables)
    modifies tbl
    ensures tables <= tables'
    ensures Matches(Spec.Evaluate(fuel, If(condition, consequent, otherwise), tbl.addr, st, out), r, out', tables')
    decreases fuel, If(condition, consequent, otherwise), 3, 0
  {
    ghost var oc := Spec.Evaluate(fuel, condition, tbl.addr, st, out);
    var rc, outc, tablesc := Evaluate(fuel, condition, tbl, out, tables, st);
    if !rc.Ok? {
      r, out', tables' := rc, outc, tablesc;
    } else if !rc.value.BoolVal? {
      r, out', tables' := Error(NotABool), outc, tablesc;
    } else if rc.value.b {
      r, out', tables' := Evaluate(fuel, consequent, tbl, outc, tablesc, oc.store);
    } else {
      r, out', tables' := Evaluate(fuel, otherwise, tbl, outc, tablesc, oc.store);
    }
  }

  /** The `Let` case of `evaluate`: copy the table, evaluate the value in the original, set
      the name in both, and continue in the copy. */
  method EvaluateLet(fuel: nat, x: string, value: Term, next: Term, tbl: NameTable, out: seq<string>,
                     ghost tables: seq<NameTable>, ghost st: Spec.Store)
    returns (r: Result<Value>, out': seq<string>, ghost tables': seq<NameTable>)
    requires Spec.ValidStore(st) && Refines(tables, st) && Registered(tbl, tables)
    modifies tbl
    ensures tables <= tables'
    ensures Matches(Spec.Evaluate(fuel, Let(x, value, next), tbl.addr, st, out), r, out', tables')
    decreases fuel, Let(x, value, next), 3, 0
  {
    var a, n := tbl.addr, |tables|;
    var copy := new NameTable(tbl.m, n);
    RefinesExtend(tables, st, copy);
    ghost var st0 := st + [st[a]];
    Spec.ValidStoreAppend(st, a);
    ghost var o := Spec.Evaluate(fuel, value, a, st0, out);
    var rv, outv, tablesv := Evaluate(fuel, value, tbl, out, tables + [copy], st0);
    if !rv.Ok? {
      r, out', tables' := rv, outv, tablesv;
    } else {
      var v := rv.value;
      tbl.Set(x, v, tablesv, o.store);
      ghost var st1 := o.store[a := o.store[a][x := Abs(v)]];
      copy.Set(x, v, tablesv, st1);
      ghost var st' := st1[n := st1[n][x := Abs(v)]];
      LexicalProperties.LetRunsNextInCopy(fuel, x, value, next, a, st, out);
      r, out', tables' := Evaluate(fuel, next, copy, outv, tablesv, st');
    }
  }

  /** `do_binary_op`: the left operand, then the right one unless `And`/`Or` is already
      decided by the left. */
  method DoBinaryOp(fuel: nat, lhs: Term, op: BinaryOp, rhs: Term, tbl: NameTable, out: seq<string>,
                    ghost tables: seq<NameTable>, ghost st: Spec.Store)
    returns (r: Result<Value>, out': seq<string>, ghost tables': seq<NameTable>)
    requires Spec.ValidStore(st) && Refines(tables, st) && Registered(tbl, tables)
    modifies tbl
    ensures tables <= tables'
    ensures Matches(Spec.DoBinaryOp(fuel, lhs, op, rhs, tbl.addr, st, out), r, out', tables')
    decreases fuel, Binary(lhs, op, rhs), 3, 0
  {
    if Operators.IsLogical(op) {
      r, out', tables' := ShortCircuitOp(fuel, lhs, op, rhs, tbl, out, tables, st);
    } else {
      r, out', tables' := StrictOp(fuel, lhs, op, rhs, tbl, out, tables, st);
    }
  }

  /** `And` and `Or`: the right operand is evaluated, and yielded unchanged, only when the
      left one, which must be a boolean, does not decide the result. */
  method ShortCircuitOp(fuel: nat, lhs: Term, op: BinaryOp, rhs: Term, tbl: NameTable, out: seq<string>,
                        ghost tables: seq<NameTable>, ghost st: Spec.Store)
    returns (r: Result<Value>, out': seq<string>, ghost tables': seq<NameTable>)
    requires Operators.IsLogical(op)
    requires Spec.ValidStore(st) && Refines(tables, st) && Registered(tbl, tables)
    modifies tbl
    ensures tables <= tables'
    ensures Matches(Spec.ShortCircuitOp(fuel, lhs, op, rhs, tbl.addr, st, out), r, out', tables')
    decreases fuel, Binary(lhs, op, rhs), 2, 0
  {
    ghost var ol := Spec.Evaluate(fuel, lhs, tbl.addr, st, out);
    var rl, outl, tablesl := Evaluate(fuel, lhs, tbl, out, tables, st);
    if !rl.Ok? {
      r, out', tables' := rl, outl, tablesl;
    } else if !rl.value.BoolVal? {
      r, out', tables' := Error(NotABool), outl, tablesl;
    } else if rl.value.b == (op == Or) {
      r, out', tables' := rl, outl, tablesl;
    } else {
      r, out', tables' := Evaluate(fuel, rhs, tbl, outl, tablesl, ol.store);
    }
  }

  /** Every other operator: both operands, left first, then the operator on their values. */
  method StrictOp(fuel: nat, lhs: Term, op: BinaryOp, rhs: Term, tbl: NameTable, out: seq<string>,
                  ghost tables: seq<NameTable>, ghost st: Spec.Store)
    returns (r: Result<Value>, out': seq<string>, ghost tables': seq<NameTable>)
    requires !Operators.IsLogical(op)
    requires Spec.ValidStore(st) && Refines(tables, st) && Registered(tbl, tables)
    modifies tbl
    ensures tables <= tables'
    ensures Matches(Spec.StrictOp(fuel, lhs, op, rhs, tbl.addr, st, out), r, out', tables')
    decreases fuel, Binary(lhs, op, rhs), 2, 0
  {
    ghost var ol := Spec.Evaluate(fuel, lhs, tbl.addr, st, out);
    ghost var d := Spec.StrictOp(fuel, lhs, op, rhs, tbl.addr, st, out);
    var rl, outl, tablesl := Evaluate(fuel, lhs, tbl, out, tables, st);
    if !rl.Ok? {
      assert d == ol;
      r, out', tables' := rl, outl, tablesl;
    } else {
      assert Registered(tbl, tablesl) && Spec.ValidStore(ol.store);
      ghost var or := Spec.Evaluate(fuel, rhs, tbl.addr, ol.store, ol.out);
      var rr;
      rr, out', tables' := Evaluate(fuel, rhs, tbl, outl, tablesl, ol.store);
      if rr.Ok? {
        r := Spec.ApplyOp(op, rl.value, rr.value);
        MatchesApplyOp(op, rl.value, rr.value, or, out', tables');
        assert d == Spec.Outcome(Spec.ApplyOp(op, ol.res.value, or.res.value), or.store, or.out);
      } else {
        assert d == or;
        r := rr;
      }
    }
  }

  /** `call_function`: the callee must be a closure, which is then applied. */
  method CallFunction(fuel: nat, callee: Term, args: seq<Term>, tbl: NameTable, out: seq<string>,
                      ghost tables: seq<NameTable>, ghost st: Spec.Store)
    returns (r: Result<Value>, out': seq<string>, ghost tables': seq<NameTable>)
    requires Spec.ValidStore(st) && Refines(tables, st) && Registered(tbl, tables)
    modifies tbl
    ensures tables <= tables'
    ensures Matches(Spec.CallFunction(fuel, callee, args, tbl.addr, st, out), r, out', tables')
    decreases fuel, Call(callee, args), 3, 0
  {
    ghost var oc := Spec.Evaluate(fuel, callee, tbl.addr, st, out);
    var rc, outc, tablesc := Evaluate(fuel, callee, tbl, out, tables, st);
    if !rc.Ok? {
      r, out', tables' := rc, outc, tablesc;
    } else if !rc.value.ClosureVal? {
      r, out', tables' := Error(NotCallable), outc, tablesc;
    } else {
      assert rc.value.env in Envs(rc.value);
      r, out', tables' := ApplyClosure(fuel, callee, args, rc.value.parameters, rc.value.body, rc.value.env,
                                       tbl, outc, tablesc, oc.store);
    }
  }

  /** The rest of `call_function`: the captured table is copied and the arity checked. */
  method ApplyClosure(fuel: nat, callee: Term, args: seq<Term>, ps: seq<string>, body: Term, captured: NameTable,
                      tbl: NameTable, out: seq<string>, ghost tables: seq<NameTable>, ghost st: Spec.Store)
    returns (r: Result<Value>, out': seq<string>, ghost tables': seq<NameTable>)
    requires Spec.ValidStore(st) && Refines(tables, st) && Registered(tbl, tables) && Registered(captured, tables)
    modifies tbl
    ensures tables <= tables'
    ensures Matches(Spec.ApplyClosure(fuel, callee, args, ps, body, captured.addr, tbl.addr, st, out), r, out', tables')
    decreases fuel, Call(callee, args), 2, 0
  {
    if |args| != |ps| {
      var local := CopyTable(captured, tables, st);
      LexicalProperties.ArityCheckedFirst(fuel, callee, args, ps, body, captured.addr, tbl.addr, st, out);
      r, out', tables' := Error(ArityMismatch(|ps|, |args|)), out, tables + [local];
    } else {
      var local := CopyTable(captured, tables, st);
      LexicalProperties.ApplyClosureCopiesCaptured(fuel, callee, args, ps, body, captured.addr, tbl.addr, st, out);
      r, out', tables' := RunClosure(fuel, callee, args, ps, body, tbl, local, out, tables + [local], st + [st[captured.addr]]);
    }
  }

  /** `new Map(captured)`: a fresh table with the captured table's bindings, registered at
      the next free address. */
  method CopyTable(captured: NameTable, ghost tables: seq<NameTable>, ghost st: Spec.Store) returns (local: NameTable)
    requires Refines(tables, st) && Registered(captured, tables)
    ensures fresh(local) && local.m == captured.m && local.addr == |tables|
    ensures Refines(tables + [local], st + [st[captured.addr]])
  {
    local := new NameTable(captured.m, |tables|);
    RefinesExtend(tables, st, local);
  }

  /** The end of `call_function`: the arguments bound into the callee's table `local`, then
      the body run there. */
  method RunClosure(fuel: nat, callee: Term, args: seq<Term>, ps: seq<string>, body: Term, tbl: NameTable, local: NameTable,
                    out: seq<string>, ghost tables: seq<NameTable>, ghost st: Spec.Store)
    returns (r: Result<Value>, out': seq<string>, ghost tables': seq<NameTable>)
    requires |ps| == |args|
    requires Spec.ValidStore(st) && Refines(tables, st)
    requires Registered(tbl, tables) && Registered(local, tables) && tbl.addr != local.addr
    modifies tbl, local
    ensures tables <= tables'
    ensures Matches(Spec.RunClosure(fuel, callee, args, ps, body, tbl.addr, local.addr, st, out), r, out', tables')
    decreases fuel, Call(callee, args), 1, 0
  {
    ghost var ob := Spec.BindArguments(fuel, callee, args, ps, 0, tbl.addr, local.addr, st, out);
    var rb, outb, tablesb := BindArguments(fuel, callee, args, ps, tbl, local, out, tables, st);
    if !rb.Ok? {
      r, out', tables' := rb.Propagate(), outb, tablesb;
    } else if fuel == 0 {
      r, out', tables' := OutOfFuel, outb, tablesb;
    } else {
      r, out', tables' := Evaluate(fuel - 1, body, local, outb, tablesb, ob.store);
    }
  }

  /** The loop of `call_function`: argument `i` is evaluated in the caller's table `tbl` and
      set under parameter `i` in the callee's table `local`, in order. */
  method BindArguments(fuel: nat, callee: Term, args: seq<Term>, ps: seq<string>, tbl: NameTable, local: NameTable,
                       out: seq<string>, ghost tables: seq<NameTable>, ghost st: Spec.Store)
    returns (res: Result<()>, out': seq<string>, ghost tables': seq<NameTable>)
    requires |ps| == |args|
    requires Spec.ValidStore(st) && Refines(tables, st)
    requires Registered(tbl, tables) && Registered(local, tables) && tbl.addr != local.addr
    modifies tbl, local
    ensures tables <= tables'
    ensures var whole := Spec.BindArguments(fuel, callee, args, ps, 0, tbl.addr, local.addr, st, out);
      res.Ok? == whole.res.Ok? && (!res.Ok? ==> res == whole.res.Propagate()) &&
      out' == whole.out && Refines(tables', whole.store)
    decreases fuel, Call(callee, args), 0, 1
  {
    ghost var whole := Spec.BindArguments(fuel, callee, args, ps, 0, tbl.addr, local.addr, st, out);
    var i := 0;
    out', tables' := out, tables;
    ghost var sti := st;
    while i < |args|
      invariant i <= |args| && |sti| >= |st|
      invariant Spec.ValidStore(sti) && Refines(tables', sti) && tables <= tables'
      invariant SameEffect(whole, Spec.BindArguments(fuel, callee, args, ps, i, tbl.addr, local.addr, sti, out'))
    {
      res, out', tables', sti := BindArgument(fuel, callee, args, ps, i, tbl, local, out', tables', sti);
      if !res.Ok? {
        return;
      }
      i := i + 1;
    }
    return Ok(()), out', tables';
  }

  /** One turn of the loop of `call_function`: argument `i` evaluated in `tbl` and, when it
      has a value, set under parameter `i` in `local`. */
  method BindArgument(fuel: nat, callee: Term, args: seq<Term>, ps: seq<string>, i: nat, tbl: NameTable, local: NameTable,
                      out: seq<string>, ghost tables: seq<NameTable>, ghost st: Spec.Store)
    returns (res: Result<()>, out': seq<string>, ghost tables': seq<NameTable>, ghost st': Spec.Store)
    requires |ps| == |args| && i < |args|
    requires Spec.ValidStore(st) && Refines(tables, st)
    requires Registered(tbl, tables) && Registered(local, tables) && tbl.addr != local.addr
    modifies tbl, local
    ensures tables <= tables' && |st'| >= |st|
    ensures Spec.ValidStore(st') && Refines(tables', st')
    ensures var o := Spec.BindArguments(fuel, callee, args, ps, i, tbl.addr, local.addr, st, out);
      if res.Ok? then SameEffect(o, Spec.BindArguments(fuel, callee, args, ps, i + 1, tbl.addr, local.addr, st', out'))
      else !o.res.Ok? && res == o.res.Propagate() && o.store == st' && o.out == out'
    decreases fuel, Call(callee, args), 0, 0
  {
    var n := local.addr;
    assert args[i] in args;
    ghost var ov := Spec.Evaluate(fuel, args[i], tbl.addr, st, out);
    var rv;
    rv, out', tables' := Evaluate(fuel, args[i], tbl, out, tables, st);
    if !rv.Ok? {
      res, st' := rv.Propagate(), ov.store;
    } else {
      local.Set(ps[i], rv.value, tables', ov.store);
      Spec.ValidStoreSet(ov.store, n, ps[i], Abs(rv.value));
      res, st' := Ok(()), ov.store[n := ov.store[n][ps[i] := Abs(rv.value)]];
    }
  }

  /** Two argument-binding outcomes that agree on everything but the argument values. */
  ghost predicate SameEffect(o: Spec.Outcome<seq<Spec.Val>>, o': Spec.Outcome<seq<Spec.Val>>) {
    o.res.Ok? == o'.res.Ok? && (!o.res.Ok? ==> o.res == o'.res) && o.store == o'.store && o.out == o'.out
  }

  /** `interpretate`: the program evaluated in a fresh empty table. */
  method Interpretate(fuel: nat, t: Term) returns (r: Result<Value>, out: seq<string>)
    ensures AbsResult(r) == Spec.Interpretate(fuel, t).res
    ensures out == Spec.Interpretate(fuel, t).out
  {
    var tbl := new NameTable(map[], 0);
    ghost var tables' := [];
    r, out, tables' := Evaluate(fuel, t, tbl, [], [tbl], [map[]]);
  }
}
