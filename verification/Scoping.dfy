/** The two evaluators side by side: the same program can give different results under the
    closure-capturing evaluator of dist/interpreter.js and the dynamically scoped one of
    src/interpreter.ts. */
module Scoping {
  import opened Syntax
  import opened Errors
  import LexicalSpec
  import LexicalProperties
  import DynamicInterp
  import DynamicProperties

  /** `let x = 1; let f = fn () => x; let x = 2; f()` */
  function ShadowingProgram(): Term {
    Let("x", Int(1), Let("f", Function([], Var("x")), Let("x", Int(2), Call(Var("f"), []))))
  }

  /** `second((let y = 3; y, y))` */
  function LetInTupleProgram(): Term {
    Second(Tuple(Let("y", Int(3), Var("y")), Var("y")))
  }

  /** A function body sees the binding of the table the function was written in under the
      first evaluator, and the binding of the table it is called from under the second. */
  lemma ShadowingDiffers(fuel: nat)
    requires fuel >= 1
    ensures LexicalSpec.Interpretate(fuel, ShadowingProgram()).res == Ok(LexicalSpec.IntVal(1))
    ensures DynamicInterp.Interpretate(fuel, ShadowingProgram()).res == Ok(DynamicInterp.IntVal(2))
  {
    LexicalProperties.CallSeesCapturedBinding(fuel);
    DynamicProperties.CallSeesShadowingBinding(fuel);
  }

  /** Under the first evaluator both components of the tuple run, and the `Let` in the first
      one writes `y` into the table the second one reads. Under the second evaluator only the
      projected component runs, and `y` is bound nowhere. */
  lemma LetInTupleDiffers(fuel: nat)
    ensures LexicalSpec.Interpretate(fuel, LetInTupleProgram()).res == Ok(LexicalSpec.IntVal(3))
    ensures DynamicInterp.Interpretate(fuel + 1, LetInTupleProgram()).res == Error(UnboundVariable("y"))
  {
    var t0: LexicalSpec.Table := map[];
    var t1 := t0["y" := LexicalSpec.IntVal(3)];
    var st0: LexicalSpec.Store := [t0];
    var st1: LexicalSpec.Store := [t0, t0];
    var st2: LexicalSpec.Store := [t1, t1];
    assert st0 + [st0[0]] == st1;
    assert LexicalSpec.ValidStore(st0) && LexicalSpec.ValidStore(st1) && LexicalSpec.ValidStore(st2);
    assert LexicalSpec.Evaluate(fuel, Int(3), 0, st1, []) == LexicalSpec.Outcome(Ok(LexicalSpec.IntVal(3)), st1, []);
    assert st1[0 := st1[0][ "y" := LexicalSpec.IntVal(3)]][1 := st1[1]["y" := LexicalSpec.IntVal(3)]] == st2;
    assert LexicalSpec.Evaluate(fuel, Let("y", Int(3), Var("y")), 0, st0, []) == LexicalSpec.Outcome(Ok(LexicalSpec.IntVal(3)), st2, []);
    assert LexicalSpec.Evaluate(fuel, Var("y"), 0, st2, []) == LexicalSpec.Outcome(Ok(LexicalSpec.IntVal(3)), st2, []);
    var p := LexicalSpec.PairVal(LexicalSpec.IntVal(3), LexicalSpec.IntVal(3));
    assert LexicalSpec.Evaluate(fuel, Tuple(Let("y", Int(3), Var("y")), Var("y")), 0, st0, []) == LexicalSpec.Outcome(Ok(p), st2, []);

    var env: DynamicInterp.Env := map[];
    DynamicProperties.ProjectionOfTuple(fuel, Let("y", Int(3), Var("y")), Var("y"), env, []);
    assert DynamicInterp.Evaluate(fuel, Var("y"), env, []) == DynamicInterp.Outcome(Error(UnboundVariable("y")), []);
  }
}
