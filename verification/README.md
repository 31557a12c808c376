# Rinha evaluator, modelled and verified in Dafny

Rinha is a small expression language. A program arrives as an already parsed tree of
`Term`s: integers, strings, booleans, tuples with `first`/`second`, thirteen binary
operators, `if`, `print`, `let`, anonymous functions, calls and variables. The repository
evaluates that tree directly, and it ships two versions of the evaluator:

* `dist/interpreter.js`. Name tables are mutable JavaScript `Map`s, and a function value
  is a closure holding a reference to the live table it was written in. `let` copies the
  current table, evaluates the value, and then writes the binding into both the current
  table and the copy. `next` runs in the copy. A call evaluates its arguments in the
  caller's table, sets them in a copy of the captured table, and runs the body there.
* `src/interpreter.ts`. Scoping is dynamic, and tuples are lazy pairs of unevaluated
  terms. A function value is its own syntax node. A projection evaluates the chosen
  component in the table current at the projection. A call runs the body in a copy of
  the caller's table. No table is written after it has been shared.

The project models both evaluators over one shared `Term` datatype. Modules:

* `Syntax`: the tree.
* `Errors`: why an evaluation stopped, as an `ErrorKind`. `UnboundVariable`, `NotCallable`,
  `ArityMismatch` and `NotAPair` are the conditions under which the evaluators throw.
  `NotABool`, `BadOperands`, `DivisionByZero` and `NonIntegerQuotient` are inputs the model
  refuses where JavaScript would go on (see "## Left out"). An evaluation returns a `Result`
  that is `Ok`, `Error` or `OutOfFuel`.
* `Numbers`: decimal rendering of integers and the truncating remainder of the host
  language.
* `Operators`: the non-logical operators on scalar operands, shared by both evaluators.
* `Bindings`: setting parameters one at a time.
* `LexicalSpec`: the meaning of `dist/interpreter.js`, written as functions.
  - The mutable tables are an explicit store, a sequence of maps indexed by address.
  - A closure holds the address of the table it captured.
  - Evaluation threads the store and the printed lines through.
* `LexicalInterp`: the same evaluator written imperatively.
  - `NameTable` is a class whose `m` field the methods update in place.
  - `let` and argument binding call `Set` on live tables.
  - Closures hold `NameTable` references.
  - Every method is proved to produce exactly the result, output and tables that
    `LexicalSpec` prescribes. The tables are read through the ghost relation `Refines`.
* `LexicalProperties`: what `dist/interpreter.js` guarantees, proved over `LexicalSpec`.
* `DynamicInterp`: the evaluator of `src/interpreter.ts`, as functions over map values.
  The loop that binds parameters is also given as a method.
* `DynamicProperties`: what `src/interpreter.ts` guarantees.
* `Scoping`: two programs on which the evaluators disagree.

Both evaluators run on a fuel budget, because Rinha programs may not terminate. Fuel is
spent in these places:

* In both evaluators, on entering a function body.
* In `src/interpreter.ts` also on evaluating the selected component of a lazy pair, and
  the components of a pair being printed.

Running out of fuel gives `OutOfFuel`. The `*Monotone` and `FuelIrrelevant` lemmas show
that once the fuel suffices, more fuel changes nothing. `console.log` is modelled as a
sequence of lines that evaluation extends. A thrown error stops the evaluation, and the
lines printed before it remain.

## Model

| member | source | states |
|---|---|---|
| Numbers.IntToString | dist/interpreter.js:76-77 | `value.toString()` on an integer: a non-empty text that starts with `-` exactly when the integer is negative |
| Numbers.NatToStringRoundTrip | dist/interpreter.js:76-77 | reading back the decimal digits of a natural number gives the number |
| Numbers.IntToStringRoundTrip | dist/interpreter.js:76-77 | the text printed for an integer is a numeral, optionally signed, that reads back as the same integer |
| Numbers.IntToStringInjective | dist/interpreter.js:76-77 | distinct integers print as distinct texts |
| Numbers.TruncRem | dist/interpreter.js:61 | `%` truncates toward zero. The remainder is smaller than the divisor in magnitude, has the dividend's sign (or is 0), and recombines with the truncated quotient into the dividend |
| Operators.Text | dist/interpreter.js:57 | the text `+` substitutes for an operand next to a string: an integer's text reads back as that integer, and a string is itself |
| Operators.Apply | dist/interpreter.js:57-67 | never out of fuel. Comparisons yield booleans and succeed exactly on operands of the same kind. `-`, `*`, `/` and `%` yield integers |
| Operators.StrLessByCodeUnits | dist/interpreter.js:64 | strings compare by UTF-16 code units, not by code points: `"\u{10000}" < "\uFFFF"` holds and `"\uFFFF" < "\u{10000}"` is `false` |
| Operators.Utf16Injective | dist/interpreter.js:64 | different strings have different UTF-16 encodings |
| Operators.StrLessIrreflexive | dist/interpreter.js:64 | no string is below itself |
| Operators.StrLessTrichotomy | dist/interpreter.js:64 | of two different strings exactly one is below the other |
| Operators.StrLessTransitive | dist/interpreter.js:64 | string order is transitive |
| Operators.EqualityIsTextEquality | dist/interpreter.js:62-63 | on operands of one kind, `==` holds exactly when the two operands print the same text, and `!=` is its negation |
| Operators.OrderingsAgree | dist/interpreter.js:64-67 | `>` is `<` with the operands swapped, and `>=` is `<=` swapped. `<=` holds exactly when `<` or equality holds. `<` and `>` never both hold |
| Operators.DivMulRoundTrip | dist/interpreter.js:60 | a successful `/` has a non-zero divisor, and its quotient times the divisor is the dividend |
| Operators.RemTruncates | dist/interpreter.js:61 | `x % y` is `x` minus the truncated quotient times `y`, and is never positive for a negative dividend |
| Bindings.Bind | dist/interpreter.js:101-103 | setting the parameters one by one binds exactly the old names plus the parameters |
| Bindings.BindKeepsUnshadowed | dist/interpreter.js:101-103 | a name that is not a parameter keeps its binding or its absence |
| Bindings.BindLastWins | dist/interpreter.js:101-103 | a parameter named more than once is bound to the argument at its last position |
| LexicalSpec.ToPrint | dist/interpreter.js:76-77 | the text `console.log` prints for an integer is a numeral that reads back as that integer |
| LexicalSpec.ApplyOp | dist/interpreter.js:57-67 | a strict operator succeeds only on scalar operands, and yields the scalar `Operators.Apply` computes for them |
| LexicalSpec.Evaluate | dist/interpreter.js:8-54 | evaluation changes only the current table among existing ones, adds tables only at the end, and only extends the output. Every value refers only to existing tables |
| LexicalSpec.DoBinaryOp | dist/interpreter.js:55-71 | the same frame as `Evaluate`: only the current table changes and the output only grows |
| LexicalSpec.ShortCircuitOp | dist/interpreter.js:68-69 | the same frame for `And`/`Or` |
| LexicalSpec.StrictOp | dist/interpreter.js:57-67 | the same frame for the other operators |
| LexicalSpec.CallFunction | dist/interpreter.js:91-95 | the same frame as `Evaluate`, for a call |
| LexicalSpec.ApplyClosure | dist/interpreter.js:96-100 | the same frame as `Evaluate`, after the captured table is copied |
| LexicalSpec.RunClosure | dist/interpreter.js:101-104 | only the caller's table and the callee's new table change among existing ones |
| LexicalSpec.BindArguments | dist/interpreter.js:101-103 | on success there is one value per argument, and the callee's table is its old contents with the parameters set to those values in order |
| LexicalSpec.ValidStoreAppend | dist/interpreter.js:97 | copying a table to a new address keeps every closure pointing at an existing table |
| LexicalSpec.ValidStoreSet | dist/interpreter.js:38-39 | setting a name to a value that refers to existing tables keeps the store well formed |
| LexicalSpec.Interpretate | dist/interpreter.js:5-7 | a program runs in one empty table, and its value refers only to tables that exist |
| LexicalInterp.NameTable.constructor | dist/interpreter.js:36 | `new Map(t)`: a table holding exactly the given bindings |
| LexicalInterp.NameTable.Set | dist/interpreter.js:38-39 | `map.set(x, v)` rebinds `x` and nothing else, and the store entry for that table changes the same way |
| LexicalInterp.Evaluate | dist/interpreter.js:8-54 | writes only the current table and tables it allocates. Result, output and every table equal what `LexicalSpec.Evaluate` prescribes |
| LexicalInterp.EvaluateTuple | dist/interpreter.js:15-16 | both components, first then second, as `LexicalSpec.Evaluate` prescribes for `Tuple` |
| LexicalInterp.EvaluateProjection | dist/interpreter.js:17-24 | the selected component of the pair, or `NotAPair`, as `LexicalSpec.Evaluate` prescribes for `First` and `Second` |
| LexicalInterp.EvaluatePrint | dist/interpreter.js:31-34 | the value unchanged and one more line with its text, as `LexicalSpec` prescribes |
| LexicalInterp.EvaluateIf | dist/interpreter.js:27-30 | the condition, then only the selected branch, as `LexicalSpec` prescribes |
| LexicalInterp.EvaluateLet | dist/interpreter.js:35-40 | copy, value in the current table, binding set in both tables, `next` in the copy, as `LexicalSpec` prescribes |
| LexicalInterp.DoBinaryOp | dist/interpreter.js:55-71 | the operator's outcome as `LexicalSpec.DoBinaryOp` prescribes |
| LexicalInterp.ShortCircuitOp | dist/interpreter.js:68-69 | `And`/`Or` evaluate the right operand only when the left one leaves the result open, as `LexicalSpec` prescribes |
| LexicalInterp.StrictOp | dist/interpreter.js:57-67 | both operands, left first, then the operator, as `LexicalSpec.StrictOp` prescribes |
| LexicalInterp.CallFunction | dist/interpreter.js:91-95 | a callee that is not a closure fails, and a closure is applied, as `LexicalSpec.CallFunction` prescribes |
| LexicalInterp.ApplyClosure | dist/interpreter.js:96-100 | the captured table is copied and the arity checked before any argument runs, as `LexicalSpec` prescribes |
| LexicalInterp.CopyTable | dist/interpreter.js:97 | a fresh table with the captured table's bindings, at the next free address |
| LexicalInterp.RunClosure | dist/interpreter.js:101-104 | the arguments are bound, then the body runs in the callee's table with one unit of fuel less, as `LexicalSpec` prescribes |
| LexicalInterp.BindArguments | dist/interpreter.js:101-103 | the loop ends with the failure, output and tables of `LexicalSpec.BindArguments` |
| LexicalInterp.BindArgument | dist/interpreter.js:102 | one iteration: argument `i` is evaluated in the caller's table and set under parameter `i` in the callee's table. Otherwise it stops with the failure `LexicalSpec` gives |
| LexicalInterp.Interpretate | dist/interpreter.js:5-7 | the result and output of `LexicalSpec.Interpretate` |
| LexicalProperties.ProjectionOfTuple | dist/interpreter.js:15-24 | `first`/`second` of a tuple evaluate both components in order and yield the selected value. A failing second component fails either projection |
| LexicalProperties.IfEvaluatesOneBranch | dist/interpreter.js:27-30 | after a boolean condition, the outcome is that of the selected branch alone |
| LexicalProperties.PrintAppendsOneLine | dist/interpreter.js:31-34 | `print` yields its argument's value and store, plus exactly one line with the value's text |
| LexicalProperties.PrintNestedPair | dist/interpreter.js:72-87 | a nested pair prints as `((1, -20), (a, false))`, and a closure as `<#closure>`. Its helper `NegativeTwentyText` states that -20 prints as `-20` |
| LexicalProperties.LetRunsNextInCopy | dist/interpreter.js:35-40 | `next` runs in a new table holding the caller's bindings from before the `let` plus the new one. The caller's table also gets the binding |
| LexicalProperties.LetUpdatesCaller | dist/interpreter.js:38 | after the `let`, including `next`, the caller's table holds the binding |
| LexicalProperties.RecursiveBinding | dist/interpreter.js:37-42 | `let f = fn ...` binds `f`, in the very table the closure captured, to that closure. So the body can call `f` |
| LexicalProperties.CallSeesCapturedBinding | dist/interpreter.js:91-104 | `let x = 1; let f = fn () => x; let x = 2; f()` yields 1 and prints nothing |
| LexicalProperties.CallSeesCallerArgument | dist/interpreter.js:101-104 | `let f = fn (x) => x; let y = 5; f(y)` yields 5 and prints nothing: the argument `y` is read in the caller's table, although the captured table has no `y`. Its helpers `ArgumentLet` and `CallWithCallerArgument` state the two halves of that run |
| LexicalProperties.RunClosureEntersBody | dist/interpreter.js:104 | once the arguments are bound, a call is its body run with one unit of fuel less in the callee's table |
| LexicalProperties.CallBindsInCopyOfCaptured | dist/interpreter.js:96-104 | the body runs in a copy of the captured table. There every parameter is set (a repeated one to its last argument), and every other name is bound exactly as in the captured table. A caller-only binding is absent |
| LexicalProperties.ArgumentEvaluatedInCaller | dist/interpreter.js:101-102 | an argument is evaluated in the caller's table, not in the callee's: on success the first value bound is what the first argument evaluates to in the caller's table, from the store and output the binding started with |
| LexicalProperties.ArityCheckedFirst | dist/interpreter.js:96-100 | a wrong argument count fails with `ArityMismatch(expected, got)` before any argument is evaluated or printed |
| LexicalProperties.ApplyClosureCopiesCaptured | dist/interpreter.js:97 | with the right arity, the call proceeds in a copy of the captured table at the next free address |
| LexicalProperties.CallKeepsCapturedTable | dist/interpreter.js:97-103 | a call leaves the captured table unchanged, unless that table is the caller's own |
| LexicalProperties.NotCallableFailsFirst | dist/interpreter.js:92-95 | a callee that is not a closure fails with `NotCallable` before any argument is evaluated |
| LexicalProperties.UnboundVariableFails | dist/interpreter.js:45-52 | a name absent from the current table fails with `UnboundVariable(name)` and changes nothing |
| LexicalProperties.ShortCircuit | dist/interpreter.js:68-69 | `false && e` and `true \|\| e` are decided without evaluating `e` |
| LexicalProperties.EvaluateMonotone | dist/interpreter.js:8-54 | an evaluation that did not run out of fuel gives the same outcome with one more unit of fuel |
| LexicalProperties.DoBinaryOpMonotone | dist/interpreter.js:55-71 | the same for an operator |
| LexicalProperties.ShortCircuitMonotone | dist/interpreter.js:68-69 | the same for `And`/`Or` |
| LexicalProperties.StrictOpMonotone | dist/interpreter.js:57-67 | the same for the other operators |
| LexicalProperties.CallFunctionMonotone | dist/interpreter.js:91-95 | the same for a call |
| LexicalProperties.ApplyClosureMonotone | dist/interpreter.js:96-100 | the same for applying a closure |
| LexicalProperties.RunClosureMonotone | dist/interpreter.js:101-104 | the same for binding the arguments and running the body |
| LexicalProperties.RunBodyMonotone | dist/interpreter.js:104 | the same for the body, once the bound arguments agree |
| LexicalProperties.BindArgumentsMonotone | dist/interpreter.js:101-103 | the same for the argument loop |
| LexicalProperties.FuelIrrelevant | dist/interpreter.js:8-54 | any two sufficient fuels give the same outcome |
| DynamicInterp.ApplyOp | src/interpreter.ts:70-80 | succeeds exactly on scalar operands the operator is defined on, and yields the scalar `Operators.Apply` computes |
| DynamicInterp.Interpretate | src/interpreter.ts:18-20 | a program is evaluated in an empty table with no output yet, so a program that is only a name fails with `UnboundVariable` and prints nothing |
| DynamicInterp.Evaluate | src/interpreter.ts:22-65 | evaluation only extends the output |
| DynamicInterp.Project | src/interpreter.ts:31-38 | a projection only extends the output |
| DynamicInterp.EvaluateIf | src/interpreter.ts:41-44 | an `if` only extends the output |
| DynamicInterp.EvaluatePrint | src/interpreter.ts:45-48 | a `print` only extends the output |
| DynamicInterp.EvaluateLet | src/interpreter.ts:49-52 | a `let` only extends the output |
| DynamicInterp.DoBinaryOp | src/interpreter.ts:68-84 | an operator only extends the output |
| DynamicInterp.ShortCircuitOp | src/interpreter.ts:81-82 | `And`/`Or` only extend the output |
| DynamicInterp.StrictOp | src/interpreter.ts:70-80 | other operators only extend the output |
| DynamicInterp.ToPrint | src/interpreter.ts:86-104 | printing a scalar or a function evaluates nothing and succeeds. Printing a pair only extends the output |
| DynamicInterp.CallFunction | src/interpreter.ts:110-124 | a call only extends the output |
| DynamicInterp.BindArguments | src/interpreter.ts:119-122 | on success the table binds the old names plus the remaining parameters. Every name that is not a remaining parameter keeps its binding |
| DynamicInterp.ArgumentValues | src/interpreter.ts:120-121 | the arguments evaluated left to right in the caller's table: on success one value per argument, the first being what the first argument evaluates to there |
| DynamicInterp.BindParameters | src/interpreter.ts:119-122 | the `for` loop ends with the failure or table, and the output, of `BindArguments` |
| DynamicProperties.TupleIsLazy | src/interpreter.ts:29-30 | building a tuple evaluates and prints nothing |
| DynamicProperties.ProjectionOfTuple | src/interpreter.ts:31-38 | `first`/`second` of a tuple literal is the selected component alone, in the current table, with one unit of fuel less |
| DynamicProperties.ProjectionSeesLaterBinding | src/interpreter.ts:31-38 | `let p = (x, 0); let x = 7; first(p)` yields 7 |
| DynamicProperties.SelfProjectionDiverges | src/interpreter.ts:35-38 | `let p = (first(p), 0); first(p)` runs out of any fuel |
| DynamicProperties.IfEvaluatesOneBranch | src/interpreter.ts:41-44 | after a boolean condition, the outcome is that of the selected branch alone |
| DynamicProperties.ShortCircuit | src/interpreter.ts:81-82 | `false && e` and `true \|\| e` are decided without evaluating `e` |
| DynamicProperties.NotCallableFailsFirst | src/interpreter.ts:111-114 | a callee that is not a function fails with `NotCallable` before any argument is evaluated |
| DynamicProperties.ArityCheckedFirst | src/interpreter.ts:115-117 | a wrong argument count fails with `ArityMismatch(expected, got)` before any argument is evaluated |
| DynamicProperties.CallSeesCallerBindings | src/interpreter.ts:119-123 | the body runs in the caller's table extended with the parameters. Every caller binding that no parameter shadows is visible there unchanged, and each parameter not repeated later holds its own argument's value, evaluated in the caller's table |
| DynamicProperties.ParametersTakeArgumentValues | src/interpreter.ts:119-122 | after a successful binding, each parameter not repeated later is bound to the value of the argument at its position, as `ArgumentValues` computes it |
| DynamicProperties.BindArgumentsIsBind | src/interpreter.ts:119-122 | binding the arguments one by one gives the table obtained by evaluating all of them in the caller's table and then setting each value under its parameter in order. The output is the same, and so is the failure if there is one |
| DynamicProperties.CallSeesShadowingBinding | src/interpreter.ts:119-123 | `let x = 1; let f = fn () => x; let x = 2; f()` yields 2 |
| DynamicProperties.PrintAppendsOneLine | src/interpreter.ts:45-48 | `print` yields its argument's value, then adds one line after whatever printing the text caused. For a non-pair the only new line is the value's text |
| DynamicProperties.PrintTuple | src/interpreter.ts:96-99 | printing a tuple evaluates both components in order, then adds the line `([object Object], [object Object])` |
| DynamicProperties.EvaluateMonotone | src/interpreter.ts:22-65 | an evaluation that did not run out of fuel gives the same outcome with one more unit of fuel |
| DynamicProperties.ProjectMonotone | src/interpreter.ts:31-38 | the same for a projection |
| DynamicProperties.EvaluateIfMonotone | src/interpreter.ts:41-44 | the same for `if` |
| DynamicProperties.EvaluatePrintMonotone | src/interpreter.ts:45-48 | the same for `print` |
| DynamicProperties.EvaluateLetMonotone | src/interpreter.ts:49-52 | the same for `let` |
| DynamicProperties.DoBinaryOpMonotone | src/interpreter.ts:68-84 | the same for an operator |
| DynamicProperties.ShortCircuitMonotone | src/interpreter.ts:81-82 | the same for `And`/`Or` |
| DynamicProperties.StrictOpMonotone | src/interpreter.ts:70-80 | the same for the other operators |
| DynamicProperties.ToPrintMonotone | src/interpreter.ts:86-104 | the same for the text of a value |
| DynamicProperties.CallFunctionMonotone | src/interpreter.ts:110-124 | the same for a call |
| DynamicProperties.BindArgumentsMonotone | src/interpreter.ts:119-122 | the same for the argument loop |
| DynamicProperties.FuelIrrelevant | src/interpreter.ts:22-65 | any two sufficient fuels give the same outcome |
| DynamicProperties.InterpretateFuelIrrelevant | src/interpreter.ts:18-20 | a whole program gives the same value and output for any two sufficient fuels |
| Scoping.ShadowingDiffers | src/interpreter.ts:119-123 | `let x = 1; let f = fn () => x; let x = 2; f()` yields 1 in `dist/interpreter.js` and 2 here |
| Scoping.LetInTupleDiffers | dist/interpreter.js:35-39 | `second((let y = 3; y, y))` yields 3 in `dist/interpreter.js`, where the `let` writes `y` into the table the second component reads. In `src/interpreter.ts` it fails with `UnboundVariable("y")` |

## Left out

- JavaScript number semantics. Integers are unbounded. `/` succeeds only when the quotient is exact: a non-integer quotient gives `NonIntegerQuotient` and a zero divisor gives `DivisionByZero`, where JavaScript yields fractions, `Infinity` or `NaN`. `%` with a zero divisor gives `DivisionByZero` where JavaScript yields `NaN`. Precision loss beyond 2^53 is not modelled. JavaScript's `toString` prints an integer of magnitude 10^21 or more in exponent form (`1e+21`), where `Numbers.IntToString` prints every digit.
- Numbers.IntToString: prints all decimal digits of every integer. It does not reproduce JavaScript's exponent form for magnitudes of 10^21 and above, because programs are modelled on unbounded integers, not on doubles.
- Loose operator coercions. Operators are defined on integers, strings and booleans of matching kinds, and `+` with a string operand concatenates the other operand's text. Everything else is `BadOperands`. This covers JavaScript's `true + 1`, `==` across kinds, and `==` on pairs or closures, which compares references.
- Strings are sequences of Unicode scalar values. `<` and its kin compare their UTF-16 encodings, as JavaScript does. JavaScript strings may also hold lone surrogates, which the model cannot represent.
- Truthiness. A condition, or a left operand of `&&`/`||`, must be a boolean; anything else is `NotABool`. JavaScript tests truthiness instead. The right operand's value is yielded unchanged, as `&&`/`||` do.
- `first`/`second` on a non-pair fail with `NotAPair`. In JavaScript, destructuring a string yields its first two characters, and destructuring any other value throws. In `dist/interpreter.js`, `first("ab")` therefore yields `"a"`. In `src/interpreter.ts` the character `"a"` is passed back to `evaluate` as a term, matches no case and yields `undefined`. The caller's `.ret` then throws, except inside `to_print`'s template, where `print((first("ab"), 0))` prints `(undefined, [object Object])`.
- The text of thrown errors is not modelled. The `ErrorKind` records the kind of failure, the unbound name, and the expected and actual argument counts.
- Source locations in the tree, file reading and `JSON.parse` (`dist/main.js`, `src/main.ts`), and the transpilers are I/O or foreign-library code and are outside this model.
- Host stack exhaustion on deep recursion is not modelled.
- Fuel bound: divergence appears as `OutOfFuel`. How much fuel a program needs is specific to the model, and nothing depends on it: the fuel lemmas show that any sufficient amount gives the same outcome.
- `DynamicInterp.Interpretate` and `LexicalSpec.Interpretate` return the output alongside the result. The source's `interpretate` returns only the value; the lines go to the console.
- The `function`/default branch of `to_print` in `src/interpreter.ts` (lines 100-102) cannot be reached, because no value has JavaScript type `function` there. It has no counterpart.
- DynamicInterp.Evaluate and its per-case functions state only that output grows. Their meaning is given by their definitions and by the `DynamicProperties` lemmas.
