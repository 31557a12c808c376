/** The ways an evaluation can stop without a value. */
module Errors {
  import opened Syntax

  /** Why an evaluation stopped. The first four kinds are the conditions under which the
      interpreters throw. The other four are inputs the model refuses where the host language
      would coerce, test truthiness, or produce `NaN`, `Infinity` or a fraction instead. */
  datatype ErrorKind =
    | UnboundVariable(name: string)          // a `Var` whose name is not in the table
    | NotCallable                            // the callee of a `Call` is not a function value
    | ArityMismatch(expected: nat, got: nat) // argument count differs from the parameter count
    | NotAPair                               // `First`/`Second` of something that is not a pair
    | NotABool                               // a condition or logical operand that is not a boolean
    | BadOperands(op: BinaryOp)              // an operator applied to operands it is not defined on here
    | DivisionByZero                         // `Div` or `Rem` with a zero divisor
    | NonIntegerQuotient                     // `Div` whose exact quotient is not an integer

  /** The result of an evaluation: a value, an error, or exhaustion of the step budget
      that stands in for a program that does not terminate. */
  datatype Result<T> = Ok(value: T) | Error(kind: ErrorKind) | OutOfFuel
  {
    /** The same failure at another value type. */
    function Propagate<U>(): (r: Result<U>)
      requires !Ok?
      ensures r.Error? == Error? && (Error? ==> r.kind == kind)
    {
      if Error? then Error(kind) else OutOfFuel
    }
  }
}
