/** The abstract syntax tree of a Rinha program, as delivered by the external parser.
    Source locations are not modelled. */
module Syntax {

  /** The thirteen binary operators of the language. */
  datatype BinaryOp =
    | Add | Sub | Mul | Div | Rem
    | Eq | Neq | Lt | Gt | Lte | Gte
    | And | Or

  /** One node of the tree. A parameter or a `Let` name is kept as its text. */
  datatype Term =
    | Int(n: int)
    | Str(s: string)
    | Bool(b: bool)
    | Tuple(first: Term, second: Term)
    | First(value: Term)
    | Second(value: Term)
    | Binary(lhs: Term, op: BinaryOp, rhs: Term)
    | If(condition: Term, consequent: Term, otherwise: Term)
    | Print(value: Term)
    | Let(name: string, value: Term, next: Term)
    | Function(parameters: seq<string>, body: Term)
    | Call(callee: Term, arguments: seq<Term>)
    | Var(text: string)
}
