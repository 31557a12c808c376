/** The binary operators on scalar operands, shared by both interpreters. The host language
    applies `+`, `-`, `<`, `==`, ... to whatever it is given; the model defines them on
    integers, strings and booleans of matching kinds and reports every other combination. */
module Operators {
  import opened Syntax
  import opened Errors
  import opened Numbers

  /** A scalar operand: the values an operator is defined on. */
  datatype Prim = PInt(i: int) | PStr(s: string) | PBool(b: bool)

  /** The text the host language substitutes for a scalar concatenated to a string. */
  function Text(p: Prim): (r: string)
    ensures p.PInt? ==> IsNumeral(r) && ParseInt(r) == p.i
    ensures p.PStr? ==> r == p.s
  {
    match p
    case PInt(i) => IntToStringRoundTrip(i); IntToString(i)
    case PStr(s) => s
    case PBool(b) => if b then "true" else "false"
  }

  /** `And` and `Or` are evaluated lazily by the interpreters and never reach `Apply`. */
  predicate IsLogical(op: BinaryOp) {
    op == And || op == Or
  }

  predicate SameKind(x: Prim, y: Prim) {
    (x.PInt? && y.PInt?) || (x.PStr? && y.PStr?) || (x.PBool? && y.PBool?)
  }

  /** The UTF-16 code units of a character: the character itself below U+10000, otherwise a
      high surrogate followed by a low surrogate. */
  function CodeUnits(c: char): (u: seq<int>)
    ensures 1 <= |u| <= 2
    ensures |u| == 2 <==> 0xD800 <= u[0] < 0xDC00
  {
    var n := c as int;
    if n < 0x1_0000 then [n]
    else [0xD800 + (n - 0x1_0000) / 0x400, 0xDC00 + (n - 0x1_0000) % 0x400]
  }

  /** A string as the host language stores it: a sequence of UTF-16 code units. */
  function Utf16(s: string): seq<int> {
    if s == [] then [] else CodeUnits(s[0]) + Utf16(s[1..])
  }

  /** Lexicographic order on code-unit sequences; a proper prefix comes first. */
  predicate UnitsLess(a: seq<int>, b: seq<int>) {
    |b| > 0 && (|a| == 0 || a[0] < b[0] || (a[0] == b[0] && UnitsLess(a[1..], b[1..])))
  }

  /** `a < b` on strings: code unit by code unit, as the host language compares them. */
  predicate StrLess(a: string, b: string)
  {
    UnitsLess(Utf16(a), Utf16(b))
  }

  /** `x < y` on operands of the same kind; `false < true` as the host orders booleans. */
  predicate Before(x: Prim, y: Prim)
    requires SameKind(x, y)
  {
    match x
    case PInt(i) => i < y.i
    case PStr(s) => StrLess(s, y.s)
    case PBool(b) => !b && y.b
  }

  /** `x op y` for a non-logical operator. */
  function Apply(op: BinaryOp, x: Prim, y: Prim): (r: Result<Prim>)
    requires !IsLogical(op)
    ensures r.OutOfFuel? == false
    ensures r.Ok? && op in {Eq, Neq, Lt, Gt, Lte, Gte} ==> r.value.PBool?
    ensures r.Ok? && op in {Sub, Mul, Div, Rem} ==> r.value.PInt?
    ensures op in {Eq, Neq, Lt, Gt, Lte, Gte} ==> (r.Ok? <==> SameKind(x, y))
  {
    var ints := x.PInt? && y.PInt?;
    match op
    case Add =>
      if ints then Ok(PInt(x.i + y.i))
      else if x.PStr? || y.PStr? then Ok(PStr(Text(x) + Text(y)))
      else Error(BadOperands(op))
    case Sub => if ints then Ok(PInt(x.i - y.i)) else Error(BadOperands(op))
    case Mul => if ints then Ok(PInt(x.i * y.i)) else Error(BadOperands(op))
    case Div =>
      if !ints then Error(BadOperands(op))
      else if y.i == 0 then Error(DivisionByZero)
      else if TruncRem(x.i, y.i) != 0 then Error(NonIntegerQuotient)
      else Ok(PInt(TruncQuot(x.i, y.i)))
    case Rem =>
      if !ints then Error(BadOperands(op))
      else if y.i == 0 then Error(DivisionByZero)
      else Ok(PInt(TruncRem(x.i, y.i)))
    case Eq => if SameKind(x, y) then Ok(PBool(x == y)) else Error(BadOperands(op))
    case Neq => if SameKind(x, y) then Ok(PBool(x != y)) else Error(BadOperands(op))
    case Lt => if SameKind(x, y) then Ok(PBool(Before(x, y))) else Error(BadOperands(op))
    case Gt => if SameKind(x, y) then Ok(PBool(Before(y, x))) else Error(BadOperands(op))
    case Lte => if SameKind(x, y) then Ok(PBool(!Before(y, x))) else Error(BadOperands(op))
    case Gte => if SameKind(x, y) then Ok(PBool(!Before(x, y))) else Error(BadOperands(op))
  }

  lemma {:induction false} UnitsLessIrreflexive(a: seq<int>)
    ensures !UnitsLess(a, a)
  {
    if |a| > 0 {
      UnitsLessIrreflexive(a[1..]);
    }
  }

  lemma {:induction false} UnitsLessTrichotomy(a: seq<int>, b: seq<int>)
    ensures a == b || UnitsLess(a, b) || UnitsLess(b, a)
    ensures !(UnitsLess(a, b) && UnitsLess(b, a))
  {
    if |a| > 0 && |b| > 0 && a[0] == b[0] {
      UnitsLessTrichotomy(a[1..], b[1..]);
      if a[1..] == b[1..] {
        assert a == [a[0]] + a[1..] && b == [b[0]] + b[1..];
      }
    }
  }

  lemma {:induction false} UnitsLessTransitive(a: seq<int>, b: seq<int>, c: seq<int>)
    requires UnitsLess(a, b) && UnitsLess(b, c)
    ensures UnitsLess(a, c)
  {
    if |a| > 0 && a[0] == b[0] && b[0] == c[0] {
      UnitsLessTransitive(a[1..], b[1..], c[1..]);
    }
  }

  lemma CodeUnitsInjective(c: char, d: char)
    requires CodeUnits(c) == CodeUnits(d)
    ensures c == d
  {
    var m, n := c as int, d as int;
    if m >= 0x1_0000 {
      assert m == 0x1_0000 + (CodeUnits(c)[0] - 0xD800) * 0x400 + (CodeUnits(c)[1] - 0xDC00);
      assert n == 0x1_0000 + (CodeUnits(d)[0] - 0xD800) * 0x400 + (CodeUnits(d)[1] - 0xDC00);
    }
  }

  /** Different strings have different UTF-16 encodings: the first unit of a character tells
      whether a second one follows. */
  lemma {:induction false} Utf16Injective(a: string, b: string)
    requires Utf16(a) == Utf16(b)
    ensures a == b
  {
    if a != [] && b != [] {
      var ua, ub, u := CodeUnits(a[0]), CodeUnits(b[0]), Utf16(a);
      assert u[0] == ua[0] && u[0] == ub[0];
      assert ua == u[..|ua|] && ub == u[..|ub|];
      CodeUnitsInjective(a[0], b[0]);
      assert Utf16(a[1..]) == u[|ua|..] == Utf16(b[1..]);
      Utf16Injective(a[1..], b[1..]);
      assert a == [a[0]] + a[1..] && b == [b[0]] + b[1..];
    }
  }

  lemma StrLessIrreflexive(a: string)
    ensures !StrLess(a, a)
  {
    UnitsLessIrreflexive(Utf16(a));
  }

  /** Any two distinct strings are ordered one way or the other, and never both ways. */
  lemma StrLessTrichotomy(a: string, b: string)
    ensures a == b || StrLess(a, b) || StrLess(b, a)
    ensures !(StrLess(a, b) && StrLess(b, a))
  {
    UnitsLessTrichotomy(Utf16(a), Utf16(b));
    if Utf16(a) == Utf16(b) {
      Utf16Injective(a, b);
    }
  }

  lemma StrLessTransitive(a: string, b: string, c: string)
    requires StrLess(a, b) && StrLess(b, c)
    ensures StrLess(a, c)
  {
    UnitsLessTransitive(Utf16(a), Utf16(b), Utf16(c));
  }

  /** The order is not by code point: U+FFFF is a single unit, while U+10000 starts with the
      high surrogate 0xD800, so U+10000 comes first. */
  lemma StrLessByCodeUnits()
    ensures StrLess("\U{10000}", "\U{FFFF}") && !StrLess("\U{FFFF}", "\U{10000}")
    ensures Apply(Lt, PStr("\U{FFFF}"), PStr("\U{10000}")) == Ok(PBool(false))
  {
    assert Utf16("\U{10000}") == [0xD800, 0xDC00];
    assert Utf16("\U{FFFF}") == [0xFFFF];
  }

  /** On operands of one kind, `==` holds exactly when the two operands print the same text,
      and `!=` is its negation. */
  lemma EqualityIsTextEquality(x: Prim, y: Prim)
    requires SameKind(x, y)
    ensures Apply(Eq, x, y) == Ok(PBool(Text(x) == Text(y)))
    ensures Apply(Neq, x, y) == Ok(PBool(Text(x) != Text(y)))
  {
    if x.PInt? && Text(x) == Text(y) {
      IntToStringInjective(x.i, y.i);
    }
  }

  /** The four orderings agree with each other: `>` is `<` flipped, `<=` is `<` or `==`,
      and `>=` is `<=` flipped. */
  lemma OrderingsAgree(x: Prim, y: Prim)
    requires SameKind(x, y)
    ensures Apply(Gt, x, y) == Apply(Lt, y, x)
    ensures Apply(Gte, x, y) == Apply(Lte, y, x)
    ensures Apply(Lte, x, y).value.b <==> Apply(Lt, x, y).value.b || x == y
    ensures !(Apply(Lt, x, y).value.b && Apply(Gt, x, y).value.b)
  {
    if x.PStr? {
      StrLessTrichotomy(x.s, y.s);
    }
  }

  /** `Div` succeeds only on exact quotients, so multiplying back restores the dividend. */
  lemma DivMulRoundTrip(x: int, y: int, q: int)
    requires Apply(Div, PInt(x), PInt(y)) == Ok(PInt(q))
    ensures y != 0 && q * y == x
  {
  }

  /** `Rem` takes the sign of the dividend and stays below the divisor in magnitude. */
  lemma RemTruncates(x: int, y: int)
    requires y != 0
    ensures Apply(Rem, PInt(x), PInt(y)).value.i == x - TruncQuot(x, y) * y
    ensures x < 0 ==> Apply(Rem, PInt(x), PInt(y)).value.i <= 0
  {
  }
}
