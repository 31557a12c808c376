/** Integer arithmetic as the host language performs it on the values the model admits:
    decimal rendering (`Number.prototype.toString`) and the truncating remainder `%`. */
module Numbers {

  function DigitChar(d: nat): (c: char)
    requires d < 10
    ensures '0' <= c <= '9'
  {
    ('0' as int + d) as char
  }

  function DigitValue(c: char): (d: nat)
    requires '0' <= c <= '9'
    ensures d < 10 && DigitChar(d) == c
  {
    (c as int - '0' as int)
  }

  predicate IsDigits(s: string) {
    forall i :: 0 <= i < |s| ==> '0' <= s[i] <= '9'
  }

  /** Decimal digits of a natural number, most significant first, without leading zeros. */
  function NatToString(n: nat): (s: string)
    ensures |s| >= 1 && IsDigits(s)
    ensures s[0] == '0' ==> n == 0
  {
    if n < 10 then [DigitChar(n)] else NatToString(n / 10) + [DigitChar(n % 10)]
  }

  /** The decimal text of an integer: a minus sign for negatives, then the digits. */
  function IntToString(n: int): (s: string)
    ensures |s| >= 1
    ensures (s[0] == '-') <==> n < 0
  {
    if n < 0 then "-" + NatToString(-n) else NatToString(n)
  }

  /** Reads back a string of decimal digits. */
  function ParseDigits(s: string): (n: nat)
    requires IsDigits(s)
  {
    if s == [] then 0 else 10 * ParseDigits(s[..|s| - 1]) + DigitValue(s[|s| - 1])
  }

  /** An optionally signed decimal numeral. */
  predicate IsNumeral(s: string) {
    |s| >= 1 && (s[0] == '-' || '0' <= s[0] <= '9') && IsDigits(s[1..])
  }

  /** Reads back an optionally signed decimal numeral. */
  function ParseInt(s: string): (n: int)
    requires IsNumeral(s)
  {
    if s[0] == '-' then -(ParseDigits(s[1..]) as int) else ParseDigits(s)
  }

  lemma {:induction false} NatToStringRoundTrip(n: nat)
    ensures ParseDigits(NatToString(n)) == n
  {
    if n >= 10 {
      var s, q, d := NatToString(n), n / 10, n % 10;
      DivModNat(n, 10);
      NatToStringRoundTrip(q);
      assert s == NatToString(q) + [DigitChar(d)];
      assert s[..|s| - 1] == NatToString(q);
      assert DigitValue(s[|s| - 1]) == d;
    }
  }

  /** Rendering an integer loses nothing: the numeral reads back as the same integer. */
  lemma IntToStringRoundTrip(n: int)
    ensures IsNumeral(IntToString(n)) && ParseInt(IntToString(n)) == n
  {
    var s := IntToString(n);
    var d := NatToString(Abs(n));
    NatToStringRoundTrip(Abs(n));
    if n < 0 {
      assert s == "-" + d && s[1..] == d;
    } else {
      assert s == d && s[0] != '-';
      assert IsDigits(s[1..]) by {
        forall i | 0 <= i < |s| - 1 ensures '0' <= s[1..][i] <= '9' {
          assert s[1..][i] == s[i + 1];
        }
      }
    }
  }

  /** Distinct integers render as distinct texts. */
  lemma IntToStringInjective(x: int, y: int)
    requires IntToString(x) == IntToString(y)
    ensures x == y
  {
    IntToStringRoundTrip(x);
    IntToStringRoundTrip(y);
  }

  function Abs(x: int): nat { if x < 0 then -x else x }

  /** The quotient of `x / y` rounded toward zero. */
  function TruncQuot(x: int, y: int): int
    requires y != 0
  {
    if (x < 0) == (y < 0) then Abs(x) / Abs(y) else -(Abs(x) / Abs(y))
  }

  /** Euclidean division of naturals, as Dafny defines it. */
  lemma DivModNat(a: nat, b: nat)
    requires b > 0
    ensures a == (a / b) * b + a % b && 0 <= a % b < b
  {}
  /** The remainder of `x % y` on integers in the host language: it truncates toward zero, so
      the remainder takes the sign of the dividend (unlike Dafny's Euclidean `%`). */
  function TruncRem(x: int, y: int): (r: int)
    requires y != 0
    ensures Abs(r) < Abs(y)
    ensures r == 0 || (r < 0 <==> x < 0)
    ensures x == TruncQuot(x, y) * y + r
  {
    var ax, ay := Abs(x), Abs(y);
    var q, m := ax / ay, ax % ay;
    DivModNat(ax, ay);
    if x >= 0 then
      if y > 0 then m else
      assert q * ay == (-q) * y;
      m
    else
      if y > 0 then 
      assert x == -(q * y) - m;
      -m
      else
      assert q * ay == -(q * y);
      -m
  }
}
