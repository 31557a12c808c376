/** Binding call arguments to parameters, one `set` per parameter in order. */
module Bindings {

  /** The table `m` after setting `ps[0] := vs[0]`, then `ps[1] := vs[1]`, and so on. */
  function Bind<V>(m: map<string, V>, ps: seq<string>, vs: seq<V>): (r: map<string, V>)
    requires |ps| == |vs|
    ensures r.Keys == m.Keys + set p | p in ps
    decreases |ps|
  {
    if ps == [] then m else Bind(m[ps[0] := vs[0]], ps[1..], vs[1..])
  }

  /** A name that is not a parameter keeps whatever binding the table had. */
  lemma {:induction false} BindKeepsUnshadowed<V>(m: map<string, V>, ps: seq<string>, vs: seq<V>, y: string)
    requires |ps| == |vs| && y !in ps
    ensures y in Bind(m, ps, vs) <==> y in m
    ensures y in m ==> Bind(m, ps, vs)[y] == m[y]
    decreases |ps|
  {
    if ps != [] {
      BindKeepsUnshadowed(m[ps[0] := vs[0]], ps[1..], vs[1..], y);
    }
  }

  /** A parameter is bound to the argument at its last occurrence in the parameter list. */
  lemma {:induction false} BindLastWins<V>(m: map<string, V>, ps: seq<string>, vs: seq<V>, j: nat)
    requires |ps| == |vs| && j < |ps| && ps[j] !in ps[j + 1..]
    ensures Bind(m, ps, vs)[ps[j]] == vs[j]
    decreases j
  {
    if j == 0 {
      assert ps[1..] == ps[j + 1..];
      BindKeepsUnshadowed(m[ps[0] := vs[0]], ps[1..], vs[1..], ps[0]);
    } else {
      assert ps[1..][j..] == ps[j + 1..];
      BindLastWins(m[ps[0] := vs[0]], ps[1..], vs[1..], j - 1);
    }
  }
}
