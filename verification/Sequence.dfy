/** Sequences of numbers below a bound, none of them twice: the threads of a queue, the cells of a list. */
module Sequences {
  ghost predicate Distinct(q: seq<int>, n: nat)
  {
    && (forall i | 0 <= i < |q| :: 0 <= q[i] < n)
    && forall i, j | 0 <= i < j < |q| :: q[i] != q[j]
  }

  function Without(q: seq<int>, i: nat): seq<int>
    requires i < |q|
  {
    q[..i] + q[i + 1..]
  }

  lemma WithoutDistinct(q: seq<int>, n: nat, i: nat)
    requires Distinct(q, n) && i < |q|
    ensures Distinct(Without(q, i), n)
    ensures forall t :: t in Without(q, i) <==> t in q && t != q[i]
  {
    var r := Without(q, i);
    forall t ensures t in r <==> t in q && t != q[i] {
      if t in q && t != q[i] {
        var k :| 0 <= k < |q| && q[k] == t;
        assert t == r[if k < i then k else k - 1];
      }
    }
  }
}
