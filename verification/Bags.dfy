/** Joins on bags of rows, in row order: what FROM, JOIN, LEFT JOIN and WHERE make of sequences. */
module Bags {
  import opened Outcomes
  import opened Sql

  /** The rows of `ys` that pair up with `x`. */
  function Matching<A, B>(x: A, ys: seq<B>, on: (A, B) -> Tri): seq<(A, B)> {
    if ys == [] then []
    else
      var last := ys[|ys| - 1];
      Matching(x, ys[..|ys| - 1], on) + if on(x, last) == Yes then [(x, last)] else []
  }

  /** `xs JOIN ys ON on` */
  function InnerJoin<A, B>(xs: seq<A>, ys: seq<B>, on: (A, B) -> Tri): seq<(A, B)> {
    if xs == [] then [] else InnerJoin(xs[..|xs| - 1], ys, on) + Matching(xs[|xs| - 1], ys, on)
  }

  function Padded<A, B>(x: A, pairs: seq<(A, B)>): seq<(A, Option<B>)> {
    if pairs == [] then [(x, None)] else seq(|pairs|, i requires 0 <= i < |pairs| => (x, Some(pairs[i].1)))
  }

  /** `xs LEFT JOIN ys ON on`: a row without partner is kept, with NULLs. */
  function LeftJoin<A, B>(xs: seq<A>, ys: seq<B>, on: (A, B) -> Tri): seq<(A, Option<B>)> {
    if xs == [] then []
    else
      var last := xs[|xs| - 1];
      LeftJoin(xs[..|xs| - 1], ys, on) + Padded(last, Matching(last, ys, on))
  }

  function Where<A>(xs: seq<A>, cond: A -> Tri): seq<A> {
    if xs == [] then []
    else
      var last := xs[|xs| - 1];
      Where(xs[..|xs| - 1], cond) + if cond(last) == Yes then [last] else []
  }

  lemma {:induction false} InMatching<A, B>(x: A, ys: seq<B>, on: (A, B) -> Tri, p: (A, B))
    ensures p in Matching(x, ys, on) <==> p.0 == x && p.1 in ys && on(p.0, p.1) == Yes
  {
    if ys != [] {
      InMatching(x, ys[..|ys| - 1], on, p);
      assert ys == ys[..|ys| - 1] + [ys[|ys| - 1]];
    }
  }

  lemma {:induction false} InInnerJoin<A, B>(xs: seq<A>, ys: seq<B>, on: (A, B) -> Tri, p: (A, B))
    ensures p in InnerJoin(xs, ys, on) <==> p.0 in xs && p.1 in ys && on(p.0, p.1) == Yes
  {
    if xs != [] {
      InInnerJoin(xs[..|xs| - 1], ys, on, p);
      InMatching(xs[|xs| - 1], ys, on, p);
      assert xs == xs[..|xs| - 1] + [xs[|xs| - 1]];
    }
  }

  lemma InPadded<A, B>(x: A, ys: seq<B>, on: (A, B) -> Tri, p: (A, Option<B>))
    ensures p in Padded(x, Matching(x, ys, on)) <==>
            p.0 == x &&
            match p.1
            case Some(y) => y in ys && on(x, y) == Yes
            case None => forall y | y in ys :: on(x, y) != Yes
  {
    var pairs := Matching(x, ys, on);
    forall y
      ensures (x, y) in pairs <==> y in ys && on(x, y) == Yes
    {
      InMatching(x, ys, on, (x, y));
    }
    if pairs != [] {
      var first := pairs[0];
      InMatching(x, ys, on, first);
      if p.1.Some? && p.0 == x && (x, p.1.value) in pairs {
        var i :| 0 <= i < |pairs| && pairs[i] == (x, p.1.value);
        assert Padded(x, pairs)[i] == p;
      }
      forall i | 0 <= i < |pairs|
        ensures pairs[i].0 == x
      {
        InMatching(x, ys, on, pairs[i]);
      }
    }
  }

  lemma {:induction false} InLeftJoin<A, B>(xs: seq<A>, ys: seq<B>, on: (A, B) -> Tri, p: (A, Option<B>))
    ensures p in LeftJoin(xs, ys, on) <==>
            p.0 in xs &&
            match p.1
            case Some(y) => y in ys && on(p.0, y) == Yes
            case None => forall y | y in ys :: on(p.0, y) != Yes
  {
    hide Padded, Matching;
    if xs != [] {
      InLeftJoin(xs[..|xs| - 1], ys, on, p);
      InPadded(xs[|xs| - 1], ys, on, p);
      assert xs == xs[..|xs| - 1] + [xs[|xs| - 1]];
    }
  }

  lemma {:induction false} InWhere<A>(xs: seq<A>, cond: A -> Tri, x: A)
    ensures x in Where(xs, cond) <==> x in xs && cond(x) == Yes
  {
    if xs != [] {
      InWhere(xs[..|xs| - 1], cond, x);
      assert xs == xs[..|xs| - 1] + [xs[|xs| - 1]];
    }
  }
}
