/** The arithmetic of round-robin placement: how many pairs share a location. */
module RoundRobin {

  /** The indices below `n` placed at location `c` of `l`. */
  function Hits(n: nat, l: nat, c: nat): nat
    requires l > 0
  {
    if n == 0 then 0 else Hits(n - 1, l, c) + if (n - 1) % l == c then 1 else 0
  }

  /** The pairs of an index below `m` and an index below `n` placed at the same location. */
  function Pairs(m: nat, n: nat, l: nat): nat
    requires l > 0
  {
    if m == 0 then 0 else Pairs(m - 1, n, l) + Hits(n, l, (m - 1) % l)
  }

  function Min(a: nat, b: nat): nat {
    if a < b then a else b
  }

  /** `Pairs` in closed form. */
  function Closed(m: nat, n: nat, l: nat): nat
    requires l > 0
  {
    m * (n / l) + (m / l) * (n % l) + Min(m % l, n % l)
  }

  lemma Multiple(d: int, l: int)
    requires l > 0
    ensures d > 0 ==> d * l >= l
    ensures d < 0 ==> d * l <= -l
  {
    if d > 0 {
      assert (d - 1) * l >= 0;
    } else if d < 0 {
      assert (-d - 1) * l >= 0;
    }
  }

  lemma DivUnique(a: nat, l: nat, q: nat, r: nat)
    requires l > 0 && r < l && a == q * l + r
    ensures a / l == q && a % l == r
  {
    var d := q - a / l;
    assert d * l == a % l - r;
    Multiple(d, l);
  }

  lemma DivNext(n: nat, l: nat)
    requires l > 0
    ensures n % l + 1 < l ==> (n + 1) / l == n / l && (n + 1) % l == n % l + 1
    ensures n % l + 1 == l ==> (n + 1) / l == n / l + 1 && (n + 1) % l == 0
  {
    if n % l + 1 < l {
      DivUnique(n + 1, l, n / l, n % l + 1);
    } else {
      assert (n / l + 1) * l == n / l * l + l;
      DivUnique(n + 1, l, n / l + 1, 0);
    }
  }

  lemma {:induction false} HitsClosed(n: nat, l: nat, c: nat)
    requires c < l
    ensures Hits(n, l, c) == n / l + if c < n % l then 1 else 0
  {
    if n > 0 {
      HitsClosed(n - 1, l, c);
      DivNext(n - 1, l);
    } else {
      DivUnique(0, l, 0, 0);
    }
  }

  lemma {:induction false} PairsClosed(m: nat, n: nat, l: nat)
    requires l > 0
    ensures Pairs(m, n, l) == Closed(m, n, l)
  {
    if m == 0 {
      DivUnique(0, l, 0, 0);
    } else {
      PairsClosed(m - 1, n, l);
      HitsClosed(n, l, (m - 1) % l);
      DivNext(m - 1, l);
      ClosedNext(m - 1, n, l);
    }
  }

  lemma ClosedNext(m: nat, n: nat, l: nat)
    requires l > 0
    ensures Closed(m + 1, n, l) == Closed(m, n, l) + n / l + if m % l < n % l then 1 else 0
  {
    var q, r := n / l, n % l;
    DivNext(m, l);
    assert (m + 1) * q == m * q + q;
    assert (m / l + 1) * r == (m / l) * r + r;
  }

  lemma Algebra(n: int, q: int, r: int, l: int)
    requires n == q * l + r
    ensures l * (n * q + q * r + r) == n * n + r * (l - r)
  {
    var m := q * l;
    assert l * (n * q) == n * m;
    assert l * (q * r) == m * r;
    assert l * (n * q + q * r + r) == n * m + m * r + l * r;
    assert n * n == n * m + n * r;
    assert n * r == m * r + r * r;
  }

  /** With `n` on both sides and `r = n mod l`: exactly `n^2 / l + r (l - r) / l` pairs. */
  lemma SquarePairs(n: nat, l: nat)
    requires l > 0
    ensures l * Pairs(n, n, l) == n * n + n % l * (l - n % l)
  {
    PairsClosed(n, n, l);
    Algebra(n, n / l, n % l, l);
  }

  lemma Square(a: int)
    ensures a * a >= 0
  {
  }

  /** `4 r (l - r) = l^2 - (l - 2 r)^2` */
  lemma Quarter(r: int, l: int)
    requires 0 <= r < l
    ensures 0 <= 4 * (r * (l - r)) <= l * l
    ensures r * (l - r) == 0 <==> r == 0
  {
    var m := l - r;
    Square(m - r);
    assert l * l == (m + r) * l == m * l + r * l;
    assert m * l == m * m + m * r;
    assert r * l == r * m + r * r;
    assert (m - r) * (m - r) == m * (m - r) - r * (m - r);
    assert m * (m - r) == m * m - m * r;
    assert r * (m - r) == r * m - r * r;
    Multiple(r, m);
  }

  lemma ProductAsReal(a: int, b: int)
    ensures a as real * b as real == (a * b) as real
  {
  }

  lemma SumQuotient(x: real, w: real, y: real, z: real)
    requires x > 0.0 && x * w == y + z
    ensures w == y / x + z / x
  {
  }

  lemma QuotientAtMost(x: real, z: real)
    requires x > 0.0 && 4.0 * z <= x * x
    ensures z / x <= x / 4.0
  {
  }

  lemma ExactQuotients(p: nat, s: nat, e: nat, l: nat)
    requires l > 0 && l * p == s + e && 4 * e <= l * l
    ensures s as real / l as real <= p as real <= s as real / l as real + l as real / 4.0
  {
    ProductAsReal(l, p);
    ProductAsReal(l, l);
    SumQuotient(l as real, p as real, s as real, e as real);
    QuotientAtMost(l as real, e as real);
  }

  /** Hence between `n^2 / l` and `n^2 / l + l / 4`, as exact quotients. */
  lemma SquarePairsBounds(n: nat, l: nat)
    requires l > 0
    ensures (n * n) as real / l as real <= Pairs(n, n, l) as real <= (n * n) as real / l as real + l as real / 4.0
  {
    SquarePairs(n, l);
    Quarter(n % l, l);
    ExactQuotients(Pairs(n, n, l), n * n, n % l * (l - n % l), l);
  }

  /** The lower bound is attained when `l` divides `n`, and only then. */
  lemma LowerBoundExact(n: nat, l: nat)
    requires l > 0
    ensures l * Pairs(n, n, l) == n * n <==> n % l == 0
  {
    SquarePairs(n, l);
    Quarter(n % l, l);
  }
}
