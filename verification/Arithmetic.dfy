/** The facts about products, quotients and sizes that the counting arguments rest on. */
module Arithmetic {

  lemma {:induction false} MulGap(p: int, q: int, d: int)
    requires p < q && d > 0
    ensures p * d + d <= q * d
    decreases q - p
  {
    if p + 1 < q {
      MulGap(p + 1, q, d);
      assert (p + 1) * d == p * d + d;
    }
  }

  lemma QuotientIs(a: int, d: int, q: int, r: int)
    requires d > 0 && 0 <= r < d && a == q * d + r
    ensures a / d == q
  {
    var p := a / d;
    assert p * d <= a < p * d + d;
    if p < q { MulGap(p, q, d); } else if q < p { MulGap(q, p, d); }
  }

  lemma SubsetSize<T>(a: set<T>, b: set<T>)
    requires a <= b
    ensures |a| <= |b|
  {
    assert b == a + (b - a);
  }

  lemma SetNext(a: set<nat>, b: set<nat>, n: nat, has: bool)
    requires n !in a && forall x :: x in b <==> x in a || (x == n && has)
    ensures |b| == |a| + if has then 1 else 0
  {
    assert b == if has then a + {n} else a;
  }
}
