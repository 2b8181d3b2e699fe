/** The few facts about products and quotients that the other modules need. */
module Arithmetic {

  /** Distinct multiples of `p` are at least `p` apart. */
  lemma {:induction false} MulGap(a: nat, b: nat, p: nat)
    requires a < b
    ensures a * p + p <= b * p
    decreases b
  {
    assert (a + 1) * p == a * p + p;
    if b > a + 1 {
      MulGap(a, b - 1, p);
      assert b * p == (b - 1) * p + p;
    }
  }

  lemma MulGrows(a: nat, b: nat, p: nat)
    requires a <= b
    ensures a * p <= b * p
  {
    if a < b { MulGap(a, b, p); }
  }

  lemma MulNext(a: nat, p: nat)
    ensures (a + 1) * p == a * p + p
  {
  }

  lemma {:induction false} DivUnique(i: nat, p: nat, q: nat, r: nat)
    requires p > 0 && r < p && i == q * p + r
    ensures i / p == q
  {
    var q', r' := i / p, i % p;
    assert q' * p + r' == q * p + r;
    if q' < q {
      MulGap(q', q, p);
    } else if q' > q {
      MulGap(q, q', p);
    }
  }

  lemma {:induction false} DivTwice(i: nat, p: nat)
    requires p > 0
    ensures (i / p) / 2 == i / (2 * p)
  {
    var q, r := i / p, i % p;
    var q2, s := q / 2, q % 2;
    assert i == q2 * (2 * p) + (s * p + r);
    assert 0 <= s * p + r < 2 * p;
    DivUnique(i, 2 * p, q2, s * p + r);
  }
}
