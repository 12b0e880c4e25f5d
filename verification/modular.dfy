/** Division and remainders of ring positions and file offsets. */
module Modular {

  predicate PowerOfTwo(a: nat) {
    a == 1 || (a > 0 && a % 2 == 0 && PowerOfTwo(a / 2))
  }

  lemma NonZeroProduct(n: int, d: int)
    requires n > 0 && d != 0
    ensures n * d >= n || n * d <= -n
  {
    if d > 0 {
      assert n * d >= n;
    } else {
      assert n * d <= -n;
    }
  }

  /** Quotient and remainder are unique. */
  lemma DivisionIs(n: nat, d: nat, q: nat, r: nat)
    requires d > 0 && n == q * d + r && r < d
    ensures n / d == q && n % d == r
  {
    var e := n / d - q;
    assert d * e == r - n % d by {
      assert n == d * (n / d) + n % d;
    }
    if e != 0 {
      NonZeroProduct(d, e);
    }
  }

  lemma MultipleMod(k: nat, n: nat)
    requires n > 0
    ensures k * n % n == 0
  {
    DivisionIs(k * n, n, k, 0);
  }

  /** Two positions less than a ring apart have different slots. */
  lemma DistinctSlots(p: nat, q: nat, n: nat)
    requires p < q < p + n
    ensures p % n != q % n
  {
    var d := q / n - p / n;
    assert q - p == n * d + (q % n - p % n);
    if d != 0 {
      NonZeroProduct(n, d);
    }
  }

  /** The slot of the next position is the next slot, or the first. */
  lemma NextSlotIs(p: nat, n: nat)
    requires n > 0
    ensures (p + 1) % n == if p % n + 1 == n then 0 else p % n + 1
  {
    var q, r := p / n, p % n;
    assert p + 1 == q * n + (r + 1);
    if r + 1 == n {
      assert p + 1 == (q + 1) * n + 0;
      DivisionIs(p + 1, n, q + 1, 0);
    } else {
      DivisionIs(p + 1, n, q, r + 1);
    }
  }

  /** One whole ring later comes the same slot. */
  lemma NextRound(p: nat, n: nat)
    requires n > 0
    ensures (p + n) % n == p % n
  {
    var q, r := p / n, p % n;
    assert p + n == (q + 1) * n + r;
    DivisionIs(p + n, n, q + 1, r);
  }
}
