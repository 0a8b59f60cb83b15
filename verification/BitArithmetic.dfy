/** The bits of natural numbers: shifting is multiplying and dividing by powers of two, and an
    or of numbers without a bit in common is their sum. */
module BitArithmetic {
  function Pow2(k: nat): (r: nat)
    ensures r > 0
  {
    if k == 0 then 1 else 2 * Pow2(k - 1)
  }

  lemma Doubled(q: nat, k: nat)
    requires k > 0
    ensures q * Pow2(k) == 2 * (q * Pow2(k - 1))
  {
  }

  /** Bit k of x, one halving per position. */
  predicate Bit(x: nat, k: nat)
  {
    if k == 0 then x % 2 == 1 else Bit(x / 2, k - 1)
  }

  /** x | y, bit by bit. */
  function Or(x: nat, y: nat): (r: nat)
  {
    if x == 0 && y == 0 then 0 else 2 * Or(x / 2, y / 2) + if x % 2 == 1 || y % 2 == 1 then 1 else 0
  }

  lemma {:induction false} OrBit(x: nat, y: nat, k: nat)
    ensures Bit(Or(x, y), k) <==> Bit(x, k) || Bit(y, k)
    decreases k
  {
    if k > 0 {
      OrBit(x / 2, y / 2, k - 1);
      assert x == 0 && y == 0 ==> Or(x / 2, y / 2) == 0;
    }
  }

  lemma AtLeastOnce(k: nat, p: nat)
    requires k > 0
    ensures k * p >= p
  {
    assert k * p == (k - 1) * p + p;
  }

  lemma Quotient(x: nat, q: nat, p: nat, r: nat)
    requires p > 0 && x == q * p + r && r < p
    ensures x / p == q && x % p == r
  {
    var q', r' := x / p, x % p;
    assert x == q' * p + r';
    assert (q - q') * p == r' - r;
    if q > q' {
      AtLeastOnce(q - q', p);
    } else if q < q' {
      AtLeastOnce(q' - q, p);
    }
  }

  lemma Halved(x: nat, p: nat)
    requires p > 0
    ensures x / (2 * p) == x / 2 / p
  {
    var q, r := x / 2 / p, x / 2 % p;
    assert x == 2 * (q * p + r) + x % 2;
    assert x == q * (2 * p) + (2 * r + x % 2) && 2 * r + x % 2 < 2 * p;
    Quotient(x, q, 2 * p, 2 * r + x % 2);
  }

  /** Bit k is told by dividing by 2^k. */
  lemma {:induction false} BitIs(x: nat, k: nat)
    ensures Bit(x, k) <==> x / Pow2(k) % 2 == 1
  {
    if k > 0 {
      BitIs(x / 2, k - 1);
      Halved(x, Pow2(k - 1));
    }
  }

  lemma {:induction false} Pow2Sum(i: nat, j: nat)
    ensures Pow2(i + j) == Pow2(i) * Pow2(j)
  {
    if i > 0 {
      Pow2Sum(i - 1, j);
      Doubled(Pow2(j), i);
    }
  }

  lemma {:induction false} OrZero(y: nat)
    ensures Or(0, y) == y && Or(y, 0) == y
    decreases y
  {
    if y > 0 {
      OrZero(y / 2);
    }
  }

  /** Or of numbers without a bit in common. */
  lemma {:induction false} OrPlus(x: nat, q: nat, k: nat)
    requires x < Pow2(k)
    ensures Or(x, q * Pow2(k)) == x + q * Pow2(k) && Or(q * Pow2(k), x) == x + q * Pow2(k)
    decreases k
  {
    if k == 0 {
      OrZero(q);
    } else {
      var y, h := q * Pow2(k), q * Pow2(k - 1);
      Doubled(q, k);
      OrPlus(x / 2, q, k - 1);
      if x == 0 && y == 0 {
      } else {
        assert Or(x, y) == 2 * Or(x / 2, h) + x % 2 && Or(y, x) == 2 * Or(h, x / 2) + x % 2;
      }
    }
  }

  /** The bits of a number put together from a low and a high part. */
  lemma {:induction false} BitParts(a: nat, q: nat, n: nat, k: nat)
    requires a < Pow2(n)
    ensures Bit(a + q * Pow2(n), k) <==> if k < n then Bit(a, k) else Bit(q, k - n)
    decreases n
  {
    if n > 0 {
      var h := q * Pow2(n - 1);
      Doubled(q, n);
      if k > 0 {
        assert (a + 2 * h) / 2 == a / 2 + h;
        BitParts(a / 2, q, n - 1, k - 1);
      }
    }
  }

  /** x >> n, and the n bits that this drops. */
  function Shr(x: nat, n: nat): (r: nat)
  {
    if n == 0 then x else Shr(x / 2, n - 1)
  }

  function Low(x: nat, n: nat): (r: nat)
  {
    if n == 0 then 0 else 2 * Low(x / 2, n - 1) + x % 2
  }

  lemma {:induction false} HighLow(x: nat, n: nat)
    ensures x == Low(x, n) + Shr(x, n) * Pow2(n) && Low(x, n) < Pow2(n)
  {
    if n > 0 {
      HighLow(x / 2, n - 1);
      Doubled(Shr(x, n), n);
    }
  }

  lemma {:induction false} ShrBound(x: nat, i: nat, n: nat)
    requires x < Pow2(n + i)
    ensures Shr(x, n) < Pow2(i)
    decreases n
  {
    if n > 0 {
      ShrBound(x / 2, i, n - 1);
    }
  }

  /** High and low part are what they were put together from. */
  lemma {:induction false} PartsOf(a: nat, q: nat, n: nat)
    requires a < Pow2(n)
    ensures Low(a + q * Pow2(n), n) == a && Shr(a + q * Pow2(n), n) == q
    decreases n
  {
    if n > 0 {
      var h := q * Pow2(n - 1);
      Doubled(q, n);
      assert (a + 2 * h) / 2 == a / 2 + h && (a + 2 * h) % 2 == a % 2;
      PartsOf(a / 2, q, n - 1);
    }
  }

  /** Shifting right is dividing. */
  lemma ShrIs(x: nat, n: nat)
    ensures Shr(x, n) == x / Pow2(n)
  {
    HighLow(x, n);
    Quotient(x, Shr(x, n), Pow2(n), Low(x, n));
  }

  /** Below the last multiple of p. */
  lemma LastMultiple(b: nat, p: nat, q: nat)
    requires b < q
    ensures b * p + p <= p * q
  {
    assert p * q == b * p + (q - b) * p;
    AtLeastOnce(q - b, p);
  }
}
