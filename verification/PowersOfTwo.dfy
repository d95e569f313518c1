/** Powers of two, as used by the tree shapes of the transparency log. */
module PowersOfTwo {

  predicate IsPowerOfTwo(n: nat) {
    n == 1 || (n > 1 && n % 2 == 0 && IsPowerOfTwo(n / 2))
  }

  lemma DoubledIsPower(n: nat)
    requires IsPowerOfTwo(n)
    ensures IsPowerOfTwo(2 * n)
  {
    assert 2 * n / 2 == n;
  }

  lemma PowerIsPositive(n: nat)
    requires IsPowerOfTwo(n)
    ensures n > 0
  {
  }

  /** Largest power of two that is at most n: `1 << (BITS - 1 - n.leading_zeros())`. */
  function HighestBit(n: nat): (p: nat)
    requires n > 0
    ensures IsPowerOfTwo(p) && p <= n < 2 * p
  {
    if n == 1 then 1 else 2 * HighestBit(n / 2)
  }

  /** Largest power of two that divides n: `1 << n.trailing_zeros()`. */
  function LowestBit(n: nat): (p: nat)
    requires n > 0
    ensures IsPowerOfTwo(p) && p <= n && n % p == 0
  {
    if n % 2 == 1 then 1 else
      var q := LowestBit(n / 2);
      DoubledBit(n, q);
      2 * q
  }

  lemma DoubledBit(n: nat, q: nat)
    requires n % 2 == 0 && IsPowerOfTwo(q) && q <= n / 2 && (n / 2) % q == 0
    ensures IsPowerOfTwo(2 * q) && 2 * q <= n && n % (2 * q) == 0
  {
    DoubledIsPower(q);
    DoubledMultiple(q, n / 2);
    assert n == 2 * (n / 2);
  }

  function Pow2(k: nat): (p: nat)
    ensures p >= 1
  {
    if k == 0 then 1 else 2 * Pow2(k - 1)
  }

  lemma {:induction false} Pow2Add(a: nat, b: nat)
    ensures Pow2(a + b) == Pow2(a) * Pow2(b)
  {
    if a > 0 {
      Pow2Add(a - 1, b);
      assert Pow2(a + b) == 2 * Pow2((a - 1) + b);
      assert 2 * (Pow2(a - 1) * Pow2(b)) == (2 * Pow2(a - 1)) * Pow2(b);
    }
  }

  lemma Pow2IsPower(k: nat)
    ensures IsPowerOfTwo(Pow2(k))
  {
  }

  /** Floor of the binary logarithm. */
  function Log2(n: nat): (k: nat)
    requires n > 0
    ensures Pow2(k) <= n < Pow2(k + 1)
  {
    if n == 1 then 0 else 1 + Log2(n / 2)
  }

  lemma DoubledMultiple(d: nat, n: nat)
    requires d > 0
    ensures n % d == 0 <==> (2 * n) % (2 * d) == 0
  {
    var q, r := n / d, n % d;
    assert 2 * n == (2 * d) * q + 2 * r;
    ModUnique(2 * n, 2 * d, q, 2 * r);
  }

  lemma ModUnique(n: nat, d: nat, q: nat, r: nat)
    requires d > 0 && r < d && n == d * q + r
    ensures n % d == r
  {
    var k := n / d;
    MultiplesAscend(d, k + 1, q);
    MultiplesAscend(d, q + 1, k);
    assert d * (k + 1) == d * k + d && d * (q + 1) == d * q + d;
    assert k == q;
  }

  lemma MultiplesAscend(d: nat, a: nat, b: nat)
    ensures a <= b ==> d * a <= d * b
  {
  }

  lemma ModSum(a: nat, b: nat, d: nat)
    requires d > 0 && a % d == 0
    ensures (a + b) % d == b % d
  {
    var q := a / d + b / d;
    assert a + b == d * (a / d) + d * (b / d) + b % d;
    assert a + b == d * q + b % d;
    ModUnique(a + b, d, q, b % d);
  }

  /** A multiple of d is a multiple of every divisor of d. */
  lemma ModTransitive(n: nat, d: nat, e: nat)
    requires d > 0 && e > 0 && n % d == 0 && d % e == 0
    ensures n % e == 0
  {
    var q := (d / e) * (n / d);
    assert n == d * (n / d);
    assert d == e * (d / e);
    assert n == e * q;
    ModUnique(n, e, q, 0);
  }

  /** Among powers of two, smaller divides larger, and strictly smaller is at most half. */
  lemma {:induction false} PowersDivide(a: nat, b: nat)
    requires IsPowerOfTwo(a) && IsPowerOfTwo(b) && a <= b
    ensures b % a == 0
    ensures a < b ==> 2 * a <= b && b % (2 * a) == 0
    decreases a
  {
    if a > 1 {
      PowersDivide(a / 2, b / 2);
      DoubledMultiple(a / 2, b / 2);
      if a < b { DoubledMultiple(a, b / 2); }
    }
  }

  /** No power of two lies strictly between p and 2p. */
  lemma {:induction false} HighestBitUnique(n: nat, p: nat)
    requires IsPowerOfTwo(p) && p <= n < 2 * p
    ensures HighestBit(n) == p
  {
    var q := HighestBit(n);
    if q < p { PowersDivide(q, p); } else if p < q { PowersDivide(p, q); }
  }

  /** The powers of two are 1, 2, 4, and so on. */
  lemma {:induction false} PowersAreDoublings(n: nat)
    ensures IsPowerOfTwo(n) <==> exists k: nat :: n == Pow2(k)
  {
    if IsPowerOfTwo(n) {
      if n == 1 {
        assert n == Pow2(0);
      } else {
        PowersAreDoublings(n / 2);
        var k: nat :| n / 2 == Pow2(k);
        assert n == Pow2(k + 1);
      }
    }
    forall k: nat | n == Pow2(k) ensures IsPowerOfTwo(n) { Pow2IsPower(k); }
  }
}
