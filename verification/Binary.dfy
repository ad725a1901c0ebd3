/** Powers of two, bit counts and right shifts of unbounded naturals. */
module Binary {
  function Pow2(h: nat): (r: nat)
    ensures r > 0
  {
    if h == 0 then 1 else 2 * Pow2(h - 1)
  }

  /** The number of one-bits of n. */
  function Popcount(n: nat): (r: nat)
    ensures r <= n
  {
    if n == 0 then 0 else n % 2 + Popcount(n / 2)
  }

  /** The length of the run of one-bits at the low end of n. */
  function TrailingOnes(n: nat): nat {
    if n % 2 == 0 then 0 else 1 + TrailingOnes(n / 2)
  }

  /** n shifted right by h bits. */
  function Shr(n: nat, h: nat): (r: nat)
    ensures r <= n
  {
    if h == 0 then n else Shr(n, h - 1) / 2
  }

  lemma {:induction false} ShrHalf(n: nat, h: nat)
    requires h > 0
    ensures Shr(n, h) == Shr(n / 2, h - 1)
  {
    if h > 1 {
      ShrHalf(n, h - 1);
    }
  }

  /** Adding one to n moves bit position h up by one exactly when the carry gets that far. */
  lemma {:induction false} ShrSucc(n: nat, h: nat)
    ensures Shr(n + 1, h) == Shr(n, h) + if h <= TrailingOnes(n) then 1 else 0
  {
    if h > 0 {
      ShrHalf(n, h);
      ShrHalf(n + 1, h);
      if n % 2 == 1 {
        ShrSucc(n / 2, h - 1);
        assert (n + 1) / 2 == n / 2 + 1;
      } else {
        assert (n + 1) / 2 == n / 2;
      }
    }
  }

  lemma {:induction false} ShrMonotone(m: nat, n: nat, h: nat)
    requires m <= n
    ensures Shr(m, h) <= Shr(n, h)
  {
    if h > 0 {
      ShrMonotone(m, n, h - 1);
    }
  }

  /** A carry of t bits trades t one-bits for a single one. */
  lemma {:induction false} PopcountSucc(n: nat)
    ensures Popcount(n + 1) + TrailingOnes(n) == Popcount(n) + 1
  {
    if n % 2 == 1 {
      PopcountSucc(n / 2);
      assert (n + 1) / 2 == n / 2 + 1;
    } else {
      assert (n + 1) / 2 == n / 2;
    }
  }

  /** The low bits of n below its trailing ones are ones. */
  lemma {:induction false} ShrOdd(n: nat, h: nat)
    ensures h < TrailingOnes(n) ==> Shr(n, h) % 2 == 1
    ensures h == TrailingOnes(n) ==> Shr(n, h) % 2 == 0
  {
    if h > 0 && n % 2 == 1 {
      ShrHalf(n, h);
      ShrOdd(n / 2, h - 1);
    }
  }

  lemma MulMonotone(a: nat, b: nat, p: nat)
    requires a <= b
    ensures a * p <= b * p
  {}

  lemma OneMore(k: nat, p: nat)
    ensures (k + 1) * p == k * p + p
  {}

  /** Shift right is division by a power of two. */
  lemma {:induction false} ShrIsDivision(n: nat, h: nat)
    ensures Shr(n, h) * Pow2(h) <= n < (Shr(n, h) + 1) * Pow2(h)
  {
    if h > 0 {
      ShrIsDivision(n, h - 1);
      HalvingKeepsBounds(n, Shr(n, h - 1), Pow2(h - 1));
    }
  }

  lemma HalvingKeepsBounds(n: nat, s: nat, p: nat)
    requires s * p <= n < (s + 1) * p
    ensures (s / 2) * (2 * p) <= n < (s / 2 + 1) * (2 * p)
  {
    var q := s / 2;
    if s % 2 == 0 {
      assert s == 2 * q;
      assert q * (2 * p) == s * p;
      assert (q + 1) * (2 * p) == (s + 1) * p + p;
    } else {
      assert s == 2 * q + 1;
      assert q * (2 * p) == s * p - p;
      assert (q + 1) * (2 * p) == (s + 1) * p;
    }
  }

  predicate IsPow2(n: nat) {
    n == 1 || (n > 0 && n % 2 == 0 && IsPow2(n / 2))
  }

  lemma {:induction false} IsPow2Popcount(n: nat)
    requires n > 0
    ensures IsPow2(n) <==> Popcount(n) == 1
  {
    if n > 1 {
      IsPow2Popcount(n / 2);
      if n % 2 == 1 {
        assert Popcount(n / 2) >= 1 by {
          PopcountPositive(n / 2);
        }
      }
    }
  }

  lemma {:induction false} PopcountPositive(n: nat)
    requires n > 0
    ensures Popcount(n) >= 1
  {
    if n % 2 == 0 {
      PopcountPositive(n / 2);
    }
  }
}
