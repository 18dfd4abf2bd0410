/** Division with remainder, powers of two and shifts. */
module Arithmetic {

  lemma MulMono(a: nat, b: nat, c: nat)
    requires a <= b
    ensures c * a <= c * b
  {
  }

  lemma DivMod(n: nat, base: nat)
    requires base > 0
    ensures n == n % base + base * (n / base)
  {
  }

  lemma SameRemainder(a: nat, v: nat, b: nat, w: nat, base: nat)
    requires a < base && b < base && a + base * v == b + base * w
    ensures a == b && v == w
  {
    if v < w {
      MulMono(v + 1, w, base);
      assert false;
    }
    if w < v {
      MulMono(w + 1, v, base);
      assert false;
    }
  }

  function Pow2(i: nat): (p: nat)
    ensures p > 0
  {
    if i == 0 then 1 else 2 * Pow2(i - 1)
  }

  /** The shift `n >> i`. */
  function Shr(n: nat, i: nat): nat {
    if i == 0 then n else Shr(n / 2, i - 1)
  }

  lemma Unique(n: nat, base: nat, r: nat, q: nat)
    requires r < base && n == r + base * q
    ensures n % base == r && n / base == q
  {
    DivMod(n, base);
    SameRemainder(n % base, n / base, r, q, base);
  }

  lemma DoubleBase(n: nat, p: nat)
    requires p > 0
    ensures n % (2 * p) == 2 * (n / 2 % p) + n % 2 && n / (2 * p) == n / 2 / p
  {
    var h := n / 2;
    var q, r := h / p, h % p;
    DivMod(h, p);
    Twice(h, p, q, r);
    Unique(n, 2 * p, 2 * r + n % 2, q);
  }

  lemma Twice(h: nat, p: nat, q: nat, r: nat)
    requires h == r + p * q
    ensures 2 * h == 2 * r + 2 * p * q
  {
  }

  lemma {:induction false} ShrDivides(n: nat, i: nat)
    ensures Shr(n, i) == n / Pow2(i)
  {
    if i > 0 {
      ShrDivides(n / 2, i - 1);
      DoubleBase(n, Pow2(i - 1));
    }
  }

  lemma {:induction false} ShrMore(n: nat, i: nat, j: nat)
    ensures Shr(n, i + j) == Shr(Shr(n, i), j)
  {
    if i > 0 {
      ShrMore(n / 2, i - 1, j);
    }
  }
}
