/** Shifts and masks on unsigned numbers, and what they mean for powers of two. */
module Bits {

  function Pow2(k: nat): (r: nat)
    ensures r >= 1
  {
    if k == 0 then 1 else 2 * Pow2(k - 1)
  }

  /** Bitwise and. */
  function And(x: nat, y: nat): nat {
    if x == 0 || y == 0 then 0 else (if x % 2 == 1 && y % 2 == 1 then 1 else 0) + 2 * And(x / 2, y / 2)
  }

  /** Right shift. */
  function Shr(x: nat, k: nat): nat {
    if k == 0 then x else Shr(x / 2, k - 1)
  }

  /** Masking with a power of two less one is the remainder. */
  lemma {:induction false} MaskIsMod(x: nat, k: nat)
    ensures And(x, Pow2(k) - 1) == x % Pow2(k)
    decreases k
  {
    if k > 0 {
      var p := Pow2(k - 1);
      MaskIsMod(x / 2, k - 1);
      assert (2 * p - 1) / 2 == p - 1 && (2 * p - 1) % 2 == 1;
      ModHalves(x, p);
      if x == 0 { ZeroMod(2 * p); }
    }
  }

  lemma ZeroMod(m: nat)
    requires m > 0
    ensures 0 % m == 0
  {
  }

  /** Halving a division by an even number. */
  lemma ModHalves(x: nat, p: nat)
    requires p > 0
    ensures x % (2 * p) == x % 2 + 2 * ((x / 2) % p)
    ensures x / (2 * p) == (x / 2) / p
  {
    var q, r := (x / 2) / p, (x / 2) % p;
    assert x == 2 * (x / 2) + x % 2;
    assert x / 2 == q * p + r;
    assert x == q * (2 * p) + (2 * r + x % 2);
    DivModUnique(x, 2 * p, q, 2 * r + x % 2);
  }

  lemma DivModUnique(x: nat, m: nat, q: nat, r: nat)
    requires m > 0 && x == q * m + r && r < m
    ensures x / m == q && x % m == r
  {
    var q', r' := x / m, x % m;
    assert x == q' * m + r';
    assert (q - q') * m == r' - r;
    if q' < q { MulAtLeast(q - q', m); }
    assert (q' - q) * m == r - r';
    if q' > q { MulAtLeast(q' - q, m); }
  }

  lemma MulAtLeast(a: nat, m: nat)
    requires a >= 1
    ensures a * m >= m
  {
  }

  /** Shifting right divides by a power of two. */
  lemma {:induction false} ShrIsDiv(x: nat, k: nat)
    ensures Shr(x, k) == x / Pow2(k)
    decreases k
  {
    if k > 0 {
      ShrIsDiv(x / 2, k - 1);
      ModHalves(x, Pow2(k - 1));
    }
  }

  /** The smallest number of buckets-full that holds `n` items. */
  function CeilDiv(n: nat, b: nat): nat
    requires b > 0
  {
    (n + b - 1) / b
  }

  /** Rounded up: so many buckets-full hold `n` items, and one less does not. */
  lemma CeilIs(n: nat, b: nat, q: nat)
    requires b > 0
    ensures q == CeilDiv(n, b) <==> n <= q * b && (q > 0 ==> (q - 1) * b < n)
  {
    var x := n + b - 1;
    var d := x / b;
    assert x == d * b + x % b;
    assert (q + 1) * b == q * b + b && (q - 1) * b == q * b - b;
    if n <= q * b && (q > 0 ==> (q - 1) * b < n) {
      DivModUnique(x, b, q, x - q * b);
    }
  }

  /** The shift-and-mask computation of the ideal chain length is a division rounded up. */
  lemma ShiftMaskIsCeil(n: nat, k: nat)
    ensures Shr(n, k) + (if And(n, Pow2(k) - 1) != 0 then 1 else 0) == CeilDiv(n, Pow2(k))
  {
    MaskIsMod(n, k);
    ShrIsDiv(n, k);
    CeilSplits(n, Pow2(k));
  }

  lemma CeilSplits(n: nat, b: nat)
    requires b > 0
    ensures CeilDiv(n, b) == n / b + (if n % b != 0 then 1 else 0)
  {
    var q, r := n / b, n % b;
    assert n == q * b + r;
    if r == 0 {
      DivModUnique(n + b - 1, b, q, b - 1);
    } else {
      assert (q + 1) * b == q * b + b;
      DivModUnique(n + b - 1, b, q + 1, r - 1);
    }
  }
}
