// Unsigned bit operations the hash table uses on powers of two.
module Bits {

  function Pow2(k: nat): (r: nat)
    ensures r >= 1
  {
    if k == 0 then 1 else 2 * Pow2(k - 1)
  }

  // x & y, bit by bit from the least significant one.
  function And(x: nat, y: nat): nat
    decreases x
  {
    if x == 0 || y == 0 then 0 else 2 * And(x / 2, y / 2) + if x % 2 == 1 && y % 2 == 1 then 1 else 0
  }

  // x >> k, one bit at a time.
  function Shr(x: nat, k: nat): nat
    decreases k
  {
    if k == 0 then x else Shr(x / 2, k - 1)
  }

  // Least q with n <= q * d.
  ghost predicate IsCeil(q: int, n: int, d: int) {
    (q - 1) * d < n <= q * d
  }

  lemma HalveMod(x: nat, m: nat)
    requires m >= 1
    ensures x % (2 * m) == 2 * ((x / 2) % m) + x % 2
  {
    var q, r := (x / 2) / m, (x / 2) % m;
    assert x == 2 * (q * m + r) + x % 2;
    assert x == q * (2 * m) + (2 * r + x % 2);
    ModIs(x, 2 * m, q, 2 * r + x % 2);
  }

  lemma ModIs(x: int, d: int, q: int, r: int)
    requires d > 0 && 0 <= r < d && x == q * d + r
    ensures x % d == r && x / d == q
  {
    var q', r' := x / d, x % d;
    assert (q - q') * d == r' - r;
    MulBound(q - q', d);
  }

  lemma MulBound(k: int, d: int)
    requires d > 0
    ensures k >= 1 ==> k * d >= d
    ensures k <= -1 ==> k * d <= -d
  {
    assert k * d == (k - 1) * d + d == (k + 1) * d - d;
  }

  // HASH_TO_BKT: masking with 2^k - 1 selects the remainder modulo 2^k.
  lemma {:induction false} MaskIsMod(x: nat, k: nat)
    ensures And(x, Pow2(k) - 1) == x % Pow2(k)
  {
    if x == 0 {
      ModIs(x, Pow2(k), 0, 0);
    } else if k == 0 {
      ModIs(x, 1, x, 0);
    } else {
      hide And;
      var m := Pow2(k - 1);
      calc {
        And(x, 2 * m - 1);
        { AndOdd(x, m - 1); }
        2 * And(x / 2, m - 1) + x % 2;
        { MaskIsMod(x / 2, k - 1); }
        2 * ((x / 2) % m) + x % 2;
        { HalveMod(x, m); }
        x % (2 * m);
      }
    }
  }

  lemma AndOdd(x: nat, y: nat)
    ensures And(x, 2 * y + 1) == 2 * And(x / 2, y) + x % 2
  {
    assert (2 * y + 1) / 2 == y;
  }

  lemma {:induction false} ShrIsDiv(x: nat, k: nat)
    ensures Shr(x, k) == x / Pow2(k)
  {
    if k == 0 {
    } else {
      ShrIsDiv(x / 2, k - 1);
      var m := Pow2(k - 1);
      var q, r := (x / 2) / m, (x / 2) % m;
      assert x == q * (2 * m) + (2 * r + x % 2);
      ModIs(x, 2 * m, q, 2 * r + x % 2);
    }
  }

  // The shift-and-mask form of the ideal chain length is the rounded-up quotient.
  lemma ShiftMaskCeil(n: nat, k: nat)
    ensures IsCeil(Shr(n, k) + (if And(n, Pow2(k) - 1) != 0 then 1 else 0), n, Pow2(k))
  {
    MaskIsMod(n, k);
    ShrIsDiv(n, k);
    CeilFromDivMod(n, Pow2(k));
  }

  lemma CeilFromDivMod(n: nat, d: nat)
    requires d >= 1
    ensures IsCeil(n / d + (if n % d != 0 then 1 else 0), n, d)
  {
    var q := n / d;
    assert n == q * d + n % d;
    assert (q + 1) * d == q * d + d && (q - 1) * d == q * d - d;
  }

  // Doubling the modulus splits each residue class b into b and b + m.
  lemma SplitMod(x: nat, m: nat)
    requires m >= 1
    ensures x % (2 * m) == x % m || x % (2 * m) == x % m + m
    ensures x % (2 * m) % m == x % m
  {
    var q, r := x / (2 * m), x % (2 * m);
    assert x == q * (2 * m) + r;
    if r < m {
      ModIs(x, m, 2 * q, r);
      ModIs(r, m, 0, r);
    } else {
      ModIs(x, m, 2 * q + 1, r - m);
      ModIs(r, m, 1, r - m);
    }
  }
}
