/** Machine words, bytes and single bits, shared by the other modules. */
module Words {
  const WORD_MOD: int := 0x1_0000
  const DWORD_MOD: int := 0x1_0000_0000
  const QWORD_MOD: int := 0x1_0000_0000_0000_0000

  type byte = x: int | 0 <= x < 0x100
  type word = x: int | 0 <= x < 0x1_0000
  type dword = x: int | 0 <= x < 0x1_0000_0000
  type qword = x: int | 0 <= x < 0x1_0000_0000_0000_0000

  datatype Option<T> = None | Some(value: T)

  function Min(a: int, b: int): int {
    if a <= b then a else b
  }

  function Repeated<T>(x: T, n: nat): (s: seq<T>)
    ensures |s| == n && forall i :: 0 <= i < n ==> s[i] == x
  {
    if n == 0 then [] else [x] + Repeated(x, n - 1)
  }

  /** The bit of `x` that has weight `weight`, a power of two. */
  predicate Bit(x: nat, weight: nat)
    requires weight > 0
  {
    x / weight % 2 == 1
  }

  /** The contribution of a bit of that weight. */
  function If(b: bool, weight: nat): nat {
    if b then weight else 0
  }

  // ----- multiplication and division with remainder -----

  lemma {:induction false} MulStep(p: nat, small: nat, large: nat)
    requires small < large
    ensures p * small + p <= p * large
    decreases large
  {
    assert p * large == p * (large - 1) + p;
    if small + 1 < large {
      MulStep(p, small, large - 1);
    }
  }

  lemma DivUnique(a: nat, p: nat, q: nat, r: nat)
    requires r < p && a == p * q + r
    ensures a / p == q && a % p == r
  {
    QuotientUnique(p, q, r, a / p, a % p);
  }

  lemma QuotientUnique(p: nat, q: nat, r: nat, q0: nat, r0: nat)
    requires r < p && r0 < p && p * q + r == p * q0 + r0
    ensures q == q0 && r == r0
  {
    if q0 < q {
      MulStep(p, q0, q);
    } else if q < q0 {
      MulStep(p, q, q0);
    }
  }

  lemma DivMod(a: nat, p: nat)
    requires p > 0
    ensures a == p * (a / p) + a % p && a / p >= 0 && 0 <= a % p < p
  {
  }

  lemma ModAtMost(a: nat, p: nat)
    requires p > 0
    ensures a % p <= a && 0 <= a / p <= a
  {
    DivMod(a, p);
    if a / p > 0 {
      QuotientAtMost(p, a / p, a % p);
    }
  }

  lemma {:induction false} QuotientAtMost(p: nat, q: nat, r: nat)
    requires p > 0
    ensures q <= p * q + r && r <= p * q + r
    decreases q
  {
    if q > 0 {
      assert p * q == p * (q - 1) + p;
      QuotientAtMost(p, q - 1, r);
    }
  }

  lemma SmallMod(x: nat, m: nat)
    requires x < m
    ensures x % m == x
  {
  }

  /** The low bits of a number, split at one weight. */
  lemma LowBit(x: nat, weight: nat)
    requires weight > 0
    ensures x % (2 * weight) == If(Bit(x, weight), weight) + x % weight
  {
    var q := x / weight;
    DivMod(x, weight);
    var low := If(Bit(x, weight), weight) + x % weight;
    assert weight * q == (2 * weight) * (q / 2) + weight * (q % 2);
    DivUnique(x, 2 * weight, q / 2, low);
  }

  // ----- powers of two -----

  function Pow2(n: nat): (p: nat)
    ensures p > 0
  {
    if n == 0 then 1 else 2 * Pow2(n - 1)
  }

  lemma {:induction false} Pow2Add(m: nat, n: nat)
    ensures Pow2(m + n) == Pow2(m) * Pow2(n)
    decreases m
  {
    if m != 0 {
      Pow2Add(m - 1, n);
      assert Pow2(m + n) == 2 * Pow2((m - 1) + n);
      assert Pow2(m) * Pow2(n) == 2 * (Pow2(m - 1) * Pow2(n));
    }
  }

  lemma Pow2Values()
    ensures Pow2(16) == WORD_MOD && Pow2(32) == DWORD_MOD
  {
    assert Pow2(8) == 0x100;
    Pow2Add(8, 8);
    Pow2Add(16, 16);
  }

  /** Adding a multiple of the divisor, for a dividend of either sign. */
  lemma DivShift(x: int, p: nat, k: int)
    requires p > 0
    ensures (x + p * k) / p == x / p + k
    ensures (x + p * k) % p == x % p
  {
    FloorUnique(x + p * k, p, x / p + k, x % p);
  }

  lemma FloorUnique(x: int, p: nat, q: int, r: nat)
    requires r < p && x == p * q + r
    ensures x / p == q && x % p == r
  {
    var q0, r0 := x / p, x % p;
    assert x == p * q0 + r0;
    assert p * (q - q0) == r0 - r;
    if q > q0 {
      SmallProduct(p, q - q0);
    } else if q < q0 {
      assert p * (q0 - q) == r - r0;
      SmallProduct(p, q0 - q);
    }
  }

  lemma SmallProduct(p: nat, k: int)
    requires k > 0
    ensures p * k >= p
  {
    assert p * k == p * (k - 1) + p;
  }

  lemma HalfOfQuotient(x: int, p: nat)
    requires p > 0
    ensures x / (2 * p) == x / p / 2
  {
    var q := x / p;
    assert x == p * q + x % p;
    assert p * q == (2 * p) * (q / 2) + p * (q % 2);
    assert p * (q % 2) == if q % 2 == 1 then p else 0;
    FloorUnique(x, 2 * p, q / 2, p * (q % 2) + x % p);
  }
}
