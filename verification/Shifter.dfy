/** The ASH/ASHC shifter: a 6-bit count shifts left, and from 32 on right by 64 minus the count. */
module Shifter {
  import opened Words
  import opened ConditionCodes

  function Half(long: bool): (h: nat)
    ensures h > 0
  {
    if long then 0x8000_0000 else 0x8000
  }

  function Modulus(long: bool): (m: nat)
    ensures m == 2 * Half(long)
  {
    if long then DWORD_MOD else WORD_MOD
  }

  /** A register's content as a two's complement number. */
  function Signed(value: nat, long: bool): int {
    if value < Half(long) then value else value - Modulus(long)
  }

  predicate Fits(x: int, half: int) {
    -half <= x < half
  }

  /** The sign bit of a register is its residue's upper half. */
  lemma TopBit(value: nat, half: nat)
    requires half > 0
    ensures Bit(value, half) <==> value % (2 * half) >= half
  {
    LowBit(value, half);
  }

  // ----- left shifts -----

  function Doubled(r: nat, m: nat): int {
    if 2 * r < m then 2 * r else 2 * r - m
  }

  lemma DoubleResidue(x: int, m: nat)
    requires m > 0
    ensures (2 * x) % m == Doubled(x % m, m)
  {
    var q, r := x / m, x % m;
    assert x == m * q + r;
    if 2 * r < m {
      assert 2 * x == m * (2 * q) + 2 * r;
      FloorUnique(2 * x, m, 2 * q, 2 * r);
    } else {
      assert 2 * x == m * (2 * q + 1) + (2 * r - m);
      FloorUnique(2 * x, m, 2 * q + 1, 2 * r - m);
    }
  }

  /** Truncating to 32 bits keeps the residue of the register width. */
  lemma TruncatedResidue(x: nat, long: bool)
    ensures x % DWORD_MOD % Modulus(long) == x % Modulus(long)
  {
    var m := Modulus(long);
    var q, r := x / DWORD_MOD, x % DWORD_MOD;
    if !long {
      assert x == r + m * (WORD_MOD * q);
      DivShift(r, m, WORD_MOD * q);
    }
  }

  /** One turn of the shift loop: the residue doubles, and the sign flips exactly when the exact value stops fitting. */
  lemma DoubleStep(value: dword, x: int, long: bool)
    requires value % Modulus(long) == x % Modulus(long)
    ensures var y := value * 2 % DWORD_MOD; var h := Half(long);
            && y % Modulus(long) == (2 * x) % Modulus(long)
            && (Fits(x, h) ==> (Bit(y, h) != (x < 0) <==> !Fits(2 * x, h)))
  {
    var m, h := Modulus(long), Half(long);
    var y := value * 2 % DWORD_MOD;
    TruncatedResidue(value * 2, long);
    DoubleResidue(value, m);
    DoubleResidue(x, m);
    TopBit(y, h);
    if Fits(x, h) {
      if x < 0 {
        FloorUnique(x, m, -1, x + m);
      } else {
        FloorUnique(x, m, 0, x);
      }
    }
  }

  /** The sign bit before the last single shift is the bit that shift pushes out. */
  lemma LastBitOut(x: nat, long: bool)
    ensures Bit(x % DWORD_MOD, Half(long)) <==> Bit(2 * x, Modulus(long))
  {
    var h := Half(long);
    TruncatedResidue(x, long);
    TopBit(x % DWORD_MOD, h);
    TopBit(x, h);
    HalfOfQuotient(x, h);
    assert 2 * x == (2 * h) * (x / h) + 2 * (x % h) by {
      DivMod(x, h);
    }
    DivUnique(2 * x, 2 * h, x / h, 2 * (x % h));
  }

  // ----- right shifts -----

  /** A 64-bit value whose bits above the register are all set. */
  function OrHigh(value: nat, long: bool): nat {
    value % Modulus(long) + (QWORD_MOD - Modulus(long))
  }

  lemma {:induction false} NegativeQuotient(s: int, n: nat)
    requires s < 0
    ensures s <= s / Pow2(n) < 0
    decreases n
  {
    if n > 0 {
      NegativeQuotient(s, n - 1);
      HalfOfQuotient(s, Pow2(n - 1));
    }
  }

  /** 2^64 is a multiple of 2^n, by a multiple of 2^32. */
  lemma QwordMultiple(n: nat) returns (t: nat)
    requires n <= 32
    ensures t > 0 && QWORD_MOD == Pow2(n) * (DWORD_MOD * t)
  {
    t := Pow2(32 - n);
    Pow2Values();
    Pow2Add(n, 32 - n);
    Reassociate(Pow2(n), t);
  }

  lemma Reassociate(p: nat, t: nat)
    requires p * t == DWORD_MOD
    ensures QWORD_MOD == p * (DWORD_MOD * t)
  {
    assert p * (DWORD_MOD * t) == (p * t) * DWORD_MOD;
  }

  lemma ShiftedPattern(s: int, n: nat)
    requires n <= 32 && -0x8000_0000 <= s < 0
    ensures (s + QWORD_MOD) / Pow2(n) % DWORD_MOD == s / Pow2(n) + DWORD_MOD
  {
    var t := QwordMultiple(n);
    DivShift(s, Pow2(n), DWORD_MOD * t);
    NegativeQuotient(s, n);
    FloorUnique(s / Pow2(n) + DWORD_MOD * t, DWORD_MOD, t - 1, s / Pow2(n) + DWORD_MOD);
  }

  /** A negative register value with its high bits set is the 64-bit pattern of the signed number. */
  lemma ExtendedPattern(value: nat, s: int, long: bool)
    requires Fits(s, Half(long)) && s < 0 && value % Modulus(long) == s % Modulus(long)
    ensures OrHigh(value, long) == s + QWORD_MOD
  {
    FloorUnique(s, Modulus(long), -1, s + Modulus(long));
  }

  /** Truncated to 32 bits, a small negative number still has its register residue. */
  lemma NegativeResidue(q: int, long: bool)
    ensures (q + DWORD_MOD) % Modulus(long) == q % Modulus(long)
  {
    if long {
      DivShift(q, DWORD_MOD, 1);
    } else {
      DivShift(q, WORD_MOD, WORD_MOD);
    }
  }

  // ----- the shifter -----

  /** The exact result of a count, before it is cut to the register width. */
  function Shifted(value: int, shift: nat): int
    requires shift < 64
  {
    if shift < 32 then value * Pow2(shift) else value / Pow2(64 - shift)
  }

  /** The last bit a count moves out of the register; none for a count of zero. */
  function CarryOut(value: nat, shift: nat, long: bool): bool
    requires shift < 64
  {
    if shift == 0 then false
    else if shift < 32 then Bit(value * Pow2(shift), Modulus(long))
    else Signed(value, long) / Pow2(63 - shift) % 2 == 1
  }

  /**
   What the counts mean, one step at a time: 0 leaves the number, each count up to 31
   doubles what the one before gives, 63 halves it toward minus infinity, and each
   count below that halves what the next gives.
   */
  lemma CountByCount(value: int, shift: nat)
    requires shift < 64
    ensures Shifted(value, 0) == value && Shifted(value, 63) == value / 2
    ensures shift < 31 ==> Shifted(value, shift + 1) == 2 * Shifted(value, shift)
    ensures 32 < shift ==> Shifted(value, shift - 1) == Shifted(value, shift) / 2
  {
    assert Pow2(0) == 1 && Pow2(1) == 2;
    if shift < 31 {
      DoublingsProduct(value, shift);
      DoublingsProduct(value, shift + 1);
    } else if 32 < shift {
      HalfOfQuotient(value, Pow2(64 - shift));
    }
  }

  /** The carry is the bit that the last of these steps drops: from the top of the register, or from below. */
  lemma CarryIsDropped(value: nat, shift: nat, long: bool)
    requires value < Modulus(long) && shift < 64
    ensures !CarryOut(value, 0, long)
    ensures shift < 31 ==>
              CarryOut(value, shift + 1, long) == (value * Pow2(shift) % Modulus(long) >= Half(long))
    ensures CarryOut(value, 63, long) == (Signed(value, long) % 2 == 1)
    ensures 32 < shift ==> CarryOut(value, shift - 1, long) == (Shifted(Signed(value, long), shift) % 2 == 1)
  {
    assert Pow2(0) == 1;
    if shift < 31 {
      var x := value * Pow2(shift);
      DoublingsProduct(value, shift);
      DoublingsProduct(value, shift + 1);
      TopBit(x, Half(long));
      HalfOfQuotient(x, Half(long));
      TopBitOfDouble(x, Half(long));
    }
  }

  lemma TopBitOfDouble(x: nat, half: nat)
    requires half > 0
    ensures Bit(2 * x, 2 * half) <==> Bit(x, half)
  {
    DivMod(x, half);
    assert 2 * x == (2 * half) * (x / half) + 2 * (x % half);
    DivUnique(2 * x, 2 * half, x / half, 2 * (x % half));
  }

  /** The register's content as a two's complement number of 16 or 32 bits. */
  lemma SignedIs(value: nat, long: bool)
    requires value < if long then 0x1_0000_0000 else 0x1_0000
    ensures var s, half := Signed(value, long), if long then 0x8000_0000 else 0x8000;
            && (s - value) % (2 * half) == 0 && -half <= s < half
            && forall n: int :: Fits(n, Half(long)) <==> -half <= n < half
  {
  }

  /** The three things a count decides: the register's residue, the carry and the overflow. */
  ghost predicate Outcome(operand: nat, shift: nat, long: bool, value: nat, carry: bool, overflow: bool)
    requires shift < 64
  {
    var exact := Shifted(Signed(operand, long), shift);
    && value % Modulus(long) == exact % Modulus(long)
    && carry == CarryOut(operand, shift, long)
    && overflow == (shift < 32 && !Fits(exact, Half(long)))
  }

  lemma SignedResidue(value: nat, long: bool)
    requires value < Modulus(long)
    ensures var s := Signed(value, long);
            && s % Modulus(long) == value && Fits(s, Half(long))
            && Bit(value, Half(long)) == (s < 0)
  {
    TopBit(value, Half(long));
    SmallMod(value, Modulus(long));
    if value >= Half(long) {
      FloorUnique(value - Modulus(long), Modulus(long), -1, value);
    }
  }

  /** For every register value and every count. */
  method Shift(flags: Flags, operand: dword, shift: nat, long: bool) returns (result: dword)
    requires operand < Modulus(long) && shift < 64
    modifies flags
    ensures result == Shifted(Signed(operand, long), shift) % Modulus(long)
    ensures flags.c == CarryOut(operand, shift, long)
    ensures flags.v == (shift < 32 && !Fits(Shifted(Signed(operand, long), shift), Half(long)))
    ensures flags.n == (Signed(result, long) < 0) && flags.z == (result == 0)
  {
    var value, carry, overflow;
    if shift == 0 {
      value, carry, overflow := operand, false, false;
      ShiftNone(operand, long);
    } else if shift < 32 {
      value, carry, overflow := ShiftLeft(operand, shift, long);
    } else if shift == 32 {
      value, carry, overflow := ShiftAll(operand, long);
    } else {
      value, carry, overflow := ShiftRight(operand, shift, long);
    }
    flags.v := overflow;
    flags.c := carry;
    result := Cut(value, long);
    SignedResidue(result, long);
    flags.n := Bit(result, Half(long));
    flags.z := result == 0;
  }

  function Cut(value: dword, long: bool): (r: dword)
    ensures r == value % Modulus(long) && r < Modulus(long)
  {
    ModAtMost(value, Modulus(long));
    value % Modulus(long)
  }

  lemma ShiftNone(operand: dword, long: bool)
    requires operand < Modulus(long)
    ensures Outcome(operand, 0, long, operand, false, false)
  {
    SignedResidue(operand, long);
    SmallMod(operand, Modulus(long));
    assert Signed(operand, long) * Pow2(0) == Signed(operand, long);
  }

  /** A number doubled `n` times. */
  function Doublings(x: int, n: nat): int {
    if n == 0 then x else 2 * Doublings(x, n - 1)
  }

  lemma {:induction false} DoublingsProduct(x: int, n: nat)
    ensures Doublings(x, n) == x * Pow2(n)
    decreases n
  {
    if n > 0 {
      DoublingsProduct(x, n - 1);
      assert x * Pow2(n) == 2 * (x * Pow2(n - 1));
    }
  }

  method ShiftLeft(operand: dword, shift: nat, long: bool) returns (value: dword, carry: bool, overflow: bool)
    requires operand < Modulus(long) && 0 < shift < 32
    ensures Outcome(operand, shift, long, value, carry, overflow)
  {
    ghost var s := Signed(operand, long);
    carry := Bit(operand * Pow2(shift - 1) % DWORD_MOD, Half(long));
    LeftCarry(operand, shift, long);
    SignedResidue(operand, long);
    SmallMod(operand, Modulus(long));
    value, overflow := ShiftLoop(operand, s, shift, Bit(operand, Half(long)), long);
    DoublingsProduct(s, shift);
  }

  lemma LeftCarry(operand: dword, shift: nat, long: bool)
    requires 0 < shift < 32
    ensures Bit(operand * Pow2(shift - 1) % DWORD_MOD, Half(long)) == CarryOut(operand, shift, long)
  {
    var x := operand * Pow2(shift - 1);
    assert operand * Pow2(shift) == 2 * x by {
      DoublingsProduct(operand, shift - 1);
      DoublingsProduct(operand, shift);
    }
    LastBitOut(x, long);
  }

  method ShiftLoop(operand: dword, ghost s: int, shift: nat, sign: bool, long: bool)
    returns (value: dword, overflow: bool)
    requires operand % Modulus(long) == s % Modulus(long) && Fits(s, Half(long)) && sign == (s < 0)
    ensures value % Modulus(long) == Doublings(s, shift) % Modulus(long)
    ensures overflow == !Fits(Doublings(s, shift), Half(long))
  {
    value, overflow := operand, false;
    ghost var exact := s;
    for i := 0 to shift
      invariant exact == Doublings(s, i)
      invariant sign == (exact < 0)
      invariant value % Modulus(long) == exact % Modulus(long)
      invariant overflow == !Fits(exact, Half(long))
    {
      DoubleStep(value, exact, long);
      value := value * 2 % DWORD_MOD;
      if Bit(value, Half(long)) != sign {
        overflow := true;
      }
      exact := 2 * exact;
    }
  }

  /** Shifting right by the whole 32 bits leaves only the sign. */
  method ShiftAll(operand: dword, long: bool) returns (value: dword, carry: bool, overflow: bool)
    requires operand < Modulus(long)
    ensures Outcome(operand, 32, long, value, carry, overflow)
  {
    var sign := Bit(operand, Half(long));
    value := if sign then DWORD_MOD - 1 else 0;
    carry := sign;
    overflow := sign != Bit(value, Half(long));
    SignedResidue(operand, long);
    SignOnly(Signed(operand, long), 32);
    SignOnly(Signed(operand, long), 31);
    NegativeResidue(-1, long);
    TopBit(DWORD_MOD - 1, Half(long));
    AllOnes(long);
  }

  lemma SignOnly(s: int, n: nat)
    requires 31 <= n <= 32 && Fits(s, 0x8000_0000)
    ensures s / Pow2(n) == if s < 0 then -1 else 0
  {
    Pow2Values();
    assert Pow2(32) == 2 * Pow2(31);
    if s < 0 {
      FloorUnique(s, Pow2(n), -1, s + Pow2(n));
    } else {
      FloorUnique(s, Pow2(n), 0, s);
    }
  }

  lemma AllOnes(long: bool)
    ensures (-1) % Modulus(long) == Modulus(long) - 1
  {
    FloorUnique(-1, Modulus(long), -1, Modulus(long) - 1);
  }

  method ShiftRight(operand: dword, shift: nat, long: bool) returns (value: dword, carry: bool, overflow: bool)
    requires operand < Modulus(long) && 32 < shift < 64
    ensures Outcome(operand, shift, long, value, carry, overflow)
  {
    var n := 63 - shift;
    var sign := Bit(operand, Half(long));
    SignedResidue(operand, long);
    if sign {
      value := OrHigh(operand, long) / Pow2(n) % DWORD_MOD;
      carry := value % 2 == 1;
      RightNegative(operand, n, long);
      value := OrHigh(value, long) / 2 % DWORD_MOD;
    } else {
      RightPositive(operand, n, long);
      value := operand / Pow2(n);
      carry := value % 2 == 1;
      value := value / 2;
    }
    overflow := sign != Bit(value, Half(long));
  }

  lemma RightPositive(operand: dword, n: nat, long: bool)
    requires operand < Half(long)
    ensures 0 <= operand / Pow2(n) / 2 < Half(long) && operand / Pow2(n) < DWORD_MOD
    ensures operand / Pow2(n) / 2 == operand / Pow2(n + 1)
    ensures !Bit(operand / Pow2(n) / 2, Half(long))
  {
    ModAtMost(operand, Pow2(n));
    HalfOfQuotient(operand, Pow2(n));
    TopBit(operand / Pow2(n) / 2, Half(long));
    SmallMod(operand / Pow2(n) / 2, Modulus(long));
  }

  /** Both stages of a negative right shift: one bit short of the count, then the last bit. */
  lemma RightNegative(operand: dword, n: nat, long: bool)
    requires operand < Modulus(long) && n <= 30 && Signed(operand, long) < 0
    ensures var s := Signed(operand, long); var first := OrHigh(operand, long) / Pow2(n) % DWORD_MOD;
            var second := OrHigh(first, long) / 2 % DWORD_MOD;
            && (first % 2 == 1) == (s / Pow2(n) % 2 == 1)
            && second % Modulus(long) == (s / Pow2(n + 1)) % Modulus(long)
            && Bit(second, Half(long))
  {
    var s := Signed(operand, long);
    SignedResidue(operand, long);
    SmallMod(operand, Modulus(long));
    ExtendedPattern(operand, s, long);
    ShiftedPattern(s, n);
    NegativeQuotient(s, n);
    var q := s / Pow2(n);
    NegativeResidue(q, long);
    DivShift(q, 2, DWORD_MOD / 2);
    HalfOfQuotient(s, Pow2(n));
    LastRightBit(q, long);
  }

  lemma LastRightBit(q: int, long: bool)
    requires Fits(q, Half(long)) && q < 0 && (q + DWORD_MOD) % Modulus(long) == q % Modulus(long)
    ensures var second := OrHigh(q + DWORD_MOD, long) / 2 % DWORD_MOD;
            second % Modulus(long) == (q / 2) % Modulus(long) && Bit(second, Half(long))
  {
    ExtendedPattern(q + DWORD_MOD, q, long);
    assert Pow2(1) == 2;
    ShiftedPattern(q, 1);
    NegativeResidue(q / 2, long);
    FloorUnique(q / 2, Modulus(long), -1, q / 2 + Modulus(long));
    TopBit(q / 2 + DWORD_MOD, Half(long));
  }
}
