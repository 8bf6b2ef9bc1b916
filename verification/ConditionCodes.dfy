/**
 The condition codes of the arithmetic instructions, and the branches that read
 them. Operands are registers or fetched values; byte forms use the low byte.
 */
module ConditionCodes {
  import opened Words

  class Flags {
    var n: bool
    var z: bool
    var v: bool
    var c: bool

    constructor ()
      ensures !n && !z && !v && !c
    {
      n, z, v, c := false, false, false, false;
    }
  }

  function Range(byteMode: bool): (m: nat)
    ensures m == 0x100 || m == WORD_MOD
  {
    if byteMode then 0x100 else WORD_MOD
  }

  /** The operand as a two's complement number. */
  function SignedValue(x: nat, byteMode: bool): int {
    if 2 * x < Range(byteMode) then x else x - Range(byteMode)
  }

  /** The number is the operand modulo its range, in the middle around zero; the sign bit says when it is negative. */
  lemma SignedIs(x: nat, byteMode: bool)
    requires x < if byteMode then 0x100 else 0x1_0000
    ensures var s, half := SignedValue(x, byteMode), if byteMode then 0x80 else 0x8000;
            && (s - x) % (2 * half) == 0 && -half <= s < half && (s < 0 <==> Sign(x, byteMode))
            && forall n: int :: Representable(n, byteMode) <==> -half <= n < half
  {
  }

  /** The sign bit of an operand. */
  predicate Sign(x: nat, byteMode: bool) {
    2 * x >= Range(byteMode)
  }

  predicate Representable(x: int, byteMode: bool) {
    -(Range(byteMode) as int) <= 2 * x < Range(byteMode)
  }

  /** A difference or sum cut to the operand size; it wraps at most once. */
  function Wrapped(x: int, byteMode: bool): (r: nat)
    requires -(Range(byteMode) as int) <= x < 2 * Range(byteMode)
    ensures r < Range(byteMode) && r == x % Range(byteMode)
  {
    var m := Range(byteMode);
    if x < 0 then
      FloorUnique(x, m, -1, x + m);
      x + m
    else if x >= m then
      FloorUnique(x, m, 1, x - m);
      x - m
    else
      FloorUnique(x, m, 0, x);
      x
  }

  // ----- comparison and branches -----

  /** What the four flags mean after comparing two operands. */
  ghost predicate Compared(n: bool, z: bool, v: bool, c: bool, src: nat, dst: nat, byteMode: bool) {
    var difference := SignedValue(src, byteMode) - SignedValue(dst, byteMode);
    && v == !Representable(difference, byteMode)
    && n == (if v then difference >= 0 else difference < 0)
    && z == (src == dst)
    && c == (src < dst)
  }

  /** CMP and CMPB: V is bit 15 (or 7) of (src ^ dst) & (~dst ^ difference). */
  method Compare(flags: Flags, src: nat, dst: nat, byteMode: bool)
    requires src < Range(byteMode) && dst < Range(byteMode)
    modifies flags
    ensures Compared(flags.n, flags.z, flags.v, flags.c, src, dst, byteMode)
  {
    var temp := Wrapped(src - dst, byteMode);
    flags.n := Sign(temp, byteMode);
    flags.z := temp == 0;
    flags.v := Sign(src, byteMode) != Sign(dst, byteMode) && Sign(dst, byteMode) == Sign(temp, byteMode);
    flags.c := src < dst;
  }

  datatype Branch = BR | BNE | BEQ | BGE | BLT | BGT | BLE | BPL | BMI | BHI | BLOS | BVC | BVS | BCC | BCS

  /** The branch an instruction word's high byte encodes, if any. */
  function Decoded(high: byte): Option<Branch> {
    match high
    case 1 => Some(BR)
    case 2 => Some(BNE)
    case 3 => Some(BEQ)
    case 4 => Some(BGE)
    case 5 => Some(BLT)
    case 6 => Some(BGT)
    case 7 => Some(BLE)
    case 128 => Some(BPL)
    case 129 => Some(BMI)
    case 130 => Some(BHI)
    case 131 => Some(BLOS)
    case 132 => Some(BVC)
    case 133 => Some(BVS)
    case 134 => Some(BCC)
    case 135 => Some(BCS)
    case _ => None
  }

  /** Whether the instruction branches; nothing when it is not a branch. */
  function Evaluated(high: byte, n: bool, z: bool, v: bool, c: bool): Option<bool> {
    var b := Decoded(high);
    if b.None? then None else Some(Taken(b.value, n, z, v, c))
  }

  function Taken(b: Branch, n: bool, z: bool, v: bool, c: bool): bool {
    match b
    case BR => true
    case BNE => !z
    case BEQ => z
    case BGE => n == v
    case BLT => n != v
    case BGT => n == v && !z
    case BLE => n != v || z
    case BPL => !n
    case BMI => n
    case BHI => !c && !z
    case BLOS => c || z
    case BVC => !v
    case BVS => v
    case BCC => !c
    case BCS => c
  }

  /**
   After a comparison the branch opcodes 4 to 7 follow the signed order, 130, 131,
   134 and 135 the unsigned order, and 2 and 3 equality.
   */
  lemma BranchesFollowOrder(n: bool, z: bool, v: bool, c: bool, src: nat, dst: nat, byteMode: bool)
    requires src < Range(byteMode) && dst < Range(byteMode)
    requires Compared(n, z, v, c, src, dst, byteMode)
    ensures var s, d := SignedValue(src, byteMode), SignedValue(dst, byteMode);
            && Evaluated(4, n, z, v, c) == Some(s >= d) && Evaluated(5, n, z, v, c) == Some(s < d)
            && Evaluated(6, n, z, v, c) == Some(s > d) && Evaluated(7, n, z, v, c) == Some(s <= d)
    ensures Evaluated(130, n, z, v, c) == Some(src > dst) && Evaluated(131, n, z, v, c) == Some(src <= dst)
    ensures Evaluated(134, n, z, v, c) == Some(src >= dst) && Evaluated(135, n, z, v, c) == Some(src < dst)
    ensures Evaluated(2, n, z, v, c) == Some(src != dst) && Evaluated(3, n, z, v, c) == Some(src == dst)
  {
    var s, d := SignedValue(src, byteMode), SignedValue(dst, byteMode);
    assert (s == d) == (src == dst);
  }

  /** The other branches: always, on the sign, and on overflow; no other opcode of these is a branch. */
  lemma SingleFlagBranches(high: byte, n: bool, z: bool, v: bool, c: bool)
    ensures Evaluated(1, n, z, v, c) == Some(true)
    ensures Evaluated(128, n, z, v, c) == Some(!n) && Evaluated(129, n, z, v, c) == Some(n)
    ensures Evaluated(132, n, z, v, c) == Some(!v) && Evaluated(133, n, z, v, c) == Some(v)
    ensures Evaluated(high, n, z, v, c).None? <==> !(1 <= high < 8 || 128 <= high < 136)
  {
  }

  // ----- addition and subtraction -----

  class Alu {
    const flags: Flags
    const r: array<word>

    ghost predicate Valid()
      reads this
    {
      r.Length == 8
    }

    constructor ()
      ensures Valid() && fresh(flags) && fresh(r)
    {
      flags := new Flags();
      r := new word[8](_ => 0);
    }

    /** ADD src,dst: C is the carry out, V the signed overflow. */
    method Add(src: nat, dst: nat)
      requires Valid() && src < 8 && dst < 8
      modifies flags, r
      ensures var a, b := old(r[src]) as int, old(r[dst]) as int;
              && r[..] == old(r[..])[dst := Wrapped(a + b, false)]
              && flags.c == (a + b >= WORD_MOD)
              && flags.v == !Representable(SignedValue(a, false) + SignedValue(b, false), false)
              && flags.n == (SignedValue(r[dst], false) < 0) && flags.z == (r[dst] == 0)
    {
      var a: int, b: int := r[src], r[dst];
      var result: word := Wrapped(a + b, false);
      r[dst] := result;
      flags.v := Sign(a, false) == Sign(b, false) && Sign(a, false) != Sign(result, false);
      flags.c := result < a;
      flags.n := Sign(result, false);
      flags.z := result == 0;
    }

    /** SUB src,dst: C is the borrow, V the signed overflow. */
    method Sub(src: nat, dst: nat)
      requires Valid() && src < 8 && dst < 8
      modifies flags, r
      ensures var a, b := old(r[src]) as int, old(r[dst]) as int;
              && r[..] == old(r[..])[dst := Wrapped(b - a, false)]
              && Compared(flags.n, flags.z, flags.v, flags.c, b, a, false)
    {
      var a: int, b: int := r[src], r[dst];
      var result: word := Wrapped(b - a, false);
      r[dst] := result;
      flags.v := Sign(a, false) != Sign(b, false) && Sign(a, false) == Sign(result, false);
      flags.c := b < a;
      flags.n := Sign(result, false);
      flags.z := result == 0;
    }

    /** ADC and ADCB on an operand, wherever it was fetched: adds the carry and passes it on. */
    method AdcOperand(vo: nat, byteMode: bool) returns (value: nat)
      requires Valid() && vo < Range(byteMode)
      modifies flags
      ensures var c := if old(flags.c) then 1 else 0;
              && value == Wrapped(vo + c, byteMode)
              && flags.c == (vo + c >= Range(byteMode))
              && flags.v == !Representable(SignedValue(vo, byteMode) + c, byteMode)
              && flags.n == (SignedValue(value, byteMode) < 0) && flags.z == (value == 0)
    {
      var carry := flags.c;
      value := Wrapped(vo + if carry then 1 else 0, byteMode);
      flags.n := Sign(value, byteMode);
      flags.z := value == 0;
      flags.v := (if byteMode then vo == 0x7F else vo == 0x7FFF) && carry;
      flags.c := (if byteMode then vo == 0xFF else vo == 0xFFFF) && carry;
    }

    /** SBC and SBCB on an operand: subtracts the borrow and passes it on. */
    method SbcOperand(vo: nat, byteMode: bool) returns (value: nat)
      requires Valid() && vo < Range(byteMode)
      modifies flags
      ensures var c := if old(flags.c) then 1 else 0;
              && value == Wrapped(vo - c, byteMode)
              && flags.c == (vo < c)
              && flags.v == !Representable(SignedValue(vo, byteMode) - c, byteMode)
              && flags.n == (SignedValue(value, byteMode) < 0) && flags.z == (value == 0)
    {
      var carry := flags.c;
      value := Wrapped(vo - if carry then 1 else 0, byteMode);
      flags.n := Sign(value, byteMode);
      flags.z := value == 0;
      flags.v := (if byteMode then vo == 0x80 else vo == 0x8000) && carry;
      flags.c := vo == 0 && carry;
    }

    /** ADC dst on a register; a byte form leaves the high byte alone. */
    method Adc(dst: nat, byteMode: bool)
      requires Valid() && dst < 8
      modifies flags, r
      ensures var b := Operand(old(r[dst]), byteMode); var c := if old(flags.c) then 1 else 0;
              && r[..] == old(r[..])[dst := Replaced(old(r[dst]), Wrapped(b + c, byteMode), byteMode)]
              && flags.c == (b + c >= Range(byteMode))
              && flags.v == !Representable(SignedValue(b, byteMode) + c, byteMode)
              && flags.n == (SignedValue(Operand(r[dst], byteMode), byteMode) < 0)
              && flags.z == (Operand(r[dst], byteMode) == 0)
    {
      var value := AdcOperand(Operand(r[dst], byteMode), byteMode);
      r[dst] := Replaced(r[dst], value, byteMode);
    }

    /** SBC dst on a register. */
    method Sbc(dst: nat, byteMode: bool)
      requires Valid() && dst < 8
      modifies flags, r
      ensures var b := Operand(old(r[dst]), byteMode); var c := if old(flags.c) then 1 else 0;
              && r[..] == old(r[..])[dst := Replaced(old(r[dst]), Wrapped(b - c, byteMode), byteMode)]
              && flags.c == (b < c)
              && flags.v == !Representable(SignedValue(b, byteMode) - c, byteMode)
              && flags.n == (SignedValue(Operand(r[dst], byteMode), byteMode) < 0)
              && flags.z == (Operand(r[dst], byteMode) == 0)
    {
      var value := SbcOperand(Operand(r[dst], byteMode), byteMode);
      r[dst] := Replaced(r[dst], value, byteMode);
    }

    /** ADD low,low ; ADC high, and what they leave of the source's high word. */
    method AddLow(hi: nat, lo: nat, dhi: nat, dlo: nat)
      requires Valid() && hi < 8 && lo < 8 && dhi < 8 && dlo < 8 && dhi != dlo
      modifies flags, r
      ensures var l, dl, dh := old(r[lo]) as int, old(r[dlo]) as int, old(r[dhi]) as int;
              && r[dlo] == Wrapped(l + dl, false)
              && r[dhi] == Wrapped(dh + if l + dl >= WORD_MOD then 1 else 0, false)
      ensures r[hi] == old(r[hi]) <==>
              && (hi == dhi ==> old(r[lo]) as int + old(r[dlo]) < WORD_MOD)
              && (hi == dlo ==> old(r[lo]) == 0)
    {
      Add(lo, dlo);
      Adc(dhi, false);
    }

    method SubLow(hi: nat, lo: nat, dhi: nat, dlo: nat)
      requires Valid() && hi < 8 && lo < 8 && dhi < 8 && dlo < 8 && dhi != dlo
      modifies flags, r
      ensures var l, dl, dh := old(r[lo]) as int, old(r[dlo]) as int, old(r[dhi]) as int;
              && r[dlo] == Wrapped(dl - l, false)
              && r[dhi] == Wrapped(dh - if dl < l then 1 else 0, false)
      ensures r[hi] == old(r[hi]) <==>
              && (hi == dhi ==> old(r[lo]) <= old(r[dlo]))
              && (hi == dlo ==> old(r[lo]) == 0)
    {
      Sub(lo, dlo);
      Sbc(dhi, false);
    }

    /**
     ADD low,low ; ADC high ; ADD high,high is a 32-bit addition unless an earlier
     step has already changed the source's high word: where it is the destination's
     high word and a carry came in, or its low word and something was added.
     */
    method AddPair(hi: nat, lo: nat, dhi: nat, dlo: nat)
      requires Valid() && hi < 8 && lo < 8 && dhi < 8 && dlo < 8 && dhi != dlo
      modifies flags, r
      ensures Pair(r[dhi], r[dlo]) ==
              (Pair(old(r[hi]), old(r[lo])) + Pair(old(r[dhi]), old(r[dlo]))) % DWORD_MOD <==>
              && (hi == dhi ==> old(r[lo]) as int + old(r[dlo]) < WORD_MOD)
              && (hi == dlo ==> old(r[lo]) == 0)
    {
      ghost var h, l, dh, dl := r[hi], r[lo], r[dhi], r[dlo];
      AddLow(hi, lo, dhi, dlo);
      ghost var x := r[hi];
      Add(hi, dhi);
      PairSum(h, l, dh, dl, x, r[dhi], r[dlo]);
    }

    /** SUB low,low ; SBC high ; SUB high,high is a 32-bit subtraction, with the same exceptions. */
    method SubPair(hi: nat, lo: nat, dhi: nat, dlo: nat)
      requires Valid() && hi < 8 && lo < 8 && dhi < 8 && dlo < 8 && dhi != dlo
      modifies flags, r
      ensures Pair(r[dhi], r[dlo]) ==
              (Pair(old(r[dhi]), old(r[dlo])) - Pair(old(r[hi]), old(r[lo]))) % DWORD_MOD <==>
              && (hi == dhi ==> old(r[lo]) <= old(r[dlo]))
              && (hi == dlo ==> old(r[lo]) == 0)
    {
      ghost var h, l, dh, dl := r[hi], r[lo], r[dhi], r[dlo];
      SubLow(hi, lo, dhi, dlo);
      ghost var x := r[hi];
      Sub(hi, dhi);
      PairDifference(h, l, dh, dl, x, r[dhi], r[dlo]);
    }
  }

  /** The part of a register an instruction works on. */
  function Operand(w: word, byteMode: bool): (v: nat)
    ensures v < Range(byteMode)
  {
    if byteMode then w % 0x100 else w
  }

  /** A register with that part replaced. */
  function Replaced(w: word, value: nat, byteMode: bool): (r: word)
    requires value < Range(byteMode)
    ensures Operand(r, byteMode) == value
  {
    if byteMode then
      DivUnique(w / 0x100 * 0x100 + value, 0x100, w / 0x100, value);
      w / 0x100 * 0x100 + value
    else value
  }

  /** A byte operation leaves the other half of the register. */
  lemma OtherHalfKept(w: word, value: nat, byteMode: bool)
    requires value < Range(byteMode)
    ensures byteMode ==>
              Replaced(w, value, byteMode) / 0x100 == w / 0x100 && Replaced(w, value, byteMode) % 0x100 == value
    ensures !byteMode ==> Replaced(w, value, byteMode) == value
  {
    if byteMode {
      DivUnique(w / 0x100 * 0x100 + value, 0x100, w / 0x100, value);
    }
  }

  /** Adding `x` for the high word gives the sum exactly when `x` is the high word. */
  lemma PairSum(h: word, l: word, dh: word, dl: word, x: word, high: word, low: word)
    requires low == Wrapped(l as int + dl, false)
    requires var c := if l as int + dl >= WORD_MOD then 1 else 0;
             high == Wrapped(Wrapped(dh as int + c, false) + x as int, false)
    ensures Pair(high, low) == (Pair(h, l) + Pair(dh, dl)) % DWORD_MOD <==> x == h
  {
    var c := if l as int + dl >= WORD_MOD then 1 else 0;
    var d1 := Wrapped(dh as int + c, false);
    var sum := Wrapped(d1 + h as int, false);
    var q := (if dh as int + c >= WORD_MOD then 1 else 0) + (if d1 + h as int >= WORD_MOD then 1 else 0);
    FloorUnique(Pair(h, l) + Pair(dh, dl), DWORD_MOD, q, Pair(sum, low));
  }

  lemma PairDifference(h: word, l: word, dh: word, dl: word, x: word, high: word, low: word)
    requires low == Wrapped(dl as int - l, false)
    requires var c := if dl < l then 1 else 0;
             high == Wrapped(Wrapped(dh as int - c, false) - x as int, false)
    ensures Pair(high, low) == (Pair(dh, dl) - Pair(h, l)) % DWORD_MOD <==> x == h
  {
    var c := if dl < l then 1 else 0;
    var d1 := Wrapped(dh as int - c, false);
    var difference := Wrapped(d1 - h as int, false);
    var q := (if dh as int - c < 0 then 1 else 0) + (if d1 - h as int < 0 then 1 else 0);
    FloorUnique(Pair(dh, dl) - Pair(h, l), DWORD_MOD, -q, Pair(difference, low));
  }

  /** Two registers as one 32-bit number. */
  function Pair(high: word, low: word): dword {
    high as int * WORD_MOD + low
  }
}
