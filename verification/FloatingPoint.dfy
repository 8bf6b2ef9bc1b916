/**
 FP11 single precision against the host's floating point, taken as exact reals.
 A number is a sign, an excess-128 exponent and 23 fraction bits below a hidden
 leading one; a zero exponent field is the number zero.
 */
module FloatingPoint {
  import opened Words

  const FRACTION_BITS: nat := 23
  const EXCESS := 128
  const HIDDEN: nat := 0x80_0000  // the hidden one, in units of 2^-24

  /** The two words of a single precision operand. */
  datatype Single = Single(high: word, low: word)

  const ZERO := Single(0, 0)

  function Negative(w: Single): bool {
    w.high >= 0x8000
  }

  function Exponent(w: Single): (e: nat)
    ensures e < 256
  {
    w.high / 0x80 % 0x100
  }

  function Fraction(w: Single): (f: nat)
    ensures f < 0x80_0000
  {
    w.high % 0x80 * WORD_MOD + w.low
  }

  function Pack(negative: bool, exponent: nat, fraction: nat): Single
    requires exponent < 256 && fraction < 0x80_0000
  {
    Single(If(negative, 0x8000) + exponent * 0x80 + fraction / WORD_MOD, fraction % WORD_MOD)
  }

  function Scale(e: int): (s: real)
    ensures s > 0.0
    decreases if e < 0 then -e else e
  {
    if e == 0 then 1.0 else if e > 0 then 2.0 * Scale(e - 1) else Scale(e + 1) / 2.0
  }

  function Abs(x: real): real {
    if x < 0.0 then -x else x
  }

  /** The distance from an operand to the next larger one of its exponent. */
  function Ulp(exponent: int): (u: real)
    ensures u > 0.0
  {
    Scale(exponent - EXCESS - 24)
  }

  /** The mantissa 0.1f in units of 2^-24. */
  function Units(w: Single): (u: nat)
    ensures HIDDEN <= u < 2 * HIDDEN
  {
    HIDDEN + Fraction(w)
  }

  function Product(a: real, b: real): real {
    a * b
  }

  /** `k` steps of size `u`. */
  function Steps(k: nat, u: real): real {
    Product(k as real, u)
  }

  /** 0.1f × 2^(e - 128), counted in ulps. */
  function Magnitude(w: Single): real {
    Steps(Units(w), Ulp(Exponent(w)))
  }

  /** The value of an operand. */
  function Value(w: Single): real {
    if Exponent(w) == 0 then 0.0
    else if Negative(w) then -Magnitude(w)
    else Magnitude(w)
  }

  /**
   The value in the operand's own bits: sign, exponent field `e` and fraction `f` stand
   for (2^23 + f) / 2^24 times 2^(e - 128); so 0x4080, 0 is one.
   */
  lemma ValueOfFields(w: Single, negative: bool, e: nat, f: nat)
    requires 0 < e < 256 && f < 0x80_0000 && w.high == If(negative, 0x8000) + e * 0x80 + f / 0x1_0000
    requires w.low == f % 0x1_0000
    ensures 16777216.0 * Value(w) == (if negative then -1.0 else 1.0) * Steps(0x80_0000 + f, Scale(e - 128))
  {
    var q := f / 0x1_0000;
    DivUnique(w.high, 0x80, If(negative, 0x100) + e, q);
    DivUnique(If(negative, 0x100) + e, 0x100, If(negative, 1), e);
    ScaleUp24(e - 152);
    SixteenMillion((0x80_0000 + f) as real, Ulp(e));
  }

  lemma SixteenMillion(k: real, u: real)
    ensures 16777216.0 * Product(k, u) == Product(k, 16777216.0 * u)
  {
  }

  lemma ValueOfOne()
    ensures Value(Single(0x4080, 0)) == 1.0 && Value(Single(0xC100, 0)) == -2.0 && Value(Single(0x4040, 0)) == 0.75
  {
    ValueOfFields(Single(0x4080, 0), false, 129, 0);
    ValueOfFields(Single(0xC100, 0), true, 130, 0);
    ValueOfFields(Single(0x4040, 0), false, 128, 0x40_0000);
    assert Scale(1) == 2.0 && Scale(2) == 4.0;
    StepsOfConstants(2.0);
    StepsOfConstants(4.0);
  }

  predicate InRange(x: real) {
    Scale(-EXCESS) <= Abs(x) < Scale(127)
  }

  /** `w` is `x` rounded toward zero, or zero when the exponent field cannot hold `x`. */
  ghost predicate Truncates(x: real, w: Single) {
    if InRange(x) then
      && Exponent(w) != 0 && Negative(w) == (x < 0.0)
      && Magnitude(w) <= Abs(x) < Magnitude(w) + Ulp(Exponent(w))
    else w == ZERO
  }

  // ----- scales -----

  lemma ScaleStep(e: int)
    ensures Scale(e + 1) == 2.0 * Scale(e)
  {
  }

  lemma {:induction false} ScaleMonotone(a: int, b: int)
    requires a <= b
    ensures Scale(a) <= Scale(b)
    decreases b - a
  {
    if a < b {
      ScaleStep(b - 1);
      ScaleMonotone(a, b - 1);
    }
  }

  lemma ScaleUp24(e: int)
    ensures Scale(e + 24) == 16777216.0 * Scale(e)
  {
    ScaleUp8(e);
    ScaleUp8(e + 8);
    ScaleUp8(e + 16);
  }

  lemma ScaleUp8(e: int)
    ensures Scale(e + 8) == 256.0 * Scale(e)
  {
    ScaleStep(e);
    ScaleStep(e + 1);
    ScaleStep(e + 2);
    ScaleStep(e + 3);
    ScaleStep(e + 4);
    ScaleStep(e + 5);
    ScaleStep(e + 6);
    ScaleStep(e + 7);
  }

  lemma StepsOrder(j: nat, k: nat, u: real)
    requires j < k && u > 0.0
    ensures Steps(j, u) + u <= Steps(k, u)
  {
    OrderedProducts(j as real, k as real, u);
  }

  lemma OrderedProducts(a: real, b: real, u: real)
    requires a + 1.0 <= b && u > 0.0
    ensures Product(a, u) + u <= Product(b, u)
  {
    NonNegativeProduct(b - a - 1.0, u);
    Distribute(b - a, 1.0, u);
    Distribute(b, a, u);
    assert Product(1.0, u) == u;
  }

  lemma NonNegativeProduct(d: real, u: real)
    requires d >= 0.0 && u >= 0.0
    ensures Product(d, u) >= 0.0
  {
  }

  lemma StepsOfConstants(u: real)
    ensures Steps(HIDDEN, u) == 8388608.0 * u && Steps(2 * HIDDEN, u) == 16777216.0 * u
  {
  }

  // ----- uniqueness of the truncation -----

  lemma Unpacked(w: Single)
    ensures Pack(Negative(w), Exponent(w), Fraction(w)) == w
  {
    var f := Fraction(w);
    DivUnique(f, WORD_MOD, w.high % 0x80, w.low);
    assert w.high == w.high / 0x80 * 0x80 + w.high % 0x80;
    assert w.high / 0x80 == If(Negative(w), 0x100) + Exponent(w) by {
      if Negative(w) {
        DivUnique(w.high / 0x80, 0x100, 1, w.high / 0x80 - 0x100);
      } else {
        DivUnique(w.high / 0x80, 0x100, 0, w.high / 0x80);
      }
    }
  }

  /** An operand and its ulp stay inside the binade of its exponent. */
  lemma Binade(w: Single)
    ensures var s, u := Scale(Exponent(w) - EXCESS), Ulp(Exponent(w));
            s / 2.0 <= Magnitude(w) && Magnitude(w) + u <= s && 8388608.0 * u <= Magnitude(w)
  {
    var u := Ulp(Exponent(w));
    ScaleUp24(Exponent(w) - EXCESS - 24);
    StepsOfConstants(u);
    StepsOrder(Units(w), 2 * HIDDEN, u);
    if Units(w) > HIDDEN {
      StepsOrder(HIDDEN, Units(w), u);
    }
  }

  lemma ExponentOrder(x: real, v: Single, w: Single)
    requires InRange(x) && Truncates(x, v) && Truncates(x, w)
    ensures Exponent(v) <= Exponent(w)
  {
    Binade(v);
    Binade(w);
    if Exponent(w) < Exponent(v) {
      ScaleMonotone(Exponent(w) - EXCESS, Exponent(v) - EXCESS - 1);
      ScaleStep(Exponent(v) - EXCESS - 1);
    }
  }

  /** Truncation determines the operand: nothing but the format's own result satisfies `Truncates`. */
  lemma TruncationUnique(x: real, v: Single, w: Single)
    requires Truncates(x, v) && Truncates(x, w)
    ensures v == w
  {
    if InRange(x) {
      ExponentOrder(x, v, w);
      ExponentOrder(x, w, v);
      if Fraction(v) < Fraction(w) {
        StepsOrder(Units(v), Units(w), Ulp(Exponent(v)));
      } else if Fraction(w) < Fraction(v) {
        StepsOrder(Units(w), Units(v), Ulp(Exponent(v)));
      }
      Unpacked(v);
      Unpacked(w);
    }
  }

  /** An operand is its own truncation exactly when its exponent field is nonzero or it is the zero operand. */
  lemma OwnTruncation(w: Single)
    ensures Truncates(Value(w), w) <==> Exponent(w) != 0 || w == ZERO
  {
    ScaleMonotone(-EXCESS, 127);
    if Exponent(w) == 0 {
      assert !InRange(0.0);
    } else {
      Binade(w);
      ScaleMonotone(1 - EXCESS, Exponent(w) - EXCESS);
      ScaleMonotone(Exponent(w) - EXCESS, 127);
      ScaleStep(-EXCESS);
    }
  }

  /** Truncation never moves away from zero and loses less than 2^-23 of the value. */
  lemma RelativeError(x: real, w: Single)
    requires InRange(x) && Truncates(x, w)
    ensures 0.0 <= Abs(x) - Abs(Value(w)) < Abs(x) / 8388608.0
    ensures x < 0.0 <==> Value(w) < 0.0
  {
    Binade(w);
  }

  // ----- fp_to_double -----

  /** The leading `k` of the 23 fraction bits, as a number. */
  function Leading(f: nat, k: nat): nat
    requires k <= FRACTION_BITS
  {
    if k == 0 then 0 else 2 * Leading(f, k - 1) + If(Bit(f, Pow2(FRACTION_BITS - k)), 1)
  }

  lemma {:induction false} LeadingQuotient(f: nat, k: nat)
    requires k <= FRACTION_BITS && f < Pow2(FRACTION_BITS)
    ensures Leading(f, k) == f / Pow2(FRACTION_BITS - k)
  {
    if k == 0 {
      DivUnique(f, Pow2(FRACTION_BITS), 0, f);
    } else {
      LeadingQuotient(f, k - 1);
      HalfOfQuotient(f, Pow2(FRACTION_BITS - k));
    }
  }

  lemma LeadingAll(f: nat)
    requires f < HIDDEN
    ensures Leading(f, FRACTION_BITS) == f
  {
    Pow2Values();
    Pow2Add(16, 7);
    LeadingQuotient(f, FRACTION_BITS);
    assert Pow2(0) == 1;
  }

  lemma StepsDouble(j: nat, b: bool, p: real)
    ensures Steps(2 * j + If(b, 1), p) == Steps(j, 2.0 * p) + if b then p else 0.0
  {
    assert (2 * j + If(b, 1)) as real == 2.0 * j as real + if b then 1.0 else 0.0;
    DoubledProduct(j as real, if b then 1.0 else 0.0, p);
  }

  lemma DoubledProduct(j: real, b: real, p: real)
    ensures Product(2.0 * j + b, p) == Product(j, 2.0 * p) + b * p
  {
  }

  /** The fraction sits 32 bits up in the 64-bit register the loops test. */
  lemma PlacedBit(f: nat, k: nat)
    requires k < FRACTION_BITS
    ensures Bit(f * DWORD_MOD, Pow2(54 - k)) == Bit(f, Pow2(22 - k))
  {
    Pow2Values();
    Pow2Add(22 - k, 32);
    CommonFactor(f, Pow2(22 - k), DWORD_MOD);
  }

  lemma CommonFactor(f: nat, p: nat, m: nat)
    requires p > 0 && m > 0
    ensures (f * m) / (p * m) == f / p
  {
    var q, r := f / p, f % p;
    DivMod(f, p);
    assert f * m == (p * m) * q + r * m;
    MulStep(m, r, p);
    assert r * m < p * m;
    DivUnique(f * m, p * m, q, r * m);
  }

  method ToDouble(w: Single) returns (value: real)
    ensures value == Value(w)
  {
    var exponent := Exponent(w);
    if exponent == 0 {
      return 0.0;
    }
    var fraction := Fraction(w) * DWORD_MOD;
    var mantissa := SumPlaces(fraction, Fraction(w));
    value := mantissa * Scale(exponent - EXCESS);
    MantissaUlps(w, mantissa);
    if Negative(w) {
      value := -value;
    }
  }

  lemma MantissaUlps(w: Single, mantissa: real)
    requires mantissa == Steps(Units(w), 1.0 / 16777216.0)
    ensures mantissa * Scale(Exponent(w) - EXCESS) == Magnitude(w)
  {
    var u, k := Ulp(Exponent(w)), Units(w) as real;
    ScaleUp24(Exponent(w) - EXCESS - 24);
    assert (k * (1.0 / 16777216.0)) * (16777216.0 * u) == k * u;
  }

  /** The mantissa is summed place by place, from a half down. */
  method SumPlaces(fraction: nat, ghost f: nat) returns (mantissa: real)
    requires fraction == f * DWORD_MOD && f < HIDDEN
    ensures mantissa == Steps(HIDDEN + f, 1.0 / 16777216.0)
  {
    mantissa := 0.5;
    var place := 0.25;
    assert Scale(-2) == 0.25 && Steps(0, 0.5) == 0.0;
    for bit := 0 to FRACTION_BITS
      invariant place == Scale(-2 - bit)
      invariant mantissa == 0.5 + Steps(Leading(f, bit), 2.0 * place)
    {
      PlacedBit(f, bit);
      StepsDouble(Leading(f, bit), Bit(f, Pow2(22 - bit)), place);
      if Bit(fraction, Pow2(54 - bit)) {
        mantissa := mantissa + place;
      }
      place := place * 0.5;
    }
    LeadingAll(f);
    SummedMantissa(f, place);
  }

  lemma SummedMantissa(f: nat, place: real)
    requires place == Scale(-25)
    ensures 0.5 + Steps(f, 2.0 * place) == Steps(HIDDEN + f, 1.0 / 16777216.0)
  {
    ScaleUp24(-25);
    assert Scale(-1) == 0.5;
    assert 2.0 * place == 1.0 / 16777216.0;
    assert (HIDDEN + f) as real == 8388608.0 + f as real;
  }

  // ----- double_to_fp -----

  /** The library's frexp: a mantissa in [0.5, 1) and a power of two. */
  method Frexp(x: real) returns (m: real, e: int)
    requires x > 0.0
    ensures 0.5 <= m < 1.0 && x == Product(m, Scale(e))
  {
    m, e := x, 0;
    while m >= 1.0
      invariant m > 0.0 && x == Product(m, Scale(e)) && (e > 0 ==> m >= 0.5)
      invariant e >= 0
      decreases m.Floor
    {
      ScaleStep(e);
      MoveFactor(m / 2.0, Scale(e));
      m, e := m / 2.0, e + 1;
    }
    while m < 0.5
      invariant 0.0 < m < 1.0 && x == Product(m, Scale(e))
      decreases (1.0 / m).Floor
    {
      ScaleStep(e - 1);
      MoveFactor(m, Scale(e - 1));
      ReciprocalFalls(m);
      m, e := 2.0 * m, e - 1;
    }
  }

  lemma MoveFactor(m: real, s: real)
    ensures Product(2.0 * m, s) == Product(m, 2.0 * s)
  {
  }

  lemma ReciprocalFalls(m: real)
    requires 0.0 < m < 0.5
    ensures (1.0 / (2.0 * m)).Floor < (1.0 / m).Floor && (1.0 / m).Floor >= 0
  {
    var r := 1.0 / m;
    assert r * m == 1.0;
    assert r <= 2.0 ==> r * m <= 2.0 * m;
    assert 1.0 / (2.0 * m) == r / 2.0;
  }

  /** The exponent field holds exactly the numbers in range. */
  lemma FieldRange(x: real, m: real, e: int)
    requires x > 0.0 && 0.5 <= m < 1.0 && x == Product(m, Scale(e))
    ensures InRange(x) <==> 0 < e + EXCESS <= 255
  {
    ScaleStep(e - 1);
    MantissaBounds(m, Scale(e));
    if e <= -EXCESS {
      ScaleMonotone(e, -EXCESS);
    } else if e >= 128 {
      ScaleMonotone(127, e - 1);
    } else {
      ScaleMonotone(-EXCESS, e - 1);
      ScaleMonotone(e, 127);
    }
  }

  lemma MantissaBounds(m: real, s: real)
    requires 0.5 <= m < 1.0 && s > 0.0
    ensures s / 2.0 <= Product(m, s) < s
  {
    NonNegativeProduct(m - 0.5, s);
    Distribute(m, 0.5, s);
    PositiveProduct(1.0 - m, s);
    Distribute(1.0, m, s);
  }

  lemma PositiveProduct(d: real, s: real)
    requires d > 0.0 && s > 0.0
    ensures Product(d, s) > 0.0
  {
  }

  /** Every representable magnitude is truncated; the others become zero. */
  method FromDouble(value: real) returns (w: Single)
    ensures Truncates(value, w)
    ensures value == 0.0 || !InRange(value) ==> w.high == 0 && w.low == 0
  {
    ScaleMonotone(-EXCESS, 127);
    if value == 0.0 {
      return ZERO;
    }
    var negative := value < 0.0;
    var x := Abs(value);
    var m, e := Frexp(x);
    FieldRange(x, m, e);
    var biased := e + EXCESS;
    if biased <= 0 || biased > 255 {
      return ZERO;
    }
    var fraction: nat, t: nat := Digits((m - 0.5) * 2.0);
    w := Single(If(negative, 0x8000) + biased * 0x80 + fraction / (WORD_MOD * DWORD_MOD) % 0x80,
                fraction / DWORD_MOD % WORD_MOD);
    Fields(negative, biased, t, w);
    Truncated(m, e, t, w);
  }

  lemma Fields(negative: bool, biased: nat, t: nat, w: Single)
    requires biased < 256 && t < HIDDEN
    requires w.high == If(negative, 0x8000) + biased * 0x80 + t * DWORD_MOD / (WORD_MOD * DWORD_MOD) % 0x80
    requires w.low == t * DWORD_MOD / DWORD_MOD % WORD_MOD
    ensures Negative(w) == negative && Exponent(w) == biased && Fraction(w) == t
  {
    var q, r := t / WORD_MOD, t % WORD_MOD;
    DivMod(t, WORD_MOD);
    CommonFactor(t, WORD_MOD, DWORD_MOD);
    CommonFactor(t, 1, DWORD_MOD);
    assert q < 0x80;
    assert w.high == (If(negative, 0x100) + biased) * 0x80 + q;
    DivUnique(w.high, 0x80, If(negative, 0x100) + biased, q);
    DivUnique(If(negative, 0x100) + biased, 0x100, If(negative, 1), biased);
  }

  /** The integer part of the scaled mantissa counts the ulps of the magnitude. */
  lemma Truncated(m: real, e: int, t: nat, w: Single)
    requires t < HIDDEN && Exponent(w) == e + EXCESS && Fraction(w) == t
    requires t as real <= (m - 0.5) * 16777216.0 < t as real + 1.0
    ensures Magnitude(w) <= Product(m, Scale(e)) < Magnitude(w) + Ulp(Exponent(w))
  {
    var u := Ulp(Exponent(w));
    ScaleUp24(e - 24);
    var k := Units(w) as real;
    assert k <= m * 16777216.0 < k + 1.0;
    UlpsOf(m, k, u);
  }

  lemma UlpsOf(m: real, k: real, u: real)
    requires u > 0.0 && k <= m * 16777216.0 < k + 1.0
    ensures Product(k, u) <= Product(m, 16777216.0 * u) < Product(k, u) + u
  {
    BetweenProducts(k, m * 16777216.0, u);
    Regroup(m, 16777216.0, u);
  }

  lemma Regroup(m: real, c: real, u: real)
    ensures Product(m * c, u) == Product(m, c * u)
  {
  }

  lemma BetweenProducts(k: real, s: real, u: real)
    requires u > 0.0 && k <= s < k + 1.0
    ensures Product(k, u) <= Product(s, u) < Product(k, u) + u
  {
    NonNegativeProduct(s - k, u);
    Distribute(s, k, u);
    PositiveProduct(k + 1.0 - s, u);
    Distribute(k + 1.0, s, u);
    Distribute(k + 1.0, 1.0, u);
    assert k + 1.0 - 1.0 == k && Product(1.0, u) == u;
  }

  lemma Distribute(a: real, b: real, u: real)
    ensures Product(a - b, u) == Product(a, u) - Product(b, u)
  {
  }

  /** The digit loop: 23 doublings, each carrying one bit into the fraction register. */
  method Digits(start: real) returns (fraction: nat, ghost t: nat)
    requires 0.0 <= start < 1.0
    ensures fraction == t * DWORD_MOD && t < HIDDEN
    ensures t as real <= start * 8388608.0 < t as real + 1.0
  {
    var frac := start;
    fraction, t := 0, 0;
    ghost var scale := 1.0;
    for bit := 0 to FRACTION_BITS
      invariant 0.0 <= frac < 1.0
      invariant scale == Scale(bit) && Product(start, scale) == t as real + frac
      invariant fraction == t * Pow2(55 - bit)
    {
      MoveFactor(start, scale);
      DoubledDigits(start, scale, t, frac);
      frac := frac * 2.0;
      assert t * Pow2(55 - bit) == (2 * t) * Pow2(54 - bit);
      t := 2 * t;
      if frac >= 1.0 {
        fraction := fraction + Pow2(54 - bit);
        frac := frac - 1.0;
        assert t * Pow2(54 - bit) + Pow2(54 - bit) == (t + 1) * Pow2(54 - bit);
        t := t + 1;
      }
      scale := 2.0 * scale;
    }
    Pow2Values();
    ScaleUp24(-1);
    DigitBound(start);
  }

  lemma DoubledDigits(start: real, scale: real, t: nat, frac: real)
    requires Product(start, scale) == t as real + frac
    ensures Product(start, 2.0 * scale) == (2 * t) as real + 2.0 * frac
  {
    MoveFactor(start, scale);
  }

  lemma DigitBound(start: real)
    requires 0.0 <= start < 1.0
    ensures 0.0 <= Product(start, 8388608.0) < 8388608.0
  {
  }

  /**
   Converting an operand to the host and back returns it exactly when its exponent
   field is nonzero or it is the zero operand.
   */
  method RoundTrip(w: Single) returns (r: Single)
    ensures Truncates(Value(w), r)
    ensures r == w <==> Exponent(w) != 0 || w == ZERO
  {
    var value := ToDouble(w);
    r := FromDouble(value);
    OwnTruncation(w);
    if Exponent(w) != 0 || w == ZERO {
      TruncationUnique(value, r, w);
    }
  }
}
