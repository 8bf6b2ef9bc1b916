/**
 The Internet checksum (RFC 1071) as the NAT computes it, and the packets it
 forges for the guest: every forged header and body verifies.
 */
module Checksum {
  import opened Words

  const ALL_ONES := 0xFFFF

  /** The sum of a buffer's big-endian 16-bit words; an odd last byte is a high byte. */
  function SumWords(data: seq<byte>): nat
    decreases |data|
  {
    if data == [] then 0
    else if |data| == 1 then data[0] * 0x100
    else data[0] * 0x100 + data[1] + SumWords(data[2..])
  }

  /** End-around carries until the sum fits in 16 bits. */
  function Fold(sum: nat): (r: nat)
    ensures r <= ALL_ONES && (r == 0 <==> sum == 0)
    decreases sum
  {
    if sum < WORD_MOD then sum else Fold(sum % WORD_MOD + sum / WORD_MOD)
  }

  function Complement(sum: nat): word {
    ALL_ONES - Fold(sum)
  }

  /** Folding keeps the sum modulo 65535. */
  lemma {:induction false} FoldResidue(sum: nat)
    ensures Fold(sum) % ALL_ONES == sum % ALL_ONES
    decreases sum
  {
    if sum >= WORD_MOD {
      var next := sum % WORD_MOD + sum / WORD_MOD;
      FoldResidue(next);
      assert sum == next + ALL_ONES * (sum / WORD_MOD);
      DivShift(next, ALL_ONES, sum / WORD_MOD);
    }
  }

  /** A sum that includes its own complemented checksum folds to all ones. */
  lemma ComplementVerifies(sum: nat)
    ensures Fold(sum + Complement(sum)) == ALL_ONES
  {
    FoldResidue(sum);
    FoldResidue(sum + Complement(sum));
    WholeMultiple(sum, Fold(sum));
    ResidueZero(Fold(sum + Complement(sum)));
  }

  lemma WholeMultiple(sum: nat, r: nat)
    requires r <= ALL_ONES && r % ALL_ONES == sum % ALL_ONES
    ensures (sum + (ALL_ONES - r)) % ALL_ONES == 0
  {
    var q, s := sum / ALL_ONES, sum % ALL_ONES;
    if r == ALL_ONES {
      FloorUnique(sum, ALL_ONES, q, 0);
    } else {
      SmallMod(r, ALL_ONES);
      FloorUnique(sum + (ALL_ONES - r), ALL_ONES, q + 1, 0);
    }
  }

  lemma ResidueZero(r: nat)
    requires 0 < r <= ALL_ONES && r % ALL_ONES == 0
    ensures r == ALL_ONES
  {
    if r < ALL_ONES {
      SmallMod(r, ALL_ONES);
    }
  }

  // ----- the accumulator -----

  lemma {:induction false} SumBound(data: seq<byte>)
    ensures SumWords(data) <= ALL_ONES * ((|data| + 1) / 2)
    decreases |data|
  {
    if |data| > 1 {
      SumBound(data[2..]);
      assert (|data| + 1) / 2 == (|data[2..]| + 1) / 2 + 1;
    }
  }

  lemma {:induction false} SumOfOnes(n: nat)
    ensures SumWords(seq(n, _ => 255 as byte)) == ALL_ONES * (n / 2) + n % 2 * 0xFF00
    decreases n
  {
    var data: seq<byte> := seq(n, _ => 255 as byte);
    if n > 1 {
      SumOfOnes(n - 2);
      assert data[2..] == seq(n - 2, _ => 255 as byte);
    }
  }

  /** The 32-bit accumulator is safe for every content of a length exactly up to 131074 bytes. */
  lemma AccumulatorIsSafe(n: nat)
    ensures (forall data: seq<byte> | |data| == n :: SumWords(data) < DWORD_MOD) <==> n <= 131074
  {
    if n <= 131074 {
      forall data: seq<byte> | |data| == n
        ensures SumWords(data) < DWORD_MOD
      {
        SumBound(data);
      }
    } else {
      SumOfOnes(n);
      var data: seq<byte> := seq(n, _ => 255 as byte);
      assert |data| == n && SumWords(data) >= DWORD_MOD;
    }
  }

  function WordAt(data: seq<byte>, i: nat): word
    requires i + 1 < |data|
  {
    data[i] as int * 0x100 + data[i + 1]
  }

  /** A buffer with a big-endian word stored in it. */
  function WithWord(data: seq<byte>, at: nat, v: word): (r: seq<byte>)
    requires at + 1 < |data|
    ensures |r| == |data|
  {
    data[at := v / 0x100][at + 1 := v % 0x100]
  }

  /** The buffer as one big-endian number, an odd last byte followed by a zero. */
  ghost function Whole(data: seq<byte>): nat
    decreases |data|
  {
    if data == [] then 0
    else if |data| % 2 == 1 then 0x1_0000 * Whole(data[..|data| - 1]) + 0x100 * data[|data| - 1] as int
    else 0x1_0000 * Whole(data[..|data| - 2]) + 0x100 * data[|data| - 2] as int + data[|data| - 1]
  }

  lemma {:induction false} SumAppend(data: seq<byte>, tail: seq<byte>)
    requires |data| % 2 == 0
    ensures SumWords(data + tail) == SumWords(data) + SumWords(tail)
    decreases |data|
  {
    if data == [] {
      assert data + tail == tail;
    } else {
      SumAppend(data[2..], tail);
      assert (data + tail)[2..] == data[2..] + tail;
    }
  }

  /** The sum of the words is the buffer's own number modulo 65535: what the checksum protects is the number sent. */
  lemma {:induction false} SumIsWhole(data: seq<byte>)
    ensures SumWords(data) % ALL_ONES == Whole(data) % ALL_ONES
    decreases |data|
  {
    if data != [] {
      var n := if |data| % 2 == 1 then |data| - 1 else |data| - 2;
      SumIsWhole(data[..n]);
      SumAppend(data[..n], data[n..]);
      assert data == data[..n] + data[n..];
      var last := SumWords(data[n..]);
      LastWord(data, n);
      ShiftedResidue(SumWords(data[..n]), Whole(data[..n]), last);
    }
  }

  lemma LastWord(data: seq<byte>, n: nat)
    requires data != [] && n == if |data| % 2 == 1 then |data| - 1 else |data| - 2
    ensures Whole(data) == 0x1_0000 * Whole(data[..n]) + SumWords(data[n..])
  {
  }

  lemma ShiftedResidue(a: nat, b: nat, last: nat)
    requires a % ALL_ONES == b % ALL_ONES
    ensures (a + last) % ALL_ONES == (0x1_0000 * b + last) % ALL_ONES
  {
    var k := b / ALL_ONES - a / ALL_ONES;
    assert 0x1_0000 * b + last == a + last + ALL_ONES * (k + b);
    DivShift(a + last, ALL_ONES, k + b);
  }

  /** Storing a word over a zero field adds the word to the sum. */
  lemma {:induction false} SumWithWord(data: seq<byte>, at: nat, v: word)
    requires at + 1 < |data| && at % 2 == 0 && data[at] == 0 && data[at + 1] == 0
    ensures SumWords(WithWord(data, at, v)) == SumWords(data) + v
    decreases at
  {
    var w := WithWord(data, at, v);
    if at == 0 {
      assert w[2..] == data[2..];
    } else {
      SumWithWord(data[2..], at - 2, v);
      assert w[2..] == WithWord(data[2..], at - 2, v);
    }
  }

  /** A checksum stored in its zero field makes the whole, with any pseudo-header, verify. */
  lemma StoredChecksumVerifies(pseudo: nat, data: seq<byte>, at: nat)
    requires at + 1 < |data| && at % 2 == 0 && data[at] == 0 && data[at + 1] == 0
    ensures Fold(pseudo + SumWords(WithWord(data, at, Complement(pseudo + SumWords(data))))) == ALL_ONES
  {
    var c := Complement(pseudo + SumWords(data));
    SumWithWord(data, at, c);
    ComplementVerifies(pseudo + SumWords(data));
  }

  /** Sums a buffer in the source's 32-bit register, starting from the pseudo-header words. */
  method Accumulate(pseudo: nat, data: seq<byte>) returns (sum: dword)
    requires pseudo < DWORD_MOD
    ensures sum == (pseudo + SumWords(data)) % DWORD_MOD
  {
    sum := pseudo;
    var i := 0;
    ghost var summed: int := pseudo;
    assert data[0..] == data;
    SmallMod(pseudo, DWORD_MOD);
    while i + 1 < |data|
      invariant i <= |data| && i % 2 == 0
      invariant sum == summed % DWORD_MOD && summed + SumWords(data[i..]) == pseudo + SumWords(data)
    {
      NextWord(data, i);
      sum, summed := AddTo(sum, summed, WordAt(data, i));
      i := i + 2;
    }
    LastByte(data, i);
    if |data| % 2 == 1 {
      sum, summed := AddTo(sum, summed, data[|data| - 1] as int * 0x100);
    }
  }

  /** One addition in the 32-bit register, and the same without its limit. */
  method AddTo(sum: dword, ghost exact: int, v: word) returns (next: dword, ghost total: int)
    requires sum == exact % DWORD_MOD
    ensures total == exact + v && next == total % DWORD_MOD
  {
    AddModulo(exact, v);
    next := (sum + v) % DWORD_MOD;
    total := exact + v;
  }

  lemma LastByte(data: seq<byte>, i: nat)
    requires i <= |data| <= i + 1 && i % 2 == 0
    ensures SumWords(data[i..]) == if |data| % 2 == 1 then data[|data| - 1] as int * 0x100 else 0
  {
  }

  lemma NextWord(data: seq<byte>, i: nat)
    requires i + 1 < |data|
    ensures SumWords(data[i..]) == WordAt(data, i) + SumWords(data[i + 2..])
  {
    assert data[i..][2..] == data[i + 2..];
  }

  lemma AddModulo(x: int, v: int)
    ensures (x % DWORD_MOD + v) % DWORD_MOD == (x + v) % DWORD_MOD
  {
    DivShift(x % DWORD_MOD + v, DWORD_MOD, x / DWORD_MOD);
  }

  method FoldLoop(start: dword) returns (r: word)
    ensures r == Fold(start)
  {
    var sum: dword := start;
    while sum / WORD_MOD != 0
      invariant Fold(sum) == Fold(start)
      decreases sum
    {
      sum := sum % WORD_MOD + sum / WORD_MOD;
    }
    r := sum;
  }

  /** The complemented sum, for every buffer the accumulator is safe for. */
  method InetChecksum(data: seq<byte>) returns (c: word)
    ensures |data| <= 131074 ==> c == Complement(SumWords(data))
  {
    var sum := Accumulate(0, data);
    SumBound(data);
    if |data| <= 131074 {
      SmallMod(SumWords(data), DWORD_MOD);
    }
    var folded := FoldLoop(sum);
    c := ALL_ONES - folded;
  }

  // ----- TCP -----

  const PROTO_TCP := 6

  /** The pseudo-header words of RFC 793 section 3.1. */
  function PseudoHeader(src: dword, dst: dword, length: nat): nat {
    src / WORD_MOD + src % WORD_MOD + dst / WORD_MOD + dst % WORD_MOD + PROTO_TCP + length
  }

  /** They are the sum of the pseudo-header's twelve bytes: both addresses, zero, the protocol, the length. */
  lemma PseudoHeaderBytes(src: dword, dst: dword, length: word)
    ensures PseudoHeader(src, dst, length) ==
            SumWords([src / 0x100_0000, src / 0x1_0000 % 0x100, src / 0x100 % 0x100, src % 0x100,
                      dst / 0x100_0000, dst / 0x1_0000 % 0x100, dst / 0x100 % 0x100, dst % 0x100,
                      0, 6, length / 0x100, length % 0x100])
  {
    var a := [src / 0x100_0000, src / 0x1_0000 % 0x100, src / 0x100 % 0x100, src % 0x100];
    var b := [dst / 0x100_0000, dst / 0x1_0000 % 0x100, dst / 0x100 % 0x100, dst % 0x100];
    AddressBytes(src);
    AddressBytes(dst);
    SumAppend(a, b);
    SumAppend(a + b, [0, 6, length / 0x100, length % 0x100]);
    FourBytes(0, 6, length / 0x100, length % 0x100);
    assert [src / 0x100_0000, src / 0x1_0000 % 0x100, src / 0x100 % 0x100, src % 0x100,
            dst / 0x100_0000, dst / 0x1_0000 % 0x100, dst / 0x100 % 0x100, dst % 0x100,
            0, 6, length / 0x100, length % 0x100] == (a + b) + [0, 6, length / 0x100, length % 0x100];
  }

  lemma FourBytes(a: byte, b: byte, c: byte, d: byte)
    ensures SumWords([a, b, c, d]) == a as int * 0x100 + b as int + c as int * 0x100 + d as int
  {
    assert [a, b, c, d][2..] == [c, d] && [c, d][2..] == [];
    assert SumWords([c, d]) == c as int * 0x100 + d as int + SumWords([]);
    assert SumWords([a, b, c, d]) == a as int * 0x100 + b as int + SumWords([c, d]);
  }

  lemma AddressBytes(v: dword)
    ensures SumWords([v / 0x100_0000, v / 0x1_0000 % 0x100, v / 0x100 % 0x100, v % 0x100]) ==
            v / WORD_MOD + v % WORD_MOD
  {
    var h, l := v / WORD_MOD, v % WORD_MOD;
    DivUnique(v, 0x100_0000, h / 0x100, h % 0x100 * 0x1_0000 + l);
    DivUnique(v, 0x100, h * 0x100 + l / 0x100, l % 0x100);
    DivUnique(h * 0x100 + l / 0x100, 0x100, h, l / 0x100);
    FourBytes(v / 0x100_0000, v / 0x1_0000 % 0x100, v / 0x100 % 0x100, v % 0x100);
  }

  method TcpChecksum(src: dword, dst: dword, segment: seq<byte>) returns (c: word)
    requires |segment| <= 0xFFFF
    ensures c == Complement(PseudoHeader(src, dst, |segment|) + SumWords(segment))
  {
    var pseudo := PseudoHeader(src, dst, |segment|);
    var sum := Accumulate(pseudo, segment);
    SumBound(segment);
    SmallMod(pseudo + SumWords(segment), DWORD_MOD);
    var folded := FoldLoop(sum);
    c := ALL_ONES - folded;
  }
}
