/**
 The DEUNA transmit ring. A call walks the descriptors the guest has handed over,
 assembles their segments into frames, passes each finished frame on and gives
 the descriptors back. Guest memory is flat words in the 18-bit Unibus space.
 */
module Deuna {
  import opened Words

  const SPACE: nat := 0x4_0000
  const FRAME_MAX: nat := 1514
  const FRAME_MIN: nat := 60
  const OWN: nat := 0x8000
  const STF: nat := 0x200
  const ENF: nat := 0x100

  type Frame = seq<byte>

  // ----- guest memory -----

  function CellOf(a: nat): (i: nat)
    ensures i < SPACE / 2
  {
    a % SPACE / 2
  }

  /** Words outside memory read as zero and ignore writes. */
  function WordAt(mem: seq<word>, a: nat): word {
    if CellOf(a) < |mem| then mem[CellOf(a)] else 0
  }

  function ByteAt(mem: seq<word>, a: nat): byte {
    if a % 2 == 1 then WordAt(mem, a) / 0x100 else WordAt(mem, a) % 0x100
  }

  function WithWord(mem: seq<word>, a: nat, v: word): (m: seq<word>)
    ensures |m| == |mem|
  {
    if CellOf(a) < |mem| then mem[CellOf(a) := v] else mem
  }

  method ReadWord(memory: array<word>, a: nat) returns (v: word)
    ensures v == WordAt(memory[..], a)
  {
    v := 0;
    if CellOf(a) < memory.Length {
      v := memory[CellOf(a)];
    }
  }

  method WriteWord(memory: array<word>, a: nat, v: word)
    modifies memory
    ensures memory[..] == WithWord(old(memory[..]), a, v)
  {
    if CellOf(a) < memory.Length {
      memory[CellOf(a)] := v;
    }
  }

  // ----- descriptors -----

  /** The ring registers: base, entry length in words, number of entries. */
  datatype Ring = Ring(base: nat, entry: nat, count: nat)

  /** The device transmits once the guest has set up a ring. */
  ghost predicate Ready(r: Ring) {
    r.count > 0 && r.entry >= 4 && r.base > 0
  }

  function SlotAddress(r: Ring, slot: nat): nat {
    r.base + r.entry * 2 * slot
  }

  function FlagCell(r: Ring, slot: nat): nat {
    CellOf(SlotAddress(r, slot) + 4)
  }

  function FlagWord(r: Ring, mem: seq<word>, slot: nat): word {
    WordAt(mem, SlotAddress(r, slot) + 4)
  }

  predicate Owned(r: Ring, mem: seq<word>, slot: nat) {
    FlagWord(r, mem, slot) >= OWN
  }

  function Following(r: Ring, slot: nat): nat {
    if slot + 1 >= r.count then 0 else slot + 1
  }

  /** One descriptor's share of a frame. */
  datatype Chunk = Chunk(start: bool, end: bool, bytes: seq<byte>)

  function SegmentAddress(r: Ring, mem: seq<word>, slot: nat): nat {
    WordAt(mem, SlotAddress(r, slot) + 2) as int + FlagWord(r, mem, slot) % 4 * WORD_MOD
  }

  function SegmentBytes(mem: seq<word>, a: nat, n: nat): (s: seq<byte>)
    ensures |s| == n
  {
    seq<byte>(n, i requires 0 <= i < n => ByteAt(mem, a + i))
  }

  function ChunkAt(r: Ring, mem: seq<word>, slot: nat): Chunk {
    var flags := FlagWord(r, mem, slot);
    Chunk(Bit(flags, STF), Bit(flags, ENF),
          SegmentBytes(mem, SegmentAddress(r, mem, slot), WordAt(mem, SlotAddress(r, slot))))
  }

  /** Memory with a descriptor given back. */
  function Released(r: Ring, mem: seq<word>, slot: nat): (m: seq<word>)
    requires Owned(r, mem, slot)
    ensures |m| == |mem|
  {
    mem[FlagCell(r, slot) := FlagWord(r, mem, slot) - OWN]
  }

  /** How many words of memory have the OWN bit set. */
  function OwnBits(mem: seq<word>): nat {
    if mem == [] then 0 else OwnBits(mem[..|mem| - 1]) + if mem[|mem| - 1] >= OWN then 1 else 0
  }

  lemma {:induction false} OwnBitsUpdate(mem: seq<word>, i: nat, v: word)
    requires i < |mem| && mem[i] >= OWN && v < OWN
    ensures OwnBits(mem[i := v]) == OwnBits(mem) - 1
    decreases |mem|
  {
    var n := |mem| - 1;
    if i == n {
      assert mem[i := v][..n] == mem[..n];
    } else {
      OwnBitsUpdate(mem[..n], i, v);
      assert mem[i := v][..n] == mem[..n][i := v];
    }
  }

  lemma ReleaseCounts(r: Ring, mem: seq<word>, slot: nat)
    requires Owned(r, mem, slot)
    ensures OwnBits(Released(r, mem, slot)) == OwnBits(mem) - 1
  {
    OwnBitsUpdate(mem, FlagCell(r, slot), FlagWord(r, mem, slot) - OWN);
  }

  // ----- what a call consumes -----

  /** The chunks a call takes, in ring order, until it meets a descriptor the guest owns. */
  function Consumed(r: Ring, mem: seq<word>, slot: nat): seq<Chunk>
    decreases OwnBits(mem)
  {
    if !Owned(r, mem, slot) then []
    else
      ReleaseCounts(r, mem, slot);
      [ChunkAt(r, mem, slot)] + Consumed(r, Released(r, mem, slot), Following(r, slot))
  }

  function MemoryAfter(r: Ring, mem: seq<word>, slot: nat): seq<word>
    decreases OwnBits(mem)
  {
    if !Owned(r, mem, slot) then mem
    else
      ReleaseCounts(r, mem, slot);
      MemoryAfter(r, Released(r, mem, slot), Following(r, slot))
  }

  function SlotAfter(r: Ring, mem: seq<word>, slot: nat): nat
    decreases OwnBits(mem)
  {
    if !Owned(r, mem, slot) then slot
    else
      ReleaseCounts(r, mem, slot);
      SlotAfter(r, Released(r, mem, slot), Following(r, slot))
  }

  /** A call changes nothing in memory but OWN bits, one per descriptor it takes. */
  lemma {:induction false} OnlyOwnBitsChange(r: Ring, mem: seq<word>, slot: nat)
    ensures var after := MemoryAfter(r, mem, slot);
            && |after| == |mem|
            && (forall i :: 0 <= i < |mem| ==> after[i] == mem[i] || (mem[i] >= OWN && after[i] == mem[i] - OWN))
            && OwnBits(after) + |Consumed(r, mem, slot)| == OwnBits(mem)
            && !Owned(r, after, SlotAfter(r, mem, slot))
    decreases OwnBits(mem)
  {
    if Owned(r, mem, slot) {
      ReleaseCounts(r, mem, slot);
      OnlyOwnBitsChange(r, Released(r, mem, slot), Following(r, slot));
    }
  }

  // ----- frames -----

  function Clipped(p: seq<byte>): (c: seq<byte>)
    ensures |c| <= FRAME_MAX
  {
    if |p| <= FRAME_MAX then p else p[..FRAME_MAX]
  }

  /** The frame handed over: own source address, padded to the minimum. */
  function Finished(mac: seq<byte>, p: seq<byte>): Frame
    requires |mac| == 6
  {
    var f := if |p| >= 12 then p[..6] + mac + p[12..] else p;
    if 14 <= |f| < FRAME_MIN then f + seq(FRAME_MIN - |f|, _ => 0) else f
  }

  /** What is pending once a chunk has been added: a start-of-frame chunk drops what was there. */
  function Grown(c: Chunk, pending: seq<byte>): seq<byte> {
    (if c.start then [] else pending) + c.bytes
  }

  /** What a chunk hands over and what it leaves pending. */
  function Yield(mac: seq<byte>, c: Chunk, pending: seq<byte>): Assembly
    requires |mac| == 6
  {
    var p := Clipped(Grown(c, pending));
    if c.end then Assembly([Finished(mac, p)], []) else Assembly([], p)
  }

  datatype Assembly = Assembly(frames: seq<Frame>, pending: seq<byte>)

  /** An end-of-frame chunk completes a frame. */
  function Assembled(mac: seq<byte>, chunks: seq<Chunk>, pending: seq<byte>): Assembly
    requires |mac| == 6
    decreases |chunks|
  {
    if chunks == [] then Assembly([], pending)
    else
      var c := chunks[0];
      var p := Grown(c, pending);
      if c.end then
        var rest := Assembled(mac, chunks[1..], []);
        Assembly([Finished(mac, Clipped(p))] + rest.frames, rest.pending)
      else Assembled(mac, chunks[1..], p)
  }

  /** Handing the same chunks over in two calls gives the same frames. */
  lemma {:induction false} AssembledInTwoCalls(mac: seq<byte>, a: seq<Chunk>, b: seq<Chunk>, pending: seq<byte>)
    requires |mac| == 6
    ensures var first := Assembled(mac, a, pending); var second := Assembled(mac, b, first.pending);
            Assembled(mac, a + b, pending) == Assembly(first.frames + second.frames, second.pending)
    decreases |a|
  {
    if a == [] {
      assert a + b == b;
    } else {
      var c := a[0];
      var p := Grown(c, pending);
      assert (a + b)[1..] == a[1..] + b;
      AssembledInTwoCalls(mac, a[1..], b, if c.end then [] else p);
    }
  }

  /** Clipping the accumulator as it grows clips the whole frame. */
  lemma ClipAppend(p: seq<byte>, more: seq<byte>)
    ensures Clipped(Clipped(p) + more) == Clipped(p + more)
  {
  }

  lemma {:induction false} ClipIrrelevant(mac: seq<byte>, chunks: seq<Chunk>, p: seq<byte>, q: seq<byte>)
    requires |mac| == 6 && Clipped(p) == Clipped(q)
    ensures var a, b := Assembled(mac, chunks, p), Assembled(mac, chunks, q);
            a.frames == b.frames && Clipped(a.pending) == Clipped(b.pending)
    decreases |chunks|
  {
    if chunks != [] {
      var c := chunks[0];
      ClipAppend(p, c.bytes);
      ClipAppend(q, c.bytes);
      if c.end {
        ClipIrrelevant(mac, chunks[1..], [], []);
      } else if c.start {
        ClipIrrelevant(mac, chunks[1..], [] + c.bytes, [] + c.bytes);
      } else {
        ClipIrrelevant(mac, chunks[1..], p + c.bytes, q + c.bytes);
      }
    }
  }

  function Joined(chunks: seq<Chunk>): seq<byte> {
    if chunks == [] then [] else chunks[0].bytes + Joined(chunks[1..])
  }

  /** Chunks from a start to the next end, with neither in between, are one frame: their concatenation. */
  lemma {:induction false} OneFrame(mac: seq<byte>, chunks: seq<Chunk>, pending: seq<byte>)
    requires |mac| == 6 && chunks != []
    requires forall i :: 0 < i < |chunks| ==> !chunks[i].start
    requires forall i :: 0 <= i < |chunks| ==> chunks[i].end == (i == |chunks| - 1)
    ensures Assembled(mac, chunks, pending) ==
            Assembly([Finished(mac, Clipped((if chunks[0].start then [] else pending) + Joined(chunks)))], [])
    decreases |chunks|
  {
    var c, rest := chunks[0], chunks[1..];
    if rest == [] {
      LastChunk(mac, chunks, pending);
    } else {
      OneFrame(mac, rest, Grown(c, pending));
      assert !rest[0].start;
      JoinedAfter(chunks, pending);
    }
  }

  lemma JoinedAfter(chunks: seq<Chunk>, pending: seq<byte>)
    requires chunks != []
    ensures Grown(chunks[0], pending) + Joined(chunks[1..]) ==
            (if chunks[0].start then [] else pending) + Joined(chunks)
  {
  }

  lemma LastChunk(mac: seq<byte>, chunks: seq<Chunk>, pending: seq<byte>)
    requires |mac| == 6 && |chunks| == 1 && chunks[0].end
    ensures Assembled(mac, chunks, pending) ==
            Assembly([Finished(mac, Clipped((if chunks[0].start then [] else pending) + Joined(chunks)))], [])
  {
    var none := chunks[1..];
    assert none == [];
    assert Assembled(mac, none, []) == Assembly([], []);
    assert Joined(chunks) == chunks[0].bytes;
  }

  lemma AssembleStep(mac: seq<byte>, chunks: seq<Chunk>, pending: seq<byte>)
    requires |mac| == 6 && chunks != []
    ensures var y := Yield(mac, chunks[0], pending);
            var a, b := Assembled(mac, chunks, pending), Assembled(mac, chunks[1..], y.pending);
            a.frames == y.frames + b.frames && Clipped(a.pending) == Clipped(b.pending)
  {
    var p := Grown(chunks[0], pending);
    if !chunks[0].end {
      ClipIrrelevant(mac, chunks[1..], p, Clipped(p));
    }
  }

  /** Where a run stands: what was sent and what is still to come make up the whole. */
  ghost predicate Progress(mac: seq<byte>, all: Assembly, sent: seq<Frame>, rest: seq<Chunk>, pending: seq<byte>)
    requires |mac| == 6
  {
    var more := Assembled(mac, rest, pending);
    sent + more.frames == all.frames && Clipped(more.pending) == Clipped(all.pending)
  }

  lemma ProgressStep(mac: seq<byte>, all: Assembly, sent: seq<Frame>, rest: seq<Chunk>, pending: seq<byte>)
    requires |mac| == 6 && rest != [] && Progress(mac, all, sent, rest, pending)
    ensures var y := Yield(mac, rest[0], pending); Progress(mac, all, sent + y.frames, rest[1..], y.pending)
  {
    AssembleStep(mac, rest, pending);
    var y := Yield(mac, rest[0], pending);
    var b := Assembled(mac, rest[1..], y.pending);
    assert (sent + y.frames) + b.frames == sent + (y.frames + b.frames);
  }

  // ----- several calls against one -----

  /** The guest keeps its data and the other descriptor words clear of the words the device gives back. */
  ghost predicate Apart(r: Ring, mem: seq<word>) {
    forall s, t :: 0 <= s < r.count && 0 <= t < r.count ==> Clear(r, mem, s, FlagCell(r, t))
  }

  ghost predicate Clear(r: Ring, mem: seq<word>, slot: nat, cell: nat) {
    && CellOf(SlotAddress(r, slot)) != cell && CellOf(SlotAddress(r, slot) + 2) != cell
    && forall i: nat :: i < WordAt(mem, SlotAddress(r, slot)) ==> DataCell(r, mem, slot, i) != cell
  }

  function DataCell(r: Ring, mem: seq<word>, slot: nat, i: nat): nat {
    CellOf(SegmentAddress(r, mem, slot) + i)
  }

  /** Two memories that differ in the OWN bits of the ring at most. */
  ghost predicate SameButOwn(r: Ring, a: seq<word>, b: seq<word>) {
    && |a| == |b|
    && forall i :: 0 <= i < |a| ==> a[i] == b[i] || (IsFlag(r, i) && OwnApart(a[i], b[i]))
  }

  predicate OwnApart(v: word, w: word) {
    v == w + OWN || w == v + OWN
  }

  ghost predicate IsFlag(r: Ring, cell: nat) {
    exists t :: 0 <= t < r.count && FlagCell(r, t) == cell
  }

  lemma SameChunk(r: Ring, a: seq<word>, b: seq<word>, slot: nat)
    requires SameButOwn(r, a, b) && Apart(r, a) && slot < r.count
    ensures ChunkAt(r, a, slot) == ChunkAt(r, b, slot)
  {
    SameDescriptor(r, a, b, slot);
    SameFlags(FlagWord(r, a, slot), FlagWord(r, b, slot));
    SameSegment(r, a, b, slot);
  }

  lemma SameDescriptor(r: Ring, a: seq<word>, b: seq<word>, slot: nat)
    requires SameButOwn(r, a, b) && Apart(r, a) && slot < r.count
    ensures WordAt(a, SlotAddress(r, slot)) == WordAt(b, SlotAddress(r, slot))
    ensures WordAt(a, SlotAddress(r, slot) + 2) == WordAt(b, SlotAddress(r, slot) + 2)
    ensures var v, w := FlagWord(r, a, slot), FlagWord(r, b, slot); v == w || OwnApart(v, w)
  {
    NotFlag(r, a, slot, CellOf(SlotAddress(r, slot)));
    NotFlag(r, a, slot, CellOf(SlotAddress(r, slot) + 2));
  }

  lemma SameSegment(r: Ring, a: seq<word>, b: seq<word>, slot: nat)
    requires SameButOwn(r, a, b) && Apart(r, a) && slot < r.count
    ensures var n, at := WordAt(a, SlotAddress(r, slot)), SegmentAddress(r, a, slot);
            SegmentBytes(a, at, n) == SegmentBytes(b, at, n)
  {
    var n, at := WordAt(a, SlotAddress(r, slot)), SegmentAddress(r, a, slot);
    forall i: nat | i < n ensures SegmentBytes(a, at, n)[i] == SegmentBytes(b, at, n)[i] {
      SameByte(r, a, b, slot, i);
    }
  }

  lemma SameByte(r: Ring, a: seq<word>, b: seq<word>, slot: nat, i: nat)
    requires SameButOwn(r, a, b) && Apart(r, a) && slot < r.count && i < WordAt(a, SlotAddress(r, slot))
    ensures ByteAt(a, SegmentAddress(r, a, slot) + i) == ByteAt(b, SegmentAddress(r, a, slot) + i)
  {
    NotFlag(r, a, slot, DataCell(r, a, slot, i));
  }

  lemma NotFlag(r: Ring, mem: seq<word>, slot: nat, cell: nat)
    requires Apart(r, mem) && slot < r.count
    requires
      || cell == CellOf(SlotAddress(r, slot)) || cell == CellOf(SlotAddress(r, slot) + 2)
      || exists i: nat :: i < WordAt(mem, SlotAddress(r, slot)) && DataCell(r, mem, slot, i) == cell
    ensures !IsFlag(r, cell)
  {
    forall t | 0 <= t < r.count ensures FlagCell(r, t) != cell {
      assert Clear(r, mem, slot, FlagCell(r, t));
    }
  }

  lemma SameFlags(v: word, w: word)
    requires v == w || OwnApart(v, w)
    ensures v % 4 == w % 4 && Bit(v, STF) == Bit(w, STF) && Bit(v, ENF) == Bit(w, ENF)
  {
    if v < w {
      WithoutOwn(v);
    } else if w < v {
      WithoutOwn(w);
    }
  }

  lemma WithoutOwn(v: nat)
    ensures (v + OWN) % 4 == v % 4 && Bit(v + OWN, STF) == Bit(v, STF) && Bit(v + OWN, ENF) == Bit(v, ENF)
  {
    DivShift(v, 4, OWN / 4);
    HigherBit(v, STF, 32);
    HigherBit(v, ENF, 64);
  }

  lemma HigherBit(v: nat, weight: nat, k: nat)
    requires weight > 0
    ensures Bit(v + weight * (2 * k), weight) == Bit(v, weight)
  {
    DivShift(v, weight, 2 * k);
  }

  lemma ReleaseKeepsSame(r: Ring, a: seq<word>, b: seq<word>, slot: nat)
    requires SameButOwn(r, a, b) && Owned(r, b, slot) && slot < r.count
    ensures SameButOwn(r, a, Released(r, b, slot))
  {
    assert IsFlag(r, FlagCell(r, slot));
  }

  /** The chunks of `n` slots from `slot` on, and the slot after them. */
  function Chunks(r: Ring, mem: seq<word>, slot: nat, n: nat): seq<Chunk>
    decreases n
  {
    if n == 0 then [] else [ChunkAt(r, mem, slot)] + Chunks(r, mem, Following(r, slot), n - 1)
  }

  function Further(r: Ring, slot: nat, n: nat): nat
    decreases n
  {
    if n == 0 then slot else Further(r, Following(r, slot), n - 1)
  }

  lemma {:induction false} ChunksSplit(r: Ring, mem: seq<word>, slot: nat, m: nat, n: nat)
    ensures Chunks(r, mem, slot, m + n) == Chunks(r, mem, slot, m) + Chunks(r, mem, Further(r, slot, m), n)
    decreases m
  {
    if m > 0 {
      ChunksSplit(r, mem, Following(r, slot), m - 1, n);
    }
  }

  /** A call takes the ring as it stands; giving descriptors back on the way does not change what it reads. */
  lemma {:induction false} ConsumedAre(r: Ring, ref: seq<word>, mem: seq<word>, slot: nat)
    requires Apart(r, ref) && SameButOwn(r, ref, mem) && slot < r.count
    ensures var n := |Consumed(r, mem, slot)|;
            && Consumed(r, mem, slot) == Chunks(r, ref, slot, n)
            && SlotAfter(r, mem, slot) == Further(r, slot, n)
            && SameButOwn(r, ref, MemoryAfter(r, mem, slot))
    decreases OwnBits(mem)
  {
    if Owned(r, mem, slot) {
      ReleaseCounts(r, mem, slot);
      SameChunk(r, ref, mem, slot);
      ReleaseKeepsSame(r, ref, mem, slot);
      ConsumedAre(r, ref, Released(r, mem, slot), Following(r, slot));
    }
  }

  lemma {:induction false} FurtherInRing(r: Ring, slot: nat, n: nat)
    requires slot < r.count
    ensures Further(r, slot, n) < r.count
    decreases n
  {
    if n > 0 {
      FurtherInRing(r, Following(r, slot), n - 1);
    }
  }

  /** What two calls take is what one call takes. */
  lemma TakenInTwoCalls(r: Ring, mem: seq<word>, first: seq<word>, second: seq<word>, slot: nat)
    requires Apart(r, mem) && slot < r.count && SameButOwn(r, mem, first) && SameButOwn(r, mem, second)
    requires var next := SlotAfter(r, first, slot);
             |Consumed(r, mem, slot)| == |Consumed(r, first, slot)| + |Consumed(r, second, next)|
    ensures var next := SlotAfter(r, first, slot);
            && Consumed(r, mem, slot) == Consumed(r, first, slot) + Consumed(r, second, next)
            && SlotAfter(r, mem, slot) == SlotAfter(r, second, next)
  {
    var next := SlotAfter(r, first, slot);
    var m, n := |Consumed(r, first, slot)|, |Consumed(r, second, next)|;
    assert SameButOwn(r, mem, mem);
    ConsumedAre(r, mem, mem, slot);
    ConsumedAre(r, mem, first, slot);
    FurtherInRing(r, slot, m);
    ConsumedAre(r, mem, second, next);
    ChunksSplit(r, mem, slot, m, n);
    FurtherSplit(r, slot, m, n);
  }

  /**
   Two calls that between them take as many descriptors as one call would
   assemble the same frames, and the same rest, as that one call. The guest
   hands over the first part before one call and the remainder before the next.
   */
  lemma TwoCalls(r: Ring, mac: seq<byte>, mem: seq<word>, first: seq<word>, second: seq<word>,
                 slot: nat, pending: seq<byte>)
    requires |mac| == 6 && Apart(r, mem) && slot < r.count
    requires SameButOwn(r, mem, first) && SameButOwn(r, mem, second)
    requires |Consumed(r, mem, slot)| == |Consumed(r, first, slot)| + |Consumed(r, second, SlotAfter(r, first, slot))|
    ensures var all := Assembled(mac, Consumed(r, mem, slot), pending);
            var a := Assembled(mac, Consumed(r, first, slot), pending);
            var b := Assembled(mac, Consumed(r, second, SlotAfter(r, first, slot)), Clipped(a.pending));
            all.frames == a.frames + b.frames && Clipped(all.pending) == Clipped(b.pending)
  {
    TakenInTwoCalls(r, mem, first, second, slot);
    HandedOver(mac, Consumed(r, first, slot), Consumed(r, second, SlotAfter(r, first, slot)), pending);
  }

  lemma HandedOver(mac: seq<byte>, a: seq<Chunk>, b: seq<Chunk>, pending: seq<byte>)
    requires |mac| == 6
    ensures var all, first := Assembled(mac, a + b, pending), Assembled(mac, a, pending);
            var second := Assembled(mac, b, Clipped(first.pending));
            all.frames == first.frames + second.frames && Clipped(all.pending) == Clipped(second.pending)
  {
    var first := Assembled(mac, a, pending);
    AssembledInTwoCalls(mac, a, b, pending);
    ClipIrrelevant(mac, b, first.pending, Clipped(first.pending));
  }

  lemma {:induction false} FurtherSplit(r: Ring, slot: nat, m: nat, n: nat)
    ensures Further(r, slot, m + n) == Further(r, Further(r, slot, m), n)
    decreases m
  {
    if m > 0 {
      FurtherSplit(r, Following(r, slot), m - 1, n);
    }
  }
}
