/**
 The DEUNA receive ring. Frames that wait for the guest go, in order, into the
 descriptors it has handed over; a frame cut to its buffer gets an IP header
 that fits what is left of it.
 */
module DeunaReceive {
  import opened Words
  import Checksum
  import Packets
  import opened Deuna
  import DeunaFrames

  const MOST_FRAMES: nat := 4
  const ETH: nat := 14
  const MLEN_MOD: nat := 0x1000

  // ----- cutting a frame -----

  function HeaderLength(f: seq<byte>): nat
    requires |f| > ETH
  {
    f[ETH] % 0x10 * 4
  }

  /** The cut frame still holds a whole IPv4 header. */
  predicate HasHeader(f: seq<byte>, n: nat)
    requires n <= |f|
  {
    && n >= ETH + 20 && f[12] == 8 && f[13] == 0 && f[ETH] / 0x10 == 4
    && HeaderLength(f) >= 20 && n >= ETH + HeaderLength(f)
  }

  predicate ClaimsMore(f: seq<byte>, n: nat)
    requires n <= |f|
  {
    HasHeader(f, n) && Checksum.WordAt(f, 16) > n - ETH
  }

  /** A header with its total length replaced and its checksum computed anew. */
  function Shortened(header: seq<byte>, total: word): (h: seq<byte>)
    requires |header| >= 20
    ensures |h| == |header|
  {
    Packets.Summed(0, Checksum.WithWord(header, 2, total), 10)
  }

  /** What the guest gets of a frame when `n` bytes fit. */
  function Trimmed(f: seq<byte>, n: nat): (r: seq<byte>)
    requires n <= |f| <= FRAME_MAX
    ensures |r| == n
  {
    if !ClaimsMore(f, n) then f[..n]
    else
      var h := ETH + HeaderLength(f);
      f[..ETH] + Shortened(f[ETH..h], n - ETH) + f[h..n]
  }

  ghost predicate Verifies(header: seq<byte>) {
    Checksum.Fold(Checksum.SumWords(header)) == Checksum.ALL_ONES
  }

  /**
   Cutting never leaves a header that claims more than is there, nor one that does
   not verify if it did before; apart from length and checksum nothing is changed.
   */
  lemma TrimKeepsHeader(f: seq<byte>, n: nat)
    requires n <= |f| <= FRAME_MAX && HasHeader(f, n)
    ensures var r := Trimmed(f, n); var h := ETH + HeaderLength(f);
            && HasHeader(r, n) && HeaderLength(r) == HeaderLength(f) && Checksum.WordAt(r, 16) <= n - ETH
            && (ClaimsMore(f, n) || Verifies(f[ETH..h]) ==> Verifies(r[ETH..h]))
            && forall i :: 0 <= i < n && i !in {16, 17, 24, 25} ==> r[i] == f[i]
  {
    var r, h := Trimmed(f, n), ETH + HeaderLength(f);
    if ClaimsMore(f, n) {
      ShortenedHeader(f[ETH..h], n - ETH);
      assert r[ETH..h] == Shortened(f[ETH..h], n - ETH);
    } else {
      assert r[ETH..h] == f[ETH..h];
    }
  }

  lemma ShortenedHeader(header: seq<byte>, total: word)
    requires |header| >= 20
    ensures var s := Shortened(header, total);
            Verifies(s) && Checksum.WordAt(s, 2) == total
            && forall i :: 0 <= i < |s| && i !in {2, 3, 10, 11} ==> s[i] == header[i]
  {
    Packets.SummedVerifies(0, Checksum.WithWord(header, 2, total), 10);
  }

  method Trim(frame: array<byte>, n: nat)
    requires frame.Length == FRAME_MAX && n <= FRAME_MAX
    modifies frame
    ensures frame[..n] == Trimmed(old(frame[..]), n)
  {
    ghost var f := frame[..];
    if n < ETH + 20 || frame[12] != 8 || frame[13] != 0 || frame[ETH] / 0x10 != 4 {
      return;
    }
    var ihl := frame[ETH] % 0x10 * 4;
    if ihl < 20 || n < ETH + ihl {
      return;
    }
    if frame[16] as int * 0x100 + frame[17] <= n - ETH {
      return;
    }
    frame[16] := (n - ETH) / 0x100;
    frame[17] := (n - ETH) % 0x100;
    assert frame[ETH..ETH + ihl] == Checksum.WithWord(f[ETH..ETH + ihl], 2, n - ETH);
    Packets.StoreChecksum(frame, ETH, ETH + ihl, 10);
    Pieces(frame[..], f, ETH + ihl, n);
  }

  lemma Pieces(g: seq<byte>, f: seq<byte>, h: nat, n: nat)
    requires |g| == |f| && ETH <= h <= n <= |f| && g[..ETH] == f[..ETH] && g[h..] == f[h..]
    ensures g[..n] == f[..ETH] + g[ETH..h] + f[h..n]
  {
    assert g[h..n] == g[h..][..n - h] == f[h..][..n - h] == f[h..n];
  }

  // ----- bytes into word memory -----

  function WithByte(mem: seq<word>, a: nat, b: byte): (m: seq<word>)
    ensures |m| == |mem|
  {
    if a % 2 == 1 then WithWord(mem, a, WordAt(mem, a) % 0x100 + b as int * 0x100)
    else WithWord(mem, a, WordAt(mem, a) / 0x100 * 0x100 + b)
  }

  function WithBytes(mem: seq<word>, a: nat, bytes: seq<byte>): (m: seq<word>)
    ensures |m| == |mem|
    decreases |bytes|
  {
    if bytes == [] then mem
    else
      var n := |bytes| - 1;
      WithByte(WithBytes(mem, a, bytes[..n]), a + n, bytes[n])
  }

  lemma ByteReadsBack(mem: seq<word>, a: nat, b: byte)
    requires CellOf(a) < |mem|
    ensures ByteAt(WithByte(mem, a, b), a) == b
  {
    var w: nat := WordAt(mem, a);
    if a % 2 == 1 {
      DivUnique(w % 0x100 + b as int * 0x100, 0x100, b, w % 0x100);
    } else {
      DivUnique(w / 0x100 * 0x100 + b, 0x100, w / 0x100, b);
    }
  }

  /** Two addresses in one cell are the two halves of its word, or the same. */
  lemma OtherByteKept(mem: seq<word>, a: nat, b: byte, c: nat)
    requires a % SPACE != c % SPACE
    ensures ByteAt(WithByte(mem, a, b), c) == ByteAt(mem, c)
  {
    if CellOf(a) == CellOf(c) && CellOf(a) < |mem| {
      HalvesDiffer(a, c);
      var w: nat := WordAt(mem, a);
      if a % 2 == 1 {
        DivUnique(w % 0x100 + b as int * 0x100, 0x100, b, w % 0x100);
      } else {
        DivUnique(w / 0x100 * 0x100 + b, 0x100, w / 0x100, b);
      }
    }
  }

  lemma HalvesDiffer(a: nat, c: nat)
    requires a % SPACE != c % SPACE && CellOf(a) == CellOf(c)
    ensures a % 2 != c % 2
  {
    Parity(a);
    Parity(c);
  }

  lemma Parity(a: nat)
    ensures a % SPACE % 2 == a % 2
  {
    var q, r := a / SPACE, a % SPACE;
    assert a == SPACE * q + r;
    assert a == 2 * (SPACE / 2 * q + r / 2) + r % 2;
  }

  /** Addresses no further apart than the space is wide are different places. */
  lemma DistinctPlaces(a: nat, i: nat, j: nat)
    requires i < j < i + SPACE
    ensures (a + i) % SPACE != (a + j) % SPACE
  {
    var q, r := (a + i) / SPACE, (a + i) % SPACE;
    var x := r + (j - i);
    if x < SPACE {
      DivUnique(a + j, SPACE, q, x);
    } else {
      DivUnique(a + j, SPACE, q + 1, x - SPACE);
    }
  }

  /** The cell of the byte `i` places after an address. */
  function ByteCell(a: nat, i: nat): (c: nat)
    ensures c < SPACE / 2
  {
    CellOf(a + i)
  }

  lemma {:induction false} BytesReadBack(mem: seq<word>, a: nat, bytes: seq<byte>, i: nat)
    requires i < |bytes| <= SPACE && forall k: nat :: k < |bytes| ==> ByteCell(a, k) < |mem|
    ensures ByteAt(WithBytes(mem, a, bytes), a + i) == bytes[i]
    decreases |bytes|
  {
    var n := |bytes| - 1;
    var before := WithBytes(mem, a, bytes[..n]);
    assert ByteCell(a, n) < |mem|;
    if i == n {
      ByteReadsBack(before, a + n, bytes[n]);
    } else {
      BytesReadBack(mem, a, bytes[..n], i);
      DistinctPlaces(a, i, n);
      OtherByteKept(before, a + n, bytes[n], a + i);
    }
  }

  lemma {:induction false} OtherCellsKept(mem: seq<word>, a: nat, bytes: seq<byte>, c: nat)
    requires c < |mem| && forall k: nat :: k < |bytes| ==> ByteCell(a, k) != c
    ensures WithBytes(mem, a, bytes)[c] == mem[c]
    decreases |bytes|
  {
    if bytes != [] {
      assert ByteCell(a, |bytes| - 1) != c;
      OtherCellsKept(mem, a, bytes[..|bytes| - 1], c);
    }
  }

  // ----- one frame -----

  /** The flag word given back: ownership and errors cleared, first and last segment set. */
  function HandedBack(flags: word): word {
    flags % 0x100 + flags / 0x400 % 2 * 0x400 + STF + ENF
  }

  lemma HandedBackFlags(flags: word)
    ensures HandedBack(flags) < OWN && Bit(HandedBack(flags), STF) && Bit(HandedBack(flags), ENF)
    ensures HandedBack(flags) % 4 == flags % 4
  {
    var low, k: nat := flags % 0x100, flags / 0x400 % 2;
    DivUnique(HandedBack(flags), 0x100, 4 * k + 3, low);
    DivUnique(HandedBack(flags), 0x200, 2 * k + 1, 0x100 + low);
    DivMod(flags, 0x100);
    DivShift(low, 4, 0x40 * (4 * k + 3));
    DivShift(low, 4, 0x40 * (flags / 0x100));
  }

  /** How much of a frame a buffer of that length takes; length zero is taken for no limit. */
  function Fitting(buffer: nat, frame: nat): (n: nat)
    ensures n <= frame
  {
    if 0 < buffer < frame then buffer else frame
  }

  function BufferLength(r: Ring, mem: seq<word>, slot: nat): word {
    WordAt(mem, SlotAddress(r, slot))
  }

  /** The bytes of a frame that go into a slot. */
  function Delivery(r: Ring, mem: seq<word>, slot: nat, frame: Frame): (d: seq<byte>)
    requires |frame| <= FRAME_MAX
    ensures |d| == Fitting(BufferLength(r, mem, slot), |frame|)
  {
    Trimmed(frame, Fitting(BufferLength(r, mem, slot), |frame|))
  }

  // ----- words into memory -----

  /** The cell of the word `k` places after an address. */
  function WordCell(a: nat, k: nat): (c: nat)
    ensures c < SPACE / 2
  {
    CellOf(a + 2 * k)
  }

  function WithWords(mem: seq<word>, a: nat, ws: seq<word>): (m: seq<word>)
    ensures |m| == |mem|
    decreases |ws|
  {
    if ws == [] then mem
    else
      var n := |ws| - 1;
      WithWord(WithWords(mem, a, ws[..n]), a + 2 * n, ws[n])
  }

  lemma {:induction false} WordsReadBack(mem: seq<word>, a: nat, ws: seq<word>, i: nat)
    requires i < |ws| <= 4 && forall k: nat :: k < |ws| ==> WordCell(a, k) < |mem|
    ensures WordAt(WithWords(mem, a, ws), a + 2 * i) == ws[i]
    decreases |ws|
  {
    var n := |ws| - 1;
    assert WordCell(a, n) < |mem| && WordCell(a, i) < |mem|;
    if i < n {
      WordsReadBack(mem, a, ws[..n], i);
      CellStep(a + 2 * i, n - i);
    }
  }

  lemma {:induction false} OtherWordsKept(mem: seq<word>, a: nat, ws: seq<word>, c: nat)
    requires c < |mem| && forall k: nat :: k < |ws| ==> WordCell(a, k) != c
    ensures WithWords(mem, a, ws)[c] == mem[c]
    decreases |ws|
  {
    if ws != [] {
      assert WordCell(a, |ws| - 1) != c;
      OtherWordsKept(mem, a, ws[..|ws| - 1], c);
    }
  }

  lemma CellStep(a: nat, k: nat)
    requires 0 < k < 4
    ensures CellOf(a) != CellOf(a + 2 * k)
  {
    var q, x := a / SPACE, a % SPACE;
    if x + 2 * k < SPACE {
      DivUnique(a + 2 * k, SPACE, q, x + 2 * k);
    } else {
      DivUnique(a + 2 * k, SPACE, q + 1, x + 2 * k - SPACE);
    }
  }

  // ----- a slot filled -----

  /** A descriptor as it is written back after `n` bytes of data. */
  function Entry(r: Ring, mem: seq<word>, slot: nat, n: nat): (ws: seq<word>)
    ensures |ws| == 4
  {
    var ba := SlotAddress(r, slot);
    [WordAt(mem, ba), WordAt(mem, ba + 2), HandedBack(FlagWord(r, mem, slot)), (n + 4) % MLEN_MOD]
  }

  /** Memory with a frame placed in a slot. */
  function Placed(r: Ring, mem: seq<word>, slot: nat, frame: Frame): (m: seq<word>)
    requires |frame| <= FRAME_MAX
    ensures |m| == |mem|
  {
    Filled(r, mem, slot, Delivery(r, mem, slot, frame))
  }

  function Filled(r: Ring, mem: seq<word>, slot: nat, d: seq<byte>): (m: seq<word>)
    ensures |m| == |mem|
  {
    WithWords(WithBytes(mem, SegmentAddress(r, mem, slot), d), SlotAddress(r, slot), Entry(r, mem, slot, |d|))
  }

  // ----- the layout a driver keeps -----

  /** Whether a memory cell belongs to a slot's descriptor or to its buffer. */
  ghost predicate InDescriptor(r: Ring, slot: nat, c: nat) {
    exists k: nat :: k < 4 && WordCell(SlotAddress(r, slot), k) == c
  }

  ghost predicate InBuffer(r: Ring, mem: seq<word>, slot: nat, c: nat) {
    exists i: nat :: i < BufferLength(r, mem, slot) && ByteCell(SegmentAddress(r, mem, slot), i) == c
  }

  ghost predicate InSlot(r: Ring, mem: seq<word>, slot: nat, c: nat) {
    InDescriptor(r, slot, c) || InBuffer(r, mem, slot, c)
  }

  /** A slot in memory with a buffer that is not empty and does not contain its own descriptor. */
  ghost predicate SlotOk(r: Ring, mem: seq<word>, slot: nat) {
    && BufferLength(r, mem, slot) > 0
    && (forall c: nat :: InSlot(r, mem, slot, c) ==> c < |mem|)
    && (forall c: nat :: InDescriptor(r, slot, c) ==> !InBuffer(r, mem, slot, c))
  }

  /** The guest can read the frame from the slot. */
  ghost predicate Arrived(r: Ring, mem: seq<word>, slot: nat, d: seq<byte>) {
    && !Owned(r, mem, slot) && Bit(FlagWord(r, mem, slot), STF) && Bit(FlagWord(r, mem, slot), ENF)
    && WordAt(mem, SlotAddress(r, slot) + 6) == |d| + 4
    && |d| <= BufferLength(r, mem, slot)
    && SegmentBytes(mem, SegmentAddress(r, mem, slot), |d|) == d
  }

  lemma BufferCell(r: Ring, mem: seq<word>, slot: nat, i: nat)
    requires SlotOk(r, mem, slot) && i < BufferLength(r, mem, slot)
    ensures var c := ByteCell(SegmentAddress(r, mem, slot), i);
            c < |mem| && InSlot(r, mem, slot, c) && !InDescriptor(r, slot, c)
  {
    assert InBuffer(r, mem, slot, ByteCell(SegmentAddress(r, mem, slot), i));
    assert InSlot(r, mem, slot, ByteCell(SegmentAddress(r, mem, slot), i));
  }

  /** A frame placed in a sound slot can be read from it. */
  lemma PlacedArrives(r: Ring, mem: seq<word>, slot: nat, frame: Frame)
    requires |frame| <= FRAME_MAX && SlotOk(r, mem, slot)
    ensures Arrived(r, Placed(r, mem, slot, frame), slot, Delivery(r, mem, slot, frame))
    ensures KeepsLayout(r, mem, Placed(r, mem, slot, frame), slot)
  {
    var d := Delivery(r, mem, slot, frame);
    HandedBackFlags(FlagWord(r, mem, slot));
    SmallMod(|d| + 4, MLEN_MOD);
    PlacedEntry(r, mem, slot, frame);
    PlacedData(r, mem, slot, frame);
  }

  lemma PlacedEntry(r: Ring, mem: seq<word>, slot: nat, frame: Frame)
    requires |frame| <= FRAME_MAX && SlotOk(r, mem, slot)
    ensures var m, ba := Placed(r, mem, slot, frame), SlotAddress(r, slot);
            && WordAt(m, ba) == WordAt(mem, ba) && WordAt(m, ba + 2) == WordAt(mem, ba + 2)
            && FlagWord(r, m, slot) == HandedBack(FlagWord(r, mem, slot))
            && WordAt(m, ba + 6) == (|Delivery(r, mem, slot, frame)| + 4) % MLEN_MOD
  {
    var a, d := SegmentAddress(r, mem, slot), Delivery(r, mem, slot, frame);
    var ws := Entry(r, mem, slot, |d|);
    var m1 := WithBytes(mem, a, d);
    DescribedWord(r, mem, slot, m1, ws, 0);
    DescribedWord(r, mem, slot, m1, ws, 1);
    DescribedWord(r, mem, slot, m1, ws, 2);
    DescribedWord(r, mem, slot, m1, ws, 3);
    PlacedIs(r, mem, slot, frame);
    assert ws[0] == WordAt(mem, SlotAddress(r, slot)) && ws[1] == WordAt(mem, SlotAddress(r, slot) + 2);
    assert ws[2] == HandedBack(FlagWord(r, mem, slot)) && ws[3] == (|d| + 4) % MLEN_MOD;
  }

  /** The words that say where a slot's buffer is and how long. */
  ghost predicate KeepsLayout(r: Ring, mem: seq<word>, m: seq<word>, slot: nat) {
    |m| == |mem| && BufferLength(r, m, slot) == BufferLength(r, mem, slot)
    && SegmentAddress(r, m, slot) == SegmentAddress(r, mem, slot)
  }

  lemma PlacedData(r: Ring, mem: seq<word>, slot: nat, frame: Frame)
    requires |frame| <= FRAME_MAX && SlotOk(r, mem, slot)
    ensures var d := Delivery(r, mem, slot, frame);
            SegmentBytes(Placed(r, mem, slot, frame), SegmentAddress(r, mem, slot), |d|) == d
  {
    var a, d, m := SegmentAddress(r, mem, slot), Delivery(r, mem, slot, frame), Placed(r, mem, slot, frame);
    forall i: nat | i < |d| ensures ByteAt(m, a + i) == d[i] {
      PlacedByte(r, mem, slot, frame, i);
    }
    SegmentIs(m, a, d);
  }

  lemma SegmentIs(m: seq<word>, a: nat, d: seq<byte>)
    requires forall i: nat {:trigger d[i]} :: i < |d| ==> ByteAt(m, a + i) == d[i]
    ensures SegmentBytes(m, a, |d|) == d
  {
  }

  lemma PlacedByte(r: Ring, mem: seq<word>, slot: nat, frame: Frame, i: nat)
    requires |frame| <= FRAME_MAX && SlotOk(r, mem, slot) && i < |Delivery(r, mem, slot, frame)|
    ensures ByteAt(Placed(r, mem, slot, frame), SegmentAddress(r, mem, slot) + i) == Delivery(r, mem, slot, frame)[i]
  {
    var a, d := SegmentAddress(r, mem, slot), Delivery(r, mem, slot, frame);
    forall k: nat | k < |d| ensures ByteCell(a, k) < |mem| {
      BufferCell(r, mem, slot, k);
    }
    BufferCell(r, mem, slot, i);
    NotInDescriptor(r, slot, ByteCell(a, i));
    PlacedIs(r, mem, slot, frame);
    BytesUnderWords(mem, a, d, SlotAddress(r, slot), Entry(r, mem, slot, |d|), i);
  }

  lemma PlacedIs(r: Ring, mem: seq<word>, slot: nat, frame: Frame)
    requires |frame| <= FRAME_MAX
    ensures var d := Delivery(r, mem, slot, frame);
            Placed(r, mem, slot, frame) ==
            WithWords(WithBytes(mem, SegmentAddress(r, mem, slot), d), SlotAddress(r, slot), Entry(r, mem, slot, |d|))
  {
  }

  lemma NotInDescriptor(r: Ring, slot: nat, c: nat)
    requires !InDescriptor(r, slot, c)
    ensures forall k: nat :: k < 4 ==> WordCell(SlotAddress(r, slot), k) != c
  {
  }

  lemma SameCell(m1: seq<word>, m: seq<word>, a: nat)
    requires |m1| == |m| && CellOf(a) < |m| && m1[CellOf(a)] == m[CellOf(a)]
    ensures ByteAt(m1, a) == ByteAt(m, a)
  {
  }

  /** The words written back to a descriptor are read back from it, and no other cell changes. */
  lemma DescribedWord(r: Ring, mem: seq<word>, slot: nat, m1: seq<word>, ws: seq<word>, k: nat)
    requires SlotOk(r, mem, slot) && |m1| == |mem| && |ws| == 4 && k < 4
    ensures WordAt(WithWords(m1, SlotAddress(r, slot), ws), SlotAddress(r, slot) + 2 * k) == ws[k]
  {
    DescriptorInMemory(r, mem, slot);
    WordsReadBack(m1, SlotAddress(r, slot), ws, k);
  }

  lemma DescribedElsewhere(r: Ring, slot: nat, m1: seq<word>, ws: seq<word>, c: nat)
    requires |ws| == 4 && c < |m1| && !InDescriptor(r, slot, c)
    ensures WithWords(m1, SlotAddress(r, slot), ws)[c] == m1[c]
  {
    NotInDescriptor(r, slot, c);
    OtherWordsKept(m1, SlotAddress(r, slot), ws, c);
  }

  lemma DescriptorInMemory(r: Ring, mem: seq<word>, slot: nat)
    requires SlotOk(r, mem, slot)
    ensures forall k: nat :: k < 4 ==> WordCell(SlotAddress(r, slot), k) < |mem|
  {
    forall k: nat | k < 4 ensures WordCell(SlotAddress(r, slot), k) < |mem| {
      assert InDescriptor(r, slot, WordCell(SlotAddress(r, slot), k));
      assert InSlot(r, mem, slot, WordCell(SlotAddress(r, slot), k));
    }
  }

  lemma PlacedElsewhere(r: Ring, mem: seq<word>, slot: nat, frame: Frame, c: nat)
    requires |frame| <= FRAME_MAX && SlotOk(r, mem, slot) && c < |mem| && !InSlot(r, mem, slot, c)
    ensures Placed(r, mem, slot, frame)[c] == mem[c]
  {
    var a, d := SegmentAddress(r, mem, slot), Delivery(r, mem, slot, frame);
    var m1 := WithBytes(mem, a, d);
    DescribedElsewhere(r, slot, m1, Entry(r, mem, slot, |d|), c);
    PlacedIs(r, mem, slot, frame);
    forall k: nat | k < |d| ensures ByteCell(a, k) != c {
      BufferCell(r, mem, slot, k);
    }
    OtherCellsKept(mem, a, d, c);
  }

  // ----- several frames -----

  datatype Progress = Progress(mem: seq<word>, slot: nat, queue: seq<Frame>)

  ghost predicate Frames(queue: seq<Frame>) {
    forall i :: 0 <= i < |queue| ==> |queue[i]| <= FRAME_MAX
  }

  /** The next frame goes into the current slot. */
  ghost function Advanced(r: Ring, p: Progress): (q: Progress)
    requires Frames(p.queue) && p.queue != []
    ensures Frames(q.queue) && |q.mem| == |p.mem|
  {
    Progress(Placed(r, p.mem, p.slot, p.queue[0]), Following(r, p.slot), p.queue[1..])
  }

  /** Up to `turns` waiting frames go into consecutive slots the guest has handed over. */
  ghost function Taken(r: Ring, p: Progress, turns: nat): Progress
    requires Frames(p.queue)
    decreases turns
  {
    if turns == 0 || p.queue == [] || !Owned(r, p.mem, p.slot) then p else Taken(r, Advanced(r, p), turns - 1)
  }

  /** A call takes frames from the front of the queue only, and stops early only for want of frames or slots. */
  lemma {:induction false} TakenFromFront(r: Ring, p: Progress, turns: nat)
    requires Frames(p.queue)
    ensures var q := Taken(r, p, turns);
            && |q.mem| == |p.mem| && |p.queue| - turns <= |q.queue| <= |p.queue|
            && q.queue == p.queue[|p.queue| - |q.queue|..]
            && (|q.queue| > |p.queue| - turns ==> q.queue == [] || !Owned(r, q.mem, q.slot))
    decreases turns
  {
    if turns > 0 && p.queue != [] && Owned(r, p.mem, p.slot) {
      TakenFromFront(r, Advanced(r, p), turns - 1);
    }
  }

  /** Every slot is sound and no two share a word. */
  ghost predicate Laid(r: Ring, mem: seq<word>) {
    && (forall s :: 0 <= s < r.count ==> SlotOk(r, mem, s))
    && forall s, t :: 0 <= s < r.count && 0 <= t < r.count && s != t ==> Separate(r, mem, s, t)
  }

  ghost predicate Separate(r: Ring, mem: seq<word>, s: nat, t: nat) {
    forall c: nat :: InSlot(r, mem, s, c) ==> !InSlot(r, mem, t, c)
  }

  /** Two memories that agree on a slot. */
  ghost predicate Agree(r: Ring, mem: seq<word>, m: seq<word>, t: nat) {
    |m| == |mem| && forall c: nat :: c < |mem| && InSlot(r, mem, t, c) ==> m[c] == mem[c]
  }

  lemma DescriptorWord(r: Ring, mem: seq<word>, m: seq<word>, t: nat, k: nat)
    requires Agree(r, mem, m, t) && k < 4
    ensures WordAt(m, SlotAddress(r, t) + 2 * k) == WordAt(mem, SlotAddress(r, t) + 2 * k)
  {
    var c := WordCell(SlotAddress(r, t), k);
    assert InDescriptor(r, t, c) && InSlot(r, mem, t, c);
  }

  lemma AgreeKeepsLayout(r: Ring, mem: seq<word>, m: seq<word>, t: nat)
    requires Agree(r, mem, m, t)
    ensures KeepsLayout(r, mem, m, t) && FlagWord(r, m, t) == FlagWord(r, mem, t)
  {
    DescriptorWord(r, mem, m, t, 0);
    DescriptorWord(r, mem, m, t, 1);
    DescriptorWord(r, mem, m, t, 2);
  }

  lemma SameSlot(r: Ring, mem: seq<word>, m: seq<word>, t: nat)
    requires KeepsLayout(r, mem, m, t)
    ensures forall c: nat :: InSlot(r, m, t, c) == InSlot(r, mem, t, c)
    ensures SlotOk(r, m, t) == SlotOk(r, mem, t)
  {
    forall c: nat ensures InBuffer(r, m, t, c) == InBuffer(r, mem, t, c) {
    }
  }

  lemma PlacedAgrees(r: Ring, mem: seq<word>, slot: nat, frame: Frame, t: nat)
    requires |frame| <= FRAME_MAX && SlotOk(r, mem, slot) && Separate(r, mem, t, slot)
    ensures Agree(r, mem, Placed(r, mem, slot, frame), t)
  {
    forall c: nat | c < |mem| && InSlot(r, mem, t, c) ensures Placed(r, mem, slot, frame)[c] == mem[c] {
      PlacedElsewhere(r, mem, slot, frame, c);
    }
  }

  lemma PlacedKeepsSlot(r: Ring, mem: seq<word>, slot: nat, frame: Frame, t: nat)
    requires |frame| <= FRAME_MAX && Laid(r, mem) && slot < r.count && t < r.count
    ensures KeepsLayout(r, mem, Placed(r, mem, slot, frame), t)
  {
    if t == slot {
      PlacedArrives(r, mem, slot, frame);
    } else {
      assert Separate(r, mem, t, slot);
      PlacedAgrees(r, mem, slot, frame, t);
      AgreeKeepsLayout(r, mem, Placed(r, mem, slot, frame), t);
    }
  }

  /** Placing a frame keeps the ring's layout. */
  lemma PlacedKeepsLaid(r: Ring, mem: seq<word>, slot: nat, frame: Frame)
    requires |frame| <= FRAME_MAX && Laid(r, mem) && slot < r.count
    ensures Laid(r, Placed(r, mem, slot, frame))
  {
    var m := Placed(r, mem, slot, frame);
    forall t | 0 <= t < r.count ensures KeepsLayout(r, mem, m, t) && SlotOk(r, m, t) {
      PlacedKeepsSlot(r, mem, slot, frame, t);
      assert SlotOk(r, mem, t);
      SameSlot(r, mem, m, t);
    }
    forall s, t | 0 <= s < r.count && 0 <= t < r.count && s != t ensures Separate(r, m, s, t) {
      assert Separate(r, mem, s, t);
      SameSlot(r, mem, m, s);
      SameSlot(r, mem, m, t);
    }
  }

  /** A frame that has arrived stays while memory keeps its slot. */
  lemma ArrivedKept(r: Ring, mem: seq<word>, m: seq<word>, t: nat, d: seq<byte>)
    requires Arrived(r, mem, t, d) && Agree(r, mem, m, t) && SlotOk(r, mem, t)
    ensures Arrived(r, m, t, d)
  {
    AgreeKeepsLayout(r, mem, m, t);
    DescriptorWord(r, mem, m, t, 3);
    BufferKept(r, mem, m, t, d);
  }

  lemma BufferKept(r: Ring, mem: seq<word>, m: seq<word>, t: nat, d: seq<byte>)
    requires Agree(r, mem, m, t) && SlotOk(r, mem, t) && |d| <= BufferLength(r, mem, t)
    requires SegmentBytes(mem, SegmentAddress(r, mem, t), |d|) == d
    ensures SegmentBytes(m, SegmentAddress(r, mem, t), |d|) == d
  {
    var a := SegmentAddress(r, mem, t);
    forall i: nat | i < |d| ensures ByteAt(m, a + i) == d[i] {
      BufferCell(r, mem, t, i);
      SameCell(mem, m, a + i);
      assert SegmentBytes(mem, a, |d|)[i] == d[i];
    }
    SegmentIs(m, a, d);
  }

  /** No later frame of the call overwrites one that has arrived. */
  lemma {:induction false} ArrivedStays(r: Ring, p: Progress, turns: nat, t: nat, d: seq<byte>)
    requires Frames(p.queue) && Laid(r, p.mem) && p.slot < r.count && t < r.count && Arrived(r, p.mem, t, d)
    ensures Arrived(r, Taken(r, p, turns).mem, t, d)
    decreases turns
  {
    if turns > 0 && p.queue != [] && Owned(r, p.mem, p.slot) {
      var m := Placed(r, p.mem, p.slot, p.queue[0]);
      assert Separate(r, p.mem, t, p.slot);
      PlacedAgrees(r, p.mem, p.slot, p.queue[0], t);
      ArrivedKept(r, p.mem, m, t, d);
      PlacedKeepsLaid(r, p.mem, p.slot, p.queue[0]);
      ArrivedStays(r, Advanced(r, p), turns - 1, t, d);
    }
  }

  /** After a call every frame taken, however many, can be read from its own slot, in ring order. */
  lemma {:induction false} AllArrive(r: Ring, p: Progress, turns: nat, j: nat)
    requires Frames(p.queue) && Laid(r, p.mem) && p.slot < r.count
    requires j < |p.queue| - |Taken(r, p, turns).queue|
    ensures Arrived(r, Taken(r, p, turns).mem, Further(r, p.slot, j),
                    Delivery(r, p.mem, Further(r, p.slot, j), p.queue[j]))
    decreases turns
  {
    PlacedKeepsLaid(r, p.mem, p.slot, p.queue[0]);
    if j == 0 {
      FirstArrives(r, p, turns);
    } else {
      var q := Advanced(r, p);
      assert Laid(r, q.mem) && q.slot < r.count;
      assert Taken(r, p, turns) == Taken(r, q, turns - 1);
      AllArrive(r, q, turns - 1, j - 1);
      SameDelivery(r, p, j);
    }
  }

  lemma SameDelivery(r: Ring, p: Progress, j: nat)
    requires Frames(p.queue) && Laid(r, p.mem) && p.slot < r.count && 0 < j < |p.queue|
    ensures var q := Advanced(r, p); var t := Further(r, p.slot, j);
            t == Further(r, q.slot, j - 1) && Delivery(r, q.mem, t, q.queue[j - 1]) == Delivery(r, p.mem, t, p.queue[j])
  {
    FurtherInRing(r, Following(r, p.slot), j - 1);
    PlacedKeepsSlot(r, p.mem, p.slot, p.queue[0], Further(r, p.slot, j));
  }

  lemma FirstArrives(r: Ring, p: Progress, turns: nat)
    requires Frames(p.queue) && Laid(r, p.mem) && p.slot < r.count
    requires turns > 0 && p.queue != [] && Owned(r, p.mem, p.slot)
    ensures Arrived(r, Taken(r, p, turns).mem, p.slot, Delivery(r, p.mem, p.slot, p.queue[0]))
  {
    assert SlotOk(r, p.mem, p.slot);
    PlacedArrives(r, p.mem, p.slot, p.queue[0]);
    PlacedKeepsLaid(r, p.mem, p.slot, p.queue[0]);
    ArrivedStays(r, Advanced(r, p), turns - 1, p.slot, Delivery(r, p.mem, p.slot, p.queue[0]));
  }

  // ----- what the guest reads, in the words of its memory -----

  /** The cut frame starts with a whole IPv4 header that claims more than the `n - 14` bytes left of the packet. */
  predicate Rewritten(f: seq<byte>, n: nat)
    requires n <= |f|
  {
    && n >= 34 && f[12] == 0x08 && f[13] == 0x00 && 0x45 <= f[14] < 0x50 && n >= 14 + 4 * (f[14] - 0x40)
    && f[16] as int * 0x100 + f[17] > n - 14
  }

  /** A frame is cut to the buffer's length, if there is one; only a header that claims more is rewritten to fit. */
  lemma DeliveryReads(r: Ring, mem: seq<word>, slot: nat, f: Frame)
    requires |f| <= FRAME_MAX
    ensures var d, buffer := Delivery(r, mem, slot, f), DeunaFrames.Field(r, mem, slot, 0);
            && |d| == (if 0 < buffer < |f| then buffer as int else |f|)
            && (!Rewritten(f, |d|) ==> d == f[..|d|])
            && (Rewritten(f, |d|) ==>
                 && d[16] as int * 0x100 + d[17] == |d| - 14
                 && Checksum.Fold(Checksum.SumWords(d[14..14 + 4 * (f[14] - 0x40)])) == 0xFFFF
                 && forall i :: 0 <= i < |d| && i != 16 && i != 17 && i != 24 && i != 25 ==> d[i] == f[i])
  {
    DeunaFrames.FieldsAreWords(r, mem, slot);
    var n := |Delivery(r, mem, slot, f)|;
    RewrittenIs(f, n);
    if ClaimsMore(f, n) {
      TrimKeepsHeader(f, n);
      TrimmedClaims(f, n);
    }
  }

  lemma RewrittenIs(f: seq<byte>, n: nat)
    requires n <= |f|
    ensures ClaimsMore(f, n) <==> Rewritten(f, n)
    ensures Rewritten(f, n) ==> HeaderLength(f) == 4 * (f[14] - 0x40)
  {
  }

  lemma TrimmedClaims(f: seq<byte>, n: nat)
    requires n <= |f| <= FRAME_MAX && ClaimsMore(f, n)
    ensures Checksum.WordAt(Trimmed(f, n), 16) == n - ETH
  {
    var h := ETH + HeaderLength(f);
    ShortenedHeader(f[ETH..h], n - ETH);
    assert Trimmed(f, n)[ETH..h] == Shortened(f[ETH..h], n - ETH);
    assert Trimmed(f, n)[ETH..h][2] == Trimmed(f, n)[16] && Trimmed(f, n)[ETH..h][3] == Trimmed(f, n)[17];
  }

  /** Byte `i` of the data is in its place: the low byte of its word, or at an odd address the high one. */
  ghost predicate ByteThere(mem: seq<word>, at: nat, d: seq<byte>, i: nat)
    requires i < |d|
  {
    var cell := (at + i) % 0x4_0000 / 2;
    var w: nat := if cell < |mem| then mem[cell] else 0;
    d[i] == if (at + i) % 2 == 1 then w / 0x100 else w % 0x100
  }

  /** What a frame that has arrived looks like: given back, first and last segment, its length and four for the CRC. */
  lemma ArrivedReads(r: Ring, mem: seq<word>, slot: nat, d: seq<byte>)
    requires Arrived(r, mem, slot, d)
    ensures var flags: nat := DeunaFrames.Field(r, mem, slot, 2);
            && flags < 0x8000 && flags / 0x200 % 2 == 1 && flags / 0x100 % 2 == 1
            && DeunaFrames.Field(r, mem, slot, 3) == |d| + 4 && |d| <= DeunaFrames.Field(r, mem, slot, 0)
    ensures forall i: nat :: i < |d| ==> ByteThere(mem, DeunaFrames.SegmentAt(r, mem, slot), d, i)
  {
    ArrivedFields(r, mem, slot, d);
    DeunaFrames.FieldsAreWords(r, mem, slot);
    SegmentThere(mem, SegmentAddress(r, mem, slot), d);
    assert DeunaFrames.SegmentAt(r, mem, slot) == SegmentAddress(r, mem, slot);
  }

  lemma ArrivedFields(r: Ring, mem: seq<word>, slot: nat, d: seq<byte>)
    requires Arrived(r, mem, slot, d)
    ensures var flags: nat := DeunaFrames.Field(r, mem, slot, 2);
            && flags < 0x8000 && flags / 0x200 % 2 == 1 && flags / 0x100 % 2 == 1
            && DeunaFrames.Field(r, mem, slot, 3) == |d| + 4 && |d| <= DeunaFrames.Field(r, mem, slot, 0)
  {
    DeunaFrames.FieldsAreWords(r, mem, slot);
    LastField(r, mem, slot);
  }

  lemma SegmentThere(mem: seq<word>, at: nat, d: seq<byte>)
    requires SegmentBytes(mem, at, |d|) == d
    ensures forall i: nat :: i < |d| ==> ByteThere(mem, at, d, i)
  {
    forall i: nat | i < |d| ensures ByteThere(mem, at, d, i) {
      assert SegmentBytes(mem, at, |d|)[i] == ByteAt(mem, at + i);
    }
  }

  lemma LastField(r: Ring, mem: seq<word>, slot: nat)
    ensures DeunaFrames.Field(r, mem, slot, 3) == WordAt(mem, SlotAddress(r, slot) + 6)
  {
    assert r.entry * 2 * slot == 2 * r.entry * slot;
  }

  /** Of the old flags the low byte and bit 10 stay. */
  lemma FlagsKept(r: Ring, mem: seq<word>, slot: nat, f: Frame)
    requires |f| <= FRAME_MAX && SlotOk(r, mem, slot)
    ensures var before, after := DeunaFrames.Field(r, mem, slot, 2), Placed(r, mem, slot, f);
            && DeunaFrames.Field(r, after, slot, 2) == before % 0x100 + before / 0x400 % 2 * 0x400 + 0x300
            && DeunaFrames.Field(r, after, slot, 0) == DeunaFrames.Field(r, mem, slot, 0)
            && DeunaFrames.Field(r, after, slot, 1) == DeunaFrames.Field(r, mem, slot, 1)
  {
    DeunaFrames.FieldsAreWords(r, mem, slot);
    DeunaFrames.FieldsAreWords(r, Placed(r, mem, slot, f), slot);
    PlacedEntry(r, mem, slot, f);
  }

  // ----- staying inside the buffer -----

  /** A cell that placing a frame writes: of the descriptor, or of a byte delivered. */
  ghost predicate Writes(r: Ring, mem: seq<word>, slot: nat, frame: Frame, c: nat)
    requires |frame| <= FRAME_MAX
  {
    || InDescriptor(r, slot, c)
    || exists i: nat :: i < |Delivery(r, mem, slot, frame)| && ByteCell(SegmentAddress(r, mem, slot), i) == c
  }

  /** No other cell is changed, whatever the descriptor says. */
  lemma NothingElseWritten(r: Ring, mem: seq<word>, slot: nat, frame: Frame, c: nat)
    requires |frame| <= FRAME_MAX && c < |mem| && !Writes(r, mem, slot, frame, c)
    ensures Placed(r, mem, slot, frame)[c] == mem[c]
  {
    var a, d := SegmentAddress(r, mem, slot), Delivery(r, mem, slot, frame);
    OtherCellsKept(mem, a, d, c);
    OtherWordsKept(WithBytes(mem, a, d), SlotAddress(r, slot), Entry(r, mem, slot, |d|), c);
  }

  /** And a delivered byte is in memory afterwards, unless the descriptor is written over it. */
  lemma DeliveredIsWritten(r: Ring, mem: seq<word>, slot: nat, frame: Frame, i: nat)
    requires |frame| <= FRAME_MAX && i < |Delivery(r, mem, slot, frame)|
    requires var a := SegmentAddress(r, mem, slot);
             !InDescriptor(r, slot, ByteCell(a, i))
             && forall k: nat :: k < |Delivery(r, mem, slot, frame)| ==> ByteCell(a, k) < |mem|
    ensures ByteAt(Placed(r, mem, slot, frame), SegmentAddress(r, mem, slot) + i) == Delivery(r, mem, slot, frame)[i]
  {
    var a, d := SegmentAddress(r, mem, slot), Delivery(r, mem, slot, frame);
    NotInDescriptor(r, slot, ByteCell(a, i));
    PlacedIs(r, mem, slot, frame);
    BytesUnderWords(mem, a, d, SlotAddress(r, slot), Entry(r, mem, slot, |d|), i);
  }

  lemma BytesUnderWords(mem: seq<word>, a: nat, d: seq<byte>, ba: nat, ws: seq<word>, i: nat)
    requires i < |d| <= SPACE && forall k: nat :: k < |d| ==> ByteCell(a, k) < |mem|
    requires forall k: nat :: k < |ws| ==> WordCell(ba, k) != ByteCell(a, i)
    ensures ByteAt(WithWords(WithBytes(mem, a, d), ba, ws), a + i) == d[i]
  {
    var m1 := WithBytes(mem, a, d);
    assert ByteCell(a, i) < |mem|;
    BytesReadBack(mem, a, d, i);
    OtherWordsKept(m1, ba, ws, ByteCell(a, i));
    SameCell(m1, WithWords(m1, ba, ws), a + i);
  }

  lemma CellPlus(a: nat, m: nat)
    requires m <= 4
    ensures CellOf(a + 2 * m) == if CellOf(a) + m < SPACE / 2 then CellOf(a) + m else CellOf(a) + m - SPACE / 2
  {
    var q, x := a / SPACE, a % SPACE;
    if x + 2 * m < SPACE {
      DivUnique(a + 2 * m, SPACE, q, x + 2 * m);
    } else {
      DivUnique(a + 2 * m, SPACE, q + 1, x + 2 * m - SPACE);
    }
  }

  /** The first and the ninth byte of a frame cannot both lie in one descriptor. */
  lemma LongerThanDescriptor(a: nat, ba: nat, j: nat, k: nat)
    requires j < 4 && k < 4 && CellOf(a) == WordCell(ba, j)
    ensures CellOf(a + 8) != WordCell(ba, k)
  {
    CellPlus(a, 4);
    CellPlus(ba, j);
    CellPlus(ba, k);
  }

  /**
   A frame is written inside the descriptor and the buffer it offers if and only if
   the buffer's length is not zero. No waiting frame is as short as a descriptor.
   */
  lemma WithinBuffer(r: Ring, mem: seq<word>, slot: nat, frame: Frame)
    requires |frame| <= FRAME_MAX && (frame == [] || |frame| > 8)
    ensures (forall c: nat :: Writes(r, mem, slot, frame, c) ==> InSlot(r, mem, slot, c)) <==>
            BufferLength(r, mem, slot) > 0 || frame == []
  {
    if BufferLength(r, mem, slot) > 0 || frame == [] {
      assert |Delivery(r, mem, slot, frame)| <= BufferLength(r, mem, slot);
    } else {
      FrameOverruns(r, mem, slot, frame);
    }
  }

  lemma FrameOverruns(r: Ring, mem: seq<word>, slot: nat, frame: Frame)
    requires 8 < |frame| <= FRAME_MAX && BufferLength(r, mem, slot) == 0
    ensures exists c: nat :: Writes(r, mem, slot, frame, c) && !InSlot(r, mem, slot, c)
  {
    var a := SegmentAddress(r, mem, slot);
    assert |Delivery(r, mem, slot, frame)| == |frame|;
    assert Writes(r, mem, slot, frame, ByteCell(a, 0)) && Writes(r, mem, slot, frame, ByteCell(a, 8));
    if InSlot(r, mem, slot, ByteCell(a, 0)) && InSlot(r, mem, slot, ByteCell(a, 8)) {
      var j: nat :| j < 4 && WordCell(SlotAddress(r, slot), j) == ByteCell(a, 0);
      var k: nat :| k < 4 && WordCell(SlotAddress(r, slot), k) == ByteCell(a, 8);
      LongerThanDescriptor(a, SlotAddress(r, slot), j, k);
    }
  }

  /** A ring of one descriptor at address 0x10 with buffer length zero and the buffer address 0x40. */
  function NoBuffer(): (mem: seq<word>)
    ensures |mem| == 0x40
  {
    seq<word>(0x40, i => if i == 10 then OWN else if i == 9 then 0x40 else 0)
  }

  /** A frame of the least length changes a word the descriptor does not offer. */
  lemma ZeroLengthOverruns(b: byte)
    requires b > 0
    ensures var r, mem, frame := Ring(0x10, 4, 1), NoBuffer(), [b] + seq<byte>(FRAME_MIN - 1, _ => 0);
            && Owned(r, mem, 0) && BufferLength(r, mem, 0) == 0 && |frame| == FRAME_MIN
            && !InSlot(r, mem, 0, 0x20) && Placed(r, mem, 0, frame)[0x20] != mem[0x20]
  {
    var r, mem, frame := Ring(0x10, 4, 1), NoBuffer(), [b] + seq<byte>(FRAME_MIN - 1, _ => 0);
    assert CellOf(0x10) == 8 && CellOf(0x12) == 9 && CellOf(0x14) == 10;
    assert SegmentAddress(r, mem, 0) == 0x40 && ByteCell(0x40, 0) == 0x20;
    forall k: nat | k < 4 ensures WordCell(0x10, k) != 0x20 {
      CellPlus(0x10, k);
    }
    forall k: nat | k < FRAME_MIN ensures ByteCell(0x40, k) < |mem| {
      SmallMod(0x40 + k, SPACE);
    }
    assert Delivery(r, mem, 0, frame)[0] == b;
    DeliveredIsWritten(r, mem, 0, frame, 0);
    assert ByteAt(mem, 0x40) == 0;
  }

  // ----- the device -----

  class Receiver {
    const memory: array<word>
    var ring: Ring
    var next: nat
    var running: bool
    /** The interrupt flags for a received frame and for a receive error. */
    var received: bool
    var blocked: bool
    /** Frames from the network that wait for the guest. */
    var queue: seq<Frame>

    ghost predicate Valid()
      reads this
    {
      Frames(queue)
    }

    ghost function View(): Progress
      reads this, memory
    {
      Progress(memory[..], next, queue)
    }

    constructor (words: nat)
      ensures Valid() && fresh(memory) && memory.Length == words && queue == [] && !running && !received && !blocked
    {
      memory := new word[words](_ => 0);
      ring, next, running, received, blocked, queue := Ring(0, 4, 0), 0, false, false, false, [];
    }

    method WriteByte(a: nat, b: byte)
      modifies memory
      ensures memory[..] == WithByte(old(memory[..]), a, b)
    {
      var w := ReadWord(memory, a);
      if a % 2 == 1 {
        WriteWord(memory, a, w % 0x100 + b as int * 0x100);
      } else {
        WriteWord(memory, a, w / 0x100 * 0x100 + b);
      }
    }

    method WriteBytes(a: nat, data: array<byte>, n: nat)
      requires n <= data.Length
      modifies memory
      ensures memory[..] == WithBytes(old(memory[..]), a, data[..n])
    {
      for i := 0 to n
        invariant memory[..] == WithBytes(old(memory[..]), a, data[..i])
      {
        assert data[..i + 1][..i] == data[..i];
        WriteByte(a + i, data[i]);
      }
    }

    method WriteWords(a: nat, ws: seq<word>)
      modifies memory
      ensures memory[..] == WithWords(old(memory[..]), a, ws)
    {
      for i := 0 to |ws|
        invariant memory[..] == WithWords(old(memory[..]), a, ws[..i])
      {
        assert ws[..i + 1][..i] == ws[..i];
        WriteWord(memory, a + 2 * i, ws[i]);
      }
      assert ws[..|ws|] == ws;
    }

    /** Cuts a frame to what fits and places it in the current slot. */
    method Place(f: Frame)
      requires |f| <= FRAME_MAX
      modifies memory
      ensures memory[..] == Placed(ring, old(memory[..]), next, f)
    {
      var buffer := ReadWord(memory, SlotAddress(ring, next));
      var n := if 0 < buffer < |f| then buffer else |f|;
      var frame := Cut(f, n);
      Fill(frame, n);
    }

    method Fill(data: array<byte>, n: nat)
      requires n <= data.Length
      modifies memory
      ensures memory[..] == Filled(ring, old(memory[..]), next, data[..n])
    {
      var segment, ws := ReadDescriptor(n);
      WriteBytes(segment, data, n);
      WriteWords(SlotAddress(ring, next), ws);
    }

    /** Where the data goes, and the descriptor to write after `n` bytes of it. */
    method ReadDescriptor(n: nat) returns (segment: nat, ws: seq<word>)
      ensures segment == SegmentAddress(ring, memory[..], next) && ws == Entry(ring, memory[..], next, n)
    {
      var ba := SlotAddress(ring, next);
      var h0 := ReadWord(memory, ba);
      var h1 := ReadWord(memory, ba + 2);
      var h2 := ReadWord(memory, ba + 4);
      segment := h1 as int + h2 % 4 * WORD_MOD;
      ws := [h0, h1, HandedBack(h2), (n + 4) % MLEN_MOD];
    }

    method Cut(f: Frame, n: nat) returns (frame: array<byte>)
      requires n <= |f| <= FRAME_MAX
      ensures fresh(frame) && frame.Length == FRAME_MAX && frame[..n] == Trimmed(f, n)
    {
      frame := new byte[FRAME_MAX](i => if 0 <= i < |f| then f[i] else 0);
      assert frame[..|f|] == f;
      TrimmedPrefix(frame[..], f, n);
      Trim(frame, n);
    }

    /** The frame at the front goes into the current slot, if the guest has handed it over. */
    method Turn() returns (taken: bool)
      requires Valid() && queue != []
      modifies this`next, this`received, this`queue, memory
      ensures Valid() && taken == old(Owned(ring, memory[..], next))
      ensures taken ==> View() == Advanced(ring, old(View())) && received
      ensures !taken ==> View() == old(View()) && received == old(received)
    {
      var flags := ReadWord(memory, SlotAddress(ring, next) + 4);
      if flags < OWN {
        return false;
      }
      Place(queue[0]);
      queue := queue[1..];
      received := true;
      next := if next + 1 >= ring.count then 0 else next + 1;
      taken := true;
    }

    /** Moves waiting frames into the ring, at most four of them in a call. */
    method ProcessReceive() returns (any: bool)
      requires Valid()
      modifies this`next, this`received, this`queue, memory
      ensures Valid()
      ensures var open := Ready(ring) && running && !blocked;
              var after := if open then Taken(ring, old(View()), MOST_FRAMES) else old(View());
              && View() == after
              && any == (|queue| < |old(queue)|)
              && received == (old(received) || any)
              && |old(queue)| - 4 <= |queue| <= |old(queue)|
              && (open && |queue| > |old(queue)| - 4 ==> queue == [] || !Owned(ring, memory[..], next))
    {
      any := false;
      TakenFromFront(ring, View(), MOST_FRAMES);
      if ring.count == 0 || ring.entry < 4 || ring.base == 0 || !running || blocked {
        return;
      }
      ghost var goal := Taken(ring, View(), MOST_FRAMES);
      var n := 0;
      while n < MOST_FRAMES && queue != []
        invariant n <= MOST_FRAMES && Valid()
        invariant Taken(ring, View(), MOST_FRAMES - n) == goal
        invariant any == (|queue| < |old(queue)|) && |queue| <= |old(queue)|
        invariant received == (old(received) || any)
      {
        var taken := Turn();
        if !taken {
          break;
        }
        any := true;
        n := n + 1;
      }
    }
  }

  /** What follows the frame in its buffer does not matter to the cut. */
  lemma TrimmedPrefix(g: seq<byte>, f: seq<byte>, n: nat)
    requires n <= |f| <= |g| <= FRAME_MAX && g[..|f|] == f
    ensures Trimmed(g, n) == Trimmed(f, n)
  {
    assert forall i :: 0 <= i < |f| ==> g[i] == f[i];
    assert g[..n] == f[..n];
    if ClaimsMore(f, n) {
      var h := ETH + HeaderLength(f);
      assert g[..ETH] == f[..ETH] && g[ETH..h] == f[ETH..h] && g[h..n] == f[h..n];
    }
  }
}
