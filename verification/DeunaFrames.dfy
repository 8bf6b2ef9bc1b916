/** What a transmitted frame holds, told in the words of guest memory and the station's address alone. */
module DeunaFrames {
  import opened Words
  import opened Deuna

  /** Word `k` of a descriptor: length, address, flags, spare. */
  ghost function Field(r: Ring, mem: seq<word>, d: nat, k: nat): word {
    var cell := (r.base + 2 * r.entry * d + 2 * k) % 0x4_0000 / 2;
    if cell < |mem| then mem[cell] else 0
  }

  /** The descriptor a call comes to after `j` others. */
  ghost function Place(r: Ring, slot: nat, j: nat): nat
    requires r.count > 0
  {
    (slot + j) % r.count
  }

  ghost predicate StartsFrame(r: Ring, mem: seq<word>, d: nat) {
    Field(r, mem, d, 2) / 0x200 % 2 == 1
  }

  ghost predicate EndsFrame(r: Ring, mem: seq<word>, d: nat) {
    Field(r, mem, d, 2) / 0x100 % 2 == 1
  }

  /** The 18-bit address of a descriptor's segment. */
  ghost function SegmentAt(r: Ring, mem: seq<word>, d: nat): nat {
    Field(r, mem, d, 1) as int + Field(r, mem, d, 2) % 4 * 0x1_0000
  }

  /** How many frames end before the `j`-th descriptor of a call. */
  ghost function EndsBefore(r: Ring, mem: seq<word>, slot: nat, j: nat): nat
    requires r.count > 0
  {
    if j == 0 then 0
    else EndsBefore(r, mem, slot, j - 1) + if EndsFrame(r, mem, Place(r, slot, j - 1)) then 1 else 0
  }

  /** The bytes in the descriptors from the `a`-th up to the `j`-th. */
  ghost function BytesBefore(r: Ring, mem: seq<word>, slot: nat, a: nat, j: nat): nat
    requires r.count > 0 && a <= j
    decreases j
  {
    if j == a then 0 else BytesBefore(r, mem, slot, a, j - 1) + Field(r, mem, Place(r, slot, j - 1), 0)
  }

  /** A call's descriptors from the `a`-th to the `b`-th make one frame. */
  ghost predicate OneGroup(r: Ring, mem: seq<word>, slot: nat, pending: seq<byte>, a: nat, b: nat)
    requires r.count > 0
  {
    && a <= b && (forall j: nat :: a <= j <= b ==> (EndsFrame(r, mem, Place(r, slot, j)) <==> j == b))
    && (forall j: nat :: a < j <= b ==> !StartsFrame(r, mem, Place(r, slot, j)))
    && (|| StartsFrame(r, mem, Place(r, slot, a)) || (a == 0 && pending == [])
        || (a > 0 && EndsFrame(r, mem, Place(r, slot, a - 1))))
  }

  /** Byte `i` of a segment is byte `from + i` of the frame: its word's low one, or at an odd address the high one. */
  ghost predicate ByteHeld(f: Frame, total: nat, mem: seq<word>, at: nat, from: nat, i: nat) {
    var k, cell := from + i, (at + i) % 0x4_0000 / 2;
    var w: nat := if cell < |mem| then mem[cell] else 0;
    k < 1514 && !(total >= 12 && 6 <= k < 12) ==>
      k < |f| && f[k] == if (at + i) % 2 == 1 then w / 0x100 else w % 0x100
  }

  ghost predicate HoldsSegment(f: Frame, total: nat, mem: seq<word>, at: nat, n: nat, from: nat) {
    forall i: nat :: i < n ==> ByteHeld(f, total, mem, at, from, i)
  }

  /**
   A frame for the network: the segments' bytes in order, cut at 1514, with the
   station's address in bytes 6 to 11, and filled with zeros to 60 from 14 bytes on.
   */
  ghost predicate FrameHolds(r: Ring, mac: seq<byte>, mem: seq<word>, slot: nat, a: nat, b: nat, f: Frame)
    requires r.count > 0 && a <= b
  {
    var total := BytesBefore(r, mem, slot, a, b + 1);
    && |f| == (if total < 14 then total else if total < 60 then 60 else if total < 1514 then total else 1514)
    && (total >= 12 ==> f[6..12] == mac)
    && (forall k :: total <= k < |f| ==> f[k] == 0)
    && forall j: nat :: a <= j <= b ==>
         var d := Place(r, slot, j);
         HoldsSegment(f, total, mem, SegmentAt(r, mem, d), Field(r, mem, d, 0), BytesBefore(r, mem, slot, a, j))
  }

  lemma FieldsAreWords(r: Ring, mem: seq<word>, d: nat)
    ensures Field(r, mem, d, 0) == WordAt(mem, SlotAddress(r, d))
    ensures Field(r, mem, d, 1) == WordAt(mem, SlotAddress(r, d) + 2)
    ensures Field(r, mem, d, 2) == FlagWord(r, mem, d)
  {
    assert r.entry * 2 * d == 2 * r.entry * d;
  }

  lemma ChunkIs(r: Ring, mem: seq<word>, d: nat)
    ensures var c := ChunkAt(r, mem, d);
            && c.start == StartsFrame(r, mem, d) && c.end == EndsFrame(r, mem, d) && |c.bytes| == Field(r, mem, d, 0)
  {
    FieldsAreWords(r, mem, d);
  }

  lemma ChunkByte(r: Ring, mem: seq<word>, d: nat, i: nat)
    requires i < |ChunkAt(r, mem, d).bytes|
    ensures ChunkAt(r, mem, d).bytes[i] == ByteAt(mem, SegmentAt(r, mem, d) + i)
  {
    FieldsAreWords(r, mem, d);
  }

  lemma FollowingPlace(r: Ring, slot: nat, j: nat)
    requires slot < r.count
    ensures Place(r, Following(r, slot), j) == Place(r, slot, j + 1)
  {
    if slot + 1 >= r.count {
      DivShift(j, r.count, 1);
    }
  }

  lemma {:induction false} ChunkPlaces(r: Ring, mem: seq<word>, slot: nat, n: nat, j: nat)
    requires slot < r.count && j < n
    ensures |Chunks(r, mem, slot, n)| == n && Chunks(r, mem, slot, n)[j] == ChunkAt(r, mem, Place(r, slot, j))
    decreases n
  {
    if j > 0 {
      ChunkPlaces(r, mem, Following(r, slot), n - 1, j - 1);
      FollowingPlace(r, slot, j - 1);
    } else {
      SmallMod(slot, r.count);
      if n > 1 {
        ChunkPlaces(r, mem, Following(r, slot), n - 1, 0);
      }
    }
  }

  /** How many of the chunks end a frame. */
  ghost function Ends(chunks: seq<Chunk>): nat {
    if chunks == [] then 0 else (if chunks[0].end then 1 else 0) + Ends(chunks[1..])
  }

  lemma {:induction false} FramesCounted(mac: seq<byte>, chunks: seq<Chunk>, pending: seq<byte>)
    requires |mac| == 6
    ensures |Assembled(mac, chunks, pending).frames| == Ends(chunks)
    ensures chunks != [] && chunks[|chunks| - 1].end ==> Assembled(mac, chunks, pending).pending == []
    decreases |chunks|
  {
    if chunks != [] {
      FramesCounted(mac, chunks[1..], if chunks[0].end then [] else Grown(chunks[0], pending));
    }
  }

  lemma {:induction false} EndsAppend(chunks: seq<Chunk>, c: Chunk)
    ensures Ends(chunks + [c]) == Ends(chunks) + if c.end then 1 else 0
  {
    if chunks == [] {
      assert [] + [c] == [c] && [c][1..] == [];
    } else {
      EndsAppend(chunks[1..], c);
      assert (chunks + [c])[1..] == chunks[1..] + [c];
    }
  }

  /** From a start, or with nothing pending, to the only end. */
  ghost predicate WholeFrame(group: seq<Chunk>, pending: seq<byte>) {
    && group != [] && (group[0].start || pending == [])
    && (forall i :: 0 < i < |group| ==> !group[i].start)
    && (forall i :: 0 <= i < |group| ==> group[i].end == (i == |group| - 1))
  }

  lemma FrameInMidst(mac: seq<byte>, before: seq<Chunk>, group: seq<Chunk>, after: seq<Chunk>, pending: seq<byte>)
    requires |mac| == 6 && WholeFrame(group, Assembled(mac, before, pending).pending)
    ensures var frames := Assembled(mac, before + (group + after), pending).frames;
            Ends(before) < |frames| && frames[Ends(before)] == Finished(mac, Clipped(Joined(group)))
  {
    var first := Assembled(mac, before, pending);
    FramesCounted(mac, before, pending);
    OneFrame(mac, group, first.pending);
    AssembledInTwoCalls(mac, before, group + after, pending);
    AssembledInTwoCalls(mac, group, after, first.pending);
    assert [] + Joined(group) == Joined(group);
  }

  /** Chunks of a group in the midst of others make the frame that their number says. */
  lemma GroupFrame(mac: seq<byte>, chunks: seq<Chunk>, pending: seq<byte>, a: nat, b: nat)
    requires |mac| == 6 && a <= b < |chunks|
    requires forall j :: a <= j <= b ==> chunks[j].end == (j == b)
    requires forall j :: a < j <= b ==> !chunks[j].start
    requires chunks[a].start || (a == 0 && pending == []) || (a > 0 && chunks[a - 1].end)
    ensures var frames := Assembled(mac, chunks, pending).frames;
            && Ends(chunks[..a]) < |frames|
            && frames[Ends(chunks[..a])] == Finished(mac, Clipped(Joined(chunks[a..b + 1])))
  {
    PendingBefore(mac, chunks, pending, a);
    InThree(chunks, a, b + 1);
    FrameInMidst(mac, chunks[..a], chunks[a..b + 1], chunks[b + 1..], pending);
  }

  lemma PendingBefore(mac: seq<byte>, chunks: seq<Chunk>, pending: seq<byte>, a: nat)
    requires |mac| == 6 && a < |chunks|
    ensures (a == 0 && pending == []) || (a > 0 && chunks[a - 1].end) ==>
              Assembled(mac, chunks[..a], pending).pending == []
  {
    var before := chunks[..a];
    FramesCounted(mac, before, pending);
    if a > 0 {
      assert before[|before| - 1] == chunks[a - 1];
    } else {
      assert before == [];
    }
  }

  lemma InThree(chunks: seq<Chunk>, a: nat, b: nat)
    requires a <= b <= |chunks|
    ensures chunks == chunks[..a] + (chunks[a..b] + chunks[b..])
  {
  }

  lemma OneMore(chunks: seq<Chunk>, a: nat, j: nat)
    requires a < j <= |chunks|
    ensures chunks[a..j] == chunks[a..j - 1] + [chunks[j - 1]]
  {
  }

  /** Where a chunk's bytes are in the concatenation of all. */
  lemma {:induction false} JoinedHolds(chunks: seq<Chunk>, j: nat, i: nat)
    requires j < |chunks| && i < |chunks[j].bytes|
    ensures var k := |Joined(chunks[..j])| + i; k < |Joined(chunks)| && Joined(chunks)[k] == chunks[j].bytes[i]
    decreases j
  {
    if j == 0 {
      assert chunks[..0] == [];
    } else {
      JoinedHolds(chunks[1..], j - 1, i);
      assert chunks[..j][1..] == chunks[1..][..j - 1];
    }
  }

  lemma {:induction false} JoinedAppend(chunks: seq<Chunk>, c: Chunk)
    ensures Joined(chunks + [c]) == Joined(chunks) + c.bytes
  {
    if chunks == [] {
      assert [] + [c] == [c] && [c][1..] == [];
    } else {
      JoinedAppend(chunks[1..], c);
      assert (chunks + [c])[1..] == chunks[1..] + [c];
      assert (chunks + [c])[0] == chunks[0];
    }
  }

  /** A call's chunks, as descriptors tell of them. */
  ghost predicate Described(r: Ring, mem: seq<word>, slot: nat, chunks: seq<Chunk>)
    requires r.count > 0
  {
    forall j :: 0 <= j < |chunks| ==> chunks[j] == ChunkAt(r, mem, Place(r, slot, j))
  }

  lemma {:induction false} EndsAreEnds(r: Ring, mem: seq<word>, slot: nat, chunks: seq<Chunk>, j: nat)
    requires r.count > 0 && Described(r, mem, slot, chunks) && j <= |chunks|
    ensures Ends(chunks[..j]) == EndsBefore(r, mem, slot, j)
    decreases j
  {
    if j > 0 {
      EndsAreEnds(r, mem, slot, chunks, j - 1);
      EndsAppend(chunks[..j - 1], chunks[j - 1]);
      OneMore(chunks, 0, j);
      ChunkIs(r, mem, Place(r, slot, j - 1));
    }
  }

  lemma {:induction false} LengthsAdd(r: Ring, mem: seq<word>, slot: nat, chunks: seq<Chunk>, a: nat, j: nat)
    requires r.count > 0 && Described(r, mem, slot, chunks) && a <= j <= |chunks|
    ensures |Joined(chunks[a..j])| == BytesBefore(r, mem, slot, a, j)
    decreases j
  {
    if j > a {
      LengthsAdd(r, mem, slot, chunks, a, j - 1);
      JoinedAppend(chunks[a..j - 1], chunks[j - 1]);
      OneMore(chunks, a, j);
      ChunkIs(r, mem, Place(r, slot, j - 1));
    } else {
      assert chunks[a..j] == [];
    }
  }

  /** The finished frame, byte by byte. */
  lemma FinishedHolds(mac: seq<byte>, p: seq<byte>)
    requires |mac| == 6
    ensures var f, total := Finished(mac, Clipped(p)), |p|;
            && |f| == (if total < 14 then total else if total < 60 then 60 else if total < 1514 then total else 1514)
            && (total >= 12 ==> f[6..12] == mac)
            && (forall k :: total <= k < |f| ==> f[k] == 0)
            && forall k :: 0 <= k < total && k < 1514 && !(6 <= k < 12 && total >= 12) ==> f[k] == p[k]
  {
    var q := Clipped(p);
    var named := if |q| >= 12 then q[..6] + mac + q[12..] else q;
    assert |q| >= 12 ==> named[6..12] == mac;
    assert Finished(mac, q)[..|named|] == named;
    forall k | 0 <= k < |q| && !(6 <= k < 12 && |q| >= 12) ensures Finished(mac, q)[k] == p[k] {
      assert named[k] == q[k];
      assert Finished(mac, q)[..|named|][k] == named[k];
    }
    if |q| >= 12 {
      assert Finished(mac, q)[6..12] == Finished(mac, q)[..|named|][6..12];
    }
  }

  /** A chunk's bytes are in the concatenation behind those of the chunks before it. */
  lemma GroupByte(chunks: seq<Chunk>, a: nat, b: nat, j: nat, i: nat)
    requires a <= j <= b < |chunks| && i < |chunks[j].bytes|
    ensures var k, all := |Joined(chunks[a..j])| + i, Joined(chunks[a..b + 1]);
            k < |all| && all[k] == chunks[j].bytes[i]
  {
    var group := chunks[a..b + 1];
    assert group[..j - a] == chunks[a..j] && group[j - a] == chunks[j];
    JoinedHolds(group, j - a, i);
  }

  lemma GroupBytes(r: Ring, mem: seq<word>, slot: nat, chunks: seq<Chunk>, a: nat, b: nat, j: nat, i: nat)
    requires r.count > 0 && Described(r, mem, slot, chunks) && a <= j <= b < |chunks|
    requires i < Field(r, mem, Place(r, slot, j), 0)
    ensures var k, all := |Joined(chunks[a..j])| + i, Joined(chunks[a..b + 1]);
            k < |all| && all[k] == ByteAt(mem, SegmentAt(r, mem, Place(r, slot, j)) + i)
  {
    var d := Place(r, slot, j);
    assert chunks[j] == ChunkAt(r, mem, d);
    ChunkIs(r, mem, d);
    GroupByte(chunks, a, b, j, i);
    ChunkByte(r, mem, d, i);
  }

  lemma ByteIsHeld(mac: seq<byte>, all: seq<byte>, mem: seq<word>, at: nat, from: nat, i: nat)
    requires |mac| == 6 && from + i < |all| && all[from + i] == ByteAt(mem, at + i)
    ensures ByteHeld(Finished(mac, Clipped(all)), |all|, mem, at, from, i)
  {
    FinishedHolds(mac, all);
  }

  lemma SegmentHeld(r: Ring, mac: seq<byte>, mem: seq<word>, slot: nat, chunks: seq<Chunk>, a: nat, b: nat, j: nat)
    requires |mac| == 6 && r.count > 0 && Described(r, mem, slot, chunks) && a <= j <= b < |chunks|
    ensures var d, all := Place(r, slot, j), Joined(chunks[a..b + 1]);
            HoldsSegment(Finished(mac, Clipped(all)), |all|, mem, SegmentAt(r, mem, d), Field(r, mem, d, 0),
                         |Joined(chunks[a..j])|)
  {
    var d, all := Place(r, slot, j), Joined(chunks[a..b + 1]);
    forall i: nat | i < Field(r, mem, d, 0)
      ensures ByteHeld(Finished(mac, Clipped(all)), |all|, mem, SegmentAt(r, mem, d), |Joined(chunks[a..j])|, i)
    {
      GroupBytes(r, mem, slot, chunks, a, b, j, i);
      ByteIsHeld(mac, all, mem, SegmentAt(r, mem, d), |Joined(chunks[a..j])|, i);
    }
  }

  /** Every frame of a call holds what its descriptors say. */
  lemma FramesHold(r: Ring, mac: seq<byte>, mem: seq<word>, slot: nat, pending: seq<byte>, chunks: seq<Chunk>,
                   a: nat, b: nat)
    requires |mac| == 6 && slot < r.count && Described(r, mem, slot, chunks)
    requires b < |chunks| && OneGroup(r, mem, slot, pending, a, b)
    ensures var frames := Assembled(mac, chunks, pending).frames; var f := EndsBefore(r, mem, slot, a);
            f < |frames| && FrameHolds(r, mac, mem, slot, a, b, frames[f])
  {
    forall j: nat | j <= b
      ensures chunks[j].start == StartsFrame(r, mem, Place(r, slot, j))
      ensures chunks[j].end == EndsFrame(r, mem, Place(r, slot, j))
    {
      ChunkIs(r, mem, Place(r, slot, j));
    }
    GroupFrame(mac, chunks, pending, a, b);
    EndsAreEnds(r, mem, slot, chunks, a);
    GroupHolds(r, mac, mem, slot, chunks, a, b);
  }

  lemma GroupHolds(r: Ring, mac: seq<byte>, mem: seq<word>, slot: nat, chunks: seq<Chunk>, a: nat, b: nat)
    requires |mac| == 6 && r.count > 0 && Described(r, mem, slot, chunks) && a <= b < |chunks|
    ensures FrameHolds(r, mac, mem, slot, a, b, Finished(mac, Clipped(Joined(chunks[a..b + 1]))))
  {
    FinishedHolds(mac, Joined(chunks[a..b + 1]));
    LengthsAdd(r, mem, slot, chunks, a, b + 1);
    forall j: nat | a <= j <= b
      ensures var d := Place(r, slot, j);
              HoldsSegment(Finished(mac, Clipped(Joined(chunks[a..b + 1]))), BytesBefore(r, mem, slot, a, b + 1), mem,
                           SegmentAt(r, mem, d), Field(r, mem, d, 0), BytesBefore(r, mem, slot, a, j))
    {
      SegmentHeld(r, mac, mem, slot, chunks, a, b, j);
      LengthsAdd(r, mem, slot, chunks, a, j);
    }
  }

  /**
   What a call sends and takes: the frames are as many as the descriptors taken that
   end one, each holds what its descriptors say, every descriptor taken was owned, and
   where the call stops none is owned any more.
   */
  ghost predicate CallHolds(r: Ring, mac: seq<byte>, mem: seq<word>, after: seq<word>, slot: nat, pending: seq<byte>,
                            frames: seq<Frame>, n: nat)
    requires r.count > 0
  {
    && |frames| == EndsBefore(r, mem, slot, n)
    && (forall j: nat :: j < n ==> Field(r, mem, Place(r, slot, j), 2) >= 0x8000)
    && Field(r, after, Place(r, slot, n), 2) < 0x8000
    && forall a: nat, b: nat :: b < n && OneGroup(r, mem, slot, pending, a, b) ==>
         var f := EndsBefore(r, mem, slot, a);
         f < |frames| && FrameHolds(r, mac, mem, slot, a, b, frames[f])
  }

  lemma {:induction false} FurtherPlace(r: Ring, slot: nat, n: nat)
    requires slot < r.count
    ensures Further(r, slot, n) == Place(r, slot, n)
    decreases n
  {
    if n == 0 {
      SmallMod(slot, r.count);
    } else {
      FurtherPlace(r, Following(r, slot), n - 1);
      FollowingPlace(r, slot, n - 1);
    }
  }

  /** A descriptor taken was owned before the call: giving back only ever clears the OWN bit. */
  lemma {:induction false} TakenOwned(r: Ring, ref: seq<word>, mem: seq<word>, slot: nat, j: nat)
    requires slot < r.count && j < |Consumed(r, mem, slot)| && OnlyCleared(ref, mem)
    ensures Owned(r, ref, Place(r, slot, j))
    decreases OwnBits(mem)
  {
    ReleaseCounts(r, mem, slot);
    if j == 0 {
      SmallMod(slot, r.count);
    } else {
      TakenOwned(r, ref, Released(r, mem, slot), Following(r, slot), j - 1);
      FollowingPlace(r, slot, j - 1);
    }
  }

  ghost predicate OnlyCleared(a: seq<word>, b: seq<word>) {
    |a| == |b| && forall i :: 0 <= i < |a| ==> b[i] <= a[i]
  }

  lemma CallSends(r: Ring, mac: seq<byte>, mem: seq<word>, slot: nat, pending: seq<byte>)
    requires |mac| == 6 && slot < r.count && Apart(r, mem)
    ensures var chunks := Consumed(r, mem, slot);
            && SlotAfter(r, mem, slot) == Place(r, slot, |chunks|)
            && CallHolds(r, mac, mem, MemoryAfter(r, mem, slot), slot, pending,
                         Assembled(mac, chunks, pending).frames, |chunks|)
  {
    var chunks := Consumed(r, mem, slot);
    var n := |chunks|;
    assert SameButOwn(r, mem, mem);
    ConsumedAre(r, mem, mem, slot);
    forall j | 0 <= j < n ensures chunks[j] == ChunkAt(r, mem, Place(r, slot, j)) {
      ChunkPlaces(r, mem, slot, n, j);
    }
    CallStops(r, mem, slot);
    FramesCounted(mac, chunks, pending);
    EndsAreEnds(r, mem, slot, chunks, n);
    assert chunks[..n] == chunks;
    forall a: nat, b: nat | b < n && OneGroup(r, mem, slot, pending, a, b)
      ensures var frames := Assembled(mac, chunks, pending).frames; var f := EndsBefore(r, mem, slot, a);
              f < |frames| && FrameHolds(r, mac, mem, slot, a, b, frames[f])
    {
      FramesHold(r, mac, mem, slot, pending, chunks, a, b);
    }
  }

  lemma CallStops(r: Ring, mem: seq<word>, slot: nat)
    requires slot < r.count && Apart(r, mem)
    ensures var n := |Consumed(r, mem, slot)|;
            && SlotAfter(r, mem, slot) == Place(r, slot, n)
            && (forall j: nat :: j < n ==> Field(r, mem, Place(r, slot, j), 2) >= 0x8000)
            && Field(r, MemoryAfter(r, mem, slot), Place(r, slot, n), 2) < 0x8000
  {
    var n := |Consumed(r, mem, slot)|;
    assert SameButOwn(r, mem, mem);
    ConsumedAre(r, mem, mem, slot);
    FurtherPlace(r, slot, n);
    OnlyOwnBitsChange(r, mem, slot);
    FieldsAreWords(r, MemoryAfter(r, mem, slot), Place(r, slot, n));
    forall j: nat | j < n ensures Field(r, mem, Place(r, slot, j), 2) >= 0x8000 {
      TakenOwned(r, mem, mem, slot, j);
      FieldsAreWords(r, mem, Place(r, slot, j));
    }
  }
}
