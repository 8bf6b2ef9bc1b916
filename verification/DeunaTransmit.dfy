/** The transmitting device in place: each turn gathers one descriptor and gives it back. */
module DeunaTransmit {
  import opened Words
  import opened Deuna
  import opened DeunaFrames

  lemma NextCell(a: nat)
    ensures CellOf(a) != CellOf(a + 2)
  {
    var q, x := a / SPACE, a % SPACE;
    if x + 2 < SPACE {
      DivUnique(a + 2, SPACE, q, x + 2);
    } else {
      DivUnique(a + 2, SPACE, q + 1, x + 2 - SPACE);
    }
  }

  /** Rewriting a descriptor with one flag cleared changes its flag word only. */
  lemma RewriteReleases(r: Ring, mem: seq<word>, slot: nat)
    requires Owned(r, mem, slot)
    ensures var ba := SlotAddress(r, slot);
            var m1 := WithWord(mem, ba, WordAt(mem, ba));
            var m2 := WithWord(m1, ba + 2, WordAt(mem, ba + 2));
            var m3 := WithWord(m2, ba + 4, FlagWord(r, mem, slot) - OWN);
            WithWord(m3, ba + 6, WordAt(mem, ba + 6)) == Released(r, mem, slot)
  {
    var ba := SlotAddress(r, slot);
    assert WithWord(mem, ba, WordAt(mem, ba)) == mem;
    assert WithWord(mem, ba + 2, WordAt(mem, ba + 2)) == mem;
    NextCell(ba + 4);
    var m3 := Released(r, mem, slot);
    assert WithWord(m3, ba + 6, WordAt(m3, ba + 6)) == m3;
  }

  class Device {
    const memory: array<word>
    const accum: array<byte>
    var accumLen: nat
    var ring: Ring
    var next: nat
    var mac: seq<byte>
    /** The frames handed to the network side, and the transmit interrupt flag. */
    var sent: seq<Frame>
    var transmitted: bool

    ghost predicate Valid()
      reads this
    {
      accum.Length == FRAME_MAX && accumLen <= FRAME_MAX && |mac| == 6
    }

    ghost function Pending(): (p: seq<byte>)
      requires Valid()
      reads this, accum
    {
      accum[..accumLen]
    }

    constructor (words: nat, address: seq<byte>)
      requires |address| == 6
      ensures Valid() && Pending() == [] && sent == [] && !transmitted && mac == address
      ensures fresh(memory) && fresh(accum) && memory.Length == words
    {
      memory := new word[words](_ => 0);
      accum := new byte[FRAME_MAX](_ => 0);
      accumLen, next, mac, sent, transmitted := 0, 0, address, [], false;
      ring := Ring(0, 4, 0);
    }

    method ReadByte(a: nat) returns (v: byte)
      ensures v == ByteAt(memory[..], a)
    {
      var w := ReadWord(memory, a);
      v := if a % 2 == 1 then w / 0x100 else w % 0x100;
    }

    /** Adds a segment to the accumulator, as far as it fits. */
    method Append(at: nat, length: nat)
      requires Valid()
      modifies this`accumLen, accum
      ensures Valid() && Pending() == Clipped(old(Pending()) + SegmentBytes(memory[..], at, length))
    {
      if length == 0 || accumLen >= FRAME_MAX {
        return;
      }
      var n := Min(length, FRAME_MAX - accumLen);
      ghost var before, segment := Pending(), SegmentBytes(memory[..], at, length);
      for i := 0 to n
        invariant accumLen == |before| && accum[..accumLen + i] == before + segment[..i]
      {
        var b := ReadByte(at + i);
        accum[accumLen + i] := b;
        assert accum[..accumLen + i + 1] == accum[..accumLen + i] + [b];
        assert segment[..i + 1] == segment[..i] + [b];
      }
      accumLen := accumLen + n;
    }

    /** Completes the accumulated frame and hands it over. */
    method Finish()
      requires Valid()
      modifies this`accumLen, this`sent, this`transmitted, accum
      ensures Valid() && Pending() == [] && transmitted
      ensures sent == old(sent) + [Finished(mac, old(Pending()))]
    {
      ghost var p := Pending();
      if accumLen >= 12 {
        forall i | 0 <= i < 6 {
          accum[6 + i] := mac[i];
        }
        assert accum[..accumLen] == p[..6] + mac + p[12..];
      }
      ghost var q := Pending();
      if 14 <= accumLen < FRAME_MIN {
        forall i | accumLen <= i < FRAME_MIN {
          accum[i] := 0;
        }
        assert accum[..FRAME_MIN] == q + seq(FRAME_MIN - |q|, _ => 0);
        accumLen := FRAME_MIN;
      }
      sent := sent + [accum[..accumLen]];
      transmitted := true;
      accumLen := 0;
    }

    /** Gives the current descriptor back to the guest. */
    method Release(h0: word, h1: word, h2: word, h3: word)
      requires Owned(ring, memory[..], next)
      requires var mem, ba := memory[..], SlotAddress(ring, next);
               && h0 == WordAt(mem, ba) && h1 == WordAt(mem, ba + 2)
               && h2 == WordAt(mem, ba + 4) && h3 == WordAt(mem, ba + 6)
      modifies memory
      ensures memory[..] == Released(ring, old(memory[..]), next)
    {
      RewriteReleases(ring, memory[..], next);
      var ba := SlotAddress(ring, next);
      WriteWord(memory, ba, h0);
      WriteWord(memory, ba + 2, h1);
      WriteWord(memory, ba + 4, h2 - OWN);
      WriteWord(memory, ba + 6, h3);
    }

    /** A segment joins the accumulator, and a last segment completes the frame. */
    method Collect(first: bool, last: bool, at: nat, length: nat)
      requires Valid()
      modifies this`accumLen, this`sent, this`transmitted, accum
      ensures Valid()
      ensures var y := Yield(mac, Chunk(first, last, SegmentBytes(memory[..], at, length)), old(Pending()));
              && Pending() == y.pending && sent == old(sent) + y.frames
              && transmitted == (old(transmitted) || last)
    {
      if first {
        accumLen := 0;
      }
      Append(at, length);
      if last {
        Finish();
      }
    }

    /** One turn: the descriptor at `next`, if the guest has handed it over. */
    method Turn() returns (taken: bool)
      requires Valid()
      modifies this`accumLen, this`sent, this`transmitted, this`next, accum, memory
      ensures Valid() && taken == old(Owned(ring, memory[..], next))
      ensures !taken ==> Pending() == old(Pending()) && sent == old(sent) && transmitted == old(transmitted)
                         && memory[..] == old(memory[..]) && next == old(next)
      ensures taken ==> memory[..] == Released(ring, old(memory[..]), old(next)) && next == Following(ring, old(next))
      ensures taken ==>
        var c := old(ChunkAt(ring, memory[..], next)); var y := Yield(mac, c, old(Pending()));
        && Pending() == y.pending && sent == old(sent) + y.frames
        && transmitted == (old(transmitted) || c.end)
    {
      var ba := SlotAddress(ring, next);
      var h0 := ReadWord(memory, ba);
      var h1 := ReadWord(memory, ba + 2);
      var h2 := ReadWord(memory, ba + 4);
      var h3 := ReadWord(memory, ba + 6);
      if h2 < OWN {
        return false;
      }
      ghost var c := ChunkAt(ring, memory[..], next);
      Collect(Bit(h2, STF), Bit(h2, ENF), h1 as int + h2 % 4 * WORD_MOD, h0);
      assert c == Chunk(Bit(h2, STF), Bit(h2, ENF), c.bytes);
      Release(h0, h1, h2, h3);
      next := if next + 1 >= ring.count then 0 else next + 1;
      taken := true;
    }

    /** Hands over exactly the frames the owned descriptors describe, and gives those descriptors back. */
    method ProcessTransmit() returns (any: bool)
      requires Valid()
      modifies this`accumLen, this`sent, this`transmitted, this`next, accum, memory
      ensures Valid()
      ensures var chunks := if Ready(ring) then Consumed(ring, old(memory[..]), old(next)) else [];
              var done := Assembled(mac, chunks, old(Pending()));
              && any == (chunks != [])
              && sent == old(sent) + done.frames
              && Pending() == Clipped(done.pending)
              && transmitted == (old(transmitted) || done.frames != [])
      ensures memory[..] == (if Ready(ring) then MemoryAfter(ring, old(memory[..]), old(next)) else old(memory[..]))
      ensures next == (if Ready(ring) then SlotAfter(ring, old(memory[..]), old(next)) else old(next))
      ensures Ready(ring) && old(next) < ring.count && Apart(ring, old(memory[..])) ==>
        && old(sent) <= sent
        && exists n: nat :: next == Place(ring, old(next), n) &&
             CallHolds(ring, mac, old(memory[..]), memory[..], old(next), old(Pending()), sent[|old(sent)|..], n)
    {
      if Ready(ring) && next < ring.count && Apart(ring, memory[..]) {
        CallSends(ring, mac, memory[..], next, Pending());
      }
      if ring.count == 0 || ring.entry < 4 || ring.base == 0 {
        return false;
      }
      any := TakeAll();
    }

    method TakeAll() returns (any: bool)
      requires Valid()
      modifies this`accumLen, this`sent, this`transmitted, this`next, accum, memory
      ensures Valid()
      ensures var chunks := Consumed(ring, old(memory[..]), old(next));
              var done := Assembled(mac, chunks, old(Pending()));
              && any == (chunks != [])
              && sent == old(sent) + done.frames
              && Pending() == Clipped(done.pending)
              && transmitted == (old(transmitted) || done.frames != [])
      ensures memory[..] == MemoryAfter(ring, old(memory[..]), old(next))
      ensures next == SlotAfter(ring, old(memory[..]), old(next))
    {
      any := false;
      ghost var final, last := MemoryAfter(ring, memory[..], next), SlotAfter(ring, memory[..], next);
      ghost var chunks := Consumed(ring, memory[..], next);
      ghost var all := Assembled(mac, chunks, Pending());
      ghost var rest, out := chunks, [];
      while true
        invariant Valid() && rest == Consumed(ring, memory[..], next)
        invariant final == MemoryAfter(ring, memory[..], next) && last == SlotAfter(ring, memory[..], next)
        invariant any == (|rest| < |chunks|) && |rest| <= |chunks|
        invariant sent == old(sent) + out && Progress(mac, all, out, rest, Pending())
        invariant transmitted == (old(transmitted) || out != [])
        decreases OwnBits(memory[..])
      {
        ghost var mem, slot, p := memory[..], next, Pending();
        var taken := Turn();
        if !taken {
          break;
        }
        ReleaseCounts(ring, mem, slot);
        ProgressStep(mac, all, out, rest, p);
        out, rest := out + Yield(mac, rest[0], p).frames, rest[1..];
        any := true;
      }
    }
  }
}
