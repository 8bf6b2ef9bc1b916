/** Data from the remote host, cut into segments for the guest with consecutive sequence numbers. */
module TcpDelivery {
  import opened Words

  const PAYLOAD_MAX: nat := 512

  datatype Segment = Segment(number: dword, bytes: seq<byte>)

  function Advanced(number: dword, n: nat): dword {
    (number + n) % DWORD_MOD
  }

  function Segments(data: seq<byte>, start: dword): seq<Segment>
    decreases |data|
  {
    if data == [] then []
    else
      var n := Min(|data|, PAYLOAD_MAX);
      [Segment(start, data[..n])] + Segments(data[n..], Advanced(start, n))
  }

  function Joined(out: seq<Segment>): seq<byte> {
    if out == [] then [] else out[0].bytes + Joined(out[1..])
  }

  /** Nothing is lost, repeated or reordered. */
  lemma {:induction false} SegmentsJoin(data: seq<byte>, start: dword)
    ensures Joined(Segments(data, start)) == data
    decreases |data|
  {
    if data != [] {
      var n := Min(|data|, PAYLOAD_MAX);
      SegmentsJoin(data[n..], Advanced(start, n));
      assert data[..n] + data[n..] == data;
    }
  }

  /** A segment's number says which part of the data it carries; none is empty or too long for the guest. */
  lemma {:induction false} NumberLocates(data: seq<byte>, start: dword, i: nat)
    requires |data| < WORD_MOD && i < |Segments(data, start)|
    ensures var s := Segments(data, start)[i]; var at := (s.number - start) % DWORD_MOD;
            && 0 < |s.bytes| <= 512 && at + |s.bytes| <= |data| && s.bytes == data[at..at + |s.bytes|]
            && (at + |s.bytes| < |data| ==> |s.bytes| == 512)
    decreases |data|
  {
    var n := Min(|data|, PAYLOAD_MAX);
    if i == 0 {
      SmallMod(0, DWORD_MOD);
    } else {
      var rest, from := data[n..], Advanced(start, n);
      NumberLocates(rest, from, i - 1);
      var s := Segments(rest, from)[i - 1];
      assert Segments(data, start)[i] == s;
      OffsetAdds(start, n, s.number);
      var at := (s.number - from) % DWORD_MOD;
      assert rest[at..at + |s.bytes|] == data[n + at..n + at + |s.bytes|];
    }
  }

  lemma OffsetAdds(start: dword, n: nat, number: dword)
    requires n <= PAYLOAD_MAX && (number - Advanced(start, n)) % DWORD_MOD < WORD_MOD
    ensures (number - start) % DWORD_MOD == n + (number - Advanced(start, n)) % DWORD_MOD
  {
  }

  lemma AdvancedTwice(start: dword, m: nat, n: nat)
    ensures Advanced(Advanced(start, m), n) == Advanced(start, m + n)
  {
    DivMod(start + m, DWORD_MOD);
    DivShift(start + m + n, DWORD_MOD, -((start + m) / DWORD_MOD));
  }

  /** Sends the data on, and moves the host's sequence number past it; without memory for a segment nothing is done. */
  method Receive(data: seq<byte>, start: dword, granted: bool) returns (out: seq<Segment>, next: dword)
    requires |data| < WORD_MOD
    ensures granted ==> out == Segments(data, start) && next == Advanced(start, |data|)
    ensures !granted ==> out == [] && next == start
  {
    if !granted {
      return [], start;
    }
    var left, off := |data|, 0;
    out, next := [], start;
    while left > 0
      invariant left >= 0 && off >= 0 && left + off == |data| && next == Advanced(start, off)
      invariant out + Segments(data[off..], next) == Segments(data, start)
    {
      var chunk := Min(left, PAYLOAD_MAX);
      ghost var rest := data[off..];
      assert rest[..chunk] == data[off..off + chunk] && rest[chunk..] == data[off + chunk..];
      AdvancedTwice(start, off, chunk);
      out := out + [Segment(next, data[off..off + chunk])];
      next := (next + chunk) % DWORD_MOD;
      off := off + chunk;
      left := left - chunk;
    }
    assert data[off..] == [];
  }
}
