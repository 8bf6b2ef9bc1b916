/**
 The packets the NAT forges for the guest, built in place in a frame buffer as
 eth_nat.cpp builds them. Every forged IPv4 header, TCP segment and ICMP echo
 reply verifies under one's complement summation.
 */
module Packets {
  import opened Words
  import opened Checksum

  const MAX_FRAME := 1514
  const ETH := 14
  const IP_HEADER := 20
  const CHECKSUM_AT := 10
  const TCP_CHECKSUM_AT := 16
  const ICMP_CHECKSUM_AT := 2

  type Mac = m: seq<byte> | |m| == 6 witness [0, 0, 0, 0, 0, 0]

  function High(v: word): byte {
    v / 0x100
  }

  function Low(v: word): byte {
    v % 0x100
  }

  /** A plain 20-byte header whose checksum field is still zero. */
  function BareHeader(src: dword, dst: dword, proto: byte, total: word): (h: seq<byte>)
    ensures |h| == IP_HEADER
  {
    [0x45, 0, High(total), Low(total), 0, 0, 0, 0, 64, proto, 0, 0,
     High(src / WORD_MOD), Low(src / WORD_MOD), High(src % WORD_MOD), Low(src % WORD_MOD),
     High(dst / WORD_MOD), Low(dst / WORD_MOD), High(dst % WORD_MOD), Low(dst % WORD_MOD)]
  }

  /** A packet part with the checksum over it, and over a pseudo-header sum, put into its zeroed field. */
  function Summed(pseudo: nat, bare: seq<byte>, at: nat): (r: seq<byte>)
    requires at + 1 < |bare|
    ensures |r| == |bare|
  {
    var zeroed := WithWord(bare, at, 0);
    WithWord(zeroed, at, Complement(pseudo + SumWords(zeroed)))
  }

  lemma SummedVerifies(pseudo: nat, bare: seq<byte>, at: nat)
    requires at + 1 < |bare| && at % 2 == 0
    ensures Fold(pseudo + SumWords(Summed(pseudo, bare, at))) == ALL_ONES
    ensures forall i :: 0 <= i < |bare| && i != at && i != at + 1 ==> Summed(pseudo, bare, at)[i] == bare[i]
  {
    StoredChecksumVerifies(pseudo, WithWord(bare, at, 0), at);
  }

  // ----- what a receiver reads -----

  /** A big-endian address in a packet. */
  function Address(p: seq<byte>, at: nat): (v: dword)
    requires at + 4 <= |p|
  {
    p[at] as int * 0x100_0000 + p[at + 1] as int * 0x1_0000 + p[at + 2] as int * 0x100 + p[at + 3]
  }

  lemma AddressReads(p: seq<byte>, at: nat, v: dword)
    requires at + 4 <= |p|
    requires p[at] == High(v / WORD_MOD) && p[at + 1] == Low(v / WORD_MOD)
    requires p[at + 2] == High(v % WORD_MOD) && p[at + 3] == Low(v % WORD_MOD)
    ensures Address(p, at) == v
  {
    var h, l := v / WORD_MOD, v % WORD_MOD;
    assert v == WORD_MOD * h + l && h == 0x100 * (h / 0x100) + h % 0x100 && l == 0x100 * (l / 0x100) + l % 0x100;
  }

  /** A 20-byte IPv4 header without fragments, from one address to another. */
  ghost predicate ReadsAs(h: seq<byte>, src: dword, dst: dword, proto: byte, total: word) {
    && |h| >= 20 && h[0] == 0x45 && h[1] == 0 && h[2] as int * 0x100 + h[3] == total && Address(h, 4) == 0
    && h[8] == 64 && h[9] == proto && Address(h, 12) == src && Address(h, 16) == dst
  }

  lemma HeaderReads(src: dword, dst: dword, proto: byte, total: word)
    ensures ReadsAs(Summed(0, BareHeader(src, dst, proto, total), CHECKSUM_AT), src, dst, proto, total)
  {
    var bare := BareHeader(src, dst, proto, total);
    SummedVerifies(0, bare, CHECKSUM_AT);
    AddressReads(bare, 12, src);
    AddressReads(bare, 16, dst);
  }

  /** The frame's layer-4 bytes are the packet's, as far as they fit; a TCP checksum is computed anew. */
  lemma BodyReads(src: dword, dst: dword, proto: byte, l4: seq<byte>)
    requires proto == PROTO_TCP ==> |l4| >= 20
    ensures var b := Body(src, dst, proto, l4);
            && |b| == (if |l4| <= 1480 then |l4| else 1480)
            && forall i :: 0 <= i < |b| && (proto == 6 ==> i != 16 && i != 17) ==> b[i] == l4[i]
  {
    var clipped := l4[..Min(|l4|, MAX_FRAME - ETH - IP_HEADER)];
    if proto == PROTO_TCP {
      SummedVerifies(PseudoHeader(src, dst, |clipped|), clipped, TCP_CHECKSUM_AT);
    }
  }

  /** memcpy into a frame. */
  method Store(frame: array<byte>, at: nat, bytes: seq<byte>)
    requires at + |bytes| <= frame.Length
    modifies frame
    ensures frame[at..at + |bytes|] == bytes
    ensures frame[..at] == old(frame[..at]) && frame[at + |bytes|..] == old(frame[at + |bytes|..])
  {
    forall i | at <= i < at + |bytes| {
      frame[i] := bytes[i - at];
    }
  }

  /** Zeroes a checksum field, sums `frame[from..to]` and stores the complement. */
  method StoreChecksum(frame: array<byte>, from: nat, to: nat, at: nat)
    requires from <= to <= frame.Length && to - from <= MAX_FRAME && at + 1 < to - from
    modifies frame
    ensures frame[from..to] == Summed(0, old(frame[from..to]), at)
    ensures frame[..from] == old(frame[..from]) && frame[to..] == old(frame[to..])
  {
    ghost var bare := frame[from..to];
    frame[from + at] := 0;
    frame[from + at + 1] := 0;
    assert frame[from..to] == WithWord(bare, at, 0);
    var c := InetChecksum(frame[from..to]);
    frame[from + at] := High(c);
    frame[from + at + 1] := Low(c);
    assert frame[from..to] == WithWord(WithWord(bare, at, 0), at, c);
  }

  method StoreTcpChecksum(frame: array<byte>, from: nat, to: nat, src: dword, dst: dword)
    requires from + 20 <= to <= frame.Length && to - from <= MAX_FRAME
    modifies frame
    ensures frame[from..to] == Summed(PseudoHeader(src, dst, to - from), old(frame[from..to]), TCP_CHECKSUM_AT)
    ensures frame[..from] == old(frame[..from]) && frame[to..] == old(frame[to..])
  {
    var at := TCP_CHECKSUM_AT;
    ghost var bare := frame[from..to];
    frame[from + at] := 0;
    frame[from + at + 1] := 0;
    assert frame[from..to] == WithWord(bare, at, 0);
    var c := TcpChecksum(src, dst, frame[from..to]);
    frame[from + at] := High(c);
    frame[from + at + 1] := Low(c);
    assert frame[from..to] == WithWord(WithWord(bare, at, 0), at, c);
  }

  method StoreEthernet(frame: array<byte>, to: Mac, from: Mac)
    requires frame.Length == MAX_FRAME
    modifies frame
    ensures frame[..ETH] == to + from + [0x08, 0x00]
    ensures frame[ETH..] == old(frame[ETH..])
  {
    ghost var rest := frame[ETH..];
    Store(frame, 0, to + from + [0x08, 0x00]);
    assert frame[0..ETH] == frame[..ETH];
  }

  method StoreIpHeader(frame: array<byte>, src: dword, dst: dword, proto: byte, total: word)
    requires frame.Length == MAX_FRAME
    modifies frame
    ensures frame[ETH..ETH + IP_HEADER] == Summed(0, BareHeader(src, dst, proto, total), CHECKSUM_AT)
    ensures frame[..ETH] == old(frame[..ETH]) && frame[ETH + IP_HEADER..] == old(frame[ETH + IP_HEADER..])
  {
    Store(frame, ETH, BareHeader(src, dst, proto, total));
    StoreChecksum(frame, ETH, ETH + IP_HEADER, CHECKSUM_AT);
  }

  /** The layer-4 bytes as delivered: clipped to the frame, and resummed for TCP. */
  function Body(src: dword, dst: dword, proto: byte, l4: seq<byte>): seq<byte>
    requires proto == PROTO_TCP ==> |l4| >= 20
  {
    var clipped := l4[..Min(|l4|, MAX_FRAME - ETH - IP_HEADER)];
    if proto == PROTO_TCP then Summed(PseudoHeader(src, dst, |clipped|), clipped, TCP_CHECKSUM_AT) else clipped
  }

  /** Forges an IPv4 frame for the guest around a layer-4 packet. */
  method DeliverIpv4(guestMac: Mac, gatewayMac: Mac, src: dword, dst: dword, proto: byte, l4: seq<byte>)
    returns (frame: array<byte>, len: nat)
    requires proto == PROTO_TCP ==> |l4| >= 20
    ensures fresh(frame) && frame.Length == MAX_FRAME
    ensures len == ETH + IP_HEADER + Min(|l4|, MAX_FRAME - ETH - IP_HEADER)
    ensures frame[..ETH] == guestMac + gatewayMac + [0x08, 0x00]
    ensures frame[ETH..ETH + IP_HEADER] == Summed(0, BareHeader(src, dst, proto, len - ETH), CHECKSUM_AT)
    ensures frame[ETH + IP_HEADER..len] == Body(src, dst, proto, l4)
    ensures ReadsAs(frame[14..34], src, dst, proto, len - 14)
  {
    HeaderReads(src, dst, proto, IP_HEADER + Min(|l4|, MAX_FRAME - ETH - IP_HEADER));
    BodyReads(src, dst, proto, l4);
    var l := Min(|l4|, MAX_FRAME - ETH - IP_HEADER);
    len := ETH + IP_HEADER + l;
    frame := new byte[MAX_FRAME](_ => 0);
    StoreEthernet(frame, guestMac, gatewayMac);
    StoreIpHeader(frame, src, dst, proto, IP_HEADER + l);
    ghost var headers := frame[..ETH + IP_HEADER];
    assert headers[..ETH] == frame[..ETH] && headers[ETH..] == frame[ETH..ETH + IP_HEADER];
    StoreBody(frame, src, dst, proto, l4);
    assert headers[..ETH] == frame[..ETH] && headers[ETH..] == frame[ETH..ETH + IP_HEADER];
  }

  method StoreBody(frame: array<byte>, src: dword, dst: dword, proto: byte, l4: seq<byte>)
    requires frame.Length == MAX_FRAME && (proto == PROTO_TCP ==> |l4| >= 20)
    modifies frame
    ensures frame[..ETH + IP_HEADER] == old(frame[..ETH + IP_HEADER])
    ensures frame[ETH + IP_HEADER..ETH + IP_HEADER + Min(|l4|, MAX_FRAME - ETH - IP_HEADER)] ==
            Body(src, dst, proto, l4)
  {
    var l := Min(|l4|, MAX_FRAME - ETH - IP_HEADER);
    Store(frame, ETH + IP_HEADER, l4[..l]);
    if proto == PROTO_TCP {
      StoreTcpChecksum(frame, ETH + IP_HEADER, ETH + IP_HEADER + l, src, dst);
    }
  }

  /** Every forged header, and every forged TCP segment with its pseudo-header, folds to all ones. */
  lemma DeliveredVerifies(src: dword, dst: dword, proto: byte, l4: seq<byte>)
    requires proto == PROTO_TCP ==> |l4| >= 20
    ensures var l := Min(|l4|, MAX_FRAME - ETH - IP_HEADER);
            && Fold(SumWords(Summed(0, BareHeader(src, dst, proto, IP_HEADER + l), CHECKSUM_AT))) == ALL_ONES
            && (proto == PROTO_TCP ==>
                 Fold(PseudoHeader(src, dst, l) + SumWords(Body(src, dst, proto, l4))) == ALL_ONES)
  {
    var l := Min(|l4|, MAX_FRAME - ETH - IP_HEADER);
    SummedVerifies(0, BareHeader(src, dst, proto, IP_HEADER + l), CHECKSUM_AT);
    if proto == PROTO_TCP {
      SummedVerifies(PseudoHeader(src, dst, l), l4[..l], TCP_CHECKSUM_AT);
    }
  }

  // ----- ICMP echo -----

  datatype Reply = NoReply | Frame(frame: array<byte>, len: nat)

  /** The request's IP header turned round: new source, old source as destination, fresh TTL. */
  function TurnedHeader(ip: seq<byte>, ihl: nat, replySrc: dword): (h: seq<byte>)
    requires 20 <= ihl <= |ip|
    ensures |h| == ihl
  {
    var high, low := replySrc / WORD_MOD, replySrc % WORD_MOD;
    var addresses := [High(high), Low(high), High(low), Low(low)] + ip[12..16];
    seq(ihl, i requires 0 <= i < ihl => if i == 8 then 64 else if 12 <= i < 20 then addresses[i - 12] else ip[i])
  }

  /** The reply goes from the address given to the request's sender, and keeps the rest of its header. */
  lemma TurnedReads(ip: seq<byte>, ihl: nat, replySrc: dword)
    requires 20 <= ihl <= |ip|
    ensures var h := Summed(0, TurnedHeader(ip, ihl, replySrc), CHECKSUM_AT);
            && Address(h, 12) == replySrc && Address(h, 16) == Address(ip, 12) && h[8] == 64
            && forall i :: 0 <= i < ihl && i != 8 && !(10 <= i < 20) ==> h[i] == ip[i]
  {
    var turned := TurnedHeader(ip, ihl, replySrc);
    SummedVerifies(0, turned, CHECKSUM_AT);
    AddressReads(turned, 12, replySrc);
    assert turned[16..20] == ip[12..16];
    assert forall i :: 0 <= i < 4 ==> turned[16..20][i] == turned[16 + i] && ip[12..16][i] == ip[12 + i];
  }

  ghost predicate EchoRequest(ip: seq<byte>, ihl: nat, ipLen: nat) {
    20 <= ihl <= 60 && ihl % 4 == 0 && ihl + 8 <= ipLen <= |ip| && ipLen <= MAX_FRAME - ETH
  }

  /** Answers an echo request in the name of `replySrc`; any other ICMP message gets no answer. */
  method LocalIcmpEcho(ip: seq<byte>, ihl: nat, ipLen: nat, sender: Mac, gatewayMac: Mac, replySrc: dword)
    returns (r: Reply)
    requires EchoRequest(ip, ihl, ipLen)
    ensures ip[ihl] != 8 <==> r.NoReply?
    ensures r.Frame? ==>
      && fresh(r.frame) && r.frame.Length == MAX_FRAME && r.len == ETH + ipLen
      && r.frame[..ETH] == sender + gatewayMac + [0x08, 0x00]
      && r.frame[ETH..ETH + ihl] == Summed(0, TurnedHeader(ip, ihl, replySrc), CHECKSUM_AT)
      && r.frame[ETH + ihl..ETH + ipLen] == Summed(0, [0 as byte] + ip[ihl + 1..ipLen], ICMP_CHECKSUM_AT)
      && Address(r.frame[14..14 + ihl], 12) == replySrc && Address(r.frame[14..14 + ihl], 16) == Address(ip, 12)
  {
    TurnedReads(ip, ihl, replySrc);
    if ip[ihl] != 8 {
      return NoReply;
    }
    var frame := new byte[MAX_FRAME](_ => 0);
    StoreEthernet(frame, sender, gatewayMac);
    ghost var eth := frame[..ETH];
    StoreEcho(frame, ip, ihl, ipLen, replySrc);
    assert frame[..ETH] == eth;
    r := Frame(frame, ETH + ipLen);
  }

  method StoreEcho(frame: array<byte>, ip: seq<byte>, ihl: nat, ipLen: nat, replySrc: dword)
    requires EchoRequest(ip, ihl, ipLen) && frame.Length == MAX_FRAME
    modifies frame
    ensures frame[..ETH] == old(frame[..ETH])
    ensures frame[ETH..ETH + ihl] == Summed(0, TurnedHeader(ip, ihl, replySrc), CHECKSUM_AT)
    ensures frame[ETH + ihl..ETH + ipLen] == Summed(0, [0 as byte] + ip[ihl + 1..ipLen], ICMP_CHECKSUM_AT)
  {
    ghost var eth := frame[..ETH];
    CopyRequest(frame, ip, ihl, ipLen, replySrc);
    ghost var icmp := frame[ETH + ihl..ETH + ipLen];
    StoreChecksum(frame, ETH, ETH + ihl, CHECKSUM_AT);
    assert frame[ETH + ihl..ETH + ipLen] == icmp;
    ghost var header := frame[ETH..ETH + ihl];
    frame[ETH + ihl] := 0;
    assert frame[ETH + ihl..ETH + ipLen] == [0 as byte] + ip[ihl + 1..ipLen];
    StoreChecksum(frame, ETH + ihl, ETH + ipLen, ICMP_CHECKSUM_AT);
    assert frame[ETH..ETH + ihl] == header && frame[..ETH] == eth;
  }

  /** The request copied, then its addresses and TTL rewritten in place. */
  method CopyRequest(frame: array<byte>, ip: seq<byte>, ihl: nat, ipLen: nat, replySrc: dword)
    requires EchoRequest(ip, ihl, ipLen) && frame.Length == MAX_FRAME
    modifies frame
    ensures frame[..ETH] == old(frame[..ETH])
    ensures frame[ETH..ETH + ihl] == TurnedHeader(ip, ihl, replySrc)
    ensures frame[ETH + ihl..ETH + ipLen] == ip[ihl..ipLen]
  {
    Store(frame, ETH, ip[..ipLen]);
    var high, low := replySrc / WORD_MOD, replySrc % WORD_MOD;
    var addresses := [High(high), Low(high), High(low), Low(low)] + ip[12..16];
    ghost var was := frame[..];
    CopiedAt(was, ip, ipLen);
    Store(frame, ETH + 12, addresses);
    frame[ETH + 8] := 64;
    assert forall i :: 0 <= i < MAX_FRAME && i != ETH + 8 && !(ETH + 12 <= i < ETH + 20) ==> frame[i] == was[i];
    forall i | 0 <= i < ihl
      ensures frame[ETH + i] == TurnedHeader(ip, ihl, replySrc)[i]
    {
    }
    assert frame[ETH + ihl..ETH + ipLen] == was[ETH..ETH + ipLen][ihl..];
  }

  lemma CopiedAt(frame: seq<byte>, ip: seq<byte>, n: nat)
    requires n <= |ip| && ETH + n <= |frame| && frame[ETH..ETH + n] == ip[..n]
    ensures forall i :: 0 <= i < n ==> frame[ETH + i] == ip[i]
  {
    forall i | 0 <= i < n ensures frame[ETH + i] == ip[i] {
      assert frame[ETH..ETH + n][i] == ip[..n][i];
    }
  }

  /** The reply's header and ICMP message verify, and the message keeps the request's id, sequence and payload. */
  lemma EchoVerifies(ip: seq<byte>, ihl: nat, ipLen: nat, replySrc: dword)
    requires EchoRequest(ip, ihl, ipLen)
    ensures Fold(SumWords(Summed(0, TurnedHeader(ip, ihl, replySrc), CHECKSUM_AT))) == ALL_ONES
    ensures var icmp := Summed(0, [0 as byte] + ip[ihl + 1..ipLen], ICMP_CHECKSUM_AT);
            && Fold(SumWords(icmp)) == ALL_ONES
            && icmp[0] == 0 && icmp[1] == ip[ihl + 1] && icmp[4..] == ip[ihl + 4..ipLen]
  {
    SummedVerifies(0, TurnedHeader(ip, ihl, replySrc), CHECKSUM_AT);
    SummedVerifies(0, [0 as byte] + ip[ihl + 1..ipLen], ICMP_CHECKSUM_AT);
  }
}
