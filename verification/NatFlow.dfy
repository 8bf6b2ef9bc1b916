/**
 What the translation table does with what it accepts: every datagram and segment
 taken is queued and comes out once, in order, and what a drain, a callback and the
 idle timer make of the entry that is concerned.
 */
module NatFlow {
  import opened Words
  import opened NatTable
  import opened NatHistory

  predicate Known(t: seq<Entry>, k: Key) {
    exists i :: 0 <= i < |t| && t[i].Used? && t[i].key == k
  }

  /** The conversation's entry has a socket. */
  ghost predicate HasSocket(t: seq<Entry>, k: Key) {
    exists i :: 0 <= i < |t| && t[i].Used? && t[i].key == k && t[i].pcb
  }

  lemma KnownIsFound(t: seq<Entry>, k: Key)
    ensures Known(t, k) <==> First(t, Some(k)) < |t|
  {
    var f := First(t, Some(k));
    if i :| 0 <= i < |t| && t[i].Used? && t[i].key == k {
      assert Matches(t[i], Some(k));
    }
  }

  lemma EnteredIsKnown(s: State, k: Key, now: dword)
    requires Inv(s)
    ensures var (t, i) := Entered(s.table, k, now); i >= 0 && Known(t, k)
  {
    EnteredKeepsInv(s, k, now);
    var (t, i) := Entered(s.table, k, now);
    assert t[i].Used? && t[i].key == k;
  }

  // ----- what a call does -----

  /** A conversation already known keeps all but its time; a new one begins with no ping, request, reply or socket. */
  lemma EntryIs(s: State, k: Key, now: dword)
    requires Inv(s)
    ensures var (t, i) := Entered(s.table, k, now);
            && 0 <= i < |t| && |t| == |s.table|
            && (Known(s.table, k) ==> s.table[i].Used? && s.table[i].key == k && t[i] == s.table[i].(lastMs := now))
            && (!Known(s.table, k) ==>
                 t[i].Used? && t[i].key == k && t[i].lastMs == now && t[i].ping.None?
                 && !t[i].queued && !t[i].replied && !t[i].pcb)
            && forall j :: 0 <= j < |t| && j != i ==> t[j] == s.table[j]
  {
    EnteredKeepsInv(s, k, now);
    KnownIsFound(s.table, k);
  }

  /** A datagram is taken if and only if there is room in the queue; then it is the last one in it, and has an entry. */
  lemma UdpTaken(s: State, k: Key, now: dword)
    requires Inv(s)
    ensures var (t, ok) := AfterUdpOut(s, k, now);
            && (ok <==> |s.udpQueue| < 8)
            && t.udpQueue == (if ok then s.udpQueue + [k] else s.udpQueue)
            && t.icmpQueue == s.icmpQueue && t.tcpQueue == s.tcpQueue && t.active == s.active
            && Known(t.table, k)
  {
    EnteredIsKnown(s, k, now);
  }

  /** The item a segment leaves in the queue: itself, or for a reset of a known conversation a bare reset. */
  ghost function Left(s: State, item: TcpItem): seq<TcpItem> {
    if |s.tcpQueue| >= 8 then []
    else if item.rst then (if Known(s.table, item.key) then [TcpItem(item.key, true, false, false, 0)] else [])
    else if Known(s.table, item.key) || (item.syn && !item.ack) then [item]
    else []
  }

  /**
   A reset is always accepted: queued if the conversation is known and there is room,
   and ending the conversation at once if there is none. Any other segment is accepted
   if and only if it is queued.
   */
  lemma TcpTaken(s: State, item: TcpItem, now: dword)
    requires Inv(s) && item.key.proto == Tcp
    ensures var (t, ok) := AfterTcpOut(s, item, now);
            && t.tcpQueue == s.tcpQueue + Left(s, item)
            && (ok <==> item.rst || Left(s, item) != [])
            && t.icmpQueue == s.icmpQueue && t.udpQueue == s.udpQueue && t.active == s.active
            && (item.rst && |s.tcpQueue| >= 8 ==> !Known(t.table, item.key))
            && (item.rst && |s.tcpQueue| < 8 ==> t.table == s.table)
            && (Left(s, item) != [] ==> Known(t.table, item.key))
  {
    KnownIsFound(s.table, item.key);
    EnteredIsKnown(s, item.key, now);
    if item.rst && |s.tcpQueue| >= 8 {
      FreedIsUnknown(s, item.key);
    }
  }

  lemma FreedIsUnknown(s: State, k: Key)
    requires Inv(s)
    ensures var f := First(s.table, Some(k)); f < |s.table| ==> !Known(s.table[f := Free], k)
  {
  }

  /** An echo is taken if it waits or is in flight already, or else if there is room, and then put into the queue. */
  lemma IcmpTaken(s: State, k: Key, now: dword)
    requires Inv(s) && k.proto == Icmp
    ensures var (t, ok) := AfterIcmpOut(s, k, now);
            var waits := exists i :: 0 <= i < |s.table| && s.table[i].Used? && s.table[i].key == k
                                     && (s.table[i].queued || s.table[i].ping.Some?);
            && (ok <==> waits || |s.icmpQueue| < 8)
            && t.icmpQueue == (if ok && !waits then s.icmpQueue + [k] else s.icmpQueue)
            && t.udpQueue == s.udpQueue && t.tcpQueue == s.tcpQueue && t.active == s.active
            && Known(t.table, k)
  {
    EnteredIsKnown(s, k, now);
    var f := First(s.table, Some(k));
    if i :| 0 <= i < |s.table| && s.table[i].Used? && s.table[i].key == k
            && (s.table[i].queued || s.table[i].ping.Some?) {
      OnlyOne(s, k, i);
    }
    IcmpEntry(s, k, now);
    var after, i := AfterIcmpOut(s, k, now).0.table, Entered(s.table, k, now).1;
    assert after[i].Used? && after[i].key == k;
  }

  lemma OnlyOne(s: State, k: Key, i: nat)
    requires Inv(s) && i < |s.table| && s.table[i].Used? && s.table[i].key == k
    ensures First(s.table, Some(k)) == i
  {
    assert Matches(s.table[i], Some(k));
    var f := First(s.table, Some(k));
    assert f <= i;
  }

  lemma IcmpEntry(s: State, k: Key, now: dword)
    requires Inv(s)
    ensures var (t, i) := Entered(s.table, k, now); var f := First(s.table, Some(k));
            i >= 0 && (t[i].queued || t[i].ping.Some? <==>
                         f < |s.table| && (s.table[f].queued || s.table[f].ping.Some?))
  {
    EnteredKeepsInv(s, k, now);
    var f := First(s.table, Some(k));
    var (t, i) := Entered(s.table, k, now);
    if f < |s.table| {
      assert i == f && t[i] == s.table[f].(lastMs := now);
    } else {
      assert t[i] == NewEntry(k, now);
    }
  }

  // ----- what a drain does -----

  /** A datagram taken from the queue finds a socket in its entry, or one is made if that can be. */
  lemma UdpDrained(s: State, made: bool)
    requires Inv(s) && s.udpQueue != []
    ensures var t, k := AfterDrainUdp(s, made), s.udpQueue[0];
            && t.udpQueue == s.udpQueue[1..] && Keys(t.table) == Keys(s.table)
            && t.icmpQueue == s.icmpQueue && t.tcpQueue == s.tcpQueue && t.active == s.active
            && (Known(s.table, k) ==> (HasSocket(t.table, k) <==> HasSocket(s.table, k) || made))
            && forall other :: other != k ==> (HasSocket(t.table, other) <==> HasSocket(s.table, other))
  {
    var k := s.udpQueue[0];
    KnownIsFound(s.table, k);
    var f := First(s.table, Some(k));
    if f < |s.table| {
      SocketAt(s, f, s.table[f].pcb || made);
    }
  }

  lemma SocketAt(s: State, f: nat, pcb: bool)
    requires Inv(s) && f < |s.table| && s.table[f].Used?
    ensures var t, k := s.table[f := s.table[f].(pcb := pcb)], s.table[f].key;
            && Keys(t) == Keys(s.table) && (HasSocket(t, k) <==> pcb)
            && (HasSocket(s.table, k) <==> s.table[f].pcb)
            && forall other :: other != k ==> (HasSocket(t, other) <==> HasSocket(s.table, other))
  {
    var t, k := s.table[f := s.table[f].(pcb := pcb)], s.table[f].key;
    forall i | 0 <= i < |t| && t[i].Used? && t[i].key == k ensures i == f {
      OnlyOne(s, k, i);
      OnlyOne(s, k, f);
    }
    forall q ensures q in Keys(t) <==> q in Keys(s.table) {
      if q in Keys(t) {
        var i :| 0 <= i < |t| && t[i].Used? && t[i].key == q;
        assert s.table[i].Used? && s.table[i].key == q;
      }
      if q in Keys(s.table) {
        var i :| 0 <= i < |s.table| && s.table[i].Used? && s.table[i].key == q;
        assert t[i].Used? && t[i].key == q;
      }
    }
    if pcb {
      assert t[f].Used? && t[f].key == k && t[f].pcb;
    }
    if s.table[f].pcb {
      assert HasSocket(s.table, k);
    }
    forall other | other != k ensures HasSocket(t, other) <==> HasSocket(s.table, other) {
      if HasSocket(t, other) {
        var i :| 0 <= i < |t| && t[i].Used? && t[i].key == other && t[i].pcb;
        assert s.table[i] == t[i];
      }
      if HasSocket(s.table, other) {
        var i :| 0 <= i < |s.table| && s.table[i].Used? && s.table[i].key == other && s.table[i].pcb;
        assert s.table[i] == t[i];
      }
    }
  }

  /**
   A segment taken from the queue: a reset ends its conversation; an opening one without
   a socket gets one, or ends it if none can be had; any other leaves the table alone.
   */
  lemma TcpDrained(s: State, made: bool)
    requires Inv(s) && s.tcpQueue != []
    ensures var t, item := AfterDrainTcp(s, made), s.tcpQueue[0]; var k := item.key;
            var opens := item.syn && !item.ack && !HasSocket(s.table, k);
            && t.tcpQueue == s.tcpQueue[1..]
            && t.icmpQueue == s.icmpQueue && t.udpQueue == s.udpQueue && t.active == s.active
            && (Known(s.table, k) && item.rst ==> !Known(t.table, k))
            && (Known(s.table, k) && !item.rst && opens ==> if made then HasSocket(t.table, k) else !Known(t.table, k))
            && (!Known(s.table, k) || (!item.rst && !opens) ==> t.table == s.table)
  {
    var k := s.tcpQueue[0].key;
    KnownIsFound(s.table, k);
    var f := First(s.table, Some(k));
    if f < |s.table| {
      FreedIsUnknown(s, k);
      SocketAt(s, f, true);
    }
  }

  /** With no ping in flight the first echo of the queue is taken out, and if its session starts that one is active. */
  lemma IcmpDrained(s: State, outcome: Outcome)
    requires Inv(s) && s.active.None? && s.icmpQueue != []
    ensures var t, k := AfterDrainIcmp(s, outcome), s.icmpQueue[0];
            && t.icmpQueue == s.icmpQueue[1..] && t.udpQueue == s.udpQueue && t.tcpQueue == s.tcpQueue
            && (t.active.Some? <==> Known(s.table, k) && outcome == Started)
            && (t.active.Some? ==>
                 var p := t.active.value;
                 && p !in s.live && p in t.live && p.handle == |s.started| && t.started == s.started + [k]
                 && p.slot < |s.table| && s.table[p.slot].Used? && s.table[p.slot].key == k)
            && (t.active.None? ==> t.live == s.live)
            && |t.table| == |s.table|
            && forall i :: 0 <= i < |t.table| ==>
                 t.table[i] ==
                 if !(s.table[i].Used? && s.table[i].key == k) then s.table[i]
                 else s.table[i].(queued := false, ping := if outcome == Started then Some(|s.started|) else None,
                                  replied := outcome == Refused && s.table[i].replied)
  {
    var k := s.icmpQueue[0];
    KnownIsFound(s.table, k);
    var f := First(s.table, Some(k));
    if f < |s.table| {
      assert Consistent(s.table[f], f, s.active, s.icmpQueue);
    }
    forall i | 0 <= i < |s.table| && s.table[i].Used? && s.table[i].key == k ensures i == f {
      OnlyOne(s, k, i);
    }
  }

  /** While a ping is in flight the queue waits. */
  lemma IcmpWaits(s: State, outcome: Outcome)
    requires s.active.Some? || s.icmpQueue == []
    ensures AfterDrainIcmp(s, outcome) == s
  {
  }

  // ----- callbacks and the idle timer -----

  /** The first success of a session sends the guest one reply in its name, and later ones none. */
  lemma FirstSuccessReplies(s: State, p: Session, now: dword)
    requires Inv(s) && p in s.live
    ensures var t := AfterPingSuccess(s, p, now);
            && t.replies == (if p.handle in s.replies then s.replies else s.replies + [p.handle])
            && p.handle in t.replies && AfterPingSuccess(t, p, now) == t
            && (p.handle !in s.replies ==> t.table[p.slot].lastMs == now)
            && t.active == s.active && t.icmpQueue == s.icmpQueue
  {
    HeldByInv(s, p);
    assert Consistent(s.table[p.slot], p.slot, s.active, s.icmpQueue);
  }

  /** The end of a session leaves no ping in flight, so that the next echo can be taken out. */
  lemma EndFrees(s: State, p: Session)
    requires Inv(s) && p in s.live
    ensures var t := AfterPingEnd(s, p);
            && t.active.None? && t.live == {} && t.table == s.table[p.slot := s.table[p.slot].(ping := None)]
            && t.icmpQueue == s.icmpQueue && t.udpQueue == s.udpQueue && t.tcpQueue == s.tcpQueue
  {
    HeldByInv(s, p);
  }

  /** An entry is dropped for want of use after 60 seconds for UDP, 300 for TCP and 30 for an echo not in flight. */
  lemma ExpiredExactly(s: State, now: dword, i: nat)
    requires i < |s.table| && s.table[i].Used?
    ensures var e, idle := s.table[i], (now - s.table[i].lastMs) % 0x1_0000_0000;
            var t := AfterExpire(s, now);
            && |t.table| == |s.table| && (t.table[i] == Free || t.table[i] == e)
            && (e.key.proto == Udp ==> (t.table[i] == Free <==> idle > 60_000))
            && (e.key.proto == Tcp ==> (t.table[i] == Free <==> idle > 300_000))
            && (e.key.proto == Icmp ==> (t.table[i] == Free <==> idle > 30_000 && e.ping.None?))
  {
  }

  // ----- whole runs -----

  /** The datagram that a step accepts, and the one that it takes out again. */
  ghost function Took(s: State, a: Step): seq<Key> {
    if a.UdpOut? && AfterUdpOut(s, a.key, a.now).1 then [a.key] else []
  }

  ghost function Drawn(s: State, a: Step): seq<Key> {
    if a.DrainUdp? && s.udpQueue != [] then [s.udpQueue[0]] else []
  }

  /** The segment that a step leaves in the queue, and the one that it takes out again. */
  ghost function TookTcp(s: State, a: Step): seq<TcpItem> {
    if a.TcpOut? then Left(s, a.item) else []
  }

  ghost function DrawnTcp(s: State, a: Step): seq<TcpItem> {
    if a.DrainTcp? && s.tcpQueue != [] then [s.tcpQueue[0]] else []
  }

  ghost function AcceptedUdp(states: seq<State>, steps: seq<Step>, n: nat): seq<Key>
    requires n <= |steps| < |states|
    decreases n
  {
    if n == 0 then [] else AcceptedUdp(states, steps, n - 1) + Took(states[n - 1], steps[n - 1])
  }

  ghost function DrainedUdp(states: seq<State>, steps: seq<Step>, n: nat): seq<Key>
    requires n <= |steps| < |states|
    decreases n
  {
    if n == 0 then [] else DrainedUdp(states, steps, n - 1) + Drawn(states[n - 1], steps[n - 1])
  }

  ghost function LeftTcp(states: seq<State>, steps: seq<Step>, n: nat): seq<TcpItem>
    requires n <= |steps| < |states|
    decreases n
  {
    if n == 0 then [] else LeftTcp(states, steps, n - 1) + TookTcp(states[n - 1], steps[n - 1])
  }

  ghost function DrainedTcp(states: seq<State>, steps: seq<Step>, n: nat): seq<TcpItem>
    requires n <= |steps| < |states|
    decreases n
  {
    if n == 0 then [] else DrainedTcp(states, steps, n - 1) + DrawnTcp(states[n - 1], steps[n - 1])
  }

  lemma UdpQueueAfter(s: State, a: Step)
    requires Inv(s) && Enabled(s, a)
    ensures After(s, a).udpQueue ==
            if a.DrainUdp? && s.udpQueue != [] then s.udpQueue[1..] else s.udpQueue + Took(s, a)
  {
    if a.UdpOut? {
      UdpTaken(s, a.key, a.now);
    }
  }

  lemma TcpQueueAfter(s: State, a: Step)
    requires Inv(s) && Enabled(s, a)
    ensures After(s, a).tcpQueue ==
            if a.DrainTcp? && s.tcpQueue != [] then s.tcpQueue[1..] else s.tcpQueue + TookTcp(s, a)
  {
    if a.TcpOut? {
      TcpTaken(s, a.item, a.now);
    }
  }

  lemma UdpStepInOrder(s: State, a: Step, out: seq<Key>, taken: seq<Key>)
    requires Inv(s) && Enabled(s, a) && out + s.udpQueue == taken
    ensures (out + Drawn(s, a)) + After(s, a).udpQueue == taken + Took(s, a)
  {
    UdpQueueAfter(s, a);
    InLine(out, s.udpQueue, taken, Took(s, a));
  }

  lemma TcpStepInOrder(s: State, a: Step, out: seq<TcpItem>, taken: seq<TcpItem>)
    requires Inv(s) && Enabled(s, a) && out + s.tcpQueue == taken
    ensures (out + DrawnTcp(s, a)) + After(s, a).tcpQueue == taken + TookTcp(s, a)
  {
    TcpQueueAfter(s, a);
    InLine(out, s.tcpQueue, taken, TookTcp(s, a));
  }

  lemma InLine<T>(out: seq<T>, q: seq<T>, taken: seq<T>, more: seq<T>)
    requires out + q == taken
    ensures out + (q + more) == taken + more
    ensures q != [] ==> (out + [q[0]]) + q[1..] == taken
  {
  }

  /** In every run the datagrams taken out, followed by those that wait, are exactly the ones accepted, in order. */
  lemma {:induction false} UdpInOrder(states: seq<State>, steps: seq<Step>, n: nat)
    requires History(states, steps) && n <= |steps|
    ensures DrainedUdp(states, steps, n) + states[n].udpQueue == AcceptedUdp(states, steps, n)
    decreases n
  {
    if n > 0 {
      UdpInOrder(states, steps, n - 1);
      HistoryKeepsInv(states, steps, n - 1);
      assert Follows(states[n - 1], steps[n - 1], states[n]);
      UdpStepInOrder(states[n - 1], steps[n - 1], DrainedUdp(states, steps, n - 1), AcceptedUdp(states, steps, n - 1));
    }
  }

  /** And the segments taken out, followed by those that wait, are exactly the ones left there, resets included. */
  lemma {:induction false} TcpInOrder(states: seq<State>, steps: seq<Step>, n: nat)
    requires History(states, steps) && n <= |steps|
    ensures DrainedTcp(states, steps, n) + states[n].tcpQueue == LeftTcp(states, steps, n)
    decreases n
  {
    if n > 0 {
      TcpInOrder(states, steps, n - 1);
      HistoryKeepsInv(states, steps, n - 1);
      assert Follows(states[n - 1], steps[n - 1], states[n]);
      TcpStepInOrder(states[n - 1], steps[n - 1], DrainedTcp(states, steps, n - 1), LeftTcp(states, steps, n - 1));
    }
  }
}
