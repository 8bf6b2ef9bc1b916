/** The address translation table in place: each call takes the step the model describes. */
module NatDevice {
  import opened Words
  import opened NatTable
  import opened NatFlow

  class Nat {
    const table: array<Entry>
    var active: Option<Session>
    var icmpQueue: seq<Key>
    var udpQueue: seq<Key>
    var tcpQueue: seq<TcpItem>
    /** The sessions whose callbacks may still come, the conversation each was started for, and the replies sent. */
    ghost var live: set<Session>
    ghost var started: seq<Key>
    ghost var replies: seq<nat>

    ghost function View(): (s: State)
      reads this, table
    {
      State(table[..], active, icmpQueue, udpQueue, tcpQueue, live, started, replies)
    }

    constructor ()
      ensures View() == Initial() && Inv(View()) && fresh(table)
    {
      table := new Entry[SLOTS](_ => Free);
      active, icmpQueue, udpQueue, tcpQueue, live, started, replies := None, [], [], [], {}, [], [];
      new;
      assert table[..] == Initial().table;
      InitialInv();
    }

    method Find(k: Key) returns (i: nat)
      ensures i == First(table[..], Some(k))
    {
      i := 0;
      while i < table.Length && !(table[i].Used? && table[i].key == k)
        invariant i <= table.Length && forall j :: 0 <= j < i ==> !Matches(table[j], Some(k))
      {
        i := i + 1;
      }
      FirstUnique(table[..], Some(k), i);
    }

    /** Finds a slot for a new conversation and empties it. */
    method AllocEntry() returns (o: int)
      modifies table
      ensures o == Allocated(old(table[..]))
      ensures table[..] == if o < 0 then old(table[..]) else old(table[..])[o := Free]
    {
      o := -1;
      for i := 0 to table.Length
        invariant forall j :: 0 <= j < i ==> table[j].Used?
        invariant -1 <= o < i && o == Oldest(table[..], i)
      {
        if table[i].Free? {
          FirstUnique(table[..], None, i);
          return i;
        }
        if !(table[i].key.proto == Icmp && table[i].ping.Some?) {
          if o < 0 || (table[i].lastMs - table[o].lastMs) % DWORD_MOD >= HALF_RANGE {
            o := i;
          }
        }
      }
      FirstUnique(table[..], None, table.Length);
      if o >= 0 {
        table[o] := Free;
      }
    }

    /** The entry of a conversation, made if there is none. */
    method Enter(k: Key, now: dword) returns (i: int)
      modifies table
      ensures (table[..], i) == Entered(old(table[..]), k, now)
    {
      var f := Find(k);
      if f < table.Length {
        table[f] := table[f].(lastMs := now);
        return f;
      }
      ghost var t := table[..];
      i := AllocEntry();
      if i >= 0 {
        table[i] := NewEntry(k, now);
        assert table[..] == t[i := NewEntry(k, now)];
      }
    }

    method NatIcmpOut(online: bool, k: Key, now: dword) returns (ok: bool)
      modifies this`icmpQueue, table
      ensures (View(), ok) == if online then AfterIcmpOut(old(View()), k, now) else (old(View()), false)
    {
      if !online {
        return false;
      }
      var i := Enter(k, now);
      if i < 0 {
        return false;
      }
      if table[i].ping.Some? || table[i].queued {
        return true;
      }
      if |icmpQueue| >= QUEUE {
        return false;
      }
      icmpQueue := icmpQueue + [k];
      table[i] := table[i].(queued := true, replied := false);
      ok := true;
    }

    method NatUdpOut(online: bool, k: Key, now: dword) returns (ok: bool)
      modifies this`udpQueue, table
      ensures (View(), ok) == if online then AfterUdpOut(old(View()), k, now) else (old(View()), false)
      ensures old(Inv(View())) ==> ok == (online && |old(udpQueue)| < 8)
      ensures ok ==> udpQueue == old(udpQueue) + [k]
      ensures !ok ==> udpQueue == old(udpQueue)
    {
      if Inv(View()) {
        UdpTaken(View(), k, now);
      }
      if !online {
        return false;
      }
      var i := Enter(k, now);
      if i < 0 || |udpQueue| >= QUEUE {
        return false;
      }
      udpQueue := udpQueue + [k];
      ok := true;
    }

    method NatTcpOut(online: bool, item: TcpItem, now: dword) returns (ok: bool)
      modifies this`tcpQueue, table
      ensures (View(), ok) == if online then AfterTcpOut(old(View()), item, now) else (old(View()), false)
      ensures online && item.key.proto == Tcp && old(Inv(View())) ==>
        && tcpQueue == old(tcpQueue) + old(Left(View(), item))
        && ok == (item.rst || old(Left(View(), item)) != [])
    {
      if Inv(View()) && item.key.proto == Tcp {
        TcpTaken(View(), item, now);
      }
      if !online {
        return false;
      }
      var f := Find(item.key);
      if item.rst {
        if f < table.Length {
          if |tcpQueue| < QUEUE {
            tcpQueue := tcpQueue + [TcpItem(item.key, true, false, false, 0)];
          } else {
            table[f] := Free;
          }
        }
        return true;
      }
      if f == table.Length && (!item.syn || item.ack) {
        return false;
      }
      var i := Enter(item.key, now);
      if i < 0 || |tcpQueue| >= QUEUE {
        return false;
      }
      tcpQueue := tcpQueue + [item];
      ok := true;
    }

    /** Sessions are numbered as they are created; `h` is the number of this one. */
    method StartPing(i: nat, outcome: Outcome, h: nat) returns (ok: bool)
      requires i < table.Length && table[i].Used? && h == |started|
      modifies this`active, this`live, this`started, table
      ensures View() == AfterStart(old(View()), i, outcome)
      ensures ok == (old(active).None? && old(table[i]).ping.None? && outcome == Started)
    {
      if table[i].ping.Some? || active.Some? || outcome == Refused {
        return false;
      }
      started := started + [table[i].key];
      table[i] := table[i].(ping := Some(h));
      active := Some(Session(h, i));
      table[i] := table[i].(replied := false);
      if outcome == StartFailed {
        table[i] := table[i].(ping := None);
        active := None;
        return false;
      }
      live := live + {Session(h, i)};
      ok := true;
    }

    method DrainIcmp(outcome: Outcome, h: nat)
      requires h == |started|
      modifies this`icmpQueue, this`active, this`live, this`started, table
      ensures View() == AfterDrainIcmp(old(View()), outcome)
    {
      if active.Some? || icmpQueue == [] {
        return;
      }
      var k := icmpQueue[0];
      icmpQueue := icmpQueue[1..];
      var i := Find(k);
      if i < table.Length {
        table[i] := table[i].(queued := false);
        var _ := StartPing(i, outcome, h);
      }
    }

    method OnPingSuccess(p: Session, now: dword)
      requires p.slot < table.Length
      modifies this`replies, table
      ensures View() == AfterPingSuccess(old(View()), p, now)
    {
      var e := table[p.slot];
      if e.Free? || e.key.proto != Icmp || e.replied {
        return;
      }
      table[p.slot] := e.(replied := true, lastMs := now);
      replies := replies + [p.handle];
    }

    method OnPingEnd(p: Session)
      requires p.slot < table.Length
      modifies this`active, this`live, table
      ensures View() == AfterPingEnd(old(View()), p)
    {
      live := live - {p};
      var e := table[p.slot];
      if e.Used? && e.ping == Some(p.handle) {
        table[p.slot] := e.(ping := None);
      }
      if active.Some? && active.value.handle == p.handle {
        active := None;
      }
    }

    method DrainUdp(made: bool)
      modifies this`udpQueue, table
      ensures View() == AfterDrainUdp(old(View()), made)
    {
      if udpQueue == [] {
        return;
      }
      var i := Find(udpQueue[0]);
      udpQueue := udpQueue[1..];
      if i < table.Length && !table[i].pcb {
        table[i] := table[i].(pcb := made);
      }
    }

    method DrainTcp(made: bool)
      modifies this`tcpQueue, table
      ensures View() == AfterDrainTcp(old(View()), made)
    {
      if tcpQueue == [] {
        return;
      }
      var item := tcpQueue[0];
      tcpQueue := tcpQueue[1..];
      var i := Find(item.key);
      if i == table.Length {
        return;
      }
      if item.rst {
        table[i] := Free;
      } else if item.syn && !item.ack && !table[i].pcb {
        table[i] := if made then table[i].(pcb := true) else Free;
      }
    }

    method ExpireEntries(now: dword)
      modifies table
      ensures View() == AfterExpire(old(View()), now)
    {
      for i := 0 to table.Length
        invariant forall j :: 0 <= j < i ==> table[j] == Expired(old(table[j]), now)
        invariant forall j :: i <= j < table.Length ==> table[j] == old(table[j])
      {
        var e := table[i];
        if e.Used? && !(e.key.proto == Icmp && e.ping.Some?) {
          var idle := match e.key.proto case Udp => 60000 case Tcp => 300000 case Icmp => 30000;
          if (now - e.lastMs) % DWORD_MOD > idle {
            table[i] := Free;
          }
        }
      }
    }
  }
}
