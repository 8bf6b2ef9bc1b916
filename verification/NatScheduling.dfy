/** When an echo request that waits in the queue is scheduled exactly once. */
module NatScheduling {
  import opened Words
  import opened NatTable

  predicate Marked(t: seq<Entry>, k: Key) {
    var i := First(t, Some(k));
    i < |t| && t[i].queued
  }

  /** Each queued echo is queued once and its entry knows it. */
  ghost predicate Orderly(s: State) {
    && (forall i, j :: 0 <= i < j < |s.icmpQueue| ==> s.icmpQueue[i] != s.icmpQueue[j])
    && forall i :: 0 <= i < |s.icmpQueue| ==> Marked(s.table, s.icmpQueue[i])
  }

  /** The step takes the slot of an echo that still waits in the queue. */
  ghost predicate TakesQueued(s: State, a: Step) {
    match a
    case IcmpOut(k, _) => EvictsQueued(s.table, k)
    case UdpOut(k, _) => EvictsQueued(s.table, k)
    case TcpOut(item, _) => !item.rst && item.syn && !item.ack && EvictsQueued(s.table, item.key)
    case Expire(now) => exists i :: 0 <= i < |s.table| && IdleInQueue(s.table[i], now)
    case _ => false
  }

  predicate EvictsQueued(t: seq<Entry>, k: Key) {
    var i := Allocated(t);
    First(t, Some(k)) == |t| && i >= 0 && t[i].Used? && t[i].queued
  }

  predicate IdleInQueue(e: Entry, now: dword) {
    e.Used? && e.queued && e.ping.None? && Age(e, now) > IdleLimit(e.key.proto)
  }

  lemma Located(t: seq<Entry>, i: nat)
    requires Unique(t) && i < |t| && t[i].Used?
    ensures First(t, Some(t[i].key)) == i
  {
    assert Matches(t[i], Some(t[i].key));
  }

  /** Changing one slot keeps every mark but possibly the one it had. */
  lemma MarksKept(t: seq<Entry>, i: nat, e: Entry, k: Key)
    requires i < |t| && Unique(t) && Unique(t[i := e]) && Marked(t, k)
    requires t[i].Used? && t[i].key == k ==> e.Used? && e.key == k && e.queued
    ensures Marked(t[i := e], k)
  {
    var f := First(t, Some(k));
    Located(t[i := e], f);
  }

  lemma SlotKeepsOrderly(s: State, i: nat, e: Entry)
    requires Inv(s) && Orderly(s) && i < SLOTS && Unique(s.table[i := e])
    requires s.table[i].Used? && s.table[i].queued ==> e.Used? && e.key == s.table[i].key && e.queued
    ensures Orderly(s.(table := s.table[i := e]))
  {
    forall j | 0 <= j < |s.icmpQueue| ensures Marked(s.table[i := e], s.icmpQueue[j]) {
      assert Marked(s.table, s.icmpQueue[j]);
      MarksKept(s.table, i, e, s.icmpQueue[j]);
    }
  }

  /** Losing the entry of a queued echo leaves a queue item that no entry knows of. */
  lemma LostEntry(s: State, t: seq<Entry>, i: nat)
    requires Inv(s) && i < SLOTS && s.table[i].Used? && s.table[i].queued
    requires |t| == SLOTS && forall j :: 0 <= j < SLOTS && t[j].Used? ==> t[j].key != s.table[i].key
    ensures exists j :: 0 <= j < |s.icmpQueue| && s.icmpQueue[j] == s.table[i].key && !Marked(t, s.icmpQueue[j])
  {
    assert Consistent(s.table[i], i, s.active, s.icmpQueue);
    var j :| 0 <= j < |s.icmpQueue| && s.icmpQueue[j] == s.table[i].key;
    assert !Marked(t, s.icmpQueue[j]);
  }

  lemma EnteredOrderly(s: State, k: Key, now: dword)
    requires Inv(s) && Orderly(s)
    ensures Entered(s.table, k, now).1 >= 0 && Inv(s.(table := Entered(s.table, k, now).0))
    ensures Orderly(s.(table := Entered(s.table, k, now).0)) == !EvictsQueued(s.table, k)
  {
    EnteredKeepsInv(s, k, now);
    var (t, i) := Entered(s.table, k, now);
    if EvictsQueued(s.table, k) {
      forall j | 0 <= j < SLOTS && t[j].Used? ensures t[j].key != s.table[i].key {
        assert !Matches(s.table[i], Some(k));
      }
      LostEntry(s, t, i);
    } else {
      SlotKeepsOrderly(s, i, t[i]);
    }
  }

  lemma IcmpOutOrderly(s: State, k: Key, now: dword)
    requires Inv(s) && Orderly(s) && k.proto == Icmp
    ensures Orderly(AfterIcmpOut(s, k, now).0) == !EvictsQueued(s.table, k)
  {
    EnteredOrderly(s, k, now);
    var (t, i) := Entered(s.table, k, now);
    if t[i].ping.None? && !t[i].queued && |s.icmpQueue| < QUEUE {
      if EvictsQueued(s.table, k) {
        QueuedAfterEviction(s, k, now);
      } else {
        QueuedInOrder(s.(table := t), i, k);
      }
    }
  }

  lemma QueuedAfterEviction(s: State, k: Key, now: dword)
    requires Inv(s) && EvictsQueued(s.table, k)
    ensures !Orderly(AfterIcmpOut(s, k, now).0)
  {
    var i := Allocated(s.table);
    var after := AfterIcmpOut(s, k, now).0;
    assert !Matches(s.table[i], Some(k));
    LostEntry(s, after.table, i);
    var j :| 0 <= j < |s.icmpQueue| && !Marked(after.table, s.icmpQueue[j]);
    assert after.icmpQueue[j] == s.icmpQueue[j];
  }

  lemma QueuedInOrder(s: State, i: nat, k: Key)
    requires Inv(s) && Orderly(s) && i < SLOTS && s.table[i].Used? && s.table[i].key == k && !s.table[i].queued
    ensures Orderly(s.(table := s.table[i := s.table[i].(queued := true, replied := false)],
                        icmpQueue := s.icmpQueue + [k]))
  {
    var e := s.table[i].(queued := true, replied := false);
    Located(s.table, i);
    assert !Marked(s.table, k);
    assert forall j :: 0 <= j < |s.icmpQueue| ==> Marked(s.table, s.icmpQueue[j]);
    assert Unique(s.table[i := e]);
    SlotKeepsOrderly(s, i, e);
    Located(s.table[i := e], i);
  }

  /** Taking an echo from the queue changes its own slot at most. */
  lemma DrainChangesSlot(s: State, outcome: Outcome)
    requires Inv(s) && s.active.None? && s.icmpQueue != [] && Marked(s.table, s.icmpQueue[0])
    ensures var i, after := First(s.table, Some(s.icmpQueue[0])), AfterDrainIcmp(s, outcome);
            && after.icmpQueue == s.icmpQueue[1..] && |after.table| == SLOTS
            && after.table == s.table[i := after.table[i]]
            && after.table[i].Used? && after.table[i].key == s.icmpQueue[0]
  {
  }

  lemma DrainIcmpOrderly(s: State, outcome: Outcome)
    requires Inv(s) && Orderly(s)
    ensures Orderly(AfterDrainIcmp(s, outcome))
  {
    if s.active.None? && s.icmpQueue != [] {
      assert Marked(s.table, s.icmpQueue[0]);
      DrainChangesSlot(s, outcome);
      var i, after := First(s.table, Some(s.icmpQueue[0])), AfterDrainIcmp(s, outcome);
      PoppedOrderly(s, i, after.table[i], after);
    }
  }

  lemma PoppedOrderly(s: State, i: nat, e: Entry, after: State)
    requires Inv(s) && Orderly(s) && s.icmpQueue != [] && i < SLOTS && i == First(s.table, Some(s.icmpQueue[0]))
    requires e.Used? && e.key == s.icmpQueue[0] && after.table == s.table[i := e] && after.icmpQueue == s.icmpQueue[1..]
    ensures Orderly(after)
  {
    var k := s.icmpQueue[0];
    assert Unique(s.table[i := e]);
    forall j | 0 <= j < |after.icmpQueue| ensures Marked(after.table, after.icmpQueue[j]) {
      var q := s.icmpQueue[j + 1];
      assert after.icmpQueue[j] == q && q != k && Marked(s.table, q);
      MarksKept(s.table, i, e, q);
    }
  }

  lemma ExpireOrderly(s: State, now: dword)
    requires Inv(s) && Orderly(s)
    ensures Orderly(AfterExpire(s, now)) == !TakesQueued(s, Expire(now))
  {
    var t := AfterExpire(s, now).table;
    if i :| 0 <= i < SLOTS && IdleInQueue(s.table[i], now) {
      LostEntry(s, t, i);
    } else {
      ExpireKeepsInv(s, now);
      forall j | 0 <= j < |s.icmpQueue| ensures Marked(t, s.icmpQueue[j]) {
        assert Marked(s.table, s.icmpQueue[j]);
        var f := First(s.table, Some(s.icmpQueue[j]));
        assert Consistent(s.table[f], f, s.active, s.icmpQueue);
        Located(t, f);
      }
    }
  }

  /** A change of one slot that keeps what a waiting echo has there keeps the order, whatever else changes. */
  lemma OneSlotOrderly(s: State, after: State, i: nat)
    requires Inv(s) && Orderly(s) && i < SLOTS && after.icmpQueue == s.icmpQueue && |after.table| == SLOTS
    requires after.table == s.table[i := after.table[i]] && Unique(after.table)
    requires SameEcho(s.table[i], after.table[i])
    ensures Orderly(after)
  {
    SlotKeepsOrderly(s, i, after.table[i]);
  }

  predicate SameEcho(e: Entry, f: Entry) {
    e.Used? && e.queued ==> f.Used? && f.key == e.key && f.queued
  }

  lemma DrainUdpOrderly(s: State, made: bool)
    requires Inv(s) && Orderly(s)
    ensures Orderly(AfterDrainUdp(s, made))
  {
    DrainUdpKeepsInv(s, made);
    if s.udpQueue != [] {
      var i := First(s.table, Some(s.udpQueue[0]));
      if i < SLOTS {
        OneSlotOrderly(s, AfterDrainUdp(s, made), i);
      }
    }
  }

  lemma DrainTcpOrderly(s: State, made: bool)
    requires Inv(s) && Orderly(s)
    ensures Orderly(AfterDrainTcp(s, made))
  {
    DrainTcpKeepsInv(s, made);
    if s.tcpQueue != [] {
      var i := First(s.table, Some(s.tcpQueue[0].key));
      if i < SLOTS {
        assert Consistent(s.table[i], i, s.active, s.icmpQueue);
        OneSlotOrderly(s, AfterDrainTcp(s, made), i);
      }
    }
  }

  lemma PingSuccessOrderly(s: State, p: Session, now: dword)
    requires Inv(s) && Orderly(s) && p in s.live
    ensures Orderly(AfterPingSuccess(s, p, now))
  {
    PingSuccessKeepsInv(s, p, now);
    OneSlotOrderly(s, AfterPingSuccess(s, p, now), p.slot);
  }

  lemma PingEndOrderly(s: State, p: Session)
    requires Inv(s) && Orderly(s) && p in s.live
    ensures Orderly(AfterPingEnd(s, p))
  {
    PingEndKeepsInv(s, p);
    OneSlotOrderly(s, AfterPingEnd(s, p), p.slot);
  }

  lemma SocketOrderly(s: State, a: Step)
    requires Inv(s) && Orderly(s) && Enabled(s, a) && (a.Received? || a.ConnectionLost?)
    ensures Orderly(After(s, a))
  {
    StepKeepsInv(s, a);
    assert Consistent(s.table[a.slot], a.slot, s.active, s.icmpQueue);
    OneSlotOrderly(s, After(s, a), a.slot);
  }

  lemma TcpOutOrderly(s: State, item: TcpItem, now: dword)
    requires Inv(s) && Orderly(s) && item.key.proto == Tcp
    ensures Orderly(AfterTcpOut(s, item, now).0) == !TakesQueued(s, TcpOut(item, now))
  {
    var f := First(s.table, Some(item.key));
    if item.rst {
      if f < SLOTS {
        assert Consistent(s.table[f], f, s.active, s.icmpQueue);
        SlotKeepsOrderly(s, f, Free);
      }
    } else {
      EnteredOrderly(s, item.key, now);
    }
  }

  /** An echo is never scheduled twice, except after a step that takes the slot of one still waiting. */
  lemma EchoScheduledOnce(s: State, a: Step)
    requires Inv(s) && Orderly(s) && Enabled(s, a)
    ensures Orderly(After(s, a)) == !TakesQueued(s, a)
  {
    match a
    case IcmpOut(k, now) => IcmpOutOrderly(s, k, now);
    case UdpOut(k, now) => EnteredOrderly(s, k, now);
    case TcpOut(item, now) => TcpOutOrderly(s, item, now);
    case DrainIcmp(outcome) => DrainIcmpOrderly(s, outcome);
    case Expire(now) => ExpireOrderly(s, now);
    case DrainUdp(made) => DrainUdpOrderly(s, made);
    case DrainTcp(made) => DrainTcpOrderly(s, made);
    case PingSuccess(p, now) => PingSuccessOrderly(s, p, now);
    case PingEnd(p) => PingEndOrderly(s, p);
    case _ => SocketOrderly(s, a);
  }

  /** No step of the run takes the slot of an echo that waits. */
  ghost predicate NeverTakesQueued(s: State, steps: seq<Step>)
    decreases |steps|
  {
    steps != [] ==> !TakesQueued(s, steps[0]) && NeverTakesQueued(After(s, steps[0]), steps[1..])
  }

  /** In every such run each waiting echo is queued once and known to its entry. */
  lemma {:induction false} RunOrderly(s: State, steps: seq<Step>)
    requires Inv(s) && Orderly(s) && Runs(s, steps) && NeverTakesQueued(s, steps)
    ensures Orderly(Run(s, steps))
    decreases |steps|
  {
    if steps != [] {
      EchoScheduledOnce(s, steps[0]);
      StepKeepsInv(s, steps[0]);
      RunOrderly(After(s, steps[0]), steps[1..]);
    }
  }

  /** So from the start no run queues an echo twice unless it takes the slot of one that waits. */
  lemma NoEchoTwice(steps: seq<Step>)
    requires Runs(Initial(), steps) && NeverTakesQueued(Initial(), steps)
    ensures var q := Run(Initial(), steps).icmpQueue; forall i, j :: 0 <= i < j < |q| ==> q[i] != q[j]
  {
    InitialInv();
    assert Orderly(Initial());
    RunOrderly(Initial(), steps);
  }
}
