/**
 The address translation table: 32 slots that map a guest's conversations to
 sockets and pings on the host side. Each call and each queue item handled is
 one step. The network library appears as outcomes passed in and as the
 callbacks it may make for a ping session that is still alive.
 */
module NatTable {
  import opened Words

  const SLOTS: nat := 32
  const QUEUE: nat := 8
  const HALF_RANGE: int := 0x8000_0000

  datatype Proto = Icmp | Udp | Tcp

  datatype Key = Key(proto: Proto, guestIp: dword, guestPort: word, remoteIp: dword, remotePort: word)

  datatype Entry = Free | Used(key: Key, lastMs: dword, ping: Option<nat>, queued: bool, replied: bool, pcb: bool)

  /** A ping session: its number, and the slot its callbacks are bound to. */
  datatype Session = Session(handle: nat, slot: nat)

  predicate Matches(e: Entry, sought: Option<Key>) {
    if sought.None? then e.Free? else e.Used? && e.key == sought.value
  }

  predicate InFlight(e: Entry) {
    e.Used? && e.key.proto == Icmp && e.ping.Some?
  }

  // ----- lookup and the choice of a slot -----

  /** The first slot that holds the key, or with no key the first free one; the length when there is none. */
  function First(t: seq<Entry>, sought: Option<Key>): (i: nat)
    ensures i <= |t| && (i < |t| ==> Matches(t[i], sought))
    ensures forall j :: 0 <= j < i ==> !Matches(t[j], sought)
  {
    if t == [] then 0 else if Matches(t[0], sought) then 0 else 1 + First(t[1..], sought)
  }

  /** Timestamps compare as a signed 32-bit difference. */
  predicate Before(a: dword, b: dword) {
    (a - b) % DWORD_MOD >= HALF_RANGE
  }

  /** A time is before another exactly when their difference, taken as a signed 32-bit number, is negative. */
  lemma BeforeIsSigned(a: dword, b: dword, difference: int)
    requires -0x8000_0000 <= difference < 0x8000_0000 && (a - b - difference) % 0x1_0000_0000 == 0
    ensures Before(a, b) <==> difference < 0
  {
    var q := (a - b - difference) / DWORD_MOD;
    FloorUnique(a - b, DWORD_MOD, if difference < 0 then q - 1 else q,
                if difference < 0 then difference + DWORD_MOD else difference);
  }

  /** The oldest of the first `n` entries that has no ping in flight, -1 when there is none. */
  function Oldest(t: seq<Entry>, n: nat): (o: int)
    requires n <= |t| && forall i :: 0 <= i < n ==> t[i].Used?
    ensures -1 <= o < n && (o >= 0 ==> !InFlight(t[o]))
    ensures o == -1 ==> forall i :: 0 <= i < n ==> InFlight(t[i])
  {
    if n == 0 then -1
    else
      var o := Oldest(t, n - 1);
      if InFlight(t[n - 1]) then o
      else if o < 0 || Before(t[n - 1].lastMs, t[o].lastMs) then n - 1
      else o
  }

  function Allocated(t: seq<Entry>): (i: int)
    ensures -1 <= i < |t|
    ensures i >= 0 ==> !InFlight(t[i])
    ensures i >= 0 && t[i].Used? ==> forall j :: 0 <= j < |t| ==> t[j].Used?
    ensures i == -1 ==> forall j :: 0 <= j < |t| ==> InFlight(t[j])
  {
    var i := First(t, None);
    if i < |t| then i else Oldest(t, |t|)
  }

  function Age(e: Entry, now: dword): nat
    requires e.Used?
  {
    (now - e.lastMs) % DWORD_MOD
  }

  /** While no entry is older than half the clock's range, the slot taken from a full table has the greatest age. */
  lemma {:induction false} OldestIsOldest(t: seq<Entry>, n: nat, now: dword)
    requires n <= |t| && forall i :: 0 <= i < n ==> t[i].Used?
    requires forall i :: 0 <= i < n ==> Age(t[i], now) < HALF_RANGE
    ensures var o := Oldest(t, n);
            o >= 0 ==> forall i :: 0 <= i < n && !InFlight(t[i]) ==> Age(t[i], now) <= Age(t[o], now)
  {
    if n > 0 {
      OldestIsOldest(t, n - 1, now);
      var o := Oldest(t, n - 1);
      if o >= 0 && !InFlight(t[n - 1]) {
        BeforeIsOlder(t[n - 1].lastMs, t[o].lastMs, now);
      }
    }
  }

  lemma BeforeIsOlder(a: dword, b: dword, now: dword)
    requires (now - a) % DWORD_MOD < HALF_RANGE && (now - b) % DWORD_MOD < HALF_RANGE
    ensures Before(a, b) == ((now - a) % DWORD_MOD > (now - b) % DWORD_MOD)
  {
  }

  // ----- the state -----

  datatype TcpItem = TcpItem(key: Key, rst: bool, syn: bool, ack: bool, length: nat)

  datatype State = State(
    table: seq<Entry>,
    active: Option<Session>,
    icmpQueue: seq<Key>,
    udpQueue: seq<Key>,
    tcpQueue: seq<TcpItem>,
    live: set<Session>,
    started: seq<Key>,
    replies: seq<nat>)

  /** No two slots hold the same conversation. */
  ghost predicate Unique(t: seq<Entry>) {
    forall i, j :: 0 <= i < j < |t| && t[i].Used? && t[j].Used? ==> t[i].key != t[j].key
  }

  /** What each slot may hold given the one session that may be active. */
  predicate Consistent(e: Entry, i: nat, active: Option<Session>, icmpQueue: seq<Key>) {
    e.Used? ==>
      && (e.ping.Some? ==> e.key.proto == Icmp && active == Some(Session(e.ping.value, i)))
      && (e.queued ==> e.key.proto == Icmp && e.key in icmpQueue)
      && (e.pcb ==> e.key.proto != Icmp)
  }

  ghost predicate Slots(t: seq<Entry>, active: Option<Session>, icmpQueue: seq<Key>) {
    |t| == SLOTS && forall i :: 0 <= i < SLOTS ==> Consistent(t[i], i, active, icmpQueue)
  }

  /** An active session's slot still holds the conversation the session was started for. */
  ghost predicate Bound(t: seq<Entry>, active: Option<Session>, started: seq<Key>, replies: seq<nat>) {
    active.Some? ==>
      var Session(h, i) := active.value;
      && h < |started| && i < |t| && t[i].Used? && t[i].ping == Some(h) && t[i].key == started[h]
      && t[i].replied == (h in replies)
  }

  ghost predicate Replies(started: seq<Key>, replies: seq<nat>) {
    && (forall i :: 0 <= i < |replies| ==> replies[i] < |started|)
    && forall i, j :: 0 <= i < j < |replies| ==> replies[i] != replies[j]
  }

  ghost predicate Inv(s: State) {
    && Unique(s.table) && Slots(s.table, s.active, s.icmpQueue)
    && Bound(s.table, s.active, s.started, s.replies) && Replies(s.started, s.replies)
    && s.live == (if s.active.Some? then {s.active.value} else {})
    && Queues(s)
  }

  ghost predicate Queues(s: State) {
    && |s.icmpQueue| <= QUEUE && |s.udpQueue| <= QUEUE && |s.tcpQueue| <= QUEUE
    && (forall i :: 0 <= i < |s.icmpQueue| ==> s.icmpQueue[i].proto == Icmp)
    && (forall i :: 0 <= i < |s.udpQueue| ==> s.udpQueue[i].proto == Udp)
    && (forall i :: 0 <= i < |s.tcpQueue| ==> s.tcpQueue[i].key.proto == Tcp)
  }

  function Initial(): State {
    State(Repeated(Free, SLOTS), None, [], [], [], {}, [], [])
  }

  lemma InitialInv()
    ensures Inv(Initial())
  {
  }

  // ----- the steps -----

  function NewEntry(k: Key, now: dword): Entry {
    Used(k, now, None, false, false, false)
  }

  /** The table with the conversation in it, used now, and its slot; -1 when no slot can be had. */
  function Entered(t: seq<Entry>, k: Key, now: dword): (r: (seq<Entry>, int))
    ensures |r.0| == |t| && -1 <= r.1 < |t|
    ensures r.1 >= 0 ==> r.0[r.1].Used? && r.0[r.1].key == k && r.0[r.1].lastMs == now
  {
    var f := First(t, Some(k));
    var i := if f < |t| then f else Allocated(t);
    if i < 0 then (t, -1)
    else (t[i := if f < |t| then t[f].(lastMs := now) else NewEntry(k, now)], i)
  }

  function AfterIcmpOut(s: State, k: Key, now: dword): (State, bool) {
    var (t, i) := Entered(s.table, k, now);
    if i < 0 then (s, false)
    else if t[i].ping.Some? || t[i].queued then (s.(table := t), true)
    else if |s.icmpQueue| >= QUEUE then (s.(table := t), false)
    else (s.(table := t[i := t[i].(queued := true, replied := false)], icmpQueue := s.icmpQueue + [k]), true)
  }

  function AfterUdpOut(s: State, k: Key, now: dword): (State, bool) {
    var (t, i) := Entered(s.table, k, now);
    if i < 0 then (s, false)
    else if |s.udpQueue| >= QUEUE then (s.(table := t), false)
    else (s.(table := t, udpQueue := s.udpQueue + [k]), true)
  }

  function AfterTcpOut(s: State, item: TcpItem, now: dword): (State, bool) {
    var f := First(s.table, Some(item.key));
    if item.rst then
      if f == |s.table| then (s, true)
      else if |s.tcpQueue| < QUEUE then (s.(tcpQueue := s.tcpQueue + [TcpItem(item.key, true, false, false, 0)]), true)
      else (s.(table := s.table[f := Free]), true)
    else if f == |s.table| && (!item.syn || item.ack) then (s, false)
    else
      var (t, i) := Entered(s.table, item.key, now);
      if i < 0 then (s, false)
      else if |s.tcpQueue| >= QUEUE then (s.(table := t), false)
      else (s.(table := t, tcpQueue := s.tcpQueue + [item]), true)
  }

  /** How starting a ping session may turn out. */
  datatype Outcome = Refused | StartFailed | Started

  function AfterDrainIcmp(s: State, outcome: Outcome): State {
    if s.active.Some? || s.icmpQueue == [] then s
    else
      var k := s.icmpQueue[0];
      var i := First(s.table, Some(k));
      var s1 := s.(icmpQueue := s.icmpQueue[1..]);
      if i == |s.table| then s1
      else AfterStart(s1.(table := s.table[i := s.table[i].(queued := false)]), i, outcome)
  }

  function AfterStart(s: State, i: nat, outcome: Outcome): State
    requires i < |s.table| && s.table[i].Used?
  {
    var e := s.table[i];
    if e.ping.Some? || s.active.Some? || outcome == Refused then s
    else
      var h := |s.started|;
      var s1 := s.(started := s.started + [e.key]);
      if outcome == StartFailed then s1.(table := s.table[i := e.(replied := false)])
      else
        s1.(table := s.table[i := e.(ping := Some(h), replied := false)],
            active := Some(Session(h, i)), live := s.live + {Session(h, i)})
  }

  /** The session's success callback: the first one sends the guest its reply. */
  function AfterPingSuccess(s: State, p: Session, now: dword): State
    requires p.slot < |s.table|
  {
    var e := s.table[p.slot];
    if e.Free? || e.key.proto != Icmp || e.replied then s
    else s.(table := s.table[p.slot := e.(replied := true, lastMs := now)], replies := s.replies + [p.handle])
  }

  function AfterPingEnd(s: State, p: Session): State
    requires p.slot < |s.table|
  {
    var e := s.table[p.slot];
    s.(table := if e.Used? && e.ping == Some(p.handle) then s.table[p.slot := e.(ping := None)] else s.table,
       active := if s.active.Some? && s.active.value.handle == p.handle then None else s.active,
       live := s.live - {p})
  }

  /** One queued datagram: its entry has a socket afterwards unless none could be had. */
  function AfterDrainUdp(s: State, made: bool): State {
    if s.udpQueue == [] then s
    else
      var i := First(s.table, Some(s.udpQueue[0]));
      var s1 := s.(udpQueue := s.udpQueue[1..]);
      if i == |s.table| then s1
      else s1.(table := s.table[i := s.table[i].(pcb := s.table[i].pcb || made)])
  }

  function AfterDrainTcp(s: State, made: bool): State {
    if s.tcpQueue == [] then s
    else
      var item := s.tcpQueue[0];
      var i := First(s.table, Some(item.key));
      var s1 := s.(tcpQueue := s.tcpQueue[1..]);
      if i == |s.table| then s1
      else if item.rst then s1.(table := s.table[i := Free])
      else if item.syn && !item.ack && !s.table[i].pcb then
        s1.(table := s.table[i := if made then s.table[i].(pcb := true) else Free])
      else s1
  }

  function IdleLimit(p: Proto): nat {
    match p case Udp => 60000 case Tcp => 300000 case Icmp => 30000
  }

  function Expired(e: Entry, now: dword): Entry {
    if e.Used? && !InFlight(e) && Age(e, now) > IdleLimit(e.key.proto) then Free else e
  }

  function AfterExpire(s: State, now: dword): State {
    s.(table := seq(|s.table|, i requires 0 <= i < |s.table| => Expired(s.table[i], now)))
  }

  datatype Step =
    | IcmpOut(key: Key, now: dword)
    | UdpOut(key: Key, now: dword)
    | TcpOut(item: TcpItem, now: dword)
    | DrainIcmp(outcome: Outcome)
    | DrainUdp(made: bool)
    | DrainTcp(made: bool)
    | PingSuccess(session: Session, now: dword)
    | PingEnd(session: Session)
    | Received(slot: nat, now: dword)
    | ConnectionLost(slot: nat)
    | Expire(now: dword)

  /** Keys have the protocol of their call; callbacks come from live sessions and from sockets that exist. */
  ghost predicate Enabled(s: State, a: Step) {
    match a
    case IcmpOut(k, _) => k.proto == Icmp
    case UdpOut(k, _) => k.proto == Udp
    case TcpOut(item, _) => item.key.proto == Tcp
    case PingSuccess(p, _) => p in s.live
    case PingEnd(p) => p in s.live
    case Received(i, _) => i < |s.table| && s.table[i].Used? && s.table[i].pcb
    case ConnectionLost(i) => i < |s.table| && s.table[i].Used? && s.table[i].pcb && s.table[i].key.proto == Tcp
    case _ => true
  }

  function After(s: State, a: Step): State {
    match a
    case IcmpOut(k, now) => AfterIcmpOut(s, k, now).0
    case UdpOut(k, now) => AfterUdpOut(s, k, now).0
    case TcpOut(item, now) => AfterTcpOut(s, item, now).0
    case DrainIcmp(outcome) => AfterDrainIcmp(s, outcome)
    case DrainUdp(made) => AfterDrainUdp(s, made)
    case DrainTcp(made) => AfterDrainTcp(s, made)
    case PingSuccess(p, now) => if p.slot < |s.table| then AfterPingSuccess(s, p, now) else s
    case PingEnd(p) => if p.slot < |s.table| then AfterPingEnd(s, p) else s
    case Received(i, now) =>
      if i < |s.table| && s.table[i].Used? then s.(table := s.table[i := s.table[i].(lastMs := now)]) else s
    case ConnectionLost(i) => if i < |s.table| then s.(table := s.table[i := Free]) else s
    case Expire(now) => AfterExpire(s, now)
  }

  // ----- the invariant -----

  /** A slot other than the active one may be freed, or hold a conversation no other slot holds. */
  ghost predicate Fits(s: State, i: nat, e: Entry)
    requires |s.table| == SLOTS && i < SLOTS
  {
    && Consistent(e, i, s.active, s.icmpQueue)
    && (e.Used? ==> forall j :: 0 <= j < SLOTS && j != i && s.table[j].Used? ==> s.table[j].key != e.key)
    && (s.active.Some? && s.active.value.slot == i ==>
          && e.Used? && s.table[i].Used?
          && e.ping == s.table[i].ping && e.key == s.table[i].key && e.replied == s.table[i].replied)
  }

  lemma ReplaceKeepsInv(s: State, i: nat, e: Entry)
    requires Inv(s) && i < SLOTS && Fits(s, i, e)
    ensures Inv(s.(table := s.table[i := e]))
  {
    var t := s.table[i := e];
    assert Unique(t);
    assert Slots(t, s.active, s.icmpQueue);
  }

  lemma NotActive(s: State, i: nat)
    requires Inv(s) && i < SLOTS && !InFlight(s.table[i])
    ensures s.active.Some? ==> s.active.value.slot != i
  {
    assert Consistent(s.table[i], i, s.active, s.icmpQueue);
  }

  /** A slot can always be had: at most one ping is in flight. */
  lemma AllocationSucceeds(s: State)
    requires Inv(s)
    ensures Allocated(s.table) >= 0
  {
    assert Consistent(s.table[0], 0, s.active, s.icmpQueue) && Consistent(s.table[1], 1, s.active, s.icmpQueue);
  }

  lemma EnteredKeepsInv(s: State, k: Key, now: dword)
    requires Inv(s)
    ensures Entered(s.table, k, now).1 >= 0 && Inv(s.(table := Entered(s.table, k, now).0))
  {
    AllocationSucceeds(s);
    var f := First(s.table, Some(k));
    if f < SLOTS {
      ReplaceKeepsInv(s, f, s.table[f].(lastMs := now));
    } else {
      var i := Allocated(s.table);
      NotActive(s, i);
      forall j | 0 <= j < SLOTS && j != i && s.table[j].Used? ensures s.table[j].key != k {
        assert !Matches(s.table[j], Some(k));
      }
      ReplaceKeepsInv(s, i, NewEntry(k, now));
    }
  }

  lemma FreeKeepsInv(s: State, i: nat)
    requires Inv(s) && i < SLOTS && !InFlight(s.table[i])
    ensures Inv(s.(table := s.table[i := Free]))
  {
    NotActive(s, i);
    ReplaceKeepsInv(s, i, Free);
  }

  lemma OtherProtocolIsIdle(s: State, i: nat)
    requires Inv(s) && i < SLOTS && s.table[i].Used? && s.table[i].key.proto != Icmp
    ensures !InFlight(s.table[i])
  {
  }

  lemma IcmpOutKeepsInv(s: State, k: Key, now: dword)
    requires Inv(s) && k.proto == Icmp
    ensures Inv(AfterIcmpOut(s, k, now).0)
  {
    EnteredKeepsInv(s, k, now);
    var (t, i) := Entered(s.table, k, now);
    var s1 := s.(table := t);
    if t[i].ping.None? && !t[i].queued && |s.icmpQueue| < QUEUE {
      NotActive(s1, i);
      var s2 := s1.(icmpQueue := s.icmpQueue + [k]);
      assert Inv(s2);
      ReplaceKeepsInv(s2, i, t[i].(queued := true, replied := false));
    }
  }

  lemma UdpOutKeepsInv(s: State, k: Key, now: dword)
    requires Inv(s) && k.proto == Udp
    ensures Inv(AfterUdpOut(s, k, now).0)
  {
    EnteredKeepsInv(s, k, now);
  }

  lemma TcpOutKeepsInv(s: State, item: TcpItem, now: dword)
    requires Inv(s) && item.key.proto == Tcp
    ensures Inv(AfterTcpOut(s, item, now).0)
  {
    var f := First(s.table, Some(item.key));
    if item.rst && f < SLOTS && |s.tcpQueue| >= QUEUE {
      OtherProtocolIsIdle(s, f);
      FreeKeepsInv(s, f);
    }
    EnteredKeepsInv(s, item.key, now);
  }

  /** Once an item leaves the queue its entry must not be marked as queued unless a copy remains. */
  lemma PopKeepsInv(s: State)
    requires Inv(s) && s.icmpQueue != []
    ensures var k := s.icmpQueue[0]; var i := First(s.table, Some(k));
            Inv(s.(icmpQueue := s.icmpQueue[1..],
                   table := if i < SLOTS then s.table[i := s.table[i].(queued := false)] else s.table))
  {
    var k, rest := s.icmpQueue[0], s.icmpQueue[1..];
    var f := First(s.table, Some(k));
    var t := if f < SLOTS then s.table[f := s.table[f].(queued := false)] else s.table;
    if f < SLOTS {
      ReplaceKeepsInv(s, f, t[f]);
    }
    forall i | 0 <= i < SLOTS ensures Consistent(t[i], i, s.active, rest) {
      assert Consistent(s.table[i], i, s.active, s.icmpQueue);
      if t[i].Used? && t[i].queued {
        assert t[i].key != k;
        QueuedBehind(s.icmpQueue, t[i].key);
      }
    }
  }

  lemma QueuedBehind(q: seq<Key>, k: Key)
    requires q != [] && k in q && k != q[0]
    ensures k in q[1..]
  {
    var j :| 0 <= j < |q| && q[j] == k;
    assert q[1..][j - 1] == k;
  }

  lemma StartKeepsInv(s: State, i: nat, outcome: Outcome)
    requires Inv(s) && i < SLOTS && s.table[i].Used? && s.table[i].key.proto == Icmp && s.active.None?
    ensures Inv(AfterStart(s, i, outcome))
  {
    var e, h := s.table[i], |s.started|;
    if e.ping.None? && outcome != Refused {
      var s1 := s.(started := s.started + [e.key]);
      assert Inv(s1);
      if outcome == StartFailed {
        ReplaceKeepsInv(s1, i, e.(replied := false));
      } else {
        var t := s.table[i := e.(ping := Some(h), replied := false)];
        assert Unique(t);
        forall j | 0 <= j < SLOTS ensures Consistent(t[j], j, Some(Session(h, i)), s.icmpQueue) {
          assert Consistent(s.table[j], j, s.active, s.icmpQueue);
        }
      }
    }
  }

  lemma DrainIcmpKeepsInv(s: State, outcome: Outcome)
    requires Inv(s)
    ensures Inv(AfterDrainIcmp(s, outcome))
  {
    if s.active.None? && s.icmpQueue != [] {
      PopKeepsInv(s);
      var i := First(s.table, Some(s.icmpQueue[0]));
      if i < SLOTS {
        var s1 := s.(icmpQueue := s.icmpQueue[1..], table := s.table[i := s.table[i].(queued := false)]);
        StartKeepsInv(s1, i, outcome);
      }
    }
  }

  lemma DrainUdpKeepsInv(s: State, made: bool)
    requires Inv(s)
    ensures Inv(AfterDrainUdp(s, made))
  {
    if s.udpQueue != [] {
      var i := First(s.table, Some(s.udpQueue[0]));
      if i < SLOTS {
        ReplaceKeepsInv(s, i, s.table[i].(pcb := s.table[i].pcb || made));
      }
    }
  }

  lemma DrainTcpKeepsInv(s: State, made: bool)
    requires Inv(s)
    ensures Inv(AfterDrainTcp(s, made))
  {
    if s.tcpQueue != [] {
      var i := First(s.table, Some(s.tcpQueue[0].key));
      if i < SLOTS {
        OtherProtocolIsIdle(s, i);
        FreeKeepsInv(s, i);
        ReplaceKeepsInv(s, i, s.table[i].(pcb := true));
      }
    }
  }

  lemma PingSuccessKeepsInv(s: State, p: Session, now: dword)
    requires Inv(s) && p in s.live
    ensures Inv(AfterPingSuccess(s, p, now))
  {
    var e, i := s.table[p.slot], p.slot;
    assert s.active == Some(p) && Consistent(e, i, s.active, s.icmpQueue);
    if !e.replied {
      var t := s.table[i := e.(replied := true, lastMs := now)];
      assert Unique(t);
      assert Slots(t, s.active, s.icmpQueue);
    }
  }

  lemma PingEndKeepsInv(s: State, p: Session)
    requires Inv(s) && p in s.live
    ensures Inv(AfterPingEnd(s, p)) && AfterPingEnd(s, p).active == None
  {
    var e, i := s.table[p.slot], p.slot;
    assert s.active == Some(p);
    var t := s.table[i := e.(ping := None)];
    assert Unique(t);
    forall j | 0 <= j < SLOTS ensures Consistent(t[j], j, None, s.icmpQueue) {
      assert Consistent(s.table[j], j, s.active, s.icmpQueue);
    }
  }

  lemma ExpireKeepsInv(s: State, now: dword)
    requires Inv(s)
    ensures Inv(AfterExpire(s, now))
  {
    var t := AfterExpire(s, now).table;
    assert Unique(t);
    forall j | 0 <= j < SLOTS ensures Consistent(t[j], j, s.active, s.icmpQueue) {
      assert Consistent(s.table[j], j, s.active, s.icmpQueue);
    }
    if s.active.Some? {
      var i := s.active.value.slot;
      assert Consistent(s.table[i], i, s.active, s.icmpQueue);
    }
  }

  /** Every step keeps the invariant. */
  lemma StepKeepsInv(s: State, a: Step)
    requires Inv(s) && Enabled(s, a)
    ensures Inv(After(s, a))
  {
    match a
    case IcmpOut(k, now) => IcmpOutKeepsInv(s, k, now);
    case UdpOut(k, now) => UdpOutKeepsInv(s, k, now);
    case TcpOut(item, now) => TcpOutKeepsInv(s, item, now);
    case DrainIcmp(outcome) => DrainIcmpKeepsInv(s, outcome);
    case DrainUdp(made) => DrainUdpKeepsInv(s, made);
    case DrainTcp(made) => DrainTcpKeepsInv(s, made);
    case PingSuccess(p, now) => PingSuccessKeepsInv(s, p, now);
    case PingEnd(p) => PingEndKeepsInv(s, p);
    case Received(i, now) => ReplaceKeepsInv(s, i, s.table[i].(lastMs := now));
    case ConnectionLost(i) => OtherProtocolIsIdle(s, i); FreeKeepsInv(s, i);
    case Expire(now) => ExpireKeepsInv(s, now);
  }

  // ----- whole runs -----

  function Run(s: State, steps: seq<Step>): State
    decreases |steps|
  {
    if steps == [] then s else Run(After(s, steps[0]), steps[1..])
  }

  ghost predicate Runs(s: State, steps: seq<Step>)
    decreases |steps|
  {
    steps != [] ==> Enabled(s, steps[0]) && Runs(After(s, steps[0]), steps[1..])
  }

  lemma {:induction false} RunKeepsInv(s: State, steps: seq<Step>)
    requires Inv(s) && Runs(s, steps)
    ensures Inv(Run(s, steps))
    decreases |steps|
  {
    if steps != [] {
      StepKeepsInv(s, steps[0]);
      RunKeepsInv(After(s, steps[0]), steps[1..]);
    }
  }

  /** The slot the session is bound to holds the conversation and the ping. */
  ghost predicate Held(s: State, p: Session, k: Key) {
    && p in s.live && p.slot < |s.table|
    && s.table[p.slot].Used? && s.table[p.slot].key == k && s.table[p.slot].ping == Some(p.handle)
  }

  lemma HeldByInv(s: State, p: Session)
    requires Inv(s) && p in s.live
    ensures p.handle < |s.started| && Held(s, p, s.started[p.handle])
  {
    assert s.active == Some(p);
  }

  lemma StepKeepsLive(s: State, a: Step, p: Session)
    requires Inv(s) && Enabled(s, a) && p in s.live && a != PingEnd(p)
    ensures p in After(s, a).live && s.started <= After(s, a).started
  {
    assert s.active == Some(p);
  }

  /** Until its end is reported, no step evicts, expires or rebinds the entry of a ping in flight. */
  lemma {:induction false} InFlightIsKept(s: State, steps: seq<Step>, p: Session, k: Key)
    requires Inv(s) && Runs(s, steps) && Held(s, p, k) && PingEnd(p) !in steps
    ensures Held(Run(s, steps), p, k)
    decreases |steps|
  {
    HeldByInv(s, p);
    if steps != [] {
      var a := steps[0];
      assert a in steps;
      StepKeepsInv(s, a);
      StepKeepsLive(s, a, p);
      HeldByInv(After(s, a), p);
      InFlightIsKept(After(s, a), steps[1..], p, k);
    }
  }

  /** From the start no run holds a key twice, has two pings in flight, or answers a session twice. */
  lemma RunsAreSafe(steps: seq<Step>)
    requires Runs(Initial(), steps)
    ensures var s := Run(Initial(), steps);
            && Unique(s.table)
            && (forall i, j :: 0 <= i < |s.table| && 0 <= j < |s.table| ==>
                  InFlight(s.table[i]) && InFlight(s.table[j]) ==> i == j)
            && (forall i, j :: 0 <= i < j < |s.replies| ==> s.replies[i] != s.replies[j])
            && forall p :: p in s.live ==> p.handle < |s.started| && Held(s, p, s.started[p.handle])
  {
    InitialInv();
    RunKeepsInv(Initial(), steps);
    var s := Run(Initial(), steps);
    forall i, j | 0 <= i < SLOTS && 0 <= j < SLOTS && InFlight(s.table[i]) && InFlight(s.table[j]) ensures i == j {
      assert Consistent(s.table[i], i, s.active, s.icmpQueue) && Consistent(s.table[j], j, s.active, s.icmpQueue);
    }
    forall p | p in s.live ensures p.handle < |s.started| && Held(s, p, s.started[p.handle]) {
      HeldByInv(s, p);
    }
  }

  // ----- what a lookup gives the guest -----

  /** The conversations the table holds. */
  ghost function Keys(t: seq<Entry>): set<Key> {
    set i | 0 <= i < |t| && t[i].Used? :: t[i].key
  }

  /** Entering a conversation keeps all others while there is room, and costs at most one of them otherwise. */
  lemma EnteredKeys(s: State, k: Key, now: dword)
    requires Inv(s)
    ensures var (t, i) := Entered(s.table, k, now);
            var full := k !in Keys(s.table) && forall j :: 0 <= j < SLOTS ==> s.table[j].Used?;
            && 0 <= i < SLOTS
            && Keys(t) == (if full then Keys(s.table) - {s.table[i].key} else Keys(s.table)) + {k}
            && forall j :: 0 <= j < SLOTS && j != i ==> t[j] == s.table[j]
  {
    AllocationSucceeds(s);
    var (t, i) := Entered(s.table, k, now);
    EnteredKeepsInv(s, k, now);
    var f := First(s.table, Some(k));
    if f < SLOTS {
      assert s.table[f].key in Keys(s.table);
    }
    var full := k !in Keys(s.table) && forall j :: 0 <= j < SLOTS ==> s.table[j].Used?;
    var expected := (if full then Keys(s.table) - {s.table[i].key} else Keys(s.table)) + {k};
    forall q ensures q in Keys(t) <==> q in expected {
      if q in Keys(t) {
        var j :| 0 <= j < SLOTS && t[j].Used? && t[j].key == q;
        assert j != i ==> s.table[j].key in Keys(s.table);
      }
      if q in expected && q != k {
        var j :| 0 <= j < SLOTS && s.table[j].Used? && s.table[j].key == q;
        assert j != i;
        assert t[j].key == q;
      }
      assert t[i].key == k;
    }
  }

  lemma FirstUnique(t: seq<Entry>, sought: Option<Key>, i: nat)
    requires i <= |t| && (i < |t| ==> Matches(t[i], sought))
    requires forall j :: 0 <= j < i ==> !Matches(t[j], sought)
    ensures First(t, sought) == i
  {
  }
}
