/** A run of the address translation table in which one echo request is queued twice. */
module NatEviction {
  import opened Words
  import opened NatTable
  import opened NatScheduling

  function Datagram(j: word): Key {
    Key(Udp, 0, j, 0, 0)
  }

  /** Datagrams of new conversations, one a millisecond. */
  function Datagrams(n: nat): seq<Step>
    requires n < WORD_MOD
  {
    if n == 0 then [] else Datagrams(n - 1) + [UdpOut(Datagram(n), n)]
  }

  function EchoEntry(k: Key): Entry {
    Used(k, 0, None, true, false, false)
  }

  /** The table with the echo in its first slot and `n` conversations behind it. */
  function Filling(k: Key, n: nat): (t: seq<Entry>)
    requires n < SLOTS
    ensures |t| == SLOTS
  {
    seq(SLOTS, i requires 0 <= i < SLOTS =>
      if i == 0 then EchoEntry(k) else if i <= n then NewEntry(Datagram(i), i) else Free)
  }

  lemma {:induction false} RunJoin(s: State, a: seq<Step>, b: seq<Step>)
    ensures Run(s, a + b) == Run(Run(s, a), b)
    ensures Runs(s, a + b) == (Runs(s, a) && Runs(Run(s, a), b))
    decreases |a|
  {
    if a == [] {
      assert a + b == b;
    } else {
      assert (a + b)[1..] == a[1..] + b;
      RunJoin(After(s, a[0]), a[1..], b);
    }
  }

  lemma OneStep(s: State, a: Step)
    ensures Run(s, [a]) == After(s, a) && Runs(s, [a]) == Enabled(s, a)
  {
    assert [a][1..] == [];
    assert Runs(After(s, a), []);
  }

  lemma FillingAt(k: Key, n: nat, i: nat)
    requires n < SLOTS && i < SLOTS
    ensures Filling(k, n)[i] == if i == 0 then EchoEntry(k) else if i <= n then NewEntry(Datagram(i), i) else Free
  {
  }

  /** The echo waits, the table is as given, and no ping is active. */
  ghost predicate Waiting(s: State, k: Key, t: seq<Entry>) {
    s.table == t && s.icmpQueue == [k] && s.active.None?
  }

  lemma DatagramAdded(s: State, k: Key, n: nat)
    requires k.proto == Icmp && n + 1 < SLOTS && Waiting(s, k, Filling(k, n))
    ensures Waiting(After(s, UdpOut(Datagram(n + 1), n + 1)), k, Filling(k, n + 1))
  {
    var t := s.table;
    forall j | 0 <= j < SLOTS ensures !Matches(t[j], Some(Datagram(n + 1))) && (j <= n ==> !Matches(t[j], None)) {
      FillingAt(k, n, j);
    }
    FillingAt(k, n, n + 1);
    FirstUnique(t, Some(Datagram(n + 1)), SLOTS);
    FirstUnique(t, None, n + 1);
    assert t[n + 1 := NewEntry(Datagram(n + 1), n + 1)] == Filling(k, n + 1);
  }

  lemma {:induction false} DatagramsFill(s: State, k: Key, n: nat)
    requires k.proto == Icmp && n < SLOTS && Waiting(s, k, Filling(k, 0))
    ensures Runs(s, Datagrams(n)) && Waiting(Run(s, Datagrams(n)), k, Filling(k, n))
    decreases n
  {
    if n > 0 {
      DatagramsFill(s, k, n - 1);
      NextDatagram(s, k, n - 1);
    }
  }

  /** One datagram more, after a run of them. */
  lemma NextDatagram(s: State, k: Key, n: nat)
    requires k.proto == Icmp && n + 1 < SLOTS
    requires Runs(s, Datagrams(n)) && Waiting(Run(s, Datagrams(n)), k, Filling(k, n))
    ensures Runs(s, Datagrams(n + 1)) && Waiting(Run(s, Datagrams(n + 1)), k, Filling(k, n + 1))
  {
    var last := UdpOut(Datagram(n + 1), n + 1);
    assert Datagrams(n + 1) == Datagrams(n) + [last];
    DatagramAdded(Run(s, Datagrams(n)), k, n);
    OneStep(Run(s, Datagrams(n)), last);
    RunJoin(s, Datagrams(n), [last]);
  }

  /** In a full table whose later slots are younger, the slot `o` is taken. */
  lemma {:induction false} OldestIs(t: seq<Entry>, o: nat, n: nat)
    requires o < n <= |t| && forall i :: 0 <= i < n ==> t[i].Used? && !InFlight(t[i])
    requires forall i :: 0 <= i < n && i != o ==> t[o].lastMs < t[i].lastMs < HALF_RANGE
    ensures Oldest(t, n) == o
    decreases n
  {
    if o < n - 1 {
      OldestIs(t, o, n - 1);
      assert !Before(t[n - 1].lastMs, t[o].lastMs);
    } else if n > 1 {
      var p := Oldest(t, n - 1);
      assert !InFlight(t[0]) && p >= 0;
      assert t[o].lastMs - t[p].lastMs < 0;
      assert Before(t[o].lastMs, t[p].lastMs);
    }
  }

  /** One datagram more evicts the waiting echo from the full table. */
  lemma EchoEvicted(s: State, k: Key)
    requires k.proto == Icmp && Waiting(s, k, Filling(k, SLOTS - 1))
    ensures Waiting(After(s, UdpOut(Datagram(SLOTS), SLOTS)), k, s.table[0 := NewEntry(Datagram(SLOTS), SLOTS)])
    ensures TakesQueued(s, UdpOut(Datagram(SLOTS), SLOTS))
  {
    var t := s.table;
    FirstUnique(t, Some(Datagram(SLOTS)), SLOTS);
    FirstUnique(t, None, SLOTS);
    OldestIs(t, 0, SLOTS);
  }

  /** The same request again finds no entry and is queued again. */
  lemma EchoQueuedAgain(s: State, k: Key)
    requires k.proto == Icmp && Waiting(s, k, Filling(k, SLOTS - 1)[0 := NewEntry(Datagram(SLOTS), SLOTS)])
    ensures After(s, IcmpOut(k, SLOTS + 1)).icmpQueue == [k, k]
  {
    var t := s.table;
    FirstUnique(t, Some(k), SLOTS);
    FirstUnique(t, None, SLOTS);
    OldestIs(t, 1, SLOTS);
  }

  /** 32 new conversations turn the waiting echo out. */
  lemma DatagramsEvict(s: State, k: Key)
    requires k.proto == Icmp && Waiting(s, k, Filling(k, 0))
    ensures Runs(s, Datagrams(SLOTS))
    ensures Waiting(Run(s, Datagrams(SLOTS)), k, Filling(k, SLOTS - 1)[0 := NewEntry(Datagram(SLOTS), SLOTS)])
  {
    var last := UdpOut(Datagram(SLOTS), SLOTS);
    DatagramsFill(s, k, SLOTS - 1);
    var full := Run(s, Datagrams(SLOTS - 1));
    EchoEvicted(full, k);
    OneStep(full, last);
    RunJoin(s, Datagrams(SLOTS - 1), [last]);
    assert Datagrams(SLOTS) == Datagrams(SLOTS - 1) + [last];
  }

  /** An echo, 32 new conversations, and the same echo again before the queue is drained: it is queued twice. */
  lemma EvictionDoubleSchedules(k: Key)
    requires k.proto == Icmp
    ensures var steps := [IcmpOut(k, 0)] + (Datagrams(32) + [IcmpOut(k, 33)]);
            Runs(Initial(), steps) && Run(Initial(), steps).icmpQueue == [k, k]
  {
    var first, again := IcmpOut(k, 0), IcmpOut(k, SLOTS + 1);
    var s := After(Initial(), first);
    EchoEntered(k);
    OneStep(Initial(), first);
    DatagramsEvict(s, k);
    EchoQueuedAgain(Run(s, Datagrams(SLOTS)), k);
    OneStep(Run(s, Datagrams(SLOTS)), again);
    RunJoin(s, Datagrams(SLOTS), [again]);
    RunJoin(Initial(), [first], Datagrams(SLOTS) + [again]);
  }

  lemma EchoEntered(k: Key)
    requires k.proto == Icmp
    ensures Waiting(After(Initial(), IcmpOut(k, 0)), k, Filling(k, 0))
  {
    FirstUnique(Initial().table, Some(k), SLOTS);
    FirstUnique(Initial().table, None, 0);
    assert Initial().table[0 := EchoEntry(k)] == Filling(k, 0);
  }
}
