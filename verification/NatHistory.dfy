/**
 Whole runs of the address translation table, seen through its echo queue: exactly
 when an echo waits there twice, and what must have happened before.
 */
module NatHistory {
  import opened Words
  import opened NatTable
  import opened NatScheduling

  ghost predicate History(states: seq<State>, steps: seq<Step>) {
    && |states| == |steps| + 1 && states[0] == Initial()
    && forall n :: 0 <= n < |steps| ==> Follows(states[n], steps[n], states[n + 1])
  }

  ghost predicate Follows(s: State, a: Step, t: State) {
    Enabled(s, a) && t == After(s, a)
  }

  lemma {:induction false} HistoryKeepsInv(states: seq<State>, steps: seq<Step>, n: nat)
    requires History(states, steps) && n < |states|
    ensures Inv(states[n])
    decreases n
  {
    if n == 0 {
      InitialInv();
    } else {
      HistoryKeepsInv(states, steps, n - 1);
      assert Follows(states[n - 1], steps[n - 1], states[n]);
      StepKeepsInv(states[n - 1], steps[n - 1]);
    }
  }

  // ----- the queue is a log -----

  /** The step puts a request in the queue: its entry is neither waiting nor in flight, and there is room. */
  predicate Queues(s: State, a: Step) {
    a.IcmpOut? &&
    var (t, i) := Entered(s.table, a.key, a.now);
    i >= 0 && t[i].ping.None? && !t[i].queued && |s.icmpQueue| < QUEUE
  }

  predicate Pops(s: State, a: Step) {
    a.DrainIcmp? && s.active.None? && s.icmpQueue != []
  }

  lemma QueueStep(s: State, a: Step)
    ensures After(s, a).icmpQueue ==
            if Queues(s, a) then s.icmpQueue + [a.key]
            else if Pops(s, a) then s.icmpQueue[1..]
            else s.icmpQueue
  {
  }

  /** Every request queued by the first `n` steps, in order. */
  ghost function Log(states: seq<State>, steps: seq<Step>, n: nat): seq<Key>
    requires n <= |steps| < |states|
    decreases n
  {
    if n == 0 then []
    else
      Log(states, steps, n - 1) + if Queues(states[n - 1], steps[n - 1]) then [steps[n - 1].key] else []
  }

  /** How many requests the first `n` steps took from the queue. */
  ghost function Popped(states: seq<State>, steps: seq<Step>, n: nat): nat
    requires n <= |steps| < |states|
    decreases n
  {
    if n == 0 then 0
    else Popped(states, steps, n - 1) + if Pops(states[n - 1], steps[n - 1]) then 1 else 0
  }

  lemma LoggedStep(log: seq<Key>, popped: nat, s: State, a: Step)
    requires popped <= |log| && s.icmpQueue == log[popped..]
    ensures var logged, taken := log + (if Queues(s, a) then [a.key] else []), popped + if Pops(s, a) then 1 else 0;
            taken <= |logged| && After(s, a).icmpQueue == logged[taken..]
  {
    QueueStep(s, a);
  }

  lemma {:induction false} QueueIsLog(states: seq<State>, steps: seq<Step>, n: nat)
    requires History(states, steps) && n <= |steps|
    ensures Popped(states, steps, n) <= |Log(states, steps, n)|
    ensures states[n].icmpQueue == Log(states, steps, n)[Popped(states, steps, n)..]
    decreases n
  {
    if n > 0 {
      QueueIsLog(states, steps, n - 1);
      LoggedStep(Log(states, steps, n - 1), Popped(states, steps, n - 1), states[n - 1], steps[n - 1]);
      assert Follows(states[n - 1], steps[n - 1], states[n]);
    }
  }

  lemma {:induction false} LogGrows(states: seq<State>, steps: seq<Step>, i: nat, n: nat)
    requires i <= n <= |steps| < |states|
    ensures Log(states, steps, i) <= Log(states, steps, n) && Popped(states, steps, i) <= Popped(states, steps, n)
    decreases n - i
  {
    if i < n {
      LogGrows(states, steps, i, n - 1);
    }
  }

  /** Step `i` queued the key. */
  ghost predicate QueuedAt(states: seq<State>, steps: seq<Step>, i: nat, k: Key)
    requires |steps| < |states|
  {
    i < |steps| && Queues(states[i], steps[i]) && steps[i].key == k
  }

  /** The request that step `i` queued has not been taken from the queue before step `n`. */
  ghost predicate Waits(states: seq<State>, steps: seq<Step>, i: nat, n: nat)
    requires |steps| < |states|
  {
    i < n <= |steps| && Popped(states, steps, n) <= |Log(states, steps, i)|
  }

  lemma QueuedEntry(states: seq<State>, steps: seq<Step>, i: nat, n: nat, k: Key)
    requires i < n <= |steps| < |states| && QueuedAt(states, steps, i, k)
    ensures |Log(states, steps, i)| < |Log(states, steps, n)|
    ensures Log(states, steps, n)[|Log(states, steps, i)|] == k
  {
    LogGrows(states, steps, i + 1, n);
  }

  /** Every entry of the log was queued by some step. */
  lemma {:induction false} WhichStep(states: seq<State>, steps: seq<Step>, n: nat, o: nat) returns (i: nat)
    requires n <= |steps| < |states| && o < |Log(states, steps, n)|
    ensures i < n && |Log(states, steps, i)| == o && QueuedAt(states, steps, i, Log(states, steps, n)[o])
    decreases n
  {
    if o < |Log(states, steps, n - 1)| {
      i := WhichStep(states, steps, n - 1, o);
    } else {
      i := n - 1;
    }
  }

  ghost predicate Twice(q: seq<Key>, k: Key) {
    exists p, r :: 0 <= p < r < |q| && q[p] == k && q[r] == k
  }

  ghost predicate TwoQueued(states: seq<State>, steps: seq<Step>, i: nat, j: nat, k: Key)
    requires |steps| < |states|
  {
    i < j && QueuedAt(states, steps, i, k) && QueuedAt(states, steps, j, k)
  }

  /** An echo is in the queue twice exactly when it was queued twice and the earlier request is still undrained. */
  lemma TwiceExactly(states: seq<State>, steps: seq<Step>, n: nat, k: Key)
    requires History(states, steps) && n <= |steps|
    ensures Twice(states[n].icmpQueue, k) <==>
            exists i: nat, j: nat :: j < n && TwoQueued(states, steps, i, j, k) && Waits(states, steps, i, n)
  {
    if Twice(states[n].icmpQueue, k) {
      var p, r :| 0 <= p < r < |states[n].icmpQueue| && states[n].icmpQueue[p] == k && states[n].icmpQueue[r] == k;
      var i, j := BothQueued(states, steps, n, k, p, r);
    }
    if i: nat, j: nat :| j < n && TwoQueued(states, steps, i, j, k) && Waits(states, steps, i, n) {
      BothWait(states, steps, n, k, i, j);
    }
  }

  lemma BothQueued(states: seq<State>, steps: seq<Step>, n: nat, k: Key, p: nat, r: nat) returns (i: nat, j: nat)
    requires History(states, steps) && n <= |steps|
    requires p < r < |states[n].icmpQueue| && states[n].icmpQueue[p] == k && states[n].icmpQueue[r] == k
    ensures j < n && TwoQueued(states, steps, i, j, k) && Waits(states, steps, i, n)
  {
    QueueIsLog(states, steps, n);
    var popped := Popped(states, steps, n);
    i := WhichStep(states, steps, n, popped + p);
    j := WhichStep(states, steps, n, popped + r);
    if j <= i {
      LogGrows(states, steps, j, i);
    }
  }

  lemma BothWait(states: seq<State>, steps: seq<Step>, n: nat, k: Key, i: nat, j: nat)
    requires History(states, steps) && j < n <= |steps|
    requires TwoQueued(states, steps, i, j, k) && Waits(states, steps, i, n)
    ensures Twice(states[n].icmpQueue, k)
  {
    QueueIsLog(states, steps, n);
    QueuedEntry(states, steps, i, n, k);
    QueuedEntry(states, steps, j, n, k);
    QueuedEntry(states, steps, i, j, k);
    TwiceAfter(Log(states, steps, n), Popped(states, steps, n), |Log(states, steps, i)|, |Log(states, steps, j)|, k);
  }

  lemma TwiceAfter(log: seq<Key>, popped: nat, p: nat, r: nat, k: Key)
    requires popped <= p < r < |log| && log[p] == k && log[r] == k
    ensures Twice(log[popped..], k)
  {
    var q := log[popped..];
    assert q[p - popped] == k && q[r - popped] == k;
  }

  // ----- why -----

  predicate EvictsEcho(t: seq<Entry>, entering: Key, k: Key) {
    EvictsQueued(t, entering) && t[Allocated(t)].key == k
  }

  /** The step takes the slot of this echo while its entry says that it waits. */
  ghost predicate TakesSlotOf(s: State, a: Step, k: Key) {
    match a
    case IcmpOut(entering, _) => EvictsEcho(s.table, entering, k)
    case UdpOut(entering, _) => EvictsEcho(s.table, entering, k)
    case TcpOut(item, _) => !item.rst && item.syn && !item.ack && EvictsEcho(s.table, item.key, k)
    case Expire(now) => exists i :: 0 <= i < |s.table| && IdleInQueue(s.table[i], now) && s.table[i].key == k
    case _ => false
  }

  /** A mark is lost by a change of its own slot only. */
  lemma LostAt(t: seq<Entry>, i: nat, e: Entry, k: Key)
    requires i < |t| && Unique(t) && Unique(t[i := e]) && Marked(t, k) && !Marked(t[i := e], k)
    ensures t[i].Used? && t[i].key == k && t[i].queued && !(e.Used? && e.key == k && e.queued)
  {
    if t[i].Used? && t[i].key == k {
      Located(t, i);
      if e.Used? && e.key == k && e.queued {
        MarksKept(t, i, e, k);
      }
    } else {
      MarksKept(t, i, e, k);
    }
  }

  lemma EnteredUnmarks(s: State, entering: Key, now: dword, k: Key)
    requires Inv(s) && Marked(s.table, k) && !Marked(Entered(s.table, entering, now).0, k)
    ensures EvictsEcho(s.table, entering, k)
  {
    EnteredKeepsInv(s, entering, now);
    var (t, i) := Entered(s.table, entering, now);
    LostAt(s.table, i, t[i], k);
  }

  lemma IcmpOutUnmarks(s: State, entering: Key, now: dword, k: Key)
    requires Inv(s) && entering.proto == Icmp && Marked(s.table, k)
    requires !Marked(AfterIcmpOut(s, entering, now).0.table, k)
    ensures EvictsEcho(s.table, entering, k)
  {
    EnteredKeepsInv(s, entering, now);
    IcmpOutKeepsInv(s, entering, now);
    var (t, i) := Entered(s.table, entering, now);
    var after := AfterIcmpOut(s, entering, now).0.table;
    if Marked(t, k) {
      LostAt(t, i, after[i], k);
    }
    EnteredUnmarks(s, entering, now, k);
  }

  lemma TcpOutUnmarks(s: State, item: TcpItem, now: dword, k: Key)
    requires Inv(s) && item.key.proto == Tcp && Marked(s.table, k)
    requires !Marked(AfterTcpOut(s, item, now).0.table, k)
    ensures TakesSlotOf(s, TcpOut(item, now), k)
  {
    TcpOutKeepsInv(s, item, now);
    var f := First(s.table, Some(item.key));
    if item.rst {
      assert Consistent(s.table[f], f, s.active, s.icmpQueue);
      LostAt(s.table, f, Free, k);
    } else {
      EnteredUnmarks(s, item.key, now, k);
    }
  }

  lemma ExpireUnmarks(s: State, now: dword, k: Key)
    requires Inv(s) && Marked(s.table, k) && !Marked(AfterExpire(s, now).table, k)
    ensures TakesSlotOf(s, Expire(now), k)
  {
    ExpireKeepsInv(s, now);
    var f, t := First(s.table, Some(k)), AfterExpire(s, now).table;
    if t[f].Used? {
      Located(t, f);
    }
  }

  lemma DrainsUnmark(s: State, a: Step, k: Key)
    requires Inv(s) && Enabled(s, a) && Marked(s.table, k) && !Marked(After(s, a).table, k)
    requires a.DrainIcmp? || a.DrainUdp? || a.DrainTcp?
    ensures Pops(s, a) && s.icmpQueue[0] == k
  {
    StepKeepsInv(s, a);
    var t := After(s, a).table;
    if a.DrainIcmp? {
      var i := First(s.table, Some(s.icmpQueue[0]));
      assert t == s.table[i := t[i]];
      LostAt(s.table, i, t[i], k);
    } else {
      var i := if a.DrainUdp? then First(s.table, Some(s.udpQueue[0])) else First(s.table, Some(s.tcpQueue[0].key));
      assert Consistent(s.table[i], i, s.active, s.icmpQueue) && t == s.table[i := t[i]];
      LostAt(s.table, i, t[i], k);
    }
  }

  /** Callbacks and received data never unmark a waiting echo. */
  lemma CallbacksKeepMarks(s: State, a: Step, k: Key)
    requires Inv(s) && Enabled(s, a) && Marked(s.table, k)
    requires a.PingSuccess? || a.PingEnd? || a.Received? || a.ConnectionLost?
    ensures Marked(After(s, a).table, k)
  {
    StepKeepsInv(s, a);
    var i := if a.PingSuccess? || a.PingEnd? then a.session.slot else a.slot;
    var t := After(s, a).table;
    assert Consistent(s.table[i], i, s.active, s.icmpQueue) && t == s.table[i := t[i]];
    if !Marked(t, k) {
      LostAt(s.table, i, t[i], k);
    }
  }

  /** A waiting echo's entry stops saying so when a step takes its slot, or takes a request for it from the queue. */
  lemma UnmarkedBy(s: State, a: Step, k: Key)
    requires Inv(s) && Enabled(s, a) && Marked(s.table, k) && !Marked(After(s, a).table, k)
    ensures TakesSlotOf(s, a, k) || (Pops(s, a) && s.icmpQueue[0] == k)
  {
    match a
    case IcmpOut(entering, now) => IcmpOutUnmarks(s, entering, now, k);
    case UdpOut(entering, now) => EnteredUnmarks(s, entering, now, k);
    case TcpOut(item, now) => TcpOutUnmarks(s, item, now, k);
    case Expire(now) => ExpireUnmarks(s, now, k);
    case DrainIcmp(_) => DrainsUnmark(s, a, k);
    case DrainUdp(_) => DrainsUnmark(s, a, k);
    case DrainTcp(_) => DrainsUnmark(s, a, k);
    case _ => CallbacksKeepMarks(s, a, k);
  }

  lemma {:induction false} MarkLost(states: seq<State>, k: Key, i: nat, j: nat) returns (m: nat)
    requires i < j < |states| && Marked(states[i].table, k) && !Marked(states[j].table, k)
    ensures i <= m < j && Marked(states[m].table, k) && !Marked(states[m + 1].table, k)
    decreases j - i
  {
    if Marked(states[j - 1].table, k) {
      m := j - 1;
    } else {
      m := MarkLost(states, k, i, j - 1);
    }
  }

  lemma QueuesMarks(s: State, a: Step)
    requires Inv(s) && Enabled(s, a) && Queues(s, a)
    ensures !Marked(s.table, a.key) && Marked(After(s, a).table, a.key)
  {
    EnteredKeepsInv(s, a.key, a.now);
    IcmpOutKeepsInv(s, a.key, a.now);
    var (t, i) := Entered(s.table, a.key, a.now);
    Located(t, i);
    Located(After(s, a).table, i);
    if First(s.table, Some(a.key)) < SLOTS {
      assert !s.table[i].queued;
    }
  }

  /** Two requests for the echo, its slot taken between them, and the first undrained when the second is queued. */
  ghost predicate QueuedOver(states: seq<State>, steps: seq<Step>, i: nat, m: nat, j: nat, k: Key)
    requires |steps| < |states|
  {
    && i < m < j && QueuedAt(states, steps, i, k) && QueuedAt(states, steps, j, k) && Waits(states, steps, i, j)
    && TakesSlotOf(states[m], steps[m], k)
  }

  /** Going back from two requests to the first time the echo was queued while it waited. */
  lemma {:induction false} FindLoss(states: seq<State>, steps: seq<Step>, i: nat, j: nat, k: Key)
    returns (first: nat, m: nat, second: nat)
    requires History(states, steps) && TwoQueued(states, steps, i, j, k) && Waits(states, steps, i, j)
    ensures second <= j && QueuedOver(states, steps, first, m, second, k)
    decreases j
  {
    HistoryKeepsInv(states, steps, i);
    HistoryKeepsInv(states, steps, j);
    assert Follows(states[i], steps[i], states[i + 1]) && Follows(states[j], steps[j], states[j + 1]);
    QueuesMarks(states[i], steps[i]);
    QueuesMarks(states[j], steps[j]);
    m := MarkLost(states, k, i + 1, j);
    HistoryKeepsInv(states, steps, m);
    assert Follows(states[m], steps[m], states[m + 1]);
    UnmarkedBy(states[m], steps[m], k);
    if TakesSlotOf(states[m], steps[m], k) {
      first, second := i, j;
    } else {
      var older := OlderRequest(states, steps, i, m, j, k);
      first, m, second := FindLoss(states, steps, older, i, k);
    }
  }

  lemma PoppedOne(states: seq<State>, steps: seq<Step>, m: nat, j: nat)
    requires m < j <= |steps| < |states| && Pops(states[m], steps[m])
    ensures Popped(states, steps, m) < Popped(states, steps, j)
  {
    LogGrows(states, steps, m + 1, j);
  }

  /** A request taken from the queue before the one of step `i` is an older one. */
  lemma OlderRequest(states: seq<State>, steps: seq<Step>, i: nat, m: nat, j: nat, k: Key) returns (older: nat)
    requires History(states, steps) && i < m < j <= |steps| && QueuedAt(states, steps, i, k)
    requires Waits(states, steps, i, j) && Pops(states[m], steps[m]) && states[m].icmpQueue[0] == k
    ensures TwoQueued(states, steps, older, i, k) && Waits(states, steps, older, i)
  {
    QueueIsLog(states, steps, m);
    PoppedOne(states, steps, m, j);
    LogGrows(states, steps, i, m);
    older := WhichStep(states, steps, i, Popped(states, steps, m));
  }

  /**
   In a run an echo is ever in the queue twice if and only if it was queued, a step
   took its slot, and it was queued again before the first request was drained.
   */
  lemma EverTwiceExactly(states: seq<State>, steps: seq<Step>, k: Key)
    requires History(states, steps)
    ensures (exists n :: 0 <= n < |states| && Twice(states[n].icmpQueue, k)) <==>
            exists i: nat, m: nat, j: nat :: j < |steps| && QueuedOver(states, steps, i, m, j, k)
  {
    if n: nat :| n < |states| && Twice(states[n].icmpQueue, k) {
      var i, m, j := TwiceHasCause(states, steps, n, k);
    }
    if i: nat, m: nat, j: nat :| j < |steps| && QueuedOver(states, steps, i, m, j, k) {
      assert TwoQueued(states, steps, i, j, k) && Waits(states, steps, i, j);
      CauseMakesTwice(states, steps, i, j, j + 1, k);
    }
  }

  lemma TwiceHasCause(states: seq<State>, steps: seq<Step>, n: nat, k: Key) returns (i: nat, m: nat, j: nat)
    requires History(states, steps) && n < |states| && Twice(states[n].icmpQueue, k)
    ensures j < |steps| && QueuedOver(states, steps, i, m, j, k)
  {
    var p, r :| 0 <= p < r < |states[n].icmpQueue| && states[n].icmpQueue[p] == k && states[n].icmpQueue[r] == k;
    i, j := BothQueued(states, steps, n, k, p, r);
    LogGrows(states, steps, j, n);
    i, m, j := FindLoss(states, steps, i, j, k);
  }

  lemma CauseMakesTwice(states: seq<State>, steps: seq<Step>, i: nat, j: nat, n: nat, k: Key)
    requires History(states, steps) && n == j + 1
    requires TwoQueued(states, steps, i, j, k) && Waits(states, steps, i, j)
    ensures n < |states| && Twice(states[n].icmpQueue, k)
  {
    StillWaits(states, steps, i, j, n, k);
    BothWait(states, steps, n, k, i, j);
  }

  /** Queueing takes nothing from the queue. */
  lemma StillWaits(states: seq<State>, steps: seq<Step>, i: nat, j: nat, n: nat, k: Key)
    requires |steps| < |states| && n == j + 1 && QueuedAt(states, steps, j, k) && Waits(states, steps, i, j)
    ensures Waits(states, steps, i, n)
  {
  }
}
