/**
 A guest's data on one TCP conversation. Its segments enter a queue shared with the
 other conversations. Each one with data that is taken out is acknowledged, and so is
 the guest whenever data comes from the host, both with the number that follows the
 segment that came in last.
 */
module TcpAcknowledge {
  import opened Words
  import TcpDelivery
  import NatTable

  datatype Item = Mine(bytes: seq<byte>) | Others

  datatype State = State(next: dword, queue: seq<Item>)

  /** A drain handles one item: whether the connection is up then, and whether the library accepts the data. */
  datatype Step =
    | FromGuest(number: dword, bytes: seq<byte>)
    | FromOthers
    | FromHost
    | Drain(connected: bool, written: bool)

  function Clipped(bytes: seq<byte>): seq<byte> {
    bytes[..Min(|bytes|, TcpDelivery.PAYLOAD_MAX)]
  }

  predicate Full(s: State) {
    |s.queue| >= NatTable.QUEUE
  }

  /** The number moves past a segment whether or not the queue takes it. */
  function After(s: State, a: Step): State {
    match a
    case FromGuest(number, bytes) =>
      State(TcpDelivery.Advanced(number, |Clipped(bytes)|),
            if Full(s) then s.queue else s.queue + [Mine(Clipped(bytes))])
    case FromOthers => if Full(s) then s else s.(queue := s.queue + [Others])
    case FromHost => s
    case Drain(_, _) => if s.queue == [] then s else s.(queue := s.queue[1..])
  }

  /** The item taken out carries data of this conversation. */
  predicate TakesData(s: State, a: Step) {
    a.Drain? && s.queue != [] && s.queue[0].Mine? && s.queue[0].bytes != []
  }

  function Acknowledged(s: State, a: Step): Option<dword> {
    if a.FromHost? || (TakesData(s, a) && a.connected) then Some(s.next) else None
  }

  /** What the library takes for the remote host. */
  function WrittenBy(s: State, a: Step): seq<byte> {
    if TakesData(s, a) && a.connected && a.written then s.queue[0].bytes else []
  }

  function Data(item: Item): seq<byte> {
    if item.Mine? then item.bytes else []
  }

  function Pending(queue: seq<Item>): seq<byte> {
    if queue == [] then [] else Data(queue[0]) + Pending(queue[1..])
  }

  lemma PendingRest(queue: seq<Item>, item: Item)
    requires queue != [] && Pending(queue[1..] + [item]) == Pending(queue[1..]) + Data(item)
    ensures Pending(queue + [item]) == Pending(queue) + Data(item)
  {
    RestOfLonger(queue, item);
    Regroup(Data(queue[0]), Pending(queue[1..]), Data(item));
  }

  lemma RestOfLonger(queue: seq<Item>, item: Item)
    requires queue != []
    ensures (queue + [item])[0] == queue[0] && (queue + [item])[1..] == queue[1..] + [item]
  {
  }

  lemma Regroup(a: seq<byte>, b: seq<byte>, c: seq<byte>)
    ensures a + (b + c) == (a + b) + c
  {
  }

  lemma {:induction false} PendingAppend(queue: seq<Item>, item: Item)
    ensures Pending(queue + [item]) == Pending(queue) + Data(item)
  {
    if queue == [] {
      assert queue + [item] == [item] && [item][1..] == [];
    } else {
      PendingAppend(queue[1..], item);
      PendingRest(queue, item);
    }
  }

  // ----- runs of a guest that sends in order -----

  /** What the guest has sent before step `n`. */
  function Stream(steps: seq<Step>, n: nat): seq<byte>
    requires n <= |steps|
  {
    if n == 0 then [] else Stream(steps, n - 1) + if steps[n - 1].FromGuest? then steps[n - 1].bytes else []
  }

  function Sent(steps: seq<Step>, n: nat): nat
    requires n <= |steps|
  {
    |Stream(steps, n)|
  }

  /** How far into the stream the last segment reached, as far as it was kept. */
  function Reached(steps: seq<Step>, n: nat): nat
    requires n <= |steps|
  {
    if n == 0 then 0
    else if steps[n - 1].FromGuest? then Sent(steps, n - 1) + |Clipped(steps[n - 1].bytes)|
    else Reached(steps, n - 1)
  }

  /** From an established conversation with no data queued, every segment follows the one before. */
  ghost predicate InOrder(base: dword, states: seq<State>, steps: seq<Step>) {
    && |states| == |steps| + 1 && states[0].next == base && Pending(states[0].queue) == []
    && forall n :: 0 <= n < |steps| ==> Follows(base, states, steps, n)
  }

  ghost predicate Follows(base: dword, states: seq<State>, steps: seq<Step>, n: nat)
    requires n < |steps| < |states|
  {
    && states[n + 1] == After(states[n], steps[n])
    && (steps[n].FromGuest? ==> steps[n].number == TcpDelivery.Advanced(base, Sent(steps, n)))
  }

  /** The number an acknowledgment would carry stands for the position reached. */
  lemma {:induction false} NextIsReached(base: dword, states: seq<State>, steps: seq<Step>, n: nat)
    requires InOrder(base, states, steps) && n <= |steps|
    ensures states[n].next == TcpDelivery.Advanced(base, Reached(steps, n))
    decreases n
  {
    if n > 0 {
      NextIsReached(base, states, steps, n - 1);
      assert Follows(base, states, steps, n - 1);
      if steps[n - 1].FromGuest? {
        TcpDelivery.AdvancedTwice(base, Sent(steps, n - 1), |Clipped(steps[n - 1].bytes)|);
      }
    }
  }

  lemma {:induction false} SentGrows(steps: seq<Step>, i: nat, n: nat)
    requires i <= n <= |steps|
    ensures Sent(steps, i) <= Sent(steps, n)
    decreases n
  {
    if i < n {
      SentGrows(steps, i, n - 1);
    }
  }

  lemma {:induction false} ReachedAtMostSent(steps: seq<Step>, n: nat)
    requires n <= |steps|
    ensures Reached(steps, n) <= Sent(steps, n)
    decreases n
  {
    if n > 0 {
      ReachedAtMostSent(steps, n - 1);
    }
  }

  /** The guest sent another segment after step `i` and before step `n`. */
  ghost predicate SentAgain(steps: seq<Step>, i: nat, n: nat) {
    exists j :: i < j < n <= |steps| && steps[j].FromGuest?
  }

  lemma {:induction false} ReachedPast(steps: seq<Step>, i: nat, n: nat)
    requires i < n <= |steps| && SentAgain(steps, i, n)
    ensures Reached(steps, n) >= Sent(steps, i + 1)
    decreases n
  {
    if steps[n - 1].FromGuest? {
      SentGrows(steps, i + 1, n - 1);
    } else {
      ReachedPast(steps, i, n - 1);
    }
  }

  lemma {:induction false} ReachedLast(steps: seq<Step>, i: nat, n: nat)
    requires i < n <= |steps| && steps[i].FromGuest? && !SentAgain(steps, i, n)
    ensures Reached(steps, n) == Sent(steps, i) + |Clipped(steps[i].bytes)|
    decreases n
  {
    if i + 1 < n {
      assert !SentAgain(steps, i, n - 1);
      ReachedLast(steps, i, n - 1);
    }
  }

  /** The segment that carries a byte of the stream. */
  lemma {:induction false} CarriedBy(steps: seq<Step>, n: nat, q: nat) returns (i: nat)
    requires n <= |steps| && q < Sent(steps, n)
    ensures i < n && steps[i].FromGuest? && Sent(steps, i) <= q < Sent(steps, i + 1)
    decreases n
  {
    if q < Sent(steps, n - 1) {
      i := CarriedBy(steps, n - 1, q);
    } else {
      i := n - 1;
    }
  }

  ghost predicate QueuedBy(states: seq<State>, steps: seq<Step>, i: nat, q: nat) {
    && i < |steps| < |states| && steps[i].FromGuest? && !Full(states[i])
    && Sent(steps, i) <= q < Sent(steps, i) + |Clipped(steps[i].bytes)|
  }

  /** Every byte that an acknowledgment at step `n` would cover entered the queue. */
  ghost predicate AllQueued(states: seq<State>, steps: seq<Step>, n: nat)
    requires n <= |steps|
  {
    forall q: nat :: q < Reached(steps, n) ==> WasQueued(states, steps, n, q)
  }

  ghost predicate WasQueued(states: seq<State>, steps: seq<Step>, n: nat, q: nat) {
    exists i: nat :: i < n && QueuedBy(states, steps, i, q)
  }

  /** Segment `i` had data that was refused, or cut off and followed by more. */
  ghost predicate LostBefore(states: seq<State>, steps: seq<Step>, i: nat, n: nat)
    requires n <= |steps| < |states|
  {
    && i < n && steps[i].FromGuest? && steps[i].bytes != []
    && (Full(states[i]) || (|steps[i].bytes| > TcpDelivery.PAYLOAD_MAX && SentAgain(steps, i, n)))
  }

  lemma QueuedExactly(states: seq<State>, steps: seq<Step>, n: nat)
    requires n <= |steps| < |states|
    ensures AllQueued(states, steps, n) <==> forall i: nat :: !LostBefore(states, steps, i, n)
  {
    if i: nat :| LostBefore(states, steps, i, n) {
      LostIsNotQueued(states, steps, i, n);
    }
    if q: nat :| q < Reached(steps, n) && !WasQueued(states, steps, n, q) {
      ReachedAtMostSent(steps, n);
      var i := CarriedBy(steps, n, q);
      if !SentAgain(steps, i, n) {
        ReachedLast(steps, i, n);
      }
      assert !QueuedBy(states, steps, i, q);
      assert LostBefore(states, steps, i, n);
    }
  }

  lemma LostIsNotQueued(states: seq<State>, steps: seq<Step>, i: nat, n: nat)
    requires n <= |steps| < |states| && LostBefore(states, steps, i, n)
    ensures !AllQueued(states, steps, n)
  {
    var q := Sent(steps, i) + if Full(states[i]) then 0 else TcpDelivery.PAYLOAD_MAX;
    if SentAgain(steps, i, n) {
      ReachedPast(steps, i, n);
    } else {
      ReachedLast(steps, i, n);
    }
    assert q < Reached(steps, n);
    if k: nat :| k < n && QueuedBy(states, steps, k, q) {
      OneCarrier(steps, i, k, n, q);
    }
    assert !WasQueued(states, steps, n, q);
  }

  lemma OneCarrier(steps: seq<Step>, i: nat, k: nat, n: nat, q: nat)
    requires i < n <= |steps| && k < n && Sent(steps, i) <= q < Sent(steps, i + 1)
    requires Sent(steps, k) <= q < Sent(steps, k + 1)
    ensures i == k
  {
    if i < k {
      SentGrows(steps, i + 1, k);
    } else if k < i {
      SentGrows(steps, k + 1, i);
    }
  }

  ghost predicate Acknowledges(states: seq<State>, steps: seq<Step>, n: nat) {
    n < |steps| < |states| && Acknowledged(states[n], steps[n]).Some?
  }

  /**
   In a run of a guest that sends in order every acknowledgment covers only data that
   was queued, if and only if none follows a segment with data that the full queue
   refused, or one that was cut to 512 bytes and had another after it.
   */
  lemma AcknowledgedIsQueued(base: dword, states: seq<State>, steps: seq<Step>)
    requires InOrder(base, states, steps)
    ensures forall n: nat :: Acknowledges(states, steps, n) ==>
              Acknowledged(states[n], steps[n]) == Some(TcpDelivery.Advanced(base, Reached(steps, n)))
    ensures (forall n: nat :: Acknowledges(states, steps, n) ==> AllQueued(states, steps, n)) <==>
            (forall i: nat, n: nat :: Acknowledges(states, steps, n) ==> !LostBefore(states, steps, i, n))
  {
    forall n: nat | Acknowledges(states, steps, n)
      ensures states[n].next == TcpDelivery.Advanced(base, Reached(steps, n))
      ensures AllQueued(states, steps, n) <==> forall i: nat :: !LostBefore(states, steps, i, n)
    {
      NextIsReached(base, states, steps, n);
      QueuedExactly(states, steps, n);
    }
  }

  // ----- a run that acknowledges what was refused -----

  /** A byte is queued, the other conversations fill the queue, a second byte is refused, and the first is drained. */
  function Overrun(base: dword): seq<Step> {
    [FromGuest(base, [0])] + Repeated(FromOthers, 7)
    + [FromGuest(TcpDelivery.Advanced(base, 1), [0]), Drain(true, true)]
  }

  function Filled(others: nat): seq<Item> {
    [Mine([0])] + Repeated(Others, others)
  }

  function OverrunState(base: dword, n: nat): State {
    if n == 0 then State(base, [])
    else if n <= 8 then State(TcpDelivery.Advanced(base, 1), Filled(n - 1))
    else State(TcpDelivery.Advanced(base, 2), if n == 9 then Filled(7) else Repeated(Others, 7))
  }

  /** The second byte is acknowledged, and is nowhere. */
  lemma RefusedIsAcknowledged(base: dword) returns (states: seq<State>)
    ensures InOrder(base, states, Overrun(base)) && Acknowledges(states, Overrun(base), 9)
    ensures Acknowledged(states[9], Overrun(base)[9]) == Some(TcpDelivery.Advanced(base, 2))
    ensures !WasQueued(states, Overrun(base), 9, 1)
  {
    var steps := Overrun(base);
    states := seq<State>(11, n requires 0 <= n => OverrunState(base, n));
    forall n | 0 <= n < 10 ensures Follows(base, states, steps, n) {
      OverrunSent(base, n);
      OverrunFollows(base, n);
    }
    forall i: nat ensures !QueuedBy(states, steps, i, 1) {
      if i < 10 {
        OverrunSent(base, i);
      }
    }
  }

  lemma {:induction false} OverrunSent(base: dword, n: nat)
    requires n <= 10
    ensures Sent(Overrun(base), n) == if n == 0 then 0 else if n <= 8 then 1 else 2
    decreases n
  {
    if n > 0 {
      OverrunSent(base, n - 1);
    }
  }

  lemma OverrunFollows(base: dword, n: nat)
    requires n < 10
    ensures OverrunState(base, n + 1) == After(OverrunState(base, n), Overrun(base)[n])
  {
    TcpDelivery.AdvancedTwice(base, 1, 1);
    assert 1 <= n <= 7 ==> Filled(n - 1) + [Others] == Filled(n);
    assert n == 0 ==> Clipped([0]) == [0] && [] + [Mine([0])] == Filled(0);
    assert Filled(7)[1..] == Repeated(Others, 7);
  }

  // ----- what reaches the remote host -----

  /** What the library took in the first `n` steps. */
  ghost function Written(states: seq<State>, steps: seq<Step>, n: nat): seq<byte>
    requires n <= |steps| < |states|
    decreases n
  {
    if n == 0 then [] else Written(states, steps, n - 1) + WrittenBy(states[n - 1], steps[n - 1])
  }

  /** The step leaves data behind: refused, cut off, or taken out and not written. */
  predicate Loses(s: State, a: Step) {
    match a
    case FromGuest(_, bytes) => bytes != [] && (Full(s) || |bytes| > TcpDelivery.PAYLOAD_MAX)
    case FromOthers => false
    case FromHost => false
    case Drain(connected, written) => TakesData(s, a) && !(connected && written)
  }

  ghost predicate NoneLost(states: seq<State>, steps: seq<Step>, n: nat)
    requires n <= |steps| <= |states|
  {
    forall i :: 0 <= i < n ==> !Loses(states[i], steps[i])
  }

  lemma StepKeepsData(s: State, a: Step, written: seq<byte>)
    ensures var kept, now := written + Pending(s.queue), written + WrittenBy(s, a) + Pending(After(s, a).queue);
            var sent := if a.FromGuest? then a.bytes else [];
            if Loses(s, a) then |now| < |kept| + |sent| else now == kept + sent
  {
    match a
    case FromGuest(_, bytes) => PendingAppend(s.queue, Mine(Clipped(bytes)));
    case FromOthers => PendingAppend(s.queue, Others);
    case _ =>
  }

  lemma {:induction false} NothingAppears(base: dword, states: seq<State>, steps: seq<Step>, n: nat)
    requires InOrder(base, states, steps) && n <= |steps|
    ensures var kept := Written(states, steps, n) + Pending(states[n].queue);
            if NoneLost(states, steps, n) then kept == Stream(steps, n) else |kept| < Sent(steps, n)
    decreases n
  {
    if n > 0 {
      NothingAppears(base, states, steps, n - 1);
      assert Follows(base, states, steps, n - 1);
      StepKeepsData(states[n - 1], steps[n - 1], Written(states, steps, n - 1));
      assert NoneLost(states, steps, n) <==> NoneLost(states, steps, n - 1) && !Loses(states[n - 1], steps[n - 1]);
    }
  }

  /** What was written and what waits is the guest's stream, byte for byte, if and only if no step lost data. */
  lemma StreamArrives(base: dword, states: seq<State>, steps: seq<Step>, n: nat)
    requires InOrder(base, states, steps) && n <= |steps|
    ensures Written(states, steps, n) + Pending(states[n].queue) == Stream(steps, n) <==> NoneLost(states, steps, n)
  {
    NothingAppears(base, states, steps, n);
  }

  // ----- the device -----

  class Outbound {
    var next: dword
    var queue: seq<Item>

    ghost function Now(): State
      reads this
    {
      State(next, queue)
    }

    constructor (base: dword)
      ensures Now() == State(base, [])
    {
      next, queue := base, [];
    }

    method TcpOut(number: dword, bytes: seq<byte>) returns (accepted: bool)
      modifies this
      ensures Now() == After(old(Now()), FromGuest(number, bytes))
      ensures accepted <==> !Full(old(Now()))
    {
      var length := Min(|bytes|, TcpDelivery.PAYLOAD_MAX);
      next := (number + length) % DWORD_MOD;
      if |queue| >= NatTable.QUEUE {
        return false;
      }
      queue := queue + [Mine(bytes[..length])];
      return true;
    }

    method OtherOut() returns (accepted: bool)
      modifies this
      ensures Now() == After(old(Now()), FromOthers)
      ensures accepted <==> !Full(old(Now()))
    {
      if |queue| >= NatTable.QUEUE {
        return false;
      }
      queue := queue + [Others];
      return true;
    }

    /** The number in a segment that carries the host's data. */
    method ReceivedFromHost() returns (ack: dword)
      ensures Some(ack) == Acknowledged(Now(), FromHost) && After(Now(), FromHost) == Now()
    {
      ack := next;
    }

    /** Handles one item: the bytes handed over, and the acknowledgment sent to the guest. */
    method DrainItem(connected: bool, written: bool) returns (out: seq<byte>, ack: Option<dword>)
      modifies this
      ensures Now() == After(old(Now()), Drain(connected, written))
      ensures out == WrittenBy(old(Now()), Drain(connected, written))
      ensures ack == Acknowledged(old(Now()), Drain(connected, written))
    {
      out, ack := [], None;
      if queue == [] {
        return;
      }
      var item := queue[0];
      queue := queue[1..];
      if !connected || item.Others? {
        return;
      }
      if item.bytes != [] {
        out := if written then item.bytes else [];
        ack := Some(next);
      }
    }
  }
}
