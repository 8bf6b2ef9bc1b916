/**
 The prioritised interrupt queue and its "any queued" wake flag. Device threads
 queue and withdraw requests under the queue lock at any moment; the step loop
 first takes the flag and only then, in a separate locked step, scans the queue.
 */
module Interrupts {
  import opened Words

  const LEVELS: nat := 8
  const TOP_PRIORITY := 7

  type Queues = q: seq<set<word>> | |q| == LEVELS witness Repeated({}, LEVELS)

  datatype Request = Request(level: nat, vector: word)

  predicate Valid(r: Request) {
    r.level < LEVELS
  }

  predicate AllEmpty(q: Queues) {
    forall l :: 0 <= l < LEVELS ==> q[l] == {}
  }

  predicate Deliverable(q: Queues, spl: nat) {
    exists l :: 0 <= l < LEVELS && l > spl && q[l] != {}
  }

  // ----- the request to deliver -----

  /** A nonempty set of vectors has a least one. */
  lemma LeastExists(s: set<word>, x: word) returns (v: word)
    requires x in s
    ensures v in s && forall w :: w in s ==> v <= w
    decreases x
  {
    if w :| w in s && w < x {
      v := LeastExists(s, w);
    } else {
      v := x;
    }
  }

  /** `r` is at the highest level with a request, that level is above `spl`, and no vector of it is lower. */
  ghost predicate Chosen(q: Queues, spl: nat, r: Request) {
    && r.level < LEVELS && r.level > spl && r.vector in q[r.level]
    && (forall w :: w in q[r.level] ==> r.vector <= w)
    && (forall l :: r.level < l < LEVELS ==> q[l] == {})
  }

  lemma ChosenUnique(q: Queues, spl: nat, r: Request, r': Request)
    requires Chosen(q, spl, r) && Chosen(q, spl, r')
    ensures r == r'
  {
  }

  function Added(q: Queues, r: Request): Queues
    requires Valid(r)
  {
    q[r.level := q[r.level] + {r.vector}]
  }

  function Removed(q: Queues, r: Request): Queues
    requires Valid(r)
  {
    q[r.level := q[r.level] - {r.vector}]
  }

  // ----- interleavings -----

  /**
   Where the processor is: between instructions, between taking the flag and
   scanning, or inside the unlocked queue reset with levels below `next` cleared.
   */
  datatype Phase = Running | Claimed | Clearing(next: nat)

  datatype State = State(queues: Queues, flag: bool, spl: nat, phase: Phase)

  datatype Step =
    | Queue(request: Request)      // a device thread, at any moment
    | Withdraw(request: Request)   // a device thread, at any moment
    | Claim                        // the step loop takes the flag
    | Scan                         // the step loop, or WAIT, scans under the lock
    | SetPriority(level: nat)      // SPL, RTI, a trap, or a move to the PSW
    | Raise                        // a stack-limit violation asks for a delayed trap
    | BeginReset
    | ClearLevel
    | EndReset

  ghost predicate Next(s: State, step: Step, t: State) {
    match step
    case Queue(r) =>
      Valid(r) && t == s.(queues := Added(s.queues, r), flag := true)
    case Withdraw(r) =>
      Valid(r) && t == s.(queues := Removed(s.queues, r))
    case Claim =>
      s.phase.Running? && s.flag && t == s.(flag := false, phase := Claimed)
    case Scan =>
      && !s.phase.Clearing? && t.phase.Running?
      && t.flag == (s.flag || !AllEmpty(s.queues))
      && if Deliverable(s.queues, s.spl)
         then exists r :: Chosen(s.queues, s.spl, r) && t.queues == Removed(s.queues, r) && t.spl == r.level
         else t.queues == s.queues && t.spl == s.spl
    case SetPriority(level) =>
      s.phase.Running? && t == s.(spl := level, flag := s.flag || level < s.spl)
    case Raise =>
      s.phase.Running? && t == s.(flag := true)
    case BeginReset =>
      s.phase.Running? && t == s.(phase := Clearing(0))
    case ClearLevel =>
      s.phase.Clearing? && s.phase.next < LEVELS &&
      t == s.(queues := s.queues[s.phase.next := {}], phase := Clearing(s.phase.next + 1))
    case EndReset =>
      s.phase.Clearing? && s.phase.next == LEVELS && t == s.(flag := false, phase := Running)
  }

  /** A queued request is always announced: the flag is up, or the scan is still to come. */
  ghost predicate Announced(s: State) {
    AllEmpty(s.queues) || s.flag || s.phase.Claimed?
  }

  /** Every step but the end of a reset keeps a queued request announced, arrivals inside a reset included. */
  lemma StepKeepsAnnounced(s: State, step: Step, t: State)
    requires Announced(s) && Next(s, step, t) && !step.EndReset?
    ensures Announced(t)
  {
    match step
    case Withdraw(r) =>
      if AllEmpty(s.queues) {
        assert forall l :: 0 <= l < LEVELS ==> t.queues[l] == {};
      }
    case ClearLevel =>
      if AllEmpty(s.queues) {
        assert forall l :: 0 <= l < LEVELS ==> t.queues[l] == {};
      }
    case _ =>
  }

  ghost predicate Run(states: seq<State>, steps: seq<Step>) {
    |states| == |steps| + 1 && forall i :: 0 <= i < |steps| ==> Next(states[i], steps[i], states[i + 1])
  }

  // ----- the unlocked reset -----

  /** One reset is in progress from state `k` to state `n`. */
  ghost predicate Resetting(states: seq<State>, k: nat, n: nat) {
    k <= n < |states| && forall m :: k <= m <= n ==> states[m].phase.Clearing?
  }

  /** Step `k` queued the request at a level the reset had passed, and up to state `n` no device took it back. */
  ghost predicate QueuedBehind(states: seq<State>, steps: seq<Step>, k: nat, n: nat, r: Request) {
    && k < n <= |steps| && Resetting(states, k, n)
    && steps[k] == Queue(r) && states[k].phase.next > r.level
    && forall m :: k < m < n ==> steps[m] != Withdraw(r)
  }

  ghost predicate LeftBehind(states: seq<State>, steps: seq<Step>, n: nat, r: Request) {
    exists k: nat :: QueuedBehind(states, steps, k, n, r)
  }

  ghost predicate Holds(s: State, r: Request) {
    Valid(r) && r.vector in s.queues[r.level]
  }

  /** The reset only moves up. */
  lemma {:induction false} ResetMovesUp(states: seq<State>, steps: seq<Step>, k: nat, n: nat)
    requires Run(states, steps) && Resetting(states, k, n)
    ensures states[k].phase.next <= states[n].phase.next
    decreases n - k
  {
    if k < n {
      ResetMovesUp(states, steps, k, n - 1);
      assert Next(states[n - 1], steps[n - 1], states[n]);
    }
  }

  lemma BehindBefore(states: seq<State>, steps: seq<Step>, n: nat, r: Request)
    requires Run(states, steps) && 0 < n < |states| && states[n].phase.Clearing?
    ensures LeftBehind(states, steps, n, r) <==>
      || (steps[n - 1] == Queue(r) && states[n - 1].phase.Clearing? && states[n - 1].phase.next > r.level)
      || (steps[n - 1] != Withdraw(r) && LeftBehind(states, steps, n - 1, r))
  {
    assert Next(states[n - 1], steps[n - 1], states[n]);
    if k: nat :| QueuedBehind(states, steps, k, n, r) {
      assert k < n - 1 ==> QueuedBehind(states, steps, k, n - 1, r);
    }
    if steps[n - 1] == Queue(r) && states[n - 1].phase.Clearing? && states[n - 1].phase.next > r.level {
      assert QueuedBehind(states, steps, n - 1, n, r);
    }
    var p := n - 1;
    if steps[p] != Withdraw(r) && LeftBehind(states, steps, p, r) {
      var k: nat :| QueuedBehind(states, steps, k, p, r);
      assert QueuedBehind(states, steps, k, n, r);
    }
  }

  /** In the levels a reset has passed, exactly the requests queued behind it and not taken back are left. */
  lemma {:induction false} LeftExactly(states: seq<State>, steps: seq<Step>, n: nat, r: Request)
    requires Run(states, steps) && !states[0].phase.Clearing? && n < |states|
    requires states[n].phase.Clearing? && r.level < states[n].phase.next && r.level < LEVELS
    ensures Holds(states[n], r) <==> LeftBehind(states, steps, n, r)
    decreases n
  {
    assert Next(states[n - 1], steps[n - 1], states[n]);
    BehindBefore(states, steps, n, r);
    var s := states[n - 1];
    if s.phase.Clearing? && r.level < s.phase.next {
      LeftExactly(states, steps, n - 1, r);
    } else {
      var p := n - 1;
      if k: nat :| QueuedBehind(states, steps, k, p, r) {
        ResetMovesUp(states, steps, k, p);
      }
    }
  }

  /**
   A finished reset leaves every queued request announced exactly when no device
   had queued one at a level already cleared and left it there.
   */
  lemma ResetExactly(states: seq<State>, steps: seq<Step>, n: nat)
    requires Run(states, steps) && !states[0].phase.Clearing? && n < |steps| && steps[n] == EndReset
    ensures Announced(states[n + 1]) <==> forall r :: Valid(r) ==> !LeftBehind(states, steps, n, r)
  {
    assert Next(states[n], steps[n], states[n + 1]);
    var q := states[n].queues;
    if AllEmpty(q) {
      forall r | Valid(r) ensures !LeftBehind(states, steps, n, r) {
        LeftExactly(states, steps, n, r);
      }
    } else {
      var l :| 0 <= l < LEVELS && q[l] != {};
      var v :| v in q[l];
      LeftExactly(states, steps, n, Request(l, v));
      assert LeftBehind(states, steps, n, Request(l, v));
    }
  }

  /** No reset of the run ends with a request left behind it. */
  ghost predicate ResetsInTime(states: seq<State>, steps: seq<Step>, n: nat) {
    forall e, r :: 0 <= e < n && e < |steps| && steps[e] == EndReset && Valid(r) ==> !LeftBehind(states, steps, e, r)
  }

  /** In every run no wakeup is ever lost if and only if no reset ends with a request left behind it. */
  lemma {:induction false} NoLostWakeup(states: seq<State>, steps: seq<Step>, n: nat)
    requires Run(states, steps) && !states[0].phase.Clearing? && Announced(states[0]) && n < |states|
    ensures (forall i :: 0 <= i <= n ==> Announced(states[i])) <==> ResetsInTime(states, steps, n)
    decreases n
  {
    if n > 0 {
      NoLostWakeup(states, steps, n - 1);
      assert Next(states[n - 1], steps[n - 1], states[n]);
      if steps[n - 1] == EndReset {
        ResetExactly(states, steps, n - 1);
      } else if Announced(states[n - 1]) {
        StepKeepsAnnounced(states[n - 1], steps[n - 1], states[n]);
      }
    }
  }

  /**
   The reset takes no lock: a device request above the processor's priority, for a
   level already cleared, stays queued with the flag down.
   */
  lemma ResetLosesArrival(vector: word) returns (states: seq<State>, steps: seq<Step>)
    ensures Run(states, steps) && states[0].phase.Running? && Announced(states[0])
    ensures forall k :: 0 <= k < |steps| ==> steps[k].Queue? ==> steps[k].request == Request(4, vector)
    ensures var t := states[|steps|];
            t.phase.Running? && !t.flag && vector in t.queues[4] && Deliverable(t.queues, t.spl)
  {
    var empty: Queues := Repeated({}, LEVELS);
    var late := empty[4 := {vector}];
    steps := [BeginReset, ClearLevel, ClearLevel, ClearLevel, ClearLevel, ClearLevel, Queue(Request(4, vector)),
              ClearLevel, ClearLevel, ClearLevel, EndReset];
    states := [State(empty, false, 0, Running)] +
              seq(6, i requires 0 <= i < 6 => State(empty, false, 0, Clearing(i))) +
              seq(4, i requires 0 <= i < 4 => State(late, true, 0, Clearing(i + 5))) +
              [State(late, false, 0, Running)];
    assert empty[4] + {vector} == {vector};
    forall i | 0 <= i < |steps|
      ensures Next(states[i], steps[i], states[i + 1])
    {
      if 1 <= i < 6 {
        assert empty[i - 1 := {}] == empty;
      } else if 7 <= i < 10 {
        assert late[i - 2 := {}] == late;
      }
    }
    assert late[4] != {};
  }

  // ----- the processor -----

  datatype Device = Arrive(request: Request) | Leave(request: Request)

  predicate AllValid(actions: seq<Device>) {
    forall a :: a in actions ==> Valid(a.request)
  }

  predicate OnlyArrivals(actions: seq<Device>) {
    forall a :: a in actions ==> a.Arrive?
  }

  predicate Arrives(actions: seq<Device>) {
    exists a :: a in actions && a.Arrive?
  }

  /** The queues after some device actions. */
  function AfterDevices(q: Queues, actions: seq<Device>): Queues
    requires AllValid(actions)
    decreases |actions|
  {
    if actions == [] then q
    else
      var most := AfterDevices(q, actions[..|actions| - 1]);
      assert actions[|actions| - 1] in actions;
      match actions[|actions| - 1]
      case Arrive(r) => Added(most, r)
      case Leave(r) => Removed(most, r)
  }

  class Processor {
    const queued: array<set<word>>
    var anyQueued: bool
    var spl: nat
    var waiting: bool
    var delayedTrap: Option<nat>

    ghost predicate Ok()
      reads this, queued
    {
      queued.Length == LEVELS && spl <= TOP_PRIORITY
    }

    ghost function Queued(): Queues
      requires Ok()
      reads this, queued
    {
      queued[..]
    }

    /** Nothing is queued, or the wake flag is up. */
    ghost predicate Awake()
      requires Ok()
      reads this, queued
    {
      AllEmpty(Queued()) || anyQueued
    }

    constructor ()
      ensures Ok() && Awake() && AllEmpty(Queued()) && spl == 0 && !waiting && delayedTrap.None? && fresh(queued)
    {
      queued := new set<word>[LEVELS](_ => {});
      anyQueued, spl, waiting, delayedTrap := false, 0, false, None;
    }

    method QueueInterrupt(r: Request)
      requires Ok() && Valid(r)
      modifies this`anyQueued, queued
      ensures Ok() && Awake() && Queued() == Added(old(Queued()), r)
      ensures anyQueued
    {
      queued[r.level] := queued[r.level] + {r.vector};
      anyQueued := true;
    }

    method UnqueueInterrupt(r: Request)
      requires Ok() && Valid(r)
      modifies queued
      ensures Ok() && (old(Awake()) ==> Awake()) && Queued() == Removed(old(Queued()), r)
    {
      queued[r.level] := queued[r.level] - {r.vector};
      if old(AllEmpty(Queued())) {
        assert forall l :: 0 <= l < LEVELS ==> queued[l] == {};
      }
    }

    method HasQueuedInterrupt(r: Request) returns (found: bool)
      requires Ok()
      ensures found == (Valid(r) && r.vector in Queued()[r.level])
    {
      found := r.level < LEVELS && r.vector in queued[r.level];
    }

    /** Lowering the priority raises the flag, so that a masked request is looked at again. */
    method SetSpl(level: nat)
      requires Ok() && level <= TOP_PRIORITY
      modifies this`spl, this`anyQueued
      ensures Ok() && spl == level && anyQueued == (old(anyQueued) || level < old(spl))
    {
      var before := spl;
      spl := level;
      if spl < before {
        anyQueued := true;
      }
    }

    /** Whether a request above the priority is queued. */
    method CheckPending() returns (pending: bool)
      requires Ok()
      ensures pending == Deliverable(Queued(), spl)
    {
      for i := spl + 1 to LEVELS
        invariant forall l :: spl < l < i ==> queued[l] == {}
      {
        if queued[i] != {} {
          assert Queued()[i] != {};
          return true;
        }
      }
      return false;
    }

    /** Takes the first vector of a level's ordered set. */
    method TakeFirst(level: nat) returns (v: word)
      requires Ok() && level < LEVELS && queued[level] != {}
      modifies queued
      ensures Ok() && v in old(queued[level]) && forall w :: w in old(queued[level]) ==> v <= w
      ensures Queued() == Removed(old(Queued()), Request(level, v))
    {
      var x :| x in queued[level];
      ghost var least := LeastExists(queued[level], x);
      v :| v in queued[level] && forall w :: w in queued[level] ==> v <= w;
      queued[level] := queued[level] - {v};
    }

    /**
     The locked scan. It delivers the one request chosen by priority, or nothing
     when nothing is above the processor's priority, and leaves the flag up
     whenever anything was queued.
     */
    method ExecuteAnyPending() returns (delivered: Option<Request>)
      requires Ok()
      modifies this`anyQueued, this`spl, this`waiting, queued
      ensures Ok() && (old(Awake()) || !old(AllEmpty(Queued())) ==> Awake())
      ensures anyQueued == (old(anyQueued) || !old(AllEmpty(Queued())))
      ensures delivered.Some? == old(Deliverable(Queued(), spl))
      ensures delivered.None? ==> Queued() == old(Queued()) && spl == old(spl) && waiting == old(waiting)
      ensures delivered.Some? ==>
        && Chosen(old(Queued()), old(spl), delivered.value)
        && Queued() == Removed(old(Queued()), delivered.value)
        && spl == delivered.value.level && !waiting
    {
      var start := spl + 1;
      var i := TOP_PRIORITY;
      while i >= 0
        invariant -1 <= i <= TOP_PRIORITY && Ok()
        invariant Queued() == old(Queued()) && spl == old(spl) && waiting == old(waiting)
        invariant forall l :: i < l < LEVELS && l >= start ==> queued[l] == {}
        invariant anyQueued == (old(anyQueued) || exists l :: i < l < LEVELS && queued[l] != {})
      {
        if queued[i] != {} {
          assert Queued()[i] != {};
          anyQueued := true;
          if i >= start {
            var v := TakeFirst(i);
            waiting := false;
            Trap(i);
            return Some(Request(i, v));
          }
        }
        i := i - 1;
      }
      return None;
    }

    /** A fault-free trap takes the interrupt's level as the new priority. */
    method Trap(level: nat)
      requires Ok() && level <= TOP_PRIORITY
      modifies this`spl
      ensures Ok() && spl == level
    {
      spl := level;
    }

    /** The device threads' actions between two moments of the step loop. */
    method RunDevices(actions: seq<Device>)
      requires Ok() && AllValid(actions)
      modifies this`anyQueued, queued
      ensures Ok() && Queued() == AfterDevices(old(Queued()), actions) && (old(Awake()) ==> Awake())
      ensures anyQueued == (old(anyQueued) || Arrives(actions))
    {
      assert actions[..|actions|] == actions;
      for i := 0 to |actions|
        invariant Ok() && Queued() == AfterDevices(old(Queued()), actions[..i]) && (old(Awake()) ==> Awake())
        invariant anyQueued == (old(anyQueued) || Arrives(actions[..i]))
      {
        assert actions[..i + 1][..i] == actions[..i];
        assert actions[i] in actions;
        match actions[i] {
          case Arrive(r) => QueueInterrupt(r);
          case Leave(r) => UnqueueInterrupt(r);
        }
      }
    }

    /**
     The start of a step, with any device actions falling between the test for a
     pending request and taking the flag (`early`), and between taking it and
     scanning (`late`). No wakeup is lost, and a waiting processor for which
     something is deliverable vectors in this very step.
     */
    method StepPrologue(early: seq<Device>, late: seq<Device>) returns (delivered: Option<Request>, idle: bool)
      requires Ok() && Awake() && AllValid(early) && AllValid(late)
      modifies this, queued
      ensures Ok() && Awake()
      ensures idle == (old(waiting) && !old(Deliverable(Queued(), spl)))
      ensures idle ==>
        delivered.None? && Queued() == old(Queued()) && spl == old(spl) && waiting && delayedTrap == old(delayedTrap)
      ensures !idle && !old(anyQueued) && !Arrives(early) ==>
        && delivered.None? && Queued() == AfterDevices(old(Queued()), early)
        && spl == old(spl) && !waiting && delayedTrap == old(delayedTrap)
      ensures !idle && (old(anyQueued) || Arrives(early)) ==>
        var q := AfterDevices(AfterDevices(old(Queued()), early), late);
        && Scanned(q, if old(delayedTrap).Some? then TOP_PRIORITY else old(spl), delivered)
        && !waiting && delayedTrap.None?
      ensures old(waiting) && old(Deliverable(Queued(), spl)) && old(delayedTrap).None? ==>
        OnlyArrivals(early) && OnlyArrivals(late) ==> delivered.Some?
    {
      delivered, idle := None, false;
      if waiting {
        var pending := CheckPending();
        if !pending {
          return None, true;
        }
        waiting := false;
      }
      RunDevices(early);
      if OnlyArrivals(early) && OnlyArrivals(late) {
        ArrivalsKeepDeliverable(old(Queued()), early, old(spl));
        ArrivalsKeepDeliverable(Queued(), late, old(spl));
      }
      if anyQueued {
        anyQueued := false;
        delivered := ClaimedStep(late);
      }
    }

    /** What the scan leaves: the chosen request delivered at its level, or nothing above the priority. */
    ghost predicate Scanned(q: Queues, priority: nat, delivered: Option<Request>)
      requires Ok()
      reads this, queued
    {
      && delivered.Some? == Deliverable(q, priority)
      && (delivered.Some? ==>
           && Chosen(q, priority, delivered.value)
           && Queued() == Removed(q, delivered.value) && spl == delivered.value.level)
      && (delivered.None? ==> Queued() == q && spl == priority)
    }

    /** The step after the flag was taken: device actions, the delayed trap, the locked scan. */
    method ClaimedStep(late: seq<Device>) returns (delivered: Option<Request>)
      requires Ok() && AllValid(late)
      modifies this, queued
      ensures Ok() && Awake() && delayedTrap.None? && (old(!waiting) ==> !waiting)
      ensures Scanned(AfterDevices(old(Queued()), late),
                      if old(delayedTrap).Some? then TOP_PRIORITY else old(spl), delivered)
    {
      RunDevices(late);
      if delayedTrap.Some? {
        Trap(TOP_PRIORITY);
        delayedTrap := None;
      }
      delivered := ExecuteAnyPending();
    }
  }

  lemma {:induction false} ArrivalsKeepDeliverable(q: Queues, actions: seq<Device>, spl: nat)
    requires AllValid(actions) && OnlyArrivals(actions)
    ensures Deliverable(q, spl) ==> Deliverable(AfterDevices(q, actions), spl)
    decreases |actions|
  {
    if actions != [] && Deliverable(q, spl) {
      var most := AfterDevices(q, actions[..|actions| - 1]);
      ArrivalsKeepDeliverable(q, actions[..|actions| - 1], spl);
      assert actions[|actions| - 1] in actions;
      var l :| 0 <= l < LEVELS && l > spl && most[l] != {};
      var x :| x in most[l];
      assert x in AfterDevices(q, actions)[l];
    }
  }
}
