/**
 The console terminal interface: keyboard status and data, printer status and
 data, their two interrupt requests, and the flow control that keeps the sinks
 behind the printer from overflowing.
 */
module Console {
  import opened Words
  import opened FrameChannel

  const TX_POLLS: nat := 32
  const RX_POLLS: nat := 100
  /** The room every sink must have before the guest is told to go on. */
  const RESERVE: nat := 16

  /** The two status bits that exist: DONE and interrupt enable. */
  datatype Csr = Csr(done: bool, ie: bool)

  function CsrWord(c: Csr): word {
    If(c.done, 0x80) + If(c.ie, 0x40)
  }

  /**
   One direction: its status, the sticky request flag, whether its vector waits
   in the processor's queue, and a history of how often DONE with enable came
   up and how often the vector was queued.
   */
  datatype Line = Line(csr: Csr, asserted: bool, queued: bool, rises: nat, calls: nat)

  predicate Wants(c: Csr) {
    c.done && c.ie
  }

  function WithCsr(l: Line, c: Csr): Line {
    l.(csr := c, rises := l.rises + if !Wants(l.csr) && Wants(c) then 1 else 0)
  }

  /** Queue once when the request comes up, take back when it goes away. */
  function Updated(l: Line): Line {
    if Wants(l.csr) && !l.asserted then l.(asserted := true, queued := true, calls := l.calls + 1)
    else if !Wants(l.csr) && l.asserted then l.(asserted := false, queued := false)
    else l
  }

  /** DONE comes up: any earlier request counts as answered. */
  function Raised(l: Line): Line {
    Updated(WithCsr(l, l.csr.(done := true)).(asserted := false))
  }

  function Cleared(l: Line): Line {
    Updated(WithCsr(l, l.csr.(done := false)))
  }

  /** A write of the enable bit. */
  function Enabling(l: Line, ie: bool): Line {
    var forced := if ie && l.csr.done && !l.csr.ie then l.(asserted := false) else l;
    Updated(WithCsr(forced, l.csr.(ie := ie)))
  }

  ghost predicate LineInv(l: Line) {
    l.asserted == Wants(l.csr) && (l.queued ==> Wants(l.csr)) && l.calls == l.rises
  }

  lemma LineOperations(l: Line, ie: bool)
    requires LineInv(l)
    ensures !l.csr.done ==> LineInv(Raised(l))
    ensures LineInv(Cleared(l)) && LineInv(Enabling(l, ie)) && LineInv(l.(queued := false))
  {
  }

  // ----- the state -----

  /** The registers' side: both lines, both data registers, the poll counters, and the keyboard data's history. */
  datatype Device = Device(
    rx: Line,
    tkb: word,
    tx: Line,
    tpb: word,
    busy: bool,
    txPoll: nat,
    rxPoll: nat,
    popped: seq<byte>,
    cleared: seq<word>)

  datatype State = State(d: Device, parser: Parser, sinks: Sinks, commands: seq<seq<byte>>)

  const IDLE_LINE: Line := Line(Csr(false, false), false, false, 0, 0)

  const POWER_UP: Device := Device(IDLE_LINE, 0, IDLE_LINE.(csr := Csr(true, false)), 0, false, 0, 0, [], [])

  const INITIAL: State :=
    State(POWER_UP, Idle, Sinks(Sink([], 0), Sink([], 0), Sink([], 0)), [])

  /** The next host byte is presented, unless the last one is unread or its vector still waits. */
  function Notified(d: Device, pop: Option<byte>): Device {
    if d.rx.csr.done || d.rx.queued || pop.None? then d
    else d.(tkb := pop.value % 0x80, rx := Raised(d.rx), popped := d.popped + [pop.value])
  }

  /** What leaves the data register when DONE of the keyboard goes away. */
  function Leaving(d: Device): seq<word> {
    if d.rx.csr.done then [d.tkb] else []
  }

  function Consumed(d: Device): Device {
    d.(rx := Cleared(d.rx), cleared := d.cleared + Leaving(d))
  }

  /** The reader-enable bit drops DONE. */
  function Disarmed(d: Device, v: word): Device {
    if v % 2 == 0 then d
    else d.(rx := d.rx.(csr := d.rx.csr.(done := false)), cleared := d.cleared + Leaving(d))
  }

  function Armed(d: Device, v: word): Device {
    var d1 := Disarmed(d, v);
    d1.(rx := Enabling(d1.rx, Bit(v, 0x40)))
  }

  function Writing(d: Device, v: word): Device {
    d.(tpb := v % 0x80, busy := true, txPoll := 0, tx := Cleared(d.tx))
  }

  function AfterWriteTpb(s: State, v: word): State
    requires ParserOk(s.parser)
  {
    var e := Handle(s.parser, v % 0x80);
    State(Writing(s.d, v), e.parser, EmitAll(s.sinks, e.out), s.commands + e.commands)
  }

  /** The printer's turn of the deferred work: after 32 polls, and once every sink has room, it is done. */
  function TxServiced(d: Device, room: bool): Device {
    if d.busy then
      if d.txPoll + 1 < TX_POLLS then d.(txPoll := d.txPoll + 1)
      else if room then d.(txPoll := 0, busy := false, tx := Raised(d.tx))
      else d.(txPoll := 0)
    else if !d.tx.csr.done then d.(tx := Raised(d.tx))
    else d
  }

  predicate HasRoom(s: Sinks, n: nat)
    ensures HasRoom(s, n) == Room(s, n)
  {
    && |s.screen.pending| + n <= SINK_CAPACITY && |s.telnet.pending| + n <= SINK_CAPACITY
    && |s.serial.pending| + n <= SINK_CAPACITY
  }

  function RxServiced(d: Device, pop: Option<byte>): Device {
    if d.rx.csr.ie then Notified(d, pop)
    else if d.rxPoll + 1 < RX_POLLS then d.(rxPoll := d.rxPoll + 1)
    else Notified(d.(rxPoll := 0), pop)
  }

  function Serviced(d: Device, room: bool, pop: Option<byte>): Device {
    RxServiced(TxServiced(d, room), pop)
  }

  function ResetLine(l: Line, done: bool): Line {
    WithCsr(l, Csr(done, false)).(asserted := false, queued := false)
  }

  function WasReset(d: Device, hard: bool): Device {
    Device(ResetLine(d.rx, false), if hard then 0 else d.tkb, ResetLine(d.tx, true), if hard then 0 else d.tpb,
           false, 0, 0, d.popped, d.cleared + Leaving(d))
  }

  function Drained(s: Sink, n: nat): Sink {
    s.(pending := if n < |s.pending| then s.pending[n..] else [])
  }

  datatype Step =
    | ReadTks(pop: Option<byte>)
    | ReadTkb
    | WriteTks(value: word, pop: Option<byte>)
    | WriteTkb(value: word)
    | WriteTps(value: word)
    | WriteTpb(value: word)
    | Service(pop: Option<byte>)
    | AcceptRx
    | AcceptTx
    | Drain(screen: nat, telnet: nat, serial: nat)
    | Reset(hard: bool)

  function After(s: State, a: Step): State
    requires ParserOk(s.parser)
  {
    match a
    case ReadTks(pop) => s.(d := Notified(s.d, pop))
    case ReadTkb => s.(d := Consumed(s.d))
    case WriteTks(v, pop) => s.(d := Notified(Armed(s.d, v), pop))
    case WriteTkb(v) => s.(d := s.d.(tkb := v))
    case WriteTps(v) => s.(d := s.d.(tx := Enabling(s.d.tx, Bit(v, 0x40))))
    case WriteTpb(v) => AfterWriteTpb(s, v)
    case Service(pop) => s.(d := Serviced(s.d, HasRoom(s.sinks, RESERVE), pop))
    case AcceptRx => s.(d := s.d.(rx := s.d.rx.(queued := false)))
    case AcceptTx => s.(d := s.d.(tx := s.d.tx.(queued := false)))
    case Drain(a, b, c) =>
      s.(sinks := Sinks(Drained(s.sinks.screen, a), Drained(s.sinks.telnet, b), Drained(s.sinks.serial, c)))
    case Reset(hard) => s.(d := WasReset(s.d, hard))
  }

  // ----- interrupts -----

  /**
   In each direction the request flag is DONE and enable, the vector waits only then,
   and each rise queued it once.
   */
  ghost predicate DeviceInv(d: Device) {
    LineInv(d.rx) && LineInv(d.tx) && d.busy == !d.tx.csr.done && d.txPoll < TX_POLLS
  }

  ghost predicate Inv(s: State) {
    DeviceInv(s.d) && ParserOk(s.parser)
  }

  lemma NotifiedKeepsInv(d: Device, pop: Option<byte>)
    requires DeviceInv(d)
    ensures DeviceInv(Notified(d, pop))
  {
    LineOperations(d.rx, false);
  }

  lemma EnablingAfterDisarm(was: Line, l: Line, ie: bool)
    requires LineInv(was) && (l == was || l == was.(csr := was.csr.(done := false)))
    ensures LineInv(Enabling(l, ie))
  {
  }

  lemma ServicedKeepsInv(d: Device, room: bool, pop: Option<byte>)
    requires DeviceInv(d)
    ensures DeviceInv(Serviced(d, room, pop))
  {
    LineOperations(d.tx, false);
    var t := TxServiced(d, room);
    NotifiedKeepsInv(t, pop);
    NotifiedKeepsInv(t.(rxPoll := 0), pop);
  }

  /** Every step keeps the invariant. */
  lemma StepKeepsInv(s: State, a: Step)
    requires Inv(s)
    ensures Inv(After(s, a))
  {
    match a
    case ReadTks(pop) => NotifiedKeepsInv(s.d, pop);
    case ReadTkb => LineOperations(s.d.rx, false);
    case WriteTks(v, pop) =>
      EnablingAfterDisarm(s.d.rx, Disarmed(s.d, v).rx, Bit(v, 0x40));
      NotifiedKeepsInv(Armed(s.d, v), pop);
    case WriteTps(v) => LineOperations(s.d.tx, Bit(v, 0x40));
    case WriteTpb(v) => LineOperations(s.d.tx, false);
    case Service(pop) => ServicedKeepsInv(s.d, HasRoom(s.sinks, RESERVE), pop);
    case _ =>
  }

  /** The test for a waiting vector never decides anything: no byte is held back that DONE would not hold back. */
  lemma GuardIsRedundant(d: Device, b: byte)
    requires DeviceInv(d)
    ensures Notified(d, Some(b)).popped == d.popped + (if d.rx.csr.done then [] else [b])
  {
  }

  // ----- what the guest reads -----

  /** The status word: DONE in bit 7, interrupt enable in bit 6, and nothing else. */
  lemma StatusWord(c: Csr)
    ensures var w: nat := CsrWord(c);
            (w / 0x80 % 2 == 1 <==> c.done) && (w / 0x40 % 2 == 1 <==> c.ie) && w % 0x40 == 0 && w < 0x100
  {
  }

  /** Writing a status word sets bit 6 alone; bit 7 is the device's, but the reader bit takes the keyboard's away. */
  lemma StatusWritten(s: State, v: word, pop: Option<byte>)
    requires ParserOk(s.parser)
    ensures var t := After(s, WriteTps(v));
            CsrWord(t.d.tx.csr) == v / 0x40 % 2 * 0x40 + If(s.d.tx.csr.done, 0x80) && t.d.rx == s.d.rx
    ensures var t := After(s, WriteTks(v, None));
            && CsrWord(t.d.rx.csr) == v / 0x40 % 2 * 0x40 + If(s.d.rx.csr.done && v % 2 == 0, 0x80)
            && t.d.tx == s.d.tx && t.d.tkb == s.d.tkb
  {
  }

  /** A byte taken from the host is read back without its parity bit, under DONE, and DONE goes with the reading. */
  lemma KeyArrives(s: State, b: byte)
    requires Inv(s) && !s.d.rx.csr.done
    ensures var t := After(s, ReadTks(Some(b)));
            && t.d.tkb == b % 0x80 && CsrWord(t.d.rx.csr) / 0x80 % 2 == 1
            && (t.d.rx.queued <==> s.d.rx.csr.ie) && t.d.tx == s.d.tx
            && CsrWord(After(t, ReadTkb).d.rx.csr) / 0x80 % 2 == 0 && !After(t, ReadTkb).d.rx.queued
  {
  }

  /** Without the interrupt enabled the keyboard is looked at in every hundredth service, with it in each. */
  lemma KeyPolled(s: State, b: byte)
    requires Inv(s) && !s.d.rx.csr.done && s.d.rxPoll < 100
    ensures var t := After(s, Service(Some(b)));
            (t.d.popped == s.d.popped + [b]) == (s.d.rx.csr.ie || s.d.rxPoll == 99)
            && (t.d.popped == s.d.popped || t.d.popped == s.d.popped + [b]) && t.d.rxPoll < 100
            && (!s.d.rx.csr.ie ==> t.d.rxPoll == if s.d.rxPoll == 99 then 0 else s.d.rxPoll + 1)
  {
    var t := TxServiced(s.d, HasRoom(s.sinks, RESERVE));
    assert t.rx == s.d.rx && t.popped == s.d.popped && t.rxPoll == s.d.rxPoll;
  }

  /** A byte written goes to the parser without its parity bit, and the printer is not done for 32 services. */
  lemma PrinterBusy(s: State, v: word)
    requires Inv(s)
    ensures var t := After(s, WriteTpb(v)); var e := Handle(s.parser, v % 0x80);
            && CsrWord(t.d.tx.csr) / 0x80 % 2 == 0 && t.d.busy && t.d.txPoll == 0 && !t.d.tx.queued
            && t.d.tpb == v % 0x80 && t.parser == e.parser && t.sinks == EmitAll(s.sinks, e.out)
            && t.commands == s.commands + e.commands
  {
  }

  /** While fewer than 32 services have passed since the write, or a sink has no room, DONE stays away. */
  lemma PrinterWaits(s: State, pop: Option<byte>)
    requires Inv(s) && s.d.busy
    ensures var t := After(s, Service(pop));
            && (t.d.tx.csr.done <==> s.d.txPoll == 31 && Room(s.sinks, 16))
            && (t.d.tx.queued <==> t.d.tx.csr.done && s.d.tx.csr.ie)
            && t.d.txPoll == (if s.d.txPoll == 31 then 0 else s.d.txPoll + 1) && t.d.busy == !t.d.tx.csr.done
  {
    var t := TxServiced(s.d, HasRoom(s.sinks, RESERVE));
    assert RxServiced(t, pop).tx == t.tx && RxServiced(t, pop).busy == t.busy && RxServiced(t, pop).txPoll == t.txPoll;
  }

  /** After a reset the keyboard shows nothing, the printer DONE, neither enabled, and nothing is requested. */
  lemma ResetShows(s: State, hard: bool)
    requires ParserOk(s.parser)
    ensures var t := After(s, Reset(hard));
            && CsrWord(t.d.rx.csr) == 0 && CsrWord(t.d.tx.csr) == 0x80 && !t.d.rx.queued && !t.d.tx.queued
            && !t.d.busy && t.d.txPoll == 0 && t.d.rxPoll == 0
            && (hard ==> t.d.tkb == 0 && t.d.tpb == 0) && (!hard ==> t.d.tkb == s.d.tkb && t.d.tpb == s.d.tpb)
            && t.sinks == s.sinks && t.parser == s.parser && t.commands == s.commands
  {
  }

  // ----- keyboard data -----

  function Shown(bytes: seq<byte>): (r: seq<word>)
    ensures |r| == |bytes| && forall i :: 0 <= i < |r| ==> r[i] == bytes[i] % 0x80
  {
    if bytes == [] then [] else Shown(bytes[..|bytes| - 1]) + [bytes[|bytes| - 1] % 0x80]
  }

  /** The bytes cleared so far and the one on show are all the bytes taken from the host, in that order. */
  ghost predicate InOrder(d: Device) {
    d.cleared + Leaving(d) == Shown(d.popped)
  }

  lemma NotifiedInOrder(d: Device, pop: Option<byte>)
    requires InOrder(d)
    ensures InOrder(Notified(d, pop))
  {
    var t := Notified(d, pop);
    if t.popped != d.popped {
      assert t.popped[..|d.popped|] == d.popped;
      assert Shown(t.popped) == Shown(d.popped) + [t.tkb];
    }
  }

  lemma ArmedInOrder(d: Device, v: word)
    requires InOrder(d)
    ensures InOrder(Armed(d, v))
  {
  }

  lemma ServicedInOrder(d: Device, room: bool, pop: Option<byte>)
    requires InOrder(d)
    ensures InOrder(Serviced(d, room, pop))
  {
    TxServicedInOrder(d, room);
    RxServicedInOrder(TxServiced(d, room), pop);
  }

  lemma TxServicedInOrder(d: Device, room: bool)
    requires InOrder(d)
    ensures InOrder(TxServiced(d, room))
  {
    var t := TxServiced(d, room);
    assert t.rx == d.rx && t.tkb == d.tkb && t.popped == d.popped && t.cleared == d.cleared;
  }

  lemma RxServicedInOrder(d: Device, pop: Option<byte>)
    requires InOrder(d)
    ensures InOrder(RxServiced(d, pop))
  {
    NotifiedInOrder(d, pop);
    NotifiedInOrder(d.(rxPoll := 0), pop);
  }

  /** No step but a guest's write over an unread byte loses, repeats or reorders keyboard data. */
  lemma StepInOrder(s: State, a: Step)
    requires Inv(s) && InOrder(s.d)
    ensures InOrder(After(s, a).d) == !(a.WriteTkb? && s.d.rx.csr.done && a.value != s.d.tkb)
  {
    match a
    case ReadTks(pop) => NotifiedInOrder(s.d, pop);
    case ReadTkb => ConsumedInOrder(s.d);
    case WriteTks(v, pop) =>
      ArmedInOrder(s.d, v);
      NotifiedInOrder(Armed(s.d, v), pop);
    case WriteTkb(v) => OverwrittenInOrder(s.d, v);
    case Service(pop) => ServicedInOrder(s.d, HasRoom(s.sinks, RESERVE), pop);
    case Reset(hard) => ResetInOrder(s.d, hard);
    case _ =>
  }

  lemma ConsumedInOrder(d: Device)
    requires InOrder(d)
    ensures InOrder(Consumed(d))
  {
  }

  lemma ResetInOrder(d: Device, hard: bool)
    requires InOrder(d)
    ensures InOrder(WasReset(d, hard))
  {
  }

  lemma OverwrittenInOrder(d: Device, v: word)
    requires InOrder(d)
    ensures InOrder(d.(tkb := v)) <==> !(d.rx.csr.done && v != d.tkb)
  {
    if d.rx.csr.done && v != d.tkb {
      assert (d.cleared + [v])[|d.cleared|] != (d.cleared + [d.tkb])[|d.cleared|];
    }
  }

  // ----- flow control -----

  /** The guest may write the printer's data while DONE shows, so every sink must have room then. */
  ghost predicate Flow(s: State) {
    s.d.tx.csr.done ==> Room(s.sinks, RESERVE)
  }

  /** A guest that waits for DONE before it writes. */
  predicate Polite(s: State, a: Step) {
    a.WriteTpb? ==> s.d.tx.csr.done
  }

  lemma WriteTpbFlow(s: State, v: word)
    requires Inv(s) && Room(s.sinks, RESERVE)
    ensures SameDrops(AfterWriteTpb(s, v).sinks, s.sinks) && Flow(AfterWriteTpb(s, v))
  {
    ExpansionBound(s.parser, v % 0x80);
    EmitAllFits(s.sinks, Handle(s.parser, v % 0x80).out);
  }

  /** No step drops a byte, and the room is there at every DONE, unless a reset raises DONE without it. */
  lemma StepKeepsFlow(s: State, a: Step)
    requires Inv(s) && Flow(s) && Polite(s, a)
    ensures SameDrops(After(s, a).sinks, s.sinks)
    ensures Flow(After(s, a)) == !(a.Reset? && !Room(s.sinks, RESERVE))
  {
    match a
    case WriteTpb(v) => WriteTpbFlow(s, v);
    case Service(pop) => ServiceFlow(s, pop);
    case _ =>
  }

  lemma ServiceFlow(s: State, pop: Option<byte>)
    requires Inv(s) && Flow(s)
    ensures Flow(After(s, Service(pop)))
  {
    var t := TxServiced(s.d, HasRoom(s.sinks, RESERVE));
    assert RxServiced(t, pop).tx == t.tx;
  }

  // ----- whole runs -----

  function Run(s: State, steps: seq<Step>): (t: State)
    requires ParserOk(s.parser)
    ensures ParserOk(t.parser)
    decreases |steps|
  {
    if steps == [] then s else Run(After(s, steps[0]), steps[1..])
  }

  lemma {:induction false} RunKeepsInv(s: State, steps: seq<Step>)
    requires Inv(s)
    ensures Inv(Run(s, steps))
    decreases |steps|
  {
    if steps != [] {
      StepKeepsInv(s, steps[0]);
      RunKeepsInv(After(s, steps[0]), steps[1..]);
    }
  }

  /** The guest leaves unread keyboard data alone. */
  ghost predicate ReadsOnly(steps: seq<Step>) {
    forall i :: 0 <= i < |steps| ==> !steps[i].WriteTkb?
  }

  lemma {:induction false} RunInOrder(s: State, steps: seq<Step>)
    requires Inv(s) && InOrder(s.d) && ReadsOnly(steps)
    ensures InOrder(Run(s, steps).d)
    decreases |steps|
  {
    if steps != [] {
      StepKeepsInv(s, steps[0]);
      StepInOrder(s, steps[0]);
      RunInOrder(After(s, steps[0]), steps[1..]);
    }
  }

  /** Every write waits for DONE, and every reset finds room in the sinks. */
  ghost predicate Courteous(s: State, steps: seq<Step>)
    requires ParserOk(s.parser)
    decreases |steps|
  {
    steps != [] ==>
      && Polite(s, steps[0]) && (steps[0].Reset? ==> Room(s.sinks, RESERVE))
      && Courteous(After(s, steps[0]), steps[1..])
  }

  /** In such a run no sink ever drops a byte, however the drains and the host's input interleave with it. */
  lemma {:induction false} NothingDropped(s: State, steps: seq<Step>)
    requires Inv(s) && Flow(s) && Courteous(s, steps)
    ensures SameDrops(Run(s, steps).sinks, s.sinks)
    decreases |steps|
  {
    if steps != [] {
      StepKeepsInv(s, steps[0]);
      StepKeepsFlow(s, steps[0]);
      NothingDropped(After(s, steps[0]), steps[1..]);
    }
  }

  /**
   From power-up every run keeps the interrupt rules, the order of the keyboard's data
   and, if courteous, every byte of output.
   */
  lemma FromPowerUp(steps: seq<Step>)
    ensures var s := Run(INITIAL, steps);
            && s.d.rx.asserted == Wants(s.d.rx.csr) && s.d.tx.asserted == Wants(s.d.tx.csr)
            && (s.d.rx.queued ==> Wants(s.d.rx.csr)) && (s.d.tx.queued ==> Wants(s.d.tx.csr))
            && s.d.rx.calls == s.d.rx.rises && s.d.tx.calls == s.d.tx.rises
            && (ReadsOnly(steps) ==> s.d.cleared + Leaving(s.d) == Shown(s.d.popped))
            && (Courteous(INITIAL, steps) ==> SameDrops(s.sinks, INITIAL.sinks))
  {
    RunKeepsInv(INITIAL, steps);
    if ReadsOnly(steps) {
      RunInOrder(INITIAL, steps);
    }
    if Courteous(INITIAL, steps) {
      NothingDropped(INITIAL, steps);
    }
  }

  // ----- resets without room -----

  const LETTER: word := 0x41

  /** A guest that resets the bus instead of waiting; each of its writes still sees DONE. */
  function ResetAndWrite(n: nat): (steps: seq<Step>) {
    if n == 0 then [] else [Reset(false), WriteTpb(LETTER)] + ResetAndWrite(n - 1)
  }

  function Handled(s: Sink): nat {
    |s.pending| + s.dropped
  }

  /** Every write of the run is made at DONE. */
  ghost predicate AlwaysPolite(s: State, steps: seq<Step>)
    requires ParserOk(s.parser)
    decreases |steps|
  {
    steps != [] ==> Polite(s, steps[0]) && AlwaysPolite(After(s, steps[0]), steps[1..])
  }

  lemma OneMore(s: State, a: Step, rest: seq<Step>)
    requires ParserOk(s.parser)
    ensures Run(s, [a] + rest) == Run(After(s, a), rest)
    ensures AlwaysPolite(s, [a] + rest) <==> Polite(s, a) && AlwaysPolite(After(s, a), rest)
  {
    assert ([a] + rest)[1..] == rest;
  }

  lemma LetterWritten(s: State)
    requires s.parser == Idle
    ensures var t := AfterWriteTpb(s, LETTER); t.parser == Idle && t.sinks == Emit(s.sinks, LETTER)
  {
    NonNulIdentity([LETTER]);
    EmitAllPush(s.sinks, [], LETTER);
    assert [] + [LETTER] == [LETTER];
  }

  lemma ResetWriteRound(s: State)
    requires s.parser == Idle
    ensures var r := After(s, Reset(false)); var t := After(r, WriteTpb(LETTER));
            && Polite(s, Reset(false)) && Polite(r, WriteTpb(LETTER)) && t.parser == Idle
            && Handled(t.sinks.screen) == Handled(s.sinks.screen) + 1
            && (|s.sinks.screen.pending| <= SINK_CAPACITY ==> |t.sinks.screen.pending| <= SINK_CAPACITY)
  {
    LetterWritten(After(s, Reset(false)));
  }

  lemma {:induction false} ResetAndWriteHandles(s: State, n: nat)
    requires s.parser == Idle && |s.sinks.screen.pending| <= SINK_CAPACITY
    ensures AlwaysPolite(s, ResetAndWrite(n))
    ensures Handled(Run(s, ResetAndWrite(n)).sinks.screen) == Handled(s.sinks.screen) + n
    ensures |Run(s, ResetAndWrite(n)).sinks.screen.pending| <= SINK_CAPACITY
    decreases n
  {
    if n > 0 {
      var t := After(After(s, Reset(false)), WriteTpb(LETTER));
      ResetWriteRound(s);
      ResetAndWriteHandles(t, n - 1);
      var rest := ResetAndWrite(n - 1);
      OneMore(After(s, Reset(false)), WriteTpb(LETTER), rest);
      OneMore(s, Reset(false), [WriteTpb(LETTER)] + rest);
      assert [Reset(false), WriteTpb(LETTER)] + rest == [Reset(false)] + ([WriteTpb(LETTER)] + rest);
    }
  }

  /** A bus reset shows DONE whatever room there is: a guest that only ever writes at DONE then loses output. */
  lemma ResetOverruns()
    ensures AlwaysPolite(INITIAL, ResetAndWrite(SINK_CAPACITY + 1))
    ensures Run(INITIAL, ResetAndWrite(SINK_CAPACITY + 1)).sinks.screen.dropped > 0
  {
    ResetAndWriteHandles(INITIAL, SINK_CAPACITY + 1);
  }

  // ----- DONE comes back -----

  function Services(n: nat): seq<Step> {
    if n == 0 then [] else [Service(None)] + Services(n - 1)
  }

  /** While there is room, DONE is back after at most 32 services. */
  lemma {:induction false} DoneReturns(s: State, n: nat)
    requires Inv(s) && Room(s.sinks, RESERVE) && s.d.busy && n == TX_POLLS - s.d.txPoll
    ensures Run(s, Services(n)).d.tx.csr.done && Run(s, Services(n)).sinks == s.sinks
    decreases n
  {
    var t := After(s, Service(None));
    assert Services(n)[1..] == Services(n - 1);
    StepKeepsInv(s, Service(None));
    assert t.sinks == s.sinks;
    if n > 1 {
      assert t.d.busy && t.d.txPoll == s.d.txPoll + 1;
      DoneReturns(t, n - 1);
    } else {
      assert Services(0) == [] && Run(t, []) == t;
    }
  }

  // ----- the device -----

  datatype Register = TKS | TKB | TPS | TPB

  function WriteStep(r: Register, v: word, pop: Option<byte>): Step {
    match r case TKS => WriteTks(v, pop) case TKB => WriteTkb(v) case TPS => WriteTps(v) case TPB => WriteTpb(v)
  }

  /** The registers after a write to one other than the printer's data. */
  function Written(d: Device, r: Register, v: word, pop: Option<byte>): Device
    requires r != TPB
  {
    match r
    case TKS => Notified(Armed(d, v), pop)
    case TKB => d.(tkb := v)
    case TPS => d.(tx := Enabling(d.tx, Bit(v, 0x40)))
  }

  class Tty {
    var tks: Csr
    var tkb: word
    var tps: Csr
    var tpb: word
    var rxAsserted: bool
    var txAsserted: bool
    var busy: bool
    var txPoll: nat
    var rxPoll: nat
    /** Whether vectors 060 and 064 wait in the processor's queue. */
    var rxQueued: bool
    var txQueued: bool
    ghost var rxRises: nat
    ghost var rxCalls: nat
    ghost var txRises: nat
    ghost var txCalls: nat
    ghost var popped: seq<byte>
    ghost var cleared: seq<word>
    const channel: Channel

    ghost predicate Valid()
      reads this, channel, channel.reply
    {
      channel.Valid()
    }

    ghost function Rx(): Line
      reads this
    {
      Line(tks, rxAsserted, rxQueued, rxRises, rxCalls)
    }

    ghost function Tx(): Line
      reads this
    {
      Line(tps, txAsserted, txQueued, txRises, txCalls)
    }

    ghost function Registers(): Device
      reads this
    {
      Device(Rx(), tkb, Tx(), tpb, busy, txPoll, rxPoll, popped, cleared)
    }

    ghost function View(): (s: State)
      requires Valid()
      reads this, channel, channel.reply, channel.command
      ensures ParserOk(s.parser)
    {
      State(Registers(), channel.Parsing(), channel.sinks, channel.submitted)
    }

    constructor ()
      ensures Valid() && View() == INITIAL && Inv(View()) && InOrder(Registers()) && Flow(View())
    {
      tks, tkb, tps, tpb := Csr(false, false), 0, Csr(true, false), 0;
      rxAsserted, txAsserted, busy, rxQueued, txQueued := false, false, false, false, false;
      txPoll, rxPoll, rxRises, rxCalls, txRises, txCalls := 0, 0, 0, 0, 0, 0;
      popped, cleared := [], [];
      channel := new Channel();
    }

    method SetTks(c: Csr)
      modifies this`tks, this`rxRises
      ensures Rx() == WithCsr(old(Rx()), c)
    {
      if !Wants(tks) && Wants(c) {
        rxRises := rxRises + 1;
      }
      tks := c;
    }

    method SetTps(c: Csr)
      modifies this`tps, this`txRises
      ensures Tx() == WithCsr(old(Tx()), c)
    {
      if !Wants(tps) && Wants(c) {
        txRises := txRises + 1;
      }
      tps := c;
    }

    method UpdateRxInterrupt()
      modifies this`rxAsserted, this`rxQueued, this`rxCalls
      ensures Rx() == Updated(old(Rx()))
    {
      if tks.done && tks.ie {
        if !rxAsserted {
          rxAsserted, rxQueued, rxCalls := true, true, rxCalls + 1;
        }
      } else if rxAsserted {
        rxAsserted, rxQueued := false, false;
      }
    }

    method UpdateTxInterrupt()
      modifies this`txAsserted, this`txQueued, this`txCalls
      ensures Tx() == Updated(old(Tx()))
    {
      if tps.done && tps.ie {
        if !txAsserted {
          txAsserted, txQueued, txCalls := true, true, txCalls + 1;
        }
      } else if txAsserted {
        txAsserted, txQueued := false, false;
      }
    }

    method RaiseRx()
      modifies this`tks, this`rxAsserted, this`rxQueued, this`rxRises, this`rxCalls
      ensures Rx() == Raised(old(Rx()))
    {
      SetTks(tks.(done := true));
      rxAsserted := false;
      UpdateRxInterrupt();
    }

    method ClearRx()
      modifies this`tks, this`rxAsserted, this`rxQueued, this`rxRises, this`rxCalls
      ensures Rx() == Cleared(old(Rx()))
    {
      SetTks(tks.(done := false));
      UpdateRxInterrupt();
    }

    method ClearTx()
      modifies this`tps, this`txAsserted, this`txQueued, this`txRises, this`txCalls
      ensures Tx() == Cleared(old(Tx()))
    {
      SetTps(tps.(done := false));
      UpdateTxInterrupt();
    }

    method RaiseTx()
      modifies this`tps, this`txAsserted, this`txQueued, this`txRises, this`txCalls
      ensures Tx() == Raised(old(Tx()))
    {
      SetTps(tps.(done := true));
      txAsserted := false;
      UpdateTxInterrupt();
    }

    /** `pop` is what the host's input queues give when asked: nothing, or the next byte. */
    method NotifyRx(pop: Option<byte>)
      modifies this`tks, this`tkb, this`rxAsserted, this`rxQueued, this`rxRises, this`rxCalls, this`popped
      ensures Registers() == Notified(old(Registers()), pop)
    {
      if tks.done || rxQueued || pop.None? {
        return;
      }
      tkb := pop.value % 0x80;
      popped := popped + [pop.value];
      RaiseRx();
    }

    method GuestOutputReady() returns (ready: bool)
      requires Valid()
      ensures ready == Room(channel.sinks, RESERVE)
    {
      ready := HasRoom(channel.sinks, RESERVE);
    }

    method ServiceTx()
      requires Valid() && txPoll < TX_POLLS
      modifies this`tps, this`txAsserted, this`txQueued, this`txRises, this`txCalls, this`busy, this`txPoll
      ensures Registers() == TxServiced(old(Registers()), HasRoom(channel.sinks, RESERVE))
    {
      if busy {
        txPoll := txPoll + 1;
        if txPoll >= TX_POLLS {
          txPoll := 0;
          var ready := GuestOutputReady();
          if ready {
            busy := false;
            RaiseTx();
          }
        }
      } else if !tps.done {
        RaiseTx();
      }
    }

    method ServiceDeferred(pop: Option<byte>)
      requires Valid() && txPoll < TX_POLLS
      modifies this
      ensures Registers() == Serviced(old(Registers()), HasRoom(channel.sinks, RESERVE), pop)
    {
      ServiceTx();
      if tks.ie {
        if !tks.done {
          NotifyRx(pop);
        }
      } else {
        rxPoll := rxPoll + 1;
        if rxPoll >= RX_POLLS {
          rxPoll := 0;
          NotifyRx(pop);
        }
      }
    }

    method ReadWord(r: Register, pop: Option<byte>) returns (v: word)
      modifies this
      ensures Registers() ==
              match r
              case TKS => Notified(old(Registers()), pop)
              case TKB => Consumed(old(Registers()))
              case _ => old(Registers())
      ensures v ==
              match r
              case TKS => CsrWord(tks)
              case TKB => old(tkb) % 0x80
              case TPS => CsrWord(tps)
              case TPB => tpb % 0x100
    {
      match r {
        case TKS =>
          NotifyRx(pop);
          v := CsrWord(tks);
        case TKB =>
          v := ReadData();
        case TPS =>
          v := CsrWord(tps);
        case TPB =>
          v := tpb % 0x100;
      }
    }

    method ReadData() returns (v: word)
      modifies this`tks, this`rxAsserted, this`rxQueued, this`rxRises, this`rxCalls, this`cleared
      ensures v == tkb % 0x80 && Registers() == Consumed(old(Registers()))
    {
      v := tkb % 0x80;
      if tks.done {
        cleared := cleared + [tkb];
      }
      ClearRx();
    }

    /** The enable bit of the keyboard; setting it while DONE shows asks again. */
    method EnableRx(ie: bool)
      modifies this`tks, this`rxAsserted, this`rxQueued, this`rxRises, this`rxCalls
      ensures Rx() == Enabling(old(Rx()), ie)
    {
      if ie && tks.done && !tks.ie {
        rxAsserted := false;
      }
      SetTks(tks.(ie := ie));
      UpdateRxInterrupt();
    }

    method Disarm(v: word)
      modifies this`tks, this`cleared
      ensures Registers() == Disarmed(old(Registers()), v)
    {
      if v % 2 == 1 {
        if tks.done {
          cleared := cleared + [tkb];
        }
        tks := tks.(done := false);
      }
    }

    method WriteStatusTks(v: word, pop: Option<byte>)
      modifies this`tks, this`tkb, this`rxAsserted, this`rxQueued, this`rxRises, this`rxCalls, this`popped, this`cleared
      ensures Registers() == Notified(Armed(old(Registers()), v), pop)
    {
      Disarm(v);
      EnableRx(Bit(v, 0x40));
      NotifyRx(pop);
    }

    method WriteStatusTps(v: word)
      modifies this`tps, this`txAsserted, this`txQueued, this`txRises, this`txCalls
      ensures Tx() == Enabling(old(Tx()), Bit(v, 0x40))
    {
      var ie := Bit(v, 0x40);
      if ie && tps.done && !tps.ie {
        txAsserted := false;
      }
      SetTps(tps.(ie := ie));
      UpdateTxInterrupt();
    }

    method StartWriting(v: word)
      modifies this`tpb, this`busy, this`txPoll, this`tps, this`txAsserted, this`txQueued, this`txRises, this`txCalls
      ensures Registers() == Writing(old(Registers()), v)
    {
      tpb := v % 0x80;
      busy := true;
      txPoll := 0;
      ClearTx();
    }

    method WriteData(v: word)
      requires Valid()
      modifies this, channel, channel.command
      ensures Valid() && View() == AfterWriteTpb(old(View()), v)
    {
      StartWriting(v);
      channel.HandleGuestOutput(v % 0x80);
    }

    method WriteWord(r: Register, v: word, pop: Option<byte>)
      requires Valid()
      modifies this, channel, channel.command
      ensures Valid() && View() == After(old(View()), WriteStep(r, v, pop))
    {
      if r == TPB {
        WriteData(v);
      } else {
        WriteRegister(r, v, pop);
      }
    }

    /** The registers other than the printer's data. */
    method WriteRegister(r: Register, v: word, pop: Option<byte>)
      requires r != TPB
      modifies this
      ensures Registers() == Written(old(Registers()), r, v, pop)
    {
      match r {
        case TKS => WriteStatusTks(v, pop);
        case TKB => tkb := v;
        case TPS => WriteStatusTps(v);
      }
    }

    /** INIT: the printer is ready, both requests are taken back; the sinks and the parser stay as they are. */
    method ResetDevice(hard: bool)
      modifies this`tks, this`rxAsserted, this`rxQueued, this`rxRises, this`tps, this`txAsserted
      modifies this`txQueued, this`txRises
      modifies this`cleared, this`tkb, this`tpb, this`busy, this`txPoll, this`rxPoll
      ensures Registers() == WasReset(old(Registers()), hard)
    {
      DiscardData(hard);
      ResetTx();
      ResetRx();
      busy, txPoll, rxPoll := false, 0, 0;
    }

    method DiscardData(hard: bool)
      modifies this`cleared, this`tkb, this`tpb
      ensures cleared == old(cleared) + Leaving(old(Registers()))
      ensures tkb == (if hard then 0 else old(tkb)) && tpb == (if hard then 0 else old(tpb))
    {
      if tks.done {
        cleared := cleared + [tkb];
      }
      if hard {
        tkb, tpb := 0, 0;
      }
    }

    method ResetTx()
      modifies this`tps, this`txAsserted, this`txQueued, this`txRises
      ensures Tx() == ResetLine(old(Tx()), true)
    {
      SetTps(Csr(true, false));
      txAsserted, txQueued := false, false;
    }

    method ResetRx()
      modifies this`tks, this`rxAsserted, this`rxQueued, this`rxRises
      ensures Rx() == ResetLine(old(Rx()), false)
    {
      SetTks(Csr(false, false));
      rxAsserted, rxQueued := false, false;
    }
  }
}
