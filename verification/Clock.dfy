/**
 The KW11-P programmable clock. `Clock` holds the file statics of the device;
 `Count` is one pulse of the selected rate, and everything the device computes
 in closed form is specified by repeating `Count`.
 */
module ProgrammableClock {
  import opened Words

  const LINE_PERIOD_US := 16667
  const LINE_PERIOD_INSTR := 11667

  // Weights of the CSR bits on the bus; FIX is write-only.
  const ERR_BIT := 0x8000
  const DONE_BIT := 0x80
  const IE_BIT := 0x40
  const FIX_BIT := 0x20
  const UPDN_BIT := 0x10
  const MODE_BIT := 0x08
  const RATE_BIT := 0x02
  const GO_BIT := 0x01

  /** The stored CSR: every write keeps only IE, UPDN, MODE, RATE and GO, and expiries add DONE and ERR. */
  datatype Csr = Csr(err: bool, done: bool, ie: bool, up: bool, repeat: bool, rate: nat, go: bool)

  datatype Register = CsrReg | CsbReg | CntrReg | UnusedReg

  datatype State = State(csr: Csr, csb: word, cntr: word, last: qword, remainder: nat, irq: bool)

  /** Microseconds per count: 100 kHz, 10 kHz, line frequency and a 10 Hz external input. */
  function RateUs(rate: nat): int {
    if rate == 0 then 10 else if rate == 1 then 100 else if rate == 2 then 16667 else 100000
  }

  /** Guest instructions per count at a rate. */
  function PeriodInstr(rate: nat): (p: int)
    ensures 7 <= p <= 70001
  {
    var us := RateUs(rate);
    if us == 0 then 1
    else if LINE_PERIOD_INSTR * us / LINE_PERIOD_US != 0 then LINE_PERIOD_INSTR * us / LINE_PERIOD_US
    else 1
  }

  function StepsToExpiry(up: bool, value: word): (n: nat)
    ensures 1 <= n <= WORD_MOD
  {
    var steps := if up then WORD_MOD - value else value;
    if steps != 0 then steps else WORD_MOD
  }

  // ----- reference: one count at a time -----

  /** One expiry: a second one before DONE is read is an overrun. */
  function Expire(s: State): State {
    s.(csr := s.csr.(err := s.csr.err || s.csr.done, done := true), irq := s.irq || s.csr.ie)
  }

  /** The counter after `n` counts that do not pass an expiry. */
  function Advanced(up: bool, cntr: word, n: nat): word
    requires n <= WORD_MOD
  {
    var next := if up then cntr + n else cntr - n;
    if next >= WORD_MOD then next - WORD_MOD else if next < 0 then next + WORD_MOD else next
  }

  /** One pulse of a running clock. */
  function Count(s: State): State {
    if !s.csr.go then s
    else
      var next := Advanced(s.csr.up, s.cntr, 1);
      if next != 0 then s.(cntr := next)
      else if s.csr.repeat then Expire(s).(cntr := s.csb)
      else Stop(Expire(s))
  }

  /** What a one-shot expiry leaves behind. */
  function Stop(s: State): State {
    s.(csr := s.csr.(go := false), csb := 0, cntr := 0, remainder := 0)
  }

  function Counts(s: State, n: nat): State
    decreases n
  {
    if n == 0 then s else Counts(Count(s), n - 1)
  }

  /** A poll at instruction `now`, with `period` instructions per count. */
  function PollAt(s: State, now: qword, period: nat): State
    requires period > 0
  {
    var elapsed := if s.last == 0 then 0 else (now - s.last) % QWORD_MOD;
    if !s.csr.go then s.(last := now, remainder := 0)
    else
      var accumulated := (s.remainder + elapsed) % QWORD_MOD;
      Counts(s.(last := now, remainder := accumulated % period), accumulated / period)
  }

  function Poll(s: State, now: qword): State {
    PollAt(s, now, PeriodInstr(s.csr.rate))
  }

  /** What holds between any two operations while the instruction counter never goes back. */
  ghost predicate Inv(s: State) {
    && s.remainder <= s.last
    && (s.irq ==> s.csr.done && s.csr.ie)
  }

  // ----- the closed form is repeated counting -----

  lemma {:induction false} CountsAdd(s: State, m: nat, n: nat)
    ensures Counts(s, m + n) == Counts(Counts(s, m), n)
    decreases m
  {
    if m != 0 {
      CountsAdd(Count(s), m - 1, n);
    }
  }

  lemma {:induction false} CountsStopped(s: State, n: nat)
    requires !s.csr.go
    ensures Counts(s, n) == s
    decreases n
  {
    if n != 0 {
      CountsStopped(s, n - 1);
    }
  }

  lemma {:induction false} CountsShort(s: State, n: nat)
    requires s.csr.go && n < StepsToExpiry(s.csr.up, s.cntr)
    ensures Counts(s, n) == s.(cntr := Advanced(s.csr.up, s.cntr, n))
    decreases n
  {
    if n != 0 {
      var t := Count(s);
      assert t == s.(cntr := Advanced(s.csr.up, s.cntr, 1));
      CountsShort(t, n - 1);
    }
  }

  lemma CountsOne(s: State)
    ensures Counts(s, 1) == Count(s)
  {
    assert Counts(Count(s), 0) == Count(s);
  }

  lemma CountsToExpiry(s: State)
    requires s.csr.go
    ensures Counts(s, StepsToExpiry(s.csr.up, s.cntr)) ==
      if s.csr.repeat then Expire(s).(cntr := s.csb) else Stop(Expire(s))
  {
    var n := StepsToExpiry(s.csr.up, s.cntr);
    CountsAdd(s, n - 1, 1);
    CountsShort(s, n - 1);
    var t := s.(cntr := Advanced(s.csr.up, s.cntr, n - 1));
    assert Advanced(s.csr.up, t.cntr, 1) == 0;
    CountsOne(t);
  }

  /** Any number of expiries recorded at once. */
  function ExpireMany(s: State, count: nat): State {
    if count == 0 then s
    else
      s.(csr := s.csr.(err := s.csr.err || s.csr.done || count > 1, done := true),
         irq := s.irq || s.csr.ie)
  }

  /** The counts in a number of whole cycles. */
  function Cycles(cycles: nat, cycle: nat): nat {
    if cycles == 0 then 0 else Cycles(cycles - 1, cycle) + cycle
  }

  lemma {:induction false} CyclesProduct(cycles: nat, cycle: nat)
    ensures Cycles(cycles, cycle) == cycle * cycles
  {
    if cycles != 0 {
      CyclesProduct(cycles - 1, cycle);
      assert cycle * cycles == cycle * (cycles - 1) + cycle;
    }
  }

  /** A repeating clock sitting on its reload value returns to it every cycle. */
  lemma {:induction false} CountsCycles(s: State, cycles: nat, cycle: nat)
    requires s.csr.go && s.csr.repeat && s.cntr == s.csb
    requires cycle == StepsToExpiry(s.csr.up, s.csb)
    ensures Counts(s, Cycles(cycles, cycle)) == ExpireMany(s, cycles)
    decreases cycles
  {
    if cycles != 0 {
      CountsCycles(s, cycles - 1, cycle);
      CountsAdd(s, Cycles(cycles - 1, cycle), cycle);
      CountsToExpiry(ExpireMany(s, cycles - 1));
    }
  }

  // ----- polling at different times -----

  function Polls(s: State, times: seq<qword>): State
    decreases |times|
  {
    if times == [] then s else Polls(Poll(s, times[0]), times[1..])
  }

  ghost predicate NonDecreasing(from: int, times: seq<qword>) {
    && (forall i :: 0 <= i < |times| ==> from <= times[i])
    && (forall i, j :: 0 <= i < j < |times| ==> times[i] <= times[j])
  }

  /** Counting reads neither the time of the last poll nor the remainder. */
  lemma {:induction false} CountsFrame(s: State, n: nat, last: qword, r: nat)
    ensures var t := Counts(s, n);
            && t.last == s.last
            && t.remainder == (if t.csr.go == s.csr.go then s.remainder else 0)
            && t.csr.(err := false, done := false, go := false) == s.csr.(err := false, done := false, go := false)
            && (t.csr.go ==> s.csr.go)
            && Counts(s.(last := last, remainder := r), n) ==
               t.(last := last, remainder := if t.csr.go == s.csr.go then r else 0)
    decreases n
  {
    if n != 0 {
      var c := Count(s);
      if c.csr.go == s.csr.go {
        assert Count(s.(last := last, remainder := r)) == c.(last := last, remainder := r);
        CountsFrame(c, n - 1, last, r);
      } else {
        CountsStopped(c, n - 1);
        CountsStopped(Count(s.(last := last, remainder := r)), n - 1);
      }
    }
  }

  lemma {:induction false} CountsKeepIrq(s: State, n: nat)
    requires s.irq ==> s.csr.done && s.csr.ie
    ensures var t := Counts(s, n); t.irq ==> t.csr.done && t.csr.ie
    decreases n
  {
    if n != 0 {
      CountsKeepIrq(Count(s), n - 1);
    }
  }

  lemma CountsKeepInv(s: State, n: nat, remainder: nat, now: qword)
    requires s.irq ==> s.csr.done && s.csr.ie
    requires remainder <= now
    ensures var t := Counts(s.(last := now, remainder := remainder), n);
            Inv(t) && t.last == now && t.csr.rate == s.csr.rate && (t.csr.go ==> s.csr.go)
  {
    CountsFrame(s.(last := now, remainder := remainder), n, 0, 0);
    CountsKeepIrq(s.(last := now, remainder := remainder), n);
  }

  lemma PollKeepsInv(s: State, now: qword, p: nat)
    requires Inv(s) && s.last <= now && p > 0
    ensures var t := PollAt(s, now, p);
            Inv(t) && t.last == now && t.csr.rate == s.csr.rate && (t.csr.go ==> s.csr.go)
  {
    if s.csr.go {
      var elapsed := if s.last == 0 then 0 else (now - s.last) % QWORD_MOD;
      var a := (s.remainder + elapsed) % QWORD_MOD;
      SmallMod(now - s.last, QWORD_MOD);
      SmallMod(s.remainder + elapsed, QWORD_MOD);
      ModAtMost(a, p);
      CountsKeepInv(s, a / p, a % p, now);
    }
  }

  lemma PollKeeps(s: State, now: qword)
    ensures Poll(s, now).csr.rate == s.csr.rate && Poll(s, now).last == now
    ensures Inv(s) && s.last <= now ==> Inv(Poll(s, now))
  {
    var p: nat := PeriodInstr(s.csr.rate);
    if Inv(s) && s.last <= now {
      PollKeepsInv(s, now, p);
    } else if s.csr.go {
      var elapsed := if s.last == 0 then 0 else (now - s.last) % QWORD_MOD;
      var a := (s.remainder + elapsed) % QWORD_MOD;
      CountsFrame(s.(last := now, remainder := a % p), a / p, 0, 0);
    }
  }

  /** A poll of a clock that was polled before: `q` whole counts of the elapsed instructions, `r` left over. */
  lemma RunningPoll(s: State, now: qword, p: nat, q: nat, r: nat)
    requires Inv(s) && 0 < s.last <= now && s.csr.go
    requires r < p && s.remainder + now - s.last == p * q + r
    ensures PollAt(s, now, p) == Counts(s.(last := now, remainder := r), q)
  {
    SmallMod(now - s.last, QWORD_MOD);
    SmallMod(s.remainder + (now - s.last), QWORD_MOD);
    DivUnique(s.remainder + now - s.last, p, q, r);
  }

  lemma TwoPolls(s: State, t1: qword, t2: qword, p: nat)
    requires Inv(s) && s.last <= t1 <= t2 && p > 0
    requires s.last != 0 || !s.csr.go
    ensures PollAt(PollAt(s, t1, p), t2, p) == PollAt(s, t2, p)
  {
    if s.csr.go {
      var a := s.remainder + t1 - s.last;
      var b := a % p + t2 - t1;
      DivMod(a, p);
      DivMod(b, p);
      TwoRunningPolls(s, t1, t2, p, a / p, a % p, b / p, b % p);
    }
  }

  lemma TwoRunningPolls(s: State, t1: qword, t2: qword, p: nat, q1: nat, r1: nat, q2: nat, r2: nat)
    requires Inv(s) && 0 < s.last <= t1 <= t2 && s.csr.go
    requires r1 < p && s.remainder + t1 - s.last == p * q1 + r1
    requires r2 < p && r1 + t2 - t1 == p * q2 + r2
    ensures PollAt(PollAt(s, t1, p), t2, p) == PollAt(s, t2, p)
  {
    Distributes(p, q1, q2);
    RunningPoll(s, t1, p, q1, r1);
    RunningPoll(s, t2, p, q1 + q2, r2);
    TwoRuns(s, t1, t2, q1, q2, r1, r2);
    PollKeepsInv(s, t1, p);
    CountsFrame(s.(last := t1, remainder := r1), q1, 0, 0);
    SecondPoll(PollAt(s, t1, p), t2, p, q2, r2);
  }

  lemma Distributes(p: nat, q1: nat, q2: nat)
    ensures p * (q1 + q2) == p * q1 + p * q2
  {
  }

  lemma SecondPoll(c: State, now: qword, p: nat, q: nat, r: nat)
    requires Inv(c) && 0 < c.last <= now && p > 0
    requires c.csr.go ==> r < p && c.remainder + now - c.last == p * q + r
    ensures PollAt(c, now, p) ==
            if c.csr.go then Counts(c.(last := now, remainder := r), q) else c.(last := now, remainder := 0)
  {
    if c.csr.go {
      RunningPoll(c, now, p, q, r);
    }
  }

  /** A run of counts interrupted by a poll, which only moves `last` and the remainder. */
  lemma TwoRuns(s: State, t1: qword, t2: qword, m: nat, n: nat, r1: nat, r2: nat)
    requires s.csr.go
    ensures var c := Counts(s.(last := t1, remainder := r1), m);
            Counts(s.(last := t2, remainder := r2), m + n) ==
            if c.csr.go then Counts(c.(last := t2, remainder := r2), n) else c.(last := t2, remainder := 0)
  {
    var s1, s2 := s.(last := t1, remainder := r1), s.(last := t2, remainder := r2);
    var c := Counts(s1, m);
    CountsAdd(s2, m, n);
    CountsFrame(s1, m, t2, r2);
    if !c.csr.go {
      CountsStopped(c.(last := t2, remainder := 0), n);
    }
  }

  /** The schedule 1, 2 tells a running, never-polled clock from one polled once. */
  lemma FirstPollIsLost(s: State)
    requires Inv(s) && s.last == 0 && s.csr.go
    ensures Poll(Poll(s, 1), 2) != Poll(s, 2)
  {
    var p: nat := PeriodInstr(s.csr.rate);
    var s1, s2 := s.(last := 1, remainder := 0), s.(last := 2, remainder := 0);
    assert 0 % p == 0 && 0 / p == 0 && 1 % p == 1 && 1 / p == 0;
    assert Counts(s1, 0) == s1 && Counts(s2, 0) == s2;
    assert Poll(s, 1) == s1 && Poll(s, 2) == s2;
    RunningPoll(s1, 2, p, 0, 1);
    assert Counts(s1.(last := 2, remainder := 1), 0) == s2.(remainder := 1);
  }

  /**
   Polling is independent of its schedule exactly when the clock is stopped or
   has been polled at a nonzero time: a poll made while `last` is 0 counts nothing.
   */
  lemma PollScheduleIndependence(s: State)
    requires Inv(s)
    ensures (s.last != 0 || !s.csr.go) <==>
      forall times: seq<qword> | times != [] && NonDecreasing(s.last, times) ::
        Polls(s, times) == Poll(s, times[|times| - 1])
  {
    if s.last != 0 || !s.csr.go {
      forall times: seq<qword> | times != [] && NonDecreasing(s.last, times)
        ensures Polls(s, times) == Poll(s, times[|times| - 1])
      {
        ManyPolls(s, times);
      }
    } else {
      FirstPollIsLost(s);
      var times: seq<qword> := [1, 2];
      var s1 := Poll(s, 1);
      assert times[1..] == [2] && times[1..][1..] == [];
      assert Polls(s, times) == Polls(s1, times[1..]) == Polls(Poll(s1, 2), []);
      assert NonDecreasing(s.last, times) && times[|times| - 1] == 2;
    }
  }

  lemma {:induction false} ManyPolls(s: State, times: seq<qword>)
    requires Inv(s) && (s.last != 0 || !s.csr.go)
    requires times != [] && NonDecreasing(s.last, times)
    ensures Polls(s, times) == Poll(s, times[|times| - 1])
    decreases |times|
  {
    var p: nat := PeriodInstr(s.csr.rate);
    var s1 := Poll(s, times[0]);
    PollKeepsInv(s, times[0], p);
    var rest := times[1..];
    if rest != [] {
      assert rest[|rest| - 1] == times[|times| - 1];
      ManyPolls(s1, rest);
      TwoPolls(s, times[0], times[|times| - 1], p);
    }
  }

  // ----- the device -----

  /** A one-shot clock stops at its expiry, whatever is left to count. */
  lemma OneShotRun(s: State, steps: nat)
    requires s.csr.go && !s.csr.repeat
    ensures Counts(s, StepsToExpiry(s.csr.up, s.cntr) + steps) == Stop(Expire(s))
  {
    CountsAdd(s, StepsToExpiry(s.csr.up, s.cntr), steps);
    CountsToExpiry(s);
    CountsStopped(Stop(Expire(s)), steps);
  }

  lemma RepeatingCycles(s: State, cycles: nat, rest: nat, cycle: nat)
    requires s.csr.go && s.csr.repeat && s.cntr == s.csb && rest < cycle
    requires cycle == StepsToExpiry(s.csr.up, s.csb)
    ensures Counts(s, Cycles(cycles, cycle) + rest) ==
            ExpireMany(s, cycles).(cntr := Advanced(s.csr.up, s.csb, rest))
  {
    CountsAdd(s, Cycles(cycles, cycle), rest);
    CountsCycles(s, cycles, cycle);
    CountsShort(ExpireMany(s, cycles), rest);
  }

  /** A repeating clock: the first expiry, then whole cycles of the reload value, then the rest. */
  lemma RepeatingRun(s: State, steps: nat, cycles: nat, rest: nat)
    requires s.csr.go && s.csr.repeat && rest < StepsToExpiry(s.csr.up, s.csb)
    requires steps == Cycles(cycles, StepsToExpiry(s.csr.up, s.csb)) + rest
    ensures Counts(s, StepsToExpiry(s.csr.up, s.cntr) + steps) ==
            ExpireMany(s, 1 + cycles).(cntr := Advanced(s.csr.up, s.csb, rest))
  {
    CountsAdd(s, StepsToExpiry(s.csr.up, s.cntr), steps);
    CountsToExpiry(s);
    RepeatingCycles(Expire(s).(cntr := s.csb), cycles, rest, StepsToExpiry(s.csr.up, s.csb));
  }

  /** The CSR as the guest reads it. */
  function CsrWord(csr: Csr): word
    requires csr.rate < 4
  {
    If(csr.err, ERR_BIT) + If(csr.done, DONE_BIT) + If(csr.ie, IE_BIT) + If(csr.up, UPDN_BIT) +
    If(csr.repeat, MODE_BIT) + csr.rate * RATE_BIT + If(csr.go, GO_BIT)
  }

  /** The CSR a written word leaves; FIX is acted on but not stored. */
  function Written(value: word): (csr: Csr)
    ensures csr.rate < 4
  {
    Csr(false, false, Bit(value, IE_BIT), Bit(value, UPDN_BIT), Bit(value, MODE_BIT),
        value / RATE_BIT % 4, Bit(value, GO_BIT))
  }

  /** Reading back what was written gives its IE, UPDN, MODE, RATE and GO bits and nothing else. */
  lemma WriteReadCsr(value: word)
    ensures CsrWord(Written(value)) == value % 0x80 - If(Bit(value, FIX_BIT), FIX_BIT)
  {
    LowBit(value, 0x40);
    LowBit(value, 0x20);
    LowBit(value, 0x10);
    LowBit(value, 0x08);
    RateAndGo(value);
  }

  lemma RateAndGo(value: word)
    ensures value % 0x08 == value / RATE_BIT % 4 * RATE_BIT + If(Bit(value, GO_BIT), GO_BIT)
  {
    assert value % 0x08 == value / 2 % 4 * 2 + value % 2;
  }

  /** A FIX write: the same single count, taken with GO off. */
  function ManualCount(s: State): State {
    var t := Count(s.(csr := s.csr.(go := true)));
    t.(csr := t.csr.(go := false), remainder := s.remainder)
  }

  function AfterCsrWrite(p: State, value: word, now: qword): State {
    var c := Written(value);
    if c.go then
      if !p.csr.go || p.csr.rate != c.rate then State(c, p.csb, p.csb, now, 0, false)
      else State(c, p.csb, p.cntr, now, p.remainder, false)
    else
      var stopped := State(c, p.csb, p.cntr, now, 0, false);
      if Bit(value, FIX_BIT) then ManualCount(stopped) else stopped
  }

  function AfterRead(s: State, reg: Register, now: qword): State {
    var p := Poll(s, now);
    if reg.CsrReg? then p.(csr := p.csr.(err := false, done := false), irq := false) else p
  }

  function AfterWrite(s: State, reg: Register, value: word, now: qword): State {
    var p := Poll(s, now);
    match reg
    case CsrReg => AfterCsrWrite(p, value, now)
    case CsbReg => State(p.csr.(err := false, done := false), value, value, now, 0, false)
    case _ => p
  }

  function AfterReset(now: qword): State {
    State(Csr(false, false, false, false, false, 0, false), 0, 0, now, 0, false)
  }

  // ----- every run -----

  /** What the guest and the emulator do with the clock, each at an instruction count. */
  datatype Access =
    | TickAt(now: qword)
    | ReadAt(reg: Register, now: qword)
    | WriteAt(reg: Register, value: word, now: qword)
    | ResetAt(now: qword)
    | TakeAt(now: qword)

  function After(s: State, a: Access): State {
    match a
    case TickAt(now) => Poll(s, now)
    case ReadAt(reg, now) => AfterRead(s, reg, now)
    case WriteAt(reg, value, now) => AfterWrite(s, reg, value, now)
    case ResetAt(now) => AfterReset(now)
    case TakeAt(now) => s.(irq := false)
  }

  /** A running clock has been started at a nonzero time, and its remainder is less than a count. */
  ghost predicate Sound(s: State) {
    Inv(s) && (s.csr.go ==> s.last != 0) && s.remainder < PeriodInstr(s.csr.rate)
  }

  lemma PollKeepsSound(s: State, now: qword)
    requires Sound(s) && s.last <= now
    ensures Sound(Poll(s, now)) && Poll(s, now).last == now
  {
    var p: nat := PeriodInstr(s.csr.rate);
    PollKeepsInv(s, now, p);
    if s.csr.go {
      var a := (s.remainder + (now - s.last) % QWORD_MOD) % QWORD_MOD;
      DivMod(a, p);
      CountsFrame(s.(last := now, remainder := a % p), a / p, 0, 0);
    }
  }

  /** The one access that starts a clock without a start time: a CSR write with GO at instruction 0. */
  predicate StartsAtZero(a: Access) {
    a.WriteAt? && a.reg.CsrReg? && Written(a.value).go && a.now == 0
  }

  lemma CsrWriteSound(p: State, value: word, now: qword)
    requires Sound(p) && p.last == now
    ensures Sound(AfterCsrWrite(p, value, now)) <==> !(Written(value).go && now == 0)
    ensures AfterCsrWrite(p, value, now).last == now
  {
  }

  lemma AccessKeepsSound(s: State, a: Access)
    requires Sound(s) && s.last <= a.now
    ensures Sound(After(s, a)) <==> !StartsAtZero(a)
    ensures After(s, a).last <= a.now
  {
    PollKeepsSound(s, a.now);
    if a.WriteAt? && a.reg.CsrReg? {
      CsrWriteSound(Poll(s, a.now), a.value, a.now);
    }
  }

  function Run(s: State, accesses: seq<Access>): State
    decreases |accesses|
  {
    if accesses == [] then s else Run(After(s, accesses[0]), accesses[1..])
  }

  /** The instruction counter never goes back, and is incremented before the first guest instruction makes a write. */
  ghost predicate Timely(from: int, accesses: seq<Access>)
    decreases |accesses|
  {
    accesses != [] ==>
      && from <= accesses[0].now && (accesses[0].WriteAt? ==> accesses[0].now > 0)
      && Timely(accesses[0].now, accesses[1..])
  }

  lemma {:induction false} RunKeepsSound(s: State, from: int, accesses: seq<Access>)
    requires Sound(s) && s.last <= from && Timely(from, accesses)
    ensures Sound(Run(s, accesses))
    decreases |accesses|
  {
    if accesses != [] {
      AccessKeepsSound(s, accesses[0]);
      RunKeepsSound(After(s, accesses[0]), accesses[0].now, accesses[1..]);
    }
  }

  /**
   After every run from a reset, however it polled, read, wrote and reset the
   clock, any further polls leave what their last one alone would leave.
   */
  lemma ReachableClockIsPollIndependent(start: qword, accesses: seq<Access>, times: seq<qword>)
    requires Timely(start, accesses)
    requires var s := Run(AfterReset(start), accesses); times != [] && NonDecreasing(s.last, times)
    ensures var s := Run(AfterReset(start), accesses); Polls(s, times) == Poll(s, times[|times| - 1])
  {
    RunKeepsSound(AfterReset(start), start, accesses);
    ManyPolls(Run(AfterReset(start), accesses), times);
  }

  /** Only a clock started while the instruction counter still stands at 0 loses its first poll. */
  lemma StartedAtZero(s: State, value: word)
    requires Sound(s) && s.last == 0 && Written(value).go
    ensures var t := After(s, WriteAt(CsrReg, value, 0)); Inv(t) && Poll(Poll(t, 1), 2) != Poll(t, 2)
  {
    PollKeepsSound(s, 0);
    FirstPollIsLost(After(s, WriteAt(CsrReg, value, 0)));
  }

  class Clock {
    var enabled: bool
    var csr: Csr
    var csb: word
    var cntr: word
    var lastInstr: qword
    var remainderInstr: nat
    var irqPending: bool

    ghost function Abs(): State
      reads this
    {
      State(csr, csb, cntr, lastInstr, remainderInstr, irqPending)
    }

    constructor (now: qword, enabled: bool)
      ensures Abs() == AfterReset(now)
      ensures Inv(Abs()) && csr.rate < 4 && this.enabled == enabled
    {
      this.enabled := enabled;
      csr := Csr(false, false, false, false, false, 0, false);
      csb, cntr, remainderInstr, irqPending := 0, 0, 0, false;
      lastInstr := now;
    }

    method RequestInterrupt()
      modifies this`irqPending
      ensures irqPending == (old(irqPending) || csr.ie)
    {
      if csr.ie {
        irqPending := true;
      }
    }

    method RecordExpirations(count: nat)
      modifies this`csr, this`irqPending
      ensures Abs() == ExpireMany(old(Abs()), count)
    {
      if count == 0 {
        return;
      }
      if csr.done || count > 1 {
        csr := csr.(err := true);
      }
      csr := csr.(done := true);
      RequestInterrupt();
    }

    method AdvanceWithoutExpiry(steps: nat)
      requires steps < WORD_MOD
      modifies this`cntr
      ensures cntr == Advanced(csr.up, old(cntr), steps)
    {
      if csr.up {
        cntr := (cntr + steps) % WORD_MOD;
      } else {
        cntr := (cntr - steps) % WORD_MOD;
      }
    }

    /** However many counts have passed, the device ends where counting them one by one ends. */
    method AdvanceSteps(n: qword)
      modifies this
      ensures Abs() == Counts(old(Abs()), n)
      ensures enabled == old(enabled)
    {
      ghost var s := Abs();
      if !csr.go || n == 0 {
        if !csr.go {
          CountsStopped(s, n);
        }
        return;
      }
      var first := StepsToExpiry(csr.up, cntr);
      if n < first {
        CountsShort(s, n);
        AdvanceWithoutExpiry(n);
        return;
      }
      var steps: nat := n - first;
      cntr := 0;
      if !csr.repeat {
        OneShotRun(s, steps);
        RecordExpirations(1);
        csb := 0;
        csr := csr.(go := false);
        remainderInstr := 0;
        return;
      }
      cntr := csb;
      var expirations: nat, rest: nat := WholeCycles(steps, StepsToExpiry(csr.up, cntr));
      RepeatingRun(s, steps, expirations - 1, rest);
      if rest != 0 {
        AdvanceWithoutExpiry(rest);
      }
      RecordExpirations(expirations);
    }

    /** The expiries of a repeating clock, counting the first, and the counts left over. */
    static method WholeCycles(steps: nat, cycle: nat) returns (expirations: nat, rest: nat)
      requires cycle > 0
      ensures expirations >= 1 && rest < cycle
      ensures steps == Cycles(expirations - 1, cycle) + rest
    {
      expirations, rest := 1, steps;
      DivMod(steps, cycle);
      CyclesProduct(steps / cycle, cycle);
      if rest >= cycle {
        expirations := expirations + steps / cycle;
        rest := steps % cycle;
      }
    }

    method UpdateClock(now: qword)
      modifies this
      ensures Abs() == Poll(old(Abs()), now)
      ensures enabled == old(enabled)
    {
      var elapsed := if lastInstr == 0 then 0 else (now - lastInstr) % QWORD_MOD;
      lastInstr := now;
      if !csr.go {
        remainderInstr := 0;
        return;
      }
      var period := PeriodInstr(csr.rate);
      var accumulated := (remainderInstr + elapsed) % QWORD_MOD;
      ModAtMost(accumulated, period);
      var steps := accumulated / period;
      remainderInstr := accumulated % period;
      AdvanceSteps(steps);
    }

    method ManualTick()
      modifies this
      ensures Abs() == if old(csr.go) then old(Abs()) else ManualCount(old(Abs()))
      ensures enabled == old(enabled)
    {
      if csr.go {
        return;
      }
      if csr.up {
        cntr := (cntr + 1) % WORD_MOD;
      } else {
        cntr := (cntr - 1) % WORD_MOD;
      }
      if cntr == 0 {
        RecordExpirations(1);
        if !csr.repeat {
          csb := 0;
        } else {
          cntr := csb;
        }
      }
    }

    method ReadWord(reg: Register, now: qword) returns (value: word)
      requires csr.rate < 4
      modifies this
      ensures enabled == old(enabled) && csr.rate < 4
      ensures !enabled ==> value == 0 && Abs() == old(Abs())
      ensures enabled ==>
        var p := Poll(old(Abs()), now);
        && p.csr.rate < 4
        && value == (match reg case CsrReg => CsrWord(p.csr) case CntrReg => p.cntr case _ => 0)
        && Abs() == AfterRead(old(Abs()), reg, now)
      ensures old(Inv(Abs())) && old(lastInstr) <= now ==> Inv(Abs())
    {
      if !enabled {
        return 0;
      }
      PollKeeps(Abs(), now);
      UpdateClock(now);
      match reg {
        case CsrReg =>
          value := CsrWord(csr);
          csr := csr.(err := false, done := false);
          irqPending := false;
        case CntrReg => value := cntr;
        case _ => value := 0;
      }
    }

    method WriteCsr(value: word, now: qword)
      modifies this
      ensures enabled == old(enabled) && csr.rate < 4
      ensures Abs() == AfterCsrWrite(old(Abs()), value, now)
    {
      var oldRate, wasRunning := csr.rate, csr.go;
      irqPending := false;
      csr := Written(value);
      if !csr.go {
        remainderInstr := 0;
        lastInstr := now;
        if Bit(value, FIX_BIT) {
          ManualTick();
        }
      } else if !wasRunning || oldRate != csr.rate {
        cntr := csb;
        remainderInstr := 0;
      }
      lastInstr := now;
    }

    method WriteWord(reg: Register, value: word, now: qword)
      requires csr.rate < 4
      modifies this
      ensures enabled == old(enabled) && csr.rate < 4
      ensures !enabled ==> Abs() == old(Abs())
      ensures enabled ==> Abs() == AfterWrite(old(Abs()), reg, value, now)
      ensures old(Inv(Abs())) && old(lastInstr) <= now ==> Inv(Abs())
    {
      if !enabled {
        return;
      }
      PollKeeps(Abs(), now);
      UpdateClock(now);
      match reg {
        case CsrReg =>
          WriteCsr(value, now);
        case CsbReg =>
          csb := value;
          cntr := value;
          csr := csr.(err := false, done := false);
          irqPending := false;
          remainderInstr := 0;
          lastInstr := now;
        case _ =>
      }
    }

    method Tick(now: qword)
      requires csr.rate < 4
      modifies this
      ensures enabled == old(enabled) && csr.rate < 4
      ensures Abs() == if enabled then Poll(old(Abs()), now) else old(Abs())
      ensures old(Inv(Abs())) && old(lastInstr) <= now ==> Inv(Abs())
    {
      if !enabled {
        return;
      }
      PollKeeps(Abs(), now);
      UpdateClock(now);
    }

    /** A request is handed over at most once, and only while DONE and IE are both set. */
    method TakeInterrupt() returns (taken: bool)
      modifies this`irqPending
      ensures taken == (enabled && old(irqPending))
      ensures irqPending == (old(irqPending) && !taken)
      ensures Inv(old(Abs())) && taken ==> csr.done && csr.ie
    {
      if !enabled || !irqPending {
        return false;
      }
      irqPending := false;
      return true;
    }

    method Reset(now: qword)
      modifies this
      ensures Abs() == AfterReset(now)
      ensures Inv(Abs()) && csr.rate < 4 && enabled == old(enabled)
    {
      csr := Csr(false, false, false, false, false, 0, false);
      csb := 0;
      cntr := 0;
      remainderInstr := 0;
      irqPending := false;
      lastInstr := now;
    }
  }
}
