/**
 How long the clock takes: from the words written and the instruction counts at which
 they are written, to the bits the guest reads back.
 */
module ClockTiming {
  import opened Words
  import opened ProgrammableClock

  /** Microseconds per count of the four rates. */
  function Interval(rate: nat): nat {
    if rate == 0 then 10 else if rate == 1 then 100 else if rate == 2 then 16667 else 100_000
  }

  /** Whole guest instructions per count, at 11667 instructions to a line period of 16667 microseconds. */
  ghost predicate IsPeriod(p: nat, rate: nat) {
    p * 16667 <= 11667 * Interval(rate) < (p + 1) * 16667
  }

  /** Counts from a value to the next zero: down to it, or up past the top. */
  function ToZero(up: bool, v: word): nat {
    if up then 0x1_0000 - v else if v == 0 then 0x1_0000 else v
  }

  lemma PeriodIs(p: nat, rate: nat)
    requires IsPeriod(p, rate) && rate < 4
    ensures PeriodInstr(rate) == p && p > 0
  {
    DivUnique(11667 * Interval(rate), 16667, p, 11667 * Interval(rate) - p * 16667);
  }

  // ----- a running clock -----

  /** Not expired since its status was last cleared, and polled before. */
  ghost predicate Fresh(s: State) {
    Inv(s) && s.csr.go && s.last > 0 && !s.csr.done && !s.csr.err && !s.irq && s.csr.rate < 4
  }

  /** The counter after `n` counts that wrap at most once. */
  function Moved(up: bool, v: word, n: nat): int {
    (if up then v + n else v - n) % 0x1_0000
  }

  /** What a poll shows of a running clock, `elapsed` instructions after its counter stood at `from`. */
  ghost predicate Shows(t: State, up: bool, repeat: bool, ie: bool, from: word, reload: word, p: nat, elapsed: nat)
    requires p > 0 && t.csr.rate < 4
  {
    var first, cycle, counts := ToZero(up, from), ToZero(up, reload), elapsed / p;
    var status: nat := CsrWord(t.csr);
    && (status / 0x80 % 2 == 1 <==> elapsed >= first * p)
    && (status / 0x8000 % 2 == 1 <==> repeat && elapsed >= (first + cycle) * p)
    && (status % 2 == 1 <==> repeat || elapsed < first * p)
    && (t.irq <==> ie && elapsed >= first * p)
    && t.cntr == (if elapsed < first * p then Moved(up, from, counts)
                  else if repeat then Moved(up, reload, (counts - first) % cycle) else 0)
    && t.csb == if repeat || elapsed < first * p then reload else 0
  }

  lemma StatusBits(csr: Csr)
    requires csr.rate < 4
    ensures var w: nat := CsrWord(csr);
            (w / 0x80 % 2 == 1 <==> csr.done) && (w / 0x8000 % 2 == 1 <==> csr.err) && (w % 2 == 1 <==> csr.go)
            && (w / 0x40 % 2 == 1 <==> csr.ie)
  {
    var w: nat := CsrWord(csr);
    var low := If(csr.up, 0x10) + If(csr.repeat, 8) + csr.rate * 2 + If(csr.go, 1);
    var high := If(csr.err, 0x100) + If(csr.done, 1);
    assert w == 0x80 * high + If(csr.ie, 0x40) + low;
    DivUnique(w, 0x8000, If(csr.err, 1), w - If(csr.err, 0x8000));
    DivUnique(w, 0x80, high, If(csr.ie, 0x40) + low);
    DivUnique(w, 0x40, 2 * high + If(csr.ie, 1), low);
  }

  /** Whole periods: a number of counts has passed exactly when its instructions have. */
  lemma PassedExactly(elapsed: nat, p: nat, n: nat)
    requires p > 0
    ensures elapsed >= n * p <==> elapsed / p >= n
  {
    var q := elapsed / p;
    DivMod(elapsed, p);
    if q >= n {
      Monotone(p, n, q);
    } else {
      MulStep(p, q, n);
    }
  }

  lemma Monotone(p: nat, n: nat, q: nat)
    requires n <= q
    ensures p * n <= p * q
  {
    if n < q {
      MulStep(p, n, q);
    }
  }

  lemma ToZeroIsSteps(up: bool, v: word)
    ensures ToZero(up, v) == StepsToExpiry(up, v)
  {
  }

  lemma MovedIsAdvanced(up: bool, v: word, n: nat)
    requires n <= WORD_MOD
    ensures Moved(up, v, n) == Advanced(up, v, n)
  {
    var x, a := if up then v + n else v - n, Advanced(up, v, n);
    FloorUnique(x, WORD_MOD, if x >= WORD_MOD then 1 else if x < 0 then -1 else 0, a);
  }

  /** Counting, told by how many counts there are. */
  lemma CountsShow(s: State, n: nat)
    requires Fresh(s)
    ensures var t := Counts(s, n); var first, cycle := ToZero(s.csr.up, s.cntr), ToZero(s.csr.up, s.csb);
            && (t.csr.done <==> n >= first) && (t.csr.err <==> s.csr.repeat && n >= first + cycle)
            && (t.csr.go <==> s.csr.repeat || n < first) && (t.irq <==> s.csr.ie && n >= first)
            && t.csr.rate == s.csr.rate
            && t.cntr == (if n < first then Moved(s.csr.up, s.cntr, n)
                          else if s.csr.repeat then Moved(s.csr.up, s.csb, (n - first) % cycle) else 0)
            && t.csb == if s.csr.repeat || n < first then s.csb else 0
  {
    var first, cycle := ToZero(s.csr.up, s.cntr), ToZero(s.csr.up, s.csb);
    ToZeroIsSteps(s.csr.up, s.cntr);
    ToZeroIsSteps(s.csr.up, s.csb);
    if n < first {
      CountsShort(s, n);
      MovedIsAdvanced(s.csr.up, s.cntr, n);
    } else if s.csr.repeat {
      var steps: nat := n - first;
      DivMod(steps, cycle);
      CyclesProduct(steps / cycle, cycle);
      PassedExactly(steps, cycle, 1);
      RepeatingRun(s, steps, steps / cycle, steps % cycle);
      MovedIsAdvanced(s.csr.up, s.csb, steps % cycle);
    } else {
      OneShotRun(s, n - first);
    }
  }

  /** A poll shows DONE exactly when the counter has had time to reach zero. */
  lemma PollShows(s: State, now: qword, p: nat)
    requires Fresh(s) && s.last <= now && IsPeriod(p, s.csr.rate)
    ensures p > 0 && Poll(s, now).csr.rate < 4
    ensures Shows(Poll(s, now), s.csr.up, s.csr.repeat, s.csr.ie, s.cntr, s.csb, p, s.remainder + now - s.last)
  {
    PeriodIs(p, s.csr.rate);
    var elapsed: nat := s.remainder + now - s.last;
    DivMod(elapsed, p);
    RunningPoll(s, now, p, elapsed / p, elapsed % p);
    var s1 := s.(last := now, remainder := elapsed % p);
    ModAtMost(elapsed, p);
    CountsShow(s1, elapsed / p);
    StatusBits(Poll(s, now).csr);
    var first, cycle := ToZero(s.csr.up, s.cntr), ToZero(s.csr.up, s.csb);
    PassedExactly(elapsed, p, first);
    PassedExactly(elapsed, p, first + cycle);
  }

  // ----- from the words written -----

  /** A CSR word that starts the clock: its rate, direction, mode and enable bits. */
  predicate Starts(w: word) {
    w % 2 == 1
  }

  /** What the guest sees after starting a stopped clock with a reload value. */
  ghost predicate Timed(t: State, w: word, v: word, p: nat, elapsed: nat)
    requires p > 0 && t.csr.rate < 4
  {
    Shows(t, w / 0x10 % 2 == 1, w / 8 % 2 == 1, w / 0x40 % 2 == 1, v, v, p, elapsed)
  }

  /**
   A stopped clock, started at instruction `t` by a CSR word with reload value `v`: at
   `now` DONE shows if and only if the counts from `v` to zero, at the rate of the word,
   have had time to pass since `t`. Whatever the counter held before is of no account.
   */
  lemma StartedShows(s: State, w: word, t: qword, now: qword, p: nat)
    requires !s.csr.go && Starts(w) && 0 < t <= now && IsPeriod(p, w / 2 % 4)
    ensures var after := Poll(AfterWrite(s, CsrReg, w, t), now);
            p > 0 && after.csr.rate < 4 && Timed(after, w, s.csb, p, now - t)
  {
    PollShows(AfterWrite(s, CsrReg, w, t), now, p);
  }

  /** From the reload value written, whenever the start follows. */
  lemma WrittenAndStarted(s: State, v: word, w: word, t0: qword, t: qword, now: qword, p: nat)
    requires !s.csr.go && Starts(w) && 0 < t <= now && IsPeriod(p, w / 2 % 4)
    ensures var after := Poll(AfterWrite(AfterWrite(s, CsbReg, v, t0), CsrReg, w, t), now);
            p > 0 && after.csr.rate < 4 && Timed(after, w, v, p, now - t)
  {
    StartedShows(AfterWrite(s, CsbReg, v, t0), w, t, now, p);
  }

  /** Stopping a clock: the reload value stays, unless a one-shot run has ended and zeroed it. */
  lemma StoppedShows(s: State, w: word, t: qword, stop: word, t1: qword, p: nat)
    requires !s.csr.go && Starts(w) && 0 < t <= t1 && IsPeriod(p, w / 2 % 4)
    requires !Starts(stop) && stop / 0x20 % 2 == 0
    ensures var after := AfterWrite(AfterWrite(s, CsrReg, w, t), CsrReg, stop, t1);
            var ended := w / 8 % 2 == 0 && t1 - t >= ToZero(w / 0x10 % 2 == 1, s.csb) * p;
            !after.csr.go && !after.csr.done && !after.irq && after.csb == if ended then 0 else s.csb
  {
    StartedShows(s, w, t, t1, p);
  }

  /** A restart begins again from the reload value: the time that passed before the stop does not count. */
  lemma RestartedShows(s: State, w: word, t: qword, stop: word, t1: qword, again: word, t2: qword, now: qword,
                       p: nat, p': nat)
    requires !s.csr.go && Starts(w) && Starts(again) && 0 < t <= t1 <= t2 <= now
    requires IsPeriod(p, w / 2 % 4) && IsPeriod(p', again / 2 % 4) && !Starts(stop) && stop / 0x20 % 2 == 0
    requires w / 8 % 2 == 1 || t1 - t < ToZero(w / 0x10 % 2 == 1, s.csb) * p
    ensures var stopped := AfterWrite(AfterWrite(s, CsrReg, w, t), CsrReg, stop, t1);
            var after := Poll(AfterWrite(stopped, CsrReg, again, t2), now);
            p' > 0 && after.csr.rate < 4 && Timed(after, again, s.csb, p', now - t2)
  {
    StoppedShows(s, w, t, stop, t1, p);
    StartedShows(AfterWrite(AfterWrite(s, CsrReg, w, t), CsrReg, stop, t1), again, t2, now, p');
  }

  /** A CSR word for a running clock: at another rate it starts it anew, at the same rate the count goes on. */
  lemma RewrittenShows(s: State, w: word, t: qword, now: qword, p: nat)
    requires Sound(s) && s.csr.rate < 4 && s.last <= t && Poll(s, t).csr.go
    requires Starts(w) && 0 < t <= now && IsPeriod(p, w / 2 % 4)
    ensures var polled, after := Poll(s, t), Poll(AfterWrite(s, CsrReg, w, t), now);
            && p > 0 && after.csr.rate < 4
            && (w / 2 % 4 != s.csr.rate ==> Timed(after, w, polled.csb, p, now - t))
            && (w / 2 % 4 == s.csr.rate ==>
                 Shows(after, w / 0x10 % 2 == 1, w / 8 % 2 == 1, w / 0x40 % 2 == 1, polled.cntr, polled.csb, p,
                       polled.remainder + now - t))
  {
    PollKeepsSound(s, t);
    PollKeeps(s, t);
    PollShows(AfterWrite(s, CsrReg, w, t), now, p);
  }

  /** A reload value written to a running clock counts from there at once. */
  lemma ReloadedShows(s: State, v: word, t: qword, now: qword, p: nat)
    requires Sound(s) && s.csr.rate < 4 && s.last <= t && Poll(s, t).csr.go
    requires 0 < t <= now && IsPeriod(p, s.csr.rate)
    ensures var after := Poll(AfterWrite(s, CsbReg, v, t), now);
            && p > 0 && after.csr.rate < 4
            && Shows(after, s.csr.up, s.csr.repeat, s.csr.ie, v, v, p, now - t)
  {
    PollKeepsSound(s, t);
    PollKeeps(s, t);
    RateStays(s, t);
    PollShows(AfterWrite(s, CsbReg, v, t), now, p);
  }

  lemma RateStays(s: State, t: qword)
    ensures var c := Poll(s, t).csr; c.up == s.csr.up && c.repeat == s.csr.repeat && c.ie == s.csr.ie
  {
    if s.csr.go {
      var p: nat := PeriodInstr(s.csr.rate);
      var elapsed := if s.last == 0 then 0 else (t - s.last) % QWORD_MOD;
      var a := (s.remainder + elapsed) % QWORD_MOD;
      CountsFrame(s.(last := t, remainder := a % p), a / p, 0, 0);
      assert Poll(s, t).csr.(err := false, done := false, go := false) ==
             s.csr.(err := false, done := false, go := false);
    }
  }

  // ----- reads -----

  /** Reading the CSR shows DONE, ERR and the request once: after it they are down, and nothing else has changed. */
  lemma ReadClears(s: State, now: qword)
    ensures var p, t := Poll(s, now), AfterRead(s, CsrReg, now);
            !t.csr.done && !t.csr.err && !t.irq && p == t.(csr := p.csr, irq := p.irq)
            && t.csr == p.csr.(done := false, err := false)
    ensures AfterRead(s, CntrReg, now) == Poll(s, now) && AfterRead(s, CsbReg, now) == Poll(s, now)
  {
  }

  /** While the clock is stopped each FIX write counts once, and expires it at zero. */
  lemma FixCounts(s: State, w: word, t: qword)
    requires !s.csr.go && !Starts(w) && w / 0x20 % 2 == 1
    ensures var after := AfterWrite(s, CsrReg, w, t); var up := w / 0x10 % 2 == 1;
            var zero := Moved(up, s.cntr, 1) == 0;
            && !after.csr.go && (after.csr.done <==> zero) && !after.csr.err
            && (after.irq <==> zero && w / 0x40 % 2 == 1)
            && after.cntr == (if zero && w / 8 % 2 == 1 then s.csb else Moved(up, s.cntr, 1))
            && after.csb == if zero && w / 8 % 2 == 0 then 0 else s.csb
  {
    MovedIsAdvanced(w / 0x10 % 2 == 1, s.cntr, 1);
  }
}
