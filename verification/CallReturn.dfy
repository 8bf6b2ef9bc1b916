/**
 Traps, RTI, JSR and RTS over flat 64 KB memory with relocation off. `Machine`
 is the architectural state as a value; the methods of `Cpu` update the same
 state in place and are proved to follow the value functions.
 */
module CallReturn {
  import opened Words

  const CELLS: nat := 0x8000
  const IO_PAGE: nat := 0xE000
  const SP: nat := 6
  const PC: nat := 7
  const YELLOW := 0xE0
  const LIMIT := 0x100
  const STACK_VECTOR: nat := 4

  /** The processor status; the reserved bits 8 to 10 are never stored. */
  datatype Psw = Psw(mode: nat, prev: nat, bank: bool, spl: nat, low: nat)

  predicate PswOk(p: Psw) {
    p.mode < 4 && p.prev < 4 && p.spl < 8 && p.low < 32
  }

  function Encoded(p: Psw): word
    requires PswOk(p)
  {
    p.mode * 0x4000 + p.prev * 0x1000 + If(p.bank, 0x800) + p.spl * 0x20 + p.low
  }

  function Decoded(w: word): (p: Psw)
    ensures PswOk(p)
  {
    Psw(w / 0x4000, w / 0x1000 % 4, Bit(w, 0x800), w / 0x20 % 8, w % 0x20)
  }

  lemma PswRoundTrip(p: Psw)
    requires PswOk(p)
    ensures Decoded(Encoded(p)) == p
  {
    var w: int := Encoded(p);
    var bank := If(p.bank, 1);
    DivUnique(w, 0x20, p.mode * 0x200 + p.prev * 0x80 + bank * 0x40 + p.spl, p.low);
    DivUnique(w / 0x20, 8, p.mode * 0x40 + p.prev * 0x10 + bank * 8, p.spl);
    DivUnique(w, 0x800, p.mode * 8 + p.prev * 2 + bank, p.spl * 0x20 + p.low);
    DivUnique(w / 0x800, 2, p.mode * 4 + p.prev, bank);
    DivUnique(w, 0x1000, p.mode * 4 + p.prev, bank * 0x800 + p.spl * 0x20 + p.low);
    DivUnique(w / 0x1000, 4, p.mode, p.prev);
    DivUnique(w, 0x4000, p.mode, p.prev * 0x1000 + bank * 0x800 + p.spl * 0x20 + p.low);
  }

  /** What RTI makes of a popped PSW: outside kernel mode it can neither raise privilege nor touch the priority. */
  function ReturnedPsw(current: Psw, popped: Psw): Psw {
    if current.mode == 0 then popped
    else Psw(Confined(popped.mode, current.mode), Confined(popped.prev, current.prev),
             current.bank || popped.bank, current.spl, popped.low)
  }

  function Confined(a: nat, b: nat): nat {
    var m := if a > b then a else b;
    if m == 2 then 3 else m
  }

  lemma RtiNeverGainsPrivilege(current: Psw, popped: Psw)
    requires PswOk(current) && PswOk(popped) && current.mode != 0
    ensures var r := ReturnedPsw(current, popped);
            PswOk(r) && r.mode >= current.mode && r.prev >= current.prev && r.spl == current.spl && r.mode != 2
    ensures var r := ReturnedPsw(current, popped);
            && LeastLegal(r.mode, current.mode, popped.mode) && LeastLegal(r.prev, current.prev, popped.prev)
            && r.bank == (current.bank || popped.bank) && r.low == popped.low
  {
  }

  /** `mode` is the most privileged of the three legal modes that is no more privileged than either of two. */
  predicate LeastLegal(mode: nat, a: nat, b: nat) {
    && (mode == 0 || mode == 1 || mode == 3) && mode >= a && mode >= b
    && (1 >= a && 1 >= b ==> mode <= 1) && (0 >= a && 0 >= b ==> mode == 0)
  }

  datatype Machine = Machine(
    general: seq<word>,   // R0 to R5 of both register sets
    sp: seq<word>,        // one stack pointer per mode
    pc: word,
    psw: Psw,
    mem: seq<word>,       // one cell per word address
    stackLimit: word,
    inTrap: bool,
    delayedTrap: Option<nat>,
    anyQueued: bool
  )

  ghost predicate Ok(m: Machine) {
    |m.general| == 12 && |m.sp| == 4 && |m.mem| == CELLS && PswOk(m.psw)
  }

  /** An even address in ordinary memory; any other access aborts the instruction. */
  predicate Plain(a: word) {
    a % 2 == 0 && a < IO_PAGE
  }

  function Plus(a: word, d: int): word {
    (a + d) % WORD_MOD
  }

  function Word(m: Machine, a: word): word
    requires Ok(m)
  {
    m.mem[a / 2]
  }

  function Slot(p: Psw, nr: nat): nat
    requires nr < 6
  {
    if p.bank then 6 + nr else nr
  }

  function Get(m: Machine, nr: nat): word
    requires Ok(m) && nr <= PC
  {
    if nr < 6 then m.general[Slot(m.psw, nr)] else if nr == SP then m.sp[m.psw.mode] else m.pc
  }

  function Set(m: Machine, nr: nat, v: word): (r: Machine)
    requires Ok(m) && nr <= PC
    ensures Ok(r)
  {
    if nr < 6 then m.(general := m.general[Slot(m.psw, nr) := v])
    else if nr == SP then m.(sp := m.sp[m.psw.mode := v])
    else m.(pc := v)
  }

  /** The machine as another program sees it that runs in this mode with this register set. */
  function SeenIn(m: Machine, mode: nat, bank: bool): (r: Machine)
    requires Ok(m) && mode < 4
    ensures Ok(r)
  {
    m.(psw := m.psw.(mode := mode, bank := bank))
  }

  /**
   Writing a register is seen by exactly the programs that share it: R0 to R5 by those
   with the same register set, SP by those in the same mode, PC by all.
   */
  lemma RegistersApart(m: Machine, nr: nat, v: word, mode: nat, bank: bool, other: nat)
    requires Ok(m) && nr <= PC && other <= PC && mode < 4
    ensures Get(SeenIn(Set(m, nr, v), mode, bank), other) ==
            if nr == other && (nr < 6 ==> bank == m.psw.bank) && (nr == SP ==> mode == m.psw.mode) then v
            else Get(SeenIn(m, mode, bank), other)
  {
  }

  // ----- the stack -----

  function Limit(m: Machine): nat {
    m.stackLimit / 0x100 * 0x100
  }

  /** Kernel pushes from just above the limit are checked; the emergency stack at 4 is not. */
  predicate Checked(m: Machine)
    requires Ok(m)
  {
    m.psw.mode == 0 && 4 < m.sp[0] < Limit(m) + LIMIT
  }

  function PlainPush(m: Machine, v: word): (r: Machine)
    requires Ok(m)
    ensures Ok(r)
  {
    var a := Plus(Get(m, SP), -2);
    Set(m, SP, a).(mem := m.mem[a / 2 := v])
  }

  /** A push, with the yellow and red zones of the kernel stack limit. */
  function Pushed(m: Machine, v: word): (r: Machine)
    requires Ok(m)
    ensures Ok(r)
  {
    if !Checked(m) then PlainPush(m, v)
    else if m.sp[0] >= Limit(m) + YELLOW then PlainPush(m, v).(delayedTrap := Some(STACK_VECTOR), anyQueued := true)
    else if m.inTrap then PlainPush(Set(m, SP, 4), v)
    else Set(m, SP, 4).(delayedTrap := Some(STACK_VECTOR), anyQueued := true)
  }

  /**
   The zones of the kernel stack, by the address pushed from: 32 bytes of yellow below
   the limit's 256, where the push is made and a trap follows; and red below those,
   where nothing is stored on the stack but SP moves to the emergency stack at 4.
   */
  lemma PushZones(m: Machine, v: word)
    requires Ok(m) && m.psw.mode == 0 && m.sp[0] >= 2 && m.sp[0] % 2 == 0
    ensures var p, s := Pushed(m, v), m.sp[0]; var depth := m.stackLimit / 0x100 * 0x100 + 0x100 - s;
            && (s <= 4 || depth <= 0x20 ==> p.sp[0] == s - 2 && p.mem == m.mem[s / 2 - 1 := v])
            && (s > 4 && depth > 0x20 ==>
                 if m.inTrap then p.sp[0] == 2 && p.mem == m.mem[1 := v] else p.sp[0] == 4 && p.mem == m.mem)
            && (if s > 4 && depth > 0 && (depth <= 0x20 || !m.inTrap)
                then p.delayedTrap == Some(4) && p.anyQueued
                else p.delayedTrap == m.delayedTrap && p.anyQueued == m.anyQueued)
  {
    SmallMod(m.sp[0] - 2, WORD_MOD);
    SmallMod(2, WORD_MOD);
  }

  function Popped(m: Machine): (r: (Machine, word))
    requires Ok(m)
    ensures Ok(r.0)
  {
    (Set(m, SP, Plus(Get(m, SP), 2)), Word(m, Get(m, SP)))
  }

  // ----- trap and RTI -----

  /** The PSW a trap enters its handler with. */
  function HandlerPsw(m: Machine, vector: word, ipl: Option<nat>): (p: Psw)
    requires Ok(m) && vector + 2 < WORD_MOD && (ipl.Some? ==> ipl.value < 8)
    ensures PswOk(p)
  {
    var v := Decoded(Word(m, vector + 2));
    Psw(v.mode, m.psw.mode, v.bank, if ipl.Some? then ipl.value else v.spl, v.low)
  }

  /** A trap at depth one: new PC and PSW from the vector, old PSW and PC on the handler's stack. */
  function Trapped(m: Machine, vector: word, ipl: Option<nat>): (r: Machine)
    requires Ok(m) && vector + 2 < WORD_MOD && (ipl.Some? ==> ipl.value < 8)
    ensures Ok(r)
  {
    var p := HandlerPsw(m, vector, ipl);
    var entered := m.(pc := Word(m, vector), psw := p, anyQueued := m.anyQueued || p.spl < m.psw.spl, inTrap := true);
    Pushed(Pushed(entered, Encoded(m.psw)), m.pc).(inTrap := false)
  }

  function Rti(m: Machine): (r: Machine)
    requires Ok(m)
    ensures Ok(r)
  {
    var first := Popped(m);
    var second := Popped(first.0.(pc := first.1));
    var p := ReturnedPsw(m.psw, Decoded(second.1));
    if m.psw.mode != 0 then
      RtiNeverGainsPrivilege(m.psw, Decoded(second.1));
      second.0.(psw := p, anyQueued := m.anyQueued || p.spl < m.psw.spl)
    else second.0.(psw := p, anyQueued := m.anyQueued || p.spl < m.psw.spl)
  }

  /** RTI in the words of the stack it runs on: PC from the top, PSW from the word above it. */
  lemma RtiReturns(m: Machine)
    requires Ok(m) && Plain(m.sp[m.psw.mode]) && m.sp[m.psw.mode] + 2 < IO_PAGE
    ensures var r, k := Rti(m), m.psw.mode; var s := m.sp[k]; var w: nat := m.mem[s / 2 + 1];
            && r.pc == m.mem[s / 2] && r.sp == m.sp[k := s + 4] && r.mem == m.mem && r.general == m.general
            && r.psw.low == w % 0x20 && r.psw.spl == (if k == 0 then w / 0x20 % 8 else m.psw.spl)
            && (k == 0 ==> r.psw.mode == w / 0x4000 && r.psw.prev == w / 0x1000 % 4
                           && r.psw.bank == (w / 0x800 % 2 == 1))
            && (k != 0 ==> LeastLegal(r.psw.mode, k, w / 0x4000)
                           && LeastLegal(r.psw.prev, m.psw.prev, w / 0x1000 % 4)
                           && r.psw.bank == (m.psw.bank || w / 0x800 % 2 == 1))
            && r.anyQueued == (m.anyQueued || r.psw.spl < m.psw.spl)
  {
    var k := m.psw.mode;
    var s := m.sp[k];
    SmallMod(s + 2, WORD_MOD);
    SmallMod(s + 4, WORD_MOD);
    assert (s + 2) / 2 == s / 2 + 1;
    assert m.sp[k := s + 2][k := s + 4] == m.sp[k := s + 4];
    PswReturns(m.psw, m.mem[s / 2 + 1]);
  }

  lemma PswReturns(current: Psw, w: word)
    requires PswOk(current)
    ensures var p, k := ReturnedPsw(current, Decoded(w)), current.mode;
            && p.low == w % 0x20 && p.spl == (if k == 0 then w / 0x20 % 8 else current.spl)
            && (k == 0 ==> p.mode == w / 0x4000 && p.prev == w / 0x1000 % 4 && p.bank == (w / 0x800 % 2 == 1))
            && (k != 0 ==> LeastLegal(p.mode, k, w / 0x4000) && LeastLegal(p.prev, current.prev, w / 0x1000 % 4)
                           && p.bank == (current.bank || w / 0x800 % 2 == 1))
  {
    if current.mode != 0 {
      RtiNeverGainsPrivilege(current, Decoded(w));
    }
  }

  /** Two words can be pushed in a mode: even, in ordinary memory and, in kernel mode, clear of the limit zones. */
  predicate RoomIn(m: Machine, mode: nat)
    requires Ok(m) && mode < 4
  {
    var s := m.sp[mode];
    s % 2 == 0 && 4 <= s <= IO_PAGE && (mode == 0 ==> s <= 4 || s - 2 >= Limit(m) + LIMIT)
  }

  predicate KernelRoom(m: Machine)
    requires Ok(m)
  {
    RoomIn(m, 0)
  }

  /** A push away from the limit zones. */
  lemma ClearPush(m: Machine, v: word)
    requires Ok(m) && Get(m, SP) >= 2 && Get(m, SP) % 2 == 0 && !Checked(m)
    ensures var k := m.psw.mode;
            Pushed(m, v) == m.(sp := m.sp[k := m.sp[k] - 2], mem := m.mem[m.sp[k] / 2 - 1 := v])
  {
    SmallMod(Get(m, SP) - 2, WORD_MOD);
  }

  lemma KernelRti(m: Machine)
    requires Ok(m) && m.psw.mode == 0 && m.sp[0] % 2 == 0 && m.sp[0] + 4 < WORD_MOD
    ensures var s := m.sp[0]; var p := Decoded(m.mem[s / 2 + 1]);
            Rti(m) == m.(pc := m.mem[s / 2], psw := p, sp := m.sp[0 := s + 4],
                         anyQueued := m.anyQueued || p.spl < m.psw.spl)
  {
    SmallMod(m.sp[0] + 2, WORD_MOD);
    SmallMod(m.sp[0] + 4, WORD_MOD);
  }

  lemma TrapPushes(m: Machine, vector: word, ipl: Option<nat>)
    requires Ok(m) && vector + 2 < WORD_MOD && (ipl.Some? ==> ipl.value < 8)
    requires KernelRoom(m) && Decoded(Word(m, vector + 2)).mode == 0
    ensures var p := HandlerPsw(m, vector, ipl); var s := m.sp[0];
            Trapped(m, vector, ipl) ==
            m.(pc := Word(m, vector), psw := p, anyQueued := m.anyQueued || p.spl < m.psw.spl, inTrap := false,
               sp := m.sp[0 := s - 4], mem := m.mem[s / 2 - 1 := Encoded(m.psw)][s / 2 - 2 := m.pc])
  {
    var p := HandlerPsw(m, vector, ipl);
    var entered := m.(pc := Word(m, vector), psw := p, anyQueued := m.anyQueued || p.spl < m.psw.spl, inTrap := true);
    TwoPushes(entered, Encoded(m.psw), m.pc);
  }

  /** Two pushes with room for both. */
  lemma TwoPushes(m: Machine, first: word, second: word)
    requires Ok(m) && RoomIn(m, m.psw.mode)
    ensures var k := m.psw.mode; var s := m.sp[k];
            Pushed(Pushed(m, first), second) ==
            m.(sp := m.sp[k := s - 4], mem := m.mem[s / 2 - 1 := first][s / 2 - 2 := second])
  {
    ClearPush(m, first);
    ClearPush(Pushed(m, first), second);
    var k := m.psw.mode;
    assert m.sp[k := m.sp[k] - 2][k := m.sp[k] - 4] == m.sp[k := m.sp[k] - 4];
  }

  /** Pushing leaves PC, PSW and the other modes' stacks alone. */
  lemma PushKeeps(m: Machine, v: word)
    requires Ok(m)
    ensures var p := Pushed(m, v); p.pc == m.pc && p.psw == m.psw && p.general == m.general
    ensures forall k :: 0 <= k < 4 && k != m.psw.mode ==> Pushed(m, v).sp[k] == m.sp[k]
  {
  }

  /**
   What a trap enters its handler with, in the words of memory: PC from the vector,
   the level given or else the priority of the vector's second word, that word's mode,
   register set and low bits, and the old mode as the previous one.
   */
  lemma TrapEnters(m: Machine, vector: word, ipl: Option<nat>)
    requires Ok(m) && vector + 2 < WORD_MOD && (ipl.Some? ==> ipl.value < 8)
    ensures var t := Trapped(m, vector, ipl); var w: nat := m.mem[(vector + 2) / 2];
            && t.pc == m.mem[vector / 2]
            && t.psw.spl == (if ipl.Some? then ipl.value else w / 0x20 % 8)
            && t.psw.mode == w / 0x4000 && t.psw.prev == m.psw.mode
            && t.psw.bank == (w / 0x800 % 2 == 1) && t.psw.low == w % 0x20
            && t.general == m.general && !t.inTrap
            && (m.anyQueued || t.psw.spl < m.psw.spl ==> t.anyQueued)
  {
    var p := HandlerPsw(m, vector, ipl);
    var entered := m.(pc := Word(m, vector), psw := p, anyQueued := m.anyQueued || p.spl < m.psw.spl, inTrap := true);
    PushKeeps(entered, Encoded(m.psw));
    PushKeeps(Pushed(entered, Encoded(m.psw)), m.pc);
  }

  /**
   And what it leaves on the stack of the handler's mode: with room for two words,
   the old PSW as a word above the old PC, and no other word of memory changed.
   */
  lemma TrapStacks(m: Machine, vector: word, ipl: Option<nat>)
    requires Ok(m) && vector + 2 < WORD_MOD && (ipl.Some? ==> ipl.value < 8)
    requires RoomIn(m, m.mem[(vector + 2) / 2] / 0x4000)
    ensures var t := Trapped(m, vector, ipl); var k := m.mem[(vector + 2) / 2] / 0x4000; var s := m.sp[k];
            && t.sp == m.sp[k := s - 4] && |t.mem| == |m.mem|
            && t.mem[s / 2 - 1] == m.psw.mode * 0x4000 + m.psw.prev * 0x1000 + If(m.psw.bank, 0x800)
                                   + m.psw.spl * 0x20 + m.psw.low
            && t.mem[s / 2 - 2] == m.pc
            && (forall i :: 0 <= i < |m.mem| && i != s / 2 - 1 && i != s / 2 - 2 ==> t.mem[i] == m.mem[i])
            && t.delayedTrap == m.delayedTrap
  {
    var p := HandlerPsw(m, vector, ipl);
    var entered := m.(pc := Word(m, vector), psw := p, anyQueued := m.anyQueued || p.spl < m.psw.spl, inTrap := true);
    TwoPushes(entered, Encoded(m.psw), m.pc);
    assert entered.sp == m.sp && entered.mem == m.mem;
  }

  /**
   A trap followed by RTI restores PC, PSW, every register and every stack
   pointer, and changes only the two stack words it used.
   */
  lemma TrapThenRti(m: Machine, vector: word, ipl: Option<nat>)
    requires Ok(m) && vector + 2 < WORD_MOD && (ipl.Some? ==> ipl.value < 8)
    requires KernelRoom(m) && Decoded(Word(m, vector + 2)).mode == 0
    ensures var r := Rti(Trapped(m, vector, ipl)); var s := m.sp[0];
            && r.pc == m.pc && r.psw == m.psw && r.sp == m.sp && r.general == m.general
            && r.mem == m.mem[s / 2 - 1 := Encoded(m.psw)][s / 2 - 2 := m.pc]
            && r.delayedTrap == m.delayedTrap
  {
    TrapPushes(m, vector, ipl);
    RtiUndoes(m, Trapped(m, vector, ipl));
  }

  /** RTI from a state in which PC and PSW have been pushed. */
  lemma RtiUndoes(m: Machine, t: Machine)
    requires Ok(m) && Ok(t) && t.psw.mode == 0 && 4 <= m.sp[0] <= IO_PAGE && m.sp[0] % 2 == 0
    requires t.sp == m.sp[0 := m.sp[0] - 4]
    requires t.mem == m.mem[m.sp[0] / 2 - 1 := Encoded(m.psw)][m.sp[0] / 2 - 2 := m.pc]
    ensures Rti(t) == t.(pc := m.pc, psw := m.psw, sp := m.sp, anyQueued := t.anyQueued || m.psw.spl < t.psw.spl)
  {
    PswRoundTrip(m.psw);
    var at := m.sp[0] / 2;
    PushedWords(m.mem, at, Encoded(m.psw), m.pc);
    assert t.sp[0] / 2 == at - 2 && t.mem[at - 1] == Encoded(m.psw) && t.mem[at - 2] == m.pc;
    KernelRti(t);
    assert m.sp[0 := m.sp[0] - 4][0 := m.sp[0]] == m.sp;
  }

  lemma PushedWords(mem: seq<word>, at: nat, first: word, second: word)
    requires 2 <= at <= |mem|
    ensures var after := mem[at - 1 := first][at - 2 := second]; after[at - 1] == first && after[at - 2] == second
  {
  }

  // ----- JSR and RTS -----

  function Fetched(m: Machine, a: word): Option<word>
    requires Ok(m)
  {
    if Plain(a) then Some(Word(m, a)) else None
  }

  /** The registers after a word operand of this addressing mode has been evaluated. */
  function Evaluated(m: Machine, mode: nat, reg: nat): (r: Machine)
    requires Ok(m) && 1 <= mode <= 7 && reg <= PC
    ensures Ok(r)
  {
    if mode == 2 || mode == 3 then Set(m, reg, Plus(Get(m, reg), 2))
    else if mode == 4 || mode == 5 then Set(m, reg, Plus(Get(m, reg), -2))
    else if mode >= 6 then m.(pc := Plus(m.pc, 2))
    else m
  }

  /** The operand address, if everything it is fetched from is ordinary memory. */
  function Address(m: Machine, mode: nat, reg: nat): Option<word>
    requires Ok(m) && 1 <= mode <= 7 && reg <= PC
  {
    var e := Evaluated(m, mode, reg);
    if mode <= 2 then Some(Get(m, reg))
    else if mode == 3 then Fetched(m, Get(m, reg))
    else if mode == 4 then Some(Get(e, reg))
    else if mode == 5 then Fetched(m, Get(e, reg))
    else
      var x := Fetched(m, m.pc);
      if x.None? then None
      else if mode == 6 then Some(Plus(Get(e, reg), x.value))
      else Fetched(m, Plus(Get(e, reg), x.value))
  }

  /** Each deferred mode reads its address from the operand of the mode below it. */
  lemma Deferred(m: Machine, mode: nat, reg: nat)
    requires Ok(m) && reg <= PC && (mode == 2 || mode == 4 || mode == 6) && Address(m, mode, reg).Some?
    ensures var a := Address(m, mode, reg).value;
            Address(m, mode + 1, reg) == if a % 2 == 0 && a < IO_PAGE then Some(m.mem[a / 2]) else None
    ensures Evaluated(m, mode + 1, reg) == Evaluated(m, mode, reg)
  {
  }

  /**
   The direct modes: a register's value before autoincrement and after autodecrement,
   each by a word, and a register plus the word after the instruction, which for PC
   counts from behind that word.
   */
  lemma Direct(m: Machine, reg: nat)
    requires Ok(m) && reg <= PC
    ensures Address(m, 1, reg) == Some(Get(m, reg)) && Evaluated(m, 1, reg) == m
    ensures Address(m, 2, reg) == Some(Get(m, reg)) && Get(Evaluated(m, 2, reg), reg) == Plus(Get(m, reg), 2)
    ensures var e := Evaluated(m, 4, reg);
            Address(m, 4, reg) == Some(Get(e, reg)) && Get(m, reg) == Plus(Get(e, reg), 2)
    ensures var next := Plus(m.pc, 2);
            && Evaluated(m, 6, reg).pc == next && Address(m, 6, reg).Some? == Plain(m.pc)
            && (Plain(m.pc) ==>
                 Address(m, 6, reg) == Some(Plus(if reg == PC then next else Get(m, reg), m.mem[m.pc / 2])))
  {
    DownAndUp(Get(m, reg));
  }

  lemma DownAndUp(v: word)
    ensures Plus(Plus(v, -2), 2) == v
  {
    var down := v >= 2;
    FloorUnique(v - 2, WORD_MOD, if down then 0 else -1, if down then v - 2 else v - 2 + WORD_MOD);
    FloorUnique(Plus(v, -2) + 2, WORD_MOD, if down then 0 else 1, v);
  }

  /** What was stepped down by -(R) is found again, and stepped back up, by (R)+. */
  lemma StepsCancel(m: Machine, reg: nat)
    requires Ok(m) && reg <= PC
    ensures var e := Evaluated(m, 4, reg); Address(e, 2, reg) == Address(m, 4, reg) && Evaluated(e, 2, reg) == m
  {
    DownAndUp(Get(m, reg));
    var e := Evaluated(m, 4, reg);
    if reg < 6 {
      var k := Slot(m.psw, reg);
      assert m.general[k := Get(e, reg)][k := m.general[k]] == m.general;
    } else if reg == SP {
      var k := m.psw.mode;
      assert m.sp[k := Get(e, reg)][k := m.sp[k]] == m.sp;
    }
  }

  /** JSR link,dst: the old link is stacked, the link takes the return address. */
  function Called(m: Machine, mode: nat, reg: nat, link: nat): (r: Machine)
    requires Ok(m) && 1 <= mode <= 7 && reg <= PC && link <= PC && Address(m, mode, reg).Some?
    ensures Ok(r)
  {
    var e := Evaluated(m, mode, reg);
    var p := Pushed(e, Get(e, link));
    (if link == PC then p else Set(p, link, e.pc)).(pc := Address(m, mode, reg).value)
  }

  /** RTS link. */
  function Returned(m: Machine, link: nat): (r: Machine)
    requires Ok(m) && link <= PC
    ensures Ok(r)
  {
    var sp, w := Get(m, SP), Word(m, Get(m, SP));
    if link == PC then Set(m, SP, Plus(sp, 2)).(pc := w)
    else if link == SP then Set(m.(pc := Get(m, link)), SP, w)
    else Set(Set(m.(pc := Get(m, link)), link, w), SP, Plus(sp, 2))
  }

  /** One word can be pushed on the current stack. */
  predicate StackRoom(m: Machine)
    requires Ok(m)
  {
    var s := Get(m, SP);
    s % 2 == 0 && 2 <= s <= IO_PAGE && !Checked(m)
  }

  lemma RoomyPush(m: Machine, v: word)
    requires Ok(m) && StackRoom(m)
    ensures var k := m.psw.mode;
            Pushed(m, v) == m.(sp := m.sp[k := m.sp[k] - 2], mem := m.mem[m.sp[k] / 2 - 1 := v])
  {
    SmallMod(Get(m, SP) - 2, WORD_MOD);
  }

  /**
   JSR then RTS through any link but SP resumes after the JSR with every register
   as operand evaluation left it; only the stacked word of memory has changed.
   */
  lemma JsrThenRts(m: Machine, mode: nat, reg: nat, link: nat)
    requires Ok(m) && 1 <= mode <= 7 && reg <= PC && link <= PC && link != SP
    requires Address(m, mode, reg).Some? && StackRoom(Evaluated(m, mode, reg))
    ensures var e := Evaluated(m, mode, reg);
            Returned(Called(m, mode, reg, link), link) ==
            e.(mem := m.mem[Get(e, SP) / 2 - 1 := Get(e, link)])
  {
    var e := Evaluated(m, mode, reg);
    RoomyPush(e, Get(e, link));
    ReturnUndoes(e, Get(e, SP), link, Address(m, mode, reg).value);
  }

  /** JSR goes to its operand, with the old link stacked and the address behind the instruction in the link. */
  lemma JsrGoes(m: Machine, mode: nat, reg: nat, link: nat)
    requires Ok(m) && 1 <= mode <= 7 && reg <= PC && link <= PC && link != SP
    requires Address(m, mode, reg).Some? && StackRoom(Evaluated(m, mode, reg))
    ensures var e, c := Evaluated(m, mode, reg), Called(m, mode, reg, link);
            var s := Get(e, SP);
            && c.pc == Address(m, mode, reg).value && Get(c, SP) == s - 2
            && c.mem == m.mem[s / 2 - 1 := Get(e, link)] && (link != PC ==> Get(c, link) == e.pc)
            && forall nr :: 0 <= nr < 6 && nr != link ==> Get(c, nr) == Get(e, nr)
  {
    RoomyPush(Evaluated(m, mode, reg), Get(Evaluated(m, mode, reg), link));
  }

  /** RTS goes where the link points and takes the link's old value from the stack. */
  lemma RtsGoes(m: Machine, link: nat)
    requires Ok(m) && link <= PC && link != SP && Plain(Get(m, SP))
    ensures var r, top := Returned(m, link), m.mem[Get(m, SP) / 2];
            && r.pc == (if link == PC then top else Get(m, link)) && (link != PC ==> Get(r, link) == top)
            && Get(r, SP) == Get(m, SP) + 2 && r.mem == m.mem
            && forall nr :: 0 <= nr < 6 && nr != link ==> Get(r, nr) == Get(m, nr)
  {
    SmallMod(Get(m, SP) + 2, WORD_MOD);
  }

  lemma ReturnUndoes(e: Machine, s: word, link: nat, dst: word)
    requires Ok(e) && StackRoom(e) && s == Get(e, SP) && link <= PC && link != SP
    ensures var pushed := e.(sp := e.sp[e.psw.mode := s - 2], mem := e.mem[s / 2 - 1 := Get(e, link)]);
            Returned((if link == PC then pushed else Set(pushed, link, e.pc)).(pc := dst), link) ==
            e.(mem := e.mem[s / 2 - 1 := Get(e, link)])
  {
    SmallMod(s, WORD_MOD);
    assert (s - 2) / 2 == s / 2 - 1;
    assert e.sp[e.psw.mode := s - 2][e.psw.mode := s] == e.sp;
    if link < 6 {
      var k := Slot(e.psw, link);
      assert e.general[k := e.pc][k := e.general[k]] == e.general;
    }
  }

  /** Operand evaluation leaves a register alone exactly when no autoincrement or autodecrement is on it. */
  lemma EvaluationKeeps(m: Machine, mode: nat, reg: nat, nr: nat)
    requires Ok(m) && 1 <= mode <= 7 && reg <= PC && nr <= SP
    ensures Get(Evaluated(m, mode, reg), nr) == Get(m, nr) <==> !(nr == reg && 2 <= mode <= 5)
  {
    var v := Get(m, reg);
    var up, down := v + 2 < WORD_MOD, v >= 2;
    FloorUnique(v + 2, WORD_MOD, if up then 0 else 1, if up then v + 2 else v + 2 - WORD_MOD);
    FloorUnique(v - 2, WORD_MOD, if down then 0 else -1, if down then v - 2 else v - 2 + WORD_MOD);
  }

  /** So the pair gives the caller its link register and stack pointer back exactly when the operand steps neither. */
  lemma JsrRtsRestores(m: Machine, mode: nat, reg: nat, link: nat)
    requires Ok(m) && 1 <= mode <= 7 && reg <= PC && link < SP
    requires Address(m, mode, reg).Some? && StackRoom(Evaluated(m, mode, reg))
    ensures var r := Returned(Called(m, mode, reg, link), link);
            && r.pc == Evaluated(m, mode, reg).pc
            && (Get(r, SP) == Get(m, SP) && Get(r, link) == Get(m, link) <==>
                !(2 <= mode <= 5 && (reg == SP || reg == link)))
  {
    JsrThenRts(m, mode, reg, link);
    EvaluationKeeps(m, mode, reg, SP);
    EvaluationKeeps(m, mode, reg, link);
  }

  /** With SP itself as the link the return still resumes after the JSR, but SP becomes the word found there. */
  lemma LinkThroughSp(m: Machine, mode: nat, reg: nat)
    requires Ok(m) && 1 <= mode <= 7 && reg <= PC
    requires Address(m, mode, reg).Some? && StackRoom(Evaluated(m, mode, reg))
    ensures var e := Evaluated(m, mode, reg); var r := Returned(Called(m, mode, reg, SP), SP);
            r.pc == e.pc && Get(r, SP) == Called(m, mode, reg, SP).mem[e.pc / 2]
  {
  }

  /** JSR PC,@(SP)+ exchanges the PC with the word on top of the stack. */
  lemma CoroutineSwap(m: Machine)
    requires Ok(m) && Plain(Get(m, SP)) && Get(m, SP) + 2 <= IO_PAGE
    requires !Checked(Evaluated(m, 3, SP))
    ensures Address(m, 3, SP).Some?
    ensures Called(m, 3, SP, PC) ==
            m.(pc := Word(m, Get(m, SP)), mem := m.mem[Get(m, SP) / 2 := m.pc])
  {
    var s := Get(m, SP);
    SmallMod(s + 2, WORD_MOD);
    var e := Evaluated(m, 3, SP);
    assert e == m.(sp := m.sp[m.psw.mode := s + 2]);
    RoomyPush(e, m.pc);
    assert (s + 2) / 2 - 1 == s / 2;
    assert m.sp[m.psw.mode := s + 2][m.psw.mode := s] == m.sp;
  }

  // ----- the processor -----

  class Cpu {
    const general: array<word>
    const sp: array<word>
    const mem: array<word>
    var pc: word
    var psw: Psw
    var stackLimit: word
    var inTrap: bool
    var delayedTrap: Option<nat>
    var anyQueued: bool

    ghost predicate Valid()
      reads this, general, sp, mem
    {
      && general.Length == 12 && sp.Length == 4 && mem.Length == CELLS && PswOk(psw)
      && general != sp && general != mem && sp != mem
    }

    ghost function Abs(): (m: Machine)
      requires Valid()
      reads this, general, sp, mem
      ensures Ok(m)
    {
      Machine(general[..], sp[..], pc, psw, mem[..], stackLimit, inTrap, delayedTrap, anyQueued)
    }

    constructor ()
      ensures Valid() && fresh(general) && fresh(sp) && fresh(mem)
      ensures pc == 0 && psw == Psw(0, 0, false, 0, 0) && stackLimit == 0 && !inTrap && delayedTrap.None? && !anyQueued
    {
      general := new word[12](_ => 0);
      sp := new word[4](_ => 0);
      mem := new word[CELLS](_ => 0);
      pc, psw, stackLimit, inTrap, delayedTrap, anyQueued := 0, Psw(0, 0, false, 0, 0), 0, false, None, false;
    }

    method GetRegister(nr: nat) returns (v: word)
      requires Valid() && nr <= PC
      ensures v == Get(Abs(), nr)
    {
      if nr < 6 {
        v := general[Slot(psw, nr)];
      } else if nr == SP {
        v := sp[psw.mode];
      } else {
        v := pc;
      }
    }

    method SetRegister(nr: nat, v: word)
      requires Valid() && nr <= PC
      modifies this`pc, general, sp
      ensures Valid() && Abs() == Set(old(Abs()), nr, v)
    {
      if nr < 6 {
        general[Slot(psw, nr)] := v;
      } else if nr == SP {
        sp[psw.mode] := v;
      } else {
        pc := v;
      }
    }

    method AddRegister(nr: nat, d: int) returns (v: word)
      requires Valid() && nr <= PC
      modifies this`pc, general, sp
      ensures Valid() && v == Plus(Get(old(Abs()), nr), d) && Abs() == Set(old(Abs()), nr, v)
    {
      v := GetRegister(nr);
      v := Plus(v, d);
      SetRegister(nr, v);
    }

    method WriteWord(a: word, v: word)
      requires Valid() && Plain(a)
      modifies mem
      ensures Valid() && Abs() == old(Abs()).(mem := old(Abs()).mem[a / 2 := v])
    {
      mem[a / 2] := v;
    }

    /** Two words below a mode's stack pointer are ordinary memory. */
    ghost predicate PushesPlain(mode: nat)
      requires Valid() && mode < 4
      reads this, general, sp, mem
    {
      Plain(Plus(sp[mode], -2)) && Plain(Plus(Plus(sp[mode], -2), -2))
    }

    method PlainPushStack(v: word)
      requires Valid() && Plain(Plus(Get(Abs(), SP), -2))
      modifies this`pc, general, sp, mem
      ensures Valid() && Abs() == PlainPush(old(Abs()), v)
    {
      var a := AddRegister(SP, -2);
      WriteWord(a, v);
    }

    method PushStack(v: word)
      requires Valid() && Plain(Plus(Get(Abs(), SP), -2))
      modifies this`pc, this`delayedTrap, this`anyQueued, general, sp, mem
      ensures Valid() && Abs() == Pushed(old(Abs()), v)
    {
      if psw.mode == 0 {
        var slr := stackLimit / 0x100 * 0x100;
        var s := GetRegister(SP);
        if s > 4 && s < slr + LIMIT {
          if s >= slr + YELLOW {
            PlainPushStack(v);
            delayedTrap := Some(STACK_VECTOR);
            anyQueued := true;
            return;
          }
          SetRegister(SP, 4);
          if inTrap {
            SmallMod(2, WORD_MOD);
            PlainPushStack(v);
            return;
          }
          delayedTrap := Some(STACK_VECTOR);
          anyQueued := true;
          return;
        }
      }
      PlainPushStack(v);
    }

    method PopStack() returns (v: word)
      requires Valid() && Plain(Get(Abs(), SP))
      modifies this`pc, general, sp
      ensures Valid() && Abs() == Popped(old(Abs())).0 && v == Popped(old(Abs())).1
    {
      var a := GetRegister(SP);
      v := mem[a / 2];
      var _ := AddRegister(SP, 2);
    }

    /** Every PSW change that lowers the priority wakes the step loop. */
    method SetPsw(v: Psw, limited: bool)
      requires Valid() && PswOk(v) && limited == (psw.mode != 0)
      modifies this`psw, this`anyQueued
      ensures Valid()
      ensures var p := ReturnedPsw(old(psw), v);
              Abs() == old(Abs()).(psw := p, anyQueued := old(anyQueued) || p.spl < old(psw.spl))
    {
      var oldSpl := psw.spl;
      if limited {
        RtiNeverGainsPrivilege(psw, v);
        var mode := if v.mode > psw.mode then v.mode else psw.mode;
        var prev := if v.prev > psw.prev then v.prev else psw.prev;
        if mode == 2 {
          mode := 3;
        }
        if prev == 2 {
          prev := 3;
        }
        psw := Psw(mode, prev, psw.bank || v.bank, psw.spl, v.low);
      } else {
        psw := v;
      }
      if psw.spl < oldSpl {
        anyQueued := true;
      }
    }

    method Trap(vector: word, ipl: Option<nat>)
      requires Valid() && !inTrap && Plain(vector) && vector + 2 < WORD_MOD && (ipl.Some? ==> ipl.value < 8)
      requires PushesPlain(Decoded(Word(Abs(), vector + 2)).mode)
      modifies this, general, sp, mem
      ensures Valid() && Abs() == Trapped(old(Abs()), vector, ipl)
      ensures pc == old(mem[vector / 2]) && psw.prev == old(psw.mode)
      ensures var w: nat := old(mem[(vector + 2) / 2]);
              && psw.spl == (if ipl.Some? then ipl.value else w / 0x20 % 8)
              && psw.mode == w / 0x4000 && psw.bank == (w / 0x800 % 2 == 1) && psw.low == w % 0x20
      ensures old(RoomIn(Abs(), mem[(vector + 2) / 2] / 0x4000)) ==>
        var s := old(sp[mem[(vector + 2) / 2] / 0x4000]);
        && sp[psw.mode] == s - 4 && mem[s / 2 - 2] == old(pc)
        && mem[s / 2 - 1] == old(psw.mode * 0x4000 + psw.prev * 0x1000 + If(psw.bank, 0x800) + psw.spl * 0x20 + psw.low)
    {
      ghost var m := Abs();
      EnterTrap(vector, ipl);
      TrapEnters(m, vector, ipl);
      if RoomIn(m, m.mem[(vector + 2) / 2] / 0x4000) {
        TrapStacks(m, vector, ipl);
      }
    }

    method EnterTrap(vector: word, ipl: Option<nat>)
      requires Valid() && !inTrap && Plain(vector) && vector + 2 < WORD_MOD && (ipl.Some? ==> ipl.value < 8)
      requires PushesPlain(Decoded(Word(Abs(), vector + 2)).mode)
      modifies this, general, sp, mem
      ensures Valid() && Abs() == Trapped(old(Abs()), vector, ipl)
    {
      inTrap := true;
      var beforePsw, beforePc := psw, pc;
      psw := psw.(mode := 0);
      pc := mem[vector / 2];
      var fetched := Decoded(mem[(vector + 2) / 2]);
      var spl := if ipl.Some? then ipl.value else fetched.spl;
      SetPsw(Psw(fetched.mode, beforePsw.mode, fetched.bank, spl, fetched.low), false);
      PushBoth(Encoded(beforePsw), beforePc);
      inTrap := false;
    }

    method PushBoth(first: word, second: word)
      requires Valid() && inTrap && PushesPlain(psw.mode)
      modifies this`pc, this`delayedTrap, this`anyQueued, general, sp, mem
      ensures Valid() && Abs() == Pushed(Pushed(old(Abs()), first), second)
    {
      PushStack(first);
      SmallMod(2, WORD_MOD);
      SmallMod(0, WORD_MOD);
      PushStack(second);
    }

    method ReturnFromInterrupt()
      requires Valid() && Plain(Get(Abs(), SP)) && Plain(Plus(Get(Abs(), SP), 2))
      modifies this, general, sp
      ensures Valid() && Abs() == Rti(old(Abs()))
    {
      var returnPc := PopStack();
      pc := returnPc;
      var w := PopStack();
      SetPsw(Decoded(w), psw.mode != 0);
    }

    /** Word operand address; false when a fetch leaves ordinary memory, which ends the instruction. */
    method OperandAddress(mode: nat, reg: nat) returns (ok: bool, a: word)
      requires Valid() && 1 <= mode <= 7 && reg <= PC
      modifies this`pc, general, sp
      ensures Valid() && ok == Address(old(Abs()), mode, reg).Some?
      ensures ok ==> a == Address(old(Abs()), mode, reg).value && Abs() == Evaluated(old(Abs()), mode, reg)
    {
      ok, a := true, 0;
      if mode == 1 {
        a := GetRegister(reg);
      } else if mode == 2 {
        a := GetRegister(reg);
        var _ := AddRegister(reg, 2);
      } else if mode == 3 {
        var r := GetRegister(reg);
        if !Plain(r) {
          return false, 0;
        }
        a := mem[r / 2];
        var _ := AddRegister(reg, 2);
      } else if mode == 4 {
        a := AddRegister(reg, -2);
      } else if mode == 5 {
        var r := AddRegister(reg, -2);
        if !Plain(r) {
          return false, 0;
        }
        a := mem[r / 2];
      } else {
        ok, a := IndexedAddress(mode, reg);
      }
    }

    method IndexedAddress(mode: nat, reg: nat) returns (ok: bool, a: word)
      requires Valid() && 6 <= mode <= 7 && reg <= PC
      modifies this`pc, general, sp
      ensures Valid() && ok == Address(old(Abs()), mode, reg).Some?
      ensures ok ==> a == Address(old(Abs()), mode, reg).value && Abs() == Evaluated(old(Abs()), mode, reg)
    {
      if !Plain(pc) {
        return false, 0;
      }
      var next := mem[pc / 2];
      var _ := AddRegister(PC, 2);
      var base := GetRegister(reg);
      a := Plus(base, next);
      if mode == 7 {
        if !Plain(a) {
          return false, 0;
        }
        a := mem[a / 2];
      }
      ok := true;
    }

    /** JSR with a memory destination; a fault in its operand or a push outside ordinary memory ends it. */
    method Jsr(mode: nat, reg: nat, link: nat) returns (ok: bool)
      requires Valid() && 1 <= mode <= 7 && reg <= PC && link <= PC
      modifies this, general, sp, mem
      ensures Valid()
      ensures ok == (Address(old(Abs()), mode, reg).Some? && Plain(Plus(Get(Evaluated(old(Abs()), mode, reg), SP), -2)))
      ensures ok ==> Abs() == Called(old(Abs()), mode, reg, link)
    {
      var dst;
      ok, dst := OperandAddress(mode, reg);
      if !ok {
        return;
      }
      var s := GetRegister(SP);
      if !Plain(Plus(s, -2)) {
        return false;
      }
      var returnPc := pc;
      var linkValue := GetRegister(link);
      PushStack(linkValue);
      if link != PC {
        SetRegister(link, returnPc);
      }
      pc := dst;
    }

    /** JSR; a register destination traps through 4 instead. */
    method JsrInstruction(mode: nat, reg: nat, link: nat) returns (ok: bool)
      requires Valid() && mode <= 7 && reg <= PC && link <= PC
      requires mode == 0 ==> !inTrap && PushesPlain(Decoded(Word(Abs(), 6)).mode)
      modifies this, general, sp, mem
      ensures Valid()
      ensures mode == 0 ==> ok && Abs() == Trapped(old(Abs()), 4, None)
      ensures mode > 0 ==>
        ok == (Address(old(Abs()), mode, reg).Some? && Plain(Plus(Get(Evaluated(old(Abs()), mode, reg), SP), -2)))
      ensures mode > 0 && ok ==> Abs() == Called(old(Abs()), mode, reg, link)
    {
      if mode == 0 {
        Trap(4, None);
        return true;
      }
      ok := Jsr(mode, reg, link);
    }

    method Rts(link: nat)
      requires Valid() && link <= PC && Plain(Get(Abs(), SP))
      modifies this`pc, general, sp
      ensures Valid() && Abs() == Returned(old(Abs()), link)
    {
      var oldSp := GetRegister(SP);
      var returnPc := GetRegister(link);
      var word := mem[oldSp / 2];
      if link == PC {
        var _ := AddRegister(SP, 2);
        pc := word;
        return;
      }
      pc := returnPc;
      SetRegister(link, word);
      if link != SP {
        var _ := AddRegister(SP, 2);
      }
    }
  }
}
