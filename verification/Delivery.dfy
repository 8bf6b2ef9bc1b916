/** A queued request delivered to the processor: the scan of the queue and the trap it makes. */
module Delivery {
  import opened Words
  import Interrupts
  import CallReturn

  /** After a delivery nothing that is still queued can interrupt the handler, and its RTI looks at the queue again. */
  lemma HandlerIsShielded(q: Interrupts.Queues, r: Interrupts.Request, m: CallReturn.Machine)
    requires CallReturn.Ok(m) && Interrupts.Chosen(q, m.psw.spl, r) && r.vector + 2 < WORD_MOD
    ensures var t := CallReturn.Trapped(m, r.vector, Some(r.level));
            && t.psw.spl == r.level > m.psw.spl && t.pc == m.mem[r.vector / 2]
            && !Interrupts.Deliverable(Interrupts.Removed(q, r), t.psw.spl)
    ensures CallReturn.KernelRoom(m) && m.mem[(r.vector + 2) / 2] < 0x4000 ==>
              var back := CallReturn.Rti(CallReturn.Trapped(m, r.vector, Some(r.level)));
              back.pc == m.pc && back.psw == m.psw && back.anyQueued
  {
    CallReturn.TrapEnters(m, r.vector, Some(r.level));
    if CallReturn.KernelRoom(m) && m.mem[(r.vector + 2) / 2] < 0x4000 {
      CallReturn.TrapThenRti(m, r.vector, Some(r.level));
      WakesAgain(CallReturn.Trapped(m, r.vector, Some(r.level)));
    }
  }

  lemma WakesAgain(t: CallReturn.Machine)
    requires CallReturn.Ok(t)
    ensures CallReturn.Rti(t).psw.spl < t.psw.spl ==> CallReturn.Rti(t).anyQueued
  {
  }

  class Core {
    const queue: Interrupts.Processor
    const cpu: CallReturn.Cpu

    ghost predicate Valid()
      reads this, queue, queue.queued, cpu, cpu.general, cpu.sp, cpu.mem
    {
      queue.Ok() && cpu.Valid() && queue.spl == cpu.psw.spl
    }

    /** A trap through the vector can be made: it is ordinary memory, and so is the stack of its handler. */
    ghost predicate Sound(vector: word)
      requires Valid()
      reads this, queue, queue.queued, cpu, cpu.general, cpu.sp, cpu.mem
    {
      && CallReturn.Plain(vector) && vector + 2 < WORD_MOD
      && cpu.PushesPlain(CallReturn.Decoded(cpu.mem[(vector + 2) / 2]).mode)
    }

    constructor ()
      ensures Valid() && fresh(queue) && fresh(queue.queued)
      ensures fresh(cpu) && fresh(cpu.general) && fresh(cpu.sp) && fresh(cpu.mem)
    {
      queue := new Interrupts.Processor();
      cpu := new CallReturn.Cpu();
    }

    /** The scan vectors the processor through the chosen request, at its level; or nothing is above the priority. */
    method ExecuteAnyPending() returns (delivered: Option<Interrupts.Request>)
      requires Valid() && !cpu.inTrap
      requires forall l, v :: 0 <= l < Interrupts.LEVELS && v in queue.Queued()[l] ==> Sound(v)
      modifies queue, queue.queued, cpu, cpu.general, cpu.sp, cpu.mem
      ensures Valid() && delivered.Some? == old(Interrupts.Deliverable(queue.Queued(), cpu.psw.spl))
      ensures delivered.None? ==> cpu.Abs() == old(cpu.Abs()) && queue.Queued() == old(queue.Queued())
      ensures delivered.Some? ==>
        var r := delivered.value;
        && Interrupts.Chosen(old(queue.Queued()), old(cpu.psw.spl), r)
        && queue.Queued() == Interrupts.Removed(old(queue.Queued()), r)
        && r.vector + 2 < WORD_MOD && cpu.psw.spl == r.level && cpu.pc == old(cpu.mem[..])[r.vector / 2]
        && cpu.Abs() == CallReturn.Trapped(old(cpu.Abs()), r.vector, Some(r.level))
    {
      delivered := queue.ExecuteAnyPending();
      if delivered.Some? {
        assert delivered.value.vector in old(queue.Queued())[delivered.value.level];
        assert old(Sound(delivered.value.vector));
        cpu.Trap(delivered.value.vector, Some(delivered.value.level));
      }
    }
  }
}
