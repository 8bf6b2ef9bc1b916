# Verified model of the PDP-11/70 emulator's core

This project models the state machines and arithmetic kernels of a PDP-11/70
emulator and of the devices around it, and proves what they are for. Each
component of the program is a module:

| file | module | component |
|---|---|---|
| Words.dfy | Words | machine words, single bits, quotients and powers of two |
| DiskCache.dfy | DiskCache | seven drive slots over one write-through block cache |
| Clock.dfy, ClockTiming.dfy | ProgrammableClock, ClockTiming | KW11-P programmable clock; how long it takes, from the words written to the bits read |
| ConditionCodes.dfy | ConditionCodes | compare, add, subtract, conditional branches |
| Shifter.dfy | Shifter | ASH and ASHC |
| FloatingPoint.dfy | FloatingPoint | single-precision FP11 to host numbers and back |
| Interrupts.dfy | Interrupts | prioritised interrupt queue and its wake flag |
| CallReturn.dfy | CallReturn | stacks, traps and RTI, JSR and RTS |
| Delivery.dfy | Delivery | a queued request delivered through a trap |
| UnibusMap.dfy | UnibusMap | Unibus map and block transfers through it |
| Deuna.dfy, DeunaFrames.dfy, DeunaTransmit.dfy | Deuna, DeunaFrames, DeunaTransmit | Ethernet transmit ring: descriptors and frames; what a frame holds, in words of memory; the device in place |
| DeunaReceive.dfy | DeunaReceive | Ethernet receive ring |
| Checksum.dfy, Packets.dfy | Checksum, Packets | one's-complement checksums (RFC 1071, sections 1 and 4.1) and the packets forged with them |
| NatTable.dfy, NatDevice.dfy | NatTable, NatDevice | address translation table: its steps and runs; the table in place |
| NatFlow.dfy | NatFlow | what is accepted, queued and drained, over every run |
| NatScheduling.dfy, NatHistory.dfy, NatEviction.dfy | NatScheduling, NatHistory, NatEviction | when a waiting echo is queued once; exactly which runs queue one twice; such a run |
| TcpDelivery.dfy, TcpAcknowledge.dfy | TcpDelivery, TcpAcknowledge | received data cut into segments; the guest's data queued and acknowledged |
| Ring.dfy | Ring | byte ring |
| FrameChannel.dfy | FrameChannel | commands hidden in console output, and the output sinks |
| Console.dfy | Console | console registers, interrupts and flow control |
| EscapeCodec.dfy | EscapeCodec | escaped byte strings in the configuration |

Code that updates state in place is a class whose methods are proved against a
function of the old state. What the program promises is then proved about that
function: a closed form equals counting one by one, a page-wise transfer equals
its byte transfers, an invariant holds over every run of a step relation.
Choices the hardware, the network or a device thread makes are parameters or
arbitrary values, so each statement covers all of them.

## What the proofs found

* **Console reset.** A bus reset shows the printer's DONE without asking the
  sinks for room, so a guest that writes only at DONE can lose output
  (`Console.ResetOverruns`). `Console.StepKeepsFlow` is exact: the room behind
  every DONE survives a step if and only if the step is not a reset that finds
  too little room.
* **Interrupt queue reset.** `init_interrupt_queue` takes no lock. A device
  request above the processor's priority, for a level the reset has already
  passed, stays queued with the wake flag down (`Interrupts.ResetLosesArrival`).
  `Interrupts.ResetExactly` and `Interrupts.NoLostWakeup` are exact over the
  schedule: no wakeup is lost in a run if and only if no reset ends with a
  request that was queued behind it and not taken back.
* **Echo scheduling.** Eviction and expiry spare an entry whose ping is in
  flight but not one whose request still waits in the queue. An echo, 32 new
  conversations and the same echo again before the queue is drained queue it
  twice, against the comment at eth_nat.cpp:664-665
  (`NatEviction.EvictionDoubleSchedules`). `NatHistory.EverTwiceExactly` is exact:
  a run ever has an echo in the queue twice if and only if it queues the echo, takes
  its slot, and queues it again before the first request is drained.
* **TCP acknowledgments.** A segment moves the acknowledged number before a full
  queue refuses it, and past 512 bytes before the next segment moves it on, so the
  guest is told that data arrived which was dropped (`TcpAcknowledge.RefusedIsAcknowledged`).
  For a guest that sends in order `TcpAcknowledge.AcknowledgedIsQueued` is exact:
  every acknowledgment covers only queued data if and only if none follows a
  refused segment with data, or a segment of more than 512 bytes with another after it.
* **Register pairs.** ADD, ADC, ADD adds two register pairs unless an earlier
  instruction changes the high source: doubling a pair goes wrong exactly when a
  carry leaves the low words (`ConditionCodes.Alu.AddPair`).
* **Clock polling.** A clock started while the instruction counter still stands
  at 0 loses its first poll (`ProgrammableClock.StartedAtZero`). The counter is
  incremented before a guest instruction can make that write, so in every run
  of the machine any polling schedule gives the same result
  (`ProgrammableClock.ReachableClockIsPollIndependent`).
* **Shared images.** With one image mounted in two slots, a write through one
  leaves the other's blocks stale: every fault-free run of two mounts, a read, a
  write and a read ends with a byte the image no longer holds
  (`DiskCache.SharedRunGoesStale`). `DiskCache.Disk.DiskWrite` is exact: a completed
  write keeps the cache coherent if and only if it changes no byte that a block of
  another slot with the same image holds. Until such a write every read of a run
  returns the image's bytes (`DiskCache.Disk.PerformAll`).
* **Escape codec.** A `^` is printed as it stands but read as the start of an
  escape, so printing and parsing are inverse exactly for strings without a `^`
  before their last byte (`EscapeCodec.RoundTrip`).
* **Receive buffers.** A receive descriptor with buffer length zero is given
  the whole frame, outside anything the guest offered
  (`DeunaReceive.ZeroLengthOverruns`). `DeunaReceive.WithinBuffer` is exact: the
  words written lie in the descriptor and its buffer if and only if the length
  is not zero.
* **Framing.** A whole command is submitted, and none of it shown, if and only
  if it meets an idle parser (`FrameChannel.SubmittedIffIdle`). A byte that
  breaks a partial prefix is not looked at as a possible start, so ESC followed
  by a whole command shows the command (`FrameChannel.NoRestart`).
* **JSR.** JSR then RTS gives the link register and SP back exactly when the
  operand steps neither (`CallReturn.JsrRtsRestores`).
* **Dead tests.** The keyboard's test for a waiting vector never decides
  anything in a reachable state (`Console.GuardIsRedundant`), and an 18-bit
  address never lies past the last map page.

## Model

| member | source | states |
|---|---|---|
| DiskCache.Disk.DiskRead | disk.cpp:370-459 | a successful read returns the image bytes zero-extended past the end, cached or not; without faults it succeeds; coherence is kept; coherent or not, a cached range is answered from the cache |
| DiskCache.Disk.ReadCached | disk.cpp:406-457 | the block-by-block copy loop gives the same bytes as the plain file, with failed seeks and short reads returning -1 |
| DiskCache.Disk.ReadDirect | disk.cpp:384-404 | the uncached branch: the same bytes, the same failures |
| DiskCache.Disk.FillBlock | disk.cpp:419-446 | a fill makes the victim hold its aligned file range, or leaves it invalid; other blocks keep their bytes |
| DiskCache.Disk.Find | disk.cpp:98-107 | finds the block with the key if there is one, and makes it the most recently used |
| DiskCache.Disk.Victim | disk.cpp:109-116 | an invalid block if there is one, else the least recently used |
| DiskCache.Disk.InvalidateRange | disk.cpp:83-96 | drops exactly the slot's valid blocks that overlap the range |
| DiskCache.Disk.InvalidateSlot | disk.cpp:76-81 | drops exactly the slot's blocks |
| DiskCache.Disk.InvalidateAll | disk.cpp:65-74 | drops every block and restarts the use clock |
| DiskCache.Disk.DiskWrite | disk.cpp:460-483 | refused without effect, or changes only its byte range and drops the slot's blocks there; a completed write keeps a coherent cache coherent if and only if it changes no byte held by another slot's block of the same image |
| DiskCache.StaleExactly | disk.cpp:460-483 | over all blocks: after a range of an image is replaced the cache is coherent if and only if every valid block agrees with the new bytes wherever it overlaps the range |
| DiskCache.SharedRunGoesStale | disk.cpp:370-483 | every fault-free run of two mounts of one image, a read, a write and a read, on a disk with cache memory: both reads return the old byte, while the image holds the new one |
| DiskCache.SharedImageGoesStale | disk.cpp:370-483 | such a run of a new disk, for any image of the right size |
| DiskCache.Disk.Perform | disk.cpp:221-483 | what one operation may do to card, drives and cache, with or without faults: a read leaves card and drives, serves what is cached and is exact from a coherent cache; a write changes only its range; a mount replaces one drive |
| DiskCache.Disk.PerformAll | disk.cpp:221-483 | every run of mounts, dismounts, reopenings, reads and writes with any failures is a trace of such steps from the disk's state to its new state; from a coherent cache each successful read returns exactly the bytes its image then holds, as long as no earlier write went to an image another slot has too and left a block of it stale |
| DiskCache.TraceReadsExact | disk.cpp:221-483 | the same of every trace |
| DiskCache.SizesAccepted | disk.cpp:143-219 | the image sizes each slot takes, in bytes |
| DiskCache.MountableExactly | disk.cpp:221-260 | which mounts are possible: seven slots, paths of 1 to 63 characters, sizes accepted |
| DiskCache.RefusedExactly | disk.cpp:460-470 | a write is refused without an image, on a read-only one, or when its last byte would lie past the end |
| DiskCache.InOneBlockExactly | disk.cpp:406-416 | a range lies in one block if and only if its first and last byte are in the same 8192 and in the image |
| DiskCache.AsIntIsSigned | disk.cpp:370-459 | the count a read returns, as a signed 32-bit number |
| DiskCache.OverlapsExactly | disk.cpp:83-96 | a block overlaps a range if and only if they share a byte |
| DiskCache.Disk.Mount | disk.cpp:221-279 | a refused mount changes nothing; a mount replaces the drive and drops exactly its blocks; coherence is kept |
| DiskCache.Disk.Dismount | disk.cpp:285-299 | empties the slot, drops its blocks, keeps the others and coherence |
| DiskCache.Disk.ReopenAll | disk.cpp:308-352 | every slot ends reopened from its own path or empty, and the answer says whether all were; the cache is empty |
| ProgrammableClock.Clock.AdvanceSteps | kek_kwp.cpp:121-154 | the closed form leaves CSR, CSB, counter and request as counting n times one by one, both directions, one-shot and repeat |
| ProgrammableClock.CountsToExpiry | kek_kwp.cpp:95-101 | counting one by one first expires after exactly the steps computed |
| ProgrammableClock.CountsShort | kek_kwp.cpp:103-109 | fewer counts only move the counter |
| ProgrammableClock.CountsCycles | kek_kwp.cpp:146-153 | a repeating clock is back at its reload value every cycle, with DONE and ERR as if each expiry were recorded |
| ProgrammableClock.OneShotRun | kek_kwp.cpp:136-143 | a one-shot clock stops at its expiry, whatever is left to count |
| ProgrammableClock.RepeatingRun | kek_kwp.cpp:121-154 | first expiry, whole cycles, rest: the three parts add up to counting |
| ProgrammableClock.Clock.RecordExpirations | kek_kwp.cpp:111-119 | recording many expiries at once equals recording them singly |
| ProgrammableClock.Clock.ManualTick | kek_kwp.cpp:174-191 | with GO off, the same single count; with GO on, nothing |
| ProgrammableClock.Clock.UpdateClock | kek_kwp.cpp:156-172 | one poll: whole periods are counted and the remainder is carried |
| ProgrammableClock.PollScheduleIndependence | kek_kwp.cpp:156-172 | any schedule of polls ending at t equals one poll at t, if and only if the clock was polled before or is stopped |
| ProgrammableClock.ManyPolls | kek_kwp.cpp:291-296 | any non-decreasing schedule equals its last poll, across one-shot expiries too |
| ProgrammableClock.FirstPollIsLost | kek_kwp.cpp:158-169 | a running clock with last_instr zero tells two schedules apart |
| ProgrammableClock.StartedAtZero | kek_kwp.cpp:239-260 | a CSR write with GO at instruction 0 leaves such a clock |
| ProgrammableClock.AccessKeepsSound | kek_kwp.cpp:193-296 | every access keeps a running clock's last_instr nonzero and the remainder below a period, if and only if it is not a CSR write with GO at instruction 0 |
| ProgrammableClock.ReachableClockIsPollIndependent | _upstream_kek/cpu.cpp:3667-3671 | after every run of accesses in which writes come after the counter has moved, any polls equal their last one |
| ProgrammableClock.PollKeepsInv | kek_kwp.cpp:156-172 | a poll keeps the remainder at most the time of the poll, and a pending request only with DONE and IE |
| ProgrammableClock.PollKeepsSound | kek_kwp.cpp:156-172 | and it leaves less than a period as remainder |
| ProgrammableClock.WriteReadCsr | kek_kwp.cpp:232-273 | reading CSR back gives the written IE, UPDN, MODE, RATE and GO bits and no other |
| ProgrammableClock.Clock.ReadWord | kek_kwp.cpp:203-224 | a read polls first; reading CSR clears DONE, ERR and the request |
| ProgrammableClock.Clock.WriteWord | kek_kwp.cpp:232-273 | the register writes after a poll, with FIX counting once while stopped |
| ProgrammableClock.Clock.Tick | kek_kwp.cpp:291-296 | a poll when the device is there, nothing otherwise; the invariant is kept |
| ProgrammableClock.Clock.TakeInterrupt | kek_kwp.cpp:87-93 | a request is handed over once, and only with DONE and IE set |
| ClockTiming.PollShows | kek_kwp.cpp:56-172 | a running clock shows DONE if and only if its counts to zero, each of the whole instructions in 10, 100, 16667 or 100000 microseconds, have had time to pass; ERR at the second expiry, GO, the request, the counter and the reload value then |
| ClockTiming.WrittenAndStarted | kek_kwp.cpp:226-273 | from the CSB word and the CSR word written and the instruction counts of the writes to the bits read |
| ClockTiming.StartedShows | kek_kwp.cpp:239-260 | a start takes the counter from the reload value, whatever it held |
| ClockTiming.RestartedShows | kek_kwp.cpp:239-273 | stopped and started again, a clock needs the whole time once more |
| ClockTiming.StoppedShows | kek_kwp.cpp:239-260 | stopping clears DONE and keeps the reload value, unless a one-shot run has ended |
| ClockTiming.RewrittenShows | kek_kwp.cpp:239-260 | a CSR write to a running clock starts it anew at another rate and lets it go on at the same |
| ClockTiming.ReloadedShows | kek_kwp.cpp:261-268 | a CSB write to a running clock counts from the new value at once |
| ClockTiming.ReadClears | kek_kwp.cpp:203-224 | a CSR read clears DONE, ERR and the request and nothing else |
| ClockTiming.FixCounts | kek_kwp.cpp:174-191 | a FIX write to a stopped clock is one count, with its expiry |
| Interrupts.NoLostWakeup | _upstream_kek/cpu.cpp:476-499 | in every run a nonempty queue always has the flag up or the scan still to come, if and only if no reset ends with a request left behind it |
| Interrupts.StepKeepsAnnounced | _upstream_kek/cpu.cpp:3682-3698 | each step of device threads and step loop but the end of a reset, between taking the flag and scanning too, keeps that |
| Interrupts.ResetExactly | _upstream_kek/cpu.cpp:42-47 | a finished reset leaves everything announced if and only if no device had queued a request at a level already cleared and left it there |
| Interrupts.LeftExactly | _upstream_kek/cpu.cpp:42-47 | in the levels a reset has passed exactly the requests queued behind it and not taken back remain |
| Interrupts.ResetLosesArrival | _upstream_kek/cpu.cpp:42-47 | a run after which a level-4 request is deliverable, queued and not flagged |
| Interrupts.ChosenUnique | _upstream_kek/cpu.cpp:417-474 | highest level above the priority, lowest vector within it: at most one request fits |
| Interrupts.Processor.ExecuteAnyPending | _upstream_kek/cpu.cpp:417-474 | delivers exactly that request and takes its level as priority, or nothing if none is above the priority |
| Interrupts.Processor.StepPrologue | _upstream_kek/cpu.cpp:3667-3698 | with any device actions between the pending test and the flag, and between the flag and the scan: a waiting processor vectors in the first step in which something is deliverable |
| Interrupts.ArrivalsKeepDeliverable | _upstream_kek/cpu.cpp:476-499 | arrivals never make a deliverable request undeliverable |
| Interrupts.Processor.QueueInterrupt | _upstream_kek/cpu.cpp:476-499 | adds the request and raises the flag |
| Interrupts.Processor.UnqueueInterrupt | _upstream_kek/cpu.cpp:536-549 | removes the request; nothing queued becomes unannounced |
| Interrupts.Processor.HasQueuedInterrupt | _upstream_kek/cpu.cpp:501-517 | true if and only if the request is queued; no level outside the table holds any |
| Interrupts.Processor.SetSpl | _upstream_kek/cpu.cpp:321-341 | lowering the priority raises the flag |
| Interrupts.Processor.CheckPending | _upstream_kek/cpu.cpp:388-415 | true if and only if a request above the priority is queued |
| Shifter.Shift | _upstream_kek/cpu.cpp:815-866 | for every value and 6-bit count: the residue of value times 2^s, or floor(value / 2^(64-s)); C the last bit out, V unrepresentable, N and Z of the result |
| Shifter.SignedIs | _upstream_kek/cpu.cpp:815-866 | the register as a two's complement number of 16 or 32 bits |
| Shifter.CountByCount | _upstream_kek/cpu.cpp:815-866 | each left count doubles what the one before gives, each right count halves toward minus infinity |
| Shifter.CarryIsDropped | _upstream_kek/cpu.cpp:815-866 | the carry is the bit the last of these steps drops |
| Shifter.DoubleStep | _upstream_kek/cpu.cpp:831-835 | one left step doubles the exact value and notices a sign change |
| Shifter.LastBitOut | _upstream_kek/cpu.cpp:828-836 | after a shift past the register the bit above it is the last one out |
| Shifter.RightNegative | _upstream_kek/cpu.cpp:846-850 | filling with sign bits is the floor of a negative quotient |
| FloatingPoint.ToDouble | _upstream_kek/cpu.cpp:1156-1188 | the loop over fraction bits computes the operand's value |
| FloatingPoint.FromDouble | _upstream_kek/cpu.cpp:1190-1229 | every value in range is truncated toward zero; the others become zero |
| FloatingPoint.ValueOfFields | _upstream_kek/cpu.cpp:1156-1188 | sign, exponent field e and fraction f stand for (2^23 + f) / 2^24 times 2^(e - 128) |
| FloatingPoint.ValueOfOne | _upstream_kek/cpu.cpp:1156-1188 | the operands of 1, -2 and 0.75 |
| FloatingPoint.RoundTrip | _upstream_kek/cpu.cpp:1156-1229 | there and back returns the operand if and only if its exponent field is nonzero or it is the zero operand |
| FloatingPoint.TruncationUnique | _upstream_kek/cpu.cpp:1190-1229 | only one operand is the truncation of a value |
| FloatingPoint.OwnTruncation | _upstream_kek/cpu.cpp:1156-1229 | an operand is its own truncation exactly with a nonzero exponent field or as zero |
| FloatingPoint.RelativeError | _upstream_kek/cpu.cpp:1190-1229 | truncation goes toward zero and loses less than 2^-23 of the value |
| ConditionCodes.BranchesFollowOrder | _upstream_kek/cpu.cpp:2092-2142 | after CMP the signed branches decide the signed order and the unsigned ones the unsigned order, for bytes and words |
| ConditionCodes.SignedIs | _upstream_kek/cpu.cpp:701-713 | the operand as a two's complement number of 8 or 16 bits, its sign bit, and which numbers fit |
| ConditionCodes.SingleFlagBranches | _upstream_kek/cpu.cpp:2092-2142 | BR, the branches on N and V alone, and which opcodes are no branch |
| ConditionCodes.OtherHalfKept | _upstream_kek/cpu.cpp:1734-1750 | a byte operation leaves the register's other half |
| ConditionCodes.Compare | _upstream_kek/cpu.cpp:701-713 | CMP's V and C are signed overflow and borrow of the difference |
| ConditionCodes.Alu.AddPair | _upstream_kek/cpu.cpp:775-802 | ADD, ADC, ADD add register pairs modulo 2^32, if and only if no carry leaves the low words when the high source is the high destination, and the low source is zero when it is the low one |
| ConditionCodes.Alu.SubPair | _upstream_kek/cpu.cpp:775-802 | SUB, SBC, SUB subtract register pairs modulo 2^32, under the like condition with a borrow |
| ConditionCodes.Alu.Adc | _upstream_kek/cpu.cpp:1734-1750 | carry out and overflow of adding the carry to a register's word or low byte; a byte's other half is kept |
| ConditionCodes.Alu.Sbc | _upstream_kek/cpu.cpp:1770-1786 | borrow and overflow of subtracting the carry, word and byte |
| ConditionCodes.Alu.AdcOperand | _upstream_kek/cpu.cpp:1751-1766 | the same for a word or byte from memory |
| ConditionCodes.Alu.SbcOperand | _upstream_kek/cpu.cpp:1787-1802 | the same for a word or byte from memory |
| CallReturn.TrapThenRti | _upstream_kek/cpu.cpp:2364-2367 | after a trap to a kernel vector, RTI restores PC, PSW and SP and only two stack words have changed |
| CallReturn.Cpu.ReturnFromInterrupt | _upstream_kek/cpu.cpp:2364-2367 | RTI pops PC and PSW, with the PSW confined outside kernel mode |
| CallReturn.TrapPushes | _upstream_kek/cpu.cpp:2479-2573 | the whole effect of such a trap on the machine |
| CallReturn.Cpu.Trap | _upstream_kek/cpu.cpp:2479-2573 | the trap, on any stack with its limit zones, ends in the specified state |
| CallReturn.TrapEnters | _upstream_kek/cpu.cpp:2518-2543 | in the words of memory: PC from the vector, priority the level given or else bits 7-5 of the second word, mode, register set and low bits from that word, previous mode the old mode |
| CallReturn.TrapStacks | _upstream_kek/cpu.cpp:2548-2556 | with room on the stack of the handler's mode, the old PSW word above the old PC there, and no other word changed |
| CallReturn.RtiReturns | _upstream_kek/cpu.cpp:2364-2367 | RTI in the words of the stack it runs on, in every mode |
| CallReturn.PushZones | _upstream_kek/cpu.cpp:2196-2243 | where a kernel push stores, moves SP and asks for a trap, by its distance from the limit |
| CallReturn.RegistersApart | _upstream_kek/cpu.cpp:120-160 | a register written is seen by exactly the programs that share its set or mode |
| Delivery.HandlerIsShielded | _upstream_kek/cpu.cpp:417-474 | after a delivery the handler runs at the request's level, nothing still queued can interrupt it, and its RTI raises the flag again |
| Delivery.Core.ExecuteAnyPending | _upstream_kek/cpu.cpp:417-474 | the scan and its trap together: the chosen request vectors the processor at its level, or nothing is above the priority |
| CallReturn.Cpu.PushStack | _upstream_kek/cpu.cpp:2196-2243 | the push with yellow and red zones and the emergency stack |
| CallReturn.Cpu.SetPsw | _upstream_kek/cpu.cpp:348-379 | the new PSW, confined outside kernel mode; a lower priority wakes the step loop |
| CallReturn.PswRoundTrip | _upstream_kek/cpu.cpp:348-379 | the PSW's fields survive their encoding |
| CallReturn.RtiNeverGainsPrivilege | _upstream_kek/cpu.cpp:348-379 | outside kernel mode a popped PSW can raise neither mode nor priority |
| CallReturn.Direct | _upstream_kek/cpu.cpp:587-640 | the operand addresses of the register, autoincrement, autodecrement and index modes, PC included |
| CallReturn.Deferred | _upstream_kek/cpu.cpp:587-640 | each deferred mode fetches its address from the operand of the mode below |
| CallReturn.StepsCancel | _upstream_kek/cpu.cpp:587-620 | (R)+ finds what -(R) stepped to and undoes the step |
| CallReturn.JsrGoes | _upstream_kek/cpu.cpp:2255-2305 | JSR goes to its operand, stacks the old link and links the address behind it |
| CallReturn.RtsGoes | _upstream_kek/cpu.cpp:2437-2460 | RTS goes where the link points and unstacks the link |
| CallReturn.JsrThenRts | _upstream_kek/cpu.cpp:2255-2305 | RTS after JSR leaves what evaluating the operand left, but for the pushed word |
| CallReturn.EvaluationKeeps | _upstream_kek/cpu.cpp:565-643 | operand evaluation keeps a register exactly when it does not step it |
| CallReturn.JsrRtsRestores | _upstream_kek/cpu.cpp:2437-2460 | the pair restores link and SP exactly when the operand steps neither, and resumes after the JSR |
| CallReturn.LinkThroughSp | _upstream_kek/cpu.cpp:2437-2460 | with SP as link the return resumes after the JSR but SP becomes the word found there |
| CallReturn.CoroutineSwap | _upstream_kek/cpu.cpp:2255-2305 | JSR PC,@(SP)+ exchanges PC with the stack top |
| CallReturn.Cpu.JsrInstruction | _upstream_kek/cpu.cpp:2255-2305 | the instruction does what the specification says for every mode, and traps on a register |
| CallReturn.Cpu.Rts | _upstream_kek/cpu.cpp:2437-2460 | the return, with its cases for PC and SP as link |
| UnibusMap.Bus.ReadBlock | _upstream_kek/bus.cpp:1368-1385 | transfers the longest prefix whose translated addresses are in memory, byte for byte as byte reads would |
| UnibusMap.Bus.WriteBlock | _upstream_kek/bus.cpp:1395-1412 | leaves memory as the same byte writes in order would, aliased and wrapping pages included |
| UnibusMap.Bus.WriteByte | _upstream_kek/bus.cpp:195-213 | with the map on, page p < 31 and offset o are the cell (entry p + o) mod 2^22, and page 31 the I/O page; with it off, the 18-bit address itself |
| UnibusMap.Bus.ReadByte | _upstream_kek/bus.cpp:195-213 | the same for a byte read; zero outside memory |
| UnibusMap.LandsAtTranslation | _upstream_kek/bus.cpp:195-213 | the translation is the cell told by page and offset |
| UnibusMap.PutsDeposit | _upstream_kek/bus.cpp:1395-1412 | after a transfer each cell holds the last byte that landed there, told by page and offset, and no other cell has changed |
| UnibusMap.TransferStops | _upstream_kek/bus.cpp:1368-1412 | a transfer stops at the first byte outside memory, with the map on at page 31 |
| UnibusMap.SharedBase | _upstream_kek/bus.cpp:195-213 | what is written through one page is read through another of the same base if and only if the map is on |
| UnibusMap.ReachIsLongestPrefix | _upstream_kek/bus.cpp:1368-1385 | the count returned is the longest in-memory prefix |
| UnibusMap.PageRun | _upstream_kek/bus.cpp:195-213 | inside a page and below memory's end consecutive bus addresses stay consecutive |
| UnibusMap.PutsRun | _upstream_kek/bus.cpp:1395-1412 | one block copy equals its byte writes |
| UnibusMap.FetchRun | _upstream_kek/bus.cpp:1368-1385 | one block copy equals its byte reads |
| UnibusMap.Bus.TranslateAddress | _upstream_kek/bus.cpp:195-213 | page, I/O page and disabled map, cut to 22 bits |
| UnibusMap.StoredHalves | _upstream_kek/bus.cpp:171-193 | writing one half of a map entry reads back masked and keeps the other half |
| UnibusMap.Bus.WriteMapRegister | _upstream_kek/bus.cpp:171-193 | word and byte writes change one half of one entry |
| UnibusMap.Bus.ReadMapRegister | _upstream_kek/bus.cpp:156-169 | word and byte reads of either half |
| UnibusMap.Bus.ResetMap | _upstream_kek/bus.cpp:150-154 | after a reset every page below the I/O page maps to itself |
| DeunaTransmit.Device.ProcessTransmit | kek_deuna.cpp:145-189 | hands over exactly the frames of the owned descriptors in ring order, gives those descriptors back, and terminates for any ring |
| DeunaFrames.FramesHold | kek_deuna.cpp:149-179 | in words of guest memory: a frame's bytes are its segments' bytes in order, low byte first, with the station's address in bytes 6 to 11, zeros up to 60 and nothing past 1514 |
| DeunaFrames.CallSends | kek_deuna.cpp:145-189 | a call sends one such frame for each descriptor that ends one, takes owned descriptors only, and stops at one that is not owned |
| DeunaFrames.FinishedHolds | kek_deuna.cpp:168-179 | the frame handed over, byte by byte |
| Deuna.OnlyOwnBitsChange | kek_deuna.cpp:182-183 | a call changes OWN bits only, one per descriptor taken, and stops at a descriptor it does not own |
| Deuna.ReleaseCounts | kek_deuna.cpp:182-183 | each turn strictly lowers the number of words with the OWN bit |
| Deuna.OneFrame | kek_deuna.cpp:159-179 | chunks from a start to the next end give one frame, their concatenation |
| Deuna.TwoCalls | kek_deuna.cpp:145-189 | splitting the work over two calls gives the same frames, rest and ring position |
| Deuna.HandedOver | kek_deuna.cpp:159-179 | assembling in two parts from a clipped accumulator equals assembling at once |
| Deuna.ConsumedAre | kek_deuna.cpp:149-157 | a call takes the ring as it stood; releasing on the way does not change what it reads |
| DeunaTransmit.Device.Append | kek_deuna.cpp:161-166 | the accumulator is the concatenation clipped to 1514 bytes |
| DeunaTransmit.Device.Finish | kek_deuna.cpp:168-179 | own source address from 12 bytes on, padding from 14 to 60 |
| DeunaReceive.Receiver.ProcessReceive | kek_deuna.cpp:194-259 | moves at most four waiting frames, in order, into consecutive slots the guest has handed over |
| DeunaReceive.AllArrive | kek_deuna.cpp:200-258 | after a call every frame taken can be read from its own slot, flagged as a whole frame with its length; none is overwritten by a later one |
| DeunaReceive.ArrivedReads | kek_deuna.cpp:244-251 | a frame that arrived, in words of guest memory: given back, first and last segment, length plus four, and its bytes low byte first |
| DeunaReceive.DeliveryReads | kek_deuna.cpp:206-242 | a frame is cut to the buffer, and only an IPv4 header that claims more than is left is rewritten: its length fits, it verifies, nothing else changes |
| DeunaReceive.FlagsKept | kek_deuna.cpp:246-249 | which of the old flags stay |
| DeunaReceive.TakenFromFront | kek_deuna.cpp:200-208 | no frame is taken without a slot, skipped or reordered; a call stops early only for want of frames or slots |
| DeunaReceive.PlacedKeepsLaid | kek_deuna.cpp:244-251 | delivering a frame keeps the ring's layout |
| DeunaReceive.TrimKeepsHeader | kek_deuna.cpp:216-242 | a cut frame's IP header never claims more than is there, verifies if it did before or was rewritten, and differs in length and checksum only |
| DeunaReceive.Trim | kek_deuna.cpp:216-242 | the rewrite in the frame buffer |
| DeunaReceive.WithinBuffer | kek_deuna.cpp:210-251 | every word that delivering a frame writes lies in the slot's descriptor or the buffer it offers, if and only if the buffer's length is not zero or the frame is empty |
| DeunaReceive.NothingElseWritten | kek_deuna.cpp:244-251 | delivering a frame changes no other word, whatever the descriptor says |
| DeunaReceive.DeliveredIsWritten | kek_deuna.cpp:244-251 | and each delivered byte is in memory afterwards unless the descriptor covers it |
| DeunaReceive.ZeroLengthOverruns | kek_deuna.cpp:210-214 | a 60-byte frame for a descriptor with buffer length zero changes a word that is neither in the descriptor nor in its buffer |
| Checksum.FoldResidue | eth_nat.cpp:194 | folding keeps the sum modulo 65535 |
| Checksum.SumIsWhole | eth_nat.cpp:187-196 | the sum is the buffer's own big-endian number modulo 65535 |
| Checksum.PseudoHeaderBytes | eth_nat.cpp:198-214 | the pseudo-header words are the sum of its twelve bytes |
| Checksum.ComplementVerifies | eth_nat.cpp:187-196 | a sum including its own checksum folds to all ones |
| Checksum.AccumulatorIsSafe | eth_nat.cpp:187-196 | the 32-bit sum cannot overflow, for every content, if and only if the length is at most 131074 |
| Checksum.StoredChecksumVerifies | eth_nat.cpp:198-214 | a checksum stored in its zeroed field verifies, with any pseudo-header |
| Checksum.InetChecksum | eth_nat.cpp:187-196 | the loop computes the complement of the folded sum |
| Checksum.TcpChecksum | eth_nat.cpp:198-214 | the same with the pseudo-header |
| Packets.DeliveredVerifies | eth_nat.cpp:246-275 | every forged IPv4 header, and every TCP segment with its pseudo-header, verifies |
| Packets.DeliverIpv4 | eth_nat.cpp:246-275 | the forged frame byte for byte, clipped to the frame size |
| Packets.HeaderReads | eth_nat.cpp:252-265 | version, length, TTL, protocol and both addresses as a receiver reads them |
| Packets.BodyReads | eth_nat.cpp:266-272 | the layer-4 bytes arrive as they are, but for the TCP checksum |
| Packets.TurnedReads | eth_nat.cpp:1078-1083 | the reply goes from the address given to the request's sender and keeps the rest of its header |
| Packets.EchoVerifies | eth_nat.cpp:1065-1092 | the forged echo reply's header and message verify and keep identifier, sequence and payload |
| Packets.LocalIcmpEcho | eth_nat.cpp:1065-1092 | the reply frame byte for byte; no reply to anything but an echo request |
| NatTable.StepKeepsInv | eth_nat.cpp:367-721 | every step keeps unique keys, at most one ping, its entry bound to its session, and queue bounds |
| NatTable.RunsAreSafe | eth_nat.cpp:306-1032 | so in every run: no key twice, no two pings in flight, no session answered twice, each live session on the entry it was started for |
| NatTable.InFlightIsKept | eth_nat.cpp:555-567 | until its end is reported no run evicts, expires or rebinds the entry of a ping in flight |
| NatTable.AllocationSucceeds | eth_nat.cpp:322-333 | in a reachable state a slot can always be had |
| NatTable.OldestIsOldest | eth_nat.cpp:322-333 | the wrapped comparison picks the greatest age while no entry is older than half the clock's range |
| NatTable.BeforeIsSigned | eth_nat.cpp:322-333 | one time is before another if and only if their signed 32-bit difference is negative |
| NatTable.EnteredKeys | eth_nat.cpp:375-398 | entering a conversation keeps all others while there is room, else costs exactly the one evicted |
| NatFlow.UdpInOrder | eth_nat.cpp:367-440 | in every run the datagrams drained and those queued are exactly the ones accepted, in order |
| NatFlow.TcpInOrder | eth_nat.cpp:827-950 | the same for segments, with a bare reset for each reset of a known conversation |
| NatFlow.UdpTaken | eth_nat.cpp:367-416 | a datagram is accepted if and only if there is room, and then is the last in the queue, with an entry |
| NatFlow.TcpTaken | eth_nat.cpp:827-921 | which segments are accepted and what they leave in queue and table |
| NatFlow.IcmpTaken | eth_nat.cpp:616-687 | an echo is accepted if it waits, is in flight or finds room, and queued only in the last case |
| NatFlow.EntryIs | eth_nat.cpp:375-398 | a known conversation keeps its entry but for the time; a new one begins with no ping, request, reply or socket |
| NatFlow.UdpDrained | eth_nat.cpp:418-455 | a datagram drained finds or makes a socket in its entry when one can be had |
| NatFlow.TcpDrained | eth_nat.cpp:923-1011 | a reset drained ends its conversation, an opening segment gets a socket or ends it |
| NatFlow.IcmpDrained | eth_nat.cpp:689-721 | the echo drained becomes the ping in flight, bound to its entry, if its session starts |
| NatFlow.IcmpWaits | eth_nat.cpp:689-698 | while a ping is in flight the echo queue waits |
| NatFlow.FirstSuccessReplies | eth_nat.cpp:495-520 | the first success of a session sends one reply, later ones none |
| NatFlow.EndFrees | eth_nat.cpp:555-567 | after the end of a session no ping is in flight |
| NatFlow.ExpiredExactly | eth_nat.cpp:1263-1277 | an entry is dropped after 60, 300 or 30 seconds without use |
| NatScheduling.EchoScheduledOnce | eth_nat.cpp:664-686 | a step keeps each waiting echo queued once and known to its entry, if and only if it does not take such an entry's slot |
| NatScheduling.NoEchoTwice | eth_nat.cpp:616-721 | no run from the start queues an echo twice unless a step of it takes a waiting echo's slot |
| NatHistory.TwiceExactly | eth_nat.cpp:616-721 | in any state of a run an echo is in the queue twice if and only if two steps queued it and the earlier request is still undrained |
| NatHistory.EverTwiceExactly | eth_nat.cpp:616-721 | a run ever has an echo in the queue twice if and only if it queues the echo, takes its slot, and queues it again while the first request is undrained |
| NatHistory.UnmarkedBy | eth_nat.cpp:322-721 | over all steps: a waiting echo's entry stops saying so only when its slot is taken or a request for it is drained |
| NatEviction.EvictionDoubleSchedules | eth_nat.cpp:322-333 | a run of an echo, 32 new conversations and the echo again that queues it twice |
| NatDevice.Nat.AllocEntry | eth_nat.cpp:322-333 | the one-pass search returns the first free slot, else the oldest without a ping in flight |
| NatDevice.Nat.NatIcmpOut | eth_nat.cpp:616-687 | the step for an echo request |
| NatDevice.Nat.NatUdpOut | eth_nat.cpp:367-416 | the step for a datagram |
| NatDevice.Nat.NatTcpOut | eth_nat.cpp:827-921 | the step for a segment |
| NatDevice.Nat.DrainIcmp | eth_nat.cpp:689-721 | the step that starts the next ping |
| NatDevice.Nat.DrainTcp | eth_nat.cpp:923-1008 | the step for a queued segment, as far as the table goes |
| NatDevice.Nat.OnPingSuccess | eth_nat.cpp:495-520 | the step for an answer: at most one reply for a session |
| NatDevice.Nat.OnPingEnd | eth_nat.cpp:555-567 | the end of a session |
| NatDevice.Nat.ExpireEntries | eth_nat.cpp:1263-1277 | frees exactly the idle entries without a ping in flight |
| TcpDelivery.SegmentsJoin | eth_nat.cpp:776-783 | the segments of received data join to the data |
| TcpDelivery.NumberLocates | eth_nat.cpp:776-783 | a segment's sequence number says which part of the data it carries; none is empty or over 512 bytes |
| TcpDelivery.Receive | eth_nat.cpp:765-789 | the loop sends those segments and advances the host's number past the data; without a buffer nothing is sent and the number stays |
| TcpAcknowledge.AcknowledgedIsQueued | eth_nat.cpp:897-1032 | in every run of a guest that sends in order every acknowledged byte was queued, if and only if no acknowledgment follows a segment with data that the full queue refused, or one over 512 bytes with another after it; and the number it carries |
| TcpAcknowledge.RefusedIsAcknowledged | eth_nat.cpp:897-905 | a run that acknowledges a refused byte |
| TcpAcknowledge.StreamArrives | eth_nat.cpp:897-1032 | what was written to the remote host and what still waits are the guest's stream byte for byte, if and only if no segment was refused or cut and nothing taken out was left unwritten |
| TcpAcknowledge.Outbound.TcpOut | eth_nat.cpp:895-920 | the step for a segment: the number moves, then the queue takes or refuses it |
| TcpAcknowledge.Outbound.OtherOut | eth_nat.cpp:902-920 | another conversation's segment takes a place in the same queue |
| TcpAcknowledge.Outbound.ReceivedFromHost | eth_nat.cpp:776-783 | the acknowledgment that goes with the host's data |
| TcpAcknowledge.Outbound.DrainItem | eth_nat.cpp:923-1032 | one item taken out: what is written and what is acknowledged |
| Ring.Fifo.Push | host_lib/util/fifo.h:25-37 | appends, or drops the byte when full; reports an empty ring |
| Ring.Fifo.Pop | host_lib/util/fifo.h:39-45 | takes the oldest byte |
| Ring.Fifo.Peek | host_lib/util/fifo.h:51-60 | the longest run of the oldest bytes that does not wrap |
| Ring.Fifo.Consume | host_lib/util/fifo.h:62-65 | removes that many of the oldest bytes |
| FrameChannel.PlainPasses | kl11.cpp:249-277 | output in which no prefix occurs passes unchanged but for NULs, up to the bytes of a pending partial match |
| FrameChannel.RoundTrip | kl11.cpp:202-215 | what a reply is framed as submits exactly its payload and shows nothing, if and only if it has at most 256 characters, all permitted |
| FrameChannel.CommandSubmitted | kl11.cpp:280-297 | a permitted command is submitted, cut to 256 characters |
| FrameChannel.CommandInBytes | kl11.cpp:249-298 | in bytes: ESC or `$`, `]VPDP;`, a text of permitted characters, ETX or EOT submit the text cut to 256 and show nothing |
| FrameChannel.CommandBroken | kl11.cpp:288-294 | another control character throws the command away and is shown |
| FrameChannel.SinksGet | kl11.cpp:233-240 | with room every sink gets the bytes in order without NULs, telnet each 255 twice |
| FrameChannel.FullSinkDrops | kl11.cpp:195-200 | a sink with 8191 bytes waiting drops what comes |
| FrameChannel.CommandIsInvisible | kl11.cpp:249-298 | a command leaves no trace in the output around it |
| FrameChannel.NoRestart | kl11.cpp:272-276 | a byte that breaks a match begins no new one |
| FrameChannel.SubmittedIffIdle | kl11.cpp:249-298 | a whole permitted command is submitted and nothing shown if and only if it meets an idle parser |
| FrameChannel.SubmittedAfter | kl11.cpp:249-298 | so after any output it is recognised exactly when that output left neither a partial match nor a command open |
| FrameChannel.ExpansionBound | kl11.cpp:272-276 | one guest byte makes at most seven reach a sink, none of them NUL |
| FrameChannel.ExpansionIsReached | kl11.cpp:272-276 | and seven can |
| FrameChannel.EmitAllFits | kl11.cpp:233-240 | with two free places for each byte no sink drops any |
| FrameChannel.Channel.HandleGuestOutput | kl11.cpp:249-298 | the parser's step on state, sinks and submitted commands |
| FrameChannel.Channel.QueueControlReply | kl11.cpp:202-215 | a reply is queued whole, or not at all when it does not fit |
| Console.FromPowerUp | kek_src_tty.cpp:163-431 | every run from power-up keeps the interrupt rules, the keyboard's order and, if courteous, every byte of output |
| Console.StepKeepsInv | kek_src_tty.cpp:163-204 | in each direction the request flag is DONE and IE, the vector waits only then, and each rise queued it exactly once; busy is not DONE |
| Console.StepInOrder | kek_src_tty.cpp:207-228 | keyboard bytes appear in the order they were taken and are not overwritten, unless and only unless the guest writes over an unread byte |
| Console.StepKeepsFlow | kek_src_tty.cpp:230-256 | with writes at DONE only, no sink drops a byte; room behind DONE is kept by all but a reset that finds too little |
| Console.NothingDropped | kl11.cpp:195-200 | so no courteous run drops output, however drains interleave |
| Console.ResetOverruns | kek_src_tty.cpp:276-306 | a run in which every write is made at DONE, and resets come between, that drops output |
| Console.DoneReturns | kek_src_tty.cpp:234-251 | while there is room DONE is back after at most 32 services |
| Console.GuardIsRedundant | kek_src_tty.cpp:207-214 | the test for a waiting vector holds back no byte that DONE would not |
| Console.StatusWord | kek_src_tty.cpp:313-349 | DONE is bit 7 of a status word, interrupt enable bit 6, and there is no other |
| Console.StatusWritten | kek_src_tty.cpp:359-431 | a status written is read back in bit 6, beside DONE in bit 7; the reader bit takes the keyboard's DONE away |
| Console.KeyArrives | kek_src_tty.cpp:207-228 | a byte from the host is read back without parity, under DONE, with a request if enabled |
| Console.KeyPolled | kek_src_tty.cpp:253-268 | how often the host is asked, with and without the interrupt enabled |
| Console.PrinterBusy | kek_src_tty.cpp:395-431 | a byte written takes DONE away and goes to the parser |
| Console.PrinterWaits | kek_src_tty.cpp:230-251 | DONE comes back at the 32nd service if every sink has room, with a request if enabled |
| Console.ResetShows | kek_src_tty.cpp:276-306 | the registers after a reset, as the guest reads them |
| Console.Tty.ServiceDeferred | kek_src_tty.cpp:230-268 | the deferred work of both directions |
| Console.Tty.WriteWord | kek_src_tty.cpp:359-431 | the four register writes |
| Console.Tty.ReadWord | kek_src_tty.cpp:313-349 | the four register reads |
| Console.Tty.ResetDevice | kek_src_tty.cpp:276-306 | the reset of both directions; sinks and parser are untouched |
| EscapeCodec.RoundTrip | appconfig.cpp:422-453 | parsing what was printed gives the bytes back if and only if no `^` stands before the last |
| EscapeCodec.Letters | appconfig.cpp:88-130 | each named escape stands for its code, any other character for itself |
| EscapeCodec.Carets | appconfig.cpp:82-88 | a caret and a character are its control code, or DEL; a last caret or backslash is itself |
| EscapeCodec.HexPair | appconfig.cpp:101-113 | two hexadecimal digits of either case are a byte |
| EscapeCodec.HexSingle | appconfig.cpp:101-113 | one digit is a byte, and what follows is left alone |
| EscapeCodec.NoOtherDigit | appconfig.cpp:40-46 | which characters are hexadecimal digits, and of what value |
| EscapeCodec.HexNone | appconfig.cpp:101-113 | without a digit it is a zero byte |
| EscapeCodec.OctalSingle | appconfig.cpp:114-124 | one octal digit is a byte, before anything but a digit |
| EscapeCodec.OctalTriple | appconfig.cpp:114-124 | three octal digits are a byte |
| EscapeCodec.OctalPair | appconfig.cpp:114-124 | two are, before anything but a digit |
| EscapeCodec.PrintedForms | appconfig.cpp:422-453 | the text is printable, and one, two or four characters for each byte |
| EscapeCodec.OctalHead | appconfig.cpp:114-124 | a three-digit octal escape is never read further, whatever follows |
| EscapeCodec.NoOuterSpace | appconfig.cpp:422-453 | the printed text neither begins nor ends with white space |
| EscapeCodec.Decode | appconfig.cpp:79-135 | the buffer holds what the text stands for, as far as it fits, and nothing beyond |
| EscapeCodec.Escape | appconfig.cpp:422-453 | the printer's loop |

## Left out

- Memory management: relocation is off and guest memory is flat. Odd addresses, the I/O page and non-existent memory end the modelled instructions or are excluded by the stated conditions.
- Interrupts.NoLostWakeup: the wake flag and the queue are taken as sequentially consistent; the relaxed memory order of the flag is not modelled. Timed waiting, condition variables and PIRQ clearing are left out.
- CallReturn.Cpu.Trap: nested traps, aborts through longjmp and the override of the stacked PC are not modelled; `inTrap` false is a condition. MMR1 bookkeeping and CPU error bits are left out.
- FloatingPoint.ToDouble: the host double is an exact real, which single precision needs no more than; infinities and NaN cannot arise in it. Double-precision operands are left out, because 55 fraction bits do not fit a host double.
- FloatingPoint.FromDouble: the double-precision form, infinities and NaN, as for `FloatingPoint.ToDouble`.
- ConditionCodes.Alu.AddPair: as for `ConditionCodes.Alu.SubPair`, pairs in memory are left out, and two equal destinations, which are no pair.
- ConditionCodes.Alu.SubPair: pairs in memory are left out, and two equal destinations.
- ConditionCodes.Alu.AdcOperand: evaluating the memory operand and storing the result are left out.
- ConditionCodes.Alu.SbcOperand: as for `ConditionCodes.Alu.AdcOperand`.
- DiskCache.Disk.DiskWrite: what a write that fails half-way leaves in its own byte range is arbitrary, so the exact condition is about completed writes; after a failing one coherence is promised when no other slot has the image.
- DiskCache.Disk.ReopenAll: other calls that come in while the storage lock is free between closing and reopening are not part of this method; `DiskCache.Disk.PerformAll` has the closing and each mount as steps of their own, with any calls in between.
- DiskCache: read and write counters, error texts and flushing calls.
- ProgrammableClock: byte access to the registers, which composes word accesses.
- UnibusMap.Bus.ReadBlock: memory is at most 22 bits wide, as the translation's mask has it; the failure result of the memory's own block copy cannot occur then.
- Deuna.TwoCalls: the ring's flag words must lie apart from its other words and its segments, as a driver lays them out; without that a segment can carry a flag word that one call changes.
- DeunaFrames.CallSends: the ring must be laid out as for `Deuna.TwoCalls`; a frame begun in an earlier call is not told byte by byte here, `Deuna.TwoCalls` says that it is the frame of one call.
- DeunaReceive.AllArrive: the guest's slots must be sound and apart: in memory, with buffers that are not empty and share no word with each other or with a descriptor, as a driver lays them out.
- Deuna: port commands, control registers and the interrupt line; `running`, `blocked` and the two interrupt flags stand for what the rings use of them. The network side is the frames handed over and the frames waiting.
- Checksum.InetChecksum: beyond 131074 bytes the 32-bit register may wrap, and nothing is promised; frames have at most 1514.
- NatTable: resets and flushing, the windows in which the table is unlocked around library calls, payload bytes, sequence numbers and connection phases. Header parsing happens before a step.
- NatDevice.Nat.DrainTcp: what the network library does with a segment appears as its outcome; the segment itself is not modelled.
- NatScheduling.NoEchoTwice: one direction; `NatHistory.EverTwiceExactly` says exactly which runs queue an echo twice.
- NatEviction.EvictionDoubleSchedules: a waiting entry that expires has the same effect, but the poll that expires entries drains the queue first.
- NatDevice.Nat.StartPing: sessions are numbered as they are created, so that a handle is never taken for an older one.
- NatTable.OldestIsOldest: needs every age below 2^31 milliseconds, because the source compares wrapped differences.
- TcpDelivery.Receive: the segments are what is handed to the packet builder; that one of them finds no memory there, or no room in the guest's queue, is left out.
- TcpAcknowledge.AcknowledgedIsQueued: the guest sends every byte once and in order. Retransmissions, SYN, FIN and reset segments, the window, and what the library does with data it has taken are left out.
- Ring: producer and consumer take turns; the release and acquire order between cores is not modelled.
- FrameChannel: the boot script's observation of output, and whether the command queue accepts a submitted command.
- Console: host input arrives as the answer to a request for a byte, so the delay between bytes and the choice among input queues are left out, as are byte access, trace output and statistics.
- EscapeCodec: the other configuration values.
- Segmentation beyond received data, TCP closing, ARP and UDP replies, the remaining instructions, the disk controllers and every user interface are not part of this model.
