# CDC-VP verification

A Dafny model of the hardware models in this SystemC/TLM-2.0 virtual platform,
with proofs about whole runs of them.

Each component has three parts. `X.dfy` holds its state as a value, one function
per process or bus access, and the set of all runs: every interleaving of bus
accesses, process activations, notifications, resets and time steps, from power
up. `XTheorems.dfy` holds what is proved of every run. `XDevice.dfy` (for SPI
`SpiController.dfy`, for ELF `ElfLoader.dfy`) is the component in its imperative
form, a class with the fields and loops of the source, each method proved to
compute the corresponding function.

| component | files |
|---|---|
| SPI controller | `Spi.dfy`, `SpiTheorems.dfy`, `SpiStatus.dfy`, `SpiProgress.dfy`, `SpiScenarios.dfy`, `SpiRegisters.dfy`, `SpiController.dfy` |
| CLINT timer | `Clint.dfy`, `ClintTheorems.dfy`, `ClintDevice.dfy` |
| PLIC | `Plic.dfy`, `PlicTheorems.dfy`, `PlicDevice.dfy` |
| watchdog | `Watchdog.dfy`, `WatchdogTheorems.dfy`, `WatchdogDevice.dfy` |
| memories, router | `Memory.dfy`, `MemoryDevice.dfy`, `Router.dfy`, `RouterTheorems.dfy`, `RouterDevice.dfy` |
| ELF loader | `Elf.dfy`, `ElfTheorems.dfy`, `ElfLayout.dfy`, `ElfLoader.dfy` |
| PWM | `Pwm.dfy`, `PwmTheorems.dfy`, `PwmDevice.dfy` |
| APB timer | `Timer.dfy`, `TimerTheorems.dfy`, `TimerDevice.dfy` |
| shared | `Arithmetic.dfy`, `Bytes.dfy`, `Tlm.dfy` |

`dafny verify dfyconfig.toml` checks the project.

## Modelling decisions

- Scheduling follows clauses 4.2.1 and 5.10 of IEEE 1666-2011. A pending delta
  notification is a flag, a triggered process is a ready flag, and all pending
  notifications are delivered together once no process is ready. A state is
  settled when nothing is pending or ready. Where the exact moment of a step
  depends on times (the end of an SPI flight, a timer tick) the model allows it
  at any moment, so the runs include the real ones.
- An `sc_fifo` (clause 6.23 of IEEE 1666-2011) keeps its two deferred counts: a
  read shows in `num_available` at once but in `num_free` only after the next
  update phase, and a write the other way round. Every FIFO call leaves a
  notification or a zero-time wait pending, so in a settled state both counts are
  those of a plain queue.
- Registers are natural numbers or records of named bits; masks are written as
  remainders. Wrap-around is written out where it matters: the CLINT goal, the
  end of a router region, ELF offsets and lengths, the PWM subtraction and
  counter.
- The reply of the SPI peripheral is an arbitrary word. Levels given to
  `set_irq` and to output ports are recorded in the state.
- An access that the SPI controller refuses with an error report changes
  nothing; the report's default action is to throw.

Things the proofs show about the code that its documentation does not say:

- SPI: a reset during a frame does not stop it, and its reply lands in the emptied
  RX FIFO. `handle_reset` computes SR before the places it drains are free and
  notifies no refresh, so after a reset that found words in the TX FIFO SR goes on
  reading "not empty, busy". Words written to DR in the same evaluation phase as a
  reset outlive it. A pop alone does not refresh RIS bit 3. A frame read after CR0
  has been narrowed comes back cut. The offset parameter of `write_reg` is eight
  bits wide, so writes alias modulo 0x100.
- CLINT: the README's rule for MTIP holds in every settled state without any
  bound on `mtimecmp`. A compare value whose product with 10^6 wraps makes the
  timer re-arm itself at zero time for ever once its wrapped goal is reached.
- Timer: a bus write wakes a counting thread and costs one count, so a value
  written to a running timer is at once one less. A clear written while the timer
  is disabled takes effect only when the thread next wakes after it is enabled
  again, and that wake is not counted. A reset pulse while the timer is still
  disabled does not drop such a clear; once it is enabled again, the reset edge
  itself serves it.
- Router: a region that ends exactly at 2^64 matches no address.
- ELF: in a 64-bit program header the loader takes the field at byte 16, which
  the gABI gives to `p_vaddr`, for `p_paddr` (byte 24). A 32-bit file of fewer
  than 64 bytes is refused although its header has 52, and a class byte other than
  1 or 2 is taken for 32 bits. A segment of 2^32 bytes or
  more is silently cut to its length modulo 2^32.
- PWM: a phase between one and two periods spoils the duty unless the period
  divides 2^32; larger phases only rotate the waveform, though not by the phase. A
  period above 2^16 makes the counter run modulo 2^16.

## Model

| member | source | states |
|---|---|---|
| `SpiTheorems.TransmitConservation` | components/spi_tlm/spi.cpp:72-147 | in every interleaving, the words the bus wrote to DR with room since the last reset (with those the reset left queued) are the words handed to the peripheral, in order, followed by the TX FIFO contents |
| `SpiTheorems.DataWrite` | components/spi_tlm/spi.cpp:34-147 | a bus write of DR queues the word written, whole, and succeeds, exactly when there is room |
| `SpiTheorems.DataRead` | components/spi_tlm/spi.cpp:194-207 | a bus read of DR takes the oldest available word and returns it modulo 2^(CR0 mod 16 + 1), or takes none and returns 0 |
| `SpiTheorems.FrameEnd` | components/spi_tlm/spi.cpp:100-111 | a finishing frame is the reply modulo 2^width, stored exactly when there is room |
| `SpiTheorems.ReceiveConservation` | components/spi_tlm/spi.cpp:103-207 | in every interleaving, the replies cut to their width and stored since the last reset (with those the reset left queued) are the words popped by reads of DR, in order, followed by the RX FIFO contents |
| `SpiTheorems.WireConservation` | components/spi_tlm/spi.cpp:81-111 | over the whole run, across resets, every word sent completes once, in order, with the frame width it was sent with, and at most one is in flight |
| `SpiTheorems.DropExactlyWhenFull` | components/spi_tlm/spi.cpp:100-109 | a finishing frame is the masked reply; it is dropped exactly when the history leaves eight places taken by stored frames, unread or read only since the last update phase, and a drop sets RIS bit 0 |
| `SpiTheorems.OverrunBitIsExact` | components/spi_tlm/spi.cpp:103-207 | RIS bit 0 is set exactly when a frame ended without room or DR was read without a word since the last clear through ICR or reset |
| `SpiTheorems.TimeoutBitIsExact` | components/spi_tlm/spi.cpp:172-176 | RIS bit 1 only survives from power-up until it is cleared or reset |
| `SpiTheorems.CountsAreTraffic` | components/spi_tlm/spi.cpp:72-207 | in every run num_available lags by the words that joined a FIFO, and num_free by the words that left it, since the last update phase |
| `SpiTheorems.FifosBounded` | components/spi_tlm/spi.cpp:72-207 | both FIFOs hold at most eight words in every reachable state, and in a settled state num_available and num_free are those of a plain queue; with the preconditions of the FIFO calls, no call blocks |
| `SpiTheorems.FramesFit` | components/spi_tlm/spi.cpp:86-109 | in every run each stored frame fits in the width it was sent with |
| `SpiTheorems.WideExactlyIff` | components/spi_tlm/spi.cpp:86-206 | the mask at the read keeps every possible frame of a width exactly when the width in CR0 is no smaller |
| `SpiTheorems.SeenExactlyIff` | components/spi_tlm/spi.cpp:201-206 | in every run the values software reads on DR are the frames popped exactly when each frame fits in the width in CR0 at its read |
| `SpiTheorems.SoftwareSeesMaskedReply` | components/spi_tlm/spi.cpp:86-207 | if DR is read only with widths no smaller than those the frames at the head were sent with, the values software has read, in order, then the RX FIFO contents, are the stored frames |
| `SpiScenarios.NarrowedFrameIsCut` | components/spi_tlm/spi.cpp:201-206 | a run from power-up in which CR0 is narrowed before the read: software does not get the stored frame |
| `SpiTheorems.NoLostWakeup` | components/spi_tlm/spi.cpp:74-141 | a parked thread with queued words and SSE set always has its wake-up pending |
| `SpiTheorems.SettledMeansNoWork` | components/spi_tlm/spi.cpp:74-141 | a settled controller with queued words and SSE set has a frame in flight |
| `SpiTheorems.FrameStart` | components/spi_tlm/spi.cpp:74-87 | a frame starts only with SSE set and carries the oldest queued word and the width of CR0 |
| `SpiProgress.Quiesce` | components/spi_tlm/spi.cpp:72-115 | left alone, the kernel extends any run to a settled one |
| `SpiProgress.KernelStepUsesWork` | components/spi_tlm/spi.cpp:72-115 | every delta phase and process activation uses up a bounded measure, so delta cycles end |
| `SpiProgress.OwnStepUsesEffort` | components/spi_tlm/spi.cpp:72-115 | every process activation, delta phase and end of a frame, in any order and with any reply, lowers one measure |
| `SpiProgress.ScheduleIsBounded` | components/spi_tlm/spi.cpp:72-115 | so every schedule without bus accesses and resets ends within the measure at its start, with the same accepted words |
| `SpiProgress.EveryAcceptedWordIsSent` | components/spi_tlm/spi.cpp:72-147 | under every schedule and all replies, an enabled controller that has no step of its own left has sent and completed every accepted word in order |
| `SpiProgress.Finish` | components/spi_tlm/spi.cpp:72-115 | every run can be carried on to such an end |
| `SpiStatus.AlwaysCoherent` | components/spi_tlm/spi.cpp:253-298 | in every reachable state the interrupt registers and SR are up to date, or a notification that will refresh them is under way |
| `SpiStatus.SettledInterrupts` | components/spi_tlm/spi.cpp:253-298 | in every settled state MIS = RIS and IMSC, the pin is MIS not zero, RIS bit 2 is RX level at least 4, RIS bit 3 is TX level at most 4 where a word popped since RIS was last computed still counts (which needs a frame in flight), and SR is the stated function of the FIFOs where TX places not yet free when SR was last computed still count |
| `SpiStatus.StatusExactWithoutDrain` | components/spi_tlm/spi.cpp:273-323 | if every reset found the TX FIFO empty, SR of a settled controller is the function of its FIFOs |
| `SpiStatus.ResetStatus` | components/spi_tlm/spi.cpp:300-323 | after a reset from a settled state SR settles at 0x03 exactly if the TX FIFO was empty; otherwise it keeps reporting the drained words as TX not empty and busy |
| `SpiScenarios.LaggingStatusIsReached` | components/spi_tlm/spi.cpp:300-323 | a run from power-up with n words queued and then a reset: the FIFO is empty, TFE stays clear and BSY set |
| `SpiScenarios.FreshWordsOutliveReset` | components/spi_tlm/spi.cpp:312-317 | a run from power-up: words written since the last update phase are not seen by the drain loop and stay queued after the reset |
| `SpiScenarios.PopLeavesTransmitBitStale` | components/spi_tlm/spi.cpp:81-113 | a run from power-up in which the pop of the fifth word leaves RIS bit 3 clear in a settled state with four words queued |
| `SpiStatus.TransmittingFlag` | components/spi_tlm/spi.cpp:74-84 | is_transmitting is down when parked, and during a flight is up exactly if a frame has started since the last reset |
| `SpiStatus.BusyBit` | components/spi_tlm/spi.cpp:294-297 | in a settled state BSY is set exactly when words are queued, when SR still counts drained words, or when a frame started since the last reset is in flight |
| `SpiStatus.ResetMidFrame` | components/spi_tlm/spi.cpp:300-323 | a reset during a frame leaves it in flight; BSY then settles at 0 exactly if the TX FIFO was empty, and the reply lands in the emptied RX FIFO, or is dropped if it ends before the update phase of a reset that found eight RX places taken |
| `SpiTheorems.ResetValues` | components/spi_tlm/spi.cpp:300-323 | after a reset only words written since the last update phase are queued, the thread is where it was, SR reads 0x03 exactly if the TX FIFO was empty with no place just read, RIS reads 0x08, and CR0, CR1, CPSR, IMSC, MIS and DMACR read 0 |
| `SpiTheorems.ReadBack` | components/spi_tlm/spi.cpp:117-230 | each writable register reads back the bits the code keeps |
| `SpiTheorems.RegisterBits` | components/spi_tlm/spi.cpp:211-224 | SR, IMSC, RIS and MIS show each flag at its own bit |
| `SpiTheorems.TxQueueStep` | components/spi_tlm/spi.cpp:72-147 | the TX FIFO changes only by an accepted word at its tail, a sent word at its head, or a reset, which keeps the words just written |
| `SpiTheorems.RxQueueStep` | components/spi_tlm/spi.cpp:103-207 | the RX FIFO changes only by a stored frame at its tail, a read word at its head, or a reset; a frame is stored exactly when num_free is not 0 |
| `SpiRegisters.RegistersAreHistory` | components/spi_tlm/spi.cpp:117-230 | in every run CR0, CR1, CPSR, IMSC and DMACR read the kept bits of the word the bus last wrote to them, or 0 after a reset, and nothing else changes them |
| `SpiRegisters.WriteAnswer` | components/spi_tlm/spi.cpp:117-184 | which writes fail: read-only and unknown registers, and DR without room |
| `SpiRegisters.RefusalIsExact` | components/spi_tlm/spi.cpp:42-44 | accesses beyond 0xFFC or of more than two bytes are refused and do nothing |
| `SpiRegisters.ReadChangesNothing` | components/spi_tlm/spi.cpp:186-251 | a read of a register other than DR changes nothing |
| `SpiRegisters.IdentifiesAsPl022` | components/spi_tlm/spi.cpp:232-247 | the identification registers spell 0x00341022 and 0xB105F00D |
| `SpiController.Controller.constructor` | components/spi_tlm/spi.cpp:10-32 | elaboration gives the state in which every run starts |
| `SpiController.Controller.UpdateIntr` | components/spi_tlm/spi.cpp:253-271 | update_intr against the step machine |
| `SpiController.Controller.UpdateStatusReg` | components/spi_tlm/spi.cpp:273-298 | update_status_reg against the step machine; only SR changes |
| `SpiController.Controller.DrainFifos` | components/spi_tlm/spi.cpp:312-317 | the two drain loops remove exactly the available words of both FIFOs |
| `SpiController.Controller.HandleReset` | components/spi_tlm/spi.cpp:300-323 | handle_reset against the step machine |
| `SpiController.Controller.Transmit` | components/spi_tlm/spi.cpp:74-98 | the thread from the loop top to its next wait |
| `SpiController.Controller.EndFlight` | components/spi_tlm/spi.cpp:100-111 | the thread from the end of its timed wait to the zero-time wait |
| `SpiController.Controller.WriteData` | components/spi_tlm/spi.cpp:135-147 | write_reg on DR |
| `SpiController.Controller.WriteControl` | components/spi_tlm/spi.cpp:117-184 | write_reg on the other registers |
| `SpiController.Controller.WriteReg` | components/spi_tlm/spi.cpp:117-184 | write_reg with its return value |
| `SpiController.Controller.ReadData` | components/spi_tlm/spi.cpp:194-207 | read_reg on DR |
| `SpiController.Controller.ReadReg` | components/spi_tlm/spi.cpp:186-251 | read_reg |
| `SpiController.Controller.BusWrite` | components/spi_tlm/spi.cpp:34-55 | a bus write with its response; the offset keeps eight address bits |
| `SpiController.Controller.BusRead` | components/spi_tlm/spi.cpp:34-62 | a bus read with its response; the bytes of the value are copied as far as the buffer reaches |
| `ClintTheorems.TimerAgrees` | components/clint_tlm/src/clint_tlm.cpp:97-118 | in every settled state of every run MTIP is high exactly when mtimecmp is not 0 and mtime has reached it, for all 64-bit compare values |
| `ClintTheorems.InvAlways` | components/clint_tlm/src/clint_tlm.cpp:97-118 | the inductive invariant: in a settled state the level is final and nothing is armed, or the goal is armed and lies ahead |
| `ClintTheorems.RisesOnTime` | components/clint_tlm/src/clint_tlm.cpp:107-118 | MTIP rises only in a turn of timer_proc, never before mtimecmp * 10^6 time units, and exactly then once the compare value has been looked at |
| `ClintTheorems.FallsOnlyAfterWrite` | components/clint_tlm/src/clint_tlm.cpp:107-118 | MTIP falls only when a compare value is looked at for the first time after a write |
| `ClintTheorems.RescheduleBranch` | components/clint_tlm/src/clint_tlm.cpp:97-105 | the zero-time branch of reschedule needs a product that does not fit in 64 bits |
| `ClintTheorems.SettlesIff` | components/clint_tlm/src/clint_tlm.cpp:97-118 | one delta cycle settles the timer exactly when the compare value is 0, is due, or has its 64-bit goal ahead |
| `ClintTheorems.StuckGoalSpins` | components/clint_tlm/src/clint_tlm.cpp:97-118 | a goal that has wrapped into the past spins for ever: after any number of delta cycles time cannot advance |
| `ClintTheorems.ReachedGoal` | components/clint_tlm/src/clint_tlm.cpp:97-118 | in every run, when time reaches the armed goal the timer settles with MTIP high if the product fits in 64 bits, and otherwise spins for ever with MTIP low |
| `ClintTheorems.OneStoreSpins` | components/clint_tlm/src/clint_tlm.cpp:74-118 | one 8-byte store of 2^58 after power-up stops time for ever |
| `ClintTheorems.WakeBound` | components/clint_tlm/src/clint_tlm.cpp:74-118 | if no reached compare value wraps, each write of mtimecmp costs at most one turn of timer_proc by a delta notification and one by a timed notification, and there are no other turns |
| `ClintTheorems.SoftwareInterrupt` | components/clint_tlm/src/clint_tlm.cpp:65-73 | in every run the MSIP register and level are bit 0 of the word last written to it, and nothing else touches them |
| `ClintTheorems.SliceWriteBytes` | components/clint_tlm/src/clint_tlm.cpp:27-33 | a slice write gives each covered byte its new value and leaves the others |
| `ClintTheorems.RegisterReads` | components/clint_tlm/src/clint_tlm.cpp:74-88 | in every run, full-width bus reads return mtimecmp and the microseconds since the start, little-endian |
| `ClintTheorems.CompareIsHistory` | components/clint_tlm/src/clint_tlm.cpp:27-81 | in every run each byte of mtimecmp is the one the bus last wrote to its address |
| `ClintTheorems.CompareRead` | components/clint_tlm/src/clint_tlm.cpp:20-81 | a bus read of any part of mtimecmp returns those bytes |
| `ClintTheorems.TimeRead` | components/clint_tlm/src/clint_tlm.cpp:20-88 | a bus read of any part of mtime returns those bytes of the microseconds since the start |
| `ClintTheorems.SoftwareInterruptRead` | components/clint_tlm/src/clint_tlm.cpp:65-73 | a 4-byte read of MSIP returns the bit last written |
| `ClintTheorems.BusAnswer` | components/clint_tlm/src/clint_tlm.cpp:51-95 | which accesses answer which error, and that those change nothing |
| `ClintTheorems.EarliestWins` | components/clint_tlm/src/clint_tlm.cpp:97-105 | the event keeps the earliest of its notifications |
| `ClintTheorems.SliceReadBack` | components/clint_tlm/src/clint_tlm.cpp:20-33 | a slice that was written is read back unchanged, at any alignment |
| `ClintTheorems.HalvesMakeWhole` | components/clint_tlm/src/clint_tlm.cpp:27-33 | low and high half writes, in either order, are one 64-bit write |
| `ClintTheorems.UpdateIsGlitchFree` | components/clint_tlm/src/clint_tlm.cpp:74-118 | the stores lo = all ones, hi = new hi, lo = new lo, with any other steps and accesses in between, end in the new value and never show MTIP in a settled state while time is below both values |
| `ClintDevice.PatchSlice` | components/clint_tlm/src/clint_tlm.cpp:27-33 | slice_write in a local byte buffer |
| `ClintDevice.Device.RescheduleEvent` | components/clint_tlm/src/clint_tlm.cpp:97-105 | reschedule, with the one-pending-notification rule of the event |
| `ClintDevice.Device.TimerTurn` | components/clint_tlm/src/clint_tlm.cpp:107-118 | one turn of the timer_proc loop |
| `ClintDevice.Device.BTransport` | components/clint_tlm/src/clint_tlm.cpp:51-95 | b_transport with its error responses and buffer |
| `PlicTheorems.BestIsTop` | components/plic_tlm/src/plic_tlm.cpp:63-72 | a claim is 0 exactly when no source is eligible; otherwise it is eligible and outranks every other eligible source |
| `PlicTheorems.DrainSorts` | components/plic_tlm/src/plic_tlm.cpp:63-78 | successive claims return every eligible source exactly once, by priority descending then id ascending |
| `PlicTheorems.ClaimSequence` | components/plic_tlm/src/plic_tlm.cpp:46-78 | the k-th claim returns the k-th ranked source, then 0 for ever, and MEIP falls exactly at the last non-zero claim |
| `PlicTheorems.ClaimEffect` | components/plic_tlm/src/plic_tlm.cpp:63-78 | a claim removes exactly the source it returns from the eligible ones |
| `PlicTheorems.LevelAgrees` | components/plic_tlm/src/plic_tlm.cpp:46-78 | in every run, unless on_sources is still to run, MEIP is high exactly when a claim would return a source |
| `PlicTheorems.AccessRefreshesLevel` | components/plic_tlm/src/plic_tlm.cpp:99-139 | every write that recomputes the level makes it right at once |
| `PlicTheorems.GatewayIsHistory` | components/plic_tlm/src/plic_tlm.cpp:63-139 | in every run the claimed flag of an id is set exactly when the latest event for it, among claims returning it and completes of it, is a claim |
| `PlicTheorems.NoReclaim` | components/plic_tlm/src/plic_tlm.cpp:63-139 | a source is returned again only after it has been completed |
| `PlicTheorems.CompleteReasserts` | components/plic_tlm/src/plic_tlm.cpp:130-139 | completing a source whose line is high, enabled and above threshold leaves MEIP high |
| `PlicTheorems.PendingShowsLines` | components/plic_tlm/src/plic_tlm.cpp:107-115 | bit id of the pending word is the raw level of line id; bit 0 is 0 |
| `PlicTheorems.ReadBack` | components/plic_tlm/src/plic_tlm.cpp:99-129 | enable, threshold and each priority read back what was written, and no write disturbs another |
| `PlicTheorems.BusReadsLastWritten` | components/plic_tlm/src/plic_tlm.cpp:80-129 | in every run a bus read of enable, threshold or a priority returns the word the bus last wrote to it, or 0 |
| `PlicTheorems.SourceZeroReadsZero` | components/plic_tlm/src/plic_tlm.cpp:99-106 | the words of source 0 read 0 in every run, whatever was written |
| `PlicTheorems.BusReadsPending` | components/plic_tlm/src/plic_tlm.cpp:107-115 | in every run a bus read of the pending register shows the line levels last driven |
| `PlicTheorems.BusReadsClaim` | components/plic_tlm/src/plic_tlm.cpp:63-139 | a bus read of the claim register returns the top source, takes it out of the eligible ones and makes the level right |
| `PlicTheorems.EligibleIsHistory` | components/plic_tlm/src/plic_tlm.cpp:36-44 | in every run a source is eligible exactly if its line was last driven high, its enable bit and priority were last written so on the bus, and its latest claim is completed |
| `PlicTheorems.BusAnswer` | components/plic_tlm/src/plic_tlm.cpp:80-149 | which accesses answer an error, and that those change nothing |
| `PlicDevice.Device.RefreshMeip` | components/plic_tlm/src/plic_tlm.cpp:46-56 | update_meip, with its early exit |
| `PlicDevice.Device.DoClaim` | components/plic_tlm/src/plic_tlm.cpp:63-78 | do_claim, with its zero-initialised best priority |
| `PlicDevice.Device.PendingWord` | components/plic_tlm/src/plic_tlm.cpp:107-115 | the loop that assembles the pending word |
| `PlicDevice.Device.BTransport` | components/plic_tlm/src/plic_tlm.cpp:80-149 | b_transport with its error response |
| `WatchdogTheorems.InvAlways` | components/wdt_tlm/watchdog.cpp:213-279 | in every reachable state counter <= load, MIS = RIS and INTEN, the levels follow, and the pins follow the levels unless a notification is pending |
| `WatchdogTheorems.NoEarlyReset` | components/wdt_tlm/watchdog.cpp:142-253 | with WdogLoad left alone, reset is not asserted before (counter + 1) + (load + 1 if RIS is 0) counted ticks, whatever the accesses |
| `WatchdogTheorems.NoEarlyInterrupt` | components/wdt_tlm/watchdog.cpp:142-253 | with WdogLoad left alone, the interrupt is not raised before counter + 1 counted ticks |
| `WatchdogTheorems.ServiceBound` | components/wdt_tlm/watchdog.cpp:185-189 | after an effective WdogIntClr, no reset before 2 (load + 1) counted ticks and no interrupt before load + 1 |
| `WatchdogTheorems.ExactTimeline` | components/wdt_tlm/watchdog.cpp:213-253 | undisturbed with INTEN and RESEN, the interrupt rises at tick counter + 1 and reset load + 1 ticks later, and then nothing moves |
| `WatchdogTheorems.EnableTimeline` | components/wdt_tlm/watchdog.cpp:169-253 | after the write that sets INTEN and RESEN, the interrupt rises at tick load + 1 if INTEN was clear and at tick counter + 1 if it was set, and reset load + 1 ticks later |
| `WatchdogTheorems.WithoutResetEnable` | components/wdt_tlm/watchdog.cpp:230-245 | with RESEN clear the counter has period load + 1 for ever and reset is never asserted |
| `WatchdogTheorems.ResetIsPermanent` | components/wdt_tlm/watchdog.cpp:213-239 | once asserted, reset stays and ticks no longer move the counter |
| `WatchdogTheorems.LockErasure` | components/wdt_tlm/watchdog.cpp:102-159 | a locked run without the unlock write ends, registers and pins alike, where the run with only its ticks ends |
| `WatchdogTheorems.ReadBack` | components/wdt_tlm/watchdog.cpp:102-175 | an unlocked write is read back; a load write also restarts the counter |
| `WatchdogTheorems.RegistersAreHistory` | components/wdt_tlm/watchdog.cpp:102-189 | in every run load and control read what was last written with effect, and the lock is open exactly by its key |
| `WatchdogTheorems.StatusIsHistory` | components/wdt_tlm/watchdog.cpp:102-279 | in every run WdogRIS is "a timeout since the last effective clear", WdogMIS is that with INTEN, and reset is asserted exactly after a timeout with RESEN while an earlier one was not cleared |
| `WatchdogTheorems.CounterStep` | components/wdt_tlm/watchdog.cpp:161-253 | what moves the counter: load, clear, setting INTEN, a tick with INTEN set and reset not asserted, and nothing else |
| `WatchdogTheorems.IdleStandsStill` | components/wdt_tlm/watchdog.cpp:213-228 | in every run with INTEN clear, however many ticks pass, counter, status and reset stay |
| `WatchdogTheorems.PowerUpStandsStill` | components/wdt_tlm/watchdog.cpp:213-228 | at power-up the watchdog is off and unlocked with the largest load, and ticks change nothing |
| `WatchdogTheorems.ReadOnlyNotifies` | components/wdt_tlm/watchdog.cpp:102-104 | a read changes nothing but that the pins are driven again |
| `WatchdogTheorems.DriveIsFinal` | components/wdt_tlm/watchdog.cpp:255-259 | once driven, the pins show the masked status and reset |
| `WatchdogTheorems.IdentifiesAsSp805` | components/wdt_tlm/watchdog.cpp:121-136 | the identification registers spell 0x00141805 and 0xB105F00D |
| `WatchdogDevice.Device.RefreshOutputs` | components/wdt_tlm/watchdog.cpp:273-279 | update_outputs |
| `WatchdogDevice.Device.Timeout` | components/wdt_tlm/watchdog.cpp:230-253 | handle_timeout |
| `WatchdogDevice.Device.TickOnce` | components/wdt_tlm/watchdog.cpp:213-228 | one period of counter_thread |
| `WatchdogDevice.Device.WriteRegister` | components/wdt_tlm/watchdog.cpp:142-211 | write_reg |
| `WatchdogDevice.Device.ReadRegister` | components/wdt_tlm/watchdog.cpp:102-140 | read_reg |
| `WatchdogDevice.Device.DrivePins` | components/wdt_tlm/watchdog.cpp:255-259 | drive_outputs |
| `RouterTheorems.ContainsExactly` | components/common/include/common.h:14-17 | contains is the half-open interval for every address exactly when the region is empty or its end does not wrap; a region that ends at 2^64 contains no address |
| `RouterTheorems.DecodeIsTheRegion` | components/bus_router/src/bus_router.cpp:57-65 | the search finds the region that the unordered memory map names, or none |
| `RouterTheorems.AccessRefines` | components/bus_router/src/bus_router.cpp:67-94 | a blocking or debug access through the router is the access on one flat byte store: same bytes, response, buffer and count, payload address restored |
| `RouterTheorems.RunRefines` | components/bus_router/src/bus_router.cpp:57-94 | any sequence of accesses ends in the same bytes and gives the same replies as on the flat store |
| `RouterTheorems.MemoryReadBack` | components/memory_tlm/src/memory_tlm.cpp:23-64 | bytes written by an accepted access are what a later read of them returns, the rest of the buffer untouched, and load has the effect of such a write |
| `RouterTheorems.OrderIndependent` | components/bus_router/src/bus_router.cpp:47-94 | systems with the same map and bytes cannot be told apart by any sequence of accesses |
| `RouterTheorems.ReorderedSame` | components/bus_router/src/bus_router.cpp:47-65 | registering the same regions in another order gives the same map and bytes |
| `RouterTheorems.RomNeverChanges` | components/memory_tlm/src/memory_tlm.cpp:49-86 | bytes of a read-only memory survive every sequence of accesses |
| `RouterTheorems.StraddleChangesNothing` | components/memory_tlm/src/memory_tlm.cpp:40-43 | a blocking access that is unmapped or runs past its region changes nothing but the response |
| `MemoryDevice.Device.CopyIn` | components/memory_tlm/src/memory_tlm.cpp:23-30 | the in-place copy, byte by byte |
| `MemoryDevice.Device.LoadImage` | components/memory_tlm/src/memory_tlm.cpp:23-30 | load, with its bounds check |
| `MemoryDevice.Device.BTransport` | components/memory_tlm/src/memory_tlm.cpp:32-64 | b_transport |
| `MemoryDevice.Device.TransportDbg` | components/memory_tlm/src/memory_tlm.cpp:66-90 | transport_dbg with its byte count |
| `RouterDevice.Device.AddTarget` | components/bus_router/src/bus_router.cpp:47-55 | add_target maps the next socket and refuses once all are used |
| `RouterDevice.Device.DecodeAddress` | components/bus_router/src/bus_router.cpp:57-65 | decode, first match or -1 |
| `RouterDevice.Device.BTransport` | components/bus_router/src/bus_router.cpp:67-79 | b_transport over memories updated in place |
| `RouterDevice.Device.TransportDbg` | components/bus_router/src/bus_router.cpp:81-94 | transport_dbg over memories updated in place |
| `ElfTheorems.LoadElfImage` | cpu_models/include/cdc/cpu/elf_loader.h:77-128 | if the load of any file returns, the result is the header entry and memory is the old memory overlaid in header order by the non-empty PT_LOAD slices, each cut to 32 bits of length and inside one writable region |
| `ElfTheorems.NothingCutIff` | cpu_models/include/cdc/cpu/elf_loader.h:46-47 | the slices are written whole exactly when each is shorter than 2^32 bytes |
| `ElfTheorems.ShortSegments` | cpu_models/include/cdc/cpu/elf_loader.h:113-124 | which holds for every 32-bit file and every file shorter than 2^32 bytes |
| `ElfTheorems.LoadElfWhole` | cpu_models/include/cdc/cpu/elf_loader.h:77-128 | without longer slices the image is that of the slices themselves |
| `ElfTheorems.LoadElfPart` | cpu_models/include/cdc/cpu/elf_loader.h:77-128 | whatever the file and the outcome, memory differs from the old one only by slices of headers before the first unreadable one, in order, the last possibly cut short |
| `ElfTheorems.ImageByte` | cpu_models/include/cdc/cpu/elf_loader.h:100-126 | each byte of the image comes from the last segment that covers it, and every other byte is unchanged |
| `ElfTheorems.DbgWriteIsOverlay` | cpu_models/include/cdc/cpu/elf_loader.h:46-62 | a backdoor write of any length that succeeds overlays the block cut to 32 bits of length, inside one writable region |
| `ElfTheorems.DbgWriteIff` | cpu_models/include/cdc/cpu/elf_loader.h:46-62 | a backdoor write succeeds exactly when its block, cut so, is empty or fits in one writable region |
| `ElfTheorems.LoadElfIff` | cpu_models/include/cdc/cpu/elf_loader.h:77-128 | the load of any file returns exactly when its header parses, every program header and its slice lie in the file, and every slice as written is empty or fits in one writable region |
| `ElfTheorems.ReadPastEndIff` | cpu_models/include/cdc/cpu/elf_loader.h:100-117 | a program header is read past the end exactly when the bytes the loader needs of it do not lie in the file |
| `ElfTheorems.TruncatedTableFails` | cpu_models/include/cdc/cpu/elf_loader.h:100-128 | a file with such a header never loads |
| `ElfTheorems.SliceRefused` | cpu_models/include/cdc/cpu/elf_loader.h:119-123 | which error a slice past the end of the file gives |
| `ElfTheorems.TableWraps` | cpu_models/include/cdc/cpu/elf_loader.h:100-102 | a header offset beyond 64 bits is looked for from the start of the file |
| `ElfLayout.ParsesIff` | cpu_models/include/cdc/cpu/elf_loader.h:77-84 | a file is accepted exactly if it has 64 bytes, the magic number and little-endian data; every class but 2 is taken for 32 bits |
| `ElfLayout.AcceptsEncodedIff` | cpu_models/include/cdc/cpu/elf_loader.h:77-98 | of the files of either class with 64 bytes, exactly those that begin with an encoded header are accepted |
| `ElfLayout.EveryFileIsDescribed` | cpu_models/include/cdc/cpu/elf_loader.h:77-117 | every accepted file of either class whose table lies in it holds headers of the format |
| `ElfLayout.HeaderDecodes` | cpu_models/include/cdc/cpu/elf_loader.h:77-98 | a file that starts with an ELF header encoded field by field as the System V gABI says is decoded to those fields, if it has 64 bytes, and refused otherwise |
| `ElfLayout.PhdrDecodes` | cpu_models/include/cdc/cpu/elf_loader.h:100-122 | a program header encoded as the gABI says is read back: skipped, refused, or copied with its own offset, size and address, where the 64-bit branch reads the virtual address |
| `ElfLayout.LoadsWhatTheHeadersSay` | cpu_models/include/cdc/cpu/elf_loader.h:67-129 | a file with given headers loads exactly when its loadable segments lie in the file and, as written, in writable regions; memory is then overlaid by them in header order and the result is the entry point |
| `ElfLayout.WholeIff` | cpu_models/include/cdc/cpu/elf_loader.h:46-124 | the segments are laid down whole exactly when every loadable header asks for fewer than 2^32 bytes |
| `ElfLayout.LongSegmentIsLost` | cpu_models/include/cdc/cpu/elf_loader.h:46-124 | there is a file with a segment of 2^32 bytes whose load returns and changes nothing |
| `ElfLayout.PhysicalIff` | cpu_models/include/cdc/cpu/elf_loader.h:108-117 | the segments loaded are those at the physical addresses exactly for 32-bit files and for 64-bit files whose loadable headers have equal virtual and physical addresses |
| `ElfLayout.VirtualAddressIsUsed` | cpu_models/include/cdc/cpu/elf_loader.h:108-111 | there is a 64-bit file whose segment is not loaded at its physical address |
| `ElfLoader.WriteBlock` | cpu_models/include/cdc/cpu/elf_loader.h:46-62 | dbg_write through the router object |
| `ElfLoader.LoadHeader` | cpu_models/include/cdc/cpu/elf_loader.h:100-126 | one turn of the program-header loop |
| `ElfLoader.Load` | cpu_models/include/cdc/cpu/elf_loader.h:67-129 | load_elf from the bytes of the file |
| `PwmTheorems.DutyIsExact` | components/pwm_tlm/pwm.cpp:110-146 | over any `period` consecutive ticks from any counter value the output is high exactly min(duty, period) times, or the rest when inverted, for phases up to the period, from twice the period on, or with a period that divides 2^32 |
| `PwmTheorems.DutyExactIff` | components/pwm_tlm/pwm.cpp:110-146 | every duty is kept exactly under that condition on period and phase |
| `PwmTheorems.SpoiltExample` | components/pwm_tlm/pwm.cpp:125-139 | period 3, phase 4, duty 2: high for three ticks of three |
| `PwmTheorems.PhaseRotates` | components/pwm_tlm/pwm.cpp:125-139 | under that condition a phase only rotates the phase-0 waveform |
| `PwmTheorems.PhaseDelays` | components/pwm_tlm/pwm.cpp:125-139 | a phase of at most the period, or any phase if the period divides 2^32, delays the phase-0 waveform by that many ticks |
| `PwmTheorems.WaveformRepeats` | components/pwm_tlm/pwm.cpp:122-146 | for every phase the waveform repeats with the period, or with 2^16 ticks if the period does not fit in the counter |
| `PwmTheorems.CounterAfter` | components/pwm_tlm/pwm.cpp:122-123 | the counter counts modulo the period, or modulo 2^16 when the period does not fit |
| `PwmTheorems.ShiftExactIff` | components/pwm_tlm/pwm.cpp:129-133 | the 32-bit phase subtraction gives the mathematical position at every counter value exactly when the phase is at most the period or the period divides 2^32 |
| `PwmTheorems.OffStandsStill` | components/pwm_tlm/pwm.cpp:116-120 | without bit 31 of the configuration a tick changes nothing, whatever the period |
| `PwmTheorems.OnMoves` | components/pwm_tlm/pwm.cpp:116-123 | with it every tick moves the counter |
| `PwmTheorems.KnownRegisters` | components/pwm_tlm/pwm.cpp:35-102 | the six known addresses; every other is an error |
| `PwmTheorems.PowerUpStandsStill` | components/pwm_tlm/pwm.cpp:110-120 | at power-up the engine is off with a period of 256 |
| `PwmTheorems.ReadBack` | components/pwm_tlm/pwm.cpp:35-102 | each register reads back what was written and no write disturbs another |
| `PwmDevice.Device.TickOnce` | components/pwm_tlm/pwm.cpp:110-146 | one period of pwm_thread |
| `PwmDevice.Device.WriteRegister` | components/pwm_tlm/pwm.cpp:35-68 | the write half of b_transport |
| `TimerTheorems.PinIsHistory` | components/timer_tlm/timer.cpp:70-108 | in every history timerint is high exactly if an expiry with INTR_EN set came after the last served clear and the last reset |
| `TimerTheorems.PinAlwaysExplained` | components/timer_tlm/timer.cpp:54-99 | in every reachable state a high timerint means the status is set or a clear is pending |
| `TimerTheorems.PinRises` | components/timer_tlm/timer.cpp:93-97 | timerint rises only at an expiry with INTR_EN set |
| `TimerTheorems.ClearTakesEffectIff` | components/timer_tlm/timer.cpp:54-89 | after a clear and the next turn the pin is low exactly if it was low before, the thread was at the counting wait, or it was about to enter reset |
| `TimerTheorems.UnservedClearExample` | components/timer_tlm/timer.cpp:54-97 | a history from power-up: an expired and then disabled timer keeps its pin high after the clear, with the status low |
| `TimerTheorems.ClearIsServed` | components/timer_tlm/timer.cpp:54-89 | a clear written while the thread waits for a tick lowers the pin at its next turn, and that turn does not count |
| `TimerTheorems.PendingClearIsServed` | components/timer_tlm/timer.cpp:82-89 | a turn serves a pending clear exactly if the thread was woken at the counting wait, whatever woke it, and that turn does not count |
| `TimerTheorems.ClearWhileDisabled` | components/timer_tlm/timer.cpp:54-89 | a clear written while disabled leaves the pin as it is, also after re-enabling, until something wakes the thread, and that turn does not count |
| `TimerTheorems.ResetClears` | components/timer_tlm/timer.cpp:70-108 | in every reachable wait for the end of reset the pin and the status are low, and the registers are clear unless the bus has written since |
| `TimerTheorems.PendingClearOutlivesReset` | components/timer_tlm/timer.cpp:54-108 | a clear flag pending before a whole reset pulse is pending after it exactly if the thread was not at the counting wait; a thread at a wait ends disabled with the pin low |
| `TimerTheorems.PulseExample` | components/timer_tlm/timer.cpp:54-108 | histories from power-up for both cases |
| `TimerTheorems.RegistersAreHistory` | components/timer_tlm/timer.cpp:20-108 | in every history CTRL and RELOAD are what was last written to them, or 0 after a reset, each control bit at its place |
| `TimerTheorems.StatusIsHistory` | components/timer_tlm/timer.cpp:20-108 | in every history INTSTATUS reads 1 exactly if an expiry came after the last clear and the last reset |
| `TimerTheorems.ValueStep` | components/timer_tlm/timer.cpp:20-108 | what changes VALUE: a write of it or of RELOAD, a counted turn, a reset, and nothing else |
| `TimerTheorems.WakesExactly` | components/timer_tlm/timer.cpp:41-81 | what wakes the thread, which then stays woken until it runs |
| `TimerTheorems.ThreadWaits` | components/timer_tlm/timer.cpp:70-81 | where the thread waits after a turn |
| `TimerTheorems.WrittenValue` | components/timer_tlm/timer.cpp:45-97 | a value written to a timer out of reset is still there after the turn it causes exactly if the thread was not counting, the turn does not count, or value and reload are both 0 |
| `TimerTheorems.WrittenReload` | components/timer_tlm/timer.cpp:49-97 | a reload written stays; the value it loads survives the turn exactly if the thread was not counting, the turn does not count, or it is 0 |
| `TimerTheorems.WrittenControl` | components/timer_tlm/timer.cpp:41-97 | a control write reads back, and costs a count exactly under the same conditions taken with the new control bits |
| `TimerTheorems.WriteExample` | components/timer_tlm/timer.cpp:45-97 | power up, enable, write 5: the register holds 4 |
| `TimerTheorems.Countdown` | components/timer_tlm/timer.cpp:91-97 | counted wakes, expiries and the present value determine each other |
| `TimerTheorems.KthExpiry` | components/timer_tlm/timer.cpp:91-97 | the k-th expiry falls on counted wake value + 1 + (k - 1)(reload + 1), neither earlier nor later; wakes gated by EX_EN do not count |
| `TimerTheorems.KthExpirySets` | components/timer_tlm/timer.cpp:91-97 | the wake of an expiry finds 0, reloads, sets intr_status, and sets the pin if INTR_EN is set |
| `TimerTheorems.ExpiryIsVisible` | components/timer_tlm/timer.cpp:91-97 | undisturbed, intr_status, and with INTR_EN the pin, is set exactly from counted wake value + 1 on, if it was not before |
| `TimerTheorems.ReadBack` | components/timer_tlm/timer.cpp:20-53 | before the woken thread runs, CTRL, VALUE and RELOAD read back, and RELOAD has also loaded VALUE |
| `TimerDevice.Device.WriteRegister` | components/timer_tlm/timer.cpp:39-64 | the write half of b_transport, with its immediate notifications |
| `TimerDevice.Device.Turn` | components/timer_tlm/timer.cpp:70-108 | one turn of timer_thread, including reset |

## Left out

- The CPU wrappers, firmware, platform tops, testbenches and build files.
- `uart_tlm`, `i2c_tlm`, `dma_tlm` and the interrupt aggregator are not part of this model.
- Logging, tracing, annotated delays and access latencies.
- DMI: the router does not forward it, and raw pointers are not modelled.
- Opening the file in `load_elf`: the model starts from its bytes.
- SPI shift times: a flight ends at any moment, so clock settings do not matter here.
- Length, byte-enable and streaming-width errors of the timer and watchdog `b_transport`, each a single early return.
- ClintDevice.Device.BTransport: requires address plus length below 2^64, because a wrapped sum would index outside the register.
- PlicDevice.Device.BTransport: requires at most 31 sources, because the code shifts a 32-bit word by the source id.
- PwmDevice.Device.TickOnce: requires a non-zero period while the counter is enabled, because the code divides by it.
- PwmTheorems.DutyIsExact: is stated for periods up to 2^16, the largest the counter can run through.
- ElfLayout.PhdrDecodes: i times phentsize is exact in the model; the code multiplies in 32-bit signed integers, which is undefined from 2^31 on.
- ElfTheorems.LoadElfImage: a segment whose offset plus size wraps in 64 bits is an error in the model, because the copy would leave the file buffer.
- RouterDevice.Device.BTransport: the payload and its buffer are values passed in and out, so a buffer that aliases a memory's own bytes is not modelled.
