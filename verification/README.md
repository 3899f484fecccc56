# A Dafny model of m33mu's architectural state

m33mu is an emulator for Armv8-M (Cortex-M33) microcontrollers with TrustZone. This project models
the parts of it that keep state over time and proves, for all inputs and for whole runs, what those
parts promise to the firmware they emulate. `dafny verify dfyconfig.toml` checks everything.

| module (file) | what it models |
|---|---|
| `Words`, `Bits32` | 8-, 32- and 64-bit integers, little-endian bytes, quotient and remainder laws; bitwise identities |
| `Memmap` (Memmap.dfy) | RAM regions seen through Secure and Non-secure windows of one buffer |
| `Processor` (Cpu.dfy) | processor state, banked stack pointers, EXC_RETURN values |
| `Exceptions`, `EntryExit`, `ExceptionRuns` | exception entry and return, also written out field by field; every run of entries, code and returns |
| `DeepNesting` | a concrete STM32H563 machine for those runs, and the run that fills its record table |
| `Core` (Core.dfy) | the same operations on a mutable processor, with their stacking loops |
| `MultiTransfer`, `HandlerRuns` | PUSH, POP, STM, LDM; handlers built from them |
| `Protection` | what the access interceptor refuses stays unread and unwritten |
| `ItPacking`, `ItBlocks`, `InterruptedBlocks` | IT state packed in xPSR and cached in three variables; exceptions inside IT blocks |
| `Comparisons` | what the conditions mean after a comparison |
| `SysTick`, `StmTimer`, `NrfTimer`, `Watchdog` | virtual time: closed-form jumps against single ticks |
| `Nvic`, `Scs` | interrupt arbitration and the banked System Control Space |
| `Flash` | key unlock, programming and erasing of the STM32H563 flash |
| `Scheduler`, `FlashPersist`, `GdbPackets` | event list, image ranges, GDB packet framing |

Conventions. Each operation that changes state is a method of a class (or works on an array) and is proved
equal to a function on values; the properties are lemmas about those functions. Beside the properties of
whole runs, each operation has lemmas that write its effect out in registers, offsets and bits. C integers are
`u8`/`u32`/`u64` with explicit wrap-around, or bit vectors where the source is about bits. Flash
and device accesses end in an outcome value instead of a callback. The architectural `ITAdvance()`
is that of the Armv8-M Architecture Reference Manual, DDI0553.

Where the code does not meet a property on all inputs, the code is modelled as it is, an example (named
second) shows the failure, and an equivalence (named first) says exactly when the property holds:

- a word access at the top of the address space resolves to an offset outside the RAM buffer
  (`Memmap.ResolvedInBoundsIff`, `Memmap.LastWordStrays`), and RAM at address 0 answers for RAM at the very top
  (`Memmap.AliasResolvesIff`, `Memmap.BottomCapturesTop`);
- beyond 64 nested exceptions nothing is recorded and the next return takes an older frame
  (`ExceptionRuns.ImmediateReturnIff`, `ExceptionRuns.ImmediateReturnSpIff`; `DeepNesting.FullTableExample`);
- the IT advance keeps bit 5 while shifting bit 4 into it, so the condition in xPSR can go wrong
  (`ItBlocks.DecisionsAgreeIff`, `ItBlocks.ResyncTransparentIff`; `ItBlocks.CorruptionExample`);
- a return into an IT block advances it once too often (`ItBlocks.ReturnTransparentIff`, `ItBlocks.ReturnExample`),
  except for SVC, whose handler in turn starts inside the caller's block (`ItBlocks.SupervisorReturnIff`,
  `InterruptedBlocks.SupervisorHandlerIff`; `ItBlocks.SupervisorExample`);
- a one-pulse timer runs past its stop when the stop falls inside a batch (`StmTimer.SplitIff`,
  `StmTimer.OnePulseExample`);
- an nRF timer jump of a full range or more loses compare events (`NrfTimer.LongJumpIff`, `NrfTimer.LongJumpExample`);
- an exhausted window watchdog stops accumulating cycles (`Watchdog.WwdgSplitIff`, `Watchdog.WwdgSplitExample`);
- ICSR and AIRCR bank by window, not by initiator (`Scs.SecureBankKeptIff`, `Scs.SecureAircrExample`);
- interrupt priorities are not protected (`Scs.PriorityKeptIff` and, over runs, `Scs.PriorityAfterRun`;
  `Scs.PriorityExample`);
- after one keyed AIRCR store, byte and halfword stores to its low half need no key (`Scs.NarrowAircrIff`,
  `Scs.NarrowAircrExample`);
- narrow CFSR stores clear unaddressed flags (`Scs.NarrowCfsrIff`, `Scs.NarrowCfsrExample`) and narrow SysTick LOAD
  stores zero the other bytes (`Scs.NarrowLoadIff`, `Scs.NarrowLoadExample`);
- SAU writes do not always read back (`Scs.SauReadsBackIff`, `Scs.SauExample`), and ICSR goes on showing PendSV
  after it was taken (`Scs.IcsrBits`, `Scs.IcsrExample`);
- the flash lock does not stop an erase (`Flash.LockedEraseIff`, `Flash.LockedMassErase`), a repeated KEY1 spoils the
  key sequence and an unaligned register store over LOCK needs no key (`Flash.KeysExplainRuns`;
  `Flash.RepeatedKeyStaysLocked`, `Flash.OverrunUnlocks`), and a store across a sector boundary escapes the
  write-once check (`Flash.StoreWritesOnceIff`, `Flash.CrossingStoreRewrites`);
- an image placed beyond the flash breaks the chain of ranges and gets a wrapped length
  (`FlashPersist.RangesContiguousIff`, `FlashPersist.LengthWrapsIff`; `FlashPersist.LengthWrapsExample`);
- a GDB packet with a bad checksum digit can be accepted (`GdbPackets.AcceptedSpellsIff`,
  `GdbPackets.BadDigitsExample`).

## Model

| member | source | states |
|---|---|---|
| Memmap.Map.ConfigureRam | src/memmap.c:182-217 | the region loop lays out at most eight regions at running 32-bit totals |
| Memmap.LaidOutConfigured | src/memmap.c:182-217 | for a well-formed table no total wraps: offsets are the prefix sums of the sizes |
| Memmap.SlicesDisjoint | src/memmap.c:199-203 | the buffer slices of two regions are disjoint and in bounds |
| Memmap.Map.RamOffsetForAddr | src/memmap.c:67-105 | the scan is the first-match search, Secure window first, then the low-address fallback |
| Memmap.AliasesAgree | src/memmap.c:67-105 | both windows of a region resolve to the same offset inside its slice, unless RAM lies at both ends of the address space |
| Memmap.AliasResolvesIff | src/memmap.c:67-105 | without that exception: a window access resolves to its place exactly when it does not end at the top or no window at address 0 is tried first |
| Memmap.BottomCapturesTop | src/memmap.c:80-92 | a region at address 0 answers for the last word of one at the top |
| Memmap.PlainWindowsAgree | src/memmap.c:87-99 | without a region table both windows show the same bytes |
| Memmap.OtherTables | src/memmap.c:182-217 | an empty table leaves one window, a long one is cut at eight regions |
| Memmap.LowAddresses | src/memmap.c:100-103 | outside every window low addresses are offsets into RAM, and no others |
| Memmap.ResolvedInBoundsIff | src/memmap.c:67-105 | a resolved access is inside the buffer exactly when a window holds it or its end does not wrap |
| Memmap.H563TableOk | cpu/stm32h563/cpu_config.h:39-43 | the STM32H563 table is well formed and totals 640 KB |
| Memmap.LastWordStrays | src/memmap.c:100-103 | on that table address 0xFFFFFFFC resolves outside the buffer |
| Memmap.Map.Load | src/memmap.c:219-266 | a load is denied, goes to flash, RAM or devices as the map says; RAM values are little-endian |
| Memmap.Map.Store | src/memmap.c:287-360 | a store reaches the same target and writes exactly its bytes |
| Memmap.StoreThenLoad | src/memmap.c:219-360 | a store is read back truncated through either window by either security state; no other byte changes |
| Protection.DeniedStore | src/memmap.c:287-300 | a refused store changes nothing |
| Protection.DeniedLoad | src/memmap.c:219-232 | a refused load delivers nothing |
| Protection.StoreTouches | src/memmap.c:287-360 | a store changes a byte only if it was allowed and resolves to it |
| Protection.FlashAnswersIff | src/memmap.c:233-256 | when an access goes to flash, and that RAM then stays |
| Protection.FlashAliasesAgree | src/memmap.c:233-256 | both flash windows show the same offsets |
| Protection.FlashStandsIn | src/memmap.c:235-247 | the flash itself stands in for a window without a size |
| Protection.EntryProtected | src/main.c:1271-1277 | exception entry changes only bytes its security state may write, and a refused one leaves the processor alone |
| Protection.EntryNeedsPermission | src/main.c:1271-1277 | without permission for the first word nothing happens |
| Protection.ReturnNeedsPermission | src/main.c:745-749 | a return through a refused frame fails and gives up one record |
| Protection.PushProtected | src/execute.c:1988-2024 | PUSH changes only writable bytes |
| Protection.StoreMultipleProtected | src/execute.c:1915-1946 | so does STM |
| Protection.LoadLoopNeedsPermission | src/execute.c:1915-1946 | loads need permission for each listed register |
| Words.LeRoundTrip | src/memmap.c:31-65 | decoding the low bytes of a value gives it back modulo 256 to the size |
| Processor.DecodeEncode | src/main.c:647-670 | EXC_RETURN decode inverts encode; PSP is forgotten for Handler returns |
| Processor.EncodeDecodeIff | src/exc_return.c:33-56 | re-encoding a decoded value returns it exactly for the six emitted values |
| Core.Core.PushFrame | src/main.c:1271-1277 | the stacking loop stores the words from last to first, stopping at a refused store |
| Core.Core.EnterException | src/main.c:1181-1298 | stacked frame, stack pointer, record, LR, xPSR, mode, security and PC after entry, or the untouched processor after a refused store |
| Core.Core.RaiseHardFault | src/main.c:841-933 | HardFault entry is entry with number 3 in the current security state |
| Core.Core.RaiseUsageFault | src/main.c:1034-1168 | UsageFault entry is entry with number 6; nothing happens when stopping at faults |
| Core.Core.ReadFrame | src/main.c:745-749 | the unstacking loop reads eight words in order or fails |
| Core.Core.ExcReturnUnstack | src/main.c:672-819 | record choice, registers, xPSR, stack pointer, mode and security after return |
| EntryExit.HandlerRegisters | src/main.c:1289-1297 | registers, xPSR (five flags, Thumb and number; empty ITSTATE), LR value, mode, security and sleep state in the handler |
| EntryExit.EntryStackPointers | src/main.c:1278-1288 | exactly one of four stack pointers goes down by 32 and is recorded while there is room |
| EntryExit.EntryFrame | src/main.c:1234-1277 | the eight stacked words at their addresses; no other byte changes |
| EntryExit.FaultNumbers | src/main.c:841-1168 | HardFault is 3, UsageFault is 6, in the current security state |
| EntryExit.ReturnRegisters | src/main.c:745-819 | which word of the frame becomes which register, from the bits of the EXC_RETURN value |
| EntryExit.ReturnStackPointers | src/main.c:791-806 | exactly the selected stack pointer ends above the frame |
| EntryExit.NotReturn | src/main.c:686-692 | other values change nothing |
| InterruptedBlocks.HandlePcWrite | src/main.c:822-839 | EXC_RETURN values unstack and rebuild the IT cache from the restored xPSR, other values branch with bit 0 set |
| Exceptions.PushIntoArea | src/main.c:1271-1282 | pushing into a mapped stack with room succeeds, stores the words in order and nothing else |
| Exceptions.MappedInRegion | src/memmap.c:67-105 | a stack inside one region window is mapped, at the same offsets through either alias |
| ExceptionRuns.EnterEffect | src/main.c:1181-1298 | entry succeeds, records the frame 32 bytes below SP, and the frame holds the interrupted context |
| ExceptionRuns.EntryXpsrThumb | src/main.c:1290 | the handler's xPSR is the five flags, Thumb and the exception number, and nothing else |
| ExceptionRuns.TakeKeeps | src/main.c:1181-1298 | entry keeps the run invariant and gives the handler its EXC_RETURN value |
| ExceptionRuns.CodeKeeps | src/main.c:672-819 | any code that leaves live frame bytes and lower stack pointers alone keeps the invariant |
| ExceptionRuns.LeaveKeeps | src/main.c:672-819 | return keeps the invariant and resumes the innermost interrupted context |
| ExceptionRuns.RunKeeps | src/main.c:672-1298 | every state of every run of entries, code and returns satisfies the invariant |
| ExceptionRuns.FramesDisjoint | src/main.c:1271-1288 | recorded frames occupy pairwise disjoint 32-byte ranges of RAM, whatever alias they were pushed through |
| ExceptionRuns.NestedRoundTrip | src/main.c:647-1298 | entry, any nested run, return: r0-r3, r12, LR, PC, xPSR, stack pointer, mode and security are back; r4-r11 untouched by the return |
| ExceptionRuns.XpsrRestoredIff | src/main.c:783-789 | stacking and unstacking keeps xPSR exactly when Thumb is set and a Thread return has no exception number |
| ExceptionRuns.ImmediateReturnIff | src/main.c:1283-1288 | entry then return restores the whole context and the depth exactly when a slot was free |
| ExceptionRuns.ImmediateReturnSpIff | src/main.c:1283-1288 | it restores SP exactly when a slot was free or the innermost record is of the other security state |
| DeepNesting.StartInv | cpu/stm32h563/cpu_config.h:28-43 | the run invariant holds of a reset STM32H563 with four stacks in one aliased region |
| DeepNesting.NestedInv | src/main.c:1181-1298 | nested entries reach every depth up to 64, with the invariant |
| DeepNesting.FullTableExample | src/main.c:1283-1288 | at depth 64 the next entry and return do not restore SP |
| MultiTransfer.ExecPush | src/execute.c:1988-2024 | PUSH stores listed low registers and LR below SP and moves SP, or stops at a refused store or the limit |
| MultiTransfer.ExecPop | src/execute.c:2025-2061 | POP loads listed low registers and PC and moves SP; an EXC_RETURN value leaves |
| MultiTransfer.ExecStoreMultiple | src/execute.c:1870-1964 | STM in both directions, with write-back and its stack-limit check |
| MultiTransfer.ExecLoadMultiple | src/execute.c:1870-1964 | LDM in both directions; no write-back with the base in the list |
| MultiTransfer.StoreBelowArea | src/execute.c:1915-1946 | the store loop fills the block in register order and touches nothing else |
| MultiTransfer.LoadBelowArea | src/execute.c:1915-1946 | the load loop gives back exactly the listed registers |
| MultiTransfer.PopUndoesPush | src/execute.c:1988-2061 | POP after PUSH restores listed registers and SP, leaves the rest; PC is the pushed LR with bit 0 set, or the EXC_RETURN value leaves |
| MultiTransfer.LoadUndoesStore | src/execute.c:1870-1964 | a load in the opposite direction after a store with write-back gives back the listed registers and the base |
| MultiTransfer.LoadMultipleEffect | src/execute.c:1870-1964 | LDM: each listed register's word, PC with bit 0 set or an EXC_RETURN value that leaves, and the base |
| MultiTransfer.StoreMultipleEffect | src/execute.c:1870-1964 | STM: each listed register's word in the block, PC with bit 0 set, and the base |
| MultiTransfer.PushLimit | src/execute.c:1988-2024 | PUSH below a stack limit that is set reports it and keeps the processor |
| MultiTransfer.WriteBackLimit | src/execute.c:1949-1963 | so does write-back to SP |
| HandlerRuns.HandlerStart | src/main.c:1289-1297 | a handler starts at its address in Handler mode on its main stack, with r4-r11 untouched and the sleep state cleared if it wakes |
| HandlerRuns.PushIsCode | src/execute.c:1988-2024 | PUSH inside a run never touches a live frame |
| HandlerRuns.HandlerTransparent | src/execute.c:2025-2061 | entry, PUSH {..., LR}, any run, POP {..., PC}: the interrupted context resumes and pushed r4-r7 have their interrupted values |
| ItPacking.GetSet | src/execute.c:131-144 | unpacking inverts packing |
| ItPacking.SetKeeps | src/execute.c:138-144 | packing touches no other xPSR field |
| ItPacking.SetGet | src/execute.c:131-144 | repacking the unpacked state changes nothing |
| ItPacking.GetValue | src/execute.c:131-136 | ITSTATE is six bits of xPSR from bit 10 above two from bit 25 |
| ItPacking.EmptyState | src/execute.c:131-136 | a word of five flags, Thumb and an exception number has an empty ITSTATE |
| ItBlocks.ItMaskToPattern | src/execute.c:88-121 | the loops compute the block length and which instructions are "then" |
| ItBlocks.RemainingAgrees | src/main.c:2355-2361 | at every point the cached count is the one ITSTATE implies, and it is zero after four steps |
| ItBlocks.CondInjective | src/main.c:2274-2292 | conditions that agree on all flags are equal |
| Comparisons.UnsignedConditions | src/main.c:2274-2291 | EQ, NE, CS, CC, HI, LS after a comparison are equality and the unsigned order |
| Comparisons.SignedConditions | src/main.c:2274-2291 | GE, LT, GT, LE are the signed order, MI and PL the sign of the result, VS and VC signed overflow |
| Comparisons.ConstantConditions | src/main.c:2289-2290 | AL always holds, the sixteenth code never |
| Comparisons.BlockDecides | src/main.c:2266-2293 | each instruction of a block is executed exactly when the comparison stands in the relation its condition and mask bit name |
| Comparisons.GreaterOrEqualExample | src/main.c:2285 | IT GE after comparing 5 with 3 and with 7 |
| ItBlocks.DecisionsAgreeIff | src/execute.c:146-158 | cache and xPSR decide alike for all flags, and the advance is the architectural one, exactly until a set bit 4 is moved into a clear bit 5 |
| ItBlocks.NeverCorrupted | src/execute.c:146-158 | a first condition with bit 1 set is never corrupted |
| ItBlocks.CorruptionExample | src/execute.c:146-158 | ITTE NE: the third instruction's xPSR condition is CS instead of EQ |
| ItBlocks.ResyncTransparentIff | src/execute.c:160-177 | rebuilding the cache in mid-block keeps every decision of the iterated main-loop step exactly when nothing was corrupted |
| ItBlocks.ReturnTransparentIff | src/main.c:2355-2361 | after an interruption at any point, rebuilding and advancing once more, all further instructions are decided alike for all flags exactly when the rest of the block is unconditional |
| ItBlocks.ReturnExample | src/main.c:2355-2361 | an interrupted IT EQ instruction becomes unconditional |
| ItBlocks.SupervisorReturnIff | src/execute.c:1981-1987 | SVC inside a block returns to the right state exactly when it was last or nothing was corrupted |
| InterruptedBlocks.SupervisorHandlerIff | src/execute.c:1981-1987 | its handler, with the ITSTATE entry gives it, is decided as outside blocks exactly when the rest of the caller's block is unconditional |
| InterruptedBlocks.HandlerOutsideBlocks | src/main.c:2076-2100 | the handler of an asynchronous exception starts outside blocks |
| ItBlocks.SupervisorExample | src/execute.c:1981-1987 | both can fail |
| InterruptedBlocks.InterruptedBlockIff | src/main.c:647-839 | entry at a point of a block, any nested run, return: the rest of the program is decided alike exactly when the rest of the block is unconditional |
| ItBlocks.ItUnit.StartBlock | src/execute.c:220-225 | the IT instruction sets both forms consistently and keeps the other xPSR bits |
| ItBlocks.ItUnit.FinishInstruction | src/main.c:2355-2361 | one instruction advances both forms and keeps their counts equal |
| ItBlocks.ItUnit.SyncFromXpsr | src/execute.c:160-177 | the cache is rebuilt from xPSR |
| SysTick.Timer.AdvanceBy | src/scs.c:880-955 | value, wrap total, COUNTFLAG and pending bit after any number of cycles; the result is the wrap count modulo 2^32 |
| SysTick.AdvanceIsSteps | src/scs.c:880-955 | the jump equals that many single cycles, for every LOAD and starting value |
| SysTick.AdvanceAdds | src/scs.c:880-955 | splitting a jump changes nothing |
| SysTick.StepIsAdvance | src/scs.c:988-991 | one cycle is a jump of one |
| SysTick.AdvanceRegisters | src/scs.c:880-955 | the count, COUNTFLAG, pending bit and wrap total after any number of cycles |
| SysTick.ReloadsExactlyAt | src/scs.c:920-935 | reloads come at the first one and every LOAD cycles after it, and at no other cycle |
| SysTick.StandsStill | src/scs.c:890-904 | disabled or with LOAD 0 nothing changes |
| SysTick.Timer.UntilFire | src/scs.c:957-978 | the query answers from the registers without changing them |
| SysTick.FireIsEarliestWrap | src/scs.c:957-978 | the answer is the earliest wrap: none before, exactly one there, reloading LOAD |
| SysTick.SleepJumpIsExact | src/main.c:2010-2040 | the WFI jump is the run of cycles up to the first one that pends SysTick |
| StmTimer.Instance.ApplyTickUp | cpu/stm32h563/stm32h563_timers.c:114-148 | counting up by many ticks, with the update event |
| StmTimer.Instance.ApplyTickDown | cpu/stm32h563/stm32h563_timers.c:150-184 | counting down by many ticks, with the update event |
| StmTimer.Instance.RaiseUpdate | cpu/stm32h563/stm32h563_timers.c:100-112 | UIF, interrupt and one-pulse stop, unless updates are disabled |
| StmTimer.Instance.Advance | cpu/stm32h563/stm32h563_timers.c:186-203 | prescaler and counter after a batch of cycles |
| StmTimer.TickIsModular | cpu/stm32h563/stm32h563_timers.c:114-184 | the counter moves by the ticks modulo ARR+1, with an update exactly when it leaves [0, ARR] |
| StmTimer.TickRegisters | cpu/stm32h563/stm32h563_timers.c:100-203 | counter, prescaler, UIF, interrupt and CEN after a batch, from UDIS, UIE, OPM and direction |
| StmTimer.TickStands | cpu/stm32h563/stm32h563_timers.c:186-193 | stopped or unclocked timers do not change |
| StmTimer.TickAdds | cpu/stm32h563/stm32h563_timers.c:186-203 | two batches are one while the counter keeps running: counter, prescaler, UIF and interrupt |
| StmTimer.SplitIff | cpu/stm32h563/stm32h563_timers.c:100-203 | splitting changes nothing exactly unless the first part stops a one-pulse counter the second would move |
| StmTimer.OnePulseExample | cpu/stm32h563/stm32h563_timers.c:109-111 | an unsplit batch runs past the one-pulse stop |
| NrfTimer.Instance.Advance | cpu/nrf5340/nrf5340_timers.c:191-235 | counter, prescaler, events and interrupt after a batch of cycles |
| NrfTimer.Instance.RaiseHits | cpu/nrf5340/nrf5340_timers.c:219-231 | the channel loop sets exactly the events whose interval test holds |
| NrfTimer.NextIsSuccessor | cpu/nrf5340/nrf5340_timers.c:214-217 | masking the wrapped 32-bit sum is reducing the true sum |
| NrfTimer.EventIffVisited | cpu/nrf5340/nrf5340_timers.c:219-231 | a jump below the range raises a compare event exactly when one of its single ticks shows the compare value |
| NrfTimer.LongJumpIff | cpu/nrf5340/nrf5340_timers.c:214-231 | for any jump, the test is right exactly when the distance is out of reach or within the reduced jump |
| NrfTimer.LongJumpExample | cpu/nrf5340/nrf5340_timers.c:214-231 | an 8-bit timer jumping 0x100 ticks passes a compare value silently |
| NrfTimer.JumpAdds | cpu/nrf5340/nrf5340_timers.c:214-231 | two jumps within the range raise what one raises |
| NrfTimer.TickAdds | cpu/nrf5340/nrf5340_timers.c:191-235 | splitting a batch of cycles changes nothing, prescaler remainders included |
| NrfTimer.RangeOfMode | cpu/nrf5340/nrf5340_timers.c:49-56 | the width of each BITMODE |
| NrfTimer.PrescalerDivides | cpu/nrf5340/nrf5340_timers.c:204-206 | the prescaler divides by powers of two |
| NrfTimer.TickRegisters | cpu/nrf5340/nrf5340_timers.c:191-235 | counter, prescaler, every event and the interrupt after a batch below one range |
| Watchdog.Unit.TickIwdg | cpu/stm32h563/stm32h563_mmio.c:1456-1479 | the loop ends in the closed-form counter, accumulator and reset request |
| Watchdog.Unit.TickWwdg | cpu/stm32h563/stm32h563_mmio.c:1434-1454 | the loop ends in the closed-form counter, warning, accumulator and reset request |
| Watchdog.IwdgResetIff | cpu/stm32h563/stm32h563_mmio.c:1456-1479 | reset exactly when the elapsed ticks reach max(counter, 1) |
| Watchdog.TickLength | cpu/stm32h563/stm32h563_mmio.c:1430-1467 | a tick is the processor clock over 32 kHz through the prescaler, rounded down, at least one cycle |
| Watchdog.IwdgMoves | cpu/stm32h563/stm32h563_mmio.c:1456-1479 | counter and accumulator after a batch without a reset |
| Watchdog.Keys | cpu/stm32h563/stm32h563_mmio.c:1331-1342 | which keys reload and start the watchdog |
| Watchdog.Stopped | cpu/stm32h563/stm32h563_mmio.c:1434-1457 | watchdogs that do not run do nothing |
| Watchdog.IwdgSplit | cpu/stm32h563/stm32h563_mmio.c:1456-1479 | splitting a batch before the reset changes nothing |
| Watchdog.KickedNeverResets | cpu/stm32h563/stm32h563_mmio.c:1331-1342 | a watchdog refreshed every reload-1 ticks never resets, over any run |
| Watchdog.WwdgDeadlines | cpu/stm32h563/stm32h563_mmio.c:1434-1454 | reset exactly from above 0x3F after counter-0x3F ticks; warning exactly when enabled and 0x40 is reached |
| Watchdog.StepLength | cpu/stm32h563/stm32h563_mmio.c:1435-1436 | 4096 cycles, doubled by each timebase step |
| Watchdog.WwdgMoves | cpu/stm32h563/stm32h563_mmio.c:1434-1454 | counter, its copy in CR and accumulator after a batch without a reset |
| Watchdog.WwdgSplitIff | cpu/stm32h563/stm32h563_mmio.c:1434-1454 | splitting before the reset changes nothing exactly when the first part has fewer ticks than the counter or the second is whole ticks |
| Watchdog.WwdgSplitExample | cpu/stm32h563/stm32h563_mmio.c:1434-1454 | a spare cycle is lost after the counter ran out |
| Nvic.Select | src/nvic.c:133-172 | the choice is the eligible interrupt least in (priority, number), with its ITNS target; none exactly when none is eligible |
| Nvic.EligibleMeans | src/nvic.c:122-160 | eligibility from the mask bits and the PRIMASK of the interrupt's own target |
| Nvic.ChoiceIsMostUrgent | src/nvic.c:156-160 | the choice has the least priority value, and the least number among equals |
| Nvic.BitAfterSet | src/nvic.c:63-77 | changing one interrupt's bit changes no other |
| Nvic.Controller.SetPending | src/nvic.c:84-87 | the pending bit is set or cleared; out-of-range numbers are ignored |
| Nvic.Controller.DrainAll | src/main.c:2089-2104 | repeated acceptance takes every eligible interrupt once, in strictly increasing order, routed to its target |
| Nvic.OrderedDistinct | src/main.c:2089-2104 | an ordered log names no interrupt twice |
| Scs.Block.Store | src/scs.c:382-571 | the SysTick, NVIC and SCB dispatch with narrow read-modify-write |
| Scs.EffectiveMeans | src/scs.c:382-399 | an access is Non-secure if its window or initiator is |
| Scs.AcceptedIff | src/scs.c:382-879 | which stores are accepted |
| Scs.SysTickStores | src/scs.c:407-431 | CTRL keeps three bits, LOAD 24, VAL clears count and COUNTFLAG |
| Scs.BankedOffsets | src/scs.c:603-727 | the offset of each banked register |
| Scs.RegionStores | src/scs.c:675-700 | RBAR and RLAR write the region RNR selects |
| Scs.NarrowBankedStore | src/scs.c:576-586 | a narrow store to a banked register merges into it |
| Scs.SharedOffsets | src/scs.c:628-656 | the offset of each shared register |
| Scs.ByteLanes | src/scs.c:576-586 | where narrow stores put their bytes |
| Scs.PendStores | src/scs.c:593-598 | the ICSR bits that set and clear PendSV and SysTick; clearing wins |
| Scs.IcsrStored | src/scs.c:599-600 | ICSR keeps the word without bits 25 and 26 in the window's bank |
| Scs.Block.StoreScb | src/scs.c:590-878 | every SCB register case, banked by effective security |
| Scs.Block.StoreIcsr | src/scs.c:593-602 | pending bits set and cleared; ICSR banks by window |
| Scs.AircrStores | src/scs.c:612-623 | a store of any width is accepted exactly when the word it writes has the key, is then kept by the window's bank, adds a reset request exactly with SYSRESETREQ, and changes nothing else |
| Scs.NarrowAircrIff | src/scs.c:576-623 | a store to the low half is accepted exactly when the bank it merges from shows the key |
| Scs.NarrowAircrExample | src/scs.c:576-623 | a byte store resets a machine whose AIRCR was written before |
| Scs.ResetRequestedIff | src/scs.c:612-623 | in every run a reset is requested exactly by a keyed store with SYSRESETREQ |
| Scs.NvicWriteIsolated | src/scs.c:431-532 | a Non-secure mask write leaves ITNS and all Secure interrupts alone |
| Scs.NonSecureWriteIsolated | src/scs.c:382-878 | a write of effective Non-secure security, of any width, leaves the Secure state alone |
| Scs.NonSecureRunIsolated | src/scs.c:382-878 | so does every run of such writes |
| Scs.SecureBankKeptIff | src/scs.c:592-623 | a store of effective Non-secure security keeps the whole Secure bank exactly when it uses the Non-secure window or changes neither ICSR nor a keyed AIRCR |
| Scs.SecureAircrExample | src/scs.c:612-623 | a Non-secure initiator changes the Secure AIRCR through the Secure window |
| Scs.PriorityKeptIff | src/scs.c:533-566 | any store keeps an interrupt's priority exactly when no byte or aligned word store covers it or the byte is the old one |
| Scs.PriorityAfterRun | src/scs.c:533-566 | after any run each interrupt has the last priority stored for it |
| Scs.PriorityExample | src/scs.c:533-566 | a Non-secure byte store changes the priority of a Secure interrupt |
| Scs.EnableStores | src/scs.c:434-471 | the enable bit of every interrupt after a word store to ISER or ICER, from the bits of the value and ITNS |
| Scs.PendingStores | src/scs.c:472-504 | the pending bit after ISPR or ICPR |
| Scs.TargetStores | src/scs.c:505-531 | only Secure stores replace an ITNS word |
| Scs.MasksApart | src/scs.c:434-531 | each register changes its own mask only |
| Scs.EnableExample | src/scs.c:434-452 | 1 stored to ISER0 enables interrupt 0 and not 1 |
| Scs.IcsrBits | src/scs.c:593-602 | the SysTick bit of ICSR reads as it is; the PendSV bit does exactly when PendSV is pending or was not written as one |
| Scs.IcsrExample | src/scs.c:273-277 | ICSR shows a PendSV that was taken |
| Scs.NarrowLoadIff | src/scs.c:419-424 | a narrow LOAD store zeroes every other byte, so it is a merge exactly when LOAD had nothing there |
| Scs.NarrowLoadExample | src/scs.c:419-424 | LOAD 0x1234 becomes 0x56, not 0x1256 |
| Scs.BankedWriteReadsBack | src/scs.c:603-727 | a word written to a banked register reads back and changes no other group of registers |
| Scs.BankReadOther | src/scs.c:603-727 | writing one banked register leaves the others alone, RNR's selection aside |
| Scs.SauReadsBackIff | src/scs.c:729-873 | for each of the seven SAU registers, when a write reads back |
| Scs.SauControlStores | src/scs.c:729-754 | CTRL and RNR |
| Scs.SauRegionStores | src/scs.c:755-813 | RBAR and RLAR write the selected region |
| Scs.SauStatusStores | src/scs.c:814-861 | SFSR and SFAR |
| Scs.SauExample | src/scs.c:843-861 | 0x100 stored as SFSR in the legacy layout does not |
| Scs.NarrowCfsrIff | src/scs.c:647-650 | a narrow CFSR store leaves no flag outside its bytes, so it clears what it names exactly when none was set there |
| Scs.NarrowCfsrExample | src/scs.c:576-650 | a zero byte stored to UFSR clears a MemManage flag |
| Flash.Controller.RegStore | cpu/stm32h563/stm32h563_mmio.c:1098-1138 | register stores of any offset and width: keys, status clear, control, or a byte copy |
| Flash.Controller.HandleKey | cpu/stm32h563/stm32h563_mmio.c:601-619 | the two-stage key automaton of each side |
| Flash.Controller.ControlStore | cpu/stm32h563/stm32h563_mmio.c:1119-1134 | control writes, ignored while locked unless they keep LOCK |
| Flash.Controller.ApplyErase | cpu/stm32h563/stm32h563_mmio.c:621-671 | mass or sector erase and the status flags |
| Flash.Controller.ScanSector | cpu/stm32h563/stm32h563_mmio.c:715-727 | the write-once scan decides whether the sector is blank |
| Flash.Controller.Program | cpu/stm32h563/stm32h563_mmio.c:673-746 | a flash store: refused, ignored or programmed |
| Flash.KeysExplainRuns | cpu/stm32h563/stm32h563_mmio.c:596-619 | in every run from reset a side is unlocked exactly when a KEY2 followed an odd number of KEY1s, or a store from below wrote LOCK as zero, and LOCK was not set since |
| Flash.OpenedIsConsecutive | cpu/stm32h563/stm32h563_mmio.c:601-619 | being opened means KEY1 then KEY2 as consecutive key writes, or such a store |
| Flash.AlignedNeverForced | cpu/stm32h563/stm32h563_mmio.c:1136-1137 | stores at aligned offsets never overrun LOCK |
| Flash.OverrunUnlocks | cpu/stm32h563/stm32h563_mmio.c:1136-1137 | a zero word two bytes below NSCR unlocks without a key |
| Flash.ProgrammableIffOpened | cpu/stm32h563/stm32h563_mmio.c:673-746 | a store is programmed exactly when the side was opened, PG is set and the write-once check passes |
| Flash.ProgrammingNeedsKeys | cpu/stm32h563/stm32h563_mmio.c:673-746 | after any run without such an overrun, a store that changes flash has its key writes in the history |
| Flash.ProgramReadsBack | cpu/stm32h563/stm32h563_mmio.c:729-740 | a permitted store reads back and touches only its bytes |
| Flash.KeysUnlock | cpu/stm32h563/stm32h563_mmio.c:601-619 | from a settled stage KEY1, KEY2 unlock |
| Flash.OpeningUnlocks | cpu/stm32h563/stm32h563_mmio.c:601-619 | from reset the two key words and a control word with PG open exactly that side |
| Flash.OpenedByteProgrammed | cpu/stm32h563/stm32h563_mmio.c:729-741 | a byte is then programmed, and EOP is set until it is cleared |
| Flash.IgnoredStores | cpu/stm32h563/stm32h563_mmio.c:708-713 | stores to a locked side or without PG are ignored |
| Flash.RefusedStores | cpu/stm32h563/stm32h563_mmio.c:684-700 | which stores are refused, and that they change nothing |
| Flash.FlashWindowsAgree | cpu/stm32h563/stm32h563_mmio.c:687-694 | both windows show the same flash |
| Flash.SectorSizes | cpu/stm32h563/stm32h563_mmio.c:563-574 | a 256th of an even flash, a 128th of an odd one |
| Flash.RepeatedKeyStaysLocked | cpu/stm32h563/stm32h563_mmio.c:601-619 | KEY1, KEY1, KEY2 do not |
| Flash.LockedEraseIff | cpu/stm32h563/stm32h563_mmio.c:1119-1134 | a control store to a locked side keeps the flash exactly when it lacks LOCK or STRT, selects nothing, or only erased bytes |
| Flash.LockedMassErase | cpu/stm32h563/stm32h563_mmio.c:1119-1134 | LOCK, BER and STRT erase a locked flash |
| Flash.WrittenBytesStay | cpu/stm32h563/stm32h563_mmio.c:715-740 | with write-once, a programmed byte keeps its value through every run of stores inside sectors until an erase covers it |
| Flash.AlignedRunKeepsBytes | cpu/stm32h563/stm32h563_mmio.c:715-740 | so in every run whose flash stores are naturally aligned, for word-aligned windows and sectors |
| Flash.StoreWritesOnceIff | cpu/stm32h563/stm32h563_mmio.c:715-740 | a permitted store keeps every programmed byte exactly when the bytes beyond its first sector meet erased or equal bytes |
| Flash.AlignedStoreWithinSector | cpu/stm32h563/stm32h563_mmio.c:715-740 | naturally aligned stores stay inside sectors that are a multiple of four bytes |
| Flash.CrossingStoreRewrites | cpu/stm32h563/stm32h563_mmio.c:715-740 | on the 2 MB flash the halfword at 0x0C001FFF rewrites a programmed byte |
| Flash.SectorsTile | cpu/stm32h563/stm32h563_mmio.c:563-574 | for sizes divisible by 256 every offset lies in one of the 256 sectors |
| Flash.SectorsDisjoint | cpu/stm32h563/stm32h563_mmio.c:563-574 | and different sectors do not overlap |
| Flash.SectorEraseExact | cpu/stm32h563/stm32h563_mmio.c:621-671 | a sector erase sets exactly its own range to 0xFF |
| Flash.SectorEraseWord | cpu/stm32h563/stm32h563_mmio.c:621-671 | the word with SER, STRT, sector and bank erases exactly that 256th of the flash |
| Flash.MassEraseWord | cpu/stm32h563/stm32h563_mmio.c:632-634 | BER and STRT erase everything |
| Flash.EraseStatus | cpu/stm32h563/stm32h563_mmio.c:664-667 | EOP set, BSY clear, STRT gone from the stored word |
| Scheduler.Queue.Schedule | src/core_interfaces.c:155-176 | the relinked list is the old one with the event inserted after all that are due no later |
| Scheduler.InsertedSorted | src/core_interfaces.c:155-176 | insertion keeps the list sorted by due cycle |
| Scheduler.InsertedDistinct | src/core_interfaces.c:155-176 | and without repetition, so acyclic |
| Scheduler.InsertedContents | src/core_interfaces.c:155-176 | and adds exactly the one event |
| Scheduler.InsertedLastAmongEquals | src/core_interfaces.c:155-176 | first come, first served among equal due cycles |
| Scheduler.Queue.NextDue | src/core_interfaces.c:178-184 | the earliest due cycle, or none |
| Scheduler.Queue.RunDue | src/core_interfaces.c:186-195 | exactly the events due by `now` run, in order, and what is left is due later |
| FlashPersist.SortIndices | src/flash_persist.c:26-42 | the in-place exchange sort is a permutation that orders the offsets |
| FlashPersist.Build | src/flash_persist.c:44-83 | the ranges of at most sixteen images in offset order, each with its own path |
| FlashPersist.RangesContiguousIff | src/flash_persist.c:67-82 | each range has its image's path and start, and ends where the next begins exactly when that image is not beyond the flash |
| FlashPersist.RangesCover | src/flash_persist.c:67-82 | every offset from the first image on lies in exactly one range |
| FlashPersist.LengthWrapsIff | src/flash_persist.c:72-81 | a range length wraps exactly for images beyond the flash |
| FlashPersist.LengthWrapsExample | src/flash_persist.c:72-81 | an image 16 bytes beyond gets length 2^32 - 16 |
| GdbPackets.NibbleRoundTrip | src/gdbstub.c:39-51 | a digit written is the digit read |
| GdbPackets.DigitsMean | src/gdbstub.c:39-45 | hexadecimal digits of either case, and nothing else |
| GdbPackets.ChecksumAdds | src/gdbstub.c:116-133 | the checksum is the sum of the bytes modulo 256 |
| GdbPackets.PacketExample | src/gdbstub.c:116-133 | `$OK#9a` |
| GdbPackets.BodyLength | src/gdbstub.c:124-127 | payloads are cut at 1019 bytes |
| GdbPackets.BreakInterrupts | src/gdbstub.c:690-710 | a break byte ends the reception |
| GdbPackets.SendPacket | src/gdbstub.c:116-133 | the frame holds at most 1019 payload bytes and their checksum |
| GdbPackets.ReceivePacket | src/gdbstub.c:679-738 | the receiver loops compute seek, collection and checksum verdict |
| GdbPackets.AcceptedIff | src/gdbstub.c:679-738 | a framed body is accepted exactly when the digits give its checksum, and delivered cut to the buffer |
| GdbPackets.AcceptedSpellsIff | src/gdbstub.c:679-738 | acceptance means hexadecimal digits that spell the checksum, except for bad digits against checksums of 0xFF or 0xF0 to 0xFF |
| GdbPackets.BadDigitsExample | src/gdbstub.c:679-738 | `#zz` is accepted for a checksum of 0xFF |
| GdbPackets.SendReceiveRoundTrip | src/gdbstub.c:116-133 | receiving a sent packet, after any noise, gives the first 1019 payload bytes |

## Left out

- Instruction fetch, decoding and the data-processing instructions: each is settled by reading one case.
- SG, BXNS, BLXNS and the Secure-to-Non-secure return stack; the run theorems let code change the security state freely instead.
- Core.Core.EnterException: the handler address is a parameter, the SHCSR and pending bits entry sets or clears are not modelled, and stacks lie in RAM.
- Core.Core.RaiseHardFault: without HFSR, SHCSR and the stop-at-faults flag.
- Core.Core.RaiseUsageFault: without CFSR and SHCSR.
- Stacks outside RAM: accesses that end in flash or on the device bus stop the modelled operation.
- Handlers that move a stack pointer above a live frame on its stack, as a context switch that changes PSP does: the run theorems exclude them.
- MultiTransfer.ExecPush: stops at a refused store, where the source delivers a fault and goes on.
- MultiTransfer.ExecPop: stops at a refused load, where the source delivers a fault and still sets SP.
- MultiTransfer.ExecStoreMultiple: without the write-back that follows a delivered fault.
- MultiTransfer.ExecLoadMultiple: without the write-back that follows a delivered fault.
- Reads of SCS and NVIC registers other than the word a narrow store merges, and trace output.
- The H563 flash with no buffer bound, and flash register offsets within four bytes of 2^32, which the bus does not pass on.
- Watchdog.KickedNeverResets: assumes that 4097 ticks fit the 64-bit accumulator.
- NrfTimer.TickAdds: for batches of less than one counter range, because longer jumps lose events (`NrfTimer.LongJumpIff`).
- Timer register writes, the loop over the timer instances and the absence of a bound interrupt controller.
- STM32L552 and STM32U585 timers, flash and watchdogs, which repeat the H563 code, and the nRF watchdog.
- USB, Ethernet, SPI, RNG, GPIO, RCC and PWR blocks, the terminal interface, pacing and polling.
- Scheduling an event that is already queued, and callbacks that change the list.
- Writing images back to files and GDB command dispatch.
