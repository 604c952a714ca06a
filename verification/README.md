# Core peripherals of the Apollo board, modelled and proved

This project models the executable code of the CMSIS-Core headers that the firmware is built on, with the
few HAL and board functions that call it, and proves what that code is for. Hardware registers are mutable
fields; what the hardware does with a write is written out beside them, following sections B3.3 (SysTick),
B3.4 (NVIC) and B3.5 (MPU) of the ARMv7-M Architecture Reference Manual.

| file | subject |
|---|---|
| `Words.dfy` | unsigned words as numbers: shifts, masks, joins, single bits, and the laws the rest uses |
| `Instructions.dfy` | `__RBIT` (the C loop), `__ROR`, `__REV16` |
| `Saturation.dfy` | `__SSAT`, `__USAT` |
| `Priority.dfy` | priority encoding and decoding, and how the hardware splits the stored byte |
| `Nvic.dfy` | enable and pending banks, priorities, AIRCR grouping, whole runs of calls, the HAL pair set/get |
| `SysTick.dfy` | the down-counter cycle by cycle, and `SysTick_Config` |
| `HalTick.dfy` | the HAL time base: its set-up, its rate, and the HAL's own `HAL_Delay` on the tick |
| `Delay.dfy` | the board's `delay_us`, `delay_ms` and `HAL_Delay`, which poll the counter |
| `Mpu.dfy` | the region registers with their aliases, `orderedCpy` and `ARM_MPU_Load` |
| `MpuControl.dfy` | switching the MPU on and off, register write by register write |
| `Itm.dfy` | the receive mailbox among the debugger's steps |

Words are numbers below 2^32. `Shl`, `Shr`, `And`, `Or` and `Without` (the operator pair `& ~`) are defined one bit
at a time for every width, and `Wrap` marks each place where C keeps only 32 bits. `Low(x, n)` is the n low
bits of x, which `Words.Division` shows to be the remainder modulo 2^n.

The number of priority bits is symbolic, 1 to 8. Time is a number of clock cycles. Where the code reads the
time or leaves room for other activity between two register accesses, the cycles that pass are a parameter
(`gap0`, `gaps`, `polls`), so a result holds for every schedule.

## Where the code and its promise part

Each of these is stated as an equivalence: the promise holds if and only if the condition does.

- `SysTick_Config(1)` is accepted, but the timer then never raises anything. A count of c/ticks exceptions in
  c cycles holds exactly from two ticks on (`SysTick.PeriodFromTwo`).
- `delay_us` multiplies in 32 bits. On a timer with any reload value from 1 on, it can never end early exactly when
  the product of microseconds and megahertz is below 2^32 (`Delay.DelayUsExact`). Besides, it counts `reload` for a
  period of `reload + 1` cycles, so it is late by one cycle for each reload it sees (`Delay.Lateness`). The 65 ms
  chunks of `delay_ms` are short enough for every 16-bit clock (`Delay.DelayMsNeverEarly`).
- `delay_us` can also step over its end: its 32-bit count may wrap between two reads. For each reload value and each
  widest gap between reads, up to the reload value, the loop always ends within two reads a tick exactly when
  ticks + widest gap is at most 2^32 (`Delay.FinishesExact`). At 180 MHz with a period of 1 ms, a wait of
  23860929 microseconds can outlast any number of reads that are at most 100 cycles apart (`Delay.Missed`).
- The board's `HAL_Delay` passes its 32-bit argument to a 16-bit parameter: on a timer with any reload value from 1 on
  and at any clock of 1 MHz or more, it waits long enough exactly below 2^16 (`Delay.HalDelayExact`).
- The HAL's own `HAL_Delay` adds one tick to its argument in 32 bits: on a timer with any reload value from 1 on, it
  never waits too short exactly when that sum does not wrap, or when the longest wait meets a rate of 10 or 100 ms and
  never ends (`HalTick.HalWaitExact`).
- Tested at least once a period, it has always ended by the time that could hold its ticks and one more, exactly at
  1 ms or when the argument and the added tick stay within the last multiple of the rate below 2^32, or wrap
  (`HalTick.HalWaitEndsExact`).
- `HAL_InitTick` accepts every priority below 2^bits, but it goes into the preempt field of the group in force: the
  timer gets it exactly when that field can hold it (`HalTick.TickPriorityKept`). Priority 15 under group 2, which
  `HAL_Init` asks for, becomes 3.
- `HAL_SetTickFreq` takes its variable back on failure but not the timer: the two stay in step exactly when the call
  succeeds or the new period is impossible. They part when the period fits and the remembered priority is too high,
  as it is before the first success (`HalTick.TimeBase.SetTickFreq`; `HalTick.PartedRate` gets there).
- `ARM_MPU_SetRegionEx` configures the region it is given exactly when the base word names none or the same
  (`Mpu.SetRegionExExact`).
- `ARM_MPU_Load` gives the same regions from every selected region exactly when its first row names a region, or
  rows that do not depend on the old selection reach every region of the device (`Mpu.RnrIrrelevant`).
- `ARM_MPU_Disable` leaves HFNMIENA set with the unit off, a combination the architecture does not define,
  exactly when it was set before; `HAL_MPU_Disable` never does (`MpuControl.DisableDefined`).
- A caller of `ITM_ReceiveChar` hears every character taken exactly when none of them is -1 (`Itm.CallerHears`;
  `Itm.NotHeard` is a run that loses one). Over an alphabet of characters it hears them all in every run exactly when
  -1 is not in the alphabet (`Itm.AlphabetHeard`).
- `__USAT` is monotone exactly for its documented widths (`Saturation.UsatWidths`).

## Model

| member | source | states |
|---|---|---|
| Instructions.Rbit | Drivers/CMSIS/Include/cmsis_armcc.h:516-530 | the loop ends, lowering `s` from 31 each round and never below 0, with the mirror image of all 32 bits |
| Instructions.TakeBit | Drivers/CMSIS/Include/cmsis_armcc.h:521-527 | a round appends the next bit below those taken, although `result` still carries the bits it started with |
| Instructions.LastShift | Drivers/CMSIS/Include/cmsis_armcc.h:528 | the extra shift accounts for the zero bits the loop skipped |
| Instructions.MirrorBit | Drivers/CMSIS/Include/cmsis_armcc.h:506-511 | bit i of the mirror image is bit n-1-i of the word |
| Instructions.MirrorTwice | Drivers/CMSIS/Include/cmsis_armcc.h:516-530 | reversing twice gives the word back |
| Instructions.MirrorOr | Drivers/CMSIS/Include/cmsis_armcc.h:516-530 | reversal distributes over the or of any two words |
| Instructions.MirrorOnes | Drivers/CMSIS/Include/cmsis_armcc.h:516-530 | reversal keeps the number of one bits |
| Instructions.Ror | Drivers/CMSIS/Include/cmsis_armclang.h:876-884 | rotation puts the low bits on top of the others; the two shifted parts never overlap |
| Instructions.RorBit | Drivers/CMSIS/Include/cmsis_armclang.h:876-884 | bit i of the result is the bit op2 places up, counting round at 32 |
| Instructions.RorAdd | Drivers/CMSIS/Include/cmsis_armclang.h:876-884 | rotating by a and then b is rotating by a+b, also when the 32-bit sum wraps |
| Instructions.RorInverse | Drivers/CMSIS/Include/cmsis_armclang.h:876-884 | rotating on by 32 - a%32 undoes a rotation by a |
| Instructions.RorOnes | Drivers/CMSIS/Include/cmsis_armclang.h:876-884 | rotation keeps the number of one bits |
| Instructions.MirrorRor | Drivers/CMSIS/Include/cmsis_armclang.h:876-884 | reversal turns a right rotation into a left one |
| Instructions.Rev16Bytes | Drivers/CMSIS/Include/cmsis_armclang.h:848-857 | the rotated byte reversal swaps the bytes of each halfword |
| Instructions.Rev16Laws | Drivers/CMSIS/Include/cmsis_armclang.h:848-857 | it undoes itself, and combined with `__REV` in either order it swaps the halfwords |
| Saturation.SsatNearest | Drivers/CMSIS/Include/cmsis_armclang.h:1121-1137 | the result is the one number of the width nearest to the value |
| Saturation.UsatNearest | Drivers/CMSIS/Include/cmsis_armclang.h:1146-1161 | the same for the unsigned widths |
| Saturation.SsatSsat | Drivers/CMSIS/Include/cmsis_armcc.h:736-752 | saturating to a and then b is saturating to the smaller, for all widths 1 to 32 |
| Saturation.UsatUsat | Drivers/CMSIS/Include/cmsis_armcc.h:761-776 | the same for all widths 0 to 31; the first result is a valid second argument |
| Saturation.UsatSsat | Drivers/CMSIS/Include/cmsis_armclang.h:1121-1161 | unsigned after signed saturation is one unsigned saturation, with one bit less of the signed width |
| Saturation.SaturationMonotone | Drivers/CMSIS/Include/cmsis_armclang.h:1121-1161 | neither saturation reverses the order of two values |
| Saturation.UsatWidths | Drivers/CMSIS/Include/cmsis_armclang.h:1139-1161 | `__USAT` is monotone exactly for widths up to 31 |
| Priority.BitsAddUp | Drivers/CMSIS/Include/core_cm4.h:1865-1870 | the two field widths add up to the implemented bits for every group, in spite of the wrapping subtraction |
| Priority.EncodeValue | Drivers/CMSIS/Include/core_cm4.h:1863-1876 | the encoded word is the preempt field above the sub field |
| Priority.EncodeBound | Drivers/CMSIS/Include/core_cm4.h:1863-1876 | it needs no more bits than are implemented |
| Priority.Decode | Drivers/CMSIS/Include/core_cm4.h:1890-1901 | both results, with the masks read as field widths |
| Priority.DecodeEncode | Drivers/CMSIS/Include/core_cm4.h:1863-1901 | decoding an encoded pair gives the pair cut to its field widths |
| Priority.EncodeDecode | Drivers/CMSIS/Include/core_cm4.h:1863-1901 | encoding a decoded word gives its implemented bits |
| Priority.EncodeOrder | Drivers/CMSIS/Include/core_cm4.h:1863-1876 | encoded words compare as the pairs do, preempt field first |
| Priority.LoadedStored | Drivers/CMSIS/Include/core_cm4.h:1816-1849 | a stored priority reads back modulo 2^bits |
| Priority.StoredGroup | Drivers/CMSIS/Include/core_cm4.h:1816-1876 | once stored, the preempt field is exactly the hardware's group priority, aligned at its top |
| Priority.HardwarePreempts | Drivers/CMSIS/Include/core_cm4.h:1816-1876 | in hardware one preempts the other exactly when its preempt field is lower |
| Priority.HardwareRanks | Drivers/CMSIS/Include/core_cm4.h:1816-1876 | and is served first exactly when its pair of fields comes first |
| Priority.CoarserGroup | Drivers/CMSIS/Include/core_cm4.h:1647-1668 | a higher group number only takes preemptions away and reverses none |
| Nvic.SetMember | Drivers/CMSIS/Include/core_cm4.h:1688-1694 | writing one bit to a set register adds that interrupt to the set and no other |
| Nvic.ClearMember | Drivers/CMSIS/Include/core_cm4.h:1724-1732 | writing one bit to a clear register removes that interrupt and no other |
| Nvic.HandlerSlot | Drivers/CMSIS/Include/core_cm4.h:1824 | the masked negative number is the number plus 16, so distinct exceptions have distinct slots |
| Nvic.GroupingWrite | Drivers/CMSIS/Include/core_cm4.h:1657-1668 | the written word has the key 0x5FA, the argument's low three bits, and the other low bits as read |
| Nvic.GroupingRead | Drivers/CMSIS/Include/core_cm4.h:1676-1679 | reading the group is not disturbed by the different key half that is read back |
| Nvic.Controller.EnableIRQ | Drivers/CMSIS/Include/core_cm4.h:1688-1694 | adds the interrupt to the enabled set and sets just bit irq % 32 of register irq / 32; a negative number changes nothing |
| Nvic.Controller.DisableIRQ | Drivers/CMSIS/Include/core_cm4.h:1724-1732 | removes it and clears just that bit; a negative number changes nothing |
| Nvic.Controller.GetEnableIRQ | Drivers/CMSIS/Include/core_cm4.h:1705-1715 | 1 exactly for members of the enabled set, which is that bit of the register; 0 for negative numbers |
| Nvic.Controller.SetPendingIRQ | Drivers/CMSIS/Include/core_cm4.h:1762-1768 | the same for the pending set |
| Nvic.Controller.ClearPendingIRQ | Drivers/CMSIS/Include/core_cm4.h:1777-1783 | the same for the pending set |
| Nvic.Controller.GetPendingIRQ | Drivers/CMSIS/Include/core_cm4.h:1743-1753 | 1 exactly for members of the pending set |
| Nvic.Controller.SetPriority | Drivers/CMSIS/Include/core_cm4.h:1816-1826 | sets one exception's priority, cut to the implemented bits: byte irq of IP, or byte irq + 12 of SHP for a negative number, and no other byte |
| Nvic.Controller.GetPriority | Drivers/CMSIS/Include/core_cm4.h:1838-1849 | reads that exception's priority from the same byte |
| Nvic.Controller.SetPriorityGrouping | Drivers/CMSIS/Include/core_cm4.h:1657-1668 | makes one write, the key over the new low half; bits 8 to 10 become the argument modulo 8 and the others stay |
| Nvic.Controller.GetPriorityGrouping | Drivers/CMSIS/Include/core_cm4.h:1676-1679 | reads bits 8 to 10, the group in force |
| Nvic.Controller.HalSetPriority | Drivers/STM32F4xx_HAL_Driver/Src/stm32f4xx_hal_cortex.c:163-174 | sets that byte, and no other, to the priority encoded under the group in force |
| Nvic.Controller.HalGetPriority | Drivers/STM32F4xx_HAL_Driver/Src/stm32f4xx_hal_cortex.c:369-375 | decodes the priority under the group given |
| Nvic.Controller.Perform | Drivers/CMSIS/Include/core_cm4.h:1657-1849 | any sequence of calls on the registers leaves the state of the run, and every write to AIRCR carries the key |
| Nvic.ApplyReads | Drivers/CMSIS/Include/core_cm4.h:1657-1849 | a call changes just the cell it writes, and to what it writes |
| Nvic.UntouchedReads | Drivers/CMSIS/Include/core_cm4.h:1657-1849 | over any run a cell no call writes keeps what it held |
| Nvic.LastWriteWins | Drivers/CMSIS/Include/core_cm4.h:1657-1849 | after any run a cell holds what the last call writing it left |
| Nvic.HalRoundTrip | Drivers/STM32F4xx_HAL_Driver/Src/stm32f4xx_hal_cortex.c:163-174 | fields set through the HAL are read back, cut to width, after any unrelated calls |
| Nvic.HalPreemption | Drivers/STM32F4xx_HAL_Driver/Src/stm32f4xx_hal_cortex.c:150-174 | of two exceptions set through the HAL in any run, one preempts the other in hardware exactly when its preempt field is lower |
| Nvic.Controller.RegistersHold | Drivers/CMSIS/Include/core_cm4.h:1816-1826 | the byte and the group by which the hardware compares an exception are the ones in its registers |
| Nvic.Controller.PerformPair | Drivers/STM32F4xx_HAL_Driver/Src/stm32f4xx_hal_cortex.c:150-174 | the same preemption on the IP, SHP and AIRCR registers, after any run carried out on them |
| SysTick.SysTickTimer.Config | Drivers/CMSIS/Include/core_cm4.h:2022-2036 | returns 1 and changes nothing exactly for 0 and above 2^24; otherwise starts the timer and sets its priority, whatever time passes between the writes |
| SysTick.Periodic | Drivers/CMSIS/Include/core_cm4.h:2011-2036 | position and exceptions of a running counter after any number of cycles |
| SysTick.ExactPeriod | Drivers/CMSIS/Include/core_cm4.h:2011-2036 | one exception each `ticks` cycles exactly, counted from the write to VAL |
| SysTick.PeriodFromTwo | Drivers/CMSIS/Include/core_cm4.h:2011-2036 | c/ticks exceptions in every c cycles exactly when ticks is at least 2 |
| SysTick.ConfiguredInRange | Drivers/CMSIS/Include/core_cm4.h:2029-2034 | a configured counter stays within its 24-bit reload value |
| SysTick.TimerPreemptsNothing | Drivers/CMSIS/Include/core_cm4.h:2030 | the priority it is given lets the timer preempt no exception in any grouping |
| HalTick.TimeBase.Serve | Drivers/STM32F4xx_HAL_Driver/Src/stm32f4xx_hal.c:312-315 | over any number of cycles the tick goes up by the milliseconds of one tick for each exception the timer raises in them, modulo 2^32 |
| HalTick.TimeBase.InitTick | Drivers/STM32F4xx_HAL_Driver/Src/stm32f4xx_hal.c:253-274 | succeeds exactly when a tick is at least a cycle, fits the 24-bit timer, and the priority is below 2^bits; the period is then the tick's milliseconds to within a cycle of the core clock; what each failure leaves in the timer and in the priority registers |
| HalTick.TimeBase.SetTickFreq | Drivers/STM32F4xx_HAL_Driver/Src/stm32f4xx_hal.c:341-367 | restores the rate on failure; the period after a change is the new rate's milliseconds to within a cycle; timer and rate stay in step exactly when it succeeds or the period was impossible; the priority left by each outcome |
| HalTick.PartedRate | Drivers/STM32F4xx_HAL_Driver/Src/stm32f4xx_hal.c:341-367 | for every core clock: set up at 1 ms with a priority that is too high and then asked for another rate whose period fits, the timer runs at that rate while `uwTickFreq` still says 1 ms |
| HalTick.PeriodIs | Drivers/STM32F4xx_HAL_Driver/Src/stm32f4xx_hal.c:256 | the division gives the whole number of cycles in f milliseconds |
| HalTick.TickTellsTime | Drivers/STM32F4xx_HAL_Driver/Src/stm32f4xx_hal.c:253-274 | the exceptions of a timer so set up tell the time: never a whole tick behind, and ahead by at most a cycle for each, at every core clock |
| HalTick.DifferentPeriods | Drivers/STM32F4xx_HAL_Driver/Src/stm32f4xx_hal.c:256 | two rates that both give a period differ by at least a cycle in the length of a tick, so no period is right for both, for any core clock |
| HalTick.TickPriorityKept | Drivers/STM32F4xx_HAL_Driver/Src/stm32f4xx_hal.c:261-266 | the timer gets the priority asked for exactly when the preempt field in force can hold it |
| HalTick.TimeBase.HalDelay | Drivers/STM32F4xx_HAL_Driver/Src/stm32f4xx_hal.c:389-403 | ends at the first test that finds delay and one tick passed, modulo 2^32, or the longest delay as it is, across wraps of the tick and from any starting tick |
| HalTick.EnoughTicks | Drivers/STM32F4xx_HAL_Driver/Src/stm32f4xx_hal.c:394-402 | the added tick makes the wait a minimum in timer cycles, at every phase of the timer |
| HalTick.HalWaitExact | Drivers/STM32F4xx_HAL_Driver/Src/stm32f4xx_hal.c:378-403 | for each reload value, the wait is never short under any phase and schedule exactly when the added tick does not wrap, or for the longest wait at an even rate |
| HalTick.HalWaitEndsExact | Drivers/STM32F4xx_HAL_Driver/Src/stm32f4xx_hal.c:389-403 | for each reload value, with a test in every period, the wait has ended by the time of its ticks and one more exactly at 1 ms, or when delay + f is at most the last multiple of f below 2^32, or wraps |
| HalTick.HalWaitLate | Drivers/STM32F4xx_HAL_Driver/Src/stm32f4xx_hal.c:389-403 | under that condition the test before the last comes earlier than that: before delay + 2f milliseconds of timer cycles while delay + f is below 2^32 |
| Mpu.MpuRegisters.SetRegion | Drivers/CMSIS/Include/mpu_armv7.h:223-227 | sets one row: the base and then the attributes of the region the base word names, or else the selected one |
| Mpu.MpuRegisters.SetRegionEx | Drivers/CMSIS/Include/mpu_armv7.h:234-239 | sets one row after selecting a region |
| Mpu.SetRegionExExact | Drivers/CMSIS/Include/mpu_armv7.h:229-239 | configures just the given region exactly when the base word names none or the same |
| Mpu.BareAddress | Drivers/CMSIS/Include/mpu_armv7.h:229-239 | given an aligned address without the valid bit, sets the given region to it and touches no other |
| Mpu.HistoryOfRows | Drivers/CMSIS/Include/mpu_armv7.h:223-268 | the history of any table: two writes a row in order, the base and then the attributes of the row's region, after all that was there before |
| Mpu.MpuRegisters.ClrRegion | Drivers/CMSIS/Include/mpu_armv7.h:213-217 | zeroes the attributes of one region and changes nothing else |
| Mpu.MpuRegisters.OrderedCpy | Drivers/CMSIS/Include/mpu_armv7.h:246-253 | stores the words in order to consecutive registers inside the window, reading each once |
| Mpu.StreamSetsRows | Drivers/CMSIS/Include/mpu_armv7.h:263-267 | up to four rows streamed through the aliases are as many single region settings, write for write |
| Mpu.MpuRegisters.Load | Drivers/CMSIS/Include/mpu_armv7.h:259-268 | for every table, count and start: the regions, the selection and the ordered history of region writes are those of one SetRegion a row, two writes for each; each table word is read once, in order |
| Mpu.LastRowWins | Drivers/CMSIS/Include/mpu_armv7.h:255-268 | each region a table reaches holds what the last row for it says, also where rows name no region |
| Mpu.OthersKept | Drivers/CMSIS/Include/mpu_armv7.h:255-268 | every other region keeps its base and attributes |
| Mpu.RbarFields | Drivers/CMSIS/Include/mpu_armv7.h:75-78 | the word ARM_MPU_RBAR makes, as a number |
| Mpu.RbarRead | Drivers/CMSIS/Include/mpu_armv7.h:75-78 | what the hardware reads from any base word: bit 4 says whether it names a region, the low four bits which, and the address is the rest without the low five |
| Mpu.RbarReadBack | Drivers/CMSIS/Include/mpu_armv7.h:75-78 | the hardware reads from the macro's word the region modulo 16 and the address without its low five bits |
| Mpu.BuiltTable | Drivers/CMSIS/Include/mpu_armv7.h:75-78 | a table of such words gives each named region its last row and leaves all others, whatever was selected before |
| Mpu.RnrIrrelevant | Drivers/CMSIS/Include/mpu_armv7.h:259-268 | exactly when the old selection does not matter |
| MpuControl.Protection.ArmEnable | Drivers/CMSIS/Include/mpu_armv7.h:188-196 | from any state, MEMFAULTENA is without ENABLE after neither write; both end up set, the other CTRL bits are the argument's, and the other SHCSR bits are kept |
| MpuControl.Protection.ArmDisable | Drivers/CMSIS/Include/mpu_armv7.h:200-208 | from any state, MEMFAULTENA is without ENABLE after neither write; both end up clear, and all other bits of both registers are kept |
| MpuControl.Protection.HalMpuDisable | Drivers/STM32F4xx_HAL_Driver/Src/stm32f4xx_hal_cortex.c:256-266 | the same, but no bit of CTRL is kept |
| MpuControl.Protection.Perform | Drivers/CMSIS/Include/mpu_armv7.h:188-208 | any sequence of calls on the registers passes through the states of the run and no other; MEMFAULTENA is never without ENABLE, and both tell the last call |
| MpuControl.CallSafe | Drivers/CMSIS/Include/mpu_armv7.h:188-208 | from any state, each write of a call leaves MEMFAULTENA clear or ENABLE set, and the call ends with the bits equal |
| MpuControl.RunSafe | Drivers/CMSIS/Include/mpu_armv7.h:188-208 | the same over every run from a safe state, with the other SHCSR bits untouched and both bits telling the last call |
| MpuControl.DisableDefined | Drivers/CMSIS/Include/mpu_armv7.h:200-208 | ARM_MPU_Disable leaves a defined setting exactly when HFNMIENA was clear |
| Itm.Mailbox.ReceiveChar | Drivers/CMSIS/Include/core_cm4.h:2085-2096 | takes what is there, or returns -1, and leaves the mailbox empty |
| Itm.TakenIsPrefix | Drivers/CMSIS/Include/core_cm4.h:2085-2096 | in every run the characters taken are a prefix of those sent, at most one behind |
| Itm.CallerHears | Drivers/CMSIS/Include/core_cm4.h:2079-2096 | the caller hears all that was taken exactly when -1 was not among it |
| Itm.NotHeard | Drivers/CMSIS/Include/core_cm4.h:2079-2096 | a run in which -1 is sent and taken and nothing is heard |
| Itm.AlphabetHeard | Drivers/CMSIS/Include/core_cm4.h:2079-2096 | the caller hears all that is taken in every run over an alphabet exactly when -1 is not in it |
| Itm.ReceiveIsAtomic | Drivers/CMSIS/Include/core_cm4.h:2085-2096 | whatever the writer does in between, a call returns one value, fixed at its test |
| Itm.WriterWaits | Drivers/CMSIS/Include/core_cm4.h:2099-2116 | a full mailbox stays as it is until the reader acts, so a positive check stays true |

## Delay loops

`Drivers/SYSTEM/delay/delay.c` is not UTF-8 text; its functions are cited here by line.

| member | source | states |
|---|---|---|
| Delay.DelayUs | Drivers/SYSTEM/delay/delay.c:220-247 | the loop carries out the polls of the specification, for every schedule of reads |
| Delay.NeverEarly | Drivers/SYSTEM/delay/delay.c:229-245 | it never ends before the requested cycles, nor at once for none, however irregular the reads, wherever the counter stands in its 24 bits, and even if its count wraps |
| Delay.Unmoved | Drivers/SYSTEM/delay/delay.c:232-245 | it does not end while every read finds the first value |
| Delay.Stopped | Drivers/SYSTEM/delay/delay.c:229-246 | on a timer that is off, or at zero with nothing to reload, it never ends |
| Delay.Lateness | Drivers/SYSTEM/delay/delay.c:226-245 | with reads at most `widest` cycles apart, no more than the reload value, and ticks + widest at most 2^32: elapsed cycles are the count plus one per reload seen, and the count overshoots by less than `widest` |
| Delay.Finishes | Drivers/SYSTEM/delay/delay.c:227-246 | under the same condition the loop ends within two reads a tick |
| Delay.FinishesExact | Drivers/SYSTEM/delay/delay.c:227-246 | for each reload value and widest gap, it always does so exactly when ticks + widest is at most 2^32 |
| Delay.Missed | Drivers/SYSTEM/delay/delay.c:220-247 | for any number of reads, a schedule of that many, at most 100 cycles apart, after which a wait of 23860929 microseconds at 180 MHz is not done |
| Delay.DelayUsOnTime | Drivers/SYSTEM/delay/delay.c:220-247 | with reads at most `widest` cycles apart: the cycles of nus microseconds, one more for each time the counter starts over, and less than `widest` on top |
| Delay.DelayUsExact | Drivers/SYSTEM/delay/delay.c:214-247 | for each reload value, no early end from any counter value under any schedule exactly when the product fits in 32 bits |
| Delay.DelayMs | Drivers/SYSTEM/delay/delay.c:254-269 | carries out its chunks and the remainder in turn; no milliseconds take no time |
| Delay.DelayMsNeverEarly | Drivers/SYSTEM/delay/delay.c:254-269 | never early, for every 16-bit duration and every 16-bit clock |
| Delay.DelayMsOnTime | Drivers/SYSTEM/delay/delay.c:254-269 | for all of those: the cycles asked for, one more for each time the counter starts over, and at most a gap between reads for each 65 ms begun |
| Delay.DelayMsEnds | Drivers/SYSTEM/delay/delay.c:254-269 | it ends when each of its calls can make two reads for each tick of a whole chunk |
| Delay.DoneIsDone | Drivers/SYSTEM/delay/delay.c:254-269 | a wait that is done stops: whatever reads could follow make no difference |
| Delay.HalDelay | Drivers/SYSTEM/delay/delay.c:277-280 | waits for the argument modulo 2^16 |
| Delay.HalDelayExact | Drivers/SYSTEM/delay/delay.c:271-280 | for each reload value and clock, never early exactly for arguments below 2^16 |

## Left out

- Barriers (`__DSB`, `__ISB`) are no steps: memory is sequentially consistent in the model.
- Intrinsics and inline assembly have no visible body; `__REV` is taken as byte reversal.
- RASR words are opaque; the packing macros `ARM_MPU_RASR_EX` and `ARM_MPU_ACCESS_` and their variants are not modelled.
- `HAL_MPU_ConfigRegion` and the parameter assertions of the HAL are not modelled.
- Nvic.Controller.EnableIRQ: numbers from 256 up have no register and are excluded, as for the other set and clear functions; numbers 240 to 255 have a bit in the banks although no priority byte.
- Nvic.Controller.SetPriority: numbers below -12 are excluded, as their index lies outside the array or in another exception's slot; the reserved handler slots are treated as storage.
- Nvic.Controller.SetPriorityGrouping: the reset request bits of AIRCR are kept as plain bits and cause no reset.
- Pending bits change through software only; interrupts arriving from peripherals, the active bits and vectors are not modelled.
- Mpu.MpuRegisters.Store: region numbers the device does not implement are stored like any other, and TYPE and CTRL are not among its registers.
- Mpu.MpuRegisters.Load: the count and table index are unbounded numbers, since neither can wrap within a table that exists.
- SysTick.SysTickTimer.Config: COUNTFLAG, CALIB and the reference clock are not modelled; the exception is counted when raised, not when served.
- Delay.DelayUs: a schedule is a finite list of reads, so a loop that never ends is one that is not done after any list.
- HalTick.TimeBase.InitTick: no time passes between its register writes; SysTick.SysTickTimer.Config itself allows for it.
- HalTick.TimeBase.HalDelay: the exception is served at the cycle it is raised; masking it, and `HAL_SuspendTick`, are not modelled.
- The versions of the delays for an operating system differ in the scheduler calls, which are not part of this model.
- `ITM_SendChar` and `__NVIC_SystemReset` wait on hardware without a bound.
- HAL drivers, file system, USB and network stacks.
