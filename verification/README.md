# Verified model of the nRF52 board support: flash driver and SysTick busy-wait

A Dafny model of two parts of the board support package, with proofs about whole runs.

**The on-chip flash driver** (`libraries/drivers/drv_flash.c`) reads, writes and erases 512 KB of NOR flash.
`Nvmc.dfy` is its environment: an array of words, a log of bus accesses, and the three `nrfx_nvmc` calls.
`FlashDriver.dfy` holds the C functions as methods and their meaning on flash states (`After`, `Result`,
`Trace`). Each method is proved to have that meaning for every 32-bit address and size, including sums that
wrap and empty ranges; nothing is assumed of the arguments except that the buffer has `size` bytes.
`FlashHistory.dfy` proves that any run leaves what a reference says that looks only at the calls, the initial
contents and which page erases fail. `FlashCalls.dfy` states every single call for all arguments in plain
arithmetic, down to the bit; `FlashTheorems.dfy` gives page ranges, round trips and splitting, `FlashSafety.dfy`
the addresses touched, and `FalPartition.dfy` the FAL partition layer on top and the exact conditions under
which a call keeps to its window.

**The SysTick busy-wait and tick** (`board/board.c`). `SysTick.dfy` is the hardware counter of section B3.3 of
the ARMv7-M Architecture Reference Manual with its closed form. `Delay.dfy` accounts for what the sampled
differences add up to under every sampling schedule. `Board.dfy` holds the C functions as methods of a class
with the registers as fields, and `PosixDelay.dfy` the callers in the C library layer.

LOAD, the clock and the sampling schedule are symbolic. The members named after the board take LOAD 640000,
its value at 64 MHz and 100 ticks per second.

## Assumed environment

- The `nrfx_nvmc` functions are not in the repository. They are assumed to do what the contracts of
  `Nvmc.WordsWrite`, `Nvmc.BytesWrite` and `Nvmc.PageErase` say: a word keeps the bits set in both values, the
  unused bytes of a partial word are padded with 0xFF, a page erase sets its page to 0xFF or fails and changes
  nothing, and an erase outside the flash is refused. `Environment.eraseSucceeds` decides which erases fail.
- A byte is its eight bits (`FlashWords.Byte`), a word four bytes with the lowest address first.
- `BSP_USING_ON_CHIP_FLASH` is not set in the committed `rtconfig.h`; the driver is modelled as if it were.
- `long`, `size_t` and `unsigned long` are 32 bits wide, as on the Cortex-M4.
- The tick interrupt is taken in the cycle that pends it; time spent in other interrupts is part of the gap
  between two samples.

## What turned out not to hold unconditionally

- `mcu_flash_erase` with size 0 erases the whole page around an address that is not page-aligned, and returns
  an error at the very end of the flash (`EraseOfNoBytes`, `WhenEraseStaysOnItsPages`).
- The range checks of the driver and of FAL add in 32 bits; they are exact only when the sum does not wrap
  (`RangeCheckExactIff`, `NeverStraysIff`, `IsolatedCallIff`, `WhenConfined`, `BoundsCheckCounterexample`).
  `FlashCalls.EraseExactly` says what an erase does whose range wraps.
- `rt_hw_us_delay` computes `us * reload` in 32 bits. At 64 MHz the wait lasts the requested time exactly for
  requests up to 6710 microseconds (`BoardLongEnoughIff`; `LongEnoughIff` for any LOAD), `mdelay` up to 6
  milliseconds (`BoardMillisecondsIff`). From 6711 to 13421 microseconds the target is 429497 counts short, so
  `mdelay(10)` counts to 210503 (`BoardWrappedTarget`). `sleep` before the scheduler runs always ends early
  (`Sleep`).
- The counter period is LOAD + 1 cycles while the configuration writes clock / rate, so each tick comes one
  cycle later than nominal (`TickSchedule`), and the wait loses one cycle per reload (`Accounting`).
- The comments call the units of read, write and erase a word; read takes any address and size, write any size
  at a word address, erase whole pages. The model follows the code.

## Model

| member | source | states |
|---|---|---|
| NvmcDevice.Nvmc.WordsWrite | libraries/drivers/drv_flash.c:112-116 | the words path: each of the bytes becomes old AND new and no other byte changes, for any word address, with the word accesses made |
| NvmcDevice.Nvmc.BytesWrite | libraries/drivers/drv_flash.c:107-111 | the bytes path has the same effect on contents as the words path, including a partial last word whose unused bytes stay as they were |
| NvmcDevice.Nvmc.PageErase | libraries/drivers/drv_flash.c:147-152 | assumed page erase: page set to ones or nothing changed and failure reported |
| NvmcDevice.StoreMirrors | libraries/drivers/drv_flash.c:114 | storing one word is, on the byte image, ANDing its four bytes at its address, whether or not the address is flash |
| NvmcDevice.LastPartialWord | libraries/drivers/drv_flash.c:107-111 | whole words followed by one padded word program exactly the buffer |
| NorMemory.ProgrammedSplits | libraries/drivers/drv_flash.c:107-116 | programming two consecutive pieces is programming their concatenation, also round the end of the address space |
| FlashDriver.McuFlashRead | libraries/drivers/drv_flash.c:56-73 | for all arguments: rejection leaves the buffer alone, otherwise the buffer receives the bytes at the addresses and nothing past `size` changes; flash unchanged; exact access trace. What `Result` is, rejected reads included, `FlashCalls.ReadExactly` says |
| FlashCalls.ReadExactly | libraries/drivers/drv_flash.c:56-73 | for all arguments: if address plus size modulo 2^32 exceeds 512 KB the result is -RT_EINVAL with nothing delivered; otherwise `size` bytes, the i-th from address plus i, and `size` as a 32-bit int; the flash never changes |
| FlashCalls.ReadLoads | libraries/drivers/drv_flash.c:67-70 | for all arguments: one byte load per byte, in address order, or none if rejected |
| FlashDriver.McuFlashWrite | libraries/drivers/drv_flash.c:86-118 | for all arguments: new flash state, result code and access trace as specified, whichever path is taken; `FlashCalls.WriteExactly` and `WriteBits` say what they are |
| FlashDriver.McuFlashErase | libraries/drivers/drv_flash.c:130-156 | for all arguments: new flash state, result code and access trace as specified, including rejected, failing and wrapping cases; `FlashCalls.EraseRejected` and `EraseExactly` say what they are |
| FlashDriver.ErasePages | libraries/drivers/drv_flash.c:145-153 | the erase loop stops at the first failing or non-existent page and has erased exactly the pages before it |
| FlashDriver.PagesErasedIsRange | libraries/drivers/drv_flash.c:145-147 | erasing page by page erases one contiguous byte range |
| FlashDriver.MakeCalls | libraries/drivers/drv_flash.c:56-156 | making any sequence of calls on the device gives exactly the state, the outcomes and the bus accesses of the run specification |
| FlashHistory.RunIsHistory | libraries/drivers/drv_flash.c:56-156 | after any run, including rejected calls and erases that fail part way, each byte is the AND of everything accepted there since its page was last erased, over ones or over its initial value; the right-hand side looks only at the calls, the initial byte and which page erases fail |
| FlashHistory.LastResetIsLast | libraries/drivers/drv_flash.c:142-153 | the history's reset point is the last call that erased the byte's page |
| FlashHistory.WrittenSinceBits | libraries/drivers/drv_flash.c:107-116 | a bit of the accumulated byte is set if and only if every write that reached the byte had it set |
| FlashHistory.RunBits | libraries/drivers/drv_flash.c:56-156 | bit by bit, after any run: a bit is set if and only if every accepted write to its byte since its page was last erased had it set and, if it never was erased, it was set to begin with |
| FlashHistory.ReadReturnsHistory | libraries/drivers/drv_flash.c:61-72 | every read inside the flash, after any run, returns that content byte for byte and full size |
| FlashHistory.OnlyTheSetOfWritesMatters | libraries/drivers/drv_flash.c:86-118 | between erases, runs with the same set of writes end in the same state: order, repetition, overlap and interleaved reads do not matter |
| FlashHistory.BitsOnlyClear | libraries/drivers/drv_flash.c:77-78 | without an erase, a bit set after a run was set before it |
| FlashCalls.WriteExactly | libraries/drivers/drv_flash.c:88-116 | for all arguments, wrapping ones too: accepted if and only if non-empty, word-aligned and in range modulo 2^32; then the byte at distance i from the address is old AND new and no other byte changes; otherwise nothing changes and the result is the error of the check that failed |
| FlashCalls.WriteStores | libraries/drivers/drv_flash.c:107-116 | for all arguments: one word store for each word of the range, in address order, or none if rejected |
| FlashCalls.WriteBits | libraries/drivers/drv_flash.c:107-116 | for all arguments of an accepted write: each single bit is set afterwards if and only if it was set before and is set in every buffer byte that lands on it |
| FlashCalls.EraseRejected | libraries/drivers/drv_flash.c:136-140 | for all arguments: if address plus size modulo 2^32 exceeds 512 KB the result is -RT_EINVAL, and nothing is erased or accessed |
| FlashCalls.EraseExactly | libraries/drivers/drv_flash.c:136-155 | for all other arguments, empty and wrapping ranges too, and every k: if the k-th following page erase is the first to fail, exactly the first k pages are ones and every other byte is unchanged; the size is returned if and only if those are all the pages, else the error |
| FlashCalls.EraseAccesses | libraries/drivers/drv_flash.c:145-153 | one page erase per page, in order, up to the first that fails or does not exist |
| FlashCalls.EraseBits | libraries/drivers/drv_flash.c:145-153 | each bit of an erased page is set, each other bit is as before |
| FlashTheorems.EraseSucceeds | libraries/drivers/drv_flash.c:142-155 | a returned size means the whole page range is ones and nothing else changed |
| FlashTheorems.SmallestPageRange | libraries/drivers/drv_flash.c:31-43 | that page range is the smallest page-aligned range containing the request |
| FlashTheorems.PagesOfRange | libraries/drivers/drv_flash.c:142-143 | first page and page count computed by the driver are those of the pages the range meets |
| FlashTheorems.EraseSplits | libraries/drivers/drv_flash.c:142-153 | erasing [a,b) then [b,c) equals erasing [a,c), also when b is inside a page |
| FlashTheorems.EraseOfNoBytes | libraries/drivers/drv_flash.c:136-155 | what an accepted erase of size 0 does at every address: page count, contents and result |
| FlashTheorems.WhenEraseStaysOnItsPages | libraries/drivers/drv_flash.c:136-153 | for all arguments, wrapping ones too, an erase changes only pages meeting its range, whatever the flash and failures, if and only if it is rejected, non-empty or page-aligned |
| FlashTheorems.ErasedPagesOnly | libraries/drivers/drv_flash.c:142-153 | for all arguments, a byte an erase changes lies on one of the existing pages the driver computed |
| FlashTheorems.ReadBackIff | libraries/drivers/drv_flash.c:67-70 | reading back a write gives the buffer if and only if every bit set in the buffer was set in the flash |
| FlashTheorems.EraseWriteRead | libraries/drivers/drv_flash.c:56-156 | erase, write, read returns the buffer |
| FlashTheorems.WriteSplits | libraries/drivers/drv_flash.c:95-116 | cutting a write at a word boundary changes nothing, whichever path each part takes |
| FlashTheorems.WriteCutOffWord | libraries/drivers/drv_flash.c:95-101 | cutting elsewhere loses the second part, which is rejected |
| FlashTheorems.ChunkedWrite | libraries/drivers/drv_flash.c:95-116 | any chunking on word boundaries equals one write |
| FlashSafety.RangeCheckExactIff | libraries/drivers/drv_flash.c:61 | the range check is the true comparison if and only if the sum does not wrap into the flash |
| FlashSafety.ReadSafety | libraries/drivers/drv_flash.c:61-70 | a read touches only flash if and only if it is rejected or its end does not wrap |
| FlashSafety.WriteSafety | libraries/drivers/drv_flash.c:88-116 | a write programs only flash words if and only if it is rejected or its end does not wrap |
| FlashSafety.EraseSafety | libraries/drivers/drv_flash.c:136-153 | for all arguments, an erase addresses only flash pages if and only if it is rejected, or starts in the flash and computes only existing pages or fails on one of them |
| FlashSafety.EraseAlwaysInFlashIff | libraries/drivers/drv_flash.c:136-153 | for all arguments: an erase addresses only flash pages, whatever the contents and failures, if and only if it is rejected or every page it computes exists |
| FlashSafety.NoWrapPagesExist | libraries/drivers/drv_flash.c:31-43 | for a range that does not wrap, that condition is the start address alone |
| FlashSafety.NeverStraysIff | libraries/drivers/drv_flash.c:56-156 | for every call, the guard a caller can check is exactly what keeps all its accesses in the flash |
| FlashSafety.RunStaysInFlash | libraries/drivers/drv_flash.c:56-156 | no run of calls that meet the guard ever reads, programs or erases outside the flash |
| FalPartition.FalFlashRead | libraries/drivers/drv_flash.c:164-167 | the read wrapper adds the device address to the offset |
| FalPartition.FalFlashWrite | libraries/drivers/drv_flash.c:169-172 | the write wrapper adds the device address to the offset |
| FalPartition.FalFlashErase | libraries/drivers/drv_flash.c:174-177 | the erase wrapper adds the device address to the offset |
| FalPartition.PartitionRead | rt-thread/components/fal/src/fal_partition.c:401-429 | for all arguments: what `FalPartition.PartitionRejects` and `PartitionPasses` say: -1 beyond the bound, otherwise the driver read at the offset |
| FalPartition.PartitionWrite | rt-thread/components/fal/src/fal_partition.c:442-470 | for all arguments: what `FalPartition.PartitionRejects` and `PartitionPasses` say: -1 beyond the bound, otherwise the driver write at the offset |
| FalPartition.PartitionErase | rt-thread/components/fal/src/fal_partition.c:482-509 | for all arguments: what `FalPartition.PartitionRejects` and `PartitionPasses` say: -1 beyond the bound, otherwise the driver erase at the offset |
| FalPartition.PartitionRejects | rt-thread/components/fal/src/fal_partition.c:409-413 | for every partition and call: if address plus size modulo 2^32 exceeds the length the result is -1, nothing is delivered, changed or accessed |
| FalPartition.PartitionPasses | rt-thread/components/fal/src/fal_partition.c:442-470 | every other call is, in contents, result and accesses, the driver call with the offset added modulo 2^32 |
| FalPartition.FilesystemBounds | board/fal_cfg.h:33 | for calls that do not wrap: those within 120 KB are the driver calls at 224 KB plus the address, all others return -1 |
| FalPartition.PartRunIsDriverRun | rt-thread/components/fal/src/fal_partition.c:401-509 | any run of calls on any partition has the contents and accesses of the driver run of its in-bound calls, so every result about driver runs holds for it |
| FalPartition.PartitionEraseAll | rt-thread/components/fal/src/fal_partition.c:519-522 | erasing all is erasing the partition's whole length: state, result and accesses |
| FalPartition.IsolatedCallIff | rt-thread/components/fal/src/fal_partition.c:401-509 | for every call, wrapping ones too: it changes no byte outside the window, whatever the flash and failures, if and only if it meets the guard `KeepsOutside` |
| FalPartition.NoWrapKeepsOutside | rt-thread/components/fal/src/fal_partition.c:401-509 | every call whose range does not wrap meets that guard |
| FalPartition.PartitionIsolation | rt-thread/components/fal/src/fal_partition.c:401-509 | no run of calls that meet the guard, failures, rejections and empty ranges included, changes a byte outside a page-aligned window |
| FalPartition.FilesystemIsolation | board/fal_cfg.h:33 | the same for the board's file system window, 224 KB to 344 KB, for calls that do not wrap or meet the guard |
| FalPartition.ReadsConfined | rt-thread/components/fal/src/fal_partition.c:401-429 | a partition read touches only the window if and only if it is rejected or does not wrap |
| FalPartition.WritesConfined | rt-thread/components/fal/src/fal_partition.c:442-470 | a partition write touches only the window if and only if it is rejected by either layer or does not wrap |
| FalPartition.ErasesConfined | rt-thread/components/fal/src/fal_partition.c:482-509 | a non-wrapping partition erase, failing ones included, addresses only pages of the window if and only if it is rejected, not empty, or not right at the end of the flash |
| FalPartition.WhenConfined | rt-thread/components/fal/src/fal_partition.c:401-509 | for every call, wrapping ones too: it touches only the window, whatever the flash and failures, if and only if it meets the guard `Confined`; for an erase, that every page it computes is in the window |
| FalPartition.FilesystemConfined | board/fal_cfg.h:33 | for the file system window every call that does not wrap meets that guard, empty erases at its end included |
| FalPartition.RunConfined | rt-thread/components/fal/src/fal_partition.c:401-509 | no run of calls that meet the guard reads, programs or erases any address outside the window |
| FalPartition.BoundsCheckCounterexample | rt-thread/components/fal/src/fal_partition.c:450-454 | the concrete wrapping write that passes the bounds check and programs the word just below the window |
| FalPartition.InBound | rt-thread/components/fal/src/fal_partition.c:409-422 | inside its bounds a page-aligned partition is the flash moved by the offset: contents, result and accesses |
| FalPartition.PartitionRoundTrip | rt-thread/components/fal/src/fal_partition.c:401-509 | erase, write, read through the partition returns the buffer |
| SysTick.CyclesConserve | board/board.c:44-48 | after any number of cycles, reloads, phase and pended ticks balance the elapsed cycles exactly |
| SysTick.ClosedForm | board/board.c:44-48 | VAL and the reload count after n cycles from any phase, by remainder and quotient of the period LOAD + 1 |
| SysTick.TicksPended | board/board.c:36-50 | n cycles after the configuration exactly n / (LOAD + 1) ticks have been raised |
| SysTick.TickSchedule | board/board.c:45-48 | the k-th tick comes at cycle k * LOAD + k: its lag behind the nominal rate grows by one cycle per tick |
| SysTick.TicksNeverAhead | board/board.c:23-48 | the tick count never exceeds the nominal one |
| SysTick.TicksFromAnyPhase | board/board.c:23-48 | from any phase, n cycles raise exactly (n plus the cycles since VAL was last 0) / (LOAD + 1) ticks |
| Delay.ObservedGap | board/board.c:67-77 | one pass adds the true gap minus one cycle per reload minus LOAD per whole period slept through, for every gap |
| Delay.Accounting | board/board.c:64-85 | for every schedule, the count is the true elapsed time minus reloads minus what whole periods hide |
| Delay.AccountingExactIff | board/board.c:64-85 | the count is the elapsed time minus reloads if and only if no gap exceeds LOAD |
| Delay.CountInTicks | board/board.c:23-85 | the same in ticks raised, with the exact phase correction |
| Delay.CountGrows | board/board.c:66-78 | the count starts at zero and never falls |
| Delay.NeverShorter | board/board.c:63-83 | under every schedule the wait takes at least the target plus one cycle for each full period before its end |
| Delay.DelayBounds | board/board.c:63-83 | with gaps of at most `longest` up to LOAD, every wait for every target lies in a window one gap wide above that |
| Delay.LowerBoundReached | board/board.c:63-83 | the lower end is attained for every positive target, from VAL = LOAD with single-cycle samples |
| Delay.UpperBoundReached | board/board.c:63-83 | the upper end is attained for every target and every longest gap of 1 to LOAD, from VAL = 0 |
| Delay.PassProgressIff | board/board.c:67-78 | for every gap: a pass sees VAL change if and only if the gap is not whole periods, and counts something if and only if, further, it is not the one cycle from 0 |
| Delay.MovesAre | board/board.c:67-68 | over any schedule, the samples that find VAL changed are those whose gap is not whole periods |
| Delay.WholePeriodsNeverEnd | board/board.c:65-68 | samples whole periods apart never see the counter move, so the loop cannot end |
| Delay.LeavesAtFirst | board/board.c:65-83 | the loop leaves at sample k if and only if k is the first to find VAL changed and the target reached |
| Delay.ZeroTargetLeavesAt | board/board.c:65-83 | for a target of 0: if and only if k is the first sample whose gap is not whole periods |
| Delay.LeavesOnce | board/board.c:65-83 | a schedule has at most one sample at which the loop leaves |
| Delay.TargetExactIff | board/board.c:63 | the 32-bit target is that of the product modulo 2^32, for every product; it is the exact one if and only if the product fits, and else at least 429496 smaller |
| Delay.WrappedTarget | board/board.c:63 | if the product is q * 2^32 + r, the target is r / 10000 |
| Delay.BoardWrappedTarget | board/board.c:63 | at 64 MHz the target for 6711 to 13421 microseconds is 64 per microsecond less 429497 |
| Delay.BoardTakes | board/board.c:57-85 | at 64 MHz, up to 13421 microseconds: the cycles a wait takes, in and beyond the range without a wrap |
| Delay.PassStaysIn32Bits | board/board.c:68-77 | for every 32-bit request and 24-bit LOAD no subtraction or addition of the loop wraps |
| Delay.LongEnoughIff | board/board.c:57-85 | for every LOAD: the wait lasts the requested time if and only if the product of request and LOAD fits in 32 bits |
| Delay.BoardLongEnoughIff | board/board.c:57-85 | at 64 MHz: if and only if at most 6710 microseconds are requested, and then overshoots by at most one gap |
| BoardSupport.Board.SysTickHandler | board/board.c:23-32 | one tick per interrupt, wrapping at 2^32 |
| BoardSupport.Board.SysTickConfiguration | board/board.c:36-50 | LOAD is clock / rate in its 24 bits, 640000 at 64 MHz, VAL is cleared, the tick is kept; the counter runs if and only if LOAD is not 0 |
| BoardSupport.Board.Sample | board/board.c:67-83 | for any gap, the loop body adds exactly the observed difference and leaves exactly when VAL changed and the target is reached |
| BoardSupport.Board.Wait | board/board.c:64-84 | for every schedule: the loop leaves at the sample the specification says, or has not left by the schedule's end, and then fewer than 2 * max(ticks, 1) samples found VAL changed |
| BoardSupport.Board.RtHwUsDelay | board/board.c:57-85 | the same from the microseconds, with hardware state, elapsed cycles and kernel ticks on return; enough gaps that are not whole periods make it end |
| PosixDelay.UDelay | rt-thread/components/libc/posix/delay/delay.c:33-36 | true cycles of one wait, between the least for the product modulo 2^32 and one gap more; at 64 MHz in numbers up to 13421 microseconds; as long as requested if and only if the product fits in 32 bits |
| PosixDelay.MDelay | rt-thread/components/libc/posix/delay/delay.c:27-30 | the same for milliseconds from the whole product modulo 2^32; at 64 MHz in numbers up to 13 milliseconds; as long as requested if and only if the whole product fits |
| PosixDelay.MillisecondsTarget | rt-thread/components/libc/posix/delay/delay.c:27-30 | multiplying milliseconds in 32 bits first gives the same target as the whole product modulo 2^32 |
| PosixDelay.Sleep | rt-thread/components/libc/posix/delay/delay.c:45-61 | for every LOAD, before the scheduler runs: the true cycles of all waits; at least as long as requested if and only if LOAD is at most 4294; at 64 MHz always shorter |
| PosixDelay.SecondsLongEnoughIff | rt-thread/components/libc/posix/delay/delay.c:45-61 | the sleep of one or more seconds is long enough if and only if a million times LOAD fits in 32 bits |
| PosixDelay.SleepEndsEarly | rt-thread/components/libc/posix/delay/delay.c:45-61 | at 64 MHz it ends early for every gap up to a whole period |
| PosixDelay.MillisecondsLongEnoughIff | rt-thread/components/libc/posix/delay/delay.c:27-30 | for every LOAD, a millisecond delay is long enough if and only if the whole product fits in 32 bits, also when the millisecond product alone wraps |
| PosixDelay.BoardMillisecondsIff | rt-thread/components/libc/posix/delay/delay.c:27-30 | at 64 MHz: if and only if at most 6 milliseconds are requested |

## Left out

- LongEnoughIff: for schedules whose overhead, one gap plus one cycle per full period, is below 429496 cycles, since a longer final gap can make up for a wrapped target. The same holds for the microsecond, millisecond and second forms of it.
- DelayBounds: the upper end is for gaps of at most LOAD; longer gaps hide whole periods (`Accounting` says how many cycles), and the lower end holds for them too (`NeverShorter`).
- Sleep: only the branch before the scheduler runs; the other one sleeps in the kernel. Each second's schedule must let its wait end.
- RtHwUsDelay: a wait whose LOAD is 0 is not modelled; the counter then stands still.
- The flash array is a sequence field of the device rather than a C array, because the driver reaches it only through the bus and the nrfx calls; aliasing of a read buffer with flash is not modelled.
- The flash device lookup by name, the partition table and the logging of FAL: assumed to find the on-chip flash.
- The MTD NOR adapter and littlefs above FAL: plumbing.
- Clock, interrupt controller and console set-up in `rt_hw_board_init`, and the scheduling work of `rt_tick_increase`: no arithmetic to prove.
- Flash wear, program and erase time, and concurrent callers of the flash driver: the code has no locking or timing logic.
- Writing LOAD while VAL is larger than the new LOAD: the configuration clears VAL.
