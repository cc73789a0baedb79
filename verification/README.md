# Verification of MCUSim

MCUSim simulates 8-bit AVR microcontrollers.  This project models the parts of it
that keep state from call to call and proves what they do, for all inputs and over
whole runs.  Each part is a method on arrays or fields, in the steps of the C code,
proved against functions on values; lemmas about those functions state what the code
is for.

| Files | Part of MCUSim |
|---|---|
| `PermuteArgs`, `OptionGrammar`, `GetoptParse`, `CommandLines`, `Getopt` | command line scan: the in-place exchange of argument blocks by cycles, option matching, and a whole scan against a one-pass parser, which reads back every command line that can be written |
| `Timer`, `TimerRuns`, `TimerRange`, `TimerTables`, `TimerPwm`, `TimerPins` | timer/counter: one update as a program, closed forms and range of the counter, its mode tables, the waveforms of every pin operation, compare and overflow interrupts |
| `Tsq`, `TsqThreads` | queue between two threads: the ring, and the threads' steps in any interleaving |
| `Core`, `SimCore`, `CoreRuns`, `Instructions`, `IrqFlags`, `ReturnRuns`, `Brackets`, `NestedRuns` | simulation cycle: stack, calls and returns, instructions of several cycles, interrupts |
| `Sreg` | status register: wide arithmetic out of byte instructions |
| `Rsp`, `RspFrames` | packets of the GDB remote serial protocol |
| `IHex`, `IHexLines`, `Flash`, `FlashFiles`, `FlashLimit` | Intel HEX records, and flash saved to and loaded from them |
| `Vcd`, `VcdReplay` | value change dump and its replay |
| `Basics`, `Arithmetic` | bytes, words and optional values; facts about quotients and products |

Notation: a module's functions describe a step of the program; `Keeps`, `Next` and
similar lemmas say what one step does, and the lemma at the end of a file is about
runs.  Files and connections are sequences of characters or bytes.

## What the code does otherwise than one expects

Each of these is a lemma of the project with its exact condition.

- An abbreviation that is ambiguous is reported even if a later entry of the table
  matches exactly (`OptionGrammar.ExactFoundIff`, `OptionGrammar.ExactShadowed`).
- A letter cluster that ends in `-`, without long options, ends the scan if it is read as
  an option (`GetoptParse.IncompleteIff`); the vector is then partitioned exactly if
  nothing was skipped before (`Getopt.ScanAll`, `Getopt.TrailingDashStops`).
- With long options, a dash inside a cluster of letters begins a long option: "-a-name" is
  "-a --name" (`CommandLines.ClusterParsed`).
- `update_wgm_buffers` stops at the first empty mode, so the TOP of modes behind
  one is never loaded (`TimerRuns.TopLoadedIff`); in modes 14 and 15 of timer 1 of the
  ATmega8A and ATmega328P the counter stays at 0 (`TimerTables.Timer1Loaded`,
  `TimerTables.Timer1Stuck`).
- With prescaler 1 no compare flag is ever raised (`TimerPwm.NeverRaised`); dual-slope
  PWM has its duty exactly for 3 <= OCR <= TOP - 3, or by chance if the counter never
  matches (`TimerPwm.DualSlopeDutyIff`).
- The counter can be left above TOP: by a stopped or disabled timer, which loads TOP at
  once; by a mode that loads it one count before the old TOP; by a dual-slope TOP of 0; by a
  single-slope counter at 0 that counts down, since a change of mode does not reset the
  direction; by a write to a TOP register that is not buffered; and by selecting a mode with
  a lower TOP.  Apart from writes to the counter itself these are all the ways, each with its
  condition (`TimerRange.UpdateInRangeIff`, `TimerRange.WriteInRangeIff`,
  `TimerRange.CounterInRangeIff`).
- A stop in the middle of a fast PWM period loads the compare value, and can leave the pin
  wrong until the next BOTTOM (`TimerPwm.StopFollowsIff`).
- In dual slope a compare value of 1 is matched on the way up in the first period only, and
  values from TOP - 1 on never on the way down (`TimerPwm.DualInterruptInstants`).
- CPC keeps its result wider than a byte: its flags are those of SBC except in one case,
  which a chain begun by CP never meets (`Sreg.CpcLikeSbc`, `Sreg.WideCompare`).
- The first pass of the flash loader reads on behind the end-of-file record, the second does
  not (`FlashFiles.PastEndUnverified`).  A line that is not read, such as an empty one, ends
  both passes, and the load still succeeds (`FlashFiles.BrokenLineHides`).
- An enabled interrupt whose flag the access mask of its register keeps from being cleared is
  requested anew in every cycle (`IrqFlags.FlagsBecomeRequests`).
- Flash that is saved and loaded again is restored if and only if it is no more than 64 KiB,
  since longer addresses have five digits (`FlashLimit.RestoresIff`).
- A packet with a byte 0xFF, or too long for the buffer, is never received
  (`RspFrames.ReceivedIff`).
- Opening a value change dump prints values but does not keep them, so that the
  first frame can miss a change (`VcdReplay.FirstFrameExact`, `VcdReplay.FirstFrameMisses`).

## Model

| member | source | states |
|---|---|---|
| PermuteArgs.ComputeGcd | src/msim_getopt.c:119-132 | Euclid's loop yields the gcd. |
| PermuteArgs.GcdGreatest | src/msim_getopt.c:119-132 | It divides both numbers, and every common divisor divides it. |
| PermuteArgs.GcdBezout | src/msim_getopt.c:119-132 | It is a sum of multiples of both numbers. |
| PermuteArgs.CycleFacts | src/msim_getopt.c:139-169 | Each cycle has total/gcd slots, and the blocks are multiples of the gcd. |
| PermuteArgs.CycleOrder | src/msim_getopt.c:139-169 | Two steps of a cycle reach the same slot exactly when they are equal modulo its length. |
| PermuteArgs.CyclesDisjoint | src/msim_getopt.c:139-169 | Cycles from different starts have no slot in common. |
| PermuteArgs.CyclesCover | src/msim_getopt.c:139-169 | Every slot lies on the cycle of one of the gcd-many starts. |
| PermuteArgs.CycleCloses | src/msim_getopt.c:139-169 | A cycle returns to its start after its length. |
| PermuteArgs.ExchangeUndone | src/msim_getopt.c:139-169 | Exchanging back the two blocks restores the vector. |
| PermuteArgs.AllCyclesDone | src/msim_getopt.c:139-169 | A vector in which every cycle was followed has its two blocks exchanged. |
| PermuteArgs.FollowCycle | src/msim_getopt.c:154-167 | The inner loop moves the elements of one cycle, and no others, by swaps in place. |
| PermuteArgs.Permute | src/msim_getopt.c:139-169 | The two adjacent blocks are exchanged, each in its order; nothing else changes. |
| OptionGrammar.SyntaxOf | src/msim_getopt.c:306-331 | A leading plus or minus is dropped, nothing else; entries are permuted only if neither that character nor the environment forbids it, and a minus asks for order unless the environment does. |
| OptionGrammar.MatchLong | src/msim_getopt.c:197-228 | The match loop finds what the reference search over exact and abbreviated names finds. |
| OptionGrammar.AbbreviatedMembers | src/msim_getopt.c:197-228 | The candidates of the search are exactly the entries abbreviated by the text, in order. |
| OptionGrammar.ExactFoundIff | src/msim_getopt.c:197-228 | An exact match is found if and only if at most one entry before it is abbreviated by the text. |
| OptionGrammar.ExactShadowed | src/msim_getopt.c:197-228 | A table in which two abbreviated entries hide a later exact one. |
| OptionGrammar.AbbreviationFoundIff | src/msim_getopt.c:197-228 | Without an exact name, an entry is found if and only if it is the only one that is abbreviated, and none if and only if there is none. |
| GetoptParse.SkipsOnlyWhenPermuting | src/msim_getopt.c:365-420 | Only permutation mode skips entries. |
| GetoptParse.SkippedAreNonOptions | src/msim_getopt.c:365-420 | Every skipped entry is a non-option. |
| GetoptParse.ParsePartitions | src/msim_getopt.c:345-509 | The parse sorts the entries into taken, skipped and rest without loss. |
| GetoptParse.ParseIsStable | src/msim_getopt.c:345-509 | The sort is stable: taken and skipped entries are those at two disjoint, increasing lists of indices which together cover everything in front of the rest. |
| GetoptParse.ClusterStallsShape | src/msim_getopt.c:428-460 | Only a cluster that ends in a dash, without long options and the letter '-', stalls. |
| GetoptParse.IncompleteStalls | src/msim_getopt.c:428-460 | An incomplete scan stops in front of an entry that stalls, and one that is at such an entry is incomplete. |
| GetoptParse.ReachedStallStops | src/msim_getopt.c:428-460 | A scan that reads an entry that stalls as an option stops in front of it. |
| GetoptParse.IncompleteIff | src/msim_getopt.c:345-509 | A scan is incomplete if and only if it reads an entry that stalls as an option. |
| CommandLines.SingleRead | src/msim_getopt.c:445-483 | A letter without argument is reported as itself, an unknown one as '?' with optopt; either leaves the rest of its cluster. |
| CommandLines.LetterEndRead | src/msim_getopt.c:484-508 | A letter with one colon has the rest of its cluster or the next entry as argument, or an error if there is none; with two colons only the rest of its cluster. |
| CommandLines.LongRead | src/msim_getopt.c:177-299 | A long option is reported with its value or 0, its index and the argument behind '=' or in the next entry, or as an error: unknown, ambiguous, with an argument it must not have or without one it needs. |
| CommandLines.ClusterParsed | src/msim_getopt.c:428-508 | A cluster reports its letters in order and then the option it ends with, and takes the entries of that. |
| CommandLines.LineParsed | src/msim_getopt.c:345-509 | The round trip: the text of every command line - operands, clusters, long options, ends - is reported as it was meant, in every ordering mode. |
| CommandLines.LineWritten | src/msim_getopt.c:345-509 | Every vector that is scanned to its end is the text of such a command line. |
| CommandLines.CompleteIffLine | src/msim_getopt.c:345-509 | A vector is scanned to its end if and only if it is one. |
| CommandLines.ConfigFile | src/msim_main.c:46-57 | For `mcusim`, "-c file" and "--conf=file" report that file, and "-c" alone the missing operand. |
| Getopt.Scanner.constructor | src/msim_getopt.c:333-344 | A scan that begins at the first argument. |
| Getopt.Scanner.TakeLongOption | src/msim_getopt.c:229-290 | A long option takes its argument after '=' or from the next entry, or reports its lack. |
| Getopt.Scanner.ParseLongOptions | src/msim_getopt.c:177-299 | One long option: result, index, argument and the entries consumed. |
| Getopt.Scanner.ParseLetter | src/msim_getopt.c:445-508 | One option letter: result, argument and what is left of the cluster. |
| Getopt.Scanner.TakeLetter | src/msim_getopt.c:479-508 | A known letter takes its argument from the rest of its cluster or from the next entry, or reports its lack. |
| Getopt.Scanner.MoveSkipped | src/msim_getopt.c:386-391 | The skipped block is exchanged with the options behind it. |
| Getopt.Scanner.AtEnd | src/msim_getopt.c:348-364 | At the end of the vector the skipped block is moved behind the options. |
| Getopt.Scanner.SkipEntry | src/msim_getopt.c:384-396 | A non-option joins the skipped block, moved next to it if options came between. |
| Getopt.Scanner.AtNonOption | src/msim_getopt.c:365-397 | A non-option is reported, skipped or ends the scan, by mode. |
| Getopt.Scanner.AtTerminator | src/msim_getopt.c:405-419 | The entry "--" ends the scan behind it with the vector partitioned. |
| Getopt.Scanner.GetoptInternal | src/msim_getopt.c:345-509 | One call yields the next report of the one-pass parser or ends the scan with the vector partitioned. |
| Getopt.SkipKeeps | src/msim_getopt.c:384-396 | Skipping an entry does not change what the scan amounts to. |
| Getopt.ReportKeeps | src/msim_getopt.c:421-508 | Reporting an option leaves exactly the later reports, or the scan stalls unchanged. |
| Getopt.EndKeeps | src/msim_getopt.c:348-364 | A scan at the end of the vector is partitioned by its last exchange. |
| Getopt.TerminatorKeeps | src/msim_getopt.c:405-419 | So is a scan at "--", which is moved with the options. |
| Getopt.PosixStopKeeps | src/msim_getopt.c:377-383 | In POSIX mode the scan ends in front of the first non-option. |
| Getopt.InOrderKeeps | src/msim_getopt.c:369-376 | In order, a non-option is reported as the argument of code 1. |
| Getopt.ScanAll | src/msim_main.c:97-130 | The results of a whole scan - code, optarg, index and optopt of each call - are the parser's reports on the original vector; the vector ends as options, skipped and rest, exactly unless an entry stalls behind skipped ones. |
| Getopt.CompleteWithoutStalls | src/msim_getopt.c:345-509 | Without entries that stall every scan is complete. |
| Getopt.PartitionRearranges | src/msim_getopt.c:345-509 | A partitioned vector is a rearrangement of the original. |
| Getopt.PartitionIsStable | src/msim_getopt.c:139-169 | It is a stable one: options and their arguments keep their order, and so do the skipped entries; what is in front and behind stays in place. |
| Getopt.TrailingDashStops | src/msim_getopt.c:428-444 | A vector on which a cluster with a trailing dash leaves the scan incomplete. |
| Timer.AvrTimer.UpdateOcrBuffers | src/avr/avr_timer.c:381-405 | Every channel up to the first unused one takes over its register. |
| Timer.AvrTimer.UpdateWgmBuffers | src/avr/avr_timer.c:407-431 | Every mode up to the first empty one takes over its TOP register. |
| Timer.AvrTimer.IntResetPending | src/avr/avr_timer.c:441-455 | No flag stays pending. |
| Timer.AvrTimer.IntRaisePending | src/avr/avr_timer.c:457-476 | Pending flags are raised when the prescaler is about to let the counter move. |
| Timer.AvrTimer.TriggerOcPin | src/avr/avr_timer.c:304-379 | The pin after a compare match or BOTTOM, by operation and direction. |
| Timer.AvrTimer.CompareChannels | src/avr/avr_timer.c:228-251 | Each channel that matches gets its pin and its pending flag. |
| Timer.AvrTimer.TriggerAtBottom | src/avr/avr_timer.c:268-276 | Each channel is driven at BOTTOM. |
| Timer.AvrTimer.HandleTop | src/avr/avr_timer.c:212-226 | One count before TOP, counting up, buffers are loaded and overflow is raised if the mode says so. |
| Timer.AvrTimer.HandleBottom | src/avr/avr_timer.c:253-279 | At BOTTOM buffers are loaded and overflow is raised if the mode says so, and every channel is driven. |
| Timer.AvrTimer.ClockUnits | src/avr/avr_timer.c:211-279 | Buffers, comparison, TOP and BOTTOM of one clock, in that order. |
| Timer.AvrTimer.CounterUnit | src/avr/avr_timer.c:281-300 | The counter's next value and direction. |
| Timer.AvrTimer.ModeNonPwmPwm | src/avr/avr_timer.c:162-302 | One update in a waveform mode. |
| Timer.AvrTimer.UpdateTimer | src/avr/avr_timer.c:83-160 | One update of the timer: undefined, disabled, stopped or clocked. |
| TimerRuns.ClockedStep | src/avr/avr_timer.c:117-300 | What an update of a clocked timer does to each of its components. |
| TimerRuns.PrescalerCountBelow | src/avr/avr_timer.c:117-126 | The prescaler count is below the prescaler after every update, even when the prescaler changed. |
| TimerRange.UpdateInRangeIff | src/avr/avr_timer.c:83-300 | An update, of a running, stopped, disabled or undefined timer, leaves the counter within the TOP then in effect if and only if it fits: a halt does not load a lower TOP, a clock lets the counter turn or wrap, and does not load a TOP below the next count. |
| TimerRange.WriteInRangeIff | src/avr/avr_timer.c:181-186 | Register writes and changes of mode leave it within TOP if and only if a TOP that takes effect at once is not below it. |
| TimerRange.CounterInRangeIff | src/avr/avr_timer.c:83-300 | Over every run with register writes, changes of mode, stops and starts, the counter is always within TOP if and only if every update and every write fits. |
| TimerRange.CounterStaysInRange | src/avr/avr_timer.c:253-296 | Over every run in a mode that loads TOP at BOTTOM, with any writes of a TOP register that is at least 1 in dual slope, and stops at which it is not below the counter, the counter stays within TOP. |
| TimerRange.CountInRangeIff | src/avr/avr_timer.c:281-296 | The next count is within TOP if and only if a dual-slope TOP is not 0, or a single-slope counter counts up, is not 0, or has a TOP of 0 or of all ones. |
| TimerRange.LoadedTop | src/avr/avr_timer.c:407-431 | Loading the buffers makes the register the TOP if and only if it is buffered and no entry up to the mode is empty. |
| TimerRange.StopEscapes | src/avr/avr_timer.c:95-114 | A stop that leaves the counter at 500 above a TOP of 10. |
| TimerRange.EarlyLoadEscapes | src/avr/avr_timer.c:212-226 | A load at TOP - 1 that leaves it at 1000 above a TOP of 10. |
| TimerRange.DownwardEscapes | src/avr/avr_timer.c:289-296 | A single-slope counter that runs from 0 to its last value. |
| TimerRange.DualSlopeTopZeroEscapes | src/avr/avr_timer.c:284-296 | With a dual-slope TOP of 0 the counter jumps from 0 to its last value. |
| TimerRuns.TopLoadedIff | src/avr/avr_timer.c:407-431 | A mode's TOP is loaded if and only if no empty mode stands at or before it. |
| TimerTables.CounterStuck | src/avr/avr_timer.c:407-431 | Over every run in a single-slope mode behind an empty entry, a zero counter stays zero, whatever is written to its TOP register. |
| TimerTables.Timer1Loaded | include/mcusim/avr/sim/m8/m8a.h:128-245 | Of the sixteen modes of timer 1 exactly those up to 12 are loaded. |
| TimerTables.Timer1Stuck | include/mcusim/avr/sim/m328/m328p.h:317-441 | In modes 14 and 15 the counter of timer 1 stays at zero for good. |
| TimerRuns.SingleSlopeCounter | src/avr/avr_timer.c:208-300 | After n updates with prescaler P the counter is (n / P) mod (TOP + 1). |
| TimerRuns.DualSlopeCounter | src/avr/avr_timer.c:208-300 | After n updates the counter is the triangle wave of period 2 * TOP at n / P. |
| TimerPwm.UpdateFollows | src/avr/avr_timer.c:228-279 | BOTTOM starts a correct fast PWM period and every update continues it. |
| TimerPwm.FirmwareFollows | src/avr/avr_timer.c:228-279 | Register writes do not disturb the period. |
| TimerPwm.GlitchFree | src/avr/avr_timer.c:228-279 | Once a BOTTOM has passed, the fast PWM pin is high exactly below the buffered compare value, or always if that is 0, after every later update of the run, with any register writes in between, until the timer is stopped, disabled or given another mode. |
| TimerPwm.HaltedPin | src/avr/avr_timer.c:95-114 | A stopped or disabled timer loads the compare value and leaves counter and pin alone. |
| TimerPwm.StopFollowsIff | src/avr/avr_timer.c:95-114 | After a stop the pin follows at once if and only if the loaded value asks for the level the pin has and the counter is within TOP. |
| TimerPwm.PinExactIff | src/avr/avr_timer.c:318-359 | That is the plain comparison if and only if the compare value is at least 1. |
| TimerPwm.DualSlopeDuty | src/avr/avr_timer.c:240-250 | For 3 <= OCR <= TOP - 3, from the first match on, the pin is low exactly in the phases from OCR to 2 * TOP - OCR. |
| TimerPwm.DualPinOneWay | src/avr/avr_timer.c:328-377 | Nearer to the ends the pin is only ever set, or only ever cleared. |
| TimerPwm.DualSlopeDutyIff | src/avr/avr_timer.c:328-377 | For every compare value, the duty pattern appears if and only if 3 <= OCR <= TOP - 3, or the counter never matches OCR and the pin was at that level before. |
| TimerPwm.RaisingSetsFlag | src/avr/avr_timer.c:457-476 | The raising update sets the flag and leaves nothing pending. |
| TimerPwm.MatchNotLost | src/avr/avr_timer.c:240-246 | With a prescaler of at least 2 a match is raised before the counter moves again. |
| TimerPwm.InterruptInstants | src/avr/avr_timer.c:457-476 | In single slope the flag is raised at exactly one update in each period, and at no other. |
| TimerPwm.DualInterruptInstants | src/avr/avr_timer.c:240-246 | In dual slope it is raised at two updates in each period, but for OCR = 1 on the way up only in the first, and for OCR >= TOP - 1 not on the way down. |
| TimerPwm.RaisedIff | src/avr/avr_timer.c:457-476 | In both, it is raised by the last update but one of every clock that matches. |
| TimerPwm.OverflowInstants | src/avr/avr_timer.c:211-265 | The overflow flag is raised at exactly one update in each period, at TOP or BOTTOM by mode; in dual slope up to 1 at most once. |
| TimerPwm.InstantsApart | src/avr/avr_timer.c:457-476 | Such updates are one period apart. |
| TimerPwm.NoInterruptWithoutPrescaler | src/avr/avr_timer.c:463-463 | An update with prescaler 1 raises no flag. |
| TimerPwm.NeverRaised | src/avr/avr_timer.c:457-476 | Over any number of updates with prescaler 1 no flag is raised. |
| TimerPins.PinInverts | src/avr/avr_timer.c:304-379 | The operations come in pairs: on the opposite level, the one that sets for clearing does the opposite. |
| TimerPins.StepInverts | src/avr/avr_timer.c:83-302 | An update of a timer with a channel inverted in this way is the inverted update. |
| TimerPins.RunInverts | src/avr/avr_timer.c:83-302 | So is every run with register writes. |
| TimerPins.InvertingGlitchFree | src/avr/avr_timer.c:318-359 | Set on match and cleared at BOTTOM, the fast PWM pin is low exactly where the other one is high, over every such run. |
| TimerPins.InvertingDuty | src/avr/avr_timer.c:328-377 | Set on the way up and cleared on the way down, the dual-slope pin is high exactly in the phases from OCR to 2 * TOP - OCR. |
| TimerPins.ToggleWave | src/avr/avr_timer.c:318-324 | Toggling inverts the pin once per match on the way up, in single and dual slope, whose number up to an update is given. |
| TimerPins.ClearedForGood | src/avr/avr_timer.c:318-377 | Clearing on match leaves the pin as it was up to the first match and low from then on; so do the operations that set at BOTTOM or on the way down, in modes that never get there. |
| TimerPins.SetForGood | src/avr/avr_timer.c:334-343 | Setting on match leaves the pin as it was up to the first match and high from then on. |
| TimerPins.PinUntouched | src/avr/avr_timer.c:312-316 | A disconnected channel, or one whose pin is no output, never moves its pin. |
| TimerPins.ValueTaken | src/avr/avr_timer.c:381-405 | A compare value takes effect at the first TOP, one count early, or the first BOTTOM, by mode, and not before. |
| TimerPins.ComparedValue | src/avr/avr_timer.c:211-251 | A value loaded one count before TOP is compared at once, one loaded at BOTTOM at the next clock. |
| TimerPins.PauseRestarts | src/avr/avr_timer.c:92-126 | After an update without a clock the counter stays for a whole prescaler period. |
| TimerPins.FreeRunning | src/avr/avr_timer.c:128-134 | A timer without mode bits counts through all its values. |
| Tsq.Queue.constructor | src/msim_tsq.c:66-71 | A new queue is empty. |
| Tsq.Queue.Store | src/msim_tsq.c:145-151 | The fields afterwards; a ring that is not full gets the message at the end of its contents, and the slot keeps its bytes beyond the length. |
| Tsq.Queue.Take | src/msim_tsq.c:185-191 | The fields afterwards and the bytes taken, which begin the oldest slot; a ring that is not empty loses that slot from its contents. |
| Tsq.StoreAppends | src/msim_tsq.c:145-151 | Storing appends to the contents of the ring. |
| Tsq.TakeRemoves | src/msim_tsq.c:185-191 | Taking removes the first of the contents. |
| Tsq.FullAndEmpty | src/msim_tsq.c:135-175 | The code's tests for full and empty say that the length is the size, or 0. |
| TsqThreads.StepKeepsInv | src/msim_tsq.c:122-200 | Every step of either thread keeps the invariant of queue, mutex and conditions. |
| TsqThreads.RunKeepsInv | src/msim_tsq.c:122-200 | So does every interleaving. |
| TsqThreads.FirstInFirstOut | src/msim_tsq.c:122-200 | In every interleaving the messages taken are a prefix of those stored, and tail = (head + length) mod SIZE, length <= SIZE. |
| TsqThreads.CallsServed | src/msim_tsq.c:122-200 | In every interleaving each call does its work once: the messages of the calls are those stored and the one still to be stored, the sizes asked for those taken and the one still to be taken. |
| TsqThreads.NoLostWakeup | src/msim_tsq.c:135-194 | A producer waits unsignalled only for a full ring, a consumer only for an empty one, unless the other thread is about to signal; never both. |
| TsqThreads.NeverStuck | src/msim_tsq.c:122-200 | Unless both threads are outside or wait for the other's call, some step is possible. |
| TsqThreads.ProducerIsWoken | src/msim_tsq.c:184-194 | A waiting producer is woken by the consumer's next call. |
| TsqThreads.ConsumerIsWoken | src/msim_tsq.c:144-154 | A waiting consumer is woken by the producer's next call. |
| Sreg.WideSubtraction | src/avr/avr_decoder.c:1487-1558 | SUB and SBCs on n bytes give a - b mod 256^n with C = (a < b), Z = (a = b), S = signed less-than and V = signed overflow. |
| Sreg.CpcLikeSbc | src/avr/avr_decoder.c:770-794 | CPC sets the flags of SBC except when Z and C are set and the bytes are 0 and 255. |
| Sreg.WideCompare | src/avr/avr_decoder.c:770-818 | CP and CPCs set the flags of SUB and SBCs. |
| Sreg.WideAddition | src/avr/avr_decoder.c:1587-1636 | ADD and ADCs give the sum modulo 256^n and its carry. |
| Sreg.AdditionTop | src/avr/avr_decoder.c:1587-1636 | Z and N after it are those of the top byte; Z tells that the sum is zero exactly if the lower bytes are zero or the top byte is not. |
| Sreg.WideShift | src/avr/avr_decoder.c:2439-2601 | LSR and RORs give half the number, and C the bit shifted out. |
| Sreg.ShiftFlags | src/avr/avr_decoder.c:2439-2601 | Z, N, V, S and H after it in terms of the number: Z of its lowest byte, N is bit 8, S is C, V is N xor C. |
| Sreg.SubMeaning | src/avr/avr_decoder.c:1487-1558 | The bit formulas of a subtraction are borrow, overflow and signed order. |
| Sreg.SubHalf | src/avr/avr_decoder.c:1487-1558 | Its half carry is the borrow of the low digits. |
| Sreg.AddMeaning | src/avr/avr_decoder.c:1587-1636 | The bit formulas of an addition are carry, overflow, sign, zero and negative of the sum with carry. |
| Sreg.AddHalf | src/avr/avr_decoder.c:1587-1636 | Its half carry is the carry of the low digits. |
| Sreg.Alu.ExecSub | src/avr/avr_decoder.c:1487-1509 | SUB on registers in place. |
| Sreg.Alu.ExecSbc | src/avr/avr_decoder.c:1534-1558 | SBC on registers in place. |
| Sreg.Alu.ExecCp | src/avr/avr_decoder.c:796-818 | CP leaves the registers alone. |
| Sreg.Alu.ExecCpc | src/avr/avr_decoder.c:770-794 | CPC leaves the registers alone. |
| Sreg.Alu.ExecAdd | src/avr/avr_decoder.c:1612-1636 | ADD on registers in place. |
| Sreg.Alu.ExecAdc | src/avr/avr_decoder.c:1587-1610 | ADC on registers in place. |
| Sreg.Alu.ExecLsr | src/avr/avr_decoder.c:2439-2457 | LSR on a register in place. |
| Sreg.Alu.ExecRor | src/avr/avr_decoder.c:2581-2601 | ROR on a register in place. |
| Sreg.Alu.RunSubtraction | src/avr/avr_decoder.c:1487-1558 | SUB and SBCs on two blocks of registers, apart, the same, or overlapping so that none is read after it was written, leave the wide difference in the first, its flags in SREG and all other registers alone. |
| Sreg.Alu.RunAddition | src/avr/avr_decoder.c:1587-1636 | ADD and ADCs on two such blocks leave the sum in the first, its flags in SREG and all other registers alone. |
| Sreg.Alu.RunShift | src/avr/avr_decoder.c:2439-2601 | LSR and RORs on a block of registers, from the top down, leave half of it there, the bit shifted out in C, and all other registers alone. |
| SimCore.Avr.constructor | src/avr/avr_simcore.c:580-584 | A stopped core with nothing pending. |
| SimCore.Avr.StackPush | src/avr/avr_simcore.c:763-773 | A byte at the stack pointer, which moves down and wraps. |
| SimCore.Avr.StackPop | src/avr/avr_simcore.c:775-788 | The byte above the stack pointer, which moves up. |
| SimCore.Avr.SkipCycles | src/avr/avr_decoder.c:1973-1989 | One cycle of an instruction of several cycles, and whether it completes. |
| SimCore.Avr.ExecCall | src/avr/avr_decoder.c:1963-2005 | One cycle of CALL. |
| SimCore.Avr.ExecRcall | src/avr/avr_decoder.c:977-1004 | One cycle of RCALL. |
| SimCore.Avr.ExecIcall | src/avr/avr_decoder.c:2246-2266 | One cycle of ICALL, which reads Z after the pushes. |
| SimCore.Avr.ExecRet | src/avr/avr_decoder.c:1038-1052 | One cycle of RET. |
| SimCore.Avr.ExecReti | src/avr/avr_decoder.c:2603-2627 | One cycle of RETI. |
| SimCore.Avr.ExecPush | src/avr/avr_decoder.c:1127-1148 | One cycle of PUSH. |
| SimCore.Avr.ExecPop | src/avr/avr_decoder.c:1127-1148 | One cycle of POP. |
| SimCore.Avr.PassIrqs | src/avr/avr_simcore.c:634-684 | Enabled and raised timer interrupts become requests and, where they can be written, are no longer raised. |
| SimCore.Avr.ServeIrq | src/avr/avr_simcore.c:587-632 | The first pending vector, if any, is entered. |
| SimCore.Avr.StartCycle | src/avr/avr_simcore.c:140-214 | Why a cycle ends before an instruction is executed, and with which code. |
| SimCore.Avr.SimCycle | src/avr/avr_simcore.c:125-310 | One simulation cycle. |
| Instructions.CallsAgree | src/avr/avr_decoder.c:977-1004 | CALL of an address, RCALL of its distance and ICALL with it in Z reach the same address and stack the address behind themselves. |
| Instructions.OneWordOn | src/avr/avr_decoder.c:1127-1148 | PUSH and POP go on at the next word. |
| Instructions.TakesManualCycles | src/avr/avr_decoder.c:1963-2627 | Calls, returns, PUSH and POP take the cycles of the AVR Instruction Set Manual on every family of cores, with their whole effect in the last. |
| Instructions.EffectDone | src/avr/avr_simcore.c:125-310 | Any other instruction does what it was given. |
| Instructions.ReturnCode | src/avr/avr_simcore.c:140-258 | The code of a cycle is 2, 1 or 0 exactly under the stated conditions on mode, debugger, program counter and instruction. |
| Instructions.StoppedStays | src/avr/avr_simcore.c:157-310 | A core that does not run and is left alone only has its interrupt flags handed over. |
| Instructions.DebuggerFirst | src/avr/avr_simcore.c:157-167 | A stopped core takes over what the debugger writes. |
| Instructions.WorldFirst | src/avr/avr_simcore.c:169-189 | What timers and models write and request in a cycle is there before the instruction, address by address. |
| Instructions.PinsLast | src/avr/avr_simcore.c:260-262 | What the pins bring is there after it. |
| IrqFlags.ClearedOnly | include/mcusim/avr/sim/private/io_macro.h:128-136 | Clearing a flag's bit, where the access mask lets it be written, changes no other bit. |
| IrqFlags.PassTimersIsAll | src/avr/avr_simcore.c:642-681 | The nested loops look at each timer's vectors up to its gaps, in order. |
| IrqFlags.FlagsBecomeRequests | src/avr/avr_simcore.c:634-684 | A vector is requested if and only if it was before or an enabled, raised interrupt belongs to it; exactly the flags of these that the access mask lets be written are cleared, and no other bit changes. |
| CoreRuns.EffectOnce | src/avr/avr_decoder.c:1973-1989 | In n cycles nothing but flag and count shows; the effect comes once, in cycle n + 1. |
| CoreRuns.CycleKeepsSound | src/avr/avr_simcore.c:250-307 | Between cycles the multi-cycle flag is set exactly when cycles are left. |
| CoreRuns.FlagFollowsCount | src/avr/avr_simcore.c:250-307 | The same at every cycle of every run. |
| CoreRuns.EntryAfterInstruction | src/avr/avr_simcore.c:275-287 | A cycle that enters a routine completes an instruction that is not RETI. |
| CoreRuns.EntryServesLowest | src/avr/avr_simcore.c:587-632 | A routine is entered if and only if interrupts may be served and one is requested: the lowest, which alone is removed; return address, I flag, vector and trap are as required. |
| CoreRuns.InstructionAfterReti | src/avr/avr_simcore.c:275-287 | Over every run, between RETI and the next entry another instruction completes. |
| CoreRuns.RequestReaches | src/avr/avr_simcore.c:260-279 | A request stays until interrupts are considered. |
| CoreRuns.NoRequestLost | src/avr/avr_simcore.c:587-605 | Over every run a request stays until its vector is entered. |
| CoreRuns.ServedOnce | src/avr/avr_simcore.c:587-605 | Over every run, between two entries of a vector it was requested anew. |
| CoreRuns.StepStops | src/avr/avr_simcore.c:303-306 | In step mode the core stops exactly when an instruction has completed. |
| ReturnRuns.ReturnsFlag | src/avr/avr_decoder.c:2604-2627 | RETI sets bit 7 of SREG and no other, except on an XMEGA; beside that it changes the stack pointer only; RET leaves SREG. |
| ReturnRuns.EntryFlag | src/avr/avr_simcore.c:587-632 | Entering a routine clears bit 7 of SREG and no other, except on an XMEGA. |
| ReturnRuns.EntersIff | src/avr/avr_simcore.c:275-287 | A routine is entered if and only if bit 7 is set, the core runs, no cycles are left, RETI has not just completed and a vector is requested. |
| ReturnRuns.FlagsArePending | src/avr/avr_simcore.c:260-279 | When interrupts are considered, a vector is requested if and only if it was after the instruction or an enabled, raised flag belongs to it. |
| ReturnRuns.ServedAfterReti | src/avr/avr_decoder.c:2620-2627 | Over every run, a request that is there when RETI completes is served: the next instruction that completes is followed by the entry of the lowest requested vector, as long as the I flag and the mode are left alone. |
| Brackets.PushPcFacts | src/avr/avr_simcore.c:613-618 | How a return address lies on the stack, and that nothing else changes. |
| Brackets.PopPcFacts | src/avr/avr_decoder.c:1043-1051 | Popping it gives it back, modulo the width of the program counter. |
| Brackets.Balanced | src/avr/avr_simcore.c:763-788 | Every nested trace that respects the stack restores the stack pointer and what lies above it. |
| Brackets.FrameOnce | src/avr/avr_decoder.c:2603-2618 | A call or interrupt left by RET or RETI resumes at its own return address. |
| Brackets.SavedOnce | src/avr/avr_decoder.c:1127-1148 | A register saved by PUSH has its value back after POP. |
| Brackets.EveryExitGoesHome | src/avr/avr_decoder.c:1994-2004 | At every depth of a nested trace each exit resumes at its own entry's return address and each saved register is restored, for 2-byte and 3-byte addresses. |
| Brackets.CallInInterrupt | src/avr/avr_simcore.c:613-618 | A call inside an interrupt keeps its frames if and only if the stack has room for two return addresses. |
| NestedRuns.DoIsAfter | src/avr/avr_simcore.c:125-310 | A nested trace does what its events do one after the other. |
| NestedRuns.NestsIff | src/avr/avr_simcore.c:125-310 | Events close what they open, innermost first, if and only if they are those of a nested trace. |
| NestedRuns.CycleActs | src/avr/avr_simcore.c:125-310 | A cycle of the simulator changes memory and program counter as its events do: outside world, instruction, pins and flags, interrupt. |
| NestedRuns.RunActs | src/avr/avr_simcore.c:125-310 | So does every run. |
| NestedRuns.NestedRunGoesHome | src/avr/avr_simcore.c:125-310 | Every run whose events nest is a nested trace; if that respects the stack, all its exits go home, saved registers are restored, and the run ends with the stack pointer and the memory above it as they were. |
| NestedRuns.RoutineGoesHome | src/avr/avr_simcore.c:587-632 | A routine anywhere in a run exits to the address its entry stacked, and the run goes on from there. |
| Rsp.UnescapeEscape | src/avr/avr_gdb.c:1508-1526 | Unescaping undoes the escaping of `put_packet`. |
| Rsp.EscapedIsPlain | src/avr/avr_gdb.c:1007-1018 | Escaped data hold none of the characters that frame a packet. |
| Rsp.FlipsBitFive | src/avr/avr_gdb.c:1007-1018 | The escaped byte differs in bit 5 and in no other. |
| Rsp.Buffer.Unescaped | src/avr/avr_gdb.c:1508-1526 | Unescaping in place. |
| Rsp.Link.Transmit | src/avr/avr_gdb.c:1001-1023 | One transmission: start, escaped body, end, checksum. |
| Rsp.Link.PutPacket | src/avr/avr_gdb.c:990-1031 | A packet is sent until it is acknowledged or the connection ends. |
| Rsp.Link.WaitForStart | src/avr/avr_gdb.c:761-777 | What ends the wait for a packet. |
| Rsp.Link.ReadBody | src/avr/avr_gdb.c:779-814 | The body and checksum of a packet, or why there is none. |
| Rsp.Link.GetPacket | src/avr/avr_gdb.c:751-859 | Answers, result and what is left of the input are those of the reference receiver. |
| RspFrames.PacketReceived | src/avr/avr_gdb.c:751-859 | After noise, a transmitted packet is received: its escaped body, which unescapes to the body. |
| RspFrames.ReceivedIff | src/avr/avr_gdb.c:751-1023 | A transmitted packet is received if and only if it has no byte 0xFF and its escaped length is below the limit. |
| RspFrames.BrokenPacketSkipped | src/avr/avr_gdb.c:789-797 | After noise and a packet that broke off, the next packet is received all the same. |
| RspFrames.CorruptRefused | src/avr/avr_gdb.c:842-851 | A packet with a wrong checksum is refused, and reading goes on behind it. |
| RspFrames.BreakReceived | src/avr/avr_gdb.c:761-777 | After noise, a break is received without an answer. |
| RspFrames.ConnectionLost | src/avr/avr_gdb.c:761-814 | A connection that ends, in noise or in a packet, yields nothing and gets no answer. |
| RspFrames.OverrunSilent | src/avr/avr_gdb.c:779-797 | A packet that fills the buffer is given up without an answer, and reading goes on from there. |
| RspFrames.Conversation | src/avr/avr_gdb.c:751-1031 | A packet corrupted any number of times is refused as often, then received, and the sender transmits exactly that often. |
| RspFrames.ReceivedIsCertified | src/avr/avr_gdb.c:751-859 | Whatever is received stands in the input as a complete packet with a valid checksum, or is a break, and reading goes on right behind it. |
| IHex.CalcChecksum | src/msim_ihex.c:240-259 | The two's complement of the sum of all fields. |
| IHex.LineSumsToZero | src/msim_ihex.c:240-259 | The bytes of a record and its checksum sum to 0 modulo 256. |
| IHex.LineIsItsBytes | src/msim_ihex.c:184-219 | The written line is the hexadecimal text of those bytes. |
| IHex.HexReads | src/msim_ihex.c:127-175 | A number that fits is printed in as many digits as asked for and read back. |
| IHex.NewRec | src/msim_ihex.c:54-71 | A record with its data and checksum, or an error that leaves the record alone. |
| IHex.WriteRec | src/msim_ihex.c:184-219 | The record's line is appended to the file, or an error leaves it alone. |
| IHex.ReadRec | src/msim_ihex.c:74-182 | Code, record and rest of the file are those of the reference reader. |
| IHex.ReadOfWritten | src/msim_ihex.c:73-219 | Reading a written record gives its fields and data back and leaves the rest of the file. |
| IHexLines.NumberRead | src/msim_ihex.c:127-175 | A field is read as strtol reads it: white space, a sign, a prefix, digits up to the first other character. |
| IHexLines.NegativeRefused | src/msim_ihex.c:130-152 | A line with a negative count is not accepted. |
| IHexLines.AcceptedIff | src/msim_ihex.c:112-182 | A line of hexadecimal digits, as long as its count asks for, is accepted if and only if its bytes sum to 0 modulo 256; the fields are the bytes at their places. |
| IHexLines.LineAcceptedIff | src/msim_ihex.c:91-182 | The same for the first line of a file, of which the rest is left. |
| IHexLines.Refused | src/msim_ihex.c:99-152 | Lines that are empty, short, without a colon or shorter than their count asks for are refused. |
| IHexLines.ChangedByteRefused | src/msim_ihex.c:177-179 | A written line in which one byte of address, type, data or checksum changed is refused. |
| IHexLines.EndText | src/msim_ihex.c:184-219 | The end-of-file record is ":00000001FF". |
| Flash.StoreRecord | src/avr/avr_simcore.c:906-911 | The words of a record, low byte first, and no others are stored. |
| Flash.ReadBack | src/avr/avr_simcore.c:919-922 | The bytes of memory that a record covers. |
| Flash.LoadMem16 | src/avr/avr_simcore.c:886-966 | Memory after the first pass and the verdict of the second. |
| Flash.SaveProgMem | src/avr/avr_simcore.c:974-1023 | The file is the records of 16 bytes in order and an end-of-file record. |
| FlashFiles.VerifiedText | src/avr/avr_simcore.c:911-962 | The second pass succeeds if and only if memory matches every data record before the end of the file. |
| FlashFiles.MatchesIff | src/avr/avr_simcore.c:926-943 | Memory matches a record if and only if its bytes have the same sum modulo 256. |
| FlashFiles.OneByteReported | src/avr/avr_simcore.c:926-960 | One byte of memory that differs from its record makes the second pass fail. |
| FlashFiles.StoredLittleEndian | src/avr/avr_simcore.c:906-911 | The first byte of a word is its low one, at half the address. |
| FlashFiles.LoaderVerifies | src/avr/avr_simcore.c:901-965 | Loading valid records that share no word verifies, stores every record, and changes nothing else. |
| FlashFiles.PastEndUnverified | src/avr/avr_simcore.c:901-925 | Records behind the end-of-file record are stored but not verified. |
| FlashFiles.BrokenLineHides | src/avr/avr_simcore.c:901-965 | A load that meets a line it cannot read succeeds all the same, and has all records of the file in memory if and only if those behind that line were there before. |
| FlashFiles.EmptyLineBroken | src/msim_ihex.c:99-111 | An empty line is such a line. |
| FlashFiles.ChangedLineBroken | src/msim_ihex.c:177-179 | So is a written line in which a byte changed. |
| FlashFiles.SaveThenLoad | src/avr/avr_simcore.c:886-1023 | Loading what was saved, up to 64 KiB, restores every saved word, verifies, and changes nothing else. |
| FlashLimit.HighRecordRead | src/msim_ihex.c:136-153 | The line of an address from 64 KiB on is read, if at all, as a record of a sixteenth of that address. |
| FlashLimit.RestoresIff | src/avr/avr_simcore.c:886-1023 | Loading what was saved restores it for every content of memory if and only if no more than 64 KiB were saved. |
| Vcd.Recorder.PrintBits | src/avr/avr_vcd.c:244-284 | The bits of a value, highest first. |
| Vcd.Recorder.FindChange | src/avr/avr_vcd.c:149-176 | Whether a tracked register, or tracked bit, differs from what was kept. |
| Vcd.Recorder.PrintChanges | src/avr/avr_vcd.c:185-217 | The lines of the registers that changed. |
| Vcd.Recorder.KeepValues | src/avr/avr_vcd.c:219-241 | Every tracked register's value is kept. |
| Vcd.Recorder.DumpInitial | src/avr/avr_vcd.c:92-119 | The initial lines of all tracked registers. |
| Vcd.Recorder.DumpFrame | src/avr/avr_vcd.c:136-242 | Log and kept values after a frame. |
| VcdReplay.BitsRead | src/avr/avr_vcd.c:244-291 | Printed bits read back as the number, modulo its width. |
| VcdReplay.PrintedIs | src/avr/avr_vcd.c:244-291 | A pair is printed as the bits of its high register and then those of its low one, a register as its eight bits, a bit as itself. |
| VcdReplay.BitIds | src/avr/avr_vcd.c:76-92 | Different bits of a register are different variables. |
| VcdReplay.ChangedIff | src/avr/avr_vcd.c:166-175 | A register counts as changed if and only if its printed value changes. |
| VcdReplay.FrameExact | src/avr/avr_vcd.c:149-217 | When the log is right about a variable after a frame. |
| VcdReplay.FrameReplays | src/avr/avr_vcd.c:149-241 | Once the log agrees with the kept values, a frame leaves every variable's current value in it, and agreement. |
| VcdReplay.RunReplays | src/avr/avr_vcd.c:149-241 | After any number of frames replaying the log gives every tracked variable its current value. |
| VcdReplay.StampIff | src/avr/avr_vcd.c:178-183 | A time stamp is written if and only if the printed value of a tracked variable changed. |
| VcdReplay.StampWhenStale | src/avr/avr_vcd.c:178-183 | That is, if and only if the log is out of date. |
| VcdReplay.FirstFrameExact | src/avr/avr_vcd.c:92-217 | When the first frame after opening is right about a variable. |
| VcdReplay.RightThenAgrees | src/avr/avr_vcd.c:219-241 | A frame that leaves the log right leaves it in agreement, hence right for good. |
| VcdReplay.FirstFrameMisses | src/avr/avr_vcd.c:92-183 | A register whose value at opening the log shows for good although it changed. |

## Left out

- Getopt.Scanner.ParseLongOptions: long options after one dash (FLAG_LONGONLY) and storing through `flag` are not modelled; `val` is not -1, which a caller could not tell from the end.
- CommandLines.ConfigFile: the table of long options in src/msim_main.c has no terminating entry; the model ends it behind its last one.
- Getopt: error messages; characters are 7-bit.
- Timer.AvrTimer.UpdateTimer: the I/O bits of a timer are separate cells, so registers that overlap are not modelled; input capture, firmware writes to the counter, and the loop over all timers are left out.
- TsqThreads.StepKeepsInv: one producer and one consumer without spurious wakeups, since the waits are not loops; destroying a queue that is in use is left out.
- SimCore.Avr.SimCycle: timers, peripherals, models, debugger and pin synchronisation are arbitrary writes, requests and changes of mode given to a cycle; the decoder is a given instruction; the tick counter, the dump and, apart from interrupt flags, access masks of I/O registers are left out; for RETI the pops are evaluated left to right.
- SimCore.Avr.ExecOther: an instruction without a name of its own has an arbitrary effect, with the cycles it asks for.
- SimCore.Avr.StackPop: a stack pointer at the last address of data memory, where the code reads behind its array.
- SimCore.Avr.ExecRet, SimCore.Avr.ExecReti, SimCore.Avr.ExecPop: the same for a stack that does not hold what is popped.
- NestedRuns.RunActs: only memory and program counter are followed; a routine that is left otherwise than by RET or RETI does not nest.
- Rsp: registers and memory in packets, breakpoints, and the program counter, which is read and written in different byte orders; sockets.
- IHex.ReadRec: a negative byte count, which the code takes for a huge one, ends in the result `Overrun`; file errors.
- Flash.LoadMem16: opening the file, messages, and the 8-bit loader, which is the same without packing.
- Flash.SaveProgMem: opening the file; the words are those from 0 on, as in the code, wherever flash starts.
- Vcd.Recorder.DumpFrame: lines are values, not text; the header of the dump.
- SPM, software breakpoints, Lua, XSPICE, logging, configuration, fuses and the watchdog.
