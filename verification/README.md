# Renesas SMU drivers: a verified model

This project models three layers of the Linux drivers for Renesas synchronization management
units (ClockMatrix 8A3xxxx, Sabre 82P33xxx, FemtoClock3) and proves properties of them in Dafny.

1. **Register transport** (`PagedBus`, `Firmware`). A device shows one window of its address space
   at a time. `PagedBus` is the driver's page cache on top of such a device; `Firmware` is the
   ClockMatrix loader on top of the cache.
2. **PTP hardware clocks** (`SabrePhc`, `SabrePullIn`, `ClockMatrixPhc`, `ClockMatrixPullIn`,
   `ClockMatrixAdjfine`, `Extts`, `TodTrigger`, `OutputSync`) and the misc drivers (`SabreHoldover`, the holdover and
   priority calls in `ClockMatrixPhc`, `ClockPriorities`, `FemtoClock`).
3. **Arithmetic and layout** (`CInt`, `PullIn`, `FrequencyWord`, `PhaseWord`, `TimeOfDay`):
   truncating division, fixed-width conversions, little-endian buffers, frequency, phase and time
   words, and the halving loop behind temporary frequency offsets.

Objects whose methods change fields are classes. Each such method is proved equal to a function on
a value that holds the whole state (`State() == F(old(State()), ...)`), and the properties of runs
and interleavings are lemmas about those functions. Bus transfers take their error code as a
parameter, 0 for success, so a statement about all parameters is a statement about all bus failures.
`dafny verify dfyconfig.toml` checks everything.

## Main results

- `PagedBus.PagedBusRefinesFlatMap`, `PagedBus.ReadReturnsLastWrite`, `PagedBus.TransportsAgree`:
  with any bus errors the paged transports are one flat register map, the same one for the I2C and
  SPI windows.
- `Firmware.FullCountIsExact`, `Firmware.FullConfigurationIsCoverage`, `Firmware.LastRecordWins`,
  `Firmware.LastMaskWins`: what the loader recognises and what a load leaves behind.
- `PullIn.PullInDeliversPhase`: step and duration of a pull-in make up the phase asked for.
  `SabrePullIn.PullInRunsItsCourse` and `ClockMatrixPullIn.PullInRunsItsCourse` follow it from the
  adjtime to the worker over every run; `SabrePullIn.LeftAloneExactly` says when it is left alone.
- `ClockMatrixAdjfine.OrderlyRuns`, `ClockMatrixAdjfine.SettlesExactly`: which interleavings of the
  unlocked parts keep register and kept frequency together.
- `SabrePhc.EveryInterleavingIsSafe`, `ClockMatrixPhc.EveryRunIsSafe`,
  `Extts.PollingNeverLosesItsWorker`, `Extts.OffStaysSilent`: invariants of every run or interleaving.
- `FrequencyWord.FfoMatchesFrequency`, `PhaseWord.SabrePhaseNeverSpills`,
  `PhaseWord.SabrePhaseDenotes`, `ClockMatrixPhc.DevicePullInExact`,
  `PhaseWord.ClockMatrixPhaseExact`, `TimeOfDay.DeltaCarriedExactly`,
  `TodTrigger.SuccessfulStepIsExact`, `FemtoClock.MeasurementWithinTwo`: codecs and conversions.
- `ClockPriorities.SlotMeans`, `ClockPriorities.TiesShareGroup`, `FemtoClock.RegisterIsMap`,
  `OutputSync.EveryOutputOnce`: meaning of the priority and output registers.

## Where the code does not do what one might expect

Each of these is a lemma; where the good case has a condition, the lemma gives it exactly.

- A restore that fails ends a pull-in's only worker. A Sabre then stays in its pull-in for ever
  unless an adjtime past its test starts another one (`SabrePhc.FailedRestoreWedges`,
  `SabrePhc.WedgedExactly`); a ClockMatrix, with its callbacks taken as
  atomic, always does (`ClockMatrixPullIn.WedgedExactly`).
- A call that passed its unlocked tests before a Sabre pull-in started can act on it
  (`SabrePullIn.LeftAloneExactly`): a late adjfine overrides it, a late adjtime replaces it, and a
  worker left over from such a race cuts the next one short. Each has a run from the initial state.
- A phase call takes the mode from a pull-in, without any race
  (`SabrePullIn.PhaseCallTakesModeFromPullIn`, `ClockMatrixPullIn.PhaseCallTakesModeFromPullIn`);
  the `PullInRunsItsCourse` lemmas say exactly when the mode stays.
- A ClockMatrix accepts 244000 ppb but clamps pull-ins to 144000 ppb, so a pull-in can move the
  frequency the wrong way (`ClockMatrixPhc.PullInDirection`, `ClockMatrixPullIn.PullInTheWrongWay`).
  At the clamp itself a pull-in moves nothing; a Sabre accepts frequencies up to its clamp
  (`SabrePhc.PullInDirection`, `SabrePhc.PullInAtTheMaximum`).
- A ClockMatrix adjfine keeps its frequency for the worker after the unlock, so another frequency
  write can come in between (`ClockMatrixAdjfine.OrderlyRuns`, `ClockMatrixAdjfine.SettlesExactly`,
  with two runs).
- Enabling Sabre holdover while it is on overwrites the saved mode (`SabreHoldover.SticksExactly`).
  No holdover call ends it from then on, only a mode change of the PHC
  (`SabreHoldover.StuckUntilFreed`). The PHC's cached mode hides holdover from its frequency writes
  (`SabreHoldover.HoldoverHidesFromPhc`) and survives it only if the PHC asks for no other mode
  meanwhile (`SabreHoldover.HoldoverKeepsPhcCoherent`).
- A fourth run of equal priorities is split (`ClockPriorities.TiesShareGroup`).
- A firmware file can repeat addresses to make up for missing ones and still count as a full
  configuration (`Firmware.AnswerIsWrongExactly`, `Firmware.RepeatedFileIsTakenForFull`).
- A failed re-arm reports one timestamp twice (`Extts.FailedRearmReportsTwice`).
- Some error codes of a failed multiplexer read are taken for references
  (`FemtoClock.FailedReadNoticed`).
- The most negative 64-bit step is lost (`ClockMatrixPhc.MostNegativeStepIsLost`,
  `TimeOfDay.DeltaCarriedExactly`), and the most negative 32-bit phase keeps its sign
  (`PhaseWord.SabrePhaseOrder`).
- A Sabre step to a time before the epoch or beyond 64 bits of nanoseconds loads another time
  (`TodTrigger.StepExactWhenGuessRight`).

## Model

| member | source | states |
|---|---|---|
| PagedBus.Rsmu.constructor | linux/drivers/mfd/rsmu_i2c.c:274-325 | a fresh driver is coherent with a device that shows any page (a Sabre: page 0 after reset) |
| PagedBus.Rsmu.WritePageRegister | linux/drivers/mfd/rsmu_spi.c:94-142 | new cache, device and error are those of page selection on values, for both SPI parts and I2C |
| PagedBus.Rsmu.RegRead | linux/drivers/mfd/rsmu_i2c.c:164-179 | one read is one step of the bus, with the error of the page write or of the transfer |
| PagedBus.Rsmu.RegWrite | linux/drivers/mfd/rsmu_i2c.c:181-198 | one write is one step of the bus, with the error of the page write or of the transfer |
| PagedBus.BufferSelectsPage | linux/drivers/mfd/rsmu_i2c.c:134-162 | the bytes written to the page register make the device show the window of the register, and that page is never 0 on a ClockMatrix |
| PagedBus.BurstSelects | linux/drivers/mfd/rsmu_spi.c:94-142 | writing those bytes one after the other through the window changes the page register and no memory |
| PagedBus.SelectionIsRight | linux/drivers/mfd/rsmu_spi.c:94-142 | after a successful selection cache and device agree on the page of the register; a failed one changes nothing |
| PagedBus.StepIsFlat | linux/drivers/mfd/rsmu_spi.c:144-178 | one access to a legal register, failing or not, is one access to a flat map and keeps the cache coherent |
| PagedBus.PagedBusRefinesFlatMap | linux/drivers/mfd/rsmu_i2c.c:134-198 | every sequence of accesses to legal registers, with arbitrary bus errors, has the outcomes and the memory of a flat register map |
| PagedBus.ReadReturnsLastWrite | linux/drivers/mfd/rsmu_i2c.c:164-198 | a successful read returns the last successful write to the same register, or the initial contents |
| PagedBus.FlatTraceUnique | linux/drivers/mfd/rsmu_i2c.c:164-198 | the flat map leaves no freedom: equal operations with failures at equal places give equal outcomes and memory |
| PagedBus.LegalOnBoth | linux/drivers/mfd/rsmu_spi.c:94-142 | a register outside the page bytes of the 128-byte window is outside those of the 256-byte window |
| PagedBus.TransportsAgree | linux/drivers/mfd/rsmu_spi.c:94-178 | the I2C and SPI transports give the same values and memory for the same operations with failures at the same places |
| PagedBus.WriteLandsExactlyWhenPageIsRight | linux/drivers/mfd/rsmu_i2c.c:134-198 | with the register's page in the cache a write reaches the register iff the device shows that page |
| Firmware.CountProgrammable | linux/drivers/ptp/ptp_clockmatrix.c:61-103 | the number of addresses in any range that pass the loader's filter, in closed form |
| Firmware.FullCountIsExact | linux/drivers/ptp/ptp_clockmatrix.c:61-103 | the driver's closed form equals the number of programmable addresses iff both bounds reach equally far into the skipped bytes |
| Firmware.DriverCountIsExact | linux/drivers/ptp/ptp_clockmatrix.c:61-103 | for the driver's own bounds it does: 3452 or 3456 addresses |
| Firmware.ContainsFullConfiguration | linux/drivers/ptp/ptp_clockmatrix.c:61-103 | the counting loop says yes iff at least as many records pass the filter as there are programmable addresses |
| Firmware.FullConfigurationIsCoverage | linux/drivers/ptp/ptp_clockmatrix.c:61-103 | without repeated addresses that is the case iff every programmable address is covered |
| Firmware.CoverageIsRecognised | linux/drivers/ptp/ptp_clockmatrix.c:61-103 | a covering file is recognised even with repeated addresses |
| Firmware.AnswerIsWrongExactly | linux/drivers/ptp/ptp_clockmatrix.c:61-103 | for every file the answer is yes iff no more addresses are missing than records repeat one, and the file covers everything iff none is missing |
| Firmware.RepeatedRecordCounts | linux/drivers/ptp/ptp_clockmatrix.c:61-103 | a file of n copies of one record passes the filter n times and covers one address |
| Firmware.RepeatedFileIsTakenForFull | linux/drivers/ptp/ptp_clockmatrix.c:61-103 | 3456 copies of one record are taken for a full configuration that they do not cover |
| Firmware.Idtcm.constructor | linux/drivers/ptp/ptp_clockmatrix.c:2413-2432 | the default masks and PLLs |
| Firmware.Idtcm.SetPllOutputMask | linux/drivers/ptp/ptp_clockmatrix.c:1147-1182 | one half of one output mask changes, or EFAULT and nothing changes |
| Firmware.Idtcm.CheckAndSetMasks | linux/drivers/ptp/ptp_clockmatrix.c:1184-1234 | the settings after a mask record, and EINVAL for an invalid ToD mask or PLL |
| Firmware.LoaderAvoidsPageRegister | linux/drivers/ptp/ptp_clockmatrix.c:1286-1319 | no address that passes the filter is a page-register byte of either transport |
| Firmware.Idtcm.WriteByte | linux/drivers/ptp/ptp_clockmatrix.c:52-59 | a filtered write changes one byte of the flat memory and keeps the page cache coherent |
| Firmware.Idtcm.LoadRecord | linux/drivers/ptp/ptp_clockmatrix.c:1286-1319 | a record takes effect completely or not at all, with the error that says why |
| Firmware.Idtcm.LoadRecords | linux/drivers/ptp/ptp_clockmatrix.c:1286-1319 | a load applies exactly the records before the first rejected record or failed write, and keeps the page cache coherent |
| Firmware.LastRecordWins | linux/drivers/ptp/ptp_clockmatrix.c:1286-1319 | each programmable register holds the value of its last record, all other registers their old contents |
| Firmware.SetMasksChangesOne | linux/drivers/ptp/ptp_clockmatrix.c:1147-1234 | a mask record sets the one setting of its address; the halves of an output mask are independent |
| Firmware.LastMaskWins | linux/drivers/ptp/ptp_clockmatrix.c:1201-1234 | each setting holds the value of its last record, or its old value |
| PullIn.Halve | linux/drivers/ptp/ptp_clockmatrix.c:1601-1606 | the loop terminates with the truncated quotient by 2^k and 1000 * 2^k ms modulo 2^32 |
| PullIn.HalvingsLeast | linux/drivers/ptp/ptp_idt82p33.c:618-623 | the result is within the limit, and no smaller k would do |
| PullIn.HalvingsBound | linux/drivers/ptp/ptp_idt82p33.c:618-623 | 2^k is the least power of two with abs(delta) below (limit + 1) * 2^k |
| PullIn.DurationExact | linux/drivers/ptp/ptp_clockmatrix.c:1601-1606 | the 32-bit duration does not wrap iff abs(delta) is below (limit + 1) * 2^22, which holds for every 32-bit delta from limit 512 on |
| PullIn.PullInNotLong | linux/drivers/ptp/ptp_clockmatrix.c:1601-1606 | a pull-in of more than a second lasts at most 2 abs(delta) / (limit + 1) seconds |
| PullIn.PullInDeliversPhase | linux/drivers/ptp/ptp_clockmatrix.c:1562-1621 | frequency step times duration misses the requested phase by less than 8317/8192 ns per second, for every delta and limit |
| PullIn.ShiftExact | linux/drivers/ptp/ptp_clockmatrix.c:1562-1578 | the programmed frequency is the current one plus the step iff the sum is within the clamp, with the 64-bit sum of the Sabre and the 32-bit sum of a ClockMatrix |
| PullIn.ShiftDirection | linux/drivers/ptp/ptp_idt82p33.c:576-589 | the frequency moves the way asked for iff the current frequency is short of the clamp on that side, and the wrong way iff it is past it |
| PullIn.OffsetSign | linux/drivers/ptp/ptp_clockmatrix.c:1601-1606 | halving keeps the sign of the correction |
| FrequencyWord.EncodeFrequency | linux/drivers/ptp/ptp_clockmatrix.c:1787-1798 | the buffer holds the little-endian word, for the five-byte and the six-byte part |
| FrequencyWord.WordFits | linux/drivers/ptp/ptp_idt82p33.c:535-573 | the word fits the signed 40 or 42 bits iff the offset is at most a bound just above max_adj, and up to there the 64-bit product does not overflow |
| FrequencyWord.FrequencyRoundTrip | linux/drivers/misc/rsmu_sabre.c:265-300 | the misc driver's sign extension gives the word back, on a Sabre iff the offset fits |
| FrequencyWord.EncodeInjective | linux/drivers/ptp/ptp_idt82p33.c:535-573 | different accepted offsets have different bytes |
| FrequencyWord.FfoMatchesFrequency | linux/drivers/misc/rsmu_cm.c:283-334 | the frequency that the misc driver reports for the word of the PHC is the one the PHC was asked for, up to the truncations of the two drivers |
| PhaseWord.SabreEncode | linux/drivers/ptp/ptp_idt82p33.c:981-1012 | the four bytes of the phase register |
| PhaseWord.SabrePhaseNeverSpills | linux/drivers/ptp/ptp_idt82p33.c:981-1012 | the clamped value is within 2^28 - 1 and reads back from the 29-bit field, next to an undisturbed enable bit, for every 32-bit offset |
| PhaseWord.SabrePhaseDenotes | linux/drivers/ptp/ptp_idt82p33.c:990-1004 | up to 20000 ns the decoded field is minus the offset in units of 74.506 fs, to less than one unit |
| PhaseWord.SabrePhaseOrder | linux/drivers/ptp/ptp_idt82p33.c:990-1000 | the register is antitone in the offset except at the most negative offset, the one negative offset with a negative register |
| PhaseWord.ClockMatrixEncode | linux/drivers/ptp/ptp_clockmatrix.c:1734-1754 | the buffer holds the little-endian phase word |
| PhaseWord.ClockMatrixPhaseExact | linux/drivers/ptp/ptp_clockmatrix.c:1719-1757 | the four bytes read back as exactly 20 units per ns, clamped to 2^31 - 1 |
| TimeOfDay.TimespecToBytes | linux/drivers/ptp/ptp_clockmatrix.c:135-163 | the first bytes of the buffer encode the time; a short buffer is refused and untouched |
| TimeOfDay.BytesToTimespec | linux/drivers/ptp/ptp_clockmatrix.c:105-133 | the time decoded from the first bytes of the buffer; a short buffer is refused |
| TimeOfDay.FieldPositions | linux/drivers/ptp/ptp_clockmatrix.c:135-163 | which byte of a buffer holds which byte of the nanoseconds and of the seconds |
| TimeOfDay.DecodeEncode | linux/drivers/ptp/ptp_idt82p33.c:55-97 | what a reader finds for any time: seconds modulo 2^48, nanoseconds in the reader's width |
| TimeOfDay.TimeRoundTrip | linux/drivers/ptp/ptp_idt82p33.c:55-97 | a time survives the bytes iff its seconds are below 2^48 and its nanoseconds fit |
| TimeOfDay.DeltaCarriedExactly | linux/drivers/ptp/ptp_clockmatrix.c:1873-1906 | bytes and write type together denote the 64-bit step iff it is not the most negative one |
| SabrePhc.Channel.constructor | linux/drivers/ptp/ptp_idt82p33.c:1115-1150 | a channel starts at frequency 0, without pull-in, with an unknown mode |
| SabrePhc.Channel.DpllSetMode | linux/drivers/ptp/ptp_idt82p33.c:99-126 | the whole new state: register only when the cache differs, cache only after the register |
| SabrePhc.Channel.AdjfineLocked | linux/drivers/ptp/ptp_idt82p33.c:535-573 | the whole new state after a frequency write, including failures half-way |
| SabrePhc.Channel.StartDoubleDco | linux/drivers/ptp/ptp_idt82p33.c:604-636 | the whole new state after a pull-in starts, is too small, or fails |
| SabrePhc.Channel.StopDoubleDco | linux/drivers/ptp/ptp_idt82p33.c:591-602 | the pull-in flag is cleared only after the old frequency has been written back |
| SabrePhc.Channel.Adjfine | linux/drivers/ptp/ptp_idt82p33.c:1023-1047 | no effect during a pull-in or for the frequency already set; else the locked body |
| SabrePhc.Channel.Adjtime | linux/drivers/ptp/ptp_idt82p33.c:1049-1078 | busy without effect during a pull-in; else the locked body |
| SabrePhc.Channel.Adjwritephase | linux/drivers/ptp/ptp_idt82p33.c:981-1021 | the whole new state after a phase write |
| SabrePhc.SetModeCoherent | linux/drivers/ptp/ptp_idt82p33.c:99-126 | cached and real mode agree after every outcome, the mode asked for is set on success, and the other bits of the register stay |
| SabrePhc.WriteFrequencySafe | linux/drivers/ptp/ptp_idt82p33.c:535-573 | a frequency write keeps the mode coherent and leaves either the new word, the old one, or a recorded torn register |
| SabrePhc.StepSafe | linux/drivers/ptp/ptp_idt82p33.c:1023-1078 | every event of every thread keeps the invariant |
| SabrePhc.EveryInterleavingIsSafe | linux/drivers/ptp/ptp_idt82p33.c:591-636 | at every point of every interleaving of calls and worker: without pull-in the register encodes the current frequency, and a pull-in has a worker queued or running unless its restore failed |
| SabrePhc.FollowsFromFirstWrite | linux/drivers/ptp/ptp_idt82p33.c:866-878 | if failed writes leave the device alone, the register follows the driver from the first successful frequency write on |
| SabrePhc.PullInDelivers | linux/drivers/ptp/ptp_idt82p33.c:576-636 | a pull-in whose accesses succeed schedules the delay that turns the step into the phase asked for, and writes the current frequency plus the step iff the sum is within the clamp |
| SabrePhc.PullInDirection | linux/drivers/ptp/ptp_idt82p33.c:576-589 | a pull-in moves the frequency the way asked for iff the current frequency is short of 92000 ppb on that side, and never the wrong way from an accepted frequency |
| SabrePhc.PullInAtTheMaximum | linux/drivers/ptp/ptp_idt82p33.c:604-636 | at the largest accepted frequency a pull-in of 5000 ns succeeds and writes the frequency that is there |
| SabrePhc.PullsExactly | linux/drivers/ptp/ptp_idt82p33.c:1061-1065 | an adjtime pulls in iff it asks for at least 5 ns and less than the threshold |
| SabrePhc.AdjtimeDecides | linux/drivers/ptp/ptp_idt82p33.c:1049-1078 | on a bus without errors such an adjtime starts a pull-in, and every other one leaves the channel as it is |
| SabrePhc.CallsReportFailure | linux/drivers/ptp/ptp_idt82p33.c:1023-1078 | a call past its tests returns 0 iff the frequency write that it needs does not fail |
| SabrePhc.CallsEnterTheirMode | linux/drivers/ptp/ptp_idt82p33.c:981-1047 | a successful adjfine leaves DCO mode and its word and keeps its frequency; a successful phase call leaves write-phase mode and its phase in the register, and touches nothing else; exactly when each succeeds |
| SabrePhc.ProbedIsInitial | linux/drivers/ptp/ptp_idt82p33.c:1200-1240 | probe leaves an initial state iff its mode change does not fail |
| SabrePhc.InitialSafe | linux/drivers/ptp/ptp_idt82p33.c:1200-1240 | an initial state satisfies the invariant |
| SabrePhc.WriteFailsExactly | linux/drivers/ptp/ptp_idt82p33.c:535-573 | a frequency write fails iff its data write does, or a mode access that the cached mode makes necessary |
| SabrePhc.FailedRestoreWedges | linux/drivers/ptp/ptp_idt82p33.c:866-878 | the worker leaves a pull-in that nobody will end iff its frequency write fails and no adjtime that starts a pull-in is past its test |
| SabrePhc.WedgedForEver | linux/drivers/ptp/ptp_idt82p33.c:1023-1065 | in that state every run leaves new adjfine calls without effect and new adjtime calls busy, and the frequency alone if no call was in progress |
| SabrePhc.LateAdjtimeUnwedges | linux/drivers/ptp/ptp_idt82p33.c:1049-1065 | an adjtime past its test has a continuation that ends the pull-in after all |
| SabrePhc.WedgedExactly | linux/drivers/ptp/ptp_idt82p33.c:866-878 | a pull-in whose worker is gone stays on in every run iff it is wedged |
| SabrePullIn.LeftAloneUntilWorker | linux/drivers/ptp/ptp_idt82p33.c:604-636 | without a disturbing call in progress, frequency, delay and flag stay until the worker in every interleaving, and the delay is not started again |
| SabrePullIn.ModeUntilWorker | linux/drivers/ptp/ptp_idt82p33.c:981-1021 | without an adjfine past its tests the mode stays until then iff no phase call takes it |
| SabrePullIn.DisturbedBy | linux/drivers/ptp/ptp_idt82p33.c:1023-1078 | every disturbing call has a continuation that changes the frequency or starts the delay again, without a bus error unless it only rewrites the word that is there |
| SabrePullIn.LeftAloneExactly | linux/drivers/ptp/ptp_idt82p33.c:1023-1078 | a pull-in survives every run up to its worker iff no disturbing call is in progress, on a bus that tears failed writes and on one that does not |
| SabrePullIn.EndedAtOnceExactly | linux/drivers/ptp/ptp_idt82p33.c:866-878 | a pull-in can be ended at once iff a worker is at the lock already |
| SabrePullIn.WorkerFiredSince | linux/drivers/ptp/ptp_idt82p33.c:866-878 | the worker that reaches the lock has been taken off the queue since the start |
| SabrePullIn.PullInRunsItsCourse | linux/drivers/ptp/ptp_idt82p33.c:576-636 | from adjtime to worker, in every interleaving: the register holds the pull-in's frequency, step and delay make up the phase, DCO mode holds iff no phase call takes it; the worker ends the pull-in iff its write does not fail, and the register then holds the old frequency, else still the pull-in's on a bus that does not tear |
| SabrePullIn.PlainPullIn | linux/drivers/ptp/ptp_idt82p33.c:1049-1065 | a run from the start that satisfies the assumptions of that result: one adjtime and its worker |
| SabrePullIn.LateAdjfineOverridesPullIn | linux/drivers/ptp/ptp_idt82p33.c:1023-1047 | a run from the start in which a late adjfine replaces a pull-in's frequency and the worker then restores that one |
| SabrePullIn.LateAdjtimeReplacesPullIn | linux/drivers/ptp/ptp_idt82p33.c:1049-1065 | a run from the start in which a second adjtime replaces the first one's pull-in and both succeed |
| SabrePullIn.PhaseCallTakesModeFromPullIn | linux/drivers/ptp/ptp_idt82p33.c:981-1021 | a run from the start in which a phase call takes the mode in the middle of a pull-in |
| SabrePullIn.EarlierWorkerCutsPullInShort | linux/drivers/ptp/ptp_idt82p33.c:866-878 | a run from the start in which the worker of an earlier pull-in ends a new one at once |
| SabreHoldover.Driver.RmwMode | linux/drivers/misc/rsmu_sabre.c:99-182 | the whole new state after the read-modify-write of the operating mode, with the saved copy |
| SabreHoldover.Driver.RmwManual | linux/drivers/misc/rsmu_sabre.c:184-190 | the whole new state after setting manual holdover |
| SabreHoldover.Driver.SetHoldoverMode | linux/drivers/misc/rsmu_sabre.c:302-343 | the whole new state and the error, for every saved mode and bus failure |
| SabreHoldover.HoldoverRoundTrip | linux/drivers/misc/rsmu_sabre.c:302-343 | after an enable from any mode, disabling succeeds iff that mode was DCO, write-phase or automatic, and leaves holdover on otherwise |
| SabreHoldover.ManualBit | linux/drivers/misc/rsmu_sabre.c:184-190 | bit 7 of the holdover register after enabling, after disabling from DCO mode and after disabling from another mode, with the other bits kept |
| SabreHoldover.SticksExactly | linux/drivers/misc/rsmu_sabre.c:302-343 | for every call and bus failure, exactly when it ends stuck in holdover; a successful enable does iff holdover was on already |
| SabreHoldover.EnablingTwiceSticks | linux/drivers/misc/rsmu_sabre.c:302-343 | after any two successful enables the saved mode is holdover itself |
| SabreHoldover.StuckStep | linux/drivers/misc/rsmu_sabre.c:302-343 | stuck holdover refuses to be disabled, and survives a call of either driver iff it is not a mode request of the PHC for another mode than the cached one that the bus carries out |
| SabreHoldover.StuckUntilFreed | linux/drivers/ptp/ptp_idt82p33.c:99-126 | over every run that mixes holdover calls and mode requests, stuck holdover lasts exactly until the first such request |
| SabreHoldover.StuckForEver | linux/drivers/misc/rsmu_sabre.c:302-343 | no sequence of holdover calls alone ends it, and every request to disable it is refused |
| SabreHoldover.HoldoverHidesFromPhc | linux/drivers/ptp/ptp_idt82p33.c:99-126 | a frequency write that succeeds leaves the device in DCO mode iff it was there or the cached mode was another one, and in holdover iff holdover was forced behind a cache that says DCO |
| SabreHoldover.HoldoverKeepsPhcCoherent | linux/drivers/misc/rsmu_sabre.c:302-343 | the PHC's cached mode is right after holdover iff the mode it asked for meanwhile is the one from before |
| ClockMatrixPhc.Channel.constructor | linux/drivers/ptp/ptp_clockmatrix.c:1675-1705 | a channel starts with an unknown mode and no pull-in |
| ClockMatrixPhc.Channel.SetModeField | linux/drivers/ptp/ptp_clockmatrix.c:1393-1428 | the registers after the two timers and the mode field, with every failure between them |
| ClockMatrixPhc.Channel.ConfigureMode | linux/drivers/ptp/ptp_clockmatrix.c:1450-1532 | the whole new state: the cached mode changes only after the hardware |
| ClockMatrixPhc.Channel.InitializeMode | linux/drivers/ptp/ptp_clockmatrix.c:1623-1705 | the whole new state of a probe |
| ClockMatrixPhc.Channel.AdjfineInner | linux/drivers/ptp/ptp_clockmatrix.c:1759-1801 | the whole new state after a frequency write |
| ClockMatrixPhc.Channel.AdjustFine | linux/drivers/ptp/ptp_clockmatrix.c:1925-1945 | the whole new state after adjfine |
| ClockMatrixPhc.Channel.AdjustPhase | linux/drivers/ptp/ptp_clockmatrix.c:1719-1757 | the whole new state after adjphase |
| ClockMatrixPhc.Channel.DoPullInSw | linux/drivers/ptp/ptp_clockmatrix.c:1580-1621 | the whole new state after a pull-in by software |
| ClockMatrixPhc.Channel.DoPullInFw | linux/drivers/ptp/ptp_clockmatrix.c:907-987 | the whole new state after a pull-in by the device, with every failure between its writes |
| ClockMatrixPhc.Channel.AdjustTime | linux/drivers/ptp/ptp_clockmatrix.c:1873-1906 | the whole new state after adjtime, in all its ways |
| ClockMatrixPhc.Channel.StopPullIn | linux/drivers/ptp/ptp_clockmatrix.c:1534-1560 | the pull-in flag is cleared only after the old frequency has been written back |
| ClockMatrixPhc.InitializeCoherent | linux/drivers/ptp/ptp_clockmatrix.c:1623-1705 | every probe leaves the cached mode coherent and the run invariant true; exactly when the mode is unknown, exactly when the probe fails, and a channel found in write-phase mode stays there iff the switch to write-frequency mode fails |
| ClockMatrixPhc.FieldsApart | linux/drivers/misc/rsmu_cm.c:166-207 | the mode field and the holdover field of DPLL_MODE can be set without disturbing each other |
| ClockMatrixPhc.WriteFailsExactly | linux/drivers/ptp/ptp_clockmatrix.c:1759-1801 | a frequency write fails iff its data write does, or an access of the mode change that the cached mode makes necessary |
| ClockMatrixPhc.ConfigureCoherent | linux/drivers/ptp/ptp_clockmatrix.c:1393-1532 | a mode change, failing or not, keeps cached and real mode equal and the holdover bits as they are, in both variants |
| ClockMatrixPhc.WriteFrequencySafe | linux/drivers/ptp/ptp_clockmatrix.c:1759-1801 | a frequency write keeps mode and holdover coherent and leaves either the new word, the old one, or a recorded torn register |
| ClockMatrixPhc.StepSafe | linux/drivers/ptp/ptp_clockmatrix.c:1719-1945 | every call of either driver keeps the invariant |
| ClockMatrixPhc.MiscWritesSafe | linux/drivers/misc/rsmu_cm.c:489-502 | what the misc driver writes back, for holdover or unchanged after the priorities, keeps the invariant because it was read under the lock |
| ClockMatrixPhc.HoldoverDone | linux/drivers/misc/rsmu_cm.c:166-207 | after a holdover request on a working bus bits 0-2 of DPLL_MODE are 3 iff holdover was asked for and 0 otherwise, and nothing else has changed |
| ClockMatrixPhc.HoldoverFailed | linux/drivers/misc/rsmu_cm.c:166-207 | a failed request changes nothing |
| ClockMatrixPhc.PrioritiesDone | linux/drivers/misc/rsmu_cm.c:496-502 | the end of a priorities call lets no PHC call in between its read and its write and leaves the channel as it was |
| ClockMatrixPhc.UnlockedWriteBack | linux/drivers/misc/rsmu_cdev.c:219-225 | if a PHC call came between the misc driver's read and its write-back, the cached mode would be right afterwards iff the call has not changed the mode, or the mode is kept elsewhere |
| ClockMatrixAdjfine.StepOrderly | linux/drivers/ptp/ptp_clockmatrix.c:1873-1945 | every step of every call, the unlocked ones included, keeps the invariant unless a frequency write comes between an adjfine's write and its keeping of the frequency |
| ClockMatrixAdjfine.OrderlyRuns | linux/drivers/ptp/ptp_clockmatrix.c:1925-1945 | in every interleaving without such a write, the frequency kept for the worker is the one in the register whenever no pull-in is on and no adjfine is between the two |
| ClockMatrixAdjfine.PullInShutsOut | linux/drivers/ptp/ptp_clockmatrix.c:1925-1932 | a call that comes during a pull-in does not pass its test, and any other does |
| ClockMatrixAdjfine.LockedBodiesWork | linux/drivers/ptp/ptp_clockmatrix.c:1534-1560 | the worker restores the kept frequency and ends the pull-in iff its write does not fail; a successful phase call writes its phase |
| ClockMatrixAdjfine.KeptLast | linux/drivers/ptp/ptp_clockmatrix.c:1936-1942 | each pending frequency has an order of finishing in which it is the one kept |
| ClockMatrixAdjfine.SettlesExactly | linux/drivers/ptp/ptp_clockmatrix.c:1936-1942 | the frequency kept will be the one in force in whatever order the calls finish iff every pending one is, or none is pending and it is kept already |
| ClockMatrixAdjfine.KeptInOtherOrder | linux/drivers/ptp/ptp_clockmatrix.c:1925-1945 | a run in which two adjfine calls leave one frequency in the register and the other to the worker |
| ClockMatrixAdjfine.PullInFromStaleFrequency | linux/drivers/ptp/ptp_clockmatrix.c:1580-1621 | a run in which an adjtime adds its pull-in to the frequency from before an adjfine that has already written its own |
| ClockMatrixPhc.EveryRunIsSafe | linux/drivers/ptp/ptp_clockmatrix.c:1534-1945 | at every point of every mixed run of both drivers: cached mode is real, register encodes the current frequency outside a pull-in, a pull-in has its worker, holdover is what was asked for last |
| ClockMatrixPhc.FollowsFromFirstWrite | linux/drivers/ptp/ptp_clockmatrix.c:1534-1560 | if failed writes leave the device alone, the register follows the driver from the first successful frequency write on |
| ClockMatrixPhc.CallsEnterTheirMode | linux/drivers/ptp/ptp_clockmatrix.c:1719-1801 | a successful adjfine or adjphase leaves the hardware in its own mode with the word of the call in its register and, if the mode field changed, the timers of that mode |
| ClockMatrixPhc.PullInExcludes | linux/drivers/ptp/ptp_clockmatrix.c:1873-1945 | adjtime is busy and adjfine without effect for every bus behaviour iff a pull-in is on |
| ClockMatrixPhc.DevicePullInExact | linux/drivers/ptp/ptp_clockmatrix.c:907-987 | after an adjtime of a channel in PLL mode the device has minus the offset, the allowed slope and the start bit, iff no access fails and no pull-in is running |
| ClockMatrixPhc.PullsExactly | linux/drivers/ptp/ptp_clockmatrix.c:1590-1595 | an adjtime pulls in by software iff the channel has a manual reference, no pull-in is on and it asks for at least 2 ns and less than 15 us |
| ClockMatrixPhc.LimitIsLargestAllowed | linux/drivers/ptp/ptp_clockmatrix.c:1597-1598 | the limit of a pull-in is the largest offset that neither driver nor channel forbids |
| ClockMatrixPhc.PullInDelivers | linux/drivers/ptp/ptp_clockmatrix.c:1562-1621 | a pull-in whose accesses succeed writes the current frequency plus the step iff the sum is within the clamp, and schedules the delay that turns the step into the phase whenever it fits 32 bits, as it does for every adjtime |
| ClockMatrixPhc.PullInDirection | linux/drivers/ptp/ptp_clockmatrix.c:1562-1578 | a pull-in moves the frequency the way asked for iff the current frequency is short of 144000 ppb on that side, and the wrong way iff it is past that |
| ClockMatrixPhc.StepsCarryDelta | linux/drivers/ptp/ptp_clockmatrix.c:773-905 | the registers after a successful step denote exactly the 64-bit amount |
| ClockMatrixPhc.StepFailsExactly | linux/drivers/ptp/ptp_clockmatrix.c:773-832 | a step succeeds iff no access and not the handshake fails |
| ClockMatrixPhc.MostNegativeStepIsLost | linux/drivers/ptp/ptp_clockmatrix.c:1873-1906 | the most negative step never reaches the time of day: dropped by a channel with manual reference, turned into a device pull-in of 0 by the other, exactly when no access fails and none is running |
| ClockMatrixPullIn.LeftAloneUntilWorker | linux/drivers/ptp/ptp_clockmatrix.c:1580-1621 | nothing touches frequency, delay and flag of a pull-in until the worker gets the lock |
| ClockMatrixPullIn.ModeUntilWorker | linux/drivers/ptp/ptp_clockmatrix.c:1719-1757 | its mode stays until then iff no phase call takes it |
| ClockMatrixPullIn.PullInRunsItsCourse | linux/drivers/ptp/ptp_clockmatrix.c:1534-1621 | from adjtime to worker, in every run: the register holds the pull-in's frequency, step and delay make up the phase, the hardware writes frequencies iff no phase call takes the mode; the worker ends the pull-in iff its write does not fail, and the register then holds the old frequency, else still the pull-in's on a bus that does not tear |
| ClockMatrixPullIn.ProbedIsFresh | linux/drivers/ptp/ptp_clockmatrix.c:1675-1705 | a probed channel with manual reference satisfies the assumptions of the two runs below |
| ClockMatrixPullIn.PhaseCallTakesModeFromPullIn | linux/drivers/ptp/ptp_clockmatrix.c:1908-1923 | a run in which a phase call takes the mode in the middle of a pull-in |
| ClockMatrixPullIn.PullInTheWrongWay | linux/drivers/ptp/ptp_clockmatrix.c:1562-1578 | a run in which a clock 200 ppm fast is asked to gain 10 us and is slowed down |
| ClockMatrixPullIn.FailedRestoreWedges | linux/drivers/ptp/ptp_clockmatrix.c:1547-1560 | the worker leaves a pull-in that nobody will end iff its frequency write fails |
| ClockMatrixPullIn.WedgedForEver | linux/drivers/ptp/ptp_clockmatrix.c:1873-1945 | then no run changes the frequency, every adjfine is without effect and every adjtime busy |
| ClockMatrixPullIn.WedgedExactly | linux/drivers/ptp/ptp_clockmatrix.c:1547-1560 | a pull-in stays on in every run iff it has no worker |
| Extts.Idtcm.constructor | linux/drivers/ptp/ptp_clockmatrix.c:2434-2500 | no channel on, nothing queued |
| Extts.Idtcm.ExttsEnable | linux/drivers/ptp/ptp_clockmatrix.c:295-336 | the whole new state and the error of a request to switch a channel on |
| Extts.Idtcm.ExttsDisable | linux/drivers/ptp/ptp_clockmatrix.c:274-336 | the whole new state and the error of a request to switch a channel off |
| Extts.Idtcm.CheckChannel | linux/drivers/ptp/ptp_clockmatrix.c:458-483 | the whole new state after one channel has been polled |
| Extts.Idtcm.ExttsCheck | linux/drivers/ptp/ptp_clockmatrix.c:2361-2399 | the whole new state after a poll of all channels |
| Extts.SingleShotMeaning | linux/drivers/ptp/ptp_clockmatrix.c:268-272 | a mask is not single-shot iff exactly one channel is on |
| Extts.EnableMeans | linux/drivers/ptp/ptp_clockmatrix.c:295-325 | switching on succeeds iff flags, channel, pin and arming are good, and then exactly that channel is on in addition, armed and recorded as requested; else nothing changes |
| Extts.DisableMeans | linux/drivers/ptp/ptp_clockmatrix.c:327-333 | switching off succeeds iff flags and channel are good, and then exactly that channel is off in addition and the poll is cancelled iff none is left; else nothing changes |
| Extts.EnableSafe | linux/drivers/ptp/ptp_clockmatrix.c:274-336 | switching a channel on keeps the invariant, whatever fails |
| Extts.DisableSafe | linux/drivers/ptp/ptp_clockmatrix.c:274-336 | switching a channel off keeps the invariant |
| Extts.CheckOneSafe | linux/drivers/ptp/ptp_clockmatrix.c:458-483 | polling one channel keeps the invariant of every channel, whatever fails |
| Extts.StepSafe | linux/drivers/ptp/ptp_clockmatrix.c:2361-2399 | every event, including the worker's test outside the lock, keeps the invariant |
| Extts.PollingNeverLosesItsWorker | linux/drivers/ptp/ptp_clockmatrix.c:2361-2399 | at every point of every interleaving a channel that is on has a worker and an event channel, two channels share single-shot polling, and no arming is reported twice without a failed re-arm |
| Extts.PollReportsOnce | linux/drivers/ptp/ptp_clockmatrix.c:458-483 | a poll reports a channel once iff it is on, its trigger has fired and both reads succeed |
| Extts.EdgeIsReported | linux/drivers/ptp/ptp_clockmatrix.c:2361-2399 | an edge on a channel that is on is reported once by the next poll on a working bus |
| Extts.OffStaysSilent | linux/drivers/ptp/ptp_clockmatrix.c:274-336 | a channel that is off reports nothing, over every run, until a request switches it on |
| Extts.FailedRearmReportsTwice | linux/drivers/ptp/ptp_clockmatrix.c:458-483 | the next poll reports the same capture again iff the re-arm failed |
| TodTrigger.Channel.SetTodTrigger | linux/drivers/ptp/ptp_idt82p33.c:128-153 | the whole new state, for both halves of the trigger register |
| TodTrigger.Channel.AdjtimeInternalTriggered | linux/drivers/ptp/ptp_idt82p33.c:481-520 | the whole new state and the error, with every failure between the accesses |
| TodTrigger.Channel.AdjtimeWorkaround | linux/drivers/ptp/ptp_idt82p33.c:522-533 | the scheduled work is a step by nothing and never schedules itself |
| TodTrigger.NeverRightByAccident | linux/drivers/ptp/ptp_idt82p33.c:496-505 | a stored time that is off by seconds, by wrapping or by both never equals the right one |
| TodTrigger.StepExactWhenGuessRight | linux/drivers/ptp/ptp_idt82p33.c:496-505 | for every step the stored bytes are the time of the loading second plus the step plus 32 ns iff the arming falls into the second that the driver guessed and the target time is neither negative nor beyond 64 bits |
| TodTrigger.GuessRight | linux/drivers/ptp/ptp_idt82p33.c:496-501 | it does when arming takes less than 5 ms, or less than a second after the wait |
| TodTrigger.CallFailsExactly | linux/drivers/ptp/ptp_idt82p33.c:481-520 | the call fails iff one of its accesses does |
| TodTrigger.SetTriggerFails | linux/drivers/ptp/ptp_idt82p33.c:128-153 | a trigger is set iff it is at most 9 and both accesses succeed, and else nothing changes |
| TodTrigger.WorkaroundScheduled | linux/drivers/ptp/ptp_idt82p33.c:514-517 | the workaround is scheduled iff the step is not a whole number of seconds and the time has been stored |
| TodTrigger.FailedStepLeaves | linux/drivers/ptp/ptp_idt82p33.c:481-520 | what a failed call leaves in the time to load, and that the write trigger is not armed |
| TodTrigger.SuccessfulStepIsExact | linux/drivers/ptp/ptp_idt82p33.c:481-520 | a successful call within those times leaves the device armed to load exactly that time iff the target time is neither negative nor beyond 64 bits |
| TodTrigger.RemainderZero | linux/drivers/ptp/ptp_idt82p33.c:514-515 | the C remainder of a step is 0 iff the step is a whole number of seconds |
| OutputSync.Deal | linux/drivers/ptp/ptp_clockmatrix.c:658-695 | the bits taken off the shifted mask for one PLL are those of the outputs it is wired to |
| OutputSync.SyncPlls | linux/drivers/ptp/ptp_clockmatrix.c:658-702 | exactly the PLLs with a bit set are called, in order, up to the first failure |
| OutputSync.SyncPpsOutput | linux/drivers/ptp/ptp_clockmatrix.c:629-704 | the same with the multiplexers read from the device |
| OutputSync.FannedOutExactly | linux/drivers/ptp/ptp_clockmatrix.c:641-655 | an output is fanned out iff bits 0 and 2 of the spare register are set |
| OutputSync.ArgumentsOf | linux/drivers/ptp/ptp_clockmatrix.c:658-695 | which argument of which call carries which mask bit, for each setting of the multiplexers |
| OutputSync.EveryOutputOnce | linux/drivers/ptp/ptp_clockmatrix.c:629-704 | for every mask and multiplexer setting, output q is synchronised by one call iff bit q is set, and by none otherwise |
| ClockPriorities.SlotDecodes | linux/drivers/misc/rsmu_cm.c:473-475 | a slot byte reads back as enabled, its clock and its group |
| ClockPriorities.SlotMeans | linux/drivers/misc/rsmu_cm.c:449-491 | a slot is enabled iff the list has an entry for it, with the entry's reference and, as group, the number of its run of ties up to 3, or 0 for a single entry; all other slots are 0 |
| ClockPriorities.Dpll.SetClockPriorities | linux/drivers/misc/rsmu_cm.c:430-503 | every slot's contents, the error, and that the mode register is rewritten iff all 19 slots have been written |
| ClockPriorities.TiesShareGroup | linux/drivers/misc/rsmu_cm.c:449-471 | neighbours with equal priorities always share a group iff there are at most three runs of ties |
| ClockPriorities.GroupsSeparateRuns | linux/drivers/misc/rsmu_cm.c:449-471 | entries of one non-zero group are one run of equal priorities |
| FemtoClock.ClockIndexToRefIndex | linux/drivers/misc/rsmu_fc3.c:309-329 | the least reference that carries the clock, 4 if none does, or the error code cut to eight bits |
| FemtoClock.SearchInvertsLookup | linux/drivers/misc/rsmu_fc3.c:537-545 | searching for a looked-up clock gives a reference with that clock, and the same reference iff no smaller one carries it |
| FemtoClock.ConnectSetsClock | linux/drivers/misc/rsmu_fc3.c:322-325 | connecting a reference to a clock in its three bits makes the lookup give that clock, and leaves the other references alone |
| FemtoClock.UsableExactly | linux/drivers/misc/rsmu_fc3.c:583-618 | without a bus error an entry is accepted iff clock and priority are in range and some reference carries the clock |
| FemtoClock.FieldPositions | linux/drivers/misc/rsmu_fc3.c:588-614 | where the disable bit and the priority bits of a reference are |
| FemtoClock.Driver.SetClockPriorities | linux/drivers/misc/rsmu_fc3.c:550-624 | an invalid entry leaves the register untouched; otherwise the composed register is written |
| FemtoClock.RegisterIsMap | linux/drivers/misc/rsmu_fc3.c:580-618 | a reference is enabled iff some entry ends up with it, with the priority of the last such entry; everything else is 0 |
| FemtoClock.SameMapSameRegister | linux/drivers/misc/rsmu_fc3.c:580-618 | lists that denote the same map give the same register |
| FemtoClock.EntriesCommute | linux/drivers/misc/rsmu_fc3.c:580-618 | neighbouring entries for different references can change places |
| FemtoClock.FailedReadNoticed | linux/drivers/misc/rsmu_fc3.c:309-329 | a failed multiplexer read makes the call fail iff its code modulo 256 is not 0 to 3 |
| FemtoClock.ReadingDecodes | linux/include/linux/mfd/idtRC38xxx_reg.h:132-133 | every pair of signed fields reads back from its packed 40-bit word |
| FemtoClock.MeasurementWithinTwo | linux/drivers/misc/rsmu_fc3.c:375-384 | no 64-bit step overflows and the result is within 2 ns of the exact rational offset, for every reading and positive frequencies |
| CInt.StoreLe | linux/drivers/ptp/ptp_clockmatrix.c:148-160 | the store loop writes the little-endian bytes of the value and nothing else |
| CInt.LoadLe | linux/drivers/ptp/ptp_clockmatrix.c:117-127 | the load loop computes the value of the bytes |
| CInt.LeByteAt | linux/drivers/ptp/ptp_clockmatrix.c:148-160 | stored byte i has the weight 256^i |
| CInt.LeRoundTrip | linux/drivers/ptp/ptp_clockmatrix.c:105-163 | n stored bytes keep exactly the value modulo 256^n |
| CInt.LeSignedRoundTrip | linux/drivers/misc/rsmu_cm.c:323-331 | sign extension of n stored bytes gives the value back iff it fits n bytes |

## Left out

- Bus adapters, regmap, ioctl copying, device-tree, probing: a transfer is an error code and an effect. A failed page or byte write is taken to leave the device unchanged; `PagedBus.WriteLandsExactlyWhenPageIsRight` says what happens otherwise. A failed multi-byte data write may leave any bytes (`torn`) or none.
- The SMBus variants and the regmap ranges that page the Sabre over I2C.
- Locks and work queues: a locked body is one atomic step, delayed work a flag with a delay in ms. In `SabrePhc`, `ClockMatrixAdjfine` and `Extts` the tests outside the lock are steps of their own; a locked body is never observed half-way there, as each body writes the fields that those tests read at most once.
- ClockMatrixPhc.EveryRunIsSafe: callbacks are atomic steps; their unlocked parts are steps of their own in `ClockMatrixAdjfine`, without the misc driver's calls.
- ClockMatrixPhc.Channel.AdjustFine: one uninterrupted call; the driver keeps the frequency for the worker only after the unlock, which is a step of its own in `ClockMatrixAdjfine`.
- ClockMatrixPullIn.PullInRunsItsCourse: about the registers of the channel; a holdover that the misc driver forces meanwhile is in DPLL_MODE, see `ClockMatrixPhc.EveryRunIsSafe`.
- SabrePhc.EveryInterleavingIsSafe: frequencies that fit 32 bits only, which is what the PTP core passes on (max_adj is 92000 ppb); after a torn write the register is unspecified until the next successful one.
- SabrePullIn.LeftAloneExactly: calls in progress ask for frequencies that fit 32 bits, as in every reachable state.
- SabrePhc.Channel.Adjtime: a step at or above the snap threshold touches none of the modelled fields and is one error code here, because its registers and its sequence are modelled by `TodTrigger`; the immediate step as a fallback after a failure is not modelled.
- SabrePhc.Channel.StartDoubleDco: the frequency is added in a long of 64 bits, as on a 64-bit kernel.
- TodTrigger.Channel.AdjtimeInternalTriggered: reading the clock also suspends external timestamps, which are not part of this model.
- FrequencyWord.FfoMatchesFrequency: on a ClockMatrix the misc driver reads the filter status and not the register that the PHC writes; the two are taken to be equal, as they are when the filter follows the written word.
- FemtoClock.MeasurementWithinTwo: a time reference or APLL frequency of 0, which the driver would divide by.
- PhaseWord.SabrePhaseNeverSpills: the mode change before the register write is part of `SabrePhc` only.
- Jiffies rounding of delays, `mdelay`, measured bus overheads; elapsed time is the parameter `latency` of `TodTrigger`.
- The Sabre's settime.
- The Sabre firmware loader, the FemtoClock3 loader and measurement modes, the ClockMatrix loader of the misc driver.
- A trailing partial record of a firmware file, and the state-machine reset before a full load.
- The register sequence of `_sync_pll_output`: `OutputSync` has its arguments, order and errors.
- The deprecated adjtime and settime paths of old ClockMatrix firmware, hardware ToD writes, combo mode, DPLL states, reference monitors, periodic outputs, TDC go.
- Address tables and the checks of DPLL numbers against them: each model has one DPLL or channel.
- Raw register ioctls, which bypass the page cache and the cached modes.
- `rsmu_ctl`, a command-line program over the ioctls.
