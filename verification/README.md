# wink-micro-os: verified kernels

A Dafny model of the stateful kernels of wink-micro-os, of the health-pot appliance built on it,
and of two algorithms of its tooling. Code that updates variables in place is modelled by classes,
arrays and loops, and each such method is proved equal to a function from old to new state; what the
code is for is then proved about those functions, over every input and every run.

| area | modules | main results |
|---|---|---|
| device-config blob and CRC-32 | LinearRegister, Crc32, DevConfig | damage within any 32 consecutive bits of a blob of any length is always rejected; the parser accepts exactly the encodings |
| health-pot thermostat | Ntc, Pot, PotTasks, PotSafety, PotRuns, PotHeat, PotControl, PotBackstop, PotSlope, PotRelay, PotWitness | what every control task and key does, exactly; 60 s lockout after thermal faults and hot power-up under any keys and readings; exactly which readings the heating backstop bounds; exactly when dry fire is declared; exactly when the relay dwell holds |
| GPIO interrupt teardown | GpioIsr | quiescence on any number of cores after disable and synchronize |
| deferred calls | Deferred, DeferredProtocol | no lost wake-up, exactly once, in order, and progress |
| ring buffer and event queue | Bits, RingBuf, EventQueue, EventRuns | byte queue across index wrap-around; event queue as a list with updates in place; every post accounted for; blocked means empty |
| mutexes and semaphores of the simulators | Seqs, Sets, WaiterRing, Osal, OsalPool, OsalRuns, OsalSafety, OsalTiming | mutual exclusion, blocking order, timeouts neither early nor missed, conservation of gives, and exactly when a mutex is handed to a task that has timed out |
| I2C device cache | Lru, LruPool, LruRuns | least-recently-used refinement and exact handle ownership |
| PWM timer router | Pwm, PwmPool, PwmRuns | reference counts on every run; exactly which frequency changes break the sharing |
| soft timers and periodic handles | SoftTimer, SoftTimerPool, SoftTimerRuns, Periodic, PeriodicPool | exact periods under re-entrant callbacks; stopped timers stay silent; one timer per handle |
| document alignment | DocTree, DocSections, DocNodes, DocDiff, DocCredit, DocAlign | the tree diff is exact; how far its greedy credit is a longest common subsequence |
| dependency closure | Closure | the worklist computes the reachable set |
| DAC conversion | Dac, DacPool | exact error bound and exact round trip, both as equivalences |

Arith holds division facts and Status the status codes.

`dafny verify dfyconfig.toml` checks the whole project.

## Where the code and its documentation differ

The model follows the code.

- A mutex (or a semaphore token) can be handed to a waiter that has already timed out but has not run
  yet: the waiter is told TIMEOUT and owns the mutex. `OsalSafety.LeaksIff` gives the exact condition.
- The comment at health_pot.c:839-840 says that a rapid power toggle cannot reclose the contact with
  no time open. It can, between two one-second tasks (`PotWitness.RapidToggleRecloses`);
  `PotRelay.RecloseIff` says exactly when.
- The timeout backstop is described as monotonic and tamper-proof. In the DIRECT modes it bounds nothing
  between 45 C and the target, and heat_seconds wraps there (`PotBackstop.BackstopCovers`,
  `PotBackstop.SecondsCanWrap`).
- `pal_gpio_synchronize_interrupt` returns OK when it times out, and then promises nothing.
- `wink_periodic_change_period` is documented to round like the start; the start rounds up, the change
  rounds down.
- A PWM frequency change also changes the frequency of every other channel on the same timer.
- The block credit that the alignment script calls a longest common subsequence is a greedy one;
  `DocCredit` says how far that is the same.
- The ring buffer's creation check also accepts the size 0.
- I2C address 0, which marks an empty cache slot, is not refused by the cache.
- A DAC resolution above 16 bits is accepted and then silently truncated.

## Model

| member | source | states |
|---|---|---|
| Crc32.UpdateByte | wink-micro-os/runtime/src/wink_dev_config.c:8-15 | folding one byte in and eight turns of the bit loop are the specification step that all error-detection results are about |
| Crc32.Compute | wink-micro-os/runtime/src/wink_dev_config.c:5-18 | for every buffer and length the two nested loops return the complement of the register fed with exactly the first len bytes |
| Crc32.CheckValue | wink-micro-os/runtime/src/wink_dev_config.c:5-18 | the checksum of "123456789" is 0xCBF43926, the check value of CRC-32/ISO-HDLC: initial register, polynomial, bit order and final complement are the standard ones |
| LinearRegister.SerialLinear | wink-micro-os/runtime/src/wink_dev_config.c:9-15 | for any shift register with a linear step: the difference of two runs is the run of the difference, for messages of any length |
| LinearRegister.ShortKernel | wink-micro-os/runtime/src/wink_dev_config.c:9-15 | at most width bits that return the zero register to zero are all zero bits |
| LinearRegister.BurstDetected | wink-micro-os/runtime/src/wink_dev_config.c:5-18 | two messages of one length that differ only within width consecutive bits and leave the same register are the same message |
| Crc32.WordLawful | wink-micro-os/runtime/src/wink_dev_config.c:10-14 | the source's bit step is linear over exclusive or, and only zero steps to zero |
| Crc32.WordBanded | wink-micro-os/runtime/src/wink_dev_config.c:10-14 | stepping back over k bits from zero only reaches words below 2^k, which is what makes 32-bit bursts visible |
| Crc32.FeedIsSerial | wink-micro-os/runtime/src/wink_dev_config.c:7-16 | the byte-wise loop is the bit-serial register on the least-significant-bit-first stream |
| Crc32.BurstChangesRegister | wink-micro-os/runtime/src/wink_dev_config.c:5-18 | messages of any length that agree outside any 32 consecutive bits (aligned or not) give the same register if and only if they are equal |
| Crc32.BytesAgreeOutside | wink-micro-os/runtime/src/wink_dev_config.c:5-18 | damage confined to four consecutive bytes is such a 32-bit window of the bit stream |
| Crc32.ComplementLeavesResidue | wink-micro-os/runtime/src/wink_dev_config.c:17-17 | any register followed by its own complement in little-endian order ends at the constant 0xDEBB20E3 (good FCS of Appendix C.3 of RFC 1662) |
| Crc32.ResidueIff | wink-micro-os/runtime/src/wink_dev_config.c:54-59 | body plus four stored bytes leaves the residue if and only if the stored bytes are the checksum of the body |
| DevConfig.Apply | wink-micro-os/runtime/src/wink_dev_config.c:20-79 | every verdict of the parser in its order of checks; callbacks run only on OK, and then exactly the first registry entry per item in blob order |
| DevConfig.FindEntry | wink-micro-os/runtime/src/wink_dev_config.c:68-76 | the inner loop stops at the first entry with the id, so a duplicate registry entry is never applied |
| DevConfig.RunItems | wink-micro-os/runtime/src/wink_dev_config.c:61-77 | the two nested loops run one callback per item that has an entry, in blob order |
| DevConfig.DispatchOne | wink-micro-os/runtime/src/wink_dev_config.c:61-77 | an item runs one callback, with its parameters, of the first entry with its id, and none exactly if there is no such entry |
| DevConfig.DispatchConcat | wink-micro-os/runtime/src/wink_dev_config.c:61-77 | lists of items run their callbacks one after the other, which with the former determines them |
| DevConfig.EncodeAccepted | wink-micro-os/runtime/src/wink_dev_config.c:40-79 | round trip: every item list that fits is accepted once encoded, and is read back unchanged |
| DevConfig.AcceptedIsEncoding | wink-micro-os/runtime/src/wink_dev_config.c:40-59 | an accepted blob is byte for byte the encoding of the items read from it |
| DevConfig.AcceptsExactlyEncodings | wink-micro-os/runtime/src/wink_dev_config.c:40-59 | OK exactly on the encodings of item lists, and no blob encodes two lists |
| DevConfig.AcceptedResidue | wink-micro-os/runtime/src/wink_dev_config.c:54-59 | an accepted blob of any length leaves the good-message residue in the register |
| DevConfig.AcceptedLayout | wink-micro-os/runtime/src/wink_dev_config.c:36-59 | an accepted blob byte by byte: the magic letters from the low byte, version 1, a little-endian count, twenty bytes an item, four checksum bytes, low byte first |
| DevConfig.ItemLayout | wink-micro-os/runtime/src/wink_dev_config.c:61-66 | an item is its id, low byte first, and sixteen parameter bytes |
| DevConfig.ByteValue | wink-micro-os/runtime/src/wink_dev_config.c:36-39 | the number in a byte of the count, bit by bit |
| DevConfig.BurstRejected | wink-micro-os/runtime/src/wink_dev_config.c:5-59 | damage to an accepted blob confined to any 32 consecutive bits, in body, checksum or both, is accepted if and only if it is no damage |
| DevConfig.FourBytesRejected | wink-micro-os/runtime/src/wink_dev_config.c:5-59 | in particular damage confined to four consecutive bytes |
| Ntc.CodeToTemp | wink-micro-app/appliances/health_pot/health_pot.c:268-283 | the search loop returns the interpolated reading of the first row at or below the code, and both ends of the scale |
| Ntc.NoWrap | wink-micro-app/appliances/health_pot/health_pot.c:274-279 | no interpolation product leaves the 16-bit unsigned integers of the controller |
| Ntc.Scale | wink-micro-app/appliances/health_pot/health_pot.c:268-283 | every code reads between 5 and 105 degrees |
| Ntc.Monotone | wink-micro-app/appliances/health_pot/health_pot.c:268-283 | a lower code (hotter probe) never reads colder, truncation and row changes included |
| Ntc.ThresholdAt | wink-micro-app/appliances/health_pot/health_pot.c:268-283 | each row is an exact threshold: its temperature is reached at its code and not one code earlier |
| Ntc.OnTheLine | wink-micro-app/appliances/health_pot/health_pot.c:268-283 | between two rows the reading is the straight line through them rounded down, said by inequalities |
| Ntc.BeyondTheTable | wink-micro-app/appliances/health_pot/health_pot.c:268-283 | codes beyond the table read 5 and 105 degrees |
| PotTasks.ReadFiltered | wink-micro-app/appliances/health_pot/health_pot.c:257-266 | three compare-and-swaps return the median of the three reads |
| PotTasks.HealthPot.constructor | wink-micro-app/appliances/health_pot/health_pot.c:1042-1102 | power-up in place ends in the boot state of the specification, lock and prefilled ring included |
| PotTasks.HealthPot.EnterFault | wink-micro-app/appliances/health_pot/health_pot.c:482-508 | the fault handler in place: lock refreshed by thermal codes, thermal code never downgraded |
| PotTasks.HealthPot.HeatSlopeReset | wink-micro-app/appliances/health_pot/health_pot.c:515-523 | the prefill loop leaves sixteen copies of the current code |
| PotTasks.HealthPot.HeatSlopeTask | wink-micro-app/appliances/health_pot/health_pot.c:527-580 | the detector in place, ring rotation and all three verdicts, is the specification step |
| PotTasks.HealthPot.HandleButtons | wink-micro-app/appliances/health_pot/health_pot.c:583-730 | both keys in place, in every state |
| PotTasks.HealthPot.ControlTask | wink-micro-app/appliances/health_pot/health_pot.c:733-889 | sampling, probe judgement, recovery streak and the four-state switch in place |
| PotTasks.HealthPot.OneSecondTask | wink-micro-app/appliances/health_pot/health_pot.c:892-925 | relay clock, lock countdown, over-temperature watch and slope watchdog in place, in this order |
| PotTasks.HealthPot.Pass | wink-micro-app/appliances/health_pot/health_pot.c:1123-1164 | one super-loop pass in place; from a valid state it stays valid and the pin equals the state machine's own wish |
| PotSafety.AlwaysValid | wink-micro-app/appliances/health_pot/health_pot.c:482-925 | in every state reachable by any keys and readings: a running lock implies OFF or FAULT, a closed contact implies HEAT or WARM with a code strictly between short and open, fault codes fit the state, and every byte counter stays below the value at which it could wrap (heat_seconds, the one word counter, is the subject of PotBackstop) |
| PotSafety.TickValid | wink-micro-app/appliances/health_pot/health_pot.c:1123-1164 | one pass keeps that invariant, whatever keys and code it sees |
| PotRuns.ClampNeverMatters | wink-micro-app/appliances/health_pot/health_pot.c:1161-1164 | on every run the output clamp never changes the pin |
| PotRuns.ClampHolds | wink-micro-app/appliances/health_pot/health_pot.c:1161-1164 | under the lock the clamp keeps the pin low in any state, reachable or not |
| PotRuns.SecondsAreHundredths | wink-micro-app/appliances/health_pot/health_pot.c:1141-1159 | the one-second task runs in exactly every hundredth pass, whatever happens in between |
| PotRuns.ThermalFaultLatches | wink-micro-app/appliances/health_pot/health_pot.c:486-488 | a new E-03 or E-04 always comes with the full lock, on a one-second boundary |
| PotRuns.ThermalFaultStays | wink-micro-app/appliances/health_pot/health_pot.c:489-499 | a latched thermal fault leaves only by the ON/OFF key and never changes its code |
| PotRuns.LockHolds | wink-micro-app/appliances/health_pot/health_pot.c:899-904 | from a full lock the contact stays open through the sixtieth one-second task, and the lock counts those tasks exactly |
| PotRuns.ThermalLockout | wink-micro-app/appliances/health_pot/health_pot.c:482-508 | after E-03 or E-04 anywhere in a run the pin is low for the next 6000 passes under any keys and readings |
| PotRuns.HotBootLockout | wink-micro-app/appliances/health_pot/health_pot.c:1042-1053 | a hot power-up keeps the pin low for 6000 passes |
| PotRuns.HotBootCodes | wink-micro-app/appliances/health_pot/health_pot.c:1048-1053 | the power-up lock is set exactly for codes at or below 108 |
| PotRuns.BootExact | wink-micro-app/appliances/health_pot/health_pot.c:1042-1102 | power-up is standby in boil mode with the contact open, no fault and the dwell over, locked exactly on a hot plate |
| PotHeat.ClosedOnlyBelowTarget | wink-micro-app/appliances/health_pot/health_pot.c:789-884 | right after any control task a closed contact means a reading below the target of the moment |
| PotHeat.HeatEntryIsFresh | wink-micro-app/appliances/health_pot/health_pot.c:583-730 | every way a key enters HEAT restarts the seconds, the glitch count and the whole code window, on a healthy probe |
| PotControl.HeatExact | wink-micro-app/appliances/health_pot/health_pot.c:789-846 | a control task in HEAT, in any valid state and at any sound code: it goes over to keep-warm exactly at the DIRECT target or at the thirtieth boiling task, and the contact is closed exactly while that is not reached, the boil is not being confirmed, the code is on the scale and the dwell allows it |
| PotControl.WarmExact | wink-micro-app/appliances/health_pot/health_pot.c:848-857 | a control task in WARM leaves the contact closed exactly up to 2 C above the setpoint, if it was closed, or the reading is more than 2 C below the setpoint and relay_off_sec is at least 3 |
| PotControl.OffExact | wink-micro-app/appliances/health_pot/health_pot.c:771-785 | standby stays standby; a muted sensor fault clears at the third sound reading in a row |
| PotControl.FaultExact | wink-micro-app/appliances/health_pot/health_pot.c:860-873 | a sensor fault returns to standby at the third sound reading in a row, a thermal one never does |
| PotControl.UnsoundExact | wink-micro-app/appliances/health_pot/health_pot.c:743-757 | an open or shorted probe opens the contact and shows E-01 or E-02, silently in muted standby, never over a thermal fault |
| PotControl.FuncExact | wink-micro-app/appliances/health_pot/health_pot.c:583-668 | what the FUNC key does in every state: the mode cycle, reaching a target already passed, the setpoint cycle |
| PotControl.OnOffExact | wink-micro-app/appliances/health_pot/health_pot.c:669-730 | what the ON/OFF key does in every state: start, refusal under the lock, fault on an unsound probe, stop, acknowledge |
| PotControl.WarmCloses | wink-micro-app/appliances/health_pot/health_pot.c:848-857 | keep-warm heats: with sound readings more than 2 C below the setpoint and no keys the contact is closed after 310 passes, whatever the dwell still has to run, and stays closed |
| PotControl.BoilConfirms | wink-micro-app/appliances/health_pot/health_pot.c:820-836 | from the first reading of 98 C, however sound on-scale readings go on, the contact is open, heating lasts until the thirtieth control task, and then the pot keeps warm |
| PotControl.SensorRecovers | wink-micro-app/appliances/health_pot/health_pot.c:759-769 | a sensor fault lasts until the third sound control task in a row and is then over |
| PotControl.OvertempIff | wink-micro-app/appliances/health_pot/health_pot.c:906-917 | E-04 appears in a pass exactly when its one-second task is the tenth in a row to find an active pot beyond the scale |
| PotControl.OvertempTrips | wink-micro-app/appliances/health_pot/health_pot.c:906-917 | an active pot with codes beyond the scale goes on for nine one-second tasks and trips with the full lock at the tenth |
| PotBackstop.EpisodeBudget | wink-micro-app/appliances/health_pot/health_pot.c:527-580 | within a key-free episode whose readings the time limits cover, the one-second tasks that find the contact closed never exceed three times the counted seconds plus the glitch count, and the counted seconds never pass the limit |
| PotBackstop.BackstopBound | wink-micro-app/appliances/health_pot/health_pot.c:527-580 | from heat_seconds and glitch_cnt zero, without keys, where every reading below the target is below 45 C or the mode is boiling: at most 1652 one-second tasks (1952 in a DIRECT mode) find the contact closed while the pot stays in HEAT, and one more with the one that ends it |
| PotBackstop.BackstopCovers | wink-micro-app/appliances/health_pot/health_pot.c:576-580 | over all runs from power-up: for a mode and a set of readings the number of closed one-second tasks of an episode is bounded at all if and only if every reading of the set below the target is below 45 C or the mode is boiling |
| PotBackstop.UncoveredNeverEnds | wink-micro-app/appliances/health_pot/health_pot.c:561-580 | at any code from 45 C up to below the target of a DIRECT mode: from power-up, for every n, a run in which n one-second tasks find the contact closed, heat_seconds counting modulo 65536 |
| PotBackstop.SecondsCanWrap | wink-micro-app/appliances/health_pot/health_pot.c:562-562 | in particular heat_seconds comes back to zero with the contact closed |
| PotBackstop.BoilAlwaysLimited | wink-micro-app/appliances/health_pot/health_pot.c:561-580 | on every run heat_seconds is at most 550 while heating towards 100 C, so it never wraps in that mode |
| PotSlope.ShiftWindow | wink-micro-app/appliances/health_pot/health_pot.c:553-559 | the in-place rotation turns the window of a history into the window of the history with the new code |
| PotSlope.AlwaysWindow | wink-micro-app/appliances/health_pot/health_pot.c:515-566 | on every run the ring, the baseline code and the clean-second count are the window of the run's own history: the code at which heating last (re)started, then the codes its clean seconds with the contact closed have read |
| PotSlope.DryFireIff | wink-micro-app/appliances/health_pot/health_pot.c:527-580 | on every run E-03 appears in a pass if and only if that pass's one-second task finds a clean second with the contact closed and either the last sixteen codes of the history came down by less than 6, at 20 s or more and below 45 C, or one of the two time limits is exceeded |
| PotSlope.VerdictExact | wink-micro-app/appliances/health_pot/health_pot.c:542-580 | in a clean second with the contact closed: the fault with the open contact and the full lock exactly under that condition, otherwise nothing but the second is counted |
| PotSlope.JumpExact | wink-micro-app/appliances/health_pot/health_pot.c:533-541 | a cold-water jump is forgiven twice in a row, starting the window over; the third is E-01; neither counts as a second |
| PotRelay.RelayClockIsDwell | wink-micro-app/appliances/health_pot/health_pot.c:893-897 | relay_off_sec is a function of what the one-second tasks sampled, and nothing else |
| PotRelay.DwellCountsOpenTail | wink-micro-app/appliances/health_pot/health_pot.c:893-897 | below saturation that function is the number of open samples since the last closed one |
| PotRelay.SecondNeverCloses | wink-micro-app/appliances/health_pot/health_pot.c:892-925 | the one-second task never closes the contact, so closing happens only in the control task |
| PotRelay.ClosingNeedsThreeOpenSeconds | wink-micro-app/appliances/health_pot/health_pot.c:841-853 | whenever the contact closes, the last three one-second samples (or all there were) saw it open |
| PotRelay.RecloseIff | wink-micro-app/appliances/health_pot/health_pot.c:838-897 | the exact condition for the dwell, on every run and for every pulse of the contact: after it opens it stays open for 200 passes under all keys and readings if and only if some one-second task found the pulse closed (relay_off_sec below 3) or the opening came with a thermal lock; otherwise some keys and readings reclose it within 20 passes |
| PotWitness.DryFireCutsAtTwentySeconds | wink-micro-app/appliances/health_pot/health_pot.c:570-575 | with the code frozen below 45 C since heating started, heating goes on before, and E-03 with the full lock comes exactly at, the twentieth one-second task |
| PotWitness.StuckProbeCutsOff | wink-micro-app/appliances/health_pot/health_pot.c:570-575 | from power-up with the probe stuck at any code below 45 C: ON, ten passes to the first control task, then exactly 1990 passes of heating until E-03 |
| PotWitness.BackstopBoundIsExact | wink-micro-app/appliances/health_pot/health_pot.c:527-580 | a run from power-up in which 1652 one-second tasks find the contact closed while heating goes on, and then a 1653rd: the bound cannot be improved |
| PotWitness.RapidToggleRecloses | wink-micro-app/appliances/health_pot/health_pot.c:838-843 | against the comment there, by example: an OFF-ON toggle between two one-second tasks recloses the contact with no dwell (PotRelay.RecloseIff says exactly when) |
| GpioIsr.AlwaysInv | wink-micro-os/targets/esp32/pal_hal_gpio_esp32.c:75-112 | for any number of cores and tasks and any interleaving: the wrapping in-flight word counts the cores inside the wrapper, the lock has one holder, and a reader of zero after a clear leaves no live callback |
| GpioIsr.ZeroMeansNoLiveCore | wink-micro-os/targets/esp32/pal_hal_gpio_esp32.c:409-422 | reading in-flight zero proves that no core is about to call or inside a callback, because the increment precedes the table read |
| GpioIsr.SynchronizeQuiesces | wink-micro-os/targets/esp32/pal_hal_gpio_esp32.c:392-422 | once synchronize has read zero after a disable, no core is in a callback or ever enters one until the next registration, in every interleaving before and after |
| GpioIsr.TableExclusive | wink-micro-os/targets/esp32/pal_hal_gpio_esp32.c:91-95 | of all cores (first and second look) and all tasks (clear, store and undo) at most one is in a critical section of the table, in every interleaving |
| GpioIsr.TimeoutPromisesNothing | wink-micro-os/targets/esp32/pal_hal_gpio_esp32.c:413-421 | a concrete interleaving in which synchronize returns (also OK) by timeout while the old callback is still running |
| GpioIsr.InterruptDelivered | wink-micro-os/targets/esp32/pal_hal_gpio_esp32.c:75-112 | an interrupt on an idle core, left alone, calls the installed handler with its argument and leaves the wrapper as it was; without a handler it passes through |
| GpioIsr.RegisterInstalls | wink-micro-os/targets/esp32/pal_hal_gpio_esp32.c:345-390 | a registration, left alone, installs the handler, and takes it back where the interrupt cannot be enabled |
| GpioIsr.DisableClears | wink-micro-os/targets/esp32/pal_hal_gpio_esp32.c:392-422 | a disable, left alone, clears the table; synchronizing returns quietly exactly when nothing is in flight |
| Deferred.Ring.Post | wink-micro-os/osal/freertos_esp32/pal_deferred_freertos.c:175-188 | the poster's critical section in place appends, or counts a drop modulo 2^32; the high-water mark follows |
| Deferred.Ring.Take | wink-micro-os/osal/freertos_esp32/pal_deferred_freertos.c:63-72 | the worker's critical section in place removes the oldest callback, or returns NULL on an empty ring |
| DeferredProtocol.AlwaysInv | wink-micro-os/osal/freertos_esp32/pal_deferred_freertos.c:51-83 | the protocol invariant holds after any interleaving of any number of posters with the worker |
| DeferredProtocol.NoLostWakeup | wink-micro-os/osal/freertos_esp32/pal_deferred_freertos.c:51-83 | a worker that waits, or has just seen the ring empty, never leaves work behind without a token in the semaphore or a give still owed, although gives saturate |
| DeferredProtocol.ExactlyOnceInOrder | wink-micro-os/osal/freertos_esp32/pal_deferred_freertos.c:203-235 | executed callbacks, the one running and the queued ones are exactly the accepted posts in order; dropped and high-water are what they claim |
| DeferredProtocol.PostExact | wink-micro-os/osal/freertos_esp32/pal_deferred_freertos.c:203-235 | a post of a callback is accepted exactly if there is room: at the end of the queue, with a token unless the semaphore is full; else it is only counted, modulo 2^32 |
| DeferredProtocol.CriticalExact | wink-micro-os/osal/freertos_esp32/pal_deferred_freertos.c:175-188 | in every interleaving a poster's critical section appends its callback if there is room and counts it as rejected otherwise |
| DeferredProtocol.WorkerDrains | wink-micro-os/osal/freertos_esp32/pal_deferred_freertos.c:59-80 | with no give owed the worker alone empties the ring and runs every accepted callback, however long it is left to work beyond the need |
| DeferredProtocol.DrainsWithin | wink-micro-os/osal/freertos_esp32/pal_deferred_freertos.c:57-80 | and 2 * count + 2 of its own steps are enough |
| Bits.MaskIsMod | wink-micro-os/osal/common/pal_osal_ringbuf.c:70-71 | masking with a power of two minus one is the remainder |
| Bits.PowerTest | wink-micro-os/runtime/src/wink_event.c:47-47 | n & (n - 1) vanishes exactly on powers of two, for positive n |
| Bits.RoundUpIsLeast | wink-micro-os/runtime/src/wink_event.c:29-39 | the smear returns the least power of two that is at least v, and wraps to 0 above 2^31 |
| RingBuf.CreateChecksPowers | wink-micro-os/osal/common/pal_osal_ringbuf.c:27-33 | creation accepts exactly zero and the powers of two up to 2^31 |
| RingBuf.Ring.Push | wink-micro-os/osal/common/pal_osal_ringbuf.c:53-75 | refuses exactly when used + n exceeds the size in 32-bit arithmetic, changing nothing; else the contents become the last bytes of old contents plus data, across index wrap-around |
| RingBuf.PushAppendsIff | wink-micro-os/osal/common/pal_osal_ringbuf.c:65-67 | an accepted push appends if and only if used + n does not overflow 32 bits |
| RingBuf.Ring.Pop | wink-micro-os/osal/common/pal_osal_ringbuf.c:77-99 | refuses exactly when there are too few bytes, changing nothing; else moves the oldest n bytes out and touches nothing else |
| RingBuf.Ring.Coalesce | wink-micro-os/osal/common/pal_osal_ringbuf.c:101-138 | rewrites exactly the first queued record whose key bytes match, and nothing otherwise, across index wrap-around |
| EventQueue.BufferHoldsIff | wink-micro-os/runtime/src/wink_event.c:52-53 | the buffer init asks for holds capacity events if and only if their bytes fit 2^31, both 32-bit overflows included |
| EventQueue.RoomIff | wink-micro-os/runtime/src/wink_event.c:46-53 | the queue takes exactly the capacity asked for if and only if that many events fit 2^31 bytes, and then the ring never refuses below the ceiling |
| EventQueue.Queue.constructor | wink-micro-os/runtime/src/wink_event.c:41-70 | init yields an empty queue, for any capacity whose buffer size is not zero |
| EventQueue.Queue.Post | wink-micro-os/runtime/src/wink_event.c:92-136 | a post is the list operation: first queued distance event of the device updated in place, refusal when the room is used up, or append; the room counts both 32-bit overflows of init and post; a give happens exactly on append |
| EventQueue.Queue.TryPop | wink-micro-os/runtime/src/wink_event.c:146-150 | a pop delivers the oldest whole event or reports empty |
| EventQueue.EventRoundTrip | wink-micro-os/runtime/src/wink_event.c:118-119 | an event survives its 24-byte record |
| EventQueue.KeyBytes | wink-micro-os/runtime/src/wink_event.c:102-103 | two records agree in the eight key bytes exactly when type and device agree |
| EventQueue.CoalesceAgrees | wink-micro-os/runtime/src/wink_event.c:100-106 | the byte-level search and rewrite is the list-level update of the first event with the same source |
| EventRuns.DeliveredInPostOrder | wink-micro-os/runtime/src/wink_event.c:92-187 | over any run: events delivered and queued are the appended ones in order, each as posted or updated in place by its own source, and never more than the capacity |
| EventRuns.PostExact | wink-micro-os/runtime/src/wink_event.c:92-136 | a post is OK exactly if the queue has room or it is a distance event whose source is queued; with room and no such entry it joins at the end, a merge replaces the first entry of its source, a refusal changes nothing |
| EventRuns.EveryPostAccounted | wink-micro-os/runtime/src/wink_event.c:92-136 | on every run every event posted is appended, merged into its own source's entry, or refused at a full queue |
| EventRuns.EveryPopTakesOldest | wink-micro-os/runtime/src/wink_event.c:146-150 | and every pop takes the oldest queued event or finds none |
| EventRuns.OneLatestPerDevice | wink-micro-os/runtime/src/wink_event.c:100-106 | at most one distance event per device is queued, and it carries the latest value posted |
| EventRuns.BlockedMeansEmpty | wink-micro-os/runtime/src/wink_event.c:128-187 | in every interleaving of posters with one consumer, a consumer blocked in pend implies an empty queue unless a poster has pushed and still owes its give, with the binary semaphore |
| EventRuns.BlockedAlwaysEmpty | wink-micro-os/runtime/src/wink_event.c:128-187 | where push and give of a post are one step, as on the cooperative simulators, a consumer blocked in pend always implies an empty queue |
| EventRuns.PendExact | wink-micro-os/runtime/src/wink_event.c:146-170 | a consumer takes the oldest queued event at once, and otherwise goes on to the semaphore: a token sends it back to look, no token blocks it |
| EventRuns.ResumeExact | wink-micro-os/runtime/src/wink_event.c:164-186 | a consumer that runs again takes the oldest event unless its wait timed out, and on an empty queue waits on unless its time is up |
| EventRuns.WakeExact | wink-micro-os/runtime/src/wink_event.c:128-160 | a give wakes the waiting consumer and is otherwise stored; the timer wakes a blocked consumer only to time out |
| EventRuns.PostReachesConsumer | wink-micro-os/runtime/src/wink_event.c:128-187 | an event posted to a blocked consumer is what its next step takes |
| Seqs.WithoutMembers | wink-micro-os/osal/host/pal_osal_host.c:373-386 | filtering keeps exactly the other entries |
| Seqs.WithoutKeepsOrder | wink-micro-os/osal/host/pal_osal_host.c:373-386 | and their order |
| WaiterRing.Ring.Push | wink-micro-os/osal/host/pal_osal_host.c:358-363 | appends, or silently drops on a full ring |
| WaiterRing.Ring.Pop | wink-micro-os/osal/host/pal_osal_host.c:365-371 | removes the head of the queue |
| WaiterRing.Ring.Remove | wink-micro-os/osal/host/pal_osal_host.c:373-386 | the in-place compaction over the wrapped ring is filtering the queue |
| OsalPool.Scheduler.Block | wink-micro-os/targets/common/src/wink_sim_scheduler.c:281-294 | blocks a task with its absolute deadline, none for a timeout of zero, and clears a stale timeout flag |
| OsalPool.Scheduler.Resume | wink-micro-os/targets/common/src/wink_sim_scheduler.c:296-314 | wakes only a blocked task and leaves any other alone |
| OsalPool.Scheduler.WakeupByTime | wink-micro-os/targets/common/src/wink_sim_scheduler.c:216-239 | the loop wakes exactly the tasks whose deadline has passed, marks only blocked ones as timed out, and counts them |
| OsalPool.Mutex.Lock | wink-micro-os/osal/host/pal_osal_host.c:401-424 | the host lock up to the context switch meets the lock specification |
| OsalPool.Mutex.LockWasm | wink-micro-os/osal/wasm/pal_osal_wasm.c:284-312 | the wasm lock, which tests in another order, meets the same specification |
| OsalPool.Mutex.LockWoken | wink-micro-os/osal/host/pal_osal_host.c:429-435 | the rest of the call after the switch back |
| OsalPool.Mutex.Unlock | wink-micro-os/osal/host/pal_osal_host.c:438-453 | release or direct handoff in place |
| OsalPool.Mutex.UnlockWasm | wink-micro-os/osal/wasm/pal_osal_wasm.c:328-348 | the wasm unlock meets the same specification |
| OsalPool.Sem.Take | wink-micro-os/osal/host/pal_osal_host.c:480-500 | the binary semaphore's take up to the context switch |
| OsalPool.Sem.Give | wink-micro-os/osal/host/pal_osal_host.c:513-524 | give hands to the first waiter, or stores the one token |
| OsalRuns.AlwaysInv | wink-micro-os/osal/host/pal_osal_host.c:401-524 | whole runs of sixteen tasks over any mutexes and semaphores: blocked tasks are queued, woken ones have left or passed their deadline, queues are in blocking order, owners and tokens are consistent |
| OsalSafety.MutualExclusion | wink-micro-os/osal/host/pal_osal_host.c:401-453 | at most one task has been told OK and not unlocked, and it is the owner; a free mutex has no waiters; waiters are distinct and exclude the owner |
| OsalSafety.NeverDropped | wink-micro-os/osal/host/pal_osal_host.c:358-363 | a lock that must wait always finds room in the sixteen-slot ring and joins at its end |
| OsalSafety.VerdictSound | wink-micro-os/osal/host/pal_osal_host.c:429-435 | a call that waited returns OK only to the owner, TIMEOUT only after a deadline it was given, and never the I/O error |
| OsalSafety.ZeroWaitsForever | wink-micro-os/osal/host/pal_osal_host.c:419-424 | a lock with timeout zero waits without a deadline, like the wait-forever sentinel |
| OsalSafety.GrantsInBlockingOrder | wink-micro-os/osal/host/pal_osal_host.c:446-449 | releases pop waiters in the order in which their calls blocked |
| OsalSafety.LeaksIff | wink-micro-os/osal/host/pal_osal_host.c:438-453 | every mutex is owned by a task that was or will be told so, throughout a run, if and only if every unlock of the run finds its first waiter still blocked |
| OsalSafety.TimeoutOwnsNothing | wink-micro-os/osal/host/pal_osal_host.c:429-433 | while that holds, a call that times out does not own the mutex |
| OsalSafety.TimedOutOwner | wink-micro-os/osal/host/pal_osal_host.c:446-449 | a concrete run in which a timed-out task still queued is handed the mutex and is told TIMEOUT, after which each of the other fifteen tasks could ask for it and would wait |
| OsalSafety.GivesConserved | wink-micro-os/osal/host/pal_osal_host.c:480-524 | every give of every run is taken, promised to a woken taker, stored, absorbed by a stored token, or lost on a taker that had timed out; the count is binary and a stored token means nobody waits |
| OsalTiming.LockExact | wink-micro-os/osal/host/pal_osal_host.c:401-424 | a lock succeeds exactly on a free mutex, is busy exactly for the owner, and otherwise blocks its task until now + 1000 * ms microseconds |
| OsalTiming.UnlockExact | wink-micro-os/osal/host/pal_osal_host.c:438-453 | an unlock succeeds for the owner alone, and hands over to the first waiter or frees the mutex |
| OsalTiming.TakeExact | wink-micro-os/osal/host/pal_osal_host.c:480-500 | a take succeeds exactly when the token is there and otherwise blocks its task until now + 1000 * ms microseconds |
| OsalTiming.GiveExact | wink-micro-os/osal/host/pal_osal_host.c:513-524 | a give goes to the first waiter or is stored |
| OsalTiming.SleepExact | wink-micro-os/targets/common/src/wink_sim_scheduler.c:269-279 | a sleeping task is ready again after a wake-up exactly if that is at or after its time |
| OsalTiming.TimeoutIsOnTime | wink-micro-os/osal/host/pal_osal_host.c:419-435 | on every run a lock or take with a timeout that returns TIMEOUT does so no earlier than 1000 * ms microseconds after it was called |
| OsalTiming.TimesOut | wink-micro-os/osal/host/pal_osal_host.c:419-435 | a waiting call that nothing releases before the first wake-up at or after now + 1000 * ms is ready to return from then on, with TIMEOUT |
| OsalTiming.ReleaseSucceeds | wink-micro-os/osal/host/pal_osal_host.c:438-453 | a waiting call that a release pops while it is blocked is ready to return from then on, with OK |
| LruPool.DeviceCache.Touch | wink-micro-os/targets/esp32/pal_hal_i2c_esp32.c:106-117 | the shift loop moves the hit to the end of the occupied slots |
| LruPool.DeviceCache.GetOrCreate | wink-micro-os/targets/esp32/pal_hal_i2c_esp32.c:119-169 | lookup, add, eviction and store in place are the slot-level access |
| LruPool.DeviceCache.Deinit | wink-micro-os/targets/esp32/pal_hal_i2c_esp32.c:478-487 | shutting down empties every slot and gives back exactly the listed handles the driver accepts |
| Lru.AccessAgrees | wink-micro-os/targets/esp32/pal_hal_i2c_esp32.c:119-169 | for a nonzero address, whatever the bus answers, the four slots behave as a plain least-recently-used list |
| Lru.AgreesIff | wink-micro-os/targets/esp32/pal_hal_i2c_esp32.c:124-132 | for any address they do exactly when it is nonzero, or the cache is full and the bus refuses |
| Lru.ServedIff | wink-micro-os/targets/esp32/pal_hal_i2c_esp32.c:119-169 | an access to a nonzero address succeeds exactly if the device is listed or the bus takes it, with the listed or the new handle; a refusal changes nothing |
| Lru.ErrorsPassedOn | wink-micro-os/targets/esp32/pal_hal_i2c_esp32.c:82-104 | each bus error is passed on as its own status, never as OK |
| Lru.ZeroAddressIgnored | wink-micro-os/targets/esp32/pal_hal_i2c_esp32.c:124-132 | address 0 with a free slot reports OK with the slot's stale handle, without asking the bus |
| Lru.ZeroAddressLost | wink-micro-os/targets/esp32/pal_hal_i2c_esp32.c:148-168 | address 0 in a full cache evicts a device and stores a handle nothing lists |
| LruRuns.MostRecentCached | wink-micro-os/targets/esp32/pal_hal_i2c_esp32.c:106-169 | after any run the occupied slots are a prefix holding exactly the most recently used distinct addresses in order of last use, and the live handles are the listed and the leaked ones |
| LruRuns.HandleIsLive | wink-micro-os/targets/esp32/pal_hal_i2c_esp32.c:119-169 | every handle given out is live and listed for its address; a refused device changes nothing |
| LruRuns.NothingLeaksIff | wink-micro-os/targets/esp32/pal_hal_i2c_esp32.c:153-158 | live handles are exactly the listed ones if and only if every eviction's removal succeeded |
| Pwm.FindSlot | wink-micro-os/pal/src/pal_pwm_router.c:67-80 | a live timer with the profile if there is one, else the first free timer, else -1 exactly when all are live with other profiles |
| PwmPool.Router.FindSlot | wink-micro-os/pal/src/pal_pwm_router.c:67-80 | the single-pass loop computes that choice |
| PwmPool.Router.Acquire | wink-micro-os/pal/src/pal_pwm_router.c:82-114 | acquire in place, all error cases included |
| PwmPool.Router.Release | wink-micro-os/pal/src/pal_pwm_router.c:116-135 | release in place |
| PwmPool.Router.SetFreq | wink-micro-os/pal/src/pal_pwm_router.c:142-153 | frequency change in place |
| PwmPool.Router.Reset | wink-micro-os/pal/src/pal_pwm_router.c:50-65 | reset in place |
| PwmRuns.AlwaysCounted | wink-micro-os/pal/src/pal_pwm_router.c:82-153 | on every run each timer's eight-bit count is the number of channels on it, never wrapping, and unused entries are blank |
| PwmRuns.ReleaseUndoesAcquire | wink-micro-os/pal/src/pal_pwm_router.c:82-135 | releasing a channel just acquired restores the router exactly |
| PwmRuns.SharedIff | wink-micro-os/pal/src/pal_pwm_router.c:82-153 | throughout a run every channel runs at its own profile and live timers differ, if and only if every frequency change is a no-op, or of a channel alone on its timer to a profile no other live timer has |
| PwmRuns.ExhaustedIff | wink-micro-os/pal/src/pal_pwm_router.c:98-101 | a free channel is refused a valid profile exactly when every timer is in use at another profile; while timers are properly shared, exactly when four other profiles are in use |
| PwmRuns.AcquireExact | wink-micro-os/pal/src/pal_pwm_router.c:82-114 | a free channel with a valid profile runs on a timer at that profile, one that already was or else a free one, with one more user; nothing else changes; a ready channel keeps what it has or is busy |
| PwmRuns.ReleaseExact | wink-micro-os/pal/src/pal_pwm_router.c:116-135 | releasing a ready channel blanks it and takes one user off its timer, which is freed with the last one |
| PwmRuns.SetFreqExact | wink-micro-os/pal/src/pal_pwm_router.c:142-153 | a frequency change sets the frequency of the channel and of its timer and nothing else |
| SoftTimerPool.Timers.Create | wink-micro-os/runtime/src/wink_soft_timer.c:46-84 | the slot search and initialization in place |
| SoftTimerPool.Timers.Start | wink-micro-os/runtime/src/wink_soft_timer.c:86-98 | start in place |
| SoftTimerPool.Timers.Stop | wink-micro-os/runtime/src/wink_soft_timer.c:100-107 | stop in place |
| SoftTimerPool.Timers.Destroy | wink-micro-os/runtime/src/wink_soft_timer.c:109-120 | destroy in place |
| SoftTimerPool.Timers.ChangePeriod | wink-micro-os/runtime/src/wink_soft_timer.c:122-146 | period change in place, clamping the remaining ticks |
| SoftTimerPool.Timers.Dispatch | wink-micro-os/runtime/src/wink_soft_timer.c:159-212 | the dispatch loop in place, with callbacks that call back into the table, is the slot-by-slot specification |
| SoftTimer.CreateExact | wink-micro-os/runtime/src/wink_soft_timer.c:46-84 | creating takes the first free slot, stopped, with the period in whole ticks and at least one; it fails exactly without callback, period, initialization or free slot |
| SoftTimer.InitExact | wink-micro-os/runtime/src/wink_soft_timer.c:39-44 | initializing frees every slot |
| SoftTimer.StartExact | wink-micro-os/runtime/src/wink_soft_timer.c:86-98 | a start reloads and activates exactly the timer named |
| SoftTimer.StopExact | wink-micro-os/runtime/src/wink_soft_timer.c:100-107 | a stop makes exactly the timer named inactive and changes nothing else |
| SoftTimer.DestroyExact | wink-micro-os/runtime/src/wink_soft_timer.c:109-120 | destroying frees exactly the slot named |
| SoftTimer.ChangeExact | wink-micro-os/runtime/src/wink_soft_timer.c:122-146 | a new period shortens what remains only if that is more than the new period |
| SoftTimer.VisitSound | wink-micro-os/runtime/src/wink_soft_timer.c:166-211 | whatever a callback does to the timers, its own included, the table is sound again after its turn |
| SoftTimer.ActiveAfterFiring | wink-micro-os/runtime/src/wink_soft_timer.c:206-210 | after its callback a timer is active exactly if the callback returned OK, the slot is periodic now, and the callback left it active: a one-shot that restarts itself is stopped again |
| SoftTimerRuns.AlwaysSound | wink-micro-os/runtime/src/wink_soft_timer.c:46-212 | between dispatches every active timer has a callback and is due within its period, on every run |
| SoftTimerRuns.ExactPeriod | wink-micro-os/runtime/src/wink_soft_timer.c:159-212 | an undisturbed periodic timer has fired exactly k / p times after k dispatches and a one-shot exactly once from the p-th on |
| SoftTimerRuns.StoppedNeverFires | wink-micro-os/runtime/src/wink_soft_timer.c:100-212 | after a stop the callback does not run again, through any calls, dispatches and callbacks, until somebody starts the timer |
| SoftTimerRuns.StartedIsFresh | wink-micro-os/runtime/src/wink_soft_timer.c:86-98 | a start begins the period afresh, from where ExactPeriod counts |
| PeriodicPool.Tasks.StartEx | wink-micro-os/runtime/src/wink_runtime_tasks.c:91-176 | the periodic start in place over the timer table: checks, slot search and LIGHT path in full; of the task path its slot and the outcome of creating the task |
| PeriodicPool.Tasks.Stop | wink-micro-os/runtime/src/wink_runtime_tasks.c:178-206 | the periodic stop in place, as to entries and timers |
| PeriodicPool.Tasks.ActiveCount | wink-micro-os/runtime/src/wink_runtime_tasks.c:208-216 | the loop counts the entries in use |
| PeriodicPool.Tasks.ChangePeriod | wink-micro-os/runtime/src/wink_runtime_tasks.c:218-236 | the period change in place, as to entries and timers |
| Periodic.LightNeverShorter | wink-micro-os/runtime/src/wink_runtime_tasks.c:154-173 | a LIGHT start succeeds exactly when rounding up does not overflow 32 bits, and then runs at the least whole number of ticks not shorter than requested |
| Periodic.ChangeMayShorten | wink-micro-os/runtime/src/wink_runtime_tasks.c:226-228 | a later period change rounds down: shorter than requested exactly for at least one tick and no whole number of ticks |
| Periodic.AlwaysInv | wink-micro-os/runtime/src/wink_runtime_tasks.c:91-206 | on every run, re-entrant calls included, LIGHT entries and LIGHT timers correspond one to one, provided other code leaves LIGHT timers alone (Periodic.Allowed) |
| Periodic.TimersDistinct | wink-micro-os/runtime/src/wink_runtime_tasks.c:154-173 | two LIGHT entries never share a timer |
| Periodic.StopUndoesStart | wink-micro-os/runtime/src/wink_runtime_tasks.c:91-206 | at any point of any run, stopping a handle just started restores entries and timers exactly, and a start occupies exactly one entry; a failed start changes nothing |
| Periodic.StartExact | wink-micro-os/runtime/src/wink_runtime_tasks.c:91-176 | a start succeeds exactly with valid arguments, a free entry, and its task or timer; it puts its callback and period into the first free entry |
| Periodic.StopExact | wink-micro-os/runtime/src/wink_runtime_tasks.c:178-206 | a stop frees exactly the entry of a known handle, and its timer if it has one |
| Periodic.ChangeExact | wink-micro-os/runtime/src/wink_runtime_tasks.c:218-236 | a period change succeeds exactly for a known handle and a nonzero period |
| Periodic.CountsUsed | wink-micro-os/runtime/src/wink_runtime_tasks.c:208-216 | the active count is the number of entries in use |
| DocNodes.Build | docs/scripts/verify_i18n_alignment.py:151-219 | the nodes, linked when opened and filled later through the stack that shares them, end up as a well-formed tree (children deeper than their parent, siblings never deeper than the one before) whose preorder is the document's section list |
| DocNodes.SectionNode.Add | docs/scripts/verify_i18n_alignment.py:84-88 | a block is appended to the node it is called on, except that adjacent paragraphs, and adjacent lists, collapse into one |
| DocNodes.ClosedOpened | docs/scripts/verify_i18n_alignment.py:211-212 | popping the stack needs no heap change: the popped node already is the last child of the one below, complete |
| DocSections.SectionsExact | docs/scripts/verify_i18n_alignment.py:151-219 | the section list of a document is exactly its headings in order, each with the blocks up to the next heading, where a paragraph or list directly after an equal one is dropped |
| DocTree.TreeUnique | docs/scripts/verify_i18n_alignment.py:210-219 | a well-formed tree is determined by its preorder, so no other tree would do |
| DocDiff.GreedyMatch | docs/scripts/verify_i18n_alignment.py:301-311 | the credit loop computes the greedy match count |
| DocDiff.CompareInto | docs/scripts/verify_i18n_alignment.py:265-333 | the recursion with two accumulators and an appended list is the comparison specification, a message being a path and a kind |
| DocCredit.GreedyFull | docs/scripts/verify_i18n_alignment.py:288-311 | full block credit is given to equal lists only |
| DocCredit.GreedyIsCommon | docs/scripts/verify_i18n_alignment.py:301-311 | the partial credit is the length of a common subsequence |
| DocCredit.GreedyNotLongest | docs/scripts/verify_i18n_alignment.py:300-311 | but not always of a longest one, although the comment there says so, by example |
| DocCredit.GreedyEmbedsIff | docs/scripts/verify_i18n_alignment.py:301-311 | the credit is the whole source list if and only if the source embeds in the target (and then it is longest) |
| DocCredit.TargetEmbeddedIsNotEnough | docs/scripts/verify_i18n_alignment.py:301-311 | a target that embeds in the source may earn half of it, by example |
| DocCredit.UnneededIsLongest | docs/scripts/verify_i18n_alignment.py:305-311 | the credit is a longest common subsequence whenever no target block is skipped that the source still has |
| DocCredit.LongestForTargetIff | docs/scripts/verify_i18n_alignment.py:300-311 | for a target list the credit is longest against every source if and only if all its blocks are alike |
| DocCredit.LongestForSourceIff | docs/scripts/verify_i18n_alignment.py:300-311 | for a source list the credit is longest against every target if and only if all its blocks before the last are alike |
| DocAlign.CompareExact | docs/scripts/verify_i18n_alignment.py:265-333 | for any two trees: the score never exceeds its maximum, and it is full exactly when nothing is reported, exactly when the trees agree on everything that matters |
| DocAlign.LocalLoses | docs/scripts/verify_i18n_alignment.py:265-325 | what two sections lose: two points for the level, two for the numbering, two for every block without credit, four for every child without a counterpart; each loss and nothing else is reported |
| DocAlign.SelfScore | docs/scripts/verify_i18n_alignment.py:265-333 | the full score is two points for each section, each number and each significant block of the flat list, and four for each section under another |
| DocAlign.LowerIff | docs/scripts/verify_i18n_alignment.py:272-283 | numbers agree exactly when they differ at most in the case of ASCII letters |
| DocAlign.SignificantExact | docs/scripts/verify_i18n_alignment.py:90-93 | the blocks compared are exactly the code, diagram, image, table and alert blocks, as often as they occur and in order |
| DocAlign.ReportedBelow | docs/scripts/verify_i18n_alignment.py:265-333 | every difference is reported under the titles on the way to it |
| DocAlign.AlignedIff | docs/scripts/verify_i18n_alignment.py:193-333 | two documents align exactly when their flat section lists agree on level, lowercased number and significant blocks |
| DocAlign.CollapsingInvisible | docs/scripts/verify_i18n_alignment.py:84-93 | collapsing adjacent paragraphs and lists never changes the outcome |
| Closure.EvalWhen | scripts/verify_phase_c_closed_loop.py:98-118 | the condition loop, with its early exit, in place |
| Closure.AnomalyIff | scripts/verify_phase_c_closed_loop.py:101-118 | a disallowed attribute is noticed exactly when every item before it agrees |
| Closure.EvalExact | scripts/verify_phase_c_closed_loop.py:98-118 | a condition matches exactly when every attribute is one of the three allowed and its configured value (None if absent) is listed or equal, and is an anomaly exactly when it is malformed |
| Closure.GoodExact | scripts/verify_phase_c_closed_loop.py:74-118 | a capability is good exactly when it is defined, implemented or verified, and no condition is malformed; it leads exactly to what is mandatory and what the conditions that hold require |
| Closure.Evaluate | scripts/verify_phase_c_closed_loop.py:63-125 | the worklist loop terminates despite duplicates and returns the verdict of the specification with the closure sorted |
| Closure.ClosureExact | scripts/verify_phase_c_closed_loop.py:63-125 | satisfied exactly when every capability reachable along mandatory and matching conditional edges is defined, implemented and free of anomalies, and the closure is then exactly the reachable set; a failure names the kind of a reachable culprit |
| Closure.OrderIndependent | scripts/verify_phase_c_closed_loop.py:72-79 | success and closure depend only on the set of required capabilities |
| Closure.AscendingUnique | scripts/verify_phase_c_closed_loop.py:125-125 | a set has one sorted list, so the returned list does too |
| Closure.FailureDependsOnOrder | scripts/verify_phase_c_closed_loop.py:74-118 | which failure is reported does depend on the order, by example |
| DacPool.Dac.WriteRaw | wink-micro-os/targets/host/pal_hal_dac_host.c:49-62 | clamp and conversion in place, with the error cases |
| DacPool.Dac.WriteVoltage | wink-micro-os/targets/host/pal_hal_dac_host.c:64-75 | clamp, conversion and write in place |
| DacPool.Dac.GetVoltage | wink-micro-os/targets/host/pal_hal_dac_host.c:77-83 | reads back the millivolts of the last write |
| Dac.RawExact | wink-micro-os/targets/host/pal_hal_dac_host.c:72-72 | up to 16 bits the 32-bit product never overflows and the code is never truncated |
| Dac.MvExact | wink-micro-os/targets/host/pal_hal_dac_host.c:59-59 | nor is the way back |
| Dac.AccurateIff | wink-micro-os/targets/host/pal_hal_dac_host.c:49-83 | every voltage up to full scale reads back within half a code step plus half a millivolt (2 * max * error <= full scale + max) exactly when the resolution is at most 16 bits |
| Dac.CodesReturnIff | wink-micro-os/targets/host/pal_hal_dac_host.c:49-75 | at any resolution, every 16-bit code up to the highest survives the way to millivolts and back exactly when there are no more code steps than millivolts |
| Dac.WritesClamp | wink-micro-os/targets/host/pal_hal_dac_host.c:49-75 | up to 16 bits codes above the highest write the highest, voltages above full scale write full scale, and full scale is the highest code and reads back exactly |

## Left out

- DevConfig.Apply: the callbacks are listed with their parameters, not run; their status is ignored by the source too. Little-endian targets only.
- PotTasks.HealthPot.Pass: display, melodies, buzzer, LEDs, telemetry, key debouncing and the hardware watchdog, none of which touch the heater; keys arrive as debounced events and the probe as a filtered code.
- GpioIsr.SynchronizeQuiesces: steps are sequentially consistent; the hardware's own masking, the trigger type and the interrupt service installation are not modelled, and pins are independent.
- DeferredProtocol.NoLostWakeup: steps are sequentially consistent; creating and deleting the worker is not modelled.
- RingBuf.Ring.Coalesce: the key range must lie inside the record, as every caller in the repository has it (beyond it the source would read past the event); NULL handles and NULL data are not modelled in this class.
- EventQueue.Queue.constructor: the one power of two, 2^27, for which the source asks for a buffer of no bytes; failing allocations, initialization twice and deinitialization are not modelled.
- EventQueue.EventRoundTrip: the 24-byte record of the 32-bit targets; the wider record of a 64-bit host is not modelled.
- EventRuns.BlockedMeansEmpty: one consumer; the remaining time of a repeated wait is reduced to whether it has run out.
- OsalRuns.AlwaysInv: task creation and deletion, object creation and destruction, the order in which the scheduler picks ready tasks (any order is allowed), and wrap-around of the 64-bit microsecond clock.
- OsalSafety.GivesConserved: semaphores are given from any context; the interrupt form is the same code.
- LruPool.DeviceCache.GetOrCreate: the bus driver's answers are inputs, with new handles assumed to be different from live ones in the run theorems; transfers, the port mutex and bus recovery are not modelled.
- PwmPool.Router.Acquire: a NULL output pointer, which is refused like a NULL profile; the floating-point duty helper is left out.
- SoftTimerPool.Timers.Dispatch: a callback is the list of timer calls it makes and its status; a dispatch from within a callback, the run-time budget warnings and the timer names are not modelled.
- PeriodicPool.Tasks.StartEx: of the task path only the slot and whether the task could be created; its semaphores (the give of a stop or of a period change included), its own loop and the wait for its end are not modelled.
- Periodic.AlwaysInv: other code may use the timers freely except that it creates none with the LIGHT callback, destroys no LIGHT timer, and initializes the table only while there is no LIGHT entry.
- DocNodes.Build: the line scanner (fences, tables, regular expressions), titles' breadcrumbs and the global counters are left out; it starts from the recognized headings and blocks.
- DocDiff.CompareInto: messages are a path and a kind; lower case is ASCII; the percentage and its cap are left out.
- Closure.Evaluate: capability names are numbers in name order; of malformed catalogs only a `when` that is not a mapping is modelled, since the others raise in the source.
- DacPool.Dac.WriteRaw: resolutions of 32 and more, for which the shift is undefined in C; continuous-wave output and pin acquisition.
- Vendor SDK calls, register access, wall clocks, the resource claim table, the actuator registry, boot counters, storage, and the other tooling scripts are not part of this model.
