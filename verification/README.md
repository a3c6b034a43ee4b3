# U-CSMA rate control: a Dafny model

This project models the parts of the U-CSMA rate-control repository whose behaviour is hard to see
from the code, and proves what they do for every input, run or reachable state. It is written for
Dafny 4.11; `dafny verify dfyconfig.toml` verifies the whole project.

| file | models |
|---|---|
| `Unlock.dfy` | one node of the unlock protocol: timer handler, interrupt handler, contention window |
| `UnlockRuns.dfy` | every run of one node, and every interleaving of many |
| `UnlockFlood.dfy` | pulses spreading through a network of nodes on any wiring, and when they die out |
| `UnlockReach.dfy` | which nodes a pulse reaches, from a timer, from outside, and in a running network |
| `UnlockEcho.dfy` | pulses that bounce for ever |
| `UnlockLog.dfy` | the logging variant with its one-shot timer |
| `Descriptors.dfy` | the DMA descriptor allocator of the ath9k driver |
| `Radiotap.dfy`, `RadiotapLayout.dfy` | the radiotap iterator, and the iterator against the header format |
| `PowerSave.dfy` | power-save reference counting and the power part of transmit |
| `Chainmask.dfy` | spreading an antenna selection over the chip's chains |
| `Interfaces.dfy` | BSSID mask and operating mode derived from the interfaces |
| `HexDump.dfy` | the packet sender's hex dump with repeat suppression |
| `Latency.dfy` | the latency tests: truncating mean, extremes, bounded test run |
| `Bits.dfy`, `Common.dfy` | machine words as natural numbers; shared types |

Code that updates state in place is a class or a method with loops, proved against a specification
function; the theorems are about those functions.

## What the proofs found

- The unlock timer is exact for every random draw if and only if `T >= 4*Delta - 2`. Below that, the
  unsigned subtraction wraps, and the following `next_timer < 0` can never be true
  (`TimerExactIffPeriodLong`). Pulses keep the meant distance in all runs exactly for the parameters
  of `Timely`; otherwise a node can fall silent for more than four seconds (`PulsesTimelyIff`,
  `WrappedTimer`).
- A pulse that arrives while a node is still in its backoff is handled when the backoff ends. A node
  can accept the echo of its own relay exactly when `T <= 4*Delta` and `T < 1999999` (`EchoSafeIff`).
  With all other parameters every cascade ends, from every state of every network
  (`CascadesEndIff`), and from a timer (`FloodTerminates`) or a snapshot of running nodes
  (`SnapshotIsCascade`, `CascadeTerminates`) each node relays at most once. With these parameters a
  pulse can bounce for ever between two nodes wired to each other: after the pulse of a third node
  in all cases (`EchoUnsafeNeverEnds`), and in a closed pair exactly when also the first timer and
  its pulse are over before the node is a second old (`PairBouncesIff`).
- A cascade started by a timer reaches exactly the least closed set of eligible nodes, on every
  wiring, if and only if no other node's eligibility changes during the microsecond in which the
  source drives its pulse (`SteadyIff`). On a cycle the source itself is one of them if it is eligible
  when its own pulse ends.
- A node that accepts nothing for one second never accepts again, and with T of two seconds or more
  it never accepts at all (`MayAcceptIff`). In the logging variant such a node never sends again once
  its timer has fired, and no node sends once its log is full (`MaySendIff`).
- The descriptor memory the driver allocates suffices for `n` buffers of 128 bytes exactly when the
  base-32 digits of `n` add up to at most 31. The pool of 80 is fine; 63 is the smallest pool that is
  not, and below 2047 buffers the driver's own check never fires (`SetupPool`, `PoolSizes`).
- The check that keeps descriptor fetches in one page refuses one address too many: an offset of
  3968, from which 128 bytes just fit (`CrossesIff`). For 128-byte descriptors that is the last slot
  of every page, so each page holds 31 of them rather than 32.
- The radiotap iterator adds alignment padding to the field index, where its comment speaks of the
  argument position. It reports the right fields exactly when it meets no field that needs padding
  and still fits (`HeaderFollowsLayoutIff`, `PaddedChannelIsMisread`). The model follows the code.
- `ath9k_tx` hands over a frame after it has dropped its bracket, and only a bracket of its own would
  keep the chip awake (`TxRace`). In that gap the chip can go to sleep in one step in two ways: the
  last other bracket closes, or a sleep timer fires, which the frame's own restore arms when the
  driver is idle (`TxGapInOneStep`).
- The reported mean latency stays at the first sample on a ramp of samples, as far as the updates do
  not overflow, although the true mean grows with every sample (`MeanStuckOnRamp`), and the reported
  minimum forgets a zero sample (`MinRightIff`).

## Model

| member | source | states |
|---|---|---|
| Unlock.EditContentionWindow | kernel-module/unlock.c:270-285 | the loop that keeps widening one word writes the same 20-bit value into all eight registers, for every argument |
| Unlock.WindowIsWellFormed | kernel-module/unlock.c:84-104 | the chosen window grows with the free buffers, is 2^k-1 with k at most 10, and lands in both window fields of the register, as 1025 times the window |
| Unlock.WindowTable | kernel-module/unlock.c:84-104 | which numbers of free buffers give which of the eight windows |
| Unlock.ForwardLandsAhead | kernel-module/unlock.c:107-109 | re-arming puts the expiry after now, at most one period away, a whole number of periods after the old one, however late the timer was |
| Unlock.TimerKeepsBeat | kernel-module/unlock.c:73-110 | a timer event moves the deadline by at least one whole period, to the first such time after the pulse, and keeps the accept times |
| Unlock.TimerExactIffPeriodLong | kernel-module/unlock.c:160-184 | the 32-bit timer computation is exact for all draws in both branches if and only if T >= 4*Delta-2 |
| Unlock.DrawLeaves | kernel-module/unlock.c:160-175 | every random word is reduced to the one number below 2*Delta that differs from it by a multiple of 2*Delta |
| Unlock.DeadlineAfterAccept | kernel-module/unlock.c:160-186 | the new deadline is the accept time plus the pulse width plus T plus or minus the random offset, whatever backoff was drawn |
| Unlock.AcceptEffect | kernel-module/unlock.c:146-186 | after an accepted pulse, for all random words and parameters: the accept times, the time the handler ends, and the deadline, which modulo 2^32 ns is the pulse plus T plus or minus the reduced offset, by the gap before it; exactly so for T >= 4*Delta-2 |
| Unlock.UnlockModule.constructor | kernel-module/unlock.c:194-240 | state after the module is loaded: timer armed one period ahead, window 15 |
| Unlock.UnlockModule.SampleBuffers | kernel-module/unlock.c:15-24 | both handlers set the buffer counter to the list length and all registers to its window, and change nothing else |
| Unlock.UnlockModule.TimerHandler | kernel-module/unlock.c:73-110 | the timer handler refines the timer step of the protocol: the new deadline is whole periods after the old one and the first such after the pulse |
| Unlock.UnlockModule.IrqHandler | kernel-module/unlock.c:113-191 | the interrupt handler refines the interrupt step, relays exactly for an age of T/2 to one second, sets the quiet bit for 1000 times what the random word leaves modulo 2*Delta, and re-arms up to multiples of 2^32 ns at T plus or minus the reduced offset after the pulse |
| UnlockRuns.AcceptSpacing | kernel-module/unlock.c:145-171 | in every run accepted pulses are at least T/2 and less than a second apart |
| UnlockRuns.LastTwoAccepts | kernel-module/unlock.c:168-171 | in every run the two stored times are the last two accepted times |
| UnlockRuns.AcceptedIff | kernel-module/unlock.c:146-150 | a pulse after any run is accepted exactly if the last accept of the run is T/2 to one second ago |
| UnlockRuns.StoredTimesStaySpaced | kernel-module/unlock.c:162-171 | from the first accept on the stored times differ by T/2 to one second, so the seconds test in the period adjustment no longer matters |
| UnlockRuns.AdjustmentFollowsGap | kernel-module/unlock.c:160-186 | after the first accept the deadline is T plus the offset after the pulse if the last two accepts of the run were at most T apart, T minus it otherwise |
| UnlockRuns.LoadedNode | kernel-module/unlock.c:194-240 | a loaded node: window 15 in all registers, first timer a period after the load, pulses accepted from T/2 on, and the direction of its first adjustment |
| UnlockRuns.MayAcceptIff | kernel-module/unlock.c:145-150 | some run of a node accepts a pulse if and only if its last accept is less than a second old and T/2 is less than a second |
| UnlockRuns.RelayRate | kernel-module/unlock.c:145-158 | one node relays at most W/(T/2)+1 pulses in any window of length W |
| UnlockRuns.QuietBound | kernel-module/unlock.c:173-180 | accepts in a window of length W force a node quiet for at most (W/(T/2)+1)*(2*Delta-1) microseconds |
| UnlockRuns.NetworkRelayRate | kernel-module/unlock.c:145-158 | in every interleaving of N nodes the network relays at most N*(W/(T/2)+1) pulses in any window |
| UnlockRuns.NetRelaysByNode | kernel-module/unlock.c:145-158 | the relays of the network in a window are the sum of the tally kept per node |
| UnlockRuns.TallyOfNode | kernel-module/unlock.c:145-158 | a node's share of the tally is what it counts on its own events, which form a legal run of that node |
| UnlockRuns.StepArms | kernel-module/unlock.c:107-186 | for all parameters every event leaves the timer armed; a pulse moves its deadline at most `Gap` ahead, nothing else moves it |
| UnlockRuns.StaysArmed | kernel-module/unlock.c:73-237 | in every run, for all parameters, the timer is armed between events |
| UnlockRuns.DeadlinesKeepBeat | kernel-module/unlock.c:107-109 | between two accepts of any run all deadlines differ by whole periods, at least one for each timer event |
| UnlockRuns.NoDrift | kernel-module/unlock.c:73-110 | between two accepts the i-th pulse comes i periods after the first deadline, late by its own lateness only, if that stays below a period less the pulse width |
| UnlockRuns.WrappedTimer | kernel-module/unlock.c:160-186 | a draw one microsecond larger than the period puts the deadline 2^32 ns and the backoff ahead, beyond the meant bound |
| UnlockRuns.KeepsPulsing | kernel-module/unlock.c:73-191 | in every run, for all parameters, consecutive pulses are at most `Gap` plus the timer's lateness apart; `Gap` is T+2*Delta microseconds for timely parameters |
| UnlockRuns.NoLongSilence | kernel-module/unlock.c:73-191 | no event of any run finds the last pulse longer ago than that |
| UnlockRuns.PulsesTimelyIff | kernel-module/unlock.c:73-237 | from every module load, all runs keep pulses within T+2*Delta microseconds plus lateness if and only if the parameters are `Timely` |
| UnlockRuns.RegistersFollowBuffers | kernel-module/unlock.c:81-104 | after every run all registers are 1025 times the window of the buffer counter, which is the count of the last event, and the quiet bit is clear |
| UnlockRuns.WaitInRange | packetspammer/packetspammer.c:440-443 | with the pool of 80 (ath9k/init.c:842), taken and given back in any legal order among the events, the sender waits 100 microseconds for each buffer in use when the last handler ran, so 0 to 8000 |
| UnlockFlood.EchoSafeIff | kernel-module/unlock.c:146-177 | no draw lets a node accept right after its own backoff if and only if T > 4*Delta or T >= 1999999 |
| UnlockFlood.DeliverKeepsFlooding | kernel-module/unlock.c:113-191 | one delivery, through the real interrupt handler: a node accepts its first pulse only if it may, surely if it must at every instant left to it, and no second one while the instants are narrow; both invariants of the cascade are kept |
| UnlockFlood.CascadeTerminates | kernel-module/unlock.c:146-180 | under echo safety, on any wiring, in any delivery order and with busy nodes: relays happen at the given instants only, one node's at least T/2 apart, at most one per node if the instants are narrow; deliveries plus pulses under way equal pulses sent, and deliveries are bounded |
| UnlockFlood.CascadeCompletes | kernel-module/unlock.c:146-180 | every partial cascade extends to one with no pulse left |
| UnlockReach.CascadeReachesLeastSet | kernel-module/unlock.c:146-171 | when no pulse is left, the relaying nodes hold all that must hear and lie in every set closed under those that may, so they are the least closed set when the two agree; exactly they have recorded a pulse |
| UnlockReach.OutsideIsCascade | kernel-module/unlock.c:146-171 | a pulse from outside that finds all nodes idle is a cascade on one instant, in which a node hears exactly if it is eligible |
| UnlockReach.FloodTerminates | kernel-module/unlock.c:73-171 | after the timer handler of one node has run, with the others idle: each node, the source too, relays at most once and within the pulse width, pulses are conserved, and deliveries are bounded |
| UnlockReach.FloodReachesLeastSet | kernel-module/unlock.c:73-171 | when no pulse of it is left, the relaying nodes are exactly the least set holding the eligible neighbours of the source and of its own members, if no other node's eligibility changes during the pulse |
| UnlockReach.SteadyIff | kernel-module/unlock.c:73-171 | that condition is exact: the conclusion holds on every wiring if and only if it holds |
| UnlockReach.FloodCompletes | kernel-module/unlock.c:73-171 | every partial cascade from a timer extends to one with no pulse left |
| UnlockReach.HandlersEndSoon | kernel-module/unlock.c:73-191 | under echo safety every run of a node up to time t leaves it free within the pulse width, or unable to accept what waits when its handler ends |
| UnlockReach.SnapshotIsCascade | kernel-module/unlock.c:73-240 | nodes that have run from module load, caught at any time with any due pulses on the lines, are a cascade on narrow instants, so each relays at most once |
| UnlockEcho.CascadesEndIff | kernel-module/unlock.c:146-180 | the relays are bounded from every state of every network if and only if the parameters are echo safe |
| UnlockEcho.EchoUnsafeNeverEnds | kernel-module/unlock.c:73-240 | for all other parameters three loaded nodes, two of them wired to each other, have runs with more than k relays for every k once the timer of the third has fired in time |
| UnlockEcho.PairBouncesIff | kernel-module/unlock.c:73-240 | two loaded nodes wired to each other have such runs after their first timer pulse if and only if the parameters are not echo safe and 1000*T+1000 is less than a second in ns |
| UnlockEcho.OverlapRelaysOnceIff | kernel-module/unlock.c:146-180 | however many cascades start within one busy time, among busy nodes, each node relays at most once in all of them if and only if T > 4*Delta or T/2 is at least a second |
| UnlockLog.LogRecordsPulses | kernel-module/unlock_with_log.c:63-144 | in every run the log is the first 1000 pulses asked for with time and source, no two neighbouring entries come from the timer, and it is printed once, when it fills up |
| UnlockLog.LogAcceptSpacing | kernel-module/unlock_with_log.c:94-99 | in every run of the logging variant, full log or not, accepted pulses are T/2 to one second apart |
| UnlockLog.LogLastTwoAccepts | kernel-module/unlock_with_log.c:94-127 | in every run the stored times are the last two accepted times |
| UnlockLog.LogAcceptedIff | kernel-module/unlock_with_log.c:94-99 | a pulse after any run is accepted exactly if the last accept of the run is T/2 to one second ago |
| UnlockLog.LogAcceptEffect | kernel-module/unlock_with_log.c:102-140 | after an accepted pulse: accept times, the time the handler ends, and the deadline up to multiples of 2^32 ns, for all random words; a full log leaves out the pulse but not the re-arming |
| UnlockLog.ArmedIff | kernel-module/unlock_with_log.c:72-144 | after every run the one-shot timer is armed exactly if the last pulse asked for was an accepted one; a run that asks for none leaves the deadline alone |
| UnlockLog.LoadedLogNode | kernel-module/unlock_with_log.c:147-190 | a loaded node: empty log, first timer a period after the load, pulses accepted from T/2 on |
| UnlockLog.MaySendIff | kernel-module/unlock_with_log.c:72-109 | some run of a node sends a pulse if and only if its log is not full, and its timer is armed, or its last accept is less than a second old and T/2 is less than a second |
| UnlockLog.LogModule.TimerHandler | kernel-module/unlock_with_log.c:72-87 | the handler refines the timer step: it sends and logs unless the log is full, keeps the accept times and leaves the timer unarmed |
| UnlockLog.LogModule.IrqHandler | kernel-module/unlock_with_log.c:90-144 | the handler refines the interrupt step on the log array: outside T/2 to one second nothing changes, inside it stores the accept time and re-arms up to multiples of 2^32 ns |
| Descriptors.OverAllocate | ath9k/init.c:217-228 | the over-allocation loop terminates for descriptors under 4096 bytes and leaves the exact total modulo 2^32 |
| Descriptors.ExtraAtMostOnePerPage | ath9k/init.c:217-228 | the loop grants at most one extra descriptor per page of the final length |
| Descriptors.CrossesIff | ath9k/ath9k.h:68 | the boundary check looks at 129 bytes: it refuses exactly one address from which a 128-byte fetch stays in its page |
| Descriptors.PlaceBuffers | ath9k/init.c:250-272 | the placement loop puts buffers at exactly the first usable slots, in order, and stops on its BUG_ON only on a forbidden slot at or past the end; the receive branch is the same loop |
| Descriptors.PlacementIsSafe | ath9k/init.c:256-270 | for strides of 128 to 3968 bytes at most one slot is skipped per buffer, descriptors do not overlap, and each 128-byte fetch stays in one page |
| Descriptors.GreedyUnique | ath9k/init.c:250-272 | the placement is determined by the set of usable slots |
| Descriptors.Slot128 | ath9k/init.c:250-272 | on a page-aligned region with 128-byte descriptors buffer i sits in slot i+i/31 |
| Descriptors.Legendre | ath9k/init.c:217-228 | 31 times the extra descriptors equals n minus the base-32 digit sum of n |
| Descriptors.GuessSuffices | ath9k/init.c:210-272 | all n buffers lie inside the region if and only if the base-32 digit sum of n is at most 31 |
| Descriptors.BugExactlyWhenCaught | ath9k/init.c:261-265 | the BUG_ON fires exactly for the digit sums of `Caught` |
| Descriptors.SetupVerdict | ath9k/init.c:250-272 | for every pool size, on the exact length: position of every buffer, when the BUG_ON fires, and when everything fits |
| Descriptors.LengthDoesNotWrap | ath9k/init.c:210-227 | the 32-bit length is the exact one for every pool whose descriptors fit an `int` |
| Descriptors.SetupPool | ath9k/init.c:185-306 | running the set-up of n buffers of 128 bytes: it stops on its BUG_ON exactly when `Caught`, and all buffers lie inside the length it computed if and only if the base-32 digit sum of n is at most 31 |
| Descriptors.PageSizedNeverEnds | ath9k/init.c:222-227 | with descriptors of 4096 bytes the over-allocation loop never ends once entered |
| Descriptors.PoolSizes | ath9k/init.c:842 | 80 and 512 buffers fit; 63 is the smallest pool that does not; the smallest pool the BUG_ON stops is 2047 |
| Descriptors.DescDma.Setup | ath9k/init.c:185-306 | the whole set-up with its error exits: length, address, buffers and status |
| Radiotap.TableEntries | packetspammer/radiotap.c:132-151 | alignment and size of every field are the nybbles of the table |
| Radiotap.NextIsSafe | packetspammer/radiotap.c:158-236 | one call, from any state: index in range, field back to back and inside the header, error and end states |
| Radiotap.NextTakesFirst | packetspammer/radiotap.c:158-236 | one call, for the first present field: the index moves on by exactly the bytes that would align the argument, below its alignment, the argument stays, and only the bits up to that field are used up |
| Radiotap.NextFindsEnd | packetspammer/radiotap.c:158-236 | without a present field a call ends the iteration and moves only index and bits |
| Radiotap.CallsAreSafe | packetspammer/radiotap.c:158-236 | any number of calls: strictly increasing disjoint fields inside the header, at most 14, and a stop is final |
| Radiotap.ExtensionsAreSkipped | packetspammer/radiotap.c:65-88 | arguments start after the first presence word that does not extend, or the header is refused |
| Radiotap.InitReads | packetspammer/radiotap.c:43-93 | initialisation depends only on the first `ReadsUpTo` bytes: at most four past the stated length and fixed header, up to the first argument for an accepted header, past the stated length for one refused for its extensions; what the iterator holds on every exit |
| Radiotap.LastByteMatters | packetspammer/radiotap.c:53-88 | the last of these bytes decides: turning its top bit over changes the outcome |
| Radiotap.FindPayload | packetspammer/radiotap.c:66-81 | the extension loop terminates with that result |
| Radiotap.Iterator.Initialise | packetspammer/radiotap.c:43-93 | result and all iterator fields after initialisation, on every exit |
| Radiotap.Iterator.Advance | packetspammer/radiotap.c:113-237 | the loop computes the next result and state, and its end-of-bitmap branch is unreachable |
| RadiotapLayout.FollowsLayoutIff | packetspammer/radiotap.c:158-236 | from every state the reported fields are those of the padded layout if and only if no field needing padding is misplaced |
| RadiotapLayout.HeaderFollowsLayoutIff | packetspammer/radiotap.c:43-236 | the same for a header given by its bytes |
| RadiotapLayout.PaddedChannelIsMisread | packetspammer/radiotap.c:182-196 | on every 14-byte header with flags and channel: the channel is reported as another field, one byte early |
| RadiotapLayout.RoundTrip | packetspammer/radiotap.c:43-236 | writing fields that need no padding and iterating gives the same values in order, then the end with the cursor at the header length |
| PowerSave.BracketsKeepAwake | ath9k/main.c:88-171 | over every interleaving, with the steps that force the chip awake at lines 667 and 1351 the count is the number of open brackets, and while one is open the chip is awake with no sleep timer pending |
| PowerSave.OpenIsBalance | ath9k/main.c:104-171 | a thread's open brackets are its wake-ups less its releases, and while positive the chip is awake |
| PowerSave.ConditionIff | ath9k/main.c:88-171 | over every interleaving, when the chip is in full sleep, in network sleep, and when the sleep timer is pending: full sleep exactly from a firing of the timer to the next wake-up or forced one; network sleep after a last release with power save on, not idle and none of the five flags |
| PowerSave.FullSleepRefusesTx | ath9k/main.c:924-958 | over every interleaving a frame is refused, with nothing changed, exactly from a firing of the sleep timer to the next wake-up or forced one |
| PowerSave.TxFindsChipAwake | ath9k/main.c:924-958 | without interference a frame is handed over exactly when the chip was not in full sleep, and then it is awake; the count is unchanged |
| PowerSave.OnlyOwnBracketProtects | ath9k/main.c:88-171 | the chip stays awake under everything other threads and the timer may do if and only if the thread itself holds a bracket |
| PowerSave.TxIsABracket | ath9k/main.c:924-949 | sending from network sleep is a wake-up, a flag and a release of the sending thread |
| PowerSave.TxRace | ath9k/main.c:924-966 | after the full-sleep test the chip is awake, and it is sure to be awake at the hand-over if and only if the sending thread holds a bracket from elsewhere |
| PowerSave.TxGapInOneStep | ath9k/main.c:948-966 | a single step in that gap puts the chip to sleep exactly when a sleep timer is pending, or one other bracket is open and nothing else keeps the chip awake |
| PowerSave.SoftC.PsWakeup | ath9k/main.c:104-133 | refines the wake-up step |
| PowerSave.SoftC.PsRestore | ath9k/main.c:135-171 | refines the restore step |
| PowerSave.SoftC.FullSleepCallback | ath9k/main.c:88-102 | refines the sleep-timer step: full sleep, with no timer pending |
| PowerSave.SoftC.Tx | ath9k/main.c:924-976 | the frame reaches the hardware only with the chip awake, and the count is unchanged on every exit |
| Chainmask.FillChainmask | ath9k/main.c:2255-2271 | bit i of the result is set exactly when bit i of the capability is set and the selection has the bit of its rank; the result is at most the capability and extracts to the selection modulo 2^popcount |
| Chainmask.DepositBits | ath9k/main.c:2255-2271 | the same, position by position, for the specification |
| Chainmask.RoundTrip | ath9k/main.c:2255-2271 | extraction undoes deposit |
| Interfaces.MaskIsLargest | ath9k/main.c:1069-1076 | a set of bits lies within the mask if and only if all addresses agree on it |
| Interfaces.SummaryDependsOnSet | ath9k/main.c:1064-1168 | mask, mode and interrupt choice depend only on which interfaces there are, not on order or repetition |
| Interfaces.ExplicitInterfaceIsHarmless | ath9k/main.c:1125-1136 | passing an interface that is also in the list changes only the hardware address |
| Interfaces.CountsShowPresence | ath9k/main.c:1078-1096 | each counter is positive exactly when an interface of its type was visited |
| Interfaces.CountsAreRight | ath9k/main.c:1078-1096 | each counter is the number of interfaces of its type |
| Interfaces.TypesDecide | ath9k/main.c:1140-1168 | mode and interrupt choice, type by type |
| Interfaces.Summary.VifIter | ath9k/main.c:1064-1097 | the visit of one interface, in place |
| Interfaces.CalculateSummary | ath9k/main.c:1140-1175 | address, mask, mode and interrupt choice after the whole calculation, with the mask characterised on the visited interfaces and mode and interrupt choice by their types |
| HexDump.Dump | packetspammer/packetspammer.c:118-167 | for at least one byte the output is a proper dump of the input, and the only one |
| HexDump.DumpIsUnique | packetspammer/packetspammer.c:118-167 | two proper dumps of the same bytes are equal: offsets, maximal repeat counts and the last line leave no choice |
| HexDump.Compare | packetspammer/packetspammer.c:139 | comparing the two alternating buffers compares the current line with the last one printed |
| HexDump.FinishLine | packetspammer/packetspammer.c:139-150 | counting a repeat and printing a line both keep the output standing for the lines read |
| Latency.MeanError | kernel-module/gpio-irq-latency-test.c:73 | without overflow the mean is never above the true mean and below it by at most (n-1)/2 |
| Latency.SmallSumFits | kernel-module/gpio-irq-latency-test.c:73 | no update overflows when the samples add up to less than 2^32 |
| Latency.MeanBetween | kernel-module/gpio-irq-latency-test.c:73 | the mean lies between the smallest and the largest sample |
| Latency.UpdateExactIff | kernel-module/gpio-irq-latency-test.c:73 | an update gives the true quotient exactly if its product and sum fit in 32 bits |
| Latency.MeanStuckOnRamp | kernel-module/gpio-irq-latency-test.c:73 | the error bound is attained: on a ramp the mean stays at the first sample |
| Latency.MaxIsRight | kernel-module/interrupt_test_node1.c:56 | the reported maximum is the largest sample |
| Latency.MinRightIff | kernel-module/interrupt_test_node1.c:57 | the reported minimum is the smallest sample if and only if no sample is zero or the last one is |
| Latency.TestStops | kernel-module/gpio-irq-latency-test.c:84-106 | every test run stops within 1124 ticks, for one of its two reasons, with the answered latencies as samples |
| Latency.LatencyTest.TimerHandler | kernel-module/gpio-irq-latency-test.c:60-115 | one tick: result index in range, results keep 16 bits, mean and counters follow the samples |
| Latency.RoundTripTest.TimerHandler | kernel-module/interrupt_test_node1.c:33-81 | one tick of the round-trip test: mean, extremes, results and counters follow the samples |

## Left out

- Null `txbuf_fff`: the handlers return no defined value then; the model assumes the pointer is set, as sending a packet first does.
- Changing T or Delta during a run, and parameter values whose products by 500 and 1000 do not fit in 32 bits.
- Real time: one monotone clock stands for wall clock and timer clock, delays are exact and other instructions take no time.
- Lines between nodes: a relayed pulse reaches its neighbours when the relaying handler read its clock, without the microsecond of pulse width.
- SMP effects inside one handler, and `hrtimer_cancel` racing with the timer callback.
- The driver code that takes buffers from the free list and returns them is not part of this model; `WaitInRange` assumes each step moves one buffer.
- UnlockFlood.CascadeTerminates: every pulse gets an interrupt of its own; on the hardware, edges that arrive while the handler runs collapse into one pending interrupt, so delivery counts and conservation hold for the lines as modelled.
- Timers that fire while a cascade is under way: their pulses can be among the pending ones with their times (`CascadesEndIff`, `OverlapRelaysOnceIff`), but the microsecond their own handler runs is then not part of the cascade.
- Descriptors.OverAllocate: requires descriptors under 4096 bytes; at 4096 bytes the source loop does not end (`PageSizedNeverEnds`).
- Descriptors.DescDma.Setup: requires that the product of the three sizes fits an `int`, as C does, and takes the outcome of both allocations as parameters; descriptors of 4096 bytes or more are covered only for hardware with the split capability, where the loop is not run.
- Byte order and character formatting: radiotap words are assembled little-endian, and the hex dump is a list of lines and counts rather than characters; the printable column is not modelled.
- PowerSave.SoftC.Tx: cycle counters, receive abort, the PM bit in the frame and the hand-over itself are not modelled; `ath9k_hw_setpower` is taken to succeed.
- PowerSave.TxFindsChipAwake: holds without interference only; `TxRace` and `TxGapInOneStep` say what interference does.
- Interfaces.CalculateSummary: the beacon synchronisation after a change to station mode and the register writes are not modelled.
- Latency.MeanError: stated for sample sequences whose 32-bit products do not overflow; `SmallSumFits` gives a condition on the samples.
- `ath_cw_update`, the character devices, GPIO and IRQ set-up, the sender's `main`, rate printing and the remaining driver callbacks: not modelled; they forward to the kernel or the hardware, or are settled by reading one body.
