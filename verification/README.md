# Verified model of the timer wheel, its lists and its arithmetic

This project models, in Dafny, the hard parts of a small user-space port of kernel
utilities, and proves what they promise:

* the hierarchical timer wheel of `timer.c`: five levels of lists over 22 bits of tick,
  with cascading, `add_timer`, `mod_timer`, `mod_timer_pending`, `del_timer`, and
  `__run_timers` with callbacks that call back into the wheel;
* the intrusive circular lists of `uki/list.h` on which it is built;
* the multi-word division and multiplication of `div64.c`, `uki/div64.h`, `uki/fls.h` and
  `uki/math64.h`, in the form built for 32-bit machines;
* the conversions between jiffies, seconds and dates of `jiffies.c`, for HZ = 100.

## Structure

| files | content |
|---|---|
| `Words.dfy`, `Sequences.dfy` | machine words, facts about `/`, `%` and sequences |
| `TimerSlots.dfy`, `TimerTrack.dfy` | slot arithmetic, and the course of one timer through the levels |
| `WheelModel.dfy`, `WheelRuns.dfy` | the wheel as a value, its operations, and runs of steps |
| `WheelTiming.dfy`, `WheelFate.dfy` | the comparison with a plain alarm clock; the fate of one timer |
| `WheelModTimer.dfy`, `WheelPlacement.dfy` | the documented and the written order of `mod_timer`; where timers are in reachable states |
| `WheelFirings.dfy`, `WheelOrder.dfy` | the order of firings by deadline; first in, first out, and the bound `next_timer` |
| `WheelService.dfy` | what a whole call of `__run_timers` achieves |
| `ListRing.dfy`, `ListOps.dfy` | the lists as linked nodes on the heap |
| `TimerBase.dfy` | the wheel as a class over linked rings, proved to follow `WheelModel` |
| `Division.dfy`, `Products.dfy` | wide arithmetic |
| `TimeConversion.dfy`, `Calendar.dfy` | time conversions and the calendar formula |

## How the wheel is modelled

`TimerBase` is the imperative program: 128 list heads, `timer_jiffies` and `next_timer` as
64-bit words, and timers as nodes of linked rings.  Each of its methods is proved to take the
state to what the function of the same name in `WheelModel` says.  `RunTimers` returns the
steps it took, and they are a run in the sense of `WheelRuns`.  Its contract carries the timing
over to the program: which timers have run, and when, follows from `WheelService`.

* `unsigned long` has 64 bits.  The model keeps an unbounded tick besides; `timer_jiffies` is
  its low 64 bits.  Every comparison is made on the 64-bit words, as in the program, and
  `WrapSafe` shows it to be right for the unbounded times.
* The deadline of a timer is `Due`: the time nearest to the tick that its `expires` denotes,
  or the tick itself if that time is past.
* The reference for timing is `Alarms`, a map from timers to deadlines.  The reference for
  slots is `NextDrain`, the first tick in a residue class.
* Calls of the interface are atomic steps, made between ticks or by the function of a timer.
  Callbacks may make any calls, on any timers, also on those waiting in the work list.  In
  `RunTimers`, which must be executable, their calls are given as a script.
* A `BUG_ON` is reported by the out-parameter `bug`; nothing happens after it.
* The work list is one permanent list head, where the program has a local one in each pass; it
  is empty between ticks in both.  `Node` merges `struct list_head` with the `expires` field
  of the timer around it.  The poison value that detaching leaves in `prev` is null.
* `jiffies` is a parameter and does not change during one `__run_timers`.

## Where the code differs from its documentation

* `mod_timer` is documented as deleting the timer, setting `expires` and adding the timer.
  The code files the timer first and sets `expires` afterwards, so it chooses the list by the
  old deadline.  `ModTimer` models the code; `DelSetAdd` the documentation.
  `ModTimerAsDocumentedIff` says when they agree, and `CallKeepsDeadlineIff` when the timer
  still runs at its new deadline; `MeetsDeadlineNear`, `MeetsDeadlineFurther` and
  `MeetsDeadlineFarthest` give that condition in terms of the two deadlines, for every
  distance of the old one.  `DocumentedRunRefines`, `DocumentedFiringsInOrder` and
  `Placement` hold of the documented order without any condition.
* When `mod_timer` is called with the deadline that the timer has already, the code returns
  early.  If the timer waits on the work list, as when the callback of an earlier timer of
  the same tick makes the call, it runs in the tick being processed; the documented sequence
  would take it off the work list and run it in the next tick at the earliest
  (`EarlyReturnAsDocumentedIff`, `EarlyReturnFate`).  The alarm clock follows the code here.
* `div64_u64` shifts its operands by one bit more than the high word of the divisor needs.
  `DivisorExactIff` characterizes the divisors for which no dividend is divided wrongly;
  `OvershootWitness` is a dividend and divisor for which the quotient is 2 too large, and
  `SmallerShiftSafe` shows that a shift by one bit less would be exact for all.

## Model

| member | source | states |
|---|---|---|
| `TimerSlots.WrapSafe` | timer.c:317-352 | on 64-bit wrapping words, the bucket chosen is the one the unbounded times call for, at any distance below half the counter range |
| `TimerSlots.BucketByDistance` | timer.c:319-352 | for each distance to the deadline, which level and which bits of which time are the slot, with all constants written out |
| `TimerSlots.CappedDrain` | timer.c:343-351 | a distance beyond 0xffffffff selects the slot of level 5 that is drained last, at most one revolution ahead |
| `TimerSlots.FilingDrain` | timer.c:319-352 | a timer filed for the future is in a bucket next drained exactly at its deadline (level 1), at the deadline rounded down (levels 2 to 4), or later than now but not after it (level 5, also with the 0xffffffff cap) |
| `TimerSlots.FilingPast` | timer.c:335-340 | a deadline already past selects the slot that the current tick drains |
| `TimerSlots.DrainedNowIff` | timer.c:573 | the slots selected by `INDEX` at aligned ticks are exactly those whose residue class contains the tick |
| `TimerSlots.NextDrainLeast` | timer.c:595-601 | no tick before `NextDrain` belongs to the residue class of the bucket |
| `TimerTrack.FiledOnCourse` | timer.c:317-357 | filing puts any timer on course for its effective deadline, also in the middle of the cascades of a tick |
| `TimerTrack.NextLevelDue` | timer.c:595-599 | the index of a level is 0 at an aligned tick iff the next level is reached |
| `TimerTrack.CascadedOnCourse` | timer.c:553-571 | each cascade of a level keeps timers on course, with the lower levels counted as drained already |
| `TimerTrack.SkippedOnCourse` | timer.c:595-599 | the levels skipped by the short-circuit have nothing due at this tick |
| `TimerTrack.TickKeepsCourse` | timer.c:582-606 | one tick hands a timer that is on course to the work list iff the tick is its deadline, and keeps it on course otherwise |
| `TimerTrack.RefiledIffDrained` | timer.c:553-601 | all nested cascades together refile exactly the timers above level 1 whose bucket is drained at this tick, and leave none in a slot of levels 2 to 4 that this tick drains |
| `TimerTrack.OffCourseMisses` | timer.c:553-606 | a timer off course stays off course until it is handed over, which is not at its deadline |
| `TimerTrack.FateIsDueIff` | timer.c:553-606 | the tick at which a timer in a given bucket will run is its deadline iff it is on course |
| `TimerTrack.FateOffCourse` | timer.c:553-606 | off course above level 1, that tick is the next drain of the bucket iff the timer's time is at most half the counter range back by then; otherwise it is a whole counter range later |
| `TimerTrack.TickKeepsFate` | timer.c:582-606 | one tick hands any timer to the work list at that tick, and before it does not move it |
| `TimerTrack.TickKeepsAlignment` | timer.c:323-352 | levels 2 to 4 keep holding timers for the deadline rounded down to the granularity |
| `TimerTrack.RevolutionApproaches` | timer.c:341-352 | a timer refiled into level 5 has its next drain strictly nearer the deadline, never beyond it and at most one revolution away |
| `WheelModel.ApplyConsistent` | timer.c:419-551 | every call keeps each pending timer on exactly one list, once, and the others on none |
| `WheelModel.ApplyEffect` | timer.c:419-551 | a call changes tick, deadlines and placement of no timer but its own, whose new list and deadline it gives |
| `WheelModel.CallSparesOthers` | timer.c:419-551 | no call changes the order or contents of any list apart from its own timer |
| `WheelModel.CallRings` | timer.c:353-356 | a call takes its timer off whichever list holds it and, if it files, puts it behind all others on the list of the bucket chosen; every list is given |
| `WheelModel.RefileEffect` | timer.c:561-568 | refiling a drained list loses and duplicates no timer |
| `WheelModel.Cascade` | timer.c:553-571 | a cascade conserves the set of pending timers and refiles exactly those of its slot |
| `WheelRuns.StartEffect` | timer.c:587-601 | the start of a tick moves each timer as its own bucket, deadline and the tick say, and keeps the lists consistent |
| `WheelRuns.WorkListNeverLonger` | timer.c:602-641 | no call of a callback lengthens the work list |
| `WheelRuns.StillBehind` | uki/jiffies.h:142-144 | the loop condition on 64-bit words is the comparison of the unbounded times, and stays about the same time |
| `WheelRuns.TickAfterWord` | timer.c:587-600 | the loop ends with `timer_jiffies` at `jiffies + 1` if `jiffies` was not before it, and where it was otherwise |
| `WheelRuns.ScriptFollowed` | timer.c:606-626 | in a run that follows a script the callbacks make the calls of its entries in order, one entry each, and none after its end |
| `WheelRuns.CallbackCallsAt` | timer.c:606-626 | the calls recorded for the callbacks are, in order, those of each timer run |
| `WheelRuns.CallbackCount` | timer.c:606-626 | there is one record for each timer run |
| `WheelTiming.CallRefines` | timer.c:419-551 | each call that meets its deadline condition does to the abstract alarm clock what it should |
| `WheelTiming.StartRefines` | timer.c:587-601 | a tick sets off exactly the alarms due at it |
| `WheelTiming.StepRefines` | timer.c:582-645 | every step of the wheel whose `mod` calls meet the condition is a step of the alarm clock, with the same timers armed and firing |
| `WheelTiming.RunRefines` | timer.c:317-645 | over whole runs in which each `mod` call meets its deadline condition, the wheel is the alarm clock: no timer early, late, lost or duplicated |
| `WheelTiming.InitOnCourse` | timer.c:647-666 | the initial wheel is consistent and is the alarm clock with nothing armed |
| `WheelTiming.InitTimerRefines` | timer.c:359-382 | initializing a new timer keeps all timers on course and sets no alarm |
| `WheelTiming.FilingByOwnDeadline` | timer.c:514-518 | filing by the deadline that is set, as `add_timer` does, always meets it |
| `WheelFate.RunsAtDeadline` | timer.c:582-645 | a timer on course that is left alone is pending until its deadline and then runs once, at it, whatever happens to other timers |
| `WheelFate.RanOnce` | timer.c:582-645 | once the deadline is passed and the work list empty, the timer has run exactly once, at its deadline |
| `WheelFate.NeverRunsAtDeadline` | timer.c:582-645 | a timer off course does not run at its deadline in any run |
| `WheelFate.RunsAtFate` | timer.c:582-645 | any pending timer, on course or not, that is left alone runs exactly once, at the tick its bucket and `expires` determine; one on the work list in the tick being processed |
| `WheelFirings.FiringsInDeadlineOrder` | timer.c:587-642 | over a whole run in which each `mod` call meets its deadline condition, each timer is run at the tick that is the deadline last set for it, and the deadlines of successive firings never decrease |
| `WheelFirings.DocumentedFiringsInOrder` | timer.c:475-477 | so from initialization on in the documented order, without conditions |
| `WheelFirings.RunSettled` | timer.c:587-606 | in every run no timer is both armed and about to run, and the deadline of each about to run is the tick being processed |
| `WheelModTimer.DelSetAddEffect` | timer.c:475-477 | the documented sequence files by the new deadline; bucket, deadline and list order of all other timers stand |
| `WheelModTimer.DocumentedOrder` | timer.c:475-477 | deleting and adding, as two calls, is always permitted and is the documented sequence |
| `WheelModTimer.DocumentedRunRefines` | timer.c:475-477 | from initialization, any run in the documented order refines the alarm clock, without conditions |
| `WheelModTimer.ModTimerAsDocumentedIff` | timer.c:419-450 | past the early return, `mod_timer` gives the documented state iff the old and the new deadline select the same bucket |
| `WheelModTimer.ModTimerEarlyReturn` | timer.c:489-495 | on the early return nothing changes; the documented sequence keeps `expires` of all timers, the set of pending ones and the lists of the others in order, and puts the timer into the wheel |
| `WheelModTimer.EarlyReturnAsDocumentedIff` | timer.c:489-495 | with all timers on course, the early return and the documented sequence leave the same alarms iff the timer is in the wheel, not on the work list |
| `WheelModTimer.EarlyReturnFate` | timer.c:475-495 | a timer on the work list runs in the tick being processed after the early return, and in a later one after the documented sequence; a timer in the wheel runs at the same tick iff it is on course |
| `WheelModTimer.CallKeepsDeadlineIff` | timer.c:419-450 | the timer of a filing call runs exactly once, at the deadline set, iff the call meets the condition, in every run that leaves the timer alone |
| `WheelModTimer.CallRunsAtFate` | timer.c:419-450 | whether or not in time, the timer of a filing call that is left alone runs exactly once, at the tick that the bucket chosen and the new deadline determine |
| `WheelModTimer.MissedFate` | timer.c:440-441 | a deadline that is missed is missed on level 1 by running when the slot is drained, above it by running too late: when the slot is drained or, if the time is more than half the counter range back by then, a range later |
| `WheelModTimer.MeetsDeadlineNear` | timer.c:440-441 | with the old deadline past or under 64 ticks ahead, the condition is that both deadlines be equal |
| `WheelModTimer.MeetsDeadlineFurther` | timer.c:440-441 | with the old deadline in reach of level 2 to 5 within one revolution, the condition is that the new one be not before the old one rounded down |
| `WheelModTimer.MeetsDeadlineFarthest` | timer.c:440-441 | with the old deadline a revolution or more ahead, the condition is that the new one be not before the wheel next passes the (capped) old position |
| `WheelModTimer.RearmedTooEarly` | timer.c:440-441 | re-arming a timer whose deadline has come makes it run in the very next tick |
| `WheelModTimer.RearmedForOneSecond` | timer_test.c:39-45 | so does re-arming a timer that has run for `jiffies + 1*HZ`, as the repository's test does, at any `jiffies` |
| `WheelModTimer.RearmedWitness` | timer_test.c:39-45 | an instance with chosen times: slot 13 of level 1, drained by the very next tick processed, instead of slot 2 of level 2 |
| `WheelPlacement.Level1Placement` | timer.c:323-325 | being on course on level 1 means exactly: due within 64 ticks, in slot deadline mod 64 |
| `TimerTrack.CascadedAligned` | timer.c:553-571 | a single cascade keeps the exact rounded-down placement of levels 2 to 4 |
| `WheelPlacement.ChainIsUpTo` | timer.c:595-599 | the short-circuit chain is the cascade of levels 2 up to the last whose granularity divides the tick |
| `WheelPlacement.Placement` | timer.c:317-357 | in every state reachable in the documented order, and after each of the nested cascades of a tick, each timer of the wheel is where the placement invariant of its level says, and none is in a slot of levels 2 to 4 already drained at this tick |
| `WheelOrder.RefileInOrder` | timer.c:353-356 | refiling a list keeps the order of all timers that go to the same bucket |
| `WheelOrder.CascadeKeepsOrder` | timer.c:559-568 | so does a cascade, also for timers elsewhere |
| `WheelOrder.RunKeepsOrder` | timer.c:353-356 | in whole runs, of two timers on a list, equal or on level 1, the second does not run before the first and stays behind it |
| `WheelOrder.FiledInOrder` | timer.c:353-356 | every filing call puts its timer in order behind the equal timers of the bucket, and behind all on level 1 |
| `WheelOrder.FirstFiledRunsFirst` | timer.c:353-356 | so a timer filed into the bucket of an equal one does not run before it, in any run |
| `WheelOrder.FirstSetRunsFirst` | timer.c:353-356 | of two timers set to one deadline by two calls, with any run between, the first set runs first if it is still in the bucket chosen for the second |
| `WheelOrder.TimeBeforeExact` | uki/jiffies.h:136-140 | `time_before` is exact, across a wrap, for times within half the counter range |
| `WheelOrder.CallMovesNext` | timer.c:429-544 | the exact `next_timer` after each call: reset to the clock by detaching a pending timer of that deadline, and then lowered to the deadline set if a timer is filed |
| `WheelOrder.CallKeepsNextBehind` | timer.c:429-444 | each call keeps `next_timer` from passing `timer_jiffies` |
| `WheelOrder.RunKeepsNextBehind` | timer.c:429-444 | in whole runs `next_timer` goes on bounding all effective deadlines from below, while the times in play span less than half the counter range |
| `WheelOrder.NextBoundsFromInit` | timer.c:429-444 | so in every state reachable from initialization |
| `ListRing.ListAdd` | uki/list.h:106-109 | prepends to the sequence of the ring, writing only the ends |
| `ListRing.ListAddTail` | uki/list.h:120-123 | appends to the sequence of the ring, writing only the ends |
| `ListRing.ListDelEntry` | uki/list.h:131-137 | removes one position from the sequence; the removed node keeps its links |
| `ListRing.ListReplaceInit` | uki/list.h:178-183 | passes the whole sequence, also an empty one, to the new head and leaves the old one empty |
| `ListRing.DetachEntry` | timer.c:384-393 | removes the timer from its ring and marks it inactive iff asked to |
| `ListOps.ListDelInit` | uki/list.h:189-193 | removes one position from the sequence and leaves the removed node an empty ring |
| `ListOps.ListMoveTail` | uki/list.h:211-216 | moves a node to the tail of its own or another ring |
| `ListOps.ListRotateLeft` | uki/list.h:284-292 | rotates the sequence by one, also a singleton or empty one |
| `ListOps.ListBulkMoveTail` | uki/list.h:227-239 | moves any section to the tail, also one at the tail already or the whole list |
| `ListOps.ListSpliceBetween` | uki/list.h:373-385 | inserts one sequence at any position of another |
| `ListOps.ListSplice` | uki/list.h:392-425 | prepends one ring to another, with and without reinitialization |
| `ListOps.ListSpliceTail` | uki/list.h:404-442 | appends one ring to another, with and without reinitialization |
| `ListOps.ListCutPosition` | uki/list.h:303-341 | splits the sequence after any entry or before the first |
| `ListOps.ListCutBefore` | uki/list.h:357-371 | splits the sequence before any entry or after the last |
| `ListOps.CutThenSplice` | uki/list.h:303-425 | cutting after an entry and splicing back restores the list |
| `ListOps.CutBeforeThenSplice` | uki/list.h:357-425 | and so does cutting before an entry |
| `TimerBaseRings.TimerBase.constructor` | timer.c:647-666 | 129 distinct empty rings: the initial wheel |
| `TimerBaseRings.TimerBase.InternalAddTimer` | timer.c:317-357 | appends the timer to the ring of its bucket; all other rings stand |
| `TimerBaseRings.TimerBase.InitTimer` | timer.c:359-382 | makes a timer known as inactive, keeps all lists, and keeps all timers on course |
| `TimerBaseRings.TimerBase.TimerPending` | uki/timer.h:121-124 | `next` is non-null iff the timer is on a list |
| `TimerBaseRings.TimerBase.DetachTimer` | timer.c:384-393 | takes a pending timer out of whichever ring holds it |
| `TimerBaseRings.TimerBase.ModTimerCommon` | timer.c:419-450 | follows the model in the written order; returns 1 iff the timer was pending |
| `TimerBaseRings.TimerBase.ModTimerPending` | timer.c:462-465 | changes nothing if the timer is inactive; returns 1 iff it was pending |
| `TimerBaseRings.TimerBase.ModTimer` | timer.c:487-498 | follows the model; returns 1 iff the timer was pending |
| `TimerBaseRings.TimerBase.AddTimer` | timer.c:514-518 | stops with a bug iff the timer is pending, else files it |
| `TimerBaseRings.TimerBase.DelTimer` | timer.c:531-551 | leaves the timer inactive; returns 1 iff it was pending |
| `TimerBaseRings.TimerBase.Cascade` | timer.c:553-571 | drains one slot into a private head and refiles each of its timers once; all rings end well-formed and disjoint |
| `TimerBaseRings.TimerBase.RefileAll` | uki/list.h:635-639 | the safe traversal visits each node once and ends, although the nodes are linked into other rings on the way |
| `TimerBaseRings.TimerBase.FileFirst` | timer.c:561-568 | filing one node does not write the links of those still to be visited |
| `TimerBaseRings.TimerBase.RunCascades` | timer.c:592-599 | the short-circuit chain of cascades follows the model |
| `TimerBaseRings.TimerBase.RunFirst` | timer.c:606-640 | detaches the first expired timer and makes its calls; the work list gets shorter |
| `TimerBaseRings.TimerBase.RunTimers` | timer.c:582-645 | ends, whatever the callbacks do; its steps are a run of the model, and it ends with an empty work list and `timer_jiffies` at `jiffies + 1` unless it was past `jiffies` before or a callback hits a bug; the callbacks have made the calls of the script, entry by entry; every timer on course that the callbacks spare has then run once, at its deadline, iff that was not after `jiffies`; if all timers were on course and the callbacks keep to the documented order, the wheel is the alarm clock, with no alarm left that was due |
| `WheelService.RunServesTimers` | timer.c:582-645 | a whole call runs each timer that is on course and spared by the callbacks once, at its deadline, if that is not after `jiffies`, and not at all otherwise |
| `WheelService.RunServesAlarms` | timer.c:582-645 | with all timers on course and callbacks in the documented order, a whole call leaves what the alarm clock has after the same steps, with none firing and none due up to `jiffies` |
| `Division.Fls` | uki/fls.h:38-65 | the number of the top bit, 0 for 0 |
| `Division.DivU64Rem` | uki/div64.h:66-83 | exact quotient and remainder; the precondition of `divl` is met |
| `Division.Div64By32` | div64.c:27-58 | both loops end without overflow with the exact quotient and remainder, for every dividend and positive base |
| `Division.CorrectedIff` | div64.c:102-105 | the correction of an estimate at most one too low is exact iff the estimate is not too high |
| `Division.ExactForAllIff` | div64.c:99-105 | for any shift: exact for all dividends iff the divisor is safe |
| `Division.ShiftKeeps31Bits` | div64.c:99 | the shift leaves 31 bits of the divisor |
| `Division.ProgramQuotientValue` | div64.c:98-106 | the value returned for any dividend and two-word divisor, in terms of the only shift that leaves 31 bits: the quotient, or else the estimate from which the correction started |
| `Division.SmallHighWordExactIff` | div64.c:99-105 | for high words 1 to 3, the divisors without a wrongly divided dividend, by their lowest two or three bits |
| `Division.DivisorExactIff` | div64.c:91-109 | `div64_u64` is exact for all dividends iff the divisor meets an arithmetic condition on the bits shifted out |
| `Division.HighWordSafe` | div64.c:98-106 | every divisor with a high word of 4 or more meets it |
| `Division.SmallerShiftSafe` | div64.c:99 | with the shift `fls(high)` all divisors would |
| `Division.OvershootWitness` | div64.c:99-105 | dividend 2^64-1 and divisor 2^32+3 give 2^32-1 instead of 2^32-3 |
| `Division.Div64U64` | div64.c:91-109 | exact for a high word of 0 or of 4 and more, and for all divisors that meet the condition; the value in every other case |
| `Division.TruncatedQuotientUnique` | div64.c:61-76 | rounding toward zero is the only quotient with a small remainder of the dividend's sign |
| `Division.Div64S64` | div64.c:118-126 | the truncated quotient in two's complement, when the unsigned division is exact; the signed reading of its result in any case |
| `Division.DivS64Rem` | div64.c:61-76 | truncated quotient, and the remainder that belongs to it, for all operands |
| `Products.OrIsSum` | uki/math64.h:237-238 | the two parts of a split shift share no bit, so that `or` adds them |
| `Products.FullProduct` | uki/math64.h:214-229 | four partial products and two carries give the exact 128-bit product |
| `Products.MulU64U64Shr` | uki/math64.h:200-240 | the exact product shifted right, modulo 2^64, for every shift below 128 |
| `Products.MulU64U32Shr` | uki/math64.h:183-196 | the same for a 32-bit factor, for every shift for which C defines the source: up to 32, or below 64 with a zero high word |
| `Products.TwoStepDivision` | uki/math64.h:263-270 | the second quotient of the two-step division fits 32 bits, and both make up the whole |
| `Products.MulU64U32Div` | uki/math64.h:246-271 | the floor of product over divisor, modulo 2^64 |
| `Products.IterDivU64Rem` | uki/math64.h:145-162 | exact remainder, and the quotient modulo 2^32 |
| `TimeConversion.Constants` | uki/jiffies.h:294-317 | the constants for HZ = 100 are what the macros compute |
| `TimeConversion.ReciprocalExact` | jiffies.c:279-281 | multiplying by the rounded-up reciprocal and shifting divides exactly, for all operands that occur |
| `TimeConversion.JiffiesAreCeiling` | jiffies.c:270-283 | below saturation the result is the least number of ticks not before the time |
| `TimeConversion.Monotone` | jiffies.c:270-283 | a later time never gives fewer jiffies, into and through saturation |
| `TimeConversion.JiffiesToTimespec64` | jiffies.c:297-308 | a normalized time of exactly so many ticks, which converts back to them |
| `TimeConversion.SetNormalizedTimespec64` | jiffies.c:169-188 | a normalized fraction, and the same time iff its whole seconds fit 64 bits |
| `TimeConversion.NormalFormUnique` | jiffies.c:165-168 | there is only one such form |
| `TimeConversion.NsToTimespec64` | jiffies.c:196-212 | the time of the given nanoseconds, normalized, also for negative ones |
| `Calendar.UnwrappedFormula` | jiffies.c:92-102 | with the year starting in March, the closed formula is the count of days year by year and month by month |
| `Calendar.DaysShort` | jiffies.c:92-102 | for any year of 32 bits, the days computed fall short of the calendar by exactly the overflow of the year term |
| `Calendar.DaysExactIff` | jiffies.c:92-102 | the 32-bit day computation is right iff 365 times the shifted year does not wrap |
| `Calendar.MktimeShort` | jiffies.c:85-103 | so `mktime64` on every date, with overflow |
| `Calendar.MktimeExact` | jiffies.c:85-103 | `mktime64` counts the seconds of the Gregorian calendar, for the years 1 to 11767033 |
| `Calendar.EpochIsZero` | jiffies.c:85-103 | 1970-01-01 00:00:00 is 0 |
| `Calendar.NextDayIsLater` | jiffies.c:85-103 | the next date is 86400 seconds later |
| `Calendar.LaterDateLaterTime` | jiffies.c:85-103 | `mktime64` is strictly increasing on dates |

## Left out

- Threads, spinlocks, `jiffies_worker`, `init_timers`, sleeping and clock reading: I/O of the operating system. `lock_timer_base` takes no lock, so no claim about mutual exclusion is made.
- A change of `jiffies` while `__run_timers` is under way.
- Order among timers on different levels: the program does not promise it.
- Initializing a timer again while it is pending, and storing to `expires` of a pending timer from outside: the callers' duty.
- The deferrable flag in the low bit of the base pointer, `container_of` and the exact poison values.
- The callback pointer, its argument and the preemption check around it; a callback is the calls that it makes.
- `list_del`, `list_move` and the other iterators: like members that are modelled. `hlist_*` is not part of this model.
- ListMoveTail: for two lists it demands that they share no node, which membership in one ring at a time gives.
- MulU64U32Shr: shifts above 32 with a nonzero high word, where the program shifts by a negative amount, and shifts of 64 and more; C leaves both undefined.
- TimeConversion.SetNormalizedTimespec64: the overflow of the 64-bit seconds is modelled as wrapping, where C leaves it undefined.
- Division.Div64S64: the negation of the least 64-bit number is modelled as wrapping, where C leaves it undefined; `Division.DivS64Rem` likewise.
- Division.Divl: the instruction is given by its precondition and result; inline assembly is not part of this model.
- Fls: the tests of bit masks are written as comparisons with the lowest bit of the mask.
- The branches for 64-bit machines that use `/` and `%`, or a 128-bit type, directly.
- Conversions of milliseconds and microseconds, `round_jiffies`, rotations, sign extension and `ilog2`: only easy members.
- Compare-and-exchange macros and functions that are only declared.
