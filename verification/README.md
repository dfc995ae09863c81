# Verification of SCML2 core algorithms

SCML2 is a modelling library on top of SystemC and TLM-2.0. This project models the
algorithms in `src/scml2` that carry state across calls and proves what they promise, over
all inputs and all runs. `dafny verify dfyconfig.toml` checks everything (Dafny 4.11).

Each area has a simple description, on values, and beside it the routine as the source has
it: loops, pointers and fields changed in place, proved against the description.

| area | simple description | the routine |
|---|---|---|
| bursts | `GenericPayload` (the byte loop of sections 14.13 to 14.15 of IEEE Std 1666-2011) | `MemoryFastAccess`, `BurstUnroller` |
| observers of callbacks | `ObserverRuns` (a set, and the set that was there when the outermost notification began) | `CallbackObservers` |
| bitfields | `BitfieldTrees` (each bit has one owner), `Words` | `BitfieldDispatch`, `BitfieldFilter` |
| memory DMI map | the set of allowed indices | `MemoryDmi` |
| timer | `TimerHistory` (ticks since the last start) | `ClockedTimer` |
| payload event queue | `PeqItems`, `PeqRuns`, `TriggerProtocol` | `PeqContainer` (linked lists over one free list), `ClockedPeq` |
| observers of memory contents | `PageMaps` | `ContentObservers` |
| DMI cache | `DmiCache`, with the target's own byte loop | `DmiHandler` |
| aliases | the deepest alias in a tree of objects | `AliasTrees` |
| indexed-value registry | `IndexedValueEntries` (entries as sets of pairs) | `IndexedValueRegistry` |

## Where the source and its promises part

Each of these follows the code and is stated as a lemma with the exact condition, beside one with an
input for which the promise fails.

- Burst unroller (`burst_unroller.cc:95-97`): when the original byte enables are passed on,
  a word access can enable bytes behind its chunk. The unrolled accesses are the byte loop
  if and only if none does (`UnrollingIsByteLoop`, `StrayExample`). The branch that copies the data
  (lines 81 to 90) is never taken.
- Observer registries (`callback_observers.cc:92-101`): an observer registered during a
  notification is first called after the outermost one if and only if it is not being visited
  already (`FirstCalledAfterOutermost`, `CalledAtOnceWhenVisited`, `ReRegisteredIsCalledEarly`).
- Timer (`clocked_timer.cc:95-109`): started between an expiry and its callback in the same tick, the
  timer still delivers that callback, so a timer started for N shots calls back N + 1 times. The
  callbacks are those of the last start if and only if that did not happen
  (`CallbacksAreOnSchedule`, `OneShotCallsTwice`).
- Timer (`clocked_timer.h:115-121`): `get_state` gives the state at the beginning of the time
  stamp if and only if `resume_stopped` was not the first call in it, because that call does not
  refresh the cached state (`GetState`, `ResumedFirstExample`).
- Event queue (`clocked_peq.h:254-257`): unblocking at a tick in the past is documented to
  act at the next tick. When the first item waits since before now the unsigned subtraction wraps
  around, and the clock, which takes the result as a signed number (`tick_callback_engine.cc:397-402`),
  ends the program (`LateUnblockAborts`, `UnblockingInThePastExample`).
- Event queue (`clocked_peq.h:197`): `remove` leaves the pending request alone, which finds nothing if
  and only if the first item was removed and the next one arrives at or after the requested tick
  (`CallIsUsefulWhenHarmless`, `RemoveLeavesTheRequest`).
- Page maps (`memory_content_observers.cc:206-223`): unregistering rebuilds a map from all
  observers, whatever their type, so the map stays exact if and only if those who are left need all the
  pages they cover (`ExactThroughout`, `RebuildingMarksAWriter`); it is always sound for one type.
- Page maps (`memory_content_observers.cc:86-110`): an access of both types looks at the read map
  only, and so passes over exactly those who observe writes only (`BothTypesMissOnlyWriters`,
  `BothTypesCanMissAWriter`). The calls in `memory_slow_access_content_observer_decorator.h:126-257` are
  all reads or writes.
- DMI handler (`dmi_handler.h:141-145`): the end of an access is computed modulo 2^64, so an
  access over the end of the address space is served through a range that does not contain it
  (`EndCheckIsExact`, `OverTheEnd`).
- Aliases (`memory_base.cc:149-187`): a level of aliases stays in order if and only if the new alias overlaps
  none and has a size; without one it is accepted and hides another from look-up (`InsertedIsDisjoint`,
  `EmptyAliasHidesAnother`).
- Aliases (`find_alias.h:103-119`): the search for refined behaviour looks at the first of several
  aliases only when the access begins before it; it finds what can be reached that way and nothing else
  (`FindsWhatIsVisible`, `OverlookedExample`).
- Registry (`indexed_value_if_registry.cc:204-207`): composing two entries is exact if and only
  if the second begins at or before the first, or has offset 0 and does not run over its end
  (`ComposesExactlyWhenAnchored`, `UnanchoredExample`).

## Model

| member | source | states |
|---|---|---|
| GenericPayload.BurstRepeats | src/scml2/memory_fast_access.h:267-291 | addresses repeat with the streaming width, enables with the length of their array |
| GenericPayload.EffectOfRead | src/scml2/memory_fast_access.h:267-278 | a burst read byte by byte fills each enabled data position with the byte at address + k % streaming width and changes nothing else |
| GenericPayload.EffectOfWrite | src/scml2/memory_fast_access.h:280-291 | a burst written byte by byte leaves in each memory byte the data byte of the last enabled index that meets it, and the data alone |
| GenericPayload.EffectIsTransfers | src/scml2/memory_fast_access.h:267-291 | carrying out a burst is the same as applying its byte transfers one after the other |
| GenericPayload.IgnoreDoesNothing | src/scml2/memory_fast_access.h:245-294 | an ignore command changes neither memory nor data |
| MemoryFastAccess.Memory.CopyByte | src/scml2/memory_fast_access.h:270-290 | one byte moves in the direction of the command |
| MemoryFastAccess.Memory.MoveByte | src/scml2/memory_fast_access.h:267-291 | one round of the loop carries the burst on by one data index |
| MemoryFastAccess.Memory.Transport | src/scml2/memory_fast_access.h:245-294 | both branches, the contiguous copy and the byte loop, carry out the burst and answer OK |
| MemoryFastAccess.Memory.CopyData | src/scml2/utils.h:73-92 | the contiguous copy with repeating byte enables has the effect of the byte loop when the streaming width covers the data |
| BurstUnroller.ChunkLength | src/scml2/burst_unroller.cc:70-79 | the bytes of a burst that one word access carries: at least one, inside the word, the streaming beat and the data |
| BurstUnroller.WordTransfers | src/scml2/burst_unroller.cc:81-115 | a word access moves exactly its chunk of the burst, in order, and then its tail |
| BurstUnroller.TailIsStray | src/scml2/burst_unroller.cc:95-97 | that tail is empty exactly when the shortcut that passes the original enables on leaves no enable set behind the chunk |
| BurstUnroller.NextChunk | src/scml2/burst_unroller.cc:133-142 | the next word access starts where the chunk ends, at the address and with the bytes left that the loop computes |
| BurstUnroller.NoChunkInside | src/scml2/burst_unroller.cc:133-142 | no word access starts in the middle of another one's chunk |
| BurstUnroller.StartsAtWord | src/scml2/burst_unroller.cc:59-74 | word accesses start at the beginning of a streaming beat and where the burst comes to the next word, and nowhere else |
| BurstUnroller.WordIsAligned | src/scml2/burst_unroller.cc:59-78 | each is an access of one whole aligned word, the one around the address that its first data index meets |
| BurstUnroller.ChunkIsRestOfWord | src/scml2/burst_unroller.cc:70-78 | its chunk has exactly the data indices from there on that come in the same beat and meet the same word |
| BurstUnroller.FaithfulFrom | src/scml2/burst_unroller.cc:64-143 | without stray bytes the remaining word accesses move exactly the remaining bytes of the burst |
| BurstUnroller.StrayFrom | src/scml2/burst_unroller.cc:64-143 | no byte is ever dropped, and a stray byte makes the word accesses move more bytes than the burst has |
| BurstUnroller.UnrollingIsByteLoop | src/scml2/burst_unroller.cc:50-143 | the word accesses move exactly the bytes of the byte loop, in the same order, if and only if no word access enables a byte behind its chunk |
| BurstUnroller.OrdinaryBurstsAreFaithful | src/scml2/burst_unroller.cc:95-97 | without byte enables, or with enables no longer than the data and a streaming width of at least a word, that is always so |
| BurstUnroller.StrayExample | src/scml2/burst_unroller.cc:95-97 | four enables over a streaming width of two: the first word access also moves a byte at an address that the burst never meets |
| BurstUnroller.FaithfulBurstsStayInside | src/scml2/burst_unroller.cc:82-92 | the word accesses of such a burst touch no byte outside its data block |
| BurstUnroller.SentIsBurst | src/scml2/burst_unroller.cc:50-143 | then the word accesses up to a data index have exactly the effect of the burst up to there |
| BurstUnroller.Unroller.BuildEnables | src/scml2/burst_unroller.cc:102-114 | the enables of one word: clear before and behind the chunk, the repeating enables of the burst inside it, all set when it has none |
| BurstUnroller.Unroller.SetUpWord | src/scml2/burst_unroller.cc:65-118 | the payload is rewritten into exactly the word access of this data index |
| BurstUnroller.Unroller.ProcessWord | src/scml2/burst_unroller.cc:65-120 | the target carries the word access out, or refuses it and touches nothing |
| BurstUnroller.Unroller.ChunkAt | src/scml2/burst_unroller.cc:70-78 | offset and length of the chunk at the current index |
| BurstUnroller.Unroller.NextPosition | src/scml2/burst_unroller.cc:133-142 | index, address and bytes left of the next word access |
| BurstUnroller.Unroller.IssueWord | src/scml2/burst_unroller.cc:64-120 | the word access of this data index is given to the target, and added to what has been sent when it was accepted |
| BurstUnroller.Unroller.UnrollWord | src/scml2/burst_unroller.cc:64-143 | one round of the loop adds exactly one word access to what has been sent, and moves on only when it was accepted |
| BurstUnroller.Unroller.UnrollWords | src/scml2/burst_unroller.cc:59-143 | the loop ends; it has sent the word accesses up to the end of the data or to the first one refused |
| BurstUnroller.Unroller.UnrollTransaction | src/scml2/burst_unroller.cc:37-155 | for every burst whose accesses stay in the data block: address, pointers, lengths and streaming width are restored; the target was only asked for whole aligned words; and memory and data are as left by the word accesses up to the end or the first refusal; without stray bytes, as left by the byte loop of the burst up to there; the response is an error exactly when the last access was refused |
| ObserverRuns.RunIsLawful | src/scml2/callback_observers.cc:74-191 | every event of every run, however deeply handlers notify, register and unregister, keeps its promise: a turn is a call exactly when the observer is registered and interested at that moment, results of register and unregister are right, and a notification is ignored exactly when nobody is registered |
| ObserverRuns.RunAllIsLawful | src/scml2/callback_observers.cc:74-191 | the same for whole programs and handlers |
| ObserverRuns.NoCallAfterUnregister | src/scml2/callback_observers.cc:92-101 | between unregistering an observer and a later call of it lies a new registration |
| ObserverRuns.SnapshotIsStable | src/scml2/callback_observers.cc:48-72 | as long as notifications are under way the visited set does not change |
| ObserverRuns.FirstCalledAfterOutermost | src/scml2/callback_observers.cc:48-72 | an observer registered during a notification that does not visit it already is first called after the outermost one has ended |
| ObserverRuns.CalledAtOnceWhenVisited | src/scml2/callback_observers.cc:48-101 | that condition is exact: registered during a notification and followed by another, an observer is called by that one if and only if it is visited already |
| ObserverRuns.CallableWhenVisited | src/scml2/callback_observers.cc:92-101 | and whatever happened before, an observer registered while it is visited can be called next |
| ObserverRuns.ReRegisteredIsCalledEarly | src/scml2/callback_observers.cc:93-100 | a run in which that happens: a visited observer that is unregistered and registered again is called again before the outermost notification ends |
| ObserverRuns.EveryoneGetsATurn | src/scml2/callback_observers.cc:92-101 | every visited observer gets a turn, and is called at it exactly when it is then still registered and interested |
| ObserverRuns.CalledHasTypeAndMode | src/scml2/callback_observers.cc:94-97 | in every run, who is called about a beginning or a change has an access type and a mode in common with it |
| ObserverRuns.TypeAndModeAreCalled | src/scml2/callback_observers.cc:94-97 | and who has both, and is registered when its turn comes, is called |
| ObserverRuns.EndIsToldToAll | src/scml2/callback_observers.cc:115-121 | the end of an access is told to everybody who is registered when the turn comes |
| ObserverRuns.NotifyReachesAll | src/scml2/callback_observers.cc:91-101 | a notification from outside any other gives everybody who is registered a turn |
| ObserverRuns.OtherTypeIsNotCalled | src/scml2/callback_observers.cc:94-97 | a run in which an observer of one access type gets no call about the other |
| CallbackObservers.CallbackObservers.GetMutableObservers | src/scml2/callback_observers.cc:48-61 | copies the set before it changes while it is being visited, and changes nothing anybody sees |
| CallbackObservers.CallbackObservers.UpdateObservers | src/scml2/callback_observers.cc:63-72 | the pending set takes over exactly when the outermost notification ends |
| CallbackObservers.CallbackObservers.RegisterObserver | src/scml2/callback_observers.cc:154-165 | acts as registration on the simple view; true exactly for a new observer |
| CallbackObservers.CallbackObservers.UnregisterAllObservers | src/scml2/callback_observers.cc:167-175 | acts as clearing the simple view |
| CallbackObservers.CallbackObservers.UnregisterObserver | src/scml2/callback_observers.cc:177-191 | acts as removal on the simple view; true exactly for a registered observer; the enabled flag stays equivalent to a non-empty set |
| CallbackObservers.CallbackObservers.TakeTurn | src/scml2/callback_observers.cc:94-100 | the turn of one observer acts as on the simple view, with all that its handler does |
| CallbackObservers.CallbackObservers.VisitAll | src/scml2/callback_observers.cc:91-101 | visits the set as it was, whatever the handlers do |
| CallbackObservers.CallbackObservers.TakeId | src/scml2/callback_observers.cc:83-88 | ids are given out in turn; the reserved one is left out |
| CallbackObservers.CallbackObservers.NotifyBegin | src/scml2/callback_observers.cc:74-105 | acts as a notification on the simple view; ids are given out in turn, and the reserved one exactly when nobody is registered |
| CallbackObservers.CallbackObservers.NotifyEnd | src/scml2/callback_observers.cc:107-127 | acts as a notification on the simple view |
| CallbackObservers.CallbackObservers.NotifyCallbackChanged | src/scml2/callback_observers.cc:129-152 | acts as a notification on the simple view |
| CallbackObservers.CallbackObservers.PerformAll | src/scml2/callback_observers.cc:74-191 | any program of nested operations ends in the view and with the log that the simple run gives; the visited set stays untouched |
| BitfieldTrees.OwnerIsInTree | src/scml2/bitfield_container.cc:149-198 | the owner of a bit is a bitfield of the tree |
| BitfieldTrees.OwnerIsInnermost | src/scml2/bitfield_container.cc:149-198 | every bitfield around the bit that has a callback of its own is the owner or lies around the owner |
| BitfieldTrees.ReadOwner | src/scml2/bitfield_container.cc:230-265 | on a read the owner of a bit is the innermost bitfield with a read callback that has the bit, and there is one if there is any such bitfield |
| BitfieldTrees.WriteOwner | src/scml2/bitfield_container.cc:159-198 | on a write the innermost with a write callback |
| BitfieldTrees.OverlapIsSharing | src/scml2/bitfield_container.cc:27-45 | two bitfields overlap exactly when they share a bit |
| BitfieldTrees.BitfieldContainer.RegisterBitfield | src/scml2/bitfield_container.cc:27-45 | the bitfield is added in any case; exactly the overlapping siblings are reported, and none is exactly when the tree stays valid |
| BitfieldTrees.InsideIsContainment | src/scml2/bitfield.cc:106-120 | a bitfield lies inside another exactly when it has none but bits of the other |
| BitfieldTrees.RegisterChild | src/scml2/bitfield.cc:106-120 | a child is reported exactly when it reaches beyond its parent or overlaps a sibling, that is when the tree is no longer valid |
| BitfieldDispatch.BitfieldAccessed | src/scml2/bitfield_container.cc:149-157 | true exactly when the bitfield has an enabled bit |
| BitfieldDispatch.ExecuteWriteBehavior | src/scml2/bitfield_container.cc:159-198 | on success each enabled bit with an owner is in exactly one call, to its owner, no other bit is in any, and the mask of bits written gains exactly the owned enabled bits within the mask; a walk cut short by a failing callback called nobody twice |
| BitfieldDispatch.ExecuteFieldWrite | src/scml2/bitfield_container.cc:168-192 | the same for one bitfield: children first, then its own callback for what they left |
| BitfieldDispatch.ExecuteReadBehavior | src/scml2/bitfield_container.cc:230-265 | on success each enabled bit with an owner holds the bit that the owner supplied in its one call, whatever the order of siblings and even when a callback returns bits beyond its own size; bits read before stay as they were |
| BitfieldDispatch.ExecuteFieldRead | src/scml2/bitfield_container.cc:239-261 | the same for one bitfield |
| BitfieldDispatch.DefaultOwnsNothing | src/scml2/bitfield_container.cc:47-79 | a tree that reports default behaviour has no owner for any bit |
| BitfieldDispatch.GetWithTriggeringCallbacks | src/scml2/reg.h:862-884 | a register read: each enabled bit comes from its owner's one callback or else from the register, each disabled bit stays |
| BitfieldDispatch.PutWithTriggeringCallbacks | src/scml2/reg.h:821-851 | a register write: each enabled bit goes to its owner's one callback, with the written data, or is stored when it has no owner; unowned disabled bits keep their value; callbacks get the old value of disabled bits, and the write succeeds exactly when all of them accept |
| BitfieldFilter.Filter | src/scml2/bitfield_container.cc:354-365 | each bit passes through the restrictions of the bitfields around it, outermost first, and, when the walk did not fail, through all of them or up to a bitfield that is left without an enabled bit; a restriction is asked exactly when its bitfield has an enabled bit then, every pass applies what it replied, and the walk stops exactly at the first restriction that reports an error |
| BitfieldFilter.FilterField | src/scml2/bitfield.cc:622-650 | the same for one bitfield: its own restriction, then those of its children, and nothing when it has no enabled bit |
| BitfieldFilter.RestrictOwn | src/scml2/bitfield.cc:631-639 | applies the reply of the restriction and reports its error; data changes only in the bits that it disabled, and nothing outside its bitfield |
| BitfieldFilter.MergedBit | src/scml2/bitfield.cc:636-639 | bit by bit: the supplied data where the enable was cleared, the old data elsewhere |
| BitfieldFilter.PathIsNested | src/scml2/bitfield.cc:622-650 | the restricted bitfields around a bit lie inside one another |
| BitfieldFilter.PathIsExact | src/scml2/bitfield.cc:622-650 | on a read the restrictions around a bit are those of all bitfields with a read restriction that have the bit; on a write those with a write restriction |
| BitfieldFilter.FilterChangesOnlyWhatItDisables | src/scml2/bitfield.cc:622-650 | with restrictions that only narrow, a changed data bit was enabled before and is disabled after, and its value comes from the outermost bitfield that disabled it |
| BitfieldFilter.OutsideIsUntouched | src/scml2/bitfield.cc:622-650 | bits outside all restricted bitfields keep data and enable |
| BitfieldFilter.ChangedBit | src/scml2/bitfield.cc:636-639 | along the path of one bit exactly one restriction changes it, the one that disables it |
| Words.BitMask | src/scml2/utils.h:212-225 | a mask of the lowest bits, all of them when the size reaches the width |
| Words.ExtractBits | src/scml2/utils.h:227-237 | bit i of the result is bit offset + i, inside the size |
| Words.InsertBits | src/scml2/utils.h:239-254 | replaces exactly the bits of the range |
| MemoryDmi.SameMapSameList | src/scml2/memory_dmi.cc:102-173 | two gap-free alternating lists with the same allowed indices are the same list |
| MemoryDmi.MemoryDmi.ClearEntries | src/scml2/memory_dmi.cc:58-87 | the re-used list has the two entries of a cleared map |
| MemoryDmi.MemoryDmi.Clear | src/scml2/memory_dmi.cc:58-87 | brings back the cleared map |
| MemoryDmi.ClearedIsCanonical | src/scml2/memory_dmi.cc:58-87 | in 64-bit arithmetic the two entries are a partition if and only if the memory is not empty |
| MemoryDmi.MemoryDmi.DisableAll | src/scml2/memory_dmi.cc:89-100 | leaves one denied entry |
| MemoryDmi.MemoryDmi.Disable | src/scml2/memory_dmi.cc:102-176 | takes exactly the indices from start to end out of the allowed set and keeps the list a gap-free, strictly alternating partition of all 64-bit indices |
| MemoryDmi.MemoryDmi.CutLeft | src/scml2/memory_dmi.cc:120-142 | cuts off or merges to the left; everything left of the new entry is as it was |
| MemoryDmi.MemoryDmi.EraseBetween | src/scml2/memory_dmi.cc:144-147 | erases exactly the entries that end before the range does |
| MemoryDmi.MemoryDmi.CutRight | src/scml2/memory_dmi.cc:149-168 | cuts off or merges to the right; everything right of the new entry is as it was |
| MemoryDmi.MemoryDmi.Find | src/scml2/memory_dmi.cc:178-193 | returns the only entry that covers the index |
| MemoryDmi.HistoryMap | src/scml2/memory_dmi.cc:58-176 | after any sequence of disables an index is allowed exactly when it lies in the memory and in none of the ranges |
| MemoryDmi.UnionDetermines | src/scml2/memory_dmi.cc:58-176 | the list depends only on the union of the ranges disabled since the map was cleared |
| MemoryDmi.DisablesCommute | src/scml2/memory_dmi.cc:102-176 | two disables commute, and repeating one changes nothing |
| TimerHistory.RunsKeepSchedule | src/scml2/clocked_timer.cc:95-190 | after start with period P and N shots the timer expires after exactly k * P running ticks, k = 1, 2, ..., at most N times, each with its callback, over every run of ticks, stops and resumes; only a callback of an earlier start can come besides |
| TimerHistory.CallbacksAreOnSchedule | src/scml2/clocked_timer.cc:95-190 | in every run the callbacks since the last start, all of them, are the k-th after k * P running ticks and at most N, if and only if none of an earlier start has come since that was still to come at the start |
| TimerHistory.EarlyStart | src/scml2/clocked_timer.cc:95-111 | started before the callback of the same tick the timer calls back at once, started after it it does not |
| TimerHistory.OneShotCallsTwice | src/scml2/clocked_timer.cc:95-111 | started for one shot before the callback of the same tick, it calls back twice |
| TimerHistory.IdleExactlyWhenRunOut | src/scml2/clocked_timer.cc:95-190 | in every run the timer is idle exactly when it was started with period or shots 0 or has expired as often as it was started for; so one started without an end never is |
| TimerHistory.ExpiresEveryPeriod | src/scml2/clocked_timer.cc:71-190 | left alone, a timer started for N shots has expired min(k, N) times after k periods, and one without an end k times, each with its callback |
| TimerHistory.AloneIsARun | src/scml2/clocked_timer.cc:71-190 | leaving the timer alone is a run of ticks with their callbacks |
| TimerHistory.CounterCounts | src/scml2/clocked_timer.cc:121-152 | the counter counts the ticks of the period; stopped it stays, whatever time passes, and the timer resumes as it was |
| TimerHistory.TicksCount | src/scml2/clocked_timer.cc:146-178 | ticks that do not complete the period only count; a stopped timer does not count |
| TimerHistory.TicksToExpiry | src/scml2/clocked_timer.cc:80-89 | the tick that completes the period expires the timer |
| TimerHistory.HeaderExample | src/scml2/clocked_timer.h:82-92 | started at 100 with period 10 and three shots, stopped at 115, resumed at 200: callbacks at 110, 205 and 215, and idle after that |
| ClockedTimer.ClockedTimer.UpdateCache | src/scml2/clocked_timer.cc:71-92 | the expiry of a tick is noticed exactly once per time stamp, by a call before, inside or after the callback |
| ClockedTimer.ClockedTimer.StartTimer | src/scml2/clocked_timer.cc:95-111 | acts as a start on the history; a callback still to come in this tick is not lost |
| ClockedTimer.ClockedTimer.StopTimer | src/scml2/clocked_timer.cc:121-133 | acts as a stop on the history: the counter is frozen |
| ClockedTimer.ClockedTimer.ResumeStopped | src/scml2/clocked_timer.cc:135-144 | acts as a resume on the history: the counter continues unchanged; true exactly when stopped |
| ClockedTimer.ClockedTimer.GetCounterValue | src/scml2/clocked_timer.cc:146-152 | the counter of the history |
| ClockedTimer.ClockedTimer.GetCounterValueAhead | src/scml2/clocked_timer.cc:154-178 | when it answers, the value is what the counter will be after that many ticks with no other calls; it refuses only when a callback is pending or the timer would expire |
| ClockedTimer.ClockedTimer.HandleClockTick | src/scml2/clocked_timer.cc:180-190 | the callback runs with all that it calls, and the next expiry is scheduled |
| ClockedTimer.ClockedTimer.AdvanceTick | src/scml2/clocked_timer.cc:71-92 | after a tick the trigger is due exactly when the timer has expired |
| ClockedTimer.ClockedTimer.Perform | src/scml2/clocked_timer.cc:95-152 | any sequence of calls in one time stamp acts as on the history |
| ClockedTimer.ClockedTimer.CallbacksOnSchedule | src/scml2/clocked_timer.cc:95-190 | whatever was called, the callbacks since the last start came on schedule, but for one of an earlier start, and the timer is idle only when it has run out |
| ClockedTimer.ClockedTimer.ResumedFirstExample | src/scml2/clocked_timer.cc:135-144 | stopped in one time stamp and resumed by the first call of the next, a timer has a state other than the time stamp began with |
| ClockedTimer.ClockedTimer.GetState | src/scml2/clocked_timer.h:115-135 | the state is that of the beginning of the time stamp, as documented, if and only if the timer was not resumed before every other call of the time stamp |
| PeqItems.InsertIsSorted | src/scml2/clocked_peq_container_impl.cc:46-59 | an arrival put after all earlier and equal ticks keeps the queue sorted |
| PeqItems.PositionIsUnique | src/scml2/clocked_peq_container_impl.cc:49-55 | there is only one such place |
| PeqItems.MatchIsUnique | src/scml2/clocked_peq_container_impl.cc:89-100 | the first visible item with the payload is the one the search stops at |
| PeqItems.NoMatch | src/scml2/clocked_peq_container_impl.cc:89-101 | and none is found exactly when none is visible |
| PeqItems.WithoutIsSorted | src/scml2/clocked_peq_container_impl.cc:93-96 | taking one out keeps the queue sorted |
| PeqContainer.FreeList.NewEntry | src/scml2/clocked_peq_container_impl.cc:16-28 | takes the first free entry, or a new one when there is none |
| PeqContainer.FreeList.DeleteEntry | src/scml2/clocked_peq_container_impl.cc:30-33 | puts an entry at the front of the free list |
| PeqContainer.LinkedIn | src/scml2/clocked_peq_container_impl.cc:46-59 | linking an entry in at a position inserts its item there |
| PeqContainer.LinkedOut | src/scml2/clocked_peq_container_impl.cc:80-96 | linking one out removes its item |
| PeqContainer.Container.FindPosition | src/scml2/clocked_peq_container_impl.cc:46-55 | finds the place behind all equal ticks |
| PeqContainer.Container.NotifyAt | src/scml2/clocked_peq_container_impl.cc:46-59 | the list holds the sequence with the item inserted; true exactly when it came first; the entry came from the free list or is new |
| PeqContainer.Container.GetNext | src/scml2/clocked_peq_container_impl.cc:73-83 | takes out the first item when it is visible, else nothing; its entry is free afterwards |
| PeqContainer.Container.FindMatch | src/scml2/clocked_peq_container_impl.cc:85-101 | finds the first visible item with the payload |
| PeqContainer.Container.Remove | src/scml2/clocked_peq_container_impl.cc:85-102 | takes out the first visible item with the payload, else nothing |
| PeqContainer.Container.LinkOut | src/scml2/clocked_peq_container_impl.cc:104-107 | taking an entry out through the pointer that leads to it removes exactly its item and frees the entry |
| PeqContainer.Queues.NotifyAt | src/scml2/clocked_peq_container_impl.cc:46-59 | with any number of queues over one free list: only this queue changes, no entry is lost and none is in two lists |
| PeqContainer.Queues.GetNext | src/scml2/clocked_peq_container_impl.cc:73-83 | likewise |
| PeqContainer.Queues.Remove | src/scml2/clocked_peq_container_impl.cc:85-102 | likewise |
| PeqContainer.Queues.AddContainer | src/scml2/clocked_peq_container_impl.cc:13-14 | one more queue over the same free list |
| PeqContainer.Container.IsEmpty | src/scml2/clocked_peq_container_impl.h:133-135 | exactly when nothing is visible |
| PeqContainer.Container.HasMoreEvents | src/scml2/clocked_peq_container_impl.h:166-168 | exactly when anything is queued |
| PeqContainer.Container.NextEventArrivalTick | src/scml2/clocked_peq_container_impl.h:170-172 | the tick of the first item |
| PeqContainer.Container.Iterate | src/scml2/clocked_peq_container_impl.h:144-164 | from begin to end the iterator shows exactly the visible items in order |
| PeqRuns.StepsAreOperations | src/scml2/clocked_peq_container_impl.cc:46-102 | the steps of a run do to the queue what the operations of the container do |
| PeqRuns.RunKeeps | src/scml2/clocked_peq_container_impl.cc:46-102 | over every run with a non-decreasing clock and timely pushes the tickets, delivered and waiting, are in one line: by tick, then by push |
| PeqRuns.PushKeepsOrderWhenTimely | src/scml2/clocked_peq_container_impl.cc:46-59 | a push keeps that line in order if and only if nothing was delivered that arrived later |
| PeqRuns.RunKeepsOrderWhenTimely | src/scml2/clocked_peq_container_impl.cc:46-102 | so a run keeps it in order throughout if and only if all its pushes are such |
| PeqRuns.PunctualIsTimely | src/scml2/clocked_peq_container_impl.cc:46-83 | pushes for ticks that have not passed are |
| PeqRuns.DeliveriesAreInOrder | src/scml2/clocked_peq_container_impl.cc:46-83 | so the deliveries are sorted by tick, first in first out among equal ticks, and each comes after its tick |
| PeqRuns.FirstInFirstOut | src/scml2/clocked_peq_container_impl.cc:46-83 | two payloads pushed for the current tick are delivered in that order at the next |
| PeqRuns.LatePushBreaksTheOrder | src/scml2/clocked_peq_container_impl.cc:46-83 | a push for a tick that has passed can break that order |
| PeqRuns.NothingIsLost | src/scml2/clocked_peq_container_impl.cc:46-102 | in every run, punctual or not, each push is delivered once, removed once, or still waiting |
| TriggerProtocol.ScheduleAborts | src/scml2/clocked_peq.h:274-285 | the unsigned subtraction wraps around exactly when the first arrival and the unblock tick are both in the past; the clock, which takes the result as a signed number, ends the program exactly then and when one of them is 2^63 ticks ahead |
| TriggerProtocol.ScheduleIsExact | src/scml2/clocked_peq.h:274-285 | otherwise the request is for one tick after the later of first arrival and unblock tick, unless an earlier one is pending |
| TriggerProtocol.LateUnblockAborts | src/scml2/clocked_peq.h:254-267 | unblocking at a passed tick, which is documented to take effect at the next tick, ends the program if and only if the first item arrived before now or arrives 2^63 ticks from now |
| TriggerProtocol.LateUnblockWakes | src/scml2/clocked_peq.h:254-267 | otherwise the queue is awake afterwards |
| TriggerProtocol.UnblockingInThePastExample | src/scml2/clocked_peq.h:262-267 | with a request pending and a visible item, unblocking again at a passed tick is fatal |
| TriggerProtocol.LatePushAborts | src/scml2/clocked_peq.h:138-144 | a push for a passed tick ends the program if and only if it comes first in a queue that was unblocked before now |
| TriggerProtocol.CancellingAborts | src/scml2/clocked_peq.h:169-178 | block and get_next end the program exactly when they cancel a request for the tick that is being processed, or ask for a tick out of reach |
| TriggerProtocol.BlockCancels | src/scml2/clocked_peq.h:221-224 | a blocked queue has no request |
| TriggerProtocol.NoCallbackWhileBlocked | src/scml2/clocked_peq.h:138-298 | in every run, between a block and the next unblock there is no request and the clock has nothing to call back for |
| TriggerProtocol.UnblockRequests | src/scml2/clocked_peq.h:262-285 | unblocking asks for a callback right after the later of first arrival and unblock tick, unless an earlier one is requested |
| TriggerProtocol.PushRequests | src/scml2/clocked_peq.h:138-144 | a push asks for one if it comes first and the queue is not blocked |
| TriggerProtocol.TakeRequests | src/scml2/clocked_peq.h:169-178 | taking the last visible item moves a request on to the next arrival, or drops it |
| TriggerProtocol.RemoveOnlyRemoves | src/scml2/clocked_peq.h:197 | removing only removes |
| TriggerProtocol.HandlerRequests | src/scml2/clocked_peq.h:287-298 | after the handler the next callback is asked for |
| TriggerProtocol.NothingAfterTheEnd | src/scml2/clocked_peq.h:274-298 | after a fatal error nothing happens any more, also in the middle of a callback |
| TriggerProtocol.ExampleRun | src/scml2/clocked_peq.h:138-298 | an item that arrives at tick 0 is announced at tick 1, where it is taken: a run of the kind that the results above speak of |
| TriggerProtocol.CallKeeps | src/scml2/clocked_peq.h:138-178 | no push, take, removal, block or unblock loses a wake-up, and none makes the subtraction wrap around |
| TriggerProtocol.HandlerWakes | src/scml2/clocked_peq.h:287-298 | after the handler the queue is awake again and nothing has wrapped around, whatever its callback did |
| TriggerProtocol.AlwaysAwake | src/scml2/clocked_peq.h:138-298 | in every run whose calls name no passed tick the unsigned subtraction never wraps around, and an unblocked queue with items pending has a callback due or requested, no later than one tick after the latest of first arrival, unblock tick and now |
| TriggerProtocol.CarefulRunsGoOn | src/scml2/clocked_peq.h:138-298 | such a run does not end the program when the ticks named are less than 2^63 ahead and no request for the tick being processed is cancelled |
| TriggerProtocol.CalledBackInTime | src/scml2/clocked_peq.h:138-298 | so a queue left alone is called back by then |
| TriggerProtocol.CallIsUsefulWhenHarmless | src/scml2/clocked_peq.h:138-224 | a call leaves a request that will find an item if and only if it is not the removal of the first item with the next one at or after the requested tick |
| TriggerProtocol.RemoveIsUsefulWhenHarmless | src/scml2/clocked_peq.h:197 | the case of that removal |
| TriggerProtocol.NoCallbackForNothing | src/scml2/clocked_peq.h:138-298 | in every run without such removals a callback finds a visible item |
| TriggerProtocol.RemoveLeavesTheRequest | src/scml2/clocked_peq.h:197 | with such a removal it may find none |
| ClockedPeq.Queue.RequestClockTrigger | src/scml_clock/tick_callback_engine.cc:397-410 | a negative number of ticks ends the program; a request for the same or a later tick is ignored while one is pending, an earlier one replaces it |
| ClockedPeq.Queue.CancelClockTrigger | src/scml_clock/tick_callback_engine.cc:528-540 | the request is gone; cancelling one for the tick being processed ends the program |
| ClockedPeq.Queue.ScheduleNextClockTrigger | src/scml2/clocked_peq.h:274-285 | the object, over its container, does what the protocol does; the wrapped difference goes to the clock as a signed number |
| ClockedPeq.Queue.NotifyAt | src/scml2/clocked_peq.h:138-144 | likewise; true exactly when the item came first |
| ClockedPeq.Queue.GetNext | src/scml2/clocked_peq.h:169-178 | likewise; returns the first visible payload |
| ClockedPeq.Queue.Remove | src/scml2/clocked_peq.h:197 | likewise |
| ClockedPeq.Queue.Block | src/scml2/clocked_peq.h:221-224 | likewise; no request is left |
| ClockedPeq.Queue.UnblockAt | src/scml2/clocked_peq.h:262-267 | likewise |
| ClockedPeq.Queue.HandleClockTick | src/scml2/clocked_peq.h:287-298 | likewise, with any calls from inside the callback |
| PageMaps.CoversMeansObserves | src/scml2/memory_content_observers.cc:139-151 | the pages marked for an observer are those on which it observes an index |
| PageMaps.RegisterKeeps | src/scml2/memory_content_observers.cc:153-181 | registering keeps both page maps sound |
| PageMaps.UnregisterKeeps | src/scml2/memory_content_observers.cc:195-228 | unregistering keeps both page maps sound |
| PageMaps.RunKeeps | src/scml2/memory_content_observers.cc:71-228 | in every run, with registrations during notifications, each page on which a registered observer observes reads (writes) is marked in the read (write) map, and the enabled flag tells whether anybody is registered |
| PageMaps.CalledAtMostOnce | src/scml2/memory_content_observers.cc:114-130 | no notification calls an observer twice for the same index: between two such calls it ends |
| PageMaps.CallIsRecorded | src/scml2/memory_content_observers.cc:120-130 | a call is one that its notification had not made before |
| PageMaps.CalledForGoodReason | src/scml2/memory_content_observers.cc:116-130 | an observer is called only about an access of a type and in a mode that it observes, for an index of its own range, and while it is registered |
| PageMaps.InterestIsTypeAndMode | src/scml2/memory_content_observers.cc:121-123 | whoever observes the type and the mode of an access is interested in it, and nobody else is |
| PageMaps.EffectiveAfter | src/scml2/memory_content_observers.cc:153-228 | what an event does to who is registered |
| PageMaps.RegisteredStays | src/scml2/memory_content_observers.cc:153-228 | in every run an observer is registered, with its offset, from its registration until it or everybody is unregistered |
| PageMaps.UnregisteredStays | src/scml2/memory_content_observers.cc:183-228 | and from then on it is not until it is registered again |
| PageMaps.VisitedAreRegistered | src/scml2/memory_content_observers.cc:37-50 | outside all notifications those who are registered are those who are visited next |
| PageMaps.NestingAfter | src/scml2/memory_content_observers.cc:112-136 | notifications nest; while any is under way the visited table stays, and when the outermost ends it becomes what is registered |
| PageMaps.SkippedMeansUnobserved | src/scml2/memory_content_observers.cc:83-114 | the early return of a read or a write passes over no registered observer of that type |
| PageMaps.BothTypesMissOnlyWriters | src/scml2/memory_content_observers.cc:89-110 | that of an access of both types, which looks at the read map only, passes over nobody if and only if no index of it is observed for writes only |
| PageMaps.BothTypesCanMissAWriter | src/scml2/memory_content_observers.cc:89-110 | and such an observer can be there |
| PageMaps.ExactAfter | src/scml2/memory_content_observers.cc:153-228 | a step keeps the maps exact if and only if it is not the unregistration of an observer of the type that leaves pages covered only by observers of the other type; those are marked again |
| PageMaps.ExactAfterUnregister | src/scml2/memory_content_observers.cc:206-223 | the case of that unregistration |
| PageMaps.ExactThroughout | src/scml2/memory_content_observers.cc:71-228 | in every run the maps are exact throughout if and only if every unregistration leaves only pages that are needed |
| PageMaps.RebuildingMarksAWriter | src/scml2/memory_content_observers.cc:206-223 | with a reader on one page and a writer on the next, unregistering the reader marks the page of the writer as read |
| ContentObservers.ContentObservers.GetMutableObservers | src/scml2/memory_content_observers.cc:37-50 | copies the table before it changes during a notification |
| ContentObservers.ContentObservers.UpdatePageMap | src/scml2/memory_content_observers.cc:139-151 | marks exactly the pages of the observer |
| ContentObservers.ContentObservers.RegisterObserver | src/scml2/memory_content_observers.cc:153-181 | adds the event to a lawful log; true exactly for a new observer |
| ContentObservers.ContentObservers.UnregisterAllObservers | src/scml2/memory_content_observers.cc:183-193 | likewise; clears the page maps |
| ContentObservers.ContentObservers.RebuildMap | src/scml2/memory_content_observers.cc:208-222 | exactly the pages of all observers that are left |
| ContentObservers.ContentObservers.RebuildMaps | src/scml2/memory_content_observers.cc:206-223 | rebuilds the maps of the type of the observer |
| ContentObservers.ContentObservers.Drop | src/scml2/memory_content_observers.cc:196-227 | takes the observer out and rebuilds its maps |
| ContentObservers.ContentObservers.UnregisterObserver | src/scml2/memory_content_observers.cc:195-229 | likewise; true exactly for a registered observer |
| ContentObservers.ContentObservers.HasMarkedPage | src/scml2/memory_content_observers.cc:93-98 | true exactly when a page of the access is marked |
| ContentObservers.ContentObservers.HasObservers | src/scml2/memory_content_observers.cc:86-110 | the test of the early return |
| ContentObservers.ContentObservers.VisitIndex | src/scml2/memory_content_observers.cc:120-132 | one call of a handler, for an index inside the access and the observer's range that it was not called for yet, and whether its observer is registered still |
| ContentObservers.ContentObservers.Visit | src/scml2/memory_content_observers.cc:116-134 | each index of the observer in the access is served: its handler was called, or the observer was unregistered meanwhile; this notification calls nobody else meanwhile |
| ContentObservers.ContentObservers.NotifyObservers | src/scml2/memory_content_observers.cc:71-137 | returns early exactly when no page is marked; else every visited, interested observer is served for each of its indices in the access, with handlers nested to any depth; it calls only registered, interested observers, for indices inside the access and at most once each, and the visited table stays as it is |
| ContentObservers.ContentObservers.EndNotification | src/scml2/memory_content_observers.cc:132-136 | the pending table takes over when the outermost notification ends |
| DmiCache.ClearedIsSound | src/scml2/dmi_handler.cc:47-71 | an invalidated cache, which every run begins with, meets what runs keep |
| DmiCache.LookKeeps | src/scml2/dmi_handler.cc:124-203 | a look-up keeps every cached range an answer of the target |
| DmiCache.RunKeeps | src/scml2/dmi_handler.cc:47-209 | over every run of look-ups, invalidations, switches and changes of the target, each cached range but the sentinel was answered by the target since the last invalidation; with DMI off only the deny-all entry is there |
| DmiCache.FoundIsGranted | src/scml2/dmi_handler.cc:124-203 | a found range that allows the access contains the address and is one the target stands by now; with DMI off nothing is allowed |
| DmiCache.LookingAgain | src/scml2/dmi_handler.cc:121-177 | looking again finds the same range in front and asks nobody |
| DmiCache.SwitchesWork | src/scml2/dmi_handler.cc:47-121 | the switches do what they say and invalidate exactly on a change, and an invalidation changes nothing but the lists |
| DmiCache.UnknownIsAsked | src/scml2/dmi_handler.cc:124-203 | an address that no cached range has is asked of the target, whose answer is kept |
| DmiCache.ClearedKnowsNothing | src/scml2/dmi_handler.cc:47-71 | after an invalidation that is every address, as long as DMI is on |
| DmiCache.OffDenies | src/scml2/dmi_handler.cc:47-71 | with DMI disabled, or not allowed by the abstraction level switch, every address is denied |
| DmiCache.HonestExample | src/scml2/dmi_handler.cc:124-203 | with a target whose first hundred bytes may be read, reads are served after a look-up and writes are not |
| DmiCache.EndCheckIsExact | src/scml2/dmi_handler.h:141-145 | the end check lets through exactly the accesses inside the range and those that run over the end of the 64-bit address space |
| DmiCache.OverTheEnd | src/scml2/dmi_handler.h:141-145 | those are served although their range does not contain them |
| DmiCache.AllowedIsServed | src/scml2/dmi_handler.h:121-148 | an access that lies in the range found, which allows its kind or both, is served |
| DmiCache.DeniedIsNotServed | src/scml2/dmi_handler.h:141-145 | one whose kind is not allowed is not |
| DmiCache.SpanIsExtent | src/scml2/dmi_handler.h:293-333 | the addresses that an access is checked for are those from its first up to the last that it meets |
| DmiCache.SameEffect | src/scml2/dmi_handler.h:321-352 | through a faithful range the byte loop in host memory is the byte loop of the target |
| DmiCache.ServedAsByTheTarget | src/scml2/dmi_handler.h:293-365 | an access that does not run over the end and is served moves exactly the bytes that the target would move, all inside a granted range and all permitted |
| DmiHandler.Handler.Invalidate | src/scml2/dmi_handler.cc:47-71 | only the sentinel is left: nothing contained when DMI is on, all denied when it is off |
| DmiHandler.Handler.InvalidateDirectMemPtr | src/scml2/dmi_handler.cc:95-101 | both lists |
| DmiHandler.Handler.EnableDmi | src/scml2/dmi_handler.cc:103-111 | as the run model says |
| DmiHandler.Handler.DisableDmi | src/scml2/dmi_handler.cc:113-121 | as the run model says |
| DmiHandler.Handler.GetRangeSlow | src/scml2/dmi_handler.cc:123-160 | the first range that contains the address moves to the front, else the target is asked |
| DmiHandler.Handler.LoadRange | src/scml2/dmi_handler.cc:162-203 | a denied answer is kept without access; an answer elsewhere is not kept |
| DmiHandler.Handler.GetDirectMemPtr | src/scml2/dmi_handler.cc:73-93 | grants exactly what the cache grants, for a range that contains the address, and names just the access asked for; what is granted is good for the target |
| DmiHandler.Handler.SetDmiAllowed | src/scml2/abstraction_level_switch.cc:30-38 | invalidates exactly when the switch changes |
| DmiHandler.Handler.GetRange | src/scml2/dmi_handler.h:121-132 | the front range when it contains the address |
| DmiHandler.Handler.GetRangeFor | src/scml2/dmi_handler.h:134-148 | the range that serves the whole access, or none |
| DmiHandler.Handler.CopyData | src/scml2/dmi_handler.h:179-227 | a contiguous transfer through the range, with byte enables |
| DmiHandler.Handler.StreamData | src/scml2/dmi_handler.h:325-333 | a streaming transfer through the range |
| DmiHandler.Handler.Transport | src/scml2/dmi_handler.h:293-365 | true exactly when a range serves the access; then host memory and data are as left by the byte loop through the range, else untouched |
| AliasTrees.MemoryBase.RegisterAlias | src/scml2/memory_base.cc:149-187 | the alias is inserted at its place in any case; outside and, on a disjoint level, overlap are reported exactly when they are so |
| AliasTrees.InsertedIsDisjoint | src/scml2/memory_base.cc:149-187 | a level stays disjoint if and only if the new alias has a size and overlaps none |
| AliasTrees.AddAlias | src/scml2/memory_base.cc:36-44 | the tree stays in order if and only if nothing is reported and the alias has a size |
| AliasTrees.EmptyAliasHidesAnother | src/scml2/memory_base.cc:149-187 | an alias without a size is registered without an error and hides the one at the same offset from look-up |
| AliasTrees.MeetingIsSharing | src/scml2/memory_base.cc:172-184 | two aliases with a size overlap exactly when they have an index in common |
| AliasTrees.RangeHasMeeting | src/scml2/memory_base.cc:172-184 | the range looked at has an overlapping alias if the level has any |
| AliasTrees.UpperBound | src/scml2/find_alias.h:89-90 | binary search for the first alias that begins after the index |
| AliasTrees.GetAliasRange | src/scml2/find_alias.h:103-119 | the aliases at which an access is looked for |
| AliasTrees.OnlyTheLastBegun | src/scml2/find_alias.h:89-97 | only the last alias that begins at or before the access can contain it |
| AliasTrees.ContainsBothEnds | src/scml2/find_alias.h:92-97 | an alias contains an access exactly when it has its first and its last index |
| AliasTrees.ReachingIsSharing | src/scml2/find_alias.h:132-135 | an access reaches an alias with a size exactly when it has an index of it |
| AliasTrees.FindAlias | src/scml2/find_alias.h:73-101 | none exactly when the access ends outside; else the alias that contains the access and lies below every other that does |
| AliasTrees.HasRefinedBehavior | src/scml2/find_alias.h:121-143 | the search finds what its recursive description says |
| AliasTrees.IsRefinement | src/scml2/find_alias.h:132-139 | the test of one alias |
| AliasTrees.RangeIsLookedAt | src/scml2/find_alias.h:103-119 | of the aliases of a level that the access reaches, those looked at are the first and, when that begins at or before the access, all others |
| AliasTrees.FindsWhatIsVisible | src/scml2/find_alias.h:121-143 | the search finds something if and only if an alias that fulfils the condition is reached, with all levels down to it looked at |
| AliasTrees.SearchIsExact | src/scml2/find_alias.h:121-143 | if and only if any such alias is reached, when no level that the search comes to has several aliases of which the access begins before the first and reaches the second |
| AliasTrees.SecondIsOverlooked | src/scml2/find_alias.h:103-143 | else the second is overlooked |
| AliasTrees.OverlookedExample | src/scml2/find_alias.h:103-143 | as in a memory with aliases at 10 and 20 and an access from 5 to 22 |
| AliasTrees.WalkUp | src/scml2/find_alias.h:158-164 | from the deepest alias up, the first that fulfils the condition, else the top |
| AliasTrees.FindAliasIf | src/scml2/find_alias.h:145-173 | the deepest alias on the path that fulfils the condition, else the toplevel memory; for a single index there is always one inside the memory, for more it is withheld exactly when an alias further down that is looked at fulfils the condition too |
| IndexedValueEntries.FittingIsContained | src/scml2/indexed_value_if_registry.cc:143-145 | without wrap-around the 32-bit test means that every pair of one entry is a pair of the other |
| IndexedValueEntries.FittingIsAnOrder | src/scml2/indexed_value_if_registry.cc:143-145 | with or without wrap-around the test is transitive and antisymmetric |
| IndexedValueEntries.SurvivorAround | src/scml2/indexed_value_if_registry.cc:135-157 | every entry survives or fits in a survivor |
| IndexedValueEntries.FilteringKeepsTheMeaning | src/scml2/indexed_value_if_registry.cc:125-161 | the union of meanings is the same before and after, and no survivor is contained in another |
| IndexedValueEntries.FilterDuplicatesAndContainedEntries | src/scml2/indexed_value_if_registry.cc:125-161 | the loops end; exactly the entries that fit in no other of their name are left, each once |
| IndexedValueEntries.FilterGroup | src/scml2/indexed_value_if_registry.cc:131-157 | the same for one name |
| IndexedValueEntries.ComposesExactlyWhenAnchored | src/scml2/indexed_value_if_registry.cc:195-208 | two entries one after the other are composed exactly if and only if the second begins at or before the first, or has offset 0 and does not end after it |
| IndexedValueEntries.UnanchoredExample | src/scml2/indexed_value_if_registry.cc:195-208 | two entries that are not, whose composition stands for an index that nothing stands for |
| IndexedValueRegistry.Registry.GetForwardingsForTarget | src/scml2/indexed_value_if_registry.cc:73-103 | exactly the names reachable through the forwardings of all providers; the worklist ends; the result is closed under the forwardings |
| IndexedValueRegistry.Registry.GetEntriesForTargetInternal | src/scml2/indexed_value_if_registry.cc:277-288 | ends also on cyclic providers, with the number of uncached names as measure; what was cached stays; a new list has no repeats and nothing contained. In it, or fitting in something of it, is every provider's entry whose target is not unmapped and has no overlapping entry for a third name, and else its composition with every such entry; an entry of the name for itself, or its composition with something listed; and nothing else is in it |
| IndexedValueRegistry.Registry.GetEntriesForTargetSlow | src/scml2/indexed_value_if_registry.cc:168-235 | the same while the cache slot is filled in place |
| IndexedValueRegistry.FinalTargetExample | src/scml2/indexed_value_if_registry.cc:214-218 | a name that only refers to a final target resolves to just that entry |
| IndexedValueRegistry.ResolvedMembers | src/scml2/indexed_value_if_registry.cc:184-223 | what an entry leads to: its compositions with all overlapping entries for a third name, or the entry itself when there is none and its target is not unmapped |
| IndexedValueRegistry.FittingKeepsMeaning | src/scml2/indexed_value_if_registry.cc:125-161 | what fits in a list means nothing that the list does not mean |
| IndexedValueRegistry.ReachableIsLeast | src/scml2/indexed_value_if_registry.cc:73-103 | the names reachable are in every set that has the first and is closed under the forwardings |
| IndexedValueRegistry.Registry.ProcessEntry | src/scml2/indexed_value_if_registry.cc:184-223 | one entry: its target is resolved first, then what it leads to is added |
| IndexedValueRegistry.Registry.AddAll | src/scml2/indexed_value_if_registry.cc:190-223 | what an entry leads to, or the entry itself when it leads nowhere and its target is not unmapped |
| IndexedValueRegistry.Registry.AddComposed | src/scml2/indexed_value_if_registry.cc:190-213 | composes with every overlapping entry for a third name |
| IndexedValueRegistry.Registry.Filter | src/scml2/indexed_value_if_registry.cc:225 | nothing that was resolved is lost but what fits in something kept |

## Left out

- SystemC: time is a number of time stamps and clock ticks, the clock runs all the time and never changes its period. Of `src/scml_clock/tick_callback_engine.cc` the model has what a queue or timer sees of it: one request per module, dropped before `handle_clock_tick` runs, and the two fatal errors (lines 397-402 and 528-540); its list of time nodes and the warning for a tick behind the end of simulation time are left out.
- Names, descriptions, logging, symbolic names, reference counts, latencies and the debug variants of transports and behaviours: plumbing around the modelled parts. A logged error is a result of the method.
- `mapped_ranges_observers.cc` and `bitfield_callback_observers.cc`: the protocol of `callback_observers.cc` again.
- Post-write behaviour of bitfields: a walk without masks. Callbacks and restrictions are functions, and a tree of bitfields is a value that is built from the leaves up; objects shared between trees are not captured.
- Variable access sizes of the burst unroller: only the fixed word size. 32-bit overflow of index plus length and 64-bit overflow of addresses are not modelled there.
- Byte enables are modelled as on or off; other mask values than 0x00 and 0xff are not.
- CallbackObservers.CallbackObservers.NotifyBegin: the static id counter belongs to the object here; that the handlers are passed the id is not modelled.
- MemoryDmi.MemoryDmi.Disable: start after end, which the source does not check, and memories without a size, for which the list is never a partition (`ClearedIsCanonical`), are excluded.
- ClockedTimer.ClockedTimer.StartTimer: 64-bit overflow of periods and shot counts is not modelled, nor are negative periods and the remaining shot count that `get_remaining_shot_count` reports.
- PeqContainer.Container.Iterate: the iterators are one traversal; keeping an iterator while the list changes is the user's responsibility in the source.
- PeqContainer: freeing the free list with the last queue; the free list is an object that all queues share instead of a static field.
- TriggerProtocol.AlwaysAwake: the clock's own tick count stays below 2^63; after a fatal error there is no further step.
- ContentObservers.ContentObservers.RegisterObserver: ranges outside the memory or with start after end, which the source neither checks nor survives, are excluded; access type and mode are fixed while registered. Pre and post notifications are one.
- DmiHandler.Handler.Transport: an unset interface (the source exits), a target that invalidates inside its own answer, and the payload's DMI hint are not modelled. The abstraction level switch has this one observer.
- AliasTrees.FindAlias: aliases of different widths, for which the source's own width factors differ.
- IndexedValueRegistry.Registry.GetEntriesForTargetInternal: for an entry of a name for itself it is not stated with which of the entries listed it is composed, because the list it meets is the unfinished one.
- IndexedValueRegistry: the relevance filter on parent names, providers that come and go, and the order of forwardings. Names are numbers, ordered as the strings are.
