# Verified models of the OMR runtime's stateful core

This project models six parts of Eclipse OMR in Dafny and proves what they keep, over every input, every run or
every interleaving. Parts that the source updates in place are classes and array methods proved against value
functions; whole-run and concurrent results are lemmas about those functions. Verify with
`dafny verify --resource-limit 2000000 --verification-time-limit 0 dfyconfig.toml`.

| part | files | what is modelled |
|---|---|---|
| memory categories | `CategoryCodes`, `Forests`, `MemoryCategories`, `CategoryLists`, `CategoryTrees` | the depth-first walk written into a flat buffer, threaded into child lists, summed by recursion |
| method dictionary | `MethodDictionary`, `MethodRetrieval`, `MethodMaximality`, `MethodAccounting`, `MethodOwnership`, `MethodRoundTrip` | the store that deletes on retrieval, packs strings, defers and resumes, accounts for its bytes and owns its strings |
| atomics and spin lock | `AtomicLoops`, `SigMutex` | N threads, each load, pre-read and swap a step |
| signals | `SignalSlots`, `SignalTransparency` | primary and secondary actions over one disposition per signal |
| lists, registry, fork | `Rings`, `LinearLists`, `ThreadRegistry`, `RegistryRuns`, `RegistryCalls`, `RuntimeVms`, `ForkChild`, `ForkSnapshot`, `SnapshotChild` | the intrusive lists, the threads and VMs they register, and forking with other threads in mid-update, up to the child's cleaned copy |
| CPU load, tree links | `CpuLoad`, `CpuHistory`, `CpuAnswers`, `SelfRelative` | the history that survives clock jumps; self-relative links with balance bits |

`Words` and `Options` hold fixed-width integers and the option type.

## Reading the models

- A pointer into the category buffer is the slot plus one, 0 for NULL, so that `liveBytesDeep` can hold a tail
  pointer as it does in the source. Counters wrap where the source's 64-bit fields do.
- Allocation, native attach, monitors, operating-system calls and clock reads are parameters or success flags.
- Runs of the dictionary, the signals, the registry and the CPU samples are sequences of values, each the next by
  the same function that the class methods are proved against. The lock-free operations and the fork are state
  machines over single memory accesses, sequentially consistent.
- A property that the code does not always have is stated with its exact condition and a concrete run that fails
  it: the spin lock, secondary transparency, listed-iff-attached, the byte counter and its high-water mark, the
  ownership of strings, the retrieval of as many descriptions as possible, the count of negative times, the process
  load.

## Where code and documentation differ

The models follow the code.

- `include_core/omragent.h:249` promises as many method descriptions as possible; the loop stops at the first that
  does not fit. `MethodMaximality.MostPossibleIff` says when that is the most possible, and
  `MethodRetrieval.LaterDescriptionWouldFit` is a call that falls short.
- `omr/OMR_MethodDictionary.cpp:154-157` takes a difference for a present key; an entry whose pointers are all NULL
  looks unchanged when it is inserted again and is counted as new (`MethodAccounting.DriftSign`).
- `omr/OMR_MethodDictionary.cpp:341-366`: when a string of a new key cannot be copied, the entry stays in the table,
  uncounted (`MethodAccounting.UncountedEntryWraps`) and with the caller's pointers after the failing property, which a
  retrieval then frees (`MethodOwnership.RetrievalFreesOwnIff`).
- `omr/OMR_TI.cpp:363` and `omr/OMR_TI.cpp:396` comment that the load is in [0, 1]; a process load is negative when the
  system time decreases by more than the user time grows (`CpuLoad.ProcessLoadInRangeIff`).
- `omr/OMR_TI.cpp:461` speaks of consecutive negative elapsed times; a success against the interim sample leaves
  the count as it is. `CpuHistory.CountIsStreakIff` says when the count is that of consecutive results, and in
  `CpuHistory.GivenUpTooSoon` a sample is discarded although they were not consecutive.
- `omrsigcompat/omrsig.cpp:132-135` keeps a deferring signal blocked when its handler's mask has it; the code
  unblocks it even then (`SignalSlots.MaskIsPosixIff`).
- `omrsigcompat/omrsig.cpp:153-156` says that one-shot handlers of SIGILL and SIGTRAP are not reset; the code resets
  them. Signals that the platform exempts are a parameter (`SignalTransparency.TransparentIff`).
- `include_core/omrsig.h` says that `omrsig_handler` calls the secondary only when a primary is registered, and
  names two return codes; the code does not look at the primary, and answers an ignored signal with an error.
- `omrsigcompat/omrsig_internal.hpp:112-125` is meant as a lock; a swap that expects the loaded value rather than 0
  lets a second thread in (`SigMutex.TwoInside`).
- `omr/OMR_TI.cpp:771` and `include_core/omragent.h:192` name an out-of-memory code for a full buffer; the code returns
  OMR_ERROR_OUT_OF_NATIVE_MEMORY.

## Model

| member | source | states |
|---|---|---|
| CategoryCodes.CountSlots | omr/OMR_TI.cpp:631-649 | the counting walk yields the sum of the largest index each code range asks for, each plus one, and ignores the excluded limit code |
| CategoryCodes.MappingSizeFits | omr/OMR_TI.cpp:762 | the mapping size always fits 32 bits, so the cast in the index computation loses nothing, and the bound is reached |
| CategoryCodes.IndexInBoundsIff | omr/OMR_TI.cpp:567-574 | with the computed size a walked code indexes inside the array exactly when it is not the excluded limit, or the array is longer than the limit |
| CategoryCodes.IndexInjective | omr/OMR_TI.cpp:567-574 | no two walked codes of either range share a slot |
| CategoryCodes.LimitCodeOverruns | omr/OMR_TI.cpp:567-574 | the excluded code, alone in a walk, indexes 0x7FFFFFFF into an array of two |
| MemoryCategories.WalkState.Record | omr/OMR_TI.cpp:579-614 | one callback writes the next record with its parent pointer found through the mapping, or flags overflow and stops the walk |
| MemoryCategories.WriteCategories | omr/OMR_TI.cpp:579-614 | the written records are exactly the first min(max(max_categories, 0), n) visits; overflow is flagged exactly when something is left out |
| MemoryCategories.AppendToParent | omr/OMR_TI.cpp:657-670 | appending a record changes its parent and the former last child only, although the list tail lives in liveBytesDeep |
| MemoryCategories.FillInChildAndSiblingCategories | omr/OMR_TI.cpp:651-672 | afterwards every record names its first child, its next sibling and, in liveBytesDeep, its last child |
| MemoryCategories.FillInCategoryDeepCounters | omr/OMR_TI.cpp:674-697 | the recursion terminates and leaves the subtree of the category with deep counters that are the sums of the shallow ones, whatever liveBytesDeep held, and passes its sum to the parent |
| MemoryCategories.FillInAllDeepCounters | omr/OMR_TI.cpp:786-795 | after the loop over the roots every written record has its deep counters |
| MemoryCategories.Snapshot | omr/OMR_TI.cpp:776-795 | the three passes together: links, names, shallow and deep counters of every written record, and nothing beyond them touched |
| MemoryCategories.GetMemoryCategories | omr/OMR_TI.cpp:698-825 | each error code exactly under its condition, the total and the written count, a complete snapshot on success and on overflow, an untouched buffer on errors |
| CategoryLists.ChildListIsChildren | omr/OMR_TI.cpp:651-672 | following firstChild and nextSibling lists exactly the written children of a record, in walk order |
| CategoryLists.ReachedSubtree | omr/OMR_TI.cpp:674-697 | what is reached below a record through its lists is its subtree, each member once |
| CategoryLists.EveryRecordReachedOnce | omr/OMR_TI.cpp:779-795 | the lists of the roots reach every written record exactly once |
| CategoryLists.RootsAccountForAll | omr/OMR_TI.cpp:674-697 | the deep counters of the roots add up to all shallow counters, modulo the 64-bit word |
| CategoryLists.TreeWalkIsWellFormed | port/common/omrmemcategories.c:184-252 | the recursive walk over registered categories visits parents before children, so the results above apply to it |
| CategoryTrees.SnapshotOfTrees | omr/OMR_TI.cpp:698-825 | a complete snapshot of registered trees has one record per node, found by the code of the node, with the name and the counters of the node and with deep counters that are the sums over its tree, modulo the word |
| CategoryTrees.ParentsOfTrees | omr/OMR_TI.cpp:579-614 | the record of a child names the record of its parent |
| CategoryTrees.WalkCountsTrees | port/common/omrmemcategories.c:184-252 | the walk visits every node of the trees once, with what it counts |
| MethodDictionary.MethodDictionary.CountEntryNameBytesNeeded | omr/OMR_MethodDictionary.cpp:273-283 | the bytes counted are the length of all strings of the entry packed with their terminators |
| MethodDictionary.MethodDictionary.EntryValueEquals | omr/OMR_MethodDictionary.cpp:374-386 | compares the property pointers, not the strings |
| MethodDictionary.MethodDictionary.DupEntryStrings | omr/OMR_MethodDictionary.cpp:341-367 | copies every string, or on the first failure clears the pointers up to it and keeps the rest |
| MethodDictionary.MethodDictionary.Insert | omr/OMR_MethodDictionary.cpp:140-189 | the whole new dictionary and the error code for every combination of failing steps |
| MethodDictionary.MethodDictionary.Account | omr/OMR_MethodDictionary.cpp:165-175 | the byte counter and the high-water mark after a successful insertion |
| MethodDictionary.MethodDictionary.CopyEntryNameBytes | omr/OMR_MethodDictionary.cpp:285-298 | the buffer holds the packed strings at the cursor and nothing else of it changes; the pointers name their starts |
| MethodDictionary.MethodDictionary.Fetch | omr/OMR_MethodDictionary.cpp:211-257 | one turn of the loop whose removal, if there is one, succeeds: outcome, table, counter, description, buffer and cursors |
| MethodDictionary.MethodDictionary.CopyOut | omr/OMR_MethodDictionary.cpp:233-240 | a description is copied and its strings freed and subtracted while the entry is still in the table, which is what a failed removal leaves |
| MethodDictionary.MethodDictionary.CollectAll | omr/OMR_MethodDictionary.cpp:211-257 | the whole loop: it retrieves, defers and counts to the end, or breaks off with INTERNAL at the first entry that is copied but cannot be removed |
| MethodDictionary.MethodDictionary.GetEntries | omr/OMR_MethodDictionary.cpp:191-271 | table, byte counter, descriptions, buffer, code and the two retry results of a whole call, equal to those of the sequential specification, whichever removals and whether the lock fail |
| MethodRetrieval.RetrievedLeave | omr/OMR_MethodDictionary.cpp:226-247 | exactly the keys marked NONE leave the dictionary; every other entry stays as it is |
| MethodRetrieval.OutcomesMeant | include_core/omragent.h:246-263 | a description is unavailable exactly when its key never was in the dictionary or an earlier request retrieved it; a retrieved one has the strings of its key |
| MethodRetrieval.CountingOnly | omr/OMR_MethodDictionary.cpp:221-225 | after the first deferral nothing is retrieved and the bytes owed are the sum of the sizes still asked for |
| MethodRetrieval.DemandSuffices | omr/OMR_MethodDictionary.cpp:226-254 | a buffer of the size asked for defers nothing |
| MethodRetrieval.SufficientBuffersAgree | omr/OMR_MethodDictionary.cpp:191-271 | any two buffers that suffice give the same outcomes and dictionary |
| MethodRetrieval.DeferralSplits | omr/OMR_MethodDictionary.cpp:248-265 | a deferring call is a complete call on the requests before the first deferral, and owes exactly what the rest asks of the dictionary it leaves |
| MethodRetrieval.CollectCut | omr/OMR_MethodDictionary.cpp:211-257 | a complete call can be cut in two anywhere |
| MethodRetrieval.Resumption | include_core/omragent.h:268-282 | after RETRY with (k, r) a second call from k with any buffer of r bytes is complete, and both together give the outcomes and the dictionary of one call with a buffer that suffices, duplicates included |
| MethodRetrieval.LongestPrefixThatFits | omr/OMR_MethodDictionary.cpp:220-254 | a prefix of the requests is retrieved exactly when the bytes it takes are there |
| MethodRetrieval.LaterDescriptionWouldFit | include_core/omragent.h:249 | a call that does not return as many descriptions as possible: a later one fits where an earlier one did not |
| MethodMaximality.MostPossibleIff | include_core/omragent.h:249 | for every dictionary, request and buffer: no set of available descriptions that fits the buffer is larger than what is retrieved, if and only if the longest prefix of the requests that fits has everything available, or the smallest sizes, one more than that prefix has, add up to more than the buffer |
| MethodMaximality.FetchedIsLongestFit | omr/OMR_MethodDictionary.cpp:211-254 | the retrieved keys are the available ones of the longest prefix of the requests whose strings fit together |
| MethodMaximality.RetrievedFits | omr/OMR_MethodDictionary.cpp:226-234 | what is retrieved is itself such a set: the sizes of the retrieved keys, each counted once, add up to the bytes used of the buffer |
| MethodRetrieval.PackedReads | omr/OMR_MethodDictionary.cpp:285-298 | packed strings read back through their pointers exactly, NUL-terminated and in disjoint pieces |
| MethodRetrieval.DescriptionsExact | omr/OMR_MethodDictionary.cpp:226-254 | every description marked NONE has exact, terminated copies inside the first nameBytes of the buffer, and the copies of different descriptions do not overlap |
| MethodAccounting.RetrievalReleases | omr/OMR_MethodDictionary.cpp:226-247 | a retrieval that removes what it copies subtracts exactly what the entries it deletes held |
| MethodAccounting.YieldReleases | omr/OMR_MethodDictionary.cpp:236-247 | so does a retrieval that stops at an entry it cannot remove: the strings of that entry are gone, its bytes subtracted, the entry itself still counted |
| MethodAccounting.CounterTracksHeld | omr/OMR_MethodDictionary.cpp:140-189 | in every run the byte counter is the memory held plus the drift of the run, modulo the word |
| MethodAccounting.DriftSign | omr/OMR_MethodDictionary.cpp:148-176 | only a new key whose strings cannot be copied makes the counter fall behind, by at least an entry; only inserting a present key makes it run ahead |
| MethodAccounting.CounterCovers | omr/OMR_MethodDictionary.cpp:165-175 | the counter is at least the memory held in every state of a run if and only if its drift never goes negative |
| MethodAccounting.CountedRuns | omr/OMR_MethodDictionary.cpp:226-247 | without such a failed copy the counter covers the memory held and no retrieval subtracts more than it holds; it is exact when moreover no present key is inserted again |
| MethodAccounting.HighWaterMark | omr/OMR_MethodDictionary.cpp:171-174 | in every run in which no retrieval subtracts more than the counter holds, the high-water mark is the largest value the counter had, with the number of entries at that moment |
| MethodAccounting.MarkCoversIff | omr/OMR_MethodDictionary.cpp:165-175 | the mark is at least the counter in every state of a run if and only if no retrieval of the run subtracts more than the counter holds |
| MethodAccounting.UncountedEntryWraps | omr/OMR_MethodDictionary.cpp:148-176 | a failed copy of a new key followed by its retrieval wraps the counter past the mark |
| MethodOwnership.OwnsItsStringsIff | omr/OMR_MethodDictionary.cpp:341-367 | the dictionary holds its own copies only, in every state of a run, if and only if the run never inserts a new key in which a string can not be copied and another string is behind it |
| MethodOwnership.RetrievalFreesOwnIff | omr/OMR_MethodDictionary.cpp:326-338 | in no state of a run would a retrieval free a string of a caller, if and only if the run contains no such insertion |
| MethodOwnership.CallersStringIsFreed | omr/OMR_MethodDictionary.cpp:326-367 | an insertion with two strings of which the first is not copied, after which retrieving the key frees the string of the caller |
| MethodRoundTrip.LastInsertionIsRead | omr/OMR_MethodDictionary.cpp:140-271 | over every run: a caller that retrieves a key reads, through the pointers of its description and inside its buffer, exactly the strings that the last insertion of the key was given, and is asked for nothing more |
| MethodRoundTrip.LastInsertionIsRetrieved | omr/OMR_MethodDictionary.cpp:140-271 | a retrieval with as many bytes as the strings take yields what was last inserted under the key, and removes it |
| MethodRoundTrip.StoredIsGiven | omr/OMR_MethodDictionary.cpp:341-367 | an insertion whose copies succeed stores a copy of exactly the strings it was given, whatever the entry held before |
| MethodRoundTrip.StoredAfterFailure | omr/OMR_MethodDictionary.cpp:349-366 | one whose copy fails stores nothing up to there; behind it a new entry keeps what it was given and a cleaned one stays empty |
| MethodRoundTrip.InsertionCharges | omr/OMR_MethodDictionary.cpp:148-176 | an insertion is charged for the strings it was given, each with its terminator, and for the entry unless it replaces one with other pointers; no other key is touched; failures are not charged |
| MethodRoundTrip.SamePointersAreAddresses | omr/OMR_MethodDictionary.cpp:374-386 | wherever the copies of the dictionary lie, two entries compare equal exactly when all their addresses are |
| MethodRoundTrip.StuckStays | omr/OMR_MethodDictionary.cpp:236-247 | an entry that cannot be removed stays under its key without any string; what was retrieved before it is gone and nothing else is |
| MethodRoundTrip.StuckIsReported | omr/OMR_MethodDictionary.cpp:238-245 | a call reports an internal error exactly when it stops at such an entry, names it, marks its description alone, and leaves the later descriptions as they were |
| MethodRoundTrip.RetryIsEnough | include_core/omragent.h:268-282 | a caller that is told to retry from request k with r bytes, and does, is not told so again, and the codes of both calls together are those of one call with a buffer that suffices |
| AtomicLoops.WordIsReplay | include_core/AtomicSupport.hpp:340-382 | in every interleaving the word is its initial value with the calls applied one at a time in the order of their effects |
| AtomicLoops.EveryCallIsAtomic | include_core/AtomicSupport.hpp:473-557 | every call that returns took effect exactly once between its invocation and its return, and returned what it returns when it runs alone at that moment, with or without the pre-read |
| AtomicLoops.FailureMeansProgress | include_core/AtomicSupport.hpp:480-485 | a swap fails only when a call of another thread changed the word after the load |
| AtomicLoops.WrappingSum | include_core/AtomicSupport.hpp:569-709 | when only additions and subtractions run, the word is its initial value plus their wrapping sum at 32 or 64 bits |
| AtomicLoops.LastSetWins | include_core/AtomicSupport.hpp:717-756 | after the last set that took effect the word has its value |
| AtomicLoops.AndKeepsIff | include_core/AtomicSupport.hpp:497-533 | bitAnd leaves flags set exactly when its mask has them |
| AtomicLoops.FlagsAfter | include_core/AtomicSupport.hpp:497-557 | every bitAnd that returns left, in one step in between, exactly the flags that were set before and are in its mask, every bitOr those set before or in its mask, and both return the word they found |
| AtomicLoops.AddAndSubtract | include_core/AtomicSupport.hpp:569-709 | every addition that returns raised the word by its addend modulo 2^32 or 2^64 in one step in between and returned what it left; a subtraction lowered it |
| AtomicLoops.SetAndExchange | include_core/AtomicSupport.hpp:340-382 | every set that returns stored its value and returned the word it replaced; every single compare-and-swap replaced the expected value or nothing and returned the word it found, pre-read or not |
| AtomicLoops.BitsStaySet | include_core/AtomicSupport.hpp:545-557 | flags set by bitOr stay set until a call that clears them takes effect |
| SigMutex.AgreementStep | omrsigcompat/omrsig_internal.hpp:112-135 | a step keeps the agreement between word and threads exactly when it is not a swap that finds 0 after loading 1 |
| SigMutex.AgreementIff | omrsigcompat/omrsig_internal.hpp:112-135 | at most one thread is inside and the word is 1 exactly while one is, in every state of a run, if and only if no swap that finds 0 had loaded 1 |
| SigMutex.StaleNeedsUnlock | omrsigcompat/omrsig_internal.hpp:121-130 | such a swap needs an unlock by another thread between the load and the swap |
| SigMutex.TwoInside | omrsigcompat/omrsig_internal.hpp:112-135 | a run of two threads that ends with both inside |
| SignalSlots.SignalTable.SigactionInternal | omrsigcompat/omrsig.cpp:381-460 | result, old action, slots and disposition for every combination of argument and operating-system answer |
| SignalSlots.SignalTable.Sigaction | omrsigcompat/omrsig.cpp:221-227 | with a willing operating system one slot steps to the installed action and nothing else changes |
| SignalSlots.SignalTable.Signal | omrsigcompat/omrsig.cpp:254-289 | the handler-only entry points: the previous handler, or an error exactly for invalid signals |
| SignalSlots.SignalTable.OmrsigHandler | omrsigcompat/omrsig.cpp:111-195 | return code, handler call with its mask, the reset of one-shot handlers, and the mask left behind, for every combination of failing mask calls |
| SignalSlots.MaskIsPosixIff | omrsigcompat/omrsig.cpp:128-150 | the mask during a handler is the one POSIX prescribes except for deferring handlers whose own or whose thread mask blocks the signal |
| SignalSlots.SignalInstalls | omrsigcompat/omrsig.cpp:254-289 | which flags the handler-only entry points install: only the System V form is one-shot, only the BSD form keeps its signal blocked, the others restart calls, none takes signal information |
| SignalSlots.SignalDelivers | omrsigcompat/omrsig.cpp:254-289 | a handler installed with signal runs once, unblocked, and is the default again; one installed with bsd_signal runs blocked and stays; a primary is not run by omrsig_handler |
| SignalTransparency.TransparentIff | omrsigcompat/omrsig.cpp:399-423 | the old action reported to a secondary is that of a table which never saw the primary, in every state of a run, if and only if no event breaks it: a primary installation over a handler the operating system has reset, or a reset of a signal exempt from resets |
| SignalTransparency.DispositionIff | omrsigcompat/omrsig.cpp:438-455 | in every state of every run the disposition is the primary with the secondary's stack and child flags added, or the secondary, unless the last word at the signal is the delivery of a one-shot secondary by the operating system; after one it is the default action with the handler's mask and other flags |
| SignalTransparency.SpentIff | omrsigcompat/omrsig.cpp:438-455 | a secondary handler is spent exactly when the operating system delivered it as one-shot, its signal not exempt and no primary function there, and nobody has installed or handled anything at the signal since |
| SignalTransparency.DeliveryIff | omrsigcompat/omrsig.cpp:115-192 | omrsig_handler answers as that table would exactly where no handler is spent, in every state of a run, if and only if no event breaks it; until then it also runs the handler of that table |
| SignalTransparency.DeliveryMeans | omrsigcompat/omrsig.cpp:115-192 | what that answer is, from the action of the ordinary table: a function is called at its address, with signal information exactly when the action asks for it and with its mask, and is handled; the default is left to the caller; an ignored signal is an error |
| SignalTransparency.PrimaryIsNeverOneShot | omrsigcompat/omrsig.cpp:429-436 | no primary slot ever carries SA_RESETHAND |
| SignalTransparency.PrimaryIsLastInstalled | omrsigcompat/omrsig.cpp:425-436 | in every run the primary slot holds the last action that the primary installed, one-shot flag aside |
| SignalTransparency.PrimaryStaysRegistered | omrsigcompat/omrsig.cpp:429-448 | in every state of every run a delivery to a primary function leaves the disposition alone |
| SignalTransparency.PrimaryViewIff | omrsigcompat/omrsig.cpp:399-423 | in every state of every run the primary is shown its own action exactly when one side has a function, or both slots are equal, or the secondary asks for signal information; after the reset of a one-shot secondary, exactly when its own action is the one left by that reset |
| SignalTransparency.RefusedInstallIff | omrsigcompat/omrsig.cpp:425-456 | an installation the operating system refuses goes unnoticed by the secondary exactly when it is the primary's, repeats the plain action, or the operating system's answer hides it |
| SignalTransparency.RefusedPrimaryShowsIff | omrsigcompat/omrsig.cpp:399-456 | the primary goes on seeing its old action after a refused installation of its own exactly when the operating system's answer hides it, or the action is the one it had, one-shot flag aside |
| SignalTransparency.SpentHandlerReturns | omrsigcompat/omrsig.cpp:438-455 | a run in which a reset handler comes back |
| Rings.Ring.AddAfter | include_core/omrlinkedlist.h:28-33 | inserts the element behind the given one and keeps the ring |
| Rings.Ring.AddBefore | include_core/omrlinkedlist.h:35-43 | inserts the element in front of the given one, as the new first when that was the root |
| Rings.Ring.AddFirst | include_core/omrlinkedlist.h:45-52 | prepends |
| Rings.Ring.AddLast | include_core/omrlinkedlist.h:54-63 | appends |
| Rings.Ring.Remove | include_core/omrlinkedlist.h:65-76 | removes exactly the element, moving the root on when needed |
| Rings.Ring.RemoveFirst | include_core/omrlinkedlist.h:78-88 | removes and returns the first element |
| Rings.Ring.Visit | include_core/omrlinkedlist.h:93-97 | the forward traversal visits every element once, in order, and stops |
| Rings.Ring.VisitReverse | include_core/omrlinkedlist.h:99-103 | the reverse traversal visits every element once, last first, and stops |
| Rings.RotationIsRing | include_core/omrlinkedlist.h:28-88 | a ring read from any of its elements on is the same ring |
| LinearLists.LinearList.Add | include_core/omrlinkedlist.h:118-127 | prepends to a NULL-ended list |
| LinearLists.LinearList.AddBefore | include_core/omrlinkedlist.h:129-141 | inserts in front of the given element |
| LinearLists.LinearList.AddAfter | include_core/omrlinkedlist.h:143-152 | inserts behind the given element |
| LinearLists.LinearList.Remove | include_core/omrlinkedlist.h:154-164 | removes exactly the element |
| LinearLists.LinearList.Visit | include_core/omrlinkedlist.h:106-116 | the traversal visits every element once, in order; only the last is a tail |
| ThreadRegistry.Vm.AttachThread | omr/OMR_VM.cpp:86-109 | ring, counters and thread-local slot after an attach, admitted or refused |
| ThreadRegistry.Vm.DetachThread | omr/OMR_VM.cpp:111-129 | ring, counters and slot after a detach |
| ThreadRegistry.Vm.AttachVMThread | omr/OMR_VMThread.cpp:81-100 | counts re-attaches, attaches first ones, and raises the count even of refused threads |
| ThreadRegistry.Vm.DetachVMThread | omr/OMR_VMThread.cpp:102-123 | counts detaches, detaches the last one, refuses unattached threads |
| ThreadRegistry.Vm.FirstAttach | omr/OMR_VMThread.cpp:126-158 | a new internal thread attached once, or nothing on failure |
| ThreadRegistry.Vm.LastDetach | omr/OMR_VMThread.cpp:160-173 | the thread leaves the ring and is freed |
| ThreadRegistry.Vm.Reattach | omr/OMR_VMThread.cpp:175-183 | raises only the count |
| ThreadRegistry.Vm.Redetach | omr/OMR_VMThread.cpp:185-190 | lowers only the count |
| RegistryRuns.CountersCountTheRing | omr/OMR_VM.cpp:86-129 | in every run, refusals included, the two counters are the numbers of internal and language threads in the ring, nobody is listed twice, and a set maximum is kept |
| RegistryRuns.ListedIffUnrefused | omr/OMR_VMThread.cpp:81-123 | a thread is listed exactly while its attach count is positive, in every state of a run, if and only if the run refuses nobody |
| RegistryRuns.CurrentThreadIsListedIff | omr/OMR_VMThread.cpp:34-45 | the thread-local slots name listed threads only, in every state of a run, if and only if the run refuses nobody |
| RegistryCalls.AttachCountIsCalls | omr/OMR_VMThread.cpp:81-190 | between any two states of any run the attach count of every thread grows by the attachments taken, refused ones included, less those given back |
| RegistryCalls.BalancedCallsRestore | omr/OMR_VMThread.cpp:81-190 | when between two states every thread gave back as many attachments as it took, its attach count, the listed threads and both counters are as they were |
| RegistryCalls.AllDetached | omr/OMR_VMThread.cpp:81-190 | when every thread has given back as many attachments as it took, ring, counters and slots are empty |
| RegistryRuns.SameCountsRestore | omr/OMR_VM.cpp:86-129 | whenever all attach counts are the same, so are the listed threads and both counters |
| RegistryCalls.AttachCodesTell | omr/OMR_VMThread.cpp:81-100 | each code of an attach against what it did: no effect, counted without being listed, or counted and listed |
| RegistryCalls.DetachCodesTell | omr/OMR_VMThread.cpp:102-123 | each code of a detach against what it did: no effect, or one attachment less and, with the last, off the list |
| RegistryCalls.RefusedIffFull | omr/OMR_VM.cpp:92-105 | a first attach is refused exactly when the thread is not internal and as many language threads are listed as a set maximum allows |
| RegistryCalls.SlotIsLastAttach | omr/OMR_VM.cpp:86-129 | in every state of every run a thread is in the slot of an operating-system thread exactly when its attach is the last thing that filled or emptied that slot |
| RegistryCalls.RingIsInOrder | omr/OMR_VM.cpp:93-99 | the ring lists the threads in the order in which they were attached |
| RegistryRuns.RefusalMisleads | omr/OMR_VM.cpp:101-105 | a refused thread has count 1 and the slot, is not listed, and its detach would pass the guard |
| RuntimeVms.Runtime.AttachVM | omr/OMR_Runtime.cpp:76-92 | appends the VM within the limit; the counter stays the length of the ring |
| RuntimeVms.Runtime.DetachVM | omr/OMR_Runtime.cpp:94-101 | removes exactly the VM; the counter follows |
| RuntimeVms.Runtime.AttachThenDetach | omr/OMR_Runtime.cpp:76-101 | a VM that attaches, and detaches again if it was admitted, leaves ring and counter as they were |
| RuntimeVms.Runtime.Destroy | omr/OMR_Runtime.cpp:52-73 | refused exactly while a VM is attached to an initialized runtime |
| ForkChild.FreeOthers | omr/OMR_VM.cpp:195-216 | the walk frees every thread of another operating-system thread once, in ring order, finds the current one, and depends on no freed memory |
| ForkChild.OthersAreDistinct | omr/OMR_VM.cpp:197-216 | the freed threads are pairwise different, so none is freed twice |
| ForkChild.CurrentIsLast | omr/OMR_VM.cpp:197-216 | of several registrations of the forking operating-system thread the current one is the last in the ring |
| ForkChild.OthersKeepOrder | omr/OMR_VM.cpp:197-216 | the others are freed in the order of the ring |
| ForkChild.ChildSlotsIff | omr/OMR_VM.cpp:195-228 | the slots are not cleaned: in the child they name listed threads only if every one of them named the current thread already |
| ForkChild.PostForkChild | omr/OMR_VM.cpp:170-240 | the child lists and counts the current thread only; generation and parent are updated |
| ForkChild.ForkedIsConsistent | omr/OMR_VM.cpp:218-228 | the child starts with counters that count its ring within the limit; exactly the other threads are gone |
| ForkChild.NobodyLostIff | omr/OMR_VM.cpp:195-228 | no attached thread is lost to the child exactly when the current operating-system thread has one registration |
| ForkSnapshot.SnapshotIsWellFormed | omr/OMR_VM.cpp:133-152 | whatever the other threads are doing, the memory copied by a fork under the list mutex holds a ring in both directions with agreeing counters: that of exactly the operations that had finished |
| ForkSnapshot.InvariantStep | omr/OMR_VM.cpp:86-129 | every single write, counter update and lock step keeps the invariant behind it |
| ForkSnapshot.WriteTracks | include_core/omrlinkedlist.h:54-76 | the writes of an attach or a detach pass through the expected intermediate memories |
| ForkSnapshot.AppliedIsRegistry | omr/OMR_VM.cpp:86-129 | what a finished operation does to the ring and the counters in memory is what it does to the registry |
| ForkSnapshot.RingIsUnique | include_core/omrlinkedlist.h:54-76 | a memory holds one ring only |
| ForkSnapshot.TornSnapshot | include_core/omrlinkedlist.h:54-63 | a copy between the writes of an attach holds no ring |
| SnapshotChild.WalkAndFree | omr/OMR_VM.cpp:195-216 | run on a copied memory that holds a ring, the walk frees exactly the threads of other operating-system threads, in ring order, and reads no freed one |
| SnapshotChild.Child | omr/OMR_VM.cpp:195-228 | walk and re-attach turn such a memory into one that holds the ring of the current thread alone with agreeing counters |
| SnapshotChild.ChildOfRun | omr/OMR_VM.cpp:133-228 | at every fork of every run, whatever the other threads are in the middle of, the child ends with the ring and the counters of the forking thread alone and has freed exactly the others that finished attaching |
| CpuLoad.IntervalIff | omr/OMR_TI.cpp:242-255 | the interval is right exactly for gaps of less than 2^63 ns, however often the timer wrapped |
| CpuLoad.SystemLoadInRange | omr/OMR_TI.cpp:349-367 | a system load lies in [0, 1] |
| CpuLoad.ProcessLoadInRangeIff | omr/OMR_TI.cpp:376-401 | a process load lies in [0, 1] exactly when system and user time together did not decrease |
| CpuLoad.ProcessLoadCanBeNegative | omr/OMR_TI.cpp:376-401 | two samples with a negative process load |
| CpuAnswers.SystemVerdict | omr/OMR_TI.cpp:349-367 | of two system samples: which gaps are negative, too small or useless, and otherwise a load that is the CPU time used, divided by the number of CPUs times the gap, cut off at 1 |
| CpuAnswers.ProcessVerdict | omr/OMR_TI.cpp:376-401 | the same for a process, with user and system time together and a load of 1 beyond 2^63 ns |
| CpuLoad.SysInfo.GetSystemCpuLoad | omr/OMR_TI.cpp:403-477 | error code, load and new history for every caller, refused ones and a failing monitor included; the process history is untouched |
| CpuLoad.SysInfo.GetProcessCpuLoad | omr/OMR_TI.cpp:479-553 | the same for the process load |
| CpuAnswers.SystemAnswer | omr/OMR_TI.cpp:434-469 | code and load of a call from the three samples alone: against the interim sample, else the oldest, else an internal error or a retry |
| CpuAnswers.ProcessAnswer | omr/OMR_TI.cpp:510-545 | the same for the process load |
| CpuAnswers.SystemLoadIsMeasured | omr/OMR_TI.cpp:434-449 | every system load that any run returns is the share of the CPUs used between two of its samples, at least 1,000,000 ns apart |
| CpuAnswers.ProcessLoadIsMeasured | omr/OMR_TI.cpp:510-525 | every process load that any run returns is the share used between two of its samples |
| CpuAnswers.RememberedFrom | omr/OMR_TI.cpp:425-469 | in every run both remembered samples are the ones that the last adopting calls left |
| CpuAnswers.StatusTellsDenials | omr/OMR_TI.cpp:419-432 | there is no history before the first call, calls are supported while every sample was available, and otherwise the first denial says why not |
| CpuAnswers.NothingToMeasure | omr/OMR_TI.cpp:419-432 | the first sample answers retry; from the first denial on every call answers not available |
| CpuHistory.CountBounded | omr/OMR_TI.cpp:459-468 | the negative count never exceeds 3 |
| CpuHistory.DenialIsFinal | omr/OMR_TI.cpp:419-432 | an unsupported or error status is absorbing |
| CpuHistory.LoadIsMeasured | omr/OMR_TI.cpp:434-449 | a returned load was measured against a remembered sample at least 1,000,000 ns older |
| CpuHistory.SystemLoadIsShare | omr/OMR_TI.cpp:434-449 | a returned system load lies in [0, 1], whatever the history |
| CpuHistory.OldestBeforeInterim | omr/OMR_TI.cpp:434-468 | in every reachable history the oldest timestamp is below the interim timestamp plus 1,000,000 ns |
| CpuHistory.RecoveryInFour | omr/OMR_TI.cpp:434-469 | after any four calls on a forward clock the oldest sample is not ahead, and from then on every call at least 1,000,000 ns after it succeeds |
| CpuHistory.SystemRecovery | omr/OMR_TI.cpp:434-469 | the same for the system load, from conditions on the samples alone |
| CpuHistory.ThreeAreNotEnough | omr/OMR_TI.cpp:459-468 | after three calls the oldest sample can still be ahead |
| CpuHistory.CountIsStreakIff | omr/OMR_TI.cpp:435-468 | for every run, the count is that of the negative results in a row in every state, if and only if no call succeeds against the interim sample while the count is not 0 |
| CpuHistory.GivenUpAfterStreak | omr/OMR_TI.cpp:459-463 | in such runs the oldest sample is discarded for negative time only after three results in a row were negative |
| CpuHistory.GivenUpTooSoon | omr/OMR_TI.cpp:435-463 | a run of six calls that discards the oldest sample on the first negative result after a success |
| SelfRelative.RoundTripIff | include_core/omravldefines.h:44-52 | a child that is set is read back exactly for NULL and for nodes other than the field at an aligned distance |
| SelfRelative.NonNullRoundTripIff | include_core/omravldefines.h:45-53 | the form without the NULL test reads back every aligned node |
| SelfRelative.SetNodeKeepsBalanceIff | include_core/omravldefines.h:44-47 | setting a link keeps the balance exactly when the distance adds no bits to it |
| SelfRelative.LinkIsDistance | include_core/omravldefines.h:44-45 | what a tree link stores beside the balance is the distance from the field to the node, modulo the word |
| SelfRelative.PlainLinkIsDistance | include_core/omrsrp.h:37-64 | plain links store that distance in 64 bits, or in 32 with its sign when the object is near |
| SelfRelative.OrBitByBit | include_core/omravldefines.h:42-45 | the two balance bits are joined bit by bit |
| SelfRelative.SetBalanceKeepsNode | include_core/omravldefines.h:41-42 | a balance reads back and keeps the link |
| SelfRelative.ShortRoundTripIff | include_core/omrsrp.h:40-44 | a 32-bit link reads back exactly for NULL and for objects other than the field within 2 GiB |
| SelfRelative.ShortNonNullRoundTripIff | include_core/omrsrp.h:37-43 | the form without the NULL test reads back every object within 2 GiB |
| SelfRelative.WideRoundTripIff | include_core/omrsrp.h:55-64 | a pointer-wide link reads back everything but the field itself |
| SelfRelative.MovingKeepsTree | include_core/omravldefines.h:44-52 | moving a block that holds a whole tree by any distance keeps its shape and balances, if and only if no node lands on address 0 |
| SelfRelative.LinksReads | include_core/omravldefines.h:52 | a field that links to a tree is read as the root of that tree, or as NULL when the tree is empty |
| SelfRelative.SetNodeLinks | include_core/omravldefines.h:44-52 | setting a link to the root of a tree makes the field link to that tree |
| SelfRelative.SetBalanceRebalances | include_core/omravldefines.h:42 | setting the balance of a node changes that balance and nothing else in the tree |

## Left out

- Hash table, memory pool and AVL insertion and removal: the dictionary's table is a map, and trees are changed one link or balance at a time.
- The NULL checks of the tooling interface around the dictionary: one error code each.
- `MethodDictionary.MethodDictionary.Fetch`: is the turn of the loop whose removal succeeds; the turn that fails to remove is `MethodDictionary.MethodDictionary.CopyOut`, and both are in `MethodDictionary.MethodDictionary.CollectAll` and `MethodDictionary.MethodDictionary.GetEntries`.
- `MethodAccounting.CounterCovers`: assumes that the memory held and the drift together stay below 2^64; the byte counter is compared with exact sums.
- `MethodAccounting.MarkCoversIff`: assumes that the memory held and the mark together stay below 2^64; a counter that wraps past a mark near 2^64 could come out below it again.
- `CpuHistory.OldestBeforeInterim`: for samples taken within 2^63 ns of one another, in any order; beyond that the intervals themselves are undefined.
- `CpuAnswers.SystemLoadIsMeasured` and the other laws about samples: for samples taken within 2^63 ns of one another, as the intervals are undefined beyond; process times are below 2^63.
- `RegistryCalls.BalancedCallsRestore`: only threads that `omr_vmthread_firstAttach` made are given to `omr_vmthread_lastDetach`, as `include_core/omr.h:290-304` demands.
- `CpuLoad.ProcessLoadInRangeIff`: for CPU times from 0 up to 2^63; overflow of the number of CPUs times the elapsed time, and rounding of the division, are not modelled.
- `RegistryRuns.ListedIffUnrefused`: runs contain no detach of a thread with count 1 that is not listed, because the list removal would follow links that were never set, and no re-detach of a thread with count 1, which the assertion of `omr_vmthread_redetach` accepts but `include_core/omr.h:318-325` forbids; after it a listed thread has count 0.
- `ThreadRegistry.Vm.DetachVMThread`: a refused thread with attach count 1 is excluded, because `detachThread` would unlink it through links that were never set; `RegistryRuns.RefusalMisleads` shows that the guard lets it through.
- Overflow of the 32-bit attach count, of the word-sized thread and VM counters, and of the 32-bit count of categories.
- `ForkChild.PostForkChild`: destroying thread names, trace and collector data of freed threads, and the entries that dead threads leave in the thread-local slots.
- `ForkSnapshot.SnapshotIsWellFormed`: thread-local slots are not part of the copied memory; the locks of the tooling interface, the trace engine and the thread library are not modelled.
- Hardware memory ordering: accesses are sequentially consistent and barriers do nothing; `addDouble` is left out because it needs floating-point bit patterns.
- `SignalTransparency.TransparentIff`: every call the operating system gets succeeds; one refused installation is covered by `SignalTransparency.RefusedInstallIff`. Two threads inside `omrsig_handler` for one signal at once are not modelled.
- `sigset`, `sigignore`, `__sigactionset`, the Windows and z/OS branches and the lookup of the system's `sigaction`.
- Trace engine, agents, port library, printing, name handling of threads, and getters.
