# Verified models of the synchronisation and configuration layers

This project models the parts of the repository whose correctness is not visible from reading one function, and
proves what they are for:

* **Coroutine synchronisation** (`src/sync`). `v2::Mutex` is modelled twice. `MutexProtocol` is a transition system
  with one step per atomic access or pointer write, any number of coroutines and weak compare-and-swaps that may
  fail; every step of it is shown to be a step of the abstract first-in-first-out lock in `FifoLock`, and
  `MutexProgress` bounds what each call takes. `MutexHeap` is the same code on real objects: the pointer reversal of
  `Unlock` is proved on `next_` fields while other coroutines queue up between any two accesses.
  `ConditionVariableProtocol` and `ConditionVariableHeap` do the same for the condition variable, on top of
  `FifoLock`, and `ConditionVariableCalls` says what one call of `Wait` or `Notify` comes to. `AnyRace` is the
  first-of-N race of `sync::any`, and `BarrierProtocol` the counting rendezvous of `Barrier` and `Condition`.
* **Configuration merge and patch** (`src/module`). `Yaml` has documents as trees. `MergeMap` proves the loop with
  the explicit stack equal to the recursive merge, whatever order its pairs are popped in; `MergeLayers` says when
  three layers may be merged in either order. `KeyedList`, `MergeList`, `PatchList`, `PatchKeys`, `ListUnion` and
  `Handlers` are the algorithms on keyed lists, in place, with what they do to keys, order and values. `PatchTwice`,
  `KeyMoves`, `PatchSteady` and `PatchNodes` say exactly when applying a patch twice is applying it once, and
  `PatchExamples` has inputs on which it is not. `SplitTrim`, `PatchMode` and `PatchWords` read the tags that say what a
  patch does, and `PatchItems` has what each item does in the words of its tag.
* **Periodic workers** (`plugin/example/monitor`). `Workers` has the normalised `timespec` arithmetic, `BinaryHeap`
  and `TimeWheelExecutors` the queue and the loop, `TimeWheel` what every run of the loop satisfies.
* **Topic rates** (`TopicHz`) and **unique ids** (`UniqueId`).

A state machine appears as `Enabled`, `Next` (or `Apply`) and the state after a sequence of events; its theorems are
about every legal sequence, of any length. Code that edits objects in place is a class whose methods are proved
against a function of the old state, and the theorems are about that function.

## Assumptions

* Atomic accesses are sequentially consistent. An awaiter lives until it has been resumed.
* A participant of the mutex has at most one lock request at a time (its id names its awaiter); a coroutine that tries
  or locks a mutex which it already holds counts as a further participant.
* Waiters and notifiers of the condition variable hold its mutex. Whoever makes the condition true calls `NotifyAll`
  before unlocking or waiting without a condition; this is part of `Enabled` in `ConditionVariableProtocol`.
* A task of `sync::any` that is inline finishes while it is spawned, as the comment in the source says.
* Two documents that are merged share no nodes.
* The monotonic clock does not go back; a periodic worker's `Run` does not touch the queue.

## Where the code differs from what one may expect

* `GenerateUniqueID` gives unique ids for 65536 blocks, one more than the counter has non-zero values: the 65536th
  block has thread id 0 and gives one id. The 65537th block repeats the first (`UniqueId.LargestBound`; the run is in
  `UniqueId.TooManyThreads`).
* A patch whose items all say `new+override` is idempotent except where the list does not exist yet: it then becomes
  the patch itself, repeated keys included, and its own tag is not looked at until the second time
  (`PatchTwice.PatchNodeTwice` has the exact condition, `PatchTwice.RepeatedKeyChanges` an example).
* Which other patches are idempotent on existing lists is in `PatchSteady.IdempotentExactly`: `new+delete` is not
  (`PatchExamples.AddsThenDeletes`), nor is an item that is added at one end and moved to the other
  (`PatchExamples.AddsThenMoves`), nor `new+override` after an item with `override.front`
  (`PatchExamples.AddsBeforeMoved`).
* If the list may also be missing, a patch must moreover leave its own items alone, because a missing list becomes the
  patch: two items with `override.front` change places the second time (`PatchExamples.MissingListTurns`), and
  `new.never+delete` is stored and then removed (`PatchExamples.MissingListLoses`). `PatchNodes.NodeIdempotentExactly`
  has the exact condition for all nodes.
* The merge is not associative (`MergeLayers.NotAssociative`). It is exactly if no value of the middle layer stands over
  something that the first layer has and the last has not (`MergeLayers.MergeAssociates`). This counts null, unassigned
  and missing as the same; `MergeLayers.MergeAssociatesExactly` tells them apart and is stricter.
* A barrier that is used again without `Init` lets its first arrival through, and with it works as the first time
  (`BarrierProtocol.NextRoundNeedsInit`). An `Init` that comes before all threads have noticed the end of a round stops
  the barrier for good (`BarrierProtocol.InitTooEarly`; such a state comes up in `BarrierProtocol.OneHasNotNoticed`).
* A worker with period zero keeps the loop from sleeping, but only once it is due (`TimeWheel.LoopSleepsExactly`).
* After a timeout `Calculate` reports nanoseconds, otherwise seconds (`TopicHz.ReportUnits`, `TopicHz.LateReport`).
* `merge` alone panics where the list exists and the element does not (`PatchWords.MergeAloneFails`), although the
  comment in `src/module/cfg_processor.h:202` says that it is added. On an existing list it is added exactly if `new`,
  `new.front` or `new.back` is given as well, and the program does not panic exactly if one of these or `new.never`
  is. If the list does not exist either, the element is added whatever its tag says, without a look at the tag
  (`PatchWords.AbsentNeedsNewWord`, and `PatchNodes.AddedExactly` for patches of many items). Any word that starts with
  `merge` means the merge mode.
* `delete` next to `override.front` or `override.back` is accepted and ignored (`PatchWords.DeleteTakesEffect`,
  `PatchWords.DeleteIsIgnored`).

## Model

| member | source | states |
|---|---|---|
| FifoLock.ApplyKeepsWellFormed | src/sync/mutex.h:86-94 | a queue of the lock has no repetitions, does not contain the owner, and is empty while nobody owns the lock, after every operation |
| FifoLock.GrantsFollowArrivals | src/sync/mutex.cpp:65-142 | over any run of the lock, those who queued up are those who were served followed by those still waiting, in order |
| FifoLock.GrantedAtItsTurn | src/sync/mutex.cpp:65-142 | behind k waiters, the (k+1)-th release and no other grants the lock |
| MutexProtocol.StepSimulates | src/sync/mutex.cpp:48-142 | every atomic step, spurious failure or pointer write keeps the invariant and is one operation of the FIFO lock (or none), under queue = waiter in hand, reversed rest of a taken stack, `awaiter_` chain, reversed `state_` chain |
| MutexProtocol.RunSimulates | src/sync/mutex.cpp:48-142 | whole runs are runs of the FIFO lock with the same pushes and the same resumptions |
| MutexProtocol.MutualExclusion | src/sync/mutex.cpp:48-142 | at most one coroutine is between acquiring and releasing, also during a handoff; `state_` is the unlocked value exactly when there is none, and then both chains are empty |
| MutexProtocol.ResumedInPushOrder | src/sync/mutex.cpp:65-142 | no waiter is lost, resumed twice or overtaken: resumptions so far plus current waiters are the pushes so far |
| MutexProtocol.ServedAtItsTurn | src/sync/mutex.cpp:65-142 | a coroutine whose push succeeds behind k waiters stays suspended through k completed unlocks and the next one gives it the lock |
| MutexProtocol.AssertionsHold | src/sync/mutex.cpp:91-117 | the assertions in `Unlock` hold in every run, and the awaiters it follows and resumes belong to suspended coroutines |
| MutexProgress.SomebodyMoves | src/sync/mutex.cpp:65-142 | while somebody waits there is an owner, and it is in its critical section or can take a step of `Unlock` |
| MutexProgress.UnlockIsBounded | src/sync/mutex.cpp:65-119 | in any state with the invariant, a coroutine in `Unlock` takes no more of its own steps than `Left` says, and two for each write of others to `state_` and each spurious failure; it ends outside |
| MutexProgress.EveryUnlockEnds | src/sync/mutex.cpp:65-119 | from its call in any reachable state, one `Unlock` takes at most six steps more than there are coroutines, and two for each write of others to `state_` and each spurious failure; it ends outside or has a next step |
| MutexProgress.LockIsBounded | src/sync/mutex.cpp:122-142 | a coroutine in `Lock` comes to wait or to be inside and nowhere else, within `LockLeft` steps and three for each write of others to `state_` and each spurious failure |
| MutexProgress.EveryLockEnds | src/sync/mutex.cpp:122-142 | from its call in any reachable state, one `Lock` takes at most four steps and three for each such write or failure; it ends inside or waiting, or has a next step |
| MutexProgress.LockAlone | src/sync/mutex.cpp:122-142 | left alone, `Lock` takes the mutex within four steps if nobody owns it, and queues up if somebody does |
| MutexProgress.TryLockExactly | src/sync/mutex.cpp:48-52 | `TryLock` takes the mutex exactly if nobody owns it at the moment of its one step, and changes nothing otherwise |
| MutexHeap.Mutex.TryLock | src/sync/mutex.cpp:48-52 | succeeds exactly if the mutex was free, and leaves the queue alone |
| MutexHeap.Mutex.ReverseInPlace | src/sync/mutex.cpp:103-114 | the loop turns the taken chain of real nodes into its reverse, touching no node of the chain that grows meanwhile |
| MutexHeap.Mutex.UnlockOrTake | src/sync/mutex.cpp:80-101 | either the mutex is freed with nobody queued, or the whole stack is taken, late arrivals included |
| MutexHeap.Mutex.Unlock | src/sync/mutex.cpp:65-119 | the woken waiter followed by the new queue is the old queue followed by the arrivals; nobody is woken only if both are empty, and then the mutex is free |
| MutexHeap.Mutex.CasPush | src/sync/mutex.cpp:134-139 | a successful push appends the awaiter to the queue; a failed one changes nothing |
| MutexHeap.Mutex.LockAndSuspend | src/sync/mutex.cpp:122-142 | suspends with the awaiter newest in the queue, or acquires a mutex that nobody waits for, however many rounds fail |
| ConditionVariableHeap.ConditionVariable.AwaitSuspend | src/sync/condition_variable.h:63-75 | the awaiter becomes the newest of the chain, whatever compare-and-swaps fail |
| ConditionVariableHeap.ConditionVariable.Notify | src/sync/condition_variable.h:105-124 | `NotifyAll` resumes every waiter once, newest first, and empties the chain; `NotifyOne` resumes the newest and keeps the rest in order |
| ConditionVariableProtocol.StepKeeps | src/sync/condition_variable.h:62-124 | every call, step and spurious failure of waiters and notifiers keeps the invariant |
| ConditionVariableProtocol.NoLostWakeup | src/sync/condition_variable.h:62-124 | nobody stays suspended in `Wait(lock, func)` while the condition holds and the mutex is free |
| ConditionVariableProtocol.WaitReturnsOnTrue | src/sync/condition_variable.h:84-91 | from its call in any reachable state, `Wait(lock, func)` returns only with the mutex held and the condition true, however often it is resumed in between |
| ConditionVariableProtocol.WaitsAreConserved | src/sync/condition_variable.h:62-124 | waits begun are waiters resumed plus waiters still suspended |
| ConditionVariableCalls.WaitReturnsWoken | src/sync/condition_variable.h:62-82 | `Wait(lock)` returns only with the mutex held and after being resumed, exactly once |
| ConditionVariableCalls.NotifyWakes | src/sync/condition_variable.h:105-124 | from its call to its return, `NotifyAll` resumes everybody who waits and `NotifyOne` the one at the head of the chain; the others go on waiting |
| ConditionVariableCalls.EveryCallEnds | src/sync/condition_variable.h:62-124 | without further calls of its own a coroutine takes at most six steps and two for each waiter, six more each time it is resumed, and one for each spurious failure; no other compare-and-swap fails |
| AnyRace.StepKeeps | src/sync/any.h:74-155 | every step of the race keeps the invariant |
| AnyRace.ResumedAtMostOnce | src/sync/any.h:74-155 | at most one resumption and one final handler; when a resumption is on its way the result names the one winner |
| AnyRace.ResumedExactlyOnce | src/sync/any.h:74-83 | once a winner has finished, `await_suspend` returned false or one resumption was made, never both |
| AnyRace.ResumedWhere | src/sync/any.h:193-208 | the resumption is in `await_suspend` if the winner was inline, by the post to the executor if that is valid, and by the winner itself otherwise |
| AnyRace.QuietMeansResumed | src/sync/any.h:183-208 | when nothing can happen any more every task is finished and the coroutine was resumed exactly once |
| AnyRace.EveryRunEnds | src/sync/any.h:91-155 | the race is over after seven steps per task and three more |
| BarrierProtocol.StepKeeps | src/sync/condition.cpp:18-50 | every step of the threads, and every timely `Init`, keeps the invariant that relates `count_` to the arrivals of the round |
| BarrierProtocol.NobodyReturnsEarly | src/sync/barrier.cpp:13-21 | over any number of rounds, no `Wait` returns before all threads have arrived for that round, if `Init` is called between the rounds |
| BarrierProtocol.EverybodyReturns | src/sync/barrier.cpp:13-21 | when no step is left and all have arrived, every thread has returned and `count_` is full again; the condition still stands, unless `Init` has come since |
| BarrierProtocol.TwoThreadsMeet | src/sync/barrier.cpp:13-21 | a run in which two threads meet and a round ends |
| BarrierProtocol.RunsAreBounded | src/sync/condition.cpp:25-42 | only calls, spurious wakeups and `Init` can keep a run going |
| BarrierProtocol.OneResets | src/sync/barrier.cpp:13-21 | with any use of `Init`, and the counter going below zero, never two threads take themselves for the last one, in runs shorter than the counter has values |
| BarrierProtocol.ArrivalNeedsInit | src/sync/barrier.cpp:15-20 | in any state, an arrival returns ahead of the others exactly if the condition still stands from the round before |
| BarrierProtocol.NextRoundNeedsInit | src/sync/barrier.cpp:8-21 | after a full round, nobody returns early in any run of the next exactly if `Init` was called in between |
| BarrierProtocol.InitTooEarly | src/sync/condition.cpp:18-34 | after an `Init` no `Wait` ever returns again exactly if some thread had not noticed the end of the round |
| BarrierProtocol.OneHasNotNoticed | src/sync/condition.cpp:25-34 | a run to a state in which one thread has returned and the other has not noticed the end of the round |
| MergeMap.MergeIdempotent | src/module/cfg/utils.cpp:9-44 | merging the same document again changes nothing |
| MergeMap.MergeAt | src/module/cfg/utils.cpp:22-43 | the merge is exact at every position: cut off, or the merge of the two nodes there |
| MergeMap.ExtValueWins | src/module/cfg/utils.cpp:30-34 | a position with a non-null value other than a map in `ext` has that value in the result |
| MergeMap.UntouchedValueStays | src/module/cfg/utils.cpp:26-28 | a position that `ext` neither defines nor cuts off keeps the value of `res` |
| MergeMap.OrderDoesNotMatter | src/module/cfg/utils.cpp:18-24 | pending pairs at positions none of which lies above another give the same document in any order |
| MergeMap.LevelSettles | src/module/cfg/utils.cpp:36-42 | replacing a pair by the pairs of its fields does not change what the pairs come to |
| MergeMap.Document.PushFields | src/module/cfg/utils.cpp:36-42 | one level is expanded in place: missing fields appear, one pair per field is pushed, none above another |
| MergeMap.Document.MergeMapNode | src/module/cfg/utils.cpp:9-44 | the loop ends and leaves the whole tree equal to the recursive merge |
| MergeLayers.CoveredMeaning | src/module/cfg/utils.cpp:22-43 | merging onto a document gives the merged one exactly if that has a value wherever the first has one, and equal tags where maps meet |
| MergeLayers.MergeAssociates | src/module/cfg/utils.cpp:22-43 | up to how nodes are absent, three layers can be merged in either order exactly if, where the middle has a value other than a map and the last a map, the last covers the first |
| MergeLayers.MergeAssociatesExactly | src/module/cfg/utils.cpp:22-43 | the same with null, unassigned and missing told apart |
| MergeLayers.NullIsNotMissing | src/module/cfg/utils.cpp:36-42 | an example on which the two differ |
| MergeLayers.NotAssociative | src/module/cfg/utils.cpp:30-34 | an example in which the order matters |
| KeyedList.ListNode.PushFront | src/module/cfg_processor.cpp:1228-1239 | appending and rotating puts the element in front of the unchanged list |
| KeyedList.ListNode.FindKey | src/module/cfg_processor.cpp:1102-1109 | the search finds the first element with the key, the end, or the first bad key before it |
| KeyedList.FindUnique | src/module/cfg_processor.cpp:1102-1109 | what the search returns is determined by the elements before that place |
| MergeList.MergeInto | src/module/cfg_processor.cpp:764-802 | both loops in place compute `MergeLists`, or fail as it does |
| MergeList.RemoveUnnamed | src/module/cfg_processor.cpp:785-802 | removing while walking keeps exactly the named elements, in order |
| MergeList.MergedKeys | src/module/cfg_processor.cpp:764-802 | the keys of the result are the surviving keys in their old order, then the new ones in order of first appearance |
| MergeList.MergedHasExtKeysOnce | src/module/cfg_processor.cpp:764-802 | with distinct keys in `res`, the result has exactly the keys of `ext`, each once |
| MergeList.MergedValue | src/module/cfg_processor.cpp:777-783 | the value of a key depends on the items with that key only |
| MergeList.MergedItem | src/module/cfg_processor.cpp:777-783 | if `ext` names no key twice, each item is merged by the handler into the element with its key, or is that element if there was none |
| MergeList.MergedItemAt | src/module/cfg_processor.cpp:741-748 | with maps, position by position: a value of the item wins, and what it neither defines nor cuts off stays |
| MergeList.MergeAccepted | src/module/cfg_processor.cpp:764-802 | a merge is accepted exactly if all elements of both lists have keys and the handler accepts the items key by key |
| MergeList.MapsAccepted | src/module/cfg_processor.cpp:741-748 | with maps nothing but a missing key fails |
| MergeList.MergeMapKeepsKey | src/module/cfg_processor.cpp:741-748 | the default handler keeps the key of an element |
| MergeList.MergeTwice | src/module/cfg_processor.cpp:750-803 | with distinct keys in `ext`, merging it again changes nothing, in any list and for any idempotent handler |
| MergeList.MergeNodeTwice | src/module/cfg_processor.cpp:750-803 | the same for the nodes, undefined and non-list ones included |
| SplitTrim.SplitAndTrim | src/utils/string.cpp:12-38 | the loop computes the non-blank trimmed pieces |
| SplitTrim.WordsAreClean | src/utils/string.cpp:20-35 | every word is non-empty, without separator, and has no blank at either end |
| SplitTrim.RoundTrip | src/utils/string.cpp:12-38 | splitting the join of a list gives the list back exactly if all its words are clean |
| SplitTrim.CleanWordsComeBack | src/utils/string.cpp:12-38 | clean words come back from their join |
| SplitTrim.PiecesBecomeWords | src/utils/string.cpp:12-38 | whatever blanks surround the words between the separators, and however many pieces are blank, the words come out in order |
| PatchMode.AnalyzePatchMode | src/module/cfg_processor.cpp:834-910 | the loop over the words computes `ModesOf`, panics included |
| PatchMode.AddWordMeaning | src/module/cfg_processor.cpp:854-895 | a word is accepted exactly if it is supported and its group is not present yet, and adds its mode |
| PatchMode.WordsMeaning | src/module/cfg_processor.cpp:854-909 | exactly which lists of words are accepted, and the modes they mean |
| PatchMode.OrderIsIrrelevant | src/module/cfg_processor.cpp:854-895 | the same words in another order mean the same or panic as well |
| PatchMode.ModesAreWellFormed | src/module/cfg_processor.cpp:897-909 | at most one new mode, at most one override mode, never two of delete, override and skip |
| PatchMode.TagMeansItsWords | src/module/cfg_processor.cpp:836-842 | a tag that joins clean words means what the words mean, in any order |
| PatchItems.TagAccepted | src/module/cfg_processor.cpp:854-907 | exactly which tags are accepted: known words, no two alike, no two of `delete`, `skip` and `override` |
| PatchItems.UntaggedItem | src/module/cfg_processor.cpp:1129-1139 | an item without a tag is merged into its element by the handler, in its place, and fails as the handler does |
| PatchItems.TaggedItem | src/module/cfg_processor.cpp:1129-1160 | what a tagged item does to the element with its key, word by word: replace in place, at the front or at the back, leave, delete, merge or panic |
| PatchItems.TaggedNewItem | src/module/cfg_processor.cpp:1111-1127 | what it does if there is none: add at the front or at the back, leave, or panic |
| PatchItems.EachItemAlone | src/module/cfg_processor.cpp:1090-1160 | in a patch that names no key twice every item does to its element what it would do alone, and the patch is accepted exactly if all its items would be |
| PatchItems.UntaggedMerges | src/module/cfg_processor.cpp:1058-1065 | with maps, position by position: a value of an untagged item wins, and what it neither defines nor cuts off stays |
| PatchList.PatchAt | src/module/cfg_processor.cpp:1129-1160 | an element is replaced, merged, moved, deleted or kept in place, as `PatchPresent` says, whose meaning is in the rows of `PatchItems` |
| PatchList.PatchItem | src/module/cfg_processor.cpp:1091-1160 | one turn of the loop computes `PatchOne`: tag first, then key, then search |
| PatchList.PatchInto | src/module/cfg_processor.cpp:1090-1160 | the loop in place computes `PatchAll`, or fails as it does |
| PatchList.CompareAndReplaceNode | src/module/cfg_processor.cpp:1241-1267 | the nested loops compute `CompareAndReplace` |
| PatchKeys.UnnamedElementsStay | src/module/cfg_processor.cpp:1091-1160 | elements that the patch does not name keep their values and their order among each other, through all moves |
| PatchKeys.PatchedKeys | src/module/cfg_processor.cpp:1091-1160 | keys stay distinct, and their order is the one that the tags ask for |
| PatchKeys.PatchedValue | src/module/cfg_processor.cpp:1111-1160 | the value of a key is what the items with that key make of it, one after the other |
| PatchWords.AbsentNeedsNew | src/module/cfg_processor.cpp:1111-1127 | on an existing list, an item without element is accepted exactly if it has a new mode, and becomes an element exactly if that is not `new.never` |
| PatchWords.AbsentInNode | src/module/cfg_processor.cpp:1067-1127 | the same for nodes: a list that does not exist either is created with the element, whatever the tag |
| PatchWords.AbsentNeedsNewWord | src/module/cfg_processor.h:194-206 | the same for tags: unless the list does not exist either, one of their words must be `new`, `new.front`, `new.back` or `new.never`, and one of the first three for the element to be added |
| PatchWords.MergeAloneFails | src/module/cfg_processor.h:202 | an element tagged `merge` that does not exist makes the program panic if the list exists, and is added if it does not |
| PatchWords.AcceptedCombinations | src/module/cfg_processor.cpp:901-907 | which of delete, skip and the overrides are accepted together: no two of delete, skip and plain override |
| PatchWords.DeleteTakesEffect | src/module/cfg_processor.cpp:1137-1151 | an existing element is deleted exactly if delete is asked for, and no override and no skip |
| PatchWords.DeleteIsIgnored | src/module/cfg_processor.cpp:901-907 | `delete+override.front` is accepted, and moves the element |
| PatchKeys.PatchAccepted | src/module/cfg_processor.cpp:1091-1160 | a patch is accepted exactly if all items have keys and, key by key, the items with that key are accepted |
| PatchTwice.ReplaceTwice | src/module/cfg_processor.cpp:1091-1147 | a patch whose items all carry an override tag that keeps places does the same twice as once, repeated keys or not |
| PatchTwice.OverrideTwice | src/module/cfg_processor.cpp:1091-1139 | so does a patch that overrides in place with or without tags, if it names no key twice |
| KeyMoves.OnlyMovedAll | src/module/cfg_processor.cpp:1111-1151 | a patch does to the order of any few keys what its items for these keys do |
| KeyMoves.SteadySettles | src/module/cfg_processor.cpp:1111-1151 | a steady patch brings the keys into an order that it leaves alone |
| KeyMoves.StaysExactly | src/module/cfg_processor.cpp:1129-1151 | a patch is accepted on the list of its own keys and leaves their order alone exactly if it neither removes nor refuses an element, moves none but its first item to the front, and moves to the back only its last ones |
| PatchSteady.SteadyTwice | src/module/cfg_processor.cpp:1091-1160 | a steady patch on which no key occurs twice does the same twice as once, with all modes |
| PatchSteady.IdempotentExactly | src/module/cfg_processor.cpp:1091-1160 | a patch that names no key twice is idempotent on all existing lists of distinct keys that accept it exactly if no item undoes itself (`Stable`) and no two are in the wrong order (`InOrder`) |
| PatchSteady.IdempotentWithMaps | src/module/cfg_processor.cpp:1058-1065 | the same, on existing lists, for the default handler, without conditions on what the items hold |
| PatchNodes.OwnItems | src/module/cfg_processor.cpp:1091-1160 | a patch leaves the list of its own items as it is exactly if its operations stay in place |
| PatchNodes.MissingList | src/module/cfg_processor.cpp:1073-1081 | a missing list becomes the patch, and the second time the patch meets its own items, unless its own tag says `override` |
| PatchNodes.NodeIdempotentExactly | src/module/cfg_processor.cpp:1067-1161 | a patch is idempotent on all nodes that accept it, missing lists included, exactly if it is no list, or its own tag says `override`, or it has none, is steady and stays in place on its own items |
| PatchNodes.NodeIdempotentWithMaps | src/module/cfg_processor.cpp:1058-1161 | the same for the default handler, without conditions on what the items hold |
| PatchNodes.AddedExactly | src/module/cfg_processor.cpp:1067-1127 | in a patch of many items, one whose element does not exist becomes an element with its own value exactly if the list does not exist either or it says `new`, `new.front` or `new.back` |
| PatchExamples.AddsThenDeletes | src/module/cfg_processor.cpp:1137-1151 | `new+delete` adds an element the first time and removes it the second |
| PatchExamples.AddsThenMoves | src/module/cfg_processor.cpp:1111-1139 | `new.back+override.front` adds an element behind the others and then moves it before them |
| PatchExamples.AddsBeforeMoved | src/module/cfg_processor.cpp:1111-1139 | after `override.front`, an item with `new+override` comes first the first time and second the second time |
| PatchExamples.MissingListTurns | src/module/cfg_processor.cpp:1073-1076 | two items with `override.front` are stored in a missing list in their order, and in the opposite order the second time |
| PatchExamples.MissingListLoses | src/module/cfg_processor.cpp:1073-1076 | `new.never+delete` is stored in a missing list, and removed the second time |
| PatchTwice.PatchNodeTwice | src/module/cfg_processor.cpp:1067-1161 | exactly when such a patch is idempotent on a node, missing lists and list tags included |
| PatchTwice.PatchSelf | src/module/cfg_processor.cpp:1073-1076 | a list patched with itself stays the same exactly if the first element of every key is also its last |
| PatchTwice.WordsThatReplace | src/module/cfg_processor.cpp:854-909 | which tags replace whole elements in place |
| PatchTwice.NewPlusOverrideReplaces | src/module/cfg_processor.h:194-209 | the documented combinations of adding and overriding are among them |
| PatchTwice.RepeatedKeyChanges | src/module/cfg_processor.cpp:1073-1076 | a missing list and a repeated key: the second application changes the list |
| ListUnion.UnionKeys | src/module/cfg_processor.cpp:1247-1263 | the old elements in order, then those of `ext` whose texts were not there, compared with the old list only |
| ListUnion.UnionIsDuplicateFree | src/module/cfg_processor.cpp:1247-1263 | no text is repeated exactly if the old list repeats none and `ext` repeats no new one |
| ListUnion.UnionTwice | src/module/cfg_processor.cpp:1247-1263 | adding the same list again changes nothing |
| Handlers.MapNodeWithSubList | src/module/cfg_processor.cpp:1163-1185 | the loop computes `SubLists`, in whatever order the map is walked; it fails exactly if some sub-list does |
| Handlers.SubListsAt | src/module/cfg_processor.cpp:815-826 | field by field: a list is left to its handler, and everything outside the lists is merged as by `MergeMapNode` |
| Handlers.Neutral | src/module/cfg_processor.cpp:750-762 | in every way of combining two nodes an undefined second one changes nothing, and the second replaces an undefined first one |
| Handlers.ListsInNodes | src/module/cfg_processor.cpp:1067-1091 | two lists are combined element by element within the node; what the tag of a patch that is a list does |
| Handlers.SubListsKeepKey | src/module/cfg_processor.cpp:684-688 | the handler made of it keeps the key of an element |
| Handlers.SubListsIdempotent | src/module/cfg_processor.cpp:805-827 | the handler is idempotent for every element whose lists are merged or patched idempotently |
| Handlers.MergeListAgain | src/module/cfg_processor.cpp:750-803 | merging a list of distinct keys again does nothing, on any list or on itself |
| Handlers.PatchListAgain | src/module/cfg_processor.cpp:1067-1161 | nor does patching with a list that says `override`, or whose items override in place and have distinct keys |
| Handlers.PatchedBackends | src/module/cfg_processor.cpp:979-983 | patched backends: types stay distinct, unnamed backends keep values and order |
| Handlers.MergedBackends | src/module/cfg_processor.cpp:684-688 | merging backends with distinct types, and distinct names in their lists, is idempotent |
| Handlers.BackendsIdempotentExactly | src/module/cfg_processor.cpp:979-983 | a patch of backends with plain lists inside is idempotent on all nodes exactly under the condition of `NodeIdempotentExactly` |
| Handlers.OptionsKeepKey | src/module/cfg_processor.cpp:985-997 | the handler for the options of topics and functions keeps the key, so the theorems on lists hold for it |
| Handlers.OptionsAt | src/module/cfg_processor.cpp:985-997 | both lists of the options are patched, each by its own, and everything else stays |
| Handlers.OptionsIdempotent | src/module/cfg_processor.cpp:985-997 | it is idempotent for options that have both lists, each of them plain |
| Workers.EarlierIsLess | plugin/example/monitor/worker.cc:34-42 | comparing the two fields compares the times, on normalised values |
| Workers.AddNanos | plugin/example/monitor/worker.cc:19-23 | adding a period carries into the seconds and stays normalised |
| Workers.Worker.UpdateWorkerTime | plugin/example/monitor/worker.cc:14-32 | exactly one period later if that has not passed, otherwise exactly one period after a new reading of the clock; the recursion ends |
| TimeWheelExecutors.TimeWheelExecutor.Pop | plugin/example/monitor/time_wheel_executor.cc:87-89 | removes the worker at the top although its time has changed, and restores the heap |
| TimeWheelExecutors.TimeWheelExecutor.Push | plugin/example/monitor/time_wheel_executor.cc:62-64 | adds a worker and keeps the heap |
| TimeWheelExecutors.TimeWheelExecutor.AddWorker | plugin/example/monitor/time_wheel_executor.h:26-32 | adds a worker and keeps the queue a heap of distinct workers |
| TimeWheelExecutors.TimeWheelExecutor.RunTop | plugin/example/monitor/time_wheel_executor.cc:80-89 | one turn runs a worker with the least time and is one step of the dispatching |
| TimeWheelExecutors.TimeWheelExecutor.ResetWorkerTime | plugin/example/monitor/time_wheel_executor.cc:49-65 | keeps the workers and makes each due exactly one period after a reading of the clock |
| TimeWheelExecutors.TimeWheelExecutor.Loop | plugin/example/monitor/time_wheel_executor.cc:67-98 | all turns together are a legal run of the dispatching from the state after the reset |
| BinaryHeap.RootIsLeast | plugin/example/monitor/time_wheel_executor.cc:80-81 | the worker at the top has the least time |
| TimeWheel.BurstCounts | plugin/example/monitor/time_wheel_executor.cc:79-95 | runs done and runs still due add up to the runs that were due |
| TimeWheel.AtMostTwice | plugin/example/monitor/time_wheel_executor.cc:79-95 | for one reading of the clock a worker with a positive period runs at most twice, whatever the others' periods, and exactly as often as due when the loop sleeps |
| TimeWheel.BurstsEnd | plugin/example/monitor/time_wheel_executor.cc:79-95 | if all due workers have positive periods, the runs before the next sleep are those that were due, at most two per worker |
| TimeWheel.ZeroPeriodSpins | plugin/example/monitor/worker.cc:16-18 | a due worker with period zero, wherever in the queue, keeps the loop running for any number of turns |
| TimeWheel.NeverSleeps | plugin/example/monitor/worker.cc:16-18 | from then on no run ever sleeps |
| TimeWheel.LoopSleepsExactly | plugin/example/monitor/time_wheel_executor.cc:79-95 | the turns before the next sleep are bounded, and a sleep can be reached, exactly if all due workers have positive periods |
| TimeWheel.EarliestFirst | plugin/example/monitor/time_wheel_executor.cc:80-82 | over the whole life of the loop, runs happen in the order of the times they were due |
| TimeWheel.WakeAdvances | plugin/example/monitor/worker.cc:14-32 | k runs take at least k - 1 periods |
| TimeWheel.KeepsPace | plugin/example/monitor/worker.cc:19-23 | over any run in which a worker is never late, k runs take exactly k periods |
| TimeWheel.StartsAgain | plugin/example/monitor/worker.cc:25-31 | a late worker starts again from the clock, and keeps its pace from there |
| TopicHz.TopicData.FeedTopic | src/common/topic_hz_calculator.cc:32-62 | the update in place is `Feed` |
| TopicHz.TopicData.Calculate | src/common/topic_hz_calculator.cc:83-126 | the numbers are `Reported` and a timeout clears the state; `GivenUpExactly` and `ReportMeaning` say what they are |
| TopicHz.RunHolds | src/common/topic_hz_calculator.cc:47-61 | after any run the window holds exactly the last gaps since the last reset, as kept by a history of all arrivals |
| TopicHz.WindowAfterAnyRun | src/common/topic_hz_calculator.cc:21-62 | the same from the state in which a topic starts |
| TopicHz.ReportUnits | src/common/topic_hz_calculator.cc:108-126 | gaps, deviation and threshold are reported in seconds exactly if there is no timeout, zeros aside |
| TopicHz.LateReport | src/common/topic_hz_calculator.cc:108-116 | an input on which a gap of a second is reported as 1000000000 |
| TopicHz.WindowSum | src/common/topic_hz_calculator.cc:54-61 | the window has min(window size, m - 1) gaps and they add up to the time between its first and its last message |
| TopicHz.MeanBetween | src/common/topic_hz_calculator.cc:90-100 | least gap, mean gap, greatest gap are in this order |
| TopicHz.DeviationMeaning | src/common/topic_hz_calculator.cc:94-97 | the deviation is not negative, and zero exactly if all gaps are equal |
| TopicHz.VarianceClosed | src/common/topic_hz_calculator.cc:94-97 | the variance in closed form, from count, sum and sum of squares of the gaps |
| TopicHz.GivenUpExactly | src/common/topic_hz_calculator.cc:99-116 | a topic is given up exactly if the silence exceeds two seconds and the mean gap plus five deviations, whoever computes them; deviation, threshold, least and greatest gap are what is reported |
| TopicHz.ReportMeaning | src/common/topic_hz_calculator.cc:90-126 | the rate times the time the window spans is the number of its gaps, in seconds |
| TopicHz.TimeoutForgets | src/common/topic_hz_calculator.cc:103-116 | a topic is given up only after two seconds of silence, and its next message starts a new window |
| TopicHz.RisingClock | src/common/topic_hz_calculator.cc:50-53 | with a clock that does not go back, messages never reset the window |
| TopicHz.NoneBeforeFirst | src/common/topic_hz_calculator.cc:47-53 | whatever the clock shows, no message that counts came before the first one after the last reset |
| TopicHz.ActiveFromFirstMessage | src/common/topic_hz_calculator.cc:35-37 | a topic is active from its first message on, timeouts or not |
| UniqueId.ThreadLocals.GenerateUniqueID | src/utils/uuid.cc:14-35 | one call is the one or two steps of its thread, and returns the id of the last |
| UniqueId.IdsAreDistinct | src/utils/uuid.cc:14-35 | up to 65536 blocks, all ids of all threads differ in every interleaving |
| UniqueId.IdsComeBack | src/utils/uuid.cc:18-24 | one block more, and an id comes back |
| UniqueId.UniqueExactly | src/utils/uuid.cc:14-35 | while no call is in progress, the ids are distinct exactly if at most 65536 blocks were taken |
| UniqueId.TooManyThreads | src/utils/uuid.cc:18-24 | 65537 threads that generate one id each get one twice |
| UniqueId.LargestBound | src/utils/uuid.cc:14-35 | ids are always unique up to a number of blocks exactly if it is at most 65536 |
| UniqueId.PackInjective | src/utils/uuid.cc:26-32 | thread id and count can be read back from an id |
| UniqueId.ProcessesDiffer | src/utils/uuid.cc:26-32 | no id of one process is an id of another, however many blocks they take |
| UniqueId.ConsecutiveIds | src/utils/uuid.cc:26-32 | within a block the ids of a thread are consecutive, and the process is their high half |
| UniqueId.BlocksAreUsedUp | src/utils/uuid.cc:18-24 | with fewer than 65536 blocks in all, a thread takes a further one only after 65535 ids of each before |

## Left out

- Memory ordering and object lifetime: atomic accesses are sequentially consistent, awaiters live until resumed.
- The nesting of coroutine stacks when a continuation is resumed inside `Unlock` or `Notify`: a resumed coroutine goes
  on as a participant of its own.
- `v1::Mutex`, `ScopedLock`, the thread context of `coroutine.h` and the unifex senders: wrappers over library code.
- Cancellation of tasks in `sync::any`: a task that is spawned always completes.
- `Condition::Fail` while threads wait in a barrier: the barrier theorems are about runs without it.
- ConditionVariableProtocol.NoLostWakeup: one condition per condition variable, and notifiers hold the mutex, because
  `Notify` reads an awaiter after resuming it.
- MutexHeap.Mutex.Unlock: the number of failing rounds is a parameter, any finite number; fairness of the scheduler is
  not modelled.
- TimeWheelExecutors.TimeWheelExecutor.Loop: the number of turns until shutdown is a parameter; `clock_nanosleep` may
  return at any time; overflow of `tv_nsec` for periods of centuries is not modelled.
- TimeWheelExecutors.TimeWheelExecutor.Pop: the sift of the standard library is written as the textbook one; neither
  compares the element that is removed.
- UniqueId.ThreadLocals.GenerateUniqueID: or-ing fields that do not overlap is written as adding them, and a process id
  is any natural number.
- TopicHz.TopicData.Calculate: doubles are reals, and the square root is a parameter; initialisation, the lookup of
  topics and `CalculateAll` are omitted.
- Handlers.MapNodeWithSubList: when several sub-lists throw, any of their errors may be the one reported.
- MergeList.MergeInto: an empty key field means the text of the element itself, as for patches; the program never
  merges lists with one.
- PatchSteady.IdempotentExactly: it is about patches that name no key twice, on lists of distinct keys; for patches
  that do there is `PatchTwice.ReplaceTwice`, when all items replace.
- PatchNodes.NodeIdempotentExactly: likewise; on nodes `PatchTwice.PatchNodeTwice` covers repeated keys, when all items
  replace.
- Handlers.OptionsIdempotent: options that leave out one of the two lists are not covered, since patching such
  options with themselves leaves an undefined field behind that was not there.
- MutexProgress.EveryLockEnds: how often others write `state_` in between, and how often a compare-and-swap fails for
  no reason, is up to the scheduler and not bounded; the same for `EveryUnlockEnds`.
- PatchList.PatchInto: what the document holds after a panic is not described, since the program ends.
- Reading and writing YAML, environment variables, positions in error messages, and duplicate or non-text keys of maps.
- The order of the fields of a map: fields have no order in the model.
- A null key of a list element counts as a bad key, as in versions of yaml-cpp that refuse to convert it.
- Node sharing: after an assignment the two documents share nodes in yaml-cpp; here they are values.
- The order in which the sections of a configuration are merged and patched, and the default configuration: long
  sequences of calls of the functions above.
- Module start-up, the AimRT wrappers, the database, `ctx/loop.cpp`, `SpinMutex`, the macro layers and the vendored
  stack-trace printer.
