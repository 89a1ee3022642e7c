# A verified model of opctl's run engine

opctl runs a tree of calls. The calls of a tree do not talk to each other: each publishes that it started and that
it ended, and composite calls, the kill cascade, the stored state and the command line's display all learn what
happened by subscribing to that stream. References and interpolated strings decide what a call gets as input. This
project models that engine and the parts of the client next to it, and proves what they keep over every run, every
input and every order of arrival.

## What is modelled

**The event bus.** `EventStore` is the durable log: a database sorted by key, the key of an event (its time in the
layout of section 5.1 of RFC 3339, with nanoseconds), and the listing that seeks and stops at the first foreign key.
`PubSub` is delivery as a state machine whose steps are the points where goroutines can interleave (write to the log,
fan out, register, open the snapshot, take a stored event, take a live event, close, give up, remove), and `Hub` is the
object whose methods are those steps and which is always in a state that a run of the machine reaches. `Events` is the
filter.

**Calls.** `CallTree` is a whole call tree in flight: one state per call, contexts that are cancelled downwards, and a
step for everything a call can do next; what a call is published as is tied to what its children were. `ParallelCaller`,
`SerialCaller` and `Loops` are the callers that run children and read their ends off a stream that may repeat events,
reorder unrelated ones, or close early; `Loops` keeps scopes on the heap because callers share them. `ParallelOverBus`
puts the parallel caller on top of the bus, with a clock, the launches and the late subscription as steps of one run.
`KillCascade` is the loop that passes a kill request on to the stored children of a call.

**State.** `StateStore` is the stored auths, the checkpoint, and replay after a crash at any point and in any time zone; and
the lookup that adding an auth waits for.

**Expressions.** `Interpolater` is the byte scanner with its backslash rule and nested references, and the grammar it
implements. `Reference` parses and evaluates paths such as `a.b[2].c`, against looking them up in the data itself.
`Reference.InterpolatedReference` joins the two.

**Client side.** `CallGraph` is the displayed tree as a value and `CallGraphNodes` the nodes on the heap. `Embedding`
turns directories into objects and `Recreation` turns objects into directories on another node. `ParamSatisfier` finds
an argument for every input of an op.

Loops of the source are loops, objects that update their fields are classes, and both are proved against functions on
values; the theorems are about those functions and the state machines.

## Where the code does not do what one would expect

Each of these is a lemma with a concrete case, beside the exact condition or the case in which the property holds.

* A subscription can be handed the same event twice (`PubSub.DeliveredTwice`). Two events of one instant are one entry of
  the log, so a subscription that comes later can lose the earlier one (`PubSub.OverwrittenIsLost`; exactly when is
  `PubSub.LostExactly`), and a parallel call then waits for an end that is not delivered
  (`ParallelOverBus.SameInstantBlocks`; exactly when is `ParallelOverBus.WaitsExactly`).
* A Since with a zone offset is compared by its wall-clock time (`EventStore.SeekIsRightIffUtc`).
* The twice delivered end of a child gives its needs back twice, and a call that is still needed is asked to be killed
  (`ParallelOverBus.KilledWhileNeeded`; exactly when is `ParallelCaller.KillDueMeans`).
* A parallel call whose channel closes after a child failed returns no error (`ParallelCaller.FailureUnseenWhenClosed`;
  what it returns for every stream is in `ParallelCaller.Call`).
* A parallel call whose child failed before another child was scheduled waits for an end that is never published
  (`CallTree.FailureCanBlockParallel`, `CallTree.NoopIsWaitedForForever`). A parallel call with no children waits for the
  end of any call (`ParallelCaller.NoChildrenWaitForAnyEnd`).
* A parallel loop that cannot interpret a later iteration can end before the iterations that it launched
  (`CallTree.LoopEndsBeforeItsIteration`).
* A call that panics is published as succeeded, and a parallel call above it takes it for that
  (`CallTree.PanicLooksLikeSuccess`; what outcomes tell is `CallTree.OutcomeTellsErrors`).
* The kill requests for a loop do not reach its iterations, which are stored as its siblings
  (`KillCascade.SiblingsAreSpared`); they are stopped only by the context that the killed loop cancels.
* A serial loop tests its index for equality, so a range that becomes shorter than the index never ends it
  (`Loops.ShrinkingRangeRunsOn`; exactly when a loop runs on is `Loops.RunsOnIffNoTestHolds`). The variable that a loop
  index shadowed comes back only if the index is written as a bare name (`Loops.IndexIsRestoredIffBare`).
* A node whose local time is ahead of UTC seeks past events that it has not applied when it restarts, and so loses them
  (`StateStore.AheadOfUtc`; exactly when is `StateStore.RecoversInOneZoneIff`). A node that restarts further ahead than
  before can bring a removed auth back (`StateStore.FurtherAhead`; exactly when is `StateStore.RecoversIffSafe`).
* Replaying an older auth event after a newer one restores what was removed (`StateStore.StaleRedeliveryRestores`;
  exactly when replay is harmless is `StateStore.SameLastWordsSameAuths`). Waiting for a blank auth entry never succeeds
  (`StateStore.AddedIsAnswerIffStored`).
* References panic: `$(a$)` always (`Reference.PanicsOnTrailingDollar`), `$(a/b)` if `a` is no directory
  (`Reference.PanicsOffDirectory`), `$(/b)` if the op has none (`Reference.PanicsWithNoDirectory`). Exactly which do is
  `Reference.InterpretPanicsIff`.
* The second delivery of a skipped call's end makes the display show it as run (`CallGraph.SkippedTwiceLooksRun`).
* A directory is serialized all the same if what its last entry holds takes it over 40 MiB (`Embedding.DirCanExceedLimit`;
  exactly when is `Embedding.OverLimitIffLastIs`); the limit on all arguments together does hold. The check that keys start
  with a slash lets every key through (`Recreation.SlashIsOptional`), against the error message it would give.

## Model

| member | source | states |
|---|---|---|
| `Events.IsRootCallIdExcludedByFilter` | sdks/go/node/pubsub/utils.go:7-22 | an event is excluded exactly if there is a root filter and its root is not in it |
| `Events.EveryKind` | sdks/go/node/pubsub/utils.go:24-42 | the kinds of events in that statement are all there are |
| `EventStore.EventKeyOrder` | sdks/go/node/pubsub/eventStore.go:31-46 | keys compare as the instants do and two instants never share a key, for UTC instants with four-digit years, given as their calendar digits |
| `EventStore.KeyIsDate` | sdks/go/node/pubsub/eventStore.go:13-44 | the key of an event is the prefix and its year, month, day, hour, minute, second and nanoseconds, each in its width, spelled in the layout of RFC 3339 |
| `EventStore.ZeroTimeIsYearOne` | sdks/go/node/pubsub/eventStore.go:55-58 | with no Since the listing seeks the beginning of year 1 |
| `EventStore.ZonedSeek` | sdks/go/node/api/handler/events/stream/handler.go:59-65 | a Since with a zone offset is sought by its wall-clock time: a stored key is before the seek key exactly if its UTC instant is before that time |
| `EventStore.SeekIsRightIffUtc` | sdks/go/node/pubsub/eventStore.go:55-63 | so the seek finds exactly the instants at or after Since exactly if the wall-clock time of the zone is that of UTC |
| `EventStore.LogIsChronological` | sdks/go/node/pubsub/eventStore.go:49-86 | reading stored events in key order is reading them in time order, one an instant |
| `EventStore.SetRecords` | sdks/go/node/pubsub/eventStore.go:31-46 | writing an event's key adds it to the log in its place, and replaces the event of that instant if there was one |
| `EventStore.SetHolds` | sdks/go/node/pubsub/eventStore.go:41-44 | after any write the database holds the new entry and exactly the earlier entries with another key, foreign ones included |
| `EventStore.RecordMembers` | sdks/go/node/pubsub/eventStore.go:31-46 | after a write the log holds the new event and every earlier one of another instant |
| `EventStore.ReplayMembers` | sdks/go/node/pubsub/eventStore.go:49-86 | a replay holds exactly the logged events at or after Since whose root is accepted |
| `EventStore.ReplayedByKind` | sdks/go/node/pubsub/utils.go:24-42 | for each kind of event, with the root that it names spelled out: a logged event is listed exactly if it is at or after Since, if there is one, and its root is among the filter's, if there are any; auth events count as of the empty guid |
| `EventStore.ReplayIsChronological` | sdks/go/node/pubsub/eventStore.go:49-86 | and holds them in time order |
| `EventStore.Scan` | sdks/go/node/pubsub/eventStore.go:49-86 | seek and prefix test over the sorted database, foreign keys included, send exactly that replay |
| `EventStore.SeekKey` | sdks/go/node/pubsub/eventStore.go:60-63 | the position is the first key at or after Since, and nothing before it belongs in the replay |
| `EventStore.Store.Add` | sdks/go/node/pubsub/eventStore.go:31-46 | keeps the database sorted and well keyed, and records the event |
| `EventStore.Store.List` | sdks/go/node/pubsub/eventStore.go:49-86 | sends the replay of the log for the filter |
| `PubSub.EveryRunKeepsInv` | sdks/go/node/pubsub/pubSub.go:53-156 | every interleaving keeps the log what its publications in order make of it, with no hypothesis on timestamps |
| `PubSub.EveryRunKeepsCount` | sdks/go/node/pubsub/pubSub.go:53-156 | every interleaving of publishers and subscribers, whatever timestamps they use, keeps the count of the copies of every event at every subscription |
| `PubSub.InLogIffSurvives` | sdks/go/node/pubsub/eventStore.go:31-46 | at every moment of every run an event is in the log exactly if it was published and nothing of its instant after it |
| `PubSub.NothingIsLost` | sdks/go/node/pubsub/pubSub.go:82-99 | at every moment an event at or after Since whose fan-out is done, and whose instant no other publication has, is in the snapshot, pending or delivered of every open subscription that took its snapshot and accepts its root |
| `PubSub.LostExactly` | sdks/go/node/pubsub/pubSub.go:82-121 | for every event, shared instants included: it is missing exactly if all its fan-outs came before the registration and a later publication of its instant came before the snapshot |
| `PubSub.OverwrittenIsLost` | sdks/go/node/pubsub/pubSub.go:82-121 | a run that loses one of two publications of one instant: both are fanned out, the subscription is drained, and the earlier was never received |
| `PubSub.AtMostTwice` | sdks/go/node/pubsub/pubSub.go:118-156 | at every moment any subscription has received an event at most once more often than it was published, nothing unpublished, and nothing from a root it does not accept |
| `PubSub.CopiesExactly` | sdks/go/node/pubsub/pubSub.go:82-141 | the exact count, at every moment after the snapshot of every open subscription: one for having been in the log at the snapshot, one for each fan-out after the registration |
| `PubSub.SnapshotRace` | sdks/go/node/pubsub/pubSub.go:82-99 | a publication between registration and snapshot is both in the snapshot and pending |
| `PubSub.DeliveredTwice` | sdks/go/node/pubsub/pubSub.go:82-138 | a run that hands one publication over twice |
| `PubSub.OfferAll` | sdks/go/node/pubsub/pubSub.go:126-140 | in any order of the map, every subscription that accepts the root gets one pending copy and no other changes |
| `PubSub.FannedOutByKind` | sdks/go/node/pubsub/pubSub.go:126-140 | for each kind of event: a fan-out adds one pending copy to a subscription in the map exactly if the event's root is among those of its filter, if it has any, and changes nothing else of it |
| `PubSub.Hub.Add` | sdks/go/node/pubsub/pubSub.go:121-121 | takes the state machine's step: logged, not yet fanned out |
| `PubSub.Hub.FanOut` | sdks/go/node/pubsub/pubSub.go:123-140 | takes the step: one goroutine per accepting subscription |
| `PubSub.Hub.Register` | sdks/go/node/pubsub/pubSub.go:82-84 | takes the step: what is fanned out from now on is offered to it |
| `PubSub.Hub.TakeSnapshot` | sdks/go/node/pubsub/pubSub.go:87-87 | takes the step: the snapshot is the replay of the log as it is now |
| `PubSub.Hub.TakeStored` | sdks/go/node/pubsub/eventStore.go:49-86 | takes the step: the consumer's stream grows by the next stored event |
| `PubSub.Hub.TakeLive` | sdks/go/node/pubsub/pubSub.go:93-98 | takes the step: the consumer's stream grows by one pending event, any of them |
| `PubSub.Hub.CloseDone` | sdks/go/node/pubsub/pubSub.go:108-110 | takes the step that lets waiting goroutines give up |
| `PubSub.Hub.GiveUp` | sdks/go/node/pubsub/pubSub.go:152-153 | takes the step: a waiting goroutine of a closed subscription is gone and its event was not handed over |
| `PubSub.Hub.Delete` | sdks/go/node/pubsub/pubSub.go:112-114 | takes the step that ends offers to the subscription |
| `PubSub.Hub.HasEverything` | sdks/go/node/pubsub/pubSub.go:53-156 | after any methods in any order, no open subscription of the object has lost an event that is alone in its instant |
| `PubSub.Hub.HasNothingTooOften` | sdks/go/node/pubsub/pubSub.go:53-156 | and none has received one more than once more often than it was published |
| `ParallelCaller.CountNeeds` | sdks/go/node/parallelCaller.go:64-70 | the table has exactly the names that some child needs, with how often they are needed |
| `ParallelCaller.NeedsTableCounts` | sdks/go/node/parallelCaller.go:64-70 | a name is in the table exactly if its total of needs is positive, and that total is its count |
| `Text.RefToNameOfRef` | sdks/go/opspec/ref.go:8-16 | the name inside the reference made of a name is that name, whatever it is, and a bare name is itself |
| `Text.HalfARefToName` | sdks/go/opspec/ref.go:9-11 | the start and the end of a reference are trimmed each by itself |
| `ParallelCaller.NeedsAreCountedByName` | sdks/go/node/parallelCaller.go:64-70 | with needs given as names and written as references or bare: a name is in the table exactly if some child needs it, with how often it is needed |
| `ParallelCaller.IndexChildren` | sdks/go/node/parallelCaller.go:78-90 | every child's ID leads to its own index, and a name to the last child so named |
| `ParallelCaller.NameIsOfLast` | sdks/go/node/parallelCaller.go:87-89 | of several children with one name it is the last that the name stands for |
| `ParallelCaller.BooksMean` | sdks/go/node/parallelCaller.go:145-159 | for every stream: counters are the declared needs less those given back, outputs are those of each child's last end, and the error flag is set exactly if some child's end carried an error |
| `ParallelCaller.LastOutputsAre` | sdks/go/node/parallelCaller.go:146-148 | of several delivered ends of a child the last one's outputs count |
| `ParallelCaller.RequestKills` | sdks/go/node/parallelCaller.go:161-177 | requests are published for exactly the named calls whose counter is below one, each once |
| `ParallelCaller.CounterIsOutstandingLessExcess` | sdks/go/node/parallelCaller.go:156-159 | for every stream a counter is the needs of children not ended, less what repeated ends gave back too often |
| `ParallelCaller.KillDueMeans` | sdks/go/node/parallelCaller.go:156-177 | for every stream a kill is requested exactly when a child has just ended, the call is needed by someone, and what is outstanding is no more than that excess |
| `ParallelCaller.KilledWhenNoLongerNeeded` | sdks/go/node/parallelCaller.go:156-177 | when each end is handled once: a kill is requested exactly for a call that is needed by someone, all of whom have ended; so never for one nobody needs |
| `ParallelCaller.KilledWhenAllWhoNeedItEnded` | sdks/go/node/parallelCaller.go:64-177 | in terms of names: the kill of a call is requested exactly if a child has just ended, and all children that need the call by a name which stands for it have ended, one at least |
| `ParallelOverBus.KilledByDuplicate` | sdks/go/node/parallelCaller.go:145-177 | when the one end of a child is delivered twice and nothing else yet, a call is asked to be killed exactly if that child has at least half of the needs for it |
| `ParallelOverBus.KilledWhileNeeded` | sdks/go/node/parallelCaller.go:145-177 | and a run of the bus delivers one end twice, after which a call is asked to be killed while a child that needs it runs |
| `ParallelOverBus.TwoNeedIt` | sdks/go/node/parallelCaller.go:64-70 | as when the call is needed by two others, once each |
| `ParallelCaller.SizesTellTheEnd` | sdks/go/node/parallelCaller.go:180-180 | comparing the sizes of two maps is testing that every child has ended |
| `ParallelCaller.Call` | sdks/go/node/parallelCaller.go:144-201 | returns at the first event at which all children have ended, with an error exactly if one carried an error and else the merged outputs; with nothing if the channel closes first; publishes exactly the due requests, each once; and has cancelled its children exactly if an end that it read carried an error |
| `ParallelCaller.FailureUnseenWhenClosed` | sdks/go/node/parallelCaller.go:144-201 | a stream that closes after a child failed and before all have ended leaves the call unfinished, so it returns no error |
| `ParallelCaller.OrderDoesNotMatter` | sdks/go/node/parallelCaller.go:144-201 | whatever order ends arrive in, however often, and whatever else arrives: the result depends on the children's ends alone |
| `ParallelCaller.LaterChildrenWin` | sdks/go/node/parallelCaller.go:184-189 | a variable has the value of the last child, in child order, that outputs it |
| `ParallelCaller.OnlyOutputsAppear` | sdks/go/node/parallelCaller.go:184-189 | and is there exactly if some child outputs it |
| `ParallelCaller.FinishesOnceAllEnded` | sdks/go/node/parallelCaller.go:180-196 | a call with children has finished by the time all of them ended |
| `ParallelCaller.NoChildrenWaitForAnyEnd` | sdks/go/node/parallelCaller.go:180-196 | a call with no children is unfinished exactly as long as no end of any call has been read |
| `ParallelOverBus.EveryRunKeeps` | sdks/go/node/parallelCaller.go:72-130 | every interleaving of the clock, the launches, the ends of the children and the bus keeps that no end is from before startTime and that the subscription is made after all launches |
| `ParallelOverBus.EndsAsReturned` | sdks/go/node/caller.go:122-157 | in every run the end that a child makes names its call and carries what it returned, once and for all |
| `ParallelOverBus.SinceIsEarlyEnough` | sdks/go/node/parallelCaller.go:72-130 | so the filter lets every end through that a child has made, however long before the call subscribed |
| `ParallelOverBus.EveryEndArrives` | sdks/go/node/parallelCaller.go:72-201 | subscribing after launching loses no end: once the ends are fanned out, each alone in its instant, and nothing is left to hand over, the call has finished |
| `ParallelOverBus.WaitsExactly` | sdks/go/node/parallelCaller.go:72-201 | and in general, with nothing left to hand over, it is still waiting exactly if a child has made no end or the subscription was passed by it: no fan-out after the registration, not in the log at the snapshot |
| `ParallelOverBus.SameInstantBlocks` | sdks/go/node/parallelCaller.go:72-201 | a run in which two children end in one instant before the call registers, both ends are fanned out, and the call waits for the first |
| `ParallelOverBus.FinishIsDecided` | sdks/go/node/parallelCaller.go:144-201 | at every moment of every run of the bus, for every subscription: once an end of each child has been read the result is decided by their ends, whatever is pending |
| `ParallelOverBus.CallOverBus` | sdks/go/node/parallelCaller.go:72-201 | at every moment of every run: if the call has finished, every child has ended and the result is the merge in child order or an error exactly if a child failed; and when it is drained it has finished exactly if no end is missing as above |
| `CallTree.EveryRunKeepsInv` | sdks/go/node/caller.go:97-300 | every interleaving of calls, kills and cancellations keeps what is known of every call |
| `CallTree.EventDiscipline` | sdks/go/node/caller.go:105-205 | all that was ever published about a call: nothing if its context was done, else at most one start, exactly if it was interpreted and not skipped, and after it exactly one end once it returned or panicked |
| `CallTree.InterpretationDecides` | sdks/go/node/caller.go:162-205 | a call is published as started exactly if there is a call, of a valid kind, that could be interpreted and is not skipped; otherwise it returns, with an error exactly if it could not be interpreted or is of no kind |
| `CallTree.OutcomeTellsErrors` | sdks/go/node/caller.go:122-157 | in every run the published outcome of a call is killed if its own kill was requested, and only if that or the context above it is done; otherwise it is failed exactly if there was an error; so a call that panicked is never published as failed |
| `CallTree.ParallelFailsIffAChildDid` | sdks/go/node/parallelCaller.go:144-201 | in every run a parallel call or loop whose body returned, and that was not killed, is published as failed exactly if, before that, one of the children it launched was |
| `CallTree.OthersStopAtAFailure` | sdks/go/node/serialCaller.go:92-106 | in every run a serial call, a serial loop or an op whose child was published as failed is failed itself and has called nothing after that child, unless it was killed or panicked |
| `CallTree.SucceedsOnceAllAreCalled` | sdks/go/node/serialCaller.go:66-110 | in every run a serial or a parallel call whose body succeeded has called all its children |
| `CallTree.CallsWhatItIsMadeOf` | sdks/go/node/caller.go:247-300 | in every run the k-th call that a call makes is the k-th of its children, the body of an op, or the body of a loop |
| `CallTree.BelowIsCutOff` | sdks/go/node/caller.go:97-144 | once a call is killed, or the children of a parallel one are cancelled, a call at any depth below does nothing if it starts, and is published as killed if it ends |
| `CallTree.FailureCutsOff` | sdks/go/node/parallelCaller.go:149-154 | in every run that is so once a parallel call or loop has heard of a child that failed |
| `CallTree.ChildrenEndFirst` | sdks/go/node/caller.go:110-300 | a call that was not killed, and whose launching neither failed nor panicked, published its end after the end of every call it launched |
| `CallTree.SubtreeEndsFirst` | sdks/go/node/caller.go:110-300 | and where that holds all the way down, after the end of every call below it at any depth |
| `CallTree.LoopEndsBeforeItsIteration` | sdks/go/node/parallelLoopCaller.go:79-96 | a run in which a parallel loop ends while its first iteration runs |
| `CallTree.PanicLooksLikeSuccess` | sdks/go/node/parallelCaller.go:92-119 | a run in which the only child of a parallel call panics and both are published as succeeded |
| `CallTree.FailureCanBlockParallel` | sdks/go/node/caller.go:105-108 | a run in which a parallel call waits for a child that found its context done and published nothing |
| `CallTree.NoopIsWaitedForForever` | sdks/go/node/parallelCaller.go:144-199 | from there on, in every run, the call does not return unless it is killed or the context above it is done |
| `CallTree.EndsAreEnough` | sdks/go/node/parallelCaller.go:180-196 | otherwise, once all its children have ended, it can return |
| `CallTree.Call` | sdks/go/node/caller.go:97-300 | the events and the return value of one call, with the outcome killed, failed or succeeded, an error in the event only if failed, a bare call if interpretation gave none, and the end published even if interpretation or the body panics |
| `KillCascade.ListWithParentId` | sdks/go/node/stateStore.go:175-186 | each stored call with that parent once, in any order of the map |
| `KillCascade.ChildrenWeighLess` | sdks/go/node/callKiller.go:41-73 | handling a request strictly lowers the weight that is pending, even if every request it publishes is delivered twice |
| `KillCascade.Kill` | sdks/go/node/callKiller.go:41-73 | requests the kill of exactly the stored children, once each, and lowers the pending weight |
| `KillCascade.Cascade` | sdks/go/node/core.go:102-114 | ends, whatever the order in which requests arrive; requests the kill of the target and exactly its stored descendants, once each if each request arrives once |
| `KillCascade.ParentOutOfReach` | sdks/go/node/callKiller.go:41-73 | the target's parent is never requested |
| `KillCascade.SiblingsAreSpared` | sdks/go/node/serialLoopCaller.go:92-100 | a loop's iterations carry the loop's parent, so killing the loop requests none of them |
| `StateStore.LastWordDecides` | sdks/go/node/stateStore.go:128-149 | whatever was delivered, in whatever order and how often: a key holds what the last delivered event on it left |
| `StateStore.SameLastWordsSameAuths` | sdks/go/node/stateStore.go:67-80 | a delivery sequence stores the same auths as the log exactly if both have the same last event for every key |
| `StateStore.StaleRedeliveryRestores` | sdks/go/node/stateStore.go:56-58 | a late repetition of an older event brings a removed auth back |
| `StateStore.ReplayWindow` | sdks/go/node/stateStore.go:53-58 | in UTC a replay starts at least two and less than three seconds before the last applied event, and in a zone ahead of UTC that much later |
| `StateStore.EveryRunKeepsInv` | sdks/go/node/stateStore.go:50-126 | every sequence of publications, deliveries, checkpoint writes and restarts in safe zones keeps the recovery invariant; events that change no auth may come late |
| `StateStore.Recovery` | sdks/go/node/stateStore.go:50-126 | after any of them, applying the rest of the log to what is stored gives what folding the whole log once gives |
| `StateStore.RecoversIffSafe` | sdks/go/node/stateStore.go:50-126 | given the zones of a node's starts in turn, this holds of every run exactly if no restart is more than two seconds ahead of UTC and none is further ahead than the start before it |
| `StateStore.RecoversInOneZoneIff` | sdks/go/node/stateStore.go:100-113 | for a node that stays in one zone: exactly if its local time is at most two seconds ahead of UTC |
| `StateStore.AheadOfUtc` | sdks/go/node/stateStore.go:53-109 | a run that loses an event of the checkpointed second when the node restarts three or more seconds ahead of UTC |
| `StateStore.FurtherAhead` | sdks/go/node/stateStore.go:53-109 | a run that brings a removed auth back when the node restarts further ahead than before |
| `StateStore.RestartRecovers` | sdks/go/node/stateStore.go:50-126 | so does replaying from the checkpoint in a safe zone, wherever the crash fell between an application and its checkpoint |
| `StateStore.Store.ApplyDelivered` | sdks/go/node/stateStore.go:67-149 | stores the fold of what was delivered and leaves the checkpoint of the last event |
| `StateStore.AppliedIsWellKeyed` | sdks/go/node/stateStore.go:128-149 | after any events every auth is stored under its own lower-cased resources |
| `Text.LowerForgetsCase` | sdks/go/node/stateStore.go:137-146 | lower-casing makes two ASCII strings equal exactly if they differ in the case of letters only |
| `Text.LowerHasNoUpper` | sdks/go/node/stateStore.go:137-146 | lower-casing leaves no upper-case letter |
| `StateStore.CaseMakesNoDifference` | sdks/go/node/stateStore.go:128-272 | references that differ in case only are answered alike, and an auth event writes or deletes the entry of a resource in whatever case either is given |
| `StateStore.TryGetAuth` | sdks/go/node/stateStore.go:233-286 | returns the longest non-blank stored prefix of the reference, in any order of the keys |
| `StateStore.BestMatchIsUnique` | sdks/go/node/stateStore.go:252-272 | there is only one |
| `StateStore.AddedIsAnswerIffStored` | sdks/go/node/addAuth.go:38-42 | the lookup answers with the added entry exactly if that is stored and not blank |
| `StateStore.AwaitStored` | sdks/go/node/addAuth.go:28-48 | the wait succeeds exactly if the entry is stored at some tick and is not blank |
| `Interpolater.TryDeRef` | sdks/go/opspec/interpreter/interpolater/interpolate.go:77-121 | reads a nested reference as the grammar does, never past its input, in at most twice as many iterations at all levels as bytes; the fallback for a closer with no opener is unreachable |
| `Interpolater.Interpolate` | sdks/go/opspec/interpreter/interpolater/interpolate.go:21-71 | gives the grammar's value in at most twice as many iterations as bytes, flushing of backslashes included |
| `Interpolater.TemplatesAreEvaluated` | sdks/go/opspec/interpreter/interpolater/interpolate.go:21-121 | every well-formed template, printed and interpolated in any scope, has its value |
| `Interpolater.InterpolationFollowsGrammar` | sdks/go/opspec/interpreter/interpolater/interpolate.go:21-121 | and every byte string is the print of one, so interpolation is the evaluation of what the string spells |
| `Interpolater.EscapeRoundTrip` | sdks/go/opspec/interpreter/interpolater/interpolate.go:29-70 | every byte string can be expressed: interpolating its escaped form gives it back in every scope |
| `Interpolater.NoDollarNoChange` | sdks/go/opspec/interpreter/interpolater/interpolate.go:29-70 | a string with no dollar sign is left as it is, whatever its backslashes |
| `Reference.IndexRoundTrip` | sdks/go/opspec/interpreter/reference/identifier/bracketed/item/parseIndex.go:9-35 | a printed index hits what it counts to, from the front or from the end, and nothing out of range |
| `Reference.ParseIntIff` | sdks/go/opspec/interpreter/reference/identifier/bracketed/item/parseIndex.go:14-21 | an index is parsed exactly if it is a decimal within 64 bits, perhaps with a sign and leading zeros, and then to that integer |
| `Reference.ItemsCountFromBothEnds` | sdks/go/opspec/interpreter/reference/identifier/bracketed/interpret.go:17-56 | an index in brackets gives the typed value of that item of an array, or an error |
| `Reference.SplitIsUnique` | sdks/go/opspec/interpreter/reference/identifier/unbracketed/parse.go:5-18 | the identifier is the longest start with no delimiter |
| `Reference.ParseIdentifier` | sdks/go/opspec/interpreter/reference/identifier/unbracketed/parse.go:5-18 | the scan finds that split |
| `Reference.EvaluateNested` | sdks/go/opspec/interpreter/reference/interpret.go:85-119 | one nested reference is replaced by its value and strictly more of the text is behind the scan |
| `Reference.InterpolateRef` | sdks/go/opspec/interpreter/reference/interpret.go:76-127 | the scan replaces nested references as the recursive reading does |
| `Reference.InterpretPanicsIff` | sdks/go/opspec/interpreter/reference/interpret.go:40-227 | a reference panics exactly if the scan gets to a last dollar sign or to a nested reference that panics, or what the scan gives panics when it is evaluated |
| `Reference.NestedPanicsIff` | sdks/go/opspec/interpreter/reference/interpret.go:76-127 | the first half of that, for the scan of nested references by itself |
| `Reference.EvaluatePanicsIff` | sdks/go/opspec/interpreter/reference/interpret.go:129-227 | a reference with nothing nested panics exactly if it starts at `/`, `./` or `../` and that is no directory in scope, or a path that it starts with leads to a value from which the next step cannot be taken: a slash off a value that is no directory, or any step off nil |
| `Reference.PanicsOnTrailingDollar` | sdks/go/opspec/interpreter/reference/interpret.go:86-87 | any name that ends with a dollar sign panics, whatever is in scope |
| `Reference.PanicsOffDirectory` | sdks/go/opspec/interpreter/reference/direntry/interpret.go:26-26 | a slash after a variable that is no directory panics |
| `Reference.PanicsWithNoDirectory` | sdks/go/opspec/interpreter/reference/interpret.go:134-137 | a reference that starts with a slash panics if no such directory is in scope |
| `Reference.WholeIsInterpreted` | sdks/go/opspec/interpreter/interpolater/interpolate.go:77-121 | a string that is one reference, with nothing nested in it, interpolates to what interpreting the reference gives, so these references panic inside strings as well |
| `Reference.InterpretFinds` | sdks/go/opspec/interpreter/reference/interpret.go:40-227 | against looking paths up in native data, by member and by index from either end, through JSON in strings and files: a reference is the variable, or the typed value made of what its path leads to in the variable's data, and an error exactly if the variable is missing or has no data, or nothing or null is there |
| `Reference.EntersDirectory` | sdks/go/opspec/interpreter/reference/direntry/interpret.go:22-36 | a slash after a variable that is a directory gives the directory or the file at the joined path, and an error if there is neither |
| `Reference.EntersOwnDirectory` | sdks/go/opspec/interpreter/reference/interpret.go:134-147 | so does a reference that starts at `/`, `./` or `../`, with the rest of it as the path in that directory |
| `Reference.NestedStandsForText` | sdks/go/opspec/interpreter/reference/interpret.go:76-127 | a reference with another nested in it is the reference that has the text of that one's value in its place |
| `Reference.InterpolatedReference` | sdks/go/opspec/interpreter/interpolater/interpolate.go:77-121 | a string that is one reference interpolates to the text of the value its path leads to |
| `Reference.InterpolatedVariable` | sdks/go/data/coerce/toString.go:13-62 | in a string a variable's reference becomes its text: of a string itself, of a file its content, of a truth value its name, of nil nothing, of numbers, arrays and objects JSON; directories and sockets have none |
| `Reference.InterpolatedData` | sdks/go/data/coerce/toString.go:13-62 | and a reference with a path becomes the text of what native data has at the end of that path |
| `CallGraph.InsertSucceeds` | cli/internal/opgraph/callgraph.go:37-59 | inserting succeeds exactly if the parent can be found |
| `CallGraph.InsertAddsOne` | cli/internal/opgraph/callgraph.go:37-59 | it adds one node with the call's ID and none with any other |
| `CallGraph.InsertKeepsRecords` | cli/internal/opgraph/callgraph.go:37-59 | a new ID finds the new record and every other ID finds what it found before |
| `CallGraph.InsertKeepsLinks` | cli/internal/opgraph/callgraph.go:46-51 | every node still hangs under the node that its parent ID names |
| `CallGraph.MarkChangesOne` | cli/internal/opgraph/callgraph.go:243-249 | ending a call changes the one record that its ID finds, and moves, adds or removes nothing |
| `CallGraph.GraphIsTree` | cli/internal/opgraph/callgraph.go:230-252 | after any events at all: at most one root, with no parent, and every other node under its parent |
| `CallGraph.RefusedExactly` | cli/internal/opgraph/callgraph.go:230-252 | for any graph and event: refused are exactly a second root, an end that names no parent of a call that is not there, and a call whose parent is not there; none of these changes anything, nor does what comes before the root |
| `CallGraph.GraphIsTheTrace` | cli/internal/opgraph/callgraph.go:230-252 | on a trace in which calls start once, after their parent and before they end, the tree holds each call of the trace once, in the state its own events left it in, and no other; nothing is refused but the end of an unknown call that names no parent, which changes nothing |
| `CallGraph.SkippedTwiceLooksRun` | cli/internal/opgraph/callgraph.go:239-249 | the second delivery of a skipped call's end replaces the skipped state |
| `CallGraph.CountChildrenCountsLeaves` | cli/internal/opgraph/callgraph.go:77-87 | the count is that of the leaves strictly below |
| `CallGraphNodes.Node.Insert` | cli/internal/opgraph/callgraph.go:37-59 | a new node is appended to the children of the first node with the parent's ID, and no other node is touched |
| `CallGraphNodes.Node.Find` | cli/internal/opgraph/callgraph.go:61-71 | the first node with the ID, depth first, or null if there is none |
| `CallGraphNodes.Node.CountChildren` | cli/internal/opgraph/callgraph.go:77-87 | counts what the tree of values counts |
| `CallGraphNodes.CallGraph.HandleEvent` | cli/internal/opgraph/callgraph.go:230-252 | the nodes on the heap form no cycle and share nothing, and the tree they stand for becomes what the event makes of it |
| `Embedding.FileOrDirPathToObject` | sdks/go/node/api/client/embedLocalFilesAndDirs.go:52-99 | succeeds exactly if everything can be read and passes its limit, with the object of the tree and the sum of all its file sizes |
| `Embedding.EmbeddableIff` | sdks/go/node/api/client/embedLocalFilesAndDirs.go:52-99 | a tree can be embedded exactly if everything in it can be read, every file is less than 40 MiB, and every directory entry reports no more than what its earlier siblings left of 40 MiB |
| `Embedding.TotalSizeIsOfContents` | sdks/go/node/api/client/embedLocalFilesAndDirs.go:60-99 | the size that is returned is the length of the contents of all files together |
| `Embedding.WithinLimitBeforeLast` | sdks/go/node/api/client/embedLocalFilesAndDirs.go:82-97 | before the last entry nothing takes a serialized directory over the limit |
| `Embedding.OverLimitIffLastIs` | sdks/go/node/api/client/embedLocalFilesAndDirs.go:82-97 | a serialized directory is over the limit exactly if its last entry holds more beyond the size it reports than was left of the limit |
| `Embedding.HonestLastIsWithinLimit` | sdks/go/node/api/client/embedLocalFilesAndDirs.go:87-89 | if the last entry reports the size of what is behind it, a serialized directory is within the limit |
| `Embedding.DirCanExceedLimit` | sdks/go/node/api/client/embedLocalFilesAndDirs.go:82-97 | a subdirectory's own entry does not, and one that comes last exceeds the limit unnoticed |
| `Embedding.CombinedSizeAnyOrder` | sdks/go/node/api/client/embedLocalFilesAndDirs.go:25-47 | the combined size does not depend on the order of the map |
| `Embedding.CanEmbedIff` | sdks/go/node/api/client/embedLocalFilesAndDirs.go:26-38 | only directories and files are embedded, and count with what is at their path |
| `Embedding.Args.EmbedLocalFilesAndDirs` | sdks/go/node/api/client/embedLocalFilesAndDirs.go:22-49 | in any order of the map: succeeds exactly if every argument can be embedded and all together are at most 40 MiB; then each file or directory is replaced by its object and no other argument changes; after a failure each argument is as it was or embedded |
| `Recreation.Disk.CreateDir` | sdks/go/internal/unsudo/createDir.go:10-36 | succeeds exactly if no file is in the way, then every prefix of the path exists; else nothing changed |
| `Recreation.Disk.CreateFile` | sdks/go/internal/unsudo/createFile.go:9-22 | succeeds exactly if no file is in the way and no directory is in its place, then the file has the data; else nothing changed |
| `Recreation.Disk.RCreateFileItem` | sdks/go/data/coerce/toDir.go:58-101 | success means every item says whether it is a file or a directory; a serialized tree with room for it is laid out in full; a file is never written over a directory |
| `Recreation.Disk.CreateItems` | sdks/go/data/coerce/toDir.go:83-98 | the order in which the keys are ranged over makes no difference to what is laid out |
| `Recreation.Disk.ToDir` | sdks/go/data/coerce/toDir.go:15-56 | a directory is itself, an object becomes a directory of its own, a file's object or anything else is refused |
| `Recreation.SlashIsOptional` | sdks/go/data/coerce/toDir.go:84-88 | a key names the same item with a slash before it and without |
| `Recreation.JoiningCleans` | sdks/go/data/coerce/toDir.go:63-88 | joining drops empty parts and dots, and two dots take back the name before them, or stay only in front of a relative path |
| `Recreation.FilesAreInTree` | sdks/go/data/coerce/toDir.go:58-101 | the files that are laid out are those of the tree, at their paths, with their contents, entries named data included |
| `Recreation.LaidIsSameTree` | sdks/go/data/coerce/toDir.go:58-101 | below the new directory a path is a file exactly if it is one in the tree, with the same content, and a directory exactly if a file is below it or it is the top |
| `Recreation.PathTextNames` | sdks/go/data/coerce/toDir.go:38-48 | the path that is returned, split at its slashes, names the directory that was created |
| `Recreation.SendDir` | sdks/go/node/api/client/embedLocalFilesAndDirs.go:52-99 | serialized on the client and recreated on the node, a directory within the limits arrives with the same files at the same paths with the same contents and nothing else, empty directories apart |
| `ParamSatisfier.InputSource.ReadString` | cli/internal/cliparamsatisfier/inputsrc/slice/slice.go:32-42 | every source answers once: after that it has no answer for the name, and its answers for other names are what they were |
| `ParamSatisfier.FreshAnswers` | cli/internal/cliparamsatisfier/inputsrc/paramdefault/paramDefault.go:24-62 | what sources answer when first asked: a string of the file or anything else there as JSON, a variable that is not blank, and of defaults only a relative path of a file or a directory |
| `ParamSatisfier.NewArgSlice` | cli/internal/cliparamsatisfier/inputsrc/slice/slice.go:8-25 | a name has the value of the last argument with that name before its first separator |
| `ParamSatisfier.LastArgWins` | cli/internal/cliparamsatisfier/inputsrc/slice/slice.go:14-25 | of several arguments with one name the last one's value counts, and there is none exactly if no argument has the name |
| `ParamSatisfier.SplitsAtFirst` | cli/internal/cliparamsatisfier/inputsrc/slice/slice.go:15-20 | no separator starts before the one that splits the argument, so values may contain it |
| `ParamSatisfier.InputSourcer.Source` | cli/internal/cliparamsatisfier/inputSourcer.go:32-41 | the first answer in order of precedence; it and the sources before it are used up for the name, later ones are not |
| `ParamSatisfier.EarliestSettles` | cli/internal/cliparamsatisfier/cliParamSatisfier.go:58-154 | a parameter is settled by the earliest value that converts and validates, unless an expression default comes first, and is unsatisfied only if there is neither |
| `ParamSatisfier.SatisfiedIff` | cli/internal/cliparamsatisfier/cliParamSatisfier.go:58-154 | a parameter gets a value exactly if that is what the first answer that ends the search says for the parameter's kind, and it validates |
| `ParamSatisfier.UnsatisfiedIff` | cli/internal/cliparamsatisfier/cliParamSatisfier.go:58-154 | it is left to the op exactly if that answer is a default expression, and unsatisfied exactly if no answer ends the search |
| `ParamSatisfier.SatisfyParam` | cli/internal/cliparamsatisfier/cliParamSatisfier.go:57-154 | asking again terminates, since fewer sources can still answer each time, and settles the parameter that way |
| `ParamSatisfier.GetSortedParamNames` | cli/internal/cliparamsatisfier/cliParamSatisfier.go:160-183 | every name once, alphabetically, but user name before password if there are just these two |
| `ParamSatisfier.Satisfy` | cli/internal/cliparamsatisfier/cliParamSatisfier.go:48-158 | every parameter is settled on its own merits; the first in order that is unsatisfied fails them all, otherwise exactly the values found are returned |
| `ParamSatisfier.FirstUnsatisfiedIs` | cli/internal/cliparamsatisfier/cliParamSatisfier.go:61-64 | the error names the first unsatisfied parameter, and there is none exactly if all are settled |
| `ParamSatisfier.RecordedMeans` | cli/internal/cliparamsatisfier/cliParamSatisfier.go:147-150 | an argument is recorded exactly for the parameters that a value satisfied, with that value |
| `Sorting.ListingIsUnique` | sdks/go/opspec/interpreter/call/loop/iteration/scope.go:12-22 | a set has one order, so sorting gives the same keys whatever order the map is ranged over in |
| `SerialCaller.AwaitEnd` | sdks/go/node/serialCaller.go:92-106 | stops at the first event that ends the child, and at the close of the stream if there is none |
| `SerialCaller.Call` | sdks/go/node/serialCaller.go:46-111 | over any stream the calls made and the result are those of the recursive reading, in which a closed stream lets the next child be called |
| `SerialCaller.SerialIsFold` | sdks/go/node/serialCaller.go:57-110 | if each child's end is delivered at least once after its call, with anything else in between, the result is the left fold of the children's outputs over the inbound scope |
| `SerialCaller.CalledInOrder` | sdks/go/node/serialCaller.go:82-90 | with no failure before it, each child is called with the fold of the outputs before it |
| `SerialCaller.LaterOutputsWin` | sdks/go/node/serialCaller.go:101-103 | in that fold a variable has the value of the last child that outputs it |
| `SerialCaller.OthersStay` | sdks/go/node/serialCaller.go:54-57 | and is as it was inbound if none does |
| `SerialCaller.FirstFailureDecides` | sdks/go/node/serialCaller.go:97-100 | the first failing child's error is the result and no later child is called |
| `SerialCaller.EachIsCalledOnce` | sdks/go/node/serialCaller.go:73-110 | over any stream children are called in order, each once, and all of them unless one fails |
| `SerialCaller.ClosedLetsTheNextBeCalled` | sdks/go/node/serialCaller.go:92-108 | a stream that closes before a child's end lets the next child be called with the outputs so far |
| `Loops.ScopeIteration` | sdks/go/opspec/interpreter/call/loop/iteration/scope.go:25-107 | with no loop variables the scope is the very map that was given, else a new one with index, key and value bound and the given one unchanged |
| `Loops.BindsIndexOnly` | sdks/go/opspec/interpreter/call/loop/iteration/scope.go:43-80 | with no range, or past its end, the index variable is bound to the index as a number and every other variable is as it was |
| `Loops.NoRangeNoScope` | sdks/go/opspec/interpreter/call/loop/iteration/scope.go:56-64 | the range is evaluated with the index bound, and if it cannot be there is no scope |
| `Loops.BindsItem` | sdks/go/opspec/interpreter/call/loop/iteration/scope.go:68-107 | in an array the index is bound so, and the value variable to what the item of that index is interpreted as there |
| `Loops.BindsMember` | sdks/go/opspec/interpreter/call/loop/iteration/scope.go:76-107 | in an object also the key variable, to the key that has as many smaller ones as the index says |
| `Loops.KeyAt` | sdks/go/opspec/interpreter/call/loop/iteration/scope.go:12-22 | every key is visited at the index that is the number of smaller keys |
| `Loops.EveryKeyOnce` | sdks/go/opspec/interpreter/call/loop/iteration/scope.go:76-91 | an object's keys are visited once each, and all of them |
| `Loops.SerialLoopCall` | sdks/go/node/serialLoopCaller.go:49-162 | the run is that of the recursive reading; with no loop variables the caller's own map holds what the bodies did, by their outputs and by writing into it themselves, even after a failure, and with loop variables it is unchanged |
| `Loops.FirstEndDecides` | sdks/go/node/serialLoopCaller.go:110-128 | the first end of a body decides: its error ends the loop, and else its outputs are laid over what the body wrote and what there was |
| `Loops.LeavesWritesOnly` | sdks/go/node/serialLoopCaller.go:110-128 | a stream that closes before the end leaves what the body wrote itself |
| `Loops.RunsUntilFirstStop` | sdks/go/opspec/interpreter/call/serialloop/isIterationComplete.go:8-31 | over a range of unchanging length the body runs exactly k times, k being the first index that is the length or at which the exit condition holds, and scopes are threaded as the fold of the bodies' outputs |
| `Loops.FinishesIffReachedTestHolds` | sdks/go/node/serialLoopCaller.go:64-153 | for every loop: it finishes exactly if an iteration is reached in which the test of the index or the exit condition holds, and runs on exactly if all bodies have run and the next iteration begins in vain |
| `Loops.FailsIffReachedFails` | sdks/go/node/serialLoopCaller.go:64-153 | for every loop: it is not interpretable exactly if an iteration is reached whose scope, range or exit condition cannot be evaluated, and fails with a message exactly if a body that is reached ends with it |
| `Loops.RunsOnIffNoTestHolds` | sdks/go/node/serialLoopCaller.go:64-153 | so a loop in which nothing fails ends exactly if some test holds, and otherwise runs on whatever number of bodies have run |
| `Loops.TestsAreOfLength` | sdks/go/opspec/interpreter/call/serialloop/isIterationComplete.go:17-23 | with no exit condition the tests are whether the range of iteration i has i entries, or i + 1 after its body |
| `Loops.PastTheEndRunsOn` | sdks/go/opspec/interpreter/call/serialloop/isIterationComplete.go:17-23 | so once the range is shorter than the index, and stays so, the loop runs on |
| `Loops.ShrinkingRangeRunsOn` | sdks/go/opspec/interpreter/call/serialloop/isIterationComplete.go:17-23 | and a range that a body shortens gets it there |
| `Loops.IndexIsRestoredIffBare` | sdks/go/opspec/interpreter/call/loop/deScope.go:24-30 | the variable that the index shadowed is restored for every scope exactly if the index is written as a bare name |
| `Loops.DeScopedHas` | sdks/go/opspec/interpreter/call/loop/deScope.go:8-40 | what a loop leaves in every variable: those written like its index, and with no range like its key and value, are as outside; all others as the last iteration left them; without loop variables all are as outside |
| `Loops.LaunchChildren` | sdks/go/node/parallelLoopCaller.go:71-128 | the children launched and their scopes, which are the caller's own map exactly if there are no loop variables |
| `Loops.LaunchesToTheEnd` | sdks/go/node/parallelLoopCaller.go:71-128 | children are launched up to the first iteration at which the range is no longer than the index, even if it became shorter than that |
| `Loops.LaunchesUntilItFails` | sdks/go/node/parallelLoopCaller.go:79-96 | or up to the first iteration that cannot be interpreted, and then launching fails |
| `Loops.LaunchedInScope` | sdks/go/node/parallelLoopCaller.go:79-84 | whatever the range: the scope of each child is that of its own iteration, made from the inbound one |
| `Loops.OneChildPerEntry` | sdks/go/opspec/interpreter/call/parallelloop/isIterationComplete.go:8-26 | over a range of unchanging length there is one child per entry, each with a scope made from the inbound one |
| `Loops.ReadEnds` | sdks/go/node/parallelLoopCaller.go:149-181 | reads until all children have ended or the channel closes; what is gathered is each child's last outputs, and the flag is set exactly if one carried an error |
| `Loops.ParallelLoopCall` | sdks/go/node/parallelLoopCaller.go:51-189 | the outputs are merged in child order into the caller's own map, even if the call then fails and even with loop variables; a failed launch or a closed channel leaves the map as it was |

## Left out

* Container runtimes, networking, process handling, HTTP, the web application and the JavaScript SDK.
* Badger, JSON, YAML, number parsing of decimals, JSON schema validation and UUIDs: the database is a sorted sequence
  with atomic reads and writes, the others are functions given to the model, and fresh IDs are fresh.
* Clocks other than a monotone one: `PubSub` takes any timestamps, and `ParallelOverBus` lets its clock stand still but
  not go back. Nothing is claimed about how long anything takes or that a goroutine is ever scheduled.
* The calendar: an instant is the number its UTC digits spell, and the wall-clock time of another zone is given.
* Panics of the loops that read events, and of the goroutine that watches for a call's kill.
* Data races: two loops with no loop variables that share a scope map across goroutines update it unsynchronised.
* `stateStore`'s IsKilled flag, which only a failed end sets, and the listing of stored auths.
* The prompt as a source of arguments, after which asking again need not end; the terminal rendering of the call graph.
* Lower-casing outside ASCII; bytes that are not UTF-8 and so do not survive JSON; file modes and owners.
* The ordering and equality predicates of `if` and `until`, log configuration, git caching and pruning.
- Reference.InterpretFinds: for legal names and paths with nothing nested in them, which is what can be printed (`Reference.NestedStandsForText` is about nested ones); references into files and directories go through functions given to the model, and the creation of a scratch file or directory for a missing one is not modelled.
- Recreation.SendDir: for names that a directory can hold, and for the directory alone; the round trip of a single file argument goes through JSON coercions that are not modelled.
- CallTree.ChildrenEndFirst: does not cover calls that were killed or cancelled, which return early by design, nor a launch that failed or panicked, for which the property is false.
- StateStore.Recovery: for auth events that reach the store in time order; what other orders do is exactly `StateStore.SameLastWordsSameAuths`. A zone is what it is at a start: a change of the clocks while the node runs shows at the next start.
- SerialCaller.SerialIsFold: that a child's end is delivered after its call is a hypothesis, which the order of publication and consumption gives.
- ParallelCaller.Call: says when the children are cancelled, not what that does to them, which is in `CallTree`; no statement here depends on whether they go on.
- ParallelOverBus.CallOverBus: a child that found its context done makes no end, and then the call need not return, as `CallTree.NoopIsWaitedForForever` shows.
- ParamSatisfier.SatisfyParam: conversion and validation are functions given to the model, and a parameter has one kind.
