/** The delivery protocol: publishers and subscribers interleave at the steps below. */
module PubSub {
  // A durable log, registration under a lock, a replayed snapshot, and one goroutine for each live delivery.

  import opened Text
  import opened Events
  import opened EventStore

  type SubId = nat

  datatype Status = Open | Closing | Removed

  /** `snapshot` is what the log listing found, None until it is taken, of which `replayed` events were
      sent; `pending` are the blocked delivery goroutines; `live` are the events they delivered. */
  datatype Subscription = Subscription(
    filter: EventFilter,
    status: Status,
    snapshot: Option<seq<Event>>,
    replayed: nat,
    pending: multiset<Event>,
    live: seq<Event>)

  /** `log` and `subs` are what the node holds. The rest is history: all publications in order, those not fanned
      out yet, and for each subscription those fanned out when it registered and how many there were when it took
      its snapshot. */
  datatype State = State(
    log: seq<Event>,
    subs: map<SubId, Subscription>,
    published: seq<Event>,
    unfanned: multiset<Event>,
    settled: map<SubId, multiset<Event>>,
    snapshotAt: map<SubId, nat>)

  datatype Action =
    | Add(e: Event)                         // Publish: write to the log
    | FanOut(e: Event)                      // Publish: start a goroutine for each accepting subscription
    | Register(id: SubId, filter: EventFilter)
    | Snapshot(id: SubId)                   // open the read transaction of the listing
    | ReplayNext(id: SubId)                 // the consumer takes the next event of the snapshot
    | Deliver(id: SubId, e: Event)          // the consumer takes a live event
    | Close(id: SubId)                      // the context is done: Done is closed
    | Drop(id: SubId, e: Event)             // a delivery goroutine gives up on a closed subscription
    | Remove(id: SubId)                     // the subscription leaves the map

  const INIT := State([], map[], [], multiset{}, map[], map[])

  predicate FannedOut(s: State, e: Event) {
    e in s.published && e !in s.unfanned
  }

  predicate Enabled(s: State, a: Action) {
    match a
    case Add(e) => true
    case FanOut(e) => e in s.unfanned
    case Register(id, _) => id !in s.subs
    case Snapshot(id) => id in s.subs && s.subs[id].status.Open? && s.subs[id].snapshot.None?
    case ReplayNext(id) => id in s.subs && s.subs[id].status.Open? && s.subs[id].snapshot.Some? &&
      s.subs[id].replayed < |s.subs[id].snapshot.value|
    case Deliver(id, e) => id in s.subs && s.subs[id].status.Open? && s.subs[id].snapshot.Some? &&
      s.subs[id].replayed == |s.subs[id].snapshot.value| && e in s.subs[id].pending
    case Close(id) => id in s.subs && s.subs[id].status.Open?
    case Drop(id, e) => id in s.subs && !s.subs[id].status.Open? && e in s.subs[id].pending
    case Remove(id) => id in s.subs && s.subs[id].status.Closing?
  }

  /** What a fan-out does to one subscription. */
  function Offer(b: Subscription, e: Event): Subscription {
    if !b.status.Removed? && RootAccepted(e, b.filter) then b.(pending := b.pending + multiset{e}) else b
  }

  function Offers(subs: map<SubId, Subscription>, e: Event): map<SubId, Subscription> {
    map id | id in subs :: Offer(subs[id], e)
  }

  function Apply(s: State, a: Action): State
    requires Enabled(s, a)
  {
    match a
    case Add(e) =>
      s.(log := Record(s.log, e), published := s.published + [e], unfanned := s.unfanned + multiset{e})
    case FanOut(e) =>
      s.(unfanned := s.unfanned - multiset{e}, subs := Offers(s.subs, e))
    case Register(id, filter) =>
      s.(subs := s.subs[id := Subscription(filter, Open, None, 0, multiset{}, [])],
         settled := s.settled[id := multiset(s.published) - s.unfanned])
    case Snapshot(id) =>
      s.(subs := s.subs[id := s.subs[id].(snapshot := Some(Replay(s.log, s.subs[id].filter)))],
         snapshotAt := s.snapshotAt[id := |s.published|])
    case ReplayNext(id) =>
      s.(subs := s.subs[id := s.subs[id].(replayed := s.subs[id].replayed + 1)])
    case Deliver(id, e) =>
      s.(subs := s.subs[id := s.subs[id].(pending := s.subs[id].pending - multiset{e}, live := s.subs[id].live + [e])])
    case Close(id) =>
      s.(subs := s.subs[id := s.subs[id].(status := Closing)])
    case Drop(id, e) =>
      s.(subs := s.subs[id := s.subs[id].(pending := s.subs[id].pending - multiset{e})])
    case Remove(id) =>
      s.(subs := s.subs[id := s.subs[id].(status := Removed)])
  }

  /** The state after a run from the empty node, if every action was enabled in its turn. */
  function Run(run: seq<Action>): Option<State> {
    if run == [] then Some(INIT)
    else
      var before := Run(run[..|run| - 1]);
      if before.Some? && Enabled(before.value, run[|run| - 1])
      then Some(Apply(before.value, run[|run| - 1]))
      else None
  }

  // ---------- what subscribers have got ----------

  /** Copies of `e` that delivery goroutines of the subscription hold or have handed over. */
  function LiveCopies(b: Subscription, e: Event): nat {
    b.pending[e] + multiset(b.live)[e]
  }

  /** What the consumer has received, in order: the snapshot is sent before any live event. */
  function Delivered(b: Subscription): seq<Event> {
    (if b.snapshot.Some? && b.replayed <= |b.snapshot.value| then b.snapshot.value[..b.replayed] else []) + b.live
  }

  /** Copies of `e` that the consumer has received. */
  function Received(b: Subscription, e: Event): nat {
    multiset(Delivered(b))[e]
  }

  predicate CaughtUp(b: Subscription) {
    b.snapshot.Some? && b.replayed == |b.snapshot.value|
  }

  /** An open subscription with nothing left to hand over to its consumer. */
  predicate Drained(b: Subscription) {
    b.status.Open? && CaughtUp(b) && b.pending == multiset{}
  }

  // ---------- what the log keeps ----------

  /** The log after these publications. */
  function Logged(published: seq<Event>): seq<Event> {
    if published == [] then [] else Record(Logged(published[..|published| - 1]), published[|published| - 1])
  }

  /** Whether `e` is the last publication of its instant. */
  predicate Survives(published: seq<Event>, e: Event) {
    published != [] && (
      var last := published[|published| - 1];
      last == e || (last.timestamp != e.timestamp && Survives(published[..|published| - 1], e)))
  }

  lemma {:induction false} SurvivesMeans(published: seq<Event>, e: Event)
    ensures Survives(published, e) <==> exists i :: SurvivesFrom(published, e, i)
  {
    if published != [] {
      var n := |published| - 1;
      SurvivesMeans(published[..n], e);
      if published[n] == e { assert SurvivesFrom(published, e, n); }
      if i: nat :| SurvivesFrom(published[..n], e, i) && published[n].timestamp != e.timestamp { assert SurvivesFrom(published, e, i); }
      if i: nat :| SurvivesFrom(published, e, i) && i < n { assert SurvivesFrom(published[..n], e, i); }
    }
  }

  /** `e` was published at `i`, and nothing of its instant after that. */
  ghost predicate SurvivesFrom(published: seq<Event>, e: Event, i: nat) {
    i < |published| && published[i] == e && forall j :: i < j < |published| ==> published[j].timestamp != e.timestamp
  }

  lemma {:induction false} LoggedIsChronological(published: seq<Event>)
    ensures Chronological(Logged(published))
  {
    if published != [] {
      var n := |published| - 1;
      LoggedIsChronological(published[..n]);
      RecordKeepsOrder(Logged(published[..n]), published[n]);
    }
  }

  lemma {:induction false} LoggedSurvives(published: seq<Event>, e: Event)
    ensures e in Logged(published) <==> Survives(published, e)
  {
    if published != [] {
      var n := |published| - 1;
      LoggedSurvives(published[..n], e);
      LoggedIsChronological(published[..n]);
      RecordMembers(Logged(published[..n]), published[n], e);
    }
  }

  // ---------- what every run keeps ----------

  /** Publications of `e` that are fanned out. */
  function Fanned(s: State, e: Event): int {
    multiset(s.published)[e] as int - s.unfanned[e] as int
  }

  /** Goroutines started to deliver `e`: one for each fan-out after the registration. */
  function Offered(s: State, id: SubId, e: Event): int
    requires id in s.subs && id in s.settled
  {
    if RootAccepted(e, s.subs[id].filter) then Fanned(s, e) - s.settled[id][e] as int else 0
  }

  /** Whether the log held `e` when the snapshot was taken, and it passes the filter. */
  predicate Snapshotted(s: State, id: SubId, e: Event) {
    id in s.subs && id in s.snapshotAt && s.snapshotAt[id] <= |s.published| &&
    Survives(s.published[..s.snapshotAt[id]], e) && Replayable(e, s.subs[id].filter)
  }

  ghost predicate Inv(s: State) {
    && s.log == Logged(s.published)
    && s.unfanned <= multiset(s.published)
    && s.settled.Keys == s.subs.Keys
  }

  /** The copies of one event that a subscription has, from its snapshot and from goroutines. */
  ghost predicate Counted(s: State, id: SubId, e: Event)
    requires id in s.subs && id in s.settled
  {
    var b := s.subs[id];
    && s.settled[id][e] <= Fanned(s, e)
    && LiveCopies(b, e) <= Offered(s, id, e)
    && (b.status.Open? ==> LiveCopies(b, e) == Offered(s, id, e))
    && if b.snapshot.None? then b.replayed == 0 && b.live == []
       else
         && b.replayed <= |b.snapshot.value|
         && id in s.snapshotAt && s.snapshotAt[id] <= |s.published|
         && s.settled[id][e] <= multiset(s.published[..s.snapshotAt[id]])[e]
         && multiset(b.snapshot.value)[e] == if Snapshotted(s, id, e) then 1 else 0
  }

  lemma {:induction false} ChronologicalOnce(events: seq<Event>, e: Event)
    requires Chronological(events)
    ensures multiset(events)[e] == if e in events then 1 else 0
  {
    if events != [] {
      var n := |events| - 1;
      ChronologicalOnce(events[..n], e);
      assert events == events[..n] + [events[n]];
      if e in events[..n] { assert e != events[n]; }
    }
  }

  /** A snapshot taken now holds each event once that survives and passes the filter. */
  lemma SnapshotHolds(s: State, filter: EventFilter, e: Event)
    requires Inv(s)
    ensures multiset(Replay(s.log, filter))[e] == if Survives(s.published, e) && Replayable(e, filter) then 1 else 0
  {
    LoggedIsChronological(s.published);
    LoggedSurvives(s.published, e);
    ReplayMembers(s.log, filter);
    ReplayIsChronological(s.log, filter);
    ChronologicalOnce(Replay(s.log, filter), e);
  }

  lemma AddKeepsInv(s: State, e: Event)
    requires Inv(s)
    ensures Inv(Apply(s, Add(e)))
  {
    var t := Apply(s, Add(e));
    assert t.published[..|t.published| - 1] == s.published && t.published[|t.published| - 1] == e;
    assert multiset(t.published) == multiset(s.published) + multiset{e};
  }

  lemma FanOutKeepsInv(s: State, e: Event)
    requires Inv(s) && e in s.unfanned
    ensures Inv(Apply(s, FanOut(e)))
  {
    assert Offers(s.subs, e).Keys == s.subs.Keys;
  }

  lemma StepKeepsInv(s: State, a: Action)
    requires Inv(s) && Enabled(s, a)
    ensures Inv(Apply(s, a))
  {
    if a.Add? { AddKeepsInv(s, a.e); }
    else if a.FanOut? { FanOutKeepsInv(s, a.e); }
    else { assert Apply(s, a).published == s.published && Apply(s, a).unfanned == s.unfanned; }
  }

  lemma StepKeepsCount(s: State, a: Action, id: SubId, e: Event)
    requires Inv(s) && Enabled(s, a) && id in Apply(s, a).subs
    requires id in s.subs ==> Counted(s, id, e)
    ensures id in Apply(s, a).settled && Counted(Apply(s, a), id, e)
  {
    if a.Add? { AddKeepsCount(s, a.e, id, e); }
    else if a.FanOut? { FanOutKeepsCount(s, a.e, id, e); }
    else if a.id != id { OtherStepKeepsCount(s, a, id, e); }
    else if a.Register? { RegisterStartsCount(s, id, a.filter, e); }
    else if a.Snapshot? { SnapshotKeepsCount(s, id, e); }
    else { OwnStepKeepsCount(s, a, e); }
  }

  lemma OtherStepKeepsCount(s: State, a: Action, id: SubId, e: Event)
    requires Inv(s) && Enabled(s, a) && id in s.subs && Counted(s, id, e)
    requires !a.Add? && !a.FanOut? && a.id != id
    ensures id in Apply(s, a).subs && id in Apply(s, a).settled && Counted(Apply(s, a), id, e)
  {
    var t := Apply(s, a);
    assert t.subs[id] == s.subs[id] && t.settled[id] == s.settled[id];
    assert t.published == s.published && t.unfanned == s.unfanned;
    assert id in s.snapshotAt ==> id in t.snapshotAt && t.snapshotAt[id] == s.snapshotAt[id];
  }

  lemma RegisterStartsCount(s: State, id: SubId, filter: EventFilter, e: Event)
    requires Inv(s) && Enabled(s, Register(id, filter))
    ensures Counted(Apply(s, Register(id, filter)), id, e)
  {
    var t := Apply(s, Register(id, filter));
    assert t.settled[id][e] == Fanned(s, e) == Fanned(t, e);
  }

  lemma AddKeepsCount(s: State, x: Event, id: SubId, e: Event)
    requires Inv(s) && id in s.subs && Counted(s, id, e)
    ensures Counted(Apply(s, Add(x)), id, e)
  {
    var t := Apply(s, Add(x));
    assert multiset(t.published)[e] - t.unfanned[e] == multiset(s.published)[e] - s.unfanned[e];
    if s.subs[id].snapshot.Some? {
      assert t.published[..s.snapshotAt[id]] == s.published[..s.snapshotAt[id]];
    }
  }

  lemma OfferedOnce(b: Subscription, x: Event, e: Event)
    ensures LiveCopies(Offer(b, x), e) ==
      LiveCopies(b, e) + if x == e && !b.status.Removed? && RootAccepted(e, b.filter) then 1 else 0
  {
  }

  lemma FanOutKeepsCount(s: State, x: Event, id: SubId, e: Event)
    requires Inv(s) && x in s.unfanned && id in s.subs && Counted(s, id, e)
    ensures Counted(Apply(s, FanOut(x)), id, e)
  {
    var t := Apply(s, FanOut(x));
    assert t.subs[id] == Offer(s.subs[id], x);
    OfferedOnce(s.subs[id], x, e);
    assert Fanned(t, e) == Fanned(s, e) + if x == e then 1 else 0;
    assert Offered(t, id, e) == Offered(s, id, e) + if x == e && RootAccepted(e, s.subs[id].filter) then 1 else 0;
  }

  lemma SnapshotKeepsCount(s: State, id: SubId, e: Event)
    requires Inv(s) && Enabled(s, Snapshot(id)) && Counted(s, id, e)
    ensures Counted(Apply(s, Snapshot(id)), id, e)
  {
    SnapshotHolds(s, s.subs[id].filter, e);
    assert s.published[..|s.published|] == s.published;
  }

  lemma OwnStepKeepsCount(s: State, a: Action, e: Event)
    requires a.ReplayNext? || a.Deliver? || a.Close? || a.Drop? || a.Remove?
    requires Inv(s) && Enabled(s, a) && Counted(s, a.id, e)
    ensures Counted(Apply(s, a), a.id, e)
  {
    var b, c := s.subs[a.id], Apply(s, a).subs[a.id];
    assert LiveCopies(c, e) <= LiveCopies(b, e);
  }

  lemma {:induction false} EveryRunKeepsInv(run: seq<Action>)
    requires Run(run).Some?
    ensures Inv(Run(run).value)
  {
    if run != [] {
      EveryRunKeepsInv(run[..|run| - 1]);
      StepKeepsInv(Run(run[..|run| - 1]).value, run[|run| - 1]);
    }
  }

  /** Every interleaving of publishers and subscribers, whatever timestamps they use, keeps the count of every event
      at every subscription. */
  lemma {:induction false} EveryRunKeepsCount(run: seq<Action>, id: SubId, e: Event)
    requires Run(run).Some? && id in Run(run).value.subs
    ensures id in Run(run).value.settled && Counted(Run(run).value, id, e)
  {
    if run != [] {
      var before, a := run[..|run| - 1], run[|run| - 1];
      var s := Run(before).value;
      EveryRunKeepsInv(before);
      if id in s.subs { EveryRunKeepsCount(before, id, e); }
      StepKeepsCount(s, a, id, e);
    }
  }

  // ---------- what subscribers can rely on ----------

  /** An event stays in the log exactly as long as no later publication has its instant. */
  lemma InLogIffSurvives(run: seq<Action>, e: Event)
    requires Run(run).Some?
    ensures e in Run(run).value.log <==> exists i :: SurvivesFrom(Run(run).value.published, e, i)
  {
    EveryRunKeepsInv(run);
    LoggedSurvives(Run(run).value.published, e);
    SurvivesMeans(Run(run).value.published, e);
  }

  /** The exact number of copies of an event that an open subscription has got or will get, at any moment after its
      snapshot: one from the snapshot if the log held it then, and one for each fan-out after the registration. */
  lemma CopiesExactly(run: seq<Action>, id: SubId, e: Event)
    requires Run(run).Some? && id in Run(run).value.subs
    requires Run(run).value.subs[id].status.Open? && Run(run).value.subs[id].snapshot.Some?
    ensures var s := Run(run).value;
      var b := s.subs[id];
      && id in s.settled
      && multiset(b.snapshot.value)[e] + b.pending[e] + multiset(b.live)[e] ==
         (if Snapshotted(s, id, e) then 1 else 0) + Offered(s, id, e)
  {
    EveryRunKeepsCount(run, id, e);
  }

  lemma StoredCopies(s: State, id: SubId, e: Event)
    requires id in s.subs && id in s.settled && Counted(s, id, e) && s.subs[id].snapshot.Some?
    ensures var b := s.subs[id];
      var sent := multiset(b.snapshot.value[..b.replayed])[e];
      sent <= 1 && (sent == 1 ==> e in s.published && RootAccepted(e, b.filter))
  {
    var b := s.subs[id];
    var all := b.snapshot.value;
    assert all == all[..b.replayed] + all[b.replayed..];
    assert multiset(all)[e] == multiset(all[..b.replayed])[e] + multiset(all[b.replayed..])[e];
    if Snapshotted(s, id, e) {
      SurvivorWasPublished(s.published[..s.snapshotAt[id]], e);
    }
  }

  /** At any moment of any run, of any subscription: an event has been received at most once more often than it was
      published, and only if it was published and its root is accepted. */
  lemma AtMostTwice(run: seq<Action>, id: SubId, e: Event)
    requires Run(run).Some? && id in Run(run).value.subs
    ensures var s := Run(run).value;
      && Received(s.subs[id], e) <= 1 + multiset(s.published)[e]
      && (Received(s.subs[id], e) > 0 ==> e in s.published && RootAccepted(e, s.subs[id].filter))
  {
    EveryRunKeepsCount(run, id, e);
    var s := Run(run).value;
    var b := s.subs[id];
    if b.snapshot.Some? {
      StoredCopies(s, id, e);
      assert multiset(Delivered(b))[e] == multiset(b.snapshot.value[..b.replayed])[e] + multiset(b.live)[e];
    }
  }

  lemma {:induction false} SurvivorWasPublished(published: seq<Event>, e: Event)
    requires Survives(published, e)
    ensures e in published
  {
    var n := |published| - 1;
    if published[n] != e {
      SurvivorWasPublished(published[..n], e);
      assert published == published[..n] + [published[n]];
    }
  }

  /** No other publication has the instant of `e`. */
  ghost predicate AloneInInstant(published: seq<Event>, e: Event) {
    forall x :: x in published && x.timestamp == e.timestamp ==> x == e
  }

  lemma {:induction false} AloneSurvives(published: seq<Event>, e: Event)
    requires e in published && AloneInInstant(published, e)
    ensures Survives(published, e)
  {
    var n := |published| - 1;
    assert published == published[..n] + [published[n]];
    if published[n] != e { AloneSurvives(published[..n], e); }
  }

  /** No loss, at any moment: an event at or after Since whose fan-out is done is in the snapshot, pending or
      delivered of every open subscription that took its snapshot and accepts its root, as long as no other
      publication has its instant. */
  lemma NothingIsLost(run: seq<Action>, id: SubId, e: Event)
    requires Run(run).Some? && id in Run(run).value.subs
    requires Run(run).value.subs[id].status.Open? && Run(run).value.subs[id].snapshot.Some?
    requires FannedOut(Run(run).value, e) && Replayable(e, Run(run).value.subs[id].filter)
    requires AloneInInstant(Run(run).value.published, e)
    ensures var b := Run(run).value.subs[id]; e in b.snapshot.value || e in b.pending || e in b.live
  {
    var s := Run(run).value;
    EveryRunKeepsCount(run, id, e);
    if Offered(s, id, e) == 0 {
      var before := s.published[..s.snapshotAt[id]];
      assert multiset(before)[e] > 0;
      forall x | x in before ensures x in s.published { }
      AloneSurvives(before, e);
    }
  }

  /** And exactly when an event is lost: it was fanned out before the registration and overwritten in the log
      before the snapshot. */
  lemma LostExactly(run: seq<Action>, id: SubId, e: Event)
    requires Run(run).Some? && id in Run(run).value.subs
    requires Run(run).value.subs[id].status.Open? && Run(run).value.subs[id].snapshot.Some?
    requires Replayable(e, Run(run).value.subs[id].filter)
    ensures var s := Run(run).value;
      var b := s.subs[id];
      && id in s.settled && id in s.snapshotAt && s.snapshotAt[id] <= |s.published|
      && (e !in b.snapshot.value && e !in b.pending && e !in b.live <==>
            Fanned(s, e) == s.settled[id][e] && !Survives(s.published[..s.snapshotAt[id]], e))
  {
    EveryRunKeepsCount(run, id, e);
  }

  /** The event is published and fanned out once the subscription is registered. */
  lemma PublishedOnceRegistered(id: SubId, e: Event, filter: EventFilter) returns (run: seq<Action>)
    requires RootAccepted(e, filter)
    ensures var b := Subscription(filter, Open, None, 0, multiset{e}, []);
      Run(run) == Some(State([e], map[id := b], [e], multiset{}, map[id := multiset{}], map[]))
  {
    var b := Subscription(filter, Open, None, 0, multiset{}, []);
    var settled: map<SubId, multiset<Event>> := map[id := multiset{}];
    var s := State([], map[id := b], [], multiset{}, settled, map[]);
    run := [Register(id, filter)];
    assert [] + run == run && multiset(INIT.published) - INIT.unfanned == multiset{};
    RunStep([], INIT, Register(id, filter));
    assert Apply(INIT, Register(id, filter)) == s;
    RunStep(run, s, Add(e));
    run := run + [Add(e)];
    var t := State([e], map[id := b], [e], multiset{e}, settled, map[]);
    assert Apply(s, Add(e)) == t;
    RunStep(run, t, FanOut(e));
    run := run + [FanOut(e)];
    assert multiset{e} - multiset{e} == multiset{} && Offers(t.subs, e) == map[id := b.(pending := multiset{e})];
  }

  /** A publication that falls between registration and snapshot is in the snapshot and pending. */
  lemma SnapshotRace(id: SubId, e: Event, filter: EventFilter) returns (run: seq<Action>)
    requires Replayable(e, filter)
    ensures Run(run).Some? && Run(run).value.published == [e]
    ensures id in Run(run).value.subs
    ensures Run(run).value.subs[id] == Subscription(filter, Open, Some([e]), 0, multiset{e}, [])
  {
    run := PublishedOnceRegistered(id, e, filter);
    var s := Run(run).value;
    assert [e][1..] == [] && Replay([e], filter) == [e];
    RunStep(run, s, Snapshot(id));
    run := run + [Snapshot(id)];
  }

  /** Delivery really is at least once: some run hands one publication over twice. */
  lemma DeliveredTwice(id: SubId, e: Event, filter: EventFilter) returns (run: seq<Action>)
    requires Replayable(e, filter)
    ensures Run(run).Some? && Run(run).value.published == [e] && id in Run(run).value.subs
    ensures Drained(Run(run).value.subs[id]) && Run(run).value.subs[id].filter == filter
    ensures Delivered(Run(run).value.subs[id]) == [e, e]
  {
    run := SnapshotRace(id, e, filter);
    var s := Run(run).value;
    RunStep(run, s, ReplayNext(id));
    run, s := run + [ReplayNext(id)], Apply(s, ReplayNext(id));
    RunStep(run, s, Deliver(id, e));
    run := run + [Deliver(id, e)];
    assert multiset{e} - multiset{e} == multiset{};
  }

  lemma RunStep(run: seq<Action>, s: State, a: Action)
    requires Run(run) == Some(s) && Enabled(s, a)
    ensures Run(run + [a]) == Some(Apply(s, a))
  {
    assert (run + [a])[..|run + [a]| - 1] == run;
  }

  /** The steps are about these two publications and this subscription only. */
  ghost predicate Concerns(run: seq<Action>, id: SubId, filter: EventFilter, e: Event, later: Event) {
    forall a :: a in run ==>
      (a.Add? ==> a.e == e || a.e == later) && (a.Register? ==> a.id == id && a.filter == filter)
  }

  lemma TwoOfOneInstant(id: SubId, e: Event, later: Event, filter: EventFilter) returns (run: seq<Action>)
    requires e != later && e.timestamp == later.timestamp
    ensures Run(run) == Some(State([later], map[], [e, later], multiset{}, map[], map[]))
    ensures Concerns(run, id, filter, e, later)
  {
    run := [Add(e)];
    assert [] + run == run;
    RunStep([], INIT, Add(e));
    assert Apply(INIT, Add(e)) == State([e], map[], [e], multiset{e}, map[], map[]);
    RunStep(run, State([e], map[], [e], multiset{e}, map[], map[]), FanOut(e));
    run := run + [FanOut(e)];
    var s := State([e], map[], [e], multiset{}, map[], map[]);
    assert Run(run) == Some(s);
    RunStep(run, s, Add(later));
    run := run + [Add(later)];
    assert Record([e], later) == [later] && [e] + [later] == [e, later] && [e][1..] == [];
    var none: multiset<Event> := multiset{};
    assert none + multiset{later} == multiset{later};
    var t := State([later], map[], [e, later], multiset{later}, map[], map[]);
    assert Run(run) == Some(t);
    RunStep(run, t, FanOut(later));
    run := run + [FanOut(later)];
  }

  lemma LateRegistration(id: SubId, e: Event, later: Event, filter: EventFilter) returns (run: seq<Action>)
    requires e != later && e.timestamp == later.timestamp
    ensures var found := if Replayable(later, filter) then [later] else [];
      Run(run) == Some(State([later], map[id := Subscription(filter, Open, Some(found), 0, multiset{}, [])], [e, later],
                             multiset{}, map[id := multiset{e, later}], map[id := 2]))
    ensures Concerns(run, id, filter, e, later)
  {
    run := TwoOfOneInstant(id, e, later, filter);
    var s := State([later], map[], [e, later], multiset{}, map[], map[]);
    RunStep(run, s, Register(id, filter));
    run := run + [Register(id, filter)];
    var none: multiset<Event> := multiset{};
    assert multiset([e, later]) - none == multiset{e, later};
    var t := State([later], map[id := Subscription(filter, Open, None, 0, multiset{}, [])], [e, later], multiset{},
                   map[id := multiset{e, later}], map[]);
    assert Run(run) == Some(t);
    RunStep(run, t, Snapshot(id));
    run := run + [Snapshot(id)];
    assert [later][1..] == [] && Replay([later], filter) == if Replayable(later, filter) then [later] else [];
    var found := if Replayable(later, filter) then [later] else [];
    assert Apply(t, Snapshot(id)).subs == map[id := Subscription(filter, Open, Some(found), 0, multiset{}, [])];
    assert Apply(t, Snapshot(id)).snapshotAt == map[id := 2];
  }

  /** And it happens: of two publications of one instant the earlier is lost for a subscription that comes later,
      though both fan-outs are done and the filter lets it through. */
  lemma OverwrittenIsLost(id: SubId, e: Event, later: Event, filter: EventFilter) returns (run: seq<Action>)
    requires e != later && e.timestamp == later.timestamp && Replayable(e, filter)
    ensures Run(run).Some? && id in Run(run).value.subs && Run(run).value.subs[id].filter == filter
    ensures Run(run).value.published == [e, later]
    ensures FannedOut(Run(run).value, e) && FannedOut(Run(run).value, later)
    ensures Drained(Run(run).value.subs[id]) && Received(Run(run).value.subs[id], e) == 0
    ensures Concerns(run, id, filter, e, later)
  {
    run := LateRegistration(id, e, later, filter);
    var s := Run(run).value;
    if Replayable(later, filter) {
      RunStep(run, s, ReplayNext(id));
      run := run + [ReplayNext(id)];
      assert Delivered(Run(run).value.subs[id]) == [later][..1] + [] == [later];
    } else {
      assert Delivered(s.subs[id]) == [];
    }
  }

  // ---------- the object ----------

  /** The map under the mutex has the subscriptions that are not removed. */
  ghost predicate Consistent(subscriptions: map<SubId, EventFilter>, streams: map<SubId, Subscription>) {
    && (forall id :: id in subscriptions <==> id in streams && !streams[id].status.Removed?)
    && (forall id :: id in subscriptions ==> subscriptions[id] == streams[id].filter)
  }

  /** Runs through the subscriptions, in no particular order, and starts a delivery goroutine for each
      whose filter does not exclude the event. */
  method OfferAll(subscriptions: map<SubId, EventFilter>, streams: map<SubId, Subscription>, e: Event)
    returns (next: map<SubId, Subscription>)
    requires Consistent(subscriptions, streams)
    ensures next == Offers(streams, e) && Consistent(subscriptions, next)
  {
    next := streams;
    var todo := subscriptions.Keys;
    while todo != {}
      invariant todo <= subscriptions.Keys && next.Keys == streams.Keys
      invariant forall id :: id in streams ==> next[id] == if id in todo then streams[id] else Offer(streams[id], e)
    {
      var id :| id in todo;
      var excluded := IsRootCallIdExcludedByFilter(RootCallId(e), subscriptions[id]);
      if !excluded {
        next := next[id := next[id].(pending := next[id].pending + multiset{e})];
      }
      todo := todo - {id};
    }
  }

  /** For each kind of event: a fan-out starts one goroutine for a subscription in the map exactly if the event's root
      is among those of its filter, if it has any; nothing else of it changes, and nothing of the others. */
  lemma FannedOutByKind(s: State, t: Timestamp, id: SubId, x: Particulars, k: nat)
    requires k < 7 && Event(t, Kinds(x)[k].0) in s.unfanned && id in s.subs
    ensures var (payload, root) := Kinds(x)[k];
      var (e, b) := (Event(t, payload), s.subs[id]);
      var wanted := !b.status.Removed? && (b.filter.roots.Some? ==> root in b.filter.roots.value);
      && Apply(s, FanOut(e)).subs.Keys == s.subs.Keys
      && Apply(s, FanOut(e)).subs[id] == if wanted then b.(pending := b.pending[e := b.pending[e] + 1]) else b
  {
    var e, b := Event(t, Kinds(x)[k].0), s.subs[id];
    assert b.pending[e := b.pending[e] + 1] == b.pending + multiset{e};
  }

  lemma StillConsistent(subscriptions: map<SubId, EventFilter>, streams: map<SubId, Subscription>, id: SubId, b: Subscription)
    requires Consistent(subscriptions, streams) && id in streams && b.filter == streams[id].filter
    requires b.status.Removed? <==> streams[id].status.Removed?
    ensures Consistent(subscriptions, streams[id := b])
  {
  }

  lemma StillConsistentWith(subscriptions: map<SubId, EventFilter>, streams: map<SubId, Subscription>, id: SubId,
      filter: EventFilter)
    requires Consistent(subscriptions, streams) && id !in streams
    ensures Consistent(subscriptions[id := filter], streams[id := Subscription(filter, Open, None, 0, multiset{}, [])])
  {
  }

  lemma OneMoreReplayed(b: Subscription)
    requires b.snapshot.Some? && b.replayed < |b.snapshot.value| && b.live == []
    ensures Delivered(b.(replayed := b.replayed + 1)) == Delivered(b) + [b.snapshot.value[b.replayed]]
  {
  }

  lemma DeliveredStored(run: seq<Action>, s: State, id: SubId)
    requires Run(run) == Some(s) && id in s.subs && s.subs[id].snapshot.Some?
    requires s.subs[id].replayed < |s.subs[id].snapshot.value|
    ensures var b := s.subs[id];
      Delivered(b.(replayed := b.replayed + 1)) == Delivered(b) + [b.snapshot.value[b.replayed]]
  {
    StoredComeFirst(run, id);
    OneMoreReplayed(s.subs[id]);
  }

  lemma DeliveredLive(b: Subscription, e: Event)
    ensures Delivered(b.(pending := b.pending - multiset{e}, live := b.live + [e])) == Delivered(b) + [e]
  {
    var stored := if b.snapshot.Some? && b.replayed <= |b.snapshot.value| then b.snapshot.value[..b.replayed] else [];
    assert stored + (b.live + [e]) == (stored + b.live) + [e];
  }

  lemma RegisterStep(run: seq<Action>, s: State, id: SubId, filter: EventFilter)
    requires Run(run) == Some(s) && id !in s.subs
    ensures Run(run + [Register(id, filter)]) ==
      Some(s.(subs := s.subs[id := Subscription(filter, Open, None, 0, multiset{}, [])],
              settled := s.settled[id := multiset(s.published) - s.unfanned]))
  {
    RunStep(run, s, Register(id, filter));
  }

  /** One PubSub. `subscriptions` is the map under the mutex; `streams` is what the subscription goroutines
      and the delivery goroutines hold. Each method is one atomic step, and `run` are the steps so far: so the object
      is always in a state that a run of the protocol reaches. */
  class Hub {
    const store: Store
    var subscriptions: map<SubId, EventFilter>
    var streams: map<SubId, Subscription>
    ghost var published: seq<Event>
    ghost var unfanned: multiset<Event>
    ghost var settled: map<SubId, multiset<Event>>
    ghost var snapshotAt: map<SubId, nat>
    ghost var run: seq<Action>

    ghost function Model(): State
      requires store.Valid()
      reads this, store
    {
      State(Log(store.entries), streams, published, unfanned, settled, snapshotAt)
    }

    ghost predicate Valid()
      reads this, store
    {
      store.Valid() && Consistent(subscriptions, streams) && Run(run) == Some(Model())
    }

    constructor ()
      ensures Valid() && fresh(store) && run == []
    {
      store := new Store();
      subscriptions, streams := map[], map[];
      published, unfanned, settled, snapshotAt := [], multiset{}, map[], map[];
      run := [];
    }

    /** The next step of the run. */
    twostate predicate Took(a: Action)
      reads this
    {
      run == old(run) + [a]
    }

    method Add(e: Event)
      requires Valid()
      modifies this, store
      ensures Valid() && Took(Action.Add(e))
    {
      RunStep(run, Model(), Action.Add(e));
      store.Add(e);
      published, unfanned, run := published + [e], unfanned + multiset{e}, run + [Action.Add(e)];
    }

    /** A step that changes the streams only, and takes fan-outs from those to come. */
    method MoveTo(next: map<SubId, Subscription>, ghost left: multiset<Event>, ghost a: Action)
      requires Valid() && Consistent(subscriptions, next)
      requires Enabled(Model(), a) && Apply(Model(), a) == Model().(subs := next, unfanned := left)
      modifies this
      ensures Valid() && Took(a) && streams == next
    {
      ghost var moved := Apply(Model(), a);
      RunStep(run, Model(), a);
      streams, unfanned, run := next, left, run + [a];
      assert Model() == moved;
    }

    method FanOut(e: Event)
      requires Valid() && e in unfanned
      modifies this
      ensures Valid() && Took(Action.FanOut(e)) && streams == Offers(old(streams), e)
    {
      var next := OfferAll(subscriptions, streams, e);
      MoveTo(next, unfanned - multiset{e}, Action.FanOut(e));
    }

    method Register(id: SubId, filter: EventFilter)
      requires Valid() && id !in streams
      modifies this
      ensures Valid() && Took(Action.Register(id, filter))
      ensures streams == old(streams)[id := Subscription(filter, Open, None, 0, multiset{}, [])]
    {
      RegisterStep(run, Model(), id, filter);
      StillConsistentWith(subscriptions, streams, id, filter);
      settled := settled[id := multiset(published) - unfanned];
      subscriptions, streams, run := subscriptions[id := filter],
        streams[id := Subscription(filter, Open, None, 0, multiset{}, [])], run + [Action.Register(id, filter)];
    }

    method TakeSnapshot(id: SubId)
      requires Valid() && id in streams && streams[id].status.Open? && streams[id].snapshot.None?
      modifies this
      ensures Valid() && Took(Snapshot(id))
      ensures streams == old(streams)[id := old(streams)[id].(snapshot := Some(Replay(Log(store.entries), old(streams)[id].filter)))]
    {
      var found := store.List(streams[id].filter);
      var b := streams[id].(snapshot := Some(found));
      StillConsistent(subscriptions, streams, id, b);
      RunStep(run, Model(), Snapshot(id));
      streams, snapshotAt, run := streams[id := b], snapshotAt[id := |published|], run + [Snapshot(id)];
    }

    method Put(id: SubId, b: Subscription, ghost a: Action)
      requires Valid() && id in streams && b.filter == streams[id].filter
      requires b.status.Removed? <==> streams[id].status.Removed?
      requires Enabled(Model(), a) && Apply(Model(), a) == Model().(subs := streams[id := b])
      modifies this
      ensures Valid() && Took(a) && streams == old(streams)[id := b]
    {
      StillConsistent(subscriptions, streams, id, b);
      MoveTo(streams[id := b], unfanned, a);
    }

    /** The consumer takes the next stored event that the listing sends. */
    method TakeStored(id: SubId) returns (e: Event)
      requires Valid() && id in streams && streams[id].status.Open?
      requires streams[id].snapshot.Some? && streams[id].replayed < |streams[id].snapshot.value|
      modifies this
      ensures Valid() && Took(ReplayNext(id)) && id in streams
      ensures Delivered(streams[id]) == Delivered(old(streams[id])) + [e]
      ensures streams[id].pending == old(streams)[id].pending && streams == old(streams)[id := streams[id]]
    {
      ghost var was := Model();
      var b := streams[id];
      e := b.snapshot.value[b.replayed];
      Put(id, b.(replayed := b.replayed + 1), ReplayNext(id));
      DeliveredStored(old(run), was, id);
    }

    /** After the listing, the consumer takes any one of the events that delivery goroutines hold. */
    method TakeLive(id: SubId, e: Event)
      requires Valid() && id in streams && streams[id].status.Open? && CaughtUp(streams[id]) && e in streams[id].pending
      modifies this
      ensures Valid() && Took(Deliver(id, e)) && id in streams
      ensures Delivered(streams[id]) == Delivered(old(streams[id])) + [e]
      ensures streams[id].pending == old(streams)[id].pending - multiset{e} && streams == old(streams)[id := streams[id]]
    {
      var b := streams[id];
      DeliveredLive(b, e);
      Put(id, b.(pending := b.pending - multiset{e}, live := b.live + [e]), Deliver(id, e));
    }

    /** closeSubscription, first part: Done is closed. */
    method CloseDone(id: SubId)
      requires Valid() && id in streams && streams[id].status.Open?
      modifies this
      ensures Valid() && Took(Close(id)) && streams == old(streams)[id := old(streams)[id].(status := Closing)]
    {
      Put(id, streams[id].(status := Closing), Close(id));
    }

    /** A delivery goroutine finds Done closed and gives up. */
    method GiveUp(id: SubId, e: Event)
      requires Valid() && id in streams && !streams[id].status.Open? && e in streams[id].pending
      modifies this
      ensures Valid() && Took(Drop(id, e)) && id in streams && Delivered(streams[id]) == Delivered(old(streams)[id])
      ensures streams[id].pending == old(streams)[id].pending - multiset{e}
      ensures streams == old(streams)[id := streams[id]]
    {
      Put(id, streams[id].(pending := streams[id].pending - multiset{e}), Drop(id, e));
    }

    /** closeSubscription, second part: the entry is deleted. */
    method Delete(id: SubId)
      requires Valid() && id in streams && streams[id].status.Closing?
      modifies this
      ensures Valid() && Took(Remove(id)) && id !in subscriptions
      ensures streams == old(streams)[id := old(streams)[id].(status := Removed)]
    {
      RunStep(run, Model(), Remove(id));
      subscriptions, streams, run :=
        subscriptions - {id}, streams[id := streams[id].(status := Removed)], run + [Remove(id)];
    }

    /** Whatever methods were called in whatever order: no subscription that is open has lost an event. */
    lemma HasEverything(id: SubId, e: Event)
      requires Valid() && id in streams && streams[id].status.Open? && streams[id].snapshot.Some?
      requires FannedOut(Model(), e) && Replayable(e, streams[id].filter) && AloneInInstant(published, e)
      ensures e in streams[id].snapshot.value || e in streams[id].pending || e in streams[id].live
    {
      NothingIsLost(run, id, e);
    }

    /** And none has been handed an event more than once more often than it was published. */
    lemma HasNothingTooOften(id: SubId, e: Event)
      requires Valid() && id in streams
      ensures Received(streams[id], e) <= 1 + multiset(published)[e]
      ensures Received(streams[id], e) > 0 ==> e in published && RootAccepted(e, streams[id].filter)
    {
      AtMostTwice(run, id, e);
    }
  }

  /** While stored events are left to send, no live one has been handed over. */
  ghost predicate StoredFirst(b: Subscription) {
    !CaughtUp(b) ==> b.live == []
  }

  lemma StepKeepsStoredFirst(s: State, a: Action, id: SubId)
    requires Enabled(s, a) && id in Apply(s, a).subs && (id in s.subs ==> StoredFirst(s.subs[id]))
    requires id in s.subs && s.subs[id].snapshot.None? ==> s.subs[id].live == []
    ensures StoredFirst(Apply(s, a).subs[id])
  {
  }

  lemma {:induction false} StoredComeFirst(run: seq<Action>, id: SubId)
    requires Run(run).Some? && id in Run(run).value.subs
    ensures StoredFirst(Run(run).value.subs[id])
  {
    if run != [] {
      var before := run[..|run| - 1];
      if id in Run(before).value.subs { StoredComeFirst(before, id); }
      StepKeepsStoredFirst(Run(before).value, run[|run| - 1], id);
    }
  }
}
