/** A parallel call on top of the event bus. */
module ParallelOverBus {
  // The clock, the launches, the ends of the children, and the subscription that the call makes once it has launched
  // them all.

  import opened Text
  import opened Values
  import opened Events
  import opened ParallelCaller
  import PubSub

  // ---------- any subscription of any run of the bus ----------

  /** Nothing is published as the end of a child but that child's one end. */
  ghost predicate EndsOnce(published: seq<Event>, ids: seq<CallId>, ends: seq<Event>) {
    && AreEnds(ids, ends)
    && forall e, i :: e in published && 0 <= i < |ids| && IsEndOf(e, ids[i]) ==> e == ends[i]
  }

  lemma DeliveredWasPublished(run: seq<PubSub.Action>, sub: PubSub.SubId, e: Event)
    requires PubSub.Run(run).Some? && sub in PubSub.Run(run).value.subs
    requires e in PubSub.Delivered(PubSub.Run(run).value.subs[sub])
    ensures e in PubSub.Run(run).value.published
  {
    PubSub.AtMostTwice(run, sub, e);
    assert e in multiset(PubSub.Delivered(PubSub.Run(run).value.subs[sub]));
  }

  /** At every moment, of every subscription, whatever its filter and status: once a call has read an end of each of
      its children off the stream, its result is decided by these ends alone. */
  lemma FinishIsDecided(run: seq<PubSub.Action>, sub: PubSub.SubId, ids: seq<CallId>, ends: seq<Event>, n: nat)
    requires PubSub.Run(run).Some? && sub in PubSub.Run(run).value.subs
    requires EndsOnce(PubSub.Run(run).value.published, ids, ends)
    requires n <= |PubSub.Delivered(PubSub.Run(run).value.subs[sub])|
    requires AllEnded(ids, PubSub.Delivered(PubSub.Run(run).value.subs[sub])[..n])
    ensures var read := PubSub.Delivered(PubSub.Run(run).value.subs[sub])[..n];
      ResultOf(ids, read, Erred(ids, read)) == Expected(ids, ends)
  {
    var stream := PubSub.Delivered(PubSub.Run(run).value.subs[sub]);
    forall k, i | 0 <= k < n && 0 <= i < |ids| && IsEndOf(stream[..n][k], ids[i]) ensures stream[..n][k] == ends[i] {
      DeliveredWasPublished(run, sub, stream[k]);
    }
    OrderDoesNotMatter(ids, stream[..n], ends);
  }

  lemma {:induction false} DeliveredCounts(stream: seq<Event>, e: Event, id: CallId)
    requires IsEndOf(e, id) && e in stream
    ensures EndCount(stream, id) > 0
  {
    var n := |stream| - 1;
    if stream[n] != e { DeliveredCounts(stream[..n], e, id); }
  }

  // ---------- the call, its children and the clock ----------

  /** The calls that are launched, their root, the call's own subscription and the time at the beginning. */
  datatype Setup = Setup(ids: seq<CallId>, root: CallId, sub: PubSub.SubId, epoch: Timestamp)

  /** `start` is the call's startTime once it is taken, `launched` how many children run, `ended` the event that each
      child has made of its end. */
  datatype System = System(
    bus: PubSub.State,
    now: Timestamp,
    start: Option<Timestamp>,
    launched: nat,
    ended: map<nat, Event>)

  datatype Step =
    | Tick(to: Timestamp)                   // the clock never goes back
    | Begin                                 // startTime is taken
    | Launch                                // the next child is started
    | End(i: nat, parent: Option<CallId>, outcome: Outcome, outputs: Scope, error: Option<string>)
    | Bus(a: PubSub.Action)                 // any step of the event bus, on behalf of this call or of others

  function Beginning(c: Setup): System {
    System(PubSub.INIT, c.epoch, None, 0, map[])
  }

  /** Only a child publishes its end, after it has made the event; and the call subscribes when all children have been
      launched, to its own tree, from startTime on. Otherwise anything may be published and anyone may subscribe. */
  predicate Permitted(c: Setup, s: System, a: PubSub.Action) {
    && (a.Add? ==> forall i :: 0 <= i < |c.ids| && IsEndOf(a.e, c.ids[i]) ==> i in s.ended && s.ended[i] == a.e)
    && (a.Register? && a.id == c.sub ==>
          s.start.Some? && s.launched == |c.ids| && a.filter == EventFilter(Some([c.root]), s.start))
  }

  predicate Enabled(c: Setup, s: System, x: Step) {
    match x
    case Tick(to) => s.now <= to
    case Begin => s.start.None?
    case Launch => s.start.Some? && s.launched < |c.ids|
    case End(i, _, _, _, _) => i < s.launched && i < |c.ids| && i !in s.ended
    case Bus(a) => PubSub.Enabled(s.bus, a) && Permitted(c, s, a)
  }

  function Apply(c: Setup, s: System, x: Step): System
    requires Enabled(c, s, x)
  {
    match x
    case Tick(to) => s.(now := to)
    case Begin => s.(start := Some(s.now))
    case Launch => s.(launched := s.launched + 1)
    case End(i, parent, outcome, outputs, error) =>
      var call := Events.Call.Call(c.ids[i], c.root, parent);
      s.(ended := s.ended[i := Event(s.now, CallEnded(call, outcome, outputs, error))])
    case Bus(a) => s.(bus := PubSub.Apply(s.bus, a))
  }

  /** The state after a run, if every step was enabled in its turn. */
  function Run(c: Setup, run: seq<Step>): Option<System> {
    if run == [] then Some(Beginning(c))
    else
      var before := Run(c, run[..|run| - 1]);
      if before.Some? && Enabled(c, before.value, run[|run| - 1])
      then Some(Apply(c, before.value, run[|run| - 1]))
      else None
  }

  /** What the bus saw of a run. */
  function BusRun(run: seq<Step>): seq<PubSub.Action> {
    if run == [] then []
    else BusRun(run[..|run| - 1]) + if run[|run| - 1].Bus? then [run[|run| - 1].a] else []
  }

  lemma StepOnBus(c: Setup, s: System, x: Step, seen: seq<PubSub.Action>)
    requires PubSub.Run(seen) == Some(s.bus) && Enabled(c, s, x)
    ensures PubSub.Run(seen + if x.Bus? then [x.a] else []) == Some(Apply(c, s, x).bus)
  {
    if x.Bus? { PubSub.RunStep(seen, s.bus, x.a); } else { assert seen + [] == seen; }
  }

  lemma {:induction false} BusRunIsRun(c: Setup, run: seq<Step>)
    requires Run(c, run).Some?
    ensures PubSub.Run(BusRun(run)) == Some(Run(c, run).value.bus)
  {
    if run == [] {
      assert PubSub.Run([]) == Some(PubSub.INIT);
    } else {
      var before, x := run[..|run| - 1], run[|run| - 1];
      BusRunIsRun(c, before);
      StepOnBus(c, Run(c, before).value, x, BusRun(before));
    }
  }

  // ---------- what every run keeps ----------

  /** Children run only after startTime was taken, so no end is before it. */
  ghost predicate Timed(c: Setup, s: System) {
    && s.launched <= |c.ids|
    && (s.start.None? ==> s.launched == 0)
    && (s.start.Some? ==> s.start.value <= s.now)
    && forall i :: i in s.ended ==> EndOfChild(c, s, i)
  }

  ghost predicate EndOfChild(c: Setup, s: System, i: nat)
    requires i in s.ended
  {
    && i < s.launched <= |c.ids| && IsEndOf(s.ended[i], c.ids[i]) && RootCallId(s.ended[i]) == c.root
    && s.start.Some? && s.start.value <= s.ended[i].timestamp <= s.now
  }

  ghost predicate PublishedByChildren(c: Setup, s: System) {
    forall e, i :: e in s.bus.published && 0 <= i < |c.ids| && IsEndOf(e, c.ids[i]) ==> i in s.ended && e == s.ended[i]
  }

  ghost predicate SubscribedLate(c: Setup, s: System) {
    c.sub in s.bus.subs ==>
      s.start.Some? && s.launched == |c.ids| && s.bus.subs[c.sub].filter == EventFilter(Some([c.root]), s.start)
  }

  lemma StepKeepsTimed(c: Setup, s: System, x: Step)
    requires Timed(c, s) && Enabled(c, s, x)
    ensures Timed(c, Apply(c, s, x))
  {
    var t := Apply(c, s, x);
    forall i | i in t.ended ensures EndOfChild(c, t, i) {
      if i in s.ended { assert EndOfChild(c, s, i); }
    }
  }

  lemma StepKeepsPublished(c: Setup, s: System, x: Step)
    requires PublishedByChildren(c, s) && Enabled(c, s, x)
    ensures PublishedByChildren(c, Apply(c, s, x))
  {
  }

  lemma StepKeepsSubscribed(c: Setup, s: System, x: Step)
    requires SubscribedLate(c, s) && Enabled(c, s, x)
    ensures SubscribedLate(c, Apply(c, s, x))
  {
  }

  lemma {:induction false} EveryRunKeeps(c: Setup, run: seq<Step>)
    requires Run(c, run).Some?
    ensures Timed(c, Run(c, run).value) && PublishedByChildren(c, Run(c, run).value) && SubscribedLate(c, Run(c, run).value)
  {
    if run != [] {
      EveryRunKeeps(c, run[..|run| - 1]);
      var s, x := Run(c, run[..|run| - 1]).value, run[|run| - 1];
      StepKeepsTimed(c, s, x);
      StepKeepsPublished(c, s, x);
      StepKeepsSubscribed(c, s, x);
    }
  }

  /** The end that a child makes says what it returned, once and for all. */
  lemma {:induction false} EndsAsReturned(c: Setup, run: seq<Step>, j: nat)
    requires Run(c, run).Some? && j < |run| && run[j].End?
    ensures var (x, ended) := (run[j], Run(c, run).value.ended);
      && x.i < |c.ids| && x.i in ended
      && ended[x.i].payload == CallEnded(Events.Call.Call(c.ids[x.i], c.root, x.parent), x.outcome, x.outputs, x.error)
  {
    var n := |run| - 1;
    if j < n {
      EndsAsReturned(c, run[..n], j);
      assert run[..n][j] == run[j];
    }
  }

  // ---------- what the call can rely on ----------

  /** In every run, though the call subscribes only after its children run: its filter lets every end through that a
      child has made, however long before. */
  lemma SinceIsEarlyEnough(c: Setup, run: seq<Step>, i: nat)
    requires Run(c, run).Some? && c.sub in Run(c, run).value.bus.subs && i in Run(c, run).value.ended
    ensures Replayable(Run(c, run).value.ended[i], Run(c, run).value.bus.subs[c.sub].filter)
  {
    EveryRunKeeps(c, run);
    assert EndOfChild(c, Run(c, run).value, i);
  }

  /** No fan-out of the event came after the call registered, and the log did not hold it when the snapshot was taken. */
  ghost predicate PassedBy(bus: PubSub.State, sub: PubSub.SubId, e: Event) {
    && sub in bus.subs && sub in bus.settled && sub in bus.snapshotAt && bus.snapshotAt[sub] <= |bus.published|
    && PubSub.Fanned(bus, e) == bus.settled[sub][e] && !PubSub.Survives(bus.published[..bus.snapshotAt[sub]], e)
  }

  lemma {:induction false} PublishedEndIsOwn(c: Setup, run: seq<Step>, e: Event, i: nat)
    requires Run(c, run).Some? && i < |c.ids| && e in Run(c, run).value.bus.published && IsEndOf(e, c.ids[i])
    ensures i in Run(c, run).value.ended && e == Run(c, run).value.ended[i]
  {
    EveryRunKeeps(c, run);
  }

  lemma EndIsOfItsChild(c: Setup, run: seq<Step>, i: nat)
    requires Run(c, run).Some? && i in Run(c, run).value.ended
    ensures i < |c.ids| && IsEndOf(Run(c, run).value.ended[i], c.ids[i])
  {
    EveryRunKeeps(c, run);
    assert EndOfChild(c, Run(c, run).value, i);
  }

  lemma DeliveredEndIsOwn(c: Setup, run: seq<Step>, i: nat)
    requires Run(c, run).Some? && c.sub in Run(c, run).value.bus.subs && i < |c.ids|
    requires EndCount(PubSub.Delivered(Run(c, run).value.bus.subs[c.sub]), c.ids[i]) > 0
    ensures i in Run(c, run).value.ended
    ensures Run(c, run).value.ended[i] in PubSub.Delivered(Run(c, run).value.bus.subs[c.sub])
  {
    var stream := PubSub.Delivered(Run(c, run).value.bus.subs[c.sub]);
    BusRunIsRun(c, run);
    var k := SomeEndDelivered(stream, c.ids[i]);
    DeliveredWasPublished(BusRun(run), c.sub, stream[k]);
    PublishedEndIsOwn(c, run, stream[k], i);
  }

  /** The end of a child has been delivered exactly if the event that this child made has. */
  lemma OwnEndDelivered(c: Setup, run: seq<Step>, i: nat)
    requires Run(c, run).Some? && c.sub in Run(c, run).value.bus.subs && i < |c.ids|
    ensures var s := Run(c, run).value;
      EndCount(PubSub.Delivered(s.bus.subs[c.sub]), c.ids[i]) > 0 <==>
      i in s.ended && s.ended[i] in PubSub.Delivered(s.bus.subs[c.sub])
  {
    var s := Run(c, run).value;
    var stream := PubSub.Delivered(s.bus.subs[c.sub]);
    if EndCount(stream, c.ids[i]) > 0 { DeliveredEndIsOwn(c, run, i); }
    if i in s.ended && s.ended[i] in stream {
      EndIsOfItsChild(c, run, i);
      DeliveredCounts(stream, s.ended[i], c.ids[i]);
    }
  }

  /** When nothing is left to hand over, the end that a child has made has reached the call exactly if it was not passed
      by. */
  lemma EndArrivesUnlessPassedBy(c: Setup, run: seq<Step>, i: nat)
    requires Run(c, run).Some? && c.sub in Run(c, run).value.bus.subs && i in Run(c, run).value.ended
    requires PubSub.Drained(Run(c, run).value.bus.subs[c.sub])
    ensures var s := Run(c, run).value;
      s.ended[i] in PubSub.Delivered(s.bus.subs[c.sub]) <==> !PassedBy(s.bus, c.sub, s.ended[i])
  {
    var s := Run(c, run).value;
    SinceIsEarlyEnough(c, run, i);
    BusRunIsRun(c, run);
    PubSub.LostExactly(BusRun(run), c.sub, s.ended[i]);
    DrainedHasAll(s.bus.subs[c.sub]);
  }

  lemma DrainedHasAll(b: PubSub.Subscription)
    requires PubSub.Drained(b)
    ensures forall e :: e in PubSub.Delivered(b) <==> e in b.snapshot.value || e in b.pending || e in b.live
  {
    assert b.snapshot.value[..b.replayed] == b.snapshot.value;
  }

  /** No end is lost that is fanned out and shares its instant with no other event, whenever the call registered. */
  lemma EndArrives(c: Setup, run: seq<Step>, i: nat)
    requires Run(c, run).Some? && c.sub in Run(c, run).value.bus.subs && i in Run(c, run).value.ended
    requires PubSub.Drained(Run(c, run).value.bus.subs[c.sub])
    requires PubSub.FannedOut(Run(c, run).value.bus, Run(c, run).value.ended[i])
    requires PubSub.AloneInInstant(Run(c, run).value.bus.published, Run(c, run).value.ended[i])
    ensures Run(c, run).value.ended[i] in PubSub.Delivered(Run(c, run).value.bus.subs[c.sub])
  {
    var s := Run(c, run).value;
    SinceIsEarlyEnough(c, run, i);
    BusRunIsRun(c, run);
    PubSub.NothingIsLost(BusRun(run), c.sub, s.ended[i]);
    DrainedHasAll(s.bus.subs[c.sub]);
  }

  // ---------- the call ----------

  ghost predicate AllMade(c: Setup, s: System) {
    forall i :: 0 <= i < |c.ids| ==> i in s.ended
  }

  /** The children's ends, in child order. */
  ghost function Ends(c: Setup, s: System): (ends: seq<Event>)
    requires AllMade(c, s)
    ensures |ends| == |c.ids| && forall i :: 0 <= i < |ends| ==> ends[i] == s.ended[i]
  {
    seq(|c.ids|, i requires 0 <= i < |c.ids| => s.ended[i])
  }

  lemma EndsAreOnce(c: Setup, run: seq<Step>)
    requires Run(c, run).Some? && AllMade(c, Run(c, run).value)
    ensures EndsOnce(Run(c, run).value.bus.published, c.ids, Ends(c, Run(c, run).value))
  {
    var s := Run(c, run).value;
    forall i | 0 <= i < |c.ids| ensures IsEndOf(s.ended[i], c.ids[i]) { EndIsOfItsChild(c, run, i); }
    forall e, i | e in s.bus.published && 0 <= i < |c.ids| && IsEndOf(e, c.ids[i]) ensures e == s.ended[i] {
      PublishedEndIsOwn(c, run, e, i);
    }
  }

  lemma {:induction false} CountGrows(stream: seq<Event>, n: nat, id: CallId)
    requires n <= |stream|
    ensures EndCount(stream[..n], id) <= EndCount(stream, id)
  {
    if n < |stream| {
      assert stream[..|stream| - 1][..n] == stream[..n];
      CountGrows(stream[..|stream| - 1], n, id);
    } else {
      assert stream[..n] == stream;
    }
  }

  /** A call that has finished has been told of every child's own end. */
  lemma FinishedMeansMade(c: Setup, run: seq<Step>, n: nat)
    requires Run(c, run).Some? && c.sub in Run(c, run).value.bus.subs
    requires n <= |PubSub.Delivered(Run(c, run).value.bus.subs[c.sub])|
    requires AllEnded(c.ids, PubSub.Delivered(Run(c, run).value.bus.subs[c.sub])[..n])
    ensures AllMade(c, Run(c, run).value)
  {
    var stream := PubSub.Delivered(Run(c, run).value.bus.subs[c.sub]);
    AllEndedMeans(c.ids, stream[..n]);
    forall i | 0 <= i < |c.ids| ensures i in Run(c, run).value.ended {
      CountGrows(stream, n, c.ids[i]);
      OwnEndDelivered(c, run, i);
    }
  }

  /** A drained call with children can still be waiting exactly if some child has made no end or its end was passed by. */
  lemma WaitsExactly(c: Setup, run: seq<Step>)
    requires Run(c, run).Some? && c.sub in Run(c, run).value.bus.subs && c.ids != []
    requires PubSub.Drained(Run(c, run).value.bus.subs[c.sub])
    ensures var s := Run(c, run).value;
      var stream := PubSub.Delivered(s.bus.subs[c.sub]);
      Unfinished(c.ids, stream, |stream|) <==>
      exists i :: 0 <= i < |c.ids| && (i in s.ended ==> PassedBy(s.bus, c.sub, s.ended[i]))
  {
    var s := Run(c, run).value;
    var stream := PubSub.Delivered(s.bus.subs[c.sub]);
    AllEndedMeans(c.ids, stream);
    assert stream[..|stream|] == stream;
    forall i: nat | i < |c.ids|
      ensures EndCount(stream, c.ids[i]) > 0 <==> i in s.ended && !PassedBy(s.bus, c.sub, s.ended[i])
    {
      OwnEndDelivered(c, run, i);
      if i in s.ended { EndArrivesUnlessPassedBy(c, run, i); }
    }
    if AllEnded(c.ids, stream) {
      FinishesOnceAllEnded(c.ids, stream, |stream|);
    } else {
      NeverFinishes(c.ids, stream, |stream|);
    }
  }

  /** So it has finished once every child's end is fanned out, if each was the only event of its instant. */
  lemma EveryEndArrives(c: Setup, run: seq<Step>)
    requires Run(c, run).Some? && c.sub in Run(c, run).value.bus.subs && c.ids != []
    requires PubSub.Drained(Run(c, run).value.bus.subs[c.sub]) && AllMade(c, Run(c, run).value)
    requires forall e :: e in Ends(c, Run(c, run).value) ==>
      PubSub.FannedOut(Run(c, run).value.bus, e) && PubSub.AloneInInstant(Run(c, run).value.bus.published, e)
    ensures var stream := PubSub.Delivered(Run(c, run).value.bus.subs[c.sub]); !Unfinished(c.ids, stream, |stream|)
  {
    var s := Run(c, run).value;
    forall i: nat | i < |c.ids| ensures !PassedBy(s.bus, c.sub, s.ended[i]) {
      assert Ends(c, s)[i] in Ends(c, s);
      EndArrives(c, run, i);
      EndArrivesUnlessPassedBy(c, run, i);
    }
    WaitsExactly(c, run);
  }

  lemma {:induction false} NeverFinishes(ids: seq<CallId>, stream: seq<Event>, n: nat)
    requires n <= |stream| && !AllEnded(ids, stream)
    ensures Unfinished(ids, stream, n)
  {
    if n > 0 {
      NeverFinishes(ids, stream, n - 1);
      if AllEnded(ids, stream[..n]) {
        AllEndedMeans(ids, stream[..n]);
        forall i | 0 <= i < |ids| ensures EndCount(stream, ids[i]) > 0 { CountGrows(stream, n, ids[i]); }
        AllEndedMeans(ids, stream);
      }
    }
  }

  /** The call at any moment of any run: it reads whatever its subscription has got so far. If it finishes, then on the
      children's own ends, whatever is still pending; and once its subscription is drained it has finished, unless a
      child has made no end or an end was passed by. */
  method CallOverBus(children: seq<ChildSpec>, ids: seq<CallId>, stream: seq<Event>, ghost c: Setup, ghost run: seq<Step>)
    returns (result: Result<Scope>, taken: nat)
    requires |children| == |ids| && Distinct(ids) && c.ids == ids
    requires Run(c, run).Some? && c.sub in Run(c, run).value.bus.subs
    requires stream == PubSub.Delivered(Run(c, run).value.bus.subs[c.sub])
    ensures taken <= |stream| && (Unfinished(ids, stream, taken) ==> taken == |stream| && result == Ok(map[]))
    ensures !Unfinished(ids, stream, taken) ==> AllMade(c, Run(c, run).value)
    ensures !Unfinished(ids, stream, taken) ==> EndsOnce(Run(c, run).value.bus.published, ids, Ends(c, Run(c, run).value))
    ensures !Unfinished(ids, stream, taken) ==> result == Expected(ids, Ends(c, Run(c, run).value))
    ensures ids != [] && PubSub.Drained(Run(c, run).value.bus.subs[c.sub]) ==>
      (Unfinished(ids, stream, taken) <==>
        exists i :: 0 <= i < |ids| && (i in Run(c, run).value.ended ==>
          PassedBy(Run(c, run).value.bus, c.sub, Run(c, run).value.ended[i])))
  {
    var kills, cancelled;
    result, kills, taken, cancelled := ParallelCaller.Call(children, ids, stream);
    if !Unfinished(ids, stream, taken) {
      FinishedMeansMade(c, run, taken);
      EndsAreOnce(c, run);
      BusRunIsRun(c, run);
      FinishIsDecided(BusRun(run), c.sub, ids, Ends(c, Run(c, run).value), taken);
    }
    if ids != [] && PubSub.Drained(Run(c, run).value.bus.subs[c.sub]) {
      WaitsExactly(c, run);
      UnfinishedShrinks(ids, stream, taken, |stream|);
    }
  }

  lemma {:induction false} UnfinishedShrinks(ids: seq<CallId>, stream: seq<Event>, n: nat, m: nat)
    requires n <= m <= |stream|
    ensures Unfinished(ids, stream, m) ==> Unfinished(ids, stream, n)
  {
    if n < m { UnfinishedShrinks(ids, stream, n, m - 1); }
  }

  // ---------- two runs ----------

  lemma Then(c: Setup, run: seq<Step>, s: System, x: Step)
    requires Run(c, run) == Some(s) && Enabled(c, s, x)
    ensures Run(c, run + [x]) == Some(Apply(c, s, x))
  {
    assert (run + [x])[..|run + [x]| - 1] == run;
  }

  function EndAt(c: Setup, i: nat, t: Timestamp): Event
    requires i < |c.ids|
  {
    Event(t, CallEnded(Events.Call.Call(c.ids[i], c.root, None), Succeeded, map[], None))
  }

  /** Both children end in the instant in which the call began. */
  lemma BothEnd(c: Setup) returns (run: seq<Step>)
    requires |c.ids| == 2 && Distinct(c.ids)
    ensures Run(c, run) == Some(System(PubSub.INIT, c.epoch, Some(c.epoch), 2,
                                       map[0 := EndAt(c, 0, c.epoch), 1 := EndAt(c, 1, c.epoch)]))
  {
    var s := Beginning(c);
    run := [];
    Then(c, run, s, Begin);
    run, s := run + [Begin], s.(start := Some(c.epoch));
    Then(c, run, s, Launch);
    run, s := run + [Launch], s.(launched := 1);
    Then(c, run, s, Launch);
    run, s := run + [Launch], s.(launched := 2);
    var x := End(0, None, Succeeded, map[], None);
    Then(c, run, s, x);
    run, s := run + [x], s.(ended := map[0 := EndAt(c, 0, c.epoch)]);
    var y := End(1, None, Succeeded, map[], None);
    Then(c, run, s, y);
    run := run + [y];
  }

  /** The rest of the system stands still while the bus makes these steps. */
  lemma {:induction false} Follow(c: Setup, run: seq<Step>, s: System, actions: seq<PubSub.Action>) returns (longer: seq<Step>)
    requires Run(c, run) == Some(s) && s.bus == PubSub.INIT && PubSub.Run(actions).Some?
    requires forall a :: a in actions ==> Permitted(c, s, a)
    ensures Run(c, longer) == Some(s.(bus := PubSub.Run(actions).value))
  {
    if actions == [] {
      longer := run;
    } else {
      var n := |actions| - 1;
      var a := actions[n];
      longer := Follow(c, run, s, actions[..n]);
      var t := s.(bus := PubSub.Run(actions[..n]).value);
      assert Permitted(c, s, a) && Permitted(c, t, a);
      Then(c, longer, t, Bus(a));
      longer := longer + [Bus(a)];
    }
  }

  lemma MissingEndBlocks(c: Setup, run: seq<Step>, i: nat)
    requires Run(c, run).Some? && c.sub in Run(c, run).value.bus.subs && i < |c.ids|
    requires i in Run(c, run).value.ended
    requires Run(c, run).value.ended[i] !in PubSub.Delivered(Run(c, run).value.bus.subs[c.sub])
    ensures var stream := PubSub.Delivered(Run(c, run).value.bus.subs[c.sub]); Unfinished(c.ids, stream, |stream|)
  {
    var stream := PubSub.Delivered(Run(c, run).value.bus.subs[c.sub]);
    OwnEndDelivered(c, run, i);
    AllEndedMeans(c.ids, stream);
    NeverFinishes(c.ids, stream, |stream|);
  }

  lemma PublishOneOverTheOther(c: Setup, run: seq<Step>) returns (longer: seq<Step>)
    requires |c.ids| == 2 && Distinct(c.ids)
    requires Run(c, run) == Some(System(PubSub.INIT, c.epoch, Some(c.epoch), 2,
                                        map[0 := EndAt(c, 0, c.epoch), 1 := EndAt(c, 1, c.epoch)]))
    ensures Run(c, longer).Some? && Run(c, longer).value.ended == Run(c, run).value.ended
    ensures var bus := Run(c, longer).value.bus;
      && c.sub in bus.subs && PubSub.Drained(bus.subs[c.sub])
      && PubSub.FannedOut(bus, EndAt(c, 0, c.epoch)) && PubSub.FannedOut(bus, EndAt(c, 1, c.epoch))
      && PubSub.Received(bus.subs[c.sub], EndAt(c, 0, c.epoch)) == 0
  {
    var s := Run(c, run).value;
    var e, f := EndAt(c, 0, c.epoch), EndAt(c, 1, c.epoch);
    assert c.ids[0] != c.ids[1] && e.payload.call.id == c.ids[0] && f.payload.call.id == c.ids[1];
    var actions := PubSub.OverwrittenIsLost(c.sub, e, f, EventFilter(Some([c.root]), s.start));
    forall a | a in actions ensures Permitted(c, s, a) { OwnStepsPermitted(c, s, a); }
    longer := Follow(c, run, s, actions);
  }

  lemma OwnStepsPermitted(c: Setup, s: System, a: PubSub.Action)
    requires |c.ids| == 2 && Distinct(c.ids) && s.start == Some(c.epoch) && s.launched == 2
    requires s.ended == map[0 := EndAt(c, 0, c.epoch), 1 := EndAt(c, 1, c.epoch)]
    requires a.Add? ==> a.e == EndAt(c, 0, c.epoch) || a.e == EndAt(c, 1, c.epoch)
    requires a.Register? ==> a.id == c.sub && a.filter == EventFilter(Some([c.root]), s.start)
    ensures Permitted(c, s, a)
  {
    if a.Add? {
      assert c.ids[0] != c.ids[1];
    }
  }

  /** Two children end in one instant before the call registers: both ends are fanned out and nothing is left to hand
      over, but the first was overwritten in the log, and the call waits for it. */
  lemma SameInstantBlocks(c: Setup) returns (run: seq<Step>)
    requires |c.ids| == 2 && Distinct(c.ids)
    ensures Run(c, run).Some? && c.sub in Run(c, run).value.bus.subs && AllMade(c, Run(c, run).value)
    ensures PubSub.Drained(Run(c, run).value.bus.subs[c.sub])
    ensures forall i :: 0 <= i < 2 ==> PubSub.FannedOut(Run(c, run).value.bus, Run(c, run).value.ended[i])
    ensures var stream := PubSub.Delivered(Run(c, run).value.bus.subs[c.sub]); Unfinished(c.ids, stream, |stream|)
  {
    run := BothEnd(c);
    run := PublishOneOverTheOther(c, run);
    var e := EndAt(c, 0, c.epoch);
    assert Run(c, run).value.ended[0] == e && Run(c, run).value.ended[1] == EndAt(c, 1, c.epoch);
    NoneReceived(Run(c, run).value.bus.subs[c.sub], e);
    MissingEndBlocks(c, run, 0);
  }

  lemma NoneReceived(b: PubSub.Subscription, e: Event)
    requires PubSub.Received(b, e) == 0
    ensures e !in PubSub.Delivered(b)
  {
    assert e !in multiset(PubSub.Delivered(b));
  }

  /** Two deliveries, both of ends of one child. */
  ghost predicate TwoEndsOf(stream: seq<Event>, id: CallId) {
    |stream| == 2 && IsEndOf(stream[0], id) && IsEndOf(stream[1], id)
  }

  lemma CounterAfterTwo(children: seq<ChildSpec>, ids: seq<CallId>, stream: seq<Event>, i: nat, name: string)
    requires |children| == |ids| && Distinct(ids) && i < |ids| && TwoEndsOf(stream, ids[i])
    ensures Counter(children, ids, stream, name) == TotalNeeds(children, name) - 2 * Occurrences(children[i].needs, name)
  {
    ReleasedBy(children, ids, stream[0], i, name);
    ReleasedBy(children, ids, stream[1], i, name);
    var first := stream[..1];
    assert first[0] == stream[0] && first[..0] == [];
    assert Counter(children, ids, first, name) == TotalNeeds(children, name) - Occurrences(children[i].needs, name);
  }

  /** When the bus delivers the one end of child `i` twice and nothing else yet, a call is asked to be killed exactly if
      child `i` has at least half of the needs for it. */
  lemma KilledByDuplicate(children: seq<ChildSpec>, ids: seq<CallId>, stream: seq<Event>, i: nat, needed: CallId, name: string)
    requires |children| == |ids| && Distinct(ids) && i < |ids| && TwoEndsOf(stream, ids[i])
    requires TotalNeeds(children, name) > 0 && IdOfName(children, ids, name) == Some(needed)
    ensures KillDue(children, ids, stream, KillRequest(1, needed), name) <==>
      TotalNeeds(children, name) <= 2 * Occurrences(children[i].needs, name)
  {
    CounterAfterTwo(children, ids, stream, i, name);
    assert stream[..2] == stream && ids[i] in ids;
  }

  /** Child `i` has at least half of all needs for the call, and child `j` has some of the others. */
  ghost predicate NeedIsShared(children: seq<ChildSpec>, ids: seq<CallId>, i: nat, j: nat, needed: CallId, name: string) {
    && |children| == |ids| && Distinct(ids) && i < |ids| && j < |ids| && i != j
    && IdOfName(children, ids, name) == Some(needed)
    && Occurrences(children[j].needs, name) > 0
    && TotalNeeds(children, name) <= 2 * Occurrences(children[i].needs, name)
  }

  /** As when a call is needed by two others, once each. */
  lemma TwoNeedIt(ids: seq<CallId>, name: string) returns (children: seq<ChildSpec>)
    requires |ids| == 3 && Distinct(ids)
    ensures NeedIsShared(children, ids, 1, 2, ids[0], name)
  {
    var need := NameToRef(name);
    children := [ChildSpec(Some(name), []), ChildSpec(None, [need]), ChildSpec(None, [need])];
    RefToNameOfRef(need, name);
    var two, one := children[..2], children[..1];
    assert two[..1] == one && one[..0] == [] && [need][..0] == [];
    assert ids[..2][..1] == ids[..1] && ids[..1][..0] == [];
    assert Occurrences([need], name) == 1 && Occurrences(one[0].needs, name) == 0;
    assert TotalNeeds(one, name) == 0 && TotalNeeds(two, name) == 1 && TotalNeeds(children, name) == 2;
    assert IdOfName(one, ids[..1], name) == Some(ids[0]) && IdOfName(two, ids[..2], name) == Some(ids[0]);
  }

  /** The last event read has the call killed, and the end of child `j` is not among those read. */
  ghost predicate KilledEarly(children: seq<ChildSpec>, ids: seq<CallId>, stream: seq<Event>, j: nat, needed: CallId) {
    && |children| == |ids| && j < |ids| && stream != []
    && Requested(children, ids, stream, KillRequest(|stream| - 1, needed)) && EndCount(stream, ids[j]) == 0
  }

  /** Then the duplicate has the call killed though child `j` still runs. */
  lemma DuplicateKillsNeeded(children: seq<ChildSpec>, ids: seq<CallId>, i: nat, j: nat, needed: CallId, name: string,
      stream: seq<Event>)
    requires NeedIsShared(children, ids, i, j, needed, name) && TwoEndsOf(stream, ids[i])
    ensures KilledEarly(children, ids, stream, j, needed)
  {
    OccurrencesWithinTotal(children, j, name);
    KilledByDuplicate(children, ids, stream, i, needed, name);
    var first := stream[..1];
    assert first[0] == stream[0] && first[..0] == [] && ids[i] != ids[j];
    assert EndCount(first, ids[j]) == 0;
  }

  /** And the bus does deliver an end twice that was published once: a run after which the kill has been asked for while
      child `j` runs. */
  lemma KilledWhileNeeded(children: seq<ChildSpec>, ids: seq<CallId>, i: nat, j: nat, needed: CallId, name: string, e: Event)
    returns (run: seq<PubSub.Action>)
    requires NeedIsShared(children, ids, i, j, needed, name) && IsEndOf(e, ids[i])
    ensures PubSub.Run(run).Some? && PubSub.Run(run).value.published == [e] && 0 in PubSub.Run(run).value.subs
    ensures KilledEarly(children, ids, PubSub.Delivered(PubSub.Run(run).value.subs[0]), j, needed)
  {
    run := PubSub.DeliveredTwice(0, e, EventFilter(Some([RootCallId(e)]), Some(e.timestamp)));
    DuplicateKillsNeeded(children, ids, i, j, needed, name, PubSub.Delivered(PubSub.Run(run).value.subs[0]));
  }
}
