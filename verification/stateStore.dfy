/** The stored auths: a map folded from the event log, and the lookups on it. */
module StateStore {
  // They are kept on disk with a checkpoint, so that a restarted node picks up where it left off.

  import opened Text

  /** Nanoseconds since 1970. */
  type Nanos = int

  const SECOND: Nanos := 1_000_000_000

  datatype Auth = Auth(resources: string, username: string)

  datatype Change =
    | AuthAdded(auth: Auth)
    | AuthRemoved(resources: string)
    | OtherChange

  datatype StoreEvent = StoreEvent(at: Nanos, change: Change)

  type Auths = map<string, Auth>

  // ---------- applying events ----------

  /** The key that an event writes or deletes. */
  predicate Touches(e: StoreEvent, key: string) {
    (e.change.AuthAdded? && Lower(e.change.auth.resources) == key) ||
    (e.change.AuthRemoved? && Lower(e.change.resources) == key)
  }

  function ApplyEvent(auths: Auths, e: StoreEvent): Auths {
    match e.change
    case AuthAdded(auth) => auths[Lower(auth.resources) := auth]
    case AuthRemoved(resources) => auths - {Lower(resources)}
    case OtherChange => auths
  }

  function ApplyAll(auths: Auths, events: seq<StoreEvent>): Auths {
    if events == [] then auths
    else ApplyEvent(ApplyAll(auths, events[..|events| - 1]), events[|events| - 1])
  }

  function Lookup(auths: Auths, key: string): Option<Auth> {
    if key in auths then Some(auths[key]) else None
  }

  /** What the last event on `key` leaves there; None if no event touches it. */
  function LastWord(events: seq<StoreEvent>, key: string): Option<Option<Auth>> {
    if events == [] then None
    else
      var e := events[|events| - 1];
      if Touches(e, key) then Some(if e.change.AuthAdded? then Some(e.change.auth) else None)
      else LastWord(events[..|events| - 1], key)
  }

  /** Whatever was delivered, in whatever order and how often: a key holds what the last delivered event on
      it left. So a delivery sequence yields the auths of the log exactly if both have the same last words. */
  lemma {:induction false} LastWordDecides(auths: Auths, events: seq<StoreEvent>, key: string)
    ensures Lookup(ApplyAll(auths, events), key) ==
      if LastWord(events, key).Some? then LastWord(events, key).value else Lookup(auths, key)
  {
    if events != [] { LastWordDecides(auths, events[..|events| - 1], key); }
  }

  lemma SameLastWordsSameAuths(delivered: seq<StoreEvent>, log: seq<StoreEvent>)
    ensures ApplyAll(map[], delivered) == ApplyAll(map[], log) <==>
      forall key :: Last(delivered, key) == Last(log, key)
  {
    var a, b := ApplyAll(map[], delivered), ApplyAll(map[], log);
    forall key ensures Lookup(a, key) == Last(delivered, key) && Lookup(b, key) == Last(log, key) {
      LastWordDecides(map[], delivered, key);
      LastWordDecides(map[], log, key);
    }
    if forall key :: Last(delivered, key) == Last(log, key) {
      forall key ensures Lookup(a, key) == Lookup(b, key) { assert Last(delivered, key) == Last(log, key); }
      SameLookupsSameMap(a, b);
    }
  }

  function Last(events: seq<StoreEvent>, key: string): Option<Auth> {
    if LastWord(events, key).Some? then LastWord(events, key).value else None
  }

  lemma SameLookupsSameMap(a: Auths, b: Auths)
    requires forall key :: Lookup(a, key) == Lookup(b, key)
    ensures a == b
  {
    forall key ensures key in a <==> key in b { assert Lookup(a, key) == Lookup(b, key); }
    forall key | key in a ensures a[key] == b[key] { assert Lookup(a, key) == Lookup(b, key); }
  }

  /** A late redelivery of an older event brings a removed auth back. */
  lemma StaleRedeliveryRestores(auth: Auth, t: Nanos)
    ensures var added, removed := StoreEvent(t, AuthAdded(auth)), StoreEvent(t + 1, AuthRemoved(auth.resources));
      && Lookup(ApplyAll(map[], [added, removed]), Lower(auth.resources)) == None
      && Lookup(ApplyAll(map[], [added, removed, added]), Lower(auth.resources)) == Some(auth)
  {
    var added, removed := StoreEvent(t, AuthAdded(auth)), StoreEvent(t + 1, AuthRemoved(auth.resources));
    LastWordDecides(map[], [added, removed], Lower(auth.resources));
    LastWordDecides(map[], [added, removed, added], Lower(auth.resources));
  }

  // ---------- checkpoints and restarts ----------

  /** `auths` and `checkpoint` (whole seconds) survive a crash. `cursor` is the position in the log of the next event to
      apply, `unsaved` the second of an applied event whose checkpoint is not written, and `zone` how many seconds the
      node's local time was ahead of UTC when it was last started. */
  datatype Node = Node(
    log: seq<StoreEvent>,
    auths: Auths,
    checkpoint: Option<int>,
    cursor: nat,
    unsaved: Option<int>,
    zone: int)

  datatype Step =
    | Publish(e: StoreEvent)
    | ApplyNext
    | ApplyLate(i: nat)           // an event that is behind the cursor, and changes no auth, is delivered
    | SaveCheckpoint
    | Crash(zone: int)            // and start again from the checkpoint, in this zone
    | Rewind(to: nat)             // the bus delivers the events from `to` on a second time, in order

  function NewNode(zone: int): Node {
    Node([], map[], None, 0, None, zone)
  }

  /** Seconds from 1970 back to Go's zero time, the beginning of year 1: 1969 years, with a leap day in every fourth but
      three of every four hundred. */
  const ZERO_TIME_SECONDS: int := -(1969 * 365 + 1969 / 4 - 1969 / 100 + 1969 / 400) * 24 * 60 * 60

  function Seconds(t: Nanos): int {
    t / SECOND
  }

  /** The instant that the replay seeks. Since is one second before the stored second, less one more; but it is a local
      time, and the log is sought by its wall-clock digits as if they were UTC. Go's zero time is in UTC. */
  function ReplayStart(checkpoint: Option<int>, zone: int): Nanos {
    (if checkpoint.Some? then checkpoint.value - 1 + zone else ZERO_TIME_SECONDS) * SECOND - SECOND
  }

  /** The first event of a log at or after `since`. */
  function Seek(log: seq<StoreEvent>, since: Nanos): (i: nat)
    ensures i <= |log|
    ensures forall j :: 0 <= j < i ==> log[j].at < since
    ensures i < |log| ==> since <= log[i].at
  {
    if log == [] || since <= log[0].at then 0 else 1 + Seek(log[1..], since)
  }

  /** An event takes its place in the log by its time. One that changes an auth comes last; others may come late, as the
      start of a call does, which carries the time at which interpretation began. */
  predicate Enabled(s: Node, step: Step) {
    match step
    case Publish(e) =>
      var p := Seek(s.log, e.at);
      ReplayStart(None, 0) <= e.at && (p < |s.log| ==> e.change.OtherChange? && s.log[p].at != e.at)
    case ApplyNext => s.cursor < |s.log| && s.unsaved.None?
    case ApplyLate(i) => i < s.cursor <= |s.log| && s.log[i].change.OtherChange? && s.unsaved.None?
    case SaveCheckpoint => s.unsaved.Some?
    case Crash(_) => true
    case Rewind(to) => Seek(s.log, ReplayStart(s.checkpoint, s.zone)) <= to <= s.cursor && s.unsaved.None?
  }

  function Inserted(log: seq<StoreEvent>, e: StoreEvent): seq<StoreEvent> {
    var p := Seek(log, e.at);
    log[..p] + [e] + log[p..]
  }

  /** Where the cursor is after that: it does not go back for an event that comes late. */
  function Moved(log: seq<StoreEvent>, cursor: nat, e: StoreEvent): nat {
    var p := Seek(log, e.at);
    if p < |log| && p <= cursor then cursor + 1 else cursor
  }

  function Take(s: Node, step: Step): Node
    requires Enabled(s, step)
  {
    match step
    case Publish(e) =>
      s.(log := Inserted(s.log, e), cursor := Moved(s.log, s.cursor, e))
    case ApplyNext =>
      s.(auths := ApplyEvent(s.auths, s.log[s.cursor]), cursor := s.cursor + 1, unsaved := Some(Seconds(s.log[s.cursor].at)))
    case ApplyLate(i) => s.(unsaved := Some(Seconds(s.log[i].at)))
    case SaveCheckpoint => s.(checkpoint := s.unsaved, unsaved := None)
    case Crash(zone) => s.(cursor := Seek(s.log, ReplayStart(s.checkpoint, zone)), unsaved := None, zone := zone)
    case Rewind(to) => s.(cursor := to)
  }

  /** A run of a node that is first started, with an empty database, in `zone`. */
  function Run(zone: int, steps: seq<Step>): Option<Node> {
    if steps == [] then Some(NewNode(zone))
    else
      var before := Run(zone, steps[..|steps| - 1]);
      if before.Some? && Enabled(before.value, steps[|steps| - 1])
      then Some(Take(before.value, steps[|steps| - 1]))
      else None
  }

  /** The zones of the restarts. */
  function Zones(steps: seq<Step>): seq<int> {
    if steps == [] then []
    else Zones(steps[..|steps| - 1]) + if steps[|steps| - 1].Crash? then [steps[|steps| - 1].zone] else []
  }

  /** No restart is more than two seconds ahead of UTC, and none is further ahead than the start before it. */
  predicate Safe(first: int, restarts: seq<int>) {
    forall i :: 0 <= i < |restarts| ==> SafeAt(first, restarts, i)
  }

  predicate SafeAt(first: int, restarts: seq<int>, i: nat)
    requires i < |restarts|
  {
    restarts[i] <= 2 && restarts[i] <= if i == 0 then first else restarts[i - 1]
  }

  /** What is stored, with the rest of the log applied, is what folding the whole log once gives. */
  predicate Recovered(s: Node) {
    s.cursor <= |s.log| && ApplyAll(s.auths, s.log[s.cursor..]) == ApplyAll(map[], s.log)
  }

  ghost predicate Chronological(log: seq<StoreEvent>) {
    forall i, j :: 0 <= i < j < |log| ==> log[i].at < log[j].at
  }

  /** Keys on which no event is left to apply are as the whole log leaves them. */
  ghost predicate Settled(auths: Auths, log: seq<StoreEvent>, cursor: nat)
    requires cursor <= |log|
  {
    forall key :: LastWord(log[cursor..], key).None? ==> Lookup(auths, key) == Last(log, key)
  }

  function Capped(zone: int): int {
    if zone <= 2 then zone else 2
  }

  /** The checkpointed second is that of some logged event, and its replay starts at or before `cursor`. */
  ghost predicate Covered(log: seq<StoreEvent>, checkpoint: Option<int>, zone: int, cursor: nat) {
    && Seek(log, ReplayStart(checkpoint, Capped(zone))) <= cursor
    && (checkpoint.Some? ==> exists i :: 0 <= i < |log| && Seconds(log[i].at) == checkpoint.value)
  }

  ghost predicate Inv(s: Node) {
    && Chronological(s.log)
    && (forall i :: 0 <= i < |s.log| ==> ReplayStart(None, 0) <= s.log[i].at)
    && s.cursor <= |s.log|
    && Settled(s.auths, s.log, s.cursor)
    && Covered(s.log, s.checkpoint, s.zone, s.cursor)
    && (s.unsaved.Some? ==> Covered(s.log, s.unsaved, s.zone, s.cursor))
  }

  /** In UTC a replay from an event's checkpoint starts at least two and less than three seconds before it; in a zone
      ahead of UTC it starts that much later. */
  lemma ReplayWindow(t: Nanos, zone: int)
    ensures (2 - zone) * SECOND <= t - ReplayStart(Some(Seconds(t)), zone) < (3 - zone) * SECOND
  {
  }

  lemma SeekEarlier(log: seq<StoreEvent>, a: Nanos, b: Nanos)
    requires a <= b
    ensures Seek(log, a) <= Seek(log, b)
  {
  }

  lemma ReplayStartEarlier(checkpoint: Option<int>, a: int, b: int)
    requires a <= b
    ensures ReplayStart(checkpoint, a) <= ReplayStart(checkpoint, b)
  {
  }

  /** Where a seek arrives once an event is inserted. */
  lemma SeekInserted(log: seq<StoreEvent>, e: StoreEvent, since: Nanos)
    ensures Seek(Inserted(log, e), since) <= Seek(log, since) + 1
    ensures Seek(log, since) < Seek(log, e.at) ==> Seek(Inserted(log, e), since) == Seek(log, since)
  {
    var i, p, longer := Seek(log, since), Seek(log, e.at), Inserted(log, e);
    assert forall j :: 0 <= j < |log| ==> log[j] == longer[if j < p then j else j + 1];
    if i < |log| { assert longer[if i < p then i else i + 1].at >= since; }
    if i < p { assert forall j :: 0 <= j < i ==> longer[j] == log[j]; }
  }

  lemma InsertedAt(log: seq<StoreEvent>, e: StoreEvent, i: nat)
    requires i <= |log|
    ensures var p := Seek(log, e.at);
      i < |Inserted(log, e)| && Inserted(log, e)[i] == if i < p then log[i] else if i == p then e else log[i - 1]
  {
  }

  lemma InsertedIsChronological(log: seq<StoreEvent>, e: StoreEvent)
    requires Chronological(log) && (Seek(log, e.at) < |log| ==> log[Seek(log, e.at)].at != e.at)
    ensures Chronological(Inserted(log, e))
  {
    var p, longer := Seek(log, e.at), Inserted(log, e);
    forall i, j | 0 <= i < j < |longer| ensures longer[i].at < longer[j].at {
      InsertedAt(log, e, i);
      InsertedAt(log, e, j);
      if i == p { assert log[p].at <= log[j - 1].at; }
    }
  }

  lemma StillThere(log: seq<StoreEvent>, e: StoreEvent, i: nat)
    requires i < |log|
    ensures exists j :: 0 <= j < |Inserted(log, e)| && Inserted(log, e)[j] == log[i]
  {
    var j := if i < Seek(log, e.at) then i else i + 1;
    InsertedAt(log, e, j);
    assert Inserted(log, e)[j] == log[i];
  }

  /** A checkpoint that is covered stays so when an event takes its place in the log. */
  lemma CoveredInLongerLog(log: seq<StoreEvent>, e: StoreEvent, checkpoint: Option<int>, zone: int, cursor: nat)
    requires Covered(log, checkpoint, zone, cursor) && cursor <= |log|
    requires checkpoint.None? ==> forall x :: x in log + [e] ==> ReplayStart(None, 0) <= x.at
    ensures Covered(Inserted(log, e), checkpoint, zone, Moved(log, cursor, e))
  {
    var since, longer := ReplayStart(checkpoint, Capped(zone)), Inserted(log, e);
    SeekInserted(log, e, since);
    if checkpoint.Some? {
      var i :| 0 <= i < |log| && Seconds(log[i].at) == checkpoint.value;
      ReplayWindow(log[i].at, Capped(zone));
      StillThere(log, e, i);
    } else if longer != [] {
      assert longer[0] in log + [e];
    }
  }

  lemma {:induction false} LastWordAppend(a: seq<StoreEvent>, b: seq<StoreEvent>, key: string)
    ensures LastWord(a + b, key) == if LastWord(b, key).Some? then LastWord(b, key) else LastWord(a, key)
  {
    if b == [] {
      assert a + b == a;
    } else {
      assert (a + b)[..|a + b| - 1] == a + b[..|b| - 1];
      LastWordAppend(a, b[..|b| - 1], key);
    }
  }

  lemma LastWordInserted(a: seq<StoreEvent>, e: StoreEvent, b: seq<StoreEvent>, key: string)
    requires e.change.OtherChange?
    ensures LastWord(a + [e] + b, key) == LastWord(a + b, key)
  {
    LastWordAppend(a + [e], b, key);
    LastWordAppend(a, [e], key);
    LastWordAppend(a, b, key);
    assert [e][..0] == [];
  }

  lemma SettledAfterAppend(auths: Auths, log: seq<StoreEvent>, cursor: nat, e: StoreEvent)
    requires cursor <= |log| && Settled(auths, log, cursor)
    ensures Settled(auths, log + [e], cursor)
  {
    forall key | LastWord((log + [e])[cursor..], key).None? ensures Lookup(auths, key) == Last(log + [e], key) {
      assert (log + [e])[cursor..] == log[cursor..] + [e];
      LastWordAppend(log[cursor..], [e], key);
      LastWordAppend(log, [e], key);
    }
  }

  /** A late event moves what is to come, and changes no last word. */
  lemma SettledAfterInsert(auths: Auths, log: seq<StoreEvent>, cursor: nat, e: StoreEvent, p: nat)
    requires p < |log| && cursor <= |log| && e.change.OtherChange? && Settled(auths, log, cursor)
    ensures Settled(auths, log[..p] + [e] + log[p..], if p <= cursor then cursor + 1 else cursor)
  {
    var longer := log[..p] + [e] + log[p..];
    var next := if p <= cursor then cursor + 1 else cursor;
    assert log == log[..p] + log[p..];
    forall key | LastWord(longer[next..], key).None? ensures Lookup(auths, key) == Last(longer, key) {
      LastWordInserted(log[..p], e, log[p..], key);
      if p <= cursor {
        assert longer[next..] == log[cursor..];
      } else {
        assert longer[next..] == log[cursor..p] + [e] + log[p..] && log[cursor..] == log[cursor..p] + log[p..];
        LastWordInserted(log[cursor..p], e, log[p..], key);
      }
    }
  }

  lemma SettledAfterApply(auths: Auths, log: seq<StoreEvent>, cursor: nat)
    requires cursor < |log| && Settled(auths, log, cursor)
    ensures Settled(ApplyEvent(auths, log[cursor]), log, cursor + 1)
  {
    var e, rest := log[cursor], log[cursor + 1..];
    assert log == log[..cursor] + [e] + rest && log[cursor..] == [e] + rest;
    forall key | LastWord(rest, key).None? ensures Lookup(ApplyEvent(auths, e), key) == Last(log, key) {
      LastWordAppend(log[..cursor] + [e], rest, key);
      LastWordAppend(log[..cursor], [e], key);
      LastWordAppend([e], rest, key);
      assert [e][..0] == [] && ApplyAll(auths, [e]) == ApplyEvent(auths, e);
      LastWordDecides(auths, [e], key);
    }
  }

  lemma SettledEarlier(auths: Auths, log: seq<StoreEvent>, cursor: nat, to: nat)
    requires to <= cursor <= |log| && Settled(auths, log, cursor)
    ensures Settled(auths, log, to)
  {
    forall key | LastWord(log[to..], key).None? ensures LastWord(log[cursor..], key).None? {
      assert log[to..] == log[to..cursor] + log[cursor..];
      LastWordAppend(log[to..cursor], log[cursor..], key);
    }
  }

  lemma SettledAfterPublish(auths: Auths, log: seq<StoreEvent>, cursor: nat, e: StoreEvent)
    requires cursor <= |log| && Settled(auths, log, cursor) && (Seek(log, e.at) < |log| ==> e.change.OtherChange?)
    ensures Moved(log, cursor, e) <= |Inserted(log, e)| && Settled(auths, Inserted(log, e), Moved(log, cursor, e))
  {
    var p := Seek(log, e.at);
    if p == |log| {
      assert Inserted(log, e) == log + [e];
      SettledAfterAppend(auths, log, cursor, e);
    } else {
      SettledAfterInsert(auths, log, cursor, e, p);
    }
  }

  lemma PublishKeepsInv(s: Node, e: StoreEvent)
    requires Inv(s) && Enabled(s, Publish(e))
    ensures Inv(Take(s, Publish(e)))
  {
    SettledAfterPublish(s.auths, s.log, s.cursor, e);
    InsertedIsChronological(s.log, e);
    forall x | x in s.log + [e] ensures ReplayStart(None, 0) <= x.at { }
    CoveredInLongerLog(s.log, e, s.checkpoint, s.zone, s.cursor);
    if s.unsaved.Some? { CoveredInLongerLog(s.log, e, s.unsaved, s.zone, s.cursor); }
  }

  lemma ApplyKeepsInv(s: Node)
    requires Inv(s) && Enabled(s, ApplyNext)
    ensures Inv(Take(s, ApplyNext))
  {
    SettledAfterApply(s.auths, s.log, s.cursor);
    ReplayWindow(s.log[s.cursor].at, Capped(s.zone));
  }

  lemma ApplyLateKeepsInv(s: Node, i: nat)
    requires Inv(s) && Enabled(s, ApplyLate(i))
    ensures Inv(Take(s, ApplyLate(i)))
  {
    ReplayWindow(s.log[i].at, Capped(s.zone));
  }

  lemma CrashKeepsInv(s: Node, zone: int)
    requires Inv(s) && zone <= 2 && zone <= s.zone
    ensures Inv(Take(s, Crash(zone)))
  {
    ReplayStartEarlier(s.checkpoint, zone, Capped(s.zone));
    SeekEarlier(s.log, ReplayStart(s.checkpoint, zone), ReplayStart(s.checkpoint, Capped(s.zone)));
    SettledEarlier(s.auths, s.log, s.cursor, Seek(s.log, ReplayStart(s.checkpoint, zone)));
  }

  lemma RewindKeepsInv(s: Node, to: nat)
    requires Inv(s) && Enabled(s, Rewind(to))
    ensures Inv(Take(s, Rewind(to)))
  {
    ReplayStartEarlier(s.checkpoint, Capped(s.zone), s.zone);
    SeekEarlier(s.log, ReplayStart(s.checkpoint, Capped(s.zone)), ReplayStart(s.checkpoint, s.zone));
    SettledEarlier(s.auths, s.log, s.cursor, to);
  }

  function LastZone(first: int, restarts: seq<int>): int {
    if restarts == [] then first else restarts[|restarts| - 1]
  }

  lemma OneMoreRestart(first: int, restarts: seq<int>, zone: int)
    ensures Safe(first, restarts + [zone]) <==> Safe(first, restarts) && zone <= 2 && zone <= LastZone(first, restarts)
    ensures LastZone(first, restarts + [zone]) == zone
  {
    var all, n := restarts + [zone], |restarts|;
    forall i | 0 <= i <= n ensures SafeAt(first, all, i) == if i < n then SafeAt(first, restarts, i) else zone <= 2 && zone <= LastZone(first, restarts) {
      assert i > 0 ==> all[i - 1] == restarts[i - 1];
    }
    if Safe(first, all) {
      assert SafeAt(first, all, n);
      forall i | 0 <= i < n ensures SafeAt(first, restarts, i) { assert SafeAt(first, all, i); }
    }
  }

  lemma StepKeepsInv(s: Node, step: Step)
    requires Inv(s) && Enabled(s, step) && (step.Crash? ==> step.zone <= 2 && step.zone <= s.zone)
    ensures Inv(Take(s, step))
  {
    match step
    case Publish(e) => PublishKeepsInv(s, e);
    case ApplyNext => ApplyKeepsInv(s);
    case ApplyLate(i) => ApplyLateKeepsInv(s, i);
    case SaveCheckpoint =>
    case Crash(zone) => CrashKeepsInv(s, zone);
    case Rewind(to) => RewindKeepsInv(s, to);
  }

  /** Every sequence of publications, deliveries, checkpoint writes and restarts keeps the invariant as long as the
      zones are safe. */
  lemma {:induction false} EveryRunKeepsInv(first: int, steps: seq<Step>)
    requires Run(first, steps).Some? && Safe(first, Zones(steps))
    ensures Inv(Run(first, steps).value) && Run(first, steps).value.zone == LastZone(first, Zones(steps))
  {
    if steps != [] {
      var before, step := steps[..|steps| - 1], steps[|steps| - 1];
      if step.Crash? { OneMoreRestart(first, Zones(before), step.zone); } else { assert Zones(steps) == Zones(before); }
      EveryRunKeepsInv(first, before);
      StepKeepsInv(Run(first, before).value, step);
    }
  }

  /** Crash where and as often as you like, in safe zones: nothing is lost. */
  lemma Recovery(first: int, steps: seq<Step>)
    requires Run(first, steps).Some? && Safe(first, Zones(steps))
    ensures Recovered(Run(first, steps).value)
  {
    EveryRunKeepsInv(first, steps);
    var s := Run(first, steps).value;
    var a, b := ApplyAll(s.auths, s.log[s.cursor..]), ApplyAll(map[], s.log);
    forall key ensures Lookup(a, key) == Lookup(b, key) {
      LastWordDecides(s.auths, s.log[s.cursor..], key);
      LastWordDecides(map[], s.log, key);
      assert s.log == s.log[..s.cursor] + s.log[s.cursor..];
      LastWordAppend(s.log[..s.cursor], s.log[s.cursor..], key);
    }
    SameLookupsSameMap(a, b);
  }

  lemma Then(first: int, steps: seq<Step>, s: Node, step: Step) returns (more: seq<Step>)
    requires Run(first, steps) == Some(s) && Enabled(s, step)
    ensures more == steps + [step] && Run(first, more) == Some(Take(s, step))
    ensures Zones(more) == Zones(steps) + if step.Crash? then [step.zone] else []
  {
    more := steps + [step];
    assert more[..|steps|] == steps;
  }

  /** In particular the replay that a restart in a safe zone would begin now recovers everything. */
  lemma RestartRecovers(first: int, steps: seq<Step>, zone: int)
    requires Run(first, steps).Some? && Safe(first, Zones(steps)) && zone <= 2 && zone <= LastZone(first, Zones(steps))
    ensures var s := Run(first, steps).value;
      ApplyAll(s.auths, s.log[Seek(s.log, ReplayStart(s.checkpoint, zone))..]) == ApplyAll(map[], s.log)
  {
    OneMoreRestart(first, Zones(steps), zone);
    var more := Then(first, steps, Run(first, steps).value, Crash(zone));
    Recovery(first, more);
  }

  // ---------- losing runs ----------

  /** Restarts before anything is published change only the zone. */
  lemma {:induction false} IdleRestarts(first: int, restarts: seq<int>) returns (steps: seq<Step>)
    ensures Zones(steps) == restarts && Run(first, steps) == Some(NewNode(LastZone(first, restarts)))
  {
    if restarts == [] {
      steps := [];
    } else {
      var n := |restarts| - 1;
      steps := IdleRestarts(first, restarts[..n]);
      steps := Then(first, steps, NewNode(LastZone(first, restarts[..n])), Crash(restarts[n]));
    }
  }

  const AUTH := Auth("a", "user")

  function Added(at: Nanos): StoreEvent {
    StoreEvent(at, AuthAdded(AUTH))
  }

  function Removed(at: Nanos): StoreEvent {
    StoreEvent(at, AuthRemoved(AUTH.resources))
  }

  const STORED: Auths := map[Lower(AUTH.resources) := AUTH]

  lemma AddedThenRemoved(a: Nanos, b: Nanos, rest: seq<StoreEvent>)
    requires forall e :: e in rest ==> e.change.OtherChange?
    ensures ApplyAll(map[], [Added(a), Removed(b)] + rest) == map[] && ApplyAll(STORED, rest) == STORED
    decreases |rest|
  {
    var both := [Added(a), Removed(b)];
    if rest == [] {
      assert both + rest == both && both[..1] == [Added(a)] && [Added(a)][..0] == [];
      assert ApplyAll(map[], [Added(a)]) == STORED;
    } else {
      assert (both + rest)[..|both + rest| - 1] == both + rest[..|rest| - 1];
      AddedThenRemoved(a, b, rest[..|rest| - 1]);
    }
  }

  lemma To(first: int, steps: seq<Step>, s: Node, step: Step, t: Node) returns (more: seq<Step>)
    requires Run(first, steps) == Some(s) && Enabled(s, step) && Take(s, step) == t
    ensures Run(first, more) == Some(t) && Zones(more) == Zones(steps) + if step.Crash? then [step.zone] else []
  {
    more := Then(first, steps, s, step);
  }

  /** The first event is published, applied and checkpointed, and the second is published. */
  lemma OneIsApplied(first: int, idle: seq<Step>, now: int) returns (steps: seq<Step>)
    requires Run(first, idle) == Some(NewNode(now))
    ensures Run(first, steps) == Some(Node([Added(0), Removed(1)], STORED, Some(0), 1, None, now))
    ensures Zones(steps) == Zones(idle)
  {
    var e, f := Added(0), Removed(1);
    assert Inserted([], e) == [e] && Inserted([e], f) == [e, f] && ApplyEvent(map[], e) == STORED;
    steps := To(first, idle, NewNode(now), Publish(e), Node([e], map[], None, 0, None, now));
    steps := To(first, steps, Node([e], map[], None, 0, None, now), ApplyNext, Node([e], STORED, None, 1, Some(0), now));
    steps := To(first, steps, Node([e], STORED, None, 1, Some(0), now), SaveCheckpoint, Node([e], STORED, Some(0), 1, None, now));
    steps := To(first, steps, Node([e], STORED, Some(0), 1, None, now), Publish(f), Node([e, f], STORED, Some(0), 1, None, now));
  }

  /** An event of the checkpointed second is not applied yet when the node stops; a restart too far ahead of UTC seeks
      past it. */
  lemma AheadOfUtc(first: int, idle: seq<Step>, now: int, zone: int) returns (steps: seq<Step>)
    requires Run(first, idle) == Some(NewNode(now)) && zone >= 3
    ensures Run(first, steps).Some? && Zones(steps) == Zones(idle) + [zone] && !Recovered(Run(first, steps).value)
  {
    var log := [Added(0), Removed(1)];
    steps := OneIsApplied(first, idle, now);
    assert Seek(log, ReplayStart(Some(0), zone)) == 2;
    steps := To(first, steps, Node(log, STORED, Some(0), 1, None, now), Crash(zone), Node(log, STORED, Some(0), 2, None, zone));
    AddedThenRemoved(0, 1, []);
    assert log[2..] == [] && log + [] == log;
  }

  function ThreeEvents(c: int): seq<StoreEvent> {
    [Added(0), Removed(1), StoreEvent(c * SECOND, OtherChange)]
  }

  /** Three events, the last a second and more after the others, are applied and checkpointed. */
  lemma AllApplied(first: int, idle: seq<Step>, now: int, c: int) returns (steps: seq<Step>)
    requires Run(first, idle) == Some(NewNode(now)) && c >= 1
    ensures Run(first, steps) == Some(Node(ThreeEvents(c), map[], Some(c), 3, None, now))
    ensures Zones(steps) == Zones(idle)
  {
    var e, f, g := Added(0), Removed(1), StoreEvent(c * SECOND, OtherChange);
    var two, three := [e, f], ThreeEvents(c);
    assert Inserted(two, g) == three && Seconds(g.at) == c && Seconds(f.at) == 0 && ApplyEvent(STORED, f) == map[];
    steps := OneIsApplied(first, idle, now);
    steps := To(first, steps, Node(two, STORED, Some(0), 1, None, now), Publish(g), Node(three, STORED, Some(0), 1, None, now));
    steps := To(first, steps, Node(three, STORED, Some(0), 1, None, now), ApplyNext, Node(three, map[], Some(0), 2, Some(0), now));
    steps := To(first, steps, Node(three, map[], Some(0), 2, Some(0), now), SaveCheckpoint, Node(three, map[], Some(0), 2, None, now));
    steps := To(first, steps, Node(three, map[], Some(0), 2, None, now), ApplyNext, Node(three, map[], Some(0), 3, Some(c), now));
    steps := To(first, steps, Node(three, map[], Some(0), 3, Some(c), now), SaveCheckpoint, Node(three, map[], Some(c), 3, None, now));
  }

  /** The first event is applied again, as a replay in the zone of the last start would. */
  lemma FirstAppliedAgain(first: int, steps: seq<Step>, now: int, c: int) returns (more: seq<Step>)
    requires Run(first, steps) == Some(Node(ThreeEvents(c), map[], Some(c), 3, None, now))
    requires Seek(ThreeEvents(c), ReplayStart(Some(c), now)) == 0
    ensures Run(first, more) == Some(Node(ThreeEvents(c), STORED, Some(c), 1, Some(0), now)) && Zones(more) == Zones(steps)
  {
    var log := ThreeEvents(c);
    assert ApplyEvent(map[], log[0]) == STORED;
    more := To(first, steps, Node(log, map[], Some(c), 3, None, now), Rewind(0), Node(log, map[], Some(c), 0, None, now));
    more := To(first, more, Node(log, map[], Some(c), 0, None, now), ApplyNext, Node(log, STORED, Some(c), 1, Some(0), now));
  }

  lemma RestartsPast(first: int, steps: seq<Step>, now: int, zone: int, c: int) returns (more: seq<Step>)
    requires now < zone <= 2 && c == 2 - now && Run(first, steps) == Some(Node(ThreeEvents(c), STORED, Some(c), 1, Some(0), now))
    ensures Run(first, more) == Some(Node(ThreeEvents(c), STORED, Some(c), 2, None, zone))
    ensures Zones(more) == Zones(steps) + [zone]
  {
    WhereSeeksArrive(now, zone);
    more := Then(first, steps, Node(ThreeEvents(c), STORED, Some(c), 1, Some(0), now), Crash(zone));
  }

  /** A state that has lost something is one. */
  lemma IsLost(first: int, steps: seq<Step>, s: Node)
    requires Run(first, steps) == Some(s) && !Recovered(s)
    ensures Run(first, steps).Some? && !Recovered(Run(first, steps).value)
  {
  }

  lemma FirstIsBack(first: int, idle: seq<Step>, now: int, c: int) returns (steps: seq<Step>)
    requires Run(first, idle) == Some(NewNode(now)) && c == 2 - now >= 1
    ensures Run(first, steps) == Some(Node(ThreeEvents(c), STORED, Some(c), 1, Some(0), now)) && Zones(steps) == Zones(idle)
  {
    WhereSeeksArrive(now, now + 1);
    steps := AllApplied(first, idle, now, c);
    steps := FirstAppliedAgain(first, steps, now, c);
  }

  /** The node stops before that is checkpointed; a restart further ahead seeks past the event that undoes it. */
  lemma FurtherAhead(first: int, idle: seq<Step>, now: int, zone: int) returns (steps: seq<Step>)
    requires Run(first, idle) == Some(NewNode(now)) && now < zone <= 2
    ensures Run(first, steps).Some? && Zones(steps) == Zones(idle) + [zone] && !Recovered(Run(first, steps).value)
  {
    var c := 2 - now;
    var restarted := Node(ThreeEvents(c), STORED, Some(c), 2, None, zone);
    var before := FirstIsBack(first, idle, now, c);
    steps := RestartsPast(first, before, now, zone, c);
    UndoneIsLost(restarted, c);
    IsLost(first, steps, restarted);
  }

  lemma WhereSeeksArrive(now: int, zone: int)
    requires now < zone <= 2
    ensures Seek(ThreeEvents(2 - now), ReplayStart(Some(2 - now), now)) == 0
    ensures Seek(ThreeEvents(2 - now), ReplayStart(Some(2 - now), zone)) == 2
  {
    var log := ThreeEvents(2 - now);
    assert ReplayStart(Some(2 - now), now) == 0 && log[0].at == 0;
    assert SECOND <= ReplayStart(Some(2 - now), zone) <= (2 - now) * SECOND == log[2].at && log[1].at == 1;
  }

  lemma UndoneIsLost(s: Node, c: int)
    requires s.log == ThreeEvents(c) && s.auths == STORED && s.cursor == 2
    ensures !Recovered(s)
  {
    var g := StoreEvent(c * SECOND, OtherChange);
    AddedThenRemoved(0, 1, [g]);
    assert s.log[2..] == [g] && s.log == [Added(0), Removed(1)] + [g];
  }

  lemma Unsafe(first: int, restarts: seq<int>, i: nat) returns (steps: seq<Step>)
    requires i < |restarts| && !SafeAt(first, restarts, i)
    ensures Run(first, steps).Some? && Zones(steps) == restarts[..i + 1] && !Recovered(Run(first, steps).value)
  {
    var now := LastZone(first, restarts[..i]);
    var idle := IdleRestarts(first, restarts[..i]);
    if restarts[i] > 2 {
      steps := AheadOfUtc(first, idle, now, restarts[i]);
    } else {
      steps := FurtherAhead(first, idle, now, restarts[i]);
    }
    assert restarts[..i + 1] == restarts[..i] + [restarts[i]];
  }

  /** Given the zones of a node's starts in turn: nothing is ever lost, whenever it stops and whatever is published,
      exactly if the zones are safe. */
  lemma RecoversIffSafe(first: int, restarts: seq<int>)
    ensures (forall steps :: Run(first, steps).Some? && Zones(steps) <= restarts ==> Recovered(Run(first, steps).value))
            <==> Safe(first, restarts)
  {
    if Safe(first, restarts) {
      forall steps | Run(first, steps).Some? && Zones(steps) <= restarts ensures Recovered(Run(first, steps).value) {
        forall i | 0 <= i < |Zones(steps)| ensures SafeAt(first, Zones(steps), i) { assert SafeAt(first, restarts, i); }
        Recovery(first, steps);
      }
    } else {
      var i :| 0 <= i < |restarts| && !SafeAt(first, restarts, i);
      var steps := Unsafe(first, restarts, i);
    }
  }

  /** Every restart is in this zone. */
  predicate StaysIn(steps: seq<Step>, zone: int) {
    forall z :: z in Zones(steps) ==> z == zone
  }

  /** A node that never moves recovers exactly if its local time is at most two seconds ahead of UTC. */
  lemma RecoversInOneZoneIff(zone: int)
    ensures (forall steps :: Run(zone, steps).Some? && StaysIn(steps, zone) ==> Recovered(Run(zone, steps).value)) <==> zone <= 2
  {
    if zone <= 2 {
      forall steps | Run(zone, steps).Some? && StaysIn(steps, zone) ensures Recovered(Run(zone, steps).value) {
        forall i | 0 <= i < |Zones(steps)| ensures Zones(steps)[i] == zone { assert Zones(steps)[i] in Zones(steps); }
        forall i | 0 <= i < |Zones(steps)| ensures SafeAt(zone, Zones(steps), i) { }
        Recovery(zone, steps);
      }
    } else {
      var steps := Unsafe(zone, [zone], 0);
      assert Zones(steps) == [zone] && StaysIn(steps, zone);
    }
  }

  /** The object: what it keeps in the database, and the loop that applies delivered events. */
  class Store {
    var auths: Auths
    var checkpoint: Option<int>

    constructor ()
      ensures auths == map[] && checkpoint == None
    {
      auths, checkpoint := map[], None;
    }

    /** A lookup of the resources, in whatever case, finds the auth from now on; every other key is as it was. */
    method ApplyAuthAdded(auth: Auth)
      modifies this`auths
      ensures forall key :: Lookup(auths, key) == if key == Lower(auth.resources) then Some(auth) else Lookup(old(auths), key)
    {
      auths := auths[Lower(auth.resources) := auth];
    }

    method ApplyAuthRemoved(resources: string)
      modifies this`auths
      ensures forall key :: Lookup(auths, key) == if key == Lower(resources) then None else Lookup(old(auths), key)
    {
      auths := auths - {Lower(resources)};
    }

    /** The checkpoint is in the second of the event, so a replay in UTC starts two to three seconds before it. */
    method UpdateLastAppliedEventTimestamp(at: Nanos)
      modifies this`checkpoint
      ensures checkpoint.Some? && 2 * SECOND <= at - ReplayStart(checkpoint, 0) < 3 * SECOND
    {
      ReplayWindow(at, 0);
      checkpoint := Some(Seconds(at));
    }

    /** The loop over what the subscription delivers: the fold, and the checkpoint of the last event. */
    method ApplyDelivered(events: seq<StoreEvent>)
      modifies this
      ensures auths == ApplyAll(old(auths), events)
      ensures checkpoint == if events == [] then old(checkpoint) else Some(Seconds(events[|events| - 1].at))
    {
      for i := 0 to |events|
        invariant auths == ApplyAll(old(auths), events[..i])
        invariant checkpoint == if i == 0 then old(checkpoint) else Some(Seconds(events[i - 1].at))
      {
        assert events[..i + 1][..i] == events[..i];
        ghost var was := auths;
        match events[i].change {
          case AuthAdded(auth) => ApplyAuthAdded(auth);
          case AuthRemoved(resources) => ApplyAuthRemoved(resources);
          case OtherChange =>
        }
        SameLookupsSameMap(auths, ApplyEvent(was, events[i]));
        UpdateLastAppliedEventTimestamp(events[i].at);
        OnlySecond(events[i].at, checkpoint.value);
      }
      assert events[..|events|] == events;
    }
  }

  /** Only one second can be the checkpoint of an event. */
  lemma OnlySecond(t: Nanos, second: int)
    requires 2 * SECOND <= t - ReplayStart(Some(second), 0) < 3 * SECOND
    ensures second == Seconds(t)
  {
  }

  // ---------- lookups ----------

  /** Every entry sits under the lower-case form of its own resources. */
  ghost predicate WellKeyed(auths: Auths) {
    forall key :: key in auths ==> Lower(auths[key].resources) == key
  }

  lemma {:induction false} AppliedIsWellKeyed(events: seq<StoreEvent>)
    ensures WellKeyed(ApplyAll(map[], events))
  {
    if events != [] { AppliedIsWellKeyed(events[..|events| - 1]); }
  }

  /** A stored prefix that may answer for `ref`; a blank one never may. */
  predicate Matches(key: string, ref: string) {
    key != "" && key <= Lower(ref)
  }

  ghost predicate IsBestMatch(auths: Auths, ref: string, auth: Option<Auth>) {
    match auth
    case None => forall key :: key in auths ==> !Matches(key, ref)
    case Some(a) => exists best :: IsLongestMatch(auths, ref, best) && auths[best] == a
  }

  ghost predicate IsLongestMatch(auths: Auths, ref: string, best: string) {
    best in auths && Matches(best, ref) && forall key :: key in auths && Matches(key, ref) ==> |key| <= |best|
  }

  /** There is only one best match, so the order in which keys are visited cannot matter. */
  lemma BestMatchIsUnique(auths: Auths, ref: string, a: Option<Auth>, b: Option<Auth>)
    requires IsBestMatch(auths, ref, a) && IsBestMatch(auths, ref, b)
    ensures a == b
  {
    if a.Some? && b.Some? {
      var p :| IsLongestMatch(auths, ref, p) && auths[p] == a.value;
      var q :| IsLongestMatch(auths, ref, q) && auths[q] == b.value;
      PrefixesOfOneLengthAgree(Lower(ref), p, q);
    }
  }

  method TryGetAuth(auths: Auths, ref: string) returns (auth: Option<Auth>)
    ensures IsBestMatch(auths, ref, auth)
  {
    auth := None;
    var matchedPrefix := "";
    var todo := auths.Keys;
    while todo != {}
      invariant todo <= auths.Keys
      invariant auth.None? ==> matchedPrefix == ""
      invariant auth.Some? ==> matchedPrefix in auths && auths[matchedPrefix] == auth.value && Matches(matchedPrefix, ref)
      invariant forall key :: key in auths && key !in todo && Matches(key, ref) ==> |key| <= |matchedPrefix|
    {
      var resources :| resources in todo;
      todo := todo - {resources};
      if resources == "" { continue; }
      if resources <= Lower(ref) && |resources| > |matchedPrefix| {
        auth, matchedPrefix := Some(auths[resources]), resources;
      }
    }
    assert auth.Some? ==> IsLongestMatch(auths, ref, matchedPrefix);
  }

  /** References that differ in case only have the same answer, and an auth event touches the entry of its resources in
      whatever case they are written. */
  lemma CaseMakesNoDifference(auths: Auths, a: string, b: string, answer: Option<Auth>)
    requires SameButForCase(a, b)
    ensures IsBestMatch(auths, a, answer) <==> IsBestMatch(auths, b, answer)
    ensures forall e: StoreEvent :: Touches(e, Lower(a)) <==>
      (e.change.AuthAdded? && SameButForCase(e.change.auth.resources, b)) ||
      (e.change.AuthRemoved? && SameButForCase(e.change.resources, b))
  {
    LowerForgetsCase(a, b);
    forall s ensures Lower(s) == Lower(b) <==> SameButForCase(s, b) { LowerForgetsCase(s, b); }
    forall key ensures Matches(key, a) <==> Matches(key, b) { }
    forall key ensures IsLongestMatch(auths, a, key) <==> IsLongestMatch(auths, b, key) { }
  }

  /** Whether the entry that was added is the one that a lookup of its own resources returns. */
  predicate IsAnswer(auth: Option<Auth>, resources: string) {
    auth.Some? && Lower(auth.value.resources) == Lower(resources)
  }

  /** The wait for an added entry succeeds exactly when it is stored and not blank: a broader entry is never
      mistaken for it, and a blank one is waited for in vain. */
  lemma AddedIsAnswerIffStored(auths: Auths, resources: string, auth: Option<Auth>)
    requires WellKeyed(auths) && IsBestMatch(auths, resources, auth)
    ensures IsAnswer(auth, resources) <==> resources != "" && Lower(resources) in auths
  {
    var own := Lower(resources);
    if resources != "" && own in auths {
      assert Matches(own, resources);
      var best :| IsLongestMatch(auths, resources, best) && auths[best] == auth.value;
      PrefixesOfOneLengthAgree(own, best, own);
    }
  }

  /** The polling of AddAuth, over the states of the store at the ticks before the deadline. */
  method AwaitStored(observed: seq<Auths>, resources: string) returns (stored: bool)
    requires forall i :: 0 <= i < |observed| ==> WellKeyed(observed[i])
    ensures stored <==> resources != "" && exists i :: 0 <= i < |observed| && Lower(resources) in observed[i]
  {
    for tick := 0 to |observed|
      invariant resources == "" || forall i :: 0 <= i < tick ==> Lower(resources) !in observed[i]
    {
      var auth := TryGetAuth(observed[tick], resources);
      AddedIsAnswerIffStored(observed[tick], resources, auth);
      if IsAnswer(auth, resources) { return true; }
    }
    return false;
  }
}
