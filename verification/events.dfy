/** Events, their root call and the filters that subscriptions select them by. */
module Events {
  import opened Text
  import opened Values

  type CallId = string

  /** A UTC instant with a four-digit year, read as the decimal number YYYYMMDDhhmmssnnnnnnnnn.
      Chronological order is numeric order. */
  type Timestamp = t: int | 0 <= t < 100_000_000_000_000_000_000_000

  /** Go's zero time, 0001-01-01T00:00:00Z. */
  const ZERO_TIME: Timestamp := 10101_000_000_000_000_000

  datatype Outcome = Succeeded | Failed | Killed

  datatype Call = Call(id: CallId, rootId: CallId, parentId: Option<CallId>)

  datatype Payload =
    | CallStarted(call: Call)
    | CallEnded(call: Call, outcome: Outcome, outputs: Scope, error: Option<string>)
    | CallKillRequested(opId: CallId, rootCallId: CallId)
    | ContainerStdOutWrittenTo(rootCallId: CallId)
    | ContainerStdErrWrittenTo(rootCallId: CallId)
    | AuthAdded(resources: string, username: string)
    | AuthRemoved(resources: string)

  datatype Event = Event(timestamp: Timestamp, payload: Payload)

  datatype EventFilter = EventFilter(roots: Option<seq<CallId>>, since: Option<Timestamp>)

  const UNKNOWN_ROOT: CallId := "00000000-0000-0000-0000-000000000000"

  function RootCallId(e: Event): CallId {
    match e.payload
    case CallEnded(call, _, _, _) => call.rootId
    case ContainerStdErrWrittenTo(root) => root
    case ContainerStdOutWrittenTo(root) => root
    case CallKillRequested(_, root) => root
    case CallStarted(call) => call.rootId
    case _ => UNKNOWN_ROOT
  }

  /** Whether the root filter lets `e` through; no filter lets everything through. */
  predicate RootAccepted(e: Event, filter: EventFilter) {
    filter.roots.Some? ==> RootCallId(e) in filter.roots.value
  }

  function SinceOf(filter: EventFilter): Timestamp {
    if filter.since.Some? then filter.since.value else ZERO_TIME
  }

  /** Whether `e` belongs in the replay of stored events. */
  predicate Replayable(e: Event, filter: EventFilter) {
    SinceOf(filter) <= e.timestamp && RootAccepted(e, filter)
  }

  /** What events say. */
  datatype Particulars = Particulars(
    call: Call, outcome: Outcome, outputs: Scope, error: Option<string>, opId: CallId, resources: string, username: string)

  /** An event of each kind, and the root that it names. Those about auths name none. */
  function Kinds(x: Particulars): (kinds: seq<(Payload, CallId)>)
    ensures |kinds| == 7
  {
    var none := "00000000-0000-0000-0000-000000000000";
    [(CallStarted(x.call), x.call.rootId),
     (CallEnded(x.call, x.outcome, x.outputs, x.error), x.call.rootId),
     (CallKillRequested(x.opId, x.call.rootId), x.call.rootId),
     (ContainerStdOutWrittenTo(x.call.rootId), x.call.rootId),
     (ContainerStdErrWrittenTo(x.call.rootId), x.call.rootId),
     (AuthAdded(x.resources, x.username), none),
     (AuthRemoved(x.resources), none)]
  }

  /** There are no other kinds. */
  lemma EveryKind(payload: Payload) returns (x: Particulars, k: nat)
    ensures k < 7 && payload == Kinds(x)[k].0
  {
    var nobody: Particulars := Particulars(Call("", "", None), Succeeded, map[], None, "", "", "");
    match payload
    case CallStarted(call) => x, k := nobody.(call := call), 0;
    case CallEnded(call, outcome, outputs, error) => x, k := Particulars(call, outcome, outputs, error, "", "", ""), 1;
    case CallKillRequested(opId, root) => x, k := nobody.(call := Call("", root, None), opId := opId), 2;
    case ContainerStdOutWrittenTo(root) => x, k := nobody.(call := Call("", root, None)), 3;
    case ContainerStdErrWrittenTo(root) => x, k := nobody.(call := Call("", root, None)), 4;
    case AuthAdded(resources, username) => x, k := nobody.(resources := resources, username := username), 5;
    case AuthRemoved(resources) => x, k := nobody.(resources := resources), 6;
  }

  predicate IsEndOf(e: Event, id: CallId) {
    e.payload.CallEnded? && e.payload.call.id == id
  }

  /** `isRootCallIDExcludedByFilter` as it is written: a search through the accepted roots. */
  method IsRootCallIdExcludedByFilter(rootCallId: CallId, filter: EventFilter) returns (excluded: bool)
    ensures excluded <==> filter.roots.Some? && rootCallId !in filter.roots.value
  {
    if filter.roots.None? { return false; }
    var roots := filter.roots.value;
    for i := 0 to |roots|
      invariant rootCallId !in roots[..i]
    {
      if roots[i] == rootCallId { return false; }
    }
    assert roots[..|roots|] == roots;
    return true;
  }
}
