/** The call graph that the CLI shows, as a value: a tree rebuilt from the event stream, and what it comes to on
    orderly streams. */
module CallGraph {
  import opened Text
  import opened Events

  datatype NodeState = Running | Ended(outcome: Outcome) | Skipped

  datatype Record = Record(call: Call, startTime: Timestamp, endTime: Option<Timestamp>, state: NodeState)

  datatype Tree = Tree(record: Record, children: seq<Tree>) {
    function Id(): CallId { record.call.id }
  }

  function Leaf(call: Call, startTime: Timestamp, state: NodeState): Tree {
    Tree(Record(call, startTime, None, state), [])
  }

  // ---------- operations on lists of siblings, depth first ----------

  /** Adds a node under the first node with the parent's ID; None if there is none. */
  function Insert(ts: seq<Tree>, parent: CallId, node: Tree): Option<seq<Tree>> {
    if ts == [] then None
    else if ts[0].Id() == parent then Some([Tree(ts[0].record, ts[0].children + [node])] + ts[1..])
    else
      var below := Insert(ts[0].children, parent, node);
      if below.Some? then Some([Tree(ts[0].record, below.value)] + ts[1..])
      else
        var beside := Insert(ts[1..], parent, node);
        if beside.Some? then Some([ts[0]] + beside.value) else None
  }

  /** The record of the first node with the ID. */
  function Lookup(ts: seq<Tree>, id: CallId): Option<Record> {
    if ts == [] then None
    else if ts[0].Id() == id then Some(ts[0].record)
    else if Lookup(ts[0].children, id).Some? then Lookup(ts[0].children, id)
    else Lookup(ts[1..], id)
  }

  predicate Has(ts: seq<Tree>, id: CallId) {
    Lookup(ts, id).Some?
  }

  function Closed(r: Record, at: Timestamp, outcome: Outcome): Record {
    r.(endTime := Some(at), state := Ended(outcome))
  }

  /** Ends the first node with the ID. */
  function Mark(ts: seq<Tree>, id: CallId, at: Timestamp, outcome: Outcome): seq<Tree> {
    if ts == [] then []
    else if ts[0].Id() == id then [Tree(Closed(ts[0].record, at, outcome), ts[0].children)] + ts[1..]
    else if Has(ts[0].children, id) then [Tree(ts[0].record, Mark(ts[0].children, id, at, outcome))] + ts[1..]
    else [ts[0]] + Mark(ts[1..], id, at, outcome)
  }

  function CountChildren(ts: seq<Tree>): nat {
    if ts == [] then 0
    else (if ts[0].children == [] then 1 else CountChildren(ts[0].children)) + CountChildren(ts[1..])
  }

  // ---------- what the tree says ----------

  /** Every node below hangs under the node that its parent ID names. */
  predicate Linked(ts: seq<Tree>) {
    ts == [] || (
      && (forall c :: c in ts[0].children ==> c.record.call.parentId == Some(ts[0].Id()))
      && Linked(ts[0].children) && Linked(ts[1..]))
  }

  /** How many nodes have the ID. */
  function Occurrences(ts: seq<Tree>, id: CallId): nat {
    if ts == [] then 0
    else (if ts[0].Id() == id then 1 else 0) + Occurrences(ts[0].children, id) + Occurrences(ts[1..], id)
  }

  /** All nodes, parents before their children. */
  function Nodes(ts: seq<Tree>): seq<Tree> {
    if ts == [] then [] else [ts[0]] + Nodes(ts[0].children) + Nodes(ts[1..])
  }

  function Leaves(nodes: seq<Tree>): nat {
    if nodes == [] then 0 else (if nodes[0].children == [] then 1 else 0) + Leaves(nodes[1..])
  }

  lemma {:induction false} LeavesAppend(a: seq<Tree>, b: seq<Tree>)
    ensures Leaves(a + b) == Leaves(a) + Leaves(b)
  {
    if a == [] { assert a + b == b; } else { LeavesAppend(a[1..], b); assert (a + b)[1..] == a[1..] + b; }
  }

  /** countChildren counts the leaves strictly below. */
  lemma {:induction false} CountChildrenCountsLeaves(ts: seq<Tree>)
    ensures CountChildren(ts) == Leaves(Nodes(ts))
  {
    if ts != [] {
      CountChildrenCountsLeaves(ts[0].children);
      CountChildrenCountsLeaves(ts[1..]);
      LeavesAppend([ts[0]] + Nodes(ts[0].children), Nodes(ts[1..]));
      LeavesAppend([ts[0]], Nodes(ts[0].children));
      assert [ts[0]][1..] == [];
    }
  }

  lemma {:induction false} HasMeans(ts: seq<Tree>, id: CallId)
    ensures Has(ts, id) <==> Occurrences(ts, id) > 0
    ensures Has(ts, id) ==> Lookup(ts, id).value.call.id == id
  {
    if ts != [] {
      HasMeans(ts[0].children, id);
      HasMeans(ts[1..], id);
    }
  }

  // ---------- inserting ----------

  /** Inserting succeeds exactly when the parent can be found. */
  lemma {:induction false} InsertSucceeds(ts: seq<Tree>, parent: CallId, node: Tree)
    ensures Insert(ts, parent, node).Some? <==> Has(ts, parent)
  {
    if ts != [] {
      InsertSucceeds(ts[0].children, parent, node);
      InsertSucceeds(ts[1..], parent, node);
    }
  }

  /** It adds the one node. */
  lemma {:induction false} InsertAddsOne(ts: seq<Tree>, parent: CallId, node: Tree, id: CallId)
    requires Has(ts, parent) && node.children == []
    ensures Insert(ts, parent, node).Some?
    ensures Occurrences(Insert(ts, parent, node).value, id)
         == Occurrences(ts, id) + if id == node.Id() then 1 else 0
  {
    InsertSucceeds(ts, parent, node);
    var ts' := Insert(ts, parent, node).value;
    if ts[0].Id() == parent {
      AppendAddsOne(ts[0].children, node, id);
      assert ts'[1..] == ts[1..];
    } else if Has(ts[0].children, parent) {
      InsertAddsOne(ts[0].children, parent, node, id);
      assert ts'[1..] == ts[1..];
    } else {
      InsertSucceeds(ts[0].children, parent, node);
      InsertAddsOne(ts[1..], parent, node, id);
      assert ts'[1..] == Insert(ts[1..], parent, node).value;
    }
  }

  lemma {:induction false} AppendAddsOne(ts: seq<Tree>, node: Tree, id: CallId)
    requires node.children == []
    ensures Occurrences(ts + [node], id) == Occurrences(ts, id) + if id == node.Id() then 1 else 0
  {
    if ts == [] {
      assert [] + [node] == [node];
    } else {
      AppendAddsOne(ts[1..], node, id);
      assert (ts + [node])[1..] == ts[1..] + [node];
    }
  }

  /** Every record that was there stays as it was, and a new ID finds the new record. */
  lemma {:induction false} InsertKeepsRecords(ts: seq<Tree>, parent: CallId, node: Tree, id: CallId)
    requires Has(ts, parent) && node.children == []
    requires !Has(ts, node.Id())
    ensures Insert(ts, parent, node).Some?
    ensures Lookup(Insert(ts, parent, node).value, id) == if id == node.Id() then Some(node.record) else Lookup(ts, id)
  {
    InsertSucceeds(ts, parent, node);
    var ts' := Insert(ts, parent, node).value;
    if ts[0].Id() == parent {
      AppendKeepsRecords(ts[0].children, node, id);
      assert ts'[1..] == ts[1..];
    } else if Has(ts[0].children, parent) {
      InsertKeepsRecords(ts[0].children, parent, node, id);
      assert ts'[1..] == ts[1..];
    } else {
      InsertSucceeds(ts[0].children, parent, node);
      InsertKeepsRecords(ts[1..], parent, node, id);
      assert ts'[1..] == Insert(ts[1..], parent, node).value;
    }
  }

  lemma {:induction false} AppendKeepsRecords(ts: seq<Tree>, node: Tree, id: CallId)
    requires node.children == [] && !Has(ts, node.Id())
    ensures Lookup(ts + [node], id) == if id == node.Id() then Some(node.record) else Lookup(ts, id)
  {
    if ts == [] {
      assert [] + [node] == [node];
    } else {
      AppendKeepsRecords(ts[1..], node, id);
      assert (ts + [node])[1..] == ts[1..] + [node];
    }
  }

  /** The new node hangs where it should, and the others stay where they were. */
  lemma {:induction false} InsertKeepsLinks(ts: seq<Tree>, parent: CallId, node: Tree)
    requires Linked(ts) && Insert(ts, parent, node).Some?
    requires node.children == [] && node.record.call.parentId == Some(parent)
    ensures Linked(Insert(ts, parent, node).value)
    ensures SameRecords(Insert(ts, parent, node).value, ts)
  {
    var ts' := Insert(ts, parent, node).value;
    if ts[0].Id() == parent {
      AppendKeepsLinks(ts[0].children, node);
      assert ts'[1..] == ts[1..];
    } else if Insert(ts[0].children, parent, node).Some? {
      InsertKeepsLinks(ts[0].children, parent, node);
      SameParents(ts[0].children, Insert(ts[0].children, parent, node).value, ts[0].Id());
      assert ts'[1..] == ts[1..];
    } else {
      InsertKeepsLinks(ts[1..], parent, node);
      assert ts'[1..] == Insert(ts[1..], parent, node).value;
      SameRecordsBeside(ts, ts');
    }
  }

  lemma {:induction false} AppendKeepsLinks(ts: seq<Tree>, node: Tree)
    requires Linked(ts) && node.children == []
    ensures Linked(ts + [node])
  {
    if ts == [] {
      assert [] + [node] == [node] && [node][1..] == [];
    } else {
      AppendKeepsLinks(ts[1..], node);
      assert (ts + [node])[1..] == ts[1..] + [node];
    }
  }

  /** The same calls side by side, whatever is below them. */
  ghost predicate SameRecords(a: seq<Tree>, b: seq<Tree>) {
    |a| == |b| && forall i :: 0 <= i < |a| ==> a[i].record.call == b[i].record.call
  }

  lemma SameRecordsBeside(a: seq<Tree>, b: seq<Tree>)
    requires a != [] && b != [] && a[0].record.call == b[0].record.call && SameRecords(b[1..], a[1..])
    ensures SameRecords(b, a)
  {
    forall i | 0 <= i < |a| ensures b[i].record.call == a[i].record.call {
      if i > 0 { assert b[1..][i - 1] == b[i] && a[1..][i - 1] == a[i]; }
    }
  }

  lemma SameParents(a: seq<Tree>, b: seq<Tree>, id: CallId)
    requires SameRecords(b, a) && forall c :: c in a ==> c.record.call.parentId == Some(id)
    ensures forall c :: c in b ==> c.record.call.parentId == Some(id)
  {
    forall c | c in b ensures c.record.call.parentId == Some(id) {
      var i :| 0 <= i < |b| && b[i] == c;
      assert a[i] in a;
    }
  }

  // ---------- ending ----------

  /** Ending a node keeps every node where it is. */
  lemma {:induction false} MarkKeepsLinks(ts: seq<Tree>, id: CallId, at: Timestamp, outcome: Outcome)
    requires Linked(ts)
    ensures Linked(Mark(ts, id, at, outcome)) && SameRecords(Mark(ts, id, at, outcome), ts)
  {
    if ts != [] {
      var ts' := Mark(ts, id, at, outcome);
      if ts[0].Id() == id {
        assert ts'[1..] == ts[1..];
      } else if Has(ts[0].children, id) {
        MarkKeepsLinks(ts[0].children, id, at, outcome);
        SameParents(ts[0].children, Mark(ts[0].children, id, at, outcome), ts[0].Id());
        assert ts'[1..] == ts[1..];
      } else {
        MarkKeepsLinks(ts[1..], id, at, outcome);
        assert ts'[1..] == Mark(ts[1..], id, at, outcome);
        SameRecordsBeside(ts, ts');
      }
    }
  }

  /** It changes the record that the ID finds, and nothing else. */
  lemma {:induction false} MarkChangesOne(ts: seq<Tree>, id: CallId, at: Timestamp, outcome: Outcome, x: CallId)
    requires Has(ts, id)
    ensures Occurrences(Mark(ts, id, at, outcome), x) == Occurrences(ts, x)
    ensures Lookup(Mark(ts, id, at, outcome), x)
         == if x == id then Some(Closed(Lookup(ts, id).value, at, outcome)) else Lookup(ts, x)
  {
    var ts' := Mark(ts, id, at, outcome);
    if ts[0].Id() == id {
      assert ts'[1..] == ts[1..];
    } else if Has(ts[0].children, id) {
      MarkChangesOne(ts[0].children, id, at, outcome, x);
      assert ts'[1..] == ts[1..];
    } else {
      MarkChangesOne(ts[1..], id, at, outcome, x);
      assert ts'[1..] == Mark(ts[1..], id, at, outcome);
    }
  }

  // ---------- handling events ----------

  datatype Reaction = Accepted | ParentAlreadySet | MissingParentId(id: CallId) | Unexpected

  /** `insert` on a non-empty graph. */
  function Inserted(ts: seq<Tree>, call: Call, at: Timestamp, state: NodeState): (seq<Tree>, Reaction) {
    if call.parentId.None? then (ts, MissingParentId(call.id))
    else
      var ts' := Insert(ts, call.parentId.value, Leaf(call, at, state));
      if ts'.Some? then (ts'.value, Accepted) else (ts, Unexpected)
  }

  /** The graph, a list of at most one root, after an event, and what the handler returns. */
  function Handled(ts: seq<Tree>, e: Event): (seq<Tree>, Reaction) {
    match e.payload
    case CallStarted(call) =>
      if call.parentId.None? then
        if ts == [] then ([Leaf(call, e.timestamp, Running)], Accepted) else (ts, ParentAlreadySet)
      else if ts == [] then (ts, Accepted)
      else Inserted(ts, call, e.timestamp, Running)
    case CallEnded(call, outcome, _, _) =>
      if ts == [] then (ts, Accepted)
      else if Has(ts, call.id) then (Mark(ts, call.id, e.timestamp, outcome), Accepted)
      else Inserted(ts, call, e.timestamp, Skipped)
    case _ => (ts, Accepted)
  }

  /** The event would put a node under its parent: the graph is not empty, and if it is an end its call is not there. */
  predicate Adds(ts: seq<Tree>, e: Event) {
    ts != [] && match e.payload
      case CallStarted(call) => call.parentId.Some?
      case CallEnded(call, _, _, _) => !Has(ts, call.id)
      case _ => false
  }

  /** What is refused, for any graph and event: a second root, an end that names no parent of a call that is not there, and
      a call whose parent is not there. None of these changes anything, nor does anything that comes before the root. */
  lemma RefusedExactly(ts: seq<Tree>, e: Event)
    ensures var (after, r) := Handled(ts, e);
      && (r.ParentAlreadySet? <==> ts != [] && e.payload.CallStarted? && e.payload.call.parentId.None?)
      && (r.MissingParentId? <==> Adds(ts, e) && e.payload.call.parentId.None?)
      && (r.MissingParentId? ==> r.id == e.payload.call.id)
      && (r.Unexpected? <==> Adds(ts, e) && e.payload.call.parentId.Some? && !Has(ts, e.payload.call.parentId.value))
      && (!r.Accepted? ==> after == ts)
      && (ts == [] && !(e.payload.CallStarted? && e.payload.call.parentId.None?) ==> after == [])
  {
    if Adds(ts, e) && e.payload.call.parentId.Some? {
      var state := if e.payload.CallStarted? then Running else Skipped;
      InsertSucceeds(ts, e.payload.call.parentId.value, Leaf(e.payload.call, e.timestamp, state));
    }
  }

  function Graph(events: seq<Event>): seq<Tree> {
    if events == [] then [] else Handled(Graph(events[..|events| - 1]), events[|events| - 1]).0
  }

  /** At most one root, which has no parent, and every other node hangs under its parent. */
  ghost predicate IsTree(ts: seq<Tree>) {
    |ts| <= 1 && Linked(ts) && forall t :: t in ts ==> t.record.call.parentId == None
  }

  lemma HandledKeepsTree(ts: seq<Tree>, e: Event)
    requires IsTree(ts)
    ensures IsTree(Handled(ts, e).0)
  {
    if ts != [] {
      var call := if e.payload.CallStarted? || e.payload.CallEnded? then Some(e.payload.call) else None;
      if call.Some? {
        if Has(ts, call.value.id) && e.payload.CallEnded? {
          MarkKeepsLinks(ts, call.value.id, e.timestamp, e.payload.outcome);
          assert Handled(ts, e).0[0].record.call == ts[0].record.call;
        } else if call.value.parentId.Some? {
          var node := Leaf(call.value, e.timestamp, if e.payload.CallStarted? then Running else Skipped);
          if Insert(ts, call.value.parentId.value, node).Some? {
            InsertKeepsLinks(ts, call.value.parentId.value, node);
            assert Handled(ts, e).0[0].record.call == ts[0].record.call;
          }
        }
      }
    } else {
      var r := Handled(ts, e).0;
      assert r != [] ==> r[1..] == [];
    }
  }

  /** After any events at all the graph is a tree. */
  lemma {:induction false} GraphIsTree(events: seq<Event>)
    ensures IsTree(Graph(events))
  {
    if events != [] {
      GraphIsTree(events[..|events| - 1]);
      HandledKeepsTree(Graph(events[..|events| - 1]), events[|events| - 1]);
    }
  }

  // ---------- traces ----------

  /** The history of one call, read off the events with no tree: it is opened by its start, or by an end
      that nothing came before if it was skipped, and its last end closes it. An end that names no parent, as that of a
      call that could not be interpreted, opens none. */
  function History(events: seq<Event>, id: CallId): Option<Record> {
    if events == [] then None
    else
      var before, e := History(events[..|events| - 1], id), events[|events| - 1];
      match e.payload
      case CallStarted(call) => if call.id == id then Some(Record(call, e.timestamp, None, Running)) else before
      case CallEnded(call, outcome, _, _) =>
        if call.id != id then before
        else if before.Some? then Some(Closed(before.value, e.timestamp, outcome))
        else if call.parentId.Some? then Some(Record(call, e.timestamp, None, Skipped))
        else None
      case _ => before
  }

  /** The end of a call that is not known and names no parent. */
  predicate EndsUnknown(events: seq<Event>, e: Event) {
    e.payload.CallEnded? && e.payload.call.parentId.None? && History(events, e.payload.call.id).None?
  }

  predicate NothingStarted(events: seq<Event>) {
    forall i :: 0 <= i < |events| ==> !events[i].payload.CallStarted?
  }

  /** Whether `e` may come next: a call starts once, before it ends and after its parent; only the first call that
      starts has no parent; and the parent that an end without a start names is known. */
  predicate MayFollow(events: seq<Event>, e: Event) {
    match e.payload
    case CallStarted(call) =>
      && History(events, call.id).None?
      && (if call.parentId.Some? then History(events, call.parentId.value).Some? else NothingStarted(events))
    case CallEnded(call, _, _, _) =>
      History(events, call.id).Some? || (call.parentId.Some? ==> History(events, call.parentId.value).Some?)
    case _ => true
  }

  predicate Orderly(events: seq<Event>) {
    events == [] || (Orderly(events[..|events| - 1]) && MayFollow(events[..|events| - 1], events[|events| - 1]))
  }

  /** Nothing changes, and unless nothing is shown yet the handler says what is missing. */
  predicate Refused(ts: seq<Tree>, e: Event)
    requires e.payload.CallEnded?
  {
    Handled(ts, e).0 == ts && (ts != [] ==> Handled(ts, e).1 == MissingParentId(e.payload.call.id))
  }

  lemma {:induction false} NothingStartedNothingKnown(events: seq<Event>, id: CallId)
    requires Orderly(events) && NothingStarted(events)
    ensures History(events, id).None?
    decreases |events|
  {
    if events != [] {
      var before, e := events[..|events| - 1], events[|events| - 1];
      NothingStartedNothingKnown(before, id);
      assert !e.payload.CallStarted?;
      if e.payload.CallEnded? {
        NothingStartedNothingKnown(before, e.payload.call.id);
        if e.payload.call.parentId.Some? { NothingStartedNothingKnown(before, e.payload.call.parentId.value); }
      }
    }
  }

  /** The tree agrees with the histories: every call with one is there exactly once, and no other. */
  ghost predicate Agrees(ts: seq<Tree>, events: seq<Event>, id: CallId) {
    && Lookup(ts, id) == History(events, id)
    && Occurrences(ts, id) == if History(events, id).Some? then 1 else 0
  }

  lemma {:induction false} NothingKnownNothingThere(events: seq<Event>)
    requires Orderly(events) && NothingStarted(events)
    requires forall x :: Agrees(Graph(events), events, x)
    ensures Graph(events) == []
  {
    if Graph(events) != [] {
      var id := Graph(events)[0].Id();
      assert Agrees(Graph(events), events, id);
      NothingStartedNothingKnown(events, id);
    }
  }

  /** On an orderly trace the tree holds exactly the calls of the trace, each once and with the state that its own
      events left it in. No event is refused but the end of an unknown call that names no parent, which changes nothing. */
  lemma {:induction false} GraphIsTheTrace(events: seq<Event>, id: CallId)
    requires Orderly(events)
    ensures Agrees(Graph(events), events, id)
    ensures events != [] ==>
      var (before, e) := (events[..|events| - 1], events[|events| - 1]);
      if EndsUnknown(before, e) then Refused(Graph(before), e) else Handled(Graph(before), e).1 == Accepted
    decreases |events|
  {
    if events != [] {
      var before, e := events[..|events| - 1], events[|events| - 1];
      assert events == before + [e];
      forall x ensures Agrees(Graph(before), before, x) { GraphIsTheTrace(before, x); }
      assert Agrees(Graph(before), before, id);
      if e.payload.CallStarted? {
        StartAgrees(before, e, id);
      } else if e.payload.CallEnded? {
        EndAgrees(before, e, id);
      }
    }
  }

  lemma StartAgrees(before: seq<Event>, e: Event, id: CallId)
    requires Orderly(before) && MayFollow(before, e) && e.payload.CallStarted?
    requires forall x :: Agrees(Graph(before), before, x)
    ensures Agrees(Handled(Graph(before), e).0, before + [e], id)
    ensures Handled(Graph(before), e).1 == Accepted
  {
    var ts, call := Graph(before), e.payload.call;
    assert (before + [e])[..|before|] == before;
    assert Agrees(ts, before, id) && Agrees(ts, before, call.id);
    var node := Leaf(call, e.timestamp, Running);
    if call.parentId.None? {
      NothingKnownNothingThere(before);
    } else {
      assert Agrees(ts, before, call.parentId.value);
      InsertAddsOne(ts, call.parentId.value, node, id);
      InsertKeepsRecords(ts, call.parentId.value, node, id);
    }
  }

  lemma EndAgrees(before: seq<Event>, e: Event, id: CallId)
    requires Orderly(before) && MayFollow(before, e) && e.payload.CallEnded?
    requires forall x :: Agrees(Graph(before), before, x)
    ensures Agrees(Handled(Graph(before), e).0, before + [e], id)
    ensures if EndsUnknown(before, e) then Refused(Graph(before), e) else Handled(Graph(before), e).1 == Accepted
  {
    var ts, call := Graph(before), e.payload.call;
    assert (before + [e])[..|before|] == before;
    assert Agrees(ts, before, id) && Agrees(ts, before, call.id);
    if Has(ts, call.id) {
      MarkChangesOne(ts, call.id, e.timestamp, e.payload.outcome, id);
    } else if call.parentId.Some? {
      assert Agrees(ts, before, call.parentId.value);
      var node := Leaf(call, e.timestamp, Skipped);
      InsertAddsOne(ts, call.parentId.value, node, id);
      InsertKeepsRecords(ts, call.parentId.value, node, id);
    }
  }

  /** Events are delivered at least once, and the graph is not indifferent to that: the second delivery of a
      skipped call's end makes the call look as if it had run. */
  lemma SkippedTwiceLooksRun(root: Call, child: Call, t0: Timestamp, t1: Timestamp, outcome: Outcome)
    requires root.parentId == None && child.parentId == Some(root.id) && child.id != root.id
    ensures var started := Event(t0, CallStarted(root));
      var ended := Event(t1, CallEnded(child, outcome, map[], None));
      && Lookup(Graph([started, ended]), child.id) == Some(Record(child, t1, None, Skipped))
      && Lookup(Graph([started, ended, ended]), child.id) == Some(Record(child, t1, Some(t1), Ended(outcome)))
  {
    var started := Event(t0, CallStarted(root));
    var ended := Event(t1, CallEnded(child, outcome, map[], None));
    var s1, s2, s3 := [started], [started, ended], [started, ended, ended];
    assert s1[..0] == [] && s2[..1] == s1 && s3[..2] == s2;
    assert History([], root.id).None?;
    assert Orderly([]) && Orderly(s1);
    assert History(s1, root.id).Some? && History(s1, child.id).None?;
    assert Orderly(s2);
    assert History(s2, child.id).Some?;
    assert Orderly(s3);
    GraphIsTheTrace(s2, child.id);
    GraphIsTheTrace(s3, child.id);
  }
}
