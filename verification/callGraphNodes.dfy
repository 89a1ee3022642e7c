/** The call graph as the CLI keeps it: nodes on the heap that are appended to and updated in place, proved to stand
    for the tree as a value. */
module CallGraphNodes {
  import opened Text
  import opened Events
  import opened GraphAsValue = CallGraph

  /** Which node object stands where. */
  datatype Shape = Shape(node: Node, below: seq<Shape>)

  ghost function All(ss: seq<Shape>): set<Node> {
    if ss == [] then {} else {ss[0].node} + All(ss[0].below) + All(ss[1..])
  }

  /** No node stands in two places. */
  ghost predicate Apart(ss: seq<Shape>) {
    ss == [] || (
      && ss[0].node !in All(ss[0].below) + All(ss[1..])
      && All(ss[0].below) !! All(ss[1..])
      && Apart(ss[0].below) && Apart(ss[1..]))
  }

  ghost function Heads(ss: seq<Shape>): (hs: seq<Node>)
    ensures |hs| == |ss|
  {
    if ss == [] then [] else [ss[0].node] + Heads(ss[1..])
  }

  /** The nodes' children are what the shape says. */
  ghost predicate Realized(ss: seq<Shape>)
    reads All(ss)
  {
    ss == [] || (ss[0].node.children == Heads(ss[0].below) && Realized(ss[0].below) && Realized(ss[1..]))
  }

  ghost function Model(ss: seq<Shape>): (ts: seq<Tree>)
    reads All(ss)
    ensures |ts| == |ss|
  {
    if ss == [] then [] else [Tree(ss[0].node.Recorded(), Model(ss[0].below))] + Model(ss[1..])
  }

  ghost function First(ss: seq<Shape>, id: CallId): (n: Node?)
    ensures n != null ==> n in All(ss) && n.call.id == id
  {
    if ss == [] then null
    else if ss[0].node.call.id == id then ss[0].node
    else if First(ss[0].below, id) != null then First(ss[0].below, id)
    else First(ss[1..], id)
  }

  /** The shape with a leaf added under the first node with the ID. */
  ghost function Graft(ss: seq<Shape>, id: CallId, n: Node): seq<Shape> {
    if ss == [] then []
    else if ss[0].node.call.id == id then [Shape(ss[0].node, ss[0].below + [Shape(n, [])])] + ss[1..]
    else if First(ss[0].below, id) != null then [Shape(ss[0].node, Graft(ss[0].below, id, n))] + ss[1..]
    else [ss[0]] + Graft(ss[1..], id, n)
  }

  class Node {
    const call: Call
    const startTime: Timestamp
    var endTime: Option<Timestamp>
    var state: NodeState
    var children: seq<Node>

    constructor (call: Call, startTime: Timestamp, state: NodeState)
      ensures this.call == call && this.startTime == startTime && this.endTime == None && this.state == state
      ensures children == []
    {
      this.call, this.startTime, this.endTime, this.state, this.children := call, startTime, None, state, [];
    }

    ghost function Recorded(): Record
      reads this
    {
      Record(call, startTime, endTime, state)
    }

    /** Puts the call under the first node with the parent's ID, in a new node with no children. */
    method Insert(call: Call, at: Timestamp, initial: NodeState, ghost s: Shape) returns (r: Reaction, n: Node?)
      requires s.node == this && Realized([s])
      modifies All([s])
      ensures call.parentId.None? ==> r == MissingParentId(call.id)
      ensures call.parentId.Some? ==> r == if First([s], call.parentId.value) == null then Unexpected else Accepted
      ensures r != Accepted ==> Kept(All([s]), null)
      ensures r == Accepted ==>
                && n != null && fresh(n) && n.call == call && n.Recorded() == Record(call, at, None, initial)
                && n.children == []
                && Gained(First([s], call.parentId.value), n) && Kept(All([s]), First([s], call.parentId.value))
      decreases s
    {
      Exists([s]);
      assert [s][1..] == [];
      if call.parentId.None? { return MissingParentId(call.id), null; }
      if this.call.id == call.parentId.value {
        n := new Node(call, at, initial);
        children := children + [n];
        return Accepted, n;
      }
      for i := 0 to |children|
        invariant children == old(children) && Kept(All([s]), null)
        invariant First(s.below, call.parentId.value) == First(s.below[i..], call.parentId.value)
      {
        Untouched([s], null);
        ShapeAt(s.below, i, call.parentId.value);
        r, n := children[i].Insert(call, at, initial, s.below[i]);
        if r == Accepted { return; }
      }
      return Unexpected, null;
    }

    function Find(id: CallId, ghost s: Shape): (n: Node?)
      requires s.node == this && Realized([s])
      reads All([s])
      ensures n == First([s], id)
      decreases s, 0
    {
      assert [s][1..] == [];
      if call.id == id then this else FindAmong(children, id, s.below)
    }

    static function FindAmong(nodes: seq<Node>, id: CallId, ghost ss: seq<Shape>): (n: Node?)
      requires nodes == Heads(ss) && Realized(ss)
      reads All(ss)
      ensures n == First(ss, id)
      decreases ss, |nodes| + 1
    {
      if nodes == [] then null
      else
        ShapeAt(ss, 0, id);
        var n := nodes[0].Find(id, ss[0]);
        if n != null then n else FindAmong(nodes[1..], id, ss[1..])
    }

    predicate IsLeaf()
      reads this
    {
      |children| == 0
    }

    method CountChildren(ghost s: Shape) returns (count: nat)
      requires s.node == this && Realized([s])
      ensures count == GraphAsValue.CountChildren(Model(s.below))
      decreases s
    {
      Exists(s.below);
      assert Realized(s.below) && children == Heads(s.below) by { assert [s][1..] == []; }
      ghost var trees := Model(s.below);
      count := 0;
      for i := 0 to |children|
        invariant Realized(s.below) && Model(s.below) == trees
        invariant count + GraphAsValue.CountChildren(trees[i..]) == GraphAsValue.CountChildren(trees)
      {
        ShapeAt(s.below, i, call.id);
        CountAt(s.below, i);
        if children[i].IsLeaf() {
          count := count + 1;
        } else {
          var below := children[i].CountChildren(s.below[i]);
          count := count + below;
        }
      }
    }
  }

  /** The graph, with the shape of the nodes below its root. */
  class CallGraph {
    var rootNode: Node?
    ghost var shape: seq<Shape>

    constructor ()
      ensures Valid() && Trees() == []
    {
      rootNode, shape := null, [];
    }

    ghost predicate Valid()
      reads this, All(shape)
    {
      && Apart(shape) && Realized(shape) && |shape| <= 1
      && rootNode == if shape == [] then null else shape[0].node
    }

    ghost function Trees(): seq<Tree>
      reads this, All(shape)
    {
      Model(shape)
    }

    method HandleEvent(event: Event) returns (r: Reaction)
      requires Valid()
      modifies this, All(shape)
      ensures Valid() && fresh(All(shape) - old(All(shape)))
      ensures (Trees(), r) == Handled(old(Trees()), event)
    {
      match event.payload {
        case CallStarted(call) =>
          if call.parentId.None? {
            if rootNode == null {
              rootNode := new Node(call, event.timestamp, Running);
              shape := [Shape(rootNode, [])];
              assert shape[1..] == [] && Trees() == [Leaf(call, event.timestamp, Running)];
              return Accepted;
            }
            return ParentAlreadySet;
          }
          if rootNode == null { return Accepted; }
          r := Insert(call, event.timestamp, Running);
        case CallEnded(call, outcome, _, _) =>
          if rootNode == null { return Accepted; }
          assert [shape[0]] == shape;
          var node := rootNode.Find(call.id, shape[0]);
          FirstIsLookup(shape, call.id);
          if node == null {
            r := Insert(call, event.timestamp, Skipped);
            return;
          }
          Exists(shape);
          node.endTime := Some(event.timestamp);
          node.state := Ended(outcome);
          Finished(shape, call.id, node, event.timestamp, outcome);
          return Accepted;
        case _ =>
          return Accepted;
      }
    }

    method Insert(call: Call, at: Timestamp, initial: NodeState) returns (r: Reaction)
      requires Valid() && rootNode != null
      modifies this, All(shape)
      ensures Valid() && fresh(All(shape) - old(All(shape))) && rootNode == old(rootNode)
      ensures (Trees(), r) == Inserted(old(Trees()), call, at, initial)
    {
      assert [shape[0]] == shape;
      var n: Node?;
      Exists(shape);
      if call.parentId.Some? {
        FirstIsLookup(shape, call.parentId.value);
        InsertSucceeds(Model(shape), call.parentId.value, Leaf(call, at, initial));
      }
      r, n := rootNode.Insert(call, at, initial, shape[0]);
      if r == Accepted {
        var parent := call.parentId.value;
        Grown(shape, parent, First(shape, parent), n);
        GraftShape(shape, parent, n);
        shape := Graft(shape, parent, n);
      } else {
        Untouched(shape, null);
      }
    }
  }

  lemma {:induction false} ModelAt(ss: seq<Shape>, i: nat)
    requires i < |ss|
    ensures Model(ss)[i] == Tree(ss[i].node.Recorded(), Model(ss[i].below))
  {
    if i > 0 { ModelAt(ss[1..], i - 1); }
  }

  lemma CountAt(ss: seq<Shape>, i: nat)
    requires i < |ss| && Realized([ss[i]])
    ensures GraphAsValue.CountChildren(Model(ss)[i..]) == GraphAsValue.CountChildren(Model(ss)[i + 1..])
              + if |ss[i].node.children| == 0 then 1 else GraphAsValue.CountChildren(Model(ss[i].below))
  {
    ModelAt(ss, i);
    assert [ss[i]][1..] == [] && ss[i].node.children == Heads(ss[i].below);
    assert Model(ss)[i..][1..] == Model(ss)[i + 1..];
  }

  lemma {:induction false} Exists(ss: seq<Shape>)
    ensures forall o <- All(ss) :: allocated(o)
  {
    if ss != [] {
      Exists(ss[0].below);
      Exists(ss[1..]);
    }
  }

  twostate predicate Gained(p: Node?, new n: Node)
    reads p
  {
    p != null && p.children == old(p.children) + [n] && p.Recorded() == old(p.Recorded())
  }

  /** One of several siblings by itself. */
  lemma {:induction false} ShapeAt(ss: seq<Shape>, i: nat, id: CallId)
    requires i < |ss|
    ensures All([ss[i]]) <= All(ss) && Heads(ss)[i] == ss[i].node
    ensures Realized(ss) ==> Realized([ss[i]])
    ensures First(ss[i..], id) == if First([ss[i]], id) != null then First([ss[i]], id) else First(ss[i + 1..], id)
  {
    assert [ss[i]][1..] == [];
    if i == 0 {
      assert ss[0..] == ss;
    } else {
      ShapeAt(ss[1..], i - 1, id);
      assert ss[1..][i - 1..] == ss[i..] && ss[1..][i..] == ss[i + 1..];
    }
  }

  lemma {:induction false} FirstIsLookup(ss: seq<Shape>, id: CallId)
    ensures First(ss, id) != null <==> Has(Model(ss), id)
  {
    if ss != [] {
      FirstIsLookup(ss[0].below, id);
      FirstIsLookup(ss[1..], id);
      assert Model(ss)[1..] == Model(ss[1..]);
    }
  }

  twostate lemma {:induction false} FirstWasLookup(new ss: seq<Shape>, id: CallId)
    requires old(allocated(ss))
    ensures First(ss, id) != null <==> Has(old(Model(ss)), id)
  {
    if ss != [] {
      FirstWasLookup(ss[0].below, id);
      FirstWasLookup(ss[1..], id);
      assert old(Model(ss))[1..] == old(Model(ss[1..]));
    }
  }

  lemma {:induction false} AppendShape(ss: seq<Shape>, s: Shape)
    requires s.below == []
    ensures All(ss + [s]) == All(ss) + {s.node}
    ensures Heads(ss + [s]) == Heads(ss) + [s.node]
    ensures Apart(ss) && s.node !in All(ss) ==> Apart(ss + [s])
    ensures Realized(ss) && s.node.children == [] ==> Realized(ss + [s])
    ensures Model(ss + [s]) == Model(ss) + [Tree(s.node.Recorded(), [])]
  {
    if ss == [] {
      assert [] + [s] == [s] && [s][1..] == [];
    } else {
      AppendShape(ss[1..], s);
      assert (ss + [s])[1..] == ss[1..] + [s];
    }
  }

  lemma {:induction false} GraftShape(ss: seq<Shape>, id: CallId, n: Node)
    requires Apart(ss) && n !in All(ss) && First(ss, id) != null
    ensures All(Graft(ss, id, n)) == All(ss) + {n} && Apart(Graft(ss, id, n))
    ensures Heads(Graft(ss, id, n)) == Heads(ss)
  {
    var ss' := Graft(ss, id, n);
    if ss[0].node.call.id == id {
      AppendShape(ss[0].below, Shape(n, []));
      assert ss'[1..] == ss[1..];
    } else if First(ss[0].below, id) != null {
      GraftShape(ss[0].below, id, n);
      assert ss'[1..] == ss[1..];
    } else {
      GraftShape(ss[1..], id, n);
      assert ss'[1..] == Graft(ss[1..], id, n);
    }
  }

  /** All of the nodes but `p` are as they were. */
  twostate predicate Kept(new nodes: set<Node>, new p: Node?)
    reads nodes
  {
    forall o <- nodes :: o != p ==> old(allocated(o)) && o.children == old(o.children) && o.Recorded() == old(o.Recorded())
  }

  /** Appending a fresh leaf to the children of the first node with the ID, and touching no other node, inserts
      it into the tree. */
  twostate lemma {:induction false} Grown(new ss: seq<Shape>, id: CallId, new p: Node, new n: Node)
    requires old(allocated(ss)) && old(allocated(p))
    requires Apart(ss) && old(Realized(ss)) && fresh(n) && n.children == [] && n.endTime == None
    requires p == First(ss, id) && p.children == old(p.children) + [n] && p.Recorded() == old(p.Recorded())
    requires Kept(All(ss), p)
    ensures n !in All(ss) && Realized(Graft(ss, id, n))
    ensures Insert(old(Model(ss)), id, Leaf(n.call, n.startTime, n.state)) == Some(Model(Graft(ss, id, n)))
  {
    var ss', was := Graft(ss, id, n), old(Model(ss));
    assert was[1..] == old(Model(ss[1..]));
    if ss[0].node.call.id == id {
      Untouched(ss[0].below, p);
      Untouched(ss[1..], p);
      AppendShape(ss[0].below, Shape(n, []));
      assert ss'[1..] == ss[1..];
    } else if First(ss[0].below, id) != null {
      Grown(ss[0].below, id, p, n);
      assert p in All(ss[0].below);
      Untouched(ss[1..], p);
      GraftShape(ss[0].below, id, n);
      assert ss'[1..] == ss[1..];
    } else {
      Untouched(ss[0].below, p);
      FirstWasLookup(ss[0].below, id);
      Grown(ss[1..], id, p, n);
      InsertSucceeds(was[0].children, id, Leaf(n.call, n.startTime, n.state));
      assert ss'[1..] == Graft(ss[1..], id, n);
    }
  }

  twostate lemma {:induction false} Untouched(new ss: seq<Shape>, new p: Node?)
    requires old(allocated(ss)) && Kept(All(ss), p) && p !in All(ss)
    ensures Model(ss) == old(Model(ss)) && Realized(ss) == old(Realized(ss))
  {
    if ss != [] {
      Untouched(ss[0].below, p);
      Untouched(ss[1..], p);
    }
  }

  /** Ending the first node with the ID, and touching no other node, marks it in the tree. */
  twostate lemma {:induction false} Finished(new ss: seq<Shape>, id: CallId, new p: Node, new at: Timestamp, new outcome: Outcome)
    requires old(allocated(ss)) && old(allocated(p))
    requires Apart(ss) && old(Realized(ss)) && p == First(ss, id)
    requires p.children == old(p.children) && p.Recorded() == Closed(old(p.Recorded()), at, outcome)
    requires Kept(All(ss), p)
    ensures Realized(ss) && Model(ss) == Mark(old(Model(ss)), id, at, outcome)
  {
    var was := old(Model(ss));
    assert was[1..] == old(Model(ss[1..]));
    if ss[0].node.call.id == id {
      Untouched(ss[0].below, p);
      Untouched(ss[1..], p);
    } else if First(ss[0].below, id) != null {
      Finished(ss[0].below, id, p, at, outcome);
      FirstWasLookup(ss[0].below, id);
      Untouched(ss[1..], p);
    } else {
      Untouched(ss[0].below, p);
      FirstWasLookup(ss[0].below, id);
      Finished(ss[1..], id, p, at, outcome);
    }
  }
}
