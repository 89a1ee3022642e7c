/** Loops: the scope of an iteration, when a loop is complete, and the two loop callers. */
module Loops {
  import opened Text
  import opened Values
  import opened Events
  import opened Sorting
  import opened SerialCaller
  import ParallelCaller

  /** A scope as Go has it: a map that callers share. */
  class ScopeMap {
    var vars: Scope

    constructor (vars: Scope)
      ensures this.vars == vars
    {
      this.vars := vars;
    }
  }

  /** What a range evaluates to. */
  datatype Loopable = Items(items: seq<Data>) | Members(members: map<string, Data>) {
    function Length(): nat {
      if Items? then |items| else |members|
    }
  }

  datatype LoopVars = LoopVars(index: Option<string>, key: Option<string>, value: Option<string>)

  /** The expressions of a loop, as functions of the scope they are evaluated in. */
  datatype LoopSpec = LoopSpec(
    range: Option<Scope -> Option<Loopable>>,
    until: Option<Scope -> Option<bool>>,
    vars: Option<LoopVars>,
    interpret: (Data, Scope) -> Option<Value>)

  // ---------- the scope of an iteration ----------

  ghost predicate IsLeast(name: string, all: set<string>) {
    name in all && forall x :: x in all && x != name ==> Less(name, x)
  }

  lemma {:induction false} LeastExists(all: set<string>)
    requires all != {}
    ensures exists name :: IsLeast(name, all)
    decreases |all|
  {
    var name :| name in all;
    if all == {name} {
      assert IsLeast(name, all);
    } else {
      LeastExists(all - {name});
      var other :| IsLeast(other, all - {name});
      LessTotal(name, other);
      if Less(other, name) {
        assert IsLeast(other, all);
      } else {
        forall x | x in all && x != name && x != other ensures Less(name, x) { LessTransitive(name, other, x); }
        assert IsLeast(name, all);
      }
    }
  }

  /** The keys of an object in the order a loop visits them. */
  ghost function SortedKeys(all: set<string>): (names: seq<string>)
    ensures Listing(names, all) && |names| == |all|
  {
    if all == {} then []
    else
      LeastExists(all);
      var least :| IsLeast(least, all);
      var rest := SortedKeys(all - {least});
      assert forall i :: 0 <= i < |rest| ==> rest[i] in rest;
      [least] + rest
  }

  /** Iteration `index` of a range visits this item, and for an object its key. */
  ghost function Visited(l: Loopable, index: nat): Option<(Data, Option<string>)> {
    if index >= l.Length() then None
    else match l
      case Items(items) => Some((items[index], None))
      case Members(members) => Some((members[SortedKeys(members.Keys)[index]], Some(SortedKeys(members.Keys)[index])))
  }

  /** An object's keys are visited once each, in order, and all of them. */
  lemma EveryKeyOnce(members: map<string, Data>, key: string)
    requires key in members
    ensures exists i :: 0 <= i < |members| && Visited(Members(members), i) == Some((members[key], Some(key)))
              && forall j :: 0 <= j < |members| && Visited(Members(members), j).value.1 == Some(key) ==> j == i
  {
    var names := SortedKeys(members.Keys);
    assert key in names;
    var i :| 0 <= i < |names| && names[i] == key;
    LessIrreflexive(key);
    assert Visited(Members(members), i) == Some((members[key], Some(key)));
    forall j | 0 <= j < |members| && Visited(Members(members), j).value.1 == Some(key) ensures j == i {
      assert names[j] == key;
    }
  }

  function Bind(scope: Scope, name: Option<string>, value: Value): Scope {
    if name.Some? then scope[RefToName(name.value) := value] else scope
  }

  /** The scope of iteration `index`, or None if an expression cannot be interpreted. */
  ghost function Scoped(index: nat, scope: Scope, spec: LoopSpec): Option<Scope> {
    if spec.vars.None? then Some(scope)
    else
      var vars := spec.vars.value;
      var indexed := Bind(scope, vars.index, NumberValue(index as real));
      if spec.range.None? then Some(indexed)
      else
        var l := spec.range.value(indexed);
        if l.None? then None
        else if index >= l.value.Length() then Some(indexed)
        else
          var (item, key) := Visited(l.value, index).value;
          var keyed := if key.Some? then Bind(indexed, vars.key, StringValue(key.value)) else indexed;
          if vars.value.None? then Some(keyed)
          else
            var v := spec.interpret(item, keyed);
            if v.Some? then Some(Bind(keyed, vars.value, v.value)) else None
  }

  /** With no loop variables the iteration's scope is the given map itself, not a copy. */
  method ScopeIteration(index: nat, scope: ScopeMap, spec: LoopSpec) returns (r: Option<ScopeMap>)
    ensures r.None? <==> Scoped(index, scope.vars, spec).None?
    ensures r.Some? ==> r.value.vars == Scoped(index, scope.vars, spec).value
    ensures r.Some? ==> if spec.vars.None? then r.value == scope else fresh(r.value)
  {
    if spec.vars.None? { return Some(scope); }
    var vars := spec.vars.value;
    var outboundScope := new ScopeMap(scope.vars);
    if vars.index.Some? {
      outboundScope.vars := outboundScope.vars[RefToName(vars.index.value) := NumberValue(index as real)];
    }
    if spec.range.None? { return Some(outboundScope); }
    var l := spec.range.value(outboundScope.vars);
    if l.None? { return None; }
    var rawValue: Data;
    match l.value {
      case Items(items) =>
        if index >= |items| { return Some(outboundScope); }
        rawValue := items[index];
      case Members(members) =>
        if index >= |members| { return Some(outboundScope); }
        var sortedNames := Sorted(members.Keys);
        ListingIsUnique(sortedNames, SortedKeys(members.Keys), members.Keys);
        var name := sortedNames[index];
        assert name in sortedNames;
        rawValue := members[name];
        if vars.key.Some? {
          outboundScope.vars := outboundScope.vars[RefToName(vars.key.value) := StringValue(name)];
        }
    }
    if vars.value.Some? {
      var v := spec.interpret(rawValue, outboundScope.vars);
      if v.None? { return None; }
      outboundScope.vars := outboundScope.vars[RefToName(vars.value.value) := v.value];
    }
    return Some(outboundScope);
  }

  // ---------- what an iteration binds ----------

  predicate IsNamed(var_: Option<string>, name: Option<string>) {
    if var_.Some? then name.Some? && RefersTo(var_.value, name.value) else name.None?
  }

  /** These are the names of the loop variables, which are written as references or bare. */
  predicate AreNames(vars: LoopVars, names: LoopVars) {
    IsNamed(vars.index, names.index) && IsNamed(vars.key, names.key) && IsNamed(vars.value, names.value)
  }

  function One(name: Option<string>, value: Value): Scope {
    if name.Some? then map[name.value := value] else map[]
  }

  function WithIndex(scope: Scope, names: LoopVars, index: nat): Scope {
    scope + One(names.index, NumberValue(index as real))
  }

  lemma BindsOne(scope: Scope, var_: Option<string>, name: Option<string>, value: Value)
    requires IsNamed(var_, name)
    ensures Bind(scope, var_, value) == scope + One(name, value)
  {
    if var_.Some? { RefToNameOfRef(var_.value, name.value); }
  }

  /** The range as it is where only the index is bound, if it can be evaluated. */
  ghost predicate Ranges(spec: LoopSpec, names: LoopVars, index: nat, scope: Scope, l: Loopable) {
    && spec.vars.Some? && AreNames(spec.vars.value, names)
    && spec.range.Some? && spec.range.value(WithIndex(scope, names, index)) == Some(l)
  }

  /** With no range, or past its end, an iteration binds its index and nothing else. */
  lemma BindsIndexOnly(index: nat, scope: Scope, spec: LoopSpec, names: LoopVars)
    requires spec.vars.Some? && AreNames(spec.vars.value, names)
    requires spec.range.None? || exists l :: Ranges(spec, names, index, scope, l) && l.Length() <= index
    ensures Scoped(index, scope, spec) == Some(WithIndex(scope, names, index))
  {
    BindsOne(scope, spec.vars.value.index, names.index, NumberValue(index as real));
  }

  /** If the range cannot be evaluated with the index bound, the iteration has no scope. */
  lemma NoRangeNoScope(index: nat, scope: Scope, spec: LoopSpec, names: LoopVars)
    requires spec.vars.Some? && AreNames(spec.vars.value, names)
    requires spec.range.Some? && spec.range.value(WithIndex(scope, names, index)).None?
    ensures Scoped(index, scope, spec).None?
  {
    BindsOne(scope, spec.vars.value.index, names.index, NumberValue(index as real));
  }

  /** In an array it binds the index, and the value to what the item is interpreted as there. */
  lemma BindsItem(index: nat, scope: Scope, spec: LoopSpec, names: LoopVars, items: seq<Data>)
    requires Ranges(spec, names, index, scope, Items(items)) && index < |items|
    ensures var indexed := WithIndex(scope, names, index);
      Scoped(index, scope, spec) ==
        if names.value.None? then Some(indexed)
        else match spec.interpret(items[index], indexed)
          case None => None
          case Some(v) => Some(indexed + map[names.value.value := v])
  {
    BindsOne(scope, spec.vars.value.index, names.index, NumberValue(index as real));
    var indexed := WithIndex(scope, names, index);
    var v := spec.interpret(items[index], indexed);
    if v.Some? { BindsOne(indexed, spec.vars.value.value, names.value, v.value); }
  }

  function Smaller(keys: set<string>, key: string): set<string> {
    set k | k in keys && Less(k, key)
  }

  lemma {:induction false} SmallerThanFirst(names: seq<string>, all: set<string>, i: nat)
    requires Listing(names, all) && i < |names|
    ensures |Smaller(all, names[i])| == i
    decreases i
  {
    LessIrreflexive(names[i]);
    if i == 0 {
      forall k | k in all ensures !Less(k, names[0]) {
        var j :| 0 <= j < |names| && names[j] == k;
        LessTotal(names[0], k);
      }
      assert Smaller(all, names[0]) == {};
    } else {
      SmallerThanFirst(names, all, i - 1);
      LessIrreflexive(names[i - 1]);
      assert names[i - 1] in names && Less(names[i - 1], names[i]);
      forall k ensures k in Smaller(all, names[i]) <==> k in Smaller(all, names[i - 1]) || k == names[i - 1] {
        if k in all {
          var j :| 0 <= j < |names| && names[j] == k;
          LessTotal(names[i], k);
          LessTotal(names[i - 1], k);
        }
      }
      assert Smaller(all, names[i]) == Smaller(all, names[i - 1]) + {names[i - 1]};
    }
  }

  /** The key at an index is the one that has so many smaller ones. */
  lemma KeyAt(members: map<string, Data>, key: string)
    requires key in members
    ensures var i := |Smaller(members.Keys, key)|;
      i < |members| && Visited(Members(members), i) == Some((members[key], Some(key)))
  {
    var names := SortedKeys(members.Keys);
    assert key in names;
    var i :| 0 <= i < |names| && names[i] == key;
    SmallerThanFirst(names, members.Keys, i);
  }

  /** In an object it binds the index, the key that has so many smaller ones, and the value to what that member is
      interpreted as where these two are bound. */
  lemma BindsMember(scope: Scope, spec: LoopSpec, names: LoopVars, members: map<string, Data>, key: string)
    requires key in members && Ranges(spec, names, |Smaller(members.Keys, key)|, scope, Members(members))
    ensures var index := |Smaller(members.Keys, key)|;
      var keyed := WithIndex(scope, names, index) + One(names.key, StringValue(key));
      Scoped(index, scope, spec) ==
        if names.value.None? then Some(keyed)
        else match spec.interpret(members[key], keyed)
          case None => None
          case Some(v) => Some(keyed + map[names.value.value := v])
  {
    var index := |Smaller(members.Keys, key)|;
    KeyAt(members, key);
    BindsOne(scope, spec.vars.value.index, names.index, NumberValue(index as real));
    BindsOne(WithIndex(scope, names, index), spec.vars.value.key, names.key, StringValue(key));
    var keyed := WithIndex(scope, names, index) + One(names.key, StringValue(key));
    var v := spec.interpret(members[key], keyed);
    if v.Some? { BindsOne(keyed, spec.vars.value.value, names.value, v.value); }
  }

  // ---------- when a loop is complete ----------

  /** A loop as interpreted in one scope. */
  datatype Loop = Loop(range: Option<Loopable>, until: Option<bool>)

  function Interpreted(scope: Scope, spec: LoopSpec): Option<Loop> {
    var range := if spec.range.Some? then spec.range.value(scope) else None;
    var until := if spec.until.Some? then spec.until.value(scope) else None;
    if (spec.range.Some? && range.None?) || (spec.until.Some? && until.None?) then None else Some(Loop(range, until))
  }

  predicate SerialComplete(index: nat, loop: Loop) {
    loop.until == Some(true) || (loop.range.Some? && index == loop.range.value.Length())
  }

  predicate ParallelComplete(index: nat, loop: Loop) {
    loop.range.Some? && index >= loop.range.value.Length()
  }

  // ---------- the serial loop ----------

  /** One run of the body: its call, the events that are delivered once it was called, and what the body writes into the
      scope itself, as a loop with no loop variables does. */
  datatype Iteration = Iteration(id: CallId, stream: seq<Event>, writes: Scope)

  /** The scope after the body ran, or the error that its call ended with. */
  function AfterBody(scope: Scope, it: Iteration): Returned {
    NextEndIsThere(it.stream, 0, it.id);
    var k := NextEnd(it.stream, 0, it.id);
    if k.None? then Done(scope + it.writes)
    else if it.stream[k.value].payload.error.Some? then ErroredWith(it.stream[k.value].payload.error.value)
    else Done(scope + it.writes + it.stream[k.value].payload.outputs)
  }

  /** `Open` is a loop that has not come to its end in the iterations looked at. */
  datatype LoopEnd = Finished | NotInterpretable | BodyFailed(message: string) | Open

  datatype LoopResult = LoopResult(end: LoopEnd, ran: nat, scope: Scope)

  /** The scope of an iteration and the loop as it is there. */
  ghost function Begun(index: nat, scope: Scope, spec: LoopSpec): Option<(Scope, Loop)> {
    var s := Scoped(index, scope, spec);
    if s.None? || Interpreted(s.value, spec).None? then None else Some((s.value, Interpreted(s.value, spec).value))
  }

  method Begin(index: nat, scope: ScopeMap, spec: LoopSpec) returns (r: Option<(ScopeMap, Loop)>)
    ensures r.None? <==> Begun(index, scope.vars, spec).None?
    ensures r.Some? ==> Begun(index, scope.vars, spec) == Some((r.value.0.vars, r.value.1))
    ensures r.Some? ==> if spec.vars.None? then r.value.0 == scope else fresh(r.value.0)
  {
    var scoped := ScopeIteration(index, scope, spec);
    if scoped.None? { return None; }
    var loop := Interpreted(scoped.value.vars, spec);
    if loop.None? { return None; }
    return Some((scoped.value, loop.value));
  }

  /** The loop from iteration `index` on, with the scope that the iteration before it left. */
  ghost function LoopFrom(spec: LoopSpec, index: nat, scope: Scope, bodies: seq<Iteration>): LoopResult
    decreases |bodies|
  {
    var begun := Begun(index, scope, spec);
    if begun.None? then LoopResult(NotInterpretable, index, scope)
    else
      var (s, loop) := begun.value;
      if SerialComplete(index, loop) then LoopResult(Finished, index, s)
      else if bodies == [] then LoopResult(Open, index, s)
      else
        var after := AfterBody(s, bodies[0]);
        if after.ErroredWith? then LoopResult(BodyFailed(after.message), index + 1, s + bodies[0].writes)
        else if SerialComplete(index + 1, loop) then LoopResult(Finished, index + 1, after.outputs)
        else LoopFrom(spec, index + 1, after.outputs, bodies[1..])
  }

  method RunBody(scope: ScopeMap, it: Iteration) returns (error: Option<string>)
    modifies scope
    ensures var after := AfterBody(old(scope.vars), it);
      && error == (if after.ErroredWith? then Some(after.message) else None)
      && scope.vars == if after.Done? then after.outputs else old(scope.vars) + it.writes
  {
    scope.vars := scope.vars + it.writes;
    var end, next := AwaitEnd(it.stream, 0, it.id);
    if end.Some? {
      if end.value.payload.error.Some? { return end.value.payload.error; }
      scope.vars := scope.vars + end.value.payload.outputs;
    }
    return None;
  }

  /** Runs one body and begins the next iteration. `end` is why the loop stops here, if it does; `before` and `left` are
      the scopes that this iteration and the next one are made from, and `rest` are the bodies to come. */
  method RunIteration(ran: nat, scope: ScopeMap, loop: Loop, spec: LoopSpec, body: Iteration,
      ghost before: Scope, ghost rest: seq<Iteration>)
    returns (end: Option<LoopEnd>, next: ScopeMap, nextLoop: Loop, ghost left: Scope)
    requires Begun(ran, before, spec) == Some((scope.vars, loop)) && !SerialComplete(ran, loop)
    modifies scope
    ensures end.Some? ==> next == scope && LoopFrom(spec, ran, before, [body] + rest) == LoopResult(end.value, ran + 1, next.vars)
    ensures end.None? ==> LoopFrom(spec, ran, before, [body] + rest) == LoopFrom(spec, ran + 1, left, rest)
    ensures end.None? ==> Begun(ran + 1, left, spec) == Some((next.vars, nextLoop)) && !SerialComplete(ran + 1, loop)
    ensures end.None? ==> if spec.vars.None? then next == scope else fresh(next)
  {
    assert ([body] + rest)[0] == body && ([body] + rest)[1..] == rest;
    next, nextLoop := scope, loop;
    var error := RunBody(scope, body);
    left := scope.vars;
    if error.Some? { return Some(BodyFailed(error.value)), next, nextLoop, left; }
    if SerialComplete(ran + 1, loop) { return Some(Finished), next, nextLoop, left; }
    var begun := Begin(ran + 1, scope, spec);
    if begun.None? { return Some(NotInterpretable), next, nextLoop, left; }
    return None, begun.value.0, begun.value.1, left;
  }

  /** The iterations, from the first one begun: what they leave in the scope of the last one, and why they stop. The
      caller's map is that scope if there are no loop variables, else it stays as it was. */
  method Iterate(inbound: ScopeMap, spec: LoopSpec, bodies: seq<Iteration>, first: (ScopeMap, Loop))
    returns (end: LoopEnd, ran: nat, scope: ScopeMap)
    requires Begun(0, inbound.vars, spec) == Some((first.0.vars, first.1))
    requires if spec.vars.None? then first.0 == inbound else first.0 != inbound
    modifies inbound, first.0
    ensures LoopFrom(spec, 0, old(inbound.vars), bodies) == LoopResult(end, ran, scope.vars)
    ensures if spec.vars.None? then scope == inbound else inbound.vars == old(inbound.vars)
  {
    ghost var r, before := LoopFrom(spec, 0, inbound.vars, bodies), inbound.vars;
    var loop;
    ran, scope, loop := 0, first.0, first.1;
    assert bodies[0..] == bodies;
    while !SerialComplete(ran, loop)
      invariant ran <= |bodies| && LoopFrom(spec, ran, before, bodies[ran..]) == r
      invariant Begun(ran, before, spec) == Some((scope.vars, loop))
      invariant if spec.vars.None? then scope == inbound else scope != inbound && inbound.vars == old(inbound.vars)
      invariant scope == first.0 || fresh(scope)
      decreases |bodies| - ran
    {
      if ran == |bodies| { return Open, ran, scope; }
      assert bodies[ran..] == [bodies[ran]] + bodies[ran + 1..];
      var stop;
      stop, scope, loop, before := RunIteration(ran, scope, loop, spec, bodies[ran], before, bodies[ran + 1..]);
      ran := ran + 1;
      if stop.Some? { return stop.value, ran, scope; }
    }
    return Finished, ran, scope;
  }

  /** With no loop variables the loop works on its caller's own map, and leaves in it whatever the bodies did even
      if it fails; with loop variables the caller's map stays as it was. */
  method SerialLoopCall(inbound: ScopeMap, spec: LoopSpec, bodies: seq<Iteration>) returns (end: LoopEnd, ran: nat, outputs: Outputs)
    modifies inbound
    ensures var r := LoopFrom(spec, 0, old(inbound.vars), bodies);
      && end == r.end && ran == r.ran
      && inbound.vars == (if spec.vars.None? then r.scope else old(inbound.vars))
      && (end.Finished? ==> outputs == DeScoped(inbound.vars, spec, r.scope))
  {
    var begun := Begin(0, inbound, spec);
    if begun.None? { return NotInterpretable, 0, map[]; }
    var scope;
    end, ran, scope := Iterate(inbound, spec, bodies, begun.value);
    outputs := if end.Finished? then DeScoped(inbound.vars, spec, scope.vars) else map[];
  }

  /** A scope in which a variable may be bound to nothing. */
  type Outputs = map<string, Option<Value>>

  function Lookup(scope: Scope, name: string): Option<Value> {
    if name in scope then Some(scope[name]) else None
  }

  function AsOutputs(scope: Scope): Outputs {
    map name | name in scope :: Some(scope[name])
  }

  function Restore(outputs: Outputs, parent: Scope, name: Option<string>): Outputs {
    if name.Some? then outputs[name.value := Lookup(parent, name.value)] else outputs
  }

  /** What a loop gives to its surroundings. The index is restored under the name as it is written; the key and
      the value only if there was nothing to loop over. */
  function DeScoped(parent: Scope, spec: LoopSpec, iteration: Scope): Outputs {
    if spec.vars.None? then AsOutputs(parent)
    else
      var vars := spec.vars.value;
      var indexed := Restore(AsOutputs(iteration), parent, vars.index);
      if spec.range.Some? then indexed else Restore(Restore(indexed, parent, vars.key), parent, vars.value)
  }

  ghost predicate LeftAs(outputs: Outputs, scope: Scope, v: string) {
    if v in scope then v in outputs && outputs[v] == Some(scope[v]) else v !in outputs
  }

  /** With loop variables, the one that is written like the index has what it had outside; so have those that are written
      like the key and the value if there is no range; and every other is left as the last iteration left it. Without,
      all are as outside. */
  lemma DeScopedHas(parent: Scope, spec: LoopSpec, iteration: Scope, v: string)
    ensures var out := DeScoped(parent, spec, iteration);
      match spec.vars
      case None => LeftAs(out, parent, v)
      case Some(vars) =>
        if Some(v) == vars.index || (spec.range.None? && (Some(v) == vars.key || Some(v) == vars.value))
        then v in out && out[v] == if v in parent then Some(parent[v]) else None
        else LeftAs(out, iteration, v)
  {
  }

  /** So the variable that an iteration's index shadowed is restored for every scope exactly if its name is
      written bare, and not as a reference. */
  lemma IndexIsRestoredIffBare(spec: LoopSpec, name: string)
    requires spec.range.Some? && spec.vars.Some? && spec.vars.value.index == Some(name)
    ensures (forall parent: Scope, iteration: Scope ::
               var bound := RefToName(name);
               bound in iteration ==>
                 var out := DeScoped(parent, spec, iteration);
                 bound in out && out[bound] == Lookup(parent, bound))
            <==> RefToName(name) == name
  {
    var bound := RefToName(name);
    if bound != name {
      var none: Scope, iteration := map[], map[bound := NumberValue(0.0)];
      assert bound in iteration && DeScoped(none, spec, iteration)[bound] == Some(NumberValue(0.0));
      assert Lookup(none, bound) == None;
    }
  }

  // ---------- what a body leaves ----------

  /** If the stream closes before the body's end, the body leaves what it wrote itself. */
  lemma LeavesWritesOnly(scope: Scope, it: Iteration)
    requires forall k :: 0 <= k < |it.stream| ==> !IsEndOf(it.stream[k], it.id)
    ensures AfterBody(scope, it) == Done(scope + it.writes)
  {
    NextEndIsFirst(it.stream, 0, it.id, |it.stream|);
  }

  /** Its first end decides: an error ends the loop with it, and else a variable has the output of that name, what the
      body wrote there, or what it had before. */
  lemma FirstEndDecides(scope: Scope, it: Iteration, k: nat, v: string)
    requires k < |it.stream| && IsEndOf(it.stream[k], it.id)
    requires forall j :: 0 <= j < k ==> !IsEndOf(it.stream[j], it.id)
    ensures var (end, after) := (it.stream[k].payload, AfterBody(scope, it));
      match end.error
      case Some(message) => after == ErroredWith(message)
      case None =>
        after.Done? && Lookup(after.outputs, v) ==
        if v in end.outputs then Some(end.outputs[v]) else if v in it.writes then Some(it.writes[v]) else Lookup(scope, v)
  {
    NextEndIsFirst(it.stream, 0, it.id, k);
  }

  // ---------- how often a serial loop runs ----------

  /** The scope that iteration i starts from: the fold of the scopings and the outputs before it. */
  ghost function Threaded(spec: LoopSpec, scope: Scope, bodies: seq<Iteration>, i: nat): Option<Scope>
    requires i <= |bodies|
    decreases i, 0
  {
    if i == 0 then Some(scope)
    else
      var s := ScopeOf(spec, scope, bodies, i - 1);
      if s.None? || AfterBody(s.value, bodies[i - 1]).ErroredWith? then None
      else Some(AfterBody(s.value, bodies[i - 1]).outputs)
  }

  /** The scope that iteration i runs in. */
  ghost function ScopeOf(spec: LoopSpec, scope: Scope, bodies: seq<Iteration>, i: nat): Option<Scope>
    requires i <= |bodies|
    decreases i, 1
  {
    var t := Threaded(spec, scope, bodies, i);
    if t.Some? then Scoped(i, t.value, spec) else None
  }

  /** Iteration i can be interpreted, and this is the loop in its scope. */
  ghost predicate LoopOf(spec: LoopSpec, scope: Scope, bodies: seq<Iteration>, i: nat, loop: Loop)
    requires i <= |bodies|
  {
    ScopeOf(spec, scope, bodies, i).Some? && Interpreted(ScopeOf(spec, scope, bodies, i).value, spec) == Some(loop)
  }

  /** Iteration i runs its body, which does not fail, and the range as it was then does not end there. */
  ghost predicate GoesOn(spec: LoopSpec, scope: Scope, bodies: seq<Iteration>, i: nat)
    requires i < |bodies|
  {
    && Threaded(spec, scope, bodies, i + 1).Some?
    && exists loop :: LoopOf(spec, scope, bodies, i, loop) && !SerialComplete(i, loop) && !SerialComplete(i + 1, loop)
  }

  lemma {:induction false} Unrolls(spec: LoopSpec, scope: Scope, bodies: seq<Iteration>, i: nat)
    requires i <= |bodies| && forall j :: 0 <= j < i ==> GoesOn(spec, scope, bodies, j)
    ensures var t := Threaded(spec, scope, bodies, i);
      t.Some? && LoopFrom(spec, 0, scope, bodies) == LoopFrom(spec, i, t.value, bodies[i..])
  {
    if i == 0 {
      assert bodies[0..] == bodies;
    } else {
      Unrolls(spec, scope, bodies, i - 1);
      assert GoesOn(spec, scope, bodies, i - 1);
      assert bodies[i - 1..][0] == bodies[i - 1] && bodies[i - 1..][1..] == bodies[i..];
    }
  }

  /** The range has `n` entries whatever the scope. */
  ghost predicate HasLength(spec: LoopSpec, n: nat) {
    spec.range.Some? && forall t: Scope :: spec.range.value(t).Some? && spec.range.value(t).value.Length() == n
  }

  /** The exit condition holds in the scope of iteration i. */
  ghost predicate UntilHolds(spec: LoopSpec, scope: Scope, bodies: seq<Iteration>, i: nat)
    requires i <= |bodies|
  {
    spec.until.Some? && ScopeOf(spec, scope, bodies, i).Some?
    && spec.until.value(ScopeOf(spec, scope, bodies, i).value) == Some(true)
  }

  /** Iteration i can be begun, as far as its scope and its exit condition go. */
  ghost predicate Begins(spec: LoopSpec, scope: Scope, bodies: seq<Iteration>, i: nat)
    requires i <= |bodies|
  {
    && ScopeOf(spec, scope, bodies, i).Some?
    && (spec.until.Some? ==> spec.until.value(ScopeOf(spec, scope, bodies, i).value).Some?)
  }

  /** Every iteration before k can be begun, and its body does not fail. */
  ghost predicate Smooth(spec: LoopSpec, scope: Scope, bodies: seq<Iteration>, k: nat)
    requires k <= |bodies|
  {
    forall i :: 0 <= i < k ==> Begins(spec, scope, bodies, i) && Threaded(spec, scope, bodies, i + 1).Some?
  }

  /** Over a range whose length does not change, the body runs exactly k times, where k is the first index that is
      the length or at which the exit condition holds; and the outputs are the fold of the bodies' outputs. At the
      length nothing is evaluated any more, unless it is zero. */
  lemma RunsUntilFirstStop(spec: LoopSpec, scope: Scope, bodies: seq<Iteration>, n: nat, k: nat)
    requires HasLength(spec, n) && k <= n && k <= |bodies| && Smooth(spec, scope, bodies, k)
    requires k == n > 0 || UntilHolds(spec, scope, bodies, k) || (k == n == 0 && Begins(spec, scope, bodies, 0))
    requires forall j :: 0 <= j < k ==> !UntilHolds(spec, scope, bodies, j)
    ensures k == n > 0 ==> Threaded(spec, scope, bodies, k).Some?
    ensures !(k == n > 0) ==> ScopeOf(spec, scope, bodies, k).Some?
    ensures LoopFrom(spec, 0, scope, bodies) == LoopResult(Finished, k,
              if k == n > 0 then Threaded(spec, scope, bodies, k).value else ScopeOf(spec, scope, bodies, k).value)
  {
    if k == n > 0 {
      StopsAtLength(spec, scope, bodies, n);
    } else {
      forall j | 0 <= j < k ensures GoesOn(spec, scope, bodies, j) {
        GoesOnBeforeStop(spec, scope, bodies, n, k, j);
      }
      Unrolls(spec, scope, bodies, k);
      assert spec.range.value(ScopeOf(spec, scope, bodies, k).value).Some?;
    }
  }

  lemma StopsAtLength(spec: LoopSpec, scope: Scope, bodies: seq<Iteration>, n: nat)
    requires HasLength(spec, n) && 0 < n <= |bodies| && Smooth(spec, scope, bodies, n)
    requires forall j :: 0 <= j < n ==> !UntilHolds(spec, scope, bodies, j)
    ensures Threaded(spec, scope, bodies, n).Some?
    ensures LoopFrom(spec, 0, scope, bodies) == LoopResult(Finished, n, Threaded(spec, scope, bodies, n).value)
  {
    UnrollsToLast(spec, scope, bodies, n);
    EndsAtLength(spec, scope, bodies, n);
  }

  lemma UnrollsToLast(spec: LoopSpec, scope: Scope, bodies: seq<Iteration>, n: nat)
    requires HasLength(spec, n) && 0 < n <= |bodies| && Smooth(spec, scope, bodies, n)
    requires forall j :: 0 <= j < n ==> !UntilHolds(spec, scope, bodies, j)
    ensures var t := Threaded(spec, scope, bodies, n - 1);
      t.Some? && LoopFrom(spec, 0, scope, bodies) == LoopFrom(spec, n - 1, t.value, bodies[n - 1..])
  {
    GoesOnToLast(spec, scope, bodies, n);
    Unrolls(spec, scope, bodies, n - 1);
  }

  lemma GoesOnToLast(spec: LoopSpec, scope: Scope, bodies: seq<Iteration>, n: nat)
    requires HasLength(spec, n) && 0 < n <= |bodies| && Smooth(spec, scope, bodies, n)
    requires forall j :: 0 <= j < n ==> !UntilHolds(spec, scope, bodies, j)
    ensures forall j :: 0 <= j < n - 1 ==> GoesOn(spec, scope, bodies, j)
  {
    forall j | 0 <= j < n - 1 ensures GoesOn(spec, scope, bodies, j) { GoesOnBeforeStop(spec, scope, bodies, n, n, j); }
  }

  lemma EndsAtLength(spec: LoopSpec, scope: Scope, bodies: seq<Iteration>, n: nat)
    requires HasLength(spec, n) && 0 < n <= |bodies| && Smooth(spec, scope, bodies, n)
    requires !UntilHolds(spec, scope, bodies, n - 1)
    ensures Threaded(spec, scope, bodies, n - 1).Some? && Threaded(spec, scope, bodies, n).Some?
    ensures LoopFrom(spec, n - 1, Threaded(spec, scope, bodies, n - 1).value, bodies[n - 1..]) ==
      LoopResult(Finished, n, Threaded(spec, scope, bodies, n).value)
  {
    assert Begins(spec, scope, bodies, n - 1) && Threaded(spec, scope, bodies, n - 1 + 1).Some?;
    var s := ScopeOf(spec, scope, bodies, n - 1).value;
    assert spec.range.value(s).Some?;
    assert bodies[n - 1..][0] == bodies[n - 1];
    assert Begun(n - 1, Threaded(spec, scope, bodies, n - 1).value, spec) == Some((s, Interpreted(s, spec).value));
  }

  lemma GoesOnBeforeStop(spec: LoopSpec, scope: Scope, bodies: seq<Iteration>, n: nat, k: nat, j: nat)
    requires HasLength(spec, n) && k <= |bodies| && Smooth(spec, scope, bodies, k)
    requires j < k && j != n && j + 1 != n && !UntilHolds(spec, scope, bodies, j)
    ensures GoesOn(spec, scope, bodies, j)
  {
    assert Begins(spec, scope, bodies, j);
    var s := ScopeOf(spec, scope, bodies, j).value;
    assert spec.range.value(s).Some?;
    var loop := Interpreted(s, spec).value;
    assert LoopOf(spec, scope, bodies, j, loop) && !SerialComplete(j, loop) && !SerialComplete(j + 1, loop);
  }

  // ---------- whether a serial loop ends ----------

  /** The loop as it is in iteration i tells it to end: before its body, or after it if that does not fail. */
  ghost predicate TestHolds(spec: LoopSpec, scope: Scope, bodies: seq<Iteration>, i: nat)
    requires i <= |bodies|
  {
    exists loop :: LoopOf(spec, scope, bodies, i, loop) &&
      (SerialComplete(i, loop) || (i < |bodies| && Threaded(spec, scope, bodies, i + 1).Some? && SerialComplete(i + 1, loop)))
  }

  /** Iteration i is reached: all before it go on. */
  ghost predicate Reached(spec: LoopSpec, scope: Scope, bodies: seq<Iteration>, i: nat)
    requires i <= |bodies|
  {
    forall j :: 0 <= j < i ==> GoesOn(spec, scope, bodies, j)
  }

  /** What the loop does in an iteration that does not go on. */
  lemma StopsIn(spec: LoopSpec, scope: Scope, bodies: seq<Iteration>, i: nat)
    requires i <= |bodies| && Threaded(spec, scope, bodies, i).Some? && (i < |bodies| ==> !GoesOn(spec, scope, bodies, i))
    ensures var r := LoopFrom(spec, i, Threaded(spec, scope, bodies, i).value, bodies[i..]);
      && (r.end.Finished? <==> TestHolds(spec, scope, bodies, i))
      && (r.end.Open? <==> i == |bodies| && Interpretable(spec, scope, bodies, i) && !TestHolds(spec, scope, bodies, i))
      && (r.end.Open? ==> r.ran == i)
  {
    var t := Threaded(spec, scope, bodies, i).value;
    if Interpretable(spec, scope, bodies, i) {
      var loop :| LoopOf(spec, scope, bodies, i, loop);
      var s := ScopeOf(spec, scope, bodies, i).value;
      assert Begun(i, t, spec) == Some((s, loop));
      if i < |bodies| {
        assert bodies[i..][0] == bodies[i];
        assert Threaded(spec, scope, bodies, i + 1).Some? <==> AfterBody(s, bodies[i]).Done?;
        assert !SerialComplete(i, loop) && AfterBody(s, bodies[i]).Done? ==> SerialComplete(i + 1, loop);
      }
    } else {
      assert Begun(i, t, spec).Some? ==> LoopOf(spec, scope, bodies, i, Begun(i, t, spec).value.1);
    }
  }

  /** How the loop ends if iteration i is the first that does not go on. */
  lemma EndsThere(spec: LoopSpec, scope: Scope, bodies: seq<Iteration>, i: nat)
    requires i <= |bodies| && Reached(spec, scope, bodies, i) && (i < |bodies| ==> !GoesOn(spec, scope, bodies, i))
    ensures var r := LoopFrom(spec, 0, scope, bodies);
      && (r.end.Finished? <==> TestHolds(spec, scope, bodies, i))
      && (r.end.Open? <==> i == |bodies| && Interpretable(spec, scope, bodies, i) && !TestHolds(spec, scope, bodies, i))
      && (r.end.Open? ==> r.ran == i)
  {
    Unrolls(spec, scope, bodies, i);
    StopsIn(spec, scope, bodies, i);
  }

  /** Everything in iteration i can be interpreted. */
  ghost predicate Interpretable(spec: LoopSpec, scope: Scope, bodies: seq<Iteration>, i: nat)
    requires i <= |bodies|
  {
    exists loop :: LoopOf(spec, scope, bodies, i, loop)
  }

  lemma {:induction false} FirstThatStops(spec: LoopSpec, scope: Scope, bodies: seq<Iteration>, i: nat) returns (k: nat)
    requires i <= |bodies| && Reached(spec, scope, bodies, i)
    ensures i <= k <= |bodies| && Reached(spec, scope, bodies, k) && (k < |bodies| ==> !GoesOn(spec, scope, bodies, k))
    decreases |bodies| - i
  {
    k := i;
    if i < |bodies| && GoesOn(spec, scope, bodies, i) { k := FirstThatStops(spec, scope, bodies, i + 1); }
  }

  lemma NotBoth(spec: LoopSpec, scope: Scope, bodies: seq<Iteration>, i: nat)
    requires i < |bodies| && TestHolds(spec, scope, bodies, i)
    ensures !GoesOn(spec, scope, bodies, i)
  {
  }

  /** For every loop and every bodies: it finishes exactly if an iteration is reached whose test holds; and is still open
      exactly if all the bodies have run and the next iteration is begun in vain. */
  lemma FinishesIffReachedTestHolds(spec: LoopSpec, scope: Scope, bodies: seq<Iteration>)
    ensures var r := LoopFrom(spec, 0, scope, bodies);
      && (r.end.Finished? <==> exists i :: 0 <= i <= |bodies| && Reached(spec, scope, bodies, i) && TestHolds(spec, scope, bodies, i))
      && (r.end.Open? <==> Reached(spec, scope, bodies, |bodies|) && Interpretable(spec, scope, bodies, |bodies|)
                             && !TestHolds(spec, scope, bodies, |bodies|))
      && (r.end.Open? ==> r.ran == |bodies|)
  {
    var k := FirstThatStops(spec, scope, bodies, 0);
    EndsThere(spec, scope, bodies, k);
    if i :| 0 <= i <= |bodies| && Reached(spec, scope, bodies, i) && TestHolds(spec, scope, bodies, i) {
      if i < |bodies| { NotBoth(spec, scope, bodies, i); }
      OnlyOneStops(spec, scope, bodies, i, k);
    }
  }

  /** Iteration i has no scope, or its range or its exit condition cannot be evaluated there. */
  ghost predicate CannotBegin(spec: LoopSpec, scope: Scope, bodies: seq<Iteration>, i: nat)
    requires i <= |bodies|
  {
    var s := ScopeOf(spec, scope, bodies, i);
    s.None? || (spec.range.Some? && spec.range.value(s.value).None?) || (spec.until.Some? && spec.until.value(s.value).None?)
  }

  /** No test holds before the body of iteration i, and the body ends with this error. */
  ghost predicate FailsWith(spec: LoopSpec, scope: Scope, bodies: seq<Iteration>, i: nat, message: string)
    requires i < |bodies|
  {
    exists loop :: LoopOf(spec, scope, bodies, i, loop) && !SerialComplete(i, loop) &&
      AfterBody(ScopeOf(spec, scope, bodies, i).value, bodies[i]) == ErroredWith(message)
  }

  lemma StopsOtherwise(spec: LoopSpec, scope: Scope, bodies: seq<Iteration>, i: nat, message: string)
    requires i <= |bodies| && Threaded(spec, scope, bodies, i).Some? && (i < |bodies| ==> !GoesOn(spec, scope, bodies, i))
    ensures var r := LoopFrom(spec, i, Threaded(spec, scope, bodies, i).value, bodies[i..]);
      && (r.end.NotInterpretable? <==> CannotBegin(spec, scope, bodies, i))
      && (r.end == BodyFailed(message) <==> i < |bodies| && FailsWith(spec, scope, bodies, i, message))
  {
    var t := Threaded(spec, scope, bodies, i).value;
    assert Begun(i, t, spec).None? <==> CannotBegin(spec, scope, bodies, i);
    if !CannotBegin(spec, scope, bodies, i) {
      var (s, loop) := Begun(i, t, spec).value;
      assert LoopOf(spec, scope, bodies, i, loop);
      if i < |bodies| { assert bodies[i..][0] == bodies[i]; }
    }
  }

  /** An iteration that does not go on is the first that stops, if it is reached. */
  lemma OnlyOneStops(spec: LoopSpec, scope: Scope, bodies: seq<Iteration>, i: nat, k: nat)
    requires i <= |bodies| && Reached(spec, scope, bodies, i) && (i < |bodies| ==> !GoesOn(spec, scope, bodies, i))
    requires k <= |bodies| && Reached(spec, scope, bodies, k) && (k < |bodies| ==> !GoesOn(spec, scope, bodies, k))
    ensures i == k
  {
  }

  /** For every loop: it is not interpretable exactly if an iteration is reached that cannot be begun, and it fails with a
      message exactly if a body that is reached does. */
  lemma FailsIffReachedFails(spec: LoopSpec, scope: Scope, bodies: seq<Iteration>, message: string)
    ensures var r := LoopFrom(spec, 0, scope, bodies);
      && (r.end.NotInterpretable? <==>
            exists i :: 0 <= i <= |bodies| && Reached(spec, scope, bodies, i) && CannotBegin(spec, scope, bodies, i))
      && (r.end == BodyFailed(message) <==>
            exists i :: 0 <= i < |bodies| && Reached(spec, scope, bodies, i) && FailsWith(spec, scope, bodies, i, message))
  {
    var k := FirstThatStops(spec, scope, bodies, 0);
    Unrolls(spec, scope, bodies, k);
    StopsOtherwise(spec, scope, bodies, k, message);
    if i :| 0 <= i <= |bodies| && Reached(spec, scope, bodies, i) && CannotBegin(spec, scope, bodies, i) {
      OnlyOneStops(spec, scope, bodies, i, k);
    }
    if i :| 0 <= i < |bodies| && Reached(spec, scope, bodies, i) && FailsWith(spec, scope, bodies, i, message) {
      OnlyOneStops(spec, scope, bodies, i, k);
    }
  }

  /** Nothing fails: every iteration can be interpreted and no body ends with an error. */
  ghost predicate NothingFails(spec: LoopSpec, scope: Scope, bodies: seq<Iteration>) {
    && (forall i :: 0 <= i <= |bodies| ==> Interpretable(spec, scope, bodies, i))
    && (forall i :: 0 <= i <= |bodies| ==> Threaded(spec, scope, bodies, i).Some?)
  }

  lemma {:induction false} ReachedUnlessTestHolds(spec: LoopSpec, scope: Scope, bodies: seq<Iteration>, i: nat)
    requires i <= |bodies| && NothingFails(spec, scope, bodies)
    ensures Reached(spec, scope, bodies, i) || exists j :: 0 <= j < i && Reached(spec, scope, bodies, j) && TestHolds(spec, scope, bodies, j)
  {
    if i > 0 {
      ReachedUnlessTestHolds(spec, scope, bodies, i - 1);
      assert Interpretable(spec, scope, bodies, i - 1) && Threaded(spec, scope, bodies, i).Some?;
      var loop :| LoopOf(spec, scope, bodies, i - 1, loop);
    }
  }

  /** So a loop in which nothing fails ends exactly if some test of its index comes out true, and runs on otherwise. */
  lemma RunsOnIffNoTestHolds(spec: LoopSpec, scope: Scope, bodies: seq<Iteration>)
    requires NothingFails(spec, scope, bodies)
    ensures var r := LoopFrom(spec, 0, scope, bodies);
      && (r.end.Finished? <==> exists i :: 0 <= i <= |bodies| && TestHolds(spec, scope, bodies, i))
      && (!r.end.Finished? ==> r.end.Open? && r.ran == |bodies|)
  {
    FinishesIffReachedTestHolds(spec, scope, bodies);
    ReachedUnlessTestHolds(spec, scope, bodies, |bodies|);
    assert Interpretable(spec, scope, bodies, |bodies|);
    if i :| 0 <= i <= |bodies| && TestHolds(spec, scope, bodies, i) {
      ReachedUnlessTestHolds(spec, scope, bodies, i);
    }
  }

  /** The length of the range in the scope of iteration i. */
  ghost function LengthAt(spec: LoopSpec, scope: Scope, bodies: seq<Iteration>, i: nat): nat
    requires i <= |bodies| && spec.range.Some? && Interpretable(spec, scope, bodies, i)
  {
    spec.range.value(ScopeOf(spec, scope, bodies, i).value).value.Length()
  }

  /** With no exit condition the tests are whether the length is the index, or one more when the body has run. */
  lemma TestsAreOfLength(spec: LoopSpec, scope: Scope, bodies: seq<Iteration>, i: nat)
    requires i <= |bodies| && spec.range.Some? && spec.until.None? && NothingFails(spec, scope, bodies)
    ensures Interpretable(spec, scope, bodies, i)
    ensures TestHolds(spec, scope, bodies, i) <==>
      var n := LengthAt(spec, scope, bodies, i); n == i || (i < |bodies| && n == i + 1)
  {
    assert Interpretable(spec, scope, bodies, i);
    var loop :| LoopOf(spec, scope, bodies, i, loop);
    if i < |bodies| { assert Threaded(spec, scope, bodies, i + 1).Some?; }
  }

  /** Past the end of its range a serial loop does not stop, since it tests for the very index: if no test came out true
      before iteration k, and from there on the range is shorter than the index, it is still open. */
  lemma PastTheEndRunsOn(spec: LoopSpec, scope: Scope, bodies: seq<Iteration>, k: nat)
    requires spec.until.None? && spec.range.Some? && NothingFails(spec, scope, bodies)
    requires forall i :: 0 <= i <= |bodies| && i < k ==> !TestHolds(spec, scope, bodies, i)
    requires forall i :: k <= i <= |bodies| ==> Interpretable(spec, scope, bodies, i) && LengthAt(spec, scope, bodies, i) < i
    ensures LoopFrom(spec, 0, scope, bodies).end == Open && LoopFrom(spec, 0, scope, bodies).ran == |bodies|
  {
    RunsOnIffNoTestHolds(spec, scope, bodies);
    forall i | 0 <= i <= |bodies| ensures !TestHolds(spec, scope, bodies, i) {
      if i >= k {
        assert Interpretable(spec, scope, bodies, i) && LengthAt(spec, scope, bodies, i) < i;
        TestsAreOfLength(spec, scope, bodies, i);
      }
    }
  }

  lemma {:induction false} ThreadedHas(spec: LoopSpec, bodies: seq<Iteration>, v: string, i: nat)
    requires i <= |bodies| && spec.vars.None?
    requires forall t: Scope, it :: it in bodies ==> AfterBody(t, it).Done? && v in AfterBody(t, it).outputs
    ensures var t := Threaded(spec, map[], bodies, i);
      t.Some? && ScopeOf(spec, map[], bodies, i) == t && (if i == 0 then t.value == map[] else v in t.value)
  {
    if i > 0 {
      ThreadedHas(spec, bodies, v, i - 1);
      assert bodies[i - 1] in bodies;
    }
  }

  /** A range that becomes shorter while the loop runs gets it there: two entries at first, none once the body has
      set `v`, and the loop runs on where a parallel loop's test would end it. */
  lemma ShrinkingRangeRunsOn(spec: LoopSpec, bodies: seq<Iteration>, v: string)
    requires spec.vars.None? && spec.until.None? && bodies != []
    requires spec.range == Some((t: Scope) => if v in t then Some(Items([])) else Some(Items([Null, Null])))
    requires forall t: Scope, it :: it in bodies ==> AfterBody(t, it).Done? && v in AfterBody(t, it).outputs
    ensures LoopFrom(spec, 0, map[], bodies).end == Open && LoopFrom(spec, 0, map[], bodies).ran == |bodies|
  {
    forall i: nat | i <= |bodies|
      ensures Interpretable(spec, map[], bodies, i) && Threaded(spec, map[], bodies, i).Some?
      ensures LengthAt(spec, map[], bodies, i) == if i == 0 then 2 else 0
    {
      ThreadedHas(spec, bodies, v, i);
      assert LoopOf(spec, map[], bodies, i, Loop(Some(if i == 0 then Items([Null, Null]) else Items([])), None));
    }
    TestsAreOfLength(spec, map[], bodies, 0);
    PastTheEndRunsOn(spec, map[], bodies, 1);
  }

  // ---------- the parallel loop ----------

  /** How launching ends, and the scopes of the children launched till then. */
  datatype Launch = Launch(end: LoopEnd, scopes: seq<Scope>)

  /** Launching from iteration `index` on, with this many IDs at hand; a range without an end takes all of them. */
  ghost function LaunchFrom(spec: LoopSpec, scope: Scope, index: nat, ids: nat): Launch
    decreases ids
  {
    if ids == 0 then Launch(Open, [])
    else
      var s := Scoped(index, scope, spec);
      if s.None? || Interpreted(s.value, spec).None? then Launch(NotInterpretable, [])
      else if ParallelComplete(index, Interpreted(s.value, spec).value) then Launch(Finished, [])
      else
        var rest := LaunchFrom(spec, scope, index + 1, ids - 1);
        Launch(rest.end, [s.value] + rest.scopes)
  }

  lemma LaunchStep(spec: LoopSpec, scope: Scope, index: nat, ids: nat, n: nat)
    requires HasLength(spec, n) && spec.until.None? && index <= n && ids > 0 && Scoped(index, scope, spec).Some?
    ensures var rest := LaunchFrom(spec, scope, index + 1, ids - 1);
      LaunchFrom(spec, scope, index, ids) ==
      if index == n then Launch(Finished, []) else Launch(rest.end, [Scoped(index, scope, spec).value] + rest.scopes)
  {
    var s := Scoped(index, scope, spec).value;
    assert spec.range.value(s).Some? && spec.range.value(s).value.Length() == n;
    assert Interpreted(s, spec).Some?;
  }

  /** Iterations `index` to n can all be scoped. */
  ghost predicate Scopable(spec: LoopSpec, scope: Scope, index: nat, n: nat)
    requires index <= n
    decreases n - index
  {
    Scoped(index, scope, spec).Some? && (index < n ==> Scopable(spec, scope, index + 1, n))
  }

  /** The scopes of iterations `index` to n - 1, each made from the one scope. */
  ghost function EntryScopes(spec: LoopSpec, scope: Scope, index: nat, n: nat): (scopes: seq<Scope>)
    requires index <= n && Scopable(spec, scope, index, n)
    ensures |scopes| == n - index
    decreases n - index
  {
    if index == n then [] else [Scoped(index, scope, spec).value] + EntryScopes(spec, scope, index + 1, n)
  }

  lemma {:induction false} EntryScopeAt(spec: LoopSpec, scope: Scope, index: nat, n: nat, i: nat)
    requires index <= i < n && Scopable(spec, scope, index, n)
    ensures Some(EntryScopes(spec, scope, index, n)[i - index]) == Scoped(i, scope, spec)
    decreases n - index
  {
    var first, rest := Scoped(index, scope, spec).value, EntryScopes(spec, scope, index + 1, n);
    assert EntryScopes(spec, scope, index, n) == [first] + rest;
    FirstOrLater(first, rest, i - index);
    if index < i { EntryScopeAt(spec, scope, index + 1, n, i); }
  }

  lemma FirstOrLater(first: Scope, rest: seq<Scope>, k: nat)
    requires k <= |rest|
    ensures ([first] + rest)[k] == if k == 0 then first else rest[k - 1]
  {
  }

  /** Iteration j can be scoped and interpreted, and the range as it is there is longer than j. */
  ghost predicate Launches(spec: LoopSpec, scope: Scope, j: nat) {
    exists s, l :: Scoped(j, scope, spec) == Some(s) && RangeIs(spec, s, l) && j < l.Length()
  }

  /** The range in that scope, where nothing else can fail. */
  ghost predicate RangeIs(spec: LoopSpec, s: Scope, l: Loopable) {
    spec.until.None? && spec.range.Some? && spec.range.value(s) == Some(l)
  }

  lemma LaunchesOne(spec: LoopSpec, scope: Scope, index: nat, ids: nat)
    requires ids > 0 && Launches(spec, scope, index)
    ensures var (l, rest) := (LaunchFrom(spec, scope, index, ids), LaunchFrom(spec, scope, index + 1, ids - 1));
      l.end == rest.end && |l.scopes| == 1 + |rest.scopes|
  {
    var s, l :| Scoped(index, scope, spec) == Some(s) && RangeIs(spec, s, l) && index < l.Length();
    assert Interpreted(s, spec) == Some(Loop(Some(l), None));
  }

  lemma {:induction false} LaunchesOn(spec: LoopSpec, scope: Scope, index: nat, ids: nat, k: nat)
    requires index <= k < index + ids && forall j :: index <= j < k ==> Launches(spec, scope, j)
    ensures var (l, rest) := (LaunchFrom(spec, scope, index, ids), LaunchFrom(spec, scope, k, index + ids - k));
      l.end == rest.end && |l.scopes| == k - index + |rest.scopes|
    decreases ids
  {
    if index < k {
      assert Launches(spec, scope, index);
      LaunchesOne(spec, scope, index, ids);
      LaunchesOn(spec, scope, index + 1, ids - 1, k);
    }
  }

  /** Whatever the range: the scope of each child is that of its own iteration, made from the one scope. */
  lemma {:induction false} LaunchedInScope(spec: LoopSpec, scope: Scope, index: nat, ids: nat, j: nat)
    requires j < |LaunchFrom(spec, scope, index, ids).scopes|
    ensures Some(LaunchFrom(spec, scope, index, ids).scopes[j]) == Scoped(index + j, scope, spec)
    decreases ids
  {
    if j > 0 {
      LaunchedInScope(spec, scope, index + 1, ids - 1, j - 1);
      FirstOrLater(Scoped(index, scope, spec).value, LaunchFrom(spec, scope, index + 1, ids - 1).scopes, j);
    }
  }

  /** Children are launched up to the first iteration at which the range is no longer than the index; it may be shorter. */
  lemma LaunchesToTheEnd(spec: LoopSpec, scope: Scope, ids: nat, k: nat, s: Scope, l: Loopable)
    requires k < ids && forall j :: 0 <= j < k ==> Launches(spec, scope, j)
    requires Scoped(k, scope, spec) == Some(s) && RangeIs(spec, s, l) && l.Length() <= k
    ensures var launch := LaunchFrom(spec, scope, 0, ids);
      launch.end == Finished && |launch.scopes| == k
  {
    LaunchesOn(spec, scope, 0, ids, k);
  }

  /** Or up to the first that has no scope, or whose range cannot be evaluated; then launching fails. */
  lemma LaunchesUntilItFails(spec: LoopSpec, scope: Scope, ids: nat, k: nat)
    requires k < ids && forall j :: 0 <= j < k ==> Launches(spec, scope, j)
    requires var s := Scoped(k, scope, spec); s.None? || (spec.range.Some? && spec.range.value(s.value).None?)
    ensures var launch := LaunchFrom(spec, scope, 0, ids);
      launch.end == NotInterpretable && |launch.scopes| == k
  {
    LaunchesOn(spec, scope, 0, ids, k);
  }

  /** Over a range of unchanging length there is one child per entry, each with a scope made from the inbound one. */
  lemma {:induction false} OneChildPerEntry(spec: LoopSpec, scope: Scope, index: nat, ids: nat, n: nat)
    requires HasLength(spec, n) && spec.until.None? && index <= n < index + ids && Scopable(spec, scope, index, n)
    ensures LaunchFrom(spec, scope, index, ids) == Launch(Finished, EntryScopes(spec, scope, index, n))
    decreases ids
  {
    LaunchStep(spec, scope, index, ids, n);
    if index < n { OneChildPerEntry(spec, scope, index + 1, ids - 1, n); }
  }

  /** Every child's scope, in a map of its own exactly if there are loop variables. */
  method LaunchChildren(inbound: ScopeMap, spec: LoopSpec, ids: seq<CallId>) returns (scopes: seq<ScopeMap>, end: LoopEnd)
    requires spec.until.None?
    ensures |scopes| <= |ids| && !end.BodyFailed?
    ensures var l := LaunchFrom(spec, inbound.vars, 0, |ids|);
      && end == l.end && |scopes| == |l.scopes|
      && forall i :: 0 <= i < |scopes| ==> scopes[i].vars == l.scopes[i]
    ensures forall i :: 0 <= i < |scopes| ==> if spec.vars.None? then scopes[i] == inbound else fresh(scopes[i])
  {
    scopes := [];
    ghost var whole := LaunchFrom(spec, inbound.vars, 0, |ids|);
    ghost var done: seq<Scope> := [];
    for i := 0 to |ids|
      invariant |scopes| == i == |done|
      invariant forall j :: 0 <= j < i ==> scopes[j].vars == done[j]
      invariant forall j :: 0 <= j < i ==> if spec.vars.None? then scopes[j] == inbound else fresh(scopes[j])
      invariant var rest := LaunchFrom(spec, inbound.vars, i, |ids| - i);
        whole.end == rest.end && whole.scopes == done + rest.scopes
    {
      var s := ScopeIteration(i, inbound, spec);
      if s.None? { return scopes, NotInterpretable; }
      var loop := Interpreted(s.value.vars, spec);
      if loop.None? { return scopes, NotInterpretable; }
      if ParallelComplete(i, loop.value) { return scopes, Finished; }
      ghost var before, rest := done, LaunchFrom(spec, inbound.vars, i + 1, |ids| - i - 1).scopes;
      scopes, done := scopes + [s.value], done + [s.value.vars];
      assert before + ([s.value.vars] + rest) == done + rest;
    }
    return scopes, Open;
  }

  /** Children that need nothing and are needed by nothing. */
  function Plain(n: nat): seq<ParallelCaller.ChildSpec> {
    seq(n, _ => ParallelCaller.ChildSpec(None, []))
  }

  lemma {:induction false} PlainNeedsNothing(n: nat, ids: seq<CallId>, stream: seq<Event>)
    requires |ids| == n
    ensures ParallelCaller.BooksAfter(Plain(n), ids, stream).needed == map[]
  {
    if stream == [] {
      PlainTable(n);
    } else {
      PlainNeedsNothing(n, ids, stream[..|stream| - 1]);
    }
  }

  lemma {:induction false} PlainTable(n: nat)
    ensures ParallelCaller.NeedsTable(Plain(n)) == map[]
  {
    if n > 0 {
      PlainTable(n - 1);
      assert Plain(n)[..n - 1] == Plain(n - 1);
    }
  }

  /** The event loop: outputs by index of the children that ended, until all have or the channel closes. */
  method ReadEnds(ids: seq<CallId>, stream: seq<Event>)
    returns (outputsByIndex: map<nat, Scope>, erred: bool, taken: nat, finished: bool)
    requires ParallelCaller.Distinct(ids)
    ensures taken <= |stream|
    ensures ParallelCaller.Gathered(ids, stream[..taken], outputsByIndex)
    ensures erred <==> ParallelCaller.Erred(ids, stream[..taken])
    ensures finished <==> !ParallelCaller.Unfinished(ids, stream, taken)
    ensures if finished then taken > 0 && ParallelCaller.Unfinished(ids, stream, taken - 1) else taken == |stream|
  {
    ghost var plain := Plain(|ids|);
    outputsByIndex, erred, taken, finished := map[], false, 0, false;
    assert stream[..0] == [];
    PlainNeedsNothing(|ids|, ids, []);
    while taken < |stream| && !finished
      invariant taken <= |stream|
      invariant ParallelCaller.BooksAfter(plain, ids, stream[..taken]) == ParallelCaller.Books(map[], outputsByIndex, erred)
      invariant finished <==> !ParallelCaller.Unfinished(ids, stream, taken)
      invariant finished ==> taken > 0 && ParallelCaller.Unfinished(ids, stream, taken - 1)
    {
      ParallelCaller.PrefixStep(stream, taken);
      PlainNeedsNothing(|ids|, ids, stream[..taken + 1]);
      var e := stream[taken];
      if ParallelCaller.EndsChild(ids, e) {
        outputsByIndex := outputsByIndex[ParallelCaller.IndexOf(ids, e.payload.call.id) := e.payload.outputs];
        erred := erred || e.payload.error.Some?;
      }
      ParallelCaller.SizesTellTheEnd(plain, ids, stream, taken);
      finished := e.payload.CallEnded? && |outputsByIndex| == |ids|;
      taken := taken + 1;
    }
    ParallelCaller.BooksMean(plain, ids, stream[..taken]);
  }

  lemma OverAgain(a: Scope, b: Scope, c: Scope)
    ensures a + b + c == a + (b + c)
  {
  }

  /** The children's outputs laid over the inbound scope, in child order, in its own map. */
  method MergeInto(inbound: ScopeMap, ids: seq<CallId>, ghost stream: seq<Event>, outputsByIndex: map<nat, Scope>)
    requires ParallelCaller.Gathered(ids, stream, outputsByIndex)
    modifies inbound
    ensures inbound.vars == old(inbound.vars) + ParallelCaller.MergeOutputs(ids, stream, |ids|)
  {
    ghost var was := inbound.vars;
    for i := 0 to |ids|
      invariant inbound.vars == was + ParallelCaller.MergeOutputs(ids, stream, i)
    {
      ParallelCaller.EndedHasOutputs(stream, ids[i]);
      ghost var merged := ParallelCaller.MergeOutputs(ids, stream, i);
      if i in outputsByIndex {
        inbound.vars := inbound.vars + outputsByIndex[i];
        OverAgain(was, merged, outputsByIndex[i]);
      }
    }
  }

  const CHILD_CALL_FAILED := "child call failed"

  /** The outputs are the caller's own map: once all children have ended it holds their outputs, even if the call
      fails, and with loop variables too. */
  method ParallelLoopCall(inbound: ScopeMap, spec: LoopSpec, ids: seq<CallId>, stream: seq<Event>)
    returns (end: LoopEnd, launched: nat, outputs: Outputs, ghost taken: nat)
    requires spec.until.None? && ParallelCaller.Distinct(ids)
    modifies inbound
    ensures var l := LaunchFrom(spec, old(inbound.vars), 0, |ids|);
      && launched == |l.scopes| <= |ids| && taken <= |stream|
      && (l.end != Finished || launched == 0 ==> end == l.end && outputs == map[] && inbound.vars == old(inbound.vars))
      && (l.end == Finished && launched > 0 ==>
            var (own, read) := (ids[..launched], stream[..taken]);
            if ParallelCaller.Unfinished(own, stream, taken) then
              taken == |stream| && end == Finished && inbound.vars == old(inbound.vars)
              && outputs == DeScoped(inbound.vars, spec, inbound.vars)
            else
              && inbound.vars == old(inbound.vars) + ParallelCaller.MergeOutputs(own, read, launched)
              && ParallelCaller.FinishesAt(own, stream, taken - 1)
              && if ParallelCaller.Erred(own, read) then end == BodyFailed(CHILD_CALL_FAILED)
                 else end == Finished && outputs == DeScoped(inbound.vars, spec, inbound.vars))
  {
    outputs, taken := map[], 0;
    var scopes;
    scopes, end := LaunchChildren(inbound, spec, ids);
    launched := |scopes|;
    if end != Finished || launched == 0 { return; }
    var own := ids[..launched];
    var outputsByIndex, erred, n, finished := ReadEnds(own, stream);
    taken := n;
    if finished {
      MergeInto(inbound, own, stream[..n], outputsByIndex);
      if erred { end := BodyFailed(CHILD_CALL_FAILED); return; }
    }
    outputs := DeScoped(inbound.vars, spec, inbound.vars);
  }
}
