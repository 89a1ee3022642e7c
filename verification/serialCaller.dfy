/** The serial call: one child after the other, each learnt to have ended from one shared event stream, which may
    repeat events and hold those of other calls. */
module SerialCaller {
  import opened Text
  import opened Values
  import opened Events

  datatype Returned = Done(outputs: Scope) | ErroredWith(message: string)

  /** The first event from position `from` on that ends the call, if there is one. */
  function NextEnd(stream: seq<Event>, from: nat, id: CallId): Option<nat>
    requires from <= |stream|
    decreases |stream| - from
  {
    if from == |stream| then None
    else if IsEndOf(stream[from], id) then Some(from)
    else NextEnd(stream, from + 1, id)
  }

  lemma {:induction false} NextEndIsFirst(stream: seq<Event>, from: nat, id: CallId, k: nat)
    requires from <= k <= |stream| && forall j :: from <= j < k ==> !IsEndOf(stream[j], id)
    ensures k == |stream| ==> NextEnd(stream, from, id).None?
    ensures k < |stream| && IsEndOf(stream[k], id) ==> NextEnd(stream, from, id) == Some(k)
    decreases k - from
  {
    if from < k { NextEndIsFirst(stream, from + 1, id, k); }
  }

  lemma {:induction false} NextEndIsThere(stream: seq<Event>, from: nat, id: CallId)
    requires from <= |stream|
    ensures var k := NextEnd(stream, from, id);
      k.Some? ==> from <= k.value < |stream| && IsEndOf(stream[k.value], id)
    decreases |stream| - from
  {
    if from < |stream| { NextEndIsThere(stream, from + 1, id); }
  }

  /** Reads events until the call's end, or until the stream closes. */
  method AwaitEnd(stream: seq<Event>, from: nat, id: CallId) returns (end: Option<Event>, next: nat)
    requires from <= |stream|
    ensures var k := NextEnd(stream, from, id);
      if k.Some? then k.value < |stream| && end == Some(stream[k.value]) && next == k.value + 1
      else end == None && next == |stream|
    ensures end.Some? ==> IsEndOf(end.value, id)
    ensures next <= |stream|
  {
    next := from;
    while next < |stream|
      invariant from <= next <= |stream| && NextEnd(stream, next, id) == NextEnd(stream, from, id)
    {
      if IsEndOf(stream[next], id) { return Some(stream[next]), next + 1; }
      next := next + 1;
    }
    return None, next;
  }

  /** A child that was called, and the scope it was called with. */
  datatype Called = Called(id: CallId, scope: Scope)

  /** The rest of a serial call: children `ids`, the stream from `from` on, the outputs so far. */
  function Rest(ids: seq<CallId>, stream: seq<Event>, from: nat, outputs: Scope): (seq<Called>, Returned)
    requires from <= |stream|
  {
    if ids == [] then ([], Done(outputs))
    else
      NextEndIsThere(stream, from, ids[0]);
      var k := NextEnd(stream, from, ids[0]);
      var rest :=
        if k.None? then Rest(ids[1..], stream, |stream|, outputs)
        else if stream[k.value].payload.error.Some? then ([], ErroredWith(stream[k.value].payload.error.value))
        else Rest(ids[1..], stream, k.value + 1, outputs + stream[k.value].payload.outputs);
      ([Called(ids[0], outputs)] + rest.0, rest.1)
  }

  /** Calling the rest as well gives the whole. */
  ghost predicate Leads(ids: seq<CallId>, stream: seq<Event>, from: nat, outputs: Scope, called: seq<Called>, whole: (seq<Called>, Returned))
    requires from <= |stream|
  {
    called + Rest(ids, stream, from, outputs).0 == whole.0 && Rest(ids, stream, from, outputs).1 == whole.1
  }

  lemma RestStep(ids: seq<CallId>, stream: seq<Event>, from: nat, outputs: Scope, called: seq<Called>, whole: (seq<Called>, Returned))
    requires ids != [] && from <= |stream| && Leads(ids, stream, from, outputs, called, whole)
    ensures var (more, k) := (called + [Called(ids[0], outputs)], NextEnd(stream, from, ids[0]));
      && (k.Some? ==> k.value < |stream| && IsEndOf(stream[k.value], ids[0]))
      && (k.None? ==> Leads(ids[1..], stream, |stream|, outputs, more, whole))
      && (k.Some? && stream[k.value].payload.error.Some? ==>
            whole == (more, ErroredWith(stream[k.value].payload.error.value)))
      && (k.Some? && stream[k.value].payload.error.None? ==>
            Leads(ids[1..], stream, k.value + 1, outputs + stream[k.value].payload.outputs, more, whole))
  {
    NextEndIsThere(stream, from, ids[0]);
    var c := [Called(ids[0], outputs)];
    assert forall s: seq<Called> :: called + (c + s) == (called + c) + s;
    assert called + (c + []) == called + c;
  }

  method Call(ids: seq<CallId>, stream: seq<Event>, inboundScope: Scope) returns (called: seq<Called>, r: Returned)
    ensures (called, r) == Rest(ids, stream, 0, inboundScope)
  {
    var outputs, next: nat := inboundScope, 0;
    called := [];
    assert ids[0..] == ids && [] + Rest(ids, stream, 0, inboundScope).0 == Rest(ids, stream, 0, inboundScope).0;
    ghost var whole := Rest(ids, stream, 0, inboundScope);
    for i := 0 to |ids|
      invariant next <= |stream| && Leads(ids[i..], stream, next, outputs, called, whole)
    {
      assert ids[i..][0] == ids[i] && ids[i..][1..] == ids[i + 1..];
      RestStep(ids[i..], stream, next, outputs, called, whole);
      called := called + [Called(ids[i], outputs)];
      var end;
      end, next := AwaitEnd(stream, next, ids[i]);
      if end.Some? {
        if end.value.payload.error.Some? { return called, ErroredWith(end.value.payload.error.value); }
        outputs := outputs + end.value.payload.outputs;
      }
    }
    assert called + [] == called;
    return called, Done(outputs);
  }

  // ---------- what it comes to ----------

  /** The left fold of the children's outputs, up to the first child that failed. */
  function Folded(scope: Scope, ends: seq<Event>): Returned
    requires forall e :: e in ends ==> e.payload.CallEnded?
    decreases |ends|
  {
    if ends == [] then Done(scope)
    else if ends[0].payload.error.Some? then ErroredWith(ends[0].payload.error.value)
    else Folded(scope + ends[0].payload.outputs, ends[1..])
  }

  /** The calls that are made: every child's, or those up to the first that fails. */
  function Calls(ids: seq<CallId>, scope: Scope, ends: seq<Event>): seq<Called>
    requires |ends| == |ids| && forall e :: e in ends ==> e.payload.CallEnded?
    decreases |ids|
  {
    if ids == [] then []
    else if ends[0].payload.error.Some? then [Called(ids[0], scope)]
    else [Called(ids[0], scope)] + Calls(ids[1..], scope + ends[0].payload.outputs, ends[1..])
  }

  /** The outputs of the first i children laid over the scope, one after the other. */
  function ScopeBefore(scope: Scope, ends: seq<Event>, i: nat): Scope
    requires i <= |ends| && forall e :: e in ends ==> e.payload.CallEnded?
  {
    if i == 0 then scope else ScopeBefore(scope, ends, i - 1) + ends[i - 1].payload.outputs
  }

  lemma {:induction false} ScopeBeforeRest(scope: Scope, ends: seq<Event>, i: nat)
    requires i < |ends| && forall e :: e in ends ==> e.payload.CallEnded?
    ensures ends[0] in ends && ScopeBefore(scope, ends, i + 1) == ScopeBefore(scope + ends[0].payload.outputs, ends[1..], i)
  {
    assert ends[0] in ends;
    if i > 0 { ScopeBeforeRest(scope, ends, i - 1); }
  }

  /** A variable has the value that the last of these children with an output of that name gave it ... */
  lemma {:induction false} LaterOutputsWin(scope: Scope, ends: seq<Event>, i: nat, j: nat, v: string)
    requires j < i <= |ends| && forall e :: e in ends ==> e.payload.CallEnded?
    requires v in ends[j].payload.outputs && forall k :: j < k < i ==> v !in ends[k].payload.outputs
    ensures v in ScopeBefore(scope, ends, i) && ScopeBefore(scope, ends, i)[v] == ends[j].payload.outputs[v]
  {
    if j < i - 1 { LaterOutputsWin(scope, ends, i - 1, j, v); }
  }

  /** ... and if none has, it is as it was. */
  lemma {:induction false} OthersStay(scope: Scope, ends: seq<Event>, i: nat, v: string)
    requires i <= |ends| && forall e :: e in ends ==> e.payload.CallEnded?
    requires forall k :: 0 <= k < i ==> v !in ends[k].payload.outputs
    ensures v in ScopeBefore(scope, ends, i) <==> v in scope
    ensures v in scope ==> ScopeBefore(scope, ends, i)[v] == scope[v]
  {
    if i > 0 { OthersStay(scope, ends, i - 1, v); }
  }

  /** A stream that closes, or that has no end of the next child, lets the children after it be called all the same, with
      the outputs so far. */
  lemma ClosedLetsTheNextBeCalled(ids: seq<CallId>, stream: seq<Event>, from: nat, outputs: Scope)
    requires ids != [] && from <= |stream| && forall k :: from <= k < |stream| ==> !IsEndOf(stream[k], ids[0])
    ensures Rest(ids, stream, from, outputs) ==
      ([Called(ids[0], outputs)] + Rest(ids[1..], stream, |stream|, outputs).0, Rest(ids[1..], stream, |stream|, outputs).1)
  {
    NextEndIsFirst(stream, from, ids[0], |stream|);
  }

  /** Over any stream the children are called in order, each once, and all of them unless one fails. */
  lemma {:induction false} EachIsCalledOnce(ids: seq<CallId>, stream: seq<Event>, from: nat, outputs: Scope)
    requires from <= |stream|
    ensures var (called, r) := Rest(ids, stream, from, outputs);
      && |called| <= |ids| && (r.Done? ==> |called| == |ids|)
      && forall i :: 0 <= i < |called| ==> called[i].id == ids[i]
    decreases |ids|
  {
    if ids != [] {
      NextEndIsThere(stream, from, ids[0]);
      var k := NextEnd(stream, from, ids[0]);
      if k.None? {
        EachIsCalledOnce(ids[1..], stream, |stream|, outputs);
      } else if stream[k.value].payload.error.None? {
        EachIsCalledOnce(ids[1..], stream, k.value + 1, outputs + stream[k.value].payload.outputs);
      }
    }
  }

  /** Each child's end is delivered at least once after the child is called, that is after the first end of the
      child before it; whatever else is delivered, and however often. */
  ghost predicate InTurn(ids: seq<CallId>, stream: seq<Event>, from: nat, ends: seq<Event>)
    requires |ends| == |ids| && from <= |stream|
    decreases |ids|
  {
    ids == [] || (
      && IsEndOf(ends[0], ids[0])
      && exists k :: from <= k < |stream| && stream[k] == ends[0]
           && (forall j :: from <= j < k ==> !IsEndOf(stream[j], ids[0]))
           && (ends[0].payload.error.Some? || InTurn(ids[1..], stream, k + 1, ends[1..])))
  }

  lemma RestAfterEnd(ids: seq<CallId>, stream: seq<Event>, from: nat, outputs: Scope, k: nat)
    requires ids != [] && from <= |stream| && NextEnd(stream, from, ids[0]) == Some(k) && k < |stream| && IsEndOf(stream[k], ids[0])
    ensures var (c, end) := (Called(ids[0], outputs), stream[k].payload);
      Rest(ids, stream, from, outputs) ==
        if end.error.Some? then ([c], ErroredWith(end.error.value))
        else
          var rest := Rest(ids[1..], stream, k + 1, outputs + end.outputs);
          ([c] + rest.0, rest.1)
  {
    assert [Called(ids[0], outputs)] + [] == [Called(ids[0], outputs)];
  }

  /** Then the children are called one by one, each with the fold of the outputs before it, up to the first that
      fails; its error is the call's, and otherwise the whole fold is the call's outputs. */
  lemma {:induction false} SerialIsFold(ids: seq<CallId>, stream: seq<Event>, from: nat, scope: Scope, ends: seq<Event>)
    requires |ends| == |ids| && from <= |stream| && InTurn(ids, stream, from, ends)
    requires forall e :: e in ends ==> e.payload.CallEnded?
    ensures Rest(ids, stream, from, scope) == (Calls(ids, scope, ends), Folded(scope, ends))
    decreases |ids|
  {
    if ids != [] {
      var k := FirstInTurn(ids, stream, from, ends);
      assert ends[0] in ends;
      RestAfterEnd(ids, stream, from, scope, k);
      if ends[0].payload.error.None? {
        SerialIsFold(ids[1..], stream, k + 1, scope + ends[0].payload.outputs, ends[1..]);
      }
    }
  }

  /** Where the first child's end is first delivered. */
  lemma FirstInTurn(ids: seq<CallId>, stream: seq<Event>, from: nat, ends: seq<Event>) returns (k: nat)
    requires ids != [] && |ends| == |ids| && from <= |stream| && InTurn(ids, stream, from, ends)
    ensures NextEnd(stream, from, ids[0]) == Some(k) && k < |stream| && stream[k] == ends[0]
    ensures ends[0].payload.CallEnded? && ends[0].payload.error.None? ==> InTurn(ids[1..], stream, k + 1, ends[1..])
  {
    k :| from <= k < |stream| && stream[k] == ends[0]
         && (forall j :: from <= j < k ==> !IsEndOf(stream[j], ids[0]))
         && (ends[0].payload.error.Some? || InTurn(ids[1..], stream, k + 1, ends[1..]));
    NextEndIsFirst(stream, from, ids[0], k);
  }

  /** With no failure before child i, child i is called with the fold of the outputs before it ... */
  lemma {:induction false} CalledInOrder(ids: seq<CallId>, scope: Scope, ends: seq<Event>, i: nat)
    requires |ends| == |ids| && forall e :: e in ends ==> e.payload.CallEnded?
    requires i <= |ids| && forall j :: 0 <= j < i ==> ends[j].payload.error.None?
    ensures i < |ids| ==> i < |Calls(ids, scope, ends)| && Calls(ids, scope, ends)[i] == Called(ids[i], ScopeBefore(scope, ends, i))
    ensures i == |ids| ==> |Calls(ids, scope, ends)| == i && Folded(scope, ends) == Done(ScopeBefore(scope, ends, i))
    decreases i
  {
    if i > 0 {
      CalledInOrder(ids[1..], scope + ends[0].payload.outputs, ends[1..], i - 1);
      ScopeBeforeRest(scope, ends, i - 1);
    }
  }

  /** ... and if child i fails, its error is the result, and nothing after it is called. */
  lemma {:induction false} FirstFailureDecides(ids: seq<CallId>, scope: Scope, ends: seq<Event>, i: nat)
    requires |ends| == |ids| && forall e :: e in ends ==> e.payload.CallEnded?
    requires i < |ends| && ends[i].payload.error.Some? && forall j :: 0 <= j < i ==> ends[j].payload.error.None?
    ensures Folded(scope, ends) == ErroredWith(ends[i].payload.error.value) && |Calls(ids, scope, ends)| == i + 1
    decreases i
  {
    assert ends[0] in ends;
    if i > 0 { FirstFailureDecides(ids[1..], scope + ends[0].payload.outputs, ends[1..], i - 1); }
  }
}
