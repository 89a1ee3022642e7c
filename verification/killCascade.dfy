/** Killing a call: the node answers each kill request by requesting a kill of every stored child. */
module KillCascade {
  import opened Text
  import opened Events

  /** The stored calls, listed so that parents come before their children. The store itself is a map in no
      order; such a listing exists because a call is only ever started by a call that was started before. */
  ghost predicate Forest(f: seq<Call>) {
    && (forall i, j :: 0 <= i < j < |f| ==> f[i].id != f[j].id)
    && (forall i, j :: 0 <= i < |f| && 0 <= j < |f| && f[j].parentId == Some(f[i].id) ==> i < j)
  }

  ghost predicate Stored(calls: map<CallId, Call>, f: seq<Call>) {
    && (forall i :: 0 <= i < |f| ==> f[i].id in calls && calls[f[i].id] == f[i])
    && (forall id :: id in calls ==> calls[id].id == id && calls[id] in f)
  }

  /** The stored call at `j` lies below `target`. */
  ghost predicate Below(f: seq<Call>, target: CallId, j: nat)
    requires j < |f|
  {
    f[j].parentId.Some? &&
    (f[j].parentId.value == target || exists i: nat :: i < j && f[i].id == f[j].parentId.value && Below(f, target, i))
  }

  /** `id` is the target or one of its stored descendants. */
  ghost predicate Reached(f: seq<Call>, target: CallId, id: CallId) {
    id == target || exists j: nat :: j < |f| && f[j].id == id && Below(f, target, j)
  }

  predicate IsChild(calls: map<CallId, Call>, parent: CallId, id: CallId) {
    id in calls && calls[id].parentId == Some(parent)
  }

  /** `ListWithParentID`: the children, in the order in which the map happens to be run through. */
  method ListWithParentId(calls: map<CallId, Call>, parent: CallId) returns (children: seq<CallId>)
    ensures forall id :: id in children <==> IsChild(calls, parent, id)
    ensures forall i, j :: 0 <= i < j < |children| ==> children[i] != children[j]
  {
    children := [];
    var todo := calls.Keys;
    while todo != {}
      invariant todo <= calls.Keys
      invariant forall id :: id in children <==> IsChild(calls, parent, id) && id !in todo
      invariant forall i, j :: 0 <= i < j < |children| ==> children[i] != children[j]
    {
      var id :| id in todo;
      if calls[id].parentId == Some(parent) {
        children := children + [id];
      }
      todo := todo - {id};
    }
  }

  // ---------- what is left to do ----------

  /** The size of the subtrees below `id` from position `from` on, every level counted double because a
      request may be delivered twice. */
  function WeightBelow(f: seq<Call>, id: CallId, from: nat): nat
    requires from <= |f|
    decreases |f| - from
  {
    if from == |f| then 0
    else if f[from].parentId == Some(id) then WeightBelow(f, id, from + 1) + 1 + 2 * WeightBelow(f, f[from].id, from + 1)
    else WeightBelow(f, id, from + 1)
  }

  function Weight(f: seq<Call>, id: CallId): nat {
    1 + 2 * WeightBelow(f, id, 0)
  }

  function TotalWeight(f: seq<Call>, ids: seq<CallId>): nat {
    if ids == [] then 0 else TotalWeight(f, ids[..|ids| - 1]) + Weight(f, ids[|ids| - 1])
  }

  /** The children of `id` from position `from` on. */
  function Kids(f: seq<Call>, id: CallId, from: nat): seq<CallId>
    requires from <= |f|
    decreases |f| - from
  {
    if from == |f| then []
    else if f[from].parentId == Some(id) then Kids(f, id, from + 1) + [f[from].id]
    else Kids(f, id, from + 1)
  }

  lemma {:induction false} WeightFromLaterPosition(f: seq<Call>, id: CallId, from: nat)
    requires from <= |f| && forall j :: 0 <= j < from ==> f[j].parentId != Some(id)
    ensures WeightBelow(f, id, 0) == WeightBelow(f, id, from)
  {
    if from > 0 { WeightFromLaterPosition(f, id, from - 1); }
  }

  lemma {:induction false} KidsWeight(f: seq<Call>, id: CallId, from: nat)
    requires Forest(f) && from <= |f|
    ensures TotalWeight(f, Kids(f, id, from)) == WeightBelow(f, id, from)
    decreases |f| - from
  {
    if from < |f| {
      KidsWeight(f, id, from + 1);
      if f[from].parentId == Some(id) {
        var kids := Kids(f, id, from);
        assert kids[..|kids| - 1] == Kids(f, id, from + 1);
        WeightFromLaterPosition(f, f[from].id, from + 1);
      }
    }
  }

  lemma {:induction false} KidsAre(f: seq<Call>, id: CallId, from: nat, c: CallId)
    requires from <= |f|
    ensures c in Kids(f, id, from) <==> exists j :: from <= j < |f| && f[j].id == c && f[j].parentId == Some(id)
    decreases |f| - from
  {
    if from < |f| { KidsAre(f, id, from + 1, c); }
  }

  lemma {:induction false} KidsOnce(f: seq<Call>, id: CallId, from: nat)
    requires Forest(f) && from <= |f|
    ensures forall c :: multiset(Kids(f, id, from))[c] <= 1
    decreases |f| - from
  {
    if from < |f| {
      KidsOnce(f, id, from + 1);
      KidsAre(f, id, from + 1, f[from].id);
      var rest := Kids(f, id, from + 1);
      assert f[from].id !in multiset(rest);
    }
  }

  /** All but the i-th. */
  function Without(ids: seq<CallId>, i: nat): seq<CallId>
    requires i < |ids|
  {
    ids[..i] + ids[i + 1..]
  }

  lemma WithoutButLast(ids: seq<CallId>, i: nat)
    requires i < |ids|
    ensures var n := |ids| - 1;
      if i == n then Without(ids, i) == ids[..n]
      else Without(ids, i)[..n - 1] == Without(ids[..n], i) && Without(ids, i)[n - 1] == ids[n]
  {
    var n := |ids| - 1;
    if i == n {
      assert ids[i + 1..] == [];
    } else {
      assert ids[i + 1..] == ids[..n][i + 1..] + [ids[n]];
    }
  }

  lemma {:induction false} WeightWithout(f: seq<Call>, ids: seq<CallId>, i: nat)
    requires i < |ids|
    ensures TotalWeight(f, ids) == TotalWeight(f, ids[..i] + ids[i + 1..]) + Weight(f, ids[i])
  {
    var n := |ids| - 1;
    WithoutButLast(ids, i);
    if i < n { WeightWithout(f, ids[..n], i); }
  }

  lemma MultisetWithout(ids: seq<CallId>, i: nat)
    requires i < |ids|
    ensures multiset(ids[..i] + ids[i + 1..]) == multiset(ids) - multiset{ids[i]}
  {
    assert ids == ids[..i] + [ids[i]] + ids[i + 1..];
    assert multiset(ids) == multiset(ids[..i]) + multiset{ids[i]} + multiset(ids[i + 1..]);
  }

  lemma {:induction false} WeightIsOrderless(f: seq<Call>, a: seq<CallId>, b: seq<CallId>)
    requires multiset(a) == multiset(b)
    ensures TotalWeight(f, a) == TotalWeight(f, b)
  {
    if a == [] {
      assert |multiset(b)| == |b|;
    } else {
      var n := |a| - 1;
      assert a[n] in multiset(b);
      var i :| 0 <= i < |b| && b[i] == a[n];
      var rest := b[..i] + b[i + 1..];
      MultisetWithout(b, i);
      MultisetWithout(a, n);
      assert a[..n] + a[n + 1..] == a[..n];
      WeightWithout(f, b, i);
      WeightIsOrderless(f, a[..n], rest);
    }
  }

  lemma {:induction false} DistinctOnce(ids: seq<CallId>)
    requires forall i, j :: 0 <= i < j < |ids| ==> ids[i] != ids[j]
    ensures forall c :: multiset(ids)[c] == if c in ids then 1 else 0
  {
    if ids != [] {
      var n := |ids| - 1;
      DistinctOnce(ids[..n]);
      assert ids == ids[..n] + [ids[n]];
    }
  }

  /** The children of a call weigh, twice over, less than the call. */
  lemma ChildrenWeighLess(f: seq<Call>, calls: map<CallId, Call>, id: CallId, children: seq<CallId>)
    requires Forest(f) && Stored(calls, f)
    requires forall c :: c in children <==> IsChild(calls, id, c)
    requires forall i, j :: 0 <= i < j < |children| ==> children[i] != children[j]
    ensures 2 * TotalWeight(f, children) < Weight(f, id)
  {
    var kids := Kids(f, id, 0);
    KidsWeight(f, id, 0);
    KidsOnce(f, id, 0);
    DistinctOnce(children);
    forall c ensures multiset(children)[c] == multiset(kids)[c] {
      KidsAre(f, id, 0, c);
      if c in kids { assert c in multiset(kids); }
    }
    assert multiset(children) == multiset(kids);
    WeightIsOrderless(f, children, kids);
  }

  // ---------- the cascade ----------

  /** No stored call below the target is the target's parent: the parent of the target is out of reach. */
  lemma {:induction false} BelowComesLater(f: seq<Call>, target: CallId, j: nat, t: nat)
    requires Forest(f) && j < |f| && Below(f, target, j) && t < |f| && f[t].id == target
    ensures t < j
  {
    if f[j].parentId.value != target {
      var i: nat :| i < j && f[i].id == f[j].parentId.value && Below(f, target, i);
      BelowComesLater(f, target, i, t);
    }
  }

  lemma ParentOutOfReach(f: seq<Call>, target: CallId, t: nat)
    requires Forest(f) && t < |f| && f[t].id == target && f[t].parentId.Some?
    ensures !Reached(f, target, f[t].parentId.value)
  {
    if Reached(f, target, f[t].parentId.value) && f[t].parentId.value != target {
      var j: nat :| j < |f| && f[j].id == f[t].parentId.value && Below(f, target, j);
      BelowComesLater(f, target, j, t);
    }
  }

  lemma ChildIsReached(f: seq<Call>, calls: map<CallId, Call>, target: CallId, id: CallId, c: CallId)
    requires Forest(f) && Stored(calls, f) && Reached(f, target, id) && IsChild(calls, id, c)
    ensures Reached(f, target, c) && c != target
  {
    var k :| 0 <= k < |f| && f[k] == calls[c];
    if id != target {
      var j: nat :| j < |f| && f[j].id == id && Below(f, target, j);
      assert j < k;
    }
    assert Below(f, target, k);
    if c == target { ParentOutOfReach(f, target, k); }
  }

  lemma {:induction false} ClosedHoldsAllBelow(f: seq<Call>, calls: map<CallId, Call>, target: CallId, ids: set<CallId>, j: nat)
    requires Forest(f) && Stored(calls, f) && target in ids
    requires forall id, c :: id in ids && IsChild(calls, id, c) ==> c in ids
    requires j < |f| && Below(f, target, j)
    ensures f[j].id in ids
  {
    if f[j].parentId.value != target {
      var i: nat :| i < j && f[i].id == f[j].parentId.value && Below(f, target, i);
      ClosedHoldsAllBelow(f, calls, target, ids, i);
    }
    assert IsChild(calls, f[j].parentId.value, f[j].id);
  }

  function Repeat(id: CallId, n: nat): (r: seq<CallId>)
    ensures |r| == n && forall i :: 0 <= i < n ==> r[i] == id
  {
    seq(n, _ => id)
  }

  /** Publishes a kill request for every child; each is delivered once or, at `maxCopies` 2, maybe twice. */
  method Kill(calls: map<CallId, Call>, id: CallId, maxCopies: nat, ghost f: seq<Call>)
    returns (published: seq<CallId>, deliveries: seq<CallId>)
    requires Forest(f) && Stored(calls, f) && 1 <= maxCopies <= 2
    ensures forall c :: c in published <==> IsChild(calls, id, c)
    ensures forall c :: c in deliveries <==> c in published
    ensures forall i, j :: 0 <= i < j < |published| ==> published[i] != published[j]
    ensures maxCopies == 1 ==> deliveries == published
    ensures TotalWeight(f, deliveries) < Weight(f, id)
  {
    var children := ListWithParentId(calls, id);
    published, deliveries := [], [];
    for i := 0 to |children|
      invariant published == children[..i]
      invariant forall c :: c in deliveries <==> c in published
      invariant maxCopies == 1 ==> deliveries == published
      invariant TotalWeight(f, deliveries) <= 2 * TotalWeight(f, published)
    {
      assert children[..i + 1] == children[..i] + [children[i]];
      var copies: nat :| 1 <= copies <= maxCopies;
      OneOrTwoMore(f, published, deliveries, children[i], copies);
      published := published + [children[i]];
      deliveries := deliveries + Repeat(children[i], copies);
    }
    assert children[..|children|] == children;
    ChildrenWeighLess(f, calls, id, children);
  }

  lemma OneMore(f: seq<Call>, ids: seq<CallId>, id: CallId)
    ensures TotalWeight(f, ids + [id]) == TotalWeight(f, ids) + Weight(f, id)
  {
    assert (ids + [id])[..|ids|] == ids;
  }

  lemma RepeatIs(ids: seq<CallId>, id: CallId)
    ensures Repeat(id, 1) == [id] && ids + Repeat(id, 2) == ids + [id] + [id]
  {
    assert Repeat(id, 2) == [id] + [id];
    assert ids + ([id] + [id]) == ids + [id] + [id];
  }

  lemma OneOrTwoMore(f: seq<Call>, published: seq<CallId>, deliveries: seq<CallId>, id: CallId, copies: nat)
    requires 1 <= copies <= 2 && TotalWeight(f, deliveries) <= 2 * TotalWeight(f, published)
    ensures TotalWeight(f, deliveries + Repeat(id, copies)) <= 2 * TotalWeight(f, published + [id])
    ensures copies == 1 ==> Repeat(id, copies) == [id]
  {
    RepeatIs(deliveries, id);
    OneMore(f, published, id);
    OneMore(f, deliveries, id);
    if copies == 2 { OneMore(f, deliveries + [id], id); }
  }

  ghost predicate Handed(calls: map<CallId, Call>, f: seq<Call>, target: CallId,
      requested: seq<CallId>, pending: seq<CallId>, handled: set<CallId>)
  {
    && target in requested
    && (forall id :: id in requested <==> id in pending || id in handled)
    && (forall id :: id in requested ==> Reached(f, target, id))
    && (forall id, c :: id in handled && IsChild(calls, id, c) ==> c in requested)
  }

  /** No request is published twice as long as each is delivered once. */
  ghost predicate Once(calls: map<CallId, Call>, target: CallId,
      requested: seq<CallId>, pending: seq<CallId>, handled: set<CallId>)
  {
    && (forall i, j :: 0 <= i < j < |requested| ==> requested[i] != requested[j])
    && (forall i, j :: 0 <= i < j < |pending| ==> pending[i] != pending[j])
    && (forall id :: id in pending ==> id !in handled)
    && (forall c :: c in requested && c != target ==> c in calls && calls[c].parentId.Some? && calls[c].parentId.value in handled)
  }

  /** The node's loop over kill requests, whatever the order in which they arrive. It ends; it requests the
      kill of the target and exactly its stored descendants; and once each if each request arrives once. */
  method Cascade(calls: map<CallId, Call>, target: CallId, maxCopies: nat, ghost f: seq<Call>)
    returns (requested: seq<CallId>)
    requires Forest(f) && Stored(calls, f) && 1 <= maxCopies <= 2
    ensures forall id :: id in requested <==> Reached(f, target, id)
    ensures maxCopies == 1 ==> forall i, j :: 0 <= i < j < |requested| ==> requested[i] != requested[j]
  {
    requested := [target];
    var first: nat :| 1 <= first <= maxCopies;
    var pending := Repeat(target, first);
    ghost var handled: set<CallId> := {};
    while pending != []
      invariant Handed(calls, f, target, requested, pending, handled)
      invariant maxCopies == 1 ==> Once(calls, target, requested, pending, handled)
      decreases TotalWeight(f, pending)
    {
      var k: nat :| k < |pending|;
      var id := pending[k];
      var published, deliveries := Kill(calls, id, maxCopies, f);
      var rest := pending[..k] + pending[k + 1..];
      WeightWithout(f, pending, k);
      WeightOfBoth(f, rest, deliveries);
      HandedStep(calls, f, target, requested, pending, handled, k, published, deliveries);
      if maxCopies == 1 {
        OnceStep(calls, f, target, requested, pending, handled, k, published);
      }
      requested, pending := requested + published, rest + deliveries;
      handled := handled + {id};
    }
    forall id | Reached(f, target, id) ensures id in requested {
      if id != target {
        var j: nat :| j < |f| && f[j].id == id && Below(f, target, j);
        ClosedHoldsAllBelow(f, calls, target, handled, j);
      }
    }
  }

  lemma {:induction false} WeightOfBoth(f: seq<Call>, a: seq<CallId>, b: seq<CallId>)
    ensures TotalWeight(f, a + b) == TotalWeight(f, a) + TotalWeight(f, b)
  {
    if b == [] {
      assert a + b == a;
    } else {
      var n := |b| - 1;
      WeightOfBoth(f, a, b[..n]);
      assert (a + b)[..|a + b| - 1] == a + b[..n];
    }
  }

  lemma HandedStep(calls: map<CallId, Call>, f: seq<Call>, target: CallId, requested: seq<CallId>, pending: seq<CallId>,
      handled: set<CallId>, k: nat, published: seq<CallId>, deliveries: seq<CallId>)
    requires Forest(f) && Stored(calls, f) && Handed(calls, f, target, requested, pending, handled) && k < |pending|
    requires forall c :: c in published <==> IsChild(calls, pending[k], c)
    requires forall c :: c in deliveries <==> c in published
    ensures Handed(calls, f, target, requested + published, pending[..k] + pending[k + 1..] + deliveries, handled + {pending[k]})
  {
    forall c | c in published ensures Reached(f, target, c) {
      ChildIsReached(f, calls, target, pending[k], c);
    }
    assert pending == pending[..k] + [pending[k]] + pending[k + 1..];
  }

  /** The children of a request that is handled for the first time are requested for the first time. */
  lemma ChildrenAreNew(calls: map<CallId, Call>, f: seq<Call>, target: CallId, requested: seq<CallId>, pending: seq<CallId>,
      handled: set<CallId>, k: nat, c: CallId)
    requires Forest(f) && Stored(calls, f) && Handed(calls, f, target, requested, pending, handled) && k < |pending|
    requires Once(calls, target, requested, pending, handled) && IsChild(calls, pending[k], c)
    ensures c !in requested && c != target && c !in handled && c !in pending && c != pending[k]
  {
    assert pending[k] in pending;
    ChildIsReached(f, calls, target, pending[k], c);
  }

  lemma OnceStep(calls: map<CallId, Call>, f: seq<Call>, target: CallId, requested: seq<CallId>, pending: seq<CallId>,
      handled: set<CallId>, k: nat, published: seq<CallId>)
    requires Forest(f) && Stored(calls, f) && Handed(calls, f, target, requested, pending, handled) && k < |pending|
    requires Once(calls, target, requested, pending, handled)
    requires forall c :: c in published <==> IsChild(calls, pending[k], c)
    requires forall i, j :: 0 <= i < j < |published| ==> published[i] != published[j]
    ensures Once(calls, target, requested + published, pending[..k] + pending[k + 1..] + published, handled + {pending[k]})
  {
    forall c | c in published ensures c !in requested && c !in handled && c !in pending {
      ChildrenAreNew(calls, f, target, requested, pending, handled, k, c);
    }
    OnceGrows(calls, target, requested, pending, handled, k, published);
  }

  lemma OnceGrows(calls: map<CallId, Call>, target: CallId, requested: seq<CallId>, pending: seq<CallId>,
      handled: set<CallId>, k: nat, published: seq<CallId>)
    requires k < |pending| && Once(calls, target, requested, pending, handled)
    requires forall c :: c in published ==> IsChild(calls, pending[k], c) && c !in requested && c !in handled && c !in pending
    requires forall i, j :: 0 <= i < j < |published| ==> published[i] != published[j]
    ensures Once(calls, target, requested + published, pending[..k] + pending[k + 1..] + published, handled + {pending[k]})
  {
    WithoutOne(pending, k);
    assert pending[k] in pending;
    DistinctConcat(requested, published);
    DistinctConcat(pending[..k] + pending[k + 1..], published);
  }

  lemma WithoutOne(pending: seq<CallId>, k: nat)
    requires k < |pending| && forall i, j :: 0 <= i < j < |pending| ==> pending[i] != pending[j]
    ensures var rest := pending[..k] + pending[k + 1..];
      && (forall x :: x in rest ==> x in pending && x != pending[k])
      && (forall i, j :: 0 <= i < j < |rest| ==> rest[i] != rest[j])
  {
    var rest := pending[..k] + pending[k + 1..];
    forall i | 0 <= i < |rest| ensures rest[i] == if i < k then pending[i] else pending[i + 1] { }
  }

  lemma DistinctConcat(a: seq<CallId>, b: seq<CallId>)
    requires forall i, j :: 0 <= i < j < |a| ==> a[i] != a[j]
    requires forall i, j :: 0 <= i < j < |b| ==> b[i] != b[j]
    requires forall x :: x in b ==> x !in a
    ensures forall i, j :: 0 <= i < j < |a + b| ==> (a + b)[i] != (a + b)[j]
  {
    forall i, j | 0 <= i < j < |a + b| ensures (a + b)[i] != (a + b)[j] {
      if i < |a| <= j { assert b[j - |a|] in b && a[i] in a; }
    }
  }

  /** A loop's iterations are stored as children of the loop's own parent. So killing the loop requests the
      kill of none of them: siblings never lie below one another. */
  lemma SiblingsAreSpared(f: seq<Call>, loop: nat, iteration: nat)
    requires Forest(f) && loop < |f| && iteration < |f| && loop != iteration
    requires f[iteration].parentId == f[loop].parentId
    ensures !Reached(f, f[loop].id, f[iteration].id)
  {
    if Reached(f, f[loop].id, f[iteration].id) {
      var j: nat :| j < |f| && f[j].id == f[iteration].id && Below(f, f[loop].id, j);
      assert j == iteration;
      ParentOutOfReach(f, f[loop].id, loop);
    }
  }
}
