/** The parallel call: children run at once, and their ends are learnt from the event stream. */
module ParallelCaller {
  import opened Text
  import opened Values
  import opened Events

  datatype ChildSpec = ChildSpec(name: Option<string>, needs: seq<string>)

  /** A kill request, and the position of the event whose handling published it. */
  datatype KillRequest = KillRequest(at: nat, opId: CallId)

  ghost predicate Distinct(ids: seq<CallId>) {
    forall i, j :: 0 <= i < j < |ids| ==> ids[i] != ids[j]
  }

  // ---------- what a stream says about the children ----------

  /** Whether `e` is the end of one of the children. */
  predicate EndsChild(ids: seq<CallId>, e: Event) {
    e.payload.CallEnded? && e.payload.call.id in ids
  }

  function EndCount(stream: seq<Event>, id: CallId): nat {
    if stream == [] then 0
    else EndCount(stream[..|stream| - 1], id) + if IsEndOf(stream[|stream| - 1], id) then 1 else 0
  }

  predicate AllEnded(ids: seq<CallId>, stream: seq<Event>) {
    ids == [] || (EndCount(stream, ids[|ids| - 1]) > 0 && AllEnded(ids[..|ids| - 1], stream))
  }

  lemma {:induction false} AllEndedMeans(ids: seq<CallId>, stream: seq<Event>)
    ensures AllEnded(ids, stream) <==> forall i :: 0 <= i < |ids| ==> EndCount(stream, ids[i]) > 0
  {
    if ids != [] { AllEndedMeans(ids[..|ids| - 1], stream); }
  }

  /** The event at `k` lets the call finish: it ends some call, and by then every child has ended. */
  predicate FinishesAt(ids: seq<CallId>, stream: seq<Event>, k: nat) {
    k < |stream| && stream[k].payload.CallEnded? && AllEnded(ids, stream[..k + 1])
  }

  /** None of the first `n` events lets the call finish. */
  predicate Unfinished(ids: seq<CallId>, stream: seq<Event>, n: nat)
    requires n <= |stream|
  {
    n == 0 || (Unfinished(ids, stream, n - 1) && !FinishesAt(ids, stream, n - 1))
  }

  ghost predicate Erred(ids: seq<CallId>, stream: seq<Event>) {
    exists k :: 0 <= k < |stream| && EndsChild(ids, stream[k]) && stream[k].payload.error.Some?
  }

  /** The outputs that the last delivered end of a child carries. */
  function LastOutputs(stream: seq<Event>, id: CallId): Option<Scope> {
    if stream == [] then None
    else if IsEndOf(stream[|stream| - 1], id) then Some(stream[|stream| - 1].payload.outputs)
    else LastOutputs(stream[..|stream| - 1], id)
  }

  /** The outputs of the first `n` children laid over each other in child order. */
  function MergeOutputs(ids: seq<CallId>, stream: seq<Event>, n: nat): Scope
    requires n <= |ids|
  {
    if n == 0 then map[]
    else
      var last := LastOutputs(stream, ids[n - 1]);
      MergeOutputs(ids, stream, n - 1) + if last.Some? then last.value else map[]
  }

  function ResultOf(ids: seq<CallId>, stream: seq<Event>, erred: bool): Result<Scope> {
    if erred then Err else Ok(MergeOutputs(ids, stream, |ids|))
  }

  // ---------- needs ----------

  /** How often `needs` refers to `name`. */
  function Occurrences(needs: seq<string>, name: string): nat {
    if needs == [] then 0
    else Occurrences(needs[..|needs| - 1], name) + if RefToName(needs[|needs| - 1]) == name then 1 else 0
  }

  function TotalNeeds(children: seq<ChildSpec>, name: string): nat {
    if children == [] then 0
    else TotalNeeds(children[..|children| - 1], name) + Occurrences(children[|children| - 1].needs, name)
  }

  /** What the handling of one event takes off the counter of `name`. */
  function NeedsReleased(children: seq<ChildSpec>, ids: seq<CallId>, e: Event, name: string): nat
    requires |children| == |ids|
  {
    if ids == [] then 0
    else if IsEndOf(e, ids[|ids| - 1]) then Occurrences(children[|ids| - 1].needs, name)
    else NeedsReleased(children[..|ids| - 1], ids[..|ids| - 1], e, name)
  }

  /** The counter of `name` after the handling of `stream`. */
  function Counter(children: seq<ChildSpec>, ids: seq<CallId>, stream: seq<Event>, name: string): int
    requires |children| == |ids|
  {
    if stream == [] then TotalNeeds(children, name)
    else Counter(children, ids, stream[..|stream| - 1], name) - NeedsReleased(children, ids, stream[|stream| - 1], name)
  }

  /** The call that a name stands for: the last child so named. */
  function IdOfName(children: seq<ChildSpec>, ids: seq<CallId>, name: string): Option<CallId>
    requires |children| == |ids|
  {
    if children == [] then None
    else if children[|children| - 1].name == Some(name) then Some(ids[|ids| - 1])
    else IdOfName(children[..|children| - 1], ids[..|ids| - 1], name)
  }

  /** Whether handling the event at `r.at` publishes `r` on account of `name`. */
  predicate KillDue(children: seq<ChildSpec>, ids: seq<CallId>, stream: seq<Event>, r: KillRequest, name: string)
    requires |children| == |ids|
  {
    && r.at < |stream| && EndsChild(ids, stream[r.at])
    && TotalNeeds(children, name) > 0 && Counter(children, ids, stream[..r.at + 1], name) < 1
    && IdOfName(children, ids, name) == Some(r.opId)
  }

  /** Whether handling the event at `r.at` publishes `r`. */
  ghost predicate Requested(children: seq<ChildSpec>, ids: seq<CallId>, stream: seq<Event>, r: KillRequest)
    requires |children| == |ids|
  {
    exists name :: KillDue(children, ids, stream, r, name)
  }

  // ---------- the call ----------

  function AddNeeds(counts: map<string, int>, needs: seq<string>): map<string, int> {
    if needs == [] then counts
    else
      var before, name := AddNeeds(counts, needs[..|needs| - 1]), RefToName(needs[|needs| - 1]);
      before[name := (if name in before then before[name] else 0) + 1]
  }

  /** The counters before any child has ended. */
  function NeedsTable(children: seq<ChildSpec>): map<string, int> {
    if children == [] then map[]
    else AddNeeds(NeedsTable(children[..|children| - 1]), children[|children| - 1].needs)
  }

  lemma {:induction false} AddNeedsCounts(counts: map<string, int>, needs: seq<string>, n: string)
    ensures n in AddNeeds(counts, needs) <==> n in counts || Occurrences(needs, n) > 0
    ensures n in AddNeeds(counts, needs) ==>
      AddNeeds(counts, needs)[n] == (if n in counts then counts[n] else 0) + Occurrences(needs, n)
  {
    if needs != [] { AddNeedsCounts(counts, needs[..|needs| - 1], n); }
  }

  lemma {:induction false} NeedsTableCounts(children: seq<ChildSpec>, n: string)
    ensures n in NeedsTable(children) <==> TotalNeeds(children, n) > 0
    ensures n in NeedsTable(children) ==> NeedsTable(children)[n] == TotalNeeds(children, n)
  {
    if children != [] {
      NeedsTableCounts(children[..|children| - 1], n);
      AddNeedsCounts(NeedsTable(children[..|children| - 1]), children[|children| - 1].needs, n);
    }
  }

  method CountNeeds(children: seq<ChildSpec>) returns (needed: map<string, int>)
    ensures needed == NeedsTable(children)
    ensures forall n :: n in needed <==> TotalNeeds(children, n) > 0
    ensures forall n :: n in needed ==> needed[n] == TotalNeeds(children, n)
  {
    needed := map[];
    for c := 0 to |children|
      invariant needed == NeedsTable(children[..c])
    {
      var needs := children[c].needs;
      ghost var counts := needed;
      for k := 0 to |needs|
        invariant needed == AddNeeds(counts, needs[..k])
      {
        assert needs[..k + 1][..k] == needs[..k];
        var name := RefToName(needs[k]);
        needed := needed[name := (if name in needed then needed[name] else 0) + 1];
      }
      assert needs[..|needs|] == needs && children[..c + 1][..c] == children[..c];
    }
    assert children[..|children|] == children;
    forall n { NeedsTableCounts(children, n); }
  }

  ghost predicate Indexed(children: seq<ChildSpec>, ids: seq<CallId>, indexById: map<CallId, nat>, idByName: map<string, CallId>)
    requires |children| == |ids|
  {
    && (forall id :: id in indexById <==> id in ids)
    && (forall id :: id in indexById ==> indexById[id] < |ids| && ids[indexById[id]] == id)
    && |indexById| == |ids|
    && (forall n :: n in idByName <==> IdOfName(children, ids, n).Some?)
    && (forall n :: n in idByName ==> IdOfName(children, ids, n) == Some(idByName[n]))
  }

  ghost predicate IdsIndexed(ids: seq<CallId>, c: nat, indexById: map<CallId, nat>)
    requires c <= |ids|
  {
    && (forall id :: id in indexById <==> id in ids[..c])
    && (forall id :: id in indexById ==> indexById[id] < c && ids[indexById[id]] == id)
    && |indexById| == c
  }

  ghost predicate NamesIndexed(children: seq<ChildSpec>, ids: seq<CallId>, c: nat, idByName: map<string, CallId>)
    requires |children| == |ids| && c <= |ids|
  {
    forall n :: IdOfName(children[..c], ids[..c], n) == if n in idByName then Some(idByName[n]) else None
  }

  lemma OneMoreId(ids: seq<CallId>, c: nat, indexById: map<CallId, nat>)
    requires c < |ids| && Distinct(ids) && IdsIndexed(ids, c, indexById)
    ensures IdsIndexed(ids, c + 1, indexById[ids[c] := c])
  {
    assert ids[..c + 1] == ids[..c] + [ids[c]];
    assert ids[c] !in ids[..c];
    assert ids[c] !in indexById && |indexById[ids[c] := c]| == c + 1;
  }

  lemma OneMoreName(children: seq<ChildSpec>, ids: seq<CallId>, c: nat, idByName: map<string, CallId>)
    requires |children| == |ids| && c < |ids| && NamesIndexed(children, ids, c, idByName)
    ensures NamesIndexed(children, ids, c + 1,
              if children[c].name.Some? then idByName[children[c].name.value := ids[c]] else idByName)
  {
    assert children[..c + 1][..c] == children[..c] && ids[..c + 1][..c] == ids[..c];
  }

  method IndexChildren(children: seq<ChildSpec>, ids: seq<CallId>)
    returns (indexById: map<CallId, nat>, idByName: map<string, CallId>)
    requires |children| == |ids| && Distinct(ids)
    ensures Indexed(children, ids, indexById, idByName)
  {
    indexById, idByName := map[], map[];
    for c := 0 to |children|
      invariant IdsIndexed(ids, c, indexById) && NamesIndexed(children, ids, c, idByName)
    {
      OneMoreId(ids, c, indexById);
      OneMoreName(children, ids, c, idByName);
      indexById := indexById[ids[c] := c];
      if children[c].name.Some? {
        idByName := idByName[children[c].name.value := ids[c]];
      }
    }
    assert children[..|children|] == children && ids[..|ids|] == ids;
  }

  /** The counters once these needs are given back. */
  function Released(needed: map<string, int>, needs: seq<string>): map<string, int> {
    map n | n in needed :: needed[n] - Occurrences(needs, n)
  }

  method Release(needed: map<string, int>, needs: seq<string>) returns (left: map<string, int>)
    requires forall n :: Occurrences(needs, n) > 0 ==> n in needed
    ensures left == Released(needed, needs)
  {
    left := needed;
    for k := 0 to |needs|
      invariant left.Keys == needed.Keys
      invariant forall n :: n in needed ==> left[n] == needed[n] - Occurrences(needs[..k], n)
    {
      assert needs[..k + 1][..k] == needs[..k];
      OccurrencesGrow(needs, k);
      var name := RefToName(needs[k]);
      left := left[name := left[name] - 1];
    }
    assert needs[..|needs|] == needs;
  }

  lemma {:induction false} OccurrencesGrow(needs: seq<string>, k: nat)
    requires k < |needs|
    ensures Occurrences(needs, RefToName(needs[k])) > 0
  {
    if k < |needs| - 1 { OccurrencesGrow(needs[..|needs| - 1], k); }
  }

  ghost predicate NoRepeats(kills: seq<KillRequest>) {
    forall i, j :: 0 <= i < j < |kills| ==> kills[i] != kills[j]
  }

  /** No call has two names. */
  ghost predicate OneNameEach(idByName: map<string, CallId>) {
    forall a, b :: a in idByName && b in idByName && idByName[a] == idByName[b] ==> a == b
  }

  lemma {:induction false} NamedAsSuch(children: seq<ChildSpec>, ids: seq<CallId>, name: string) returns (i: nat)
    requires |children| == |ids| && IdOfName(children, ids, name).Some?
    ensures i < |ids| && ids[i] == IdOfName(children, ids, name).value && children[i].name == Some(name)
  {
    i := |ids| - 1;
    if children[i].name != Some(name) { i := NamedAsSuch(children[..i], ids[..i], name); }
  }

  lemma NamesDiffer(children: seq<ChildSpec>, ids: seq<CallId>, idByName: map<string, CallId>)
    requires |children| == |ids| && Distinct(ids)
    requires forall n :: n in idByName ==> IdOfName(children, ids, n) == Some(idByName[n])
    ensures OneNameEach(idByName)
  {
    forall a, b | a in idByName && b in idByName && idByName[a] == idByName[b] ensures a == b {
      var i := NamedAsSuch(children, ids, a);
      var j := NamedAsSuch(children, ids, b);
      assert i == j;
    }
  }

  /** The requests that handling the event at `at` publishes, in no particular order. */
  method RequestKills(needed: map<string, int>, idByName: map<string, CallId>, at: nat)
    returns (kills: seq<KillRequest>)
    ensures forall r :: r in kills <==>
      r.at == at && exists n :: n in needed && needed[n] < 1 && n in idByName && idByName[n] == r.opId
    ensures OneNameEach(idByName) ==> NoRepeats(kills)
  {
    kills := [];
    var todo := needed.Keys;
    while todo != {}
      invariant todo <= needed.Keys
      invariant forall r :: r in kills <==>
        r.at == at && exists n :: n in needed && n !in todo && needed[n] < 1 && n in idByName && idByName[n] == r.opId
      invariant OneNameEach(idByName) ==> NoRepeats(kills)
    {
      var n :| n in todo;
      if needed[n] < 1 && n in idByName {
        kills := kills + [KillRequest(at, idByName[n])];
      }
      todo := todo - {n};
    }
  }

  lemma {:induction false} ReleasedBy(children: seq<ChildSpec>, ids: seq<CallId>, e: Event, i: nat, name: string)
    requires |children| == |ids| && Distinct(ids) && i < |ids| && IsEndOf(e, ids[i])
    ensures NeedsReleased(children, ids, e, name) == Occurrences(children[i].needs, name)
  {
    var n := |ids| - 1;
    if i < n {
      assert ids[i] != ids[n];
      ReleasedBy(children[..n], ids[..n], e, i, name);
    }
  }

  lemma {:induction false} NothingReleased(children: seq<ChildSpec>, ids: seq<CallId>, e: Event, name: string)
    requires |children| == |ids| && !EndsChild(ids, e)
    ensures NeedsReleased(children, ids, e, name) == 0
  {
    if ids != [] {
      var n := |ids| - 1;
      assert ids[n] in ids;
      NothingReleased(children[..n], ids[..n], e, name);
    }
  }

  lemma {:induction false} OccurrencesWithinTotal(children: seq<ChildSpec>, i: nat, name: string)
    requires i < |children|
    ensures Occurrences(children[i].needs, name) <= TotalNeeds(children, name)
  {
    if i < |children| - 1 { OccurrencesWithinTotal(children[..|children| - 1], i, name); }
  }

  lemma {:induction false} EndedHasOutputs(stream: seq<Event>, id: CallId)
    ensures LastOutputs(stream, id).Some? <==> EndCount(stream, id) > 0
  {
    if stream != [] { EndedHasOutputs(stream[..|stream| - 1], id); }
  }

  lemma {:induction false} RangeSize(n: nat) returns (range: set<nat>)
    ensures forall i: nat :: i in range <==> i < n
    ensures |range| == n
  {
    range := {};
    if n > 0 {
      var below := RangeSize(n - 1);
      range := below + {n - 1};
    }
  }

  /** As many entries as there are children means an entry for every child. */
  lemma AllIndexed(m: map<nat, Scope>, n: nat)
    requires forall i :: i in m ==> i < n
    ensures |m| == n <==> forall i: nat :: i < n ==> i in m
  {
    var range := RangeSize(n);
    assert m.Keys <= range && |m.Keys| == |m|;
    if |m| == n { SubsetOfSameSize(m.Keys, range); }
    if forall i: nat :: i < n ==> i in m { assert m.Keys == range; }
  }

  lemma SubsetOfSameSize(a: set<nat>, b: set<nat>)
    requires a <= b && |a| == |b|
    ensures a == b
  {
    var rest := b - a;
    assert b == a + rest && |rest| == |b| - |a|;
  }

  /** The stream up to and including position `k`. */
  lemma PrefixStep(stream: seq<Event>, k: nat)
    requires k < |stream|
    ensures stream[..k + 1][..|stream[..k + 1]| - 1] == stream[..k]
    ensures stream[..k + 1][|stream[..k + 1]| - 1] == stream[k]
  {
  }

  lemma ErredStep(ids: seq<CallId>, stream: seq<Event>, k: nat)
    requires k < |stream|
    ensures Erred(ids, stream[..k + 1]) <==>
      Erred(ids, stream[..k]) || (EndsChild(ids, stream[k]) && stream[k].payload.error.Some?)
  {
    var before, after := stream[..k], stream[..k + 1];
    if Erred(ids, before) {
      var j :| 0 <= j < k && EndsChild(ids, before[j]) && before[j].payload.error.Some?;
      assert after[j] == before[j];
    }
    if Erred(ids, after) {
      var j :| 0 <= j < k + 1 && EndsChild(ids, after[j]) && after[j].payload.error.Some?;
      assert j < k ==> before[j] == after[j];
    }
    assert after[k] == stream[k];
  }

  /** What the call has gathered after the handling of `stream`. */
  ghost predicate Gathered(ids: seq<CallId>, stream: seq<Event>, outputsByIndex: map<nat, Scope>) {
    && (forall i :: i in outputsByIndex ==> i < |ids|)
    && (forall i: nat :: i < |ids| ==> (i in outputsByIndex <==> EndCount(stream, ids[i]) > 0))
    && (forall i :: i in outputsByIndex ==> LastOutputs(stream, ids[i]) == Some(outputsByIndex[i]))
  }

  lemma GatheredStep(ids: seq<CallId>, stream: seq<Event>, k: nat, before: map<nat, Scope>, after: map<nat, Scope>)
    requires k < |stream| && Distinct(ids) && Gathered(ids, stream[..k], before)
    requires !EndsChild(ids, stream[k]) ==> after == before
    requires EndsChild(ids, stream[k]) ==>
      exists i: nat :: i < |ids| && IsEndOf(stream[k], ids[i]) && after == before[i := stream[k].payload.outputs]
    ensures Gathered(ids, stream[..k + 1], after)
  {
    PrefixStep(stream, k);
    if !EndsChild(ids, stream[k]) {
      forall i | 0 <= i < |ids| ensures !IsEndOf(stream[k], ids[i]) { assert ids[i] in ids; }
    }
  }

  method Merge(ids: seq<CallId>, ghost stream: seq<Event>, outputsByIndex: map<nat, Scope>) returns (outputs: Scope)
    requires Gathered(ids, stream, outputsByIndex)
    ensures outputs == MergeOutputs(ids, stream, |ids|)
  {
    outputs := map[];
    for i := 0 to |ids|
      invariant outputs == MergeOutputs(ids, stream, i)
    {
      EndedHasOutputs(stream, ids[i]);
      if i in outputsByIndex {
        outputs := outputs + outputsByIndex[i];
      }
    }
  }

  /** What the event loop keeps: needs counters, outputs and the error flag of the children that ended. */
  datatype Books = Books(needed: map<string, int>, outputsByIndex: map<nat, Scope>, erred: bool)

  function IndexOf(ids: seq<CallId>, id: CallId): (i: nat)
    requires id in ids
    ensures i < |ids| && ids[i] == id
  {
    if ids[|ids| - 1] == id then |ids| - 1 else IndexOf(ids[..|ids| - 1], id)
  }

  /** The handling of one event. */
  function HandleEvent(children: seq<ChildSpec>, ids: seq<CallId>, books: Books, e: Event): Books
    requires |children| == |ids|
  {
    if !EndsChild(ids, e) then books
    else
      var index := IndexOf(ids, e.payload.call.id);
      Books(Released(books.needed, children[index].needs),
            books.outputsByIndex[index := e.payload.outputs],
            books.erred || e.payload.error.Some?)
  }

  function BooksAfter(children: seq<ChildSpec>, ids: seq<CallId>, stream: seq<Event>): Books
    requires |children| == |ids|
  {
    if stream == [] then Books(NeedsTable(children), map[], false)
    else HandleEvent(children, ids, BooksAfter(children, ids, stream[..|stream| - 1]), stream[|stream| - 1])
  }

  /** The counters are the declared ones, each child's outputs are those of its last end, and the error
      flag is set exactly if some child's end carried an error. */
  lemma {:induction false} BooksMean(children: seq<ChildSpec>, ids: seq<CallId>, stream: seq<Event>)
    requires |children| == |ids| && Distinct(ids)
    ensures var books := BooksAfter(children, ids, stream);
      && (forall n :: n in books.needed <==> TotalNeeds(children, n) > 0)
      && (forall n :: n in books.needed ==> books.needed[n] == Counter(children, ids, stream, n))
      && Gathered(ids, stream, books.outputsByIndex)
      && (books.erred <==> Erred(ids, stream))
  {
    var books := BooksAfter(children, ids, stream);
    if stream == [] {
      forall n ensures n in books.needed <==> TotalNeeds(children, n) > 0 { NeedsTableCounts(children, n); }
      forall n | n in books.needed ensures books.needed[n] == TotalNeeds(children, n) { NeedsTableCounts(children, n); }
    } else {
      var k := |stream| - 1;
      var e, before := stream[k], BooksAfter(children, ids, stream[..k]);
      BooksMean(children, ids, stream[..k]);
      assert stream[..k + 1] == stream;
      ErredStep(ids, stream, k);
      forall n | n in books.needed ensures books.needed[n] == Counter(children, ids, stream, n) {
        if EndsChild(ids, e) { ReleasedBy(children, ids, e, IndexOf(ids, e.payload.call.id), n); }
        else { NothingReleased(children, ids, e, n); }
      }
      GatheredStep(ids, stream, k, before.outputsByIndex, books.outputsByIndex);
    }
  }

  /** The requests that the end of a child at `k` publishes. */
  method RequestDue(ghost children: seq<ChildSpec>, ghost ids: seq<CallId>, ghost stream: seq<Event>, k: nat,
      left: map<string, int>, idByName: map<string, CallId>)
    returns (due: seq<KillRequest>)
    requires |children| == |ids| && Distinct(ids) && k < |stream| && EndsChild(ids, stream[k])
    requires left == BooksAfter(children, ids, stream[..k + 1]).needed
    requires forall n :: n in idByName <==> IdOfName(children, ids, n).Some?
    requires forall n :: n in idByName ==> IdOfName(children, ids, n) == Some(idByName[n])
    ensures forall r :: r in due <==> r.at == k && Requested(children, ids, stream, r)
    ensures NoRepeats(due)
  {
    NamesDiffer(children, ids, idByName);
    due := RequestKills(left, idByName, k);
    forall r ensures r in due <==> r.at == k && Requested(children, ids, stream, r) {
      if r in due {
        var n :| n in left && left[n] < 1 && n in idByName && idByName[n] == r.opId;
        DueMeans(children, ids, stream, r, n);
      }
      if r.at == k && Requested(children, ids, stream, r) {
        var n :| KillDue(children, ids, stream, r, n);
        DueMeans(children, ids, stream, r, n);
      }
    }
  }

  /** A request is due exactly for the name of a call whose counter has run out. */
  lemma DueMeans(children: seq<ChildSpec>, ids: seq<CallId>, stream: seq<Event>, r: KillRequest, n: string)
    requires |children| == |ids| && Distinct(ids) && r.at < |stream| && EndsChild(ids, stream[r.at])
    ensures var left := BooksAfter(children, ids, stream[..r.at + 1]).needed;
      KillDue(children, ids, stream, r, n) <==>
      n in left && left[n] < 1 && IdOfName(children, ids, n) == Some(r.opId)
  {
    BooksMean(children, ids, stream[..r.at + 1]);
  }

  lemma NeedsAreCounted(children: seq<ChildSpec>, ids: seq<CallId>, stream: seq<Event>, i: nat)
    requires |children| == |ids| && Distinct(ids) && i < |children|
    ensures forall n :: Occurrences(children[i].needs, n) > 0 ==> n in BooksAfter(children, ids, stream).needed
  {
    BooksMean(children, ids, stream);
    forall n ensures Occurrences(children[i].needs, n) <= TotalNeeds(children, n) {
      OccurrencesWithinTotal(children, i, n);
    }
  }

  lemma IndexIs(ids: seq<CallId>, id: CallId, i: nat)
    requires Distinct(ids) && i < |ids| && ids[i] == id
    ensures id in ids && IndexOf(ids, id) == i
  {
    assert id in ids && ids[IndexOf(ids, id)] == id;
  }

  /** What the end of the child at `index` does to the books. */
  lemma EndHandled(children: seq<ChildSpec>, ids: seq<CallId>, stream: seq<Event>, k: nat, index: nat)
    requires |children| == |ids| && Distinct(ids) && k < |stream| && index < |ids| && IsEndOf(stream[k], ids[index])
    ensures var (books, e) := (BooksAfter(children, ids, stream[..k]), stream[k]);
      BooksAfter(children, ids, stream[..k + 1]) ==
      Books(Released(books.needed, children[index].needs),
            books.outputsByIndex[index := e.payload.outputs], books.erred || e.payload.error.Some?)
  {
    PrefixStep(stream, k);
    IndexIs(ids, ids[index], index);
  }

  lemma OtherHandled(children: seq<ChildSpec>, ids: seq<CallId>, stream: seq<Event>, k: nat)
    requires |children| == |ids| && k < |stream| && !EndsChild(ids, stream[k])
    ensures BooksAfter(children, ids, stream[..k + 1]) == BooksAfter(children, ids, stream[..k])
  {
    PrefixStep(stream, k);
  }

  method Handle(children: seq<ChildSpec>, ids: seq<CallId>, stream: seq<Event>, k: nat, books: Books,
      indexById: map<CallId, nat>, idByName: map<string, CallId>)
    returns (after: Books, due: seq<KillRequest>)
    requires |children| == |ids| && Distinct(ids) && k < |stream|
    requires books == BooksAfter(children, ids, stream[..k]) && Indexed(children, ids, indexById, idByName)
    ensures after == BooksAfter(children, ids, stream[..k + 1])
    ensures forall r :: r in due <==> r.at == k && Requested(children, ids, stream, r)
    ensures NoRepeats(due)
  {
    var e := stream[k];
    if e.payload.CallEnded? && e.payload.call.id in indexById {
      var index := indexById[e.payload.call.id];
      EndHandled(children, ids, stream, k, index);
      NeedsAreCounted(children, ids, stream[..k], index);
      var left := Release(books.needed, children[index].needs);
      after := Books(left, books.outputsByIndex[index := e.payload.outputs], books.erred || e.payload.error.Some?);
      due := RequestDue(children, ids, stream, k, left, idByName);
    } else {
      OtherHandled(children, ids, stream, k);
      after, due := books, [];
    }
  }

  /** The test on the map sizes is the test that every child has ended. */
  lemma SizesTellTheEnd(children: seq<ChildSpec>, ids: seq<CallId>, stream: seq<Event>, k: nat)
    requires |children| == |ids| && Distinct(ids) && k < |stream| && Unfinished(ids, stream, k)
    ensures Unfinished(ids, stream, k + 1) <==>
      !(stream[k].payload.CallEnded? && |BooksAfter(children, ids, stream[..k + 1]).outputsByIndex| == |ids|)
  {
    BooksMean(children, ids, stream[..k + 1]);
    AllIndexed(BooksAfter(children, ids, stream[..k + 1]).outputsByIndex, |ids|);
    AllEndedMeans(ids, stream[..k + 1]);
  }

  lemma LaterRequests(kills: seq<KillRequest>, due: seq<KillRequest>, at: nat)
    requires NoRepeats(kills) && NoRepeats(due)
    requires (forall r :: r in kills ==> r.at < at) && forall r :: r in due ==> r.at == at
    ensures NoRepeats(kills + due)
  {
    forall i, j | 0 <= i < j < |kills + due| ensures (kills + due)[i] != (kills + due)[j] {
      if i < |kills| <= j {
        assert kills[i] in kills && due[j - |kills|] in due;
      }
    }
  }

  /** The event loop: reads until the finishing test holds or the channel closes. */
  method ReadEvents(children: seq<ChildSpec>, ids: seq<CallId>, stream: seq<Event>)
    returns (books: Books, kills: seq<KillRequest>, taken: nat, finished: bool)
    requires |children| == |ids| && Distinct(ids)
    ensures taken <= |stream| && books == BooksAfter(children, ids, stream[..taken])
    ensures forall r :: r in kills <==> r.at < taken && Requested(children, ids, stream, r)
    ensures finished <==> !Unfinished(ids, stream, taken)
    ensures if finished then taken > 0 && Unfinished(ids, stream, taken - 1) else taken == |stream|
    ensures NoRepeats(kills)
  {
    var needed := CountNeeds(children);
    var indexById, idByName := IndexChildren(children, ids);
    books, kills, taken, finished := Books(needed, map[], false), [], 0, false;
    assert stream[..0] == [];
    while taken < |stream| && !finished
      invariant taken <= |stream| && books == BooksAfter(children, ids, stream[..taken])
      invariant forall r :: r in kills <==> r.at < taken && Requested(children, ids, stream, r)
      invariant NoRepeats(kills)
      invariant finished <==> !Unfinished(ids, stream, taken)
      invariant finished ==> taken > 0 && Unfinished(ids, stream, taken - 1)
    {
      var due;
      books, due := Handle(children, ids, stream, taken, books, indexById, idByName);
      SizesTellTheEnd(children, ids, stream, taken);
      finished := stream[taken].payload.CallEnded? && |books.outputsByIndex| == |indexById|;
      LaterRequests(kills, due, taken);
      kills, taken := kills + due, taken + 1;
    }
  }

  /** The call. `taken` is how many events were read: all of them when the channel closes first. Every request that
      is due is published once for the event that makes it due. `cancelled` is whether the children were cancelled
      before the call returned, which always cancels them. */
  method Call(children: seq<ChildSpec>, ids: seq<CallId>, stream: seq<Event>)
    returns (result: Result<Scope>, kills: seq<KillRequest>, taken: nat, cancelled: bool)
    requires |children| == |ids| && Distinct(ids)
    ensures taken <= |stream|
    ensures Unfinished(ids, stream, taken) ==> taken == |stream| && result == Ok(map[])
    ensures !Unfinished(ids, stream, taken) ==>
      taken > 0 && Unfinished(ids, stream, taken - 1) && FinishesAt(ids, stream, taken - 1) &&
      result == ResultOf(ids, stream[..taken], Erred(ids, stream[..taken]))
    ensures forall r :: r in kills <==> r.at < taken && Requested(children, ids, stream, r)
    ensures NoRepeats(kills)
    ensures cancelled <==> Erred(ids, stream[..taken])
  {
    var books, requests, n, finished := ReadEvents(children, ids, stream);
    BooksMean(children, ids, stream[..n]);
    kills, taken, cancelled := requests, n, books.erred;
    if !finished {
      result := Ok(map[]);
    } else {
      var outputs := Merge(ids, stream[..taken], books.outputsByIndex);
      result := if books.erred then Err else Ok(outputs);
    }
  }

  /** If the channel closes after a child failed and before all have ended, the failure is not seen: the call above
      then returns no error. */
  lemma FailureUnseenWhenClosed(ids: seq<CallId>, e: Event)
    requires |ids| == 2 && Distinct(ids) && IsEndOf(e, ids[0]) && e.payload.error.Some?
    ensures Erred(ids, [e]) && Unfinished(ids, [e], 1)
  {
    assert [e][0] == e && ids[0] in ids && [e][..1] == [e] && [e][..0] == [];
    assert EndCount([], ids[1]) == 0 && EndCount([e], ids[1]) == 0;
    AllEndedMeans(ids, [e]);
    assert Unfinished(ids, [e], 0);
  }

  // ---------- needed calls and their needers ----------

  /** Needs for `name` of the children whose end has not been handled. */
  function Outstanding(children: seq<ChildSpec>, ids: seq<CallId>, stream: seq<Event>, name: string): nat
    requires |children| == |ids|
  {
    if ids == [] then 0
    else
      var n := |ids| - 1;
      Outstanding(children[..n], ids[..n], stream, name) +
      if EndCount(stream, ids[n]) == 0 then Occurrences(children[n].needs, name) else 0
  }

  /** Needs for `name` that were given back more than once, because an end was delivered more than once. */
  function Excess(children: seq<ChildSpec>, ids: seq<CallId>, stream: seq<Event>, name: string): nat
    requires |children| == |ids|
  {
    if ids == [] then 0
    else
      var n := |ids| - 1;
      Excess(children[..n], ids[..n], stream, name) +
      if EndCount(stream, ids[n]) == 0 then 0 else (EndCount(stream, ids[n]) - 1) * Occurrences(children[n].needs, name)
  }

  /** What one child's deliveries add to what is outstanding, less the excess. */
  function Share(delivered: nat, needs: nat): int {
    if delivered == 0 then needs else -((delivered - 1) * needs)
  }

  lemma OneMoreDelivery(delivered: nat, needs: nat)
    ensures Share(delivered + 1, needs) == Share(delivered, needs) - needs
  {
    if delivered > 0 { assert delivered * needs == (delivered - 1) * needs + needs; }
  }

  lemma {:induction false} HandlingOneEnd(children: seq<ChildSpec>, ids: seq<CallId>, stream: seq<Event>, k: nat, name: string)
    requires |children| == |ids| && Distinct(ids) && k < |stream|
    ensures Outstanding(children, ids, stream[..k + 1], name) - Excess(children, ids, stream[..k + 1], name)
      == Outstanding(children, ids, stream[..k], name) - Excess(children, ids, stream[..k], name)
        - NeedsReleased(children, ids, stream[k], name)
  {
    PrefixStep(stream, k);
    if ids != [] {
      var n := |ids| - 1;
      HandlingOneEnd(children[..n], ids[..n], stream, k, name);
      LastShare(children, ids, stream[..k], name);
      LastShare(children, ids, stream[..k + 1], name);
      if IsEndOf(stream[k], ids[n]) {
        NothingReleased(children[..n], ids[..n], stream[k], name);
        OneMoreDelivery(EndCount(stream[..k], ids[n]), Occurrences(children[n].needs, name));
      }
    }
  }

  lemma LastShare(children: seq<ChildSpec>, ids: seq<CallId>, stream: seq<Event>, name: string)
    requires |children| == |ids| > 0
    ensures var n := |ids| - 1;
      Outstanding(children, ids, stream, name) - Excess(children, ids, stream, name) ==
      Outstanding(children[..n], ids[..n], stream, name) - Excess(children[..n], ids[..n], stream, name)
        + Share(EndCount(stream, ids[n]), Occurrences(children[n].needs, name))
  {
  }

  /** For every stream, duplicates and unrelated events included: the counter is what is still needed, less
      what duplicated ends gave back too often. */
  lemma {:induction false} CounterIsOutstandingLessExcess(children: seq<ChildSpec>, ids: seq<CallId>,
      stream: seq<Event>, name: string)
    requires |children| == |ids| && Distinct(ids)
    ensures Counter(children, ids, stream, name)
      == Outstanding(children, ids, stream, name) - Excess(children, ids, stream, name)
  {
    if stream == [] {
      NothingHandledYet(children, ids, name);
    } else {
      var k := |stream| - 1;
      CounterIsOutstandingLessExcess(children, ids, stream[..k], name);
      HandlingOneEnd(children, ids, stream, k, name);
      assert stream[..k + 1] == stream;
    }
  }

  lemma {:induction false} NothingHandledYet(children: seq<ChildSpec>, ids: seq<CallId>, name: string)
    requires |children| == |ids|
    ensures Outstanding(children, ids, [], name) == TotalNeeds(children, name)
    ensures Excess(children, ids, [], name) == 0
  {
    if ids != [] { NothingHandledYet(children[..|ids| - 1], ids[..|ids| - 1], name); }
  }

  ghost predicate NeededBySomeone(children: seq<ChildSpec>, name: string) {
    exists i :: 0 <= i < |children| && Occurrences(children[i].needs, name) > 0
  }

  ghost predicate AllNeedersEnded(children: seq<ChildSpec>, ids: seq<CallId>, stream: seq<Event>, name: string)
    requires |children| == |ids|
  {
    forall i :: 0 <= i < |children| && Occurrences(children[i].needs, name) > 0 ==> EndCount(stream, ids[i]) > 0
  }

  /** Some child needs the call, and all who do have ended. */
  ghost predicate NoLongerNeeded(children: seq<ChildSpec>, ids: seq<CallId>, stream: seq<Event>, name: string)
    requires |children| == |ids|
  {
    NeededBySomeone(children, name) && AllNeedersEnded(children, ids, stream, name)
  }

  lemma {:induction false} TotalNeedsMeans(children: seq<ChildSpec>, name: string)
    ensures TotalNeeds(children, name) > 0 <==> NeededBySomeone(children, name)
  {
    if children != [] {
      var n := |children| - 1;
      TotalNeedsMeans(children[..n], name);
      OneMoreNeeder(children, name);
    }
  }

  lemma OneMoreNeeder(children: seq<ChildSpec>, name: string)
    requires children != []
    ensures NeededBySomeone(children, name) <==>
      NeededBySomeone(children[..|children| - 1], name) || Occurrences(children[|children| - 1].needs, name) > 0
  {
    var n := |children| - 1;
    if i :| 0 <= i < n && Occurrences(children[..n][i].needs, name) > 0 { assert children[..n][i] == children[i]; }
    if i :| 0 <= i < n && Occurrences(children[i].needs, name) > 0 { assert children[..n][i] == children[i]; }
  }

  lemma {:induction false} OutstandingMeans(children: seq<ChildSpec>, ids: seq<CallId>, stream: seq<Event>, name: string)
    requires |children| == |ids|
    ensures Outstanding(children, ids, stream, name) == 0 <==> AllNeedersEnded(children, ids, stream, name)
  {
    if ids != [] {
      var n := |ids| - 1;
      OutstandingMeans(children[..n], ids[..n], stream, name);
      forall i | 0 <= i < n ensures children[..n][i] == children[i] && ids[..n][i] == ids[i] { }
    }
  }

  ghost predicate OncePerChild(ids: seq<CallId>, stream: seq<Event>) {
    forall i :: 0 <= i < |ids| ==> EndCount(stream, ids[i]) <= 1
  }

  lemma {:induction false} NoExcess(children: seq<ChildSpec>, ids: seq<CallId>, stream: seq<Event>, name: string)
    requires |children| == |ids| && OncePerChild(ids, stream)
    ensures Excess(children, ids, stream, name) == 0
  {
    if ids != [] {
      var n := |ids| - 1;
      forall i | 0 <= i < n ensures ids[..n][i] == ids[i] { }
      NoExcess(children[..n], ids[..n], stream, name);
    }
  }

  /** When each end is handled once, a call is asked to be killed exactly when a child has just ended and
      the call is needed by someone, all of whom have ended. */
  lemma KilledWhenNoLongerNeeded(children: seq<ChildSpec>, ids: seq<CallId>, stream: seq<Event>, r: KillRequest)
    requires |children| == |ids| && Distinct(ids) && r.at < |stream|
    requires OncePerChild(ids, stream[..r.at + 1])
    ensures Requested(children, ids, stream, r) <==>
      EndsChild(ids, stream[r.at]) &&
      exists name :: IdOfName(children, ids, name) == Some(r.opId) && NoLongerNeeded(children, ids, stream[..r.at + 1], name)
  {
    if Requested(children, ids, stream, r) {
      var name :| KillDue(children, ids, stream, r, name);
      DueWhenNoLongerNeeded(children, ids, stream, r, name);
    }
    if name :| IdOfName(children, ids, name) == Some(r.opId) && NoLongerNeeded(children, ids, stream[..r.at + 1], name) {
      DueWhenNoLongerNeeded(children, ids, stream, r, name);
    }
  }

  lemma DueWhenNoLongerNeeded(children: seq<ChildSpec>, ids: seq<CallId>, stream: seq<Event>, r: KillRequest, name: string)
    requires |children| == |ids| && Distinct(ids) && r.at < |stream|
    requires OncePerChild(ids, stream[..r.at + 1])
    ensures KillDue(children, ids, stream, r, name) <==>
      EndsChild(ids, stream[r.at]) && IdOfName(children, ids, name) == Some(r.opId) &&
      NoLongerNeeded(children, ids, stream[..r.at + 1], name)
  {
    KillDueMeans(children, ids, stream, r, name);
    NoExcess(children, ids, stream[..r.at + 1], name);
    OutstandingMeans(children, ids, stream[..r.at + 1], name);
  }

  /** For every stream: the request is due exactly when what is outstanding is no more than the excess. So it
      comes too early exactly when the excess covers needs of children that are still running. */
  lemma KillDueMeans(children: seq<ChildSpec>, ids: seq<CallId>, stream: seq<Event>, r: KillRequest, name: string)
    requires |children| == |ids| && Distinct(ids) && r.at < |stream|
    ensures KillDue(children, ids, stream, r, name) <==>
      EndsChild(ids, stream[r.at]) && IdOfName(children, ids, name) == Some(r.opId) && NeededBySomeone(children, name) &&
      Outstanding(children, ids, stream[..r.at + 1], name) <= Excess(children, ids, stream[..r.at + 1], name)
  {
    CounterIsOutstandingLessExcess(children, ids, stream[..r.at + 1], name);
    TotalNeedsMeans(children, name);
  }

  // ---------- needs given as names ----------

  /** The names of the calls that each child needs, each written as a reference or bare. */
  ghost predicate Needing(children: seq<ChildSpec>, names: seq<seq<string>>) {
    |names| == |children| && forall i :: 0 <= i < |children| ==> WrittenAs(children[i].needs, names[i])
  }

  ghost predicate WrittenAs(needs: seq<string>, names: seq<string>) {
    |names| == |needs| && forall k :: 0 <= k < |needs| ==> RefersTo(needs[k], names[k])
  }

  function Flattened(names: seq<seq<string>>): seq<string> {
    if names == [] then [] else Flattened(names[..|names| - 1]) + names[|names| - 1]
  }

  lemma CountWithLast(names: seq<string>, name: string)
    requires names != []
    ensures var n := |names| - 1;
      multiset(names)[name] == multiset(names[..n])[name] + if names[n] == name then 1 else 0
  {
    var n := |names| - 1;
    assert names == names[..n] + [names[n]];
  }

  lemma {:induction false} OccurrencesOfName(needs: seq<string>, names: seq<string>, name: string)
    requires WrittenAs(needs, names)
    ensures Occurrences(needs, name) == multiset(names)[name]
  {
    if needs != [] {
      var n := |needs| - 1;
      var need, last, before := needs[n], names[n], names[..n];
      assert RefersTo(need, last);
      OccurrencesOfName(needs[..n], before, name);
      RefToNameOfRef(need, last);
      CountWithLast(names, name);
    }
  }

  /** A name is in the table exactly if some child needs it, and its counter is how often it is needed in all. */
  lemma {:induction false} NeedsAreCountedByName(children: seq<ChildSpec>, names: seq<seq<string>>, name: string)
    requires Needing(children, names)
    ensures TotalNeeds(children, name) == multiset(Flattened(names))[name]
    ensures name in NeedsTable(children) <==> name in Flattened(names)
    ensures name in NeedsTable(children) ==> NeedsTable(children)[name] == multiset(Flattened(names))[name]
  {
    NeedsTableCounts(children, name);
    if children != [] {
      var n := |children| - 1;
      NeedsAreCountedByName(children[..n], names[..n], name);
      OccurrencesOfName(children[n].needs, names[n], name);
    }
  }

  /** The name is that of the call with this ID: of the last child that has it. */
  ghost predicate StandsFor(children: seq<ChildSpec>, ids: seq<CallId>, name: string, id: CallId)
    requires |children| == |ids|
  {
    exists i: nat :: LastNamed(children, name, i) && ids[i] == id
  }

  ghost predicate LastNamed(children: seq<ChildSpec>, name: string, i: nat) {
    && i < |children| && children[i].name == Some(name)
    && forall j :: i < j < |children| ==> children[j].name != Some(name)
  }

  lemma {:induction false} NameIsOfLast(children: seq<ChildSpec>, ids: seq<CallId>, name: string, id: CallId)
    requires |children| == |ids|
    ensures IdOfName(children, ids, name) == Some(id) <==> StandsFor(children, ids, name, id)
  {
    if children != [] {
      var n := |children| - 1;
      NameIsOfLast(children[..n], ids[..n], name, id);
      if children[n].name == Some(name) {
        assert LastNamed(children, name, n);
      } else {
        forall i: nat ensures LastNamed(children, name, i) <==> LastNamed(children[..n], name, i) { }
        if i: nat :| LastNamed(children, name, i) && ids[i] == id { assert LastNamed(children[..n], name, i); }
        if i: nat :| LastNamed(children[..n], name, i) && ids[i] == id { assert LastNamed(children, name, i); }
      }
    }
  }

  /** Some child needs the call of this name, and the ends of all who do are among these events. */
  ghost predicate AllWhoNeedItEnded(names: seq<seq<string>>, ids: seq<CallId>, stream: seq<Event>, name: string)
    requires |names| == |ids|
  {
    && (exists j :: 0 <= j < |names| && name in names[j])
    && forall j :: 0 <= j < |names| && name in names[j] ==> EndCount(stream, ids[j]) > 0
  }

  lemma NoLongerNeededByName(children: seq<ChildSpec>, names: seq<seq<string>>, ids: seq<CallId>, stream: seq<Event>,
      name: string)
    requires |children| == |ids| && Needing(children, names)
    ensures NoLongerNeeded(children, ids, stream, name) <==> AllWhoNeedItEnded(names, ids, stream, name)
  {
    forall j | 0 <= j < |children| ensures Occurrences(children[j].needs, name) > 0 <==> name in names[j] {
      OccurrencesOfName(children[j].needs, names[j], name);
    }
    if NeededBySomeone(children, name) {
      var j :| 0 <= j < |children| && Occurrences(children[j].needs, name) > 0;
      assert name in names[j];
    }
  }

  lemma DueByName(children: seq<ChildSpec>, names: seq<seq<string>>, ids: seq<CallId>, stream: seq<Event>, r: KillRequest,
      name: string)
    requires |children| == |ids| && Distinct(ids) && r.at < |stream| && Needing(children, names)
    requires OncePerChild(ids, stream[..r.at + 1])
    ensures KillDue(children, ids, stream, r, name) <==>
      && EndsChild(ids, stream[r.at]) && StandsFor(children, ids, name, r.opId)
      && AllWhoNeedItEnded(names, ids, stream[..r.at + 1], name)
  {
    DueWhenNoLongerNeeded(children, ids, stream, r, name);
    NameIsOfLast(children, ids, name, r.opId);
    NoLongerNeededByName(children, names, ids, stream[..r.at + 1], name);
  }

  /** So with each end handled once, the kill of a call is requested exactly if a child has just ended, and all the
      children that need the call by a name which stands for it have ended, one at least. */
  lemma KilledWhenAllWhoNeedItEnded(children: seq<ChildSpec>, names: seq<seq<string>>, ids: seq<CallId>,
      stream: seq<Event>, r: KillRequest)
    requires |children| == |ids| && Distinct(ids) && r.at < |stream| && Needing(children, names)
    requires OncePerChild(ids, stream[..r.at + 1])
    ensures Requested(children, ids, stream, r) <==>
      EndsChild(ids, stream[r.at]) &&
      exists name :: StandsFor(children, ids, name, r.opId) && AllWhoNeedItEnded(names, ids, stream[..r.at + 1], name)
  {
    if name :| KillDue(children, ids, stream, r, name) {
      DueByName(children, names, ids, stream, r, name);
    }
    if name :| StandsFor(children, ids, name, r.opId) && AllWhoNeedItEnded(names, ids, stream[..r.at + 1], name) {
      DueByName(children, names, ids, stream, r, name);
    }
  }

  // ---------- the result ----------

  /** The last end that was delivered counts. */
  lemma {:induction false} LastOutputsAre(stream: seq<Event>, id: CallId, k: nat)
    requires k < |stream| && IsEndOf(stream[k], id) && forall j :: k < j < |stream| ==> !IsEndOf(stream[j], id)
    ensures LastOutputs(stream, id) == Some(stream[k].payload.outputs)
  {
    if k < |stream| - 1 { LastOutputsAre(stream[..|stream| - 1], id, k); }
  }

  /** Every delivered end of a child is the one event in `ends` that this child's call published. */
  ghost predicate EndsAgree(ids: seq<CallId>, stream: seq<Event>, ends: seq<Event>)
    requires |ends| == |ids|
  {
    forall k, i :: 0 <= k < |stream| && 0 <= i < |ids| && IsEndOf(stream[k], ids[i]) ==> stream[k] == ends[i]
  }

  ghost predicate AreEnds(ids: seq<CallId>, ends: seq<Event>) {
    |ends| == |ids| && forall i :: 0 <= i < |ids| ==> IsEndOf(ends[i], ids[i])
  }

  /** The outputs of all the children, later children over earlier ones. */
  function InChildOrder(ends: seq<Event>): Scope
    requires forall e :: e in ends ==> e.payload.CallEnded?
  {
    if ends == [] then map[] else InChildOrder(ends[..|ends| - 1]) + ends[|ends| - 1].payload.outputs
  }

  ghost function Expected(ids: seq<CallId>, ends: seq<Event>): Result<Scope>
    requires AreEnds(ids, ends)
  {
    if exists i :: 0 <= i < |ids| && ends[i].payload.error.Some? then Err else Ok(InChildOrder(ends))
  }

  /** A variable has the value that the last child with an output of that name gave it. */
  lemma {:induction false} LaterChildrenWin(ends: seq<Event>, i: nat, v: string)
    requires forall e :: e in ends ==> e.payload.CallEnded?
    requires i < |ends| && v in ends[i].payload.outputs
    requires forall j :: i < j < |ends| ==> v !in ends[j].payload.outputs
    ensures v in InChildOrder(ends) && InChildOrder(ends)[v] == ends[i].payload.outputs[v]
  {
    if i < |ends| - 1 { LaterChildrenWin(ends[..|ends| - 1], i, v); }
  }

  /** And a variable that no child outputs has none. */
  lemma {:induction false} OnlyOutputsAppear(ends: seq<Event>, v: string)
    requires forall e :: e in ends ==> e.payload.CallEnded?
    ensures v in InChildOrder(ends) <==> exists i :: 0 <= i < |ends| && v in ends[i].payload.outputs
  {
    if ends != [] {
      var n := |ends| - 1;
      OnlyOutputsAppear(ends[..n], v);
      if i :| 0 <= i < n && v in ends[..n][i].payload.outputs { assert v in ends[i].payload.outputs; }
      if i :| 0 <= i < n && v in ends[i].payload.outputs { assert v in ends[..n][i].payload.outputs; }
    }
  }

  lemma {:induction false} SomeEndDelivered(stream: seq<Event>, id: CallId) returns (k: nat)
    requires EndCount(stream, id) > 0
    ensures k < |stream| && IsEndOf(stream[k], id)
    ensures LastOutputs(stream, id) == Some(stream[k].payload.outputs)
  {
    var n := |stream| - 1;
    if IsEndOf(stream[n], id) { k := n; } else { k := SomeEndDelivered(stream[..n], id); }
  }

  lemma {:induction false} MergeFollowsChildOrder(ids: seq<CallId>, stream: seq<Event>, ends: seq<Event>, n: nat)
    requires AreEnds(ids, ends) && EndsAgree(ids, stream, ends) && AllEnded(ids, stream) && n <= |ids|
    ensures MergeOutputs(ids, stream, n) == InChildOrder(ends[..n])
  {
    if n > 0 {
      MergeFollowsChildOrder(ids, stream, ends, n - 1);
      AllEndedMeans(ids, stream);
      var k := SomeEndDelivered(stream, ids[n - 1]);
      assert ends[..n][..n - 1] == ends[..n - 1];
    }
  }

  lemma ErredMeans(ids: seq<CallId>, stream: seq<Event>, ends: seq<Event>)
    requires AreEnds(ids, ends) && EndsAgree(ids, stream, ends) && AllEnded(ids, stream)
    ensures Erred(ids, stream) <==> exists i :: 0 <= i < |ids| && ends[i].payload.error.Some?
  {
    if Erred(ids, stream) {
      var k :| 0 <= k < |stream| && EndsChild(ids, stream[k]) && stream[k].payload.error.Some?;
      var i :| 0 <= i < |ids| && ids[i] == stream[k].payload.call.id;
      assert IsEndOf(stream[k], ids[i]);
    }
    if i :| 0 <= i < |ids| && ends[i].payload.error.Some? {
      AllEndedMeans(ids, stream);
      var k := SomeEndDelivered(stream, ids[i]);
      assert ids[i] in ids;
    }
  }

  /** Whatever the order of arrival, and whatever arrives twice or besides: the outcome of a finished call
      is decided by the children's ends alone. */
  lemma OrderDoesNotMatter(ids: seq<CallId>, stream: seq<Event>, ends: seq<Event>)
    requires AreEnds(ids, ends) && EndsAgree(ids, stream, ends) && AllEnded(ids, stream)
    ensures ResultOf(ids, stream, Erred(ids, stream)) == Expected(ids, ends)
  {
    MergeFollowsChildOrder(ids, stream, ends, |ids|);
    ErredMeans(ids, stream, ends);
    assert ends[..|ids|] == ends;
  }

  lemma {:induction false} FinishesOnceAllEnded(ids: seq<CallId>, stream: seq<Event>, n: nat)
    requires ids != [] && n <= |stream| && AllEnded(ids, stream[..n])
    ensures !Unfinished(ids, stream, n)
  {
    AllEndedMeans(ids, stream[..n]);
    if n > 0 && !stream[n - 1].payload.CallEnded? {
      PrefixStep(stream, n - 1);
      forall i | 0 <= i < |ids| ensures EndCount(stream[..n - 1], ids[i]) > 0 {
        assert EndCount(stream[..n], ids[i]) > 0;
      }
      AllEndedMeans(ids, stream[..n - 1]);
      FinishesOnceAllEnded(ids, stream, n - 1);
    }
  }

  /** With no children the size of two empty maps is compared: the call waits for the end of any call at all. */
  lemma {:induction false} NoChildrenWaitForAnyEnd(stream: seq<Event>, n: nat)
    requires n <= |stream|
    ensures Unfinished([], stream, n) <==> forall k :: 0 <= k < n ==> !stream[k].payload.CallEnded?
  {
    if n > 0 { NoChildrenWaitForAnyEnd(stream, n - 1); }
  }
}
