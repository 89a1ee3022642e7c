/** A whole call tree in flight: calls learn about each other only from events. */
module CallTree {
  import opened Text
  import opened Values
  import opened Events

  /** The root call is [], and the k-th call that p launches is p + [k]: IDs are fresh. */
  type Path = seq<nat>

  function Launcher(p: Path): Path
    requires p != []
  {
    p[..|p| - 1]
  }

  function Place(p: Path): nat
    requires p != []
  {
    p[|p| - 1]
  }

  datatype Spec =
    | Missing
    | Invalid
    | Container
    | Op(body: Spec)
    | Serial(calls: seq<Spec>)
    | Parallel(calls: seq<Spec>)
    | SerialLoop(body: Spec)
    | ParallelLoop(body: Spec)
  {
    predicate Concurrent() {
      Parallel? || ParallelLoop?
    }

    predicate Sequential() {
      Serial? || SerialLoop?
    }

    predicate MayLaunch(k: nat) {
      (Op? && k == 0) || ((Serial? || Parallel?) && k < |calls|) || SerialLoop? || ParallelLoop?
    }

    function Child(k: nat): Spec {
      match this
      case Op(body) => body
      case Serial(calls) => if k < |calls| then calls[k] else Missing
      case Parallel(calls) => if k < |calls| then calls[k] else Missing
      case SerialLoop(body) => body
      case ParallelLoop(body) => body
      case _ => Missing
    }
  }

  /** Why a call returns, or what panicked so that it does not. */
  datatype Reason =
    | NoSpec
    | NotInterpretable
    | SkippedByIf
    | LaunchFailed
    | BodyFailed
    | BodyDone
    | InterpretPanicked
    | BodyPanicked
  {
    predicate IsError() {
      NotInterpretable? || LaunchFailed? || BodyFailed?
    }

    predicate Panicked() {
      InterpretPanicked? || BodyPanicked?
    }

    predicate Began() {
      LaunchFailed? || BodyFailed? || BodyDone? || BodyPanicked?
    }

    /** Whether the body saw to it that what it launched has ended. */
    predicate Waited(spec: Spec) {
      BodyFailed? || BodyDone? || (BodyPanicked? && !spec.Concurrent())
    }

    /** Launching failed, or the code that launches panicked. */
    predicate CutShort(spec: Spec) {
      LaunchFailed? || (BodyPanicked? && spec.Concurrent())
    }
  }

  datatype Stage =
    | Entered
    | Noop
    | Running(heard: set<nat>, erred: bool, listening: bool)
    | Returning(reason: Reason)
    | Ended(reason: Reason, outcome: Outcome)
  {
    predicate HasBegun() {
      Running? || (Returning? && reason.Began()) || (Ended? && reason.Began())
    }

    predicate HasReturned() {
      Noop? || Ended?
    }
  }

  /** `killed`: its kill was requested and seen; `group`: the context its children share was cancelled. */
  datatype CallState = CallState(spec: Spec, stage: Stage, killed: bool, group: bool, launched: nat)

  datatype Published = Start(p: Path) | End(p: Path, outcome: Outcome)

  datatype State = State(root: Spec, rootDone: bool, calls: map<Path, CallState>, log: seq<Published>)

  // ---------- contexts ----------

  /** Whether the context that p was called with is done. */
  predicate CtxDone(s: State, p: Path)
    decreases |p|, 0
  {
    if p == [] then s.rootDone
    else
      var l := Launcher(p);
      OwnDone(s, l) || (l in s.calls && s.calls[l].spec.Concurrent() && s.calls[l].group)
  }

  /** Whether p's own context is done: it was killed, it ended, or the context above it is done. */
  predicate OwnDone(s: State, p: Path)
    decreases |p|, 1
  {
    p in s.calls && (s.calls[p].killed || s.calls[p].stage.Ended? || CtxDone(s, p))
  }

  // ---------- steps ----------

  datatype Interpreted = Fails | Skips | Goes

  /** What a call does next. */
  datatype Step =
    | Launch
    | LaunchFails
    | StopLaunching
    | Enter
    | Interpret(result: Interpreted)
    | Kill
    | Hear(k: nat, outcome: Outcome)
    | HearOther(other: Path, outcome: Outcome)
    | GiveUp
    | Return(failed: bool)
    | Panic
    | Recover(k: nat)                       // the goroutine of child k recovers from its panic
    | Finish

  datatype Action = CancelRoot | Take(p: Path, step: Step)

  predicate AllHeard(launched: nat, heard: set<nat>) {
    forall k :: 0 <= k < launched ==> k in heard
  }

  /** A sequential caller's last child, which it called synchronously. */
  predicate LastReturned(s: State, p: Path)
    requires p in s.calls
  {
    var c := s.calls[p];
    c.launched > 0 && p + [c.launched - 1] in s.calls && s.calls[p + [c.launched - 1]].stage.HasReturned()
  }

  /** Whether the body has what it waits for before it returns. */
  predicate MayReturn(s: State, p: Path, failed: bool, c: CallState)
    requires p in s.calls && c == s.calls[p] && c.stage.Running?
  {
    && !c.spec.Concurrent() && !c.spec.Missing? && !c.spec.Invalid?
    && (c.spec.Op? ==> LastReturned(s, p) && (LastFailed(s, p) ==> failed))
    && (c.spec.Sequential() ==> AllHeard(c.launched, c.stage.heard))
    && (c.spec.Serial? ==> failed || c.launched == |c.spec.calls|)
  }

  /** The call that a sequential caller made synchronously has panicked, and so does the caller. */
  predicate LastPanicked(s: State, p: Path)
    requires p in s.calls
  {
    LastReturned(s, p) && s.calls[p + [s.calls[p].launched - 1]].stage.Ended? &&
    s.calls[p + [s.calls[p].launched - 1]].stage.reason.Panicked()
  }

  predicate LastFailed(s: State, p: Path)
    requires p in s.calls && LastReturned(s, p)
  {
    var child := s.calls[p + [s.calls[p].launched - 1]];
    child.stage.Ended? && child.stage.reason.IsError()
  }

  predicate MayEnter(s: State, p: Path) {
    p !in s.calls && (p == [] || (Launcher(p) in s.calls && Place(p) < s.calls[Launcher(p)].launched))
  }

  /** What the body of a composite call waits for. */
  predicate BodyEnabled(s: State, p: Path, step: Step, c: CallState)
    requires p in s.calls && c == s.calls[p] && c.stage.Running?
  {
    && (step.Launch? ==>
          c.spec.MayLaunch(c.launched) && if c.spec.Concurrent() then !c.stage.listening else AllHeard(c.launched, c.stage.heard))
    && (step.LaunchFails? ==> c.spec.Concurrent() && !c.stage.listening && c.spec.MayLaunch(c.launched))
    && (step.StopLaunching? ==>
          c.spec.Concurrent() && !c.stage.listening && (c.spec.Parallel? ==> c.launched == |c.spec.calls|))
    && (step.Hear? ==>
          step.k < c.launched && End(p + [step.k], step.outcome) in s.log &&
          if c.spec.Concurrent() then c.stage.listening
          else c.spec.Sequential() && step.k == c.launched - 1 && step.k !in c.stage.heard)
    && (step.HearOther? ==>
          c.spec.Concurrent() && c.stage.listening && c.launched == 0 && End(step.other, step.outcome) in s.log)
    && (step.GiveUp? ==>
          OwnDone(s, p) && if c.spec.Concurrent() then c.stage.listening else c.spec.Sequential() && LastReturned(s, p))
    && (step.Return? ==> MayReturn(s, p, step.failed, c))
    && (step.Panic? ==> if c.spec.Concurrent() then !c.stage.listening else c.launched > 0 ==> LastReturned(s, p))
    && (step.Recover? ==>
          c.spec.Concurrent() && step.k < c.launched && p + [step.k] in s.calls &&
          s.calls[p + [step.k]].stage.Ended? && s.calls[p + [step.k]].stage.reason.Panicked())
    && (!c.spec.Concurrent() && LastPanicked(s, p) ==> step.Panic?)
  }

  predicate CallMay(s: State, p: Path, step: Step, c: CallState)
    requires p in s.calls && c == s.calls[p]
  {
    if step.Interpret? then c.stage.Entered?
    else if step.Panic? && c.stage.Entered? then !c.spec.Missing?
    else if step.Finish? then c.stage.Returning?
    else if step.Kill? then c.stage.HasBegun() && !c.stage.Ended?
    else c.stage.Running? && BodyEnabled(s, p, step, c)
  }

  predicate Enabled(s: State, a: Action) {
    a.Take? ==> if a.step.Enter? then MayEnter(s, a.p) else a.p in s.calls && CallMay(s, a.p, a.step, s.calls[a.p])
  }

  function Enters(s: State, p: Path): CallState {
    var spec := if p == [] || Launcher(p) !in s.calls then s.root else s.calls[Launcher(p)].spec.Child(Place(p));
    CallState(spec, if CtxDone(s, p) then Noop else Entered, false, false, 0)
  }

  function Begins(spec: Spec, result: Interpreted): Stage {
    if spec.Missing? then Returning(NoSpec)
    else if spec.Invalid? && result != Skips then Returning(NotInterpretable)
    else match result
      case Fails => Returning(NotInterpretable)
      case Skips => Returning(SkippedByIf)
      case Goes => Running({}, false, false)
  }

  /** What hearing the end of child k does. */
  function Hears(c: CallState, k: nat, outcome: Outcome): CallState
    requires c.stage.Running?
  {
    var heard, erred := c.stage.heard + {k}, c.stage.erred || outcome == Failed;
    if !c.spec.Concurrent() then c.(stage := if outcome == Failed then Returning(BodyFailed) else c.stage.(heard := heard))
    else if AllHeard(c.launched, heard) then c.(stage := Returning(if erred then BodyFailed else BodyDone), group := true)
    else c.(stage := Running(heard, erred, true), group := c.group || outcome == Failed)
  }

  /** The published outcome. */
  function OutcomeOf(interrupted: bool, reason: Reason): Outcome {
    if interrupted then Killed else if reason.IsError() then Failed else Succeeded
  }

  function Advance(s: State, p: Path, step: Step, c: CallState): CallState
    requires Enabled(s, Take(p, step)) && !step.Enter? && c == s.calls[p]
  {
    match step
    case Launch => c.(launched := c.launched + 1)
    case LaunchFails => c.(stage := Returning(LaunchFailed), group := true)
    case StopLaunching =>
      if c.spec.ParallelLoop? && c.launched == 0 then c.(stage := Returning(BodyDone), group := true)
      else c.(stage := c.stage.(listening := true))
    case Interpret(result) => c.(stage := Begins(c.spec, result))
    case Kill => c.(killed := true)
    case Hear(k, outcome) => Hears(c, k, outcome)
    case HearOther(_, _) => c.(stage := Returning(BodyDone), group := true)
    case GiveUp =>
      if c.spec.Concurrent() then c.(stage := Returning(BodyDone), group := true)
      else c.(stage := c.stage.(heard := c.stage.heard + {c.launched - 1}))
    case Return(failed) => c.(stage := Returning(if failed then BodyFailed else BodyDone))
    case Panic =>
      if c.stage.Entered? then c.(stage := Returning(InterpretPanicked))
      else c.(stage := Returning(BodyPanicked), group := c.group || c.spec.Concurrent())
    case Recover(_) => c.(group := true)
    case Finish => c.(stage := Ended(c.stage.reason, OutcomeOf(c.killed || CtxDone(s, p), c.stage.reason)))
    case _ => c
  }

  /** What a step publishes. */
  function Publishes(s: State, p: Path, step: Step): seq<Published>
    requires Enabled(s, Take(p, step))
  {
    if step.Interpret? then if Begins(s.calls[p].spec, step.result).Running? then [Start(p)] else []
    else if step.Finish? then [End(p, OutcomeOf(s.calls[p].killed || CtxDone(s, p), s.calls[p].stage.reason))]
    else []
  }

  function Apply(s: State, a: Action): State
    requires Enabled(s, a)
  {
    match a
    case CancelRoot => s.(rootDone := true)
    case Take(p, step) =>
      if step.Enter? then s.(calls := s.calls[p := Enters(s, p)])
      else s.(calls := s.calls[p := Advance(s, p, step, s.calls[p])], log := s.log + Publishes(s, p, step))
  }

  function Init(root: Spec): State {
    State(root, false, map[], [])
  }

  ghost predicate IsRun(s: State, actions: seq<Action>)
    decreases |actions|
  {
    actions == [] || (Enabled(s, actions[0]) && IsRun(Apply(s, actions[0]), actions[1..]))
  }

  ghost function Run(s: State, actions: seq<Action>): State
    requires IsRun(s, actions)
    decreases |actions|
  {
    if actions == [] then s else Run(Apply(s, actions[0]), actions[1..])
  }

  // ---------- reading the log ----------

  function Starts(log: seq<Published>, p: Path): nat {
    if log == [] then 0 else Starts(log[..|log| - 1], p) + if log[|log| - 1] == Start(p) then 1 else 0
  }

  function Ends(log: seq<Published>, p: Path): nat {
    if log == [] then 0
    else Ends(log[..|log| - 1], p) + if log[|log| - 1].End? && log[|log| - 1].p == p then 1 else 0
  }

  /** What was published before p's first end. */
  function Before(log: seq<Published>, p: Path): seq<Published> {
    if log == [] then []
    else if Ends(log[..|log| - 1], p) > 0 then Before(log[..|log| - 1], p)
    else log[..|log| - 1]
  }

  lemma Appended(log: seq<Published>, e: Published, p: Path)
    ensures Starts(log + [e], p) == Starts(log, p) + if e == Start(p) then 1 else 0
    ensures Ends(log + [e], p) == Ends(log, p) + if e.End? && e.p == p then 1 else 0
    ensures Before(log + [e], p) == if Ends(log, p) > 0 then Before(log, p) else log
  {
    assert (log + [e])[..|log|] == log;
  }

  lemma {:induction false} EndIsThere(log: seq<Published>, p: Path, outcome: Outcome)
    requires End(p, outcome) in log
    ensures Ends(log, p) > 0
  {
    var n := |log| - 1;
    if log[n] != End(p, outcome) {
      assert log == log[..n] + [log[n]];
      EndIsThere(log[..n], p, outcome);
    }
  }

  // ---------- what every run keeps ----------

  ghost predicate ChildrenEnded(log: seq<Published>, p: Path, launched: nat) {
    forall k :: 0 <= k < launched ==> Ends(log, p + [k]) == 1
  }

  /** What is known of a running or returning body. */
  ghost predicate BodyKnows(s: State, p: Path, c: CallState) {
    match c.stage
    case Running(heard, _, listening) =>
      && (forall k :: k in heard ==> k < c.launched && (Ends(s.log, p + [k]) == 1 || OwnDone(s, p)))
      && (c.spec.Sequential() ==> forall k :: 0 <= k < c.launched - 1 ==> k in heard)
      && (c.launched > 0 ==> c.spec.MayLaunch(c.launched - 1))
      && (c.spec.Concurrent() ==> if listening then c.launched > 0 ==> !AllHeard(c.launched, heard) else heard == {})
    case Returning(reason) =>
      reason.Waited(c.spec) ==> ChildrenEnded(s.log, p, c.launched) || OwnDone(s, p)
    case Ended(reason, outcome) =>
      && Starts(Before(s.log, p), p) == Starts(s.log, p)
      && End(p, outcome) in s.log
      && (outcome != Killed ==> outcome == if reason.IsError() then Failed else Succeeded)
      && (reason.Waited(c.spec) && outcome != Killed ==> ChildrenEnded(Before(s.log, p), p, c.launched))
    case _ => true
  }

  ghost predicate Fine(s: State, p: Path) {
    if p !in s.calls then Starts(s.log, p) == 0 && Ends(s.log, p) == 0
    else
      var c := s.calls[p];
      && Starts(s.log, p) == (if c.stage.HasBegun() then 1 else 0)
      && Ends(s.log, p) == (if c.stage.Ended? then 1 else 0)
      && (c.stage.Noop? ==> CtxDone(s, p))
      && (c.launched > 0 ==> c.stage.HasBegun())
      && (p != [] ==> Launcher(p) in s.calls && Place(p) < s.calls[Launcher(p)].launched)
      && BodyKnows(s, p, c)
  }

  ghost predicate Inv(s: State) {
    forall p :: Fine(s, p)
  }

  /** Contexts only ever become done, and calls only move forward. */
  ghost predicate Grows(s: State, t: State) {
    && (s.rootDone ==> t.rootDone)
    && forall p :: p in s.calls ==> p in t.calls && Older(s.calls[p], t.calls[p])
  }

  predicate Older(c: CallState, d: CallState) {
    && c.spec == d.spec && c.launched <= d.launched
    && (c.killed ==> d.killed) && (c.group ==> d.group)
    && (c.stage.HasReturned() ==> d == c) && (c.stage.HasBegun() ==> d.stage.HasBegun())
  }

  lemma AdvanceIsYounger(s: State, p: Path, step: Step, c: CallState)
    requires Enabled(s, Take(p, step)) && !step.Enter? && c == s.calls[p]
    ensures Older(c, Advance(s, p, step, c))
  {
  }

  lemma StepGrows(s: State, a: Action)
    requires Enabled(s, a)
    ensures Grows(s, Apply(s, a))
  {
    if a.Take? && !a.step.Enter? {
      AdvanceIsYounger(s, a.p, a.step, s.calls[a.p]);
      assert Apply(s, a).calls == s.calls[a.p := Advance(s, a.p, a.step, s.calls[a.p])];
    }
  }

  lemma {:induction false} DoneStaysDone(s: State, t: State, p: Path)
    requires Grows(s, t)
    ensures CtxDone(s, p) ==> CtxDone(t, p)
    ensures OwnDone(s, p) ==> OwnDone(t, p)
    decreases |p|
  {
    if p != [] { DoneStaysDone(s, t, Launcher(p)); }
  }

  /** A call that does not move keeps what is known of it, whatever the others publish. */
  lemma StandsStill(s: State, t: State, q: Path, published: seq<Published>)
    requires Fine(s, q) && Grows(s, t) && t.log == s.log + published && |published| <= 1
    requires published != [] ==> published[0].p != q && (published[0].End? ==> Ends(s.log, published[0].p) == 0)
    requires q in s.calls <==> q in t.calls
    requires q in s.calls ==> t.calls[q] == s.calls[q]
    ensures Fine(t, q)
  {
    DoneStaysDone(s, t, q);
    if published == [] {
      assert t.log == s.log;
    } else {
      Appended(s.log, published[0], q);
      assert t.log == s.log + [published[0]];
      if q in s.calls { ChildrenStay(s, t, q, s.calls[q], published[0]); }
    }
  }

  lemma ChildrenStay(s: State, t: State, q: Path, c: CallState, e: Published)
    requires BodyKnows(s, q, c) && t.log == s.log + [e] && e.p != q
    requires e.End? ==> Ends(s.log, e.p) == 0
    requires Starts(s.log, q) == (if c.stage.HasBegun() then 1 else 0)
    requires Ends(s.log, q) == if c.stage.Ended? then 1 else 0
    requires OwnDone(s, q) ==> OwnDone(t, q)
    ensures BodyKnows(t, q, c)
  {
    Appended(s.log, e, q);
    forall k: nat ensures Ends(s.log, q + [k]) == 1 ==> Ends(t.log, q + [k]) == 1 {
      Appended(s.log, e, q + [k]);
    }
  }

  lemma EnterIsFine(s: State, p: Path)
    requires Inv(s) && Enabled(s, Take(p, Enter))
    ensures Fine(Apply(s, Take(p, Enter)), p)
  {
    var t := Apply(s, Take(p, Enter));
    StepGrows(s, Take(p, Enter));
    assert Fine(s, p);
    DoneStaysDone(s, t, p);
  }

  lemma InterpretIsFine(s: State, p: Path, result: Interpreted)
    requires Inv(s) && Enabled(s, Take(p, Interpret(result)))
    ensures Fine(Apply(s, Take(p, Interpret(result))), p)
  {
    var t, c := Apply(s, Take(p, Interpret(result))), s.calls[p];
    assert Fine(s, p);
    StepGrows(s, Take(p, Interpret(result)));
    assert c.launched == 0 && t.calls[p] == c.(stage := Begins(c.spec, result));
    if Begins(c.spec, result).Running? {
      assert t.log == s.log + [Start(p)];
      Appended(s.log, Start(p), p);
    } else {
      assert t.log == s.log + [] == s.log;
    }
  }

  lemma FinishIsFine(s: State, p: Path)
    requires Inv(s) && Enabled(s, Take(p, Finish))
    ensures Fine(Apply(s, Take(p, Finish)), p)
  {
    var t, c := Apply(s, Take(p, Finish)), s.calls[p];
    assert Fine(s, p);
    var e := Publishes(s, p, Finish)[0];
    assert t.log == s.log + [e];
    Appended(s.log, e, p);
    EndIsKnown(s, t, p, c, e.outcome);
  }

  lemma EndIsKnown(s: State, t: State, p: Path, c: CallState, outcome: Outcome)
    requires BodyKnows(s, p, c) && c.stage.Returning? && t.log == s.log + [End(p, outcome)] && Ends(s.log, p) == 0
    requires outcome == OutcomeOf(c.killed || CtxDone(s, p), c.stage.reason) && p in s.calls && s.calls[p] == c
    ensures BodyKnows(t, p, c.(stage := Ended(c.stage.reason, outcome)))
  {
    Appended(s.log, End(p, outcome), p);
    assert t.log[|s.log|] == End(p, outcome);
  }

  /** What a child tells its launcher by having returned. */
  lemma ReturnedChild(s: State, p: Path, k: nat)
    requires Inv(s) && p in s.calls && !s.calls[p].spec.Concurrent()
    requires p + [k] in s.calls && s.calls[p + [k]].stage.HasReturned()
    ensures Ends(s.log, p + [k]) == 1 || OwnDone(s, p)
  {
    assert Fine(s, p + [k]);
    assert Launcher(p + [k]) == p;
  }

  lemma HeardChild(s: State, p: Path, k: nat, outcome: Outcome)
    requires Inv(s) && End(p + [k], outcome) in s.log
    ensures Ends(s.log, p + [k]) == 1
  {
    EndIsThere(s.log, p + [k], outcome);
    assert Fine(s, p + [k]);
  }

  lemma HearIsFine(s: State, p: Path, k: nat, outcome: Outcome)
    requires Inv(s) && Enabled(s, Take(p, Hear(k, outcome)))
    ensures Fine(Apply(s, Take(p, Hear(k, outcome))), p)
  {
    var t, c := Apply(s, Take(p, Hear(k, outcome))), s.calls[p];
    assert t.log == s.log;
    assert Fine(s, p);
    StepGrows(s, Take(p, Hear(k, outcome)));
    DoneStaysDone(s, t, p);
    HeardChild(s, p, k, outcome);
    HearKnows(s, t, p, c, k, outcome);
  }

  lemma HearKnows(s: State, t: State, p: Path, c: CallState, k: nat, outcome: Outcome)
    requires BodyKnows(s, p, c) && c.stage.Running? && t.log == s.log && (OwnDone(s, p) ==> OwnDone(t, p))
    requires k < c.launched && Ends(s.log, p + [k]) == 1
    requires c.spec.Concurrent() || (c.spec.Sequential() && k == c.launched - 1)
    ensures BodyKnows(t, p, Hears(c, k, outcome))
  {
    var heard := c.stage.heard + {k};
    assert forall j :: j in heard ==> j < c.launched && (Ends(t.log, p + [j]) == 1 || OwnDone(t, p));
  }

  /** When a body that waited for all its children returns, they have ended, or its context is done. */
  lemma ReturnIsFine(s: State, p: Path, failed: bool)
    requires Inv(s) && Enabled(s, Take(p, Return(failed)))
    ensures Fine(Apply(s, Take(p, Return(failed))), p)
  {
    var t, c := Apply(s, Take(p, Return(failed))), s.calls[p];
    assert t.log == s.log + [] == s.log;
    assert Fine(s, p);
    StepGrows(s, Take(p, Return(failed)));
    DoneStaysDone(s, t, p);
    if c.spec.Op? { ReturnedChild(s, p, c.launched - 1); }
    if !OwnDone(s, p) {
      forall k | 0 <= k < c.launched ensures Ends(s.log, p + [k]) == 1 {
        if c.spec.Op? { assert k == c.launched - 1; } else { assert k in c.stage.heard; }
      }
      assert ChildrenEnded(t.log, p, c.launched);
    }
  }

  lemma GiveUpIsFine(s: State, p: Path)
    requires Inv(s) && Enabled(s, Take(p, GiveUp))
    ensures Fine(Apply(s, Take(p, GiveUp)), p)
  {
    var t, c := Apply(s, Take(p, GiveUp)), s.calls[p];
    assert t.log == s.log + [] == s.log;
    assert Fine(s, p) && OwnDone(s, p);
    StepGrows(s, Take(p, GiveUp));
    DoneStaysDone(s, t, p);
  }

  /** A panic comes when no call that was made synchronously is left: it has returned, or unwinds with its caller. */
  lemma PanicIsFine(s: State, p: Path)
    requires Inv(s) && Enabled(s, Take(p, Panic))
    ensures Fine(Apply(s, Take(p, Panic)), p)
  {
    var t, c := Apply(s, Take(p, Panic)), s.calls[p];
    assert t.log == s.log + [] == s.log;
    assert Fine(s, p);
    StepGrows(s, Take(p, Panic));
    DoneStaysDone(s, t, p);
    if c.stage.Running? && !c.spec.Concurrent() && c.launched > 0 {
      ReturnedChild(s, p, c.launched - 1);
      if !OwnDone(s, p) {
        forall k | 0 <= k < c.launched ensures Ends(s.log, p + [k]) == 1 {
          if k < c.launched - 1 { assert c.spec.Sequential() && k in c.stage.heard; }
        }
      }
    }
  }

  lemma BodyIsFine(s: State, p: Path, step: Step)
    requires Inv(s) && Enabled(s, Take(p, step)) && !step.Enter? && !step.Interpret? && !step.Finish? && !step.Hear?
    requires !step.Return? && !step.GiveUp? && !step.Panic?
    ensures Fine(Apply(s, Take(p, step)), p)
  {
    var t, c := Apply(s, Take(p, step)), s.calls[p];
    assert t.log == s.log + [] == s.log;
    assert Fine(s, p);
    StepGrows(s, Take(p, step));
    DoneStaysDone(s, t, p);
    if step.StopLaunching? { assert 0 !in c.stage.heard; }
  }

  lemma MovedIsFine(s: State, p: Path, step: Step)
    requires Inv(s) && Enabled(s, Take(p, step))
    ensures Fine(Apply(s, Take(p, step)), p)
  {
    match step
    case Enter => EnterIsFine(s, p);
    case Interpret(result) => InterpretIsFine(s, p, result);
    case Finish => FinishIsFine(s, p);
    case Hear(k, outcome) => HearIsFine(s, p, k, outcome);
    case Return(failed) => ReturnIsFine(s, p, failed);
    case GiveUp => GiveUpIsFine(s, p);
    case Panic => PanicIsFine(s, p);
    case _ => BodyIsFine(s, p, step);
  }

  lemma StepKeepsInv(s: State, a: Action)
    requires Inv(s) && Enabled(s, a)
    ensures Inv(Apply(s, a))
  {
    var t := Apply(s, a);
    StepGrows(s, a);
    var published := if a.CancelRoot? then [] else Publishes(s, a.p, a.step);
    assert t.log == s.log + published;
    forall q ensures Fine(t, q) {
      assert Fine(s, q);
      if a.CancelRoot? || q != a.p {
        if a.Take? && a.step.Finish? { assert Fine(s, a.p); }
        StandsStill(s, t, q, published);
      } else {
        MovedIsFine(s, a.p, a.step);
      }
    }
  }

  /** Whatever the interleaving, the kills and the cancellations. */
  lemma {:induction false} EveryRunKeepsInv(s: State, actions: seq<Action>)
    requires Inv(s) && IsRun(s, actions)
    ensures Inv(Run(s, actions))
    decreases |actions|
  {
    if actions != [] {
      StepKeepsInv(s, actions[0]);
      EveryRunKeepsInv(Apply(s, actions[0]), actions[1..]);
    }
  }

  // ---------- what a log says ----------

  /** What was published about p. */
  function About(log: seq<Published>, p: Path): seq<Published> {
    if log == [] then []
    else
      var before, e := About(log[..|log| - 1], p), log[|log| - 1];
      if e.p == p then before + [e] else before
  }

  function Journal(p: Path, reason: Reason, outcome: Outcome): seq<Published> {
    if reason.Began() then [Start(p), End(p, outcome)] else [End(p, outcome)]
  }

  function StoryOf(p: Path, stage: Stage): seq<Published> {
    if stage.Ended? then Journal(p, stage.reason, stage.outcome)
    else if stage.HasBegun() then [Start(p)]
    else []
  }

  function Story(s: State, p: Path): seq<Published> {
    if p in s.calls then StoryOf(p, s.calls[p].stage) else []
  }

  lemma AboutAppended(log: seq<Published>, e: Published, p: Path)
    ensures About(log + [e], p) == if e.p == p then About(log, p) + [e] else About(log, p)
  {
    assert (log + [e])[..|log|] == log;
  }

  lemma StepTellsStory(s: State, a: Action, p: Path)
    requires Enabled(s, a) && About(s.log, p) == Story(s, p)
    ensures About(Apply(s, a).log, p) == Story(Apply(s, a), p)
  {
    if a.Take? && a.step.Finish? {
      FinishTells(s, a.p, p);
    } else if a.Take? && a.step.Interpret? {
      InterpretTells(s, a.p, a.step.result, p);
    } else {
      StepPublishesNothing(s, a, p);
    }
  }

  /** A call moves to another stage and publishes what that stage's story has more. */
  lemma MovingTells(s: State, t: State, q: Path, stage: Stage, published: seq<Published>, p: Path)
    requires q in s.calls && t.calls == s.calls[q := s.calls[q].(stage := stage)] && t.log == s.log + published
    requires published == [] || (|published| == 1 && published[0].p == q)
    requires StoryOf(q, stage) == StoryOf(q, s.calls[q].stage) + published
    requires About(s.log, p) == Story(s, p)
    ensures About(t.log, p) == Story(t, p)
  {
    assert Story(t, p) == if p == q then Story(s, p) + published else Story(s, p);
    if published == [] {
      assert t.log == s.log;
    } else {
      AboutAppended(s.log, published[0], p);
      assert t.log == s.log + [published[0]];
    }
  }

  lemma FinishTells(s: State, q: Path, p: Path)
    requires Enabled(s, Take(q, Finish)) && About(s.log, p) == Story(s, p)
    ensures About(Apply(s, Take(q, Finish)).log, p) == Story(Apply(s, Take(q, Finish)), p)
  {
    var c := s.calls[q];
    var outcome := OutcomeOf(c.killed || CtxDone(s, q), c.stage.reason);
    MovingTells(s, Apply(s, Take(q, Finish)), q, Ended(c.stage.reason, outcome), [End(q, outcome)], p);
  }

  lemma InterpretTells(s: State, q: Path, result: Interpreted, p: Path)
    requires Enabled(s, Take(q, Interpret(result))) && About(s.log, p) == Story(s, p)
    ensures About(Apply(s, Take(q, Interpret(result))).log, p) == Story(Apply(s, Take(q, Interpret(result))), p)
  {
    var stage := Begins(s.calls[q].spec, result);
    MovingTells(s, Apply(s, Take(q, Interpret(result))), q, stage, if stage.Running? then [Start(q)] else [], p);
  }

  lemma StepPublishesNothing(s: State, a: Action, p: Path)
    requires Enabled(s, a) && (a.Take? ==> !a.step.Finish? && !a.step.Interpret?)
    ensures Apply(s, a).log == s.log && Story(Apply(s, a), p) == Story(s, p)
  {
    StepGrows(s, a);
  }

  /** After any run, all that was published about a call: nothing if it found its context done; if it returned,
      one end, and before that one start exactly if it was interpreted and not skipped. */
  lemma {:induction false} EventDiscipline(s: State, actions: seq<Action>, p: Path)
    requires IsRun(s, actions) && About(s.log, p) == Story(s, p)
    ensures About(Run(s, actions).log, p) == Story(Run(s, actions), p)
    decreases |actions|
  {
    if actions != [] {
      StepTellsStory(s, actions[0], p);
      EventDiscipline(Apply(s, actions[0]), actions[1..], p);
    }
  }

  /** A call that ended with its own context not done ended after every call it launched, unless launching
      itself failed or panicked. */
  lemma ChildrenEndFirst(root: Spec, actions: seq<Action>, p: Path, k: nat)
    requires IsRun(Init(root), actions)
    ensures var s := Run(Init(root), actions);
      p in s.calls && s.calls[p].stage.Ended? && s.calls[p].stage.outcome != Killed && !s.calls[p].stage.reason.CutShort(s.calls[p].spec)
      && (k < s.calls[p].launched || p + [k] in s.calls)
      ==> Ends(Before(s.log, p), p + [k]) == 1
  {
    assert Inv(Init(root));
    EveryRunKeepsInv(Init(root), actions);
    var s := Run(Init(root), actions);
    assert Fine(s, p) && Fine(s, p + [k]);
    assert Launcher(p + [k]) == p;
  }

  /** Whether the calls from p down to the launcher of d all ended undisturbed. */
  ghost predicate Undisturbed(s: State, p: Path, d: Path) {
    forall n :: |p| <= n < |d| ==>
      var q := d[..n];
      && q in s.calls && s.calls[q].stage.Ended?
      && s.calls[q].stage.outcome != Killed && !s.calls[q].stage.reason.CutShort(s.calls[q].spec)
  }

  lemma {:induction false} BeforeNests(log: seq<Published>, p: Path, c: Path, d: Path)
    requires Ends(Before(log, p), c) > 0
    ensures Ends(Before(log, p), d) >= Ends(Before(log, c), d)
    ensures Ends(log, d) >= Ends(Before(log, p), d)
  {
    if log != [] {
      var n := |log| - 1;
      if Ends(log[..n], p) > 0 {
        BeforeNests(log[..n], p, c, d);
        BeforeIsPart(log[..n], p, c);
      } else {
        BeforeIsPart(log[..n], c, d);
      }
    }
  }

  lemma {:induction false} BeforeIsPart(log: seq<Published>, p: Path, d: Path)
    ensures Ends(Before(log, p), d) <= Ends(log, d)
  {
    if log != [] { BeforeIsPart(log[..|log| - 1], p, d); }
  }

  /** So an undisturbed call ended after everything below it, at any depth. */
  lemma {:induction false} SubtreeEndsFirst(s: State, p: Path, d: Path)
    requires Inv(s) && d in s.calls && |p| < |d| && d[..|p|] == p && Undisturbed(s, p, d)
    ensures Ends(Before(s.log, p), d) == 1
    decreases |d| - |p|
  {
    var c := d[..|p| + 1];
    assert c == p + [c[|p|]] && Launcher(c) == p && d[..|p|] in s.calls;
    assert Fine(s, p) && Fine(s, d);
    if c == d {
      assert Fine(s, c);
    } else {
      assert c in s.calls;
      assert Fine(s, c);
      SubtreeEndsFirst(s, c, d);
      BeforeNests(s.log, p, c, d);
    }
  }

  // ---------- what the children tell ----------

  ghost predicate ChildFailed(log: seq<Published>, p: Path, k: nat) {
    End(p + [k], Failed) in log
  }

  ghost predicate SomeFailed(log: seq<Published>, p: Path, launched: nat) {
    exists k: nat :: k < launched && ChildFailed(log, p, k)
  }

  /** A body that returned is what its children published: one that runs them at once failed exactly if one of them did;
      any other goes no further than the first that failed. */
  ghost predicate ChildrenTell(log: seq<Published>, p: Path, c: CallState, reason: Reason) {
    reason.BodyDone? || reason.BodyFailed? ==>
      if c.spec.Concurrent() then c.launched > 0 ==> (reason.BodyFailed? <==> SomeFailed(log, p, c.launched))
      else forall k: nat :: k < c.launched && ChildFailed(log, p, k) ==> reason.BodyFailed? && c.launched == k + 1
  }

  /** And it has launched all its children, unless it is sequential and failed. */
  ghost predicate AllLaunched(c: CallState, reason: Reason) {
    && (reason.LaunchFailed? ==> c.spec.Concurrent())
    && (c.spec.Parallel? && (reason.BodyDone? || reason.BodyFailed?) ==> c.launched == |c.spec.calls|)
    && (c.spec.Serial? && reason.BodyDone? ==> c.launched == |c.spec.calls|)
  }

  ghost predicate Tells(s: State, p: Path, c: CallState) {
    && (c.launched > 0 ==> c.spec.MayLaunch(c.launched - 1))
    && match c.stage
       case Running(heard, erred, listening) =>
         && (c.spec.Concurrent() ==> HeardTells(s.log, p, heard, erred) && (erred ==> c.group))
         && (c.spec.Parallel? && listening ==> c.launched == |c.spec.calls|)
         && (c.spec.Sequential() ==> OwnDone(s, p) || forall k: nat :: k in heard ==> !ChildFailed(s.log, p, k))
       case Returning(reason) => AllLaunched(c, reason) && (OwnDone(s, p) || ChildrenTell(s.log, p, c, reason))
       case Ended(reason, outcome) =>
         && AllLaunched(c, reason) && (outcome == Killed || ChildrenTell(s.log, p, c, reason))
         && (c.killed ==> outcome == Killed) && (outcome == Killed ==> c.killed || CtxDone(s, p))
       case _ => true
  }

  /** The error flag is set exactly if one of the ends that were heard is a failure. */
  ghost predicate HeardTells(log: seq<Published>, p: Path, heard: set<nat>, erred: bool) {
    && (erred <==> exists k :: k in heard && ChildFailed(log, p, k))
    && (forall k :: k in heard ==> Ends(log, p + [k]) > 0)
  }

  /** A call ends with one outcome. */
  lemma {:induction false} OneOutcome(log: seq<Published>, p: Path, a: Outcome, b: Outcome)
    requires Ends(log, p) <= 1 && End(p, a) in log && End(p, b) in log
    ensures a == b
  {
    var n := |log| - 1;
    assert log == log[..n] + [log[n]];
    if log[n].End? && log[n].p == p {
      if End(p, a) in log[..n] { EndIsThere(log[..n], p, a); }
      if End(p, b) in log[..n] { EndIsThere(log[..n], p, b); }
    } else {
      OneOutcome(log[..n], p, a, b);
    }
  }

  /** What was published of a child that ended stays what is published of it. */
  lemma FailureStays(log: seq<Published>, published: seq<Published>, p: Path, k: nat)
    requires |published| <= 1 && (published != [] && published[0].End? ==> Ends(log, published[0].p) == 0)
    requires Ends(log, p + [k]) > 0
    ensures ChildFailed(log + published, p, k) <==> ChildFailed(log, p, k)
    ensures Ends(log + published, p + [k]) > 0
  {
    if published == [] { assert log + published == log; } else {
      assert log + published == log + [published[0]];
      Appended(log, published[0], p + [k]);
    }
  }

  lemma ChildrenStillTell(log: seq<Published>, published: seq<Published>, p: Path, c: CallState, reason: Reason)
    requires |published| <= 1 && (published != [] && published[0].End? ==> Ends(log, published[0].p) == 0)
    requires ChildrenTell(log, p, c, reason) && forall k: nat :: k < c.launched ==> Ends(log, p + [k]) > 0
    ensures ChildrenTell(log + published, p, c, reason)
  {
    forall k: nat | k < c.launched ensures ChildFailed(log + published, p, k) <==> ChildFailed(log, p, k) {
      FailureStays(log, published, p, k);
    }
    if SomeFailed(log, p, c.launched) {
      var k: nat :| k < c.launched && ChildFailed(log, p, k);
      assert ChildFailed(log + published, p, k);
    }
  }

  lemma HeardStillTells(log: seq<Published>, published: seq<Published>, p: Path, heard: set<nat>, erred: bool)
    requires |published| <= 1 && (published != [] && published[0].End? ==> Ends(log, published[0].p) == 0)
    requires HeardTells(log, p, heard, erred)
    ensures HeardTells(log + published, p, heard, erred)
  {
    forall k: nat | k in heard
      ensures ChildFailed(log + published, p, k) <==> ChildFailed(log, p, k)
      ensures Ends(log + published, p + [k]) > 0
    {
      FailureStays(log, published, p, k);
    }
    if k :| k in heard && ChildFailed(log, p, k) { assert ChildFailed(log + published, p, k); }
  }

  /** A call that does not move. */
  lemma StillTells(s: State, t: State, q: Path, published: seq<Published>)
    requires Fine(s, q) && q in s.calls && Tells(s, q, s.calls[q]) && Grows(s, t) && t.log == s.log + published
    requires |published| <= 1 && (published != [] && published[0].End? ==> Ends(s.log, published[0].p) == 0)
    requires q in t.calls && t.calls[q] == s.calls[q]
    ensures Tells(t, q, t.calls[q])
  {
    var c := s.calls[q];
    DoneStaysDone(s, t, q);
    match c.stage
    case Running(heard, erred, _) =>
      if c.spec.Concurrent() { HeardStillTells(s.log, published, q, heard, erred); }
      if c.spec.Sequential() && !OwnDone(t, q) {
        forall k: nat | k in heard ensures !ChildFailed(t.log, q, k) { FailureStays(s.log, published, q, k); }
      }
    case Returning(reason) =>
      if !OwnDone(t, q) && (reason.BodyDone? || reason.BodyFailed?) { ChildrenStillTell(s.log, published, q, c, reason); }
    case Ended(reason, outcome) =>
      if outcome != Killed && (reason.BodyDone? || reason.BodyFailed?) {
        forall k: nat | k < c.launched ensures Ends(s.log, q + [k]) > 0 { BeforeIsPart(s.log, q, q + [k]); }
        ChildrenStillTell(s.log, published, q, c, reason);
      }
    case _ =>
  }

  /** An end that was heard is the one that the child published. */
  lemma HeardIsPublished(s: State, p: Path, k: nat, outcome: Outcome)
    requires Inv(s) && End(p + [k], outcome) in s.log
    ensures ChildFailed(s.log, p, k) <==> outcome == Failed
    ensures Ends(s.log, p + [k]) > 0
  {
    EndIsThere(s.log, p + [k], outcome);
    assert Fine(s, p + [k]);
    if ChildFailed(s.log, p, k) { OneOutcome(s.log, p + [k], outcome, Failed); }
  }

  lemma OneMoreHeard(log: seq<Published>, p: Path, heard: set<nat>, erred: bool, k: nat, failed: bool)
    requires HeardTells(log, p, heard, erred) && Ends(log, p + [k]) > 0 && (ChildFailed(log, p, k) <==> failed)
    ensures HeardTells(log, p, heard + {k}, erred || failed)
  {
    if j :| j in heard && ChildFailed(log, p, j) { assert j in heard + {k}; }
    if failed { assert k in heard + {k} && ChildFailed(log, p, k); }
  }

  lemma AllHeardTells(log: seq<Published>, p: Path, launched: nat, heard: set<nat>, erred: bool)
    requires HeardTells(log, p, heard, erred) && AllHeard(launched, heard) && forall k :: k in heard ==> k < launched
    ensures erred <==> SomeFailed(log, p, launched)
  {
    if erred {
      var k :| k in heard && ChildFailed(log, p, k);
      assert k < launched && ChildFailed(log, p, k);
    }
    if SomeFailed(log, p, launched) {
      var k: nat :| k < launched && ChildFailed(log, p, k);
      assert k in heard;
    }
  }

  lemma HearingAllTells(s: State, t: State, p: Path, c: CallState, k: nat, outcome: Outcome)
    requires c.stage.Running? && c.spec.Concurrent() && Tells(s, p, c) && t.log == s.log
    requires Ends(s.log, p + [k]) > 0 && (ChildFailed(s.log, p, k) <==> outcome == Failed)
    requires c.stage.listening && k < c.launched && forall j :: j in c.stage.heard ==> j < c.launched
    ensures Tells(t, p, Hears(c, k, outcome))
  {
    var heard, erred := c.stage.heard + {k}, c.stage.erred || outcome == Failed;
    OneMoreHeard(s.log, p, c.stage.heard, c.stage.erred, k, outcome == Failed);
    if AllHeard(c.launched, heard) { AllHeardTells(s.log, p, c.launched, heard, erred); }
  }

  lemma HearingLastTells(s: State, t: State, p: Path, c: CallState, k: nat, outcome: Outcome)
    requires c.stage.Running? && c.spec.Sequential() && Tells(s, p, c) && t.log == s.log && (OwnDone(s, p) ==> OwnDone(t, p))
    requires (ChildFailed(s.log, p, k) <==> outcome == Failed) && k == c.launched - 1
    requires forall j: nat :: j < c.launched - 1 ==> j in c.stage.heard
    ensures Tells(t, p, Hears(c, k, outcome))
  {
  }

  lemma HearTells(s: State, p: Path, k: nat, outcome: Outcome)
    requires Inv(s) && Enabled(s, Take(p, Hear(k, outcome))) && Tells(s, p, s.calls[p])
    ensures var t := Apply(s, Take(p, Hear(k, outcome))); Tells(t, p, t.calls[p])
  {
    var t, c := Apply(s, Take(p, Hear(k, outcome))), s.calls[p];
    assert t.log == s.log + [] == s.log;
    assert Fine(s, p);
    HeardIsPublished(s, p, k, outcome);
    if c.spec.Concurrent() {
      HearingAllTells(s, t, p, c, k, outcome);
    } else {
      StepGrows(s, Take(p, Hear(k, outcome)));
      DoneStaysDone(s, t, p);
      HearingLastTells(s, t, p, c, k, outcome);
    }
  }

  /** The call that was made synchronously tells its caller of its failure. */
  lemma LastTells(s: State, p: Path, k: nat)
    requires Inv(s) && p in s.calls && LastReturned(s, p) && k == s.calls[p].launched - 1 && ChildFailed(s.log, p, k)
    ensures LastFailed(s, p)
  {
    var q := p + [k];
    EndIsThere(s.log, q, Failed);
    assert Fine(s, q);
    OneOutcome(s.log, q, s.calls[q].stage.outcome, Failed);
  }

  lemma ReturnTells(s: State, p: Path, failed: bool)
    requires Inv(s) && Enabled(s, Take(p, Return(failed))) && Tells(s, p, s.calls[p])
    ensures var t := Apply(s, Take(p, Return(failed))); Tells(t, p, t.calls[p])
  {
    var t, c := Apply(s, Take(p, Return(failed))), s.calls[p];
    assert t.log == s.log + [] == s.log;
    assert Fine(s, p);
    StepGrows(s, Take(p, Return(failed)));
    DoneStaysDone(s, t, p);
    if c.spec.Op? {
      if ChildFailed(s.log, p, c.launched - 1) { LastTells(s, p, c.launched - 1); }
    } else {
      assert forall k: nat :: c.spec.Sequential() && k < c.launched ==> k in c.stage.heard;
    }
  }

  lemma FinishTellsOn(s: State, p: Path)
    requires Inv(s) && Enabled(s, Take(p, Finish)) && Tells(s, p, s.calls[p])
    ensures var t := Apply(s, Take(p, Finish)); Tells(t, p, t.calls[p])
  {
    var t, c := Apply(s, Take(p, Finish)), s.calls[p];
    var e := Publishes(s, p, Finish);
    assert Fine(s, p) && t.log == s.log + e;
    StepGrows(s, Take(p, Finish));
    DoneStaysDone(s, t, p);
    if !OwnDone(s, p) && (c.stage.reason.BodyDone? || c.stage.reason.BodyFailed?) {
      ChildrenStillTell(s.log, e, p, c, c.stage.reason);
    }
  }

  lemma NewStepTells(s: State, p: Path, step: Step)
    requires Inv(s) && Enabled(s, Take(p, step)) && (step.Enter? || step.Interpret?)
    requires p in s.calls ==> Tells(s, p, s.calls[p])
    ensures var t := Apply(s, Take(p, step)); p in t.calls && Tells(t, p, t.calls[p])
  {
    assert Fine(s, p);
  }

  /** A step after which the body goes on as before. */
  lemma StayingStepTells(s: State, p: Path, step: Step)
    requires Inv(s) && Enabled(s, Take(p, step)) && (step.Launch? || step.Kill? || step.Recover?) && Tells(s, p, s.calls[p])
    ensures var t := Apply(s, Take(p, step)); p in t.calls && Tells(t, p, t.calls[p])
  {
    var t := Apply(s, Take(p, step));
    assert t.log == s.log + [] == s.log;
    StepGrows(s, Take(p, step));
    DoneStaysDone(s, t, p);
  }

  /** A step with which launching or listening ends. */
  lemma EndingStepTells(s: State, p: Path, step: Step)
    requires step.LaunchFails? || step.StopLaunching? || step.GiveUp? || step.HearOther? || step.Panic?
    requires Inv(s) && Enabled(s, Take(p, step)) && Tells(s, p, s.calls[p])
    ensures var t := Apply(s, Take(p, step)); p in t.calls && Tells(t, p, t.calls[p])
  {
    var t := Apply(s, Take(p, step));
    assert t.log == s.log + [] == s.log;
    assert Fine(s, p);
    StepGrows(s, Take(p, step));
    DoneStaysDone(s, t, p);
  }

  ghost predicate AllTell(s: State) {
    forall p :: p in s.calls ==> Tells(s, p, s.calls[p])
  }

  lemma MoverTells(s: State, p: Path, step: Step)
    requires Inv(s) && Enabled(s, Take(p, step)) && (p in s.calls ==> Tells(s, p, s.calls[p]))
    ensures var t := Apply(s, Take(p, step)); p in t.calls && Tells(t, p, t.calls[p])
  {
    match step
    case Hear(k, outcome) => HearTells(s, p, k, outcome);
    case Return(failed) => ReturnTells(s, p, failed);
    case Finish => FinishTellsOn(s, p);
    case _ =>
      if step.Enter? || step.Interpret? { NewStepTells(s, p, step); }
      else if step.Launch? || step.Kill? || step.Recover? { StayingStepTells(s, p, step); }
      else { EndingStepTells(s, p, step); }
  }

  lemma BystanderTells(s: State, a: Action, q: Path)
    requires Inv(s) && Enabled(s, a) && (a.Take? ==> a.p != q) && q in s.calls && Tells(s, q, s.calls[q])
    ensures var t := Apply(s, a); q in t.calls && Tells(t, q, t.calls[q])
  {
    var t := Apply(s, a);
    var published := if a.CancelRoot? then [] else Publishes(s, a.p, a.step);
    assert t.log == s.log + published;
    StepGrows(s, a);
    assert Fine(s, q);
    if a.Take? && a.step.Finish? { assert Fine(s, a.p); }
    StillTells(s, t, q, published);
  }

  lemma StepKeepsTelling(s: State, a: Action)
    requires Inv(s) && AllTell(s) && Enabled(s, a)
    ensures AllTell(Apply(s, a))
  {
    forall q | q in Apply(s, a).calls ensures Tells(Apply(s, a), q, Apply(s, a).calls[q]) {
      if a.Take? && q == a.p { MoverTells(s, q, a.step); } else { BystanderTells(s, a, q); }
    }
  }

  lemma {:induction false} EveryRunTells(s: State, actions: seq<Action>)
    requires Inv(s) && AllTell(s) && IsRun(s, actions)
    ensures AllTell(Run(s, actions))
    decreases |actions|
  {
    if actions != [] {
      StepKeepsInv(s, actions[0]);
      StepKeepsTelling(s, actions[0]);
      EveryRunTells(Apply(s, actions[0]), actions[1..]);
    }
  }

  lemma {:induction false} BeforeHasEnd(log: seq<Published>, p: Path, q: Path, outcome: Outcome)
    requires Ends(log, q) <= 1 && Ends(Before(log, p), q) > 0 && End(q, outcome) in log
    ensures End(q, outcome) in Before(log, p)
  {
    var n := |log| - 1;
    assert log == log[..n] + [log[n]];
    if Ends(log[..n], p) > 0 {
      BeforeIsPart(log[..n], p, q);
      if log[n] != End(q, outcome) { BeforeHasEnd(log[..n], p, q, outcome); }
    }
  }

  lemma {:induction false} BeforeIsInLog(log: seq<Published>, p: Path, e: Published)
    requires e in Before(log, p)
    ensures e in log
  {
    if log != [] && Ends(log[..|log| - 1], p) > 0 { BeforeIsInLog(log[..|log| - 1], p, e); }
  }

  /** What is known at the end of a run. */
  lemma AfterRun(root: Spec, actions: seq<Action>) returns (s: State)
    requires IsRun(Init(root), actions)
    ensures s == Run(Init(root), actions) && Inv(s) && AllTell(s)
  {
    assert Inv(Init(root)) && AllTell(Init(root));
    EveryRunKeepsInv(Init(root), actions);
    EveryRunTells(Init(root), actions);
    s := Run(Init(root), actions);
  }

  /** After any run, the outcome that was published of a call that ended: killed if its own kill was requested, and only
      if that or the context above it is done; otherwise failed exactly if there was an error. So a call that panicked is
      never published as failed. */
  lemma OutcomeTellsErrors(root: Spec, actions: seq<Action>, p: Path)
    requires IsRun(Init(root), actions)
    ensures var s := Run(Init(root), actions);
      p in s.calls && s.calls[p].stage.Ended? ==>
        var (c, stage) := (s.calls[p], s.calls[p].stage);
        && End(p, stage.outcome) in s.log
        && (c.killed ==> stage.outcome == Killed) && (stage.outcome == Killed ==> c.killed || CtxDone(s, p))
        && (stage.outcome != Killed ==> stage.outcome == if stage.reason.IsError() then Failed else Succeeded)
        && (stage.reason.Panicked() ==> stage.outcome != Failed)
  {
    var s := AfterRun(root, actions);
    assert Fine(s, p);
    assert p in s.calls ==> Tells(s, p, s.calls[p]);
  }

  /** What interpreting a call decides: it starts exactly if it is a call at all, of a valid kind, and is not skipped; and it
      is an error exactly if it fails, or goes on to a call of no kind. */
  lemma InterpretationDecides(s: State, p: Path, result: Interpreted)
    requires Enabled(s, Take(p, Interpret(result)))
    ensures var (t, spec) := (Apply(s, Take(p, Interpret(result))), s.calls[p].spec);
      var starts := spec != Missing && spec != Invalid && result == Goes;
      && t.log == (if starts then s.log + [Start(p)] else s.log)
      && (if starts then t.calls[p].stage.Running? else t.calls[p].stage.Returning?)
      && (!starts ==> !t.calls[p].stage.reason.Panicked() && !t.calls[p].stage.reason.Began())
      && (!starts ==> (t.calls[p].stage.reason.IsError() <==>
                         spec != Missing && (result == Fails || (spec == Invalid && result == Goes))))
  {
    assert s.log + [] == s.log;
  }

  /** A parallel call or loop whose body returned, and that was not interrupted, is published as failed exactly if, before
      that, one of the children that it launched was. */
  lemma ParallelFailsIffAChildDid(root: Spec, actions: seq<Action>, p: Path)
    requires IsRun(Init(root), actions) && p in Run(Init(root), actions).calls
    ensures var s := Run(Init(root), actions);
      var c := s.calls[p];
      c.spec.Concurrent() && c.launched > 0 && c.stage.Ended? && c.stage.outcome != Killed &&
      (c.stage.reason.BodyDone? || c.stage.reason.BodyFailed?) ==>
        (c.stage.outcome == Failed <==> SomeFailed(Before(s.log, p), p, c.launched))
  {
    var s := AfterRun(root, actions);
    var c := s.calls[p];
    assert Fine(s, p) && Tells(s, p, c);
    if c.spec.Concurrent() && c.stage.Ended? && c.stage.outcome != Killed && c.stage.reason.Waited(c.spec) {
      forall k: nat | k < c.launched ensures ChildFailed(Before(s.log, p), p, k) <==> ChildFailed(s.log, p, k) {
        assert Fine(s, p + [k]);
        if ChildFailed(s.log, p, k) { BeforeHasEnd(s.log, p, p + [k], Failed); }
        if ChildFailed(Before(s.log, p), p, k) { BeforeIsInLog(s.log, p, End(p + [k], Failed)); }
      }
    }
  }

  /** Any other call whose child is published as failed is itself published as failed, and calls none after that child,
      unless it was interrupted or panicked. */
  lemma OthersStopAtAFailure(root: Spec, actions: seq<Action>, p: Path, k: nat)
    requires IsRun(Init(root), actions) && p in Run(Init(root), actions).calls
    requires ChildFailed(Run(Init(root), actions).log, p, k)
    ensures var c := Run(Init(root), actions).calls[p];
      !c.spec.Concurrent() && c.stage.Ended? && c.stage.outcome != Killed && !c.stage.reason.Panicked() ==>
        c.stage.outcome == Failed && c.launched == k + 1
  {
    var s := AfterRun(root, actions);
    assert Fine(s, p) && Tells(s, p, s.calls[p]);
    EndIsThere(s.log, p + [k], Failed);
    assert Fine(s, p + [k]) && Launcher(p + [k]) == p;
  }

  /** A serial or a parallel call that succeeded has called every one of its children. */
  lemma SucceedsOnceAllAreCalled(root: Spec, actions: seq<Action>, p: Path)
    requires IsRun(Init(root), actions) && p in Run(Init(root), actions).calls
    ensures var c := Run(Init(root), actions).calls[p];
      (c.spec.Serial? || c.spec.Parallel?) && c.stage.Ended? && c.stage.reason.BodyDone? ==> c.launched == |c.spec.calls|
  {
    var s := AfterRun(root, actions);
    assert Tells(s, p, s.calls[p]);
  }

  // ---------- what is cut off ----------

  /** Everything below p has its context done. */
  ghost predicate CutOff(s: State, p: Path) {
    p in s.calls && (s.calls[p].killed || (s.calls[p].spec.Concurrent() && s.calls[p].group))
  }

  lemma {:induction false} CutOffReaches(s: State, p: Path, d: Path)
    requires Inv(s) && CutOff(s, p) && |p| < |d| && d[..|p|] == p && Launcher(d) in s.calls
    ensures CtxDone(s, d)
    decreases |d|
  {
    var l := Launcher(d);
    if |l| > |p| {
      assert l[..|p|] == p;
      assert Fine(s, l);
      CutOffReaches(s, p, l);
    } else {
      assert l == p;
    }
  }

  /** Once a call is killed, or the children of a parallel one are cancelled, a call at any depth below that starts does
      nothing, and one that ends is published as killed. */
  lemma BelowIsCutOff(s: State, p: Path, d: Path)
    requires Inv(s) && CutOff(s, p) && |p| < |d| && d[..|p|] == p
    ensures Enabled(s, Take(d, Enter)) ==> Apply(s, Take(d, Enter)).calls[d].stage.Noop?
    ensures Enabled(s, Take(d, Finish)) ==>
              var t := Apply(s, Take(d, Finish));
              t.calls[d].stage.Ended? && t.calls[d].stage.outcome == Killed && t.log == s.log + [End(d, Killed)]
  {
    assert Fine(s, d);
    if Launcher(d) in s.calls { CutOffReaches(s, p, d); }
  }

  /** In particular once a parallel call has heard of a child that failed. */
  lemma FailureCutsOff(root: Spec, actions: seq<Action>, p: Path, k: nat)
    requires IsRun(Init(root), actions) && p in Run(Init(root), actions).calls
    ensures var s := Run(Init(root), actions);
      var c := s.calls[p];
      c.spec.Concurrent() && c.stage.Running? && k in c.stage.heard && ChildFailed(s.log, p, k) ==> CutOff(s, p)
  {
    var s := AfterRun(root, actions);
    assert Tells(s, p, s.calls[p]);
  }

  // ---------- what calls are made of ----------

  ghost predicate InPlace(s: State) {
    && ([] in s.calls ==> s.calls[[]].spec == s.root)
    && forall q :: q in s.calls && q != [] && Launcher(q) in s.calls ==> s.calls[q].spec == s.calls[Launcher(q)].spec.Child(Place(q))
  }

  lemma StepKeepsInPlace(s: State, a: Action)
    requires Inv(s) && InPlace(s) && Enabled(s, a)
    ensures InPlace(Apply(s, a)) && Apply(s, a).root == s.root
  {
    var t := Apply(s, a);
    StepGrows(s, a);
    forall q | q in t.calls && q != [] && Launcher(q) in t.calls
      ensures t.calls[q].spec == t.calls[Launcher(q)].spec.Child(Place(q))
    {
      assert Fine(s, q);
    }
  }

  lemma {:induction false} EveryRunKeepsInPlace(s: State, actions: seq<Action>)
    requires Inv(s) && InPlace(s) && IsRun(s, actions)
    ensures InPlace(Run(s, actions)) && Run(s, actions).root == s.root
    decreases |actions|
  {
    if actions != [] {
      StepKeepsInv(s, actions[0]);
      StepKeepsInPlace(s, actions[0]);
      EveryRunKeepsInPlace(Apply(s, actions[0]), actions[1..]);
    }
  }

  predicate IsMadeOf(spec: Spec, k: nat, child: Spec) {
    match spec
    case Serial(calls) => k < |calls| && child == calls[k]
    case Parallel(calls) => k < |calls| && child == calls[k]
    case Op(body) => k == 0 && child == body
    case SerialLoop(body) => child == body
    case ParallelLoop(body) => child == body
    case _ => false
  }

  /** The k-th call that a call makes is the k-th of those that it is made of, the body of an op, or once more that of a
      loop. */
  lemma CallsWhatItIsMadeOf(root: Spec, actions: seq<Action>, p: Path, k: nat)
    requires IsRun(Init(root), actions)
    ensures var calls := Run(Init(root), actions).calls;
      && ([] in calls ==> calls[[]].spec == root)
      && (p + [k] in calls ==> p in calls && IsMadeOf(calls[p].spec, k, calls[p + [k]].spec))
  {
    var s := AfterRun(root, actions);
    EveryRunKeepsInPlace(Init(root), actions);
    if p + [k] in s.calls {
      assert Fine(s, p + [k]) && Launcher(p + [k]) == p;
      assert Tells(s, p, s.calls[p]);
    }
  }

  // ---------- what a run cannot promise ----------

  lemma {:induction false} RunOnTop(s: State, actions: seq<Action>, a: Action)
    requires IsRun(s, actions) && Enabled(Run(s, actions), a)
    ensures IsRun(s, actions + [a]) && Run(s, actions + [a]) == Apply(Run(s, actions), a)
    decreases |actions|
  {
    if actions == [] {
      assert [] + [a] == [a] && [a][1..] == [];
    } else {
      RunOnTop(Apply(s, actions[0]), actions[1..], a);
      assert (actions + [a])[1..] == actions[1..] + [a];
    }
  }

  ghost predicate Reaches(s: State, t: State) {
    exists actions :: IsRun(s, actions) && Run(s, actions) == t
  }

  lemma StartsThere(s: State)
    ensures Reaches(s, s)
  {
    assert IsRun(s, []) && Run(s, []) == s;
  }

  lemma TakeStep(s: State, now: State, a: Action, next: State)
    requires Reaches(s, now) && Enabled(now, a) && Apply(now, a) == next
    ensures Reaches(s, next)
  {
    var actions :| IsRun(s, actions) && Run(s, actions) == now;
    RunOnTop(s, actions, a);
  }

  /** A composite root over children that are containers. */
  function Snapshot(root: Spec, stage: Stage, launched: nat, group: bool, children: map<Path, CallState>, log: seq<Published>): State {
    State(root, false, children[[] := CallState(root, stage, false, group, launched)], log)
  }

  lemma LaunchesFirst(root: Spec)
    requires root.Concurrent() && root.MayLaunch(0)
    ensures Reaches(Init(root), Snapshot(root, Running({}, false, false), 1, false, map[], [Start([])]))
  {
    var begun, s0 := Running({}, false, false), Init(root);
    var s1 := Snapshot(root, Entered, 0, false, map[], []);
    var s2 := Snapshot(root, begun, 0, false, map[], [Start([])]);
    StartsThere(s0);
    TakeStep(s0, s0, Take([], Enter), s1);
    TakeStep(s0, s1, Take([], Interpret(Goes)), s2);
    TakeStep(s0, s2, Take([], Launch), Snapshot(root, begun, 1, false, map[], [Start([])]));
  }

  const BEGUN := Running({}, false, false)
  const FIRST := CallState(Container, Entered, false, false, 0)

  lemma FirstEnters(root: Spec, launched: nat)
    requires root.Concurrent() && launched > 0 && root.Child(0) == Container
    requires Reaches(Init(root), Snapshot(root, BEGUN, launched, false, map[], [Start([])]))
    ensures Reaches(Init(root), Snapshot(root, BEGUN, launched, false, map[[0] := FIRST], [Start([])]))
  {
    var s := Snapshot(root, BEGUN, launched, false, map[], [Start([])]);
    assert Launcher([0]) == [];
    TakeStep(Init(root), s, Take([0], Enter), Snapshot(root, BEGUN, launched, false, map[[0] := FIRST], [Start([])]));
  }

  lemma FirstBegins(root: Spec)
    requires root.Concurrent() && root.MayLaunch(0) && root.Child(0) == Container
    ensures Reaches(Init(root), Snapshot(root, BEGUN, 1, false, map[[0] := FIRST.(stage := BEGUN)], [Start([]), Start([0])]))
  {
    LaunchesFirst(root);
    FirstEnters(root, 1);
    TakeStep(Init(root), Snapshot(root, BEGUN, 1, false, map[[0] := FIRST], [Start([])]), Take([0], Interpret(Goes)),
             Snapshot(root, BEGUN, 1, false, map[[0] := FIRST.(stage := BEGUN)], [Start([]), Start([0])]));
  }

  /** A parallel loop whose second iteration cannot be interpreted ends while its first iteration still runs. */
  lemma LoopEndsBeforeItsIteration() returns (s: State)
    ensures Reaches(Init(ParallelLoop(Container)), s)
    ensures && [] in s.calls && s.calls[[]].stage == Ended(LaunchFailed, Failed)
            && [0] in s.calls && s.calls[[0]].stage.Running?
            && s.log == [Start([]), Start([0]), End([], Failed)]
  {
    var root, log, calls := ParallelLoop(Container), [Start([]), Start([0])], map[[0] := FIRST.(stage := BEGUN)];
    var failed := Snapshot(root, Returning(LaunchFailed), 1, true, calls, log);
    FirstBegins(root);
    TakeStep(Init(root), Snapshot(root, BEGUN, 1, false, calls, log), Take([], LaunchFails), failed);
    s := Snapshot(root, Ended(LaunchFailed, Failed), 1, true, calls, log + [End([], Failed)]);
    TakeStep(Init(root), failed, Take([], Finish), s);
  }

  lemma FirstPanics(root: Spec, calls: map<Path, CallState>)
    requires root == Parallel([Container]) && calls == map[[0] := FIRST.(stage := Returning(BodyPanicked))]
    ensures Reaches(Init(root), Snapshot(root, BEGUN, 1, false, calls, [Start([]), Start([0])]))
  {
    FirstBegins(root);
    TakeStep(Init(root), Snapshot(root, BEGUN, 1, false, map[[0] := FIRST.(stage := BEGUN)], [Start([]), Start([0])]),
             Take([0], Panic), Snapshot(root, BEGUN, 1, false, calls, [Start([]), Start([0])]));
  }

  lemma FirstUnwinds(root: Spec, calls: map<Path, CallState>)
    requires root == Parallel([Container]) && calls == map[[0] := FIRST.(stage := Ended(BodyPanicked, Succeeded))]
    ensures Reaches(Init(root), Snapshot(root, BEGUN, 1, false, calls, [Start([]), Start([0]), End([0], Succeeded)]))
  {
    var log, panicked := [Start([]), Start([0])], map[[0] := FIRST.(stage := Returning(BodyPanicked))];
    FirstPanics(root, panicked);
    TakeStep(Init(root), Snapshot(root, BEGUN, 1, false, panicked, log), Take([0], Finish),
             Snapshot(root, BEGUN, 1, false, calls, log + [End([0], Succeeded)]));
  }

  lemma PanicIsHeardAsSuccess(root: Spec, calls: map<Path, CallState>)
    requires root == Parallel([Container]) && calls == map[[0] := FIRST.(stage := Ended(BodyPanicked, Succeeded))]
    ensures Reaches(Init(root), Snapshot(root, Returning(BodyDone), 1, true, calls, [Start([]), Start([0]), End([0], Succeeded)]))
  {
    var log, listens := [Start([]), Start([0]), End([0], Succeeded)], Running({}, false, true);
    FirstUnwinds(root, calls);
    TakeStep(Init(root), Snapshot(root, BEGUN, 1, false, calls, log), Take([], StopLaunching),
             Snapshot(root, listens, 1, false, calls, log));
    assert [] + [0] == [0] && log[2] == End([0], Succeeded);
    OneOfOneHeard(CallState(root, listens, false, false, 1));
    TakeStep(Init(root), Snapshot(root, listens, 1, false, calls, log), Take([], Hear(0, Succeeded)),
             Snapshot(root, Returning(BodyDone), 1, true, calls, log));
  }

  /** A panic is not seen: the only child of a parallel call panics, and both are published as succeeded. */
  lemma PanicLooksLikeSuccess() returns (s: State)
    ensures Reaches(Init(Parallel([Container])), s)
    ensures && [] in s.calls && s.calls[[]].stage == Ended(BodyDone, Succeeded)
            && [0] in s.calls && s.calls[[0]].stage == Ended(BodyPanicked, Succeeded)
            && s.log == [Start([]), Start([0]), End([0], Succeeded), End([], Succeeded)]
  {
    var root, log := Parallel([Container]), [Start([]), Start([0]), End([0], Succeeded)];
    var calls := map[[0] := FIRST.(stage := Ended(BodyPanicked, Succeeded))];
    PanicIsHeardAsSuccess(root, calls);
    s := Snapshot(root, Ended(BodyDone, Succeeded), 1, true, calls, log + [End([], Succeeded)]);
    TakeStep(Init(root), Snapshot(root, Returning(BodyDone), 1, true, calls, log), Take([], Finish), s);
  }

  lemma OneOfOneHeard(c: CallState)
    requires c.spec.Parallel? && c.launched == 1 && c.stage == Running({}, false, true)
    ensures Hears(c, 0, Succeeded) == c.(stage := Returning(BodyDone), group := true)
  {
    var none: set<nat> := {};
    assert AllHeard(1, none + {0});
  }

  /** A parallel call that has launched its children, one of which did nothing because its context was done. */
  ghost predicate WaitsForNoop(s: State, p: Path, k: nat) {
    && p in s.calls && s.calls[p].spec.Concurrent() && s.calls[p].stage.Running? && s.calls[p].stage.listening
    && k < s.calls[p].launched && p + [k] in s.calls && s.calls[p + [k]].stage.Noop?
  }

  lemma StepLeavesItWaiting(s: State, a: Action, p: Path, k: nat)
    requires Inv(s) && Enabled(s, a) && WaitsForNoop(s, p, k) && !OwnDone(Apply(s, a), p)
    ensures WaitsForNoop(Apply(s, a), p, k)
  {
    var t := Apply(s, a);
    StepGrows(s, a);
    DoneStaysDone(s, t, p);
    assert Fine(s, p) && Fine(s, p + [k]);
    if a.Take? && a.step.Hear? && a.p == p {
      HeardChild(s, p, a.step.k, a.step.outcome);
      assert k !in s.calls[p].stage.heard + {a.step.k};
      assert !AllHeard(s.calls[p].launched, s.calls[p].stage.heard + {a.step.k});
    }
  }

  /** Such a call never gets the end it waits for: whatever else happens, it does not return unless it is killed
      or the context above it is done. */
  lemma {:induction false} NoopIsWaitedForForever(s: State, actions: seq<Action>, p: Path, k: nat)
    requires Inv(s) && IsRun(s, actions) && WaitsForNoop(s, p, k)
    requires !OwnDone(Run(s, actions), p)
    ensures WaitsForNoop(Run(s, actions), p, k) && Ends(Run(s, actions).log, p) == 0
    decreases |actions|
  {
    if actions == [] {
      assert Fine(s, p);
    } else {
      var t := Apply(s, actions[0]);
      StepKeepsInv(s, actions[0]);
      RunGrows(t, actions[1..]);
      DoneStaysDone(t, Run(t, actions[1..]), p);
      StepLeavesItWaiting(s, actions[0], p, k);
      NoopIsWaitedForForever(t, actions[1..], p, k);
    }
  }

  lemma {:induction false} RunGrows(s: State, actions: seq<Action>)
    requires IsRun(s, actions)
    ensures Grows(s, Run(s, actions))
    decreases |actions|
  {
    if actions != [] {
      StepGrows(s, actions[0]);
      RunGrows(Apply(s, actions[0]), actions[1..]);
    }
  }

  lemma FirstCannotBegin(root: Spec, calls: map<Path, CallState>)
    requires root == Parallel([Container, Container]) && calls == map[[0] := FIRST.(stage := Returning(NotInterpretable))]
    ensures Reaches(Init(root), Snapshot(root, BEGUN, 2, false, calls, [Start([])]))
  {
    var log := [Start([])];
    LaunchesFirst(root);
    TakeStep(Init(root), Snapshot(root, BEGUN, 1, false, map[], log), Take([], Launch), Snapshot(root, BEGUN, 2, false, map[], log));
    FirstEnters(root, 2);
    TakeStep(Init(root), Snapshot(root, BEGUN, 2, false, map[[0] := FIRST], log), Take([0], Interpret(Fails)),
             Snapshot(root, BEGUN, 2, false, calls, log));
  }

  lemma FirstFails(root: Spec, calls: map<Path, CallState>)
    requires root == Parallel([Container, Container]) && calls == map[[0] := FIRST.(stage := Ended(NotInterpretable, Failed))]
    ensures Reaches(Init(root), Snapshot(root, Running({}, false, true), 2, false, calls, [Start([]), End([0], Failed)]))
  {
    var log, before := [Start([]), End([0], Failed)], map[[0] := FIRST.(stage := Returning(NotInterpretable))];
    FirstCannotBegin(root, before);
    TakeStep(Init(root), Snapshot(root, BEGUN, 2, false, before, [Start([])]), Take([0], Finish),
             Snapshot(root, BEGUN, 2, false, calls, log));
    TakeStep(Init(root), Snapshot(root, BEGUN, 2, false, calls, log), Take([], StopLaunching),
             Snapshot(root, Running({}, false, true), 2, false, calls, log));
  }

  lemma OneOfTwoHeard(c: CallState)
    requires c.spec.Parallel? && c.launched == 2 && c.stage == Running({}, false, true)
    ensures Hears(c, 0, Failed) == c.(stage := Running({0}, true, true), group := true)
  {
    var none: set<nat> := {};
    assert none + {0} == {0} && 1 !in none + {0};
    assert !AllHeard(c.launched, none + {0}) by { assert 0 <= 1 < c.launched; }
  }

  lemma FailureIsHeard(root: Spec, calls: map<Path, CallState>)
    requires root == Parallel([Container, Container]) && calls == map[[0] := FIRST.(stage := Ended(NotInterpretable, Failed))]
    ensures Reaches(Init(root), Snapshot(root, Running({0}, true, true), 2, true, calls, [Start([]), End([0], Failed)]))
  {
    var log, c := [Start([]), End([0], Failed)], CallState(root, Running({}, false, true), false, false, 2);
    FirstFails(root, calls);
    assert [] + [0] == [0] && log[1] == End([0], Failed);
    OneOfTwoHeard(c);
    TakeStep(Init(root), Snapshot(root, c.stage, 2, false, calls, log), Take([], Hear(0, Failed)),
             Snapshot(root, Running({0}, true, true), 2, true, calls, log));
  }

  lemma {:induction false} EndedHasEnd(log: seq<Published>, p: Path) returns (outcome: Outcome)
    requires Ends(log, p) > 0
    ensures End(p, outcome) in log
  {
    var n := |log| - 1;
    if log[n].End? && log[n].p == p { return log[n].outcome; }
    outcome := EndedHasEnd(log[..n], p);
    assert log == log[..n] + [log[n]];
  }

  /** If no child did nothing, waiting is not in vain: once all children have ended the call can return. */
  lemma {:induction false} EndsAreEnough(s: State, p: Path, j: nat) returns (t: State)
    requires Inv(s) && p in s.calls && s.calls[p].spec.Concurrent() && s.calls[p].stage.Running? && s.calls[p].stage.listening
    requires 0 < s.calls[p].launched && ChildrenEnded(s.log, p, s.calls[p].launched)
    requires forall k :: 0 <= k < j ==> k in s.calls[p].stage.heard
    ensures Reaches(s, t) && p in t.calls && t.calls[p].stage.Returning?
    decreases s.calls[p].launched - j
  {
    var c := s.calls[p];
    assert Fine(s, p);
    assert j < c.launched;
    if j in c.stage.heard {
      t := EndsAreEnough(s, p, j + 1);
    } else {
      var outcome := EndedHasEnd(s.log, p + [j]);
      var next := Apply(s, Take(p, Hear(j, outcome)));
      StepKeepsInv(s, Take(p, Hear(j, outcome)));
      assert next.log == s.log;
      if next.calls[p].stage.Running? {
        t := EndsAreEnough(next, p, j + 1);
        StepFirst(s, Take(p, Hear(j, outcome)), t);
      } else {
        t := next;
        StartsThere(s);
        TakeStep(s, s, Take(p, Hear(j, outcome)), t);
      }
    }
  }

  lemma StepFirst(s: State, a: Action, t: State)
    requires Enabled(s, a) && Reaches(Apply(s, a), t)
    ensures Reaches(s, t)
  {
    var actions :| IsRun(Apply(s, a), actions) && Run(Apply(s, a), actions) == t;
    assert ([a] + actions)[1..] == actions;
    assert IsRun(s, [a] + actions) && Run(s, [a] + actions) == t;
  }

  /** And it happens: the first child of a parallel call fails before the second has been scheduled. */
  lemma FailureCanBlockParallel() returns (s: State)
    ensures Reaches(Init(Parallel([Container, Container])), s)
    ensures WaitsForNoop(s, [], 1) && !OwnDone(s, []) && s.log == [Start([]), End([0], Failed)]
  {
    var root, log := Parallel([Container, Container]), [Start([]), End([0], Failed)];
    var calls := map[[0] := FIRST.(stage := Ended(NotInterpretable, Failed))];
    FailureIsHeard(root, calls);
    assert Launcher([1]) == [] && [] + [1] == [1];
    s := Snapshot(root, Running({0}, true, true), 2, true, calls[[1] := FIRST.(stage := Noop)], log);
    TakeStep(Init(root), Snapshot(root, Running({0}, true, true), 2, true, calls, log), Take([1], Enter), s);
  }

  // ---------- one call, as it is written ----------

  /** What interpreting a call spec gives; even a failed interpretation may know the call. */
  datatype Interpretation =
    | Uninterpretable(known: Option<Events.Call>, error: string)
    | Skipped(call: Events.Call)
    | Interpretable(call: Events.Call)
    | Panics

  /** What the body of a call returns, unless it panics. */
  datatype BodyResult = Returns(outputs: Scope, error: Option<string>) | BodyPanics

  function ReasonOf(spec: Spec, i: Interpretation, body: BodyResult): Reason {
    if spec.Missing? then NoSpec
    else match i
      case Uninterpretable(_, _) => NotInterpretable
      case Skipped(_) => SkippedByIf
      case Interpretable(_) => if body.BodyPanics? then BodyPanicked else if body.error.Some? then BodyFailed else BodyDone
      case Panics => InterpretPanicked
  }

  /** What an event says of the call at p. */
  function AsPublished(e: Event, p: Path): Published {
    match e.payload
    case CallEnded(_, outcome, _, _) => End(p, outcome)
    case _ => Start(p)
  }

  /** The call's own code: `body` is what its body does, and `killed` and `doneAtEnd` are as its last, deferred, action
      finds them. That action runs after a panic too, and publishes an end that knows of no error. */
  method Call(p: Path, ctxDone: bool, id: CallId, rootId: CallId, spec: Spec, i: Interpretation,
              body: BodyResult, killed: bool, doneAtEnd: bool, startTime: Timestamp, endTime: Timestamp)
    returns (outputs: Scope, err: Option<string>, published: seq<Event>, panicked: bool)
    ensures ctxDone ==> published == [] && outputs == map[] && err == None && !panicked
    ensures !ctxDone ==>
              var reason := ReasonOf(spec, i, body);
              var outcome := OutcomeOf(killed || doneAtEnd, reason);
              && |published| == |Journal(p, reason, outcome)|
              && (forall k :: 0 <= k < |published| ==> AsPublished(published[k], p) == Journal(p, reason, outcome)[k])
              && err.Some? == reason.IsError() && panicked == reason.Panicked()
              && (reason.BodyFailed? || reason.BodyDone? ==> (outputs, err) == (body.outputs, body.error))
              && (reason.Began() ==> published[0].timestamp == startTime)
              && (panicked ==> outputs == map[])
              && published[|published| - 1].timestamp == endTime
              && match published[|published| - 1].payload
                 case CallEnded(call, o, out, error) =>
                   && (o, out) == (outcome, outputs) && error == (if outcome == Failed then err else None)
                   && (spec.Missing? || i.Panics? || (i.Uninterpretable? && i.known.None?) ==> call == Events.Call(id, rootId, None))
                   && (!spec.Missing? && i.Uninterpretable? && i.known.Some? ==> call == i.known.value)
                   && (!spec.Missing? && (i.Skipped? || i.Interpretable?) ==> call == i.call)
                 case _ => false
  {
    outputs, err, published, panicked := map[], None, [], false;
    if ctxDone { return; }
    var call: Option<Events.Call> := None;
    if !spec.Missing? {
      match i {
        case Panics =>
          panicked := true;
        case Uninterpretable(known, error) =>
          call, err := known, Some(error);
        case Skipped(c) =>
          call := Some(c);
        case Interpretable(c) =>
          call, published := Some(c), [Event(startTime, CallStarted(c))];
          match body {
            case Returns(o, e) => outputs, err := o, e;
            case BodyPanics => panicked := true;
          }
      }
    }
    if call.None? { call := Some(Events.Call(id, rootId, None)); }
    var outcome := if killed || doneAtEnd then Killed else if err.Some? then Failed else Succeeded;
    published := published + [Event(endTime, CallEnded(call.value, outcome, outputs, if outcome == Failed then err else None))];
  }
}
