/** How the CLI finds an argument for every input of an op: sources that each answer once per name are asked in
    order of precedence, until an answer converts and validates or none is left. */
module ParamSatisfier {
  import opened Text
  import opened Values
  import opened Sorting

  datatype Kind = ArrayParam | BooleanParam | DirParam | FileParam | NumberParam | ObjectParam | SocketParam | StringParam | NoParam

  datatype ParamSpec = ParamSpec(kind: Kind, default_: Option<Data>)

  /** `StaticDefault` is the nil that stands for a default which is an expression. */
  datatype Read = NotFound | StaticDefault | Found(raw: string)

  /** Library code: JSON, YAML, number parsing, absolute paths and validation. */
  datatype Codec = Codec(
    marshal: Data -> Option<string>,
    parseArray: string -> Option<seq<Data>>,
    parseObject: string -> Option<map<string, Data>>,
    toBoolean: string -> Option<bool>,
    toNumber: string -> Option<real>,
    abs: string -> Option<string>,
    validate: (Option<Value>, ParamSpec) -> bool)

  // ---------- sources ----------

  datatype SourceState =
    | ArgSlice(argMap: map<string, string>)
    | YmlFile(doc: map<string, Data>)
    | EnvVars(env: map<string, string>, readHistory: set<string>)
    | ParamDefaults(inputs: map<string, ParamSpec>, readHistory: set<string>)

  function ReadYml(codec: Codec, value: Data): Read {
    if value.Str? then Found(value.s)
    else if codec.marshal(value).Some? then Found(codec.marshal(value).value)
    else NotFound
  }

  /** A relative path is a value; any other default is an expression that is left to the op. */
  function ReadDefault(param: ParamSpec): Read {
    if param.default_.None? || param.kind.SocketParam? || param.kind.NoParam? then NotFound
    else if (param.kind.DirParam? || param.kind.FileParam?) && param.default_.value.Str? && "." <= param.default_.value.s
    then Found(param.default_.value.s)
    else StaticDefault
  }

  function Answer(codec: Codec, source: SourceState, name: string): Read {
    match source
    case ArgSlice(argMap) => if name in argMap then Found(argMap[name]) else NotFound
    case YmlFile(doc) => if name in doc then ReadYml(codec, doc[name]) else NotFound
    case EnvVars(env, history) => if name !in history && name in env && env[name] != "" then Found(env[name]) else NotFound
    case ParamDefaults(inputs, history) => if name !in history && name in inputs then ReadDefault(inputs[name]) else NotFound
  }

  class InputSource {
    var state: SourceState

    constructor (state: SourceState)
      ensures this.state == state
    {
      this.state := state;
    }

    /** Answers once; whatever it answered, it has no answer for the name from then on, and its answers for other
        names are what they were. */
    method ReadString(codec: Codec, name: string) returns (r: Read)
      modifies this
      ensures r == Answer(codec, old(state), name)
      ensures Answer(codec, state, name) == NotFound
      ensures forall other :: other != name ==> Answer(codec, state, other) == Answer(codec, old(state), other)
    {
      match state {
        case ArgSlice(argMap) =>
          if name !in argMap { return NotFound; }
          state := ArgSlice(argMap - {name});
          return Found(argMap[name]);
        case YmlFile(doc) =>
          if name !in doc { return NotFound; }
          state := YmlFile(doc - {name});
          return ReadYml(codec, doc[name]);
        case EnvVars(env, history) =>
          if name in history || name !in env || env[name] == "" { return NotFound; }
          state := EnvVars(env, history + {name});
          return Found(env[name]);
        case ParamDefaults(inputs, history) =>
          if name in history || name !in inputs { return NotFound; }
          state := ParamDefaults(inputs, history + {name});
          return ReadDefault(inputs[name]);
      }
    }
  }

  /** What a source that was not asked before answers: with a string of the file, or anything else there as JSON; with a
      variable that is not blank; with a relative path that is the default of a file or a directory. */
  lemma FreshAnswers(codec: Codec, name: string, raw: string,
      doc: map<string, Data>, env: map<string, string>, inputs: map<string, ParamSpec>)
    ensures Answer(codec, YmlFile(doc), name) == Found(raw) <==>
      name in doc && (doc[name] == Str(raw) || (!doc[name].Str? && codec.marshal(doc[name]) == Some(raw)))
    ensures Answer(codec, EnvVars(env, {}), name) == Found(raw) <==> name in env && env[name] == raw && raw != ""
    ensures Answer(codec, ParamDefaults(inputs, {}), name) == Found(raw) <==>
      && name in inputs && (inputs[name].kind == DirParam || inputs[name].kind == FileParam)
      && inputs[name].default_ == Some(Str(raw)) && raw != "" && raw[0] == '.'
    ensures Answer(codec, ParamDefaults(inputs, {}), name) == NotFound <==>
      name !in inputs || inputs[name].default_.None? || inputs[name].kind == SocketParam || inputs[name].kind == NoParam
    ensures !Answer(codec, YmlFile(doc), name).StaticDefault? && !Answer(codec, EnvVars(env, {}), name).StaticDefault?
  {
  }

  // ---------- the argument slice ----------

  /** Where the separator first occurs, if it does. */
  function IndexOf(arg: string, sep: string): Option<nat>
    decreases |arg|
  {
    if sep <= arg then Some(0)
    else if arg == "" then None
    else
      var rest := IndexOf(arg[1..], sep);
      if rest.Some? then Some(rest.value + 1) else None
  }

  lemma {:induction false} IndexOfIsThere(arg: string, sep: string)
    requires IndexOf(arg, sep).Some?
    ensures var i := IndexOf(arg, sep).value; i + |sep| <= |arg| && sep <= arg[i..]
    decreases |arg|
  {
    if !(sep <= arg) { IndexOfIsThere(arg[1..], sep); }
  }

  lemma {:induction false} IndexOfIsFirst(arg: string, sep: string, j: nat)
    requires j <= |arg| && sep <= arg[j..]
    ensures IndexOf(arg, sep).Some? && IndexOf(arg, sep).value <= j
    decreases |arg|
  {
    if j > 0 {
      assert arg[1..][j - 1..] == arg[j..];
      IndexOfIsFirst(arg[1..], sep, j - 1);
    } else {
      assert arg[0..] == arg;
    }
  }

  /** `strings.SplitN(arg, sep, 2)` where that has two parts. */
  function SplitOnce(arg: string, sep: string): (parts: Option<(string, string)>)
    ensures parts.Some? ==> arg == parts.value.0 + sep + parts.value.1
  {
    if sep == "" then if |arg| >= 2 then Some((arg[..1], arg[1..])) else None
    else if IndexOf(arg, sep).None? then None
    else
      IndexOfIsThere(arg, sep);
      var i := IndexOf(arg, sep).value;
      Some((arg[..i], arg[i + |sep|..]))
  }

  /** No separator starts before the one that is split at. */
  lemma SplitsAtFirst(arg: string, sep: string, j: nat)
    requires sep != "" && j <= |arg| && sep <= arg[j..]
    ensures SplitOnce(arg, sep).Some? && |SplitOnce(arg, sep).value.0| <= j
  {
    IndexOfIsFirst(arg, sep, j);
    IndexOfIsThere(arg, sep);
  }

  /** With no separator to look for, the first character is the name, if there are others. */
  lemma SplitsOffOne(arg: string)
    ensures SplitOnce(arg, "").Some? <==> |arg| >= 2
    ensures SplitOnce(arg, "").Some? ==> |SplitOnce(arg, "").value.0| == 1
  {
  }

  /** The value the arguments give a name: that of the last one with the name before its first separator. */
  function LastArg(args: seq<string>, sep: string, name: string): Option<string> {
    if args == [] then None
    else
      var parts := SplitOnce(args[|args| - 1], sep);
      if parts.Some? && parts.value.0 == name then Some(parts.value.1) else LastArg(args[..|args| - 1], sep, name)
  }

  predicate Gives(arg: string, sep: string, name: string) {
    SplitOnce(arg, sep).Some? && SplitOnce(arg, sep).value.0 == name
  }

  lemma {:induction false} LastArgWins(args: seq<string>, sep: string, name: string, i: nat)
    requires i <= |args| && forall j :: i < j < |args| ==> !Gives(args[j], sep, name)
    ensures i < |args| && Gives(args[i], sep, name) ==> LastArg(args, sep, name) == Some(SplitOnce(args[i], sep).value.1)
    ensures LastArg(args, sep, name).None? <==> forall j :: 0 <= j < |args| ==> !Gives(args[j], sep, name)
  {
    if args != [] {
      var n := |args| - 1;
      if !Gives(args[n], sep, name) { LastArgWins(args[..n], sep, name, if i < n then i else n); }
    }
  }

  method NewArgSlice(codec: Codec, args: seq<string>, sep: string) returns (source: InputSource)
    ensures fresh(source)
    ensures forall name ::
              Answer(codec, source.state, name) == var v := LastArg(args, sep, name); if v.Some? then Found(v.value) else NotFound
  {
    var argMap: map<string, string> := map[];
    for i := 0 to |args|
      invariant forall name :: LastArg(args[..i], sep, name) == if name in argMap then Some(argMap[name]) else None
    {
      assert args[..i + 1][..i] == args[..i];
      var parts := SplitOnce(args[i], sep);
      if parts.None? { continue; }
      argMap := argMap[parts.value.0 := parts.value.1];
    }
    assert args[..|args|] == args;
    source := new InputSource(ArgSlice(argMap));
  }

  // ---------- precedence ----------

  /** The answers that the sources would give, in order of precedence. */
  function Answers(codec: Codec, states: seq<SourceState>, name: string): (answers: seq<Read>)
    ensures |answers| == |states|
  {
    seq(|states|, i requires 0 <= i < |states| => Answer(codec, states[i], name))
  }

  /** How many sources can still answer. */
  function Remaining(answers: seq<Read>): nat {
    if answers == [] then 0 else (if answers[0].NotFound? then 0 else 1) + Remaining(answers[1..])
  }

  /** Whether all answers from the first to the k-th have been used up. */
  ghost predicate UsedUp(before: seq<Read>, after: seq<Read>, k: nat) {
    && |before| == |after| && k <= |before|
    && (forall i :: 0 <= i < k ==> after[i].NotFound?)
    && (forall i :: k <= i < |before| ==> after[i] == before[i])
  }

  /** The answers from the first to the k-th are used up, and only the k-th was one, or none was. */
  ghost predicate FirstAnswer(before: seq<Read>, after: seq<Read>, r: Read, k: nat) {
    && UsedUp(before, after, k)
    && (forall i :: 0 <= i < k - 1 ==> before[i].NotFound?)
    && if r.NotFound? then k == |before| && (k > 0 ==> before[k - 1].NotFound?) else k > 0 && r == before[k - 1]
  }

  class InputSourcer {
    const sources: seq<InputSource>

    constructor (sources: seq<InputSource>)
      ensures this.sources == sources
    {
      this.sources := sources;
    }

    ghost function States(): (states: seq<SourceState>)
      reads sources
      ensures |states| == |sources| && forall i :: 0 <= i < |sources| ==> states[i] == sources[i].state
    {
      seq(|sources|, i requires 0 <= i < |sources| reads sources => sources[i].state)
    }

    ghost predicate Valid() {
      forall i, j :: 0 <= i < j < |sources| ==> sources[i] != sources[j]
    }

    /** The first answer in order of precedence; it and the sources before it are used up for the name. */
    method Source(codec: Codec, name: string) returns (r: Read, ghost k: nat)
      requires Valid()
      modifies sources
      ensures FirstAnswer(Answers(codec, old(States()), name), Answers(codec, States(), name), r, k)
      ensures SameForOthers(codec, old(States()), States(), name)
    {
      ghost var was := States();
      for i := 0 to |sources|
        invariant AskedInVain(codec, was, States(), name, i)
      {
        ghost var before := States();
        r := sources[i].ReadString(codec, name);
        assert AnswersAlike(codec, was[i], sources[i].state, name);
        AskedOneMore(codec, was, before, States(), name, i, r);
        if !r.NotFound? { return r, i + 1; }
      }
      NoneAnswered(codec, was, States(), name);
      return NotFound, |sources|;
    }
  }

  /** The first `i` sources had no answer and have none now, and the others were not asked. */
  ghost predicate AskedInVain(codec: Codec, was: seq<SourceState>, now: seq<SourceState>, name: string, i: nat) {
    && |was| == |now| && i <= |was|
    && (forall j :: i <= j < |was| ==> now[j] == was[j])
    && (forall j :: 0 <= j < i ==> Answer(codec, was[j], name).NotFound? && Answer(codec, now[j], name).NotFound?)
    && (forall j :: 0 <= j < i ==> AnswersAlike(codec, was[j], now[j], name))
  }

  /** The next source is asked: if it answers that is the first answer. */
  lemma AskedOneMore(codec: Codec, was: seq<SourceState>, before: seq<SourceState>, now: seq<SourceState>,
      name: string, i: nat, r: Read)
    requires AskedInVain(codec, was, before, name, i) && i < |was| == |now|
    requires forall j :: 0 <= j < |now| && j != i ==> now[j] == before[j]
    requires r == Answer(codec, was[i], name) && Answer(codec, now[i], name).NotFound?
    requires AnswersAlike(codec, was[i], now[i], name)
    ensures r.NotFound? ==> AskedInVain(codec, was, now, name, i + 1)
    ensures !r.NotFound? ==>
      FirstAnswer(Answers(codec, was, name), Answers(codec, now, name), r, i + 1) && SameForOthers(codec, was, now, name)
  {
    OthersAlike(codec, was, now, name);
  }

  lemma NoneAnswered(codec: Codec, was: seq<SourceState>, now: seq<SourceState>, name: string)
    requires AskedInVain(codec, was, now, name, |was|)
    ensures FirstAnswer(Answers(codec, was, name), Answers(codec, now, name), NotFound, |was|)
    ensures SameForOthers(codec, was, now, name)
  {
    OthersAlike(codec, was, now, name);
  }

  ghost predicate AnswersAlike(codec: Codec, a: SourceState, b: SourceState, name: string) {
    forall other :: other != name ==> Answer(codec, b, other) == Answer(codec, a, other)
  }

  /** For every other name the sources answer as before. */
  ghost predicate SameForOthers(codec: Codec, a: seq<SourceState>, b: seq<SourceState>, name: string) {
    forall other :: other != name ==> Answers(codec, b, other) == Answers(codec, a, other)
  }

  lemma OthersAlike(codec: Codec, a: seq<SourceState>, b: seq<SourceState>, name: string)
    requires |a| == |b| && forall i :: 0 <= i < |a| ==> b[i] == a[i] || AnswersAlike(codec, a[i], b[i], name)
    ensures SameForOthers(codec, a, b, name)
  {
  }

  // ---------- satisfying ----------

  /** What a raw argument becomes: None if it cannot be converted, Some(None) for a parameter of no kind. */
  function Convert(codec: Codec, param: ParamSpec, raw: string): Option<Option<Value>> {
    match param.kind
    case ArrayParam => if codec.parseArray(raw).Some? then Some(Some(ArrayValue(codec.parseArray(raw).value))) else None
    case BooleanParam => if codec.toBoolean(raw).Some? then Some(Some(BooleanValue(codec.toBoolean(raw).value))) else None
    case DirParam => if codec.abs(raw).Some? then Some(Some(DirValue(codec.abs(raw).value))) else None
    case FileParam => if codec.abs(raw).Some? then Some(Some(FileValue(codec.abs(raw).value))) else None
    case NumberParam => if codec.toNumber(raw).Some? then Some(Some(NumberValue(codec.toNumber(raw).value))) else None
    case ObjectParam => if codec.parseObject(raw).Some? then Some(Some(ObjectValue(codec.parseObject(raw).value))) else None
    case SocketParam => Some(Some(SocketValue(raw)))
    case StringParam => Some(Some(StringValue(raw)))
    case NoParam => Some(None)
  }

  predicate Acceptable(codec: Codec, param: ParamSpec, read: Read) {
    read.Found? && Convert(codec, param, read.raw).Some? && codec.validate(Convert(codec, param, read.raw).value, param)
  }

  /** How a parameter ends. */
  datatype Settlement = Satisfied(arg: Option<Value>) | LeftToDefault | Unsatisfied

  /** The first answer that settles it does: an acceptable value, or a default that is left to the op. */
  predicate Settles(codec: Codec, param: ParamSpec, read: Read) {
    read.StaticDefault? || Acceptable(codec, param, read)
  }

  function Settled(codec: Codec, param: ParamSpec, read: Read): Settlement
    requires Settles(codec, param, read)
  {
    if read.StaticDefault? then LeftToDefault else Satisfied(Convert(codec, param, read.raw).value)
  }

  function Settle(codec: Codec, param: ParamSpec, answers: seq<Read>): Settlement {
    if answers == [] then Unsatisfied
    else if Settles(codec, param, answers[0]) then Settled(codec, param, answers[0])
    else Settle(codec, param, answers[1..])
  }

  /** It is the earliest acceptable value, unless an expression default comes first; only if there is neither is
      the parameter unsatisfied. */
  lemma {:induction false} EarliestSettles(codec: Codec, param: ParamSpec, answers: seq<Read>, i: nat)
    requires i <= |answers| && forall j :: 0 <= j < i ==> !Settles(codec, param, answers[j])
    ensures i < |answers| && Settles(codec, param, answers[i]) ==>
              Settle(codec, param, answers) == Settled(codec, param, answers[i])
    ensures i == |answers| ==> Settle(codec, param, answers).Unsatisfied?
  {
    if i > 0 { EarliestSettles(codec, param, answers[1..], i - 1); }
  }

  // ---------- what settles a parameter ----------

  /** The value is what the raw argument says for a parameter of that kind; one of no kind has no value. */
  predicate IsValueOf(codec: Codec, kind: Kind, raw: string, arg: Option<Value>) {
    match arg
    case None => kind.NoParam?
    case Some(ArrayValue(items)) => kind.ArrayParam? && codec.parseArray(raw) == Some(items)
    case Some(BooleanValue(b)) => kind.BooleanParam? && codec.toBoolean(raw) == Some(b)
    case Some(DirValue(path)) => kind.DirParam? && codec.abs(raw) == Some(path)
    case Some(FileValue(path)) => kind.FileParam? && codec.abs(raw) == Some(path)
    case Some(NumberValue(n)) => kind.NumberParam? && codec.toNumber(raw) == Some(n)
    case Some(ObjectValue(props)) => kind.ObjectParam? && codec.parseObject(raw) == Some(props)
    case Some(SocketValue(address)) => kind.SocketParam? && address == raw
    case Some(StringValue(s)) => kind.StringParam? && s == raw
  }

  predicate Accepts(codec: Codec, param: ParamSpec, read: Read, arg: Option<Value>) {
    read.Found? && IsValueOf(codec, param.kind, read.raw, arg) && codec.validate(arg, param)
  }

  /** An answer that ends the search: a default that is left to the op, or a value. */
  ghost predicate Ends(codec: Codec, param: ParamSpec, read: Read) {
    read.StaticDefault? || exists arg :: Accepts(codec, param, read, arg)
  }

  lemma ConvertedIsValue(codec: Codec, param: ParamSpec, raw: string, arg: Option<Value>)
    ensures Convert(codec, param, raw) == Some(arg) <==> IsValueOf(codec, param.kind, raw, arg)
  {
  }

  lemma SettlesIffEnds(codec: Codec, param: ParamSpec, read: Read)
    ensures Settles(codec, param, read) <==> Ends(codec, param, read)
    ensures forall arg :: Accepts(codec, param, read, arg) ==> Settled(codec, param, read) == Satisfied(arg)
  {
    if read.Found? {
      forall arg ensures Convert(codec, param, read.raw) == Some(arg) <==> IsValueOf(codec, param.kind, read.raw, arg) {
        ConvertedIsValue(codec, param, read.raw, arg);
      }
      if Acceptable(codec, param, read) { assert Accepts(codec, param, read, Convert(codec, param, read.raw).value); }
    }
  }

  /** The i-th answer is the first that ends the search. */
  ghost predicate FirstToEnd(codec: Codec, param: ParamSpec, answers: seq<Read>, i: nat) {
    && i < |answers| && Ends(codec, param, answers[i])
    && forall j :: 0 <= j < i ==> !Ends(codec, param, answers[j])
  }

  lemma FirstToEndSettles(codec: Codec, param: ParamSpec, answers: seq<Read>, i: nat)
    requires FirstToEnd(codec, param, answers, i)
    ensures Settles(codec, param, answers[i]) && Settle(codec, param, answers) == Settled(codec, param, answers[i])
  {
    forall j | 0 <= j <= i ensures Settles(codec, param, answers[j]) <==> Ends(codec, param, answers[j]) {
      SettlesIffEnds(codec, param, answers[j]);
    }
    EarliestSettles(codec, param, answers, i);
  }

  /** A parameter gets a value exactly if that is what the first answer that ends the search says for its kind. */
  lemma SatisfiedIff(codec: Codec, param: ParamSpec, answers: seq<Read>, arg: Option<Value>)
    ensures Settle(codec, param, answers) == Satisfied(arg) <==>
      exists i :: 0 <= i < |answers| && FirstToEnd(codec, param, answers, i) && Accepts(codec, param, answers[i], arg)
  {
    if i :| 0 <= i < |answers| && FirstToEnd(codec, param, answers, i) && Accepts(codec, param, answers[i], arg) {
      FirstToEndSettles(codec, param, answers, i);
      SettlesIffEnds(codec, param, answers[i]);
    }
    if Settle(codec, param, answers) == Satisfied(arg) {
      var i := WhereSettled(codec, param, answers);
      FirstToEndSettles(codec, param, answers, i);
      ConvertedIsValue(codec, param, answers[i].raw, arg);
    }
  }

  lemma {:induction false} WhereSettled(codec: Codec, param: ParamSpec, answers: seq<Read>) returns (i: nat)
    requires !Settle(codec, param, answers).Unsatisfied?
    ensures FirstToEnd(codec, param, answers, i)
  {
    SettlesIffEnds(codec, param, answers[0]);
    if Settles(codec, param, answers[0]) {
      i := 0;
    } else {
      i := WhereSettled(codec, param, answers[1..]);
      i := i + 1;
      forall j | 0 <= j < i ensures !Ends(codec, param, answers[j]) {
        if j > 0 { assert answers[1..][j - 1] == answers[j]; }
      }
    }
  }

  /** It is left to the op exactly if that answer is a default expression, and unsatisfied exactly if no answer ends the
      search. */
  lemma UnsatisfiedIff(codec: Codec, param: ParamSpec, answers: seq<Read>)
    ensures Settle(codec, param, answers).LeftToDefault? <==>
      exists i :: 0 <= i < |answers| && FirstToEnd(codec, param, answers, i) && answers[i].StaticDefault?
    ensures Settle(codec, param, answers).Unsatisfied? <==> forall i :: 0 <= i < |answers| ==> !Ends(codec, param, answers[i])
  {
    if !Settle(codec, param, answers).Unsatisfied? {
      var i := WhereSettled(codec, param, answers);
      FirstToEndSettles(codec, param, answers, i);
    }
    if i :| 0 <= i < |answers| && FirstToEnd(codec, param, answers, i) {
      FirstToEndSettles(codec, param, answers, i);
    }
    if i :| 0 <= i < |answers| && Ends(codec, param, answers[i]) {
      var k := FirstOf(codec, param, answers, i);
      FirstToEndSettles(codec, param, answers, k);
    }
  }

  lemma {:induction false} FirstOf(codec: Codec, param: ParamSpec, answers: seq<Read>, i: nat) returns (k: nat)
    requires i < |answers| && Ends(codec, param, answers[i])
    ensures FirstToEnd(codec, param, answers, k)
  {
    k := i;
    if j: nat :| j < i && Ends(codec, param, answers[j]) { k := FirstOf(codec, param, answers, j); }
  }

  /** Used-up answers that settled nothing change nothing. */
  lemma {:induction false} UsedUpSettlesAlike(codec: Codec, param: ParamSpec, before: seq<Read>, after: seq<Read>, k: nat)
    requires UsedUp(before, after, k)
    requires forall i :: 0 <= i < k ==> !Settles(codec, param, before[i])
    ensures Settle(codec, param, after) == Settle(codec, param, before)
    decreases |before|
  {
    if before != [] {
      if k > 0 {
        UsedUpSettlesAlike(codec, param, before[1..], after[1..], k - 1);
      } else {
        assert before == after;
      }
    }
  }

  lemma {:induction false} UsedUpLeavesFewer(before: seq<Read>, after: seq<Read>, k: nat)
    requires UsedUp(before, after, k)
    ensures Remaining(after) <= Remaining(before)
    ensures k > 0 && !before[k - 1].NotFound? ==> Remaining(after) < Remaining(before)
    decreases |before|
  {
    if before != [] {
      UsedUpLeavesFewer(before[1..], after[1..], if k > 0 then k - 1 else 0);
    }
  }

  /** What one answer means for the parameter. */
  lemma AskedOnce(codec: Codec, param: ParamSpec, before: seq<Read>, after: seq<Read>, r: Read, k: nat)
    requires FirstAnswer(before, after, r, k)
    ensures r.NotFound? ==> Settle(codec, param, before).Unsatisfied?
    ensures Settles(codec, param, r) ==> Settle(codec, param, before) == Settled(codec, param, r)
    ensures !r.NotFound? && !Settles(codec, param, r) ==>
              Settle(codec, param, after) == Settle(codec, param, before) && Remaining(after) < Remaining(before)
  {
    EarliestSettles(codec, param, before, if r.NotFound? then |before| else k - 1);
    if !Settles(codec, param, r) {
      UsedUpSettlesAlike(codec, param, before, after, k);
      UsedUpLeavesFewer(before, after, k);
    }
  }

  /** One parameter: asks again until an answer settles it or there are no more. */
  method SatisfyParam(codec: Codec, sourcer: InputSourcer, name: string, param: ParamSpec) returns (r: Settlement)
    requires sourcer.Valid()
    modifies sourcer.sources
    ensures r == Settle(codec, param, Answers(codec, old(sourcer.States()), name))
    ensures SameForOthers(codec, old(sourcer.States()), sourcer.States(), name)
  {
    ghost var was := sourcer.States();
    ghost var now := was;
    while true
      invariant now == sourcer.States() && SameForOthers(codec, was, now, name)
      invariant Settle(codec, param, Answers(codec, now, name)) == Settle(codec, param, Answers(codec, was, name))
      decreases Remaining(Answers(codec, now, name))
    {
      var read, k := sourcer.Source(codec, name);
      AskedOnce(codec, param, Answers(codec, now, name), Answers(codec, sourcer.States(), name), read, k);
      now := sourcer.States();
      if read.NotFound? { return Unsatisfied; }
      if read.StaticDefault? { return LeftToDefault; }
      var arg := Convert(codec, param, read.raw);
      if arg.Some? && codec.validate(arg.value, param) { return Satisfied(arg.value); }
    }
  }

  /** Alphabetical, but a user name comes before its password. */
  ghost predicate InOrder(names: seq<string>, params: map<string, ParamSpec>) {
    && (if params.Keys == {"username", "password"} then names == ["username", "password"] else Listing(names, params.Keys))
    && (forall name :: name in names <==> name in params)
    && (forall i, j :: 0 <= i < j < |names| ==> names[i] != names[j])
  }

  method GetSortedParamNames(params: map<string, ParamSpec>) returns (names: seq<string>)
    ensures InOrder(names, params)
  {
    if |params| == 2 && "username" in params && "password" in params {
      PairOnly(params.Keys, "username", "password");
      return ["username", "password"];
    }
    assert |{"username", "password"}| == 2;
    names := Sorted(params.Keys);
    forall i, j | 0 <= i < j < |names| ensures names[i] != names[j] {
      LessIrreflexive(names[i]);
    }
  }

  lemma PairOnly(s: set<string>, a: string, b: string)
    requires |s| == 2 && a in s && b in s && a != b
    ensures s == {a, b}
  {
    var rest := s - {a, b};
    assert s == rest + {a, b};
    assert |rest| == 0;
  }

  /** The arguments, or the parameter that is not satisfied. */
  datatype Satisfaction = Args(args: map<string, Value>) | FailedToGet(name: string)

  function Settlements(codec: Codec, states: seq<SourceState>, inputs: map<string, ParamSpec>): map<string, Settlement> {
    map name | name in inputs :: Settle(codec, inputs[name], Answers(codec, states, name))
  }

  /** The values found for these names. */
  function Recorded(due: map<string, Settlement>, names: seq<string>): map<string, Value> {
    if names == [] then map[]
    else
      var before, name := Recorded(due, names[..|names| - 1]), names[|names| - 1];
      if name in due && due[name].Satisfied? && due[name].arg.Some? then before[name := due[name].arg.value] else before
  }

  function FirstUnsatisfied(due: map<string, Settlement>, names: seq<string>): Option<string> {
    if names == [] then None
    else if names[0] in due && due[names[0]].Unsatisfied? then Some(names[0])
    else FirstUnsatisfied(due, names[1..])
  }

  lemma {:induction false} RecordedMeans(due: map<string, Settlement>, names: seq<string>, name: string)
    ensures name in Recorded(due, names) <==> name in names && name in due && due[name].Satisfied? && due[name].arg.Some?
    ensures name in Recorded(due, names) ==> Recorded(due, names)[name] == due[name].arg.value
  {
    if names != [] {
      RecordedMeans(due, names[..|names| - 1], name);
      assert names == names[..|names| - 1] + [names[|names| - 1]];
    }
  }

  ghost predicate NoneUnsatisfied(due: map<string, Settlement>, names: seq<string>, i: nat)
    requires i <= |names|
  {
    forall j :: 0 <= j < i ==> !(names[j] in due && due[names[j]].Unsatisfied?)
  }

  lemma {:induction false} FirstUnsatisfiedIs(due: map<string, Settlement>, names: seq<string>, i: nat)
    requires i <= |names| && NoneUnsatisfied(due, names, i)
    ensures i == |names| ==> FirstUnsatisfied(due, names).None?
    ensures i < |names| && names[i] in due && due[names[i]].Unsatisfied? ==> FirstUnsatisfied(due, names) == Some(names[i])
  {
    if i > 0 { FirstUnsatisfiedIs(due, names[1..], i - 1); }
  }

  /** Every parameter is settled on its own merits: the first in order that is unsatisfied fails them all, and
      otherwise exactly the values that were found are recorded. */
  method Satisfy(codec: Codec, sourcer: InputSourcer, inputs: map<string, ParamSpec>) returns (r: Satisfaction, names: seq<string>)
    requires sourcer.Valid()
    modifies sourcer.sources
    ensures InOrder(names, inputs)
    ensures var due := Settlements(codec, old(sourcer.States()), inputs);
      r == if FirstUnsatisfied(due, names).Some? then FailedToGet(FirstUnsatisfied(due, names).value)
           else Args(Recorded(due, names))
  {
    ghost var was := sourcer.States();
    ghost var now, due := was, Settlements(codec, was, inputs);
    names := GetSortedParamNames(inputs);
    var argMap: map<string, Value> := map[];
    for i := 0 to |names|
      invariant now == sourcer.States() && Unasked(codec, was, now, names, i)
      invariant NoneUnsatisfied(due, names, i) && argMap == Recorded(due, names[..i])
    {
      assert names[i] in names;
      var settlement := SatisfyParam(codec, sourcer, names[i], inputs[names[i]]);
      assert settlement == due[names[i]];
      UnaskedStep(codec, was, now, sourcer.States(), names, i, inputs);
      now := sourcer.States();
      if settlement.Unsatisfied? {
        FirstUnsatisfiedIs(due, names, i);
        return FailedToGet(names[i]), names;
      }
      RecordedStep(due, names, i);
      if settlement.Satisfied? && settlement.arg.Some? { argMap := argMap[names[i] := settlement.arg.value]; }
    }
    assert names[..|names|] == names;
    FirstUnsatisfiedIs(due, names, |names|);
    return Args(argMap), names;
  }

  /** The names from the i-th on have all their answers left. */
  ghost predicate Unasked(codec: Codec, was: seq<SourceState>, now: seq<SourceState>, names: seq<string>, i: nat) {
    forall j :: i <= j < |names| ==> Answers(codec, now, names[j]) == Answers(codec, was, names[j])
  }

  lemma UnaskedStep(codec: Codec, was: seq<SourceState>, now: seq<SourceState>, next: seq<SourceState>, names: seq<string>,
                    i: nat, inputs: map<string, ParamSpec>)
    requires i < |names| && InOrder(names, inputs) && Unasked(codec, was, now, names, i)
    requires SameForOthers(codec, now, next, names[i])
    ensures Unasked(codec, was, next, names, i + 1)
  {
  }

  lemma RecordedStep(due: map<string, Settlement>, names: seq<string>, i: nat)
    requires i < |names| && names[i] in due
    ensures Recorded(due, names[..i + 1]) == var d := due[names[i]];
      if d.Satisfied? && d.arg.Some? then Recorded(due, names[..i])[names[i] := d.arg.value] else Recorded(due, names[..i])
  {
    assert names[..i + 1][..i] == names[..i];
  }
}
