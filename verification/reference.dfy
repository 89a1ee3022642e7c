/** References such as `$(a.b[2].c)`, and when they panic. */
module Reference {
  // A name in scope, then steps into objects, arrays and directories.

  import opened Text
  import opened Values
  import Interpolater

  /** A result, an error, or a panic. */
  datatype Outcome<+T> = Done(value: T) | Failed | Panicked {
    predicate IsFailure() { !Done? }

    function PropagateFailure<U>(): Outcome<U>
      requires IsFailure()
    {
      if Failed? then Failed else Panicked
    }

    function Extract(): T
      requires !IsFailure()
    {
      value
    }
  }

  /** What lies outside: JSON text, number formatting and the file system. */
  datatype World = World(
    parseArray: string -> Option<seq<Data>>,
    parseObject: string -> Option<map<string, Data>>,
    marshal: Value -> Option<string>,
    readFile: string -> Option<string>,
    isDir: string -> Option<bool>,          // None if there is no such entry
    joinPath: (string, string) -> string)

  /** A scope as Go has it: a variable can be bound to nil. */
  type Variables = map<string, Option<Value>>

  // ---------- coercions ----------

  function ToArray(data: Option<Value>, w: World): (r: Outcome<seq<Data>>)
    ensures !r.Panicked?
  {
    if data.None? then Failed
    else match data.value
    case ArrayValue(items) => Done(items)
    case FileValue(path) =>
      var text := w.readFile(path);
      if text.None? then Failed else Parsed(w.parseArray(text.value))
    case StringValue(s) => Parsed(w.parseArray(s))
    case _ => Failed
  }

  /** Nil is coerced to no object, without an error, and that is dereferenced. */
  function ToObject(data: Option<Value>, w: World): (r: Outcome<map<string, Data>>)
    ensures r.Panicked? <==> data.None?
  {
    if data.None? then Panicked
    else match data.value
    case ObjectValue(props) => Done(props)
    case FileValue(path) =>
      var text := w.readFile(path);
      if text.None? then Failed else Parsed(w.parseObject(text.value))
    case StringValue(s) => Parsed(w.parseObject(s))
    case _ => Failed
  }

  function Parsed<T>(o: Option<T>): Outcome<T> {
    if o.Some? then Done(o.value) else Failed
  }

  function ToString(data: Option<Value>, w: World): (r: Outcome<string>)
    ensures !r.Panicked?
  {
    if data.None? then Done("")
    else match data.value
    case ArrayValue(_) => Parsed(w.marshal(data.value))
    case ObjectValue(_) => Parsed(w.marshal(data.value))
    case NumberValue(_) => Parsed(w.marshal(data.value))
    case BooleanValue(b) => Done(if b then "true" else "false")
    case FileValue(path) => Parsed(w.readFile(path))
    case StringValue(s) => Done(s)
    case DirValue(_) => Failed
    case SocketValue(_) => Failed
  }

  /** A typed value from native data; null has none. */
  function Construct(d: Data): (r: Outcome<Option<Value>>)
    ensures !r.Panicked? && (r.Done? ==> r.value.Some?)
  {
    match d
    case Null => Failed
    case Bool(b) => Done(Some(BooleanValue(b)))
    case Num(n) => Done(Some(NumberValue(n)))
    case Str(s) => Done(Some(StringValue(s)))
    case Arr(items) => Done(Some(ArrayValue(items)))
    case Obj(props) => Done(Some(ObjectValue(props)))
  }

  // ---------- indexes ----------

  const INT64_LIMIT := 0x8000_0000_0000_0000

  predicate IsDigit(c: char) { '0' <= c <= '9' }

  function ParseDigits(s: string): Option<nat> {
    if s == "" then Some(0)
    else
      var front, c := ParseDigits(s[..|s| - 1]), s[|s| - 1];
      if front.Some? && IsDigit(c) then Some(10 * front.value + (c - '0') as nat) else None
  }

  /** `strconv.ParseInt` in base 10 for 64 bits. */
  function ParseInt(s: string): Option<int> {
    if s == "" then None
    else
      var digits := if s[0] == '-' || s[0] == '+' then s[1..] else s;
      var n := ParseDigits(digits);
      if digits == "" || n.None? then None
      else if s[0] == '-' then
        if n.value <= INT64_LIMIT then Some(0 - n.value as int) else None
      else if n.value < INT64_LIMIT then Some(n.value)
      else None
  }

  /** The position in an array that an index stands for; negative indexes count from the end. */
  function ParseIndex(identifier: string, length: nat): (r: Outcome<nat>)
    ensures r.Done? ==> r.value < length
    ensures !r.Panicked?
  {
    var index := ParseInt(identifier);
    if index.None? then Failed
    else if index.value < 0 then (if length + index.value < 0 then Failed else Done(length + index.value))
    else if index.value >= length then Failed
    else Done(index.value)
  }

  function Decimal(n: nat): string {
    if n < 10 then [Digit(n)] else Decimal(n / 10) + [Digit(n % 10)]
  }

  function DecimalInt(i: int): string {
    if i < 0 then "-" + Decimal(-i) else Decimal(i)
  }

  lemma {:induction false} ParseDecimal(n: nat)
    ensures Decimal(n) != "" && IsDigit(Decimal(n)[0]) && ParseDigits(Decimal(n)) == Some(n)
  {
    if n < 10 {
      assert [Digit(n)][..0] == "";
    } else {
      ParseDecimal(n / 10);
      var s := Decimal(n);
      assert s[..|s| - 1] == Decimal(n / 10);
    }
  }

  lemma ParsePrintedInt(i: int)
    requires -INT64_LIMIT <= i < INT64_LIMIT
    ensures ParseInt(DecimalInt(i)) == Some(i)
  {
    ParseDecimal(if i < 0 then -i else i);
  }

  /** Printed indexes hit what they count to, from the front or from the end, and nothing out of range. */
  lemma IndexRoundTrip(i: int, length: nat)
    requires -INT64_LIMIT <= i < INT64_LIMIT
    ensures ParseIndex(DecimalInt(i), length) ==
      if 0 <= i < length then Done(i) else if i < 0 <= length + i then Done(length + i) else Failed
  {
    ParsePrintedInt(i);
  }

  // ---------- one step ----------

  predicate IsDelimiter(c: char) { c == '.' || c == '[' || c == '/' }

  /** An identifier ends before the first delimiter. */
  function Split(ref: string): (r: (string, string))
    ensures ref == r.0 + r.1
    ensures forall c :: c in r.0 ==> !IsDelimiter(c)
    ensures r.1 != "" ==> IsDelimiter(r.1[0])
  {
    if ref == "" || IsDelimiter(ref[0]) then ("", ref)
    else
      var (identifier, rest) := Split(ref[1..]);
      ([ref[0]] + identifier, rest)
  }

  lemma {:induction false} SplitIsUnique(ref: string, identifier: string, rest: string)
    requires ref == identifier + rest
    requires forall c :: c in identifier ==> !IsDelimiter(c)
    requires rest != "" ==> IsDelimiter(rest[0])
    ensures Split(ref) == (identifier, rest)
  {
    if identifier == "" {
      assert ref == rest;
    } else {
      assert identifier[0] in identifier && ref[0] == identifier[0];
      assert ref[1..] == identifier[1..] + rest && identifier == [identifier[0]] + identifier[1..];
      SplitIsUnique(ref[1..], identifier[1..], rest);
    }
  }

  /** `unbracketed.Parse` as it runs. */
  method ParseIdentifier(ref: string) returns (identifier: string, rest: string)
    ensures (identifier, rest) == Split(ref)
  {
    for i := 0 to |ref|
      invariant forall c :: c in ref[..i] ==> !IsDelimiter(c)
    {
      if IsDelimiter(ref[i]) {
        SplitIsUnique(ref, ref[..i], ref[i..]);
        return ref[..i], ref[i..];
      }
      assert ref[..i + 1] == ref[..i] + [ref[i]];
    }
    assert ref[..|ref|] == ref;
    SplitIsUnique(ref, ref, "");
    return ref, "";
  }

  function IndexOf(s: string, c: char): (r: Option<nat>)
    ensures r.Some? ==> r.value < |s| && s[r.value] == c && c !in s[..r.value]
    ensures r.None? <==> c !in s
  {
    if s == "" then None
    else if s[0] == c then Some(0)
    else
      var rest := IndexOf(s[1..], c);
      if rest.None? then None else Some(rest.value + 1)
  }

  lemma {:induction false} IndexOfFirst(before: string, c: char, after: string)
    requires c !in before
    ensures IndexOf(before + [c] + after, c) == Some(|before|)
  {
    if before != "" {
      assert (before + [c] + after)[1..] == before[1..] + [c] + after;
      IndexOfFirst(before[1..], c, after);
    }
  }

  /** Into an array by index, or into an object by name. */
  function Bracketed(identifier: string, data: Option<Value>, w: World): (r: Outcome<Option<Value>>)
    ensures r.Panicked? <==> data.None?
  {
    var items := ToArray(data, w);
    if items.Done? then
      var index :- ParseIndex(identifier, |items.value|);
      Construct(items.value[index])
    else
      var props :- ToObject(data, w);
      Construct(if identifier in props then props[identifier] else Null)
  }

  /** Into an object by name. */
  function Unbracketed(identifier: string, data: Option<Value>, w: World): (r: Outcome<Option<Value>>)
    ensures r.Panicked? <==> data.None?
  {
    var props :- ToObject(data, w);
    if identifier in props then Construct(props[identifier]) else Failed
  }

  predicate IsDirectory(data: Option<Value>) {
    data.Some? && data.value.DirValue?
  }

  /** Into a directory by path. A value that is no directory is dereferenced all the same. */
  function DirEntry(path: string, data: Option<Value>, w: World): (r: Outcome<Option<Value>>)
    ensures r.Panicked? <==> !IsDirectory(data)
  {
    if !IsDirectory(data) then Panicked
    else
      var full := w.joinPath(data.value.path, path);
      match w.isDir(full)
      case None => Failed
      case Some(isDir) => Done(Some(if isDir then DirValue(full) else FileValue(full)))
  }

  // ---------- the evaluator ----------

  /** `rInterpret`: every step leaves strictly less to read. */
  function Follow(ref: string, data: Option<Value>, w: World): Outcome<Option<Value>>
    decreases |ref|
  {
    if ref == "" then Done(data)
    else if ref[0] == '[' then
      var close := IndexOf(ref, ']');
      if close.None? then Failed
      else
        var next :- Bracketed(ref[1..close.value], data, w);
        Follow(ref[close.value + 1..], next, w)
    else if ref[0] == '.' then
      var (identifier, rest) := Split(ref[1..]);
      var next :- Unbracketed(identifier, data, w);
      Follow(rest, next, w)
    else if ref[0] == '/' then
      DirEntry(ref, data, w)
    else Failed
  }

  /** The value that a reference starts from, and what is left of the reference. */
  function Root(ref: string, scope: Variables): Outcome<(Option<Value>, string)> {
    if "/" <= ref then Done((Unchecked("/", scope), ref))
    else if "./" <= ref then Done((Unchecked("./", scope), ref[1..]))
    else if "../" <= ref then Done((Unchecked("../", scope), ref[2..]))
    else
      var (identifier, rest) := Split(ref);
      if identifier in scope then Done((scope[identifier], rest)) else Failed
  }

  /** The three directory names are looked up unchecked; one that is missing gives nil. */
  function Unchecked(name: string, scope: Variables): Option<Value> {
    if name in scope then scope[name] else None
  }

  function Evaluate(ref: string, scope: Variables, w: World): Outcome<Option<Value>> {
    var (value, rest) :- Root(ref, scope);
    Follow(rest, value, w)
  }

  function EvaluateToString(ref: string, scope: Variables, w: World): Outcome<string> {
    var value :- Evaluate(ref, scope, w);
    ToString(value, w)
  }

  /** What nested references are replaced by. */
  function EvaluateIn(scope: Variables, w: World): string -> Outcome<string> {
    nested => EvaluateToString(nested, scope, w)
  }

  /** Replaces the references nested one level deep by what `eval` makes of them. */
  function Nested(ref: string, eval: string -> Outcome<string>): Outcome<string>
    decreases |ref|
  {
    if ref == "" then Done("")
    else if ref[0] != '$' then Prepend([ref[0]], Nested(ref[1..], eval))
    else if |ref| < 2 then Panicked
    else
      var close := IndexOf(ref[2..], ')');
      if close.None? then Failed
      else
        var text := eval(ref[2..2 + close.value]);
        if text.IsFailure() then text else Prepend(text.value, Nested(ref[2 + close.value + 1..], eval))
  }

  function Prepend(s: string, rest: Outcome<string>): Outcome<string> {
    match rest
    case Done(t) => Done(s + t)
    case Failed => Failed
    case Panicked => Panicked
  }

  function Interpret(ref: string, scope: Variables, w: World): Outcome<Option<Value>> {
    var flat :- Nested(RefToName(ref), EvaluateIn(scope, w));
    Evaluate(flat, scope, w)
  }

  /** The nested reference behind the `$` at position `i`, and where it ends. */
  method EvaluateNested(ref: string, i: nat, eval: string -> Outcome<string>) returns (text: Outcome<string>, next: nat)
    requires i < |ref| && ref[i] == '$'
    ensures text.Done? ==> i < next <= |ref|
    ensures Nested(ref[i..], eval) == if text.Done? then Prepend(text.value, Nested(ref[next..], eval)) else text
  {
    var left := ref[i..];
    next := i;
    if i + 2 > |ref| { return Panicked, next; }
    assert left[2..] == ref[i + 2..];
    var close := IndexOf(ref[i + 2..], ')');
    if close.None? { return Failed, next; }
    var nestedRef := ref[i + 2..i + 2 + close.value];
    assert left[2..2 + close.value] == nestedRef && left[2 + close.value + 1..] == ref[i + 2 + close.value + 1..];
    next := i + 2 + |nestedRef| + 1;
    text := eval(nestedRef);
  }

  /** `interpolate` as it runs. */
  method InterpolateRef(ref: string, eval: string -> Outcome<string>) returns (r: Outcome<string>)
    ensures r == Nested(ref, eval)
  {
    var refBuffer, i := "", 0;
    assert ref[0..] == ref;
    PrependNothing(Nested(ref, eval));
    while i < |ref|
      invariant i <= |ref|
      invariant Nested(ref, eval) == Prepend(refBuffer, Nested(ref[i..], eval))
      decreases |ref| - i
    {
      if ref[i] == '$' {
        var text, next := EvaluateNested(ref, i, eval);
        if !text.Done? { return text; }
        PrependTwice(refBuffer, text.value, Nested(ref[next..], eval));
        refBuffer, i := refBuffer + text.value, next;
      } else {
        assert ref[i..][1..] == ref[i + 1..];
        PrependTwice(refBuffer, [ref[i]], Nested(ref[i + 1..], eval));
        refBuffer, i := refBuffer + [ref[i]], i + 1;
      }
    }
    assert ref[i..] == "" && refBuffer + "" == refBuffer;
    return Done(refBuffer);
  }

  lemma PrependNothing(rest: Outcome<string>)
    ensures Prepend("", rest) == rest
  {
    if rest.Done? { assert "" + rest.value == rest.value; }
  }

  lemma PrependTwice(a: string, b: string, rest: Outcome<string>)
    ensures Prepend(a, Prepend(b, rest)) == Prepend(a + b, rest)
  {
    if rest.Done? { assert a + (b + rest.value) == a + b + rest.value; }
  }

  // ---------- paths ----------

  datatype Segment = Dot(name: string) | Bracket(text: string)

  /** What one step can spell. */
  predicate Plain(segment: Segment) {
    match segment
    case Dot(name) => PlainRoot(name)
    case Bracket(text) => ']' !in text
  }

  predicate PlainRoot(root: string) {
    forall c :: c in root ==> !IsDelimiter(c)
  }

  /** And with nothing nested in it. */
  predicate Legal(segment: Segment) {
    Plain(segment) && '$' !in if segment.Dot? then segment.name else segment.text
  }

  predicate LegalRoot(root: string) {
    PlainRoot(root) && '$' !in root
  }

  function PrintSegment(segment: Segment): string {
    match segment
    case Dot(name) => "." + name
    case Bracket(text) => "[" + text + "]"
  }

  function PrintPath(path: seq<Segment>): string {
    if path == [] then "" else PrintSegment(path[0]) + PrintPath(path[1..])
  }

  function GoTo(value: Option<Value>, segment: Segment, w: World): Outcome<Option<Value>> {
    match segment
    case Dot(name) => Unbracketed(name, value, w)
    case Bracket(text) => Bracketed(text, value, w)
  }

  /** Going from value to value, one segment at a time. */
  function Navigate(value: Option<Value>, path: seq<Segment>, w: World): Outcome<Option<Value>>
    decreases |path|
  {
    if path == [] then Done(value)
    else
      var next :- GoTo(value, path[0], w);
      Navigate(next, path[1..], w)
  }

  lemma {:induction false} PrintedPathStarts(path: seq<Segment>)
    ensures PrintPath(path) != "" ==> PrintPath(path)[0] == '.' || PrintPath(path)[0] == '['
  {
  }

  lemma FollowDot(name: string, rest: string, value: Option<Value>, w: World)
    requires PlainRoot(name) && (rest != "" ==> IsDelimiter(rest[0]))
    ensures Follow("." + name + rest, value, w) == var next :- Unbracketed(name, value, w); Follow(rest, next, w)
  {
    assert ("." + name + rest)[1..] == name + rest;
    SplitIsUnique(name + rest, name, rest);
  }

  lemma FollowBracket(text: string, rest: string, value: Option<Value>, w: World)
    requires ']' !in text
    ensures Follow("[" + text + "]" + rest, value, w) == var next :- Bracketed(text, value, w); Follow(rest, next, w)
  {
    var ref := "[" + text + "]" + rest;
    IndexOfFirst("[" + text, ']', rest);
    assert ref[1..|text| + 1] == text && ref[|text| + 2..] == rest;
  }

  lemma FollowSegment(segment: Segment, rest: string, value: Option<Value>, w: World)
    requires Plain(segment) && (rest != "" && segment.Dot? ==> IsDelimiter(rest[0]))
    ensures Follow(PrintSegment(segment) + rest, value, w) == var next :- GoTo(value, segment, w); Follow(rest, next, w)
  {
    match segment
    case Dot(name) => FollowDot(name, rest, value, w);
    case Bracket(text) => FollowBracket(text, rest, value, w);
  }

  lemma PrintedTail(path: seq<Segment>, tail: string)
    requires path != []
    ensures PrintPath(path) + tail == PrintSegment(path[0]) + (PrintPath(path[1..]) + tail)
  {
    var first, rest := PrintSegment(path[0]), PrintPath(path[1..]);
    assert first + rest + tail == first + (rest + tail);
  }

  /** Following the print of a path is going there, and then on from there. */
  lemma {:induction false} FollowNavigates(value: Option<Value>, path: seq<Segment>, tail: string, w: World)
    requires (forall s :: s in path ==> Plain(s)) && (tail != "" ==> IsDelimiter(tail[0]))
    ensures Follow(PrintPath(path) + tail, value, w) ==
      var there :- Navigate(value, path, w); Follow(tail, there, w)
    decreases |path|
  {
    if path == [] {
      assert "" + tail == tail;
    } else {
      assert Plain(path[0]);
      PrintedPathStarts(path[1..]);
      var rest := PrintPath(path[1..]) + tail;
      PrintedTail(path, tail);
      FollowSegment(path[0], rest, value, w);
      var next := GoTo(value, path[0], w);
      if next.Done? { FollowNavigates(next.value, path[1..], tail, w); }
    }
  }

  lemma {:induction false} NoDollarNoNesting(ref: string, eval: string -> Outcome<string>)
    requires '$' !in ref
    ensures Nested(ref, eval) == Done(ref)
  {
    if ref != "" {
      NoDollarNoNesting(ref[1..], eval);
      assert [ref[0]] + ref[1..] == ref;
    }
  }

  lemma {:induction false} PathHasNoDollar(path: seq<Segment>)
    requires forall s :: s in path ==> Legal(s)
    ensures '$' !in PrintPath(path)
  {
    if path != [] { PathHasNoDollar(path[1..]); assert Legal(path[0]); }
  }

  lemma DotHasNoSlash(segment: Segment)
    requires Plain(segment) && segment.Dot?
    ensures '/' !in PrintSegment(segment)
  {
    assert forall c :: c in PrintSegment(segment) ==> c == '.' || c in segment.name;
  }

  /** Before a slash there is an opening bracket. */
  ghost predicate SlashBehindBracket(s: string) {
    forall k :: 0 <= k < |s| && s[k] == '/' ==> exists j :: 0 <= j < k && s[j] == '['
  }

  lemma SlashBehindBracketInTail(first: string, rest: string)
    requires ('/' !in first || (first != "" && first[0] == '[')) && SlashBehindBracket(rest)
    ensures SlashBehindBracket(first + rest)
  {
    var s := first + rest;
    forall k | 0 <= k < |s| && s[k] == '/' ensures exists j :: 0 <= j < k && s[j] == '[' {
      if first != "" && first[0] == '[' {
        assert s[0] == '[';
      } else {
        assert k >= |first| && rest[k - |first|] == '/';
        var j :| 0 <= j < k - |first| && rest[j] == '[';
        assert s[j + |first|] == '[';
      }
    }
  }

  /** In a printed path, a slash can only stand behind an opening bracket. */
  lemma {:induction false} SlashNeedsBracket(path: seq<Segment>)
    requires forall s :: s in path ==> Legal(s)
    ensures SlashBehindBracket(PrintPath(path))
  {
    if path != [] {
      assert Legal(path[0]);
      SlashNeedsBracket(path[1..]);
      if path[0].Dot? { DotHasNoSlash(path[0]); } else { assert PrintSegment(path[0])[0] == '['; }
      SlashBehindBracketInTail(PrintSegment(path[0]), PrintPath(path[1..]));
    }
  }

  lemma StartsAlike(p: string, ref: string, k: nat)
    requires k < |p|
    ensures p <= ref ==> k < |ref| && ref[k] == p[k]
  {
  }

  lemma PathIsNoDirectory(root: string, path: seq<Segment>)
    requires LegalRoot(root) && forall s :: s in path ==> Legal(s)
    ensures var ref := root + PrintPath(path); !("/" <= ref) && !("./" <= ref) && !("../" <= ref)
  {
    var ref := root + PrintPath(path);
    StartsAlike("/", ref, 0);
    StartsAlike("./", ref, 0);
    StartsAlike("./", ref, 1);
    StartsAlike("../", ref, 0);
    StartsAlike("../", ref, 1);
    StartsAlike("../", ref, 2);
    SlashNeedsBracket(path);
    assert '/' !in root by { assert IsDelimiter('/'); }
    SlashBehindBracketInTail(root, PrintPath(path));
  }

  lemma EvaluateNavigates(root: string, path: seq<Segment>, scope: Variables, w: World)
    requires LegalRoot(root) && forall s :: s in path ==> Legal(s)
    ensures Evaluate(root + PrintPath(path), scope, w) ==
      if root in scope then Navigate(scope[root], path, w) else Failed
  {
    PathIsNoDirectory(root, path);
    PrintedPathStarts(path);
    SplitIsUnique(root + PrintPath(path), root, PrintPath(path));
    if root in scope {
      FollowNavigates(scope[root], path, "", w);
      assert PrintPath(path) + "" == PrintPath(path);
    }
  }

  /** A printed reference evaluates to what going there step by step gives, errors included. */
  lemma ReferenceNavigates(root: string, path: seq<Segment>, scope: Variables, w: World)
    requires LegalRoot(root) && forall s :: s in path ==> Legal(s)
    ensures Interpret("$(" + (root + PrintPath(path)) + ")", scope, w) ==
      if root in scope then Navigate(scope[root], path, w) else Failed
  {
    var ref := root + PrintPath(path);
    assert ("$(" + ref + ")")[2..] == ref + ")" && (ref + ")")[..|ref|] == ref;
    PathHasNoDollar(path);
    NoDollarNoNesting(ref, EvaluateIn(scope, w));
    EvaluateNavigates(root, path, scope, w);
  }

  /** `[i]` on an array of n items: item i counted from the front, n + i for negative i, else an error. */
  lemma ItemsCountFromBothEnds(items: seq<Data>, i: int, w: World)
    requires -INT64_LIMIT <= i < INT64_LIMIT
    ensures Navigate(Some(ArrayValue(items)), [Bracket(DecimalInt(i))], w) ==
      if 0 <= i < |items| then Construct(items[i])
      else if i < 0 <= |items| + i then Construct(items[|items| + i])
      else Failed
  {
    IndexRoundTrip(i, |items|);
    var item := Bracketed(DecimalInt(i), Some(ArrayValue(items)), w);
    if item.Done? { assert Navigate(item.value, [], w) == item; }
  }

  // ---------- where paths lead in native data ----------

  /** The native data that a typed value is made of. */
  function Native(v: Value): Option<Data> {
    match v
    case ArrayValue(items) => Some(Arr(items))
    case BooleanValue(b) => Some(Bool(b))
    case NumberValue(n) => Some(Num(n))
    case ObjectValue(props) => Some(Obj(props))
    case StringValue(s) => Some(Str(s))
    case _ => None
  }

  /** What paths lead through: a file is text. */
  function Content(v: Value, w: World): Option<Data> {
    if v.FileValue? then if w.readFile(v.path).Some? then Some(Str(w.readFile(v.path).value)) else None
    else Native(v)
  }

  /** The items of an array, which may be written as text. */
  function ItemsOf(d: Data, w: World): Option<seq<Data>> {
    match d
    case Arr(items) => Some(items)
    case Str(s) => w.parseArray(s)
    case _ => None
  }

  function MembersOf(d: Data, w: World): Option<map<string, Data>> {
    match d
    case Obj(props) => Some(props)
    case Str(s) => w.parseObject(s)
    case _ => None
  }

  function Zeros(n: nat): (s: string)
    ensures |s| == n
  {
    seq(n, _ => '0')
  }

  /** A decimal, perhaps with a sign and leading zeros. */
  ghost predicate SpellsInt(text: string, i: int) {
    exists sign, n :: SpelledWith(text, i, sign, n)
  }

  predicate SpelledWith(text: string, i: int, sign: string, zeros: nat) {
    && sign in {"", "+", "-"} && (i < 0 ==> sign == "-") && (i > 0 ==> sign != "-")
    && text == sign + (Zeros(zeros) + Decimal(if i < 0 then -i else i))
  }

  /** The text is an index of an array of that length: negative ones count from its end. */
  ghost predicate Indexes(text: string, i: int, length: nat) {
    SpellsInt(text, i) && -INT64_LIMIT <= i < INT64_LIMIT && 0 - length <= i < length
  }

  ghost function ItemAt(items: seq<Data>, text: string): Option<Data> {
    if i :| Indexes(text, i, |items|) then Some(items[if i < 0 then |items| + i else i]) else None
  }

  function MemberAt(members: Option<map<string, Data>>, name: string): Option<Data> {
    if members.Some? && name in members.value then Some(members.value[name]) else None
  }

  ghost function StepAt(d: Data, segment: Segment, w: World): Option<Data> {
    match segment
    case Dot(name) => MemberAt(MembersOf(d, w), name)
    case Bracket(text) => if ItemsOf(d, w).Some? then ItemAt(ItemsOf(d, w).value, text) else MemberAt(MembersOf(d, w), text)
  }

  /** What is at the end of the path, if there is anything. */
  ghost function At(d: Data, path: seq<Segment>, w: World): Option<Data>
    decreases |path|
  {
    if path == [] then Some(d)
    else
      var next := StepAt(d, path[0], w);
      if next.Some? then At(next.value, path[1..], w) else None
  }

  /** The typed value of that data, and an error exactly if there is none, or null. */
  predicate Gives(r: Outcome<Option<Value>>, found: Option<Data>) {
    if found.None? || found.value.Null? then r.Failed?
    else r.Done? && r.value.Some? && Native(r.value.value) == found
  }

  lemma DecimalTenfold(n: nat, d: nat)
    requires d < 10 && n > 0
    ensures Decimal(10 * n + d) == Decimal(n) + [Digit(d)]
  {
  }

  lemma {:induction false} DigitsSpell(s: string, n: nat)
    requires s != ""
    ensures ParseDigits(s) == Some(n) <==> exists k: nat :: s == Zeros(k) + Decimal(n)
  {
    if ParseDigits(s) == Some(n) { var k := LeadingZeros(s, n); }
    if k: nat :| s == Zeros(k) + Decimal(n) { ParseWithZeros(k, n); }
  }

  lemma {:induction false} LeadingZeros(s: string, n: nat) returns (k: nat)
    requires s != "" && ParseDigits(s) == Some(n)
    ensures s == Zeros(k) + Decimal(n)
  {
    var front, d := s[..|s| - 1], (s[|s| - 1] - '0') as nat;
    assert s == front + [Digit(d)];
    if front == "" {
      k := 0;
    } else {
      var f := ParseDigits(front).value;
      k := LeadingZeros(front, f);
      if f == 0 {
        k := k + 1;
        assert front == Zeros(k);
      } else {
        DecimalTenfold(f, d);
        assert Zeros(k) + Decimal(f) + [Digit(d)] == Zeros(k) + (Decimal(f) + [Digit(d)]);
      }
    }
  }

  lemma {:induction false} ParseWithZeros(k: nat, n: nat)
    ensures ParseDigits(Zeros(k) + Decimal(n)) == Some(n)
    decreases n
  {
    var s := Zeros(k) + Decimal(n);
    if n < 10 {
      ParseZeros(k);
      assert s[..|s| - 1] == Zeros(k);
    } else {
      ParseWithZeros(k, n / 10);
      assert s[..|s| - 1] == Zeros(k) + Decimal(n / 10);
    }
  }

  lemma {:induction false} ParseZeros(k: nat)
    ensures ParseDigits(Zeros(k)) == Some(0)
  {
    if k > 0 {
      ParseZeros(k - 1);
      assert Zeros(k)[..k - 1] == Zeros(k - 1);
    }
  }

  lemma SignedParses(sign: string, digits: string, m: nat)
    requires sign in {"", "+", "-"} && digits != "" && IsDigit(digits[0]) && ParseDigits(digits) == Some(m)
    ensures ParseInt(sign + digits) ==
      if sign == "-" then if m <= INT64_LIMIT then Some(0 - m) else None else if m < INT64_LIMIT then Some(m) else None
  {
    assert sign == "" ==> sign + digits == digits;
    assert sign != "" ==> (sign + digits)[0] == sign[0] && (sign + digits)[1..] == digits;
  }

  lemma SpelledParses(text: string, i: int)
    requires SpellsInt(text, i) && -INT64_LIMIT <= i < INT64_LIMIT
    ensures ParseInt(text) == Some(i)
  {
    var m := if i < 0 then -i else i;
    var sign, zeros :| SpelledWith(text, i, sign, zeros);
    ParseDecimal(m);
    ParseWithZeros(zeros, m);
    SignedParses(sign, Zeros(zeros) + Decimal(m), m);
  }

  lemma ParsedSpells(text: string, i: int)
    requires ParseInt(text) == Some(i)
    ensures SpellsInt(text, i) && -INT64_LIMIT <= i < INT64_LIMIT
  {
    var m := if i < 0 then -i else i;
    var sign := if text[0] == '-' || text[0] == '+' then [text[0]] else "";
    var digits := text[|sign|..];
    assert text == sign + digits;
    assert ParseDigits(digits) == Some(m);
    var zeros := LeadingZeros(digits, m);
    assert sign in {"", "+", "-"};
    assert SpelledWith(text, i, sign, zeros);
  }

  /** Parsing an integer finds what the text spells, within 64 bits. */
  lemma ParseIntIff(text: string, i: int)
    ensures ParseInt(text) == Some(i) <==> SpellsInt(text, i) && -INT64_LIMIT <= i < INT64_LIMIT
  {
    if ParseInt(text) == Some(i) { ParsedSpells(text, i); }
    if SpellsInt(text, i) && -INT64_LIMIT <= i < INT64_LIMIT { SpelledParses(text, i); }
  }

  lemma IndexIsItem(items: seq<Data>, text: string)
    ensures ItemAt(items, text) ==
      if ParseIndex(text, |items|).Done? then Some(items[ParseIndex(text, |items|).value]) else None
  {
    forall i | Indexes(text, i, |items|) ensures ParseInt(text) == Some(i) { ParseIntIff(text, i); }
    if ParseInt(text).Some? {
      var i := ParseInt(text).value;
      ParseIntIff(text, i);
      assert Indexes(text, i, |items|) <==> 0 - |items| <= i < |items|;
    }
  }

  lemma ArrayIs(v: Value, d: Data, w: World)
    requires Content(v, w) == Some(d)
    ensures ToArray(Some(v), w) == if ItemsOf(d, w).Some? then Done(ItemsOf(d, w).value) else Failed
  {
  }

  lemma ObjectIs(v: Value, d: Data, w: World)
    requires Content(v, w) == Some(d)
    ensures ToObject(Some(v), w) == if MembersOf(d, w).Some? then Done(MembersOf(d, w).value) else Failed
  {
  }

  lemma ConstructGives(found: Option<Data>)
    ensures Gives(if found.Some? then Construct(found.value) else Failed, found)
  {
  }

  lemma UnbracketedGives(v: Value, name: string, d: Data, w: World)
    requires Content(v, w) == Some(d)
    ensures Gives(Unbracketed(name, Some(v), w), MemberAt(MembersOf(d, w), name))
  {
    ObjectIs(v, d, w);
    ConstructGives(MemberAt(MembersOf(d, w), name));
  }

  lemma BracketedGives(v: Value, text: string, d: Data, w: World)
    requires Content(v, w) == Some(d)
    ensures var found := if ItemsOf(d, w).Some? then ItemAt(ItemsOf(d, w).value, text) else MemberAt(MembersOf(d, w), text);
      Gives(Bracketed(text, Some(v), w), found)
  {
    ArrayIs(v, d, w);
    if ItemsOf(d, w).Some? {
      IndexIsItem(ItemsOf(d, w).value, text);
      ConstructGives(ItemAt(ItemsOf(d, w).value, text));
    } else {
      ObjectIs(v, d, w);
      ConstructGives(MemberAt(MembersOf(d, w), text));
    }
  }

  /** One step gives what is there. */
  lemma GoToGives(v: Value, segment: Segment, d: Data, w: World)
    requires Content(v, w) == Some(d)
    ensures Gives(GoTo(Some(v), segment, w), StepAt(d, segment, w))
  {
    match segment
    case Dot(name) => UnbracketedGives(v, name, d, w);
    case Bracket(text) => BracketedGives(v, text, d, w);
  }

  lemma {:induction false} NavigateGives(v: Value, path: seq<Segment>, d: Data, w: World)
    requires Content(v, w) == Some(d) && path != []
    ensures Gives(Navigate(Some(v), path, w), At(d, path, w))
    decreases |path|
  {
    GoToGives(v, path[0], d, w);
    var next := GoTo(Some(v), path[0], w);
    if next.Done? {
      var there := Native(next.value.value).value;
      if path[1..] != [] {
        NavigateGives(next.value.value, path[1..], there, w);
      } else {
        assert At(there, [], w) == Some(there);
      }
    } else if StepAt(d, path[0], w).Some? {
      NullHasNothing(path[1..], w);
    }
  }

  lemma NullHasNothing(path: seq<Segment>, w: World)
    ensures At(Null, path, w) == if path == [] then Some(Null) else None
  {
  }

  /** A reference to a variable is its value; one with a path gives what the path leads to in the variable's data. It is
      an error exactly if the variable is not there, or has no data, or nothing or null is at the end of the path. */
  lemma InterpretFinds(root: string, path: seq<Segment>, scope: Variables, w: World)
    requires LegalRoot(root) && forall s :: s in path ==> Legal(s)
    requires root in scope && path != [] ==> scope[root].Some?
    ensures var r := Interpret("$(" + (root + PrintPath(path)) + ")", scope, w);
      if root !in scope then r == Failed
      else if path == [] then r == Done(scope[root])
      else match Content(scope[root].value, w)
        case None => r == Failed
        case Some(d) => Gives(r, At(d, path, w))
  {
    ReferenceNavigates(root, path, scope, w);
    if root in scope && path != [] {
      var v := scope[root].value;
      if Content(v, w).Some? { NavigateGives(v, path, Content(v, w).value, w); }
    }
  }

  // ---------- directories ----------

  /** What is at a path of the file system. */
  function FileSystemGives(full: string, w: World): Outcome<Option<Value>> {
    match w.isDir(full)
    case None => Failed
    case Some(true) => Done(Some(DirValue(full)))
    case Some(false) => Done(Some(FileValue(full)))
  }

  /** A slash after a directory's name leads to what is at the joined path; the rest of the reference is that path. */
  lemma EntersDirectory(name: string, entry: string, scope: Variables, w: World)
    requires LegalRoot(name) && '$' !in entry && name != "" && name in scope && IsDirectory(scope[name])
    ensures Interpret("$(" + (name + ("/" + entry)) + ")", scope, w) ==
      FileSystemGives(w.joinPath(scope[name].value.path, "/" + entry), w)
  {
    var ref := name + ("/" + entry);
    RefToNameOfRef(NameToRef(ref), ref);
    NoDollarNoNesting(ref, EvaluateIn(scope, w));
    assert ref[0] == name[0] && name[0] in name;
    SplitIsUnique(ref, name, "/" + entry);
  }

  /** So do the names of the op's own directories, which are written with the slash. */
  lemma EntersOwnDirectory(name: string, entry: string, scope: Variables, w: World)
    requires name in {"/", "./", "../"} && '$' !in entry && HasDirectory(name, scope)
    ensures Interpret("$(" + (name + entry) + ")", scope, w) ==
      FileSystemGives(w.joinPath(scope[name].value.path, "/" + entry), w)
  {
    var ref := name + entry;
    RefToNameOfRef(NameToRef(ref), ref);
    NoDollarNoNesting(ref, EvaluateIn(scope, w));
    assert ref[|name| - 1..] == "/" + entry && name <= ref;
    assert name == "./" ==> ref[0] == '.' && ref[1] == '/';
    assert name == "../" ==> ref[0] == '.' && ref[1] == '.';
  }

  // ---------- references inside references ----------

  lemma NestedGives(before: string, inner: string, after: string, eval: string -> Outcome<string>)
    requires '$' !in before && '$' !in after && ')' !in inner && eval(inner).Done?
    ensures Nested(before + ("$(" + inner + ")" + after), eval) == Done(before + (eval(inner).value + after))
  {
    var nested := "$(" + inner + ")" + after;
    NoDollarNoNesting(before, eval);
    NoDollarNoNesting(after, eval);
    assert "$" + ['('] + inner + ")" == "$(" + inner + ")";
    NestedIsReplaced(nested, '(', inner, after, eval);
    NestedReadsOn(before, nested, eval);
  }

  lemma InnerIsEvaluated(inner: string, scope: Variables, w: World)
    requires '$' !in inner
    ensures InterpretToString("$(" + inner + ")", scope, w) == EvaluateIn(scope, w)(inner)
  {
    RefToNameOfRef(NameToRef(inner), inner);
    NoDollarNoNesting(inner, EvaluateIn(scope, w));
  }

  /** A nested reference stands for the text of its value. */
  lemma NestedStandsForText(before: string, inner: string, after: string, text: string, scope: Variables, w: World)
    requires '$' !in before && '$' !in inner && '$' !in after && '$' !in text && ')' !in inner
    requires InterpretToString("$(" + inner + ")", scope, w) == Done(text)
    ensures Interpret("$(" + (before + ("$(" + inner + ")" + after)) + ")", scope, w)
      == Interpret("$(" + (before + (text + after)) + ")", scope, w)
  {
    var (nested, plain) := (before + ("$(" + inner + ")" + after), before + (text + after));
    InnerIsEvaluated(inner, scope, w);
    NestedGives(before, inner, after, EvaluateIn(scope, w));
    NoDollarNoNesting(plain, EvaluateIn(scope, w));
    RefToNameOfRef(NameToRef(nested), nested);
    RefToNameOfRef(NameToRef(plain), plain);
  }

  // ---------- references inside strings ----------

  /** How the interpolater gets at a value: the name is wrapped up as a reference again. A panic ends the
      whole evaluation; only that it yields no text matters here. */
  function DerefIn(scope: Variables, w: World): Interpolater.Deref {
    name => match InterpretToString("$(" + name + ")", scope, w)
      case Done(text) => Ok(text)
      case _ => Err
  }

  function InterpretToString(ref: string, scope: Variables, w: World): Outcome<string> {
    var value :- Interpret(ref, scope, w);
    ToString(value, w)
  }

  predicate NothingNested(s: string) {
    forall i :: 0 <= i < |s| - 1 && s[i] == '$' ==> s[i + 1] != '('
  }

  function AsInner(s: string): Interpolater.Inner {
    if s == "" then Interpolater.End
    else if s[0] == '$' then Interpolater.Dollar(AsInner(s[1..]))
    else Interpolater.Chr(s[0], AsInner(s[1..]))
  }

  lemma {:induction false} AsInnerSpells(s: string, deref: Interpolater.Deref)
    requires NothingNested(s) && ')' !in s
    ensures Interpolater.WellFormedInner(AsInner(s), true)
    ensures Interpolater.PrintInner(AsInner(s)) == s && Interpolater.EvalInner(AsInner(s), deref) == Ok(s)
  {
    if s != "" {
      AsInnerSpells(s[1..], deref);
      assert [s[0]] + s[1..] == s;
    }
  }

  /** A string that is one reference, with nothing nested in it, interpolates to what the reference is interpreted as. */
  lemma WholeIsInterpreted(name: string, scope: Variables, w: World)
    requires NothingNested(name) && ')' !in name
    ensures Interpolater.Interpolated("$(" + name + ")", DerefIn(scope, w)) ==
      match InterpretToString("$(" + name + ")", scope, w) case Done(text) => Ok(text) case _ => Err
  {
    var deref := DerefIn(scope, w);
    AsInnerSpells(name, deref);
    var t := Interpolater.Reference(0, AsInner(name), Interpolater.Stop(0));
    assert Interpolater.Backslashes(0) == "" && "" + "$(" + name + ")" + "" == "$(" + name + ")";
    assert Interpolater.Print(t) == "$(" + name + ")";
    Interpolater.TemplatesAreEvaluated(t, deref);
    if deref(name).Ok? { assert "" + deref(name).value + "" == deref(name).value; }
  }

  /** In particular to the text of the value that the path leads to. */
  lemma InterpolatedReference(root: string, path: seq<Segment>, scope: Variables, w: World)
    requires LegalRoot(root) && forall s :: s in path ==> Legal(s)
    requires ')' !in root + PrintPath(path)
    ensures var value := if root in scope then Navigate(scope[root], path, w) else Failed;
      Interpolater.Interpolated("$(" + (root + PrintPath(path)) + ")", DerefIn(scope, w)) ==
        if value.Done? && ToString(value.value, w).Done? then Ok(ToString(value.value, w).value) else Err
  {
    PathHasNoDollar(path);
    WholeIsInterpreted(root + PrintPath(path), scope, w);
    ReferenceNavigates(root, path, scope, w);
  }

  /** The text of a variable: itself, the content of a file, a truth value spelled out, nothing for nil, and JSON for
      numbers, arrays and objects; a directory and a socket have none. */
  lemma InterpolatedVariable(root: string, scope: Variables, w: World)
    requires LegalRoot(root) && ')' !in root && root in scope
    ensures var r := Interpolater.Interpolated("$(" + root + ")", DerefIn(scope, w));
      match scope[root]
      case None => r == Ok("")
      case Some(StringValue(s)) => r == Ok(s)
      case Some(BooleanValue(b)) => r == Ok(if b then "true" else "false")
      case Some(FileValue(path)) => r == (match w.readFile(path) case Some(text) => Ok(text) case None => Err)
      case Some(DirValue(_)) => r == Err
      case Some(SocketValue(_)) => r == Err
      case Some(v) => r == (match w.marshal(v) case Some(text) => Ok(text) case None => Err)
  {
    assert root + PrintPath([]) == root;
    InterpolatedReference(root, [], scope, w);
  }

  lemma TextOfFound(r: Outcome<Option<Value>>, found: Option<Data>, w: World)
    requires Gives(r, found)
    ensures match found
      case None => r.Failed?
      case Some(Null) => r.Failed?
      case Some(Str(s)) => r.Done? && ToString(r.value, w) == Done(s)
      case Some(Bool(b)) => r.Done? && ToString(r.value, w) == Done(if b then "true" else "false")
      case Some(x) =>
        && r.Done? && r.value.Some? && Native(r.value.value) == Some(x)
        && ToString(r.value, w) == Parsed(w.marshal(r.value.value))
  {
  }

  /** And the text of what a path leads to. */
  lemma InterpolatedData(root: string, path: seq<Segment>, d: Data, scope: Variables, w: World)
    requires LegalRoot(root) && (forall s :: s in path ==> Legal(s)) && ')' !in root + PrintPath(path) && path != []
    requires root in scope && scope[root].Some? && Content(scope[root].value, w) == Some(d)
    ensures var r := Interpolater.Interpolated("$(" + (root + PrintPath(path)) + ")", DerefIn(scope, w));
      match At(d, path, w)
      case None => r == Err
      case Some(Null) => r == Err
      case Some(Str(s)) => r == Ok(s)
      case Some(Bool(b)) => r == Ok(if b then "true" else "false")
      case Some(x) => exists v :: Native(v) == Some(x) && r == (match w.marshal(v) case Some(text) => Ok(text) case None => Err)
  {
    var ref := root + PrintPath(path);
    InterpretFinds(root, path, scope, w);
    PathHasNoDollar(path);
    WholeIsInterpreted(ref, scope, w);
    TextOfFound(Interpret("$(" + ref + ")", scope, w), At(d, path, w), w);
  }

  // ---------- panics ----------

  /** The next step is taken from nil, or into a value that is no directory. */
  predicate StepPanics(data: Option<Value>, tail: string) {
    tail != "" && ((tail[0] == '/' && !IsDirectory(data)) ||
                   (data.None? && (tail[0] == '.' || (tail[0] == '[' && ']' in tail))))
  }

  /** A path leads to a value from which the next step panics. */
  ghost predicate LeadsToPanic(ref: string, data: Option<Value>, w: World, path: seq<Segment>, tail: string) {
    && ref == PrintPath(path) + tail && (forall s :: s in path ==> Plain(s))
    && Navigate(data, path, w).Done? && StepPanics(Navigate(data, path, w).value, tail)
  }

  /** The first segment of a reference that is read. */
  lemma FirstSegment(ref: string, data: Option<Value>, w: World) returns (segment: Segment, rest: string)
    requires ref != "" && ref[0] != '/' && !Follow(ref, data, w).Failed?
    ensures ref == PrintSegment(segment) + rest && Plain(segment) && (rest != "" && segment.Dot? ==> IsDelimiter(rest[0]))
  {
    if ref[0] == '[' {
      var close := IndexOf(ref, ']').value;
      segment, rest := Bracket(ref[1..close]), ref[close + 1..];
      assert ref == "[" + ref[1..close] + "]" + rest;
      assert forall c :: c in ref[1..close] ==> c in ref[..close];
    } else {
      var (identifier, left) := Split(ref[1..]);
      segment, rest := Dot(identifier), left;
      assert ref == "." + identifier + rest;
    }
  }

  lemma {:induction false} WherePanicked(ref: string, data: Option<Value>, w: World) returns (path: seq<Segment>, tail: string)
    requires Follow(ref, data, w).Panicked?
    ensures LeadsToPanic(ref, data, w, path, tail)
    decreases |ref|
  {
    if data.Some? && ref[0] != '/' {
      var segment, rest := FirstSegment(ref, data, w);
      FollowSegment(segment, rest, data, w);
      path, tail := WherePanicked(rest, GoTo(data, segment, w).value, w);
      SegmentFirst(ref, data, w, segment, rest, path, tail);
      path := [segment] + path;
    } else {
      path, tail := [], ref;
      assert "" + ref == ref;
    }
  }

  lemma SegmentFirst(ref: string, data: Option<Value>, w: World, segment: Segment, rest: string, path: seq<Segment>, tail: string)
    requires Plain(segment) && ref == PrintSegment(segment) + rest
    requires GoTo(data, segment, w).Done? && LeadsToPanic(rest, GoTo(data, segment, w).value, w, path, tail)
    ensures LeadsToPanic(ref, data, w, [segment] + path, tail)
  {
    assert ([segment] + path)[1..] == path;
    assert PrintSegment(segment) + (PrintPath(path) + tail) == PrintSegment(segment) + PrintPath(path) + tail;
  }

  /** Following a reference panics exactly if some path that it starts with leads to such a value. */
  lemma FollowPanicsIff(ref: string, data: Option<Value>, w: World)
    ensures Follow(ref, data, w).Panicked? <==> exists path, tail :: LeadsToPanic(ref, data, w, path, tail)
  {
    if Follow(ref, data, w).Panicked? { var path, tail := WherePanicked(ref, data, w); }
    if path, tail :| LeadsToPanic(ref, data, w, path, tail) { FollowNavigates(data, path, tail, w); }
  }

  predicate HasDirectory(name: string, scope: Variables) {
    name in scope && IsDirectory(scope[name])
  }

  ghost predicate NameLeadsToPanic(ref: string, scope: Variables, w: World, name: string, rest: string, path: seq<Segment>, tail: string) {
    ref == name + rest && PlainRoot(name) && name in scope && LeadsToPanic(rest, scope[name], w, path, tail)
  }

  /** The one directory that the reference starts from is not there, or a path in it leads to such a value. */
  ghost predicate EvaluationPanics(ref: string, scope: Variables, w: World) {
    if "/" <= ref then !HasDirectory("/", scope)
    else if "./" <= ref then !HasDirectory("./", scope)
    else if "../" <= ref then !HasDirectory("../", scope)
    else exists name, rest, path, tail :: NameLeadsToPanic(ref, scope, w, name, rest, path, tail)
  }

  lemma PathStartsWithDelimiter(path: seq<Segment>, tail: string)
    requires tail != "" && IsDelimiter(tail[0])
    ensures IsDelimiter((PrintPath(path) + tail)[0])
  {
    PrintedPathStarts(path);
  }

  lemma EvaluatePanicsIff(ref: string, scope: Variables, w: World)
    ensures Evaluate(ref, scope, w).Panicked? <==> EvaluationPanics(ref, scope, w)
  {
    if !("/" <= ref) && !("./" <= ref) && !("../" <= ref) {
      var (identifier, left) := Split(ref);
      if identifier in scope {
        FollowPanicsIff(left, scope[identifier], w);
        if path, tail :| LeadsToPanic(left, scope[identifier], w, path, tail) {
          assert NameLeadsToPanic(ref, scope, w, identifier, left, path, tail);
        }
      }
      if name, rest, path, tail :| NameLeadsToPanic(ref, scope, w, name, rest, path, tail) {
        PathStartsWithDelimiter(path, tail);
        SplitIsUnique(ref, name, rest);
      }
    }
  }

  function Nest(opener: char, inner: string): string {
    "$" + [opener] + inner + ")"
  }

  /** `s` starts with a nested reference to `inner`. The scan does not look at the byte after the `$`. */
  ghost predicate StartsNested(s: string, opener: char, inner: string, rest: string) {
    s == Nest(opener, inner) + rest && ')' !in inner
  }

  lemma NestedIsReplaced(s: string, opener: char, inner: string, rest: string, eval: string -> Outcome<string>)
    requires StartsNested(s, opener, inner, rest)
    ensures Nested(s, eval) == if eval(inner).IsFailure() then eval(inner) else Prepend(eval(inner).value, Nested(rest, eval))
  {
    assert s[2..] == inner + [')'] + rest;
    IndexOfFirst(inner, ')', rest);
    assert s[2..2 + |inner|] == inner && s[2 + |inner| + 1..] == rest;
  }

  lemma FindNested(s: string, eval: string -> Outcome<string>) returns (opener: char, inner: string, rest: string)
    requires |s| > 1 && s[0] == '$' && !Nested(s, eval).Failed?
    ensures StartsNested(s, opener, inner, rest)
  {
    var close := IndexOf(s[2..], ')').value;
    opener, inner, rest := s[1], s[2..][..close], s[3 + close..];
    assert s == Nest(opener, inner) + rest;
  }

  /** A prefix that evaluates is read as it is without what follows. */
  lemma {:induction false} NestedReadsOn(front: string, tail: string, eval: string -> Outcome<string>)
    requires Nested(front, eval).Done?
    ensures Nested(front + tail, eval) == Prepend(Nested(front, eval).value, Nested(tail, eval))
    decreases |front|
  {
    if front == "" {
      assert "" + tail == tail;
      PrependNothing(Nested(tail, eval));
    } else if front[0] != '$' {
      assert (front + tail)[1..] == front[1..] + tail;
      NestedReadsOn(front[1..], tail, eval);
      PrependTwice([front[0]], Nested(front[1..], eval).value, Nested(tail, eval));
    } else {
      var opener, inner, rest := FindNested(front, eval);
      NestedIsReplaced(front, opener, inner, rest, eval);
      NestedReadsOn(rest, tail, eval);
      OneMoreNested(front, tail, eval, opener, inner, rest);
    }
  }

  lemma OneMoreNested(front: string, tail: string, eval: string -> Outcome<string>, opener: char, inner: string, rest: string)
    requires StartsNested(front, opener, inner, rest) && eval(inner).Done? && Nested(rest, eval).Done?
    requires Nested(rest + tail, eval) == Prepend(Nested(rest, eval).value, Nested(tail, eval))
    ensures Nested(front, eval).Done?
    ensures Nested(front + tail, eval) == Prepend(Nested(front, eval).value, Nested(tail, eval))
  {
    NestedIsReplaced(front, opener, inner, rest, eval);
    StaysNested(front, tail, opener, inner, rest);
    NestedIsReplaced(front + tail, opener, inner, rest + tail, eval);
    PrependTwice(eval(inner).value, Nested(rest, eval).value, Nested(tail, eval));
  }

  lemma StaysNested(front: string, tail: string, opener: char, inner: string, rest: string)
    requires StartsNested(front, opener, inner, rest)
    ensures StartsNested(front + tail, opener, inner, rest + tail)
  {
    var n := Nest(opener, inner);
    assert n + rest + tail == n + (rest + tail);
  }

  /** A `$` that is the last byte, or a nested reference whose evaluation panics. */
  ghost predicate NestingPanics(s: string, scope: Variables, w: World) {
    s == "$" || exists opener, inner, rest :: StartsNested(s, opener, inner, rest) && EvaluationPanics(inner, scope, w)
  }

  /** And everything before position `k` evaluates, so that the scan gets there. */
  ghost predicate PanicsAt(ref: string, scope: Variables, w: World, k: nat) {
    k <= |ref| && Nested(ref[..k], EvaluateIn(scope, w)).Done? && NestingPanics(ref[k..], scope, w)
  }

  lemma NestingPanicsMeans(s: string, scope: Variables, w: World)
    requires NestingPanics(s, scope, w)
    ensures Nested(s, EvaluateIn(scope, w)).Panicked?
  {
    if s != "$" {
      var opener, inner, rest :| StartsNested(s, opener, inner, rest) && EvaluationPanics(inner, scope, w);
      EvaluatePanicsIff(inner, scope, w);
      NestedIsReplaced(s, opener, inner, rest, EvaluateIn(scope, w));
    }
  }

  /** One byte or one nested reference, which evaluates if the panic is further on. */
  lemma ReadOne(ref: string, scope: Variables, w: World) returns (n: nat)
    requires Nested(ref, EvaluateIn(scope, w)).Panicked? && !NestingPanics(ref, scope, w)
    ensures 0 < n <= |ref| && Nested(ref[..n], EvaluateIn(scope, w)).Done? && Nested(ref[n..], EvaluateIn(scope, w)).Panicked?
  {
    var eval := EvaluateIn(scope, w);
    if ref[0] != '$' {
      assert ref[..1][1..] == "";
      return 1;
    }
    assert |ref| == 1 ==> ref == "$";
    var opener, inner, rest := FindNested(ref, eval);
    n := |ref| - |rest|;
    assert ref[..n] == Nest(opener, inner) + "" && ref[n..] == rest;
    EvaluatePanicsIff(inner, scope, w);
    NestedIsReplaced(ref, opener, inner, rest, eval);
    NestedIsReplaced(ref[..n], opener, inner, "", eval);
  }

  lemma {:induction false} WhereNestedPanicked(ref: string, scope: Variables, w: World) returns (k: nat)
    requires Nested(ref, EvaluateIn(scope, w)).Panicked?
    ensures PanicsAt(ref, scope, w, k)
    decreases |ref|
  {
    if NestingPanics(ref, scope, w) {
      assert ref[..0] == "" && ref[0..] == ref;
      k := 0;
    } else {
      var n := ReadOne(ref, scope, w);
      k := WhereNestedPanicked(ref[n..], scope, w);
      assert ref[..n + k] == ref[..n] + ref[n..][..k] && ref[n + k..] == ref[n..][k..];
      NestedReadsOn(ref[..n], ref[n..][..k], EvaluateIn(scope, w));
      k := n + k;
    }
  }

  lemma NestedPanicsIff(ref: string, scope: Variables, w: World)
    ensures Nested(ref, EvaluateIn(scope, w)).Panicked? <==> exists k :: PanicsAt(ref, scope, w, k)
  {
    if Nested(ref, EvaluateIn(scope, w)).Panicked? { var k := WhereNestedPanicked(ref, scope, w); }
    if k: nat :| PanicsAt(ref, scope, w, k) {
      NestingPanicsMeans(ref[k..], scope, w);
      assert ref == ref[..k] + ref[k..];
      NestedReadsOn(ref[..k], ref[k..], EvaluateIn(scope, w));
    }
  }

  /** Interpreting a reference panics exactly if the scan for nested references gets to such a place, or else what the
      scan gives starts from or leads to a value that the next step cannot be taken from. */
  lemma InterpretPanicsIff(ref: string, scope: Variables, w: World)
    ensures Interpret(ref, scope, w).Panicked? <==>
      var flat := Nested(RefToName(ref), EvaluateIn(scope, w));
      (exists k :: PanicsAt(RefToName(ref), scope, w, k)) || (flat.Done? && EvaluationPanics(flat.value, scope, w))
  {
    NestedPanicsIff(RefToName(ref), scope, w);
    var flat := Nested(RefToName(ref), EvaluateIn(scope, w));
    if flat.Done? { EvaluatePanicsIff(flat.value, scope, w); }
  }

  /** As when a name ends with a dollar sign: `$(a$)`, whatever is in scope. */
  lemma PanicsOnTrailingDollar(name: string, scope: Variables, w: World)
    requires '$' !in name
    ensures Interpret("$(" + (name + "$") + ")", scope, w).Panicked?
  {
    var ref := name + "$";
    RefToNameOfRef(NameToRef(ref), ref);
    NoDollarNoNesting(name, EvaluateIn(scope, w));
    assert ref[..|name|] == name && ref[|name|..] == "$";
    assert PanicsAt(ref, scope, w, |name|);
    InterpretPanicsIff("$(" + ref + ")", scope, w);
  }

  /** Or a slash follows the name of a variable that is no directory: `$(a/b)`. */
  lemma PanicsOffDirectory(name: string, entry: string, scope: Variables, w: World)
    requires LegalRoot(name) && '$' !in entry && name !in {"", ".", ".."} && name in scope && !IsDirectory(scope[name])
    ensures Interpret("$(" + (name + ("/" + entry)) + ")", scope, w).Panicked?
  {
    var tail := "/" + entry;
    var ref := name + tail;
    RefToNameOfRef(NameToRef(ref), ref);
    NoDollarNoNesting(ref, EvaluateIn(scope, w));
    assert "" + tail == tail && LeadsToPanic(tail, scope[name], w, [], tail);
    assert NameLeadsToPanic(ref, scope, w, name, tail, [], tail);
    SplitIsUnique(ref, name, tail);
    EvaluatePanicsIff(ref, scope, w);
    InterpretPanicsIff("$(" + ref + ")", scope, w);
  }

  /** Or the directory of the op is not in scope: `$(/b)`. */
  lemma PanicsWithNoDirectory(entry: string, scope: Variables, w: World)
    requires '$' !in entry && !HasDirectory("/", scope)
    ensures Interpret("$(" + ("/" + entry) + ")", scope, w).Panicked?
  {
    var ref := "/" + entry;
    RefToNameOfRef(NameToRef(ref), ref);
    NoDollarNoNesting(ref, EvaluateIn(scope, w));
    InterpretPanicsIff("$(" + ref + ")", scope, w);
  }
}
