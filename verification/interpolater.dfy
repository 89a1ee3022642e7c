/** String interpolation: `$(ref)` is replaced by the value of the reference. */
module Interpolater {
  // References nest, and backslashes before `$` escape it. Strings are byte strings.

  import opened Text

  /** What a reference evaluates to as a string, in a scope that stays fixed. */
  type Deref = string -> Result<string>

  // ---------- the scanner as functions on what is left to read ----------

  function Backslashes(n: nat): (s: string)
    ensures |s| == n
  {
    seq(n, _ => '\\')
  }

  /** After a `$`: the text it stands for, and the rest. */
  function AfterDollar(s: string, deref: Deref): (r: Result<(string, string)>)
    ensures r.Ok? ==> |r.value.1| <= |s|
    decreases |s|, 1
  {
    if s == "" || s[0] != '(' then Ok(("$", s)) else InRef(s[1..], "", deref)
  }

  /** Inside `$(`: `name` is what was read of the reference so far. */
  function InRef(s: string, name: string, deref: Deref): (r: Result<(string, string)>)
    ensures r.Ok? ==> |r.value.1| <= |s|
    decreases |s|, 0
  {
    if s == "" then Ok(("$(" + name, ""))
    else if s[0] == ')' then
      match deref(name)
      case Err => Err
      case Ok(text) => Ok((text, s[1..]))
    else if s[0] == '$' then
      match AfterDollar(s[1..], deref)
      case Err => Err
      case Ok((text, rest)) => InRef(rest, name + text, deref)
    else InRef(s[1..], name + [s[0]], deref)
  }

  /** At the top level, after `escapes` backslashes: `done` is what was written so far. */
  function AtTop(s: string, escapes: nat, done: string, deref: Deref): Result<string>
    decreases |s|
  {
    if s == "" then Ok(done + Backslashes(escapes))
    else if s[0] == '\\' then AtTop(s[1..], escapes + 1, done, deref)
    else if s[0] == '$' then
      var flushed := done + Backslashes(escapes / 2);
      if escapes % 2 != 0 then AtTop(s[1..], 0, flushed + "$", deref)
      else
        match AfterDollar(s[1..], deref)
        case Err => Err
        case Ok((text, rest)) => AtTop(rest, 0, flushed + text, deref)
    else AtTop(s[1..], 0, done + Backslashes(escapes) + [s[0]], deref)
  }

  function Interpolated(s: string, deref: Deref): Result<string> {
    AtTop(s, 0, "", deref)
  }

  // ---------- the scanner as it runs ----------

  /** The scan has read `i` bytes and gathered `buffer`: the opener, and the name as far as it goes. */
  ghost predicate Gathered(s: string, i: nat, buffer: string, deref: Deref) {
    i <= |s| && if i == 0 then buffer == ""
    else buffer != "" && buffer[0] == '(' && AfterDollar(s, deref) == InRef(s[i..], buffer[1..], deref)
  }

  lemma DropTwice(s: string, i: nat, j: nat)
    requires i + j <= |s|
    ensures s[i..][j..] == s[i + j..]
  {
  }

  lemma TailOfSum(buffer: string, more: string)
    requires buffer != ""
    ensures (buffer + more)[1..] == buffer[1..] + more && (buffer + more)[0] == buffer[0]
  {
  }

  lemma GatherByte(s: string, i: nat, buffer: string, deref: Deref)
    requires Gathered(s, i, buffer, deref) && i < |s| && if i == 0 then s[0] == '(' else s[i] != ')' && s[i] != '$'
    ensures Gathered(s, i + 1, buffer + [s[i]], deref)
  {
    if i > 0 {
      assert s[i..][1..] == s[i + 1..] && (buffer + [s[i]])[1..] == buffer[1..] + [s[i]];
    } else {
      assert ("" + [s[0]])[1..] == "";
    }
  }

  lemma GatherNested(s: string, i: nat, buffer: string, deref: Deref, nested: Result<(string, nat)>)
    requires Gathered(s, i, buffer, deref) && 0 < i < |s| && s[i] == '$' && (nested.Ok? ==> i + 1 + nested.value.1 <= |s|)
    requires AfterDollar(s[i + 1..], deref) == if nested.Err? then Err else Ok((nested.value.0, s[i + 1..][nested.value.1..]))
    ensures nested.Err? ==> AfterDollar(s, deref) == Err
    ensures nested.Ok? ==> Gathered(s, i + 1 + nested.value.1, buffer + nested.value.0, deref)
  {
    DropTwice(s, i, 1);
    if nested.Ok? {
      DropTwice(s, i + 1, nested.value.1);
      TailOfSum(buffer, nested.value.0);
    }
  }

  lemma CloseRef(s: string, i: nat, buffer: string, deref: Deref)
    requires Gathered(s, i, buffer, deref) && 0 < i < |s| && s[i] == ')'
    ensures var value := deref(buffer[1..]);
      AfterDollar(s, deref) == if value.Err? then Err else Ok((value.value, s[i + 1..]))
  {
    assert s[i..][1..] == s[i + 1..];
  }

  lemma OpenerFirst(buffer: string)
    requires buffer != "" && buffer[0] == '('
    ensures "$(" + buffer[1..] == "$" + buffer
  {
    assert buffer == ['('] + buffer[1..];
  }

  lemma NeverClosed(s: string, buffer: string, deref: Deref)
    requires Gathered(s, |s|, buffer, deref)
    ensures AfterDollar(s, deref) == Ok(("$" + buffer, s[|s|..]))
  {
    if s != "" {
      OpenerFirst(buffer);
    } else {
      assert "$" + "" == "$";
    }
  }

  /** Reads `possibleRef`, which follows a `$`. `work` counts loop iterations at all nesting levels. */
  method TryDeRef(possibleRef: string, deref: Deref) returns (r: Result<(string, nat)>, ghost work: nat)
    ensures r.Ok? ==> r.value.1 <= |possibleRef| && work <= 2 * r.value.1 + 1
    ensures work <= 2 * |possibleRef|
    ensures AfterDollar(possibleRef, deref) ==
      if r.Err? then Err else Ok((r.value.0, possibleRef[r.value.1..]))
    decreases |possibleRef|
  {
    var refBuffer := "";
    var i := 0;
    work := 0;
    while i < |possibleRef|
      invariant i <= |possibleRef| && work <= 2 * i
      invariant Gathered(possibleRef, i, refBuffer, deref)
    {
      work := work + 1;
      if i == 0 && possibleRef[i] != '(' {
        return Ok(("$", 0)), work;
      }
      if possibleRef[i] == ')' {
        if |refBuffer| > 0 && refBuffer[0] == '(' {
          CloseRef(possibleRef, i, refBuffer, deref);
          var value := deref(refBuffer[1..]);
          if value.Err? { return Err, work; }
          return Ok((value.value, i + 1)), work;
        } else {
          // the closer can only come after the opener
          assert false;
        }
      } else if possibleRef[i] == '$' {
        var nested, nestedWork := TryDeRef(possibleRef[i + 1..], deref);
        work := work + nestedWork;
        GatherNested(possibleRef, i, refBuffer, deref, nested);
        if nested.Err? { return Err, work; }
        refBuffer := refBuffer + nested.value.0;
        i := i + nested.value.1;
      } else {
        GatherByte(possibleRef, i, refBuffer, deref);
        refBuffer := refBuffer + [possibleRef[i]];
      }
      i := i + 1;
    }
    NeverClosed(possibleRef, refBuffer, deref);
    return Ok(("$" + refBuffer, |possibleRef|)), work;
  }

  /** Loop iterations, those of all nesting levels and of the flushing of backslashes included, are at most
      twice the length of the expression. */
  method Interpolate(expression: string, deref: Deref) returns (r: Result<string>, ghost work: nat)
    ensures r == Interpolated(expression, deref)
    ensures work <= 2 * |expression|
  {
    var refBuffer := "";
    var i, escapesCount := 0, 0;
    work := 0;
    while i < |expression|
      invariant i <= |expression| && work + escapesCount <= 2 * i
      invariant Interpolated(expression, deref) == AtTop(expression[i..], escapesCount, refBuffer, deref)
    {
      work := work + 1;
      assert expression[i..][1..] == expression[i + 1..];
      if expression[i] == '\\' {
        escapesCount := escapesCount + 1;
      } else if expression[i] == '$' {
        var isEscaped := escapesCount % 2 != 0;
        ghost var before, n := refBuffer, escapesCount;
        while escapesCount > 0
          invariant escapesCount <= n && work + escapesCount <= 2 * i + 1
          invariant refBuffer == before + Backslashes(n / 2 - escapesCount / 2)
        {
          if escapesCount % 2 == 0 {
            refBuffer := refBuffer + ['\\'];
          }
          escapesCount := escapesCount - 1;
          work := work + 1;
        }
        if isEscaped {
          refBuffer := refBuffer + [expression[i]];
        } else {
          var result, nestedWork := TryDeRef(expression[i + 1..], deref);
          work := work + nestedWork;
          if result.Err? { return Err, work; }
          assert expression[i + 1..][result.value.1..] == expression[i + 1 + result.value.1..];
          refBuffer := refBuffer + result.value.0;
          i := i + result.value.1;
        }
      } else {
        ghost var before, n := refBuffer, escapesCount;
        while escapesCount > 0
          invariant escapesCount <= n && work + escapesCount <= 2 * i + 1
          invariant refBuffer == before + Backslashes(n - escapesCount)
        {
          refBuffer := refBuffer + ['\\'];
          escapesCount := escapesCount - 1;
          work := work + 1;
        }
        refBuffer := refBuffer + [expression[i]];
      }
      i := i + 1;
    }
    ghost var before, n := refBuffer, escapesCount;
    while escapesCount > 0
      invariant escapesCount <= n && work + escapesCount <= 2 * i
      invariant refBuffer == before + Backslashes(n - escapesCount)
    {
      refBuffer := refBuffer + ['\\'];
      escapesCount := escapesCount - 1;
      work := work + 1;
    }
    return Ok(refBuffer), work;
  }

  // ---------- every string can be written ----------

  /** `run` backslashes were read already. A run of n backslashes before `$` becomes 2n + 1. */
  function EscapeFrom(s: string, run: nat): string {
    if s == "" then Backslashes(run)
    else if s[0] == '\\' then EscapeFrom(s[1..], run + 1)
    else if s[0] == '$' then Backslashes(2 * run + 1) + "$" + EscapeFrom(s[1..], 0)
    else Backslashes(run) + [s[0]] + EscapeFrom(s[1..], 0)
  }

  function Escape(s: string): string {
    EscapeFrom(s, 0)
  }

  lemma {:induction false} ReadBackslashes(n: nat, s: string, escapes: nat, done: string, deref: Deref)
    ensures AtTop(Backslashes(n) + s, escapes, done, deref) == AtTop(s, escapes + n, done, deref)
  {
    if n == 0 {
      assert Backslashes(0) + s == s;
    } else {
      assert (Backslashes(n) + s)[1..] == Backslashes(n - 1) + s;
      ReadBackslashes(n - 1, s, escapes + 1, done, deref);
    }
  }

  lemma {:induction false} EscapedFromReadsBack(s: string, run: nat, done: string, deref: Deref)
    ensures AtTop(EscapeFrom(s, run), 0, done, deref) == Ok(done + Backslashes(run) + s)
  {
    if s == "" {
      assert Backslashes(run) + "" == Backslashes(run) && done + Backslashes(run) + s == done + Backslashes(run);
      ReadBackslashes(run, "", 0, done, deref);
    } else if s[0] == '\\' {
      EscapedFromReadsBack(s[1..], run + 1, done, deref);
      assert Backslashes(run + 1) + s[1..] == Backslashes(run) + s;
      assert done + Backslashes(run + 1) + s[1..] == done + (Backslashes(run + 1) + s[1..]);
      assert done + Backslashes(run) + s == done + (Backslashes(run) + s);
    } else {
      var rest := [s[0]] + EscapeFrom(s[1..], 0);
      var n := if s[0] == '$' then 2 * run + 1 else run;
      assert EscapeFrom(s, run) == Backslashes(n) + rest;
      ReadBackslashes(n, rest, 0, done, deref);
      assert rest[1..] == EscapeFrom(s[1..], 0);
      EscapedFromReadsBack(s[1..], 0, done + Backslashes(run) + [s[0]], deref);
      assert done + Backslashes(run) + [s[0]] + Backslashes(0) + s[1..] == done + Backslashes(run) + s;
    }
  }

  /** Interpolating an escaped string gives the string back, whatever the scope. */
  lemma EscapeRoundTrip(s: string, deref: Deref)
    ensures Interpolated(Escape(s), deref) == Ok(s)
  {
    EscapedFromReadsBack(s, 0, "", deref);
    assert "" + Backslashes(0) + s == s;
  }

  /** Strings without `$` stand for themselves, whatever backslashes they have. */
  lemma NoDollarNoChange(s: string, deref: Deref)
    requires '$' !in s
    ensures Interpolated(s, deref) == Ok(s)
  {
    NoDollarFrom(s, 0);
    EscapeRoundTrip(s, deref);
    assert Backslashes(0) + s == s;
  }

  lemma {:induction false} NoDollarFrom(s: string, run: nat)
    requires '$' !in s
    ensures EscapeFrom(s, run) == Backslashes(run) + s
  {
    if s != "" {
      NoDollarFrom(s[1..], if s[0] == '\\' then run + 1 else 0);
      assert s[0] == '\\' ==> Backslashes(run + 1) + s[1..] == Backslashes(run) + s;
    }
  }

  // ---------- the language of expressions ----------

  /** What may stand inside `$(`: characters, dollars that open nothing, closed references, and, at the very
      end of an expression, a reference that is never closed. */
  datatype Inner =
    | End
    | Chr(c: char, next: Inner)
    | Dollar(next: Inner)
    | Ref(inner: Inner, next: Inner)
    | Open(inner: Inner)

  /** A whole expression. Each piece carries the backslashes before it. */
  datatype Template =
    | Stop(backslashes: nat)
    | Plain(backslashes: nat, c: char, next: Template)
    | Escaped(backslashes: nat, next: Template)
    | Bare(backslashes: nat, next: Template)
    | Reference(backslashes: nat, inner: Inner, next: Template)
    | Unclosed(backslashes: nat, inner: Inner)

  predicate WellFormedInner(t: Inner, closed: bool) {
    match t
    case End => true
    case Chr(c, next) => c != '$' && c != ')' && WellFormedInner(next, closed)
    case Dollar(next) => !(next.Chr? && next.c == '(') && WellFormedInner(next, closed)
    case Ref(inner, next) => WellFormedInner(inner, true) && WellFormedInner(next, closed)
    case Open(inner) => !closed && WellFormedInner(inner, false)
  }

  predicate WellFormed(t: Template) {
    match t
    case Stop(_) => true
    case Plain(_, c, next) => c != '$' && c != '\\' && WellFormed(next)
    case Escaped(n, next) => n % 2 == 1 && WellFormed(next)
    case Bare(n, next) => n % 2 == 0 && !(next.Plain? && next.backslashes == 0 && next.c == '(') && WellFormed(next)
    case Reference(n, inner, next) => n % 2 == 0 && WellFormedInner(inner, true) && WellFormed(next)
    case Unclosed(n, inner) => n % 2 == 0 && WellFormedInner(inner, false)
  }

  function PrintInner(t: Inner): string {
    match t
    case End => ""
    case Chr(c, next) => [c] + PrintInner(next)
    case Dollar(next) => "$" + PrintInner(next)
    case Ref(inner, next) => "$(" + PrintInner(inner) + ")" + PrintInner(next)
    case Open(inner) => "$(" + PrintInner(inner)
  }

  function Print(t: Template): string {
    match t
    case Stop(n) => Backslashes(n)
    case Plain(n, c, next) => Backslashes(n) + [c] + Print(next)
    case Escaped(n, next) => Backslashes(n) + "$" + Print(next)
    case Bare(n, next) => Backslashes(n) + "$" + Print(next)
    case Reference(n, inner, next) => Backslashes(n) + "$(" + PrintInner(inner) + ")" + Print(next)
    case Unclosed(n, inner) => Backslashes(n) + "$(" + PrintInner(inner)
  }

  function Join(a: Result<string>, b: Result<string>): Result<string> {
    if a.Ok? && b.Ok? then Ok(a.value + b.value) else Err
  }

  /** A reference's name is what its inner text evaluates to. */
  function Resolve(name: Result<string>, deref: Deref): Result<string> {
    if name.Ok? then deref(name.value) else Err
  }

  function EvalInner(t: Inner, deref: Deref): Result<string> {
    match t
    case End => Ok("")
    case Chr(c, next) => Join(Ok([c]), EvalInner(next, deref))
    case Dollar(next) => Join(Ok("$"), EvalInner(next, deref))
    case Ref(inner, next) => Join(Resolve(EvalInner(inner, deref), deref), EvalInner(next, deref))
    case Open(inner) => Join(Ok("$("), EvalInner(inner, deref))
  }

  function Eval(t: Template, deref: Deref): Result<string> {
    match t
    case Stop(n) => Ok(Backslashes(n))
    case Plain(n, c, next) => Join(Ok(Backslashes(n) + [c]), Eval(next, deref))
    case Escaped(n, next) => Join(Ok(Backslashes(n / 2) + "$"), Eval(next, deref))
    case Bare(n, next) => Join(Ok(Backslashes(n / 2) + "$"), Eval(next, deref))
    case Reference(n, inner, next) =>
      Join(Join(Ok(Backslashes(n / 2)), Resolve(EvalInner(inner, deref), deref)), Eval(next, deref))
    case Unclosed(n, inner) => Join(Ok(Backslashes(n / 2) + "$("), EvalInner(inner, deref))
  }

  lemma Reassociate(done: string, piece: string, rest: Result<string>)
    ensures Join(Ok(done), Join(Ok(piece), rest)) == Join(Ok(done + piece), rest)
  {
    if rest.Ok? { assert done + (piece + rest.value) == done + piece + rest.value; }
  }

  lemma NoOpenerNext(next: Template)
    requires WellFormed(next) && !(next.Plain? && next.backslashes == 0 && next.c == '(')
    ensures Print(next) == "" || Print(next)[0] != '('
  {
    if next.backslashes > 0 { assert Print(next)[0] == Backslashes(next.backslashes)[0]; }
  }

  lemma Associated(a: string, b: string, c: string)
    ensures a + b + c == a + (b + c)
  {
  }

  /** A character that is no closer, and no dollar sign before an opener, is read as it is. */
  lemma CharStep(c: char, rest: string, name: string, deref: Deref)
    requires c != ')' && (c == '$' ==> rest == "" || rest[0] != '(')
    ensures InRef([c] + rest, name, deref) == InRef(rest, name + [c], deref)
  {
    assert ([c] + rest)[1..] == rest;
  }

  /** Scanning a printed inner text appends its value to the name and goes on behind it. */
  lemma {:induction false} ScanInner(t: Inner, closed: bool, post: string, name: string, deref: Deref)
    requires WellFormedInner(t, closed) && if closed then post != "" && post[0] == ')' else post == ""
    ensures InRef(PrintInner(t) + post, name, deref) ==
      if EvalInner(t, deref).Err? then Err else InRef(post, name + EvalInner(t, deref).value, deref)
    decreases t, 2
  {
    match t
    case End =>
      assert PrintInner(t) + post == post && name + "" == name;
    case Chr(c, next) =>
      Associated([c], PrintInner(next), post);
      CharStep(c, PrintInner(next) + post, name, deref);
      ScanInner(next, closed, post, name + [c], deref);
      Reassociate(name, [c], EvalInner(next, deref));
    case Dollar(next) =>
      var rest := PrintInner(next) + post;
      Associated("$", PrintInner(next), post);
      assert rest == "" || rest[0] != '(';
      CharStep('$', rest, name, deref);
      ScanInner(next, closed, post, name + "$", deref);
      Reassociate(name, "$", EvalInner(next, deref));
    case Ref(inner, next) =>
      ScanRef(inner, next, closed, post, name, deref);
    case Open(inner) =>
      assert (PrintInner(t) + post)[1..] == "(" + PrintInner(inner);
      ScanUnclosed(inner, deref);
  }

  lemma {:induction false} ScanRef(inner: Inner, next: Inner, closed: bool, post: string, name: string, deref: Deref)
    requires WellFormedInner(Ref(inner, next), closed) && if closed then post != "" && post[0] == ')' else post == ""
    ensures InRef(PrintInner(Ref(inner, next)) + post, name, deref) ==
      if EvalInner(Ref(inner, next), deref).Err? then Err
      else InRef(post, name + EvalInner(Ref(inner, next), deref).value, deref)
    decreases Ref(inner, next), 0
  {
    var rest := PrintInner(next) + post;
    assert PrintInner(Ref(inner, next)) + post == "$" + ("(" + PrintInner(inner) + ")" + rest);
    ScanReference(inner, rest, deref);
    var text := Resolve(EvalInner(inner, deref), deref);
    if text.Ok? {
      ScanInner(next, closed, post, name + text.value, deref);
      Reassociate(name, text.value, EvalInner(next, deref));
    }
  }

  function WithRest(text: Result<string>, rest: string): Result<(string, string)> {
    if text.Ok? then Ok((text.value, rest)) else Err
  }

  /** A closed reference behind its `$`. */
  lemma {:induction false} ScanReference(inner: Inner, rest: string, deref: Deref)
    requires WellFormedInner(inner, true)
    ensures AfterDollar("(" + PrintInner(inner) + ")" + rest, deref) ==
      WithRest(Resolve(EvalInner(inner, deref), deref), rest)
    decreases inner, 3
  {
    var s := "(" + PrintInner(inner) + ")" + rest;
    assert s[1..] == PrintInner(inner) + (")" + rest) && (")" + rest)[1..] == rest;
    ScanInner(inner, true, ")" + rest, "", deref);
    if EvalInner(inner, deref).Ok? { assert "" + EvalInner(inner, deref).value == EvalInner(inner, deref).value; }
  }

  /** A reference that is never closed takes the rest of the expression. */
  lemma {:induction false} ScanUnclosed(inner: Inner, deref: Deref)
    requires WellFormedInner(inner, false)
    ensures AfterDollar("(" + PrintInner(inner), deref) ==
      WithRest(Join(Ok("$("), EvalInner(inner, deref)), "")
    decreases inner, 3
  {
    assert ("(" + PrintInner(inner))[1..] == PrintInner(inner) + "";
    ScanInner(inner, false, "", "", deref);
    if EvalInner(inner, deref).Ok? { assert "" + EvalInner(inner, deref).value == EvalInner(inner, deref).value; }
  }

  lemma PlainStep(n: nat, c: char, rest: string, done: string, deref: Deref)
    requires c != '$' && c != '\\'
    ensures AtTop(Backslashes(n) + [c] + rest, 0, done, deref) == AtTop(rest, 0, done + (Backslashes(n) + [c]), deref)
  {
    ReadBackslashes(n, [c] + rest, 0, done, deref);
    assert Backslashes(n) + [c] + rest == Backslashes(n) + ([c] + rest) && ([c] + rest)[1..] == rest;
    assert done + Backslashes(n) + [c] == done + (Backslashes(n) + [c]);
  }

  lemma DollarStep(n: nat, rest: string, done: string, deref: Deref)
    ensures AtTop(Backslashes(n) + "$" + rest, 0, done, deref) ==
      if n % 2 != 0 then AtTop(rest, 0, done + (Backslashes(n / 2) + "$"), deref)
      else if AfterDollar(rest, deref).Err? then Err
      else AtTop(AfterDollar(rest, deref).value.1, 0, done + (Backslashes(n / 2) + AfterDollar(rest, deref).value.0), deref)
  {
    ReadBackslashes(n, "$" + rest, 0, done, deref);
    assert Backslashes(n) + "$" + rest == Backslashes(n) + ("$" + rest) && ("$" + rest)[1..] == rest;
    assert done + Backslashes(n / 2) + "$" == done + (Backslashes(n / 2) + "$");
    if AfterDollar(rest, deref).Ok? {
      var text := AfterDollar(rest, deref).value.0;
      assert done + Backslashes(n / 2) + text == done + (Backslashes(n / 2) + text);
    }
  }

  /** The scanner gives every well-formed template its value. */
  lemma {:induction false} ScanTemplate(t: Template, done: string, deref: Deref)
    requires WellFormed(t)
    ensures AtTop(Print(t), 0, done, deref) == Join(Ok(done), Eval(t, deref))
    decreases t, 1
  {
    match t
    case Stop(n) =>
      ReadBackslashes(n, "", 0, done, deref);
      assert Backslashes(n) + "" == Backslashes(n);
    case Plain(n, c, next) =>
      PlainStep(n, c, Print(next), done, deref);
      ScanTemplate(next, done + (Backslashes(n) + [c]), deref);
      Reassociate(done, Backslashes(n) + [c], Eval(next, deref));
    case Escaped(n, next) =>
      DollarStep(n, Print(next), done, deref);
      ScanTemplate(next, done + (Backslashes(n / 2) + "$"), deref);
      Reassociate(done, Backslashes(n / 2) + "$", Eval(next, deref));
    case Bare(n, next) =>
      DollarStep(n, Print(next), done, deref);
      NoOpenerNext(next);
      ScanTemplate(next, done + (Backslashes(n / 2) + "$"), deref);
      Reassociate(done, Backslashes(n / 2) + "$", Eval(next, deref));
    case Reference(n, inner, next) =>
      ScanTopReference(n, inner, next, done, deref);
    case Unclosed(n, inner) =>
      ScanTopUnclosed(n, inner, done, deref);
  }

  lemma {:induction false} ScanTopReference(n: nat, inner: Inner, next: Template, done: string, deref: Deref)
    requires WellFormed(Reference(n, inner, next))
    ensures AtTop(Print(Reference(n, inner, next)), 0, done, deref) ==
      Join(Ok(done), Eval(Reference(n, inner, next), deref))
    decreases Reference(n, inner, next), 0
  {
    var rest := "(" + PrintInner(inner) + ")" + Print(next);
    assert Print(Reference(n, inner, next)) == Backslashes(n) + "$" + rest;
    DollarStep(n, rest, done, deref);
    ScanReference(inner, Print(next), deref);
    var text := Resolve(EvalInner(inner, deref), deref);
    if text.Ok? {
      ScanTemplate(next, done + (Backslashes(n / 2) + text.value), deref);
      Reassociate(done, Backslashes(n / 2) + text.value, Eval(next, deref));
    }
  }

  lemma UnclosedText(done: string, escapes: string, v: string)
    ensures done + (escapes + ("$(" + v)) + Backslashes(0) == done + (escapes + "$(" + v)
  {
    assert escapes + ("$(" + v) == escapes + "$(" + v && Backslashes(0) == "";
  }

  lemma ScanTopUnclosed(n: nat, inner: Inner, done: string, deref: Deref)
    requires WellFormed(Unclosed(n, inner))
    ensures AtTop(Print(Unclosed(n, inner)), 0, done, deref) == Join(Ok(done), Eval(Unclosed(n, inner), deref))
  {
    assert Print(Unclosed(n, inner)) == Backslashes(n) + "$" + ("(" + PrintInner(inner));
    DollarStep(n, "(" + PrintInner(inner), done, deref);
    ScanUnclosed(inner, deref);
    if EvalInner(inner, deref).Ok? {
      UnclosedText(done, Backslashes(n / 2), EvalInner(inner, deref).value);
    }
  }

  // ---------- every string is a template ----------

  /** Reads an inner text up to its closer, or to the end; also the rest, and whether it was closed. */
  function ParseInner(s: string): (r: (Inner, string, bool))
    ensures |r.1| <= |s|
    decreases |s|
  {
    if s == "" then (End, "", false)
    else if s[0] == ')' then (End, s[1..], true)
    else if s[0] == '$' && |s| > 1 && s[1] == '(' then
      var (inner, rest, closed) := ParseInner(s[2..]);
      if !closed then (Open(inner), "", false)
      else
        var (next, rest', closed') := ParseInner(rest);
        (Ref(inner, next), rest', closed')
    else
      var (next, rest, closed) := ParseInner(s[1..]);
      (if s[0] == '$' then Dollar(next) else Chr(s[0], next), rest, closed)
  }

  /** Reads a whole expression of which `run` backslashes were read already. */
  function Parse(s: string, run: nat): Template
    decreases |s|
  {
    if s == "" then Stop(run)
    else if s[0] == '\\' then Parse(s[1..], run + 1)
    else if s[0] != '$' then Plain(run, s[0], Parse(s[1..], 0))
    else if run % 2 == 0 && |s| > 1 && s[1] == '(' then
      var (inner, rest, closed) := ParseInner(s[2..]);
      if closed then Reference(run, inner, Parse(rest, 0)) else Unclosed(run, inner)
    else if run % 2 == 0 then Bare(run, Parse(s[1..], 0))
    else Escaped(run, Parse(s[1..], 0))
  }

  function Closer(closed: bool): string {
    if closed then ")" else ""
  }

  ghost predicate InnerSpells(s: string, r: (Inner, string, bool)) {
    WellFormedInner(r.0, r.2) && s == PrintInner(r.0) + Closer(r.2) + r.1 && (!r.2 ==> r.1 == "")
  }

  lemma CharSpells(c: char, s: string, r: (Inner, string, bool))
    requires InnerSpells(s, r) && c != ')'
    requires c == '$' ==> s == "" || s[0] != '('
    ensures InnerSpells([c] + s, (if c == '$' then Dollar(r.0) else Chr(c, r.0), r.1, r.2))
  {
    assert [c] + PrintInner(r.0) + Closer(r.2) + r.1 == [c] + s;
    if r.0.Chr? { assert s[0] == PrintInner(r.0)[0] == r.0.c; }
  }

  lemma RefSpells(s: string, inner: Inner, rest: string, r: (Inner, string, bool))
    requires InnerSpells(s, (inner, rest, true)) && InnerSpells(rest, r)
    ensures InnerSpells("$(" + s, (Ref(inner, r.0), r.1, r.2))
  {
    assert "$(" + PrintInner(inner) + ")" + PrintInner(r.0) + Closer(r.2) + r.1
      == "$(" + (PrintInner(inner) + ")" + (PrintInner(r.0) + Closer(r.2) + r.1));
  }

  lemma {:induction false} ParseInnerSpells(s: string)
    ensures InnerSpells(s, ParseInner(s))
    decreases |s|
  {
    if s == "" || s[0] == ')' {
    } else if s[0] == '$' && |s| > 1 && s[1] == '(' {
      var (inner, rest, closed) := ParseInner(s[2..]);
      ParseInnerSpells(s[2..]);
      assert s == "$(" + s[2..];
      if closed {
        ParseInnerSpells(rest);
        RefSpells(s[2..], inner, rest, ParseInner(rest));
      }
    } else {
      ParseInnerSpells(s[1..]);
      assert s == [s[0]] + s[1..];
      CharSpells(s[0], s[1..], ParseInner(s[1..]));
    }
  }

  ghost predicate Spells(s: string, run: nat, t: Template) {
    WellFormed(t) && Print(t) == Backslashes(run) + s
  }

  lemma OneCharSpells(c: char, s: string, run: nat, next: Template)
    requires Spells(s, 0, next) && c != '\\'
    ensures c != '$' ==> Spells([c] + s, run, Plain(run, c, next))
    ensures c == '$' && run % 2 == 0 && (s == "" || s[0] != '(') ==> Spells([c] + s, run, Bare(run, next))
    ensures c == '$' && run % 2 != 0 ==> Spells([c] + s, run, Escaped(run, next))
  {
    assert Backslashes(0) + s == s;
    assert Backslashes(run) + ([c] + s) == Backslashes(run) + [c] + s;
    if next.Plain? && next.backslashes == 0 { assert s[0] == Print(next)[0] == next.c; }
  }

  lemma ReferenceSpells(s: string, run: nat, inner: Inner, rest: string, next: Template)
    requires run % 2 == 0 && InnerSpells(s, (inner, rest, true)) && Spells(rest, 0, next)
    ensures Spells("$(" + s, run, Reference(run, inner, next))
  {
    assert Backslashes(0) + rest == rest;
    assert Backslashes(run) + ("$(" + (PrintInner(inner) + ")" + rest)) == Backslashes(run) + "$(" + PrintInner(inner) + ")" + rest;
  }

  lemma UnclosedSpells(s: string, run: nat, inner: Inner)
    requires run % 2 == 0 && InnerSpells(s, (inner, "", false))
    ensures Spells("$(" + s, run, Unclosed(run, inner))
  {
    assert PrintInner(inner) + "" + "" == PrintInner(inner);
    assert Backslashes(run) + ("$(" + s) == Backslashes(run) + "$(" + s;
  }

  lemma {:induction false} ParseSpells(s: string, run: nat)
    ensures Spells(s, run, Parse(s, run))
    decreases |s|
  {
    if s == "" {
    } else if s[0] == '\\' {
      ParseSpells(s[1..], run + 1);
      assert Backslashes(run + 1) + s[1..] == Backslashes(run) + s;
    } else if s[0] == '$' && run % 2 == 0 && |s| > 1 && s[1] == '(' {
      var (inner, rest, closed) := ParseInner(s[2..]);
      ParseInnerSpells(s[2..]);
      assert s == "$(" + s[2..];
      if closed {
        ParseSpells(rest, 0);
        ReferenceSpells(s[2..], run, inner, rest, Parse(rest, 0));
      } else {
        UnclosedSpells(s[2..], run, inner);
      }
    } else {
      ParseSpells(s[1..], 0);
      assert s == [s[0]] + s[1..];
      OneCharSpells(s[0], s[1..], run, Parse(s[1..], 0));
    }
  }

  /** Every well-formed template, printed and scanned in any scope, has its value. */
  lemma TemplatesAreEvaluated(t: Template, deref: Deref)
    requires WellFormed(t)
    ensures Interpolated(Print(t), deref) == Eval(t, deref)
  {
    ScanTemplate(t, "", deref);
    var r := Eval(t, deref);
    if r.Ok? { assert "" + r.value == r.value; }
  }

  /** And every byte string is the print of one: so its interpolation is the value of what it spells. */
  lemma InterpolationFollowsGrammar(s: string, deref: Deref)
    ensures WellFormed(Parse(s, 0)) && Print(Parse(s, 0)) == s
    ensures Interpolated(s, deref) == Eval(Parse(s, 0), deref)
  {
    ParseSpells(s, 0);
    assert Backslashes(0) + s == s;
    TemplatesAreEvaluated(Parse(s, 0), deref);
  }
}
