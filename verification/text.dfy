/** Byte strings: the lexicographic order that Badger iterates in and that `sort.Strings`
    sorts by, prefixes, fixed-width decimals, ASCII case folding and references to names. */
module Text {

  datatype Option<+T> = None | Some(value: T)

  datatype Result<+T> = Ok(value: T) | Err

  // ---------- order ----------

  predicate Less(a: string, b: string) {
    b != "" && (a == "" || a[0] < b[0] || (a[0] == b[0] && Less(a[1..], b[1..])))
  }

  predicate AtMost(a: string, b: string) {
    a == b || Less(a, b)
  }

  lemma {:induction false} LessIrreflexive(a: string)
    ensures !Less(a, a)
  {
    if a != "" { LessIrreflexive(a[1..]); }
  }

  lemma {:induction false} LessTransitive(a: string, b: string, c: string)
    requires Less(a, b) && Less(b, c)
    ensures Less(a, c)
  {
    if a != "" && a[0] == b[0] == c[0] { LessTransitive(a[1..], b[1..], c[1..]); }
  }

  lemma {:induction false} LessTotal(a: string, b: string)
    ensures Less(a, b) || a == b || Less(b, a)
    ensures !(Less(a, b) && Less(b, a))
  {
    if a != "" && b != "" && a[0] == b[0] {
      LessTotal(a[1..], b[1..]);
      assert a == [a[0]] + a[1..] && b == [b[0]] + b[1..];
    }
  }

  /** Strings that start with two equally long strings are ordered by these, then by the rest. */
  lemma {:induction false} LessAppend(p: string, q: string, a: string, b: string)
    requires |p| == |q|
    ensures Less(p + a, q + b) <==> Less(p, q) || (p == q && Less(a, b))
  {
    if p == "" {
      assert p + a == a && q + b == b;
    } else {
      LessAppend(p[1..], q[1..], a, b);
      assert (p + a)[1..] == p[1..] + a && (q + b)[1..] == q[1..] + b;
      assert p == [p[0]] + p[1..] && q == [q[0]] + q[1..];
      if p == q { LessIrreflexive(p); }
    }
  }

  /** The strings that start with `p` form one uninterrupted run of the order. */
  lemma {:induction false} PrefixRunIsConvex(p: string, a: string, b: string, c: string)
    requires p <= a && p <= c && AtMost(a, b) && AtMost(b, c)
    ensures p <= b
  {
    if p != "" && a != b && b != c {
      assert a[0] == p[0] == c[0] == b[0];
      PrefixRunIsConvex(p[1..], a[1..], b[1..], c[1..]);
      assert p == [p[0]] + p[1..] && b == [b[0]] + b[1..];
    }
  }

  /** The two prefixes of one string that have one length are the same. */
  lemma PrefixesOfOneLengthAgree(s: string, p: string, q: string)
    requires p <= s && q <= s && |p| == |q|
    ensures p == q
  {
    assert p == s[..|p|] && q == s[..|q|];
  }

  // ---------- decimals ----------

  function Pow10(n: nat): (r: nat)
    ensures r > 0
  {
    if n == 0 then 1 else 10 * Pow10(n - 1)
  }

  function Digit(d: nat): (c: char)
    requires d < 10
  {
    '0' + d as char
  }

  /** The last `width` decimal digits of `n`, zero-padded. */
  function Digits(n: nat, width: nat): (s: string)
    ensures |s| == width
  {
    if width == 0 then "" else Digits(n / 10, width - 1) + [Digit(n % 10)]
  }

  lemma LessDigit(a: nat, b: nat)
    requires a < 10 && b < 10
    ensures Less([Digit(a)], [Digit(b)]) <==> a < b
    ensures Digit(a) == Digit(b) <==> a == b
  {
  }

  /** Zero-padded decimals of one width are ordered as numbers, and equal only as numbers. */
  lemma {:induction false} DigitsOrder(a: nat, b: nat, width: nat)
    requires a < Pow10(width) && b < Pow10(width)
    ensures Less(Digits(a, width), Digits(b, width)) <==> a < b
    ensures Digits(a, width) == Digits(b, width) <==> a == b
  {
    if width > 0 {
      var p, q := Digits(a / 10, width - 1), Digits(b / 10, width - 1);
      DigitsOrder(a / 10, b / 10, width - 1);
      LessAppend(p, q, [Digit(a % 10)], [Digit(b % 10)]);
      LessDigit(a % 10, b % 10);
      assert Digits(a, width)[..width - 1] == p && Digits(b, width)[..width - 1] == q;
      assert Digits(a, width)[width - 1] == Digit(a % 10) && Digits(b, width)[width - 1] == Digit(b % 10);
    }
  }

  // ---------- ASCII case ----------

  function LowerChar(c: char): char {
    if 'A' <= c <= 'Z' then c - 'A' + 'a' else c
  }

  /** `strings.ToLower` on ASCII strings. */
  function Lower(s: string): (r: string)
    ensures |r| == |s|
    ensures forall i :: 0 <= i < |s| ==> r[i] == LowerChar(s[i])
  {
    seq(|s|, i requires 0 <= i < |s| => LowerChar(s[i]))
  }

  const UPPER := "ABCDEFGHIJKLMNOPQRSTUVWXYZ"
  const LOWER := "abcdefghijklmnopqrstuvwxyz"

  /** Equal, or the two cases of one letter. */
  predicate SameLetter(c: char, d: char) {
    c == d || exists i :: 0 <= i < 26 && ((c == UPPER[i] && d == LOWER[i]) || (c == LOWER[i] && d == UPPER[i]))
  }

  predicate SameButForCase(a: string, b: string) {
    |a| == |b| && forall i :: 0 <= i < |a| ==> SameLetter(a[i], b[i])
  }

  lemma LetterAt(i: nat)
    requires i < 26
    ensures UPPER[i] == 'A' + i as char && LOWER[i] == 'a' + i as char
  {
  }

  lemma SameLetterLowers(c: char, d: char)
    requires SameLetter(c, d)
    ensures LowerChar(c) == LowerChar(d)
  {
    if c != d {
      var i :| 0 <= i < 26 && ((c == UPPER[i] && d == LOWER[i]) || (c == LOWER[i] && d == UPPER[i]));
      LetterAt(i);
    }
  }

  lemma LoweredAlikeIsSame(c: char, d: char)
    requires LowerChar(c) == LowerChar(d)
    ensures SameLetter(c, d)
  {
    if c != d {
      var i := (LowerChar(c) - 'a') as int;
      LetterAt(i);
    }
  }

  /** Lower-casing forgets the case of ASCII letters, and nothing else. */
  lemma LowerForgetsCase(a: string, b: string)
    ensures Lower(a) == Lower(b) <==> SameButForCase(a, b)
  {
    forall i | 0 <= i < |a| && i < |b| ensures SameLetter(a[i], b[i]) <==> Lower(a)[i] == Lower(b)[i] {
      if SameLetter(a[i], b[i]) { SameLetterLowers(a[i], b[i]); }
      if LowerChar(a[i]) == LowerChar(b[i]) { LoweredAlikeIsSame(a[i], b[i]); }
    }
    if SameButForCase(a, b) { assert forall i :: 0 <= i < |a| ==> Lower(a)[i] == Lower(b)[i]; }
  }

  /** And no upper-case letter is left. */
  lemma LowerHasNoUpper(s: string)
    ensures forall c :: c in Lower(s) ==> c !in UPPER
  {
    forall i | 0 <= i < 26 ensures UPPER[i] == 'A' + i as char { LetterAt(i); }
  }

  // ---------- references to names ----------

  const REF_START := "$("
  const REF_END := ")"

  function NameToRef(name: string): string {
    REF_START + name + REF_END
  }

  /** The name inside `$(name)`; a bare name stands for itself. */
  function RefToName(ref: string): string {
    var s := if REF_START <= ref then ref[2..] else ref;
    if s != "" && s[|s| - 1] == ')' then s[..|s| - 1] else s
  }

  /** Has nothing that is trimmed off a reference. */
  predicate IsBare(name: string) {
    !(REF_START <= name) && (name == "" || name[|name| - 1] != ')')
  }

  /** `ref` is a way to write a reference to `name`. */
  predicate RefersTo(ref: string, name: string) {
    ref == NameToRef(name) || (ref == name && IsBare(name))
  }

  /** A reference gives back the name that it was made of, whatever the name is, and a bare name itself. */
  lemma RefToNameOfRef(ref: string, name: string)
    requires RefersTo(ref, name)
    ensures RefToName(ref) == name
  {
    if ref == NameToRef(name) {
      assert ref[2..] == name + REF_END && (name + REF_END)[..|name|] == name;
    }
  }

  /** The two ends are trimmed each by itself. */
  lemma HalfARefToName(name: string)
    requires IsBare(name)
    ensures RefToName(REF_START + name) == name
    ensures RefToName(name + REF_END) == name
  {
    assert (REF_START + name)[2..] == name;
    var ref := name + REF_END;
    assert ref[..|name|] == name;
    assert |name| == 1 ==> ref[1] == ')';
    assert |name| >= 2 ==> ref[0] == name[0] && ref[1] == name[1] && name[..2] == name[0..2] == [name[0], name[1]];
  }
}
