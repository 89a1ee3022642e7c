/** `sort.Strings`, as insertion into an ascending list; and that a set of strings has only one ascending listing, so
    that the order in which a map is ranged over makes no difference. */
module Sorting {
  import opened Text

  /** In order, and none of them twice. */
  ghost predicate Ascending(names: seq<string>) {
    forall i, j :: 0 <= i < j < |names| ==> Less(names[i], names[j])
  }

  ghost predicate Listing(names: seq<string>, all: set<string>) {
    Ascending(names) && forall name :: name in names <==> name in all
  }

  /** Puts a new name in its place. */
  method InsertName(names: seq<string>, name: string, ghost all: set<string>) returns (more: seq<string>)
    requires Listing(names, all) && name !in all
    ensures Listing(more, all + {name})
  {
    var i := |names|;
    while i > 0 && Less(name, names[i - 1])
      invariant 0 <= i <= |names|
      invariant forall j :: i <= j < |names| ==> Less(name, names[j])
    {
      i := i - 1;
    }
    more := names[..i] + [name] + names[i..];
    forall j | 0 <= j < i ensures Less(names[j], name) {
      LessTotal(name, names[i - 1]);
      assert names[i - 1] in names;
      if j < i - 1 { LessTransitive(names[j], names[i - 1], name); }
    }
    forall x ensures x in more <==> x in names || x == name {
      if x in names { assert names == names[..i] + names[i..]; }
    }
  }

  /** The names in order, whatever order they are ranged over in. */
  method Sorted(all: set<string>) returns (names: seq<string>)
    ensures Listing(names, all)
  {
    names := [];
    var left := all;
    while left != {}
      invariant left <= all && Listing(names, all - left)
      decreases |left|
    {
      var name :| name in left;
      names := InsertName(names, name, all - left);
      assert all - left + {name} == all - (left - {name});
      left := left - {name};
    }
    assert all - left == all;
  }

  lemma FirstIsLeast(a: seq<string>, all: set<string>, x: string)
    requires Listing(a, all) && x in all
    ensures a != [] && AtMost(a[0], x) && a[0] in all
  {
    assert x in a;
    assert a[0] in a;
    var i :| 0 <= i < |a| && a[i] == x;
  }

  /** There is only one way to list a set in order. */
  lemma {:induction false} ListingIsUnique(a: seq<string>, b: seq<string>, all: set<string>)
    requires Listing(a, all) && Listing(b, all)
    ensures a == b
    decreases |a|
  {
    assert a == [] || a[0] in a;
    assert b == [] || b[0] in b;
    if all != {} {
      var x :| x in all;
      FirstIsLeast(a, all, x);
      FirstIsLeast(b, all, a[0]);
      FirstIsLeast(a, all, b[0]);
      LessTotal(a[0], b[0]);
      TailLists(a, all);
      TailLists(b, all);
      ListingIsUnique(a[1..], b[1..], all - {a[0]});
      assert a == [a[0]] + a[1..] && b == [b[0]] + b[1..];
    }
  }

  lemma TailLists(a: seq<string>, all: set<string>)
    requires a != [] && Listing(a, all)
    ensures Listing(a[1..], all - {a[0]})
  {
    LessIrreflexive(a[0]);
    forall x ensures x in a[1..] <==> x in all - {a[0]} {
      if x in a && x != a[0] { var i :| 0 <= i < |a| && a[i] == x; assert a[1..][i - 1] == x; }
      if x in a[1..] { var i :| 0 <= i < |a[1..]| && a[1..][i] == x; assert a[i + 1] == x && Less(a[0], a[i + 1]); }
    }
  }
}
