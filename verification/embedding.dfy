/** How a client makes arguments independent of where they are: files and directories become objects, within a
    limit on their size. */
module Embedding {
  import opened Text
  import opened Values

  /** What `os.Stat` and `os.ReadDir` find. `size` is what the directory entry itself reports: for a regular
      file that is its length, but for a directory or a link it says nothing about what is behind it. */
  datatype Tree = File(content: string) | Dir(entries: seq<Entry>) | Unreadable

  datatype Entry = Entry(name: string, size: nat, tree: Tree)

  const MAX_EMBED_BYTES: nat := 40 * 1024 * 1024

  // ---------- the object a tree becomes ----------

  function Serialized(t: Tree): map<string, Data> {
    match t
    case File(content) => map["data" := Str(content)]
    case Dir(entries) => SerializedEntries(entries)
    case Unreadable => map[]
  }

  function SerializedEntries(entries: seq<Entry>): map<string, Data> {
    if entries == [] then map[]
    else SerializedEntries(entries[..|entries| - 1])
           ["/" + entries[|entries| - 1].name := Obj(Serialized(entries[|entries| - 1].tree))]
  }

  /** The sum of the sizes of all files. */
  function TotalSize(t: Tree): nat {
    match t
    case File(content) => |content|
    case Dir(entries) => EntriesSize(entries)
    case Unreadable => 0
  }

  function EntriesSize(entries: seq<Entry>): nat {
    if entries == [] then 0
    else EntriesSize(entries[..|entries| - 1]) + TotalSize(entries[|entries| - 1].tree)
  }

  /** What the limit and the file system allow. */
  predicate Embeddable(t: Tree) {
    match t
    case File(content) => |content| < MAX_EMBED_BYTES
    case Dir(entries) => EntriesEmbeddable(entries)
    case Unreadable => false
  }

  predicate EntriesEmbeddable(entries: seq<Entry>) {
    entries == [] || (
      var before, e := entries[..|entries| - 1], entries[|entries| - 1];
      EntriesEmbeddable(before) && e.size + EntriesSize(before) <= MAX_EMBED_BYTES && Embeddable(e.tree))
  }

  lemma {:induction false} PrefixEmbeddable(entries: seq<Entry>, i: nat)
    requires i <= |entries| && EntriesEmbeddable(entries)
    ensures EntriesEmbeddable(entries[..i])
  {
    if i < |entries| {
      PrefixEmbeddable(entries[..|entries| - 1], i);
      assert entries[..|entries| - 1][..i] == entries[..i];
    } else {
      assert entries[..i] == entries;
    }
  }

  lemma PrefixStep(entries: seq<Entry>, i: nat)
    requires i < |entries|
    ensures entries[..i + 1][..i] == entries[..i] && entries[..i + 1][i] == entries[i]
  {
  }

  method FileOrDirPathToObject(t: Tree) returns (r: Result<(map<string, Data>, nat)>)
    ensures r == if Embeddable(t) then Ok((Serialized(t), TotalSize(t))) else Err
    decreases t
  {
    match t {
      case Unreadable => return Err;
      case File(content) =>
        if |content| >= MAX_EMBED_BYTES { return Err; }
        return Ok((map["data" := Str(content)], |content|));
      case Dir(entries) =>
        var fileObject, totalSize: nat := map[], 0;
        for i := 0 to |entries|
          invariant EntriesEmbeddable(entries[..i])
          invariant fileObject == SerializedEntries(entries[..i]) && totalSize == EntriesSize(entries[..i])
        {
          PrefixStep(entries, i);
          if EntriesEmbeddable(entries) { PrefixEmbeddable(entries, i + 1); }
          if entries[i].size + totalSize > MAX_EMBED_BYTES { return Err; }
          var child := FileOrDirPathToObject(entries[i].tree);
          if child.Err? { return Err; }
          fileObject := fileObject["/" + entries[i].name := Obj(child.value.0)];
          totalSize := totalSize + child.value.1;
        }
        assert entries[..|entries|] == entries;
        return Ok((fileObject, totalSize));
    }
  }

  // ---------- what the limits are ----------

  /** The tree at the end of a path of positions. */
  function At(t: Tree, path: seq<nat>): Option<Tree>
    decreases |path|
  {
    if path == [] then Some(t)
    else if t.Dir? && path[0] < |t.entries| then At(t.entries[path[0]].tree, path[1..])
    else None
  }

  /** What must hold of one tree by itself: it can be read; a file is less than the limit; and what each directory entry
      reports fits in what its earlier siblings left of it. */
  ghost predicate Passes(t: Tree) {
    match t
    case Unreadable => false
    case File(content) => |content| < 40 * 1024 * 1024
    case Dir(entries) => forall i :: 0 <= i < |entries| ==> EntriesSize(entries[..i]) + entries[i].size <= 40 * 1024 * 1024
  }

  ghost predicate PassesAt(t: Tree, path: seq<nat>) {
    At(t, path).Some? ==> Passes(At(t, path).value)
  }

  lemma {:induction false} EntriesEmbeddableIff(entries: seq<Entry>)
    ensures EntriesEmbeddable(entries) <==>
      forall i :: 0 <= i < |entries| ==>
        Embeddable(entries[i].tree) && EntriesSize(entries[..i]) + entries[i].size <= MAX_EMBED_BYTES
  {
    if entries != [] {
      var n := |entries| - 1;
      EntriesEmbeddableIff(entries[..n]);
      forall i | 0 <= i < n ensures entries[..n][i] == entries[i] && entries[..n][..i] == entries[..i] { }
    }
  }

  lemma {:induction false} EmbeddablePasses(t: Tree, path: seq<nat>)
    requires Embeddable(t)
    ensures PassesAt(t, path)
    decreases |path|
  {
    if t.Dir? {
      EntriesEmbeddableIff(t.entries);
      if path != [] && path[0] < |t.entries| { EmbeddablePasses(t.entries[path[0]].tree, path[1..]); }
    }
  }

  lemma {:induction false} FailsSomewhere(t: Tree) returns (path: seq<nat>)
    requires !Embeddable(t)
    ensures !PassesAt(t, path)
  {
    path := [];
    if t.Dir? && Passes(t) {
      EntriesEmbeddableIff(t.entries);
      var i :| 0 <= i < |t.entries| && !Embeddable(t.entries[i].tree);
      path := FailsSomewhere(t.entries[i].tree);
      assert ([i] + path)[1..] == path;
      path := [i] + path;
    }
  }

  /** A tree can be embedded exactly if everything in it passes by itself. */
  lemma EmbeddableIff(t: Tree)
    ensures Embeddable(t) <==> forall path :: PassesAt(t, path)
  {
    if Embeddable(t) {
      forall path ensures PassesAt(t, path) { EmbeddablePasses(t, path); }
    } else {
      var path := FailsSomewhere(t);
    }
  }

  /** The contents of all files, one after the other. */
  function Contents(t: Tree): string {
    match t
    case File(content) => content
    case Dir(entries) => EntriesContents(entries)
    case Unreadable => ""
  }

  function EntriesContents(entries: seq<Entry>): string {
    if entries == [] then "" else Contents(entries[0].tree) + EntriesContents(entries[1..])
  }

  lemma {:induction false} SizeOfEntries(entries: seq<Entry>)
    ensures EntriesSize(entries) == |EntriesContents(entries)|
  {
    if entries != [] {
      TotalSizeIsOfContents(entries[0].tree);
      SizeOfEntries(entries[1..]);
      SizeOfFirst(entries);
    }
  }

  lemma {:induction false} SizeOfFirst(entries: seq<Entry>)
    requires entries != []
    ensures EntriesSize(entries) == TotalSize(entries[0].tree) + EntriesSize(entries[1..])
  {
    var n := |entries| - 1;
    if n > 0 {
      SizeOfFirst(entries[..n]);
      assert entries[..n][1..] == entries[1..][..n - 1];
    } else {
      assert entries[..0] == [] && entries[1..] == [];
    }
  }

  /** The total size is the length of all files together. */
  lemma {:induction false} TotalSizeIsOfContents(t: Tree)
    ensures TotalSize(t) == |Contents(t)|
  {
    if t.Dir? { SizeOfEntries(t.entries); }
  }

  // ---------- what is within them ----------

  /** What was checked of each entry. */
  lemma {:induction false} EntrySizes(entries: seq<Entry>, i: nat)
    requires EntriesEmbeddable(entries) && i < |entries|
    ensures Embeddable(entries[i].tree) && entries[i].size + EntriesSize(entries[..i]) <= MAX_EMBED_BYTES
  {
    var n := |entries| - 1;
    if i < n {
      EntrySizes(entries[..n], i);
      assert entries[..n][..i] == entries[..i];
    }
  }

  /** How much a directory entry does not report of what is behind it. */
  function Unreported(e: Entry): int {
    TotalSize(e.tree) - e.size
  }

  /** Before the last entry nothing can take a serialized directory over the limit. */
  lemma WithinLimitBeforeLast(entries: seq<Entry>, i: nat)
    requires EntriesEmbeddable(entries) && i < |entries|
    ensures EntriesSize(entries[..i]) + entries[i].size <= MAX_EMBED_BYTES
  {
    EntrySizes(entries, i);
  }

  /** So it is over the limit exactly if its last entry leaves more unreported than was left of the limit. */
  lemma OverLimitIffLastIs(entries: seq<Entry>)
    requires EntriesEmbeddable(entries) && entries != []
    ensures var last := entries[|entries| - 1];
      var left := MAX_EMBED_BYTES - (EntriesSize(entries[..|entries| - 1]) + last.size);
      left >= 0 && (TotalSize(Dir(entries)) > MAX_EMBED_BYTES <==> Unreported(last) > left)
  {
    WithinLimitBeforeLast(entries, |entries| - 1);
  }

  /** And a directory whose last entry reports the size of what is behind it is within the limit. */
  lemma HonestLastIsWithinLimit(entries: seq<Entry>)
    requires EntriesEmbeddable(entries) && (entries != [] ==> Unreported(entries[|entries| - 1]) <= 0)
    ensures TotalSize(Dir(entries)) <= MAX_EMBED_BYTES
  {
    if entries != [] { OverLimitIffLastIs(entries); }
  }

  lemma AddEntry(entries: seq<Entry>, e: Entry)
    ensures EntriesSize(entries + [e]) == EntriesSize(entries) + TotalSize(e.tree)
    ensures EntriesEmbeddable(entries + [e]) ==
            (EntriesEmbeddable(entries) && e.size + EntriesSize(entries) <= MAX_EMBED_BYTES && Embeddable(e.tree))
  {
    assert (entries + [e])[..|entries|] == entries;
  }

  /** But a directory's own entry does not count what it holds: one that comes last can take it over the limit. */
  lemma DirCanExceedLimit() returns (t: Tree)
    ensures Embeddable(t) && TotalSize(t) > MAX_EMBED_BYTES
  {
    var content := seq(30 * 1024 * 1024, i => 'x');
    var file, sub := Entry("f", |content|, File(content)), Dir([] + [Entry("f", |content|, File(content))]);
    AddEntry([], file);
    AddEntry([], Entry("a", 4096, sub));
    AddEntry([] + [Entry("a", 4096, sub)], Entry("b", 4096, sub));
    t := Dir([] + [Entry("a", 4096, sub)] + [Entry("b", 4096, sub)]);
  }

  // ---------- embedding all arguments ----------

  /** The path of an argument that is embedded. */
  function EmbedPath(v: Value): Option<string> {
    match v
    case DirValue(path) => Some(path)
    case FileValue(path) => Some(path)
    case _ => None
  }

  function TreeAt(fs: map<string, Tree>, path: string): Tree {
    if path in fs then fs[path] else Unreadable
  }

  function Embedded(fs: map<string, Tree>, v: Value): Value {
    if EmbedPath(v).Some? then ObjectValue(Serialized(TreeAt(fs, EmbedPath(v).value))) else v
  }

  function EmbeddedSize(fs: map<string, Tree>, v: Value): nat {
    if EmbedPath(v).Some? then TotalSize(TreeAt(fs, EmbedPath(v).value)) else 0
  }

  predicate CanEmbed(fs: map<string, Tree>, v: Value) {
    EmbedPath(v).Some? ==> Embeddable(TreeAt(fs, EmbedPath(v).value))
  }

  /** An argument that is a directory or a file became the object of what is at its path; any other is as it was. */
  predicate IsEmbedded(fs: map<string, Tree>, was: Value, now: Value) {
    match was
    case DirValue(path) => path in fs && now == ObjectValue(Serialized(fs[path]))
    case FileValue(path) => path in fs && now == ObjectValue(Serialized(fs[path]))
    case _ => now == was
  }

  /** Nothing stands in the way of embedding it: there is something at its path that can be embedded. */
  lemma CanEmbedIff(fs: map<string, Tree>, v: Value)
    ensures CanEmbed(fs, v) <==>
      match v
      case DirValue(path) => path in fs && Embeddable(fs[path])
      case FileValue(path) => path in fs && Embeddable(fs[path])
      case _ => true
    ensures CanEmbed(fs, v) ==> IsEmbedded(fs, v, Embedded(fs, v))
    ensures EmbeddedSize(fs, v) ==
      match v
      case DirValue(path) => if path in fs then |Contents(fs[path])| else 0
      case FileValue(path) => if path in fs then |Contents(fs[path])| else 0
      case _ => 0
  {
    if EmbedPath(v).Some? { TotalSizeIsOfContents(TreeAt(fs, EmbedPath(v).value)); }
  }

  /** The combined size of the arguments, in any order. */
  ghost function CombinedSize(fs: map<string, Tree>, args: map<string, Value>, keys: set<string>): nat
    requires keys <= args.Keys
  {
    if keys == {} then 0
    else
      var k :| k in keys;
      EmbeddedSize(fs, args[k]) + CombinedSize(fs, args, keys - {k})
  }

  lemma {:induction false} CombinedSizeAnyOrder(fs: map<string, Tree>, args: map<string, Value>, keys: set<string>, k: string)
    requires k in keys && keys <= args.Keys
    ensures CombinedSize(fs, args, keys) == EmbeddedSize(fs, args[k]) + CombinedSize(fs, args, keys - {k})
  {
    var first :| first in keys && CombinedSize(fs, args, keys) == EmbeddedSize(fs, args[first]) + CombinedSize(fs, args, keys - {first});
    if first != k {
      CombinedSizeAnyOrder(fs, args, keys - {first}, k);
      CombinedSizeAnyOrder(fs, args, keys - {k}, first);
      assert keys - {first} - {k} == keys - {k} - {first};
    }
  }

  class Args {
    var args: map<string, Value>

    /** Embeds in whatever order the map is ranged over. The order does not decide whether this succeeds. If it
        fails, some of the arguments may have been replaced already. */
    method EmbedLocalFilesAndDirs(fs: map<string, Tree>) returns (ok: bool)
      modifies this
      ensures ok <==>
                && (forall k <- old(args) :: CanEmbed(fs, old(args)[k]))
                && CombinedSize(fs, old(args), old(args).Keys) <= MAX_EMBED_BYTES
      ensures args.Keys == old(args).Keys
      ensures ok ==> forall k <- args :: IsEmbedded(fs, old(args)[k], args[k])
      ensures forall k <- args :: args[k] == old(args)[k] || IsEmbedded(fs, old(args)[k], args[k])
    {
      ghost var was := args;
      forall k | k in was && CanEmbed(fs, was[k]) ensures IsEmbedded(fs, was[k], Embedded(fs, was[k])) { CanEmbedIff(fs, was[k]); }
      var keys, totalSize: nat := args.Keys, 0;
      while keys != {}
        invariant keys <= was.Keys && args.Keys == was.Keys
        invariant forall k <- was :: args[k] == if k in keys then was[k] else Embedded(fs, was[k])
        invariant forall k <- was :: k !in keys ==> CanEmbed(fs, was[k])
        invariant totalSize + CombinedSize(fs, was, keys) == CombinedSize(fs, was, was.Keys)
        invariant totalSize <= MAX_EMBED_BYTES
        decreases |keys|
      {
        var key :| key in keys;
        CombinedSizeAnyOrder(fs, was, keys, key);
        keys := keys - {key};
        var path := EmbedPath(args[key]);
        if path.Some? {
          var r := FileOrDirPathToObject(TreeAt(fs, path.value));
          if r.Err? {
            assert !CanEmbed(fs, was[key]);
            return false;
          }
          totalSize := totalSize + r.value.1;
          if totalSize > MAX_EMBED_BYTES { return false; }
          args := args[key := ObjectValue(r.value.0)];
        }
      }
      return true;
    }
  }
}
