/** How a node turns an object back into files and directories. */
module Recreation {
  import opened Text
  import opened Values
  import opened Embedding

  /** An absolute path; [] is the root of the file system. */
  type Path = seq<string>

  datatype Inode = DirNode | FileNode(data: string)

  type Nodes = map<Path, Inode>

  predicate IsFile(nodes: Nodes, p: Path) {
    p in nodes && nodes[p].FileNode?
  }

  /** Every node's parent is a directory. */
  ghost predicate WellFormed(nodes: Nodes) {
    && [] in nodes && nodes[[]].DirNode?
    && forall p <- nodes :: p != [] ==> p[..|p| - 1] in nodes && nodes[p[..|p| - 1]].DirNode?
  }

  function WithDirs(nodes: Nodes, p: Path): Nodes {
    if p == [] then nodes
    else
      var above := WithDirs(nodes, p[..|p| - 1]);
      if p in above then above else above[p := DirNode]
  }

  /** No proper prefix of the path is a file. */
  ghost predicate Reachable(nodes: Nodes, p: Path) {
    forall i :: 0 <= i < |p| ==> !IsFile(nodes, p[..i])
  }

  lemma {:induction false} WithDirsMeans(nodes: Nodes, p: Path)
    ensures WithDirs(nodes, p).Keys == nodes.Keys + set i | 1 <= i <= |p| :: p[..i]
    ensures forall q <- WithDirs(nodes, p) :: WithDirs(nodes, p)[q] == if q in nodes then nodes[q] else DirNode
  {
    if p != [] {
      var above := p[..|p| - 1];
      WithDirsMeans(nodes, above);
      assert (set i | 1 <= i <= |p| :: p[..i]) == (set i | 1 <= i <= |above| :: above[..i]) + {p} by {
        assert p[..|p|] == p;
        forall i | 1 <= i <= |above| ensures above[..i] == p[..i] {}
      }
    }
  }

  lemma {:induction false} NothingMissing(nodes: Nodes, p: Path)
    requires WellFormed(nodes) && p in nodes
    ensures WithDirs(nodes, p) == nodes && Reachable(nodes, p)
  {
    if p != [] {
      NothingMissing(nodes, p[..|p| - 1]);
      forall i | 0 <= i < |p| ensures !IsFile(nodes, p[..i]) {
        if i < |p| - 1 { assert p[..|p| - 1][..i] == p[..i]; }
      }
    }
  }

  lemma AddKeepsWellFormed(nodes: Nodes, p: Path, n: Inode)
    requires WellFormed(nodes) && p != [] && p[..|p| - 1] in nodes && nodes[p[..|p| - 1]].DirNode?
    requires n.DirNode? || !(p in nodes && nodes[p].DirNode?)
    ensures WellFormed(nodes[p := n])
  {
  }

  lemma {:induction false} WithDirsKeepsWellFormed(nodes: Nodes, p: Path)
    requires WellFormed(nodes) && Reachable(nodes, p)
    ensures WellFormed(WithDirs(nodes, p)) && p in WithDirs(nodes, p)
    ensures !IsFile(nodes, p) ==> WithDirs(nodes, p)[p].DirNode?
  {
    if p != [] {
      var above := p[..|p| - 1];
      forall i | 0 <= i < |above| ensures !IsFile(nodes, above[..i]) { assert above[..i] == p[..i]; }
      WithDirsKeepsWellFormed(nodes, above);
      WithDirsMeans(nodes, above);
      if p !in WithDirs(nodes, above) { AddKeepsWellFormed(WithDirs(nodes, above), p, DirNode); }
    }
  }

  class Disk {
    var nodes: Nodes

    /** One directory; what already exists there may also be a file. */
    method Mkdir(p: Path) returns (made: bool, found: bool)
      modifies this
      ensures found == (p in old(nodes))
      ensures made <==> p !in old(nodes) && p != [] && p[..|p| - 1] in old(nodes) && old(nodes)[p[..|p| - 1]].DirNode?
      ensures nodes == if made then old(nodes)[p := DirNode] else old(nodes)
    {
      if p in nodes { return false, true; }
      if p == [] || p[..|p| - 1] !in nodes || !nodes[p[..|p| - 1]].DirNode? { return false, false; }
      nodes := nodes[p := DirNode];
      return true, false;
    }

    /** Creates what is missing of the path; what exists is left alone, even where it is a file. */
    method CreateDir(p: Path) returns (ok: bool)
      requires WellFormed(nodes)
      modifies this
      ensures WellFormed(nodes)
      ensures ok <==> Reachable(old(nodes), p)
      ensures nodes == if ok then WithDirs(old(nodes), p) else old(nodes)
    {
      ghost var was := nodes;
      assert p[..0] == [];
      for i := 0 to |p|
        invariant nodes == WithDirs(was, p[..i]) && Reachable(was, p[..i])
      {
        MkdirNext(was, p, i);
        var made, found := Mkdir(p[..i + 1]);
        if !made && !found { return false; }
      }
      assert p[..|p|] == p;
      WithDirsKeepsWellFormed(was, p);
      return true;
    }

    method CreateFile(p: Path, data: string) returns (ok: bool)
      requires WellFormed(nodes)
      modifies this
      ensures WellFormed(nodes)
      ensures ok <==> p != [] && Reachable(old(nodes), p) && !(p in old(nodes) && old(nodes)[p].DirNode?)
      ensures nodes == if ok then WithDirs(old(nodes), p[..|p| - 1])[p := FileNode(data)] else old(nodes)
    {
      ghost var was := nodes;
      if p == [] { return false; }
      var above := p[..|p| - 1];
      FileNeedsDir(was, p);
      ok := CreateDir(above);
      if !ok { return; }
      if !nodes[above].DirNode? || (p in nodes && nodes[p].DirNode?) { return false; }
      AddKeepsWellFormed(nodes, p, FileNode(data));
      nodes := nodes[p := FileNode(data)];
    }

    /** Creates what `children` says at `rel` below `root`, a file or several items. */
    method RCreateFileItem(root: Path, rel: RelPath, children: map<string, Data>, ghost t: Tree) returns (ok: bool)
      requires WellFormed(nodes)
      modifies this
      ensures WellFormed(nodes)
      ensures ok ==> IsInitializer(children)
      ensures Expected(root, rel, children, t, old(nodes)) ==>
                ok && Laid(nodes, old(nodes), FilesOf(t, ItemPath(root, rel)))
      ensures children.Keys == {"data"} && ItemPath(root, rel) in old(nodes) && old(nodes)[ItemPath(root, rel)].DirNode? ==> !ok
      decreases Obj(children), 2
    {
      if Expected(root, rel, children, t, nodes) { DataMeansFile(t); }
      if "data" in children && |children| == 1 {
        if !children["data"].Str? { return false; }
        var at := ItemPath(root, rel);
        if at != [] { LaidFile(nodes, at, children["data"].s); }
        ok := CreateFile(at, children["data"].s);
        return;
      }
      ok := CreateItems(root, rel, children, t);
    }

    /** The order of the keys does not matter where the object is a serialized tree and there is room for it. */
    method CreateItems(root: Path, rel: RelPath, children: map<string, Data>, ghost t: Tree) returns (ok: bool)
      requires WellFormed(nodes)
      modifies this
      ensures WellFormed(nodes)
      ensures ok ==> Initialized(children, children.Keys)
      ensures ExpectsItems(root, rel, children, t, old(nodes)) ==>
                ok && Laid(nodes, old(nodes), FilesOf(t, ItemPath(root, rel)))
      decreases Obj(children), 1
    {
      ghost var was, at := nodes, ItemPath(root, rel);
      ghost var expected := ExpectsItems(root, rel, children, t, was);
      var keys := children.Keys;
      assert children.Keys - keys == {};
      LaidNothing(was, Part(FilesOf(t, at), at, {}));
      while keys != {}
        invariant WellFormed(nodes) && keys <= children.Keys
        invariant Initialized(children, children.Keys - keys)
        invariant expected ==> ItemsLaid(nodes, was, t, at, children.Keys - keys)
        decreases |keys|
      {
        var k :| k in keys;
        ghost var done := children.Keys - keys;
        ok := CreateNext(root, rel, children, k, t, was, done);
        if !ok { return; }
        keys := keys - {k};
        assert children.Keys - keys == done + {k};
      }
      assert children.Keys - keys == children.Keys;
      if expected { AllDone(t, at, children.Keys); }
      return true;
    }

    /** One of several items, beside those that are `done`. */
    method CreateNext(root: Path, rel: RelPath, children: map<string, Data>, k: string, ghost t: Tree, ghost was: Nodes,
                      ghost done: set<string>) returns (ok: bool)
      requires WellFormed(nodes) && k in children && k !in done
      requires ExpectsItems(root, rel, children, t, was) ==> ItemsLaid(nodes, was, t, ItemPath(root, rel), done)
      modifies this
      ensures WellFormed(nodes)
      ensures ok ==> children[k].Obj? && IsInitializer(children[k].props)
      ensures ExpectsItems(root, rel, children, t, was) ==> ok && ItemsLaid(nodes, was, t, ItemPath(root, rel), done + {k})
      decreases Obj(children), 0
    {
      ghost var item: Tree, then_ := Unreadable, nodes;
      if ExpectsItems(root, rel, children, t, was) { item := NextItem(root, rel, nodes, was, t, done, k); }
      if !children[k].Obj? { return false; }
      ok := RCreateFileItem(root, JoinKey(rel, k), children[k].props, item);
      if ExpectsItems(root, rel, children, t, was) {
        NextDone(ItemPath(root, rel), FilesOf(t, ItemPath(root, rel)), nodes, then_, was, done, k);
      }
    }

    /** Anything but a directory or an object is refused; an object is created in a directory of its own. */
    method ToDir(value: Option<Value>, scratchDir: Path, unique: string, ghost t: Tree) returns (r: Result<Value>)
      requires WellFormed(nodes)
      modifies this
      ensures WellFormed(nodes)
      ensures value.Some? && value.value.DirValue? ==> r == Ok(value.value) && nodes == old(nodes)
      ensures value.None? || !(value.value.DirValue? || value.value.ObjectValue?) ==> r.Err? && nodes == old(nodes)
      ensures value.Some? && value.value.ObjectValue? ==>
                var root := scratchDir + [unique];
                && (r.Ok? ==> r.value == DirValue(PathText(root)) && IsInitializer(value.value.props))
                && (value.value.props == Serialized(t) && NamesOk(t) && Vacant(old(nodes), root) ==>
                      && (r.Ok? <==> !t.File?)
                      && (r.Ok? ==> Laid(nodes, WithDirs(old(nodes), root), FilesOf(t, root))))
    {
      if value.None? { return Err; }
      match value.value {
        case DirValue(_) => return Ok(value.value);
        case ObjectValue(props) =>
          var root := scratchDir + [unique];
          if Vacant(nodes, root) { VacantHasRoom(nodes, root, t); }
          var ok := CreateDir(root);
          if !ok { return Err; }
          ok := RCreateFileItem(root, Empty, props, t);
          return if ok then Ok(DirValue(PathText(root))) else Err;
        case _ => return Err;
      }
    }
  }

  lemma FileNeedsDir(nodes: Nodes, p: Path)
    requires WellFormed(nodes) && p != []
    ensures var above := p[..|p| - 1];
      && (Reachable(nodes, p) <==> Reachable(nodes, above) && !IsFile(nodes, above))
      && (Reachable(nodes, above) ==>
            && above in WithDirs(nodes, above) && (WithDirs(nodes, above)[above].FileNode? <==> IsFile(nodes, above))
            && (p in WithDirs(nodes, above) ==> p in nodes && WithDirs(nodes, above)[p] == nodes[p]))
      && (p in nodes || IsFile(nodes, above) ==> WithDirs(nodes, above) == nodes)
  {
    var above := p[..|p| - 1];
    forall i | 0 <= i < |above| ensures above[..i] == p[..i] {}
    WithDirsMeans(nodes, above);
    if Reachable(nodes, above) { WithDirsKeepsWellFormed(nodes, above); }
    if above in nodes { NothingMissing(nodes, above); }
  }

  lemma ReachesOneFurther(nodes: Nodes, p: Path, i: nat)
    requires i < |p|
    ensures Reachable(nodes, p[..i + 1]) <==> Reachable(nodes, p[..i]) && !IsFile(nodes, p[..i])
    ensures IsFile(nodes, p[..i]) ==> !Reachable(nodes, p)
  {
    var q := p[..i + 1];
    assert q[..i] == p[..i];
    forall j | 0 <= j < i ensures q[..j] == p[..i][..j] {}
  }

  /** One step along a path: it can be taken unless there is a file in the way, and then nothing was missing. */
  lemma MkdirNext(nodes: Nodes, p: Path, i: nat)
    requires WellFormed(nodes) && i < |p| && Reachable(nodes, p[..i])
    ensures var q, above := p[..i + 1], WithDirs(nodes, p[..i]);
      && q[..i] == p[..i] && p[..i] in above
      && (q in above || above[p[..i]].DirNode? ==> Reachable(nodes, q))
      && (q !in above && above[p[..i]].FileNode? ==> above == nodes && !Reachable(nodes, p))
  {
    assert p[..i + 1][..i] == p[..i];
    ReachesOneFurther(nodes, p, i);
    WithDirsKeepsWellFormed(nodes, p[..i]);
    if IsFile(nodes, p[..i]) { NothingMissing(nodes, p[..i]); }
  }

  // ---------- the files of a tree ----------

  function FilesOf(t: Tree, at: Path): map<Path, string> {
    match t
    case File(content) => map[at := content]
    case Dir(entries) => FilesOfEntries(entries, at)
    case Unreadable => map[]
  }

  function FilesOfEntries(entries: seq<Entry>, at: Path): map<Path, string> {
    if entries == [] then map[]
    else
      var e := entries[|entries| - 1];
      FilesOfEntries(entries[..|entries| - 1], at) + FilesOf(e.tree, at + [e.name])
  }

  /** The content of the file at a path in the tree, if there is one. */
  function FileAt(t: Tree, rel: Path): Option<string> {
    match t
    case File(content) => if rel == [] then Some(content) else None
    case Dir(entries) => if rel == [] then None else FileAtEntries(entries, rel)
    case Unreadable => None
  }

  function FileAtEntries(entries: seq<Entry>, rel: Path): Option<string>
    requires rel != []
  {
    if entries == [] then None
    else
      var e := entries[|entries| - 1];
      if e.name == rel[0] then FileAt(e.tree, rel[1..]) else FileAtEntries(entries[..|entries| - 1], rel)
  }

  /** What a directory can hold: names that are no more than names, none of them twice. */
  predicate IsName(name: string) {
    name != "" && name != "." && name != ".." && '/' !in name
  }

  predicate Named(entries: seq<Entry>, name: string) {
    entries != [] && (entries[|entries| - 1].name == name || Named(entries[..|entries| - 1], name))
  }

  predicate NamesOk(t: Tree) {
    t.Dir? ==> EntryNamesOk(t.entries)
  }

  predicate EntryNamesOk(entries: seq<Entry>) {
    entries == [] || (
      var before, e := entries[..|entries| - 1], entries[|entries| - 1];
      EntryNamesOk(before) && IsName(e.name) && !Named(before, e.name) && NamesOk(e.tree))
  }

  lemma {:induction false} FilesAreInTree(t: Tree, at: Path, p: Path)
    requires NamesOk(t)
    ensures p in FilesOf(t, at) <==> at <= p && FileAt(t, p[|at|..]).Some?
    ensures p in FilesOf(t, at) ==> FileAt(t, p[|at|..]) == Some(FilesOf(t, at)[p])
    decreases t, 1
  {
    match t {
      case File(content) =>
        if at <= p && p[|at|..] == [] { assert p == at; }
      case Dir(entries) =>
        FilesAreInEntries(entries, at, p);
      case Unreadable =>
    }
  }

  lemma {:induction false} FilesAreInEntries(entries: seq<Entry>, at: Path, p: Path)
    requires EntryNamesOk(entries)
    ensures p in FilesOfEntries(entries, at) <==> at < p && FileAtEntries(entries, p[|at|..]).Some?
    ensures p in FilesOfEntries(entries, at) ==> FileAtEntries(entries, p[|at|..]) == Some(FilesOfEntries(entries, at)[p])
    ensures at < p && FileAtEntries(entries, p[|at|..]).Some? ==> Named(entries, p[|at|])
    decreases entries, 0
  {
    if entries != [] {
      var before, e := entries[..|entries| - 1], entries[|entries| - 1];
      FilesAreInEntries(before, at, p);
      FilesAreInTree(e.tree, at + [e.name], p);
      if at < p { assert p[|at|..][1..] == p[|at| + 1..]; }
      if at < p && p[|at|] == e.name { assert at + [e.name] <= p; }
    }
  }

  // ---------- how relative paths grow ----------

  /** Empty is the empty string; `rooted` means that the path starts with a slash. */
  datatype RelPath = Empty | Rel(rooted: bool, parts: Path)

  function Split(k: string): (parts: seq<string>)
    ensures |parts| >= 1
  {
    if k == "" then [""]
    else
      var rest := Split(k[1..]);
      if k[0] == '/' then [""] + rest else [[k[0]] + rest[0]] + rest[1..]
  }

  /** One part of a path, cleaned. */
  function Step(rooted: bool, parts: Path, part: string): Path {
    if part == "" || part == "." then parts
    else if part == ".." && parts != [] && parts[|parts| - 1] != ".." then parts[..|parts| - 1]
    else if part == ".." && rooted then parts
    else parts + [part]
  }

  function Steps(rooted: bool, parts: Path, more: seq<string>): Path
    decreases |more|
  {
    if more == [] then parts else Steps(rooted, Step(rooted, parts, more[0]), more[1..])
  }

  /** `filepath.Join(relParentPath, k)`. */
  function JoinKey(rel: RelPath, k: string): RelPath {
    if k == "" then rel
    else
      var rooted, parts := if rel.Empty? then k[0] == '/' else rel.rooted, if rel.Empty? then [] else rel.parts;
      Rel(rooted, Steps(rooted, parts, Split(k)))
  }

  /** `filepath.Join(rootPath, relParentPath)`. */
  function ItemPath(root: Path, rel: RelPath): Path {
    if rel.Empty? then root else Steps(true, root, rel.parts)
  }

  ghost predicate Plain(parts: Path) {
    forall part <- parts :: IsName(part)
  }

  ghost predicate PlainRel(rel: RelPath) {
    rel.Rel? ==> Plain(rel.parts)
  }

  lemma {:induction false} SplitName(name: string)
    requires '/' !in name
    ensures Split(name) == [name]
  {
    if name != "" {
      SplitName(name[1..]);
      assert [name[0]] + name[1..] == name;
    }
  }

  lemma {:induction false} StepsThroughNames(rooted: bool, parts: Path, more: Path)
    requires Plain(more)
    ensures Steps(rooted, parts, more) == parts + more
    decreases |more|
  {
    if more == [] {
      assert parts + more == parts;
    } else {
      assert more[0] in more;
      StepsThroughNames(rooted, parts + [more[0]], more[1..]);
      assert parts + [more[0]] + more[1..] == parts + more;
    }
  }

  lemma {:induction false} StepsOneByOne(rooted: bool, parts: Path, more: seq<string>, rest: seq<string>)
    ensures Steps(rooted, parts, more + rest) == Steps(rooted, Steps(rooted, parts, more), rest)
    decreases |more|
  {
    if more == [] {
      assert more + rest == rest;
    } else {
      assert (more + rest)[1..] == more[1..] + rest;
      StepsOneByOne(rooted, Step(rooted, parts, more[0]), more[1..], rest);
    }
  }

  /** Joining cleans: an empty part or a dot leads nowhere, two dots take back the name before them, or lead out of a path
      with no name left, unless that is absolute. */
  lemma JoiningCleans(rooted: bool, parts: Path, name: string, rest: seq<string>)
    requires IsName(name)
    ensures Steps(rooted, parts, [""] + rest) == Steps(rooted, parts, ["."] + rest) == Steps(rooted, parts, rest)
    ensures Steps(rooted, parts, [name, ".."] + rest) == Steps(rooted, parts, rest)
    ensures Steps(true, [], [".."] + rest) == Steps(true, [], rest)
    ensures Steps(false, [], [".."] + rest) == Steps(false, [".."], rest)
  {
    assert ([""] + rest)[1..] == (["."] + rest)[1..] == ([".."] + rest)[1..] == rest;
    StepsOneByOne(rooted, parts, [name, ".."], rest);
    assert [name, ".."][1..] == [".."] && [".."][1..] == [];
    assert (parts + [name])[..|parts|] == parts;
    assert Steps(rooted, parts + [name], [".."]) == parts;
    assert [] + [".."] == [".."];
  }

  /** A key is a name, with or without a slash before it: the check for the slash lets everything through. */
  lemma SlashIsOptional(root: Path, rel: RelPath, name: string)
    requires PlainRel(rel) && IsName(name)
    ensures ItemPath(root, JoinKey(rel, name)) == ItemPath(root, rel) + [name]
    ensures ItemPath(root, JoinKey(rel, "/" + name)) == ItemPath(root, rel) + [name]
    ensures PlainRel(JoinKey(rel, "/" + name))
  {
    var k := "/" + name;
    SplitName(name);
    assert k[1..] == name && Split(k) == [""] + [name] == ["", name];
    var parts := if rel.Empty? then [] else rel.parts;
    forall rooted: bool ensures Steps(rooted, parts, [name]) == parts + [name] && Steps(rooted, parts, ["", name]) == parts + [name] {
      StepsThroughNames(rooted, parts, [name]);
      assert ["", name][1..] == [name];
    }
    StepsThroughNames(true, root, parts);
    StepsThroughNames(true, root, parts + [name]);
    assert root + (parts + [name]) == root + parts + [name];
  }

  // ---------- files laid on a disk ----------

  ghost predicate Above(files: map<Path, string>, q: Path) {
    exists f <- files :: q < f
  }

  /** What there was, the files, and the directories that lead to them. */
  ghost predicate Laid(now: Nodes, was: Nodes, files: map<Path, string>) {
    forall q ::
      && (q in now <==> q in was || q in files || Above(files, q))
      && (q in now ==> now[q] == if q in files then FileNode(files[q]) else if q in was then was[q] else DirNode)
  }

  lemma LaidNothing(nodes: Nodes, files: map<Path, string>)
    requires files == map[]
    ensures Laid(nodes, nodes, files)
  {
  }

  lemma LaidTwice(now: Nodes, then_: Nodes, was: Nodes, a: map<Path, string>, b: map<Path, string>)
    requires Laid(then_, was, a) && Laid(now, then_, b)
    ensures Laid(now, was, a + b)
  {
    forall q ensures Above(a + b, q) <==> Above(a, q) || Above(b, q) {
      if Above(a, q) { var f :| f in a && q < f; assert f in a + b; }
      if Above(b, q) { var f :| f in b && q < f; assert f in a + b; }
    }
  }

  /** There is room for a file where nothing is, and for a directory where there is at most a directory with
      nothing in it. */
  ghost predicate Room(nodes: Nodes, at: Path, t: Tree) {
    && at != [] && Reachable(nodes, at) && (if t.File? then at !in nodes else !IsFile(nodes, at))
    && forall q <- nodes :: !(at < q)
  }

  lemma LaidFile(was: Nodes, at: Path, data: string)
    requires WellFormed(was) && at != []
    ensures Laid(WithDirs(was, at[..|at| - 1])[at := FileNode(data)], was, map[at := data])
  {
    var files, above := map[at := data], at[..|at| - 1];
    WithDirsMeans(was, above);
    var dirs, now := set i | 1 <= i <= |above| :: above[..i], WithDirs(was, above)[at := FileNode(data)];
    assert [] in was && now.Keys == was.Keys + dirs + {at};
    forall q ensures q in now <==> q in was || q in files || Above(files, q) { AboveOne(at, data, q); }
  }

  lemma AboveOne(at: Path, data: string, q: Path)
    requires at != []
    ensures var above := at[..|at| - 1];
      Above(map[at := data], q) <==> q == [] || q in set i | 1 <= i <= |above| :: above[..i]
  {
    var files, above := map[at := data], at[..|at| - 1];
    assert at in files && (Above(files, q) <==> q < at);
    if q < at && q != [] { assert q == above[..|q|]; }
    if i :| 1 <= i <= |above| && q == above[..i] { assert q == at[..i]; }
  }

  // ---------- one entry after another ----------

  function KeyOf(name: string): string {
    "/" + name
  }

  /** The files below the entries whose keys are in `done`. */
  function Part(files: map<Path, string>, at: Path, done: set<string>): map<Path, string> {
    map p | p in files && at < p && KeyOf(p[|at|]) in done :: files[p]
  }

  /** The entry behind a key. */
  lemma {:induction false} EntryOfKey(entries: seq<Entry>, k: string) returns (e: Entry)
    requires EntryNamesOk(entries) && k in SerializedEntries(entries)
    ensures k == KeyOf(e.name) && IsName(e.name) && NamesOk(e.tree) && e in entries && Named(entries, e.name)
    ensures SerializedEntries(entries)[k] == Obj(Serialized(e.tree))
    ensures forall rel: Path :: rel != [] && rel[0] == e.name ==> FileAtEntries(entries, rel) == FileAt(e.tree, rel[1..])
  {
    var before, last := entries[..|entries| - 1], entries[|entries| - 1];
    assert KeyOf(last.name)[1..] == last.name;
    if k == KeyOf(last.name) {
      e := last;
    } else {
      e := EntryOfKey(before, k);
      assert entries == before + [last];
    }
  }

  lemma {:induction false} KeysAreNames(entries: seq<Entry>, name: string)
    requires EntryNamesOk(entries)
    ensures KeyOf(name) in SerializedEntries(entries) <==> Named(entries, name)
    ensures "data" !in SerializedEntries(entries)
  {
    if entries != [] {
      var last := entries[|entries| - 1];
      assert KeyOf(last.name)[1..] == last.name && KeyOf(name)[1..] == name && KeyOf(last.name)[0] == '/';
      KeysAreNames(entries[..|entries| - 1], name);
    }
  }

  lemma PartOfEntry(entries: seq<Entry>, at: Path, e: Entry)
    requires EntryNamesOk(entries) && NamesOk(e.tree)
    requires forall rel: Path :: rel != [] && rel[0] == e.name ==> FileAtEntries(entries, rel) == FileAt(e.tree, rel[1..])
    ensures Part(FilesOfEntries(entries, at), at, {KeyOf(e.name)}) == FilesOf(e.tree, at + [e.name])
  {
    var all, part, own := FilesOfEntries(entries, at), Part(FilesOfEntries(entries, at), at, {KeyOf(e.name)}), FilesOf(e.tree, at + [e.name]);
    forall p ensures (p in part <==> p in own) && (p in part ==> part[p] == own[p]) {
      FilesAreInEntries(entries, at, p);
      FilesAreInTree(e.tree, at + [e.name], p);
      if at < p {
        assert KeyOf(p[|at|])[1..] == p[|at|] && KeyOf(e.name)[1..] == e.name;
        assert p[|at|..][1..] == p[|at| + 1..];
        assert at + [e.name] <= p <==> p[|at|] == e.name;
      }
    }
  }

  /** There is room for the next entry beside those that are there already. */
  lemma RoomForNext(now: Nodes, was: Nodes, files: map<Path, string>, at: Path, done: set<string>, name: string, t: Tree)
    requires Room(was, at, Dir([])) && Laid(now, was, Part(files, at, done)) && KeyOf(name) !in done
    ensures Room(now, at + [name], t)
  {
    var p, part := at + [name], Part(files, at, done);
    forall i | 0 <= i < |p| ensures !IsFile(now, p[..i]) {
      assert p[..i] == at[..i];
      if i == |at| { assert at[..i] == at; }
      assert p[..i] !in part;
    }
    forall q | p <= q ensures q !in now {
      assert at < q && q[|at|] == name;
      forall f | f in part ensures !(q <= f) {
        assert KeyOf(f[|at|]) in done;
      }
    }
  }

  /** Objects that say of every item whether it is a file or a directory. */
  predicate IsInitializer(children: map<string, Data>)
    decreases Obj(children), 1
  {
    if "data" in children && |children| == 1 then children["data"].Str?
    else Initialized(children, children.Keys)
  }

  predicate Initialized(children: map<string, Data>, keys: set<string>)
    requires keys <= children.Keys
    decreases Obj(children), 0
  {
    forall k <- keys :: children[k].Obj? && IsInitializer(children[k].props)
  }

  lemma DataMeansFile(t: Tree)
    requires NamesOk(t)
    ensures t.File? <==> "data" in Serialized(t)
    ensures t.File? ==> |Serialized(t)| == 1
  {
    if t.Dir? { KeysAreNames(t.entries, ""); }
  }

  ghost predicate Expected(root: Path, rel: RelPath, children: map<string, Data>, t: Tree, nodes: Nodes) {
    children == Serialized(t) && NamesOk(t) && PlainRel(rel) && Room(nodes, ItemPath(root, rel), t)
  }

  /** The same for several items, and the files of those that are done. */
  ghost predicate ExpectsItems(root: Path, rel: RelPath, children: map<string, Data>, t: Tree, nodes: Nodes) {
    !t.File? && Expected(root, rel, children, t, nodes)
  }

  ghost predicate ItemsLaid(now: Nodes, was: Nodes, t: Tree, at: Path, done: set<string>) {
    Laid(now, was, Part(FilesOf(t, at), at, done))
  }

  lemma NextItem(root: Path, rel: RelPath, now: Nodes, was: Nodes, t: Tree, done: set<string>, k: string) returns (item: Tree)
    requires NamesOk(t) && PlainRel(rel) && t.Dir? && Room(was, ItemPath(root, rel), t)
    requires k in Serialized(t) && k !in done
    requires Laid(now, was, Part(FilesOf(t, ItemPath(root, rel)), ItemPath(root, rel), done))
    ensures Serialized(t)[k] == Obj(Serialized(item)) && NamesOk(item)
    ensures PlainRel(JoinKey(rel, k)) && Room(now, ItemPath(root, JoinKey(rel, k)), item)
    ensures Part(FilesOf(t, ItemPath(root, rel)), ItemPath(root, rel), {k}) == FilesOf(item, ItemPath(root, JoinKey(rel, k)))
  {
    var at := ItemPath(root, rel);
    var e := EntryOfKey(t.entries, k);
    item := e.tree;
    SlashIsOptional(root, rel, e.name);
    RoomForNext(now, was, FilesOf(t, at), at, done, e.name, item);
    PartOfEntry(t.entries, at, e);
  }

  lemma NextDone(at: Path, files: map<Path, string>, now: Nodes, then_: Nodes, was: Nodes, done: set<string>, k: string)
    requires Laid(then_, was, Part(files, at, done)) && Laid(now, then_, Part(files, at, {k}))
    ensures Laid(now, was, Part(files, at, done + {k}))
  {
    LaidTwice(now, then_, was, Part(files, at, done), Part(files, at, {k}));
    assert Part(files, at, done) + Part(files, at, {k}) == Part(files, at, done + {k});
  }

  lemma AllDone(t: Tree, at: Path, done: set<string>)
    requires NamesOk(t) && !t.File? && done == Serialized(t).Keys
    ensures Part(FilesOf(t, at), at, done) == FilesOf(t, at)
  {
    forall p | p in FilesOf(t, at) ensures at < p && KeyOf(p[|at|]) in done {
      FilesAreInEntries(t.entries, at, p);
      KeysAreNames(t.entries, p[|at|]);
    }
  }

  function PathText(p: Path): string {
    if p == [] then "" else "/" + p[0] + PathText(p[1..])
  }

  lemma {:induction false} SplitAt(name: string, rest: string)
    requires '/' !in name
    ensures Split(name + ("/" + rest)) == [name] + Split(rest)
  {
    if name == "" {
      assert name + ("/" + rest) == "/" + rest && ("/" + rest)[1..] == rest;
    } else {
      SplitAt(name[1..], rest);
      assert (name + ("/" + rest))[1..] == name[1..] + ("/" + rest);
      assert [name[0]] + name[1..] == name;
    }
  }

  /** The text of an absolute path names its parts: it is split into them after its first slash. */
  lemma {:induction false} PathTextNames(p: Path)
    requires p != [] && forall part <- p :: '/' !in part
    ensures PathText(p) != "" && PathText(p)[0] == '/' && Split(PathText(p)[1..]) == p
  {
    var rest := PathText(p[1..]);
    assert PathText(p)[1..] == p[0] + rest && p == [p[0]] + p[1..];
    if p[1..] == [] {
      SplitName(p[0]);
      assert p[0] + rest == p[0];
    } else {
      PathTextNames(p[1..]);
      assert rest == "/" + rest[1..];
      SplitAt(p[0], rest[1..]);
    }
  }

  /** Nothing is at the path, which can be created. */
  ghost predicate Vacant(nodes: Nodes, root: Path) {
    root != [] && Reachable(nodes, root) && root !in nodes
  }

  lemma VacantHasRoom(nodes: Nodes, root: Path, t: Tree)
    requires WellFormed(nodes) && Vacant(nodes, root)
    ensures Reachable(nodes, root)
    ensures root in WithDirs(nodes, root) && WithDirs(nodes, root)[root].DirNode?
    ensures !t.File? ==> Room(WithDirs(nodes, root), root, t)
  {
    WithDirsMeans(nodes, root);
    WithDirsKeepsWellFormed(nodes, root);
    assert root[..|root|] == root;
    forall q | q in WithDirs(nodes, root) ensures !(root < q) {
      if q in nodes {
        if root < q { assert q[..|root|] == root; }
        NothingAboveMissing(nodes, q, if |root| <= |q| then |root| else 0);
      }
    }
  }

  lemma {:induction false} NothingAboveMissing(nodes: Nodes, q: Path, i: nat)
    requires WellFormed(nodes) && q in nodes && i <= |q|
    ensures q[..i] in nodes
  {
    if i < |q| {
      NothingAboveMissing(nodes, q[..|q| - 1], i);
      assert q[..|q| - 1][..i] == q[..i];
    } else {
      assert q[..i] == q;
    }
  }

  ghost predicate SomeFileBelow(t: Tree, rel: Path) {
    exists more: Path :: more != [] && FileAt(t, rel + more).Some?
  }

  /** Below `root` there are the tree's files with their contents, the directories on the way to them, and
      nothing else: an empty directory is lost. */
  ghost predicate SameTree(nodes: Nodes, root: Path, t: Tree, rel: Path) {
    var q := root + rel;
    && (IsFile(nodes, q) <==> FileAt(t, rel).Some?)
    && (IsFile(nodes, q) ==> FileAt(t, rel) == Some(nodes[q].data))
    && (q in nodes && nodes[q].DirNode? <==> FileAt(t, rel).None? && (rel == [] || SomeFileBelow(t, rel)))
  }

  lemma NotEmptyMeansAbove(t: Tree, root: Path, rel: Path)
    requires NamesOk(t)
    ensures Above(FilesOf(t, root), root + rel) <==> SomeFileBelow(t, rel)
  {
    var q, files := root + rel, FilesOf(t, root);
    if Above(files, q) {
      var f :| f in files && q < f;
      FilesAreInTree(t, root, f);
      assert f[|root|..] == rel + f[|q|..] && f[|q|..] != [];
    }
    if SomeFileBelow(t, rel) {
      var more :| more != [] && FileAt(t, rel + more).Some?;
      FilesAreInTree(t, root, q + more);
      assert (q + more)[|root|..] == rel + more;
      assert q + more in files && q < q + more;
    }
  }

  lemma LaidIsSameTree(now: Nodes, was: Nodes, root: Path, t: Tree, rel: Path)
    requires WellFormed(was) && Vacant(was, root) && NamesOk(t) && !t.File?
    requires Laid(now, WithDirs(was, root), FilesOf(t, root))
    ensures SameTree(now, root, t, rel)
  {
    var q, before := root + rel, WithDirs(was, root);
    VacantHasRoom(was, root, t);
    FilesAreInTree(t, root, q);
    assert q[|root|..] == rel;
    NotEmptyMeansAbove(t, root, rel);
    if rel == [] { assert q == root; } else { assert root < q && q !in before; }
  }

  /** Client and node together: a directory that is within the limit arrives with the same files at the same
      paths with the same contents, whatever order the maps are ranged over in. */
  method SendDir(t: Tree, disk: Disk, scratchDir: Path, unique: string) returns (r: Result<Value>)
    requires t.Dir? && NamesOk(t) && WellFormed(disk.nodes) && Vacant(disk.nodes, scratchDir + [unique])
    modifies disk
    ensures r == if Embeddable(t) then Ok(DirValue(PathText(scratchDir + [unique]))) else Err
    ensures r.Ok? ==> forall rel :: SameTree(disk.nodes, scratchDir + [unique], t, rel)
    ensures r.Err? ==> disk.nodes == old(disk.nodes)
  {
    var sent := FileOrDirPathToObject(t);
    if sent.Err? { return Err; }
    r := disk.ToDir(Some(ObjectValue(sent.value.0)), scratchDir, unique, t);
    forall rel ensures SameTree(disk.nodes, scratchDir + [unique], t, rel) {
      LaidIsSameTree(disk.nodes, old(disk.nodes), scratchDir + [unique], t, rel);
    }
  }
}
