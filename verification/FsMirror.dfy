/**
 The guest tree mirrors the host files behind it: whatever sequence of operations is performed,
 the guest part of every writable directory is exactly the host directory it stands for, and the
 host never refuses an operation the guest tree says is possible.
 */
module FsMirror {
  import opened Wrappers
  import opened FsTree

  // ---------------------------------------------------------------- the invariant

  /** Every host entry lies in a host directory. */
  ghost predicate HostTree(host: map<HostPath, HostEntry>) {
    forall h <- host :: h != [] ==> Parent(h) in host && host[Parent(h)].HostDir?
  }

  /** The guest path `q`, below a writable directory, stands for the host path `h`. */
  ghost predicate EntryMirrored(t: Tree, q: Path, h: HostPath) {
    match InfoAt(t.root, q)
    case None => h !in t.host
    case Some(FileInfo(location, writeable)) =>
      location == HostLocation(h) && writeable && h in t.host && t.host[h].HostFile?
    case Some(DirInfo(dir)) => dir == Some(h) && h in t.host && t.host[h].HostDir?
  }

  ghost predicate DirMirrored(t: Tree, p: Path, h: HostPath) {
    && h in t.host && t.host[h].HostDir?
    && forall name: string :: EntryMirrored(t, p + [name], h + [name])
  }

  /** The host path a node gives access to, if any. */
  function HostOf(info: Info): Option<HostPath> {
    match info
    case FileInfo(HostLocation(h), _) => Some(h)
    case DirInfo(dir) => dir
    case _ => None
  }

  predicate IsWritable(info: Info) {
    match info
    case FileInfo(_, writeable) => writeable
    case DirInfo(dir) => dir.Some?
  }

  ghost predicate NodeSound(t: Tree, p: Path)
    requires InfoAt(t.root, p).Some?
  {
    match InfoAt(t.root, p).value
    case DirInfo(None) => true
    case DirInfo(Some(h)) => DirMirrored(t, p, h)
    case FileInfo(location, writeable) =>
      && (location.HostLocation? ==> location.host in t.host && t.host[location.host].HostFile?)
      && (writeable ==> p != [] && IsDirAt(t.root, Parent(p)) && IsWritable(InfoAt(t.root, Parent(p)).value))
  }

  /** No other node gives access to the host path of a writable node. */
  ghost predicate Unshared(t: Tree, p: Path, q: Path)
    requires InfoAt(t.root, p).Some? && InfoAt(t.root, q).Some?
  {
    var a, b := InfoAt(t.root, p).value, InfoAt(t.root, q).value;
    IsWritable(a) && HostOf(a).Some? && HostOf(a) == HostOf(b) ==> p == q
  }

  ghost predicate Sound(t: Tree) {
    && (forall p | InfoAt(t.root, p).Some? :: NodeSound(t, p))
    && (forall p, q | InfoAt(t.root, p).Some? && InfoAt(t.root, q).Some? :: Unshared(t, p, q))
  }

  ghost predicate Mirrors(t: Tree) {
    HostTree(t.host) && t.root.Directory? && Sound(t)
  }

  // ---------------------------------------------------------------- changing one entry

  lemma ParentOfChild<T>(p: seq<T>, name: T)
    ensures (p + [name])[..|p + [name]| - 1] == p
  {
  }

  lemma {:induction false} ParentIsDir(node: FsNode, path: Path)
    requires path != [] && InfoAt(node, path).Some?
    ensures IsDirAt(node, Parent(path))
  {
    if |path| > 1 {
      ParentIsDir(node.children[path[0]], path[1..]);
      assert Parent(path)[1..] == Parent(path[1..]);
    }
  }

  lemma {:induction false} DirectChild(node: FsNode, p: Path, name: string)
    requires IsDirAt(node, p)
    ensures Lookup(node, p + [name]) ==
      var children := Lookup(node, p).value.children;
      if name in children then Some(children[name]) else None
    decreases |p|
  {
    if p == [] {
      assert (p + [name])[1..] == [];
    } else {
      assert (p + [name])[1..] == p[1..] + [name];
      DirectChild(node.children[p[0]], p[1..], name);
    }
  }

  /** A node with nothing below it. */
  ghost predicate IsLeaf(node: FsNode) {
    node.Directory? ==> node.children == map[]
  }

  /** What the child at `path` in the host directory `h` becomes, in both trees. */
  ghost predicate MatchingLeaf(leaf: Option<FsNode>, entry: Option<HostEntry>, h: HostPath) {
    match (leaf, entry)
    case (None, None) => true
    case (Some(File(location, writeable)), Some(HostFile(_))) => location == HostLocation(h) && writeable
    case (Some(Directory(children, dir)), Some(HostDir)) => children == map[] && dir == Some(h)
    case _ => false
  }

  function SetEntry(host: map<HostPath, HostEntry>, h: HostPath, entry: Option<HostEntry>): map<HostPath, HostEntry> {
    if entry.Some? then host[h := entry.value] else host - {h}
  }

  /** Elsewhere than at `path` nothing changes when leaves replace leaves. */
  lemma LeafPut(node: FsNode, path: Path, leaf: Option<FsNode>, q: Path)
    requires path != [] && IsDirAt(node, Parent(path))
    requires leaf.Some? ==> IsLeaf(leaf.value)
    requires Lookup(node, path).Some? ==> IsLeaf(Lookup(node, path).value)
    ensures InfoAt(Put(node, path, leaf), q) ==
      if q == path then if leaf.Some? then Some(InfoOf(leaf.value)) else None else InfoAt(node, q)
  {
    InfoPut(node, path, leaf, q);
    if path <= q && q != path {
      BelowLeaf(node, path, q);
    }
  }

  lemma {:induction false} BelowLeaf(node: FsNode, path: Path, q: Path)
    requires path <= q && q != path
    requires Lookup(node, path).Some? ==> IsLeaf(Lookup(node, path).value)
    ensures Lookup(node, q).None?
    decreases |path|
  {
    if path != [] && node.Directory? && path[0] in node.children {
      assert q == [path[0]] + q[1..] && path[1..] <= q[1..] by { assert path[0] == q[0]; }
      BelowLeaf(node.children[path[0]], path[1..], q[1..]);
    }
  }

  /** The two trees differ at `path` only, where the second has `info`. */
  ghost predicate ChangedAt(t: Tree, t': Tree, path: Path, info: Option<Info>) {
    forall q :: InfoAt(t'.root, q) == if q == path then info else InfoAt(t.root, q)
  }

  /** `path` is a childless entry of the writable directory that stands for `dir`. */
  ghost predicate IsEntry(t: Tree, path: Path, dir: HostPath) {
    && Mirrors(t)
    && path != []
    && InfoAt(t.root, Parent(path)) == Some(DirInfo(Some(dir)))
    && forall name: string :: InfoAt(t.root, path + [name]).None?
  }

  /** An entry is mirrored, and nothing on the host lies below it. */
  lemma EntryOf(t: Tree, path: Path, dir: HostPath)
    requires IsEntry(t, path, dir)
    ensures dir in t.host && t.host[dir].HostDir?
    ensures EntryMirrored(t, path, dir + [Last(path)])
    ensures forall g <- t.host :: g != [] ==> Parent(g) != dir + [Last(path)]
  {
    hide Lookup, InfoAt;
    var h := dir + [Last(path)];
    assert path == Parent(path) + [Last(path)];
    assert NodeSound(t, Parent(path)) && EntryMirrored(t, Parent(path) + [Last(path)], h);
    forall g <- t.host | g != [] ensures Parent(g) != h {
      assert g == Parent(g) + [Last(g)];
      assert InfoAt(t.root, path).Some? ==> NodeSound(t, path);
      assert InfoAt(t.root, path) == Some(DirInfo(Some(h))) ==> EntryMirrored(t, path + [Last(g)], h + [Last(g)]);
    }
  }

  lemma ReplacedHostTree(t: Tree, path: Path, dir: HostPath, entry: Option<HostEntry>)
    requires IsEntry(t, path, dir)
    ensures HostTree(SetEntry(t.host, dir + [Last(path)], entry))
  {
    EntryOf(t, path, dir);
    ParentOfChild(dir, Last(path));
  }

  /** A changed entry is still what its host path says. */
  lemma ReplacedHere(t: Tree, t': Tree, path: Path, dir: HostPath, leaf: Option<FsNode>, entry: Option<HostEntry>)
    requires IsEntry(t, path, dir) && MatchingLeaf(leaf, entry, dir + [Last(path)])
    requires t'.host == SetEntry(t.host, dir + [Last(path)], entry)
    requires ChangedAt(t, t', path, if leaf.Some? then Some(InfoOf(leaf.value)) else None)
    ensures EntryMirrored(t', path, dir + [Last(path)])
    ensures leaf.Some? ==> NodeSound(t', path)
  {
    hide Lookup, InfoAt;
    var h := dir + [Last(path)];
    EntryOf(t, path, dir);
    forall name: string ensures h + [name] !in t'.host && InfoAt(t'.root, path + [name]).None? {
      ParentOfChild(h, name);
    }
  }

  lemma SamePlace(p: Path, name: string, path: Path, d: HostPath, dir: HostPath)
    requires path != [] && (d == dir <==> p == Parent(path))
    ensures p + [name] == path <==> d + [name] == dir + [Last(path)]
  {
    ParentOfChild(p, name);
    ParentOfChild(d, name);
    ParentOfChild(dir, Last(path));
    assert path == Parent(path) + [Last(path)];
    assert (p + [name])[|p|] == name && (d + [name])[|d|] == name && (dir + [Last(path)])[|dir|] == Last(path);
  }

  /** An entry that is not the changed one is as it was. */
  lemma OtherEntry(t: Tree, t': Tree, path: Path, h: HostPath, info: Option<Info>, entry: Option<HostEntry>, q: Path, g: HostPath)
    requires ChangedAt(t, t', path, info) && t'.host == SetEntry(t.host, h, entry)
    requires EntryMirrored(t, q, g) && EntryMirrored(t', path, h) && (q == path <==> g == h)
    ensures EntryMirrored(t', q, g)
  {
  }

  lemma DirOnHost(t: Tree, p: Path, h: HostPath)
    requires DirMirrored(t, p, h)
    ensures h in t.host && t.host[h].HostDir?
  {
  }

  lemma EntryOfDir(t: Tree, p: Path, h: HostPath, name: string)
    requires DirMirrored(t, p, h)
    ensures EntryMirrored(t, p + [name], h + [name])
  {
  }

  /** Only the parent of the changed entry stands for its directory, and nothing else for the entry. */
  lemma DirsApart(t: Tree, path: Path, dir: HostPath, p: Path, d: HostPath)
    requires IsEntry(t, path, dir) && p != path && InfoAt(t.root, p) == Some(DirInfo(Some(d)))
    ensures d == dir <==> p == Parent(path)
    ensures d != dir + [Last(path)] && DirMirrored(t, p, d)
  {
    hide Lookup, InfoAt, IsDirAt, DirMirrored;
    EntryOf(t, path, dir);
    assert NodeSound(t, p) && Unshared(t, p, Parent(path));
    assert InfoAt(t.root, path).Some? ==> Unshared(t, path, p);
    DirOnHost(t, p, d);
  }

  /** Every other writable directory is still mirrored. */
  lemma ReplacedEntry(
    t: Tree, t': Tree, path: Path, dir: HostPath, leaf: Option<FsNode>, entry: Option<HostEntry>, p: Path, d: HostPath,
    name: string)
    requires path != [] && DirMirrored(t, p, d) && (p == Parent(path) <==> d == dir)
    requires EntryMirrored(t', path, dir + [Last(path)]) && t'.host == SetEntry(t.host, dir + [Last(path)], entry)
    requires ChangedAt(t, t', path, if leaf.Some? then Some(InfoOf(leaf.value)) else None)
    ensures EntryMirrored(t', p + [name], d + [name])
  {
    hide *;
    EntryOfDir(t, p, d, name);
    SamePlace(p, name, path, d, dir);
    OtherEntry(t, t', path, dir + [Last(path)], if leaf.Some? then Some(InfoOf(leaf.value)) else None, entry, p + [name], d + [name]);
  }

  lemma ReplacedElsewhere(
    t: Tree, t': Tree, path: Path, dir: HostPath, leaf: Option<FsNode>, entry: Option<HostEntry>, p: Path, d: HostPath)
    requires IsEntry(t, path, dir) && MatchingLeaf(leaf, entry, dir + [Last(path)])
    requires t'.host == SetEntry(t.host, dir + [Last(path)], entry)
    requires ChangedAt(t, t', path, if leaf.Some? then Some(InfoOf(leaf.value)) else None)
    requires p != path && InfoAt(t.root, p) == Some(DirInfo(Some(d)))
    ensures DirMirrored(t', p, d)
  {
    DirsApart(t, path, dir, p, d);
    ReplacedHere(t, t', path, dir, leaf, entry);
    assert d in t.host && t.host[d].HostDir?;
    assert path != [] && DirMirrored(t, p, d);
    hide Lookup, InfoAt, IsDirAt, EntryMirrored, IsEntry, MatchingLeaf, ChangedAt, InfoOf;
    forall name: string ensures EntryMirrored(t', p + [name], d + [name]) {
      ReplacedEntry(t, t', path, dir, leaf, entry, p, d, name);
    }
  }

  lemma ReplacedNodeSound(
    t: Tree, t': Tree, path: Path, dir: HostPath, leaf: Option<FsNode>, entry: Option<HostEntry>, p: Path)
    requires IsEntry(t, path, dir) && MatchingLeaf(leaf, entry, dir + [Last(path)])
    requires t'.host == SetEntry(t.host, dir + [Last(path)], entry)
    requires ChangedAt(t, t', path, if leaf.Some? then Some(InfoOf(leaf.value)) else None)
    requires InfoAt(t'.root, p).Some?
    ensures NodeSound(t', p)
  {
    hide Lookup, InfoAt, DirMirrored;
    if p == path {
      ReplacedHere(t, t', path, dir, leaf, entry);
    } else {
      EntryOf(t, path, dir);
      assert NodeSound(t, p);
      assert InfoAt(t.root, path).Some? ==> Unshared(t, path, p);
      assert p != [] && Parent(p) == path ==> p == path + [Last(p)];
      match InfoAt(t.root, p).value
      case DirInfo(Some(d)) =>
        hide EntryMirrored, MatchingLeaf;
        ReplacedElsewhere(t, t', path, dir, leaf, entry, p, d);
      case _ =>
    }
  }

  lemma ReplacedUnshared(
    t: Tree, t': Tree, path: Path, dir: HostPath, leaf: Option<FsNode>, entry: Option<HostEntry>, p: Path, q: Path)
    requires IsEntry(t, path, dir) && MatchingLeaf(leaf, entry, dir + [Last(path)])
    requires ChangedAt(t, t', path, if leaf.Some? then Some(InfoOf(leaf.value)) else None)
    requires InfoAt(t'.root, p).Some? && InfoAt(t'.root, q).Some?
    ensures Unshared(t', p, q)
  {
    hide Lookup, InfoAt;
    EntryOf(t, path, dir);
    if p != path { assert NodeSound(t, p); }
    if q != path { assert NodeSound(t, q); }
    if p != path && q != path {
      assert Unshared(t, p, q);
    } else if p != q && InfoAt(t.root, path).Some? {
      assert Unshared(t, p, q);
    }
  }

  /**
   Changing one entry of a writable directory, in the guest tree and on the host alike, keeps the
   mirror.
   */
  lemma ReplaceLeaf(t: Tree, path: Path, dir: HostPath, leaf: Option<FsNode>, entry: Option<HostEntry>)
    requires Mirrors(t) && path != [] && InfoAt(t.root, Parent(path)) == Some(DirInfo(Some(dir)))
    requires MatchingLeaf(leaf, entry, dir + [Last(path)])
    requires Lookup(t.root, path).Some? ==> IsLeaf(Lookup(t.root, path).value)
    ensures Mirrors(Tree(Put(t.root, path, leaf), SetEntry(t.host, dir + [Last(path)], entry)))
    ensures IsEntry(t, path, dir)
  {
    var t' := Tree(Put(t.root, path, leaf), SetEntry(t.host, dir + [Last(path)], entry));
    var info := if leaf.Some? then Some(InfoOf(leaf.value)) else None;
    forall q ensures InfoAt(t'.root, q) == if q == path then info else InfoAt(t.root, q) {
      LeafPut(t.root, path, leaf, q);
    }
    forall name: string ensures InfoAt(t.root, path + [name]).None? {
      BelowLeaf(t.root, path, path + [name]);
    }
    assert t'.root.Directory?;
    hide Lookup, InfoAt, Put, NodeSound, Unshared;
    ReplacedHostTree(t, path, dir, entry);
    forall p | InfoAt(t'.root, p).Some? ensures NodeSound(t', p) {
      ReplacedNodeSound(t, t', path, dir, leaf, entry, p);
    }
    forall p, q | InfoAt(t'.root, p).Some? && InfoAt(t'.root, q).Some? ensures Unshared(t', p, q) {
      ReplacedUnshared(t, t', path, dir, leaf, entry, p, q);
    }
  }

  // ---------------------------------------------------------------- one operation

  lemma SameDir(t: Tree, t': Tree, p: Path, d: HostPath)
    requires t'.root == t.root && t'.host.Keys == t.host.Keys
    requires forall h <- t.host :: t'.host[h].HostFile? == t.host[h].HostFile?
    requires DirMirrored(t, p, d)
    ensures DirMirrored(t', p, d)
  {
    hide Lookup, InfoAt;
    forall name: string ensures EntryMirrored(t', p + [name], d + [name]) {
      EntryOfDir(t, p, d, name);
    }
  }

  /** Writing to a host file that exists. */
  lemma SetContents(t: Tree, h: HostPath, data: seq<int>)
    requires Mirrors(t) && h in t.host && t.host[h].HostFile?
    ensures Mirrors(t.(host := t.host[h := HostFile(data)]))
  {
    var t' := t.(host := t.host[h := HostFile(data)]);
    hide Lookup, InfoAt, DirMirrored;
    forall p | InfoAt(t'.root, p).Some? ensures NodeSound(t', p) {
      assert NodeSound(t, p);
      match InfoAt(t.root, p).value
      case DirInfo(Some(d)) => SameDir(t, t', p, d);
      case _ =>
    }
    forall p, q | InfoAt(t'.root, p).Some? && InfoAt(t'.root, q).Some? ensures Unshared(t', p, q) {
      assert Unshared(t, p, q);
    }
  }

  /** What the entry `name` of a directory is, on both sides. */
  lemma ChildOf(t: Tree, path: Path)
    requires Mirrors(t) && path != [] && IsDirAt(t.root, Parent(path))
    ensures
      var parent := Lookup(t.root, Parent(path)).value;
      && Lookup(t.root, path) == (if Last(path) in parent.children then Some(parent.children[Last(path)]) else None)
      && (parent.writeableDir.Some? ==>
            && parent.writeableDir.value in t.host && t.host[parent.writeableDir.value].HostDir?
            && EntryMirrored(t, path, parent.writeableDir.value + [Last(path)]))
  {
    assert path == Parent(path) + [Last(path)];
    DirectChild(t.root, Parent(path), Last(path));
    assert NodeSound(t, Parent(path));
    var parent := Lookup(t.root, Parent(path)).value;
    if parent.writeableDir.Some? {
      EntryOfDir(t, Parent(path), parent.writeableDir.value, Last(path));
    }
  }

  /** The call gets as far as asking the host to open or create a file. */
  ghost predicate ReachesHost(t: Tree, path: Path, o: OpenOptions) {
    && !((o.truncate || o.create) && !o.write && !o.append)
    && path != []
    && IsDirAt(t.root, Parent(path))
    && match InfoAt(t.root, path)
       case None => o.create && IsWritable(InfoAt(t.root, Parent(path)).value)
       case Some(DirInfo(_)) => false
       case Some(FileInfo(location, writeable)) =>
         !(o.create && o.exclusive) && (writeable || !(o.append || o.write)) && location.HostLocation?
  }

  /** A new leaf in a writable directory, in both trees. */
  lemma LeafCreated(t: Tree, path: Path, dir: HostPath, leaf: FsNode, entry: HostEntry)
    requires Mirrors(t) && path != [] && InfoAt(t.root, Parent(path)) == Some(DirInfo(Some(dir)))
    requires Lookup(t.root, path).None? && MatchingLeaf(Some(leaf), Some(entry), dir + [Last(path)])
    ensures
      var h, root := dir + [Last(path)], Put(t.root, path, Some(leaf));
      && h !in t.host && Parent(h) in t.host && t.host[Parent(h)].HostDir?
      && Mirrors(Tree(root, t.host[h := entry]))
      && forall q :: InfoAt(root, q) == if q == path then Some(InfoOf(leaf)) else InfoAt(t.root, q)
  {
    hide NodeSound, Mirrors, Put;
    var h := dir + [Last(path)];
    ParentOfChild(dir, Last(path));
    ReplaceLeaf(t, path, dir, Some(leaf), Some(entry));
    EntryOf(t, path, dir);
    assert Parent(h) == dir && EntryMirrored(t, path, h);
    forall q ensures InfoAt(Put(t.root, path, Some(leaf)), q) == if q == path then Some(InfoOf(leaf)) else InfoAt(t.root, q) {
      LeafPut(t.root, path, Some(leaf), q);
    }
  }

  /**
   Opening keeps the mirror, and the host refuses only what no host file would accept: options
   without an access mode, or appending and truncating at once.
   */
  lemma OpenKeepsMirror(t: Tree, path: Path, o: OpenOptions)
    requires Mirrors(t)
    ensures Mirrors(Open(t, path, o).1)
    ensures Open(t, path, o).0 == Panicked(HostRefused) <==>
      ReachesHost(t, path, o) && ((!o.read && !o.write && !o.append) || (o.append && o.truncate))
    ensures Open(t, path, o).0.Ok? && Open(t, path, o).0.value.OpenHostFile? ==>
      var h := Open(t, path, o).0.value.host;
      && h in Open(t, path, o).1.host && Open(t, path, o).1.host[h].HostFile?
      && ReachesHost(t, path, o)
    ensures InfoAt(t.root, path).None? && Open(t, path, o).0.Ok? ==>
      && InfoAt(Open(t, path, o).1.root, path).Some?
      && forall q :: q != path ==> InfoAt(Open(t, path, o).1.root, q) == InfoAt(t.root, q)
  {
    if path != [] && IsDirAt(t.root, Parent(path)) {
      ChildOf(t, path);
      var parent := Lookup(t.root, Parent(path)).value;
      if Last(path) in parent.children {
        assert NodeSound(t, path);
        hide NodeSound, Mirrors;
        if InfoAt(t.root, path).value.FileInfo? && InfoAt(t.root, path).value.location.HostLocation? {
          SetContents(t, InfoAt(t.root, path).value.location.host, []);
        }
      } else if parent.writeableDir.Some? {
        var dir := parent.writeableDir.value;
        LeafCreated(t, path, dir, File(HostLocation(dir + [Last(path)]), true), HostFile([]));
        hide NodeSound, Mirrors, Lookup, Put;
      }
    } else if path != [] && InfoAt(t.root, path).Some? {
      ParentIsDir(t.root, path);
    }
  }

  /** `write` never meets a refusal. */
  lemma WriteKeepsMirror(t: Tree, path: Path, data: seq<int>)
    requires Mirrors(t)
    ensures Mirrors(Write(t, path, data).1) && Write(t, path, data).0 != Panicked(HostRefused)
  {
    OpenKeepsMirror(t, path, WRITE_CREATE_TRUNCATE);
    var (attempt, t') := Open(t, path, WRITE_CREATE_TRUNCATE);
    hide Mirrors, Open;
    if attempt.Ok? && attempt.value.OpenHostFile? {
      SetContents(t', attempt.value.host, data);
    }
  }

  /** Creating a directory keeps the mirror and never panics. */
  lemma CreateDirKeepsMirror(t: Tree, path: Path)
    requires Mirrors(t)
    ensures Mirrors(CreateDir(t, path).1) && !CreateDir(t, path).0.Panicked?
    ensures CreateDir(t, path).0.Ok? ==>
      && IsDirAt(CreateDir(t, path).1.root, path) && InfoAt(t.root, path).None?
      && forall q :: q != path ==> InfoAt(CreateDir(t, path).1.root, q) == InfoAt(t.root, q)
    ensures !CreateDir(t, path).0.Ok? ==> CreateDir(t, path).1 == t
    ensures CreateDir(t, path).0 == Err(AlreadyExist) ==> InfoAt(t.root, path).Some?
  {
    if path != [] && IsDirAt(t.root, Parent(path)) {
      ChildOf(t, path);
      var parent := Lookup(t.root, Parent(path)).value;
      if Last(path) !in parent.children && parent.writeableDir.Some? {
        var dir := parent.writeableDir.value;
        LeafCreated(t, path, dir, Directory(map[], Some(dir + [Last(path)])), HostDir);
        hide NodeSound, Mirrors, Lookup, Put;
      }
    }
  }

  /** Removing keeps the mirror and never panics. */
  lemma RemoveKeepsMirror(t: Tree, path: Path)
    requires Mirrors(t)
    ensures Mirrors(Remove(t, path).1) && !Remove(t, path).0.Panicked?
    ensures Remove(t, path).0.Ok? ==> InfoAt(Remove(t, path).1.root, path).None?
    ensures !Remove(t, path).0.Ok? ==> Remove(t, path).1 == t
  {
    if path != [] && IsDirAt(t.root, Parent(path)) {
      ChildOf(t, path);
      var parent := Lookup(t.root, Parent(path)).value;
      if Last(path) in parent.children && parent.writeableDir.Some? {
        hide NodeSound, Mirrors;
        var node := parent.children[Last(path)];
        if IsLeaf(node) {
          hide Lookup, Put;
          ReplaceLeaf(t, path, parent.writeableDir.value, None, None);
          EntryOf(t, path, parent.writeableDir.value);
          LeafPut(t.root, path, None, path);
        }
      }
    }
  }

  // ---------------------------------------------------------------- renaming

  /** A writable file stands for the entry of its name in the directory its parent stands for. */
  lemma WritableFile(t: Tree, path: Path)
    requires Mirrors(t) && InfoAt(t.root, path).Some? && InfoAt(t.root, path).value.FileInfo?
    requires InfoAt(t.root, path).value.writeable
    ensures path != [] && IsDirAt(t.root, Parent(path))
    ensures
      var parent := InfoAt(t.root, Parent(path)).value;
      && parent.writeableDir.Some?
      && InfoAt(t.root, path).value.location == HostLocation(parent.writeableDir.value + [Last(path)])
      && DirMirrored(t, Parent(path), parent.writeableDir.value)
  {
    assert NodeSound(t, path) && NodeSound(t, Parent(path));
    ChildOf(t, path);
  }

  /** The target exists after the first half of a rename, and the source is as it was. */
  lemma RenameTarget(t: Tree, from: Path, to: Path)
    requires Mirrors(t) && InfoAt(t.root, from).Some?
    ensures
      var (attempt, t') :=
        if InfoAt(t.root, to).None? then Open(t, to, WRITE_CREATE_TRUNCATE) else (Ok(OpenDirectory), t);
      && Mirrors(t') && attempt != Panicked(HostRefused) && attempt != Err(IoError)
      && (attempt.Ok? ==> InfoAt(t'.root, to).Some? && InfoAt(t'.root, from) == InfoAt(t.root, from))
  {
    OpenKeepsMirror(t, to, WRITE_CREATE_TRUNCATE);
  }

  /** Moving the contents of one writable file to another and removing the first. */
  lemma MoveFile(t: Tree, from: Path, to: Path)
    requires Mirrors(t) && from != to
    requires InfoAt(t.root, from).Some? && InfoAt(t.root, from).value.FileInfo? && InfoAt(t.root, from).value.writeable
    requires InfoAt(t.root, to).Some? && InfoAt(t.root, to).value.FileInfo? && InfoAt(t.root, to).value.writeable
    ensures
      var a, b := InfoAt(t.root, from).value.location, InfoAt(t.root, to).value.location;
      && a.HostLocation? && b.HostLocation? && from != []
      && HostRename(t.host, a.host, b.host).Some?
      && Mirrors(Tree(Put(t.root, from, None), HostRename(t.host, a.host, b.host).value))
  {
    WritableFile(t, from);
    WritableFile(t, to);
    var a, b := InfoAt(t.root, from).value.location.host, InfoAt(t.root, to).value.location.host;
    assert NodeSound(t, from) && NodeSound(t, to) && Unshared(t, from, to);
    SetContents(t, b, t.host[a].contents);
    var moved := t.(host := t.host[b := t.host[a]]);
    ReplaceLeaf(moved, from, Parent(a), None, None);
    ParentOfChild(Parent(a), Last(from));
  }

  /** Renaming `from` to `to` is not renaming a writable file onto itself. */
  ghost predicate MovesOrFails(t: Tree, from: Path, to: Path) {
    from != to ||
    !(InfoAt(t.root, from).Some? && InfoAt(t.root, from).value.FileInfo? && InfoAt(t.root, from).value.writeable)
  }

  /**
   Renaming keeps the mirror and the host never refuses it, unless a writable file is renamed onto
   itself: then the guest loses it and the host does not. In that case, and only then, the mirror
   breaks.
   */
  lemma RenameKeepsMirror(t: Tree, from: Path, to: Path)
    requires Mirrors(t)
    ensures Rename(t, from, to).0 != Panicked(HostRefused) && Rename(t, from, to).0 != Err(IoError)
    ensures Mirrors(Rename(t, from, to).1) <==> MovesOrFails(t, from, to)
  {
    hide Open, Mirrors, Put, HostRename, InfoAt, Lookup;
    if InfoAt(t.root, from).Some? {
      RenameTarget(t, from, to);
      var (attempt, t') :=
        if InfoAt(t.root, to).None? then Open(t, to, WRITE_CREATE_TRUNCATE) else (Ok(OpenDirectory), t);
      var ready := attempt.Ok?
        && InfoAt(t'.root, from).value.FileInfo? && InfoAt(t'.root, from).value.writeable
        && InfoAt(t'.root, to).value.FileInfo? && InfoAt(t'.root, to).value.writeable;
      if ready && from != to {
        MoveFile(t', from, to);
      } else if ready {
        RenameOntoItself(t', from);
      }
    }
  }

  lemma RenameOntoItself(t: Tree, path: Path)
    requires Mirrors(t)
    requires InfoAt(t.root, path).Some? && InfoAt(t.root, path).value.FileInfo? && InfoAt(t.root, path).value.writeable
    ensures
      var location := InfoAt(t.root, path).value.location;
      && location.HostLocation? && path != [] && HostRename(t.host, location.host, location.host) == Some(t.host)
      && !Mirrors(t.(root := Put(t.root, path, None)))
  {
    WritableFile(t, path);
    assert NodeSound(t, path);
    var dir := InfoAt(t.root, Parent(path)).value.writeableDir.value;
    LeafPut(t.root, path, None, path);
    LeafPut(t.root, path, None, Parent(path));
    hide Lookup, Put, Unshared;
    MissingEntry(t, t.(root := Put(t.root, path, None)), path, dir);
  }

  /** A directory that lost an entry in the guest tree only does not mirror the host. */
  lemma MissingEntry(t: Tree, t': Tree, path: Path, dir: HostPath)
    requires path != [] && t'.host == t.host && dir + [Last(path)] in t.host
    requires InfoAt(t'.root, Parent(path)) == Some(DirInfo(Some(dir))) && InfoAt(t'.root, path).None?
    ensures !Mirrors(t')
  {
    hide InfoAt, Unshared, DirMirrored;
    assert path == Parent(path) + [Last(path)];
    if DirMirrored(t', Parent(path), dir) {
      EntryOfDir(t', Parent(path), dir, Last(path));
    }
    assert !NodeSound(t', Parent(path));
  }

  // ---------------------------------------------------------------- whole runs

  datatype Operation =
    | DoOpen(path: Path, options: OpenOptions)
    | DoWrite(path: Path, data: seq<int>)
    | DoCreateDir(path: Path)
    | DoCreateDirAll(path: Path)
    | DoRemove(path: Path)
    | DoRename(path: Path, target: Path)

  ghost predicate IsRefused<T(!new)>(outcome: Outcome<T>) {
    outcome == Panicked(HostRefused)
  }

  /** The tree after an operation, and whether the host refused something. */
  ghost function Perform(t: Tree, op: Operation): (bool, Tree) {
    match op
    case DoOpen(path, options) => (IsRefused(Open(t, path, options).0), Open(t, path, options).1)
    case DoWrite(path, data) => (IsRefused(Write(t, path, data).0), Write(t, path, data).1)
    case DoCreateDir(path) => (IsRefused(CreateDir(t, path).0), CreateDir(t, path).1)
    case DoCreateDirAll(path) => (IsRefused(CreateDirAll(t, path, 0).0), CreateDirAll(t, path, 0).1)
    case DoRemove(path) => (IsRefused(Remove(t, path).0), Remove(t, path).1)
    case DoRename(from, to) => (IsRefused(Rename(t, from, to).0), Rename(t, from, to).1)
  }

  /** The tree after the first `k` operations. */
  ghost function After(t: Tree, ops: seq<Operation>, k: nat): Tree
    requires k <= |ops|
  {
    if k == 0 then t else Perform(After(t, ops, k - 1), ops[k - 1]).1
  }

  /** What a caller must not do: rename a writable file onto itself. */
  ghost predicate Harmless(t: Tree, op: Operation) {
    op.DoRename? ==> MovesOrFails(t, op.path, op.target)
  }

  /** Opening a path that leads to a host file with options no host accepts. */
  ghost predicate Unacceptable(t: Tree, op: Operation) {
    && op.DoOpen?
    && ReachesHost(t, op.path, op.options)
    && ((!op.options.read && !op.options.write && !op.options.append) || (op.options.append && op.options.truncate))
  }

  lemma {:induction false} CreateDirAllKeepsMirror(t: Tree, path: Path, done: nat)
    requires Mirrors(t) && done <= |path|
    ensures Mirrors(CreateDirAll(t, path, done).1) && !CreateDirAll(t, path, done).0.Panicked?
    ensures forall q | InfoAt(t.root, q).Some? :: InfoAt(CreateDirAll(t, path, done).1.root, q) == InfoAt(t.root, q)
    decreases |path| - done
  {
    if done < |path| {
      CreateDirKeepsMirror(t, path[..done + 1]);
      hide Mirrors, CreateDir;
      CreateDirAllKeepsMirror(CreateDir(t, path[..done + 1]).1, path, done + 1);
    }
  }

  /**
   After `create_dir_all` succeeds the path exists. It is a directory unless it was a file
   before: an existing file counts as an existing directory for the last component.
   */
  lemma {:induction false} CreateDirAllCreates(t: Tree, path: Path, done: nat)
    requires Mirrors(t) && done < |path| && CreateDirAll(t, path, done).0.Ok?
    ensures
      var t' := CreateDirAll(t, path, done).1;
      && InfoAt(t'.root, path).Some?
      && (IsDirAt(t'.root, path) <==> InfoAt(t.root, path).None? || IsDirAt(t.root, path))
    decreases |path| - done
  {
    var prefix := path[..done + 1];
    CreateDirKeepsMirror(t, prefix);
    var t' := CreateDir(t, prefix).1;
    CreateDirAllKeepsMirror(t', path, done + 1);
    hide Mirrors, CreateDir;
    if done + 1 == |path| {
      assert prefix == path;
    } else {
      CreateDirAllCreates(t', path, done + 1);
      assert prefix != path;
    }
  }

  /** Exactly the harmless operations keep the mirror, and exactly the unacceptable ones are refused. */
  lemma PerformKeepsMirror(t: Tree, op: Operation)
    requires Mirrors(t)
    ensures Mirrors(Perform(t, op).1) <==> Harmless(t, op)
    ensures Perform(t, op).0 <==> Unacceptable(t, op)
  {
    hide Mirrors, Open, Write, CreateDir, Remove, Rename, CreateDirAll, MovesOrFails, ReachesHost;
    match op
    case DoOpen(path, options) => OpenKeepsMirror(t, path, options);
    case DoWrite(path, data) => WriteKeepsMirror(t, path, data);
    case DoCreateDir(path) => CreateDirKeepsMirror(t, path);
    case DoCreateDirAll(path) => CreateDirAllKeepsMirror(t, path, 0);
    case DoRemove(path) => RemoveKeepsMirror(t, path);
    case DoRename(from, to) => RenameKeepsMirror(t, from, to);
  }

  ghost predicate MirrorsAfter(t: Tree, ops: seq<Operation>, k: nat) {
    k <= |ops| && Mirrors(After(t, ops, k))
  }

  ghost predicate HarmlessAfter(t: Tree, ops: seq<Operation>, k: nat) {
    k < |ops| && Harmless(After(t, ops, k), ops[k])
  }

  /** The host refuses operation `k` if and only if no host accepts it. */
  ghost predicate RefusedExactly(t: Tree, ops: seq<Operation>, k: nat) {
    k < |ops| && (Perform(After(t, ops, k), ops[k]).0 <==> Unacceptable(After(t, ops, k), ops[k]))
  }

  lemma MirrorStep(t: Tree, ops: seq<Operation>, k: nat)
    requires k < |ops| && MirrorsAfter(t, ops, k)
    ensures MirrorsAfter(t, ops, k + 1) <==> HarmlessAfter(t, ops, k)
    ensures RefusedExactly(t, ops, k)
  {
    hide Mirrors, Perform, Harmless, Unacceptable;
    PerformKeepsMirror(After(t, ops, k), ops[k]);
  }

  lemma {:induction false} HarmlessStaysMirrored(t: Tree, ops: seq<Operation>, n: nat)
    requires Mirrors(t) && n <= |ops|
    requires forall k | 0 <= k < n :: HarmlessAfter(t, ops, k)
    ensures MirrorsAfter(t, ops, n)
  {
    hide HarmlessAfter, Mirrors, RefusedExactly;
    if n > 0 {
      hide MirrorsAfter;
      HarmlessStaysMirrored(t, ops, n - 1);
      MirrorStep(t, ops, n - 1);
    }
  }

  /**
   The guest tree mirrors the host throughout a sequence of operations exactly when none of them
   renames a writable file onto itself. All along, the host refuses exactly what no host accepts.
   */
  lemma RunKeepsMirror(t: Tree, ops: seq<Operation>, n: nat)
    requires Mirrors(t) && n <= |ops|
    ensures (forall k | 0 <= k <= n :: MirrorsAfter(t, ops, k)) <==> (forall k | 0 <= k < n :: HarmlessAfter(t, ops, k))
    ensures forall k | 0 <= k < n && MirrorsAfter(t, ops, k) :: RefusedExactly(t, ops, k)
  {
    hide *;
    if forall k | 0 <= k < n :: HarmlessAfter(t, ops, k) {
      forall k | 0 <= k <= n ensures MirrorsAfter(t, ops, k) {
        HarmlessStaysMirrored(t, ops, k);
      }
    }
    if forall k | 0 <= k <= n :: MirrorsAfter(t, ops, k) {
      forall k | 0 <= k < n ensures HarmlessAfter(t, ops, k) {
        MirrorStep(t, ops, k);
      }
    }
    forall k | 0 <= k < n && MirrorsAfter(t, ops, k) ensures RefusedExactly(t, ops, k) {
      MirrorStep(t, ops, k);
    }
  }

  /** Below a writable directory the guest tree is the host tree. */
  lemma {:induction false} SandboxIsHost(t: Tree, p: Path, h: HostPath, q: Path)
    requires Mirrors(t) && InfoAt(t.root, p) == Some(DirInfo(Some(h)))
    ensures EntryMirrored(t, p + q, h + q)
  {
    assert NodeSound(t, p);
    hide Lookup, InfoAt, Unshared, DirMirrored;
    if q == [] {
      DirOnHost(t, p, h);
      assert p + q == p && h + q == h;
    } else {
      SandboxIsHost(t, p, h, Parent(q));
      SplitLast(p, q);
      SplitLast(h, q);
      if IsDirAt(t.root, p + Parent(q)) {
        assert NodeSound(t, p + Parent(q));
        EntryOfDir(t, p + Parent(q), h + Parent(q), Last(q));
      } else if InfoAt(t.root, p + q).Some? {
        ParentIsDir(t.root, p + q);
      }
    }
  }

  lemma SplitLast(p: Path, q: Path)
    requires q != []
    ensures p + q == p + Parent(q) + [Last(q)] && p + q != [] && Parent(p + q) == p + Parent(q)
  {
  }

  // ---------------------------------------------------------------- the initial tree

  /** What `from_host_dir` finds at the host path `h`. */
  function HostInfo(host: map<HostPath, HostEntry>, h: HostPath, writeable: bool): Option<Info> {
    if h !in host then None
    else if host[h].HostFile? then Some(FileInfo(HostLocation(h), writeable))
    else Some(DirInfo(if writeable then Some(h) else None))
  }

  ghost function Below(host: map<HostPath, HostEntry>, h: HostPath): set<HostPath> {
    set g <- host | h <= g
  }

  /** The children gathered so far, `entries` being the host entries not yet read. */
  ghost predicate Gathered(
    host: map<HostPath, HostEntry>, h: HostPath, writeable: bool, children: map<string, FsNode>, entries: set<HostPath>)
  {
    forall name: string :: ChildGathered(host, h + [name], writeable, children, name, h + [name] in entries)
  }

  ghost predicate ChildGathered(
    host: map<HostPath, HostEntry>, g: HostPath, writeable: bool, children: map<string, FsNode>, name: string, pending: bool)
  {
    if pending || g !in host then name !in children
    else name in children && IsHostEntry(host, g, writeable, children[name])
  }

  ghost predicate IsHostEntry(host: map<HostPath, HostEntry>, h: HostPath, writeable: bool, node: FsNode) {
    forall q :: InfoAt(node, q) == HostInfo(host, h + q, writeable)
  }

  /** Nothing lies below a host path that is missing or a file. */
  lemma {:induction false} NothingBelowOnHost(host: map<HostPath, HostEntry>, h: HostPath, q: Path)
    requires HostTree(host) && q != [] && (h !in host || host[h].HostFile?)
    ensures h + q !in host
  {
    assert Parent(h + q) == h + Parent(q);
    if Parent(q) == [] {
      assert h + Parent(q) == h;
    } else {
      NothingBelowOnHost(host, h, Parent(q));
    }
  }

  lemma GatheredFile(host: map<HostPath, HostEntry>, h: HostPath, writeable: bool)
    requires HostTree(host) && h in host && host[h].HostFile?
    ensures IsHostEntry(host, h, writeable, File(HostLocation(h), writeable))
  {
    forall q ensures InfoAt(File(HostLocation(h), writeable), q) == HostInfo(host, h + q, writeable) {
      if q == [] { assert h + q == h; } else { NothingBelowOnHost(host, h, q); }
    }
  }

  lemma GatheredAll(host: map<HostPath, HostEntry>, h: HostPath, writeable: bool, children: map<string, FsNode>)
    requires HostTree(host) && h in host && host[h].HostDir? && Gathered(host, h, writeable, children, {})
    ensures IsHostEntry(host, h, writeable, Directory(children, if writeable then Some(h) else None))
  {
    var node := Directory(children, if writeable then Some(h) else None);
    forall q ensures InfoAt(node, q) == HostInfo(host, h + q, writeable) {
      if q == [] {
        assert h + q == h;
      } else {
        GatheredBelow(host, h, writeable, children, q);
        hide *;
      }
    }
  }

  lemma GatheredBelow(host: map<HostPath, HostEntry>, h: HostPath, writeable: bool, children: map<string, FsNode>, q: Path)
    requires HostTree(host) && q != [] && Gathered(host, h, writeable, children, {})
    ensures InfoAt(Directory(children, if writeable then Some(h) else None), q) == HostInfo(host, h + q, writeable)
  {
    var g := h + [q[0]];
    assert ChildGathered(host, g, writeable, children, q[0], false);
    assert h + q == g + q[1..];
    hide Gathered, HostTree;
    if g !in host {
      if q[1..] == [] { assert g + q[1..] == g; } else { NothingBelowOnHost(host, g, q[1..]); }
    }
  }

  /** Reads a host directory, entry by entry in any order, and those below it. */
  method FromHostDir(host: map<HostPath, HostEntry>, hostPath: HostPath, writeable: bool) returns (node: FsNode)
    requires HostTree(host) && hostPath in host && host[hostPath].HostDir?
    ensures node.Directory? && IsHostEntry(host, hostPath, writeable, node)
    decreases |Below(host, hostPath)|
  {
    var children: map<string, FsNode> := map[];
    var entries := set g <- host | g != [] && Parent(g) == hostPath;
    assert Gathered(host, hostPath, writeable, children, entries) by {
      forall name: string ensures ChildGathered(host, hostPath + [name], writeable, children, name, hostPath + [name] in entries) {
        ParentOfChild(hostPath, name);
      }
    }
    hide ChildGathered, IsHostEntry, HostTree;
    while entries != {}
      invariant forall g <- entries :: g in host && g != [] && Parent(g) == hostPath
      invariant Gathered(host, hostPath, writeable, children, entries)
    {
      var entry :| entry in entries;
      var name := Last(entry);
      var child: FsNode;
      if host[entry].HostFile? {
        child := File(HostLocation(entry), writeable);
        GatheredFile(host, entry, writeable);
      } else {
        BelowShrinks(host, hostPath, entry);
        child := FromHostDir(host, entry, writeable);
      }
      GatheredStep(host, hostPath, writeable, children, entries, entry, child);
      children := children[name := child];
      entries := entries - {entry};
    }
    node := Directory(children, if writeable then Some(hostPath) else None);
    GatheredAll(host, hostPath, writeable, children);
  }

  lemma GatheredStep(
    host: map<HostPath, HostEntry>, h: HostPath, writeable: bool, children: map<string, FsNode>, entries: set<HostPath>,
    entry: HostPath, child: FsNode)
    requires Gathered(host, h, writeable, children, entries)
    requires entry in entries && entry in host && entry != [] && Parent(entry) == h && IsHostEntry(host, entry, writeable, child)
    ensures Gathered(host, h, writeable, children[Last(entry) := child], entries - {entry})
  {
    hide IsHostEntry;
    assert entry == h + [Last(entry)];
    forall name: string
      ensures ChildGathered(host, h + [name], writeable, children[Last(entry) := child], name, h + [name] in entries - {entry})
    {
      assert ChildGathered(host, h + [name], writeable, children, name, h + [name] in entries);
      assert h + [name] == entry <==> name == Last(entry) by { assert (h + [name])[|h|] == name && entry[|h|] == Last(entry); }
    }
  }

  lemma BelowShrinks(host: map<HostPath, HostEntry>, h: HostPath, entry: HostPath)
    requires h in host && entry in host && entry != [] && Parent(entry) == h
    ensures |Below(host, entry)| < |Below(host, h)|
  {
    assert h in Below(host, h) && h !in Below(host, entry);
    assert Below(host, entry) <= Below(host, h) - {h};
    SubsetIsSmaller(Below(host, entry), Below(host, h) - {h});
  }

  lemma {:induction false} SubsetIsSmaller<T>(a: set<T>, b: set<T>)
    requires a <= b
    ensures |a| <= |b|
  {
    assert |b| == |a| + |b - a| by { assert b == a + (b - a); }
  }

  lemma HostNodeSound(host: map<HostPath, HostEntry>, h: HostPath, writeable: bool, node: FsNode, p: Path)
    requires HostTree(host) && node.Directory? && IsHostEntry(host, h, writeable, node) && InfoAt(node, p).Some?
    ensures NodeSound(Tree(node, host), p)
  {
    var t := Tree(node, host);
    assert InfoAt(node, p) == HostInfo(host, h + p, writeable);
    if host[h + p].HostFile? {
      if p != [] {
        ParentIsDir(node, p);
        assert InfoAt(node, Parent(p)) == HostInfo(host, h + Parent(p), writeable);
      }
    } else if writeable {
      hide Lookup, InfoAt;
      forall name: string ensures EntryMirrored(t, p + [name], h + p + [name]) {
        LongerPath(h, p, name);
        assert InfoAt(node, p + [name]) == HostInfo(host, h + (p + [name]), writeable);
      }
    }
  }

  lemma LongerPath(h: HostPath, p: Path, name: string)
    ensures h + (p + [name]) == h + p + [name]
  {
  }

  lemma HostNodesUnshared(
    host: map<HostPath, HostEntry>, h: HostPath, writeable: bool, node: FsNode, p: Path, q: Path)
    requires IsHostEntry(host, h, writeable, node) && InfoAt(node, p).Some? && InfoAt(node, q).Some?
    ensures Unshared(Tree(node, host), p, q)
  {
    assert InfoAt(node, p) == HostInfo(host, h + p, writeable) && InfoAt(node, q) == HostInfo(host, h + q, writeable);
    hide InfoAt, Lookup, IsHostEntry;
    assert p == (h + p)[|h|..] && q == (h + q)[|h|..];
  }

  /** A directory read from the host mirrors it. */
  lemma HostDirMirrors(host: map<HostPath, HostEntry>, h: HostPath, writeable: bool, node: FsNode)
    requires HostTree(host) && h in host && host[h].HostDir?
    requires node.Directory? && IsHostEntry(host, h, writeable, node)
    ensures Mirrors(Tree(node, host))
  {
    var t := Tree(node, host);
    assert h + [] == h;
    forall p | InfoAt(node, p).Some? ensures NodeSound(t, p) {
      HostNodeSound(host, h, writeable, node, p);
    }
    forall p, q | InfoAt(node, p).Some? && InfoAt(node, q).Some? ensures Unshared(t, p, q) {
      HostNodesUnshared(host, h, writeable, node, p, q);
    }
    assert InfoAt(node, []) == Some(InfoOf(node));
    hide InfoAt, Lookup, NodeSound, Unshared;
  }

  /** A node that stands for nothing on the host: a resource, an archive member, a plain directory. */
  ghost predicate Inert(node: FsNode) {
    forall p | InfoAt(node, p).Some? :: HostOf(InfoAt(node, p).value).None? && !IsWritable(InfoAt(node, p).value)
  }

  lemma InertIsSound(node: FsNode, host: map<HostPath, HostEntry>)
    requires Inert(node)
    ensures Sound(Tree(node, host))
  {
    hide Lookup, InfoAt;
  }

  /** The two trees stand for different host paths, as far as these can be written to. */
  ghost predicate HostApart(a: FsNode, b: FsNode) {
    forall p, q | InfoAt(a, p).Some? && InfoAt(b, q).Some? && HostOf(InfoAt(a, p).value).Some?
                  && HostOf(InfoAt(a, p).value) == HostOf(InfoAt(b, q).value) ::
      !IsWritable(InfoAt(a, p).value) && !IsWritable(InfoAt(b, q).value)
  }

  ghost predicate Mounted(t: Tree, t': Tree, path: Path, node: FsNode) {
    forall r :: InfoAt(t'.root, r) == if path <= r then InfoAt(node, r[|path|..]) else InfoAt(t.root, r)
  }

  lemma MountedInside(t: Tree, t': Tree, path: Path, node: FsNode, q: Path)
    requires Mounted(t, t', path, node) && t'.host == t.host && Sound(Tree(node, t.host)) && InfoAt(node, q).Some?
    ensures InfoAt(t'.root, path + q) == InfoAt(node, q) && NodeSound(t', path + q)
  {
    hide Lookup, InfoAt;
    var inside := Tree(node, t.host);
    assert (path + q)[|path|..] == q;
    assert NodeSound(inside, q);
    match InfoAt(node, q).value
    case DirInfo(Some(d)) =>
      forall name: string ensures EntryMirrored(t', path + q + [name], d + [name]) {
        EntryOfDir(inside, q, d, name);
        assert (path + q + [name])[|path|..] == q + [name];
      }
    case DirInfo(None) =>
    case FileInfo(_, _) =>
      if q != [] {
        assert Parent(path + q) == path + Parent(q) && (path + Parent(q))[|path|..] == Parent(q);
      }
  }

  lemma PrefixOfChild(path: Path, r: Path, name: string)
    requires path != [] && !(path <= r) && path <= r + [name]
    ensures r == Parent(path)
  {
    assert forall i | 0 <= i < |path| && i < |r| :: path[i] == (r + [name])[i] == r[i];
    assert path == r + [name];
    ParentOfChild(r, name);
  }

  lemma MountedOutside(t: Tree, t': Tree, path: Path, node: FsNode, r: Path)
    requires Mounted(t, t', path, node) && t'.host == t.host && Mirrors(t) && InfoAt(t.root, r).Some? && !(path <= r)
    requires path != [] && InfoAt(t.root, Parent(path)) == Some(DirInfo(None))
    ensures NodeSound(t', r)
  {
    hide Lookup, InfoAt;
    assert NodeSound(t, r);
    match InfoAt(t.root, r).value
    case DirInfo(Some(d)) =>
      forall name: string ensures EntryMirrored(t', r + [name], d + [name]) {
        EntryOfDir(t, r, d, name);
        hide DirMirrored, NodeSound, Mirrors;
        if path <= r + [name] { PrefixOfChild(path, r, name); }
      }
    case DirInfo(None) =>
    case FileInfo(_, _) => assert r != [] && path <= Parent(r) ==> path <= r by { assert r != [] ==> Parent(r) <= r; }
  }

  /** The initial tree is put together by adding such nodes to read-only directories. */
  lemma MountKeepsMirror(t: Tree, path: Path, node: FsNode)
    requires Mirrors(t) && path != [] && InfoAt(t.root, Parent(path)) == Some(DirInfo(None))
    requires Sound(Tree(node, t.host)) && HostApart(t.root, node)
    ensures Mirrors(Tree(Put(t.root, path, Some(node)), t.host))
  {
    var t' := Tree(Put(t.root, path, Some(node)), t.host);
    forall r ensures InfoAt(t'.root, r) == if path <= r then InfoAt(node, r[|path|..]) else InfoAt(t.root, r) {
      InfoPut(t.root, path, Some(node), r);
    }
    assert Mounted(t, t', path, node);
    assert t'.root.Directory?;
    hide Lookup, InfoAt, Put;
    forall r | InfoAt(t'.root, r).Some? ensures NodeSound(t', r) {
      if path <= r {
        assert r == path + r[|path|..];
        MountedInside(t, t', path, node, r[|path|..]);
      } else {
        MountedOutside(t, t', path, node, r);
      }
    }
    forall p, q | InfoAt(t'.root, p).Some? && InfoAt(t'.root, q).Some? ensures Unshared(t', p, q) {
      if path <= p && path <= q {
        assert Unshared(Tree(node, t.host), p[|path|..], q[|path|..]);
        assert p == path + p[|path|..] && q == path + q[|path|..];
      } else if !(path <= p) && !(path <= q) {
        assert Unshared(t, p, q);
      }
    }
  }
}
