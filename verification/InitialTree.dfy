/**
 How the tree an application starts with is put together: read-only directories with nodes added
 to them, each read from a host directory or standing for nothing on the host. It mirrors the host,
 so the runs of `FsMirror` have a state to start from.
 */
module InitialTree {
  import opened Wrappers
  import opened FsTree
  import opened FsMirror
  import opened BundleBuilder

  /** Where a node comes from. */
  datatype Source = FromHost(dir: HostPath, writeable: bool) | Plain

  datatype Mount = Mount(path: Path, node: FsNode, source: Source)

  ghost predicate ComesFrom(host: map<HostPath, HostEntry>, m: Mount) {
    match m.source
    case Plain => Inert(m.node)
    case FromHost(h, writeable) =>
      h in host && host[h].HostDir? && m.node.Directory? && IsHostEntry(host, h, writeable, m.node)
  }

  /** What lies below both directories, if one can be written to, is no file, and if both can, nothing. */
  ghost predicate SourcesApart(host: map<HostPath, HostEntry>, a: Source, b: Source) {
    a.FromHost? && b.FromHost? && (a.writeable || b.writeable) ==>
      forall g <- host | a.dir <= g && b.dir <= g :: host[g].HostDir? && !(a.writeable && b.writeable)
  }

  /** The root with the mounts added one after the other. */
  function MountAll(root: FsNode, mounts: seq<Mount>): FsNode
    requires forall m <- mounts :: m.path != []
  {
    if mounts == [] then root
    else Put(MountAll(root, mounts[..|mounts| - 1]), Last(mounts).path, Some(Last(mounts).node))
  }

  /** Nodes are added to read-only directories of the root, not inside each other. */
  ghost predicate Placed(root: FsNode, mounts: seq<Mount>) {
    && (forall m <- mounts :: m.path != [] && InfoAt(root, Parent(m.path)) == Some(DirInfo(None)))
    && (forall m, n | m in mounts && n in mounts :: !(m.path <= Parent(n.path)))
  }

  ghost predicate AllApart(host: map<HostPath, HostEntry>, mounts: seq<Mount>) {
    forall i, j | 0 <= i < j < |mounts| :: SourcesApart(host, mounts[i].source, mounts[j].source)
  }

  /** No node is replaced by a later one. */
  ghost predicate AllStay(mounts: seq<Mount>) {
    forall i, j | 0 <= i < j < |mounts| :: mounts[i].path != mounts[j].path
  }

  // ---------------------------------------------------------------- apart on the host

  lemma SourceIsSound(host: map<HostPath, HostEntry>, m: Mount)
    requires HostTree(host) && ComesFrom(host, m)
    ensures Sound(Tree(m.node, host))
  {
    match m.source
    case Plain => InertIsSound(m.node, host);
    case FromHost(h, writeable) => HostDirMirrors(host, h, writeable, m.node);
  }

  /** What a node read from the host stands for, and whether that can be written to. */
  lemma SourceOfNode(host: map<HostPath, HostEntry>, m: Mount, p: Path)
    requires ComesFrom(host, m) && InfoAt(m.node, p).Some?
    ensures
      var info := InfoAt(m.node, p).value;
      && (HostOf(info).Some? ==>
            && m.source.FromHost? && HostOf(info).value == m.source.dir + p && m.source.dir + p in host
            && (host[m.source.dir + p].HostDir? ==> m.source.writeable))
      && (IsWritable(info) ==> m.source.FromHost? && m.source.writeable)
  {
    hide Lookup, InfoAt;
    if m.source.FromHost? {
      assert InfoAt(m.node, p) == HostInfo(host, m.source.dir + p, m.source.writeable);
    }
  }

  lemma NodeOfSource(host: map<HostPath, HostEntry>, m: Mount, g: HostPath)
    requires ComesFrom(host, m) && m.source.FromHost? && m.source.dir <= g && g in host
    ensures
      var found := InfoAt(m.node, g[|m.source.dir|..]);
      && found.Some? && (IsWritable(found.value) <==> m.source.writeable)
      && (host[g].HostFile? || m.source.writeable ==> HostOf(found.value) == Some(g))
  {
    hide Lookup, InfoAt;
    var p := g[|m.source.dir|..];
    assert m.source.dir + p == g;
    assert InfoAt(m.node, p) == HostInfo(host, m.source.dir + p, m.source.writeable);
  }

  lemma SourcesHostApart(host: map<HostPath, HostEntry>, a: Mount, b: Mount)
    requires ComesFrom(host, a) && ComesFrom(host, b)
    ensures HostApart(a.node, b.node) <==> SourcesApart(host, a.source, b.source)
  {
    if SourcesApart(host, a.source, b.source) {
      forall p, q | InfoAt(a.node, p).Some? && InfoAt(b.node, q).Some? && HostOf(InfoAt(a.node, p).value).Some?
                    && HostOf(InfoAt(a.node, p).value) == HostOf(InfoAt(b.node, q).value)
        ensures !IsWritable(InfoAt(a.node, p).value) && !IsWritable(InfoAt(b.node, q).value)
      {
        SourceOfNode(host, a, p);
        SourceOfNode(host, b, q);
        hide Lookup, InfoAt, ComesFrom;
        PrefixOfSum(a.source.dir, p);
        PrefixOfSum(b.source.dir, q);
      }
    }
    if HostApart(a.node, b.node) && a.source.FromHost? && b.source.FromHost? {
      forall g <- host | a.source.dir <= g && b.source.dir <= g && (a.source.writeable || b.source.writeable)
        ensures host[g].HostDir? && !(a.source.writeable && b.source.writeable)
      {
        NodeOfSource(host, a, g);
        NodeOfSource(host, b, g);
      }
    }
  }

  lemma PrefixOfSum(a: HostPath, p: Path)
    ensures a <= a + p
  {
  }

  lemma InertHostApart(a: FsNode, b: FsNode)
    requires Inert(a) || Inert(b)
    ensures HostApart(a, b)
  {
    hide Lookup, InfoAt;
  }

  lemma PutHostApart(root: FsNode, path: Path, node: FsNode, other: FsNode)
    requires path != [] && IsDirAt(root, Parent(path)) && HostApart(root, other) && HostApart(node, other)
    ensures HostApart(Put(root, path, Some(node)), other)
  {
    var root' := Put(root, path, Some(node));
    forall r ensures InfoAt(root', r) == if path <= r then InfoAt(node, r[|path|..]) else InfoAt(root, r) {
      InfoPut(root, path, Some(node), r);
    }
    hide Lookup, InfoAt, Put;
  }

  /** Adding nodes elsewhere leaves a directory alone that none of them is added above. */
  lemma {:induction false} MountAllElsewhere(root: FsNode, mounts: seq<Mount>, p: Path)
    requires Placed(root, mounts) && forall m <- mounts :: !(m.path <= p)
    ensures InfoAt(MountAll(root, mounts), p) == InfoAt(root, p)
  {
    if mounts != [] {
      var init, m := mounts[..|mounts| - 1], Last(mounts);
      MountAllElsewhere(root, init, p);
      MountAllElsewhere(root, init, Parent(m.path));
      InfoPut(MountAll(root, init), m.path, Some(m.node), p);
    }
  }

  lemma {:induction false} MountAllHostApart(host: map<HostPath, HostEntry>, root: FsNode, mounts: seq<Mount>, last: Mount)
    requires Inert(root) && Placed(root, mounts)
    requires ComesFrom(host, last) && forall m <- mounts :: ComesFrom(host, m) && SourcesApart(host, m.source, last.source)
    ensures HostApart(MountAll(root, mounts), last.node)
  {
    hide ComesFrom, SourcesApart, Inert, HostApart, Lookup, InfoAt, Put;
    if mounts == [] {
      InertHostApart(root, last.node);
    } else {
      var init, m := mounts[..|mounts| - 1], Last(mounts);
      MountAllHostApart(host, root, init, last);
      SourcesHostApart(host, m, last);
      MountAllElsewhere(root, init, Parent(m.path));
      PutHostApart(MountAll(root, init), m.path, m.node, last.node);
    }
  }

  lemma {:induction false} ApartMirrors(host: map<HostPath, HostEntry>, root: FsNode, mounts: seq<Mount>)
    requires HostTree(host) && root.Directory? && Inert(root) && Placed(root, mounts)
    requires AllApart(host, mounts) && forall m <- mounts :: ComesFrom(host, m)
    ensures Mirrors(Tree(MountAll(root, mounts), host))
  {
    if mounts == [] {
      InertIsSound(root, host);
    } else {
      var init, m := mounts[..|mounts| - 1], Last(mounts);
      ApartMirrors(host, root, init);
      MountAllElsewhere(root, init, Parent(m.path));
      MountAllHostApart(host, root, init, m);
      SourceIsSound(host, m);
      hide ComesFrom, SourcesApart, Inert, HostApart, Mirrors, Sound, Lookup, InfoAt, Put;
      MountKeepsMirror(Tree(MountAll(root, init), host), m.path, m.node);
    }
  }

  lemma CommonPath(a: Path, p: Path, b: Path)
    requires b <= a + p
    ensures a <= b || b <= a
  {
    if |a| <= |b| {
      assert b[..|a|] == (a + p)[..|a|] == a;
    } else {
      assert b == (a + p)[..|b|] == a[..|b|];
    }
  }

  lemma PathsApart(root: FsNode, mounts: seq<Mount>, i: nat, j: nat, p: Path)
    requires Placed(root, mounts) && AllStay(mounts) && i < |mounts| && j < |mounts| && i != j
    ensures !(mounts[j].path <= mounts[i].path + p)
  {
    var a, b := mounts[i].path, mounts[j].path;
    assert mounts[i] in mounts && mounts[j] in mounts && a != b;
    hide InfoAt;
    if b <= a + p {
      CommonPath(a, p, b);
      if a <= b { PrefixOfParent(a, b); } else { PrefixOfParent(b, a); }
    }
  }

  lemma PrefixOfParent(a: Path, b: Path)
    requires a <= b && a != b
    ensures b != [] && a <= Parent(b)
  {
  }

  /** A node that stays is found at its path. */
  lemma {:induction false} MountAllInside(root: FsNode, mounts: seq<Mount>, i: nat, p: Path)
    requires Placed(root, mounts) && AllStay(mounts) && i < |mounts|
    ensures InfoAt(MountAll(root, mounts), mounts[i].path + p) == InfoAt(mounts[i].node, p)
  {
    var init, m := mounts[..|mounts| - 1], Last(mounts);
    MountAllElsewhere(root, init, Parent(m.path));
    InfoPut(MountAll(root, init), m.path, Some(m.node), mounts[i].path + p);
    if i == |init| {
      assert (m.path + p)[|m.path|..] == p;
    } else {
      MountAllInside(root, init, i, p);
      PathsApart(root, mounts, i, |init|, p);
    }
  }

  lemma MirrorsApart(host: map<HostPath, HostEntry>, root: FsNode, mounts: seq<Mount>, i: nat, j: nat)
    requires Placed(root, mounts) && AllStay(mounts) && Mirrors(Tree(MountAll(root, mounts), host)) && i < j < |mounts|
    ensures HostApart(mounts[i].node, mounts[j].node)
  {
    var t, a, b := Tree(MountAll(root, mounts), host), mounts[i], mounts[j];
    forall p, q | InfoAt(a.node, p).Some? && InfoAt(b.node, q).Some? && HostOf(InfoAt(a.node, p).value).Some?
                  && HostOf(InfoAt(a.node, p).value) == HostOf(InfoAt(b.node, q).value)
      ensures !IsWritable(InfoAt(a.node, p).value) && !IsWritable(InfoAt(b.node, q).value)
    {
      MountAllInside(root, mounts, i, p);
      MountAllInside(root, mounts, j, q);
      PathsApart(root, mounts, i, j, p);
      PrefixOfSum(b.path, q);
      hide Lookup, InfoAt, MountAll, Placed, NodeSound, AllStay;
      assert Unshared(t, a.path + p, b.path + q) && Unshared(t, b.path + q, a.path + p);
    }
  }

  /**
   However many such nodes are added, the tree mirrors the host if they are apart there, and, when
   none replaces another, only then.
   */
  lemma MountedTreeMirrors(host: map<HostPath, HostEntry>, root: FsNode, mounts: seq<Mount>)
    requires HostTree(host) && root.Directory? && Inert(root) && Placed(root, mounts)
    requires forall m <- mounts :: ComesFrom(host, m)
    ensures AllApart(host, mounts) ==> Mirrors(Tree(MountAll(root, mounts), host))
    ensures AllStay(mounts) && Mirrors(Tree(MountAll(root, mounts), host)) ==> AllApart(host, mounts)
  {
    if AllApart(host, mounts) {
      ApartMirrors(host, root, mounts);
    }
    if AllStay(mounts) && Mirrors(Tree(MountAll(root, mounts), host)) {
      forall i, j | 0 <= i < j < |mounts| ensures SourcesApart(host, mounts[i].source, mounts[j].source) {
        MirrorsApart(host, root, mounts, i, j);
        SourcesHostApart(host, mounts[i], mounts[j]);
      }
    }
  }

  // ---------------------------------------------------------------- the initial file system

  /** An app bundle: a directory of the host, or an archive. */
  datatype Bundle = HostDirectory(dir: HostPath) | Zip(entries: seq<ZipEntry>, bundlePath: string)

  const FAKE_UUID := "00000000-0000-0000-0000-000000000000"
  const DIRECTORIES: seq<string> := ["Documents", "Library", "tmp"]

  const USR_LIB := Directory(
    map[
      "libgcc_s.1.dylib" := Library("libgcc_s.1.dylib"),
      "libstdc++.6.dylib" := Library("libstdc++.6.0.9.dylib"),
      "libstdc++.6.0.9.dylib" := Library("libstdc++.6.0.9.dylib"),
      "libz.1.2.3.dylib" := Library("libz.1.2.3.dylib"),
      "libz.1.dylib" := Library("libz.1.2.3.dylib"),
      "libz.dylib" := Library("libz.1.2.3.dylib"),
      "libz.1.1.3.dylib" := Library("libz.1.2.3.dylib"),
      "libsqlite3.dylib" := Library("libsqlite3.dylib"),
      "libsqlite3.0.dylib" := Library("libsqlite3.dylib"),
      "libxml2.2.dylib" := Library("libxml2.2.dylib"),
      "libxml2.dylib" := Library("libxml2.2.dylib"),
      "libxml2.2.7.8.dylib" := Library("libxml2.2.dylib")],
    None)

  function Library(name: string): FsNode {
    File(ResourceFilePath("ChronaHLE_dylibs/" + name), false)
  }

  function Dir1(name: string, child: FsNode): FsNode {
    Directory(map[name := child], None)
  }

  function HomeDirectory(): Path {
    ["var", "mobile", "Applications", FAKE_UUID]
  }

  lemma {:induction false} BuiltIsInert(entries: seq<Entry>)
    requires Built(entries).Some?
    ensures Inert(Built(entries).value) && Built(entries).value.Directory?
  {
    if entries == [] {
      forall q ensures InfoAt(EMPTY_DIR, q) == if q == [] then Some(DirInfo(None)) else None {
        NothingInEmpty(q);
      }
    } else {
      BuiltIsInert(entries[..|entries| - 1]);
      AddedIsInert(Built(entries[..|entries| - 1]).value, Last(entries));
    }
  }

  lemma AddedIsInert(root: FsNode, e: Entry)
    requires Inert(root) && root.Directory? && AddEntry(root, e).Some?
    ensures Inert(AddEntry(root, e).value) && AddEntry(root, e).value.Directory?
  {
    var added := AddEntry(root, e).value;
    MakeDirsInfo(root, Parts(e.path));
    if e.FileEntry? {
      PlaceFileInfo(root, Parts(e.path), e.file);
    }
    hide InfoAt, Lookup, Parts, HasFileName, Blocked, MakeDirs, PlaceFile, IsFileAt;
  }

  lemma UsrLibIsInert()
    ensures Inert(USR_LIB)
  {
    forall p | InfoAt(USR_LIB, p).Some?
      ensures HostOf(InfoAt(USR_LIB, p).value).None? && !IsWritable(InfoAt(USR_LIB, p).value)
    {
      if p != [] {
        ThroughChild(USR_LIB, p);
      }
    }
  }

  lemma Dir1Info(name: string, child: FsNode, p: Path)
    ensures InfoAt(Dir1(name, child), [name] + p) == InfoAt(child, p)
  {
    assert ([name] + p)[1..] == p;
  }

  /** A directory that mirrors the host still does inside a read-only one. */
  lemma Dir1Mirrors(host: map<HostPath, HostEntry>, name: string, child: FsNode)
    requires Mirrors(Tree(child, host))
    ensures Mirrors(Tree(Dir1(name, child), host))
  {
    BuiltIsInert([]);
    InertIsSound(EMPTY_DIR, host);
    InertHostApart(EMPTY_DIR, child);
    assert Put(EMPTY_DIR, [name], Some(child)) == Dir1(name, child);
    MountKeepsMirror(Tree(EMPTY_DIR, host), [name], child);
  }

  /** What is below a directory of a tree that mirrors the host mirrors it by itself. */
  lemma SubtreeMirrors(t: Tree, path: Path, node: FsNode)
    requires Mirrors(t) && node.Directory? && forall q :: InfoAt(t.root, path + q) == InfoAt(node, q)
    ensures Mirrors(Tree(node, t.host))
  {
    var t' := Tree(node, t.host);
    assert IsDirAt(node, []);
    hide Lookup, InfoAt;
    forall p | InfoAt(node, p).Some? ensures NodeSound(t', p) {
      assert NodeSound(t, path + p);
      match InfoAt(node, p).value
      case DirInfo(Some(h)) =>
        forall name: string ensures EntryMirrored(t', p + [name], h + [name]) {
          assert path + p + [name] == path + (p + [name]);
          EntryOfDir(t, path + p, h, name);
        }
      case DirInfo(None) =>
      case FileInfo(_, _) =>
        assert p != [] ==> Parent(path + p) == path + Parent(p);
    }
    forall p, q | InfoAt(node, p).Some? && InfoAt(node, q).Some? ensures Unshared(t', p, q) {
      assert Unshared(t, path + p, path + q);
      assert path + p == path + q ==> p == q by { assert (path + p)[|path|..] == p && (path + q)[|path|..] == q; }
    }
  }

  lemma WithUsrMirrors(host: map<HostPath, HostEntry>, child: FsNode)
    requires Mirrors(Tree(Dir1("var", child), host))
    ensures Mirrors(Tree(Directory(map["var" := child, "usr" := Dir1("lib", USR_LIB)], None), host))
  {
    var usr := Dir1("lib", USR_LIB);
    UsrLibIsInert();
    forall p | InfoAt(usr, p).Some? ensures HostOf(InfoAt(usr, p).value).None? && !IsWritable(InfoAt(usr, p).value) {
      if p != [] {
        ThroughChild(usr, p);
        hide InfoAt;
      }
    }
    assert Inert(usr);
    InertIsSound(usr, host);
    var root := Dir1("var", child);
    InertHostApart(root, usr);
    assert Put(root, ["usr"], Some(usr)) == Directory(map["var" := child, "usr" := usr], None);
    MountKeepsMirror(Tree(root, host), ["usr"], usr);
  }

  ghost predicate IsHostDir(host: map<HostPath, HostEntry>, h: HostPath) {
    h in host && host[h].HostDir?
  }

  /** No host file lies both in the bundle's directory and in one of the application's own. */
  ghost predicate BundleApart(host: map<HostPath, HostEntry>, bundle: Bundle, sandbox: Option<HostPath>) {
    bundle.HostDirectory? && sandbox.Some? ==>
      forall name, g | name in DIRECTORIES && g in host && bundle.dir <= g && sandbox.value + [name] <= g :: host[g].HostDir?
  }

  function BundleSource(bundle: Bundle): Source {
    if bundle.HostDirectory? then FromHost(bundle.dir, false) else Plain
  }

  /** `BundleData::into_fs_node`; `None` when an entry of the archive panics. */
  method BundleNode(host: map<HostPath, HostEntry>, bundle: Bundle) returns (node: Option<FsNode>)
    requires HostTree(host) && (bundle.HostDirectory? ==> IsHostDir(host, bundle.dir))
    ensures node.None? <==> bundle.Zip? && Built(Stripped(bundle.entries, bundle.bundlePath)).None?
    ensures node.Some? ==> node.value.Directory? && ComesFrom(host, Mount([], node.value, BundleSource(bundle)))
  {
    match bundle
    case HostDirectory(dir) =>
      var read := FromHostDir(host, dir, false);
      return Some(read);
    case Zip(entries, bundlePath) =>
      node := IntoFsNode(entries, bundlePath);
      if node.Some? {
        BuiltIsInert(Stripped(entries, bundlePath));
      }
  }

  /** The application's own directories as mounts. */
  ghost predicate DirMounts(host: map<HostPath, HostEntry>, sandbox: HostPath, mounts: seq<Mount>) {
    && |mounts| <= |DIRECTORIES|
    && forall i | 0 <= i < |mounts| ::
         && mounts[i].path == [DIRECTORIES[i]] && mounts[i].source == FromHost(sandbox + [DIRECTORIES[i]], true)
         && ComesFrom(host, mounts[i])
  }

  lemma DirectoriesApart(host: map<HostPath, HostEntry>, sandbox: HostPath, mounts: seq<Mount>)
    requires DirMounts(host, sandbox, mounts)
    ensures AllApart(host, mounts) && AllStay(mounts)
  {
    hide ComesFrom;
    forall i, j | 0 <= i < j < |mounts|
      ensures SourcesApart(host, mounts[i].source, mounts[j].source) && mounts[i].path != mounts[j].path
    {
      assert mounts[i].path[0] != mounts[j].path[0];
      forall g <- host ensures !(sandbox + [DIRECTORIES[i]] <= g && sandbox + [DIRECTORIES[j]] <= g) {
        NothingInBoth(sandbox, DIRECTORIES[i], DIRECTORIES[j], g);
      }
    }
  }

  lemma InDirectory(dir: HostPath, name: string, g: HostPath)
    requires dir + [name] <= g
    ensures |dir| < |g| && g[|dir|] == name
  {
    assert (dir + [name])[|dir|] == name;
  }

  lemma NothingInBoth(dir: HostPath, name: string, other: string, g: HostPath)
    requires name != other
    ensures !(dir + [name] <= g && dir + [other] <= g)
  {
    if dir + [name] <= g {
      InDirectory(dir, name, g);
      if dir + [other] <= g {
        InDirectory(dir, other, g);
      }
    }
  }

  lemma HomePlaced(mounts: seq<Mount>)
    requires forall m <- mounts :: |m.path| == 1
    ensures EMPTY_DIR.Directory? && Inert(EMPTY_DIR) && Placed(EMPTY_DIR, mounts)
  {
    BuiltIsInert([]);
    forall m <- mounts ensures InfoAt(EMPTY_DIR, Parent(m.path)) == Some(DirInfo(None)) {
      NothingInEmpty(Parent(m.path));
    }
    hide InfoAt;
  }

  lemma DirectoriesMirror(host: map<HostPath, HostEntry>, sandbox: HostPath, mounts: seq<Mount>)
    requires HostTree(host) && DirMounts(host, sandbox, mounts)
    ensures Mirrors(Tree(MountAll(EMPTY_DIR, mounts), host))
  {
    HomePlaced(mounts);
    DirectoriesApart(host, sandbox, mounts);
    hide ComesFrom, HostTree, Mirrors, MountAll, Inert, Placed, AllApart, AllStay;
    MountedTreeMirrors(host, EMPTY_DIR, mounts);
  }

  /** The bundle and one of the directories. */
  ghost predicate BundleApartFrom(host: map<HostPath, HostEntry>, bundle: Bundle, sandbox: HostPath, name: string) {
    SourcesApart(host, BundleSource(bundle), FromHost(sandbox + [name], true))
  }

  lemma BundleApartFromAll(host: map<HostPath, HostEntry>, bundle: Bundle, sandbox: HostPath)
    ensures BundleApart(host, bundle, Some(sandbox)) <==> forall name <- DIRECTORIES :: BundleApartFrom(host, bundle, sandbox, name)
  {
    if forall name <- DIRECTORIES :: BundleApartFrom(host, bundle, sandbox, name) {
      forall name, g | bundle.HostDirectory? && name in DIRECTORIES && g in host && bundle.dir <= g && sandbox + [name] <= g
        ensures host[g].HostDir?
      {
        assert BundleApartFrom(host, bundle, sandbox, name);
      }
    }
  }

  /** With the bundle in front. */
  lemma FirstApart(
    host: map<HostPath, HostEntry>, bundle: Bundle, sandbox: HostPath, first: Mount, mounts: seq<Mount>)
    requires first.source == BundleSource(bundle) && |first.path| == 1 && first.path[0] !in DIRECTORIES
    requires DirMounts(host, sandbox, mounts) && |mounts| == |DIRECTORIES|
    ensures AllStay([first] + mounts) && (AllApart(host, [first] + mounts) <==> BundleApart(host, bundle, Some(sandbox)))
  {
    DirectoriesApart(host, sandbox, mounts);
    BundleApartFromAll(host, bundle, sandbox);
    forall j | 0 <= j < |mounts|
      ensures mounts[j].path != first.path
      ensures SourcesApart(host, first.source, mounts[j].source) <==> BundleApartFrom(host, bundle, sandbox, DIRECTORIES[j])
    {
      assert mounts[j].path[0] == DIRECTORIES[j] && DIRECTORIES[j] in DIRECTORIES;
    }
    assert (forall name <- DIRECTORIES :: BundleApartFrom(host, bundle, sandbox, name)) <==>
           (forall j | 0 <= j < |mounts| :: BundleApartFrom(host, bundle, sandbox, DIRECTORIES[j]));
    hide ComesFrom, SourcesApart, BundleApartFrom, BundleApart, AllApart, AllStay;
    OneMoreApart(host, first, mounts);
  }

  lemma OneMoreApart(host: map<HostPath, HostEntry>, first: Mount, mounts: seq<Mount>)
    requires AllApart(host, mounts) && AllStay(mounts) && forall j | 0 <= j < |mounts| :: mounts[j].path != first.path
    ensures AllStay([first] + mounts)
    ensures AllApart(host, [first] + mounts) <==>
            forall j | 0 <= j < |mounts| :: SourcesApart(host, first.source, mounts[j].source)
  {
    hide SourcesApart;
    var all := [first] + mounts;
    assert forall j | 1 <= j < |all| :: all[j] == mounts[j - 1];
    if AllApart(host, all) {
      forall j | 0 <= j < |mounts| ensures SourcesApart(host, first.source, mounts[j].source) {
        assert all[j + 1] == mounts[j] && SourcesApart(host, all[0].source, all[j + 1].source);
      }
    }
  }

  lemma BundleMirrors(
    host: map<HostPath, HostEntry>, bundle: Bundle, sandbox: Option<HostPath>, first: Mount, mounts: seq<Mount>)
    requires HostTree(host) && ComesFrom(host, first) && first.source == BundleSource(bundle) && |first.path| == 1
    requires if sandbox.None? then mounts == [] else DirMounts(host, sandbox.value, mounts) && |mounts| == |DIRECTORIES|
    requires sandbox.Some? ==> first.path[0] !in DIRECTORIES
    ensures Mirrors(Tree(MountAll(EMPTY_DIR, [first] + mounts), host)) <==> BundleApart(host, bundle, sandbox)
  {
    BundleFacts(host, bundle, sandbox, first, mounts);
    HomePlaced([first] + mounts);
    hide *;
    MountedTreeMirrors(host, EMPTY_DIR, [first] + mounts);
  }

  lemma BundleFacts(
    host: map<HostPath, HostEntry>, bundle: Bundle, sandbox: Option<HostPath>, first: Mount, mounts: seq<Mount>)
    requires ComesFrom(host, first) && first.source == BundleSource(bundle) && |first.path| == 1
    requires if sandbox.None? then mounts == [] else DirMounts(host, sandbox.value, mounts) && |mounts| == |DIRECTORIES|
    requires sandbox.Some? ==> first.path[0] !in DIRECTORIES
    ensures forall m <- [first] + mounts :: |m.path| == 1 && ComesFrom(host, m)
    ensures AllStay([first] + mounts) && (AllApart(host, [first] + mounts) <==> BundleApart(host, bundle, sandbox))
  {
    if sandbox.Some? {
      FirstApart(host, bundle, sandbox.value, first, mounts);
      hide ComesFrom, SourcesApart, BundleApart;
    }
  }

  lemma MountOneMore(root: FsNode, mounts: seq<Mount>, m: Mount)
    requires (forall n <- mounts :: n.path != []) && m.path != []
    ensures MountAll(root, mounts + [m]) == Put(MountAll(root, mounts), m.path, Some(m.node))
  {
    assert (mounts + [m])[..|mounts|] == mounts;
  }

  lemma PutChild(children: map<string, FsNode>, name: string, node: FsNode)
    ensures Put(Directory(children, None), [name], Some(node)) == Directory(children[name := node], None)
  {
  }

  /** The home directory after `n` directories, and without the bundle. */
  ghost predicate HomeSoFar(
    sandbox: HostPath, bundleDirName: string, children: map<string, FsNode>, own: map<string, FsNode>, n: nat)
  {
    && n <= |DIRECTORIES|
    && (forall j | 0 <= j < n ::
          && DIRECTORIES[j] in own && InfoOf(own[DIRECTORIES[j]]) == DirInfo(Some(sandbox + [DIRECTORIES[j]])))
    && children.Keys == own.Keys + {bundleDirName}
    && (forall name <- own :: children[name] == own[name])
    && children[bundleDirName].Directory?
  }

  lemma HomeAtFirst(sandbox: HostPath, bundleDirName: string, children: map<string, FsNode>, own: map<string, FsNode>)
    requires own == map[] && children.Keys == {bundleDirName} && children[bundleDirName].Directory?
    ensures HomeSoFar(sandbox, bundleDirName, children, own, 0)
  {
  }

  lemma HomeOneMore(
    sandbox: HostPath, bundleDirName: string, children: map<string, FsNode>, own: map<string, FsNode>, n: nat, node: FsNode)
    requires n < |DIRECTORIES| && HomeSoFar(sandbox, bundleDirName, children, own, n)
    requires InfoOf(node) == DirInfo(Some(sandbox + [DIRECTORIES[n]]))
    ensures
      HomeSoFar(sandbox, bundleDirName, children[DIRECTORIES[n] := node], own[DIRECTORIES[n] := node], n + 1)
  {
  }

  lemma HomeDone(sandbox: HostPath, bundleDirName: string, children: map<string, FsNode>, own: map<string, FsNode>)
    requires HomeSoFar(sandbox, bundleDirName, children, own, |DIRECTORIES|)
    ensures bundleDirName in DIRECTORIES ==> children == own
    ensures bundleDirName in children && children[bundleDirName].Directory?
    ensures forall name <- DIRECTORIES :: name in children && InfoOf(children[name]) == DirInfo(Some(sandbox + [name]))
  {
    if bundleDirName in DIRECTORIES {
      var j :| 0 <= j < |DIRECTORIES| && DIRECTORIES[j] == bundleDirName;
      assert children.Keys == own.Keys;
    }
  }

  lemma StartsEmpty(first: Mount)
    requires |first.path| == 1
    ensures MountAll(EMPTY_DIR, []) == EMPTY_DIR
    ensures MountAll(EMPTY_DIR, [first] + []) == Directory(map[first.path[0] := first.node], None)
  {
    assert [first] + [] == [] + [first];
    MountOneMore(EMPTY_DIR, [], first);
    PutChild(map[], first.path[0], first.node);
  }

  lemma Reassociate(first: Mount, mounts: seq<Mount>, m: Mount)
    ensures [first] + (mounts + [m]) == [first] + mounts + [m]
  {
  }

  lemma DirMountsGrow(host: map<HostPath, HostEntry>, sandbox: HostPath, mounts: seq<Mount>, m: Mount)
    requires DirMounts(host, sandbox, mounts) && |mounts| < |DIRECTORIES| && ComesFrom(host, m)
    requires m.path == [DIRECTORIES[|mounts|]] && m.source == FromHost(sandbox + [DIRECTORIES[|mounts|]], true)
    ensures DirMounts(host, sandbox, mounts + [m])
    ensures forall n <- mounts :: n.path != []
  {
    hide ComesFrom;
  }

  lemma HomeStep(
    host: map<HostPath, HostEntry>, sandbox: HostPath, first: Mount, mounts: seq<Mount>, children: map<string, FsNode>,
    own: map<string, FsNode>, m: Mount)
    requires first.path != [] && DirMounts(host, sandbox, mounts) && |mounts| < |DIRECTORIES| && ComesFrom(host, m)
    requires m.path == [DIRECTORIES[|mounts|]] && m.source == FromHost(sandbox + [DIRECTORIES[|mounts|]], true)
    requires Directory(children, None) == MountAll(EMPTY_DIR, [first] + mounts)
    requires Directory(own, None) == MountAll(EMPTY_DIR, mounts)
    ensures DirMounts(host, sandbox, mounts + [m])
    ensures Directory(children[m.path[0] := m.node], None) == MountAll(EMPTY_DIR, [first] + (mounts + [m]))
    ensures Directory(own[m.path[0] := m.node], None) == MountAll(EMPTY_DIR, mounts + [m])
  {
    DirMountsGrow(host, sandbox, mounts, m);
    Reassociate(first, mounts, m);
    hide *;
    MountOneMore(EMPTY_DIR, [first] + mounts, m);
    MountOneMore(EMPTY_DIR, mounts, m);
    PutChild(children, m.path[0], m.node);
    PutChild(own, m.path[0], m.node);
  }

  /** The home directory: the bundle, and the directories the application can write to. */
  method NewHome(
    host: map<HostPath, HostEntry>, bundle: Bundle, bundleNode: FsNode, bundleDirName: string, sandbox: Option<HostPath>)
    returns (home: FsNode)
    requires HostTree(host) && ComesFrom(host, Mount([], bundleNode, BundleSource(bundle))) && bundleNode.Directory?
    requires sandbox.Some? ==> forall name <- DIRECTORIES :: IsHostDir(host, sandbox.value + [name])
    ensures Mirrors(Tree(home, host)) <==>
            (sandbox.Some? && bundleDirName in DIRECTORIES) || BundleApart(host, bundle, sandbox)
    ensures home.Directory? && bundleDirName in home.children && home.children[bundleDirName].Directory?
    ensures home.writeableDir.None?
    ensures sandbox.Some? ==>
      forall name <- DIRECTORIES ::
        name in home.children && InfoOf(home.children[name]) == DirInfo(Some(sandbox.value + [name]))
  {
    hide Mirrors, HostTree, IsHostEntry, InfoAt, Lookup, Put, BundleApart, MountAll, SourcesApart;
    hide HomeSoFar;
    StartsEmpty(Mount([bundleDirName], bundleNode, BundleSource(bundle)));
    var children: map<string, FsNode> := map[bundleDirName := bundleNode];
    ghost var first := Mount([bundleDirName], bundleNode, BundleSource(bundle));
    ghost var mounts: seq<Mount> := [];
    ghost var own: map<string, FsNode> := map[];
    assert ComesFrom(host, first);
    if sandbox.Some? {
      HomeAtFirst(sandbox.value, bundleDirName, children, own);
      for i := 0 to |DIRECTORIES|
        invariant |mounts| == i && DirMounts(host, sandbox.value, mounts)
        invariant Directory(children, None) == MountAll(EMPTY_DIR, [first] + mounts)
        invariant Directory(own, None) == MountAll(EMPTY_DIR, mounts)
        invariant HomeSoFar(sandbox.value, bundleDirName, children, own, i)
      {
        var name := DIRECTORIES[i];
        var node := FromHostDir(host, sandbox.value + [name], true);
        HostRootInfo(host, sandbox.value + [name], node);
        ghost var m := Mount([name], node, FromHost(sandbox.value + [name], true));
        assert ComesFrom(host, m);
        HomeStep(host, sandbox.value, first, mounts, children, own, m);
        HomeOneMore(sandbox.value, bundleDirName, children, own, i, node);
        children := children[name := node];
        own := own[name := node];
        mounts := mounts + [m];
      }
      HomeDone(sandbox.value, bundleDirName, children, own);
      if bundleDirName in DIRECTORIES {
        DirectoriesMirror(host, sandbox.value, mounts);
      }
    }
    if sandbox.None? || bundleDirName !in DIRECTORIES {
      BundleMirrors(host, bundle, sandbox, first, mounts);
    }
    return Directory(children, None);
  }

  lemma HostRootInfo(host: map<HostPath, HostEntry>, h: HostPath, node: FsNode)
    requires IsHostDir(host, h) && IsHostEntry(host, h, true, node)
    ensures InfoOf(node) == DirInfo(Some(h))
  {
    assert h + [] == h && InfoAt(node, []) == HostInfo(host, h + [], true);
  }

  /**
   `Fs::new`: the bundle and the application's directories under their well-known path, which have
   been created on the host before if the application is going to run. The result mirrors the host
   exactly when no host file lies both in the bundle's directory and in one of those, or one of them
   has taken the bundle's name.
   */
  method NewRoot(host: map<HostPath, HostEntry>, bundle: Bundle, bundleDirName: string, sandbox: Option<HostPath>)
    returns (root: Option<FsNode>)
    requires HostTree(host) && (bundle.HostDirectory? ==> IsHostDir(host, bundle.dir))
    requires sandbox.Some? ==> forall name <- DIRECTORIES :: IsHostDir(host, sandbox.value + [name])
    ensures root.None? <==> bundle.Zip? && Built(Stripped(bundle.entries, bundle.bundlePath)).None?
    ensures root.Some? ==>
      (Mirrors(Tree(root.value, host)) <==>
       (sandbox.Some? && bundleDirName in DIRECTORIES) || BundleApart(host, bundle, sandbox))
    ensures root.Some? ==> IsDirAt(root.value, HomeDirectory() + [bundleDirName])
    ensures root.Some? && sandbox.Some? ==>
      forall name <- DIRECTORIES ::
        InfoAt(root.value, HomeDirectory() + [name]) == Some(DirInfo(Some(sandbox.value + [name])))
  {
    hide ComesFrom, Mirrors, HostTree;
    var bundleNode := BundleNode(host, bundle);
    if bundleNode.None? {
      return None;
    }
    var home := NewHome(host, bundle, bundleNode.value, bundleDirName, sandbox);
    var variable := Dir1("mobile", Dir1("Applications", Dir1(FAKE_UUID, home)));
    root := Some(Directory(map["var" := variable, "usr" := Dir1("lib", USR_LIB)], None));
    forall q ensures InfoAt(root.value, HomeDirectory() + q) == InfoAt(home, q) {
      InHome(root.value, home, q);
    }
    if Mirrors(Tree(root.value, host)) {
      SubtreeMirrors(Tree(root.value, host), HomeDirectory(), home);
    }
    if Mirrors(Tree(home, host)) {
      Dir1Mirrors(host, FAKE_UUID, home);
      Dir1Mirrors(host, "Applications", Dir1(FAKE_UUID, home));
      Dir1Mirrors(host, "mobile", Dir1("Applications", Dir1(FAKE_UUID, home)));
      Dir1Mirrors(host, "var", variable);
      WithUsrMirrors(host, variable);
    }
    forall name: string | name in home.children
      ensures InfoAt(root.value, HomeDirectory() + [name]) == Some(InfoOf(home.children[name]))
    {
      ThroughChild(home, [name]);
      assert InfoAt(root.value, HomeDirectory() + [name]) == InfoAt(home, [name]);
    }
  }

  lemma InHome(root: FsNode, home: FsNode, q: Path)
    requires root.Directory? && "var" in root.children
    requires root.children["var"] == Dir1("mobile", Dir1("Applications", Dir1(FAKE_UUID, home)))
    ensures InfoAt(root, HomeDirectory() + q) == InfoAt(home, q)
  {
    var path := HomeDirectory() + q;
    assert path[1..] == ["mobile"] + (["Applications"] + ([FAKE_UUID] + q));
    ThroughChild(root, path);
    Dir1Info("mobile", Dir1("Applications", Dir1(FAKE_UUID, home)), ["Applications"] + ([FAKE_UUID] + q));
    Dir1Info("Applications", Dir1(FAKE_UUID, home), [FAKE_UUID] + q);
    Dir1Info(FAKE_UUID, home, q);
  }
}
