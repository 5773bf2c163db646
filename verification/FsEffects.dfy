/**
 What each file operation does, told by what lies at a path and on the host: when it succeeds,
 which error it gives otherwise, and both trees afterwards.
 */
module FsEffects {
  import opened Wrappers
  import opened FsTree
  import opened FsMirror

  /** What the directory that would hold `path` is; the root lies in none. */
  ghost function ParentInfo(t: Tree, path: Path): Option<Info> {
    if path == [] then None else InfoAt(t.root, Parent(path))
  }

  ghost predicate FileAt(t: Tree, path: Path, location: FileLocation, writeable: bool) {
    InfoAt(t.root, path) == Some(FileInfo(location, writeable))
  }

  ghost predicate SomeFileAt(t: Tree, path: Path, writeable: bool) {
    exists location :: FileAt(t, path, location, writeable)
  }

  /** Nothing is at `path`, and the directory around it is writable, so that `h` is its place on the host. */
  ghost predicate NewPlace(t: Tree, path: Path, h: HostPath) {
    && path != [] && InfoAt(t.root, path).None?
    && h != [] && Last(h) == Last(path) && ParentInfo(t, path) == Some(DirInfo(Some(Parent(h))))
  }

  ghost predicate HasNewPlace(t: Tree, path: Path) {
    exists h :: NewPlace(t, path, h)
  }

  ghost predicate IsFileInfo(info: Option<Info>) {
    info.Some? && info.value.FileInfo?
  }

  ghost predicate IsDirInfo(info: Option<Info>) {
    info.Some? && info.value.DirInfo?
  }

  /** Nothing is at `path`, in a directory that exists. */
  ghost predicate Missing(t: Tree, path: Path) {
    InfoAt(t.root, path).None? && IsDirInfo(ParentInfo(t, path))
  }

  ghost predicate MissingReadOnly(t: Tree, path: Path) {
    InfoAt(t.root, path).None? && ParentInfo(t, path) == Some(DirInfo(None))
  }

  /** What the emulator asserts of the options. */
  ghost predicate Consistent(o: OpenOptions) {
    o.truncate || o.create ==> o.write || o.append
  }

  ghost predicate Acceptable(o: OpenOptions) {
    (o.read || o.write || o.append) && !(o.append && o.truncate)
  }

  lemma NewPlaceOf(t: Tree, path: Path, dir: HostPath)
    requires path != [] && InfoAt(t.root, path).None? && InfoAt(t.root, Parent(path)) == Some(DirInfo(Some(dir)))
    ensures forall h :: NewPlace(t, path, h) <==> h == dir + [Last(path)]
  {
    hide InfoAt;
    ParentOfChild(dir, Last(path));
    forall h | NewPlace(t, path, h) ensures h == dir + [Last(path)] {
      assert h == Parent(h) + [Last(h)];
    }
  }

  /** Whatever exists has its parent, unless it is the root. */
  lemma ParentExists(t: Tree, path: Path)
    requires Mirrors(t)
    ensures InfoAt(t.root, path).Some? ==> if path == [] then IsDirInfo(InfoAt(t.root, path)) else IsDirInfo(ParentInfo(t, path))
    ensures SomeFileAt(t, path, true) ==> IsFileInfo(InfoAt(t.root, path)) && InfoAt(t.root, path).value.location.HostLocation?
  {
    if path != [] && InfoAt(t.root, path).Some? {
      ParentIsDir(t.root, path);
    }
    if SomeFileAt(t, path, true) {
      WritableFile(t, path);
    }
  }

  // ---------------------------------------------------------------- opening

  /** The answer for a path at which nothing is, and for the root. */
  lemma OpenMissing(t: Tree, path: Path, o: OpenOptions)
    requires Mirrors(t) && Consistent(o) && (path == [] || InfoAt(t.root, path).None?)
    ensures
      var r := Open(t, path, o).0;
      match ParentInfo(t, path)
      case None => r == Err(DoesNotExist)
      case Some(FileInfo(_, _)) => r == Err(NonexistentParentDir)
      case Some(DirInfo(dir)) =>
        if !o.create then r == Err(DoesNotExist)
        else if dir.None? then r == Err(AccessDenied)
        else r == if Acceptable(o) then Ok(OpenHostFile(dir.value + [Last(path)])) else Panicked(HostRefused)
  {
    if path != [] && IsDirAt(t.root, Parent(path)) {
      ChildOf(t, path);
      var dir := Lookup(t.root, Parent(path)).value.writeableDir;
      if dir.Some? { ParentOfChild(dir.value, Last(path)); }
      hide Mirrors;
    }
  }

  /** The answer for a path at which there is something. */
  lemma OpenPresent(t: Tree, path: Path, o: OpenOptions)
    requires Mirrors(t) && Consistent(o) && path != [] && InfoAt(t.root, path).Some?
    ensures
      var r := Open(t, path, o).0;
      if o.create && o.exclusive then r == Err(AlreadyExist)
      else match InfoAt(t.root, path).value
        case DirInfo(_) => r == if o.write then Err(IsDirectory) else Ok(OpenDirectory)
        case FileInfo(location, writeable) =>
          if !writeable && (o.write || o.append) then r == Err(AccessDenied)
          else match location
            case HostLocation(h) => r == if Acceptable(o) then Ok(OpenHostFile(h)) else Panicked(HostRefused)
            case IpaFileRef(index) => !writeable && r == Ok(OpenIpaFile(index))
            case ResourceFilePath(name) => !writeable && r == Ok(OpenResource(name))
  {
    ParentIsDir(t.root, path);
    ChildOf(t, path);
    assert NodeSound(t, path);
    if InfoAt(t.root, path).value.FileInfo? && InfoAt(t.root, path).value.writeable { WritableFile(t, path); }
    hide Mirrors, DirMirrored;
  }

  /** Which error opening gives, or how it stops. */
  lemma OpenFails(t: Tree, path: Path, o: OpenOptions)
    requires Mirrors(t)
    ensures
      var r := Open(t, path, o).0;
      && (r == Panicked(AssertionFailed) <==> !Consistent(o))
      && (Consistent(o) ==>
        && (r == Err(DoesNotExist) <==> ParentInfo(t, path).None? || (Missing(t, path) && !o.create))
        && (r == Err(NonexistentParentDir) <==> IsFileInfo(ParentInfo(t, path)))
        && (r == Err(AlreadyExist) <==> path != [] && InfoAt(t.root, path).Some? && o.create && o.exclusive)
        && (r == Err(IsDirectory) <==>
              path != [] && IsDirInfo(InfoAt(t.root, path)) && o.write && !(o.create && o.exclusive))
        && (r == Err(AccessDenied) <==>
              || (MissingReadOnly(t, path) && o.create)
              || (SomeFileAt(t, path, false) && (o.write || o.append) && !(o.create && o.exclusive))))
  {
    ParentExists(t, path);
    if Consistent(o) {
      hide Open, Mirrors;
      if path == [] || InfoAt(t.root, path).None? {
        OpenMissing(t, path, o);
      } else {
        OpenPresent(t, path, o);
        if IsFileInfo(InfoAt(t.root, path)) { FileIsThere(t, path); }
      }
      hide InfoAt, ParentInfo;
    }
  }

  lemma FileIsThere(t: Tree, path: Path)
    requires IsFileInfo(InfoAt(t.root, path))
    ensures SomeFileAt(t, path, InfoAt(t.root, path).value.writeable)
  {
    var info := InfoAt(t.root, path).value;
    assert FileAt(t, path, info.location, info.writeable);
  }

  /** What is opened, when the call succeeds. */
  lemma OpenGives(t: Tree, path: Path, o: OpenOptions)
    requires Mirrors(t) && Consistent(o)
    ensures
      var r := Open(t, path, o).0;
      && (r == Ok(OpenDirectory) <==>
            path != [] && IsDirInfo(InfoAt(t.root, path)) && !o.write && !(o.create && o.exclusive))
      && (forall i :: r == Ok(OpenIpaFile(i)) <==> FileAt(t, path, IpaFileRef(i), false) && !o.write && !o.append)
      && (forall name :: r == Ok(OpenResource(name)) <==> FileAt(t, path, ResourceFilePath(name), false) && !o.write && !o.append)
      && (forall h :: r == Ok(OpenHostFile(h)) <==>
            && Acceptable(o)
            && if o.create && NewPlace(t, path, h) then true
               else
                 || (FileAt(t, path, HostLocation(h), true) && !(o.create && o.exclusive))
                 || (FileAt(t, path, HostLocation(h), false) && !o.write && !o.append))
  {
    ParentExists(t, path);
    hide Open, Mirrors;
    if path == [] || InfoAt(t.root, path).None? {
      OpenMissing(t, path, o);
      var parent := ParentInfo(t, path);
      if parent.Some? && parent.value.DirInfo? && parent.value.writeableDir.Some? {
        NewPlaceOf(t, path, parent.value.writeableDir.value);
      }
    } else {
      OpenPresent(t, path, o);
    }
    hide InfoAt;
  }

  /**
   Opening what exists changes nothing but the contents of a host file opened to be truncated. A
   failure changes nothing.
   */
  lemma OpenLeaves(t: Tree, path: Path, o: OpenOptions)
    requires Mirrors(t)
    ensures
      var (r, t') := Open(t, path, o);
      && (!r.Ok? ==> t' == t)
      && (r.Ok? && InfoAt(t.root, path).Some? ==>
        && t'.root == t.root
        && t'.host == if o.truncate && r.value.OpenHostFile? then t.host[r.value.host := HostFile([])] else t.host)
  {
    if path != [] && IsDirAt(t.root, Parent(path)) {
      ChildOf(t, path);
      if InfoAt(t.root, path).Some? { assert NodeSound(t, path); }
      hide NodeSound, Mirrors, Put;
    }
  }

  /** Opening what does not exist makes one empty file, in its place in both trees. */
  lemma OpenCreates(t: Tree, path: Path, o: OpenOptions)
    requires Mirrors(t) && InfoAt(t.root, path).None? && Open(t, path, o).0.Ok?
    ensures
      var (r, t') := Open(t, path, o);
      && r.value.OpenHostFile? && r.value.host !in t.host
      && ChangedAt(t, t', path, Some(FileInfo(HostLocation(r.value.host), true)))
      && t'.host == t.host[r.value.host := HostFile([])]
  {
    ChildOf(t, path);
    var dir := Lookup(t.root, Parent(path)).value.writeableDir.value;
    LeafCreated(t, path, dir, File(HostLocation(dir + [Last(path)]), true), HostFile([]));
    hide NodeSound, Mirrors, Lookup, Put;
  }

  // ---------------------------------------------------------------- writing

  /** After a write that succeeds the file holds the data. */
  lemma WriteStores(t: Tree, path: Path, data: seq<int>)
    requires Mirrors(t)
    ensures
      var (r, t') := Write(t, path, data);
      && (r.Ok? <==> SomeFileAt(t, path, true) || HasNewPlace(t, path))
      && (!r.Ok? ==> t' == t)
      && (r.Ok? ==>
        var info := InfoAt(t'.root, path);
        && IsFileInfo(info) && info.value.writeable && info.value.location.HostLocation?
        && t'.host == t.host[info.value.location.host := HostFile(data)]
        && ChangedAt(t, t', path, info)
        && if InfoAt(t.root, path).Some? then info == InfoAt(t.root, path)
           else NewPlace(t, path, info.value.location.host) && info.value.location.host !in t.host)
  {
    hide Mirrors, Open;
    OpenGives(t, path, WRITE_CREATE_TRUNCATE);
    OpenLeaves(t, path, WRITE_CREATE_TRUNCATE);
    if InfoAt(t.root, path).None? && Open(t, path, WRITE_CREATE_TRUNCATE).0.Ok? {
      OpenCreates(t, path, WRITE_CREATE_TRUNCATE);
    }
    ParentExists(t, path);
    hide InfoAt, NewPlace;
    var r := Open(t, path, WRITE_CREATE_TRUNCATE).0;
    assert r.Ok? ==> r.value.OpenHostFile?;
    if HasNewPlace(t, path) {
      var h :| NewPlace(t, path, h);
      assert r == Ok(OpenHostFile(h));
    }
  }

  /** Which error a write gives. */
  lemma WriteFails(t: Tree, path: Path, data: seq<int>)
    requires Mirrors(t)
    ensures
      var r := Write(t, path, data).0;
      && (r == Err(DoesNotExist) <==> ParentInfo(t, path).None?)
      && (r == Err(NonexistentParentDir) <==> IsFileInfo(ParentInfo(t, path)))
      && (r == Err(IsDirectory) <==> path != [] && IsDirInfo(InfoAt(t.root, path)))
      && (r == Err(AccessDenied) <==> MissingReadOnly(t, path) || SomeFileAt(t, path, false))
  {
    hide Mirrors, Open, InfoAt;
    OpenFails(t, path, WRITE_CREATE_TRUNCATE);
  }

  // ---------------------------------------------------------------- directories

  /** Creating a directory: when it succeeds, the errors, and the one new entry in both trees. */
  lemma CreateDirMakes(t: Tree, path: Path)
    requires Mirrors(t)
    ensures
      var (r, t') := CreateDir(t, path);
      && (r == Ok(()) <==> HasNewPlace(t, path))
      && (r == Err(NonexistentParentDir) <==> ParentInfo(t, path).None?)
      && (r == Err(InvalidParentDir) <==> IsFileInfo(ParentInfo(t, path)))
      && (r == Err(AlreadyExist) <==> path != [] && InfoAt(t.root, path).Some?)
      && (r == Err(ReadonlyParentDir) <==> MissingReadOnly(t, path))
      && (!r.Ok? ==> t' == t)
      && forall h :: NewPlace(t, path, h) ==>
           h !in t.host && t'.host == t.host[h := HostDir] && ChangedAt(t, t', path, Some(DirInfo(Some(h))))
  {
    CreateDirKeepsMirror(t, path);
    ParentExists(t, path);
    if path != [] && IsDirAt(t.root, Parent(path)) {
      ChildOf(t, path);
      var parent := Lookup(t.root, Parent(path)).value;
      if Last(path) !in parent.children && parent.writeableDir.Some? {
        var dir := parent.writeableDir.value;
        LeafCreated(t, path, dir, Directory(map[], Some(dir + [Last(path)])), HostDir);
        NewPlaceOf(t, path, dir);
        hide NodeSound, Mirrors, Lookup, Put;
        assert NewPlace(t, path, dir + [Last(path)]);
      }
    }
  }

  /** The host with the directories `names`, one inside the other, added below `h`. */
  ghost function WithDirs(host: map<HostPath, HostEntry>, h: HostPath, names: Path): map<HostPath, HostEntry>
    decreases |names|
  {
    if names == [] then host else WithDirs(host[h + [names[0]] := HostDir], h + [names[0]], names[1..])
  }

  /** `path` leads through existing nodes for exactly its first `n` components. */
  ghost predicate ExistsUpTo(t: Tree, path: Path, n: nat) {
    && n <= |path|
    && InfoAt(t.root, path[..n]).Some?
    && (n < |path| ==> InfoAt(t.root, path[..n + 1]).None?)
  }

  /** The components from `n` on are new directories, each the writable one of its place below `h`. */
  ghost predicate MadeFrom(t: Tree, t': Tree, path: Path, n: nat, h: HostPath)
    requires n <= |path|
  {
    forall q :: InfoAt(t'.root, q) ==
      if n < |q| && q <= path then Some(DirInfo(Some(h + q[n..]))) else InfoAt(t.root, q)
  }

  lemma {:induction false} PrefixesExist(t: Tree, path: Path, n: nat, k: nat)
    requires k <= n <= |path| && InfoAt(t.root, path[..n]).Some?
    ensures InfoAt(t.root, path[..k]).Some?
    decreases n - k
  {
    if k < n {
      ParentIsDir(t.root, path[..n]);
      assert Parent(path[..n]) == path[..n - 1];
      PrefixesExist(t, path, n - 1, k);
    }
  }

  lemma {:induction false} SkipsExisting(t: Tree, path: Path, done: nat, n: nat)
    requires Mirrors(t) && done <= n <= |path| && InfoAt(t.root, path[..n]).Some?
    ensures CreateDirAll(t, path, done) == CreateDirAll(t, path, n)
    decreases n - done
  {
    if done < n {
      PrefixesExist(t, path, n, done + 1);
      CreateDirMakes(t, path[..done + 1]);
      hide Mirrors, InfoAt, CreateDir;
      SkipsExisting(t, path, done + 1, n);
    }
  }

  lemma PrefixParts(path: Path, n: nat)
    requires n < |path|
    ensures path[..n + 1] != [] && Parent(path[..n + 1]) == path[..n] && Last(path[..n + 1]) == path[n]
    ensures n + 1 < |path| ==> path[..n + 2] != path[..n + 1]
  {
  }

  /** The first missing component is made. */
  lemma MakesOne(t: Tree, path: Path, n: nat, h: HostPath)
    requires Mirrors(t) && n < |path| && ExistsUpTo(t, path, n) && InfoAt(t.root, path[..n]) == Some(DirInfo(Some(h)))
    ensures
      var (r, t') := CreateDir(t, path[..n + 1]);
      && r == Ok(()) && Mirrors(t')
      && t'.host == t.host[h + [path[n]] := HostDir]
      && ChangedAt(t, t', path[..n + 1], Some(DirInfo(Some(h + [path[n]]))))
  {
    var prefix := path[..n + 1];
    PrefixParts(path, n);
    CreateDirKeepsMirror(t, prefix);
    CreateDirMakes(t, prefix);
    hide Mirrors, InfoAt, CreateDir, ChangedAt, MissingReadOnly;
    NewPlaceOf(t, prefix, h);
    assert NewPlace(t, prefix, h + [path[n]]);
    hide *;
  }

  /** The rest is still missing. */
  lemma MakesNext(t: Tree, path: Path, n: nat, h: HostPath)
    requires Mirrors(t) && n < |path| && ExistsUpTo(t, path, n) && InfoAt(t.root, path[..n]) == Some(DirInfo(Some(h)))
    ensures
      var (r, t') := CreateDir(t, path[..n + 1]);
      && r == Ok(()) && Mirrors(t') && ExistsUpTo(t', path, n + 1)
      && t'.host == t.host[h + [path[n]] := HostDir]
      && ChangedAt(t, t', path[..n + 1], Some(DirInfo(Some(h + [path[n]]))))
  {
    PrefixParts(path, n);
    MakesOne(t, path, n, h);
    if n + 1 < |path| && InfoAt(t.root, path[..n + 2]).Some? {
      PrefixesExist(t, path, n + 2, n + 1);
    }
    hide Mirrors, InfoAt, CreateDir;
  }

  lemma {:induction false} MakesRest(t: Tree, path: Path, n: nat, h: HostPath)
    requires Mirrors(t) && ExistsUpTo(t, path, n) && InfoAt(t.root, path[..n]) == Some(DirInfo(Some(h)))
    ensures
      var (r, t') := CreateDirAll(t, path, n);
      r == Ok(()) && MadeFrom(t, t', path, n, h) && t'.host == WithDirs(t.host, h, path[n..])
    decreases |path| - n
  {
    if n < |path| {
      MakesNext(t, path, n, h);
      var t1 := CreateDir(t, path[..n + 1]).1;
      hide Mirrors, CreateDir, InfoAt;
      MakesRest(t1, path, n + 1, h + [path[n]]);
      MadeOneMore(t, t1, CreateDirAll(t1, path, n + 1).1, path, n, h);
      assert path[n..][1..] == path[n + 1..] && path[n..][0] == path[n];
    } else {
      assert path[n..] == [];
    }
  }

  lemma PrefixFrom(path: Path, q: Path, n: nat, h: HostPath)
    requires n < |path|
    ensures q == path[..n + 1] <==> |q| == n + 1 && q <= path
    ensures n < |q| && q <= path ==> h + q[n..] == h + [path[n]] + q[n + 1..]
    ensures |q| == n + 1 && q <= path ==> h + q[n..] == h + [path[n]]
  {
    if n < |q| && q <= path {
      assert q[n..] == [path[n]] + q[n + 1..];
    }
  }

  lemma MadeOneMore(t: Tree, t1: Tree, t': Tree, path: Path, n: nat, h: HostPath)
    requires n < |path| && ChangedAt(t, t1, path[..n + 1], Some(DirInfo(Some(h + [path[n]]))))
    requires MadeFrom(t1, t', path, n + 1, h + [path[n]])
    ensures MadeFrom(t, t', path, n, h)
  {
    hide InfoAt;
    forall q ensures InfoAt(t'.root, q) ==
      if n < |q| && q <= path then Some(DirInfo(Some(h + q[n..]))) else InfoAt(t.root, q)
    {
      PrefixFrom(path, q, n, h);
    }
  }

  /**
   `create_dir_all` goes by the last component that exists: below a writable directory it makes all
   the rest, in both trees; below a file or a read-only directory it fails; and with nothing left
   to make it does nothing.
   */
  lemma CreateDirAllMakes(t: Tree, path: Path, n: nat)
    requires Mirrors(t) && ExistsUpTo(t, path, n)
    ensures
      var (r, t') := CreateDirAll(t, path, 0);
      if n == |path| then r == Ok(()) && t' == t
      else match InfoAt(t.root, path[..n]).value
        case FileInfo(_, _) => r == Err(InvalidParentDir) && t' == t
        case DirInfo(None) => r == Err(ReadonlyParentDir) && t' == t
        case DirInfo(Some(h)) =>
          r == Ok(()) && MadeFrom(t, t', path, n, h) && t'.host == WithDirs(t.host, h, path[n..])
  {
    SkipsExisting(t, path, 0, n);
    if n < |path| {
      CreateDirMakes(t, path[..n + 1]);
      assert Parent(path[..n + 1]) == path[..n];
      hide Mirrors, InfoAt, CreateDir;
      if InfoAt(t.root, path[..n]).value.DirInfo? && InfoAt(t.root, path[..n]).value.writeableDir.Some? {
        MakesRest(t, path, n, InfoAt(t.root, path[..n]).value.writeableDir.value);
      }
    }
  }

  // ---------------------------------------------------------------- removing

  ghost predicate HasChild(t: Tree, path: Path) {
    exists name: string :: InfoAt(t.root, path + [name]).Some?
  }

  lemma HasChildExactly(t: Tree, path: Path)
    ensures HasChild(t, path) <==> IsDirAt(t.root, path) && Lookup(t.root, path).value.children != map[]
  {
    if IsDirAt(t.root, path) {
      var children := Lookup(t.root, path).value.children;
      if children != map[] {
        var name :| name in children;
        DirectChild(t.root, path, name);
        assert InfoAt(t.root, path + [name]).Some?;
      }
      if HasChild(t, path) {
        var name: string :| InfoAt(t.root, path + [name]).Some?;
        DirectChild(t.root, path, name);
      }
    } else if HasChild(t, path) {
      var name: string :| InfoAt(t.root, path + [name]).Some?;
      ParentOfChild(path, name);
      ParentIsDir(t.root, path + [name]);
    }
  }

  ghost predicate InWritableDir(t: Tree, path: Path) {
    IsDirInfo(ParentInfo(t, path)) && ParentInfo(t, path) != Some(DirInfo(None))
  }

  /** Which error removing gives; it is never refused what the directory allows. */
  lemma RemoveFails(t: Tree, path: Path)
    requires Mirrors(t)
    ensures
      var r := Remove(t, path).0;
      && (r == Err(NonexistentParentDir) <==> ParentInfo(t, path).None?)
      && (r == Err(InvalidParentDir) <==> IsFileInfo(ParentInfo(t, path)))
      && (r == Err(ReadonlyParentDir) <==> ParentInfo(t, path) == Some(DirInfo(None)))
      && (r == Err(DoesNotExist) <==> InWritableDir(t, path) && InfoAt(t.root, path).None?)
      && (r == Err(DirectoryNotEmpty) <==> InWritableDir(t, path) && HasChild(t, path))
      && (r == Ok(()) <==> InWritableDir(t, path) && InfoAt(t.root, path).Some? && !HasChild(t, path))
  {
    RemoveKeepsMirror(t, path);
    HasChildExactly(t, path);
    if path != [] && IsDirAt(t.root, Parent(path)) {
      ChildOf(t, path);
      hide Mirrors, HasChild;
    } else {
      ParentExists(t, path);
    }
  }

  /** Removing takes one entry out of both trees. */
  lemma RemoveTakes(t: Tree, path: Path)
    requires Mirrors(t)
    ensures
      var (r, t') := Remove(t, path);
      if !r.Ok? then t' == t
      else
        && InfoAt(t.root, path).Some? && HostOf(InfoAt(t.root, path).value).Some?
        && t'.host == t.host - {HostOf(InfoAt(t.root, path).value).value}
        && ChangedAt(t, t', path, None)
  {
    if path != [] && IsDirAt(t.root, Parent(path)) {
      ChildOf(t, path);
      var parent := Lookup(t.root, Parent(path)).value;
      hide Mirrors;
      if Last(path) in parent.children && IsLeaf(parent.children[Last(path)]) {
        forall q ensures InfoAt(Put(t.root, path, None), q) == if q == path then None else InfoAt(t.root, q) {
          LeafPut(t.root, path, None, q);
        }
        hide Lookup, Put;
      }
    }
  }

  // ---------------------------------------------------------------- renaming

  ghost predicate WritableAt(t: Tree, path: Path, h: HostPath) {
    FileAt(t, path, HostLocation(h), true)
  }

  lemma WritableHas(t: Tree, path: Path)
    requires Mirrors(t)
    ensures SomeFileAt(t, path, true) <==> exists h :: WritableAt(t, path, h)
    ensures forall h | WritableAt(t, path, h) :: path != [] && h in t.host && t.host[h].HostFile?
  {
    ParentExists(t, path);
    if InfoAt(t.root, path).Some? { assert NodeSound(t, path); }
    hide InfoAt, NodeSound;
    if SomeFileAt(t, path, true) {
      assert WritableAt(t, path, InfoAt(t.root, path).value.location.host);
    }
    forall h | WritableAt(t, path, h) ensures SomeFileAt(t, path, true) {
      assert FileAt(t, path, HostLocation(h), true);
    }
  }

  /** A target that is missing is made first, where a directory allows it. */
  lemma TargetMade(t: Tree, to: Path)
    requires Mirrors(t) && InfoAt(t.root, to).None?
    ensures
      var (attempt, t') := Open(t, to, WRITE_CREATE_TRUNCATE);
      && (attempt.Ok? <==> HasNewPlace(t, to))
      && Mirrors(t')
      && if !attempt.Ok? then t' == t
         else
           && attempt.value.OpenHostFile? && NewPlace(t, to, attempt.value.host) && attempt.value.host !in t.host
           && ChangedAt(t, t', to, Some(FileInfo(HostLocation(attempt.value.host), true)))
           && t'.host == t.host[attempt.value.host := HostFile([])]
  {
    hide Mirrors, Open, InfoAt, NewPlace;
    OpenKeepsMirror(t, to, WRITE_CREATE_TRUNCATE);
    OpenGives(t, to, WRITE_CREATE_TRUNCATE);
    OpenLeaves(t, to, WRITE_CREATE_TRUNCATE);
    if Open(t, to, WRITE_CREATE_TRUNCATE).0.Ok? { OpenCreates(t, to, WRITE_CREATE_TRUNCATE); }
    if HasNewPlace(t, to) {
      var h :| NewPlace(t, to, h);
      assert Open(t, to, WRITE_CREATE_TRUNCATE).0 == Ok(OpenHostFile(h));
    }
  }

  /** With the target in place, its file takes the contents and the source goes. */
  lemma FileMoved(t: Tree, from: Path, to: Path, a: HostPath, b: HostPath)
    requires Mirrors(t) && WritableAt(t, from, a) && WritableAt(t, to, b)
    ensures
      var (r, t') := Rename(t, from, to);
      && r == Ok(()) && ChangedAt(t, t', from, None)
      && t'.host == if from == to then t.host else t.host[b := t.host[a]] - {a}
    ensures from != to ==> a != b
  {
    WritableHas(t, from);
    WritableHas(t, to);
    WritableFile(t, from);
    assert Unshared(t, from, to);
    hide Mirrors, DirMirrored;
    forall q ensures InfoAt(Put(t.root, from, None), q) == if q == from then None else InfoAt(t.root, q) {
      LeafPut(t.root, from, None, q);
    }
    hide Lookup, InfoAt, Put;
  }

  /** A missing target is made before, and then found. */
  lemma RenameAfterOpen(t: Tree, from: Path, to: Path, a: HostPath)
    requires WritableAt(t, from, a) && InfoAt(t.root, to).None?
    requires
      var t' := Open(t, to, WRITE_CREATE_TRUNCATE).1;
      WritableAt(t', from, a) && InfoAt(t'.root, to).Some?
    ensures Open(t, to, WRITE_CREATE_TRUNCATE).0.Ok? ==>
      Rename(t, from, to) == Rename(Open(t, to, WRITE_CREATE_TRUNCATE).1, from, to)
  {
    hide Open, InfoAt, HostRename, Put;
  }

  /** When a rename succeeds, and how it fails otherwise. */
  lemma RenameFails(t: Tree, from: Path, to: Path)
    requires Mirrors(t)
    ensures
      var (r, source, target) := (Rename(t, from, to).0, InfoAt(t.root, from), InfoAt(t.root, to));
      && (source.None? ==> r == Err(DoesNotExist))
      && (IsDirInfo(source) ==> r == Panicked(Unimplemented))
      && (IsFileInfo(source) && !source.value.writeable ==>
            r == if source.value.location.HostLocation? then Panicked(AssertionFailed) else Err(IsDirectory))
      && (SomeFileAt(t, from, true) ==>
        && (IsDirInfo(target) ==> r == Err(IsDirectory))
        && (IsFileInfo(target) && !target.value.writeable ==>
              r == if target.value.location.HostLocation? then Panicked(AssertionFailed) else Err(AccessDenied))
        && (target.None? && ParentInfo(t, to).None? ==> r == Err(DoesNotExist))
        && (target.None? && IsFileInfo(ParentInfo(t, to)) ==> r == Err(NonexistentParentDir))
        && (MissingReadOnly(t, to) ==> r == Err(AccessDenied)))
  {
    ParentExists(t, from);
    OpenFails(t, to, WRITE_CREATE_TRUNCATE);
    hide Mirrors, Open, InfoAt, HostRename, Put;
  }

  /** The contents of host file `a`, of `from`, are now in `b`, of `to`, and everything else is as it was. */
  ghost predicate Moves(t: Tree, t': Tree, from: Path, to: Path, a: HostPath, b: HostPath) {
    && WritableAt(t, from, a) && WritableAt(t', to, b)
    && a in t.host && t'.host == t.host[b := t.host[a]] - {a}
    && (if InfoAt(t.root, to).Some? then WritableAt(t, to, b) else NewPlace(t, to, b) && b !in t.host)
    && InfoAt(t'.root, from).None?
    && forall q :: q != from && q != to ==> InfoAt(t'.root, q) == InfoAt(t.root, q)
  }

  lemma RenameOnto(t: Tree, from: Path, to: Path, a: HostPath, b: HostPath)
    requires Mirrors(t) && WritableAt(t, from, a) && WritableAt(t, to, b) && from != to
    ensures Rename(t, from, to).0 == Ok(()) && Moves(t, Rename(t, from, to).1, from, to, a, b)
  {
    WritableHas(t, from);
    FileMoved(t, from, to, a, b);
    hide Mirrors, Rename, InfoAt;
  }

  lemma EmptyThenMoved(host: map<HostPath, HostEntry>, a: HostPath, b: HostPath)
    requires a in host && b !in host
    ensures host[b := HostFile([])][a] == host[a]
    ensures host[b := HostFile([])][b := host[a]] - {a} == host[b := host[a]] - {a}
  {
  }

  lemma RenameToNew(t: Tree, from: Path, to: Path, a: HostPath)
    requires Mirrors(t) && WritableAt(t, from, a) && InfoAt(t.root, to).None?
    ensures
      var (r, t') := Rename(t, from, to);
      && (r == Ok(()) <==> HasNewPlace(t, to))
      && if !r.Ok? then t' == t else exists b :: Moves(t, t', from, to, a, b)
  {
    WritableHas(t, from);
    TargetMade(t, to);
    var (attempt, t1) := Open(t, to, WRITE_CREATE_TRUNCATE);
    hide Mirrors, Open, InfoAt, HasNewPlace, HostRename, Put;
    if attempt.Ok? {
      var b := attempt.value.host;
      RenameAfterOpen(t, from, to, a);
      assert WritableAt(t1, from, a) && WritableAt(t1, to, b);
      RenameOnto(t1, from, to, a, b);
      hide Rename;
      EmptyThenMoved(t.host, a, b);
      assert Moves(t, Rename(t, from, to).1, from, to, a, b);
    }
  }

  lemma RenameRefused(t: Tree, from: Path, to: Path)
    requires Mirrors(t) && !(SomeFileAt(t, from, true) && (SomeFileAt(t, to, true) || InfoAt(t.root, to).None?))
    ensures !Rename(t, from, to).0.Ok? && Rename(t, from, to).1 == t
  {
    RenameFails(t, from, to);
    if SomeFileAt(t, from, true) { ParentExists(t, from); }
    forall path: Path | IsFileInfo(InfoAt(t.root, path))
      ensures SomeFileAt(t, path, InfoAt(t.root, path).value.writeable)
    {
      var info := InfoAt(t.root, path).value;
      assert FileAt(t, path, info.location, info.writeable);
    }
    hide Mirrors, Open, InfoAt, HostRename, Put, SomeFileAt;
  }

  /**
   A rename succeeds if the source is a writable file and the target is one or can be made. It
   takes the source out of both trees and puts its contents where the target is; onto itself it
   takes the file out of the guest tree alone. A failure changes nothing.
   */
  lemma RenameMoves(t: Tree, from: Path, to: Path)
    requires Mirrors(t)
    ensures
      var (r, t') := Rename(t, from, to);
      && (r == Ok(()) <==> SomeFileAt(t, from, true) && (SomeFileAt(t, to, true) || HasNewPlace(t, to)))
      && if !r.Ok? then t' == t
         else if from == to then t'.host == t.host && ChangedAt(t, t', from, None)
         else exists a, b :: Moves(t, t', from, to, a, b)
  {
    WritableHas(t, from);
    WritableHas(t, to);
    assert HasNewPlace(t, to) ==> InfoAt(t.root, to).None?;
    assert SomeFileAt(t, to, true) ==> InfoAt(t.root, to).Some?;
    hide *;
    if SomeFileAt(t, from, true) && SomeFileAt(t, to, true) {
      var a :| WritableAt(t, from, a);
      var b :| WritableAt(t, to, b);
      FileMoved(t, from, to, a, b);
      if from != to { RenameOnto(t, from, to, a, b); }
    } else if SomeFileAt(t, from, true) && InfoAt(t.root, to).None? {
      var a :| WritableAt(t, from, a);
      RenameToNew(t, from, to, a);
    } else {
      RenameRefused(t, from, to);
    }
  }
}
