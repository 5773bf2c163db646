/**
 The guest file tree together with the host files behind it, as values, and what each operation
 does to the pair.
 */
module FsTree {
  import opened Wrappers

  type Path = seq<string>
  type HostPath = seq<string>

  datatype FileLocation =
    | HostLocation(host: HostPath)
    | IpaFileRef(index: nat)
    | ResourceFilePath(name: string)

  datatype FsNode =
    | File(location: FileLocation, writeable: bool)
    | Directory(children: map<string, FsNode>, writeableDir: Option<HostPath>)

  datatype HostEntry = HostFile(contents: seq<int>) | HostDir

  datatype Tree = Tree(root: FsNode, host: map<HostPath, HostEntry>)

  datatype FsError =
    | AccessDenied | AlreadyExist | DirectoryNotEmpty | DoesNotExist | IoError
    | InvalidParentDir | IsDirectory | NonexistentParentDir | ReadonlyParentDir

  /** Why the emulator stops: a refusal by the host, a failed assertion, or a missing feature. */
  datatype Panic = HostRefused | AssertionFailed | Unimplemented

  datatype Outcome<+T> = Ok(value: T) | Err(error: FsError) | Panicked(panic: Panic)

  datatype GuestFile = OpenDirectory | OpenHostFile(host: HostPath) | OpenIpaFile(index: nat) | OpenResource(name: string)

  datatype OpenOptions = OpenOptions(
    read: bool, write: bool, append: bool, create: bool, truncate: bool, exclusive: bool)

  // ---------------------------------------------------------------- the tree

  /** The node at a path. */
  function Lookup(node: FsNode, path: Path): Option<FsNode> {
    if path == [] then Some(node)
    else if node.Directory? && path[0] in node.children then Lookup(node.children[path[0]], path[1..])
    else None
  }

  /** What a node is, apart from its children. */
  datatype Info = FileInfo(location: FileLocation, writeable: bool) | DirInfo(writeableDir: Option<HostPath>)

  function InfoOf(node: FsNode): Info {
    match node
    case File(location, writeable) => FileInfo(location, writeable)
    case Directory(_, writeableDir) => DirInfo(writeableDir)
  }

  function InfoAt(node: FsNode, path: Path): Option<Info> {
    var found := Lookup(node, path);
    if found.Some? then Some(InfoOf(found.value)) else None
  }

  /** The tree with the child at `path` inserted or replaced, or removed when `child` is `None`. */
  function Put(node: FsNode, path: Path, child: Option<FsNode>): FsNode
    requires path != []
    decreases |path|
  {
    if node.File? then node
    else if |path| == 1 then
      node.(children :=
        if child.Some? then node.children[path[0] := child.value] else node.children - {path[0]})
    else if path[0] in node.children then
      node.(children := node.children[path[0] := Put(node.children[path[0]], path[1..], child)])
    else node
  }

  function Parent(path: Path): Path
    requires path != []
  {
    path[..|path| - 1]
  }

  ghost predicate IsDirAt(node: FsNode, path: Path) {
    InfoAt(node, path).Some? && InfoAt(node, path).value.DirInfo?
  }

  /** Inserting or removing a child changes what is found at its path and below, and nothing else. */
  lemma {:induction false} InfoPut(node: FsNode, path: Path, child: Option<FsNode>, q: Path)
    requires path != [] && IsDirAt(node, Parent(path))
    ensures InfoAt(Put(node, path, child), q) ==
      if path <= q then if child.Some? then InfoAt(child.value, q[|path|..]) else None
      else InfoAt(node, q)
    decreases |path|
  {
    if |path| == 1 {
      assert path[1..] == [];
      if path <= q { assert q[0] == path[0]; } else if q != [] { assert q[0] != path[0] by { assert [q[0]] <= q; assert path == [path[0]]; } }
    } else {
      var next := node.children[path[0]];
      assert Parent(path)[1..] == Parent(path[1..]);
      if q != [] && q[0] == path[0] {
        InfoPut(next, path[1..], child, q[1..]);
        assert path <= q <==> path[1..] <= q[1..] by { assert path == [path[0]] + path[1..] && q == [q[0]] + q[1..]; }
        assert path <= q ==> q[|path|..] == q[1..][|path| - 1..];
      } else {
        assert !(path <= q);
      }
    }
  }

  // ---------------------------------------------------------------- the host

  /** The combinations of options the host's own `open` takes. */
  predicate HostAccepts(o: OpenOptions) {
    && (o.read || o.write || o.append)
    && !(o.append && o.truncate)
    && (!o.write && !o.append ==> !o.truncate && !o.create)
  }

  function HostOpen(host: map<HostPath, HostEntry>, h: HostPath, o: OpenOptions): Option<map<HostPath, HostEntry>> {
    if !HostAccepts(o) then None
    else if h in host then
      if host[h].HostDir? then None else Some(if o.truncate then host[h := HostFile([])] else host)
    else if o.create && h != [] && Parent(h) in host && host[Parent(h)].HostDir? then Some(host[h := HostFile([])])
    else None
  }

  function HostCreateDir(host: map<HostPath, HostEntry>, h: HostPath): Option<map<HostPath, HostEntry>> {
    if h !in host && h != [] && Parent(h) in host && host[Parent(h)].HostDir? then Some(host[h := HostDir]) else None
  }

  function HostRemoveFile(host: map<HostPath, HostEntry>, h: HostPath): Option<map<HostPath, HostEntry>> {
    if h in host && host[h].HostFile? then Some(host - {h}) else None
  }

  function HostRemoveDir(host: map<HostPath, HostEntry>, h: HostPath): Option<map<HostPath, HostEntry>> {
    if h in host && host[h].HostDir? && (forall g <- host :: g == [] || Parent(g) != h) then Some(host - {h}) else None
  }

  function HostRename(host: map<HostPath, HostEntry>, from: HostPath, to: HostPath): Option<map<HostPath, HostEntry>> {
    if from !in host || !host[from].HostFile? || (to in host && host[to].HostDir?) then None
    else if from == to then Some(host)
    else if to in host || (to != [] && Parent(to) in host && host[Parent(to)].HostDir?) then
      Some(host[to := host[from]] - {from})
    else None
  }

  // ---------------------------------------------------------------- the operations

  function Open(t: Tree, path: Path, o: OpenOptions): (Outcome<GuestFile>, Tree) {
    if (o.truncate || o.create) && !o.write && !o.append then (Panicked(AssertionFailed), t)
    else if path == [] then (Err(DoesNotExist), t)
    else match Lookup(t.root, Parent(path))
      case None => (Err(DoesNotExist), t)
      case Some(File(_, _)) => (Err(NonexistentParentDir), t)
      case Some(Directory(children, dirHostPath)) =>
        if Last(path) in children then
          if o.create && o.exclusive then (Err(AlreadyExist), t)
          else OpenExisting(t, children[Last(path)], o)
        else if !o.create then (Err(DoesNotExist), t)
        else match dirHostPath
          case None => (Err(AccessDenied), t)
          case Some(dirHost) =>
            var h := dirHost + [Last(path)];
            match HostOpen(t.host, h, o)
            case None => (Panicked(HostRefused), t)
            case Some(host) =>
              (Ok(OpenHostFile(h)), Tree(Put(t.root, path, Some(File(HostLocation(h), true))), host))
  }

  function OpenExisting(t: Tree, node: FsNode, o: OpenOptions): (Outcome<GuestFile>, Tree) {
    match node
    case Directory(_, _) => (if o.write then Err(IsDirectory) else Ok(OpenDirectory), t)
    case File(location, writeable) =>
      if !writeable && (o.append || o.write) then (Err(AccessDenied), t)
      else match location
        case HostLocation(h) =>
          (match HostOpen(t.host, h, o.(create := false))
           case None => (Panicked(HostRefused), t)
           case Some(host) => (Ok(OpenHostFile(h)), t.(host := host)))
        case IpaFileRef(index) =>
          if writeable || o.append || o.write then (Panicked(AssertionFailed), t) else (Ok(OpenIpaFile(index)), t)
        case ResourceFilePath(name) =>
          if writeable || o.append || o.write then (Panicked(AssertionFailed), t) else (Ok(OpenResource(name)), t)
  }

  const WRITE_CREATE_TRUNCATE := OpenOptions(false, true, false, true, true, false)

  function Write(t: Tree, path: Path, data: seq<int>): (Outcome<()>, Tree) {
    var (attempt, t') := Open(t, path, WRITE_CREATE_TRUNCATE);
    match attempt
    case Err(e) => (Err(e), t')
    case Panicked(p) => (Panicked(p), t')
    case Ok(OpenHostFile(h)) => (Ok(()), t'.(host := t'.host[h := HostFile(data)]))
    case Ok(_) => (Err(IoError), t')
  }

  function CreateDir(t: Tree, path: Path): (Outcome<()>, Tree) {
    if path == [] then (Err(NonexistentParentDir), t)
    else match Lookup(t.root, Parent(path))
      case None => (Err(NonexistentParentDir), t)
      case Some(File(_, _)) => (Err(InvalidParentDir), t)
      case Some(Directory(children, dirHostPath)) =>
        if Last(path) in children then (Err(AlreadyExist), t)
        else match dirHostPath
          case None => (Err(ReadonlyParentDir), t)
          case Some(dirHost) =>
            var h := dirHost + [Last(path)];
            match HostCreateDir(t.host, h)
            case None => (Panicked(HostRefused), t)
            case Some(host) => (Ok(()), Tree(Put(t.root, path, Some(Directory(map[], Some(h)))), host))
  }

  /** Creates the directories at the first, second, ... prefix of `path`, from `done` on. */
  function CreateDirAll(t: Tree, path: Path, done: nat): (Outcome<()>, Tree)
    requires done <= |path|
    decreases |path| - done
  {
    if done == |path| then (Ok(()), t)
    else
      var (outcome, t') := CreateDir(t, path[..done + 1]);
      if outcome.Ok? || outcome == Err(AlreadyExist) then CreateDirAll(t', path, done + 1) else (outcome, t')
  }

  function Remove(t: Tree, path: Path): (Outcome<()>, Tree) {
    if path == [] then (Err(NonexistentParentDir), t)
    else match Lookup(t.root, Parent(path))
      case None => (Err(NonexistentParentDir), t)
      case Some(File(_, _)) => (Err(InvalidParentDir), t)
      case Some(Directory(children, dirHostPath)) =>
        if dirHostPath.None? then (Err(ReadonlyParentDir), t)
        else if Last(path) !in children then (Err(DoesNotExist), t)
        else match children[Last(path)]
          case File(location, writeable) =>
            if !writeable then (Err(AccessDenied), t)
            else if !location.HostLocation? then (Panicked(AssertionFailed), t)
            else (match HostRemoveFile(t.host, location.host)
              case None => (Panicked(HostRefused), t)
              case Some(host) => (Ok(()), Tree(Put(t.root, path, None), host)))
          case Directory(grandchildren, writeable) =>
            if grandchildren != map[] then (Err(DirectoryNotEmpty), t)
            else if writeable.None? then (Err(AccessDenied), t)
            else match HostRemoveDir(t.host, writeable.value)
              case None => (Panicked(HostRefused), t)
              case Some(host) => (Ok(()), Tree(Put(t.root, path, None), host))
  }

  function Rename(t: Tree, from: Path, to: Path): (Outcome<()>, Tree) {
    match InfoAt(t.root, from)
    case None => (Err(DoesNotExist), t)
    case Some(DirInfo(_)) => (Panicked(Unimplemented), t)
    case Some(FileInfo(location, writeable)) =>
      if !location.HostLocation? then (Err(IsDirectory), t)
      else if !writeable then (Panicked(AssertionFailed), t)
      else
        var (attempt, t') :=
          if InfoAt(t.root, to).None? then Open(t, to, WRITE_CREATE_TRUNCATE) else (Ok(OpenDirectory), t);
        match attempt
        case Err(e) => (Err(e), t')
        case Panicked(p) => (Panicked(p), t')
        case Ok(_) =>
          match InfoAt(t'.root, to)
          case None => (Panicked(AssertionFailed), t')
          case Some(DirInfo(_)) => (Err(IsDirectory), t')
          case Some(FileInfo(toLocation, toWriteable)) =>
            if !toLocation.HostLocation? then (Err(AccessDenied), t')
            else if !toWriteable then (Panicked(AssertionFailed), t')
            else match HostRename(t'.host, location.host, toLocation.host)
              case None => (Err(IoError), t')
              case Some(host) =>
                if from == [] then (Panicked(AssertionFailed), t') else (Ok(()), Tree(Put(t'.root, from, None), host))
  }
}
