/**
 The guest file system object: its methods resolve a path against the working directory, walk the
 tree and update it in place. Each is shown to do what the functions of `FsTree` say.
 */
module GuestFs {
  import opened Wrappers
  import opened GuestPaths
  import opened FsTree
  import FsEnumerate

  class Fs {
    var root: FsNode
    var workingDirectory: string
    var host: map<HostPath, HostEntry>

    constructor (root: FsNode, host: map<HostPath, HostEntry>)
      ensures Valid() && View() == Tree(root, host) && workingDirectory == "/"
    {
      this.root, this.host, workingDirectory := root, host, "/";
    }

    function View(): Tree
      reads this
    {
      Tree(root, host)
    }

    ghost predicate Valid()
      reads this
    {
      IsAbsolute(workingDirectory)
    }

    function At(path: string): Path
      reads this
    {
      Resolved(path, workingDirectory)
    }

    method Components(path: string) returns (components: Path)
      requires Valid()
      ensures components == At(path)
    {
      var resolved := ResolvePath(path, Some(workingDirectory));
      return resolved.value;
    }

    method LookupNodeInner(components: Path) returns (found: Option<FsNode>)
      ensures found == Lookup(root, components)
    {
      var node := root;
      for i := 0 to |components|
        invariant Lookup(root, components) == Lookup(node, components[i..])
      {
        assert components[i..][1..] == components[i + 1..];
        if !node.Directory? || components[i] !in node.children {
          return None;
        }
        node := node.children[components[i]];
      }
      return Some(node);
    }

    method LookupNode(path: string) returns (found: Option<FsNode>)
      requires Valid()
      ensures found == Lookup(root, At(path))
    {
      var components := Components(path);
      found := LookupNodeInner(components);
    }

    /** The parent, where it is, and the final component; nothing when the path is the root. */
    method LookupParentNode(path: string) returns (components: Path, parent: Option<FsNode>)
      requires Valid()
      ensures components == At(path)
      ensures parent == if components == [] then None else Lookup(root, Parent(components))
    {
      components := Components(path);
      if components == [] {
        return components, None;
      }
      parent := LookupNodeInner(components[..|components| - 1]);
    }

    /** Succeeds exactly on directories, and what is then reached relatively is what lies below. */
    method ChangeWorkingDirectory(newPath: string) returns (ok: bool)
      requires Valid()
      modifies `workingDirectory
      ensures Valid()
      ensures ok <==> IsDirAt(root, old(At(newPath)))
      ensures At(".") == if ok then old(At(newPath)) else old(At("."))
      ensures !ok ==> workingDirectory == old(workingDirectory)
    {
      var resolved := Components(newPath);
      var node := LookupNodeInner(resolved);
      if node.None? || !node.value.Directory? {
        return false;
      }
      ResolvedIsClean(newPath, workingDirectory);
      var path := "";
      for i := 0 to |resolved|
        invariant path == Render(resolved[..i])
      {
        assert resolved[..i + 1][..i] == resolved[..i];
        path := path + "/" + resolved[i];
      }
      assert resolved[..|resolved|] == resolved;
      workingDirectory := if resolved == [] then "/" else path;
      DotIsHere(resolved);
      return true;
    }

    method OpenWithOptions(path: string, o: OpenOptions) returns (r: Outcome<GuestFile>)
      requires Valid()
      modifies `root, `host
      ensures (r, View()) == Open(old(View()), At(path), o)
    {
      if (o.truncate || o.create) && !o.write && !o.append {
        return Panicked(AssertionFailed);
      }
      var components, parent := LookupParentNode(path);
      if parent.None? {
        return Err(DoesNotExist);
      }
      if !parent.value.Directory? {
        return Err(NonexistentParentDir);
      }
      var newFilename := Last(components);
      if newFilename in parent.value.children {
        if o.create && o.exclusive {
          return Err(AlreadyExist);
        }
        r := OpenExistingFile(parent.value.children[newFilename], o);
        return;
      }
      if !o.create {
        return Err(DoesNotExist);
      }
      if parent.value.writeableDir.None? {
        return Err(AccessDenied);
      }
      ResolvedIsClean(path, workingDirectory);
      assert IsClean(newFilename) && '/' !in newFilename;
      var hostPath := parent.value.writeableDir.value + [newFilename];
      var afterOpen := HostOpen(host, hostPath, o);
      if afterOpen.None? {
        return Panicked(HostRefused);
      }
      host := afterOpen.value;
      root := Put(root, components, Some(File(HostLocation(hostPath), true)));
      return Ok(OpenHostFile(hostPath));
    }

    method OpenExistingFile(node: FsNode, o: OpenOptions) returns (r: Outcome<GuestFile>)
      modifies `host
      ensures (r, View()) == OpenExisting(old(View()), node, o)
    {
      if node.Directory? {
        return if o.write then Err(IsDirectory) else Ok(OpenDirectory);
      }
      if !node.writeable && (o.append || o.write) {
        return Err(AccessDenied);
      }
      if node.location.HostLocation? {
        var afterOpen := HostOpen(host, node.location.host, o.(create := false));
        if afterOpen.None? {
          return Panicked(HostRefused);
        }
        host := afterOpen.value;
        return Ok(OpenHostFile(node.location.host));
      }
      if node.writeable || o.append || o.write {
        return Panicked(AssertionFailed);
      }
      return Ok(if node.location.IpaFileRef? then OpenIpaFile(node.location.index) else OpenResource(node.location.name));
    }

    method WriteFile(path: string, data: seq<int>) returns (r: Outcome<()>)
      requires Valid()
      modifies `root, `host
      ensures (r, View()) == Write(old(View()), At(path), data)
    {
      var attempt := OpenWithOptions(path, WRITE_CREATE_TRUNCATE);
      if attempt.Err? {
        return Err(attempt.error);
      }
      if attempt.Panicked? {
        return Panicked(attempt.panic);
      }
      if !attempt.value.OpenHostFile? {
        return Err(IoError);
      }
      host := host[attempt.value.host := HostFile(data)];
      return Ok(());
    }

    method CreateDirectory(path: string) returns (r: Outcome<()>)
      requires Valid()
      modifies `root, `host
      ensures (r, View()) == CreateDir(old(View()), At(path))
    {
      var components, parent := LookupParentNode(path);
      if parent.None? {
        return Err(NonexistentParentDir);
      }
      if !parent.value.Directory? {
        return Err(InvalidParentDir);
      }
      var newDirName := Last(components);
      if newDirName in parent.value.children {
        return Err(AlreadyExist);
      }
      if parent.value.writeableDir.None? {
        return Err(ReadonlyParentDir);
      }
      ResolvedIsClean(path, workingDirectory);
      assert IsClean(newDirName) && '/' !in newDirName;
      var hostPath := parent.value.writeableDir.value + [newDirName];
      var created := HostCreateDir(host, hostPath);
      if created.None? {
        return Panicked(HostRefused);
      }
      host := created.value;
      root := Put(root, components, Some(Directory(map[], Some(hostPath))));
      return Ok(());
    }

    /** Passes each longer prefix, joined to a string, to `CreateDirectory`. */
    method CreateAllDirectories(path: string) returns (r: Outcome<()>)
      requires Valid()
      modifies `root, `host
      ensures !IsAbsolute(path) ==> r == Panicked(AssertionFailed) && View() == old(View())
      ensures IsAbsolute(path) ==> (r, View()) == CreateDirAll(old(View()), At(path), 0)
    {
      if !IsAbsolute(path) {
        return Panicked(AssertionFailed);
      }
      var resolved := ResolvePath(path, None);
      var components := resolved.value;
      ResolvedIsClean(path, workingDirectory);
      var joined := "";
      for i := 0 to |components|
        invariant joined == Render(components[..i])
        invariant CreateDirAll(old(View()), components, 0) == CreateDirAll(View(), components, i)
      {
        RenderOneMore(components, i);
        joined := joined + "/" + components[i];
        ResolvedRender(components[..i + 1], workingDirectory);
        r := CreateDirectory(joined);
        if !r.Ok? && r != Err(AlreadyExist) {
          return;
        }
      }
      return Ok(());
    }

    method RemoveNode(path: string) returns (r: Outcome<()>)
      requires Valid()
      modifies `root, `host
      ensures (r, View()) == Remove(old(View()), At(path))
    {
      var components, parent := LookupParentNode(path);
      if parent.None? {
        return Err(NonexistentParentDir);
      }
      if !parent.value.Directory? {
        return Err(InvalidParentDir);
      }
      if parent.value.writeableDir.None? {
        return Err(ReadonlyParentDir);
      }
      if Last(components) !in parent.value.children {
        return Err(DoesNotExist);
      }
      var node := parent.value.children[Last(components)];
      var removed: Option<map<HostPath, HostEntry>>;
      if node.File? {
        if !node.writeable {
          return Err(AccessDenied);
        }
        if !node.location.HostLocation? {
          return Panicked(AssertionFailed);
        }
        removed := HostRemoveFile(host, node.location.host);
      } else {
        if node.children != map[] {
          return Err(DirectoryNotEmpty);
        }
        if node.writeableDir.None? {
          return Err(AccessDenied);
        }
        removed := HostRemoveDir(host, node.writeableDir.value);
      }
      if removed.None? {
        return Panicked(HostRefused);
      }
      host := removed.value;
      root := Put(root, components, None);
      return Ok(());
    }

    method RenameFile(from: string, to: string) returns (r: Outcome<()>)
      requires Valid()
      modifies `root, `host
      ensures (r, View()) == Rename(old(View()), At(from), At(to))
    {
      var fromNode := LookupNode(from);
      if fromNode.None? {
        return Err(DoesNotExist);
      }
      if fromNode.value.Directory? {
        return Panicked(Unimplemented);
      }
      if !fromNode.value.location.HostLocation? {
        return Err(IsDirectory);
      }
      if !fromNode.value.writeable {
        return Panicked(AssertionFailed);
      }
      var toNode := LookupNode(to);
      if toNode.None? {
        var attempt := OpenWithOptions(to, WRITE_CREATE_TRUNCATE);
        if attempt.Err? {
          return Err(attempt.error);
        }
        if attempt.Panicked? {
          return Panicked(attempt.panic);
        }
      }
      toNode := LookupNode(to);
      if toNode.None? {
        return Panicked(AssertionFailed);
      }
      if !toNode.value.File? {
        return Err(IsDirectory);
      }
      if !toNode.value.location.HostLocation? {
        return Err(AccessDenied);
      }
      if !toNode.value.writeable {
        return Panicked(AssertionFailed);
      }
      var renamed := HostRename(host, fromNode.value.location.host, toNode.value.location.host);
      if renamed.None? {
        return Err(IoError);
      }
      var components := Components(from);
      if components == [] {
        return Panicked(AssertionFailed);
      }
      host := renamed.value;
      root := Put(root, components, None);
      return Ok(());
    }

    /** Lists, relative to a directory, everything below it once, parents first. */
    method EnumerateRecursive(path: string) returns (paths: Option<seq<string>>)
      requires Valid()
      ensures paths.Some? <==> IsDirAt(root, At(path))
      ensures paths.Some? ==> FsEnumerate.Lists(Lookup(root, At(path)).value, paths.value)
    {
      var node := LookupNode(path);
      if node.None? || !node.value.Directory? {
        return None;
      }
      var found := FsEnumerate.EnumerateRecursive(node.value);
      return Some(found);
    }
  }

  /** The rendered directory, as working directory, is where `.` leads. */
  lemma DotIsHere(components: Path)
    requires AllClean(components)
    ensures Resolved(".", if components == [] then "/" else Render(components)) == components
    ensures IsAbsolute(if components == [] then "/" else Render(components))
  {
    var base := if components == [] then "/" else Render(components);
    assert Split(".") == ["."] by { SplitWhole("."); }
    var here := ApplyAll([], Split(base));
    assert ApplyAll(here, ["."]) == here by {
      assert ["."][..0] == [] && Last(["."]) == ".";
    }
    if components != [] {
      RenderIsAbsolute(components);
      RenderResolves(components);
    } else {
      assert Split("/") == ["", ""] by { SplitJoins("", ""); assert "" + "/" + "" == "/"; }
      assert ["", ""][..1] == [""] && [""][..0] == [];
      assert ApplyAll([], [""]) == [] && ApplyAll([], ["", ""]) == [];
    }
  }
}
