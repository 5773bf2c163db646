/**
 The names archive entries and listings carry: the components of a path, which entries belong to a
 bundle, and which of several files at a path is kept.
 */
module PathNames {
  import opened Wrappers
  import opened GuestPaths
  import opened FsTree
  import opened BundleBuilder
  import opened FsEnumerate

  // ---------------------------------------------------------------- components

  lemma {:induction false} NonEmptyJoins(a: seq<string>, b: seq<string>)
    ensures NonEmpty(a + b) == NonEmpty(a) + NonEmpty(b)
  {
    if b == [] {
      assert a + b == a;
    } else {
      assert (a + b)[..|a + b| - 1] == a + b[..|b| - 1];
      NonEmptyJoins(a, b[..|b| - 1]);
    }
  }

  /** The components of a path are what lies between slashes, without the empty ones. */
  lemma PartsExactly(a: string, b: string)
    ensures Parts(a + "/" + b) == Parts(a) + Parts(b)
    ensures '/' !in a ==> Parts(a) == if a == "" then [] else [a]
  {
    SplitJoins(a, b);
    NonEmptyJoins(Split(a), Split(b));
    if '/' !in a {
      SplitWhole(a);
      assert [a][..0] == [];
    }
  }

  ghost predicate IsNameIn(path: string, parent: string, name: string) {
    path == parent + "/" + name && name != "" && '/' !in name
  }

  /** A file's path is that of a directory, a slash and a name. */
  lemma FileNameExactly(path: string)
    ensures HasFileName(path) <==> exists parent, name :: IsNameIn(path, parent, name)
    ensures forall parent, name | IsNameIn(path, parent, name) :: Parts(path) == Parts(parent) + [name]
  {
    if HasFileName(path) {
      var i := LastSlash(path);
      assert path == path[..i] + "/" + path[i + 1..];
      assert IsNameIn(path, path[..i], path[i + 1..]);
    }
    forall parent, name | IsNameIn(path, parent, name)
      ensures HasFileName(path) && Parts(path) == Parts(parent) + [name]
    {
      PartsExactly(parent, name);
      PartsExactly(name, "");
      assert path[|parent|] == '/' && Last(path) == Last(name);
      assert Last(name) in name;
    }
  }

  lemma {:induction false} LastSlash(path: string) returns (i: nat)
    requires '/' in path
    ensures i < |path| && path[i] == '/' && '/' !in path[i + 1..]
  {
    i := |path| - 1;
    if path[i] != '/' {
      var init := path[..i];
      assert path == init + [path[i]];
      i := LastSlash(init);
      assert path[i + 1..] == init[i + 1..] + [path[|path| - 1]];
    }
  }

  /** A listed path is its components with slashes between them. */
  lemma {:induction false} JoinedSplits(path: Path)
    requires path != [] && forall component <- path :: '/' !in component
    ensures Split(JoinComponents(path)) == path
  {
    if |path| == 1 {
      assert path == [path[0]];
      SplitWhole(path[0]);
    } else {
      JoinedSplits(Parent(path));
      SplitJoins(JoinComponents(Parent(path)), Last(path));
      SplitWhole(Last(path));
      assert path == Parent(path) + [Last(path)];
    }
  }

  // ---------------------------------------------------------------- the bundle's entries

  ghost predicate IsNamed(z: ZipEntry, bundlePath: string, path: string, isDir: bool) {
    z.name == bundlePath + path && z.isDir == isDir
  }

  lemma StrippedOne(z: ZipEntry, bundlePath: string, e: Entry)
    ensures e in StrippedEntry(z, bundlePath) <==>
      IsNamed(z, bundlePath, e.path, e.DirEntry?) && (e.FileEntry? ==> e.file == z.data)
  {
    if bundlePath <= z.name {
      assert z.name == bundlePath + z.name[|bundlePath|..];
    }
    assert (bundlePath + e.path)[|bundlePath|..] == e.path;
  }

  /** Exactly the archive's entries whose names start with the bundle's path belong to it, under what follows. */
  lemma StrippedExactly(entries: seq<ZipEntry>, bundlePath: string, e: Entry)
    ensures e in Stripped(entries, bundlePath) <==>
      exists z :: z in entries && IsNamed(z, bundlePath, e.path, e.DirEntry?) && (e.FileEntry? ==> e.file == z.data)
  {
    hide StrippedEntry;
    StrippedEntries(entries, bundlePath, e);
    forall z: ZipEntry ensures e in StrippedEntry(z, bundlePath) <==>
      IsNamed(z, bundlePath, e.path, e.DirEntry?) && (e.FileEntry? ==> e.file == z.data)
    {
      StrippedOne(z, bundlePath, e);
    }
  }

  // ---------------------------------------------------------------- several files at a path

  ghost predicate IsFileFor(e: Entry, q: Path) {
    e.FileEntry? && Parts(e.path) == q
  }

  /** Entry `i` is the last file entry for the path. */
  ghost predicate IsLastFor(entries: seq<Entry>, q: Path, i: int) {
    0 <= i < |entries| && IsFileFor(entries[i], q) && forall j | i < j < |entries| :: !IsFileFor(entries[j], q)
  }

  lemma LastForInit(entries: seq<Entry>, q: Path, i: int)
    requires entries != [] && !IsFileFor(Last(entries), q)
    ensures IsLastFor(entries, q, i) <==> IsLastFor(entries[..|entries| - 1], q, i)
  {
    hide IsFileFor;
  }

  lemma LastForLast(entries: seq<Entry>, q: Path, i: int)
    requires entries != [] && IsFileFor(Last(entries), q)
    ensures IsLastFor(entries, q, i) <==> i == |entries| - 1
  {
    hide IsFileFor;
  }

  /** Of several file entries for a path the last is kept. */
  lemma {:induction false} FileAtExactly(entries: seq<Entry>, q: Path, file: nat)
    ensures FileAt(entries, q) == Some(file) <==> exists i :: IsLastFor(entries, q, i) && entries[i].file == file
  {
    if entries != [] {
      var init, last := entries[..|entries| - 1], |entries| - 1;
      FileAtExactly(init, q, file);
      var found := FileAt(init, q);
      assert FileAt(entries, q) == if IsFileFor(entries[last], q) then Some(entries[last].file) else found;
      hide Parts, FileAt, IsLastFor, IsFileFor;
      forall i: int ensures IsLastFor(entries, q, i) <==> if IsFileFor(entries[last], q) then i == last else IsLastFor(init, q, i) {
        if IsFileFor(entries[last], q) { LastForLast(entries, q, i); } else { LastForInit(entries, q, i); }
      }
      LastForBounds(init, q);
    }
  }

  lemma LastForBounds(entries: seq<Entry>, q: Path)
    ensures forall i | IsLastFor(entries, q, i) :: 0 <= i < |entries| && entries[i].FileEntry?
  {
  }
}
