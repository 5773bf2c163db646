/**
 Building the tree of a zipped app bundle from entries that come in any order: when the order
 matters, and what the tree holds when it does not.
 */
module BundleBuilder {
  import opened Wrappers
  import opened GuestPaths
  import opened FsTree

  /** `file` stands for the entry's data. */
  datatype Entry = FileEntry(path: string, file: nat) | DirEntry(path: string)

  /** An entry of the archive, under its full name. */
  datatype ZipEntry = ZipEntry(name: string, isDir: bool, data: nat)

  const EMPTY_DIR := Directory(map[], None)

  // ---------------------------------------------------------------- one entry

  function NonEmpty(parts: seq<string>): seq<string> {
    if parts == [] then []
    else NonEmpty(parts[..|parts| - 1]) + (if Last(parts) == "" then [] else [Last(parts)])
  }

  /** The components of an entry's path; unlike in a resolved path, `.` is one. */
  function Parts(path: string): Path {
    NonEmpty(Split(path))
  }

  /** Walks to a directory, making what is missing; `None` when the walk panics. */
  function MakeDirs(node: FsNode, parts: Path): Option<FsNode>
    decreases |parts|
  {
    if parts == [] then Some(node)
    else if parts[0] == ".." || node.File? then None
    else
      var next := if parts[0] in node.children then node.children[parts[0]] else EMPTY_DIR;
      match MakeDirs(next, parts[1..])
      case None => None
      case Some(made) => Some(node.(children := node.children[parts[0] := made]))
  }

  function PlaceFile(node: FsNode, parts: Path, file: nat): Option<FsNode>
    requires parts != []
    decreases |parts|
  {
    if parts[0] == ".." || node.File? then None
    else if |parts| == 1 then Some(node.(children := node.children[parts[0] := File(IpaFileRef(file), false)]))
    else
      var next := if parts[0] in node.children then node.children[parts[0]] else EMPTY_DIR;
      match PlaceFile(next, parts[1..], file)
      case None => None
      case Some(made) => Some(node.(children := node.children[parts[0] := made]))
  }

  /** A file needs a slash in its path, and not at the end. */
  predicate HasFileName(path: string) {
    path != "" && Last(path) != '/' && '/' in path
  }

  function AddEntry(root: FsNode, e: Entry): Option<FsNode> {
    match e
    case DirEntry(path) => MakeDirs(root, Parts(path))
    case FileEntry(path, file) =>
      if !HasFileName(path) || Parts(path) == [] then None else PlaceFile(root, Parts(path), file)
  }

  /** The tree after all entries, one after the other; `None` when one of them panics. */
  function Built(entries: seq<Entry>): Option<FsNode> {
    if entries == [] then Some(EMPTY_DIR)
    else match Built(entries[..|entries| - 1])
      case None => None
      case Some(root) => AddEntry(root, Last(entries))
  }

  // ---------------------------------------------------------------- what an entry does to the tree

  ghost predicate IsFileAt(node: FsNode, q: Path) {
    InfoAt(node, q).Some? && InfoAt(node, q).value.FileInfo?
  }

  /** A file stands in the way of a path, or the path goes up. */
  ghost predicate Blocked(node: FsNode, parts: Path) {
    exists k :: 0 <= k < |parts| && (parts[k] == ".." || IsFileAt(node, parts[..k]))
  }

  ghost function WithDirs(node: FsNode, parts: Path, q: Path): Option<Info> {
    if InfoAt(node, q).Some? then InfoAt(node, q) else if q <= parts then Some(DirInfo(None)) else None
  }

  ghost function WithFile(node: FsNode, parts: Path, file: nat, q: Path): Option<Info> {
    if q == parts then Some(FileInfo(IpaFileRef(file), false))
    else if parts <= q then None
    else WithDirs(node, parts, q)
  }

  /** What is found through the child a path starts with. */
  lemma ThroughChild(node: FsNode, q: Path)
    requires q != []
    ensures InfoAt(node, q) ==
      if node.Directory? && q[0] in node.children then InfoAt(node.children[q[0]], q[1..]) else None
  {
  }

  lemma BlockedThroughChild(node: FsNode, parts: Path)
    requires parts != [] && node.Directory? && parts[0] != ".."
    ensures
      var next := if parts[0] in node.children then node.children[parts[0]] else EMPTY_DIR;
      Blocked(node, parts) <==> Blocked(next, parts[1..])
  {
    var next := if parts[0] in node.children then node.children[parts[0]] else EMPTY_DIR;
    assert !IsFileAt(node, parts[..0]);
    forall k | 0 < k < |parts|
      ensures (parts[k] == ".." || IsFileAt(node, parts[..k])) <==> (parts[1..][k - 1] == ".." || IsFileAt(next, parts[1..][..k - 1]))
    {
      ThroughChild(node, parts[..k]);
      assert parts[..k][1..] == parts[1..][..k - 1];
      if parts[0] !in node.children {
        NothingInEmpty(parts[1..][..k - 1]);
      }
    }
    if Blocked(next, parts[1..]) {
      var k :| 0 <= k < |parts| - 1 && (parts[1..][k] == ".." || IsFileAt(next, parts[1..][..k]));
      assert parts[k + 1] == ".." || IsFileAt(node, parts[..k + 1]);
    }
  }

  lemma NothingInEmpty(q: Path)
    ensures InfoAt(EMPTY_DIR, q) == if q == [] then Some(DirInfo(None)) else None
  {
  }

  lemma PrefixThroughChild(q: Path, parts: Path)
    requires q != [] && parts != []
    ensures q <= parts <==> q[0] == parts[0] && q[1..] <= parts[1..]
  {
    assert q == [q[0]] + q[1..] && parts == [parts[0]] + parts[1..];
  }

  lemma {:induction false} MakeDirsInfo(node: FsNode, parts: Path)
    ensures MakeDirs(node, parts).None? <==> Blocked(node, parts)
    ensures MakeDirs(node, parts).Some? ==> forall q :: InfoAt(MakeDirs(node, parts).value, q) == WithDirs(node, parts, q)
    decreases |parts|
  {
    if parts == [] {
    } else if parts[0] == ".." || node.File? {
      assert parts[0] == ".." || IsFileAt(node, parts[..0]);
    } else {
      var next := if parts[0] in node.children then node.children[parts[0]] else EMPTY_DIR;
      MakeDirsInfo(next, parts[1..]);
      BlockedThroughChild(node, parts);
      if MakeDirs(next, parts[1..]).Some? {
        var made := MakeDirs(node, parts).value;
        forall q ensures InfoAt(made, q) == WithDirs(node, parts, q) {
          if q != [] {
            ThroughChild(node, q);
            ThroughChild(made, q);
            PrefixThroughChild(q, parts);
            NothingInEmpty(q[1..]);
          }
        }
      }
    }
  }

  lemma {:induction false} PlaceFileInfo(node: FsNode, parts: Path, file: nat)
    requires parts != []
    ensures PlaceFile(node, parts, file).None? <==> Blocked(node, parts)
    ensures PlaceFile(node, parts, file).Some? ==>
      forall q :: InfoAt(PlaceFile(node, parts, file).value, q) == WithFile(node, parts, file, q)
    decreases |parts|
  {
    if parts[0] == ".." || node.File? {
      assert parts[0] == ".." || IsFileAt(node, parts[..0]);
    } else {
      var next := if parts[0] in node.children then node.children[parts[0]] else EMPTY_DIR;
      BlockedThroughChild(node, parts);
      if |parts| > 1 {
        PlaceFileInfo(next, parts[1..], file);
      }
      if PlaceFile(node, parts, file).Some? {
        var made := PlaceFile(node, parts, file).value;
        forall q ensures InfoAt(made, q) == WithFile(node, parts, file, q) {
          if q != [] {
            ThroughChild(node, q);
            ThroughChild(made, q);
            PrefixThroughChild(q, parts);
            PrefixThroughChild(parts, q);
            NothingInEmpty(q[1..]);
            assert q == [q[0]] + q[1..] && parts == [parts[0]] + parts[1..];
          }
        }
      }
    }
  }

  /** A tree is determined by what is found in it. */
  lemma {:induction false} SameTree(a: FsNode, b: FsNode)
    requires forall q :: InfoAt(a, q) == InfoAt(b, q)
    ensures a == b
    decreases a
  {
    assert InfoAt(a, []) == InfoAt(b, []);
    if a.Directory? {
      forall name ensures name in a.children <==> name in b.children {
        ThroughChild(a, [name]);
        ThroughChild(b, [name]);
        assert InfoAt(a, [name]) == InfoAt(b, [name]);
      }
      forall name | name in a.children ensures a.children[name] == b.children[name] {
        forall q ensures InfoAt(a.children[name], q) == InfoAt(b.children[name], q) {
          assert ([name] + q)[1..] == q;
          ThroughChild(a, [name] + q);
          ThroughChild(b, [name] + q);
        }
        SameTree(a.children[name], b.children[name]);
      }
      assert a.children == b.children;
    }
  }

  // ---------------------------------------------------------------- what the tree holds

  predicate Usable(e: Entry) {
    ".." !in Parts(e.path) && (e.FileEntry? ==> HasFileName(e.path) && Parts(e.path) != [])
  }

  /** The last file entry at a path wins. */
  function FileAt(entries: seq<Entry>, q: Path): Option<nat> {
    if entries == [] then None
    else if Last(entries).FileEntry? && Parts(Last(entries).path) == q then Some(Last(entries).file)
    else FileAt(entries[..|entries| - 1], q)
  }

  ghost predicate Covered(entries: seq<Entry>, q: Path) {
    q == [] || exists e :: e in entries && q <= Parts(e.path)
  }

  /** Exactly the files, and as directories exactly the prefixes of the entries. */
  ghost function Expected(entries: seq<Entry>, q: Path): Option<Info> {
    if FileAt(entries, q).Some? then Some(FileInfo(IpaFileRef(FileAt(entries, q).value), false))
    else if Covered(entries, q) then Some(DirInfo(None))
    else None
  }

  ghost predicate AllUsable(entries: seq<Entry>) {
    forall e <- entries :: Usable(e)
  }

  /** No file's path is a proper prefix of another entry's. */
  ghost predicate NoneAbove(entries: seq<Entry>) {
    forall e, f | e in entries && f in entries && e.FileEntry? :: !(Parts(e.path) < Parts(f.path))
  }

  ghost predicate OneFilePerPath(entries: seq<Entry>) {
    forall e, f | e in entries && f in entries && e.FileEntry? && f.FileEntry? && Parts(e.path) == Parts(f.path) ::
      e.file == f.file
  }

  lemma {:induction false} FileAtEntry(entries: seq<Entry>, q: Path)
    ensures FileAt(entries, q).Some? ==>
      exists e :: e in entries && e.FileEntry? && Parts(e.path) == q && e.file == FileAt(entries, q).value
    ensures FileAt(entries, q).None? ==> forall e <- entries :: e.FileEntry? ==> Parts(e.path) != q
  {
    if entries != [] {
      FileAtEntry(entries[..|entries| - 1], q);
      assert entries == entries[..|entries| - 1] + [Last(entries)];
      if Last(entries).FileEntry? && Parts(Last(entries).path) == q {
        assert Last(entries) in entries;
      } else if FileAt(entries, q).Some? {
        var init := entries[..|entries| - 1];
        var e :| e in init && e.FileEntry? && Parts(e.path) == q && e.file == FileAt(init, q).value;
        assert e in entries;
      }
    }
  }

  /** One more entry, when no file is above another entry. */
  lemma StepBuilds(entries: seq<Entry>, root: FsNode, e: Entry)
    requires AllUsable(entries + [e]) && NoneAbove(entries + [e])
    requires forall q :: InfoAt(root, q) == Expected(entries, q)
    ensures AddEntry(root, e).Some?
    ensures forall q :: InfoAt(AddEntry(root, e).value, q) == Expected(entries + [e], q)
  {
    hide Parts, HasFileName, InfoAt;
    var all := entries + [e];
    var parts := Parts(e.path);
    assert e in all && all[..|entries|] == entries && Last(all) == e;
    assert Usable(e);
    forall k | 0 <= k < |parts| ensures !IsFileAt(root, parts[..k]) {
      FileAtEntry(entries, parts[..k]);
      assert InfoAt(root, parts[..k]) == Expected(entries, parts[..k]);
      assert parts[..k] < parts;
    }
    if e.FileEntry? {
      PlaceFileInfo(root, parts, e.file);
    } else {
      MakeDirsInfo(root, parts);
    }
    forall q ensures InfoAt(AddEntry(root, e).value, q) == Expected(all, q) {
      assert InfoAt(root, q) == Expected(entries, q);
      FileAtEntry(entries, q);
      CoveredByOneMore(entries, e, q);
      if e.FileEntry? && parts < q {
        NothingBelow(entries, e, q);
      }
    }
  }

  lemma CoveredByOneMore(entries: seq<Entry>, e: Entry, q: Path)
    ensures Covered(entries + [e], q) <==> Covered(entries, q) || q <= Parts(e.path)
    ensures FileAt(entries, q).Some? ==> Covered(entries, q)
  {
    hide Parts;
    FileAtEntry(entries, q);
    assert e in entries + [e] && forall f :: f in entries ==> f in entries + [e];
  }

  lemma NothingBelow(entries: seq<Entry>, e: Entry, q: Path)
    requires e.FileEntry? && Parts(e.path) < q && NoneAbove(entries + [e])
    ensures !Covered(entries + [e], q) && FileAt(entries, q).None?
  {
    hide Parts;
    var all := entries + [e];
    assert e in all;
    assert forall f <- all :: q <= Parts(f.path) ==> Parts(e.path) < Parts(f.path);
    CoveredByOneMore(entries, e, q);
  }

  /** The tree holds exactly the files and, as directories, exactly the prefixes of entries. */
  lemma {:induction false} BuiltHoldsEntries(entries: seq<Entry>)
    requires AllUsable(entries) && NoneAbove(entries)
    ensures Built(entries).Some?
    ensures forall q :: InfoAt(Built(entries).value, q) == Expected(entries, q)
  {
    if entries == [] {
      forall q ensures InfoAt(EMPTY_DIR, q) == Expected([], q) {
        NothingInEmpty(q);
      }
    } else {
      var init := entries[..|entries| - 1];
      assert entries == init + [Last(entries)];
      BuiltHoldsEntries(init);
      StepBuilds(init, Built(init).value, Last(entries));
    }
  }

  /** Entries with the same contents build the same tree, in whatever order they come. */
  lemma OrderIndependent(a: seq<Entry>, b: seq<Entry>)
    requires AllUsable(a) && NoneAbove(a) && OneFilePerPath(a)
    requires forall e :: e in a <==> e in b
    ensures Built(a).Some? && Built(a) == Built(b)
  {
    hide Parts, Usable;
    BuiltHoldsEntries(a);
    BuiltHoldsEntries(b);
    forall q ensures Expected(a, q) == Expected(b, q) {
      FileAtEntry(a, q);
      FileAtEntry(b, q);
    }
    SameTree(Built(a).value, Built(b).value);
  }

  // ---------------------------------------------------------------- when the order matters

  lemma {:induction false} PanicStays(entries: seq<Entry>, more: seq<Entry>)
    requires Built(entries).None?
    ensures Built(entries + more).None?
  {
    if more == [] {
      assert entries + more == entries;
    } else {
      assert (entries + more)[..|entries + more| - 1] == entries + more[..|more| - 1];
      PanicStays(entries, more[..|more| - 1]);
    }
  }

  lemma UnusablePanics(e: Entry)
    requires !Usable(e)
    ensures Built([e]).None?
  {
    hide HasFileName, Parts;
    assert [e][..0] == [] && Built([]) == Some(EMPTY_DIR);
    var parts := Parts(e.path);
    if e.DirEntry? || (HasFileName(e.path) && parts != []) {
      var k :| 0 <= k < |parts| && parts[k] == "..";
      assert Blocked(EMPTY_DIR, parts);
      if e.DirEntry? {
        MakeDirsInfo(EMPTY_DIR, parts);
      } else {
        PlaceFileInfo(EMPTY_DIR, parts, e.file);
      }
    }
  }

  lemma FileThenBelowPanics(e: Entry, f: Entry)
    requires e.FileEntry? && Parts(e.path) < Parts(f.path)
    ensures Built([e, f]).None?
  {
    hide HasFileName, Parts;
    assert [e, f][..1] == [e] && [e][..0] == [] && Built([]) == Some(EMPTY_DIR);
    if !Usable(e) {
      UnusablePanics(e);
    } else {
      var above, parts := Parts(e.path), Parts(f.path);
      PlaceFileInfo(EMPTY_DIR, above, e.file);
      if Built([e]).Some? {
        var root := Built([e]).value;
        assert root == PlaceFile(EMPTY_DIR, above, e.file).value;
        assert InfoAt(root, above) == WithFile(EMPTY_DIR, above, e.file, above);
        assert parts[..|above|] == above && IsFileAt(root, above);
        assert Blocked(root, parts);
        MakeDirsInfo(root, parts);
        if f.FileEntry? {
          PlaceFileInfo(root, parts, f.file);
        }
      }
    }
  }

  function Without<T>(s: seq<T>, i: nat): seq<T>
    requires i < |s|
  {
    s[..i] + s[i + 1..]
  }

  lemma MultisetWithout<T>(s: seq<T>, i: nat)
    requires i < |s|
    ensures multiset(s) == multiset(Without(s, i)) + multiset{s[i]}
  {
    AroundOne(s, i);
  }

  lemma AroundOne<T>(s: seq<T>, i: nat)
    requires i < |s|
    ensures s == s[..i] + [s[i]] + s[i + 1..]
  {
  }

  /** Moving two entries to the front. */
  function ToFront<T>(s: seq<T>, i: nat, j: nat): seq<T>
    requires i < |s| && j < |s| && i != j
  {
    [s[i], s[j]] + WithoutBoth(s, i, j)
  }

  function WithoutBoth<T>(s: seq<T>, i: nat, j: nat): seq<T>
    requires i < |s| && j < |s| && i != j
  {
    if i < j then Without(Without(s, j), i) else Without(Without(s, i), j)
  }

  lemma MultisetWithoutBoth<T>(s: seq<T>, i: nat, j: nat)
    requires i < |s| && j < |s| && i != j
    ensures multiset(s) == multiset(WithoutBoth(s, i, j)) + multiset{s[i]} + multiset{s[j]}
  {
    var (lo, hi) := if i < j then (i, j) else (j, i);
    assert Without(s, hi)[lo] == s[lo];
    hide Without;
    MultisetWithout(s, hi);
    MultisetWithout(Without(s, hi), lo);
  }

  lemma ToFrontPermutes<T>(s: seq<T>, i: nat, j: nat)
    requires i < |s| && j < |s| && i != j
    ensures multiset(ToFront(s, i, j)) == multiset(s)
  {
    MultisetWithoutBoth(s, i, j);
    hide WithoutBoth;
    assert multiset([s[i], s[j]]) == multiset{s[i]} + multiset{s[j]};
  }

  lemma PermutationHasSame<T>(a: seq<T>, b: seq<T>)
    requires multiset(a) == multiset(b)
    ensures forall e :: e in a <==> e in b
  {
    forall e ensures e in a <==> e in b {
      assert (e in a <==> e in multiset(a)) && (e in b <==> e in multiset(b));
    }
  }

  /** Exactly the archives without a file above another entry can be read in every order. */
  lemma EveryOrderReads(entries: seq<Entry>)
    ensures (forall b | multiset(b) == multiset(entries) :: Built(b).Some?) <==> AllUsable(entries) && NoneAbove(entries)
  {
    hide Built, Usable, Parts;
    if AllUsable(entries) && NoneAbove(entries) {
      forall b | multiset(b) == multiset(entries) ensures Built(b).Some? {
        PermutationHasSame(b, entries);
        BuiltHoldsEntries(b);
      }
    } else if !AllUsable(entries) {
      var i :| 0 <= i < |entries| && !Usable(entries[i]);
      var b := [entries[i]] + (entries[..i] + entries[i + 1..]);
      AroundOne(entries, i);
      assert multiset(b) == multiset(entries);
      UnusablePanics(entries[i]);
      PanicStays([entries[i]], entries[..i] + entries[i + 1..]);
    } else {
      var e, f :| e in entries && f in entries && e.FileEntry? && Parts(e.path) < Parts(f.path);
      var i :| 0 <= i < |entries| && entries[i] == e;
      var j :| 0 <= j < |entries| && entries[j] == f;
      ToFrontPermutes(entries, i, j);
      FileThenBelowPanics(e, f);
      PanicStays([e, f], ToFront(entries, i, j)[2..]);
      assert ToFront(entries, i, j) == [e, f] + ToFront(entries, i, j)[2..];
    }
  }

  /** All orders of the entries are read, and build this tree. */
  ghost predicate EveryOrderBuilds(entries: seq<Entry>, root: FsNode) {
    forall b | multiset(b) == multiset(entries) :: Built(b) == Some(root)
  }

  lemma BackBuilds(entries: seq<Entry>, i: nat, j: nat)
    requires i < |entries| && j < |entries| && i != j && AllUsable(entries) && NoneAbove(entries) && entries[j].FileEntry?
    ensures multiset(ToBack(entries, i, j)) == multiset(entries)
    ensures
      var built := Built(ToBack(entries, i, j));
      && built.Some?
      && InfoAt(built.value, Parts(entries[j].path)) == Some(FileInfo(IpaFileRef(entries[j].file), false))
  {
    hide Parts, Usable, Built, InfoAt;
    var b, q := ToBack(entries, i, j), Parts(entries[j].path);
    assert Last(b) == entries[j] && FileAt(b, q) == Some(entries[j].file);
    ToBackPermutes(entries, i, j);
    PermutationHasSame(b, entries);
    BuiltHoldsEntries(b);
    assert InfoAt(Built(b).value, q) == Expected(b, q);
  }

  /** Two files with different data at one path: the later one wins. */
  lemma LastFileWins(entries: seq<Entry>, i: nat, j: nat)
    requires i < |entries| && j < |entries| && AllUsable(entries) && NoneAbove(entries)
    requires entries[i].FileEntry? && entries[j].FileEntry?
    requires Parts(entries[i].path) == Parts(entries[j].path) && entries[i].file != entries[j].file
    ensures exists b, c | multiset(b) == multiset(entries) && multiset(c) == multiset(entries) :: Built(b) != Built(c)
  {
    hide *;
    BackBuilds(entries, i, j);
    BackBuilds(entries, j, i);
    assert multiset(ToBack(entries, i, j)) == multiset(entries) && multiset(ToBack(entries, j, i)) == multiset(entries);
  }

  /** Moving two entries to the back. */
  function ToBack<T>(s: seq<T>, i: nat, j: nat): seq<T>
    requires i < |s| && j < |s| && i != j
  {
    ToFront(s, i, j)[2..] + [s[i], s[j]]
  }

  lemma ToBackPermutes<T>(s: seq<T>, i: nat, j: nat)
    requires i < |s| && j < |s| && i != j
    ensures multiset(ToBack(s, i, j)) == multiset(s)
  {
    ToFrontPermutes(s, i, j);
    assert ToFront(s, i, j) == [s[i], s[j]] + ToFront(s, i, j)[2..];
  }

  /**
   The order of the entries does not matter, neither for panics nor for the tree, exactly when all
   are usable, no file lies above another entry, and files with one path hold the same data.
   */
  lemma OrderNeverMatters(entries: seq<Entry>)
    ensures (exists root :: EveryOrderBuilds(entries, root)) <==>
            AllUsable(entries) && NoneAbove(entries) && OneFilePerPath(entries)
  {
    hide Built, Usable, Parts;
    EveryOrderReads(entries);
    if AllUsable(entries) && NoneAbove(entries) && OneFilePerPath(entries) {
      forall b | multiset(b) == multiset(entries) ensures Built(b) == Built(entries) && Built(entries).Some? {
        PermutationHasSame(entries, b);
        OrderIndependent(entries, b);
      }
      assert EveryOrderBuilds(entries, Built(entries).value);
    } else if AllUsable(entries) && NoneAbove(entries) {
      var e, f :| e in entries && f in entries && e.FileEntry? && f.FileEntry? && Parts(e.path) == Parts(f.path) && e.file != f.file;
      var i: nat :| i < |entries| && entries[i] == e;
      var j: nat :| j < |entries| && entries[j] == f;
      LastFileWins(entries, i, j);
    }
  }

  // ---------------------------------------------------------------- paths

  lemma {:induction false} NonEmptyJoins(a: seq<string>, b: seq<string>)
    ensures NonEmpty(a + b) == NonEmpty(a) + NonEmpty(b)
  {
    if b == [] {
      assert a + b == a;
    } else {
      assert (a + b)[..|a + b| - 1] == a + b[..|b| - 1];
      NonEmptyJoins(a, b[..|b| - 1]);
    }
  }

  lemma NonEmptyAt(parts: seq<string>, i: nat)
    requires i < |parts|
    ensures NonEmpty(parts[..i + 1]) == NonEmpty(parts[..i]) + (if parts[i] == "" then [] else [parts[i]])
    ensures parts[i] != "" ==>
      var at := NonEmpty(parts[..i]);
      |at| < |NonEmpty(parts)| && NonEmpty(parts)[..|at|] == at && NonEmpty(parts)[|at|] == parts[i]
  {
    assert parts[..i + 1][..i] == parts[..i];
    AroundOne(parts, i);
    NonEmptyJoins(parts[..i + 1], parts[i + 1..]);
    assert parts == parts[..i + 1] + parts[i + 1..];
    hide NonEmpty;
  }

  /** A file's components are those of its parent and its name. */
  lemma PartsOfFile(parent: string, name: string)
    requires name != "" && '/' !in name
    ensures Parts(parent + "/" + name) == Parts(parent) + [name]
  {
    SplitJoins(parent, name);
    SplitWhole(name);
    NonEmptyJoins(Split(parent), [name]);
    assert [name][..0] == [];
    assert NonEmpty([name]) == [name];
  }

  /** `str::rsplit_once('/')` */
  method RsplitOnce(path: string) returns (split: Option<(string, string)>)
    ensures split.None? <==> '/' !in path
    ensures split.Some? ==> path == split.value.0 + "/" + split.value.1 && '/' !in split.value.1
  {
    var i := |path|;
    while i > 0
      invariant 0 <= i <= |path| && '/' !in path[i..]
    {
      if path[i - 1] == '/' {
        assert path == path[..i - 1] + "/" + path[i..];
        return Some((path[..i - 1], path[i..]));
      }
      i := i - 1;
    }
    return None;
  }

  // ---------------------------------------------------------------- the builder

  class FsNodeBuilder {
    var root: FsNode

    constructor ()
      ensures root == EMPTY_DIR
    {
      root := EMPTY_DIR;
    }

    /** Where the directory is, or `None` when the walk panics. */
    method FindOrMakeDirectory(path: string) returns (current: Option<Path>)
      modifies this
      ensures current.None? <==> MakeDirs(old(root), Parts(path)).None?
      ensures current.Some? ==> current.value == Parts(path) && Some(root) == MakeDirs(old(root), Parts(path))
    {
      hide InfoAt;
      var parts := Split(path);
      var at: Path := [];
      MakeDirsInfo(old(root), Parts(path));
      InfoIsOfLookup(root, []);
      for i := 0 to |parts|
        invariant at == NonEmpty(parts[..i])
        invariant !Blocked(old(root), at)
        invariant forall q :: InfoAt(root, q) == WithDirs(old(root), at, q)
      {
        NonEmptyAt(parts, i);
        if parts[i] == "" {
          continue;
        }
        DirsMadeSoFar(old(root), root, at);
        if parts[i] == ".." {
          return None;
        }
        var found := Lookup(root, at);
        InfoIsOfLookup(root, at);
        if found.None? || found.value.File? {
          return None;
        }
        ghost var before := root;
        if parts[i] !in found.value.children {
          root := Put(root, at + [parts[i]], Some(EMPTY_DIR));
        }
        WalkedOne(old(root), before, at, parts[i], root);
        at := at + [parts[i]];
      }
      assert parts[..|parts|] == parts;
      MakeDirsInfo(old(root), at);
      SameTree(root, MakeDirs(old(root), at).value);
      return Some(at);
    }

    method AddFile(path: string, file: nat) returns (ok: bool)
      modifies this
      ensures ok <==> AddEntry(old(root), FileEntry(path, file)).Some?
      ensures ok ==> Some(root) == AddEntry(old(root), FileEntry(path, file))
    {
      hide InfoAt;
      if path != "" && path[|path| - 1] == '/' {
        return false;
      }
      var split := RsplitOnce(path);
      if split.None? {
        return false;
      }
      var parentName: string := split.value.0;
      var fileName: string := split.value.1;
      assert Last(path) == (if fileName == "" then '/' else Last(fileName));
      PartsOfFile(parentName, fileName);
      var parts := Parts(parentName);
      MakeDirsInfo(old(root), parts);
      PlaceFileInfo(old(root), parts + [fileName], file);
      BlockedByOneMore(old(root), parts, fileName);
      if fileName == ".." {
        return false;
      }
      var dir := FindOrMakeDirectory(parentName);
      if dir.None? {
        return false;
      }
      DirsMadeSoFar(old(root), root, parts);
      var found := Lookup(root, dir.value);
      InfoIsOfLookup(root, dir.value);
      if found.None? || found.value.File? {
        return false;
      }
      ghost var before := root;
      var node := File(IpaFileRef(file), false);
      root := Put(root, dir.value + [fileName], Some(node));
      PlacedOne(old(root), before, parts, fileName, file, root);
      SameTree(root, PlaceFile(old(root), parts + [fileName], file).value);
      return true;
    }

    method AddDirectory(path: string) returns (ok: bool)
      modifies this
      ensures ok <==> AddEntry(old(root), DirEntry(path)).Some?
      ensures ok ==> Some(root) == AddEntry(old(root), DirEntry(path))
    {
      var dir := FindOrMakeDirectory(path);
      return dir.Some?;
    }
  }

  lemma InfoIsOfLookup(node: FsNode, q: Path)
    ensures InfoAt(node, q).Some? <==> Lookup(node, q).Some?
    ensures Lookup(node, q).Some? ==> InfoAt(node, q).value == InfoOf(Lookup(node, q).value)
  {
  }

  /** While walking: the directory reached is there, and is a file only if it was one. */
  lemma DirsMadeSoFar(was: FsNode, node: FsNode, at: Path)
    requires forall q :: InfoAt(node, q) == WithDirs(was, at, q)
    ensures InfoAt(node, at).Some?
    ensures IsFileAt(node, at) <==> IsFileAt(was, at)
  {
    hide InfoAt;
    assert InfoAt(node, at) == WithDirs(was, at, at);
  }

  lemma BlockedByOneMore(node: FsNode, parts: Path, name: string)
    ensures Blocked(node, parts + [name]) <==> Blocked(node, parts) || name == ".." || IsFileAt(node, parts)
  {
    hide IsFileAt;
    var all := parts + [name];
    assert all[..|parts|] == parts && all[|parts|] == name;
    assert forall k | 0 <= k < |parts| :: all[..k] == parts[..k] && all[k] == parts[k];
  }

  lemma WalkedOne(was: FsNode, before: FsNode, at: Path, name: string, after: FsNode)
    requires !Blocked(was, at) && name != ".." && !IsFileAt(was, at)
    requires forall q :: InfoAt(before, q) == WithDirs(was, at, q)
    requires IsDirAt(before, at)
    requires
      if name in Lookup(before, at).value.children then after == before
      else after == Put(before, at + [name], Some(EMPTY_DIR))
    ensures !Blocked(was, at + [name])
    ensures forall q :: InfoAt(after, q) == WithDirs(was, at + [name], q)
  {
    BlockedByOneMore(was, at, name);
    var path := at + [name];
    assert Parent(path) == at;
    ChildFound(before, at, name);
    forall q ensures InfoAt(after, q) == WithDirs(was, path, q) {
      hide InfoAt, Lookup, Put, Blocked;
      assert InfoAt(before, q) == WithDirs(was, at, q);
      assert InfoAt(before, path) == WithDirs(was, at, path);
      assert q <= path <==> q <= at || q == path by { PrefixByOneMore(q, at, name); }
      if name !in Lookup(before, at).value.children {
        InfoPut(before, path, Some(EMPTY_DIR), q);
        if path <= q {
          NothingInEmpty(q[|path|..]);
          NothingUnderMissing(before, path, q);
        }
      }
    }
  }

  lemma PrefixByOneMore(q: Path, at: Path, name: string)
    ensures q <= at + [name] <==> q <= at || q == at + [name]
  {
    if q <= at + [name] && |q| <= |at| {
      assert q == (at + [name])[..|q|] == at[..|q|];
    }
    if q <= at {
      assert at[..|q|] == q && (at + [name])[..|q|] == q;
    }
  }

  lemma {:induction false} ChildFound(node: FsNode, at: Path, name: string)
    requires IsDirAt(node, at)
    ensures InfoAt(node, at + [name]).Some? <==> name in Lookup(node, at).value.children
    decreases |at|
  {
    if at == [] {
      assert at + [name] == [name] && [name][1..] == [];
      assert name in node.children ==> Lookup(node, [name]) == Lookup(node.children[name], []);
    } else {
      assert (at + [name])[1..] == at[1..] + [name];
      ChildFound(node.children[at[0]], at[1..], name);
    }
  }

  lemma {:induction false} NothingUnderMissing(node: FsNode, path: Path, q: Path)
    requires path <= q && InfoAt(node, path).None?
    ensures InfoAt(node, q).None?
    decreases |path|
  {
    if path != [] && node.Directory? && path[0] in node.children {
      PrefixThroughChild(path, q);
      NothingUnderMissing(node.children[path[0]], path[1..], q[1..]);
    }
  }

  lemma PlacedOne(was: FsNode, before: FsNode, at: Path, name: string, file: nat, after: FsNode)
    requires forall q :: InfoAt(before, q) == WithDirs(was, at, q)
    requires IsDirAt(before, at)
    requires after == Put(before, at + [name], Some(File(IpaFileRef(file), false)))
    ensures forall q :: InfoAt(after, q) == WithFile(was, at + [name], file, q)
  {
    var path := at + [name];
    assert Parent(path) == at;
    var node := File(IpaFileRef(file), false);
    forall q ensures InfoAt(after, q) == WithFile(was, path, file, q) {
      assert InfoAt(before, q) == WithDirs(was, at, q);
      InfoPut(before, path, Some(node), q);
      PrefixByOneMore(q, at, name);
      if path <= q {
        assert InfoAt(node, q[|path|..]) == if q == path then Some(FileInfo(IpaFileRef(file), false)) else None;
      }
    }
  }

  // ---------------------------------------------------------------- the archive

  /** `name.strip_prefix(bundle_path)`: an entry outside the bundle is passed over. */
  function StrippedEntry(e: ZipEntry, bundlePath: string): seq<Entry> {
    if !(bundlePath <= e.name) then []
    else if e.isDir then [DirEntry(e.name[|bundlePath|..])]
    else [FileEntry(e.name[|bundlePath|..], e.data)]
  }

  function Stripped(entries: seq<ZipEntry>, bundlePath: string): seq<Entry> {
    if entries == [] then []
    else Stripped(entries[..|entries| - 1], bundlePath) + StrippedEntry(Last(entries), bundlePath)
  }

  /** `None` when an entry panics. */
  method IntoFsNode(entries: seq<ZipEntry>, bundlePath: string) returns (root: Option<FsNode>)
    ensures root == Built(Stripped(entries, bundlePath))
  {
    hide Built, Stripped, AddEntry;
    var builder := new FsNodeBuilder();
    assert Built(Stripped([], bundlePath)) == Some(EMPTY_DIR) by {
      BuiltFromNothing(bundlePath);
    }
    for i := 0 to |entries|
      invariant Some(builder.root) == Built(Stripped(entries[..i], bundlePath))
    {
      StrippedStep(entries, i, bundlePath);
      var name := entries[i].name;
      assert !(bundlePath <= name) ==> Stripped(entries[..i + 1], bundlePath) == Stripped(entries[..i], bundlePath);
      if bundlePath <= name {
        var path := name[|bundlePath|..];
        ghost var e := if entries[i].isDir then DirEntry(path) else FileEntry(path, entries[i].data);
        BuiltOneMore(Stripped(entries[..i], bundlePath), e);
        var ok;
        if entries[i].isDir {
          ok := builder.AddDirectory(path);
        } else {
          ok := builder.AddFile(path, entries[i].data);
        }
        if !ok {
          PanicStays(Stripped(entries[..i + 1], bundlePath), Stripped(entries[i + 1..], bundlePath));
          return None;
        }
      }
    }
    assert entries[..|entries|] == entries;
    return Some(builder.root);
  }

  lemma BuiltFromNothing(bundlePath: string)
    ensures Built(Stripped([], bundlePath)) == Some(EMPTY_DIR)
  {
  }

  lemma BuiltOneMore(entries: seq<Entry>, e: Entry)
    ensures Built(entries + [e]) ==
      match Built(entries)
      case None => None
      case Some(root) => AddEntry(root, e)
  {
    assert (entries + [e])[..|entries|] == entries;
  }

  lemma StrippedStep(entries: seq<ZipEntry>, i: nat, bundlePath: string)
    requires i < |entries|
    ensures Stripped(entries[..i + 1], bundlePath) == Stripped(entries[..i], bundlePath) + StrippedEntry(entries[i], bundlePath)
    ensures Stripped(entries, bundlePath) == Stripped(entries[..i + 1], bundlePath) + Stripped(entries[i + 1..], bundlePath)
  {
    hide StrippedEntry;
    assert entries[..i + 1][..i] == entries[..i];
    assert entries == entries[..i + 1] + entries[i + 1..];
    StrippedJoins(entries[..i + 1], entries[i + 1..], bundlePath);
  }

  lemma {:induction false} StrippedJoins(a: seq<ZipEntry>, b: seq<ZipEntry>, bundlePath: string)
    ensures Stripped(a + b, bundlePath) == Stripped(a, bundlePath) + Stripped(b, bundlePath)
  {
    if b == [] {
      assert a + b == a;
    } else {
      assert (a + b)[..|a + b| - 1] == a + b[..|b| - 1];
      StrippedJoins(a, b[..|b| - 1], bundlePath);
    }
  }

  lemma {:induction false} StrippedEntries(entries: seq<ZipEntry>, bundlePath: string, e: Entry)
    ensures e in Stripped(entries, bundlePath) <==> exists z :: z in entries && e in StrippedEntry(z, bundlePath)
  {
    if entries != [] {
      hide StrippedEntry;
      var init := entries[..|entries| - 1];
      StrippedEntries(init, bundlePath, e);
      assert entries == init + [Last(entries)];
      assert Last(entries) in entries && forall z :: z in init ==> z in entries;
    }
  }

  lemma StrippedWithout(a: seq<ZipEntry>, i: nat, bundlePath: string)
    requires i < |a|
    ensures multiset(Stripped(a, bundlePath)) ==
            multiset(Stripped(Without(a, i), bundlePath)) + multiset(StrippedEntry(a[i], bundlePath))
  {
    StrippedStep(a, i, bundlePath);
    StrippedJoins(a[..i], a[i + 1..], bundlePath);
    hide StrippedEntry, Stripped;
  }

  lemma StrippedOneMore(a: seq<ZipEntry>, z: ZipEntry, bundlePath: string)
    ensures Stripped(a + [z], bundlePath) == Stripped(a, bundlePath) + StrippedEntry(z, bundlePath)
  {
    assert (a + [z])[..|a|] == a;
  }

  /** Whatever order the entries inside the bundle take, an archive in some order gives them so. */
  lemma {:induction false} StrippedInOrder(a: seq<ZipEntry>, bundlePath: string, c: seq<Entry>) returns (b: seq<ZipEntry>)
    requires multiset(c) == multiset(Stripped(a, bundlePath))
    ensures multiset(b) == multiset(a) && Stripped(b, bundlePath) == c
    decreases |c|, 1
  {
    PermutationHasSame(c, Stripped(a, bundlePath));
    if c == [] {
      assert |multiset(c)| == |multiset(Stripped(a, bundlePath))| == |Stripped(a, bundlePath)|;
      b := a;
    } else {
      var last := |c| - 1;
      StrippedEntries(a, bundlePath, c[last]);
      var i: nat :| i < |a| && c[last] in StrippedEntry(a[i], bundlePath);
      b := StrippedMoved(a, bundlePath, c, i);
    }
  }

  /** The archive with its entry `i` last. */
  lemma {:induction false} StrippedMoved(a: seq<ZipEntry>, bundlePath: string, c: seq<Entry>, i: nat) returns (b: seq<ZipEntry>)
    requires multiset(c) == multiset(Stripped(a, bundlePath)) && c != []
    requires i < |a| && c[|c| - 1] in StrippedEntry(a[i], bundlePath)
    ensures multiset(b) == multiset(a) && Stripped(b, bundlePath) == c
    decreases |c|, 0
  {
    StrippedRest(a, bundlePath, c, i);
    InitAndLast(c);
    b := StrippedInOrder(Without(a, i), bundlePath, c[..|c| - 1]);
    StrippedOneMore(b, a[i], bundlePath);
    MovedToEnd(a, i, b);
    hide *;
    b := b + [a[i]];
  }

  lemma MovedToEnd(a: seq<ZipEntry>, i: nat, b: seq<ZipEntry>)
    requires i < |a| && multiset(b) == multiset(Without(a, i))
    ensures multiset(b + [a[i]]) == multiset(a)
  {
    MultisetWithout(a, i);
  }

  lemma StrippedRest(a: seq<ZipEntry>, bundlePath: string, c: seq<Entry>, i: nat)
    requires multiset(c) == multiset(Stripped(a, bundlePath)) && c != []
    requires i < |a| && c[|c| - 1] in StrippedEntry(a[i], bundlePath)
    ensures StrippedEntry(a[i], bundlePath) == [c[|c| - 1]]
    ensures multiset(c[..|c| - 1]) == multiset(Stripped(Without(a, i), bundlePath))
  {
    StrippedWithout(a, i, bundlePath);
    var e := c[|c| - 1];
    assert StrippedEntry(a[i], bundlePath) == [e];
    hide *;
    MultisetInit(c);
    MultisetCancel(multiset(c[..|c| - 1]), multiset(Stripped(Without(a, i), bundlePath)), multiset([e]));
  }

  lemma InitAndLast(c: seq<Entry>)
    requires c != []
    ensures c == c[..|c| - 1] + [c[|c| - 1]]
  {
  }

  lemma MultisetInit(c: seq<Entry>)
    requires c != []
    ensures multiset(c) == multiset(c[..|c| - 1]) + multiset([c[|c| - 1]])
  {
    InitAndLast(c);
  }

  lemma MultisetCancel<T>(m: multiset<T>, n: multiset<T>, last: multiset<T>)
    requires m + last == n + last
    ensures m == n
  {
    assert m == (m + last) - last && n == (n + last) - last;
  }

  lemma {:induction false} StrippedPermutes(a: seq<ZipEntry>, b: seq<ZipEntry>, bundlePath: string)
    requires multiset(a) == multiset(b)
    ensures multiset(Stripped(a, bundlePath)) == multiset(Stripped(b, bundlePath))
    decreases |a|
  {
    PermutationHasSame(a, b);
    if a == [] {
      assert |multiset(a)| == |multiset(b)| == |b|;
    } else {
      var last := |a| - 1;
      assert a[last] in b;
      var i: nat :| i < |b| && b[i] == a[last];
      hide *;
      MultisetWithout(a, last);
      MultisetWithout(b, i);
      MultisetCancel(multiset(Without(a, last)), multiset(Without(b, i)), multiset{a[last]});
      StrippedPermutes(Without(a, last), Without(b, i), bundlePath);
      StrippedWithout(a, last, bundlePath);
      StrippedWithout(b, i, bundlePath);
    }
  }

  /** The archive builds this tree, in whatever order its entries are stored. */
  ghost predicate EveryArchiveBuilds(a: seq<ZipEntry>, bundlePath: string, root: FsNode) {
    forall b | multiset(b) == multiset(a) :: Built(Stripped(b, bundlePath)) == Some(root)
  }

  lemma EveryArchiveOrder(a: seq<ZipEntry>, bundlePath: string, root: FsNode)
    ensures EveryArchiveBuilds(a, bundlePath, root) <==> EveryOrderBuilds(Stripped(a, bundlePath), root)
  {
    hide Built, Stripped;
    var entries := Stripped(a, bundlePath);
    if EveryOrderBuilds(entries, root) {
      forall b | multiset(b) == multiset(a) ensures Built(Stripped(b, bundlePath)) == Some(root) {
        StrippedPermutes(a, b, bundlePath);
      }
    }
    if EveryArchiveBuilds(a, bundlePath, root) {
      forall c | multiset(c) == multiset(entries) ensures Built(c) == Some(root) {
        var b := StrippedInOrder(a, bundlePath, c);
      }
    }
  }

  /**
   The archive may store its entries in any order exactly when, of the entries inside the bundle,
   all are usable, no file lies above another, and files with one path hold the same data.
   */
  lemma ArchiveOrderIndependent(a: seq<ZipEntry>, bundlePath: string)
    ensures
      var entries := Stripped(a, bundlePath);
      (exists root :: EveryArchiveBuilds(a, bundlePath, root)) <==>
      AllUsable(entries) && NoneAbove(entries) && OneFilePerPath(entries)
  {
    hide Stripped, AllUsable, NoneAbove, OneFilePerPath, EveryArchiveBuilds, EveryOrderBuilds;
    OrderNeverMatters(Stripped(a, bundlePath));
    forall root ensures EveryArchiveBuilds(a, bundlePath, root) <==> EveryOrderBuilds(Stripped(a, bundlePath), root) {
      EveryArchiveOrder(a, bundlePath, root);
    }
  }
}
