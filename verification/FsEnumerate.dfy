/**
 The recursive listing of a guest directory, done with an explicit stack of iterators whose order
 is arbitrary.
 */
module FsEnumerate {
  import opened Wrappers
  import opened FsTree

  type Item = (string, FsNode)

  /** The paths found below a node, its own included. */
  ghost function Paths(node: FsNode): set<Path> {
    match node
    case File(_, _) => {[]}
    case Directory(children, _) => {[]} + set name, q | name in children && q in Paths(children[name]) :: [name] + q
  }

  lemma {:induction false} PathsAreFound(node: FsNode, q: Path)
    ensures q in Paths(node) <==> Lookup(node, q).Some?
    decreases |q|
  {
    if q != [] && node.Directory? {
      if q[0] in node.children {
        PathsAreFound(node.children[q[0]], q[1..]);
        assert q == [q[0]] + q[1..];
      }
      if q in Paths(node) {
        var name, rest :| name in node.children && rest in Paths(node.children[name]) && [name] + rest == q;
        assert q[0] == name && q[1..] == rest;
      }
    }
  }

  /** Every proper descendant once, each after its parent. */
  ghost predicate IsListing(node: FsNode, listed: seq<Path>) {
    && Distinct(listed)
    && (forall q :: q in listed <==> q != [] && Lookup(node, q).Some?)
    && forall i | 0 <= i < |listed| && |listed[i]| > 1 :: Parent(listed[i]) in listed[..i]
  }

  /** `component_stack.join("/")`. */
  function JoinComponents(components: Path): string {
    if components == [] then ""
    else if |components| == 1 then components[0]
    else JoinComponents(Parent(components)) + "/" + Last(components)
  }

  function JoinAll(listed: seq<Path>): seq<string> {
    seq(|listed|, i requires 0 <= i < |listed| => JoinComponents(listed[i]))
  }

  // ---------------------------------------------------------------- iterators

  /** The items are entries of the directory, under different names. */
  ghost predicate AreEntries(children: map<string, FsNode>, items: seq<Item>) {
    && (forall i | 0 <= i < |items| :: items[i].0 in children && children[items[i].0] == items[i].1)
    && (forall i, j | 0 <= i < j < |items| :: items[i].0 != items[j].0)
  }

  ghost predicate HasName(items: seq<Item>, name: string) {
    exists i :: 0 <= i < |items| && items[i].0 == name
  }

  /** The entries of a directory in an arbitrary order. */
  method Iterate(children: map<string, FsNode>) returns (items: seq<Item>)
    ensures AreEntries(children, items) && forall name <- children :: HasName(items, name)
  {
    items := [];
    var left := children.Keys;
    while left != {}
      invariant left <= children.Keys && AreEntries(children, items)
      invariant forall name <- children :: HasName(items, name) <==> name !in left
      invariant forall i | 0 <= i < |items| :: items[i].0 !in left
    {
      var name :| name in left;
      ghost var before := items;
      items := items + [(name, children[name])];
      left := left - {name};
      forall other <- children ensures HasName(items, other) <==> HasName(before, other) || other == name {
        if HasName(before, other) {
          var i :| 0 <= i < |before| && before[i].0 == other;
          assert items[i].0 == other;
        }
        assert items[|before|].0 == name;
      }
    }
  }

  // ---------------------------------------------------------------- the stacks

  /** What is still to come at level `j`: the entries below `stack[..j]` that are not yet taken. */
  ghost predicate PendingAt(stack: Path, iterators: seq<seq<Item>>, q: Path, j: nat)
    requires j < |iterators| && |iterators| == |stack| + 1
  {
    && j < |q|
    && stack[..j] == q[..j]
    && exists i :: 0 <= i < |iterators[j]| && iterators[j][i].0 == q[j] && Lookup(iterators[j][i].1, q[j + 1..]).Some?
  }

  ghost predicate Pending(stack: Path, iterators: seq<seq<Item>>, q: Path)
    requires |iterators| == |stack| + 1
  {
    exists j: nat :: j < |iterators| && PendingAt(stack, iterators, q, j)
  }

  /** Level `j` iterates over the directory at `stack[..j]` and has passed `stack[j]`. */
  ghost predicate LevelSound(node: FsNode, stack: Path, iterators: seq<seq<Item>>, j: nat)
    requires j < |iterators| && |iterators| == |stack| + 1
  {
    && IsDirAt(node, stack[..j])
    && AreEntries(Lookup(node, stack[..j]).value.children, iterators[j])
    && (j < |stack| ==> !HasName(iterators[j], stack[j]))
  }

  ghost predicate Traversing(node: FsNode, stack: Path, iterators: seq<seq<Item>>, listed: seq<Path>) {
    && |iterators| == |stack| + 1
    && (forall j: nat | j < |iterators| :: LevelSound(node, stack, iterators, j))
    && (forall j: nat | 0 < j <= |stack| :: stack[..j] in listed)
    && Distinct(listed)
    && (forall q :: q in listed <==> q != [] && Lookup(node, q).Some? && !Pending(stack, iterators, q))
    && forall i | 0 <= i < |listed| && |listed[i]| > 1 :: Parent(listed[i]) in listed[..i]
  }

  /** A path below a directory is found through the child it starts with. */
  lemma {:induction false} LookupSplit(node: FsNode, p: Path, q: Path)
    ensures Lookup(node, p + q) == if Lookup(node, p).Some? then Lookup(Lookup(node, p).value, q) else None
    decreases |p|
  {
    if p == [] {
      assert p + q == q;
    } else if node.Directory? && p[0] in node.children {
      assert (p + q)[1..] == p[1..] + q;
      LookupSplit(node.children[p[0]], p[1..], q);
    }
  }

  /** What is pending is there. */
  lemma PendingIsFound(node: FsNode, stack: Path, iterators: seq<seq<Item>>, q: Path, j: nat)
    requires j < |iterators| && |iterators| == |stack| + 1
    requires LevelSound(node, stack, iterators, j) && PendingAt(stack, iterators, q, j)
    ensures Lookup(node, q).Some?
  {
    assert q == stack[..j] + ([q[j]] + q[j + 1..]);
    LookupSplit(node, stack[..j], [q[j]] + q[j + 1..]);
    assert ([q[j]] + q[j + 1..])[1..] == q[j + 1..];
  }

  /** The stacks after the next item of the topmost iterator has been taken. */
  function Taken(iterators: seq<seq<Item>>): seq<seq<Item>>
    requires |iterators| > 0 && Last(iterators) != []
  {
    iterators[|iterators| - 1 := Last(iterators)[1..]]
  }

  /** Levels below the topmost one do not see the change. */
  lemma LowerLevels(stack: Path, iterators: seq<seq<Item>>, stack': Path, iterators': seq<seq<Item>>, q: Path, j: nat)
    requires |iterators| == |stack| + 1 && |iterators'| == |stack'| + 1
    requires j < |iterators| && j < |iterators'| && j <= |stack| && j <= |stack'|
    requires stack[..j] == stack'[..j] && iterators[j] == iterators'[j]
    ensures PendingAt(stack, iterators, q, j) <==> PendingAt(stack', iterators', q, j)
  {
  }

  /** At the topmost level the item taken accounts for the paths that start with it. */
  lemma TopLevel(stack: Path, iterators: seq<seq<Item>>, q: Path)
    requires |iterators| == |stack| + 1 && Last(iterators) != []
    ensures
      var (name, child) := Last(iterators)[0];
      var k := |stack|;
      PendingAt(stack, iterators, q, k) <==>
        || PendingAt(stack, Taken(iterators), q, k)
        || (k < |q| && q[..k + 1] == stack + [name] && Lookup(child, q[k + 1..]).Some?)
  {
    var items := Last(iterators);
    var k := |stack|;
    assert k < |q| ==> q[..k + 1] == q[..k] + [q[k]];
    if k < |q| {
      assert stack + [items[0].0] == q[..k + 1] <==> stack == q[..k] && items[0].0 == q[k] by {
        assert (stack + [items[0].0])[..k] == stack && q[..k + 1][..k] == q[..k];
        assert (stack + [items[0].0])[k] == items[0].0 && q[..k + 1][k] == q[k];
      }
    }
    if PendingAt(stack, iterators, q, k) {
      var i :| 0 <= i < |items| && items[i].0 == q[k] && Lookup(items[i].1, q[k + 1..]).Some?;
      if i > 0 { assert items[1..][i - 1] == items[i]; }
    }
    if PendingAt(stack, Taken(iterators), q, k) {
      var i :| 0 <= i < |items| - 1 && items[1..][i].0 == q[k] && Lookup(items[1..][i].1, q[k + 1..]).Some?;
      assert items[i + 1] == items[1..][i];
    }
    assert iterators[k] == items && Taken(iterators)[k] == items[1..];
    if k < |q| && q[..k + 1] == stack + [items[0].0] && Lookup(items[0].1, q[k + 1..]).Some? {
      assert iterators[k][0].0 == q[k];
    }
  }

  /** The entries of a directory just entered account for everything below it. */
  lemma NewLevel(stack: Path, iterators: seq<seq<Item>>, node: FsNode, q: Path)
    requires |iterators| == |stack| + 1 && node.Directory?
    requires AreEntries(node.children, Last(iterators)) && forall name <- node.children :: HasName(Last(iterators), name)
    ensures
      var k := |stack|;
      PendingAt(stack, iterators, q, k) <==> k < |q| && q[..k] == stack && Lookup(node, q[k..]).Some?
  {
    var k := |stack|;
    if k < |q| {
      assert q[k..][1..] == q[k + 1..];
      if q[k] in node.children {
        assert HasName(Last(iterators), q[k]);
      }
    }
  }

  /** Nothing at or above the stack is pending. */
  lemma StackIsNotPending(node: FsNode, stack: Path, iterators: seq<seq<Item>>, q: Path, j: nat)
    requires j < |iterators| && |iterators| == |stack| + 1
    requires j < |stack| && j < |q| && q[..j + 1] == stack[..j + 1] && LevelSound(node, stack, iterators, j)
    ensures !PendingAt(stack, iterators, q, j)
  {
    assert q[..j + 1][j] == q[j] && stack[..j + 1][j] == stack[j];
  }

  /** Taking an item: its path was pending and is not any more; nothing else changes. */
  lemma TakeItem(
    node: FsNode, stack: Path, iterators: seq<seq<Item>>, stack': Path, iterators': seq<seq<Item>>, q: Path)
    requires |iterators| == |stack| + 1 && Last(iterators) != []
    requires forall j: nat | j < |iterators| :: LevelSound(node, stack, iterators, j)
    requires
      var (name, child) := Last(iterators)[0];
      if child.Directory? then
        && stack' == stack + [name]
        && |iterators'| == |iterators| + 1 && iterators'[..|iterators|] == Taken(iterators)
        && AreEntries(child.children, Last(iterators'))
        && forall n <- child.children :: HasName(Last(iterators'), n)
      else stack' == stack && iterators' == Taken(iterators)
    ensures Pending(stack', iterators', q) <==> Pending(stack, iterators, q) && q != stack + [Last(iterators)[0].0]
    ensures Pending(stack, iterators, stack + [Last(iterators)[0].0])
  {
    var (name, child) := Last(iterators)[0];
    var q0 := stack + [name];
    var k := |stack|;
    assert q0[..k + 1] == q0 && q0[k + 1..] == [];
    TopLevel(stack, iterators, q);
    TopLevel(stack, iterators, q0);
    forall j: nat | j < k
      ensures PendingAt(stack, iterators, q, j) <==> PendingAt(stack', iterators', q, j)
      ensures !PendingAt(stack, iterators, q0, j)
    {
      assert iterators'[j] == Taken(iterators)[j] == iterators[j];
      assert stack'[..j] == stack[..j] && q0[..j + 1] == stack[..j + 1];
      LowerLevels(stack, iterators, stack', iterators', q, j);
      StackIsNotPending(node, stack, iterators, q0, j);
    }
    assert iterators'[k] == Taken(iterators)[k] && stack'[..k] == stack[..k];
    LowerLevels(stack, Taken(iterators), stack', iterators', q, k);
    assert !PendingAt(stack, Taken(iterators), q0, k) by {
      assert LevelSound(node, stack, iterators, k);
      assert q0[k] == name;
    }
    assert k < |q| ==> q == q[..k + 1] + q[k + 1..];
    if child.Directory? {
      NewLevel(stack', iterators', child, q);
    }
  }

  /** Levels stay sound when an item is taken. */
  lemma TakeKeepsLevels(
    node: FsNode, stack: Path, iterators: seq<seq<Item>>, stack': Path, iterators': seq<seq<Item>>, j: nat)
    requires |iterators| == |stack| + 1 && Last(iterators) != []
    requires forall i: nat | i < |iterators| :: LevelSound(node, stack, iterators, i)
    requires
      var (name, child) := Last(iterators)[0];
      if child.Directory? then
        && stack' == stack + [name]
        && |iterators'| == |iterators| + 1 && iterators'[..|iterators|] == Taken(iterators)
        && AreEntries(child.children, Last(iterators'))
      else stack' == stack && iterators' == Taken(iterators)
    requires j < |iterators'|
    ensures LevelSound(node, stack', iterators', j)
  {
    var (name, child) := Last(iterators)[0];
    var k := |stack|;
    assert LevelSound(node, stack, iterators, k);
    assert stack[..k] == stack;
    if j < k {
      assert LevelSound(node, stack, iterators, j);
      assert iterators'[j] == Taken(iterators)[j] == iterators[j] && stack'[..j] == stack[..j];
    } else if j == k {
      assert iterators'[k] == Taken(iterators)[k] == Last(iterators)[1..] && stack'[..k] == stack;
    } else {
      assert stack'[..k + 1] == stack + [name];
      LookupSplit(node, stack, [name]);
      assert [name][1..] == [];
    }
  }

  lemma AllPendingIsFound(node: FsNode, stack: Path, iterators: seq<seq<Item>>, q: Path)
    requires |iterators| == |stack| + 1 && Pending(stack, iterators, q)
    requires forall i: nat | i < |iterators| :: LevelSound(node, stack, iterators, i)
    ensures Lookup(node, q).Some?
  {
    hide LevelSound, PendingAt;
    var j: nat :| j < |iterators| && PendingAt(stack, iterators, q, j);
    PendingIsFound(node, stack, iterators, q, j);
  }

  /** The path taken comes after its parent. */
  lemma TakeKeepsOrder(stack: Path, listed: seq<Path>, q0: Path)
    requires q0 != [] && Parent(q0) == stack && q0 !in listed && Distinct(listed)
    requires forall j: nat | 0 < j <= |stack| :: stack[..j] in listed
    requires forall i | 0 <= i < |listed| && |listed[i]| > 1 :: Parent(listed[i]) in listed[..i]
    ensures Distinct(listed + [q0])
    ensures forall j: nat | 0 < j <= |stack| :: stack[..j] in listed + [q0]
    ensures forall j: nat | 0 < j <= |q0| :: q0[..j] in listed + [q0]
    ensures forall i | 0 <= i < |listed + [q0]| && |(listed + [q0])[i]| > 1 ::
      Parent((listed + [q0])[i]) in (listed + [q0])[..i]
  {
    var listed' := listed + [q0];
    assert listed'[|listed|] == q0 && q0[..|q0|] == q0;
    forall j: nat | 0 < j <= |q0| ensures q0[..j] in listed' {
      if j < |q0| {
        assert q0[..j] == stack[..j] && stack[..j] in listed;
      }
    }
    forall i | 0 <= i < |listed'| && |listed'[i]| > 1 ensures Parent(listed'[i]) in listed'[..i] {
      if i < |listed| {
        assert listed'[..i] == listed[..i];
      } else {
        assert listed'[..i] == listed && stack[..|stack|] == stack;
      }
    }
  }

  lemma TraversingShape(node: FsNode, stack: Path, iterators: seq<seq<Item>>, listed: seq<Path>)
    requires Traversing(node, stack, iterators, listed)
    ensures |iterators| == |stack| + 1
  {
  }

  /** One turn of the loop that finds another item. */
  lemma TakeStep(
    node: FsNode, stack: Path, iterators: seq<seq<Item>>, stack': Path, iterators': seq<seq<Item>>, listed: seq<Path>)
    requires Traversing(node, stack, iterators, listed) && Last(iterators) != []
    requires
      var (name, child) := Last(iterators)[0];
      if child.Directory? then
        && stack' == stack + [name]
        && |iterators'| == |iterators| + 1 && iterators'[..|iterators|] == Taken(iterators)
        && AreEntries(child.children, Last(iterators'))
        && forall n <- child.children :: HasName(Last(iterators'), n)
      else stack' == stack && iterators' == Taken(iterators)
    ensures Traversing(node, stack', iterators', listed + [stack + [Last(iterators)[0].0]])
    ensures stack + [Last(iterators)[0].0] !in listed && Lookup(node, stack + [Last(iterators)[0].0]).Some?
  {
    hide LevelSound, PendingAt, Pending, Lookup, AreEntries, HasName;
    var q0 := stack + [Last(iterators)[0].0];
    var listed' := listed + [q0];
    forall j: nat | j < |iterators'| ensures LevelSound(node, stack', iterators', j) {
      TakeKeepsLevels(node, stack, iterators, stack', iterators', j);
    }
    TakeItem(node, stack, iterators, stack', iterators', q0);
    AllPendingIsFound(node, stack, iterators, q0);
    forall q ensures q in listed' <==> q != [] && Lookup(node, q).Some? && !Pending(stack', iterators', q) {
      TakeItem(node, stack, iterators, stack', iterators', q);
    }
    TakeKeepsOrder(stack, listed, q0);
    assert stack' == stack || stack' == q0;
    Assembled(node, stack', iterators', listed');
  }

  /** The parts of the invariant. */
  lemma Assembled(node: FsNode, stack: Path, iterators: seq<seq<Item>>, listed: seq<Path>)
    requires |iterators| == |stack| + 1 && forall j: nat | j < |iterators| :: LevelSound(node, stack, iterators, j)
    requires (forall j: nat | 0 < j <= |stack| :: stack[..j] in listed) && Distinct(listed)
    requires forall q :: q in listed <==> q != [] && Lookup(node, q).Some? && !Pending(stack, iterators, q)
    requires forall i | 0 <= i < |listed| && |listed[i]| > 1 :: Parent(listed[i]) in listed[..i]
    ensures Traversing(node, stack, iterators, listed)
  {
    hide LevelSound, Pending, Lookup, Distinct;
  }

  /** One turn of the loop that finds the topmost iterator exhausted. */
  lemma PopStep(node: FsNode, stack: Path, iterators: seq<seq<Item>>, listed: seq<Path>)
    requires Traversing(node, stack, iterators, listed) && Last(iterators) == []
    ensures stack == [] ==> IsListing(node, listed)
    ensures stack != [] ==> Traversing(node, Parent(stack), iterators[..|stack|], listed)
  {
    hide LevelSound, PendingAt, Pending, Lookup;
    var k := |stack|;
    forall q ensures stack == [] ==> !Pending(stack, iterators, q) {
      NothingAtTop(stack, iterators, q);
    }
    if stack != [] {
      var stack', iterators' := Parent(stack), iterators[..k];
      forall q ensures Pending(stack', iterators', q) <==> Pending(stack, iterators, q) {
        NothingAtTop(stack, iterators, q);
      }
      forall j: nat | j < k ensures LevelSound(node, stack', iterators', j) {
        PopKeepsLevel(node, stack, iterators, j);
      }
      assert forall j: nat | j <= k - 1 :: stack'[..j] == stack[..j];
    }
  }

  /** An exhausted topmost iterator has nothing pending. */
  lemma NothingAtTop(stack: Path, iterators: seq<seq<Item>>, q: Path)
    requires |iterators| == |stack| + 1 && Last(iterators) == []
    ensures stack == [] ==> !Pending(stack, iterators, q)
    ensures stack != [] ==> (Pending(Parent(stack), iterators[..|stack|], q) <==> Pending(stack, iterators, q))
  {
    hide Lookup;
    var k := |stack|;
    assert !PendingAt(stack, iterators, q, k);
    if stack != [] {
      var stack', iterators' := Parent(stack), iterators[..k];
      forall j: nat | j < k ensures PendingAt(stack, iterators, q, j) <==> PendingAt(stack', iterators', q, j) {
        assert stack'[..j] == stack[..j];
        LowerLevels(stack, iterators, stack', iterators', q, j);
      }
    }
  }

  lemma PopKeepsLevel(node: FsNode, stack: Path, iterators: seq<seq<Item>>, j: nat)
    requires |iterators| == |stack| + 1 && j < |stack| && LevelSound(node, stack, iterators, j)
    ensures LevelSound(node, Parent(stack), iterators[..|stack|], j)
  {
    assert Parent(stack)[..j] == stack[..j];
  }

  lemma TraversalStart(node: FsNode, items: seq<Item>)
    requires node.Directory? && AreEntries(node.children, items)
    requires forall name <- node.children :: HasName(items, name)
    ensures Traversing(node, [], [items], [])
  {
    forall q ensures Pending([], [items], q) <==> q != [] && Lookup(node, q).Some? {
      NewLevel([], [items], node, q);
      if q != [] {
        assert q[..0] == [] && q[0..] == q;
        assert PendingAt([], [items], q, 0) <==> Lookup(node, q).Some?;
      }
    }
    assert LevelSound(node, [], [items], 0);
  }

  ghost function Left(all: set<Path>, listed: seq<Path>): set<Path> {
    all - set q | q in listed
  }

  lemma LeftShrinks(all: set<Path>, listed: seq<Path>, q0: Path)
    requires q0 in all && q0 !in listed
    ensures Left(all, listed + [q0]) < Left(all, listed)
  {
    assert q0 in Left(all, listed) && q0 in listed + [q0];
  }

  /** The relative paths of all proper descendants, once each, parents first. */
  ghost predicate Lists(node: FsNode, paths: seq<string>) {
    exists listed :: IsListing(node, listed) && paths == JoinAll(listed)
  }

  /**
   Lists what lies below a directory. The stack of components is that of the directories being
   iterated over; at the end both stacks are empty.
   */
  method EnumerateRecursive(node: FsNode) returns (paths: seq<string>)
    requires node.Directory?
    ensures Lists(node, paths)
  {
    hide Traversing, IsListing, Lookup, Paths, JoinComponents;
    paths := [];
    ghost var listed: seq<Path> := [];
    var componentStack: seq<string> := [];
    var items := Iterate(node.children);
    var iteratorStack: seq<seq<Item>> := [items];
    TraversalStart(node, items);
    while true
      invariant Traversing(node, componentStack, iteratorStack, listed)
      invariant paths == JoinAll(listed)
      decreases Left(Paths(node), listed), |iteratorStack|
    {
      TraversingShape(node, componentStack, iteratorStack, listed);
      var current: seq<Item> := Last(iteratorStack);
      if current != [] {
        var nextComponent: string := current[0].0;
        var nextNode: FsNode := current[0].1;
        ghost var before, stack, iterators := listed, componentStack, iteratorStack;
        iteratorStack := iteratorStack[|iteratorStack| - 1 := current[1..]];
        componentStack := componentStack + [nextComponent];
        paths := paths + [JoinComponents(componentStack)];
        listed := listed + [componentStack];
        ghost var q0 := componentStack;
        if nextNode.Directory? {
          var inner := Iterate(nextNode.children);
          iteratorStack := iteratorStack + [inner];
        } else {
          componentStack := componentStack[..|componentStack| - 1];
        }
        TakeStep(node, stack, iterators, componentStack, iteratorStack, before);
        PathsAreFound(node, q0);
        LeftShrinks(Paths(node), before, q0);
      } else {
        PopStep(node, componentStack, iteratorStack, listed);
        iteratorStack := iteratorStack[..|iteratorStack| - 1];
        if componentStack == [] {
          break;
        }
        componentStack := componentStack[..|componentStack| - 1];
      }
    }
    assert componentStack == [] && iteratorStack == [];
    assert Lists(node, paths) by {
      assert IsListing(node, listed) && paths == JoinAll(listed);
    }
  }
}
