/** Guest paths: splitting, resolving and joining them. */
module GuestPaths {
  import opened Wrappers

  /** `str::split('/')`: always at least one part. */
  function Split(s: string): (parts: seq<string>)
    ensures |parts| >= 1
    ensures forall part <- parts :: '/' !in part
  {
    if s == "" then [""]
    else
      var parts := Split(s[..|s| - 1]);
      if Last(s) == '/' then parts + [""]
      else parts[|parts| - 1 := Last(parts) + [Last(s)]]
  }

  function ApplyComponent(components: seq<string>, component: string): seq<string> {
    if component == "" || component == "." then components
    else if component == ".." then if components == [] then [] else components[..|components| - 1]
    else components + [component]
  }

  function ApplyAll(components: seq<string>, parts: seq<string>): seq<string> {
    if parts == [] then components
    else ApplyComponent(ApplyAll(components, parts[..|parts| - 1]), Last(parts))
  }

  predicate IsAbsolute(path: string) {
    path != "" && path[0] == '/'
  }

  /** A component that resolving leaves as it is. */
  predicate IsClean(component: string) {
    component != "" && component != "." && component != ".." && '/' !in component
  }

  predicate AllClean(components: seq<string>) {
    forall component <- components :: IsClean(component)
  }

  /** The components of a path, `base` being absolute. */
  function Resolved(path: string, base: string): seq<string> {
    ApplyAll(if IsAbsolute(path) then [] else ApplyAll([], Split(base)), Split(path))
  }

  /** Panics, by returning `None`, on a relative path without an absolute base. */
  method ResolvePath(path: string, relativeTo: Option<string>) returns (components: Option<seq<string>>)
    ensures components.None? <==> !IsAbsolute(path) && (relativeTo.None? || !IsAbsolute(relativeTo.value))
    ensures components.Some? ==>
      components.value == Resolved(path, if relativeTo.Some? then relativeTo.value else "/")
  {
    var stack: seq<string> := [];
    if !IsAbsolute(path) {
      if relativeTo.None? || !IsAbsolute(relativeTo.value) {
        return None;
      }
      var parts := Split(relativeTo.value);
      for i := 0 to |parts|
        invariant stack == ApplyAll([], parts[..i])
      {
        stack := ApplyComponent(stack, parts[i]);
        assert parts[..i + 1][..i] == parts[..i];
      }
      assert parts[..|parts|] == parts;
    }
    ghost var start := stack;
    var parts := Split(path);
    for i := 0 to |parts|
      invariant stack == ApplyAll(start, parts[..i])
    {
      stack := ApplyComponent(stack, parts[i]);
      assert parts[..i + 1][..i] == parts[..i];
    }
    assert parts[..|parts|] == parts;
    return Some(stack);
  }

  /** The absolute path with the given components, as `tmp_vec.join("/")` builds it. */
  function Render(components: seq<string>): string {
    if components == [] then "" else Render(components[..|components| - 1]) + "/" + Last(components)
  }

  lemma RenderOneMore(components: seq<string>, i: nat)
    requires i < |components|
    ensures Render(components[..i + 1]) == Render(components[..i]) + "/" + components[i]
  {
    assert components[..i + 1][..i] == components[..i];
  }

  // ---------------------------------------------------------------- laws

  lemma {:induction false} SplitJoins(a: string, b: string)
    ensures Split(a + "/" + b) == Split(a) + Split(b)
  {
    if b == "" {
      assert (a + "/" + b)[..|a|] == a;
    } else {
      var b', whole := b[..|b| - 1], a + "/" + b;
      SplitJoins(a, b');
      JoinedInit(a, b);
      SplitUnfolds(whole);
      SplitUnfolds(b);
      hide Split;
      JoinedParts(Split(a), Split(b'), Last(b));
    }
  }

  lemma JoinedInit(a: string, b: string)
    requires b != ""
    ensures
      var whole := a + "/" + b;
      whole[..|whole| - 1] == a + "/" + b[..|b| - 1] && Last(whole) == Last(b)
  {
  }

  lemma JoinedParts(a: seq<string>, parts: seq<string>, c: char)
    requires parts != []
    ensures a + parts + [""] == a + (parts + [""])
    ensures Last(a + parts) == Last(parts)
    ensures (a + parts)[|a + parts| - 1 := Last(parts) + [c]] == a + parts[|parts| - 1 := Last(parts) + [c]]
  {
  }

  lemma SplitUnfolds(s: string)
    requires s != ""
    ensures
      var parts := Split(s[..|s| - 1]);
      Split(s) == if Last(s) == '/' then parts + [""] else parts[|parts| - 1 := Last(parts) + [Last(s)]]
  {
  }

  lemma {:induction false} ApplyAllJoins(components: seq<string>, a: seq<string>, b: seq<string>)
    ensures ApplyAll(components, a + b) == ApplyAll(ApplyAll(components, a), b)
  {
    if b == [] {
      assert a + b == a;
    } else {
      assert (a + b)[..|a + b| - 1] == a + b[..|b| - 1];
      ApplyAllJoins(components, a, b[..|b| - 1]);
    }
  }

  lemma {:induction false} ApplyAllClean(components: seq<string>, parts: seq<string>)
    requires AllClean(components) && forall part <- parts :: '/' !in part
    ensures AllClean(ApplyAll(components, parts))
  {
    if parts != [] {
      ApplyAllClean(components, parts[..|parts| - 1]);
    }
  }

  /** A resolved path has no empty, `.` or `..` component, and no slash inside one. */
  lemma ResolvedIsClean(path: string, base: string)
    ensures AllClean(Resolved(path, base))
  {
    ApplyAllClean([], Split(base));
    ApplyAllClean(if IsAbsolute(path) then [] else ApplyAll([], Split(base)), Split(path));
  }

  /** Resolving against a directory is resolving the joined path. */
  lemma ResolvedAgainst(path: string, base: string)
    requires !IsAbsolute(path)
    ensures Resolved(path, base) == ApplyAll([], Split(base + "/" + path))
    ensures IsAbsolute(base) ==> Resolved(path, base) == Resolved(base + "/" + path, "/")
  {
    SplitJoins(base, path);
    ApplyAllJoins([], Split(base), Split(path));
  }

  lemma {:induction false} SplitWhole(s: string)
    requires '/' !in s
    ensures Split(s) == [s]
  {
    if s != "" {
      SplitWhole(s[..|s| - 1]);
      assert s == s[..|s| - 1] + [Last(s)];
    }
  }

  lemma {:induction false} RenderResolves(components: seq<string>)
    requires AllClean(components)
    ensures ApplyAll([], Split(Render(components))) == components
  {
    if components == [] {
      assert ApplyAll([], [""]) == ApplyComponent(ApplyAll([], []), "") by { assert [""][..0] == []; }
    } else {
      var init, last := components[..|components| - 1], Last(components);
      RenderResolves(init);
      SplitJoins(Render(init), last);
      assert IsClean(last);
      SplitWhole(last);
      ApplyAllJoins([], Split(Render(init)), [last]);
      assert [last][..0] == [];
      assert components == init + [last];
    }
  }

  /** Joining the components of a path and resolving the result gives them back. */
  lemma ResolvedRender(components: seq<string>, base: string)
    requires AllClean(components) && components != []
    ensures Resolved(Render(components), base) == components
  {
    RenderResolves(components);
    RenderIsAbsolute(components);
  }

  lemma {:induction false} RenderIsAbsolute(components: seq<string>)
    requires components != []
    ensures IsAbsolute(Render(components))
  {
    if |components| > 1 {
      RenderIsAbsolute(components[..|components| - 1]);
    }
  }

  /** Where the path that is continued leads; the empty one is continued from the root. */
  ghost function Reached(path: string, base: string): seq<string> {
    if path == "" then [] else Resolved(path, base)
  }

  lemma ResolvedOneMore(path: string, component: string, base: string)
    requires '/' !in component
    ensures Resolved(path + "/" + component, base) == ApplyComponent(Reached(path, base), component)
  {
    SplitJoins(path, component);
    SplitWhole(component);
    var whole := path + "/" + component;
    assert IsAbsolute(whole) <==> path == "" || IsAbsolute(path) by {
      if path != "" { assert whole[0] == path[0]; }
    }
    var start := if IsAbsolute(whole) then [] else ApplyAll([], Split(base));
    ApplyAllJoins(start, Split(path), [component]);
    assert [component][..0] == [];
    if path == "" {
      assert [""][..0] == [];
      assert ApplyAll([], [""]) == [];
    }
  }

  /**
   What each further component does: an empty one or "." nothing, ".." takes off the last component
   and at the root nothing, and any other is added.
   */
  lemma ResolvedSteps(path: string, component: string, base: string)
    requires '/' !in component
    ensures
      var before, after := Reached(path, base), Resolved(path + "/" + component, base);
      && (component == "" || component == "." ==> after == before)
      && (component == ".." ==> if before == [] then after == [] else exists last :: before == after + [last])
      && (component != "" && component != "." && component != ".." ==> after == before + [component])
  {
    ResolvedOneMore(path, component, base);
    var before := Reached(path, base);
    if component == ".." && before != [] {
      assert before == before[..|before| - 1] + [Last(before)];
    }
  }

  /** Going into a directory and up again leads back. */
  lemma ResolvedBack(path: string, component: string, base: string)
    requires path != "" && IsClean(component)
    ensures Resolved(path + "/" + component + "/..", base) == Resolved(path, base)
  {
    ResolvedOneMore(path, component, base);
    ResolvedOneMore(path + "/" + component, "..", base);
    assert path + "/" + component + "/.." == path + "/" + component + "/" + "..";
  }
}
