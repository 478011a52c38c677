/**
 What a session's commands may write, judged by directory: the trees a confined command
 is denied, and which protected paths that leaves to the audit.
 */
module Sandbox {
  import opened Wrappers
  import opened Sequences
  import opened GlobSyntax
  import opened GlobOverlap
  import opened GlobPaths
  import opened Protection
  import opened Fence
  import opened BuiltSets

  // ---------------------------------------------------------------- paths and texts

  function FirstSeparator(text: string): (k: nat)
    ensures k <= |text| && '/' !in text[..k] && (k < |text| ==> text[k] == '/')
  {
    if text == "" || text[0] == '/' then 0
    else
      var k := FirstSeparator(text[1..]);
      assert text[..1 + k] == [text[0]] + text[1..][..k];
      1 + k
  }

  function PartOf(name: string): Path {
    if name == "" || name == "." then [] else if name == ".." then [ParentDir] else [Normal(name)]
  }

  /** The components a relative text names below a directory. */
  function Components(text: string): Path
    decreases |text|
  {
    var k := FirstSeparator(text);
    PartOf(text[..k]) + (if k == |text| then [] else Components(text[k + 1..]))
  }

  predicate IsName(name: string) {
    name != "" && name != "." && name != ".." && '/' !in name
  }

  /** A path of names: what a checkout holds, relative to its root. */
  predicate IsProper(path: Path) {
    forall i :: 0 <= i < |path| ==> path[i].Normal? && IsName(path[i].name)
  }

  lemma {:induction false} SeparatorIsFirst(text: string, n: nat)
    requires n < |text| && text[n] == '/' && '/' !in text[..n]
    ensures FirstSeparator(text) == n
    decreases |text|
  {
    if n > 0 {
      assert text[..n][0] == text[0];
      assert text[1..][..n - 1] == text[..n][1..];
      SeparatorIsFirst(text[1..], n - 1);
    }
  }

  lemma {:induction false} NoSeparator(name: string)
    requires '/' !in name
    ensures FirstSeparator(name) == |name|
  {
    if name != "" {
      assert name[0] in name;
      NoSeparator(name[1..]);
    }
  }

  lemma {:induction false} SeparatorAfter(name: string, rest: string)
    requires '/' !in name
    ensures FirstSeparator(name) == |name| && FirstSeparator(name + "/" + rest) == |name|
    ensures (name + "/" + rest)[..|name|] == name && (name + "/" + rest)[|name| + 1..] == rest
  {
    var text := name + "/" + rest;
    NoSeparator(name);
    assert text[..|name|] == name;
    SeparatorIsFirst(text, |name|);
  }

  lemma {:induction false} NamesReadBack(path: Path)
    requires IsProper(path)
    ensures Components(TextOf(path)) == path
    decreases |path|
  {
    if path != [] {
      var name := path[0].name;
      HeadSplit(path);
      if |path| == 1 {
        SeparatorAfter(name, "");
        EmptyConcat(name);
      } else {
        SeparatorAfter(name, TextOf(path[1..]));
        NamesReadBack(path[1..]);
      }
    }
  }

  lemma {:induction false} ComponentsAt(text: string, name: string, rest: string)
    requires '/' !in name && text == name + ("/" + rest)
    ensures Components(text) == PartOf(name) + Components(rest)
  {
    SeparatorAfter(name, rest);
    Assoc(name, "/", rest);
  }

  /** A text below a text names its components below those; an empty name or a `.` names nothing, a `..` what is above. */
  lemma {:induction false} ComponentsCompose(a: string, b: string)
    ensures Components(a + ("/" + b)) == Components(a) + Components(b)
    decreases |a|
  {
    var k := FirstSeparator(a);
    if k == |a| {
      NoSeparator(a);
      ComponentsAt(a + ("/" + b), a, b);
      assert a[..k] == a;
      EmptyConcat(PartOf(a));
    } else {
      var name, rest := a[..k], a[k + 1..];
      assert a == name + ("/" + rest);
      ComponentsAt(a, name, rest);
      Assoc(name, "/" + rest, "/" + b);
      Assoc("/", rest, "/" + b);
      ComponentsAt(a + ("/" + b), name, rest + ("/" + b));
      ComponentsCompose(rest, b);
      Assoc(PartOf(name), Components(rest), Components(b));
    }
  }

  lemma {:induction false} NamesNothing()
    ensures Components("") == [] && Components(".") == [] && Components("..") == [ParentDir]
  {
    NoSeparator("");
    NoSeparator(".");
    NoSeparator("..");
    assert "."[..1] == "." && ".."[..2] == ".." && ""[..0] == "";
  }

  lemma {:induction false} TextOfMore(path: Path, k: nat)
    requires 0 < k < |path|
    ensures TextOf(path[..k + 1]) == NameText(path[0]) + "/" + TextOf(path[1..][..k])
  {
    assert path[..k + 1][1..] == path[1..][..k];
  }

  lemma {:induction false} NameComesFirst(path: Path, at: nat)
    requires IsProper(path) && at < |TextOf(path)| && TextOf(path)[at] == '/'
    ensures |path| > 1 && |path[0].name| <= at
  {
    var text, name := TextOf(path), path[0].name;
    assert forall i :: 0 <= i < |name| ==> text[i] == name[i] && name[i] != '/';
  }

  lemma {:induction false} CutBelow(name: string, rest: string, dir: string)
    requires |name| < |dir| && dir + "/" <= name + "/" + rest
    ensures dir == name + "/" + dir[|name| + 1..] && dir[|name| + 1..] + "/" <= rest
  {
    var text, below := name + "/" + rest, dir[|name| + 1..];
    assert text[..|dir|] == dir && text[|dir|] == '/';
    assert dir[..|name|] == text[..|name|] == name && dir[|name|] == text[|name|];
    assert rest == text[|name| + 1..];
    assert rest[..|below|] == below && rest[|below|] == '/';
  }

  /** A text that stops before a separator of a path's text names a directory above the path. */
  lemma {:induction false} TextAbove(path: Path, dir: string) returns (k: nat)
    requires IsProper(path) && dir + "/" <= TextOf(path)
    ensures 0 < k < |path| && dir == TextOf(path[..k])
    decreases |path|
  {
    var text, name := TextOf(path), path[0].name;
    assert text[|dir|] == '/' && text[..|dir|] == dir;
    NameComesFirst(path, |dir|);
    var rest := TextOf(path[1..]);
    SeparatorAfter(name, rest);
    if |dir| == |name| {
      k := 1;
      assert path[..1] == [path[0]];
    } else {
      var below := dir[|name| + 1..];
      CutBelow(name, rest, dir);
      var j := TextAbove(path[1..], below);
      k := j + 1;
      TextOfMore(path, j);
    }
  }

  /** And the text of a directory above a path is such a text. */
  lemma {:induction false} AboveIsText(path: Path, k: nat)
    requires IsProper(path) && 0 < k < |path|
    ensures TextOf(path[..k]) + "/" <= TextOf(path)
    decreases |path|
  {
    var name, rest := path[0].name, TextOf(path[1..]);
    if k == 1 {
      assert path[..1] == [path[0]];
    } else {
      AboveIsText(path[1..], k - 1);
      TextOfMore(path, k - 1);
      var above := TextOf(path[1..][..k - 1]);
      assert rest == above + "/" + rest[|above| + 1..];
      assert TextOf(path) == name + "/" + (above + "/" + rest[|above| + 1..]);
    }
  }

  // ------------------------------------------------------------------- the sandbox

  /** `temp` is the temporary directories of the host, and `register` the run's git directory, wherever it lies. */
  datatype Sandbox = Sandbox(
    confined: bool, writesWorktree: bool, roots: seq<Path>, temp: seq<Path>, protected: Protected, register: Option<Path>)

  /** Where a tree lies; a text that starts at the root stays there. */
  function TreeAt(cwd: Path, dir: string): Path {
    if dir != "" && dir[0] == '/' then [RootDir] + Components(dir[1..]) else cwd + Components(dir)
  }

  /** The trees of the protected globs that select a directory whole. */
  function TreesOf(entries: seq<Entry>, cwd: Path): seq<Path> {
    if entries == [] then []
    else
      (if !entries[0].onTheWay && WholeTree(entries[0].glob).Some? then [TreeAt(cwd, WholeTree(entries[0].glob).value)] else [])
      + TreesOf(entries[1..], cwd)
  }

  /** The trees a command is denied: those, and the register unless it is one of them. */
  function ProtectedTrees(box: Sandbox, cwd: Path): seq<Path> {
    var trees := TreesOf(box.protected.entries, cwd);
    if box.register.Some? && box.register.value !in trees then trees + [box.register.value] else trees
  }

  predicate CommandMayWrite(box: Sandbox, cwd: Path, target: Path) {
    || !box.confined
    || (!InRoots(ProtectedTrees(box, cwd), target)
        && ((box.writesWorktree && cwd <= target) || InRoots(box.roots, target) || InRoots(box.temp, target)))
  }

  predicate IsTree(e: Entry) {
    !e.onTheWay && WholeTree(e.glob).Some?
  }

  lemma {:induction false} TreesAreOfEntries(entries: seq<Entry>, cwd: Path, tree: Path)
    ensures tree in TreesOf(entries, cwd) <==> exists e :: e in entries && IsTree(e) && tree == TreeAt(cwd, WholeTree(e.glob).value)
  {
    if entries != [] {
      TreesAreOfEntries(entries[1..], cwd, tree);
      assert forall e :: e in entries <==> e == entries[0] || e in entries[1..];
    }
  }

  lemma {:induction false} InRootsIsMember(roots: seq<Path>, root: Path, target: Path)
    requires root in roots && root <= target
    ensures InRoots(roots, target)
  {
    var i :| 0 <= i < |roots| && roots[i] == root;
  }

  lemma {:induction false} PrefixUnder(cwd: Path, a: Path, b: Path)
    ensures cwd + a <= cwd + b <==> a <= b
  {
    if cwd + a <= cwd + b {
      assert a == (cwd + a)[|cwd|..] && b[..|a|] == (cwd + b)[..|cwd + a|][|cwd|..];
    }
    if a <= b {
      assert b == a + b[|a|..];
      assert cwd + b == (cwd + a) + b[|a|..];
    }
  }

  lemma {:induction false} RelativeTree(cwd: Path, path: Path, k: nat, dir: string)
    requires IsProper(path) && 0 < k <= |path| && dir == TextOf(path[..k])
    ensures TreeAt(cwd, dir) == cwd + path[..k] && dir != "" && dir[0] != '/'
  {
    NamesReadBack(path[..k]);
    assert path[..k][0] == path[0];
    assert dir[0] == path[0].name[0];
    assert path[0].name[0] in path[0].name;
  }

  // ------------------------------------------------ the trees, read off the globs' text

  /** The entry's text is a plain directory with everything below it. */
  predicate IsTreeOf(e: Entry, dir: string) {
    !e.onTheWay && (e.glob == dir + "/**" || e.glob == dir + "/**/*") && dir != "" && IsLiteral(dir)
  }

  /** The target is the directory a text names, or lies below it: from the root, or from where commands run. */
  predicate Covers(cwd: Path, dir: string, target: Path) {
    if dir != "" && dir[0] == '/' then [RootDir] + Components(dir[1..]) <= target
    else cwd <= target && Components(dir) <= target[|cwd|..]
  }

  lemma PrefixOfMore<T>(a: seq<T>, more: seq<T>, s: seq<T>)
    requires a + more <= s
    ensures a <= s
  {
    assert s[..|a|] == s[..|a + more|][..|a|];
  }

  lemma {:induction false} CoversExactly(cwd: Path, dir: string, target: Path)
    ensures Covers(cwd, dir, target) <==> TreeAt(cwd, dir) <= target
  {
    if cwd + Components(dir) <= target {
      PrefixOfMore(cwd, Components(dir), target);
    }
    if cwd <= target {
      Rejoin(target, |cwd|);
      PrefixUnder(cwd, Components(dir), target[|cwd|..]);
    }
  }

  /** What no confined command writes: a whole tree of the set, and the register. */
  ghost predicate Denied(box: Sandbox, cwd: Path, target: Path) {
    || (exists e, dir :: e in box.protected.entries && IsTreeOf(e, dir) && Covers(cwd, dir, target))
    || (box.register.Some? && box.register.value <= target)
  }

  lemma {:induction false} TreeIsDenied(box: Sandbox, cwd: Path, e: Entry, dir: string, target: Path)
    requires e in box.protected.entries && IsTreeOf(e, dir) && Covers(cwd, dir, target)
    ensures InRoots(ProtectedTrees(box, cwd), target)
  {
    var tree := TreeAt(cwd, dir);
    WholeTreeExactly(e.glob, dir);
    CoversExactly(cwd, dir, target);
    TreesAreOfEntries(box.protected.entries, cwd, tree);
    assert tree in ProtectedTrees(box, cwd);
    InRootsIsMember(ProtectedTrees(box, cwd), tree, target);
  }

  lemma {:induction false} TreesOfEntriesAreTold(box: Sandbox, cwd: Path, tree: Path, target: Path)
    requires tree in TreesOf(box.protected.entries, cwd) && tree <= target
    ensures exists e, dir :: e in box.protected.entries && IsTreeOf(e, dir) && Covers(cwd, dir, target)
  {
    TreesAreOfEntries(box.protected.entries, cwd, tree);
    var e :| e in box.protected.entries && IsTree(e) && tree == TreeAt(cwd, WholeTree(e.glob).value);
    var dir := WholeTree(e.glob).value;
    WholeTreeExactly(e.glob, dir);
    CoversExactly(cwd, dir, target);
    assert IsTreeOf(e, dir) && Covers(cwd, dir, target);
  }

  lemma {:induction false} DeniedExactly(box: Sandbox, cwd: Path, target: Path)
    ensures InRoots(ProtectedTrees(box, cwd), target) <==> Denied(box, cwd, target)
  {
    var all := ProtectedTrees(box, cwd);
    if InRoots(all, target) {
      var i :| 0 <= i < |all| && all[i] <= target;
      if all[i] in TreesOf(box.protected.entries, cwd) {
        TreesOfEntriesAreTold(box, cwd, all[i], target);
      }
    }
    if Denied(box, cwd, target) {
      DeniedIsInRoots(box, cwd, target);
    }
  }

  lemma {:induction false} DeniedIsInRoots(box: Sandbox, cwd: Path, target: Path)
    requires Denied(box, cwd, target)
    ensures InRoots(ProtectedTrees(box, cwd), target)
  {
    if box.register.Some? && box.register.value <= target {
      assert box.register.value in ProtectedTrees(box, cwd);
      InRootsIsMember(ProtectedTrees(box, cwd), box.register.value, target);
    } else {
      var e, dir :| e in box.protected.entries && IsTreeOf(e, dir) && Covers(cwd, dir, target);
      TreeIsDenied(box, cwd, e, dir, target);
    }
  }

  /**
   A confined command writes exactly what lies in its checkout where that is written, or
   under a root or a temporary directory, and is neither in a whole tree of the set nor in
   the register, whatever root or temporary directory covers those. An unconfined one writes anything.
   */
  lemma {:induction false} CommandWritesExactly(box: Sandbox, cwd: Path, target: Path)
    ensures CommandMayWrite(box, cwd, target) <==>
            || !box.confined
            || (!Denied(box, cwd, target)
                && ((box.writesWorktree && cwd <= target)
                    || (exists dir :: (dir in box.roots || dir in box.temp) && dir <= target)))
  {
    DeniedExactly(box, cwd, target);
    InRootsExactly(box.roots, target);
    InRootsExactly(box.temp, target);
  }

  /** A confined command writes nothing below a directory that the text of a protected glob names whole. */
  lemma {:induction false} CommandSparesProtectedTrees(box: Sandbox, cwd: Path, e: Entry, dir: string, path: Path)
    requires box.confined && e in box.protected.entries && !e.onTheWay
    requires (e.glob == dir + "/**" || e.glob == dir + "/**/*") && dir != "" && IsLiteral(dir)
    requires IsProper(path) && dir + "/" <= TextOf(path)
    ensures !CommandMayWrite(box, cwd, cwd + path)
  {
    var k := TextAbove(path, dir);
    RelativeTree(cwd, path, k, dir);
    PrefixUnder(cwd, path[..k], path);
    CoversExactly(cwd, dir, cwd + path);
    TreeIsDenied(box, cwd, e, dir, cwd + path);
  }

  /** In every run, none writes the agents' own tree. */
  lemma {:induction false} CommandSparesAgentTree(box: Sandbox, cwd: Path, project: seq<string>, approved: seq<string>, path: Path)
    requires box.confined && IsBuilt(box.protected, project, approved)
    requires IsProper(path) && ".claude" + "/" <= TextOf(path)
    ensures !CommandMayWrite(box, cwd, cwd + path)
  {
    AgentTreeIsWhole();
    AgentTreeIsHeld(box.protected, project, approved);
    CommandSparesProtectedTrees(box, cwd, AGENT_TREE, ".claude", path);
  }

  lemma {:induction false} AgentTreeIsHeld(set_: Protected, project: seq<string>, approved: seq<string>)
    requires IsBuilt(set_, project, approved)
    ensures AGENT_TREE in set_.entries
  {
    ConfigIsHeld(set_, project, approved);
  }

  lemma {:induction false} AgentTreeIsWhole()
    ensures AGENT_TREE.glob == ".claude" + "/**" && !AGENT_TREE.onTheWay && IsLiteral(".claude")
  {
  }

  /** A tree written as a path is keeps a command from exactly the paths its glob selects, and from its directory. */
  lemma {:induction false} PlainTreeCoversExactly(e: Entry, cwd: Path, dir: Path, path: Path)
    requires dir != [] && IsProper(dir) && IsTreeOf(e, TextOf(dir)) && Compile(e.glob).Some? && IsProper(path) && path != []
    ensures Covers(cwd, TextOf(dir), cwd + path) <==> Selects(e.glob, TextOf(path)) || path == dir
  {
    var text := TextOf(dir);
    EmptyConcat(dir);
    RelativeTree(cwd, dir, |dir|, text);
    CoversExactly(cwd, text, cwd + path);
    PrefixUnder(cwd, dir, path);
    WholeTreeExactly(e.glob, text);
    WholeTreeIsExact(e.glob, TextOf(path));
    if dir <= path {
      assert path[..|dir|] == dir;
      if |dir| < |path| {
        AboveIsText(path, |dir|);
      } else {
        assert dir == path;
      }
    }
    if Selects(e.glob, TextOf(path)) {
      var k := TextAbove(path, text);
      NamesReadBack(path[..k]);
      NamesReadBack(dir);
    }
  }

  /** And the audit reports each protected path it is left with. */
  lemma {:induction false} AuditCatchesTheRest(diff: seq<Path>, protected: Protected, path: Path, staged: seq<Path>)
    requires path in diff && ReasonOf(protected, TextOf(path)).Some? && !(exists mount :: mount in staged && mount <= path)
    ensures Trespass(path, ReasonOf(protected, TextOf(path)).value) in Trespasses(diff, protected, staged, Every)
  {
    TrespassesAreProtected(diff, protected, staged, path, ReasonOf(protected, TextOf(path)).value);
  }
}
