/**
 The fence that judges a session's writes, and the audit that judges a diff once the
 work is done. Both read the same scope and the same protected set; the fence reads a
 path lexically, as a session spelled it.
 */
module Fence {
  import opened Wrappers
  import opened Sequences
  import opened GlobSyntax
  import opened Protection

  datatype Component = RootDir | CurDir | ParentDir | Normal(name: string)

  /** A path as its components; only the first may be the root. */
  type Path = seq<Component>

  predicate IsAbsolute(path: Path) {
    path != [] && path[0].RootDir?
  }

  // ------------------------------------------------------- lexical resolution

  function Popped(at: Path): Path {
    if at == [] || at == [RootDir] then at else at[..|at| - 1]
  }

  function Walk(at: Path, c: Component): Path {
    match c
    case CurDir => at
    case ParentDir => Popped(at)
    case RootDir => [RootDir]
    case Normal(_) => at + [c]
  }

  /** Where walking `path` from `at` ends. */
  function WalkAll(at: Path, path: Path): Path
    decreases |path|
  {
    if path == [] then at else WalkAll(Walk(at, path[0]), path[1..])
  }

  function Joined(base: Path, path: Path): Path {
    if IsAbsolute(path) then path else base + path
  }

  function Lexical(base: Path, path: Path): Path {
    WalkAll([], Joined(base, path))
  }

  method LexicalAbsolute(base: Path, path: Path) returns (resolved: Path)
    ensures resolved == Lexical(base, path)
  {
    var joined := if IsAbsolute(path) then path else base + path;
    resolved := [];
    EmptyConcat(joined);
    for i := 0 to |joined|
      invariant Lexical(base, path) == WalkAll(resolved, joined[i..])
    {
      assert joined[i..][0] == joined[i] && joined[i..][1..] == joined[i + 1..];
      match joined[i] {
        case CurDir =>
        case ParentDir => if resolved != [] && resolved != [RootDir] { resolved := resolved[..|resolved| - 1]; }
        case RootDir => resolved := [RootDir];
        case other => resolved := resolved + [other];
      }
    }
  }

  /** A path with no `.` and no `..` left. */
  predicate Plain(path: Path) {
    forall i :: 0 <= i < |path| ==> path[i].Normal? || (i == 0 && path[i].RootDir?)
  }

  lemma {:induction false} WalkAllAppend(at: Path, a: Path, b: Path)
    ensures WalkAll(at, a + b) == WalkAll(WalkAll(at, a), b)
    decreases |a|
  {
    if a == [] {
      EmptyConcat(b);
    } else {
      TailOfConcat(a, b);
      WalkAllAppend(Walk(at, a[0]), a[1..], b);
    }
  }

  lemma {:induction false} WalkAllIsPlain(at: Path, path: Path)
    requires Plain(at)
    ensures Plain(WalkAll(at, path))
    decreases |path|
  {
    if path != [] {
      WalkAllIsPlain(Walk(at, path[0]), path[1..]);
    }
  }

  lemma {:induction false} PlainWalksToItself(at: Path, path: Path)
    requires Plain(at + path)
    ensures WalkAll(at, path) == at + path
    decreases |path|
  {
    if path == [] {
      EmptyConcat(at);
    } else {
      assert (at + path)[|at|] == path[0];
      var next := at + [path[0]];
      assert next + path[1..] == at + path;
      if path[0].RootDir? {
        assert at == [];
        EmptyConcat([path[0]]);
      }
      PlainWalksToItself(next, path[1..]);
    }
  }

  /** Resolving what is resolved changes nothing, and leaves no `.` or `..`. */
  lemma {:induction false} LexicalIsNormalForm(base: Path, path: Path)
    ensures Plain(Lexical(base, path))
    ensures IsAbsolute(Lexical(base, path)) ==> Lexical(base, Lexical(base, path)) == Lexical(base, path)
  {
    WalkAllIsPlain([], Joined(base, path));
    var r := Lexical(base, path);
    EmptyConcat(r);
    PlainWalksToItself([], r);
  }

  /** One respelling: a `.` put in, a name entered and left again, or a step above where a path starts. */
  ghost predicate Respells(p: Path, q: Path) {
    exists a: Path, x: Path, b: Path :: q == a + b && p == a + x + b && Detour(a, x)
  }

  ghost predicate Detour(a: Path, x: Path) {
    || x == [CurDir]
    || (|x| == 2 && x[0].Normal? && x[1] == ParentDir)
    || (x == [ParentDir] && (a == [] || a == [RootDir]))
  }

  lemma {:induction false} DetourReturns(a: Path, x: Path)
    requires Detour(a, x)
    ensures WalkAll(WalkAll([], a), x) == WalkAll([], a)
  {
    var at := WalkAll([], a);
    if x == [CurDir] {
      assert x[1..] == [];
    } else if |x| == 2 {
      assert x[1..] == [ParentDir] && x[1..][1..] == [];
      var inside := at + [x[0]];
      assert Walk(at, x[0]) == inside && inside[..|inside| - 1] == at;
      assert WalkAll(at, x) == WalkAll(inside, [ParentDir]) == Popped(inside);
    } else {
      assert x[1..] == [];
      assert a == [RootDir] ==> a[0] == RootDir && a[1..] == [] && WalkAll([], a) == WalkAll([RootDir], []);
    }
  }

  lemma {:induction false} RespellingWalksTheSame(p: Path, q: Path)
    requires Respells(p, q)
    ensures WalkAll([], p) == WalkAll([], q)
  {
    var a: Path, x: Path, b: Path :| q == a + b && p == a + x + b && Detour(a, x);
    WalkAllAppend([], a + x, b);
    WalkAllAppend([], a, x);
    WalkAllAppend([], a, b);
    DetourReturns(a, x);
  }

  /** A chain of respellings from `p` to `q`, each taking one detour out. */
  ghost predicate Reduces(chain: seq<Path>, p: Path, q: Path) {
    && chain != [] && chain[0] == p && chain[|chain| - 1] == q
    && (forall i :: 0 <= i < |chain| - 1 ==> Respells(chain[i], chain[i + 1]))
  }

  /** Taking detours out, one after another, brings both paths to one. */
  ghost predicate SpellOne(p: Path, q: Path) {
    exists meet: Path, left: seq<Path>, right: seq<Path> :: Reduces(left, p, meet) && Reduces(right, q, meet)
  }

  lemma {:induction false} ReducingWalksTheSame(chain: seq<Path>, p: Path, q: Path)
    requires Reduces(chain, p, q)
    ensures WalkAll([], p) == WalkAll([], q)
    decreases |chain|
  {
    if |chain| > 1 {
      RespellingWalksTheSame(chain[0], chain[1]);
      var rest := chain[1..];
      forall i | 0 <= i < |rest| - 1 ensures Respells(rest[i], rest[i + 1]) {
        assert Respells(chain[i + 1], chain[i + 2]);
      }
      ReducingWalksTheSame(rest, chain[1], q);
    }
  }

  /** Only the first component may be the root. */
  predicate RootFirst(path: Path) {
    forall i :: 0 < i < |path| ==> !path[i].RootDir?
  }

  lemma {:induction false} FirstDetour(p: Path) returns (i: nat)
    requires !Plain(p) && RootFirst(p)
    ensures i < |p| && Plain(p[..i]) && (p[i].CurDir? || p[i].ParentDir?)
  {
    i := 0;
    while p[i].Normal? || (i == 0 && p[i].RootDir?)
      invariant i < |p| && Plain(p[..i])
      invariant exists j :: i <= j < |p| && !(p[j].Normal? || (j == 0 && p[j].RootDir?))
      decreases |p| - i
    {
      i := i + 1;
    }
  }

  /** A path with a detour in it has a shorter spelling. */
  lemma {:induction false} DetourComesOut(p: Path) returns (q: Path)
    requires !Plain(p) && RootFirst(p)
    ensures Respells(p, q) && |q| < |p| && RootFirst(q)
  {
    var i := FirstDetour(p);
    var from := if p[i].ParentDir? && i > 0 && p[i - 1].Normal? then i - 1 else i;
    var a, x, b := p[..from], p[from..i + 1], p[i + 1..];
    q := a + b;
    assert p == a + x + b;
    if from == i {
      assert x == [p[i]];
      if p[i].ParentDir? && i > 0 {
        assert p[..i][i - 1] == p[i - 1];
        assert a == [RootDir];
      }
    }
    assert Detour(a, x);
  }

  lemma {:induction false} ReducesToResolved(p: Path) returns (chain: seq<Path>)
    requires RootFirst(p)
    ensures Reduces(chain, p, WalkAll([], p))
    decreases |p|
  {
    if Plain(p) {
      EmptyConcat(p);
      PlainWalksToItself([], p);
      chain := [p];
    } else {
      var q := DetourComesOut(p);
      var rest := ReducesToResolved(q);
      RespellingWalksTheSame(p, q);
      chain := [p] + rest;
      forall i | 0 <= i < |chain| - 1 ensures Respells(chain[i], chain[i + 1]) {
        if i > 0 {
          assert Respells(rest[i - 1], rest[i]);
        }
      }
    }
  }

  /** Two spellings resolve to one path exactly when taking detours out brings them together. */
  lemma {:induction false} SpellingsResolveAlikeExactly(base: Path, p: Path, q: Path)
    requires RootFirst(Joined(base, p)) && RootFirst(Joined(base, q))
    ensures Lexical(base, p) == Lexical(base, q) <==> SpellOne(Joined(base, p), Joined(base, q))
  {
    var left := ReducesToResolved(Joined(base, p));
    var right := ReducesToResolved(Joined(base, q));
    if SpellOne(Joined(base, p), Joined(base, q)) {
      var meet: Path, l: seq<Path>, r: seq<Path> :| Reduces(l, Joined(base, p), meet) && Reduces(r, Joined(base, q), meet);
      ReducingWalksTheSame(l, Joined(base, p), meet);
      ReducingWalksTheSame(r, Joined(base, q), meet);
    }
  }

  // -------------------------------------------------------------- the judgement

  function NameText(c: Component): string {
    match c
    case RootDir => ""
    case CurDir => "."
    case ParentDir => ".."
    case Normal(name) => name
  }

  /** A path as the text its globs read: names joined by separators. */
  function TextOf(path: Path): string {
    if path == [] then ""
    else if |path| == 1 then NameText(path[0])
    else NameText(path[0]) + "/" + TextOf(path[1..])
  }

  /** The register's first name, any `.` before it passed over. */
  predicate IsRegister(relative: Path) {
    relative != [] &&
      if relative[0].CurDir? then IsRegister(relative[1..]) else relative[0] == Normal(".git")
  }

  /** A path is the register, or in it, exactly when its first name is the register's. */
  lemma {:induction false} RegisterExactly(relative: Path)
    ensures IsRegister(relative) <==>
            exists k :: 0 <= k < |relative| && relative[k] == Normal(".git") && forall i :: 0 <= i < k ==> relative[i].CurDir?
    decreases |relative|
  {
    if relative != [] && relative[0].CurDir? {
      var rest := relative[1..];
      RegisterExactly(rest);
      if IsRegister(rest) {
        var k :| 0 <= k < |rest| && rest[k] == Normal(".git") && forall i :: 0 <= i < k ==> rest[i].CurDir?;
        assert forall i :: 0 < i < k + 1 ==> relative[i] == rest[i - 1];
        assert relative[k + 1] == Normal(".git");
      }
      if k :| 0 <= k < |relative| && relative[k] == Normal(".git") && forall i :: 0 <= i < k ==> relative[i].CurDir? {
        assert rest[k - 1] == Normal(".git") && forall i :: 0 <= i < k - 1 ==> rest[i] == relative[i + 1];
      }
    }
  }

  datatype Fence = Fence(allowed: Option<seq<string>>)

  datatype Confinement = Confinement(writesWorktree: bool, roots: seq<Path>, protected: Protected)

  datatype Verdict = Allowed | Refused(target: Path, allowed: Option<seq<string>>, roots: seq<Path>, protection: Option<Reason>)

  function Stripped(path: Path, prefix: Path): Option<Path> {
    if prefix <= path then Some(path[|prefix|..]) else None
  }

  function ProtectionOf(protected: Protected, relative: Path): Option<Reason> {
    match ReasonOf(protected, TextOf(relative))
    case Some(reason) => Some(reason)
    case None => if IsRegister(relative) then Some(GitRegister) else None
  }

  predicate Admits(fence: Fence, confinement: Confinement, inside: Option<Path>) {
    && inside.Some?
    && confinement.writesWorktree
    && (fence.allowed.Some? ==> SetSelects(fence.allowed.value, TextOf(inside.value)))
  }

  predicate InRoots(roots: seq<Path>, target: Path) {
    exists i :: 0 <= i < |roots| && roots[i] <= target
  }

  function Judge(fence: Fence, worktree: Path, path: Path, confinement: Confinement): Verdict {
    var target := Lexical(worktree, path);
    var inside := Stripped(target, worktree);
    var protection := if inside.Some? then ProtectionOf(confinement.protected, inside.value) else None;
    if protection.None? && (InRoots(confinement.roots, target) || Admits(fence, confinement, inside)) then Allowed
    else Refused(target, if confinement.writesWorktree then fence.allowed else Some([]), confinement.roots, protection)
  }

  /** The fence gives one verdict for all spellings of a path. */
  lemma {:induction false} SpellingsAreJudgedAlike(fence: Fence, worktree: Path, p: Path, q: Path, confinement: Confinement)
    requires RootFirst(Joined(worktree, p)) && RootFirst(Joined(worktree, q)) && SpellOne(Joined(worktree, p), Joined(worktree, q))
    ensures Judge(fence, worktree, p, confinement) == Judge(fence, worktree, q, confinement)
  {
    SpellingsResolveAlikeExactly(worktree, p, q);
  }

  /** A target outside the checkout is allowed exactly under a root, whatever the scope and the protections say. */
  lemma {:induction false} OutsideIsJudgedByRoots(fence: Fence, worktree: Path, path: Path, confinement: Confinement)
    requires !(worktree <= Lexical(worktree, path))
    ensures Judge(fence, worktree, path, confinement).Allowed? <==>
            exists root :: root in confinement.roots && root <= Lexical(worktree, path)
  {
    InRootsExactly(confinement.roots, Lexical(worktree, path));
  }

  lemma {:induction false} InRootsExactly(roots: seq<Path>, target: Path)
    ensures InRoots(roots, target) <==> exists root :: root in roots && root <= target
  {
    forall i | 0 <= i < |roots| && roots[i] <= target ensures exists root :: root in roots && root <= target {
      assert roots[i] in roots;
    }
    if root :| root in roots && root <= target {
      var i :| 0 <= i < |roots| && roots[i] == root;
    }
  }

  /** What no session writes: a protected path, and the register in every confinement. */
  ghost predicate Untouchable(protected: Protected, relative: Path) {
    ReasonOf(protected, TextOf(relative)).Some? || (relative != [] && relative[0] == Normal(".git"))
  }

  /** A scope that names the path, or no scope at all. */
  ghost predicate ScopeNames(fence: Fence, relative: Path) {
    fence.allowed.None? || exists glob :: glob in fence.allowed.value && Selects(glob, TextOf(relative))
  }

  lemma {:induction false} RegisterWherePlain(worktree: Path, path: Path, relative: Path)
    requires worktree <= Lexical(worktree, path) && relative == Lexical(worktree, path)[|worktree|..]
    ensures IsRegister(relative) <==> relative != [] && relative[0] == Normal(".git")
  {
    LexicalIsNormalForm(worktree, path);
    if relative != [] {
      assert relative[0] == Lexical(worktree, path)[|worktree|];
    }
  }

  /**
   A target inside is allowed exactly when nothing protects it and a root covers it, or
   the session writes its checkout and the scope names it: where the checkout is not
   written, a root is all that opens it.
   */
  lemma {:induction false} InsideIsJudgedExactly(fence: Fence, worktree: Path, path: Path, confinement: Confinement, relative: Path)
    requires worktree <= Lexical(worktree, path) && relative == Lexical(worktree, path)[|worktree|..]
    ensures Judge(fence, worktree, path, confinement).Allowed? <==>
            && !Untouchable(confinement.protected, relative)
            && ((exists root :: root in confinement.roots && root <= Lexical(worktree, path))
                || (confinement.writesWorktree && ScopeNames(fence, relative)))
  {
    RegisterWherePlain(worktree, path, relative);
    InRootsExactly(confinement.roots, Lexical(worktree, path));
    if fence.allowed.Some? {
      SetSelectsExactly(fence.allowed.value, TextOf(relative));
    }
  }

  lemma {:induction false} SetSelectsExactly(globs: seq<string>, path: string)
    ensures SetSelects(globs, path) <==> exists glob :: glob in globs && Selects(glob, path)
  {
    forall i | 0 <= i < |globs| && Selects(globs[i], path) ensures exists glob :: glob in globs && Selects(glob, path) {
      assert globs[i] in globs;
    }
    if glob :| glob in globs && Selects(glob, path) {
      var i :| 0 <= i < |globs| && globs[i] == glob;
    }
  }

  /** A refusal names the resolved target, the roots, the ceiling the session is under, and what protects the path: the set before the register. */
  lemma {:induction false} RefusalSays(fence: Fence, worktree: Path, path: Path, confinement: Confinement)
    requires Judge(fence, worktree, path, confinement).Refused?
    ensures var target, refused := Lexical(worktree, path), Judge(fence, worktree, path, confinement);
            && refused.target == target && refused.roots == confinement.roots
            && (confinement.writesWorktree ==> refused.allowed == fence.allowed)
            && (!confinement.writesWorktree ==> refused.allowed == Some([]))
            && (refused.protection.Some? <==> worktree <= target && Untouchable(confinement.protected, target[|worktree|..]))
            && (refused.protection.Some? ==>
                  refused.protection == ReasonOf(confinement.protected, TextOf(target[|worktree|..]))
                  || (refused.protection.value.GitRegister? && ReasonOf(confinement.protected, TextOf(target[|worktree|..])).None?))
  {
    if worktree <= Lexical(worktree, path) {
      RegisterWherePlain(worktree, path, Lexical(worktree, path)[|worktree|..]);
    }
  }

  // -------------------------------------------------------------------- the audit

  datatype Closing = Every | LoopClose

  datatype Trespass = Trespass(path: Path, reason: Reason)

  datatype Audited = Audited(violations: seq<Path>, denied: seq<Path>, deniedBy: seq<Reason>)

  predicate IsStaged(path: Path, staged: seq<Path>) {
    exists i :: 0 <= i < |staged| && staged[i] <= path
  }

  predicate Violates(path: Path, scope: seq<string>, staged: seq<Path>) {
    !IsStaged(path, staged) && !SetSelects(scope, TextOf(path))
  }

  function Violations(diff: seq<Path>, scope: seq<string>, staged: seq<Path>): (r: seq<Path>)
    ensures forall p :: p in r <==> p in diff && Violates(p, scope, staged)
  {
    if diff == [] then []
    else (if Violates(diff[0], scope, staged) then [diff[0]] else []) + Violations(diff[1..], scope, staged)
  }

  /** A closing judges every entry, or leaves the approved tests to the work that landed them. */
  predicate JudgedAt(entries: seq<Entry>, path: string, closing: Closing) {
    exists i :: 0 <= i < |entries| && Selects(entries[i].glob, path) && (closing.Every? || !entries[i].reason.ApprovedTest?)
  }

  function TrespassOf(path: Path, protected: Protected, staged: seq<Path>, closing: Closing): Option<Trespass> {
    if IsStaged(path, staged) || !JudgedAt(protected.entries, TextOf(path), closing) then None
    else
      match ReasonOf(protected, TextOf(path))
      case Some(reason) => Some(Trespass(path, reason))
      case None => None
  }

  function Trespasses(diff: seq<Path>, protected: Protected, staged: seq<Path>, closing: Closing): (r: seq<Trespass>)
    ensures forall t :: t in r <==> t.path in diff && TrespassOf(t.path, protected, staged, closing) == Some(t)
  {
    if diff == [] then []
    else
      var head, rest := TrespassOf(diff[0], protected, staged, closing), Trespasses(diff[1..], protected, staged, closing);
      assert forall p :: p in diff <==> p == diff[0] || p in diff[1..];
      if head.Some? then [head.value] + rest else rest
  }

  /** The violations, with each trespass they do not already name added once. */
  function Merged(violations: seq<Path>, trespasses: seq<Trespass>): seq<Path> {
    if trespasses == [] then violations
    else
      var r := Merged(violations, trespasses[..|trespasses| - 1]);
      var path := trespasses[|trespasses| - 1].path;
      if path in r then r else r + [path]
  }

  lemma {:induction false} MergedMembers(violations: seq<Path>, trespasses: seq<Trespass>, p: Path)
    ensures p in Merged(violations, trespasses) <==> p in violations || exists t :: t in trespasses && t.path == p
  {
    if trespasses != [] {
      var last, before := trespasses[|trespasses| - 1], trespasses[..|trespasses| - 1];
      MergedMembers(violations, before, p);
      LastSplit(trespasses);
      assert forall t :: t in trespasses <==> t in before || t == last;
    }
  }

  function PathsOf(trespasses: seq<Trespass>): seq<Path> {
    seq(|trespasses|, i requires 0 <= i < |trespasses| => trespasses[i].path)
  }

  function ReasonsOf(trespasses: seq<Trespass>): seq<Reason> {
    seq(|trespasses|, i requires 0 <= i < |trespasses| => trespasses[i].reason)
  }

  /** Adds what a protected set refuses to what the scope refuses, keeping why. */
  method Record(found: seq<Path>, trespasses: seq<Trespass>) returns (r: Audited)
    ensures r == Audited(Merged(found, trespasses), PathsOf(trespasses), ReasonsOf(trespasses))
  {
    var violations := found;
    var denied: seq<Path>, deniedBy: seq<Reason> := [], [];
    for k := 0 to |trespasses|
      invariant violations == Merged(found, trespasses[..k])
      invariant denied == PathsOf(trespasses[..k]) && deniedBy == ReasonsOf(trespasses[..k])
    {
      assert trespasses[..k + 1][..k] == trespasses[..k];
      if trespasses[k].path !in violations {
        violations := violations + [trespasses[k].path];
      }
      denied := denied + [trespasses[k].path];
      deniedBy := deniedBy + [trespasses[k].reason];
    }
    EmptyConcat(trespasses);
    r := Audited(violations, denied, deniedBy);
  }

  /** The diff's verdict: the scope's violations, each trespass added once, and why each was denied. */
  method AuditTree(diff: seq<Path>, scope: seq<string>, protected: Protected, staged: seq<Path>, closing: Closing)
    returns (r: Audited)
    ensures var trespasses := Trespasses(diff, protected, staged, closing);
            r == Audited(Merged(Violations(diff, scope, staged), trespasses), PathsOf(trespasses), ReasonsOf(trespasses))
  {
    r := Record(Violations(diff, scope, staged), Trespasses(diff, protected, staged, closing));
  }

  /** The adapter wrote it for its own mechanics: it is a staged mount or lies under one. */
  ghost predicate IsMounted(path: Path, staged: seq<Path>) {
    exists mount :: mount in staged && mount <= path
  }

  lemma {:induction false} MountedExactly(path: Path, staged: seq<Path>)
    ensures IsStaged(path, staged) <==> IsMounted(path, staged)
  {
    InRootsExactly(staged, path);
    assert IsStaged(path, staged) == InRoots(staged, path);
  }

  lemma {:induction false} ReportedAsEither(
    diff: seq<Path>, scope: seq<string>, protected: Protected, staged: seq<Path>, closing: Closing, p: Path)
    ensures p in Merged(Violations(diff, scope, staged), Trespasses(diff, protected, staged, closing)) <==>
            p in diff && (Violates(p, scope, staged) || TrespassOf(p, protected, staged, closing).Some?)
  {
    MergedMembers(Violations(diff, scope, staged), Trespasses(diff, protected, staged, closing), p);
    var t := TrespassOf(p, protected, staged, closing);
    if p in diff && t.Some? {
      assert t.value in Trespasses(diff, protected, staged, closing);
    }
  }

  /** An entry that every closing judges: a loop's close leaves the approved tests to the work that landed them. */
  ghost predicate HeldByOther(protected: Protected, path: Path) {
    exists e :: e in protected.entries && !e.reason.ApprovedTest? && Selects(e.glob, TextOf(path))
  }

  lemma {:induction false} JudgedExactly(protected: Protected, path: Path)
    ensures JudgedAt(protected.entries, TextOf(path), LoopClose) <==> HeldByOther(protected, path)
    ensures ReasonOf(protected, TextOf(path)).Some? ==> JudgedAt(protected.entries, TextOf(path), Every)
  {
    if HeldByOther(protected, path) {
      var e :| e in protected.entries && !e.reason.ApprovedTest? && Selects(e.glob, TextOf(path));
      var i :| 0 <= i < |protected.entries| && protected.entries[i] == e;
    }
    if !JudgedAt(protected.entries, TextOf(path), Every) {
      UnjudgedIsFree(protected, TextOf(path));
    }
  }

  /**
   A changed path is reported exactly when no staged mount holds it, and either no glob
   of the scope selects it or a reason protects it. A loop's close asks of a protected
   path that an entry beside the approved tests selects it too.
   */
  lemma {:induction false} AuditReportsExactly(diff: seq<Path>, scope: seq<string>, protected: Protected, staged: seq<Path>, p: Path)
    ensures p in Merged(Violations(diff, scope, staged), Trespasses(diff, protected, staged, Every)) <==>
            && p in diff && !(exists mount :: mount in staged && mount <= p)
            && (!(exists glob :: glob in scope && Selects(glob, TextOf(p))) || ReasonOf(protected, TextOf(p)).Some?)
    ensures p in Merged(Violations(diff, scope, staged), Trespasses(diff, protected, staged, LoopClose)) <==>
            && p in diff && !(exists mount :: mount in staged && mount <= p)
            && (!(exists glob :: glob in scope && Selects(glob, TextOf(p)))
                || (ReasonOf(protected, TextOf(p)).Some?
                    && exists e :: e in protected.entries && !e.reason.ApprovedTest? && Selects(e.glob, TextOf(p))))
  {
    ReportedAsEither(diff, scope, protected, staged, Every, p);
    ReportedAsEither(diff, scope, protected, staged, LoopClose, p);
    MountedExactly(p, staged);
    SetSelectsExactly(scope, TextOf(p));
    JudgedExactly(protected, p);
  }

  /** What is denied, and why: exactly the protected paths of the diff no mount holds, each with the reason that protects it. */
  lemma {:induction false} TrespassesAreProtected(diff: seq<Path>, protected: Protected, staged: seq<Path>, p: Path, reason: Reason)
    ensures Trespass(p, reason) in Trespasses(diff, protected, staged, Every) <==>
            p in diff && !(exists mount :: mount in staged && mount <= p) && ReasonOf(protected, TextOf(p)) == Some(reason)
    ensures Trespass(p, reason) in Trespasses(diff, protected, staged, LoopClose) <==>
            && p in diff && !(exists mount :: mount in staged && mount <= p) && ReasonOf(protected, TextOf(p)) == Some(reason)
            && (exists e :: e in protected.entries && !e.reason.ApprovedTest? && Selects(e.glob, TextOf(p)))
  {
    MountedExactly(p, staged);
    JudgedExactly(protected, p);
  }

  /** The scope's half of the audit follows the diff's order, path by path. */
  lemma {:induction false} ViolationsKeepOrder(a: seq<Path>, b: seq<Path>, scope: seq<string>, staged: seq<Path>)
    ensures Violations(a + b, scope, staged) == Violations(a, scope, staged) + Violations(b, scope, staged)
    decreases |a|
  {
    if a == [] {
      EmptyConcat(b);
      EmptyConcat(Violations(b, scope, staged));
    } else {
      TailOfConcat(a, b);
      ViolationsKeepOrder(a[1..], b, scope, staged);
      var head := if Violates(a[0], scope, staged) then [a[0]] else [];
      Assoc(head, Violations(a[1..], scope, staged), Violations(b, scope, staged));
    }
  }

  lemma {:induction false} ViolationOfOne(p: Path, scope: seq<string>, staged: seq<Path>)
    ensures Violations([p], scope, staged) == if Violates(p, scope, staged) then [p] else []
  {
    assert [p][1..] == [];
  }

  /** So does the protection's half. */
  lemma {:induction false} TrespassesKeepOrder(a: seq<Path>, b: seq<Path>, protected: Protected, staged: seq<Path>, closing: Closing)
    ensures Trespasses(a + b, protected, staged, closing)
         == Trespasses(a, protected, staged, closing) + Trespasses(b, protected, staged, closing)
    decreases |a|
  {
    if a == [] {
      EmptyConcat(b);
      EmptyConcat(Trespasses(b, protected, staged, closing));
    } else {
      TailOfConcat(a, b);
      TrespassesKeepOrder(a[1..], b, protected, staged, closing);
      var found := TrespassOf(a[0], protected, staged, closing);
      if found.Some? {
        Assoc([found.value], Trespasses(a[1..], protected, staged, closing), Trespasses(b, protected, staged, closing));
      }
    }
  }

  predicate NoRepeats(paths: seq<Path>) {
    forall i, j :: 0 <= i < j < |paths| ==> paths[i] != paths[j]
  }

  lemma {:induction false} ViolationsRepeatNothing(diff: seq<Path>, scope: seq<string>, staged: seq<Path>)
    requires NoRepeats(diff)
    ensures NoRepeats(Violations(diff, scope, staged))
    decreases |diff|
  {
    if diff != [] {
      var rest := Violations(diff[1..], scope, staged);
      ViolationsRepeatNothing(diff[1..], scope, staged);
      forall i | 0 <= i < |rest| ensures rest[i] != diff[0] {
        assert rest[i] in rest;
        var k :| 0 <= k < |diff[1..]| && diff[1..][k] == rest[i];
        assert diff[k + 1] == rest[i];
      }
    }
  }

  lemma {:induction false} MergedRepeatsNothing(violations: seq<Path>, trespasses: seq<Trespass>)
    requires NoRepeats(violations)
    ensures NoRepeats(Merged(violations, trespasses))
    decreases |trespasses|
  {
    if trespasses != [] {
      MergedRepeatsNothing(violations, trespasses[..|trespasses| - 1]);
    }
  }

  /** An audit names no path twice, however many reasons it has to report it. */
  lemma {:induction false} AuditReportsOnce(diff: seq<Path>, scope: seq<string>, protected: Protected, staged: seq<Path>, closing: Closing)
    requires NoRepeats(diff)
    ensures NoRepeats(Merged(Violations(diff, scope, staged), Trespasses(diff, protected, staged, closing)))
  {
    ViolationsRepeatNothing(diff, scope, staged);
    MergedRepeatsNothing(Violations(diff, scope, staged), Trespasses(diff, protected, staged, closing));
  }

  /** A loop's close reports every protected path but the approved tests, whatever else holds them. */
  lemma {:induction false} LoopCloseLeavesOnlyTests(diff: seq<Path>, protected: Protected, staged: seq<Path>, p: Path, reason: Reason)
    requires p in diff && !(exists mount :: mount in staged && mount <= p)
    requires ReasonOf(protected, TextOf(p)) == Some(reason) && !reason.ApprovedTest?
    ensures Trespass(p, reason) in Trespasses(diff, protected, staged, LoopClose)
  {
    TrespassesAreProtected(diff, protected, staged, p, reason);
  }

  /** What else selects an approved test: the register, or an instruction file whose reason was lifted. */
  lemma {:induction false} TestIsHeldBeside(entries: seq<Entry>, text: string, lifted: bool)
    requires LeastReason(entries, text, lifted) == Some(ApprovedTest)
    ensures (exists e :: e in entries && !e.reason.ApprovedTest? && Selects(e.glob, text)) <==>
            exists e :: e in entries && Selects(e.glob, text) && (e.reason.GitRegister? || (e.reason.PersonMayGrant() && lifted))
  {
    forall e | e in entries && Selects(e.glob, text) && !e.reason.ApprovedTest?
      ensures e.reason.GitRegister? || (e.reason.PersonMayGrant() && lifted)
    {
      assert Holds(e, text, lifted) ==> ApprovedTest.Rank() <= e.reason.Rank();
    }
  }

  /**
   And an approved test itself it reports exactly where the register selects it too, or a
   lifted instruction file does: the lift takes the reason away and not the entry.
   */
  lemma {:induction false} LoopCloseReportsTestExactly(diff: seq<Path>, protected: Protected, staged: seq<Path>, p: Path)
    requires p in diff && !(exists mount :: mount in staged && mount <= p)
    requires ReasonOf(protected, TextOf(p)) == Some(ApprovedTest)
    ensures Trespass(p, ApprovedTest) in Trespasses(diff, protected, staged, LoopClose) <==>
            exists e :: e in protected.entries && Selects(e.glob, TextOf(p))
                        && (e.reason.GitRegister? || (e.reason.PersonMayGrant() && SetSelects(protected.lifted, TextOf(p))))
  {
    TrespassesAreProtected(diff, protected, staged, p, ApprovedTest);
    TestIsHeldBeside(protected.entries, TextOf(p), SetSelects(protected.lifted, TextOf(p)));
  }

  // -------------------------------------------------- what the fence admits, the audit accepts

  /** A write the fence allows under the checkout. */
  ghost predicate Written(fence: Fence, worktree: Path, confinement: Confinement, relative: Path) {
    exists path: Path :: Lexical(worktree, path) == worktree + relative && Judge(fence, worktree, path, confinement).Allowed?
  }

  /** An allowed write is never a trespass, at any closing, whatever the roots are. */
  lemma {:induction false} AllowedIsNoTrespass(
    fence: Fence, worktree: Path, confinement: Confinement, relative: Path, staged: seq<Path>, closing: Closing)
    requires Written(fence, worktree, confinement, relative)
    ensures TrespassOf(relative, confinement.protected, staged, closing).None? && !IsRegister(relative)
  {
    var path: Path :| Lexical(worktree, path) == worktree + relative && Judge(fence, worktree, path, confinement).Allowed?;
    assert (worktree + relative)[|worktree|..] == relative;
  }

  /**
   An allowed write is a violation exactly when a writable root covers it that the scope
   does not: with every root outside the checkout, it never is.
   */
  lemma {:induction false} AllowedViolatesExactly(
    fence: Fence, worktree: Path, confinement: Confinement, relative: Path, staged: seq<Path>)
    requires Written(fence, worktree, confinement, relative) && fence.allowed.Some?
    ensures Violates(relative, fence.allowed.value, staged) <==>
            && InRoots(confinement.roots, worktree + relative)
            && !SetSelects(fence.allowed.value, TextOf(relative))
            && !IsStaged(relative, staged)
  {
    var path: Path :| Lexical(worktree, path) == worktree + relative && Judge(fence, worktree, path, confinement).Allowed?;
    assert (worktree + relative)[|worktree|..] == relative;
  }

  predicate RootsOutside(roots: seq<Path>, worktree: Path) {
    forall i :: 0 <= i < |roots| ==> !(roots[i] <= worktree) && !(worktree <= roots[i])
  }

  lemma {:induction false} OutsideRootsCoverNothing(roots: seq<Path>, worktree: Path, relative: Path)
    requires RootsOutside(roots, worktree)
    ensures !InRoots(roots, worktree + relative)
  {
    var target := worktree + relative;
    forall i | 0 <= i < |roots| ensures !(roots[i] <= target) {
      if roots[i] <= target {
        PrefixesNest(target, roots[i], worktree);
      }
    }
  }

  lemma PrefixesNest<T>(s: seq<T>, a: seq<T>, b: seq<T>)
    requires a <= s && b <= s
    ensures a <= b || b <= a
  {
  }

  /** A diff made only of allowed writes closes clean. */
  lemma {:induction false} FencedWorkClosesClean(
    fence: Fence, worktree: Path, confinement: Confinement, diff: seq<Path>, staged: seq<Path>, closing: Closing)
    requires fence.allowed.Some? && RootsOutside(confinement.roots, worktree)
    requires forall p :: p in diff ==> Written(fence, worktree, confinement, p)
    ensures Violations(diff, fence.allowed.value, staged) == []
    ensures Trespasses(diff, confinement.protected, staged, closing) == []
  {
    var vs := Violations(diff, fence.allowed.value, staged);
    var ts := Trespasses(diff, confinement.protected, staged, closing);
    if vs != [] {
      assert vs[0] in vs;
      OutsideRootsCoverNothing(confinement.roots, worktree, vs[0]);
      AllowedViolatesExactly(fence, worktree, confinement, vs[0], staged);
    }
    if ts != [] {
      assert ts[0] in ts;
      AllowedIsNoTrespass(fence, worktree, confinement, ts[0].path, staged, closing);
    }
  }

  lemma {:induction false} StandsWhereItIs(worktree: Path, relative: Path)
    requires IsAbsolute(worktree) && Plain(worktree + relative)
    ensures Lexical(worktree, worktree + relative) == worktree + relative
    ensures worktree <= worktree + relative && (worktree + relative)[|worktree|..] == relative
  {
    var target := worktree + relative;
    EmptyConcat(target);
    PlainWalksToItself([], target);
  }

  lemma {:induction false} UncoveredByRoots(roots: seq<Path>, worktree: Path, relative: Path)
    requires RootsOutside(roots, worktree)
    ensures !exists root :: root in roots && root <= worktree + relative
  {
    OutsideRootsCoverNothing(roots, worktree, relative);
    InRootsExactly(roots, worktree + relative);
  }

  /**
   Under a session that writes its checkout, the fence admits exactly what the audit of
   the same scope leaves unreported, the register apart.
   */
  lemma {:induction false} FenceAgreesWithAudit(fence: Fence, worktree: Path, confinement: Confinement, relative: Path, diff: seq<Path>)
    requires fence.allowed.Some? && confinement.writesWorktree && RootsOutside(confinement.roots, worktree)
    requires IsAbsolute(worktree) && Plain(worktree + relative) && relative in diff
    ensures Judge(fence, worktree, worktree + relative, confinement).Allowed? <==>
            && relative !in Merged(Violations(diff, fence.allowed.value, []), Trespasses(diff, confinement.protected, [], Every))
            && !(relative != [] && relative[0] == Normal(".git"))
  {
    StandsWhereItIs(worktree, relative);
    InsideIsJudgedExactly(fence, worktree, worktree + relative, confinement, relative);
    UncoveredByRoots(confinement.roots, worktree, relative);
    AuditReportsExactly(diff, fence.allowed.value, confinement.protected, [], relative);
  }

  lemma {:induction false} UnjudgedIsFree(protected: Protected, path: string)
    requires !JudgedAt(protected.entries, path, Every)
    ensures ReasonOf(protected, path).None?
  {
    forall e | e in protected.entries ensures !Selects(e.glob, path) {
      var i :| 0 <= i < |protected.entries| && protected.entries[i] == e;
    }
  }

  // -------------------------------------------------- the scope both sides read

  datatype Profile = ReadOnly | Edit | Full

  datatype NodeScope = Unscoped | Globs(globs: seq<string>) | RunScope(changed: seq<string>)

  function Declared(scope: NodeScope): Option<seq<string>> {
    match scope
    case Unscoped => None
    case Globs(globs) => Some(globs)
    case RunScope(changed) => Some(changed)
  }

  function ForSession(profile: Profile, scope: Option<seq<string>>, granted: seq<string>): Fence {
    if profile.ReadOnly? then Fence(Some([]))
    else if scope.None? then Fence(None)
    else Fence(Some(scope.value + granted))
  }

  /** The scope a node is audited against; none when no audit is owed. */
  function NodeScopeInForce(profile: Profile, scope: NodeScope, granted: seq<string>): Option<seq<string>> {
    if profile.ReadOnly? then Some([])
    else
      match scope
      case Unscoped => None
      case Globs(globs) => Some(globs + granted)
      case RunScope(changed) => Some(changed + granted)
  }

  /** The fence of a node's session admits exactly the scope its close is audited against. */
  lemma {:induction false} FenceAndAuditReadOneScope(profile: Profile, scope: NodeScope, granted: seq<string>)
    ensures ForSession(profile, Declared(scope), granted).allowed == NodeScopeInForce(profile, scope, granted)
  {
  }

  /**
   A read-only session is held to a scope that names nothing, and one with no declared
   scope to none; every other may write exactly what its scope or a grant selects.
   */
  lemma {:induction false} SessionMayWriteItsScope(profile: Profile, scope: NodeScope, granted: seq<string>, path: string)
    ensures NodeScopeInForce(profile, scope, granted) == None <==> !profile.ReadOnly? && scope.Unscoped?
    ensures var force := NodeScopeInForce(profile, scope, granted);
            force.Some? ==>
              (SetSelects(force.value, path) <==>
                !profile.ReadOnly? && (SetSelects(Declared(scope).value, path) || SetSelects(granted, path)))
  {
    if !profile.ReadOnly? && scope != Unscoped {
      EitherSelects(Declared(scope).value, granted, path);
    }
  }

  lemma {:induction false} EitherSelects(a: seq<string>, b: seq<string>, path: string)
    ensures SetSelects(a + b, path) <==> SetSelects(a, path) || SetSelects(b, path)
  {
    SetSelectsExactly(a + b, path);
    SetSelectsExactly(a, path);
    SetSelectsExactly(b, path);
  }

  // -------------------------------------------------------------- building the roots

  datatype Unbuildable = NetworkUnclosable | SharedDirInCheckout(dir: Path)

  function FirstInside(dirs: seq<Path>, checkout: Path): (r: Option<Path>)
    ensures r.None? <==> forall i :: 0 <= i < |dirs| ==> !(checkout <= dirs[i])
    ensures r.Some? ==> exists i :: 0 <= i < |dirs| && dirs[i] == r.value && checkout <= dirs[i]
                                 && forall j :: 0 <= j < i ==> !(checkout <= dirs[j])
  {
    if dirs == [] then None
    else if checkout <= dirs[0] then Some(dirs[0])
    else FirstInside(dirs[1..], checkout)
  }

  /** Where a session may write outside its checkout; a read-only one only where its artifacts go. */
  function RootsOf(profile: Profile, unconfined: bool, network: bool, checkout: Path,
                   artifacts: Option<Path>, shared: seq<Path>): Result<seq<Path>, Unbuildable>
  {
    if unconfined && !network then Err(NetworkUnclosable)
    else if FirstInside(shared, checkout).Some? then Err(SharedDirInCheckout(FirstInside(shared, checkout).value))
    else
      Ok((if artifacts.Some? then [artifacts.value] else []) + (if profile.ReadOnly? then [] else shared))
  }

  /** A session is refused exactly where commands are unconfined and the network is closed, or for the first shared directory in its checkout. */
  lemma {:induction false} RootsAreRefusedExactly(
    profile: Profile, unconfined: bool, network: bool, checkout: Path, artifacts: Option<Path>, shared: seq<Path>, dir: Path)
    ensures RootsOf(profile, unconfined, network, checkout, artifacts, shared) == Err(NetworkUnclosable) <==> unconfined && !network
    ensures RootsOf(profile, unconfined, network, checkout, artifacts, shared) == Err(SharedDirInCheckout(dir)) <==>
            && !(unconfined && !network)
            && exists i :: 0 <= i < |shared| && shared[i] == dir && checkout <= dir && forall j :: 0 <= j < i ==> !(checkout <= shared[j])
  {
    var first := FirstInside(shared, checkout);
    if i :| 0 <= i < |shared| && shared[i] == dir && checkout <= dir && forall j :: 0 <= j < i ==> !(checkout <= shared[j]) {
      var k :| 0 <= k < |shared| && shared[k] == first.value && checkout <= shared[k] && forall j :: 0 <= j < k ==> !(checkout <= shared[j]);
      assert i == k;
    }
  }

  /** Its roots are the artifact directory and, unless it only reads, what is shared with it. */
  lemma {:induction false} RootsAreGiven(
    profile: Profile, unconfined: bool, network: bool, checkout: Path, artifacts: Option<Path>, shared: seq<Path>, root: Path)
    requires RootsOf(profile, unconfined, network, checkout, artifacts, shared).Ok?
    ensures root in RootsOf(profile, unconfined, network, checkout, artifacts, shared).value <==>
            artifacts == Some(root) || (!profile.ReadOnly? && root in shared)
  {
  }

  /**
   The roots a session is built with lie outside its checkout exactly when no directory
   it was given stands above the checkout, and its artifact directory not inside it: a
   shared directory inside is refused, one above is not.
   */
  lemma {:induction false} BuiltRootsAreOutside(
    profile: Profile, unconfined: bool, network: bool, checkout: Path, artifacts: Option<Path>, shared: seq<Path>)
    requires RootsOf(profile, unconfined, network, checkout, artifacts, shared).Ok?
    ensures var roots := RootsOf(profile, unconfined, network, checkout, artifacts, shared).value;
            RootsOutside(roots, checkout) <==>
              && (artifacts.Some? ==> !(artifacts.value <= checkout) && !(checkout <= artifacts.value))
              && (!profile.ReadOnly? ==> forall i :: 0 <= i < |shared| ==> !(shared[i] <= checkout))
  {
    var first := if artifacts.Some? then [artifacts.value] else [];
    var rest := if profile.ReadOnly? then [] else shared;
    var roots := RootsOf(profile, unconfined, network, checkout, artifacts, shared).value;
    assert roots == first + rest;
    forall i | 0 <= i < |rest| ensures roots[|first| + i] == rest[i] {}
    assert artifacts.Some? ==> roots[0] == artifacts.value;
  }

  /** A root above the checkout opens every unprotected path of it, whatever the scope says. */
  lemma {:induction false} RootAboveOpensCheckout(
    fence: Fence, worktree: Path, confinement: Confinement, root: Path, relative: Path)
    requires root in confinement.roots && root <= worktree
    requires IsAbsolute(worktree) && Plain(worktree + relative)
    requires !Untouchable(confinement.protected, relative)
    ensures Judge(fence, worktree, worktree + relative, confinement).Allowed?
  {
    StandsWhereItIs(worktree, relative);
    InsideIsJudgedExactly(fence, worktree, worktree + relative, confinement, relative);
    var covered := worktree + relative;
    assert root <= covered;
  }
}
