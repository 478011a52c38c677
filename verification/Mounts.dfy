/**
 Mounting a session's skills: each mount is a link made under the checkout, with the
 directories above it that were missing. What was made is kept in a list, and taken
 back newest first when the session ends or the install fails partway.
 */
module Mounts {
  import opened Wrappers
  import opened Sequences

  type Path = seq<string>

  datatype Node = File(content: string) | Dir | Link(target: string)

  type Tree = map<Path, Node>

  function Parent(p: Path): Path
    requires p != []
  {
    p[..|p| - 1]
  }

  /** Every path but the root stands in a directory. */
  ghost predicate WellFormed(tree: Tree) {
    && [] in tree && tree[[]].Dir?
    && (forall p {:trigger Parent(p)} :: p in tree && p != [] ==> Parent(p) in tree && tree[Parent(p)].Dir?)
  }

  predicate IsEmptyDir(tree: Tree, p: Path) {
    p in tree && tree[p].Dir? && forall q :: q in tree && q != [] ==> Parent(q) != p
  }

  /** A tree that is `base` and, on top of it, paths this install made, each after the directory it stands in. */
  ghost predicate Layered(tree: Tree, base: Tree, made: seq<Path>) {
    && WellFormed(tree) && WellFormed(base)
    && (forall p :: p in base ==> p in tree && tree[p] == base[p])
    && (forall p :: p in tree ==> p in base || p in made)
    && (forall i :: 0 <= i < |made| ==> Makeable(tree, base, made[i]))
    && ParentsFirst(made)
  }

  ghost predicate Makeable(tree: Tree, base: Tree, p: Path) {
    p != [] && p !in base && (p in tree ==> !tree[p].File?)
  }

  ghost predicate Standing(tree: Tree, made: seq<Path>, but: Path) {
    forall i :: 0 <= i < |made| ==> made[i] in tree || made[i] == but
  }

  /** No file or link stands where a directory above `dest` has to be. */
  ghost predicate DirsStand(tree: Tree, dest: Path) {
    forall j :: 0 <= j < |dest| && dest[..j] in tree ==> tree[dest[..j]].Dir?
  }

  ghost predicate Grows(a: Tree, b: Tree) {
    forall p :: p in a ==> p in b && b[p] == a[p]
  }

  ghost predicate Above(p: Path, dest: Path) {
    |p| < |dest| && p == dest[..|p|]
  }

  /** What `b` has and `a` has not is directories above `dest`. */
  ghost predicate GrowsAbove(a: Tree, b: Tree, dest: Path) {
    forall p :: p in b && p !in a ==> Above(p, dest) && b[p].Dir?
  }

  ghost predicate MissingFrom(tree: Tree, dest: Path, j: nat) {
    forall i :: j <= i < |dest| ==> dest[..i] !in tree
  }

  /** The tree `a` with the directories above `dest` made that are longer than `k` and shorter than `j`. */
  ghost predicate DirsMade(a: Tree, b: Tree, dest: Path, k: nat, j: nat) {
    && k < j <= |dest| && Grows(a, b) && GrowsAbove(a, b, dest) && MissingFrom(b, dest, j)
    && (dest in b <==> dest in a) && dest[..j - 1] in b
    && (j > k + 1 || DirsStand(a, dest) ==> b[dest[..j - 1]].Dir?)
  }

  lemma {:induction false} Deeper(a: Tree, b: Tree, dest: Path, k: nat, j: nat)
    requires DirsMade(a, b, dest, k, j) && j < |dest|
    ensures dest[..j] != [] && Parent(dest[..j]) == dest[..j - 1] && dest[..j] !in b && dest[..j - 1] in b
    ensures j > k + 1 || DirsStand(a, dest) ==> b[dest[..j - 1]].Dir?
  {
  }

  lemma {:induction false} DeeperMade(a: Tree, b: Tree, dest: Path, k: nat, j: nat)
    requires DirsMade(a, b, dest, k, j) && j < |dest|
    ensures DirsMade(a, b[dest[..j] := Dir], dest, k, j + 1)
  {
    assert |dest[..j]| == j;
    assert forall i :: j < i <= |dest| ==> |dest[..i]| == i;
  }

  /** How far down towards `dest` the directories already stand. */
  method DeepestStanding(tree: Tree, dest: Path) returns (k: nat)
    requires WellFormed(tree) && dest != []
    ensures k < |dest| && dest[..k] in tree && MissingFrom(tree, dest, k + 1)
  {
    k := |dest| - 1;
    assert dest[..0] == [];
    while dest[..k] !in tree
      invariant k < |dest| && MissingFrom(tree, dest, k + 1)
      decreases k
    {
      k := k - 1;
    }
  }

  // ------------------------------------------------------- what each step keeps

  lemma {:induction false} NoneMadeIsUnder(tree: Tree, base: Tree, made: seq<Path>, p: Path, a: nat)
    requires Layered(tree, base, made) && Standing(tree, made, p) && a < |made| && p !in tree
    ensures made[a] != [] && Parent(made[a]) != p
  {
    assert Makeable(tree, base, made[a]);
    assert |Parent(made[a])| < |made[a]|;
  }

  lemma {:induction false} MakingKeepsLayers(tree: Tree, base: Tree, made: seq<Path>, p: Path, node: Node)
    requires Layered(tree, base, made) && Standing(tree, made, p)
    requires p != [] && p !in tree && Parent(p) in tree && tree[Parent(p)].Dir? && !node.File?
    ensures Layered(tree[p := node], base, made + [p])
    ensures Standing(tree[p := node], made + [p], [])
  {
    var more := made + [p];
    NewestComesLast(tree, base, made, p);
    assert forall q :: q in made ==> q in more;
    forall i | 0 <= i < |more| ensures Makeable(tree[p := node], base, more[i]) {
      if i < |made| {
        assert Makeable(tree, base, made[i]);
      }
    }
  }

  ghost predicate ParentsFirst(made: seq<Path>) {
    forall a, b {:trigger Parent(made[a]), made[b]} ::
      0 <= a < |made| && 0 <= b < |made| && made[a] != [] && Parent(made[a]) == made[b] ==> b < a
  }

  lemma {:induction false} NewestComesLast(tree: Tree, base: Tree, made: seq<Path>, p: Path)
    requires Layered(tree, base, made) && Standing(tree, made, p) && p != [] && p !in tree
    ensures ParentsFirst(made + [p])
  {
    var more := made + [p];
    forall a, b | 0 <= a < |more| && 0 <= b < |more| && more[a] != [] && Parent(more[a]) == more[b] ensures b < a {
      if a < |made| {
        NoneMadeIsUnder(tree, base, made, p, a);
      }
    }
  }

  lemma {:induction false} ReplacingKeepsLayers(tree: Tree, base: Tree, made: seq<Path>, dest: Path)
    requires Layered(tree, base, made) && dest in tree && tree[dest].Link?
    ensures Layered(tree - {dest}, base - {dest}, made)
    ensures Standing(tree, made, []) ==> Standing(tree - {dest}, made, dest)
  {
    assert forall i :: 0 <= i < |made| ==> Makeable(tree, base, made[i]);
    forall i | 0 <= i < |made| ensures Makeable(tree - {dest}, base - {dest}, made[i]) {
      assert Makeable(tree, base, made[i]);
    }
  }

  lemma {:induction false} NewestHoldsNothing(tree: Tree, base: Tree, made: seq<Path>, q: Path)
    requires Layered(tree, base, made) && made != [] && q in tree && q != []
    ensures Parent(q) != made[|made| - 1]
  {
    var n := |made| - 1;
    assert Makeable(tree, base, made[n]);
    if q in base {
      assert Parent(q) in base;
    } else {
      var a :| 0 <= a < |made| && made[a] == q;
      assert Parent(made[a]) == Parent(q);
    }
  }

  lemma {:induction false} TakingBackKeepsLayers(tree: Tree, base: Tree, made: seq<Path>)
    requires Layered(tree, base, made) && made != []
    ensures var p, rest := made[|made| - 1], made[..|made| - 1];
            && (p !in tree ==> Layered(tree, base, rest))
            && (p in tree ==> Layered(tree - {p}, base, rest) && (tree[p].Link? || IsEmptyDir(tree, p)))
  {
    var n := |made| - 1;
    var p, rest := made[n], made[..n];
    assert Makeable(tree, base, p);
    LastSplit(made);
    assert forall q :: q in made <==> q in rest || q == p;
    forall i | 0 <= i < |rest| ensures Makeable(tree, base, rest[i]) && Makeable(tree - {p}, base, rest[i]) {
      assert rest[i] == made[i] && Makeable(tree, base, made[i]);
    }
    if p in tree && tree[p].Dir? {
      forall q | q in tree && q != [] ensures Parent(q) != p {
        NewestHoldsNothing(tree, base, made, q);
      }
    }
  }

  /** Only made paths went, none of them a file, and nothing else changed. */
  ghost predicate OnlyTakes(a: Tree, b: Tree, made: seq<Path>) {
    && (forall p :: p in b ==> p in a && b[p] == a[p])
    && (forall p :: p in a && (p !in made || a[p].File?) ==> p in b)
  }

  /** What taking back one path does: it goes if it is a link or an empty directory and nothing refuses. */
  ghost predicate Took(a: Tree, b: Tree, path: Path, ok: bool) {
    && (b == a || (path in a && !a[path].File? && b == a - {path}))
    && (ok && path in a && (a[path].Link? || IsEmptyDir(a, path)) ==> b == a - {path})
  }

  lemma {:induction false} OnlyTakesMore(a: Tree, b: Tree, c: Tree, made: seq<Path>, k: nat, ok: bool)
    requires OnlyTakes(a, b, made) && k < |made| && Took(b, c, made[k], ok)
    ensures OnlyTakes(a, c, made)
  {
  }

  /** Partway through a release: the paths from `k` on were taken back. */
  ghost predicate Released(start: Tree, tree: Tree, base: Tree, paths: seq<Path>, k: nat, ok: bool) {
    && k <= |paths| && OnlyTakes(start, tree, paths)
    && (Layered(start, base, paths) && ok ==> Layered(tree, base, paths[..k]))
  }

  lemma {:induction false} Untouched(start: Tree, base: Tree, paths: seq<Path>)
    ensures Released(start, start, base, paths, |paths|, true)
  {
    assert paths[..|paths|] == paths;
  }

  lemma {:induction false} ReleasedMore(start: Tree, before: Tree, after: Tree, base: Tree, paths: seq<Path>, k: nat, ok: bool, taken: bool)
    requires k < |paths| && Released(start, before, base, paths, k + 1, ok) && Took(before, after, paths[k], taken)
    ensures Released(start, after, base, paths, k, ok && taken)
  {
    OnlyTakesMore(start, before, after, paths, k, taken);
    if Layered(start, base, paths) && ok && taken {
      TakenBack(before, after, base, paths, k);
    }
  }

  lemma {:induction false} ReleasedAll(start: Tree, tree: Tree, base: Tree, paths: seq<Path>, ok: bool)
    requires Released(start, tree, base, paths, 0, ok)
    ensures OnlyTakes(start, tree, paths) && (Layered(start, base, paths) && ok ==> tree == base)
  {
    if Layered(start, base, paths) && ok {
      NothingMadeIsBase(tree, base, paths[..0]);
    }
  }

  lemma {:induction false} TakenBack(before: Tree, after: Tree, base: Tree, paths: seq<Path>, k: nat)
    requires k < |paths| && Layered(before, base, paths[..k + 1]) && Took(before, after, paths[k], true)
    ensures Layered(after, base, paths[..k])
  {
    TakingBackKeepsLayers(before, base, paths[..k + 1]);
    assert paths[..k + 1][..k] == paths[..k] && paths[..k + 1][k] == paths[k];
  }

  lemma {:induction false} NothingMadeIsBase(tree: Tree, base: Tree, made: seq<Path>)
    requires Layered(tree, base, made) && made == []
    ensures tree == base
  {
  }

  // ------------------------------------------------------------------ the mounts

  datatype Mount = Mount(dest: Path, skill: string)

  datatype Failure = CouldNotCreate(path: Path) | NotALink(path: Path) | CouldNotReplace(path: Path)
                   | CouldNotStage(path: Path) | CouldNotTakeBack(path: Path)

  type Outcome = Result<(), Failure>

  class Mounts {
    /** Whether the host may refuse a step that could be done. */
    const flaky: bool
    /** The file tree the mounts are made in. */
    var tree: Tree
    var made: seq<Path>
    var armed: bool

    constructor (tree: Tree, flaky: bool)
      ensures this.tree == tree && this.flaky == flaky && made == [] && armed
    {
      this.flaky := flaky;
      this.tree := tree;
      made := [];
      armed := true;
    }

    /** Creates one missing directory, recording it. */
    method MakeDir(dir: Path, ghost base: Tree) returns (r: Outcome)
      requires Layered(tree, base, made) && Standing(tree, made, [])
      requires dir != [] && dir !in tree && Parent(dir) in tree
      modifies this
      ensures armed == old(armed) && Layered(tree, base, made) && Standing(tree, made, [])
      ensures r.Ok? ==> tree == old(tree)[dir := Dir]
      ensures r.Err? ==> tree == old(tree)
      ensures !flaky && old(tree)[Parent(dir)].Dir? ==> r.Ok?
    {
      var refused: bool := *;
      if (flaky && refused) || !tree[Parent(dir)].Dir? {
        return Err(CouldNotCreate(dir));
      }
      assert Standing(tree, made, dir);
      MakingKeepsLayers(tree, base, made, dir, Dir);
      tree := tree[dir := Dir];
      made := made + [dir];
      return Ok(());
    }

    /** Makes what is missing on the way down to `dest`, outermost first, keeping a record of it. */
    method MakeDirs(dest: Path, ghost base: Tree) returns (r: Outcome)
      requires dest != [] && Layered(tree, base, made) && Standing(tree, made, [])
      modifies this
      ensures armed == old(armed) && Layered(tree, base, made) && Standing(tree, made, [])
      ensures r.Ok? ==> Parent(dest) in tree
      ensures Grows(old(tree), tree) && GrowsAbove(old(tree), tree, dest) && (dest in tree <==> dest in old(tree))
      ensures !flaky && DirsStand(old(tree), dest) ==> r.Ok? && tree[Parent(dest)].Dir?
    {
      var k := DeepestStanding(tree, dest);
      ghost var start := tree;
      for j := k + 1 to |dest|
        invariant armed == old(armed) && Layered(tree, base, made) && Standing(tree, made, [])
        invariant DirsMade(start, tree, dest, k, j)
      {
        ghost var before := tree;
        Deeper(start, tree, dest, k, j);
        r := MakeDir(dest[..j], base);
        if r.Err? {
          return;
        }
        DeeperMade(start, before, dest, k, j);
      }
      return Ok(());
    }

    /** Puts the link of one mount in place: a stale link is replaced, anything else is refused. */
    method PutLink(mount: Mount, ghost base: Tree) returns (r: Outcome, ghost base': Tree)
      requires mount.dest != [] && Layered(tree, base, made) && Standing(tree, made, []) && Parent(mount.dest) in tree
      modifies this
      ensures armed == old(armed) && Layered(tree, base', made)
      ensures Relinked(base, base', mount.dest)
      ensures r.Ok? ==> mount.dest in made && Standing(tree, made, []) && Linked(old(tree), tree, mount)
      ensures !flaky && (if mount.dest in old(tree) then old(tree)[mount.dest].Link? else old(tree)[Parent(mount.dest)].Dir?) ==> r.Ok?
    {
      var dest := mount.dest;
      base' := base;
      var refused: bool := *;
      if dest in tree {
        if !tree[dest].Link? {
          return Err(NotALink(dest)), base;
        }
        if flaky && refused {
          return Err(CouldNotReplace(dest)), base;
        }
        ReplacingKeepsLayers(tree, base, made, dest);
        tree := tree - {dest};
        base' := base - {dest};
        assert dest !in base ==> base' == base;
      }
      assert Standing(tree, made, dest);
      var unstaged: bool := *;
      if (flaky && unstaged) || !tree[Parent(dest)].Dir? {
        return Err(CouldNotStage(dest)), base';
      }
      MakingKeepsLayers(tree, base', made, dest, Link(mount.skill));
      tree := tree[dest := Link(mount.skill)];
      made := made + [dest];
      return Ok(()), base';
    }

    /** Removes a link, or a directory with nothing in it, and leaves anything else. */
    method TakeBack(path: Path) returns (r: Outcome)
      requires WellFormed(tree) && path != []
      modifies this
      ensures made == old(made) && armed == old(armed) && WellFormed(tree)
      ensures Took(old(tree), tree, path, r.Ok?) && (!flaky ==> r.Ok?)
    {
      if path !in tree {
        return Ok(());
      }
      var refused: bool := *;
      if tree[path].Link? || IsEmptyDir(tree, path) {
        if flaky && refused {
          return Err(CouldNotTakeBack(path));
        }
        tree := tree - {path};
      }
      return Ok(());
    }

    /**
     Takes back what was made, newest first. Nothing that was not made is touched, no
     file is ever removed, and every path left still stands in its directory. Over a
     base nobody else wrote to, a release that meets no error leaves that base.
     */
    method Release(ghost base: Tree) returns (r: Outcome)
      requires WellFormed(tree) && [] !in made
      modifies this
      ensures made == [] && !armed && WellFormed(tree) && OnlyTakes(old(tree), tree, old(made))
      ensures Layered(old(tree), base, old(made)) && r.Ok? ==> tree == base
      ensures !flaky ==> r.Ok?
    {
      armed := false;
      var paths := made;
      made := [];
      r := Ok(());
      ghost var start := tree;
      Untouched(start, base, paths);
      var k := |paths|;
      while k > 0
        invariant 0 <= k <= |paths| && made == [] && !armed && WellFormed(tree)
        invariant Released(start, tree, base, paths, k, r.Ok?)
        invariant !flaky ==> r.Ok?
      {
        k := k - 1;
        ghost var before := tree;
        var taken := TakeBack(paths[k]);
        ReleasedMore(start, before, tree, base, paths, k, r.Ok?, taken.Ok?);
        if taken.Err? && r.Ok? {
          r := taken;
        }
      }
      ReleasedAll(start, tree, base, paths, r.Ok?);
    }

    /** One mount: the directories above it, then its link. */
    method InstallOne(mount: Mount, ghost base: Tree) returns (r: Outcome, ghost base': Tree)
      requires mount.dest != [] && Layered(tree, base, made) && Standing(tree, made, [])
      modifies this
      ensures armed == old(armed) && Layered(tree, base', made) && Relinked(base, base', mount.dest)
      ensures r.Ok? ==> Standing(tree, made, []) && Linked(old(tree), tree, mount) && mount.dest !in base'
      ensures !flaky && Receives(old(tree), mount.dest) ==> r.Ok?
    {
      base' := base;
      ghost var start := tree;
      r := MakeDirs(mount.dest, base);
      if r.Ok? {
        ghost var deeper := tree;
        r, base' := PutLink(mount, base);
        if r.Ok? {
          LinkedAfter(start, deeper, tree, mount);
          LinkedIsNotBase(tree, base', made, mount.dest);
        }
      }
    }

    /** Makes the links of `mounts` in turn, stopping at the first that fails. */
    method InstallEach(mounts: seq<Mount>) returns (r: Outcome, ghost stale: set<Path>)
      requires WellFormed(tree) && made == [] && forall i :: 0 <= i < |mounts| ==> mounts[i].dest != []
      modifies this
      ensures armed == old(armed) && Layered(tree, old(tree) - stale, made)
      ensures StaleLinks(old(tree), mounts, stale)
      ensures r.Ok? ==> Mounted(tree, mounts, |mounts|) && Cleared(old(tree) - stale, mounts, |mounts|)
      ensures !flaky && Open(old(tree), mounts, 0) ==> r.Ok?
    {
      ghost var start, base := tree, tree;
      stale := {};
      r := Ok(());
      assert start - {} == start;
      for k := 0 to |mounts|
        invariant armed == old(armed) && Layered(tree, base, made) && Standing(tree, made, [])
        invariant StaleLinks(start, mounts, stale) && base == start - stale
        invariant r.Ok? && Mounted(tree, mounts, k) && Cleared(base, mounts, k)
        invariant Open(start, mounts, 0) ==> Open(tree, mounts, k)
      {
        ghost var before, base' := tree, base;
        r, base' := InstallOne(mounts[k], base);
        stale := stale + StaleMore(start, stale, base, base', mounts, k);
        if r.Ok? {
          MountedMore(before, tree, mounts, k);
          ClearedMore(base, base', mounts, k);
          if Open(before, mounts, k) {
            OpenStill(before, tree, mounts, k);
          }
        }
        base := base';
        if r.Err? {
          return;
        }
      }
    }

    /**
     Every link or none. A failed install takes back what it made: nothing of the tree
     is lost but the stale links it replaced, and where no step of the undo was refused
     nothing else is left of it.
     */
    method Install(mounts: seq<Mount>) returns (r: Outcome, ghost stale: set<Path>, ghost undone: bool)
      requires WellFormed(tree) && made == [] && armed && forall i :: 0 <= i < |mounts| ==> mounts[i].dest != []
      modifies this
      ensures StaleLinks(old(tree), mounts, stale)
      ensures r.Ok? ==> armed && Layered(tree, old(tree) - stale, made) && Mounted(tree, mounts, |mounts|)
      ensures r.Ok? ==> Cleared(old(tree) - stale, mounts, |mounts|)
      ensures r.Err? ==> made == [] && !armed && WellFormed(tree) && Grows(old(tree) - stale, tree)
      ensures r.Err? && undone ==> tree == old(tree) - stale
      ensures !flaky ==> undone
      ensures !flaky && Open(old(tree), mounts, 0) ==> r.Ok?
    {
      undone := true;
      r, stale := InstallEach(mounts);
      if r.Err? && armed {
        ghost var reached, made' := tree, made;
        var released := Release(old(tree) - stale);
        undone := released.Ok?;
        TakenKeepsBase(reached, tree, old(tree) - stale, made');
      }
    }

    /** An install that is released with no other writer leaves the tree without the stale links, and otherwise as it was. */
    method InstallThenRelease(mounts: seq<Mount>) returns (r: Outcome, ghost stale: set<Path>)
      requires WellFormed(tree) && made == [] && armed && forall i :: 0 <= i < |mounts| ==> mounts[i].dest != []
      modifies this
      ensures StaleLinks(old(tree), mounts, stale) && WellFormed(tree) && made == [] && !armed
      ensures !flaky || r.Ok? ==> tree == old(tree) - stale
    {
      var installed: Outcome;
      ghost var undone;
      installed, stale, undone := Install(mounts);
      r := installed;
      if installed.Ok? {
        r := Release(old(tree) - stale);
      }
    }
  }

  /** The stale links an install replaced: links that stood where a mount goes. */
  ghost predicate StaleLinks(tree: Tree, mounts: seq<Mount>, stale: set<Path>) {
    forall p :: p in stale ==> p in tree && tree[p].Link? && exists i :: 0 <= i < |mounts| && mounts[i].dest == p
  }

  ghost predicate LastAt(mounts: seq<Mount>, i: nat, n: nat)
    requires i < n <= |mounts|
  {
    forall j :: i < j < n ==> mounts[j].dest != mounts[i].dest
  }

  ghost predicate Holds(tree: Tree, mount: Mount) {
    mount.dest in tree && tree[mount.dest] == Link(mount.skill)
  }

  /** Each of the first `n` mounts is a link to its skill, the last of those that share a place. */
  ghost predicate Mounted(tree: Tree, mounts: seq<Mount>, n: nat)
    requires n <= |mounts|
  {
    forall i :: 0 <= i < n && LastAt(mounts, i, n) ==> Holds(tree, mounts[i])
  }

  lemma {:induction false} MountedMore(before: Tree, after: Tree, mounts: seq<Mount>, k: nat)
    requires k < |mounts| && Mounted(before, mounts, k) && Linked(before, after, mounts[k])
    ensures Mounted(after, mounts, k + 1)
  {
    forall i: nat | i < k + 1 && LastAt(mounts, i, k + 1) ensures Holds(after, mounts[i]) {
      if i < k {
        assert LastAt(mounts, i, k) && mounts[k].dest != mounts[i].dest;
        assert Holds(before, mounts[i]);
      }
    }
  }

  /** The base of one more mount: as it was, or without the link that stood at `dest`. */
  ghost predicate Relinked(base: Tree, base': Tree, dest: Path) {
    base' == base || (dest in base && base[dest].Link? && base' == base - {dest})
  }

  /** What installing one mount does to the paths that stood. */
  ghost predicate Linked(a: Tree, b: Tree, mount: Mount) {
    && Holds(b, mount)
    && (forall p :: p in a && p != mount.dest ==> p in b && b[p] == a[p])
    && (forall p :: p in b && p !in a && p != mount.dest ==> Above(p, mount.dest) && b[p].Dir?)
  }

  lemma {:induction false} LinkedAfter(a: Tree, b: Tree, c: Tree, mount: Mount)
    requires Grows(a, b) && GrowsAbove(a, b, mount.dest) && Linked(b, c, mount)
    ensures Linked(a, c, mount)
  {
  }

  /** Nothing but a link stands at `dest`, and nothing but directories above it. */
  ghost predicate Receives(tree: Tree, dest: Path) {
    DirsStand(tree, dest) && (dest in tree ==> tree[dest].Link?)
  }

  /** Every mount from the `n`-th on can be made, and none is above another. */
  ghost predicate Open(tree: Tree, mounts: seq<Mount>, n: nat) {
    && (forall i :: n <= i < |mounts| ==> Receives(tree, mounts[i].dest))
    && (forall i, j :: 0 <= i < |mounts| && 0 <= j < |mounts| ==> !Above(mounts[i].dest, mounts[j].dest))
  }

  lemma {:induction false} ReceivesStill(a: Tree, b: Tree, mount: Mount, dest: Path)
    requires Receives(a, dest) && Linked(a, b, mount) && !Above(mount.dest, dest) && !Above(dest, mount.dest)
    ensures Receives(b, dest)
  {
    forall j | 0 <= j < |dest| && dest[..j] in b ensures b[dest[..j]].Dir? {
      assert |dest[..j]| == j && Above(dest[..j], dest);
    }
  }

  lemma {:induction false} OpenStill(a: Tree, b: Tree, mounts: seq<Mount>, k: nat)
    requires k < |mounts| && Open(a, mounts, k) && Linked(a, b, mounts[k])
    ensures Open(b, mounts, k + 1)
  {
    forall i | k + 1 <= i < |mounts| ensures Receives(b, mounts[i].dest) {
      ReceivesStill(a, b, mounts[k], mounts[i].dest);
    }
  }

  /** Nothing of the base stands where the first `n` mounts are. */
  ghost predicate Cleared(base: Tree, mounts: seq<Mount>, n: nat)
    requires n <= |mounts|
  {
    forall i :: 0 <= i < n ==> mounts[i].dest !in base
  }

  lemma {:induction false} ClearedMore(base: Tree, base': Tree, mounts: seq<Mount>, k: nat)
    requires k < |mounts| && Cleared(base, mounts, k) && Relinked(base, base', mounts[k].dest) && mounts[k].dest !in base'
    ensures Cleared(base', mounts, k + 1)
  {
  }

  ghost function StaleMore(start: Tree, stale: set<Path>, base: Tree, base': Tree, mounts: seq<Mount>, k: nat): (more: set<Path>)
    requires k < |mounts| && StaleLinks(start, mounts, stale) && base == start - stale && Relinked(base, base', mounts[k].dest)
    ensures StaleLinks(start, mounts, stale + more) && base' == start - (stale + more)
  {
    if base' == base then
      assert stale + {} == stale; {}
    else
      assert start - (stale + {mounts[k].dest}) == base'; {mounts[k].dest}
  }

  lemma {:induction false} LinkedIsNotBase(tree: Tree, base: Tree, made: seq<Path>, dest: Path)
    requires Layered(tree, base, made) && dest in made
    ensures dest !in base
  {
    var i :| 0 <= i < |made| && made[i] == dest;
    assert Makeable(tree, base, made[i]);
  }

  lemma {:induction false} TakenKeepsBase(a: Tree, b: Tree, base: Tree, made: seq<Path>)
    requires Layered(a, base, made) && OnlyTakes(a, b, made)
    ensures Grows(base, b)
  {
    forall p | p in made ensures p !in base {
      LinkedIsNotBase(a, base, made, p);
    }
  }
}
