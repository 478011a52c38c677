/**
 The text a pack's tree is hashed over: one line for each file, its path and its hash with a
 NUL between, the paths sorted. Names may hold anything but a
 separator and a NUL: a newline included.
 */
module TreeDigest {
  import opened Sequences
  import opened Ordering

  /** A relative path as its names. */
  type Path = seq<string>

  predicate IsName(name: string) {
    name != "" && '/' !in name && '\0' !in name
  }

  predicate IsPath(path: Path) {
    path != [] && forall i :: 0 <= i < |path| ==> IsName(path[i])
  }

  /** A tree: the hash of each file's bytes, 64 digits long. */
  predicate IsTree(tree: map<Path, string>) {
    forall p :: p in tree ==> IsPath(p) && |tree[p]| == 64
  }

  /** A listing names each file of the tree once, in whatever order the directory gave them. */
  ghost predicate Lists(listing: seq<Path>, tree: map<Path, string>) {
    Distinct(listing) && forall p :: p in listing <==> p in tree
  }

  function PathText(path: Path): string {
    if path == [] then "" else if |path| == 1 then path[0] else path[0] + "/" + PathText(path[1..])
  }

  function Line(path: Path, hash: string): string {
    PathText(path) + "\0" + hash + "\n"
  }

  function Lines(tree: map<Path, string>, paths: seq<Path>): string
    requires forall p :: p in paths ==> p in tree
  {
    if paths == [] then "" else
      assert paths[0] in paths;
      Line(paths[0], tree[paths[0]]) + Lines(tree, paths[1..])
  }

  /** Paths are ordered name by name. */
  const PATHS: (Path, Path) -> bool := (a: Path, b: Path) => Before(TEXTS, a, b)

  function DigestInput(tree: map<Path, string>, listing: seq<Path>): string
    requires Lists(listing, tree)
  {
    SortMembers(PATHS, listing);
    Lines(tree, Sort(PATHS, listing))
  }

  lemma {:induction false} PathsOrdered()
    ensures StrictOrder(PATHS)
  {
    TextsOrdered();
    BeforeIsStrict(TEXTS, PATHS);
  }

  /**
   Where the two orders part: at the first names that differ the one goes on into the
   other, its path goes on below it, and the sign the other name has there comes before
   a separator.
   */
  predicate Crossed(p: Path, q: Path) {
    && p != [] && q != []
    && (if p[0] == q[0] then Crossed(p[1..], q[1..])
        else |p| > 1 && p[0] <= q[0] && q[0][|p[0]|] < '/')
  }

  lemma {:induction false} AfterCommon(common: string, a: string, b: string)
    ensures TextBefore(common + a, common + b) <==> TextBefore(a, b)
    decreases |common|
  {
    if common == "" {
      EmptyConcat(a);
      EmptyConcat(b);
    } else {
      TailOfConcat(common, a);
      TailOfConcat(common, b);
      AfterCommon(common[1..], a, b);
    }
  }

  lemma {:induction false} TextIsIrreflexive(a: string)
    ensures !TextBefore(a, a)
  {
    if a != "" {
      TextIsIrreflexive(a[1..]);
    }
  }

  /** How far two texts agree. */
  lemma {:induction false} Agreement(x: string, y: string) returns (k: nat)
    ensures k <= |x| && k <= |y| && x[..k] == y[..k] && (k < |x| && k < |y| ==> x[k] != y[k])
  {
    k := 0;
    while k < |x| && k < |y| && x[k] == y[k]
      invariant k <= |x| && k <= |y| && x[..k] == y[..k]
    {
      assert x[..k + 1] == x[..k] + [x[k]] && y[..k + 1] == y[..k] + [y[k]];
      k := k + 1;
    }
  }

  /** What a path's text has after its first name. */
  function AfterName(path: Path): string
    requires path != []
  {
    if |path| == 1 then "" else "/" + PathText(path[1..])
  }

  lemma {:induction false} NameThenRest(path: Path)
    requires path != []
    ensures PathText(path) == path[0] + AfterName(path)
  {
    if |path| == 1 {
      EmptyConcat(path[0]);
    } else {
      Assoc(path[0], "/", PathText(path[1..]));
    }
  }

  lemma {:induction false} ApartInside(x: string, y: string, s: string, t: string, k: nat)
    requires k < |x| && k < |y| && x[..k] == y[..k] && x[k] != y[k]
    ensures TextBefore(x, y) <==> x[k] < y[k]
    ensures TextBefore(x + s, y + t) <==> x[k] < y[k]
  {
    Rejoin(x, k);
    Rejoin(y, k);
    AfterCommon(x[..k], x[k..], y[k..]);
    Assoc(x[..k], x[k..], s);
    Assoc(y[..k], y[k..], t);
    AfterCommon(x[..k], x[k..] + s, y[k..] + t);
    assert (x[k..] + s)[0] == x[k] && (y[k..] + t)[0] == y[k];
  }

  lemma {:induction false} GoesOn(x: string, z: string, s: string, t: string)
    requires z != "" && z[0] != '/' && (s == "" || s[0] == '/')
    ensures TextBefore(x, x + z) && !TextBefore(x + z, x)
    ensures TextBefore(x + s, (x + z) + t) <==> s == "" || '/' < z[0]
  {
    EmptyConcat(x);
    AfterCommon(x, "", z);
    AfterCommon(x, z, "");
    Assoc(x, z, t);
    AfterCommon(x, s, z + t);
    assert (z + t)[0] == z[0];
  }

  lemma {:induction false} TextsApart(x: string, y: string, s: string, t: string)
    requires x != y && '/' !in x && '/' !in y && (s == "" || s[0] == '/') && (t == "" || t[0] == '/')
    ensures TextBefore(x, y) && !TextBefore(x + s, y + t) <==> s != "" && x <= y && y[|x|] < '/'
  {
    var k := Agreement(x, y);
    if k < |x| && k < |y| {
      ApartInside(x, y, s, t, k);
    } else if k == |x| {
      EmptyConcat(x);
      Rejoin(y, k);
      assert y[k] in y;
      GoesOn(x, y[k..], s, t);
    } else {
      EmptyConcat(y);
      Rejoin(x, k);
      assert x[k] in x;
      GoesOn(y, x[k..], t, s);
    }
  }

  lemma {:induction false} NamesApart(p: Path, q: Path)
    requires IsPath(p) && IsPath(q) && p[0] != q[0]
    ensures PATHS(p, q) && !TextBefore(PathText(p), PathText(q)) <==> Crossed(p, q)
  {
    NameThenRest(p);
    NameThenRest(q);
    assert IsName(p[0]) && IsName(q[0]);
    assert PATHS(p, q) == TextBefore(p[0], q[0]);
    TextsApart(p[0], q[0], AfterName(p), AfterName(q));
  }

  lemma {:induction false} ShortApart(p: Path, q: Path)
    requires IsPath(p) && IsPath(q) && p[0] == q[0] && (|p| == 1 || |q| == 1)
    ensures !Crossed(p, q) && (PATHS(p, q) ==> TextBefore(AfterName(p), AfterName(q)))
  {
    TextIsIrreflexive(p[0]);
    assert PATHS(p, q) == Before(TEXTS, p, q) && TEXTS(p[0], q[0]) == TextBefore(p[0], q[0]);
    assert PATHS(p, q) ==> Before(TEXTS, p[1..], q[1..]);
    assert |q| == 1 ==> q[1..] == [];
    assert |p| == 1 ==> p[1..] == [];
  }

  /** Name by name and sign by sign put two paths the other way round exactly when they are crossed. */
  lemma {:induction false} OrdersPartExactly(p: Path, q: Path)
    requires IsPath(p) && IsPath(q)
    ensures PATHS(p, q) && !TextBefore(PathText(p), PathText(q)) <==> Crossed(p, q)
    decreases |p|
  {
    if p[0] != q[0] {
      NamesApart(p, q);
    } else {
      NameThenRest(p);
      NameThenRest(q);
      TextIsIrreflexive(p[0]);
      AfterCommon(p[0], AfterName(p), AfterName(q));
      if |p| > 1 && |q| > 1 {
        AfterCommon("/", PathText(p[1..]), PathText(q[1..]));
        OrdersPartExactly(p[1..], q[1..]);
      } else {
        ShortApart(p, q);
      }
    }
  }

  /** So name by name is not sign by sign: `a/b` comes before `a-b`, and its text after. */
  lemma {:induction false} PathOrderIsNotTextOrder()
    ensures PATHS(["a", "b"], ["a-b"]) && !TextBefore(PathText(["a", "b"]), PathText(["a-b"]))
  {
    var p, q := ["a", "b"], ["a-b"];
    assert IsName("a") && IsName("b") && IsName("a-b");
    assert q[0][..1] == p[0];
    OrdersPartExactly(p, q);
  }

  method WriteDigestInput(tree: map<Path, string>, listing: seq<Path>) returns (text: string)
    requires Lists(listing, tree)
    ensures text == DigestInput(tree, listing)
  {
    var files := Sort(PATHS, listing);
    SortMembers(PATHS, listing);
    text := "";
    EmptyConcat(Lines(tree, files));
    EmptyConcat(files);
    for i := 0 to |files|
      invariant text + Lines(tree, files[i..]) == Lines(tree, files)
    {
      var path := files[i];
      assert path in files && files[i..][0] == path && files[i..][1..] == files[i + 1..];
      ghost var before := text;
      text := text + PathText(path);
      text := text + "\0";
      text := text + tree[path];
      text := text + "\n";
      LineAppended(before, PathText(path), tree[path], Lines(tree, files[i + 1..]));
    }
    EmptyConcat(text);
  }

  lemma {:induction false} LineAppended(before: string, path: string, hash: string, rest: string)
    ensures before + path + "\0" + hash + "\n" + rest == before + (path + "\0" + hash + "\n" + rest)
  {
  }

  // ------------------------------------------------------------- unambiguous

  lemma {:induction false} LaterCutDiffers(c: char, a: string, s: string, b: string, t: string)
    requires c !in b && |a| < |b|
    ensures a + [c] + s != b + [c] + t
  {
    assert (a + [c] + s)[|a|] == c && (b + [c] + t)[|a|] == b[|a|];
  }

  /** A text cut at a character neither part before it holds. */
  lemma {:induction false} CutAt(c: char, a: string, s: string, b: string, t: string)
    requires c !in a && c !in b && a + [c] + s == b + [c] + t
    ensures a == b && s == t
  {
    var x, y := a + [c] + s, b + [c] + t;
    if |a| < |b| {
      LaterCutDiffers(c, a, s, b, t);
    } else if |b| < |a| {
      LaterCutDiffers(c, b, t, a, s);
    }
    assert a == x[..|a|] && b == y[..|b|] && s == x[|a| + 1..] && t == y[|b| + 1..];
  }

  lemma {:induction false} PathTextHolds(path: Path, c: char)
    requires IsPath(path)
    ensures c == '\0' ==> c !in PathText(path)
    ensures c == '/' && |path| > 1 ==> c in PathText(path)
  {
    if |path| > 1 {
      PathTextHolds(path[1..], c);
      var t := path[0] + "/" + PathText(path[1..]);
      assert t[|path[0]|] == '/';
      assert forall i :: 0 <= i < |t| ==> t[i] == (if i < |path[0]| then path[0][i] else if i == |path[0]| then '/' else PathText(path[1..])[i - |path[0]| - 1]);
    }
  }

  lemma {:induction false} PathTextUnique(p: Path, q: Path)
    requires IsPath(p) && IsPath(q) && PathText(p) == PathText(q)
    ensures p == q
    decreases |p|
  {
    PathTextHolds(p, '/');
    PathTextHolds(q, '/');
    HeadSplit(p);
    HeadSplit(q);
    assert IsName(p[0]) && IsName(q[0]);
    assert |p| > 1 <==> '/' in PathText(p);
    assert |q| > 1 <==> '/' in PathText(q);
    if |p| > 1 {
      CutAt('/', p[0], PathText(p[1..]), q[0], PathText(q[1..]));
      PathTextUnique(p[1..], q[1..]);
    }
  }

  lemma {:induction false} LineUnique(p: Path, h: string, x: string, q: Path, k: string, y: string)
    requires IsPath(p) && IsPath(q) && |h| == |k| && Line(p, h) + x == Line(q, k) + y
    ensures p == q && h == k && x == y
  {
    PathTextHolds(p, '\0');
    PathTextHolds(q, '\0');
    LineSplits(p, h, x);
    LineSplits(q, k, y);
    CutAt('\0', PathText(p), h + "\n" + x, PathText(q), k + "\n" + y);
    PathTextUnique(p, q);
    var a, b := h + "\n" + x, k + "\n" + y;
    assert h == a[..|h|] && k == b[..|k|] && x == a[|h| + 1..] && y == b[|k| + 1..];
  }

  lemma {:induction false} LineSplits(p: Path, h: string, x: string)
    ensures Line(p, h) + x == PathText(p) + ['\0'] + (h + "\n" + x)
  {
  }

  lemma {:induction false} LinesUnique(a: map<Path, string>, ps: seq<Path>, b: map<Path, string>, qs: seq<Path>)
    requires IsTree(a) && IsTree(b)
    requires (forall p :: p in ps ==> p in a) && (forall q :: q in qs ==> q in b)
    requires Lines(a, ps) == Lines(b, qs)
    ensures ps == qs && forall p :: p in ps ==> p in b && a[p] == b[p]
    decreases |ps|
  {
    if ps != [] && qs != [] {
      assert ps[0] in ps && qs[0] in qs;
      LineUnique(ps[0], a[ps[0]], Lines(a, ps[1..]), qs[0], b[qs[0]], Lines(b, qs[1..]));
      LinesUnique(a, ps[1..], b, qs[1..]);
      HeadSplit(ps);
      HeadSplit(qs);
    }
  }

  /** Two trees give one digest text exactly when they are the same tree, however each was listed. */
  lemma {:induction false} DigestIsUnambiguous(
    a: map<Path, string>, la: seq<Path>, b: map<Path, string>, lb: seq<Path>)
    requires IsTree(a) && IsTree(b) && Lists(la, a) && Lists(lb, b)
    ensures DigestInput(a, la) == DigestInput(b, lb) <==> a == b
  {
    PathsOrdered();
    SortMembers(PATHS, la);
    SortMembers(PATHS, lb);
    if DigestInput(a, la) == DigestInput(b, lb) {
      LinesUnique(a, Sort(PATHS, la), b, Sort(PATHS, lb));
      assert forall p :: p in a <==> p in Sort(PATHS, la);
      assert forall p :: p in b <==> p in Sort(PATHS, lb);
    }
    if a == b {
      SortIsOrderFree(PATHS, la, lb);
    }
  }
}
