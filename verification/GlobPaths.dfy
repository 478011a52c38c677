/**
 Globs made from paths: the glob that selects exactly one path, the glob of every path
 under a directory, and the directory a glob selects every path of.
 */
module GlobPaths {
  import opened Wrappers
  import opened Sequences
  import opened GlobSyntax
  import opened GlobOverlap

  function Escaped(c: char): string {
    if IsSpecial(c) then ['[', c, ']']
    else if c == '\\' then "\\\\"
    else [c]
  }

  /** `path` as glob text, each character that reads as syntax escaped. */
  function LiteralText(path: string): string {
    if path == "" then "" else Escaped(path[0]) + LiteralText(path[1..])
  }

  lemma {:induction false} LiteralTextAppend(a: string, b: string)
    ensures LiteralText(a + b) == LiteralText(a) + LiteralText(b)
  {
    if a == "" {
      assert a + b == b;
    } else {
      assert (a + b)[1..] == a[1..] + b;
      LiteralTextAppend(a[1..], b);
    }
  }

  method WriteLiteralText(path: string) returns (text: string)
    ensures text == LiteralText(path)
  {
    text := "";
    for i := 0 to |path|
      invariant text == LiteralText(path[..i])
    {
      var c := path[i];
      if IsSpecial(c) {
        text := text + ['['] + [c] + [']'];
      } else if c == '\\' {
        text := text + "\\\\";
      } else {
        text := text + [c];
      }
      assert path[..i + 1] == path[..i] + [c];
      LiteralTextAppend(path[..i], [c]);
      assert LiteralText([c]) == Escaped(c);
    }
    assert path[..|path|] == path;
  }

  function Prepend(c: char, tail: Option<string>): Option<string> {
    if tail.Some? then Some([c] + tail.value) else None
  }

  /** The path the escaped text from `i` on spells, read back from its escapes. */
  function ExactPathFrom(glob: string, i: nat): Option<string>
    requires i <= |glob|
    decreases |glob| - i
  {
    if i == |glob| then Some("")
    else if glob[i] == '[' then
      if i + 2 < |glob| && glob[i + 2] == ']' then Prepend(glob[i + 1], ExactPathFrom(glob, i + 3)) else None
    else if glob[i] == '\\' then
      if i + 1 < |glob| then Prepend(glob[i + 1], ExactPathFrom(glob, i + 2)) else None
    else if IsSpecial(glob[i]) then None
    else Prepend(glob[i], ExactPathFrom(glob, i + 1))
  }

  function Follows(head: string, tail: Option<string>): Option<string> {
    if tail.Some? then Some(head + tail.value) else None
  }

  lemma {:induction false} FollowsPrepend(head: string, c: char, tail: Option<string>)
    ensures Follows(head, Prepend(c, tail)) == Follows(head + [c], tail)
  {
    if tail.Some? {
      assert head + ([c] + tail.value) == head + [c] + tail.value;
    }
  }

  method ReadExactPath(glob: string) returns (r: Option<string>)
    ensures r == ExactPathFrom(glob, 0)
  {
    var path, i := "", 0;
    if ExactPathFrom(glob, 0).Some? {
      assert "" + ExactPathFrom(glob, 0).value == ExactPathFrom(glob, 0).value;
    }
    while i < |glob|
      invariant 0 <= i <= |glob|
      invariant ExactPathFrom(glob, 0) == Follows(path, ExactPathFrom(glob, i))
    {
      if glob[i] == '[' {
        if !(i + 2 < |glob| && glob[i + 2] == ']') {
          return None;
        }
        FollowsPrepend(path, glob[i + 1], ExactPathFrom(glob, i + 3));
        path, i := path + [glob[i + 1]], i + 3;
      } else if glob[i] == '\\' {
        if !(i + 1 < |glob|) {
          return None;
        }
        FollowsPrepend(path, glob[i + 1], ExactPathFrom(glob, i + 2));
        path, i := path + [glob[i + 1]], i + 2;
      } else if IsSpecial(glob[i]) {
        return None;
      } else {
        FollowsPrepend(path, glob[i], ExactPathFrom(glob, i + 1));
        path, i := path + [glob[i]], i + 1;
      }
    }
    assert path + "" == path;
    return Some(path);
  }

  /** How one character of a path may stand in a glob that names the path alone: as itself, behind a backslash, or alone in brackets. */
  predicate StandsFor(piece: string, c: char) {
    || (piece == [c] && !IsSpecial(c) && c != '\\')
    || piece == ['\\', c]
    || piece == ['[', c, ']']
  }

  function PiecesText(pieces: seq<string>): string {
    if pieces == [] then "" else pieces[0] + PiecesText(pieces[1..])
  }

  ghost predicate Writes(pieces: seq<string>, glob: string, path: string) {
    |pieces| == |path| && PiecesText(pieces) == glob && forall i :: 0 <= i < |pieces| ==> StandsFor(pieces[i], path[i])
  }

  lemma {:induction false} PieceReads(glob: string, i: nat, piece: string, c: char)
    requires i + |piece| <= |glob| && glob[i..i + |piece|] == piece && StandsFor(piece, c)
    ensures ExactPathFrom(glob, i) == Prepend(c, ExactPathFrom(glob, i + |piece|))
  {
    assert glob[i] == piece[0];
    if |piece| > 1 {
      assert glob[i + 1] == piece[1];
    }
    if |piece| > 2 {
      assert glob[i + 2] == piece[2];
    }
  }

  lemma {:induction false} WrittenIsRead(glob: string, i: nat, pieces: seq<string>, path: string)
    requires i <= |glob| && Writes(pieces, glob[i..], path)
    ensures ExactPathFrom(glob, i) == Some(path)
    decreases |pieces|
  {
    if pieces != [] {
      var piece, rest := pieces[0], glob[i..];
      assert StandsFor(piece, path[0]);
      assert rest[..|piece|] == piece && rest[|piece|..] == PiecesText(pieces[1..]);
      assert glob[i..i + |piece|] == piece && glob[i + |piece|..] == rest[|piece|..];
      PieceReads(glob, i, piece, path[0]);
      assert forall k :: 0 <= k < |pieces[1..]| ==> pieces[1..][k] == pieces[k + 1] && path[1..][k] == path[k + 1];
      WrittenIsRead(glob, i + |piece|, pieces[1..], path[1..]);
      HeadSplit(path);
    }
  }

  lemma {:induction false} FirstPiece(glob: string, i: nat, path: string) returns (piece: string)
    requires i < |glob| && ExactPathFrom(glob, i) == Some(path)
    ensures path != "" && StandsFor(piece, path[0]) && i + |piece| <= |glob| && glob[i..i + |piece|] == piece
    ensures ExactPathFrom(glob, i + |piece|) == Some(path[1..])
  {
    var n := if glob[i] == '[' then 3 else if glob[i] == '\\' then 2 else 1;
    piece := glob[i..i + n];
    var tail := ExactPathFrom(glob, i + n);
    var c := if n == 1 then glob[i] else glob[i + 1];
    assert path == [c] + tail.value;
  }

  lemma {:induction false} ReadIsWritten(glob: string, i: nat, path: string) returns (pieces: seq<string>)
    requires i <= |glob| && ExactPathFrom(glob, i) == Some(path)
    ensures Writes(pieces, glob[i..], path)
    decreases |glob| - i
  {
    if i == |glob| {
      pieces := [];
    } else {
      var piece := FirstPiece(glob, i, path);
      var rest := ReadIsWritten(glob, i + |piece|, path[1..]);
      pieces := [piece] + rest;
      assert pieces[1..] == rest;
      assert glob[i..] == piece + glob[i + |piece|..];
      forall k | 0 <= k < |pieces| ensures StandsFor(pieces[k], path[k]) {
        if k > 0 {
          assert pieces[k] == rest[k - 1] && path[k] == path[1..][k - 1];
        }
      }
    }
  }

  /** A glob reads as one path exactly when it is that path's characters, each as it stands, escaped or alone in brackets. */
  lemma {:induction false} ExactPathIsExact(glob: string, path: string)
    ensures ExactPathFrom(glob, 0) == Some(path) <==> exists pieces :: Writes(pieces, glob, path)
  {
    assert glob[0..] == glob;
    if ExactPathFrom(glob, 0) == Some(path) {
      var pieces := ReadIsWritten(glob, 0, path);
    }
    if pieces :| Writes(pieces, glob, path) {
      WrittenIsRead(glob, 0, pieces, path);
    }
  }

  /** An escaped path reads back as the path. */
  lemma {:induction false} ExactReadsBack(path: string)
    ensures ExactPathFrom(LiteralText(path), 0) == Some(path)
  {
    ReadsBackFrom(LiteralText(path), 0, path);
  }

  lemma {:induction false} ReadsBackFrom(text: string, i: nat, path: string)
    requires i + |LiteralText(path)| == |text| && text[i..] == LiteralText(path)
    ensures ExactPathFrom(text, i) == Some(path)
    decreases |path|
  {
    if path != "" {
      var e, rest := Escaped(path[0]), LiteralText(path[1..]);
      assert text[i..] == text[i..i + |e| + |rest|];
      SliceSplits(text, i, e, rest);
      assert text[i + |e|..] == text[i + |e|..i + |e| + |rest|];
      var piece := text[i..i + |e|];
      assert text[i] == piece[0] && (|e| > 1 ==> text[i + 1] == piece[1]) && (|e| > 2 ==> text[i + 2] == piece[2]);
      ReadsBackFrom(text, i + |e|, path[1..]);
      assert [path[0]] + path[1..] == path;
    }
  }

  // ----------------------------------------------------- what an escaped text selects

  function ExactToken(c: char): Token {
    if IsSpecial(c) then Class(false, [Range(c, c)]) else Literal(c)
  }

  function ExactTokens(path: string): (ts: seq<Token>)
    ensures |ts| == |path| && forall i :: 0 <= i < |path| ==> ts[i] == ExactToken(path[i])
  {
    if path == "" then [] else ExactTokens(path[..|path| - 1]) + [ExactToken(path[|path| - 1])]
  }

  lemma {:induction false} ExactTokensHead(path: string)
    requires path != ""
    ensures ExactTokens(path) == [ExactToken(path[0])] + ExactTokens(path[1..])
  {
  }

  lemma {:induction false} ExactStep(text: string, i: nat, c: char, ts: seq<Token>)
    requires i + |Escaped(c)| <= |text| && text[i..i + |Escaped(c)|] == Escaped(c)
    ensures Step(text, i, State([ts], [])) == Some((i + |Escaped(c)|, State([ts + [ExactToken(c)]], [])))
  {
    var st := State([ts], []);
    var e := text[i..i + |Escaped(c)|];
    assert text[i] == e[0] && (|e| > 1 ==> text[i + 1] == e[1]) && (|e| > 2 ==> text[i + 2] == e[2]);
    OneList(Push(st, ExactToken(c)));
    if IsSpecial(c) {
      assert text[i + 1] == c && text[i + 2] == ']';
      assert ClassBody(text, i + 1, true, false, []) == ClassBody(text, i + 2, false, false, [] + [Range(c, c)]);
      assert [] + [Range(c, c)] == [Range(c, c)];
      assert ClassBody(text, i + 2, false, false, [Range(c, c)]) == Some(([Range(c, c)], i + 3));
    }
  }

  /** Reading on with one list of tokens and no open brace. */
  function RunFlat(text: string, i: nat, ts: seq<Token>): Option<State>
    requires i <= |text|
  {
    Run(text, i, State([ts], []))
  }

  lemma {:induction false} RunFlatStep(text: string, i: nat, c: char, ts: seq<Token>)
    requires i + |Escaped(c)| <= |text| && text[i..i + |Escaped(c)|] == Escaped(c)
    ensures RunFlat(text, i, ts) == RunFlat(text, i + |Escaped(c)|, ts + [ExactToken(c)])
  {
    ExactStep(text, i, c, ts);
  }

  lemma {:induction false} CutLiteral(text: string, i: nat, j: nat, path: string)
    requires path != "" && i <= j <= |text| && text[i..j] == LiteralText(path)
    ensures var m := i + |Escaped(path[0])|;
            m <= j && text[i..m] == Escaped(path[0]) && text[m..j] == LiteralText(path[1..])
  {
    var e, rest := Escaped(path[0]), LiteralText(path[1..]);
    assert |text[i..j]| == |e| + |rest|;
    SliceSplits(text, i, e, rest);
  }

  lemma {:induction false} CutTokens(path: string, ts: seq<Token>)
    requires path != ""
    ensures ts + ExactTokens(path) == ts + [ExactToken(path[0])] + ExactTokens(path[1..])
  {
    ExactTokensHead(path);
    Assoc(ts, [ExactToken(path[0])], ExactTokens(path[1..]));
  }

  lemma {:induction false} RunExact(text: string, i: nat, j: nat, path: string, ts: seq<Token>, out: seq<Token>)
    requires i <= j <= |text| && text[i..j] == LiteralText(path) && out == ts + ExactTokens(path)
    ensures RunFlat(text, i, ts) == RunFlat(text, j, out)
    decreases |path|
  {
    if path == "" {
      assert |text[i..j]| == j - i == 0;
      EmptyConcat(ts);
    } else {
      var m, ts' := RunExactOne(text, i, j, path, ts);
      RunExact(text, m, j, path[1..], ts', out);
    }
  }

  lemma {:induction false} RunExactOne(text: string, i: nat, j: nat, path: string, ts: seq<Token>) returns (m: nat, ts': seq<Token>)
    requires path != "" && i <= j <= |text| && text[i..j] == LiteralText(path)
    ensures m <= j && text[m..j] == LiteralText(path[1..]) && ts + ExactTokens(path) == ts' + ExactTokens(path[1..])
    ensures RunFlat(text, i, ts) == RunFlat(text, m, ts')
  {
    CutLiteral(text, i, j, path);
    CutTokens(path, ts);
    RunFlatStep(text, i, path[0], ts);
    m, ts' := i + |Escaped(path[0])|, ts + [ExactToken(path[0])];
  }

  lemma {:induction false} ExactTokensSpell(path: string, s: string)
    ensures Spells(ExactTokens(path), s) <==> s == path
  {
    if path != "" {
      var ts := ExactTokens(path);
      assert ts[1..] == ExactTokens(path[1..]);
      if s == path {
        ExactTokensSpell(path[1..], s[1..]);
        ExactTokenSpells(path[0], [path[0]]);
        SpellsCons(ts, [path[0]], s[1..]);
        HeadSplit(s);
      }
      if Spells(ts, s) {
        var k := SpellsHead(ts, s);
        ExactTokenSpells(path[0], s[..k]);
        ExactTokensSpell(path[1..], s[k..]);
        Rejoin(s, k);
        HeadSplit(path);
      }
    }
  }

  lemma {:induction false} ExactTokenSpells(c: char, s: string)
    ensures TokenSpells(ExactToken(c), s) <==> s == [c]
  {
    if ExactToken(c).Class? {
      var ranges := ExactToken(c).ranges;
      assert ranges[0] == Range(c, c);
      if s == [c] {
        assert ranges[0].lo <= s[0] <= ranges[0].hi;
      }
    }
  }

  /** An escaped path compiles, and selects that path and no other. */
  lemma {:induction false} ExactSelectsOnly(path: string, q: string)
    ensures Compile(LiteralText(path)).Some?
    ensures Selects(LiteralText(path), q) <==> q == path
  {
    var text := LiteralText(path);
    assert text[0..|text|] == text;
    RunExact(text, 0, |text|, path, [], ExactTokens(path));
    ExactTokensSpell(path, q);
    assert ExactTokens(path) != [RecursivePrefix] by {
      if |ExactTokens(path)| == 1 { assert ExactTokens(path)[0] == ExactToken(path[0]); }
    }
  }

  // ------------------------------------------------------------------ whole trees

  lemma {:induction false} StartsUnder(q: string, k: nat)
    requires k < |q| && q[k] == '/'
    ensures q[..k] + "/" <= q
  {
  }

  lemma {:induction false} UnderCuts(dir: string, q: string)
    requires dir + "/" <= q
    ensures q[..|dir|] == dir && q[|dir|] == '/' && dir + q[|dir|..] == q
  {
    assert q[..|dir|] == (dir + "/")[..|dir|] && q[|dir|] == (dir + "/")[|dir|];
  }

  /** Tokens that spell what starts with a separator, after tokens that spell only `dir`. */
  lemma {:induction false} SpellsUnder(ts: seq<Token>, tail: seq<Token>, dir: string, q: string)
    requires forall s :: Spells(ts, s) <==> s == dir
    requires forall s :: Spells(tail, s) <==> s != "" && s[0] == '/'
    ensures Spells(ts + tail, q) <==> dir + "/" <= q
  {
    if Spells(ts + tail, q) {
      var k := SplitSpelling(ts, tail, q);
      StartsUnder(q, k);
    }
    if dir + "/" <= q {
      UnderCuts(dir, q);
      JoinSpelling(ts, tail, dir, q[|dir|..]);
    }
  }

  /** An inner recursion and a star spell what starts with a separator. */
  lemma {:induction false} InnerRecursionSpells(s: string)
    ensures Spells([RecursiveZeroOrMore] + [ZeroOrMore], s) <==> s != "" && s[0] == '/'
  {
    if Spells([RecursiveZeroOrMore] + [ZeroOrMore], s) {
      InnerRecursionStarts([RecursiveZeroOrMore], [ZeroOrMore], s);
    } else if s != "" && s[0] == '/' {
      InnerRecursionReaches(s);
    }
  }

  lemma {:induction false} InnerRecursionStarts(head: seq<Token>, tail: seq<Token>, s: string)
    requires head == [RecursiveZeroOrMore] && Spells(head + tail, s)
    ensures s != "" && s[0] == '/'
  {
    var m := SplitSpelling(head, tail, s);
    SingleSpelling(RecursiveZeroOrMore, s[..m]);
    assert s[0] == s[..m][0];
  }

  lemma {:induction false} InnerRecursionReaches(s: string)
    requires s != "" && s[0] == '/'
    ensures Spells([RecursiveZeroOrMore] + [ZeroOrMore], s)
  {
    var m := LastSeparator(s);
    SingleSpelling(RecursiveZeroOrMore, s[..m]);
    SingleSpelling(ZeroOrMore, s[m..]);
    JoinSpelling([RecursiveZeroOrMore], [ZeroOrMore], s[..m], s[m..]);
    Rejoin(s, m);
  }

  lemma {:induction false} LastSeparator(s: string) returns (m: nat)
    requires s != "" && s[0] == '/'
    ensures 0 < m <= |s| && s[m - 1] == '/' && '/' !in s[m..]
  {
    m := |s|;
    while s[m - 1] != '/'
      invariant 0 < m <= |s| && '/' !in s[m..]
      decreases m
    {
      m := m - 1;
      assert s[m..] == [s[m]] + s[m + 1..];
    }
  }

  /** The directory of a glob that is a plain directory and a recursion below it. */
  function WholeTree(glob: string): Option<string> {
    var n := |glob|;
    if n >= 5 && glob[n - 5..] == "/**/*" then TreeName(glob[..n - 5])
    else if n >= 3 && glob[n - 3..] == "/**" then TreeName(glob[..n - 3])
    else None
  }

  function TreeName(dir: string): Option<string> {
    if dir != "" && IsLiteral(dir) then Some(dir) else None
  }

  lemma {:induction false} StarBeforeLast(glob: string)
    requires |glob| > 1 && glob[|glob| - 2] == '*'
    ensures |glob| >= 5 ==> glob[|glob| - 5..] != "/**/*"
  {
    assert |glob| >= 5 ==> glob[|glob| - 5..][3] == glob[|glob| - 2];
  }

  /** A text names a whole tree exactly when it is a plain directory and a recursion, or that and one name more. */
  lemma {:induction false} WholeTreeExactly(glob: string, dir: string)
    ensures WholeTree(glob) == Some(dir) <==> (glob == dir + "/**" || glob == dir + "/**/*") && dir != "" && IsLiteral(dir)
  {
    var n := |glob|;
    if WholeTree(glob) == Some(dir) {
      Rejoin(glob, |dir|);
    }
    if glob == dir + "/**" {
      assert glob[n - 3..] == "/**" && glob[..n - 3] == dir && glob[n - 2] == '*';
      StarBeforeLast(glob);
    } else if glob == dir + "/**/*" {
      assert glob[n - 5..] == "/**/*" && glob[..n - 5] == dir;
    }
  }

  /** The tree a glob names is exactly what it selects. */
  lemma {:induction false} WholeTreeIsExact(glob: ScopeGlob, path: string)
    requires WholeTree(glob).Some?
    ensures Selects(glob, path) <==> WholeTree(glob).value + "/" <= path
  {
    var n := |glob|;
    var dir := WholeTree(glob).value;
    assert forall k :: 0 <= k < |dir| ==> glob[k] == dir[k];
    if n >= 5 && glob[n - 5..] == "/**/*" {
      var tail := glob[n - 5..];
      assert tail[0] == glob[n - 5] && tail[1] == glob[n - 4] && tail[2] == glob[n - 3]
          && tail[3] == glob[n - 2] && tail[4] == glob[n - 1];
      InnerTreeIsExact(glob, dir, path);
    } else {
      var tail := glob[n - 3..];
      assert tail[0] == glob[n - 3] && tail[1] == glob[n - 2] && tail[2] == glob[n - 1];
      TrailingTreeIsExact(glob, dir, path);
    }
  }

  lemma {:induction false} InnerTreeIsExact(glob: ScopeGlob, dir: string, path: string)
    requires |glob| == |dir| + 5 && glob[..|dir|] == dir && dir != "" && IsLiteral(dir)
    requires glob[|dir|] == '/' && glob[|dir| + 1] == '*' && glob[|dir| + 2] == '*' && glob[|dir| + 3] == '/' && glob[|dir| + 4] == '*'
    ensures Selects(glob, path) <==> dir + "/" <= path
  {
    forall s ensures Spells(Literals(dir), s) <==> s == dir { LiteralsSpell(dir, s); }
    TreeRun(glob, dir);
    RunInnerRecursion(glob, |dir| + 1, dir);
    assert [RecursiveZeroOrMore] + [ZeroOrMore] == [RecursiveZeroOrMore, ZeroOrMore];
    forall s ensures Spells([RecursiveZeroOrMore, ZeroOrMore], s) <==> s != "" && s[0] == '/' {
      InnerRecursionSpells(s);
    }
    SpellsUnder(Literals(dir), [RecursiveZeroOrMore, ZeroOrMore], dir, path);
  }

  lemma {:induction false} TrailingTreeIsExact(glob: ScopeGlob, dir: string, path: string)
    requires |glob| == |dir| + 3 && glob[..|dir|] == dir && dir != "" && IsLiteral(dir)
    requires glob[|dir|] == '/' && glob[|dir| + 1] == '*' && glob[|dir| + 2] == '*'
    ensures Selects(glob, path) <==> dir + "/" <= path
  {
    forall s ensures Spells(Literals(dir), s) <==> s == dir { LiteralsSpell(dir, s); }
    TreeRun(glob, dir);
    RunTrailingRecursion(glob, |dir| + 1, Literals(dir));
    forall s ensures Spells([RecursiveSuffix], s) <==> s != "" && s[0] == '/' {
      SingleSpelling(RecursiveSuffix, s);
    }
    SpellsUnder(Literals(dir), [RecursiveSuffix], dir, path);
  }

  lemma {:induction false} TreeRun(glob: ScopeGlob, dir: string)
    requires |dir| < |glob| && glob[..|dir|] == dir && IsLiteral(dir) && glob[|dir|] == '/'
    ensures Run(glob, 0, START) == Run(glob, |dir| + 1, State([Literals(dir) + [Literal('/')]], []))
  {
    assert forall k :: 0 <= k < |dir| ==> glob[k] == dir[k];
    RunPlain(glob, 0, |dir| + 1, []);
    assert glob[0..|dir| + 1] == dir + "/";
    assert [] + Literals(dir + "/") == Literals(dir) + [Literal('/')];
  }

  lemma {:induction false} RunTrailingRecursion(text: string, i: nat, ts: seq<Token>)
    requires 0 < i && |text| == i + 2 && text[i - 1] == '/' && text[i] == '*' && text[i + 1] == '*'
    ensures Run(text, i, State([ts + [Literal('/')]], [])) == Some(State([ts + [RecursiveSuffix]], []))
  {
    var st := State([ts + [Literal('/')]], []);
    assert Top(st)[..|ts|] == ts && Top(st)[|ts|] == Literal('/');
    OneList(StarStep(text, i, st).1);
    var end := State([ts + [RecursiveSuffix]], []);
    assert StarStep(text, i, st) == (i + 2, end);
    assert Run(text, i + 2, end) == Some(end);
  }

  lemma {:induction false} RunInnerRecursion(text: string, i: nat, dir: string)
    requires 0 < i && |text| == i + 4 && text[i - 1] == '/'
    requires text[i] == '*' && text[i + 1] == '*' && text[i + 2] == '/' && text[i + 3] == '*'
    ensures Run(text, i, State([Literals(dir) + [Literal('/')]], []))
         == Some(State([Literals(dir) + [RecursiveZeroOrMore, ZeroOrMore]], []))
  {
    var st := State([Literals(dir) + [Literal('/')]], []);
    var ts := Top(st);
    assert ts[..|ts| - 1] == Literals(dir) && ts[|ts| - 1] == Literal('/');
    OneList(StarStep(text, i, st).1);
    var inner := State([Literals(dir) + [RecursiveZeroOrMore]], []);
    assert StarStep(text, i, st) == (i + 3, inner);
    OneList(StarStep(text, i + 3, inner).1);
    assert Literals(dir) + [RecursiveZeroOrMore] + [ZeroOrMore] == Literals(dir) + [RecursiveZeroOrMore, ZeroOrMore];
    var end := State([Literals(dir) + [RecursiveZeroOrMore, ZeroOrMore]], []);
    assert StarStep(text, i + 3, inner) == (i + 4, end);
    assert Run(text, i + 4, end) == Some(end);
    assert Run(text, i + 3, inner) == Some(end);
  }

  lemma {:induction false} UnderCompiles(dir: string)
    ensures Compile(LiteralText(dir) + "/**") == Some(ExactTokens(dir) + [RecursiveSuffix])
  {
    var text := LiteralText(dir) + "/**";
    var at := |LiteralText(dir)|;
    assert text[0..at] == LiteralText(dir);
    var ts := ExactTokens(dir);
    RunExact(text, 0, at, dir, [], ts);
    OneList(Push(State([ts], []), Literal('/')));
    assert text[at] == '/' && text[at + 1] == '*' && text[at + 2] == '*' && |text| == at + 3;
    assert Step(text, at, State([ts], [])) == Some((at + 1, State([ts + [Literal('/')]], [])));
    RunTrailingRecursion(text, at + 1, ts);
  }

  /** The glob of every path under a directory, whatever characters its name holds. */
  lemma {:induction false} UnderSelectsTree(dir: string, q: string)
    ensures Compile(LiteralText(dir) + "/**").Some?
    ensures Selects(LiteralText(dir) + "/**", q) <==> dir + "/" <= q
  {
    UnderCompiles(dir);
    var ts := ExactTokens(dir);
    assert ts + [RecursiveSuffix] != [RecursivePrefix] by {
      assert (ts + [RecursiveSuffix])[|ts|] == RecursiveSuffix;
    }
    forall s ensures Spells(ts, s) <==> s == dir { ExactTokensSpell(dir, s); }
    forall s ensures Spells([RecursiveSuffix], s) <==> s != "" && s[0] == '/' { SingleSpelling(RecursiveSuffix, s); }
    SpellsUnder(ts, [RecursiveSuffix], dir, q);
  }
}
