/**
 The overlap test over glob texts, and what it promises about the files the globs
 select. The test reads text only: a literal prefix, a literal suffix, or the other
 glob's matcher when one side has no wildcard.
 */
module GlobOverlap {
  import opened Wrappers
  import opened Sequences
  import opened GlobSyntax

  /** A pattern that compiles. */
  type ScopeGlob = text: string | Compile(text).Some? witness ""

  predicate EndsWith(s: string, tail: string) {
    |tail| <= |s| && s[|s| - |tail|..] == tail
  }

  /** A text that names one path: no sign of it is syntax. */
  predicate IsLiteral(glob: string) {
    forall i :: 0 <= i < |glob| ==> !IsSyntax(glob[i])
  }

  function FirstWildcard(s: string, from: nat := 0): (r: nat)
    requires from <= |s|
    ensures from <= r <= |s|
    ensures forall k :: from <= k < r ==> !IsWildcard(s[k])
    ensures r < |s| ==> IsWildcard(s[r])
    decreases |s| - from
  {
    if from == |s| || IsWildcard(s[from]) then from else FirstWildcard(s, from + 1)
  }

  /** The last star among the first `n` characters; -1 when there is none. */
  function LastStar(s: string, n: nat): (r: int)
    requires n <= |s|
    ensures -1 <= r < n
    ensures r >= 0 ==> s[r] == '*'
    ensures forall k :: r < k < n ==> s[k] != '*'
  {
    if n == 0 then -1 else if s[n - 1] == '*' then n - 1 else LastStar(s, n - 1)
  }

  /** What is plain up to a wildcard; an escape anywhere leaves nothing. */
  function PrefixText(glob: string): string {
    if '\\' in glob then "" else glob[..FirstWildcard(glob)]
  }

  predicate HasBracketAfter(s: string, last: int)
    requires last >= -1
  {
    exists i :: last < i < |s| && IsBracket(s[i])
  }

  /** What is plain from the last star on; a bracket there, or an escape anywhere, leaves nothing. */
  function SuffixText(glob: string): string {
    var last := LastStar(glob, |glob|);
    if '\\' in glob || HasBracketAfter(glob, last) then "" else glob[last + 1..]
  }

  predicate MightOverlap(a: string, b: string) {
    if IsLiteral(a) then Selects(b, a)
    else if IsLiteral(b) then Selects(a, b)
    else
      var pa, pb, sa, sb := PrefixText(a), PrefixText(b), SuffixText(a), SuffixText(b);
      (pa <= pb || pb <= pa) && (EndsWith(sa, sb) || EndsWith(sb, sa))
  }

  predicate ReachesAny(glob: string, denied: seq<string>) {
    exists i :: 0 <= i < |denied| && MightOverlap(glob, denied[i])
  }

  // -------------------------------------------------- what the text promises

  predicate AllPlain(s: string) {
    forall k :: 0 <= k < |s| ==> IsPlain(s[k])
  }

  /** A sign that stands for itself wherever no class is open. */
  predicate IsText(c: char) {
    IsPlain(c) || c == ']'
  }

  predicate AllText(s: string) {
    forall k :: 0 <= k < |s| ==> IsText(s[k])
  }

  lemma {:induction false} PlainStep(text: string, i: nat, st: State)
    requires i < |text| && WellFormed(st) && st.opens == []
    requires Step(text, i, st).Some?
    requires !IsSyntax(text[i])
    ensures Step(text, i, st) == Some((i + 1, Push(st, Literal(text[i]))))
  {
  }

  lemma {:induction false} LiteralsSlice(text: string, i: nat, j: nat)
    requires i < j <= |text|
    ensures Literals(text[i..j]) == [Literal(text[i])] + Literals(text[i + 1..j])
  {
    assert text[i..j][1..] == text[i + 1..j];
  }

  /** Reading a stretch without syntax appends it as literals; a stray closing brace compiles to nothing. */
  lemma {:induction false} RunPlain(text: string, i: nat, j: nat, ts: seq<Token>)
    requires i <= j <= |text|
    requires Run(text, i, State([ts], [])).Some?
    requires forall k :: i <= k < j ==> !IsSyntax(text[k])
    ensures Run(text, i, State([ts], [])) == Run(text, j, State([ts + Literals(text[i..j])], []))
    decreases j - i
  {
    if i == j {
      assert ts + Literals(text[i..j]) == ts;
    } else {
      PlainStep(text, i, State([ts], []));
      assert Push(State([ts], []), Literal(text[i])) == State([ts + [Literal(text[i])]], []);
      RunPlain(text, i + 1, j, ts + [Literal(text[i])]);
      LiteralsSlice(text, i, j);
      Assoc(ts, [Literal(text[i])], Literals(text[i + 1..j]));
    }
  }

  /** The same of a stretch no brace is in, whatever follows it. */
  lemma {:induction false} RunLiterals(text: string, i: nat, j: nat, ts: seq<Token>)
    requires i <= j <= |text| && forall k :: i <= k < j ==> IsText(text[k])
    ensures Run(text, i, State([ts], [])) == Run(text, j, State([ts + Literals(text[i..j])], []))
    decreases j - i
  {
    if i == j {
      assert ts + Literals(text[i..j]) == ts;
    } else {
      assert Push(State([ts], []), Literal(text[i])) == State([ts + [Literal(text[i])]], []);
      assert Step(text, i, State([ts], [])) == Some((i + 1, State([ts + [Literal(text[i])]], [])));
      RunLiterals(text, i + 1, j, ts + [Literal(text[i])]);
      LiteralsSlice(text, i, j);
      Assoc(ts, [Literal(text[i])], Literals(text[i + 1..j]));
    }
  }

  /** A stretch with no brace to close leaves every open brace open. */
  lemma {:induction false} TailKeepsOpens(text: string, i: nat, st: State)
    requires i <= |text| && WellFormed(st)
    requires forall k :: i <= k < |text| ==> IsPlain(text[k])
    ensures Run(text, i, st).Some? && Run(text, i, st).value.opens == st.opens
    decreases |text| - i
  {
    if i < |text| {
      TailKeepsOpens(text, i + 1, Step(text, i, st).value.1);
    }
  }

  /** Tokens whose every spelling starts with `pre`. */
  ghost predicate Promises(ts: seq<Token>, pre: string) {
    && |pre| <= |ts|
    && (forall k :: 0 <= k < |pre| - 1 ==> ts[k] == Literal(pre[k]))
    && (pre != "" ==>
          var c, t := pre[|pre| - 1], ts[|pre| - 1];
          t == Literal(c) || (c == '/' && (t.RecursiveSuffix? || t.RecursiveZeroOrMore?)))
  }

  /** What holds between two steps of reading a text without an escape. */
  ghost predicate Reading(text: string, i: nat, st: State, pre: string)
    requires i <= |text|
  {
    && WellFormed(st)
    && (i > 0 && (text[i - 1] == ',' || text[i - 1] == '{') && |st.branches| >= 2 ==> Top(st) == [])
    && (i > 0 && text[i - 1] == '/' && Top(st) != [] && Top(st)[|Top(st)| - 1].Literal? ==>
          Top(st)[|Top(st)| - 1] == Literal('/'))
    && Promises(st.branches[0], pre)
    && (forall k :: 0 < k < |st.branches[0]| ==> st.branches[0][k] != RecursivePrefix)
    && (RecursiveSuffix in st.branches[0] ==> i == |text|)
  }

  lemma {:induction false} PushKeepsReading(text: string, i: nat, st: State, pre: string, j: nat, t: Token)
    requires i < j <= |text| && Reading(text, i, st, pre)
    requires (text[j - 1] == ',' || text[j - 1] == '{') ==> |st.branches| == 1
    requires text[j - 1] == '/' && t.Literal? ==> t == Literal('/')
    requires t == RecursivePrefix ==> Top(st) == []
    requires t != RecursiveSuffix
    ensures Reading(text, j, Push(st, t), pre)
  {
    var st' := Push(st, t);
    if |st.branches| == 1 {
      assert st'.branches[0] == st.branches[0] + [t];
    } else {
      assert st'.branches[0] == st.branches[0];
    }
  }

  lemma {:induction false} StarKeepsReading(text: string, i: nat, st: State, pre: string)
    requires i < |text| && text[i] == '*' && Reading(text, i, st, pre)
    ensures Reading(text, StarStep(text, i, st).0, StarStep(text, i, st).1, pre)
  {
    var (j, st') := StarStep(text, i, st);
    var ts := Top(st);
    if st' == Push(st, ZeroOrMore) {
      PushKeepsReading(text, i, st, pre, j, ZeroOrMore);
    } else if st' == Push(Push(st, ZeroOrMore), ZeroOrMore) {
      PushKeepsReading(text, i, st, pre, i + 1, ZeroOrMore);
      PushKeepsReading(text, i + 1, Push(st, ZeroOrMore), pre, j, ZeroOrMore);
    } else if ts == [] {
      PushKeepsReading(text, i, st, pre, j, RecursivePrefix);
    } else {
      assert text[i - 1] == '/';
      var last := ts[|ts| - 1];
      assert st' == WithTop(st, ts[..|ts| - 1] + [Recursing(last, true)])
          || st' == WithTop(st, ts[..|ts| - 1] + [Recursing(last, false)]);
      if |st.branches| > 1 {
        assert st'.branches[0] == st.branches[0];
      } else {
        assert st.branches[0] == ts && st'.branches[0][..|ts| - 1] == ts[..|ts| - 1];
        assert last != RecursiveSuffix;
      }
    }
  }

  lemma {:induction false} StepKeepsReading(text: string, i: nat, st: State, pre: string)
    requires i < |text| && '\\' !in text && Reading(text, i, st, pre)
    requires Step(text, i, st).Some?
    ensures Reading(text, Step(text, i, st).value.0, Step(text, i, st).value.1, pre)
  {
    var (j, st') := Step(text, i, st).value;
    match text[i] {
      case '*' => StarKeepsReading(text, i, st, pre);
      case '[' => PushKeepsReading(text, i, st, pre, j, ParseClass(text, i + 1).value.0);
      case '{' => assert st'.branches[0] == st.branches[0];
      case '}' =>
        var from := st.opens[|st.opens| - 1];
        var bottom := st.branches[..from][0];
        assert bottom == st.branches[0];
        assert st'.branches[0] == bottom || st'.branches[0] == bottom + [Alternates(Branches(st.branches[from..]))];
      case ',' =>
        if st.opens == [] {
          PushKeepsReading(text, i, st, pre, j, Literal(','));
        } else {
          assert st'.branches[0] == st.branches[0];
        }
      case '?' => PushKeepsReading(text, i, st, pre, j, AnyChar);
      case c =>
        assert c != '\\';
        PushKeepsReading(text, i, st, pre, j, Literal(c));
    }
  }

  lemma {:induction false} RunKeepsPromise(text: string, i: nat, st: State, pre: string)
    requires i <= |text| && '\\' !in text && Reading(text, i, st, pre)
    requires Run(text, i, st).Some?
    ensures Promises(Run(text, i, st).value.branches[0], pre)
    decreases |text| - i
  {
    if i < |text| {
      StepKeepsReading(text, i, st, pre);
      RunKeepsPromise(text, Step(text, i, st).value.0, Step(text, i, st).value.1, pre);
    }
  }

  lemma {:induction false} PromiseHolds(ts: seq<Token>, pre: string, path: string)
    requires Promises(ts, pre) && Spells(ts, path)
    ensures pre <= path
  {
    if pre != "" {
      var k := SpellsHead(ts, path);
      assert path[..k][0] == path[0] == pre[0];
      if |pre| > 1 {
        assert k == 1;
        PromiseHolds(ts[1..], pre[1..], path[1..]);
      }
    }
  }

  lemma {:induction false} PrefixIsPromised(glob: string, n: nat)
    requires n <= |glob| && '\\' !in glob && (forall k :: 0 <= k < n ==> !IsSyntax(glob[k]))
    requires Compile(glob).Some?
    ensures Promises(Compile(glob).value, glob[..n])
  {
    var pre := glob[..n];
    RunPlain(glob, 0, n, []);
    EmptyConcat(Literals(pre));
    assert glob[0..n] == pre;
    RunKeepsPromise(glob, n, State([Literals(pre)], []), pre);
  }

  /** Every path a glob selects starts with the text before its first wildcard. */
  lemma {:induction false} PrefixHolds(glob: string, path: string)
    requires Selects(glob, path)
    ensures PrefixText(glob) <= path
  {
    if PrefixText(glob) != "" {
      PrefixIsPromised(glob, FirstWildcard(glob));
      PromiseHolds(Compile(glob).value, PrefixText(glob), path);
    }
  }

  predicate EndsInRecursion(ts: seq<Token>) {
    ts == [RecursivePrefix] || (ts != [] && ts[|ts| - 1] == RecursiveZeroOrMore)
  }

  /** A list that ends in an inner recursion, or is a leading one, spells nothing or ends with a separator. */
  lemma {:induction false} EndsInSeparator(ts: seq<Token>, s: string)
    requires EndsInRecursion(ts) && Spells(ts, s)
    ensures s == "" || s[|s| - 1] == '/'
  {
    if ts == [RecursivePrefix] {
      SingleSpelling(RecursivePrefix, s);
    } else {
      var n := |ts| - 1;
      LastSplit(ts);
      var k := SplitSpelling(ts[..n], [RecursiveZeroOrMore], s);
      SingleSpelling(RecursiveZeroOrMore, s[k..]);
    }
  }

  lemma {:induction false} StarTakesSeparator(text: string, i: nat, st: State)
    requires i < |text| && text[i] == '*' && Reading(text, i, st, "") && |st.branches| == 1
    requires StarStep(text, i, st).0 == i + 3
    ensures EndsInRecursion(StarStep(text, i, st).1.branches[0])
  {
    var ts := Top(st);
    if ts != [] && ts[|ts| - 1] == RecursivePrefix {
      assert |ts| == 1;
      assert ts[..0] + [RecursivePrefix] == [RecursivePrefix];
    } else if ts == [] {
      assert [] + [RecursivePrefix] == [RecursivePrefix];
    }
  }

  lemma {:induction false} OneList(st: State)
    requires WellFormed(st) && st.opens == []
    ensures st == State([st.branches[0]], [])
  {
    assert st.branches == [st.branches[0]];
  }

  /** The tokens before a literal tail: they end a recursion when the tail's separator was read with it. */
  ghost predicate TailOf(ts: seq<Token>, head: seq<Token>, tail: string, after: string) {
    && ts == head + Literals(tail)
    && (after == tail || (after == "/" + tail && EndsInRecursion(head)))
  }

  /** Once the last star is read, the rest of the text is literal. */
  lemma {:induction false} StarTail(text: string, i: nat, st: State, last: nat, f: State) returns (head: seq<Token>, tail: string)
    requires i <= last < |text| && text[i] == '*' && text[last] == '*' && Reading(text, i, st, "")
    requires forall k :: last < k < |text| ==> IsPlain(text[k])
    requires last < StarStep(text, i, st).0 && WellFormed(StarStep(text, i, st).1)
    requires Run(text, StarStep(text, i, st).0, StarStep(text, i, st).1) == Some(f) && f.opens == []
    ensures TailOf(f.branches[0], head, tail, text[last + 1..])
  {
    var (j, st') := StarStep(text, i, st);
    TailKeepsOpens(text, j, st');
    OneList(st');
    head, tail := st'.branches[0], text[j..];
    RunPlain(text, j, |text|, head);
    assert text[j..|text|] == tail;
    if j != last + 1 {
      assert j == i + 3 && text[last + 1] == '/';
      assert text[last + 1..] == "/" + tail;
      StarTakesSeparator(text, i, st);
    }
  }

  lemma {:induction false} RootedTail(path: string, k: nat)
    requires k <= |path|
    ensures EndsWith("/" + path, path[k..])
    ensures k == 0 || path[k - 1] == '/' ==> EndsWith("/" + path, "/" + path[k..])
  {
    assert ("/" + path)[k + 1..] == path[k..];
    if k == 0 || path[k - 1] == '/' {
      assert ("/" + path)[k..] == "/" + path[k..];
    }
  }

  lemma {:induction false} TailEnds(ts: seq<Token>, head: seq<Token>, tail: string, after: string, path: string)
    requires TailOf(ts, head, tail, after) && Spells(ts, path)
    ensures EndsWith("/" + path, after)
  {
    var k := SplitSpelling(head, Literals(tail), path);
    LiteralsSpell(tail, path[k..]);
    RootedTail(path, k);
    if after != tail {
      EndsInSeparator(head, path[..k]);
    }
  }

  /** The step that reads the last star starts at a star: a class would close after it. */
  lemma {:induction false} StarIsReadAsStar(text: string, i: nat, st: State, last: nat)
    requires i <= last < |text| && text[last] == '*' && text[i] != '\\'
    requires forall k :: last < k < |text| ==> text[k] != ']'
    requires WellFormed(st) && Step(text, i, st).Some? && last < Step(text, i, st).value.0
    ensures text[i] == '*'
  {
  }

  /** Reading up to the last star, whatever stands before it. */
  lemma {:induction false} RunEnds(text: string, i: nat, st: State, last: nat, f: State)
    returns (head: seq<Token>, tail: string)
    requires i <= last < |text| && text[last] == '*' && '\\' !in text
    requires forall k :: last < k < |text| ==> !IsSpecial(text[k])
    requires Reading(text, i, st, "")
    requires Run(text, i, st) == Some(f) && f.opens == []
    ensures TailOf(f.branches[0], head, tail, text[last + 1..])
    decreases |text| - i
  {
    var (j, st') := Step(text, i, st).value;
    if j <= last {
      StepKeepsReading(text, i, st, "");
      head, tail := RunEnds(text, j, st', last, f);
    } else {
      StarIsReadAsStar(text, i, st, last);
      head, tail := StarTail(text, i, st, last, f);
    }
  }

  /** The text is one or more `**` each followed by a separator, and nothing else. */
  predicate OnlyRecursions(glob: string) {
    |glob| >= 3 && glob[..3] == "**/" && (glob[3..] == "" || OnlyRecursions(glob[3..]))
  }

  /** The last star of a text without an escape, and no bracket after it. */
  ghost predicate PlainTailAfter(glob: string, last: int) {
    && glob != ""
    && '\\' !in glob
    && last == LastStar(glob, |glob|)
    && !HasBracketAfter(glob, last)
  }

  lemma {:induction false} PlainTailChars(glob: string, last: int)
    requires PlainTailAfter(glob, last)
    ensures forall k :: last < k < |glob| ==> !IsSpecial(glob[k])
  {
  }

  lemma {:induction false} SuffixShape(glob: string) returns (last: int)
    requires SuffixText(glob) != ""
    ensures PlainTailAfter(glob, last) && glob[|glob| - 1] != '*' && SuffixText(glob) == glob[last + 1..]
  {
    last := LastStar(glob, |glob|);
  }

  lemma {:induction false} StarSuffixIsTail(glob: string, last: nat) returns (head: seq<Token>, tail: string)
    requires PlainTailAfter(glob, last) && Compile(glob).Some?
    ensures TailOf(Compile(glob).value, head, tail, glob[last + 1..])
  {
    PlainTailChars(glob, last);
    head, tail := RunEnds(glob, 0, START, last, Run(glob, 0, START).value);
  }

  lemma {:induction false} LiteralIsTail(glob: string)
    requires Compile(glob).Some? && PlainTailAfter(glob, -1)
    ensures TailOf(Compile(glob).value, [], glob, glob[0..])
  {
    PlainTailChars(glob, -1);
    LiteralTokens(glob);
    EmptyConcat(Literals(glob));
    EmptyConcat(glob);
  }

  /** The tokens of a glob that shows a suffix end with it. */
  lemma {:induction false} SuffixIsTail(glob: string) returns (head: seq<Token>, tail: string)
    requires Compile(glob).Some? && SuffixText(glob) != ""
    ensures glob[|glob| - 1] != '*'
    ensures TailOf(Compile(glob).value, head, tail, SuffixText(glob))
  {
    var last := SuffixShape(glob);
    if last >= 0 {
      head, tail := StarSuffixIsTail(glob, last);
    } else {
      head, tail := [], glob;
      LiteralIsTail(glob);
    }
  }

  lemma {:induction false} NotLone(glob: string)
    requires !OnlyRecursions(glob) && glob != "" && glob[|glob| - 1] != '*'
    ensures Compile(glob) != Some([RecursivePrefix])
  {
    if Compile(glob) == Some([RecursivePrefix]) {
      LoneRecursionIsRepeated(glob);
    }
  }

  /**
   Every path a glob selects, read from the root, ends with the text after its last
   star: unless the glob is nothing but recursions, which selects every path.
   */
  lemma {:induction false} SuffixHolds(glob: string, path: string)
    requires Selects(glob, path) && !OnlyRecursions(glob)
    ensures EndsWith("/" + path, SuffixText(glob))
  {
    if SuffixText(glob) != "" {
      var head, tail := SuffixIsTail(glob);
      NotLone(glob);
      TailEnds(Compile(glob).value, head, tail, SuffixText(glob), path);
    }
  }

  /**
   A selected path itself ends with that text unless it is the whole of it but the
   separator, as a path of the root is under a leading recursion; recursions alone
   show a separator no file ends with.
   */
  lemma {:induction false} SuffixEndsExactly(glob: string, path: string)
    requires Selects(glob, path)
    ensures EndsWith(path, SuffixText(glob)) <==>
            if OnlyRecursions(glob) then EndsWith(path, "/") else SuffixText(glob) != "/" + path
  {
    if OnlyRecursions(glob) {
      LoneRecursionIsText(glob);
    } else {
      SuffixHolds(glob, path);
      RootedEnds(path, SuffixText(glob));
    }
  }

  lemma {:induction false} RootedEnds(path: string, suffix: string)
    requires EndsWith("/" + path, suffix)
    ensures EndsWith(path, suffix) <==> suffix != "/" + path
  {
    var rooted := "/" + path;
    if |suffix| <= |path| {
      CutPastFirst(rooted, path, |path| - |suffix|);
    } else {
      EmptyConcat(rooted);
    }
  }

  lemma {:induction false} CutPastFirst(rooted: string, path: string, n: nat)
    requires |rooted| == |path| + 1 && rooted[1..] == path && n <= |path|
    ensures rooted[n + 1..] == path[n..]
  {
  }

  lemma {:induction false} RecursionThenText(glob: string, name: string)
    requires glob == "**/" + name && name != "" && AllPlain(name)
    ensures |glob| == |name| + 3 && glob[0] == '*' && glob[1] == '*' && glob[2] == '/' && glob[3..|glob|] == name && glob[2..] == "/" + name
    ensures forall k :: 3 <= k < |glob| ==> IsPlain(glob[k])
  {
    forall k | 3 <= k < |glob| ensures glob[k] == name[k - 3] {
    }
  }

  lemma {:induction false} RecursionThenTextCompiles(glob: string, name: string)
    requires glob == "**/" + name && name != "" && AllPlain(name)
    ensures Compile(glob) == Some([RecursivePrefix] + Literals(name))
  {
    RecursionThenText(glob, name);
    OneList(Push(START, RecursivePrefix));
    assert [] + [RecursivePrefix] == [RecursivePrefix];
    assert Step(glob, 0, START) == Some((3, LONE));
    RunLiterals(glob, 3, |glob|, [RecursivePrefix]);
  }

  /** A path of the root that a leading recursion selects and whose text does not end with the suffix. */
  lemma {:induction false} RootMatchHasNoSuffix(name: string)
    requires name != "" && AllPlain(name)
    ensures Selects("**/" + name, name) && !EndsWith(name, SuffixText("**/" + name))
  {
    var glob := "**/" + name;
    RecursionThenTextCompiles(glob, name);
    RootSpells(name);
    RecursionThenText(glob, name);
    RecursionShowsText(glob, name);
  }

  lemma {:induction false} RecursionShowsText(glob: string, name: string)
    requires glob == "**/" + name && name != "" && AllPlain(name)
    ensures SuffixText(glob) == "/" + name && PrefixText(glob) == "" && !IsLiteral(glob)
  {
    RecursionThenText(glob, name);
    assert '\\' !in glob by {
      assert forall k :: 0 <= k < |glob| ==> glob[k] != '\\';
    }
    PlainTailIsSuffix(glob, 1);
  }

  lemma {:induction false} RootSpells(name: string)
    ensures Spells([RecursivePrefix] + Literals(name), name)
  {
    SingleSpelling(RecursivePrefix, "");
    LiteralsSpell(name, name);
    JoinSpelling([RecursivePrefix], Literals(name), "", name);
    EmptyConcat(name);
  }

  lemma {:induction false} RootMatchExample()
    ensures Selects("**/" + "x", "x") && !EndsWith("x", SuffixText("**/" + "x"))
  {
    RootMatchHasNoSuffix("x");
  }

  lemma {:induction false} LiteralTokens(glob: string)
    requires Compile(glob).Some? && IsLiteral(glob)
    ensures Compile(glob) == Some(Literals(glob))
  {
    EmptyConcat(glob);
    EmptyConcat(Literals(glob));
    RunPlain(glob, 0, |glob|, []);
  }

  /** A literal selects the path it spells and no other. */
  lemma {:induction false} LiteralSelects(glob: string, path: string)
    requires Compile(glob).Some? && IsLiteral(glob)
    ensures Selects(glob, path) <==> path == glob
  {
    LiteralTokens(glob);
    assert Literals(glob) != [RecursivePrefix];
    LiteralsSpell(glob, path);
  }

  // --------------------------------------------- globs that are a lone recursion

  const LONE := State([[RecursivePrefix]], [])

  /** A state no reading brings back to a lone recursion. */
  ghost predicate NeverLone(st: State) {
    && WellFormed(st)
    && (st.opens != [] || |st.branches[0]| >= 2 || (st.branches[0] != [] && st.branches[0][0] != RecursivePrefix))
  }

  lemma {:induction false} RunNeverLone(text: string, i: nat, st: State)
    requires i <= |text| && NeverLone(st)
    ensures Run(text, i, st) != Some(LONE)
    decreases |text| - i
  {
    if i < |text| && Step(text, i, st).Some? {
      StepNeverLone(text, i, st);
      RunNeverLone(text, Step(text, i, st).value.0, Step(text, i, st).value.1);
    }
  }

  lemma {:induction false} StepNeverLone(text: string, i: nat, st: State)
    requires i < |text| && NeverLone(st) && Step(text, i, st).Some?
    ensures NeverLone(Step(text, i, st).value.1)
  {
    var (j, st') := Step(text, i, st).value;
    if text[i] == '}' {
      var from := st.opens[|st.opens| - 1];
      assert st.branches[..from][0] == st.branches[0];
    } else if text[i] == '*' {
      assert st'.opens == st.opens && |st'.branches[0]| >= |st.branches[0]|;
    }
  }

  /** After a lone recursion and its separator, only more recursions leave it alone. */
  lemma {:induction false} LoneTail(text: string, i: nat)
    requires 0 < i <= |text| && text[i - 1] == '/' && text[|text| - 1] != '*'
    requires Run(text, i, LONE) == Some(LONE)
    ensures text[i..] == "" || OnlyRecursions(text[i..])
    decreases |text| - i
  {
    if i < |text| {
      var (j, st') := Step(text, i, LONE).value;
      if NeverLone(st') {
        RunNeverLone(text, j, st');
      }
      OneList(st');
      assert text[i] == '*' && j == i + 3;
      assert [RecursivePrefix][..0] + [RecursivePrefix] == [RecursivePrefix];
      assert st' == LONE;
      assert text[i..][..3] == "**/" && text[i..][3..] == text[j..];
      LoneTail(text, j);
    }
  }

  lemma {:induction false} RecursionsRun(text: string, i: nat)
    requires 0 < i < |text| && text[i - 1] == '/' && OnlyRecursions(text[i..])
    ensures Run(text, i, LONE) == Some(LONE)
    decreases |text| - i
  {
    assert text[i..][..3] == text[i..i + 3] && text[i..][3..] == text[i + 3..];
    assert text[i..i + 3][0] == text[i] && text[i..i + 3][1] == text[i + 1] && text[i..i + 3][2] == text[i + 2];
    assert [RecursivePrefix][..0] + [RecursivePrefix] == [RecursivePrefix];
    OneList(StarStep(text, i, LONE).1);
    assert StarStep(text, i, LONE) == (i + 3, LONE);
    if i + 3 < |text| {
      RecursionsRun(text, i + 3);
    }
  }

  lemma {:induction false} OnlyRecursionsSuffix(glob: string)
    requires OnlyRecursions(glob)
    ensures '\\' !in glob && glob[|glob| - 2] == '*' && glob[|glob| - 1] == '/'
  {
    var rest := glob[3..];
    assert glob == "**/" + rest;
    if rest != "" {
      OnlyRecursionsSuffix(rest);
    }
  }

  lemma {:induction false} LoneStart(glob: string)
    requires Run(glob, 0, START) == Some(LONE) && glob != "" && glob[|glob| - 1] != '*'
    ensures |glob| >= 3 && glob[0] == '*' && glob[1] == '*' && glob[2] == '/' && Run(glob, 3, LONE) == Some(LONE)
  {
    var (j, st') := Step(glob, 0, START).value;
    if NeverLone(st') {
      RunNeverLone(glob, j, st');
    }
    OneList(st');
    assert [] + [RecursivePrefix] == [RecursivePrefix];
    assert glob[0] == '*' && st' == LONE && j == 3;
  }

  lemma {:induction false} LoneRecursionIsRepeated(glob: string)
    requires Compile(glob) == Some([RecursivePrefix]) && glob != "" && glob[|glob| - 1] != '*'
    ensures OnlyRecursions(glob)
  {
    OneList(Run(glob, 0, START).value);
    LoneStart(glob);
    LoneTail(glob, 3);
    assert glob[..3] == "**/";
  }

  lemma {:induction false} RepeatedRecursionIsLone(glob: string)
    requires OnlyRecursions(glob)
    ensures Compile(glob) == Some([RecursivePrefix])
  {
    assert glob[..3][0] == glob[0] && glob[..3][1] == glob[1] && glob[..3][2] == glob[2];
    OneList(Push(START, RecursivePrefix));
    assert [] + [RecursivePrefix] == [RecursivePrefix];
    assert Step(glob, 0, START) == Some((3, LONE));
    if |glob| > 3 {
      RecursionsRun(glob, 3);
    }
    assert Run(glob, 3, LONE) == Some(LONE);
  }

  /** A text whose last star is followed by plain text shows that text as its suffix. */
  lemma {:induction false} PlainTailIsSuffix(glob: string, last: nat)
    requires last < |glob| && '\\' !in glob && glob[last] == '*'
    requires forall k :: last < k < |glob| ==> !IsSpecial(glob[k])
    ensures SuffixText(glob) == glob[last + 1..]
  {
    var r := LastStar(glob, |glob|);
    assert r <= last;
    assert r == last;
  }

  /** Exactly the repeated recursions compile to a lone recursion that still shows a suffix. */
  lemma {:induction false} LoneRecursionIsText(glob: string)
    ensures OnlyRecursions(glob) <==> Compile(glob) == Some([RecursivePrefix]) && SuffixText(glob) != ""
    ensures OnlyRecursions(glob) ==> SuffixText(glob) == "/"
  {
    var compiled, suffix := Compile(glob), SuffixText(glob);
    if OnlyRecursions(glob) {
      RepeatedRecursionIsLone(glob);
      OnlyRecursionsSuffix(glob);
      PlainTailIsSuffix(glob, |glob| - 2);
    } else if compiled == Some([RecursivePrefix]) && suffix != "" {
      var _ := SuffixShape(glob);
      LoneRecursionIsRepeated(glob);
    }
  }

  // ------------------------------------------------------------ the overlap test

  /** The pairs the test misses: one glob is nothing but recursions, the other a wildcard glob whose tail is no separator. */
  predicate Missed(a: string, b: string) {
    && !IsLiteral(a)
    && !IsLiteral(b)
    && ((OnlyRecursions(a) && ShowsTail(b)) || (OnlyRecursions(b) && ShowsTail(a)))
  }

  predicate ShowsTail(glob: string) {
    SuffixText(glob) != "" && !EndsWith(SuffixText(glob), "/")
  }

  ghost predicate ShareAFile(a: string, b: string) {
    exists path :: Selects(a, path) && Selects(b, path)
  }

  lemma {:induction false} SuffixesMeet(a: string, b: string, path: string)
    requires Selects(a, path) && Selects(b, path) && !OnlyRecursions(a) && !OnlyRecursions(b)
    ensures EndsWith(SuffixText(a), SuffixText(b)) || EndsWith(SuffixText(b), SuffixText(a))
  {
    SuffixHolds(a, path);
    SuffixHolds(b, path);
    SuffixesNest("/" + path, SuffixText(a), SuffixText(b));
  }

  lemma {:induction false} RecursionMeets(a: string, b: string)
    requires OnlyRecursions(a) && !ShowsTail(b)
    ensures EndsWith(SuffixText(a), SuffixText(b)) || EndsWith(SuffixText(b), SuffixText(a))
  {
    LoneRecursionIsText(a);
  }

  /** Two globs that select one file are never told apart, outside the missed pairs. */
  lemma {:induction false} OverlapIsSound(a: string, b: string, path: string)
    requires Selects(a, path) && Selects(b, path) && !Missed(a, b)
    ensures MightOverlap(a, b)
  {
    if IsLiteral(a) {
      LiteralSelects(a, path);
    } else if IsLiteral(b) {
      LiteralSelects(b, path);
    } else {
      PrefixHolds(a, path);
      PrefixHolds(b, path);
      if OnlyRecursions(a) {
        RecursionMeets(a, b);
      } else if OnlyRecursions(b) {
        RecursionMeets(b, a);
      } else {
        SuffixesMeet(a, b, path);
      }
    }
  }

  lemma {:induction false} SuffixesNest(s: string, x: string, y: string)
    requires EndsWith(s, x) && EndsWith(s, y)
    ensures EndsWith(x, y) || EndsWith(y, x)
  {
    if |y| <= |x| {
      assert x[|x| - |y|..] == s[|s| - |y|..];
    } else {
      assert y[|y| - |x|..] == s[|s| - |x|..];
    }
  }

  /** Two globs that share a file are told apart exactly when they are a missed pair. */
  lemma {:induction false} OverlapMissesExactly(a: ScopeGlob, b: ScopeGlob)
    ensures ShareAFile(a, b) && !MightOverlap(a, b) <==> ShareAFile(a, b) && Missed(a, b)
    ensures Missed(a, b) ==> forall path :: Selects(a, path) && Selects(b, path) <==>
              Selects(if OnlyRecursions(a) then b else a, path)
  {
    if Missed(a, b) {
      LoneRecursionIsText(a);
      LoneRecursionIsText(b);
    }
    if ShareAFile(a, b) && !Missed(a, b) {
      var path :| Selects(a, path) && Selects(b, path);
      OverlapIsSound(a, b, path);
    }
  }

  /** The glob of a text, a star and a text. */
  function Starred(head: string, tail: string): string {
    head + ("*" + tail)
  }

  lemma {:induction false} StarredChars(head: string, tail: string)
    ensures var text := Starred(head, tail);
            && |text| == |head| + 1 + |tail| && text[|head|] == '*' && text[..|head|] == head && text[|head| + 1..] == tail
            && (forall k :: 0 <= k < |head| ==> text[k] == head[k])
            && (forall k :: |head| < k < |text| ==> text[k] == tail[k - |head| - 1])
  {
  }

  lemma {:induction false} StarredCompiles(head: string, tail: string)
    requires AllText(head) && AllPlain(tail)
    ensures Compile(Starred(head, tail)) == Some(Literals(head) + [ZeroOrMore] + Literals(tail))
  {
    StarredChars(head, tail);
    RunsStarred(Starred(head, tail), head, tail);
  }

  lemma {:induction false} RunsStarred(text: string, head: string, tail: string)
    requires |text| == |head| + 1 + |tail| && text[..|head|] == head && text[|head|] == '*' && text[|head| + 1..] == tail
    requires AllText(head) && AllPlain(tail)
    ensures Run(text, 0, START) == Some(State([Literals(head) + [ZeroOrMore] + Literals(tail)], []))
  {
    RunsHead(text, head);
    assert |head| + 1 < |text| ==> text[|head| + 1] == tail[0];
    OneStar(text, |head|, Literals(head));
    StarredEnds(text, |head| + 1, Literals(head) + [ZeroOrMore], tail);
  }

  lemma {:induction false} RunsHead(text: string, head: string)
    requires |head| <= |text| && text[..|head|] == head && AllText(head)
    ensures Run(text, 0, START) == Run(text, |head|, State([Literals(head)], []))
  {
    assert text[0..|head|] == head;
    forall k | 0 <= k < |head| ensures IsText(text[k]) {
      assert text[k] == head[k];
    }
    RunLiterals(text, 0, |head|, []);
    EmptyConcat(Literals(head));
  }

  lemma {:induction false} StarredEnds(text: string, i: nat, ts: seq<Token>, tail: string)
    requires i <= |text| && text[i..] == tail && AllPlain(tail)
    ensures Run(text, i, State([ts], [])) == Some(State([ts + Literals(tail)], []))
  {
    assert text[i..|text|] == tail;
    forall k | i <= k < |text| ensures IsPlain(text[k]) {
      assert text[k] == tail[k - i];
    }
    RunLiterals(text, i, |text|, ts);
  }

  lemma {:induction false} OneStar(text: string, i: nat, ts: seq<Token>)
    requires i < |text| && text[i] == '*' && (i + 1 < |text| ==> text[i + 1] != '*')
    ensures Run(text, i, State([ts], [])) == Run(text, i + 1, State([ts + [ZeroOrMore]], []))
  {
    assert Push(State([ts], []), ZeroOrMore) == State([ts + [ZeroOrMore]], []);
    assert Step(text, i, State([ts], [])) == Some((i + 1, State([ts + [ZeroOrMore]], [])));
  }

  lemma {:induction false} StarredShows(head: string, tail: string)
    requires AllText(head) && AllPlain(tail) && tail != ""
    ensures !IsLiteral(Starred(head, tail)) && PrefixText(Starred(head, tail)) == head && SuffixText(Starred(head, tail)) == tail
  {
    var text := Starred(head, tail);
    StarredChars(head, tail);
    forall k | 0 <= k < |text| && k != |head| ensures IsText(text[k]) && (k > |head| ==> IsPlain(text[k])) {
    }
    assert !IsLiteral(text) by {
      assert IsSyntax(text[|head|]);
    }
    assert FirstWildcard(text) == |head|;
    PlainTailIsSuffix(text, |head|);
  }

  lemma {:induction false} StarredSelects(head: string, name: string, tail: string)
    requires AllText(head) && AllPlain(tail) && '/' !in name
    ensures Selects(Starred(head, tail), head + name + tail)
  {
    StarredCompiles(head, tail);
    LiteralsSpell(head, head);
    LiteralsSpell(tail, tail);
    SingleSpelling(ZeroOrMore, name);
    JoinSpelling(Literals(head), [ZeroOrMore], head, name);
    JoinSpelling(Literals(head) + [ZeroOrMore], Literals(tail), head + name, tail);
    var ts := Literals(head) + [ZeroOrMore] + Literals(tail);
    assert ts[|head|] == ZeroOrMore;
  }

  /** Before its first wildcard a glob that compiles holds no closing brace. */
  lemma {:induction false} PrefixIsText(glob: string)
    requires Compile(glob).Some?
    ensures AllText(PrefixText(glob))
  {
    var n := FirstWildcard(glob);
    if '\\' !in glob {
      forall k | 0 <= k < n ensures IsText(glob[k]) {
        assert glob[k] in glob;
        RunPlain(glob, 0, k, []);
        assert Run(glob, k, State([[] + Literals(glob[0..k])], [])).Some?;
      }
    }
  }

  lemma {:induction false} SuffixIsPlain(glob: string)
    ensures AllPlain(SuffixText(glob))
  {
    var last := LastStar(glob, |glob|);
    if SuffixText(glob) != "" {
      forall k | last < k < |glob| ensures IsPlain(glob[k]) {
        assert glob[k] in glob;
        assert !IsBracket(glob[k]);
      }
    }
  }

  /** A family the test misses: `a` selects every file, and the starred text every file between its two ends. */
  lemma {:induction false} MissedPair(a: string, head: string, name: string, tail: string)
    requires OnlyRecursions(a) && '/' !in name && AllText(head) && AllPlain(tail) && tail != "" && !EndsWith(tail, "/")
    ensures Selects(a, head + name + tail) && Selects(Starred(head, tail), head + name + tail)
    ensures Missed(a, Starred(head, tail)) && !MightOverlap(a, Starred(head, tail))
  {
    LoneRecursionIsText(a);
    StarredSelects(head, name, tail);
    StarredShows(head, tail);
    assert !EndsWith("/", tail) by {
      assert |tail| == 1 ==> tail[0..] == tail;
    }
    assert a[..3][0] == a[0] == '*';
  }

  /** `MissedPair` on two globs a project could write. */
  lemma {:induction false} MissedExample()
    ensures !MightOverlap("**/", Starred("src/", ".rs"))
    ensures Selects("**/", "src/" + "a" + ".rs") && Selects(Starred("src/", ".rs"), "src/" + "a" + ".rs")
  {
    var recursion := "**/";
    assert recursion[..3] == recursion && recursion[3..] == "";
    MissedPair(recursion, "src/", "a", ".rs");
  }

  /** With a literal on either side the test answers exactly. */
  lemma {:induction false} OverlapIsExactOnLiterals(a: ScopeGlob, b: ScopeGlob)
    requires IsLiteral(a) || IsLiteral(b)
    ensures MightOverlap(a, b) <==> ShareAFile(a, b)
  {
    var path := if IsLiteral(a) then a else b;
    LiteralSelects(path, path);
    if ShareAFile(a, b) {
      var file :| Selects(a, file) && Selects(b, file);
      LiteralSelects(path, file);
    }
  }

  lemma {:induction false} OverlapIsSymmetric(a: ScopeGlob, b: ScopeGlob)
    ensures MightOverlap(a, b) == MightOverlap(b, a)
  {
    if IsLiteral(a) && IsLiteral(b) {
      LiteralSelects(a, b);
      LiteralSelects(b, a);
    }
  }
}
