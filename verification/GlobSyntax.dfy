/**
 The scope-glob language: how a pattern's text compiles to tokens, and which paths
 the tokens select. `*`, `?` stay within one directory (the separator is literal), a
 leading `**` followed by `/`, an inner `/` `**` `/` and a trailing `/` `**` recurse,
 braces alternate and nest, a class is one character, and a backslash takes the next
 character as itself.
 */
module GlobSyntax {
  import opened Wrappers
  import opened Sequences

  datatype Range = Range(lo: char, hi: char)

  datatype Token =
    | Literal(c: char)
    | AnyChar
    | ZeroOrMore
    | RecursivePrefix
    | RecursiveSuffix
    | RecursiveZeroOrMore
    | Class(negated: bool, ranges: seq<Range>)
    | Alternates(branches: seq<Branch>)

  datatype Branch = Branch(tokens: seq<Token>)

  predicate IsWildcard(c: char) {
    c == '*' || c == '?' || c == '[' || c == '{'
  }

  predicate IsSyntax(c: char) {
    IsWildcard(c) || c == '\\'
  }

  predicate IsBracket(c: char) {
    c == '?' || c == '[' || c == ']' || c == '{' || c == '}'
  }

  predicate IsSpecial(c: char) {
    c == '*' || IsBracket(c)
  }

  predicate IsPlain(c: char) {
    !IsSpecial(c) && c != '\\'
  }

  // ---------------------------------------------------------------- selection

  predicate InClass(c: char, ranges: seq<Range>) {
    exists i :: 0 <= i < |ranges| && ranges[i].lo <= c <= ranges[i].hi
  }

  /** A branch that stands for no text at all: it is left out of its alternation. */
  predicate Silent(ts: seq<Token>)
    decreases ts
  {
    forall i :: 0 <= i < |ts| ==>
      ts[i].Alternates? && forall j :: 0 <= j < |ts[i].branches| ==> Silent(ts[i].branches[j].tokens)
  }

  /** Whether one token stands for exactly the text `s`. */
  predicate TokenSpells(t: Token, s: string)
    decreases t
  {
    match t
    case Literal(c) => s == [c]
    case AnyChar => |s| == 1 && s[0] != '/'
    case ZeroOrMore => '/' !in s
    case RecursivePrefix => s == "" || s[|s| - 1] == '/'
    case RecursiveSuffix => s != "" && s[0] == '/'
    case RecursiveZeroOrMore => s != "" && s[0] == '/' && s[|s| - 1] == '/'
    case Class(negated, ranges) => |s| == 1 && InClass(s[0], ranges) != negated
    case Alternates(bs) =>
      if forall i :: 0 <= i < |bs| ==> Silent(bs[i].tokens)
      then s == ""
      else exists i :: 0 <= i < |bs| && !Silent(bs[i].tokens) && Spells(bs[i].tokens, s)
  }

  /** Whether a token list stands for exactly the text `s`: some split of `s` gives each token its own piece. */
  predicate Spells(ts: seq<Token>, s: string)
    decreases ts
  {
    if ts == [] then s == ""
    else exists k :: 0 <= k <= |s| && TokenSpells(ts[0], s[..k]) && Spells(ts[1..], s[k..])
  }

  /** A pattern that is nothing but a recursion selects every path. */
  predicate TokensSelect(ts: seq<Token>, path: string) {
    ts == [RecursivePrefix] || Spells(ts, path)
  }

  /** Whether the pattern compiles and selects `path`. */
  predicate Selects(text: string, path: string) {
    Compile(text).Some? && TokensSelect(Compile(text).value, path)
  }

  // -------------------------------------------------------------- compilation

  /** The branches being read, innermost last, and where each open brace's branches start. */
  datatype State = State(branches: seq<seq<Token>>, opens: seq<nat>)

  ghost predicate WellFormed(st: State) {
    && |st.branches| >= 1
    && (forall k :: 0 <= k < |st.opens| ==> 1 <= st.opens[k] < |st.branches|)
    && (forall j, k :: 0 <= j < k < |st.opens| ==> st.opens[j] < st.opens[k])
    && (if st.opens == [] then |st.branches| == 1 else st.opens[0] == 1)
  }

  function Top(st: State): seq<Token>
    requires |st.branches| >= 1
  {
    st.branches[|st.branches| - 1]
  }

  function WithTop(st: State, ts: seq<Token>): State
    requires |st.branches| >= 1
  {
    st.(branches := st.branches[|st.branches| - 1 := ts])
  }

  function Push(st: State, t: Token): State
    requires |st.branches| >= 1
  {
    WithTop(st, Top(st) + [t])
  }

  /** The ranges of a class whose body is read from `i`, and where its closing bracket ends. */
  function ClassBody(text: string, i: nat, first: bool, inRange: bool, ranges: seq<Range>)
    : (r: Option<(seq<Range>, nat)>)
    requires i <= |text|
    requires inRange ==> !first
    requires !first ==> ranges != []
    ensures r.Some? ==> i < r.value.1 <= |text| && text[r.value.1 - 1] == ']'
    decreases |text| - i
  {
    if i == |text| then None
    else
      var c := text[i];
      if c == ']' && !first then
        Some((if inRange then ranges + [Range('-', '-')] else ranges, i + 1))
      else if c == '-' && !first && !inRange then
        ClassBody(text, i + 1, false, true, ranges)
      else if inRange then
        var lo := ranges[|ranges| - 1].lo;
        if c < lo then None
        else ClassBody(text, i + 1, false, false, ranges[|ranges| - 1 := Range(lo, c)])
      else
        ClassBody(text, i + 1, false, false, ranges + [Range(c, c)])
  }

  /** The class opened by the bracket before `i`. */
  function ParseClass(text: string, i: nat): (r: Option<(Token, nat)>)
    requires i <= |text|
    ensures r.Some? ==> i < r.value.1 <= |text| && text[r.value.1 - 1] == ']'
  {
    var negated := i < |text| && (text[i] == '!' || text[i] == '^');
    match ClassBody(text, if negated then i + 1 else i, true, false, [])
    case None => None
    case Some((ranges, next)) => Some((Class(negated, ranges), next))
  }

  /** What the last token becomes once a recursion is read after a separator. */
  function Recursing(last: Token, isSuffix: bool): Token {
    if last.RecursivePrefix? || last.RecursiveSuffix? then last
    else if isSuffix then RecursiveSuffix
    else RecursiveZeroOrMore
  }

  /** Reads the star at `i`, and the one after it when there is one. */
  function StarStep(text: string, i: nat, st: State): (r: (nat, State))
    requires i < |text| && |st.branches| >= 1
    ensures i < r.0 <= |text|
    ensures |r.1.branches| == |st.branches| && r.1.opens == st.opens
  {
    var next := i + 2;
    if i + 1 == |text| || text[i + 1] != '*' then (i + 1, Push(st, ZeroOrMore))
    else if Top(st) == [] then
      if next == |text| then (next, Push(st, RecursivePrefix))
      else if text[next] == '/' then (next + 1, Push(st, RecursivePrefix))
      else (next, Push(Push(st, ZeroOrMore), ZeroOrMore))
    else if !(i > 0 && text[i - 1] == '/')
            && (|st.branches| <= 1 || !(i > 0 && (text[i - 1] == ',' || text[i - 1] == '{'))) then
      (next, Push(Push(st, ZeroOrMore), ZeroOrMore))
    else
      var ts := Top(st);
      var last := ts[|ts| - 1];
      if next == |text| || ((text[next] == ',' || text[next] == '}') && |st.branches| >= 2) then
        (next, WithTop(st, ts[..|ts| - 1] + [Recursing(last, true)]))
      else if text[next] == '/' then
        (next + 1, WithTop(st, ts[..|ts| - 1] + [Recursing(last, false)]))
      else (next, Push(Push(st, ZeroOrMore), ZeroOrMore))
  }

  function Branches(lists: seq<seq<Token>>): seq<Branch> {
    seq(|lists|, i requires 0 <= i < |lists| => Branch(lists[i]))
  }

  /** Reads the syntax element at `i`: where the next one starts, and the state it leaves. */
  function Step(text: string, i: nat, st: State): (r: Option<(nat, State)>)
    requires i < |text| && WellFormed(st)
    ensures r.Some? ==> i < r.value.0 <= |text| && WellFormed(r.value.1)
  {
    match text[i]
    case '?' => Some((i + 1, Push(st, AnyChar)))
    case '*' => Some(StarStep(text, i, st))
    case '[' =>
      (match ParseClass(text, i + 1)
       case None => None
       case Some((cls, next)) => Some((next, Push(st, cls))))
    case '{' => Some((i + 1, State(st.branches + [[]], st.opens + [|st.branches|])))
    case '}' =>
      if st.opens == [] then None
      else
        var from := st.opens[|st.opens| - 1];
        var outer := State(st.branches[..from], st.opens[..|st.opens| - 1]);
        Some((i + 1, Push(outer, Alternates(Branches(st.branches[from..])))))
    case ',' =>
      if st.opens == [] then Some((i + 1, Push(st, Literal(','))))
      else Some((i + 1, st.(branches := st.branches + [[]])))
    case '\\' =>
      if i + 1 == |text| then None else Some((i + 2, Push(st, Literal(text[i + 1]))))
    case c => Some((i + 1, Push(st, Literal(c))))
  }

  function Run(text: string, i: nat, st: State): (r: Option<State>)
    requires i <= |text| && WellFormed(st)
    ensures r.Some? ==> WellFormed(r.value)
    decreases |text| - i
  {
    if i == |text| then Some(st)
    else
      match Step(text, i, st)
      case None => None
      case Some((next, st')) => Run(text, next, st')
  }

  const START := State([[]], [])

  /** The tokens of a pattern, or nothing for a text that is no pattern. */
  function Compile(text: string): Option<seq<Token>> {
    match Run(text, 0, START)
    case None => None
    case Some(st) => if st.opens == [] then Some(st.branches[0]) else None
  }

  // ------------------------------------------------------- facts about tokens

  function Literals(s: string): (ts: seq<Token>)
    ensures |ts| == |s|
    ensures forall i :: 0 <= i < |s| ==> ts[i] == Literal(s[i])
  {
    if s == "" then [] else Literals(s[..|s| - 1]) + [Literal(s[|s| - 1])]
  }

  lemma {:induction false} SpellsHead(ts: seq<Token>, s: string) returns (k: nat)
    requires ts != [] && Spells(ts, s)
    ensures k <= |s| && TokenSpells(ts[0], s[..k]) && Spells(ts[1..], s[k..])
  {
    k :| 0 <= k <= |s| && TokenSpells(ts[0], s[..k]) && Spells(ts[1..], s[k..]);
  }

  lemma {:induction false} SpellsCons(ts: seq<Token>, s: string, t: string)
    requires ts != [] && TokenSpells(ts[0], s) && Spells(ts[1..], t)
    ensures Spells(ts, s + t)
  {
    var k := |s|;
    assert (s + t)[..k] == s && (s + t)[k..] == t;
  }

  lemma {:induction false} LiteralsSpell(s: string, path: string)
    ensures Spells(Literals(s), path) <==> path == s
  {
    if s != "" {
      var ts := Literals(s);
      assert ts[1..] == Literals(s[1..]);
      if path == s {
        LiteralsSpell(s[1..], path[1..]);
        SpellsCons(ts, [s[0]], s[1..]);
        assert s == [s[0]] + s[1..];
      }
      if Spells(ts, path) {
        var k := SpellsHead(ts, path);
        LiteralsSpell(s[1..], path[k..]);
        assert path == path[..k] + path[k..];
      }
    }
  }

  /** A text spelled by two lists in a row splits where the first list ends. */
  lemma {:induction false} SplitSpelling(a: seq<Token>, b: seq<Token>, s: string) returns (k: nat)
    requires Spells(a + b, s)
    ensures k <= |s| && Spells(a, s[..k]) && Spells(b, s[k..])
  {
    if a == [] {
      assert a + b == b;
      k := 0;
      assert s[0..] == s;
    } else {
      TailOfConcat(a, b);
      var j := SpellsHead(a + b, s);
      var m := SplitSpelling(a[1..], b, s[j..]);
      k := j + m;
      SpellsCons(a, s[..j], s[j..][..m]);
      CutAgain(s, j, m);
    }
  }

  lemma {:induction false} JoinSpelling(a: seq<Token>, b: seq<Token>, s: string, t: string)
    requires Spells(a, s) && Spells(b, t)
    ensures Spells(a + b, s + t)
  {
    if a == [] {
      assert a + b == b && s + t == t;
    } else {
      var j := SpellsHead(a, s);
      JoinSpelling(a[1..], b, s[j..], t);
      TailOfConcat(a, b);
      SpellsCons(a + b, s[..j], s[j..] + t);
      Regroup(s, j, t);
    }
  }

  lemma {:induction false} SingleSpelling(t: Token, s: string)
    ensures Spells([t], s) <==> TokenSpells(t, s)
  {
    assert [t][1..] == [];
    if Spells([t], s) {
      var k := SpellsHead([t], s);
      assert s[k..] == "" && s[..k] == s;
    }
    if TokenSpells(t, s) {
      SpellsCons([t], s, "");
      assert s + "" == s;
    }
  }
}
