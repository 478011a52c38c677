/**
 A shell script split into commands. The scanner keeps its place in fields that each
 character updates; the functions beside it say what one character does to a reading,
 and the commands of a script are what all its characters leave.
 */
module ShellScanner {
  import opened Wrappers
  import opened Sequences
  import opened ShellWords

  /** What a script is split into: pipelines whole, or each command of one. */
  datatype Split = Pipelines | Commands

  datatype Reading = Reading(
    rest: string,
    current: string,
    commands: seq<string>,
    quote: Quote,
    nested: nat,
    backtick: bool,
    heredocs: seq<string>)

  // ------------------------------------------------------------------------- text

  function TrimStart(s: string): string {
    if s == "" || !IsWhitespace(s[0]) then s else TrimStart(s[1..])
  }

  function TrimEnd(s: string): string {
    if s == "" || !IsWhitespace(s[|s| - 1]) then s else TrimEnd(s[..|s| - 1])
  }

  function Trim(s: string): string {
    TrimEnd(TrimStart(s))
  }

  /** How much of `s` stands before its first newline. */
  function LineRun(s: string): (n: nat)
    ensures n <= |s|
  {
    if s == "" || s[0] == '\n' then 0 else 1 + LineRun(s[1..])
  }

  predicate IsSpaceOrTab(c: char) {
    c == ' ' || c == '\t'
  }

  function SpaceRun(s: string): (n: nat)
    ensures n <= |s|
  {
    if s == "" || !IsSpaceOrTab(s[0]) then 0 else 1 + SpaceRun(s[1..])
  }

  predicate EndsDelimiter(c: char) {
    IsWhitespace(c) || c == ';' || c == '&' || c == '|' || c == '<' || c == '>'
  }

  function DelimiterRun(s: string): (n: nat)
    ensures n <= |s|
  {
    if s == "" || EndsDelimiter(s[0]) then 0 else 1 + DelimiterRun(s[1..])
  }

  /** A heredoc's delimiter without its quotes. */
  function Unmarked(word: string): string {
    if word == "" then ""
    else (if word[0] == '\'' || word[0] == '"' || word[0] == '\\' then "" else [word[0]]) + Unmarked(word[1..])
  }

  // ------------------------------------------------------- what one character does

  predicate NextIs(r: Reading, c: char) {
    r.rest != "" && r.rest[0] == c
  }

  /** The next `n` characters passed over. */
  function Past(r: Reading, n: nat): Reading
    requires n <= |r.rest|
  {
    r.(rest := r.rest[n..])
  }

  /** The next `n` characters taken into the command being read. */
  function Taken(r: Reading, n: nat): Reading
    requires n <= |r.rest|
  {
    r.(rest := r.rest[n..], current := r.current + r.rest[..n])
  }

  /** The command being read ended. */
  function Finished(r: Reading): Reading {
    var command := Trim(r.current);
    r.(current := "", commands := if command == "" then r.commands else r.commands + [command])
  }

  /** What is left after the body of one heredoc. */
  function PastBody(rest: string, delimiter: string): (left: string)
    ensures |left| <= |rest|
    decreases |rest|
  {
    var n := LineRun(rest);
    if n == |rest| then ""
    else if Trim(rest[..n]) == delimiter then rest[n + 1..]
    else PastBody(rest[n + 1..], delimiter)
  }

  /** What is left after the bodies of the heredocs from the `k`-th on. */
  function PastBodies(rest: string, delimiters: seq<string>, k: nat): (left: string)
    ensures |left| <= |rest|
    decreases |delimiters| - k
  {
    if k >= |delimiters| then rest else PastBodies(PastBody(rest, delimiters[k]), delimiters, k + 1)
  }

  function BodiesSkipped(r: Reading): Reading {
    r.(rest := PastBodies(r.rest, r.heredocs, 0), heredocs := [])
  }

  /** Inside a quote, the character at hand and, behind a `\`, the one after it. */
  function AfterQuoted(r: Reading): (t: Reading)
    requires r.rest != "" && !r.quote.Bare?
    ensures |t.rest| < |r.rest|
  {
    if r.quote.Double? && r.rest[0] == '\\' then Taken(r, if |r.rest| == 1 then 1 else 2)
    else if r.rest[0] == (if r.quote.Single? then '\'' else '"') then Taken(r, 1).(quote := Bare)
    else Taken(r, 1)
  }

  /** A `<<` and what belongs to it; the delimiter of a heredoc is kept for the end of the line. */
  function AfterHeredoc(r: Reading): (t: Reading)
    requires |r.rest| >= 2
    ensures |t.rest| < |r.rest|
  {
    MarkRead(Taken(r, 2))
  }

  /** What is read once the two signs of the mark are. */
  function MarkRead(marked: Reading): (t: Reading)
    ensures |t.rest| <= |marked.rest|
  {
    if NextIs(marked, '<') then Taken(marked, 1) else
      var dashed := if NextIs(marked, '-') then Taken(marked, 1) else marked;
      WithDelimiter(Taken(dashed, SpaceRun(dashed.rest)))
  }

  function WithDelimiter(r: Reading): (t: Reading)
    ensures |t.rest| <= |r.rest|
  {
    var n := DelimiterRun(r.rest);
    var delimiter := Unmarked(r.rest[..n]);
    Taken(r, n).(heredocs := if delimiter == "" then r.heredocs else r.heredocs + [delimiter])
  }

  predicate EndsInAngle(s: string) {
    s != "" && (s[|s| - 1] == '>' || s[|s| - 1] == '<')
  }

  predicate SecondIs(r: Reading, c: char) {
    |r.rest| >= 2 && r.rest[1] == c
  }

  /** A character that may separate commands. */
  function AfterOperator(r: Reading, split: Split): (t: Reading)
    requires r.rest != ""
    ensures |t.rest| < |r.rest|
  {
    var c := r.rest[0];
    if c == '\n' then BodiesSkipped(Finished(Past(r, 1)))
    else if c == ';' then Finished(Past(r, 1))
    else if c == '&' && SecondIs(r, '&') then Finished(Past(r, 2))
    else if c == '&' && (SecondIs(r, '>') || EndsInAngle(r.current)) then Taken(r, 1)
    else if c == '&' then Finished(Past(r, 1))
    else if c == '|' && SecondIs(r, '|') then Finished(Past(r, 2))
    else if c == '|' && split.Commands? then Finished(Past(r, if SecondIs(r, '&') then 2 else 1))
    else Taken(r, 1)
  }

  predicate StartsComment(r: Reading) {
    r.current == "" || IsWhitespace(r.current[|r.current| - 1])
  }

  /** Whether the character at hand stands where commands are separated: outside substitutions, and none that opens one or a quote. */
  predicate Separable(r: Reading)
    requires r.rest != ""
  {
    var c := r.rest[0];
    && c != '\\' && c != '\'' && c != '"' && c != '`' && !(c == '$' && SecondIs(r, '('))
    && r.nested == 0 && !r.backtick
  }

  /** A character that opens a quote or stands in a substitution. */
  function AfterInseparable(r: Reading): (t: Reading)
    requires r.rest != ""
    ensures |t.rest| < |r.rest|
  {
    var c := r.rest[0];
    if c == '\\' then (if |r.rest| == 1 then Taken(r, 1) else if r.rest[1] == '\n' then Past(r, 2) else Taken(r, 2))
    else if c == '\'' then Taken(r, 1).(quote := Single)
    else if c == '"' then Taken(r, 1).(quote := Double)
    else if c == '`' then Taken(r, 1).(backtick := !r.backtick)
    else if c == '$' && SecondIs(r, '(') then Taken(r, 2).(nested := r.nested + 1)
    else if c == '(' && r.nested > 0 then Taken(r, 1).(nested := r.nested + 1)
    else if c == ')' && r.nested > 0 then Taken(r, 1).(nested := r.nested - 1)
    else Taken(r, 1)
  }

  /** A character outside any quote. */
  function AfterUnquoted(r: Reading, split: Split): (t: Reading)
    requires r.rest != ""
    ensures |t.rest| < |r.rest|
  {
    if !Separable(r) then AfterInseparable(r)
    else if r.rest[0] == '#' && StartsComment(r) then Past(r, 1 + LineRun(r.rest[1..]))
    else if r.rest[0] == '<' && SecondIs(r, '<') then AfterHeredoc(r)
    else AfterOperator(r, split)
  }

  function Step(r: Reading, split: Split): (t: Reading)
    requires r.rest != ""
    ensures |t.rest| < |r.rest|
  {
    if r.quote.Bare? then AfterUnquoted(r, split) else AfterQuoted(r)
  }

  /** The commands a reading ends with. */
  function Scan(r: Reading, split: Split): seq<string>
    decreases |r.rest|
  {
    if r.rest == "" then Finished(r).commands else Scan(Step(r, split), split)
  }

  function Start(script: string): Reading {
    Reading(script, "", [], Bare, 0, false, [])
  }

  /** The commands of a script. */
  function CommandsOf(script: string, split: Split): seq<string> {
    Scan(Start(script), split)
  }

  // ------------------------------------------------------------------- the scanner

  class Scanner {
    var rest: string
    const split: Split
    var current: string
    var commands: seq<string>
    var quote: Quote
    /** How many substitutions are open. */
    var nested: nat
    var backtick: bool
    /** The delimiters whose bodies start on the next line. */
    var heredocs: seq<string>

    ghost function State(): Reading
      reads this
    {
      Reading(rest, current, commands, quote, nested, backtick, heredocs)
    }

    constructor (script: string, split: Split)
      ensures State() == Start(script) && this.split == split
    {
      this.split := split;
      rest, current, commands := script, "", [];
      quote, nested, backtick, heredocs := Bare, 0, false, [];
    }

    /** Reads the whole script. */
    method Run() returns (r: seq<string>)
      modifies this
      ensures r == Scan(old(State()), split)
    {
      while rest != ""
        invariant Scan(State(), split) == Scan(old(State()), split)
        decreases |rest|
      {
        var quoted := Quoted();
        if !quoted {
          Unquoted();
        }
      }
      Finish();
      return commands;
    }

    /** Takes `n` characters into the command being read. */
    method Take(n: nat)
      requires n <= |rest|
      modifies this
      ensures State() == Taken(old(State()), n)
    {
      current := current + rest[..n];
      rest := rest[n..];
    }

    /** Where a quote is open, takes the next character; says whether one was. */
    method Quoted() returns (quoted: bool)
      requires rest != ""
      modifies this
      ensures quoted == !old(quote).Bare?
      ensures State() == if quoted then AfterQuoted(old(State())) else old(State())
    {
      var c := rest[0];
      quoted := !quote.Bare?;
      match quote
      case Bare =>
      case Single =>
        if c == '\'' {
          quote := Bare;
        }
        Take(1);
      case Double =>
        if c == '\\' {
          Take(if |rest| == 1 then 1 else 2);
        } else {
          if c == '"' {
            quote := Bare;
          }
          Take(1);
        }
    }

    /** Takes the next character outside any quote. */
    method Unquoted()
      requires rest != ""
      modifies this
      ensures State() == AfterUnquoted(old(State()), split)
    {
      var c := rest[0];
      if c == '\\' {
        if |rest| > 1 && rest[1] == '\n' {
          rest := rest[2..];
        } else {
          Take(if |rest| == 1 then 1 else 2);
        }
      } else if c == '\'' || c == '"' {
        quote := if c == '\'' then Single else Double;
        Take(1);
      } else if c == '`' {
        backtick := !backtick;
        Take(1);
      } else if c == '$' && |rest| > 1 && rest[1] == '(' {
        nested := nested + 1;
        Take(2);
      } else if c == '(' && nested > 0 {
        nested := nested + 1;
        Take(1);
      } else if c == ')' && nested > 0 {
        nested := nested - 1;
        Take(1);
      } else if nested > 0 || backtick {
        Take(1);
      } else if c == '#' && (current == "" || IsWhitespace(current[|current| - 1])) {
        rest := rest[1..];
        var _ := SkipLine();
      } else if c == '<' && |rest| > 1 && rest[1] == '<' {
        Heredoc();
      } else {
        Operator();
      }
    }

    /** Passes over what is left of the line, not over the newline. */
    method SkipLine() returns (line: string)
      modifies this`rest
      ensures line == old(rest)[..LineRun(old(rest))] && rest == old(rest)[LineRun(old(rest))..]
    {
      line := "";
      var start, n := rest, 0;
      EmptyConcat(start);
      while rest != "" && rest[0] != '\n'
        invariant n <= |start| && rest == start[n..] && line == start[..n] && LineRun(start) == n + LineRun(rest)
        decreases |rest|
      {
        CutAgain(start, n, 1);
        assert [rest[0]] == rest[..1];
        line := line + [rest[0]];
        rest := rest[1..];
        n := n + 1;
      }
    }

    /** Takes the next character where it may separate commands. */
    method Operator()
      requires rest != ""
      modifies this
      ensures State() == AfterOperator(old(State()), split)
    {
      var c := rest[0];
      var next := if |rest| > 1 then Some(rest[1]) else None;
      if c == '\n' {
        rest := rest[1..];
        Finish();
        SkipHeredocBodies();
      } else if c == ';' {
        rest := rest[1..];
        Finish();
      } else if c == '&' && next == Some('&') {
        rest := rest[2..];
        Finish();
      } else if c == '&' && (next == Some('>') || EndsInAngle(current)) {
        Take(1);
      } else if c == '&' {
        rest := rest[1..];
        Finish();
      } else if c == '|' && next == Some('|') {
        rest := rest[2..];
        Finish();
      } else if c == '|' && split.Commands? {
        rest := rest[if next == Some('&') then 2 else 1..];
        Finish();
      } else {
        Take(1);
      }
    }

    /** Takes a `<<` and what belongs to it. */
    method Heredoc()
      requires |rest| >= 2
      modifies this
      ensures State() == AfterHeredoc(old(State()))
    {
      Take(2);
      if rest != "" && rest[0] == '<' {
        Take(1);
        return;
      }
      if rest != "" && rest[0] == '-' {
        Take(1);
      }
      TakeSpaces();
      TakeDelimiter();
    }

    method TakeSpaces()
      modifies this
      ensures State() == Taken(old(State()), SpaceRun(old(rest)))
    {
      ghost var start, before := State(), current;
      ghost var n := 0;
      EmptyConcat(start.rest);
      EmptyConcat(current);
      while rest != "" && IsSpaceOrTab(rest[0])
        invariant n <= |start.rest| && SpaceRun(start.rest) == n + SpaceRun(rest) && State() == Taken(start, n)
        decreases |rest|
      {
        TakenAgain(start, n);
        Take(1);
        n := n + 1;
      }
    }

    method TakeDelimiter()
      modifies this
      ensures State() == WithDelimiter(old(State()))
    {
      var word := TakeWord();
      var delimiter := Unmarked(word);
      if delimiter != "" {
        heredocs := heredocs + [delimiter];
      }
    }

    method TakeWord() returns (word: string)
      modifies this
      ensures word == old(rest)[..DelimiterRun(old(rest))] && State() == Taken(old(State()), |word|)
    {
      ghost var start := State();
      word := "";
      EmptyConcat(start.rest);
      EmptyConcat(current);
      while rest != "" && !EndsDelimiter(rest[0])
        invariant |word| <= |start.rest| && word == start.rest[..|word|]
        invariant DelimiterRun(start.rest) == |word| + DelimiterRun(rest) && State() == Taken(start, |word|)
        decreases |rest|
      {
        TakenAgain(start, |word|);
        WordMore(start.rest, word);
        word := word + [rest[0]];
        Take(1);
      }
    }

    /** Skips, delimiter by delimiter, to the first line that is command text again. */
    method SkipHeredocBodies()
      modifies this
      ensures State() == BodiesSkipped(old(State()))
    {
      var delimiters := heredocs;
      heredocs := [];
      ghost var start := rest;
      var k := 0;
      while k < |delimiters|
        invariant 0 <= k <= |delimiters|
        invariant PastBodies(start, delimiters, 0) == PastBodies(rest, delimiters, k)
        invariant State() == old(State()).(rest := rest, heredocs := [])
      {
        SkipBody(delimiters[k]);
        k := k + 1;
      }
    }

    method SkipBody(delimiter: string)
      modifies this`rest
      ensures rest == PastBody(old(rest), delimiter)
    {
      ghost var start := rest;
      while true
        invariant PastBody(start, delimiter) == PastBody(rest, delimiter)
        decreases |rest|
      {
        var line := SkipLine();
        var ended := rest == "";
        rest := if ended then "" else rest[1..];
        if Trim(line) == delimiter || ended {
          return;
        }
      }
    }

    /** Ends the command being read. */
    method Finish()
      modifies this
      ensures State() == Finished(old(State()))
    {
      var command := Trim(current);
      if command != "" {
        commands := commands + [command];
      }
      current := "";
    }
  }

  /** The pipelines of a script. */
  method ReadPipelines(script: string) returns (r: seq<string>)
    ensures r == CommandsOf(script, Pipelines)
  {
    var scanner := new Scanner(script, Pipelines);
    r := scanner.Run();
  }

  /** The simple commands of a script. */
  method ReadSimpleCommands(script: string) returns (r: seq<string>)
    ensures r == CommandsOf(script, Commands)
  {
    var scanner := new Scanner(script, Commands);
    r := scanner.Run();
  }

  lemma {:induction false} TakenAgain(r: Reading, n: nat)
    requires n < |r.rest|
    ensures Taken(Taken(r, n), 1) == Taken(r, n + 1)
  {
    CutAgain(r.rest, n, 1);
    Assoc(r.current, r.rest[..n], r.rest[n..][..1]);
  }

  lemma {:induction false} WordMore(s: string, word: string)
    requires |word| < |s| && word == s[..|word|]
    ensures word + [s[|word|..][0]] == s[..|word| + 1]
  {
  }
}
