/**
 How the reading of a script composes: what a first command, a comment or a heredoc with
 its body stands for, whatever script follows it, and what a substitution keeps together.
 */
module ShellScripts {
  import opened Wrappers
  import opened Sequences
  import opened ShellWords
  import opened ShellScanner
  import opened ShellLines

  // ------------------------------------------- what was read before changes nothing

  function With(r: Reading, before: seq<string>): Reading {
    r.(commands := before + r.commands)
  }

  lemma {:induction false} FinishedWith(r: Reading, before: seq<string>)
    ensures Finished(With(r, before)) == With(Finished(r), before)
  {
    Assoc(before, r.commands, [Trim(r.current)]);
  }

  lemma {:induction false} PlaceWith(r: Reading, before: seq<string>, n: nat)
    requires n <= |r.rest|
    ensures Past(With(r, before), n) == With(Past(r, n), before) && Taken(With(r, before), n) == With(Taken(r, n), before)
    ensures Finished(Past(With(r, before), n)) == With(Finished(Past(r, n)), before)
  {
    FinishedWith(Past(r, n), before);
  }

  lemma {:induction false} LineEndWith(r: Reading, before: seq<string>)
    requires r.rest != ""
    ensures BodiesSkipped(Finished(Past(With(r, before), 1))) == With(BodiesSkipped(Finished(Past(r, 1))), before)
  {
    PlaceWith(r, before, 1);
  }

  lemma {:induction false} OperatorWith(r: Reading, before: seq<string>, split: Split)
    requires r.rest != ""
    ensures AfterOperator(With(r, before), split) == With(AfterOperator(r, split), before)
  {
    var c, w := r.rest[0], With(r, before);
    assert w.rest == r.rest && w.current == r.current;
    PlaceWith(r, before, 1);
    if c == '\n' {
      LineEndWith(r, before);
    } else if c == '&' || c == '|' {
      if |r.rest| >= 2 {
        PlaceWith(r, before, 2);
      }
    }
  }

  lemma {:induction false} InseparableWith(r: Reading, before: seq<string>)
    requires r.rest != ""
    ensures AfterInseparable(With(r, before)) == With(AfterInseparable(r), before)
  {
    var c := r.rest[0];
    if c == '\\' || (c == '$' && SecondIs(r, '(')) {
      PlaceWith(r, before, if |r.rest| == 1 then 1 else 2);
    } else {
      PlaceWith(r, before, 1);
      var s, t := Taken(r, 1), With(Taken(r, 1), before);
      assert t.(quote := Single) == With(s.(quote := Single), before) && t.(quote := Double) == With(s.(quote := Double), before);
    }
  }

  lemma {:induction false} HeredocWith(r: Reading, before: seq<string>)
    requires |r.rest| >= 2
    ensures AfterHeredoc(With(r, before)) == With(AfterHeredoc(r), before)
  {
    var marked := Taken(r, 2);
    PlaceWith(r, before, 2);
    if marked.rest != "" {
      PlaceWith(marked, before, 1);
    }
    if !NextIs(marked, '<') {
      DelimiterWith(if NextIs(marked, '-') then Taken(marked, 1) else marked, before);
    }
  }

  lemma {:induction false} DelimiterWith(r: Reading, before: seq<string>)
    ensures WithDelimiter(Taken(With(r, before), SpaceRun(r.rest))) == With(WithDelimiter(Taken(r, SpaceRun(r.rest))), before)
  {
    var spaced := Taken(r, SpaceRun(r.rest));
    PlaceWith(r, before, SpaceRun(r.rest));
    PlaceWith(spaced, before, DelimiterRun(spaced.rest));
  }

  lemma {:induction false} UnquotedWith(r: Reading, before: seq<string>, split: Split)
    requires r.rest != ""
    ensures AfterUnquoted(With(r, before), split) == With(AfterUnquoted(r, split), before)
  {
    assert Separable(With(r, before)) == Separable(r);
    if !Separable(r) {
      InseparableWith(r, before);
    } else if r.rest[0] == '#' && StartsComment(r) {
      PlaceWith(r, before, 1 + LineRun(r.rest[1..]));
    } else if r.rest[0] == '<' && SecondIs(r, '<') {
      HeredocWith(r, before);
    } else {
      OperatorWith(r, before, split);
    }
  }

  lemma {:induction false} StepWith(r: Reading, before: seq<string>, split: Split)
    requires r.rest != ""
    ensures Step(With(r, before), split) == With(Step(r, split), before)
  {
    if r.quote.Bare? {
      UnquotedWith(r, before, split);
    }
  }

  /** The commands read before stay as they are, and change nothing that is read after. */
  lemma {:induction false} ScanWith(r: Reading, before: seq<string>, split: Split)
    ensures Scan(With(r, before), split) == before + Scan(r, split)
    decreases |r.rest|
  {
    if r.rest == "" {
      FinishedWith(r, before);
    } else {
      StepWith(r, before, split);
      ScanStep(With(r, before), With(Step(r, split), before), split);
      ScanWith(Step(r, split), before, split);
    }
  }

  lemma {:induction false} AfterFirst(r: Reading, text: string, more: string, split: Split)
    requires r == Read(Start(""), text, more)
    ensures Scan(Finished(r), split) == Trimmed(text) + CommandsOf(more, split)
  {
    EmptyConcat(text);
    EmptyConcat(Trimmed(text));
    assert Finished(r) == With(Start(more), Trimmed(text));
    ScanWith(Start(more), Trimmed(text), split);
  }

  // -------------------------------------------------------- a command and its separator

  /** A quiet line and a separator are one command, whatever script follows. */
  lemma {:induction false} FirstCommandSplitsOff(line: seq<Spaced>, sep: Separator, more: string, split: Split)
    requires QuietLine(line) && Splits(sep, split) && Apart(sep, LineText(line), more)
    ensures CommandsOf(LineText(line) + (SeparatorText(sep) + more), split) == Trimmed(LineText(line)) + CommandsOf(more, split)
  {
    var start := Start(LineText(line) + (SeparatorText(sep) + more));
    var read := Read(start, LineText(line), SeparatorText(sep) + more);
    EmptyConcat(LineText(line));
    ThroughLine(start, line, SeparatorText(sep) + more, split);
    AtSeparator(read, sep, more, split);
    AfterFirst(read.(rest := more), LineText(line), more, split);
  }

  // ------------------------------------------------------------------------ comments

  predicate OneLine(s: string) {
    forall i :: 0 <= i < |s| ==> s[i] != '\n'
  }

  lemma {:induction false} LineEndsThere(text: string, ahead: string)
    requires OneLine(text) && (ahead == "" || ahead[0] == '\n')
    ensures LineRun(text + ahead) == |text|
    decreases |text|
  {
    if text == "" {
      EmptyConcat(ahead);
    } else {
      TailOfConcat(text, ahead);
      LineEndsThere(text[1..], ahead);
    }
  }

  lemma {:induction false} LineRunOf(text: string, more: string)
    requires OneLine(text)
    ensures LineRun(text + (['\n'] + more)) == |text|
  {
    Uncons('\n', more);
    LineEndsThere(text, ['\n'] + more);
  }

  lemma {:induction false} StepComment(r: Reading, text: string, ahead: string, split: Split)
    requires Calm(r) && StartsComment(r) && OneLine(text) && (ahead == "" || ahead[0] == '\n') && r.rest == ['#'] + (text + ahead)
    ensures r.rest != "" && Step(r, split) == r.(rest := ahead)
  {
    var rest := text + ahead;
    Uncons('#', rest);
    LineEndsThere(text, ahead);
    assert r.rest[1 + |text|..] == rest[|text|..] == ahead;
    assert Step(r, split) == Past(r, 1 + |text|);
  }

  /** Up to the end of its line a comment stands for nothing, whatever it holds and whatever script follows. */
  lemma {:induction false} CommentSaysNothing(line: seq<Spaced>, text: string, more: string, split: Split)
    requires QuietLine(line) && OneLine(text)
    requires LineText(line) == "" || IsWhitespace(LineText(line)[|LineText(line)| - 1])
    ensures CommandsOf(LineText(line) + (['#'] + (text + (['\n'] + more))), split)
         == Trimmed(LineText(line)) + CommandsOf(more, split)
  {
    var rest := ['#'] + (text + (['\n'] + more));
    var start := Start(LineText(line) + rest);
    var read := Read(start, LineText(line), rest);
    EmptyConcat(LineText(line));
    ThroughLine(start, line, rest, split);
    Uncons('\n', more);
    StepComment(read, text, ['\n'] + more, split);
    ScanStep(read, read.(rest := ['\n'] + more), split);
    AtSeparator(read.(rest := ['\n'] + more), Newline, more, split);
    AfterFirst(read.(rest := more), LineText(line), more, split);
  }

  // ------------------------------------------------------------------------- heredocs

  /** A heredoc's mark, and the quiet text before it: `<<` or `<<-`, spaces, and the word that names its delimiter. */
  datatype Opening = Opening(line: seq<Spaced>, dash: bool, gap: string, word: string)

  function DashText(dash: bool): string {
    if dash then ['-'] else ""
  }

  function MarkText(o: Opening): string {
    ['<', '<'] + (DashText(o.dash) + (o.gap + o.word))
  }

  predicate IsDelimiterWord(word: string) {
    word != "" && Unmarked(word) != "" && forall i :: 0 <= i < |word| ==> !EndsDelimiter(word[i])
  }

  predicate AllSpaces(gap: string) {
    forall i :: 0 <= i < |gap| ==> IsSpaceOrTab(gap[i])
  }

  predicate Opens(o: Opening) {
    && QuietLine(o.line) && AllSpaces(o.gap) && IsDelimiterWord(o.word)
    && (!o.dash && o.gap == "" ==> o.word[0] != '-')
  }

  /** A line with heredocs in it, and what follows the last of them. */
  function OpeningText(openings: seq<Opening>, tail: seq<Spaced>): string {
    if openings == [] then LineText(tail) else LineText(openings[0].line) + (MarkText(openings[0]) + OpeningText(openings[1..], tail))
  }

  /** Every mark opens a heredoc, and what follows its word is no part of it. */
  predicate AllOpen(openings: seq<Opening>, tail: seq<Spaced>) {
    if openings == [] then QuietLine(tail)
    else Opens(openings[0]) && EndsWord(OpeningText(openings[1..], tail)) && AllOpen(openings[1..], tail)
  }

  predicate EndsWord(text: string) {
    text == "" || EndsDelimiter(text[0])
  }

  function Delimiters(openings: seq<Opening>): seq<string> {
    if openings == [] then [] else [Unmarked(openings[0].word)] + Delimiters(openings[1..])
  }

  lemma {:induction false} TakenText(r: Reading, text: string, rest: string)
    requires r.rest == text + rest
    ensures |text| <= |r.rest| && Taken(r, |text|) == Read(r, text, rest)
  {
    assert r.rest[|text|..] == rest && r.rest[..|text|] == text;
  }

  /** No sign of it ends a delimiter. */
  predicate IsWord(word: string) {
    forall i :: 0 <= i < |word| ==> !EndsDelimiter(word[i])
  }

  /** The mark goes no further than its word, and is no here-string. */
  predicate MarkEnds(dash: bool, gap: string, word: string, rest: string) {
    && AllSpaces(gap) && IsWord(word) && EndsWord(rest)
    && (word == "" ==> !Starts(rest, ' ') && !Starts(rest, '\t'))
    && (!dash && gap == "" ==> !Starts(word, '-') && (word == "" ==> !Starts(rest, '-') && !Starts(rest, '<')))
  }

  /** A delimiter is its word without the quotes and backslashes in it, every other sign in its place. */
  lemma {:induction false} UnmarkedDropsQuotes(a: string, c: char, b: string)
    ensures Unmarked("") == ""
    ensures Unmarked(a + ([c] + b)) == Unmarked(a) + ((if c == '\'' || c == '"' || c == '\\' then "" else [c]) + Unmarked(b))
    decreases |a|
  {
    if a == "" {
      EmptyConcat([c] + b);
      Uncons(c, b);
      EmptyConcat(Unmarked([c] + b));
    } else {
      TailOfConcat(a, [c] + b);
      UnmarkedDropsQuotes(a[1..], c, b);
      var head := if a[0] == '\'' || a[0] == '"' || a[0] == '\\' then "" else [a[0]];
      Assoc(head, Unmarked(a[1..]), (if c == '\'' || c == '"' || c == '\\' then "" else [c]) + Unmarked(b));
    }
  }

  /** The delimiters noted so far and the one a word names, if it names any. */
  function Noted(heredocs: seq<string>, word: string): seq<string> {
    if Unmarked(word) == "" then heredocs else heredocs + [Unmarked(word)]
  }

  lemma {:induction false} SpaceRunOf(gap: string, more: string)
    requires AllSpaces(gap) && !Starts(more, ' ') && !Starts(more, '\t')
    ensures SpaceRun(gap + more) == |gap|
    decreases |gap|
  {
    if gap == "" {
      EmptyConcat(more);
    } else {
      TailOfConcat(gap, more);
      SpaceRunOf(gap[1..], more);
    }
  }

  lemma {:induction false} DelimiterRunOf(word: string, more: string)
    requires IsWord(word) && EndsWord(more)
    ensures DelimiterRun(word + more) == |word|
    decreases |word|
  {
    if word == "" {
      EmptyConcat(more);
    } else {
      TailOfConcat(word, more);
      DelimiterRunOf(word[1..], more);
    }
  }

  lemma {:induction false} TakesWord(r: Reading, word: string, rest: string)
    requires IsWord(word) && EndsWord(rest) && r.rest == word + rest
    ensures WithDelimiter(r) == Read(r, word, rest).(heredocs := Noted(r.heredocs, word))
  {
    DelimiterRunOf(word, rest);
    TakenText(r, word, rest);
    assert r.rest[..|word|] == word;
  }

  lemma {:induction false} WordStarts(word: string, rest: string)
    ensures word != "" ==> forall c :: Starts(word + rest, c) <==> Starts(word, c)
    ensures word == "" ==> word + rest == rest
  {
    if word == "" {
      EmptyConcat(rest);
    }
  }

  lemma {:induction false} TakesSpacedWord(r: Reading, gap: string, word: string, rest: string)
    requires AllSpaces(gap) && IsWord(word) && EndsWord(rest) && (word == "" ==> !Starts(rest, ' ') && !Starts(rest, '\t'))
    requires r.rest == gap + (word + rest)
    ensures WithDelimiter(Taken(r, SpaceRun(r.rest))) == Read(r, gap + word, rest).(heredocs := Noted(r.heredocs, word))
  {
    WordStarts(word, rest);
    assert word != "" ==> !EndsDelimiter(word[0]);
    SpaceRunOf(gap, word + rest);
    TakenText(r, gap, word + rest);
    TakesWord(Read(r, gap, word + rest), word, rest);
    ReadTwice(r, gap, word, word + rest, rest);
  }

  lemma {:induction false} TakesDash(r: Reading, dash: bool, gap: string, word: string, rest: string)
    requires MarkEnds(dash, gap, word, rest) && r.rest == DashText(dash) + (gap + (word + rest))
    ensures NextIs(r, '-') == dash && !NextIs(r, '<')
    ensures (if NextIs(r, '-') then Taken(r, 1) else r) == Read(r, DashText(dash), gap + (word + rest))
  {
    var ahead := gap + (word + rest);
    WordStarts(word, rest);
    assert word != "" ==> !EndsDelimiter(word[0]);
    assert gap != "" ==> IsSpaceOrTab(gap[0]) && ahead[0] == gap[0];
    if gap == "" {
      EmptyConcat(word + rest);
    }
    if dash {
      TakenOne(r, '-', ahead);
    } else {
      EmptyConcat(ahead);
      ReadNothing(r);
    }
  }

  lemma {:induction false} OpeningEnds(o: Opening, rest: string)
    requires Opens(o) && EndsWord(rest)
    ensures MarkEnds(o.dash, o.gap, o.word, rest) && forall heredocs :: Noted(heredocs, o.word) == heredocs + [Unmarked(o.word)]
  {
    assert !EndsDelimiter(o.word[0]);
  }

  /** The mark and its word are read into the command, and the delimiter is noted without its quotes. */
  lemma {:induction false} StepMark(r: Reading, dash: bool, gap: string, word: string, rest: string, split: Split)
    requires Calm(r) && MarkEnds(dash, gap, word, rest) && r.rest == (['<', '<'] + (DashText(dash) + (gap + word))) + rest
    ensures r.rest != ""
    ensures Step(r, split) == Read(r, ['<', '<'] + (DashText(dash) + (gap + word)), rest).(heredocs := Noted(r.heredocs, word))
  {
    var ahead := DashText(dash) + (gap + (word + rest));
    MarkRegroups(DashText(dash), gap, word, rest);
    TakenTwo(r, '<', '<', ahead);
    AfterMark(Read(r, ['<', '<'], ahead), dash, gap, word, rest);
    HeredocIsStep(r, split);
    ReadTwice(r, ['<', '<'], DashText(dash) + (gap + word), ahead, rest);
  }

  lemma {:induction false} HeredocIsStep(r: Reading, split: Split)
    requires Calm(r) && |r.rest| >= 2 && r.rest[0] == '<' && r.rest[1] == '<'
    ensures Step(r, split) == AfterHeredoc(r)
  {
  }

  lemma {:induction false} AfterMark(marked: Reading, dash: bool, gap: string, word: string, rest: string)
    requires MarkEnds(dash, gap, word, rest) && marked.rest == DashText(dash) + (gap + (word + rest))
    ensures MarkRead(marked) == Read(marked, DashText(dash) + (gap + word), rest).(heredocs := Noted(marked.heredocs, word))
  {
    var spaced := gap + (word + rest);
    TakesDash(marked, dash, gap, word, rest);
    TakesSpacedWord(Read(marked, DashText(dash), spaced), gap, word, rest);
    ReadTwice(marked, DashText(dash), gap + word, spaced, rest);
  }

  lemma {:induction false} MarkRegroups(dash: string, gap: string, word: string, rest: string)
    ensures (['<', '<'] + (dash + (gap + word))) + rest == ['<', '<'] + (dash + (gap + (word + rest)))
  {
    Assoc(gap, word, rest);
    Assoc(dash, gap + word, rest);
    Assoc(['<', '<'], dash + (gap + word), rest);
  }

  lemma {:induction false} EndsWordBefore(text: string, rest: string)
    requires EndsWord(text)
    ensures EndsWord(text + (['\n'] + rest))
  {
    if text == "" {
      EmptyConcat(['\n'] + rest);
      Uncons('\n', rest);
    }
  }

  /** A line with heredocs in it is read as one command, and the delimiters are noted in order. */
  lemma {:induction false} ThroughOpenings(r: Reading, openings: seq<Opening>, tail: seq<Spaced>, rest: string, split: Split)
    requires Calm(r) && AllOpen(openings, tail) && r.rest == OpeningText(openings, tail) + (['\n'] + rest)
    ensures Scan(r, split)
         == Scan(Read(r, OpeningText(openings, tail), ['\n'] + rest).(heredocs := r.heredocs + Delimiters(openings)), split)
    decreases |openings|
  {
    if openings == [] {
      EmptyConcat(r.heredocs);
      ThroughLine(r, tail, ['\n'] + rest, split);
    } else {
      ThroughOpening(r, openings[0], OpeningText(openings[1..], tail), ['\n'] + rest, split);
      var o, later := openings[0], OpeningText(openings[1..], tail);
      var noted := Read(r, LineText(o.line) + MarkText(o), later + (['\n'] + rest)).(heredocs := r.heredocs + [Unmarked(o.word)]);
      ThroughOpenings(noted, openings[1..], tail, rest, split);
      Assoc(r.heredocs, [Unmarked(o.word)], Delimiters(openings[1..]));
      Assoc(LineText(o.line), MarkText(o), later);
      ReadTwice(r, LineText(o.line) + MarkText(o), later, later + (['\n'] + rest), ['\n'] + rest);
    }
  }

  lemma {:induction false} ThroughOpening(r: Reading, o: Opening, later: string, end: string, split: Split)
    requires Calm(r) && Opens(o) && EndsWord(later) && end != "" && end[0] == '\n'
    requires r.rest == (LineText(o.line) + (MarkText(o) + later)) + end
    ensures Scan(r, split)
         == Scan(Read(r, LineText(o.line) + MarkText(o), later + end).(heredocs := r.heredocs + [Unmarked(o.word)]), split)
  {
    var text, ahead := LineText(o.line), MarkText(o) + (later + end);
    Assoc(text, MarkText(o) + later, end);
    Assoc(MarkText(o), later, end);
    ThroughLine(r, o.line, ahead, split);
    var read := Read(r, text, ahead);
    HeadSplit(end);
    EndsWordBefore(later, end[1..]);
    OpeningEnds(o, later + end);
    StepMark(read, o.dash, o.gap, o.word, later + end, split);
    ScanStep(read, Read(read, MarkText(o), later + end).(heredocs := r.heredocs + [Unmarked(o.word)]), split);
    ReadTwice(r, text, MarkText(o), ahead, later + end);
  }

  // ------------------------------------------------------------------ heredoc bodies

  datatype Body = Body(lines: seq<string>, end: string)

  function LinesText(lines: seq<string>): string {
    if lines == [] then "" else lines[0] + (['\n'] + LinesText(lines[1..]))
  }

  /** The bodies from the `k`-th on, each with the line that ends it, and then `more`. */
  function BodiesText(bodies: seq<Body>, k: nat, more: string): string
    decreases |bodies| - k
  {
    if k >= |bodies| then more
    else LinesText(bodies[k].lines) + (bodies[k].end + (['\n'] + BodiesText(bodies, k + 1, more)))
  }

  /** Lines none of which is the delimiter, and then one that is, blanks around it or not. */
  predicate IsBody(body: Body, delimiter: string) {
    && (forall i :: 0 <= i < |body.lines| ==> OneLine(body.lines[i]) && Trim(body.lines[i]) != delimiter)
    && OneLine(body.end) && Trim(body.end) == delimiter
  }

  predicate AreBodies(bodies: seq<Body>, delimiters: seq<string>) {
    |bodies| == |delimiters| && forall i :: 0 <= i < |bodies| ==> IsBody(bodies[i], delimiters[i])
  }

  lemma {:induction false} LineIsPassed(line: string, more: string, delimiter: string)
    requires OneLine(line)
    ensures PastBody(line + (['\n'] + more), delimiter) == (if Trim(line) == delimiter then more else PastBody(more, delimiter))
  {
    var rest := line + (['\n'] + more);
    LineRunOf(line, more);
    assert rest[..|line|] == line && rest[|line| + 1..] == more;
  }

  lemma {:induction false} BodyIsSkipped(lines: seq<string>, end: string, more: string, delimiter: string)
    requires IsBody(Body(lines, end), delimiter)
    ensures PastBody(LinesText(lines) + (end + (['\n'] + more)), delimiter) == more
    decreases |lines|
  {
    var rest := end + (['\n'] + more);
    if lines == [] {
      EmptyConcat(rest);
      LineIsPassed(end, more, delimiter);
    } else {
      Assoc(lines[0], ['\n'] + LinesText(lines[1..]), rest);
      Assoc(['\n'], LinesText(lines[1..]), rest);
      LineIsPassed(lines[0], LinesText(lines[1..]) + rest, delimiter);
      assert IsBody(Body(lines[1..], end), delimiter);
      BodyIsSkipped(lines[1..], end, more, delimiter);
    }
  }

  lemma {:induction false} BodiesAreSkipped(bodies: seq<Body>, delimiters: seq<string>, k: nat, more: string)
    requires AreBodies(bodies, delimiters)
    ensures PastBodies(BodiesText(bodies, k, more), delimiters, k) == more
    decreases |bodies| - k
  {
    if k < |bodies| {
      BodyIsSkipped(bodies[k].lines, bodies[k].end, BodiesText(bodies, k + 1, more), delimiters[k]);
      BodiesAreSkipped(bodies, delimiters, k + 1, more);
    }
  }

  lemma {:induction false} StepPastBodies(r: Reading, rest: string, more: string, split: Split)
    requires Calm(r) && r.rest == ['\n'] + rest && PastBodies(rest, r.heredocs, 0) == more
    ensures r.rest != "" && Step(r, split) == Finished(r.(rest := more, heredocs := []))
  {
    TakenOne(r, '\n', rest);
    assert Step(r, split) == BodiesSkipped(Finished(r.(rest := rest)));
  }

  /**
   The bodies of a line's heredocs separate nothing and stand for nothing, whatever they
   hold and however many there are: the line that opens them is one command, and the
   script goes on after the last delimiter.
   */
  lemma {:induction false} HeredocBodiesSayNothing(openings: seq<Opening>, tail: seq<Spaced>, bodies: seq<Body>, more: string, split: Split)
    requires AllOpen(openings, tail) && AreBodies(bodies, Delimiters(openings))
    ensures CommandsOf(OpeningText(openings, tail) + (['\n'] + BodiesText(bodies, 0, more)), split)
         == Trimmed(OpeningText(openings, tail)) + CommandsOf(more, split)
  {
    var text, rest := OpeningText(openings, tail), BodiesText(bodies, 0, more);
    var start := Start(text + (['\n'] + rest));
    ThroughOpenings(start, openings, tail, rest, split);
    EmptyConcat(Delimiters(openings));
    var noted := Read(start, text, ['\n'] + rest).(heredocs := Delimiters(openings));
    BodiesAreSkipped(bodies, Delimiters(openings), 0, more);
    StepPastBodies(noted, rest, more, split);
    ScanStep(noted, Finished(Read(Start(""), text, more)), split);
    AfterFirst(Read(Start(""), text, more), text, more, split);
  }

  // -------------------------------------------------------------------- substitutions

  /** What may stand in a substitution: an escape or a joined line, a quote, or a sign that opens none of these. */
  predicate IsHeld(piece: Piece) {
    match piece
    case Plain(c) => c != '\\' && c != '\'' && c != '"'
    case Escaped(_) => true
    case _ => Sound(piece)
  }

  predicate AllHeld(inner: seq<Piece>) {
    forall i :: 0 <= i < |inner| ==> IsHeld(inner[i])
  }

  /** A piece as it is taken into a command: a joined line leaves nothing. */
  function PieceSaid(piece: Piece): string {
    if piece == Escaped('\n') then "" else PieceText(piece)
  }

  function SaidText(inner: seq<Piece>): string {
    if inner == [] then "" else PieceSaid(inner[0]) + SaidText(inner[1..])
  }

  /** Whether a backquote is left open. */
  predicate LeavesTick(inner: seq<Piece>) {
    inner != [] && (inner[0] == Plain('`')) != LeavesTick(inner[1..])
  }

  /** How deep the bare parentheses of `inner` stand after it, from `depth`; none when they close more than is open. */
  function DepthAfter(inner: seq<Piece>, depth: nat): Option<nat>
    decreases |inner|
  {
    if inner == [] then Some(depth)
    else if inner[0] == Plain('(') then DepthAfter(inner[1..], depth + 1)
    else if inner[0] != Plain(')') then DepthAfter(inner[1..], depth)
    else if depth > 1 then DepthAfter(inner[1..], depth - 1)
    else None
  }

  predicate Nested(r: Reading) {
    r.quote.Bare? && r.nested > 0
  }

  /** `said` was taken into the command, and the substitutions and backquotes stand as given. */
  function Inside(r: Reading, said: string, rest: string, nested: nat, backtick: bool): Reading {
    r.(rest := rest, current := r.current + said, nested := nested, backtick := backtick)
  }

  lemma {:induction false} InsideTwice(r: Reading, a: string, x: string, n: nat, t: bool, b: string, rest: string, m: nat, u: bool)
    ensures Inside(Inside(r, a, x, n, t), b, rest, m, u) == Inside(r, a + b, rest, m, u)
  {
    Assoc(r.current, a, b);
  }

  lemma {:induction false} StepNested(r: Reading, c: char, rest: string, split: Split)
    requires Nested(r) && IsHeld(Plain(c)) && r.rest == [c] + rest && (c == '$' ==> rest == "" || rest[0] != '(')
    ensures r.rest != ""
    ensures Step(r, split)
         == Inside(r, [c], rest, if c == '(' then r.nested + 1 else if c == ')' then r.nested - 1 else r.nested, r.backtick != (c == '`'))
  {
    TakenOne(r, c, rest);
    assert Step(r, split) == AfterInseparable(r);
  }

  lemma {:induction false} StepOpensSubstitution(r: Reading, rest: string, split: Split)
    requires r.quote.Bare? && r.rest == ['$', '('] + rest
    ensures r.rest != "" && Step(r, split) == Inside(r, ['$', '('], rest, r.nested + 1, r.backtick)
  {
    TakenTwo(r, '$', '(', rest);
    assert Step(r, split) == AfterInseparable(r);
  }

  lemma {:induction false} StepJoins(r: Reading, rest: string, split: Split)
    requires r.quote.Bare? && r.rest == ['\\', '\n'] + rest
    ensures r.rest != "" && Step(r, split) == Inside(r, "", rest, r.nested, r.backtick)
  {
    TakenTwo(r, '\\', '\n', rest);
    EmptyConcat(r.current);
    assert Step(r, split) == AfterInseparable(r);
  }

  predicate OpensDeeper(inner: seq<Piece>) {
    |inner| > 1 && inner[0] == Plain('$') && inner[1] == Plain('(')
  }

  lemma {:induction false} OpenedIsDeeper(inner: seq<Piece>, depth: nat)
    requires OpensDeeper(inner)
    ensures DepthAfter(inner, depth) == DepthAfter(inner[2..], depth + 1) && LeavesTick(inner) == LeavesTick(inner[2..])
    ensures Text(inner) == ['$', '('] + Text(inner[2..]) && SaidText(inner) == ['$', '('] + SaidText(inner[2..])
  {
    assert inner[1..][0] == Plain('(') && inner[1..][1..] == inner[2..];
    OpenedText(inner[2..]);
  }

  lemma {:induction false} OpenedText(inner: seq<Piece>)
    ensures ['$'] + (['('] + Text(inner)) == ['$', '('] + Text(inner)
    ensures ['$'] + (['('] + SaidText(inner)) == ['$', '('] + SaidText(inner)
  {
    assert ['$'] + ['('] == ['$', '('];
    Assoc(['$'], ['('], Text(inner));
    Assoc(['$'], ['('], SaidText(inner));
  }

  /** Only a bare parenthesis starts with one. */
  lemma {:induction false} StartsBare(inner: seq<Piece>, rest: string)
    requires AllHeld(inner) && (rest == "" || rest[0] != '(') && (inner != [] ==> inner[0] != Plain('('))
    ensures Text(inner) + rest == "" || (Text(inner) + rest)[0] != '('
  {
    if inner == [] {
      EmptyConcat(rest);
    } else {
      assert IsHeld(inner[0]);
      assert PieceText(inner[0])[0] != '(';
    }
  }

  /** What the reading is after `inner`. */
  function After(r: Reading, inner: seq<Piece>, rest: string): Reading
    requires DepthAfter(inner, r.nested).Some?
  {
    Inside(r, SaidText(inner), rest, DepthAfter(inner, r.nested).value, r.backtick != LeavesTick(inner))
  }

  lemma {:induction false} ThroughNested(r: Reading, inner: seq<Piece>, rest: string, split: Split)
    requires Nested(r) && AllHeld(inner) && DepthAfter(inner, r.nested).Some? && r.rest == Text(inner) + rest
    requires rest == "" || rest[0] != '('
    ensures Scan(r, split) == Scan(After(r, inner, rest), split)
    decreases |inner|, 1
  {
    if inner == [] {
      EmptyConcat(rest);
      EmptyConcat(r.current);
      assert After(r, inner, rest) == r;
    } else if OpensDeeper(inner) {
      var tail, ahead := inner[2..], Text(inner[2..]) + rest;
      OpenedIsDeeper(inner, r.nested);
      Assoc(['$', '('], Text(tail), rest);
      var t := Inside(r, ['$', '('], ahead, r.nested + 1, r.backtick);
      StepOpensSubstitution(r, ahead, split);
      ScanStep(r, t, split);
      ThroughNested(t, tail, rest, split);
      Continues(r, ['$', '('], ahead, r.nested + 1, r.backtick, tail, rest);
    } else if inner[0].Plain? {
      ThroughNestedSign(r, inner, rest, split);
    } else {
      ThroughNestedMark(r, inner, rest, split);
    }
  }

  lemma {:induction false} Continues(r: Reading, said: string, ahead: string, nested: nat, tick: bool, tail: seq<Piece>, rest: string)
    requires DepthAfter(tail, nested).Some?
    ensures After(Inside(r, said, ahead, nested, tick), tail, rest)
         == Inside(r, said + SaidText(tail), rest, DepthAfter(tail, nested).value, tick != LeavesTick(tail))
  {
    InsideTwice(r, said, ahead, nested, tick, SaidText(tail), rest, DepthAfter(tail, nested).value, tick != LeavesTick(tail));
  }

  lemma {:induction false} ThroughNestedMark(r: Reading, inner: seq<Piece>, rest: string, split: Split)
    requires Nested(r) && AllHeld(inner) && DepthAfter(inner, r.nested).Some? && r.rest == Text(inner) + rest
    requires (rest == "" || rest[0] != '(') && inner != [] && !inner[0].Plain?
    ensures Scan(r, split) == Scan(After(r, inner, rest), split)
    decreases |inner|, 0
  {
    var piece, tail := inner[0], inner[1..];
    var ahead := Text(tail) + rest;
    var t := Inside(r, PieceSaid(piece), ahead, r.nested, r.backtick);
    assert IsHeld(piece);
    Assoc(PieceText(piece), Text(tail), rest);
    if piece == Escaped('\n') {
      StepJoins(r, ahead, split);
      ScanStep(r, t, split);
    } else {
      ThroughMarked(r, piece, ahead, split);
    }
    ThroughNested(t, tail, rest, split);
    Continues(r, PieceSaid(piece), ahead, r.nested, r.backtick, tail, rest);
  }

  lemma {:induction false} ThroughSign(r: Reading, c: char, ahead: string, t: Reading, split: Split)
    requires Nested(r) && IsHeld(Plain(c)) && r.rest == [c] + ahead && (c == '$' ==> ahead == "" || ahead[0] != '(')
    requires t == Inside(r, [c], ahead, if c == '(' then r.nested + 1 else if c == ')' then r.nested - 1 else r.nested, r.backtick != (c == '`'))
    ensures Scan(r, split) == Scan(t, split)
  {
    StepNested(r, c, ahead, split);
    ScanStep(r, t, split);
  }

  lemma {:induction false} ThroughNestedSign(r: Reading, inner: seq<Piece>, rest: string, split: Split)
    requires Nested(r) && AllHeld(inner) && DepthAfter(inner, r.nested).Some? && r.rest == Text(inner) + rest
    requires (rest == "" || rest[0] != '(') && inner != [] && inner[0].Plain? && !OpensDeeper(inner)
    ensures Scan(r, split) == Scan(After(r, inner, rest), split)
    decreases |inner|, 0
  {
    var c, tail := inner[0].c, inner[1..];
    var ahead := Text(tail) + rest;
    var nested := if c == '(' then r.nested + 1 else if c == ')' then r.nested - 1 else r.nested;
    var tick := r.backtick != (c == '`');
    var t := Inside(r, [c], ahead, nested, tick);
    assert IsHeld(inner[0]);
    Assoc([c], Text(tail), rest);
    if c == '$' {
      StartsBare(tail, rest);
    }
    ThroughSign(r, c, ahead, t, split);
    ThroughNested(t, tail, rest, split);
    Continues(r, [c], ahead, nested, tick, tail, rest);
  }

  /**
   A substitution is read as one part of its command: nothing between its parentheses
   separates, opens a comment or opens a heredoc, and what is quoted, escaped or
   backquoted there closes nothing. A line joined to the next leaves no trace.
   */
  lemma {:induction false} SubstitutionSeparatesNothing(r: Reading, inner: seq<Piece>, rest: string, split: Split)
    requires Calm(r) && AllHeld(inner) && DepthAfter(inner, 1) == Some(1) && !LeavesTick(inner)
    requires r.rest == ['$', '('] + (Text(inner) + ([')'] + rest))
    ensures Scan(r, split) == Scan(Read(r, ['$', '('] + (SaidText(inner) + [')']), rest), split)
  {
    var said, ahead := SaidText(inner), Text(inner) + ([')'] + rest);
    var entered := Inside(r, ['$', '('], ahead, 1, false);
    StepOpensSubstitution(r, ahead, split);
    ScanStep(r, entered, split);
    Uncons(')', rest);
    ThroughNested(entered, inner, [')'] + rest, split);
    var inside := Inside(r, ['$', '('] + said, [')'] + rest, 1, false);
    Continues(r, ['$', '('], ahead, 1, false, inner, [')'] + rest);
    StepNested(inside, ')', rest, split);
    ScanStep(inside, Inside(inside, [')'], rest, 0, false), split);
    InsideTwice(r, ['$', '('] + said, [')'] + rest, 1, false, [')'], rest, 0, false);
    Assoc(['$', '('], said, [')']);
  }
}
