/**
 Quoted command lines in a script: what is quoted never separates commands, and what
 separates commands separates quoted lines into exactly those lines.
 */
module ShellLines {
  import opened Sequences
  import opened ShellWords
  import opened ShellScanner
  import opened ShellCommands

  // --------------------------------------------------------------------- quiet text

  /** A sign the scanner takes as it stands, and that changes nothing for the next. */
  predicate QuietSign(c: char) {
    && c != '\\' && c != '\'' && c != '"' && c != '`' && c != '$' && c != '#' && c != '<'
    && c != '\n' && c != ';' && c != '&' && c != '|'
  }

  predicate QuietText(s: string) {
    forall i :: 0 <= i < |s| ==> QuietSign(s[i])
  }

  predicate QuietPiece(piece: Piece) {
    Sound(piece) && (piece.Plain? ==> QuietSign(piece.c)) && (piece.Escaped? ==> piece.c != '\n')
  }

  predicate QuietWord(pieces: seq<Piece>) {
    forall i :: 0 <= i < |pieces| ==> QuietPiece(pieces[i])
  }

  predicate QuietLine(line: seq<Spaced>) {
    forall i :: 0 <= i < |line| ==> QuietText(line[i].gap) && QuietWord(line[i].word)
  }

  predicate Calm(r: Reading) {
    r.quote.Bare? && r.nested == 0 && !r.backtick
  }

  /** `text` was read, and `rest` is ahead. */
  function Read(r: Reading, text: string, rest: string): Reading {
    r.(rest := rest, current := r.current + text)
  }

  lemma {:induction false} ReadTwice(r: Reading, a: string, b: string, ahead: string, rest: string)
    ensures Read(Read(r, a, ahead), b, rest) == Read(r, a + b, rest)
  {
    Assoc(r.current, a, b);
  }

  lemma {:induction false} ReadNothing(r: Reading)
    ensures Read(r, "", r.rest) == r
  {
    EmptyConcat(r.current);
  }

  // ------------------------------------------------------------------------ steps

  lemma {:induction false} TakenOne(r: Reading, c: char, rest: string)
    requires r.rest == [c] + rest
    ensures r.rest != "" && r.rest[0] == c && Taken(r, 1) == Read(r, [c], rest) && Past(r, 1) == r.(rest := rest)
    ensures forall d :: SecondIs(r, d) <==> rest != "" && rest[0] == d
  {
    Uncons(c, rest);
    assert r.rest[..1] == [c];
  }

  lemma {:induction false} TakenTwo(r: Reading, c: char, d: char, rest: string)
    requires r.rest == [c, d] + rest
    ensures |r.rest| >= 2 && r.rest[0] == c && r.rest[1] == d
    ensures Taken(r, 2) == Read(r, [c, d], rest) && Past(r, 2) == r.(rest := rest)
  {
    Uncons2(c, d, rest);
    assert r.rest[..2] == [c, d];
  }

  lemma {:induction false} StepSign(r: Reading, c: char, rest: string, split: Split)
    requires Calm(r) && r.rest == [c] + rest && QuietSign(c)
    ensures r.rest != "" && Step(r, split) == Read(r, [c], rest)
  {
    TakenOne(r, c, rest);
    assert Step(r, split) == Taken(r, 1);
  }

  lemma {:induction false} StepEscaped(r: Reading, c: char, rest: string, split: Split)
    requires r.quote.Bare? && r.rest == ['\\', c] + rest && c != '\n'
    ensures r.rest != "" && Step(r, split) == Read(r, ['\\', c], rest)
  {
    TakenTwo(r, '\\', c, rest);
    assert Step(r, split) == Taken(r, 2);
  }

  lemma {:induction false} StepOpens(r: Reading, c: char, rest: string, split: Split)
    requires r.quote.Bare? && r.rest == [c] + rest && (c == '\'' || c == '"')
    ensures r.rest != "" && Step(r, split) == Read(r, [c], rest).(quote := if c == '\'' then Single else Double)
  {
    TakenOne(r, c, rest);
    assert Step(r, split) == Taken(r, 1).(quote := if c == '\'' then Single else Double);
  }

  lemma {:induction false} StepInQuote(r: Reading, c: char, rest: string, split: Split)
    requires !r.quote.Bare? && r.rest == [c] + rest && (r.quote.Double? ==> c != '\\')
    ensures r.rest != ""
    ensures Step(r, split) == Read(r, [c], rest).(quote := if c == (if r.quote.Single? then '\'' else '"') then Bare else r.quote)
  {
    TakenOne(r, c, rest);
  }

  lemma {:induction false} StepSlashed(r: Reading, c: char, rest: string, split: Split)
    requires r.quote.Double? && r.rest == ['\\', c] + rest
    ensures r.rest != "" && Step(r, split) == Read(r, ['\\', c], rest)
  {
    TakenTwo(r, '\\', c, rest);
  }

  lemma {:induction false} ScanStep(r: Reading, t: Reading, split: Split)
    requires r.rest != "" && Step(r, split) == t
    ensures Scan(r, split) == Scan(t, split)
  {
  }

  // -------------------------------------------------------- quiet text is read through

  lemma {:induction false} ThroughSigns(r: Reading, text: string, rest: string, split: Split)
    requires Calm(r) && QuietText(text) && r.rest == text + rest
    ensures Scan(r, split) == Scan(Read(r, text, rest), split)
    decreases |text|
  {
    if text == "" {
      EmptyConcat(rest);
      ReadNothing(r);
    } else {
      var t := Read(r, [text[0]], text[1..] + rest);
      HeadSplit(text);
      Assoc([text[0]], text[1..], rest);
      StepSign(r, text[0], text[1..] + rest, split);
      ScanStep(r, t, split);
      ThroughSigns(t, text[1..], rest, split);
      ReadTwice(r, [text[0]], text[1..], t.rest, rest);
    }
  }

  lemma {:induction false} ThroughSingle(r: Reading, text: string, rest: string, split: Split)
    requires r.quote.Single? && Unquoted(text) && r.rest == text + (['\''] + rest)
    ensures Scan(r, split) == Scan(Read(r, text + ['\''], rest).(quote := Bare), split)
    decreases |text|
  {
    if text == "" {
      EmptyConcat(['\''] + rest);
      EmptyConcat(['\'']);
      StepInQuote(r, '\'', rest, split);
      ScanStep(r, Read(r, ['\''], rest).(quote := Bare), split);
    } else {
      var ahead := text[1..] + (['\''] + rest);
      var t := Read(r, [text[0]], ahead);
      HeadSplit(text);
      Assoc([text[0]], text[1..], ['\''] + rest);
      StepInQuote(r, text[0], ahead, split);
      ScanStep(r, t, split);
      ThroughSingle(t, text[1..], rest, split);
      ReadTwice(r, [text[0]], text[1..] + ['\''], ahead, rest);
      Assoc([text[0]], text[1..], ['\'']);
    }
  }

  lemma {:induction false} ThroughItem(r: Reading, item: Item, rest: string, split: Split)
    requires r.quote.Double? && SoundItem(item) && r.rest == ItemText(item) + rest
    ensures Scan(r, split) == Scan(Read(r, ItemText(item), rest), split)
  {
    if item.Sign? {
      StepInQuote(r, item.c, rest, split);
    } else {
      StepSlashed(r, item.c, rest, split);
    }
    ScanStep(r, Read(r, ItemText(item), rest), split);
  }

  lemma {:induction false} ThroughDouble(r: Reading, items: seq<Item>, rest: string, split: Split)
    requires r.quote.Double? && r.rest == ItemsText(items) + (['"'] + rest) && forall i :: 0 <= i < |items| ==> SoundItem(items[i])
    ensures Scan(r, split) == Scan(Read(r, ItemsText(items) + ['"'], rest).(quote := Bare), split)
    decreases |items|
  {
    if items == [] {
      EmptyConcat(['"'] + rest);
      EmptyConcat(['"']);
      StepInQuote(r, '"', rest, split);
      ScanStep(r, Read(r, ['"'], rest).(quote := Bare), split);
    } else {
      var first, more := ItemText(items[0]), ItemsText(items[1..]);
      var ahead := more + (['"'] + rest);
      Assoc(first, more, ['"'] + rest);
      ThroughItem(r, items[0], ahead, split);
      ThroughDouble(Read(r, first, ahead), items[1..], rest, split);
      ReadTwice(r, first, more + ['"'], ahead, rest);
      Assoc(first, more, ['"']);
    }
  }

  lemma {:induction false} ThroughQuote(r: Reading, mark: char, text: string, rest: string, t: Reading, split: Split)
    requires r.quote.Bare? && (mark == '\'' || mark == '"') && r.rest == ([mark] + text + [mark]) + rest
    requires t == Read(r, [mark], text + ([mark] + rest)).(quote := if mark == '\'' then Single else Double)
    requires Scan(t, split) == Scan(Read(t, text + [mark], rest).(quote := Bare), split)
    ensures Scan(r, split) == Scan(Read(r, [mark] + text + [mark], rest), split)
  {
    Enclosed(mark, text, rest);
    StepOpens(r, mark, text + ([mark] + rest), split);
    ScanStep(r, t, split);
    ReadTwice(r, [mark], text + [mark], t.rest, rest);
    Assoc([mark], text, [mark]);
    assert Read(t, text + [mark], rest).(quote := Bare) == Read(r, [mark] + text + [mark], rest);
  }

  /** An escape or a quote is read whole wherever it stands outside quotes. */
  lemma {:induction false} ThroughMarked(r: Reading, piece: Piece, rest: string, split: Split)
    requires r.quote.Bare? && !piece.Plain? && Sound(piece) && (piece.Escaped? ==> piece.c != '\n') && r.rest == PieceText(piece) + rest
    ensures Scan(r, split) == Scan(Read(r, PieceText(piece), rest), split)
  {
    match piece
    case Escaped(c) =>
      StepEscaped(r, c, rest, split);
      ScanStep(r, Read(r, ['\\', c], rest), split);
    case SingleQuoted(text) =>
      var t := Read(r, ['\''], text + (['\''] + rest)).(quote := Single);
      ThroughSingle(t, text, rest, split);
      ThroughQuote(r, '\'', text, rest, t, split);
    case DoubleQuoted(items) =>
      var t := Read(r, ['"'], ItemsText(items) + (['"'] + rest)).(quote := Double);
      ThroughDouble(t, items, rest, split);
      ThroughQuote(r, '"', ItemsText(items), rest, t, split);
  }

  lemma {:induction false} ThroughPiece(r: Reading, piece: Piece, rest: string, split: Split)
    requires Calm(r) && QuietPiece(piece) && r.rest == PieceText(piece) + rest
    ensures Scan(r, split) == Scan(Read(r, PieceText(piece), rest), split)
  {
    if piece.Plain? {
      StepSign(r, piece.c, rest, split);
      ScanStep(r, Read(r, [piece.c], rest), split);
    } else {
      ThroughMarked(r, piece, rest, split);
    }
  }

  lemma {:induction false} ThroughWord(r: Reading, pieces: seq<Piece>, rest: string, split: Split)
    requires Calm(r) && QuietWord(pieces) && r.rest == Text(pieces) + rest
    ensures Scan(r, split) == Scan(Read(r, Text(pieces), rest), split)
    decreases |pieces|
  {
    if pieces == [] {
      EmptyConcat(rest);
      ReadNothing(r);
    } else {
      var first, more := PieceText(pieces[0]), Text(pieces[1..]);
      Assoc(first, more, rest);
      ThroughPiece(r, pieces[0], more + rest, split);
      ThroughWord(Read(r, first, more + rest), pieces[1..], rest, split);
      ReadTwice(r, first, more, more + rest, rest);
    }
  }

  lemma {:induction false} ThroughLine(r: Reading, line: seq<Spaced>, rest: string, split: Split)
    requires Calm(r) && QuietLine(line) && r.rest == LineText(line) + rest
    ensures Scan(r, split) == Scan(Read(r, LineText(line), rest), split)
    decreases |line|
  {
    if line == [] {
      EmptyConcat(rest);
      ReadNothing(r);
    } else {
      var gap, word, more := line[0].gap, Text(line[0].word), LineText(line[1..]);
      var spaced := Read(r, gap, word + (more + rest));
      var worded := Read(spaced, word, more + rest);
      Assoc(gap, word + more, rest);
      Assoc(word, more, rest);
      ThroughSigns(r, gap, word + (more + rest), split);
      ThroughWord(spaced, line[0].word, more + rest, split);
      ThroughLine(worded, line[1..], rest, split);
      ReadTwice(spaced, word, more, more + rest, rest);
      ReadTwice(r, gap, word + more, spaced.rest, rest);
    }
  }

  // --------------------------------------------------------------------- separators

  datatype Separator = Newline | Semicolon | Background | And | Or | Pipe | PipeBoth

  function SeparatorText(sep: Separator): string {
    match sep
    case Newline => ['\n']
    case Semicolon => [';']
    case Background => ['&']
    case And => ['&', '&']
    case Or => ['|', '|']
    case Pipe => ['|']
    case PipeBoth => ['|', '&']
  }

  /** What separates for this split: the pipes only where commands are asked for. */
  predicate Splits(sep: Separator, split: Split) {
    split.Commands? || (sep != Pipe && sep != PipeBoth)
  }

  /** No separator before `text` grows by its first character. */
  predicate StartsApart(text: string) {
    text == "" || (text[0] != '&' && text[0] != '>' && text[0] != '|')
  }

  predicate Starts(text: string, c: char) {
    text != "" && text[0] == c
  }

  /** Neither what is before the separator nor what is after it makes another mark of it. */
  predicate Apart(sep: Separator, before: string, after: string) {
    && (sep.Background? ==> !Starts(after, '&') && !Starts(after, '>') && !EndsInAngle(before))
    && (sep.Pipe? ==> !Starts(after, '|') && !Starts(after, '&'))
  }

  lemma {:induction false} AtSeparator(r: Reading, sep: Separator, rest: string, split: Split)
    requires Calm(r) && (sep.Newline? ==> r.heredocs == []) && r.rest == SeparatorText(sep) + rest
    requires Apart(sep, r.current, rest) && Splits(sep, split)
    ensures Scan(r, split) == Scan(Finished(r.(rest := rest)), split)
  {
    var text := SeparatorText(sep);
    if |text| == 1 {
      TakenOne(r, text[0], rest);
    } else {
      TakenTwo(r, text[0], text[1], rest);
    }
    StepSeparates(r, sep, rest, split);
    ScanStep(r, Finished(r.(rest := rest)), split);
  }

  lemma {:induction false} StepSeparates(r: Reading, sep: Separator, rest: string, split: Split)
    requires Calm(r) && (sep.Newline? ==> r.heredocs == []) && |r.rest| >= |SeparatorText(sep)| && r.rest[0] == SeparatorText(sep)[0]
    requires |SeparatorText(sep)| == 1 ==> Past(r, 1) == r.(rest := rest) && forall d :: SecondIs(r, d) <==> rest != "" && rest[0] == d
    requires |SeparatorText(sep)| == 2 ==> Past(r, 2) == r.(rest := rest) && r.rest[1] == SeparatorText(sep)[1]
    requires Apart(sep, r.current, rest) && Splits(sep, split)
    ensures Step(r, split) == Finished(r.(rest := rest))
  {
    assert Step(r, split) == AfterOperator(r, split);
    if sep.Newline? {
      assert BodiesSkipped(Finished(r.(rest := rest))) == Finished(r.(rest := rest));
    }
  }

  /** Commands, each with the separator after it. */
  datatype Ended = Ended(line: seq<Spaced>, sep: Separator)

  function ScriptText(ended: seq<Ended>, last: seq<Spaced>): string {
    if ended == [] then LineText(last)
    else LineText(ended[0].line) + (SeparatorText(ended[0].sep) + ScriptText(ended[1..], last))
  }

  function Trimmed(text: string): seq<string> {
    if Trim(text) == "" then [] else [Trim(text)]
  }

  function ScriptCommands(ended: seq<Ended>, last: seq<Spaced>): seq<string> {
    if ended == [] then Trimmed(LineText(last)) else Trimmed(LineText(ended[0].line)) + ScriptCommands(ended[1..], last)
  }

  predicate QuietCommand(line: seq<Spaced>) {
    QuietLine(line) && LineText(line) != "" && StartsApart(LineText(line))
  }

  /** Quiet lines, none empty, and none that an `&` after it would read as a redirection. */
  predicate QuietScript(ended: seq<Ended>, last: seq<Spaced>, split: Split) {
    && (forall i :: 0 <= i < |ended| ==>
      QuietCommand(ended[i].line) && Splits(ended[i].sep, split) && !EndsInAngle(LineText(ended[i].line)))
    && (last == [] || QuietCommand(last))
  }

  lemma {:induction false} ScriptStarts(ended: seq<Ended>, last: seq<Spaced>, split: Split)
    requires QuietScript(ended, last, split)
    ensures StartsApart(ScriptText(ended, last))
  {
    if ended != [] {
      assert QuietCommand(ended[0].line);
    }
  }

  lemma {:induction false} ScriptScans(r: Reading, ended: seq<Ended>, last: seq<Spaced>, split: Split)
    requires QuietScript(ended, last, split) && Calm(r) && r.heredocs == [] && r.current == "" && r.rest == ScriptText(ended, last)
    ensures Scan(r, split) == r.commands + ScriptCommands(ended, last)
    decreases |ended|
  {
    if ended == [] {
      EmptyConcat(LineText(last));
      ThroughLine(r, last, "", split);
      EmptyConcat(r.commands);
    } else {
      var text, rest := LineText(ended[0].line), ScriptText(ended[1..], last);
      var sep := ended[0].sep;
      var read := Read(r, text, SeparatorText(sep) + rest);
      ThroughLine(r, ended[0].line, SeparatorText(sep) + rest, split);
      EmptyConcat(text);
      ScriptStarts(ended[1..], last, split);
      AtSeparator(read, sep, rest, split);
      var done := Finished(read.(rest := rest));
      FinishedSays(read.(rest := rest), r.commands, text);
      ScriptScans(done, ended[1..], last, split);
      Assoc(r.commands, Trimmed(text), ScriptCommands(ended[1..], last));
    }
  }

  lemma {:induction false} FinishedSays(r: Reading, commands: seq<string>, text: string)
    requires r.commands == commands && r.current == text
    ensures Finished(r).commands == commands + Trimmed(text) && Finished(r).current == ""
  {
    EmptyConcat(commands);
  }

  /** A script of quiet lines splits at its separators, and nowhere else. */
  lemma {:induction false} QuietLinesSeparate(ended: seq<Ended>, last: seq<Spaced>, split: Split)
    requires QuietScript(ended, last, split)
    ensures CommandsOf(ScriptText(ended, last), split) == ScriptCommands(ended, last)
  {
    ScriptScans(Start(ScriptText(ended, last)), ended, last, split);
    EmptyConcat(ScriptCommands(ended, last));
  }

  // -------------------------------------------------------- pipes inside a pipeline

  lemma {:induction false} ThroughPipe(r: Reading, rest: string)
    requires Calm(r) && r.rest == ['|'] + rest && (rest == "" || rest[0] != '|')
    ensures Scan(r, Pipelines) == Scan(Read(r, ['|'], rest), Pipelines)
  {
    TakenOne(r, '|', rest);
    assert Step(r, Pipelines) == AfterOperator(r, Pipelines);
    ScanStep(r, Read(r, ['|'], rest), Pipelines);
  }

  /** Quiet commands joined by pipes into one pipeline. */
  predicate IsPipeline(stages: seq<Ended>, last: seq<Spaced>) {
    && QuietCommand(last)
    && (forall i :: 0 <= i < |stages| ==> QuietCommand(stages[i].line) && (stages[i].sep.Pipe? || stages[i].sep.PipeBoth?))
  }

  /** A pipeline cut after the `|` of each `|&`, `said` standing before it. */
  function CutAtBoth(said: string, stages: seq<Ended>, last: seq<Spaced>): seq<string>
    decreases |stages|
  {
    if stages == [] then Trimmed(said + LineText(last))
    else
      var text := (said + LineText(stages[0].line)) + ['|'];
      if stages[0].sep.Pipe? then CutAtBoth(text, stages[1..], last) else Trimmed(text) + CutAtBoth("", stages[1..], last)
  }

  lemma {:induction false} PipelineStarts(stages: seq<Ended>, last: seq<Spaced>)
    requires IsPipeline(stages, last)
    ensures ScriptText(stages, last) != "" && StartsApart(ScriptText(stages, last))
  {
    if stages != [] {
      assert QuietCommand(stages[0].line);
    }
  }

  /** At a pipe a pipeline goes on, and at a pipe of both streams it ends after the `|`. */
  lemma {:induction false} AtPipe(r: Reading, sep: Separator, rest: string)
    requires Calm(r) && r.heredocs == [] && (sep.Pipe? || sep.PipeBoth?) && r.rest == SeparatorText(sep) + rest && StartsApart(rest)
    ensures Scan(r, Pipelines)
         == Scan(if sep.Pipe? then Read(r, ['|'], rest) else Finished(Read(r, ['|'], rest)), Pipelines)
  {
    if sep.Pipe? {
      ThroughPipe(r, rest);
    } else {
      BothIsTwo(rest);
      ThroughPipe(r, ['&'] + rest);
      var read := Read(r, ['|'], ['&'] + rest);
      assert !EndsInAngle(read.current);
      AtSeparator(read, Background, rest, Pipelines);
    }
  }

  lemma {:induction false} PipelineScans(r: Reading, stages: seq<Ended>, last: seq<Spaced>)
    requires IsPipeline(stages, last) && Calm(r) && r.heredocs == [] && r.rest == ScriptText(stages, last)
    ensures Scan(r, Pipelines) == r.commands + CutAtBoth(r.current, stages, last)
    decreases |stages|
  {
    if stages == [] {
      EmptyConcat(LineText(last));
      ThroughLine(r, last, "", Pipelines);
      FinishedSays(Read(r, LineText(last), ""), r.commands, r.current + LineText(last));
    } else {
      var text, sep, rest := LineText(stages[0].line), stages[0].sep, ScriptText(stages[1..], last);
      var read := Read(r, text, SeparatorText(sep) + rest);
      PipelineStarts(stages[1..], last);
      ThroughLine(r, stages[0].line, SeparatorText(sep) + rest, Pipelines);
      AtPipe(read, sep, rest);
      var said := (r.current + text) + ['|'];
      var piped := Read(read, ['|'], rest);
      if sep.Pipe? {
        PipelineScans(piped, stages[1..], last);
      } else {
        FinishedSays(piped, r.commands, said);
        PipelineScans(Finished(piped), stages[1..], last);
        Assoc(r.commands, Trimmed(said), CutAtBoth("", stages[1..], last));
      }
    }
  }

  /** Asked for pipelines, commands joined by `|` and `|&` are cut after the `|` of each `|&`, and nowhere else. */
  lemma {:induction false} PipelineIsCutAtBoth(stages: seq<Ended>, last: seq<Spaced>)
    requires IsPipeline(stages, last)
    ensures CommandsOf(ScriptText(stages, last), Pipelines) == CutAtBoth("", stages, last)
  {
    PipelineScans(Start(ScriptText(stages, last)), stages, last);
    EmptyConcat(CutAtBoth("", stages, last));
  }

  predicate AllPipes(stages: seq<Ended>) {
    forall i :: 0 <= i < |stages| ==> stages[i].sep.Pipe?
  }

  lemma {:induction false} PipesCutNothing(said: string, stages: seq<Ended>, last: seq<Spaced>)
    requires AllPipes(stages)
    ensures CutAtBoth(said, stages, last) == Trimmed(said + ScriptText(stages, last))
    decreases |stages|
  {
    if stages != [] {
      var text, rest := LineText(stages[0].line), ScriptText(stages[1..], last);
      PipesCutNothing((said + text) + ['|'], stages[1..], last);
      Assoc(said + text, ['|'], rest);
      Assoc(said, text, ['|'] + rest);
    }
  }

  /** Where the first cut is: after a `|`, with an `&` next. */
  lemma {:induction false} FirstCut(said: string, stages: seq<Ended>, last: seq<Spaced>) returns (head: string, rest: string)
    requires IsPipeline(stages, last) && !AllPipes(stages)
    ensures said + ScriptText(stages, last) == head + rest && rest != "" && rest[0] == '&' && head != "" && head[|head| - 1] == '|'
    ensures CutAtBoth(said, stages, last) != [] && CutAtBoth(said, stages, last)[0] == Trim(head)
    decreases |stages|
  {
    var text, sep, later := LineText(stages[0].line), stages[0].sep, ScriptText(stages[1..], last);
    var first := (said + text) + ['|'];
    if sep.Pipe? {
      Regrouped(said, text, ['|'], later);
      assert !AllPipes(stages[1..]);
      head, rest := FirstCut(first, stages[1..], last);
    } else {
      head, rest := first, ['&'] + later;
      Regrouped(said, text, ['|'], rest);
      BothIsTwo(later);
      TrimKeeps(said + text, '|');
    }
  }

  lemma {:induction false} Regrouped(said: string, text: string, mark: string, rest: string)
    ensures said + (text + (mark + rest)) == ((said + text) + mark) + rest
  {
    Assoc(said + text, mark, rest);
    Assoc(said, text, mark + rest);
  }

  lemma {:induction false} BothIsTwo(rest: string)
    ensures ['|', '&'] + rest == ['|'] + (['&'] + rest)
  {
  }

  lemma {:induction false} TrimStartLonger(a: string, b: string)
    requires a != "" && !IsWhitespace(a[|a| - 1])
    ensures TrimStart(a + b) == TrimStart(a) + b && TrimStart(a) != "" && |TrimStart(a)| <= |a|
    decreases |a|
  {
    if IsWhitespace(a[0]) {
      TailOfConcat(a, b);
      TrimStartLonger(a[1..], b);
    }
  }

  lemma {:induction false} TrimEndLonger(a: string, c: char, b: string)
    requires !IsWhitespace(c)
    ensures |TrimEnd(a + ([c] + b))| > |a|
    decreases |b|
  {
    var s := a + ([c] + b);
    if b == "" {
      assert s[|s| - 1] == c;
    } else if IsWhitespace(s[|s| - 1]) {
      assert s[..|s| - 1] == a + ([c] + b[..|b| - 1]);
      TrimEndLonger(a, c, b[..|b| - 1]);
    }
  }

  lemma {:induction false} TrimKeeps(a: string, c: char)
    requires !IsWhitespace(c)
    ensures Trim(a + [c]) != ""
  {
    TrimStartLonger(a + [c], "");
    var s := TrimStart(a + [c]);
    EmptyConcat(s);
    EmptyConcat(a + [c]);
    StartEnds(a + [c]);
  }

  /** What is left of a text from its first ink on ends as the text does. */
  lemma {:induction false} StartEnds(s: string)
    requires s != "" && !IsWhitespace(s[|s| - 1])
    ensures TrimStart(s) != "" && TrimStart(s)[|TrimStart(s)| - 1] == s[|s| - 1] && TrimEnd(TrimStart(s)) == TrimStart(s)
    decreases |s|
  {
    if IsWhitespace(s[0]) {
      StartEnds(s[1..]);
    }
  }

  /** Text with more ink after it trims to more. */
  lemma {:induction false} TrimGrows(head: string, rest: string)
    requires head != "" && !IsWhitespace(head[|head| - 1]) && rest != "" && !IsWhitespace(rest[0])
    ensures |Trim(head)| < |Trim(head + rest)|
  {
    StartEnds(head);
    TrimStartLonger(head, rest);
    HeadSplit(rest);
    TrimEndLonger(TrimStart(head), rest[0], rest[1..]);
  }

  /** A pipeline comes back whole exactly when none of its joints is a `|&`. */
  lemma {:induction false} PipelineIsWholeExactly(stages: seq<Ended>, last: seq<Spaced>)
    requires IsPipeline(stages, last)
    ensures CommandsOf(ScriptText(stages, last), Pipelines) == Trimmed(ScriptText(stages, last)) <==> AllPipes(stages)
  {
    var text := ScriptText(stages, last);
    PipelineIsCutAtBoth(stages, last);
    EmptyConcat(text);
    if AllPipes(stages) {
      PipesCutNothing("", stages, last);
    } else {
      var head, rest := FirstCut("", stages, last);
      TrimGrows(head, rest);
    }
  }

  /** Two commands joined by `|&`: one pipeline comes back as two. */
  lemma {:induction false} PipeBothCutsPipeline(a: seq<Spaced>, b: seq<Spaced>)
    requires QuietCommand(a) && QuietCommand(b)
    ensures CommandsOf(LineText(a) + (['|', '&'] + LineText(b)), Pipelines) == Trimmed(LineText(a) + ['|']) + Trimmed(LineText(b))
  {
    PipelineIsCutAtBoth([Ended(a, PipeBoth)], b);
    TwoStages(a, b);
  }

  lemma {:induction false} TwoStages(a: seq<Spaced>, b: seq<Spaced>)
    ensures ScriptText([Ended(a, PipeBoth)], b) == LineText(a) + (['|', '&'] + LineText(b))
    ensures CutAtBoth("", [Ended(a, PipeBoth)], b) == Trimmed(LineText(a) + ['|']) + Trimmed(LineText(b))
  {
    assert [Ended(a, PipeBoth)][1..] == [];
    EmptyConcat(LineText(a));
    EmptyConcat(LineText(b));
  }

  // -------------------------------------------------------------- lines of quoted parts

  lemma {:induction false} UnreadIsQuiet(part: string)
    requires forall i :: 0 <= i < |part| ==> IsUnread(part[i])
    ensures QuietWord(PlainPieces(part))
  {
    PlainSpells(part);
    forall i | 0 <= i < |part| ensures QuietPiece(Plain(part[i])) {
      assert IsUnread(part[i]);
    }
  }

  lemma {:induction false} InQuotesIsQuiet(pieces: seq<Piece>)
    requires forall i :: 0 <= i < |pieces| ==> InQuotes(pieces[i])
    ensures QuietWord(pieces)
  {
    forall i | 0 <= i < |pieces| ensures QuietPiece(pieces[i]) {
      assert InQuotes(pieces[i]);
    }
  }

  lemma {:induction false} QuotedIsInked(part: string)
    ensures Inked(ShQuoted(part)) && !EndsInAngle(ShQuoted(part)) && StartsApart(ShQuoted(part))
  {
    if NeedsNoQuote(part) {
      assert IsUnread(part[0]) && IsUnread(part[|part| - 1]);
    } else {
      var quoted := ShQuoted(part);
      assert quoted[0] == '\'' && quoted[|quoted| - 1] == '\'';
    }
  }

  lemma {:induction false} PartIsQuiet(part: string)
    ensures QuietWord(PiecesOf(part))
  {
    if NeedsNoQuote(part) {
      UnreadIsQuiet(part);
    } else {
      QuotedIsInQuotes(part, "");
      InQuotesIsQuiet(QuotedPieces(part, ""));
    }
  }

  lemma {:induction false} InkedPair(a: string, b: string)
    requires Inked(a) && Inked(b) && !EndsInAngle(b) && StartsApart(a)
    ensures Inked(a + ([' '] + b)) && !EndsInAngle(a + ([' '] + b)) && StartsApart(a + ([' '] + b))
  {
  }

  lemma {:induction false} CommandLineIsInked(parts: seq<string>)
    requires parts != []
    ensures Inked(CommandLine(parts)) && !EndsInAngle(CommandLine(parts)) && StartsApart(CommandLine(parts))
    decreases |parts|
  {
    QuotedOneMore(parts);
    QuotedIsInked(parts[0]);
    if |parts| == 1 {
      EmptyConcat(ShQuoted(parts[0]));
    } else {
      CommandLineIsInked(parts[1..]);
      InkedPair(ShQuoted(parts[0]), CommandLine(parts[1..]));
    }
  }

  /** The line of quoted parts, as spelled. */
  function Spelled(parts: seq<string>): seq<Spaced> {
    SpacedParts(parts, "")
  }

  lemma {:induction false} SpacedIsQuiet(line: seq<Spaced>, parts: seq<string>)
    requires |line| == |parts|
    requires forall i :: 0 <= i < |parts| ==> line[i].word == PiecesOf(parts[i])
    requires forall i :: 0 <= i < |parts| ==> line[i].gap == (if i == 0 then "" else " ")
    ensures QuietLine(line)
  {
    forall i | 0 <= i < |line| ensures QuietWord(line[i].word) && QuietText(line[i].gap) {
      PartIsQuiet(parts[i]);
    }
  }

  lemma {:induction false} SpelledIsQuiet(parts: seq<string>)
    ensures QuietLine(Spelled(parts))
  {
    SpacedIsSound(parts, "");
    SpacedIsQuiet(Spelled(parts), parts);
  }

  lemma {:induction false} PartsAreQuiet(parts: seq<string>)
    requires parts != []
    ensures QuietCommand(Spelled(parts)) && LineText(Spelled(parts)) == CommandLine(parts)
    ensures !EndsInAngle(CommandLine(parts)) && Trimmed(CommandLine(parts)) == [CommandLine(parts)]
  {
    SpelledIsQuiet(parts);
    SpacedSpells(parts, "");
    EmptyConcat(CommandLine(parts));
    CommandLineIsInked(parts);
    InkedStays(CommandLine(parts));
  }

  /** A command line of quoted parts is one command, and exactly that line, whatever the parts hold. */
  lemma {:induction false} QuotedIsOneCommand(parts: seq<string>, split: Split)
    requires parts != []
    ensures CommandsOf(CommandLine(parts), split) == [CommandLine(parts)]
  {
    PartsAreQuiet(parts);
    QuietLinesSeparate([], Spelled(parts), split);
  }

  datatype Call = Call(parts: seq<string>, sep: Separator)

  function CallsText(calls: seq<Call>, last: seq<string>): string {
    if calls == [] then CommandLine(last)
    else CommandLine(calls[0].parts) + (SeparatorText(calls[0].sep) + CallsText(calls[1..], last))
  }

  function CallLines(calls: seq<Call>, last: seq<string>): seq<string> {
    if calls == [] then [CommandLine(last)] else [CommandLine(calls[0].parts)] + CallLines(calls[1..], last)
  }

  predicate Callable(calls: seq<Call>, last: seq<string>, split: Split) {
    last != [] && forall i :: 0 <= i < |calls| ==> calls[i].parts != [] && Splits(calls[i].sep, split)
  }

  function Spellings(calls: seq<Call>): seq<Ended> {
    if calls == [] then [] else [Ended(Spelled(calls[0].parts), calls[0].sep)] + Spellings(calls[1..])
  }

  lemma {:induction false} SpellingsAt(calls: seq<Call>)
    ensures |Spellings(calls)| == |calls|
    ensures forall i :: 0 <= i < |calls| ==> Spellings(calls)[i] == Ended(Spelled(calls[i].parts), calls[i].sep)
  {
    if calls != [] {
      SpellingsAt(calls[1..]);
    }
  }

  lemma {:induction false} CallsAreQuiet(calls: seq<Call>, last: seq<string>, split: Split)
    requires Callable(calls, last, split)
    ensures QuietScript(Spellings(calls), Spelled(last), split)
  {
    SpellingsAt(calls);
    PartsAreQuiet(last);
    forall i | 0 <= i < |calls|
      ensures QuietCommand(Spelled(calls[i].parts)) && !EndsInAngle(LineText(Spelled(calls[i].parts)))
    {
      PartsAreQuiet(calls[i].parts);
    }
  }

  lemma {:induction false} CallsAreSpelled(calls: seq<Call>, last: seq<string>, split: Split)
    requires Callable(calls, last, split)
    ensures ScriptText(Spellings(calls), Spelled(last)) == CallsText(calls, last)
    ensures ScriptCommands(Spellings(calls), Spelled(last)) == CallLines(calls, last)
    decreases |calls|
  {
    if calls == [] {
      PartsAreQuiet(last);
    } else {
      PartsAreQuiet(calls[0].parts);
      CallsAreSpelled(calls[1..], last, split);
      assert Spellings(calls)[1..] == Spellings(calls[1..]);
    }
  }

  /** Quoted lines chained by separators come back as exactly those lines, in order. */
  lemma {:induction false} QuotedLinesSeparate(calls: seq<Call>, last: seq<string>, split: Split)
    requires Callable(calls, last, split)
    ensures CommandsOf(CallsText(calls, last), split) == CallLines(calls, last)
  {
    CallsAreQuiet(calls, last, split);
    CallsAreSpelled(calls, last, split);
    QuietLinesSeparate(Spellings(calls), Spelled(last), split);
  }
}
