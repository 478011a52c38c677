/**
 Every script as its parts: what stands for itself, what is quoted, escaped, joined or
 substituted, comments, heredocs with their bodies, and what separates. A script is cut
 at the parts that separate and nowhere else.
 */
module ShellParts {
  import opened Wrappers
  import opened Sequences
  import opened ShellWords
  import opened ShellScanner
  import opened ShellLines
  import opened ShellScripts

  datatype Part =
    /** A sign that stands for itself where it stands. */
    | Stands(c: char)
    /** An escape, or a text in quotes. */
    | Marked(piece: Piece)
    /** A line joined to the next. */
    | Joins
    /** The start of a substitution. */
    | Enters
    | Comment(text: string)
    | HereString
    | Heredoc(dash: bool, gap: string, word: string)
    /** A separator other than the end of a line. */
    | Ends(sep: Separator)
    /** The end of a line, and the bodies of its heredocs. */
    | LineEnd(bodies: seq<Body>)
    /** The same where the script ends in one of the bodies. */
    | LastBodies(bodies: seq<Body>, lines: seq<string>, last: string)
    /** A `\` with nothing behind it. */
    | Slash
    /** A quote the script does not close. */
    | OpenQuote(mark: char, text: string)

  predicate Separates(part: Part) {
    part.Ends? || part.LineEnd? || part.LastBodies?
  }

  /** What a part puts into the command it stands in. */
  function PartSaid(part: Part): string {
    match part
    case Stands(c) => [c]
    case Marked(piece) => PieceText(piece)
    case Enters => ['$', '(']
    case HereString => ['<', '<'] + ['<']
    case Heredoc(dash, gap, word) => ['<', '<'] + (DashText(dash) + (gap + word))
    case Slash => ['\\']
    case OpenQuote(mark, text) => [mark] + text
    case _ => ""
  }

  /** How a part is written. */
  function PartText(part: Part): string {
    match part
    case Joins => ['\\', '\n']
    case Comment(text) => ['#'] + text
    case Ends(sep) => SeparatorText(sep)
    case LineEnd(bodies) => ['\n'] + BodiesText(bodies, 0, "")
    case LastBodies(bodies, lines, last) => ['\n'] + BodiesText(bodies, 0, LinesText(lines) + last)
    case _ => PartSaid(part)
  }

  function PartsText(parts: seq<Part>): string {
    if parts == [] then "" else PartText(parts[0]) + PartsText(parts[1..])
  }

  /** The commands the parts make, `said` standing before them: each is what was put between two separators. */
  function CommandsSaid(parts: seq<Part>, said: string): seq<string> {
    if parts == [] then Trimmed(said)
    else if Separates(parts[0]) then Trimmed(said) + CommandsSaid(parts[1..], "")
    else CommandsSaid(parts[1..], said + PartSaid(parts[0]))
  }

  // ------------------------------------------------------------ where a part may stand

  /** The command so far, the substitutions and backquotes open, and the heredocs that wait for the end of the line. */
  datatype Place = Place(said: string, nested: nat, tick: bool, pending: seq<string>)

  const START_PLACE := Place("", 0, false, [])

  predicate IsOutside(place: Place) {
    place.nested == 0 && !place.tick
  }

  predicate Blank(said: string) {
    said == "" || IsWhitespace(said[|said| - 1])
  }

  /** The sign belongs to a redirection: an `&` beside an angle, or a `<` that is no heredoc. */
  predicate Redirects(said: string, c: char, ahead: string) {
    || (c == '&' && !Starts(ahead, '&') && (Starts(ahead, '>') || EndsInAngle(said)))
    || (c == '<' && !Starts(ahead, '<'))
  }

  /** A sign that separates nothing and opens nothing, outside substitutions. */
  predicate StandsOutside(said: string, c: char, ahead: string, split: Split) {
    && c != '\n' && c != ';'
    && (c == '#' ==> !Blank(said))
    && (c == '&' || c == '<' ==> Redirects(said, c, ahead))
    && (c == '|' ==> split.Pipelines? && !Starts(ahead, '|'))
  }

  /** Nothing in the text closes a double quote. */
  predicate StaysOpen(text: string)
    decreases |text|
  {
    text == "" || if text[0] == '\\' then |text| == 1 || StaysOpen(text[2..]) else text[0] != '"' && StaysOpen(text[1..])
  }

  predicate NoneEnds(lines: seq<string>, delimiter: string) {
    forall i :: 0 <= i < |lines| ==> OneLine(lines[i]) && Trim(lines[i]) != delimiter
  }

  /** The part may stand at the place, with `ahead` after it. */
  predicate Fits(part: Part, place: Place, ahead: string, split: Split) {
    match part
    case Stands(c) =>
      && c != '\\' && c != '\'' && c != '"' && !(c == '$' && Starts(ahead, '('))
      && (IsOutside(place) && c != '`' ==> StandsOutside(place.said, c, ahead, split))
    case Marked(piece) => !piece.Plain? && Sound(piece) && piece != Escaped('\n')
    case Joins => true
    case Enters => true
    case Comment(text) => IsOutside(place) && Blank(place.said) && OneLine(text) && (ahead == "" || Starts(ahead, '\n'))
    case HereString => IsOutside(place)
    case Heredoc(dash, gap, word) => IsOutside(place) && MarkEnds(dash, gap, word, ahead)
    case Ends(sep) => IsOutside(place) && !sep.Newline? && Splits(sep, split) && Apart(sep, place.said, ahead)
    case LineEnd(bodies) => IsOutside(place) && AreBodies(bodies, place.pending)
    case LastBodies(bodies, lines, last) =>
      && IsOutside(place) && ahead == "" && |bodies| < |place.pending| && AreBodies(bodies, place.pending[..|bodies|])
      && NoneEnds(lines, place.pending[|bodies|]) && OneLine(last)
    case Slash => ahead == ""
    case OpenQuote(mark, text) => ahead == "" && if mark == '"' then StaysOpen(text) else mark == '\'' && Unquoted(text)
  }

  function NestedAfter(nested: nat, c: char): nat {
    if nested == 0 then 0 else if c == '(' then nested + 1 else if c == ')' then nested - 1 else nested
  }

  /** The place after a part. */
  function Onward(place: Place, part: Part): Place {
    if part.Ends? then place.(said := "")
    else if Separates(part) then place.(said := "", pending := [])
    else
      var said := place.(said := place.said + PartSaid(part));
      match part
      case Stands(c) => said.(nested := NestedAfter(place.nested, c), tick := place.tick != (c == '`'))
      case Enters => said.(nested := place.nested + 1)
      case Heredoc(_, _, word) => said.(pending := Noted(place.pending, word))
      case _ => said
  }

  /** Every part fits where it stands. */
  predicate AllFit(parts: seq<Part>, place: Place, split: Split) {
    parts != [] ==> Fits(parts[0], place, PartsText(parts[1..]), split) && AllFit(parts[1..], Onward(place, parts[0]), split)
  }

  // ----------------------------------------------------------- each part is read whole

  function PlaceOf(r: Reading): Place {
    Place(r.current, r.nested, r.backtick, r.heredocs)
  }

  /** The reading at a place, with `ahead` still to read. */
  function At(place: Place, commands: seq<string>, ahead: string): Reading {
    Reading(ahead, place.said, commands, Bare, place.nested, place.tick, place.pending)
  }

  lemma {:induction false} StepStands(r: Reading, c: char, ahead: string, split: Split)
    requires r.quote.Bare? && r.rest == [c] + ahead && Fits(Stands(c), PlaceOf(r), ahead, split)
    ensures r.rest != ""
    ensures Step(r, split) == Inside(r, [c], ahead, NestedAfter(r.nested, c), r.backtick != (c == '`'))
  {
    TakenOne(r, c, ahead);
    assert Step(r, split) == AfterUnquoted(r, split);
    if Separable(r) {
      OutsideIsTaken(r, c, ahead, split);
    }
  }

  lemma {:induction false} OutsideIsTaken(r: Reading, c: char, ahead: string, split: Split)
    requires r.rest != "" && Separable(r) && r.rest[0] == c && (forall d :: SecondIs(r, d) <==> Starts(ahead, d))
    requires StandsOutside(r.current, c, ahead, split)
    ensures AfterUnquoted(r, split) == Taken(r, 1)
  {
    assert !(c == '#' && StartsComment(r)) && !(c == '<' && SecondIs(r, '<'));
    assert AfterUnquoted(r, split) == AfterOperator(r, split);
  }

  lemma {:induction false} StepHereString(r: Reading, ahead: string, split: Split)
    requires Calm(r) && r.rest == (['<', '<'] + ['<']) + ahead
    ensures r.rest != "" && Step(r, split) == Read(r, ['<', '<'] + ['<'], ahead)
  {
    Assoc(['<', '<'], ['<'], ahead);
    TakenTwo(r, '<', '<', ['<'] + ahead);
    var marked := Read(r, ['<', '<'], ['<'] + ahead);
    TakenOne(marked, '<', ahead);
    HeredocIsStep(r, split);
    ReadTwice(r, ['<', '<'], ['<'], ['<'] + ahead, ahead);
  }

  lemma {:induction false} BodiesThen(bodies: seq<Body>, k: nat, ahead: string)
    ensures BodiesText(bodies, k, "") + ahead == BodiesText(bodies, k, ahead)
    decreases |bodies| - k
  {
    if k < |bodies| {
      var rest := BodiesText(bodies, k + 1, "");
      BodiesThen(bodies, k + 1, ahead);
      Assoc(LinesText(bodies[k].lines), bodies[k].end + (['\n'] + rest), ahead);
      Assoc(bodies[k].end, ['\n'] + rest, ahead);
      Assoc(['\n'], rest, ahead);
    } else {
      EmptyConcat(ahead);
    }
  }

  /** A part that puts something into the command, or stands for nothing. */
  lemma {:induction false} SaidIsScanned(place: Place, commands: seq<string>, part: Part, ahead: string, split: Split)
    requires Fits(part, place, ahead, split) && !Separates(part) && !part.Slash? && !part.OpenQuote?
    ensures Scan(At(place, commands, PartText(part) + ahead), split) == Scan(At(Onward(place, part), commands, ahead), split)
  {
    var r, next := At(place, commands, PartText(part) + ahead), At(Onward(place, part), commands, ahead);
    match part {
      case Marked(piece) => ThroughMarked(r, piece, ahead, split);
      case Stands(c) => StepStands(r, c, ahead, split);
      case Joins => StepJoins(r, ahead, split);
      case Enters => StepOpensSubstitution(r, ahead, split);
      case Comment(text) =>
        Assoc(['#'], text, ahead);
        EmptyConcat(place.said);
        StepComment(r, text, ahead, split);
      case HereString => StepHereString(r, ahead, split);
      case Heredoc(dash, gap, word) => StepMark(r, dash, gap, word, ahead, split);
    }
    if !part.Marked? {
      ScanStep(r, next, split);
    }
  }

  lemma {:induction false} LineEndIsScanned(place: Place, commands: seq<string>, bodies: seq<Body>, ahead: string, split: Split)
    requires Fits(LineEnd(bodies), place, ahead, split)
    ensures Scan(At(place, commands, PartText(LineEnd(bodies)) + ahead), split)
         == Scan(At(Onward(place, LineEnd(bodies)), commands + Trimmed(place.said), ahead), split)
  {
    var rest := BodiesText(bodies, 0, ahead);
    var r := At(place, commands, ['\n'] + rest);
    Assoc(['\n'], BodiesText(bodies, 0, ""), ahead);
    BodiesThen(bodies, 0, ahead);
    BodiesAreSkipped(bodies, place.pending, 0, ahead);
    StepPastBodies(r, rest, ahead, split);
    FinishedSays(r, commands, place.said);
    ScanStep(r, Finished(r.(rest := ahead, heredocs := [])), split);
  }

  /** A body the script ends in is passed over to its end, and nothing comes after it. */
  lemma {:induction false} OpenBodyIsSkipped(lines: seq<string>, last: string, delimiter: string)
    requires NoneEnds(lines, delimiter) && OneLine(last)
    ensures PastBody(LinesText(lines) + last, delimiter) == ""
    decreases |lines|
  {
    if lines == [] {
      EmptyConcat(last);
      LineEndsThere(last, "");
    } else {
      Assoc(lines[0], ['\n'] + LinesText(lines[1..]), last);
      Assoc(['\n'], LinesText(lines[1..]), last);
      LineIsPassed(lines[0], LinesText(lines[1..]) + last, delimiter);
      assert NoneEnds(lines[1..], delimiter);
      OpenBodyIsSkipped(lines[1..], last, delimiter);
    }
  }

  lemma {:induction false} NothingIsLeft(delimiters: seq<string>, k: nat)
    ensures PastBodies("", delimiters, k) == ""
    decreases |delimiters| - k
  {
    if k < |delimiters| {
      assert PastBody("", delimiters[k]) == "";
      NothingIsLeft(delimiters, k + 1);
    }
  }

  lemma {:induction false} LastBodiesAreSkipped(bodies: seq<Body>, delimiters: seq<string>, k: nat, lines: seq<string>, last: string)
    requires k <= |bodies| < |delimiters| && AreBodies(bodies, delimiters[..|bodies|])
    requires NoneEnds(lines, delimiters[|bodies|]) && OneLine(last)
    ensures PastBodies(BodiesText(bodies, k, LinesText(lines) + last), delimiters, k) == ""
    decreases |bodies| - k
  {
    if k < |bodies| {
      assert IsBody(bodies[k], delimiters[k]);
      BodyIsSkipped(bodies[k].lines, bodies[k].end, BodiesText(bodies, k + 1, LinesText(lines) + last), delimiters[k]);
      LastBodiesAreSkipped(bodies, delimiters, k + 1, lines, last);
    } else {
      OpenBodyIsSkipped(lines, last, delimiters[k]);
      NothingIsLeft(delimiters, k + 1);
    }
  }

  lemma {:induction false} LastBodiesAreScanned(place: Place, commands: seq<string>, part: Part, split: Split)
    requires part.LastBodies? && Fits(part, place, "", split)
    ensures Scan(At(place, commands, PartText(part)), split) == commands + Trimmed(place.said)
  {
    var rest := BodiesText(part.bodies, 0, LinesText(part.lines) + part.last);
    var r := At(place, commands, ['\n'] + rest);
    LastBodiesAreSkipped(part.bodies, place.pending, 0, part.lines, part.last);
    StepPastBodies(r, rest, "", split);
    FinishedSays(r, commands, place.said);
    ScanStep(r, Finished(r.(rest := "", heredocs := [])), split);
    EmptyConcat(commands + Trimmed(place.said));
  }

  lemma {:induction false} EndsIsScanned(place: Place, commands: seq<string>, sep: Separator, ahead: string, split: Split)
    requires Fits(Ends(sep), place, ahead, split)
    ensures Scan(At(place, commands, SeparatorText(sep) + ahead), split)
         == Scan(At(place.(said := ""), commands + Trimmed(place.said), ahead), split)
  {
    var r := At(place, commands, SeparatorText(sep) + ahead);
    AtSeparator(r, sep, ahead, split);
    FinishedSays(r.(rest := ahead), commands, place.said);
  }

  /** What an open quote holds is read to the end of the script. */
  lemma {:induction false} OpenIsRead(r: Reading, text: string, split: Split)
    requires r.rest == text && ((r.quote.Single? && Unquoted(text)) || (r.quote.Double? && StaysOpen(text)))
    ensures Scan(r, split) == r.commands + Trimmed(r.current + text)
    decreases |text|
  {
    if text == "" {
      EmptyConcat(r.current);
      FinishedSays(r, r.commands, r.current);
    } else {
      var n := if r.quote.Double? && text[0] == '\\' && |text| > 1 then 2 else 1;
      assert Step(r, split) == Taken(r, n);
      ScanStep(r, Taken(r, n), split);
      OpenIsRead(Taken(r, n), text[n..], split);
      Rejoin(text, n);
      Assoc(r.current, text[..n], text[n..]);
    }
  }

  /** A script that ends in the middle of a part is read to its end. */
  lemma {:induction false} OpenIsScanned(place: Place, commands: seq<string>, part: Part, split: Split)
    requires (part.Slash? || part.OpenQuote?) && Fits(part, place, "", split)
    ensures Scan(At(place, commands, PartText(part)), split) == commands + Trimmed(place.said + PartSaid(part))
  {
    var r := At(place, commands, PartText(part));
    if part.Slash? {
      var t := Taken(r, 1);
      assert Step(r, split) == t && t.rest == "";
      ScanStep(r, t, split);
      FinishedSays(t, commands, place.said + ['\\']);
    } else {
      StepOpens(r, part.mark, part.text, split);
      var t := Read(r, [part.mark], part.text).(quote := if part.mark == '\'' then Single else Double);
      ScanStep(r, t, split);
      OpenIsRead(t, part.text, split);
      Assoc(place.said, [part.mark], part.text);
    }
  }

  lemma {:induction false} PartIsWritten(part: Part)
    requires part.Marked? ==> !part.piece.Plain?
    ensures PartText(part) != ""
  {
  }

  lemma {:induction false} NothingFollows(parts: seq<Part>, place: Place, split: Split)
    requires AllFit(parts, place, split) && PartsText(parts) == ""
    ensures parts == []
  {
    if parts != [] {
      PartIsWritten(parts[0]);
    }
  }

  lemma {:induction false} PartsAreScanned(place: Place, commands: seq<string>, parts: seq<Part>, split: Split)
    requires AllFit(parts, place, split)
    ensures Scan(At(place, commands, PartsText(parts)), split) == commands + CommandsSaid(parts, place.said)
    decreases |parts|
  {
    if parts == [] {
      FinishedSays(At(place, commands, ""), commands, place.said);
    } else {
      var part, ahead := parts[0], PartsText(parts[1..]);
      if part.Slash? || part.OpenQuote? || part.LastBodies? {
        NothingFollows(parts[1..], Onward(place, part), split);
        EmptyConcat(PartText(part));
        EmptyConcat(Trimmed(place.said));
        if part.LastBodies? {
          LastBodiesAreScanned(place, commands, part, split);
          assert CommandsSaid([], "") == [];
        } else {
          OpenIsScanned(place, commands, part, split);
        }
      } else if Separates(part) {
        if part.Ends? {
          EndsIsScanned(place, commands, part.sep, ahead, split);
        } else {
          LineEndIsScanned(place, commands, part.bodies, ahead, split);
        }
        PartsAreScanned(Onward(place, part), commands + Trimmed(place.said), parts[1..], split);
        Assoc(commands, Trimmed(place.said), CommandsSaid(parts[1..], ""));
      } else {
        SaidIsScanned(place, commands, part, ahead, split);
        PartsAreScanned(Onward(place, part), commands, parts[1..], split);
      }
    }
  }

  /**
   A script is cut at the parts that separate and nowhere else: its commands are what its
   parts put between them, trimmed, the empty ones left out.
   */
  lemma {:induction false} ScriptIsCutAtItsSeparators(parts: seq<Part>, split: Split)
    requires AllFit(parts, START_PLACE, split)
    ensures CommandsOf(PartsText(parts), split) == CommandsSaid(parts, "")
  {
    PartsAreScanned(START_PLACE, [], parts, split);
    EmptyConcat(CommandsSaid(parts, ""));
  }

  // ---------------------------------------------------------- every script has parts

  /** A text behind an opening `'` either has the quote that closes it or stays open. */
  lemma {:induction false} SingleIsClosed(text: string) returns (inner: string, ahead: string)
    requires '\'' in text
    ensures text == inner + (['\''] + ahead) && Unquoted(inner)
    decreases |text|
  {
    HeadSplit(text);
    if text[0] == '\'' {
      inner, ahead := "", text[1..];
      EmptyConcat(['\''] + ahead);
    } else {
      var rest: string;
      rest, ahead := SingleIsClosed(text[1..]);
      inner := [text[0]] + rest;
      Assoc([text[0]], rest, ['\''] + ahead);
    }
  }

  /** And so has a text behind an opening `"`. */
  lemma {:induction false} DoubleIsClosed(text: string) returns (items: seq<Item>, ahead: string)
    requires !StaysOpen(text)
    ensures text == ItemsText(items) + (['"'] + ahead) && forall i :: 0 <= i < |items| ==> SoundItem(items[i])
    decreases |text|
  {
    if text[0] == '"' {
      items, ahead := [], text[1..];
      HeadSplit(text);
      EmptyConcat(['"'] + ahead);
    } else {
      var item := if text[0] == '\\' then Slashed(text[1]) else Sign(text[0]);
      var n := if text[0] == '\\' then 2 else 1;
      var more: seq<Item>;
      more, ahead := DoubleIsClosed(text[n..]);
      items := [item] + more;
      Rejoin(text, n);
      assert text[..n] == ItemText(item);
      assert items[0] == item && items[1..] == more;
      assert ItemsText(items) == ItemText(item) + ItemsText(more);
      Assoc(ItemText(item), ItemsText(more), ['"'] + ahead);
    }
  }

  lemma {:induction false} LineRunIsLine(text: string)
    ensures OneLine(text[..LineRun(text)]) && (LineRun(text) < |text| ==> text[LineRun(text)] == '\n')
    decreases |text|
  {
    if text != "" && text[0] != '\n' {
      LineRunIsLine(text[1..]);
      assert text[..LineRun(text)] == [text[0]] + text[1..][..LineRun(text[1..])];
    }
  }

  /** The lines before the one that ends a body; nothing when no line does and the text ends in it. */
  datatype Cut = Closed(body: Body, ahead: string) | Open(lines: seq<string>, last: string)

  ghost predicate Cuts(cut: Cut, text: string, delimiter: string) {
    match cut
    case Closed(body, ahead) => IsBody(body, delimiter) && text == LinesText(body.lines) + (body.end + (['\n'] + ahead))
    case Open(lines, last) => NoneEnds(lines, delimiter) && OneLine(last) && text == LinesText(lines) + last
  }

  lemma {:induction false} LineCuts(text: string, n: nat)
    requires n < |text| && text[n] == '\n'
    ensures text == text[..n] + (['\n'] + text[n + 1..])
  {
  }

  lemma {:induction false} BodyIsCut(text: string, delimiter: string) returns (cut: Cut)
    ensures Cuts(cut, text, delimiter)
    decreases |text|
  {
    var n := LineRun(text);
    LineRunIsLine(text);
    if n == |text| {
      assert text[..n] == text;
      cut := Open([], text);
      EmptyConcat(text);
    } else {
      var line, rest := text[..n], text[n + 1..];
      LineCuts(text, n);
      if Trim(line) == delimiter {
        cut := Closed(Body([], line), rest);
        EmptyConcat(text);
      } else {
        var later := BodyIsCut(rest, delimiter);
        cut := LineBefore(line, later, rest, delimiter);
      }
    }
  }

  lemma {:induction false} LineBefore(line: string, later: Cut, rest: string, delimiter: string) returns (cut: Cut)
    requires OneLine(line) && Trim(line) != delimiter && Cuts(later, rest, delimiter)
    ensures Cuts(cut, line + (['\n'] + rest), delimiter)
  {
    match later
    case Closed(body, ahead) =>
      var lines := [line] + body.lines;
      cut := Closed(Body(lines, body.end), ahead);
      MoreLines(line, body.lines, body.end + (['\n'] + ahead));
    case Open(lines, last) =>
      cut := Open([line] + lines, last);
      MoreLines(line, lines, last);
  }

  lemma {:induction false} MoreLines(line: string, lines: seq<string>, rest: string)
    ensures LinesText([line] + lines) + rest == line + (['\n'] + (LinesText(lines) + rest))
  {
    assert ([line] + lines)[1..] == lines;
    Assoc(line, ['\n'] + LinesText(lines), rest);
    Assoc(['\n'], LinesText(lines), rest);
  }

  /** The end of a line is a part with the bodies of its heredocs, closed or not. */
  lemma {:induction false} LineEndIsPart(text: string, pending: seq<string>, done: seq<Body>, split: Split)
    returns (bodies: seq<Body>, part: Part, ahead: string)
    requires |done| <= |pending| && AreBodies(done, pending[..|done|])
    ensures |bodies| >= |done| && bodies == done + bodies[|done|..]
    ensures part.LineEnd? || part.LastBodies?
    ensures part.bodies == bodies && Fits(part, Place("", 0, false, pending), ahead, split)
    ensures text == BodiesText(bodies, |done|, if part.LineEnd? then ahead else LinesText(part.lines) + part.last)
    decreases |pending| - |done|
  {
    var k := |done|;
    if k == |pending| {
      assert pending[..k] == pending;
      bodies, part, ahead := done, LineEnd(done), text;
      EmptyConcat(done);
      assert done[k..] == [];
    } else {
      var cut := BodyIsCut(text, pending[k]);
      if cut.Open? {
        bodies, part, ahead := done, LastBodies(done, cut.lines, cut.last), "";
        EmptyConcat(done);
        assert done[k..] == [];
      } else {
        var more := done + [cut.body];
        assert pending[..k + 1] == pending[..k] + [pending[k]];
        bodies, part, ahead := LineEndIsPart(cut.ahead, pending, more, split);
        assert bodies[k] == cut.body;
        assert bodies == done + bodies[k..];
      }
    }
  }

  lemma {:induction false} RunsAre(text: string) returns (gap: string, word: string, ahead: string)
    ensures text == gap + (word + ahead) && AllSpaces(gap) && IsWord(word) && EndsWord(ahead)
    ensures word == "" ==> !Starts(ahead, ' ') && !Starts(ahead, '\t')
  {
    var n := SpaceRun(text);
    SpaceRunEnds(text);
    var rest := text[n..];
    var m := DelimiterRun(rest);
    DelimiterRunEnds(rest);
    gap, word, ahead := text[..n], rest[..m], rest[m..];
    Rejoin(text, n);
    Rejoin(rest, m);
  }

  lemma {:induction false} SpaceRunEnds(text: string)
    ensures AllSpaces(text[..SpaceRun(text)]) && (SpaceRun(text) < |text| ==> !IsSpaceOrTab(text[SpaceRun(text)]))
    decreases |text|
  {
    if text != "" && IsSpaceOrTab(text[0]) {
      SpaceRunEnds(text[1..]);
      assert text[..SpaceRun(text)] == [text[0]] + text[1..][..SpaceRun(text[1..])];
    }
  }

  lemma {:induction false} DelimiterRunEnds(text: string)
    ensures IsWord(text[..DelimiterRun(text)]) && EndsWord(text[DelimiterRun(text)..])
    decreases |text|
  {
    if text != "" && !EndsDelimiter(text[0]) {
      DelimiterRunEnds(text[1..]);
      assert text[..DelimiterRun(text)] == [text[0]] + text[1..][..DelimiterRun(text[1..])];
      assert text[DelimiterRun(text)..] == text[1..][DelimiterRun(text[1..])..];
    }
  }

  lemma {:induction false} MarkIs(text: string, dash: bool) returns (gap: string, word: string, ahead: string)
    requires !dash ==> !Starts(text, '-') && !Starts(text, '<')
    ensures text == gap + (word + ahead) && MarkEnds(dash, gap, word, ahead)
  {
    gap, word, ahead := RunsAre(text);
    if gap == "" {
      EmptyConcat(word + ahead);
      WordStarts(word, ahead);
    }
  }

  /** What a `<<` starts is a here-string or a heredoc. */
  lemma {:induction false} HereIsPart(rest: string, place: Place, split: Split) returns (part: Part, ahead: string)
    requires IsOutside(place)
    ensures PartText(part) + ahead == ['<', '<'] + rest && Fits(part, place, ahead, split)
  {
    if Starts(rest, '<') {
      part, ahead := HereString, rest[1..];
      HeadSplit(rest);
      Assoc(['<', '<'], ['<'], ahead);
    } else {
      var dash := Starts(rest, '-');
      var gap, word: string;
      gap, word, ahead := MarkIs(if dash then rest[1..] else rest, dash);
      part := Heredoc(dash, gap, word);
      DashSplits(rest, dash, gap + (word + ahead));
      MarkRegroups(DashText(dash), gap, word, ahead);
    }
  }

  lemma {:induction false} DashSplits(rest: string, dash: bool, marked: string)
    requires dash == Starts(rest, '-') && marked == (if dash then rest[1..] else rest)
    ensures rest == DashText(dash) + marked
  {
    if dash {
      HeadSplit(rest);
    } else {
      EmptyConcat(rest);
    }
  }

  /** What a separating sign starts, a newline apart. */
  lemma {:induction false} SeparatorIsPart(text: string, place: Place, split: Split) returns (part: Part, ahead: string)
    requires IsOutside(place) && text != "" && (text[0] == ';' || text[0] == '&' || text[0] == '|')
    ensures PartText(part) + ahead == text && Fits(part, place, ahead, split)
  {
    var c, rest := text[0], text[1..];
    HeadSplit(text);
    var twice := Starts(rest, c);
    if c == ';' {
      part, ahead := Ends(Semicolon), rest;
    } else if twice || (c == '|' && split.Commands? && Starts(rest, '&')) {
      part, ahead := Ends(if c == '&' then And else if twice then Or else PipeBoth), rest[1..];
      HeadSplit(rest);
      Assoc([c], [rest[0]], ahead);
      assert [c] + [rest[0]] == PartText(part);
    } else if c == '|' {
      part, ahead := if split.Commands? then Ends(Pipe) else Stands(c), rest;
    } else {
      part, ahead := if Redirects(place.said, c, rest) then Stands(c) else Ends(Background), rest;
    }
  }

  lemma {:induction false} QuoteIsPart(text: string, place: Place, split: Split) returns (part: Part, ahead: string)
    requires text != "" && (text[0] == '\'' || text[0] == '"')
    ensures PartText(part) + ahead == text && Fits(part, place, ahead, split)
  {
    var rest := text[1..];
    HeadSplit(text);
    if if text[0] == '"' then StaysOpen(rest) else '\'' !in rest {
      part, ahead := OpenQuote(text[0], rest), "";
      EmptyConcat(text);
    } else if text[0] == '"' {
      var items: seq<Item>;
      items, ahead := DoubleIsClosed(rest);
      part := Marked(DoubleQuoted(items));
      Enclosed('"', ItemsText(items), ahead);
    } else {
      var inner: string;
      inner, ahead := SingleIsClosed(rest);
      part := Marked(SingleQuoted(inner));
      Enclosed('\'', inner, ahead);
    }
  }

  lemma {:induction false} SlashIsPart(text: string, place: Place, split: Split) returns (part: Part, ahead: string)
    requires Starts(text, '\\')
    ensures PartText(part) + ahead == text && Fits(part, place, ahead, split)
  {
    if |text| == 1 {
      part, ahead := Slash, "";
      EmptyConcat(text);
    } else {
      part, ahead := if text[1] == '\n' then Joins else Marked(Escaped(text[1])), text[2..];
      Rejoin(text, 2);
      assert text[..2] == ['\\', text[1]];
    }
  }

  lemma {:induction false} NewlineIsPart(text: string, place: Place, split: Split) returns (part: Part, ahead: string)
    requires IsOutside(place) && Starts(text, '\n')
    ensures PartText(part) + ahead == text && Fits(part, place, ahead, split)
  {
    var bodies: seq<Body>;
    HeadSplit(text);
    assert AreBodies([], place.pending[..0]);
    bodies, part, ahead := LineEndIsPart(text[1..], place.pending, [], split);
    if part.LineEnd? {
      BodiesThen(bodies, 0, ahead);
      Assoc(['\n'], BodiesText(bodies, 0, ""), ahead);
    } else {
      EmptyConcat(text);
    }
  }

  lemma {:induction false} FirstPart(text: string, place: Place, split: Split) returns (part: Part, ahead: string)
    requires text != ""
    ensures PartText(part) + ahead == text && Fits(part, place, ahead, split)
  {
    var c, rest := text[0], text[1..];
    HeadSplit(text);
    if c == '\\' {
      part, ahead := SlashIsPart(text, place, split);
    } else if c == '\'' || c == '"' {
      part, ahead := QuoteIsPart(text, place, split);
    } else if c == '$' && Starts(rest, '(') {
      part, ahead := Enters, rest[1..];
      HeadSplit(rest);
      Assoc(['$'], ['('], ahead);
      assert ['$'] + ['('] == ['$', '('];
    } else if !IsOutside(place) || c == '`' {
      part, ahead := Stands(c), rest;
    } else if c == '\n' {
      part, ahead := NewlineIsPart(text, place, split);
    } else if c == '#' && Blank(place.said) {
      var n := LineRun(rest);
      LineRunIsLine(rest);
      part, ahead := Comment(rest[..n]), rest[n..];
      Rejoin(rest, n);
      Assoc(['#'], rest[..n], rest[n..]);
    } else if c == '<' && Starts(rest, '<') {
      HeadSplit(rest);
      Assoc(['<'], ['<'], rest[1..]);
      assert ['<'] + ['<'] == ['<', '<'];
      part, ahead := HereIsPart(rest[1..], place, split);
    } else if c == ';' || c == '&' || c == '|' {
      part, ahead := SeparatorIsPart(text, place, split);
    } else {
      part, ahead := Stands(c), rest;
    }
  }

  lemma {:induction false} PartsFrom(text: string, place: Place, split: Split) returns (parts: seq<Part>)
    ensures PartsText(parts) == text && AllFit(parts, place, split)
    decreases |text|
  {
    if text == "" {
      parts := [];
    } else {
      var part, ahead := FirstPart(text, place, split);
      PartIsWritten(part);
      var rest := PartsFrom(ahead, Onward(place, part), split);
      parts := [part] + rest;
      assert parts[1..] == rest;
    }
  }

  /** And every script, whatever it holds, is such parts. */
  lemma {:induction false} EveryScriptHasParts(script: string, split: Split)
    ensures exists parts :: AllFit(parts, START_PLACE, split) && PartsText(parts) == script
                            && CommandsOf(script, split) == CommandsSaid(parts, "")
  {
    var parts := PartsFrom(script, START_PLACE, split);
    ScriptIsCutAtItsSeparators(parts, split);
  }

  // ------------------------------------------------------- lines chained by separators

  /** Parts that separate nothing. */
  predicate NoneSeparates(parts: seq<Part>) {
    forall i :: 0 <= i < |parts| ==> !Separates(parts[i])
  }

  function PartsSaid(parts: seq<Part>): string {
    if parts == [] then "" else PartSaid(parts[0]) + PartsSaid(parts[1..])
  }

  /** Every part fits where it stands, the text `ahead` after them all. */
  predicate AllFitBefore(parts: seq<Part>, place: Place, ahead: string, split: Split) {
    parts != [] ==>
      Fits(parts[0], place, PartsText(parts[1..]) + ahead, split) && AllFitBefore(parts[1..], Onward(place, parts[0]), ahead, split)
  }

  function OnwardAll(place: Place, parts: seq<Part>): Place
    decreases |parts|
  {
    if parts == [] then place else OnwardAll(Onward(place, parts[0]), parts[1..])
  }

  lemma {:induction false} FitTogether(a: seq<Part>, b: seq<Part>, place: Place, split: Split)
    requires AllFitBefore(a, place, PartsText(b), split) && AllFit(b, OnwardAll(place, a), split)
    ensures AllFit(a + b, place, split) && PartsText(a + b) == PartsText(a) + PartsText(b)
    decreases |a|
  {
    if a == [] {
      EmptyConcat(b);
      EmptyConcat(PartsText(b));
    } else {
      TailOfConcat(a, b);
      FitTogether(a[1..], b, Onward(place, a[0]), split);
      Assoc(PartText(a[0]), PartsText(a[1..]), PartsText(b));
    }
  }

  lemma {:induction false} SaidTogether(a: seq<Part>, b: seq<Part>, said: string)
    requires NoneSeparates(a)
    ensures CommandsSaid(a + b, said) == CommandsSaid(b, said + PartsSaid(a))
    decreases |a|
  {
    if a == [] {
      EmptyConcat(b);
      EmptyConcat(said);
    } else {
      TailOfConcat(a, b);
      SaidTogether(a[1..], b, said + PartSaid(a[0]));
      Assoc(said, PartSaid(a[0]), PartsSaid(a[1..]));
    }
  }

  lemma {:induction false} PlaceSays(parts: seq<Part>, place: Place)
    requires NoneSeparates(parts)
    ensures OnwardAll(place, parts).said == place.said + PartsSaid(parts)
    decreases |parts|
  {
    if parts == [] {
      EmptyConcat(place.said);
    } else {
      PlaceSays(parts[1..], Onward(place, parts[0]));
      Assoc(place.said, PartSaid(parts[0]), PartsSaid(parts[1..]));
    }
  }

  /** Lines, each with the separator after it. */
  datatype Chained = Chained(line: seq<Part>, sep: Separator)

  function ChainText(chain: seq<Chained>, last: seq<Part>): string {
    if chain == [] then PartsText(last)
    else PartsText(chain[0].line) + (SeparatorText(chain[0].sep) + ChainText(chain[1..], last))
  }

  function ChainCommands(chain: seq<Chained>, last: seq<Part>): seq<string> {
    if chain == [] then Trimmed(PartsSaid(last)) else Trimmed(PartsSaid(chain[0].line)) + ChainCommands(chain[1..], last)
  }

  /** Parts that fit, separate nothing, and leave no substitution, backquote or heredoc open. */
  predicate IsLine(line: seq<Part>, ahead: string, split: Split) {
    NoneSeparates(line) && AllFitBefore(line, START_PLACE, ahead, split) && OnwardAll(START_PLACE, line) == Place(PartsSaid(line), 0, false, [])
  }

  /** Lines whose separators are no part of another mark. */
  predicate IsChain(chain: seq<Chained>, last: seq<Part>, split: Split) {
    if chain == [] then NoneSeparates(last) && AllFit(last, START_PLACE, split)
    else
      var rest := ChainText(chain[1..], last);
      && IsLine(chain[0].line, SeparatorText(chain[0].sep) + rest, split)
      && Splits(chain[0].sep, split) && Apart(chain[0].sep, PartsSaid(chain[0].line), rest)
      && IsChain(chain[1..], last, split)
  }

  function SeparatorPart(sep: Separator): Part {
    if sep.Newline? then LineEnd([]) else Ends(sep)
  }

  lemma {:induction false} ChainIsParts(chain: seq<Chained>, last: seq<Part>, split: Split) returns (parts: seq<Part>)
    requires IsChain(chain, last, split)
    ensures AllFit(parts, START_PLACE, split) && PartsText(parts) == ChainText(chain, last)
    ensures CommandsSaid(parts, "") == ChainCommands(chain, last)
    decreases |chain|
  {
    if chain == [] {
      parts := last;
      EmptyConcat(last);
      SaidTogether(last, [], "");
      EmptyConcat(PartsSaid(last));
    } else {
      var rest := ChainIsParts(chain[1..], last, split);
      parts := LineThenParts(chain[0].line, chain[0].sep, rest, split);
    }
  }

  lemma {:induction false} LineThenParts(line: seq<Part>, sep: Separator, rest: seq<Part>, split: Split) returns (parts: seq<Part>)
    requires IsLine(line, SeparatorText(sep) + PartsText(rest), split) && Splits(sep, split)
    requires Apart(sep, PartsSaid(line), PartsText(rest)) && AllFit(rest, START_PLACE, split)
    ensures AllFit(parts, START_PLACE, split) && PartsText(parts) == PartsText(line) + (SeparatorText(sep) + PartsText(rest))
    ensures CommandsSaid(parts, "") == Trimmed(PartsSaid(line)) + CommandsSaid(rest, "")
  {
    var ended := [SeparatorPart(sep)] + rest;
    assert ended[1..] == rest;
    SeparatorIsWritten(sep);
    assert AllFit(ended, OnwardAll(START_PLACE, line), split);
    FitTogether(line, ended, START_PLACE, split);
    SaidTogether(line, ended, "");
    EmptyConcat(PartsSaid(line));
    parts := line + ended;
  }

  lemma {:induction false} SeparatorIsWritten(sep: Separator)
    ensures PartText(SeparatorPart(sep)) == SeparatorText(sep) && Separates(SeparatorPart(sep))
  {
    EmptyConcat(['\n']);
  }

  /** Lines of any parts, redirections, quotes and substitutions among them, split at the separators between them and nowhere else. */
  lemma {:induction false} SeparatorsSeparate(chain: seq<Chained>, last: seq<Part>, split: Split)
    requires IsChain(chain, last, split)
    ensures CommandsOf(ChainText(chain, last), split) == ChainCommands(chain, last)
  {
    var parts := ChainIsParts(chain, last, split);
    ScriptIsCutAtItsSeparators(parts, split);
  }

  // ---------------------------------------------------------------- redirections

  /** From any reading outside quotes and substitutions, an `&` beside an angle is taken into the command. */
  lemma {:induction false} AmpersandRedirects(r: Reading, rest: string, split: Split)
    requires Calm(r) && r.rest == ['&'] + rest && !Starts(rest, '&')
    requires Starts(rest, '>') || EndsInAngle(r.current)
    ensures Scan(r, split) == Scan(Read(r, ['&'], rest), split)
  {
    StepStands(r, '&', rest, split);
    ScanStep(r, Read(r, ['&'], rest), split);
  }

  lemma {:induction false} LineIsNoAmpersand(line: seq<Spaced>)
    requires QuietLine(line)
    ensures !Starts(LineText(line), '&')
    decreases |line|
  {
    if line != [] {
      assert QuietText(line[0].gap) && QuietWord(line[0].word);
      if line[0].gap == "" {
        EmptyConcat(Text(line[0].word) + LineText(line[1..]));
        LineIsNoAmpersand(line[1..]);
        WordIsNoAmpersand(line[0].word, LineText(line[1..]));
      }
    }
  }

  lemma {:induction false} WordIsNoAmpersand(pieces: seq<Piece>, more: string)
    requires QuietWord(pieces) && !Starts(more, '&')
    ensures !Starts(Text(pieces) + more, '&')
  {
    if pieces != [] {
      assert QuietPiece(pieces[0]);
      assert PieceText(pieces[0])[0] != '&';
      assert Text(pieces)[0] == PieceText(pieces[0])[0];
    } else {
      EmptyConcat(more);
    }
  }

  /** What follows a redirection's `&` in its command is read to the end of the script. */
  lemma {:induction false} RestOfCommand(r: Reading, pieces: seq<Piece>, line: seq<Spaced>, split: Split)
    requires Calm(r) && QuietWord(pieces) && QuietLine(line) && r.rest == Text(pieces) + LineText(line)
    ensures Scan(r, split) == r.commands + Trimmed(r.current + (Text(pieces) + LineText(line)))
  {
    var worded := Read(r, Text(pieces), LineText(line));
    ThroughWord(r, pieces, LineText(line), split);
    EmptyConcat(LineText(line));
    ThroughLine(worded, line, "", split);
    ReadTwice(r, Text(pieces), LineText(line), LineText(line), "");
    FinishedSays(Read(r, Text(pieces) + LineText(line), ""), r.commands, r.current + (Text(pieces) + LineText(line)));
  }

  lemma {:induction false} StreamIsOneCommand(head: seq<Spaced>, angle: char, stream: seq<Piece>, tail: seq<Spaced>, split: Split)
    requires QuietLine(head) && QuietWord(stream) && QuietLine(tail) && (angle == '>' || angle == '<')
    ensures var script := LineText(head) + ([angle] + (['&'] + (Text(stream) + LineText(tail))));
            CommandsOf(script, split) == Trimmed(script)
  {
    var text, ahead := LineText(head), Text(stream) + LineText(tail);
    var start := Start(text + ([angle] + (['&'] + ahead)));
    var headed := Read(start, text, [angle] + (['&'] + ahead));
    var angled := Read(headed, [angle], ['&'] + ahead);
    EmptyConcat(text);
    ThroughLine(start, head, [angle] + (['&'] + ahead), split);
    Uncons('&', ahead);
    StepStands(headed, angle, ['&'] + ahead, split);
    ScanStep(headed, angled, split);
    LineIsNoAmpersand(tail);
    WordIsNoAmpersand(stream, LineText(tail));
    AmpersandRedirects(angled, ahead, split);
    var joined := Read(angled, ['&'], ahead);
    RestOfCommand(joined, stream, tail, split);
    Regrouped(text, [angle], ['&'], ahead);
    Assoc(text + [angle], ['&'], ahead);
    EmptyConcat(Trimmed(text + ([angle] + (['&'] + ahead))));
  }

  lemma {:induction false} BothIsOneCommand(head: seq<Spaced>, tail: seq<Spaced>, split: Split)
    requires QuietLine(head) && QuietLine(tail)
    ensures var script := LineText(head) + (['&'] + (['>'] + LineText(tail)));
            CommandsOf(script, split) == Trimmed(script)
  {
    var text, ahead := LineText(head), LineText(tail);
    var start := Start(text + (['&'] + (['>'] + ahead)));
    var headed := Read(start, text, ['&'] + (['>'] + ahead));
    var marked := Read(headed, ['&'], ['>'] + ahead);
    EmptyConcat(text);
    ThroughLine(start, head, ['&'] + (['>'] + ahead), split);
    Uncons('>', ahead);
    AmpersandRedirects(headed, ['>'] + ahead, split);
    StepStands(marked, '>', ahead, split);
    var angled := Read(marked, ['>'], ahead);
    ScanStep(marked, angled, split);
    EmptyConcat(ahead);
    RestOfCommand(angled, [], tail, split);
    Regrouped(text, ['&'], ['>'], ahead);
    Assoc(text + ['&'], ['>'], ahead);
    EmptyConcat(Trimmed(text + (['&'] + (['>'] + ahead))));
  }

  // ------------------------------------------------- lines with redirections, chained

  /** A mark with an `&` in it, and the quiet text after it. */
  datatype Redirection = Redirection(first: char, second: char, after: seq<Spaced>)

  /** A quiet line with redirections in it. */
  datatype Redirected = Redirected(head: seq<Spaced>, marks: seq<Redirection>)

  predicate IsRedirection(m: Redirection) {
    && ((m.first == '&' && m.second == '>') || ((m.first == '>' || m.first == '<') && m.second == '&'))
    && QuietLine(m.after) && LineText(m.after) != ""
  }

  predicate IsRedirected(line: Redirected) {
    QuietLine(line.head) && forall i :: 0 <= i < |line.marks| ==> IsRedirection(line.marks[i])
  }

  function MarksText(marks: seq<Redirection>): string {
    if marks == [] then "" else [marks[0].first] + ([marks[0].second] + (LineText(marks[0].after) + MarksText(marks[1..])))
  }

  function RedirectedText(line: Redirected): string {
    LineText(line.head) + MarksText(line.marks)
  }

  /** Parts that separate nothing, say what they are written as, and fit outside with `ahead` after them. */
  predicate Steady(parts: seq<Part>, text: string, place: Place, ahead: string, split: Split) {
    && NoneSeparates(parts) && PartsText(parts) == text && PartsSaid(parts) == text
    && AllFitBefore(parts, place, ahead, split)
    && OnwardAll(place, parts) == place.(said := place.said + text)
  }

  lemma {:induction false} WrittenTogether(a: seq<Part>, b: seq<Part>)
    ensures PartsText(a + b) == PartsText(a) + PartsText(b) && PartsSaid(a + b) == PartsSaid(a) + PartsSaid(b)
    decreases |a|
  {
    if a == [] {
      EmptyConcat(b);
      EmptyConcat(PartsText(b));
      EmptyConcat(PartsSaid(b));
    } else {
      TailOfConcat(a, b);
      WrittenTogether(a[1..], b);
      Assoc(PartText(a[0]), PartsText(a[1..]), PartsText(b));
      Assoc(PartSaid(a[0]), PartsSaid(a[1..]), PartsSaid(b));
    }
  }

  lemma {:induction false} FitOneAfterTheOther(a: seq<Part>, b: seq<Part>, place: Place, ahead: string, split: Split)
    requires AllFitBefore(a, place, PartsText(b) + ahead, split) && AllFitBefore(b, OnwardAll(place, a), ahead, split)
    ensures AllFitBefore(a + b, place, ahead, split) && OnwardAll(place, a + b) == OnwardAll(OnwardAll(place, a), b)
    decreases |a|
  {
    if a == [] {
      EmptyConcat(b);
    } else {
      TailOfConcat(a, b);
      FitOneAfterTheOther(a[1..], b, Onward(place, a[0]), ahead, split);
      WrittenTogether(a[1..], b);
      Assoc(PartsText(a[1..]), PartsText(b), ahead);
    }
  }

  lemma {:induction false} SteadyTogether(
    a: seq<Part>, x: string, b: seq<Part>, y: string, place: Place, ahead: string, split: Split)
    requires Steady(a, x, place, y + ahead, split) && Steady(b, y, place.(said := place.said + x), ahead, split)
    ensures Steady(a + b, x + y, place, ahead, split)
  {
    WrittenTogether(a, b);
    FitOneAfterTheOther(a, b, place, ahead, split);
    Assoc(place.said, x, y);
  }

  lemma {:induction false} SteadyNothing(place: Place, ahead: string, split: Split)
    ensures Steady([], "", place, ahead, split)
  {
    EmptyConcat(place.said);
  }

  lemma {:induction false} SteadyOne(part: Part, place: Place, ahead: string, split: Split)
    requires Fits(part, place, ahead, split) && !Separates(part) && PartText(part) == PartSaid(part)
    requires Onward(place, part) == place.(said := place.said + PartSaid(part))
    ensures Steady([part], PartText(part), place, ahead, split)
  {
    assert [part][1..] == [];
    EmptyConcat(ahead);
    EmptyConcat(PartText(part));
  }

  /** Quiet text as parts, sign by sign. */
  lemma {:induction false} SignsAreSteady(text: string, place: Place, ahead: string, split: Split) returns (parts: seq<Part>)
    requires IsOutside(place) && QuietText(text)
    ensures Steady(parts, text, place, ahead, split)
    decreases |text|
  {
    if text == "" {
      parts := [];
      SteadyNothing(place, ahead, split);
    } else {
      var rest := SignsAreSteady(text[1..], place.(said := place.said + [text[0]]), ahead, split);
      SteadyOne(Stands(text[0]), place, text[1..] + ahead, split);
      SteadyTogether([Stands(text[0])], [text[0]], rest, text[1..], place, ahead, split);
      parts := [Stands(text[0])] + rest;
      HeadSplit(text);
    }
  }

  lemma {:induction false} WordIsSteady(pieces: seq<Piece>, place: Place, ahead: string, split: Split) returns (parts: seq<Part>)
    requires IsOutside(place) && QuietWord(pieces)
    ensures Steady(parts, Text(pieces), place, ahead, split)
    decreases |pieces|
  {
    if pieces == [] {
      parts := [];
      SteadyNothing(place, ahead, split);
    } else {
      var text, more := PieceText(pieces[0]), Text(pieces[1..]);
      var part := if pieces[0].Plain? then Stands(pieces[0].c) else Marked(pieces[0]);
      var rest := WordIsSteady(pieces[1..], place.(said := place.said + text), ahead, split);
      assert QuietPiece(pieces[0]);
      SteadyOne(part, place, more + ahead, split);
      SteadyTogether([part], text, rest, more, place, ahead, split);
      parts := [part] + rest;
    }
  }

  lemma {:induction false} LineIsSteady(line: seq<Spaced>, place: Place, ahead: string, split: Split) returns (parts: seq<Part>)
    requires IsOutside(place) && QuietLine(line)
    ensures Steady(parts, LineText(line), place, ahead, split)
    decreases |line|
  {
    if line == [] {
      parts := [];
      SteadyNothing(place, ahead, split);
    } else {
      var gap, word, more := line[0].gap, Text(line[0].word), LineText(line[1..]);
      var spaced := place.(said := place.said + gap);
      assert QuietText(line[0].gap) && QuietWord(line[0].word);
      var a := SignsAreSteady(gap, place, (word + more) + ahead, split);
      var b := WordIsSteady(line[0].word, spaced, more + ahead, split);
      var c := LineIsSteady(line[1..], spaced.(said := spaced.said + word), ahead, split);
      SteadyTogether(b, word, c, more, spaced, ahead, split);
      SteadyTogether(a, gap, b + c, word + more, place, ahead, split);
      parts := a + (b + c);
    }
  }

  lemma {:induction false} RedirectionFits(m: Redirection, place: Place, more: string, split: Split)
    requires IsOutside(place) && IsRedirection(m)
    ensures Fits(Stands(m.first), place, [m.second] + (LineText(m.after) + more), split)
    ensures Fits(Stands(m.second), place.(said := place.said + [m.first]), LineText(m.after) + more, split)
  {
    var after := LineText(m.after);
    LineIsNoAmpersand(m.after);
    assert (after + more)[0] == after[0];
    assert EndsInAngle(place.said + [m.first]) <==> m.first != '&';
  }

  lemma {:induction false} MarksAreSteady(marks: seq<Redirection>, place: Place, ahead: string, split: Split) returns (parts: seq<Part>)
    requires IsOutside(place) && forall i :: 0 <= i < |marks| ==> IsRedirection(marks[i])
    ensures Steady(parts, MarksText(marks), place, ahead, split)
    decreases |marks|
  {
    if marks == [] {
      parts := [];
      SteadyNothing(place, ahead, split);
    } else {
      var m, after, more := marks[0], LineText(marks[0].after), MarksText(marks[1..]);
      var second := place.(said := place.said + [m.first]);
      var third := second.(said := second.said + [m.second]);
      assert IsRedirection(m);
      RedirectionFits(m, place, more + ahead, split);
      Assoc(after, more, ahead);
      Assoc([m.second], after + more, ahead);
      SteadyOne(Stands(m.first), place, ([m.second] + (after + more)) + ahead, split);
      SteadyOne(Stands(m.second), second, (after + more) + ahead, split);
      var c := LineIsSteady(m.after, third, more + ahead, split);
      var d := MarksAreSteady(marks[1..], third.(said := third.said + after), ahead, split);
      SteadyTogether(c, after, d, more, third, ahead, split);
      SteadyTogether([Stands(m.second)], [m.second], c + d, after + more, second, ahead, split);
      SteadyTogether([Stands(m.first)], [m.first], [Stands(m.second)] + (c + d), [m.second] + (after + more), place, ahead, split);
      parts := [Stands(m.first)] + ([Stands(m.second)] + (c + d));
    }
  }

  lemma {:induction false} RedirectedIsSteady(line: Redirected, ahead: string, split: Split) returns (parts: seq<Part>)
    requires IsRedirected(line)
    ensures Steady(parts, RedirectedText(line), START_PLACE, ahead, split)
  {
    var text, more := LineText(line.head), MarksText(line.marks);
    var a := LineIsSteady(line.head, START_PLACE, more + ahead, split);
    var b := MarksAreSteady(line.marks, START_PLACE.(said := START_PLACE.said + text), ahead, split);
    SteadyTogether(a, text, b, more, START_PLACE, ahead, split);
    parts := a + b;
  }

  /** Redirected lines, each with the separator after it. */
  datatype Linked = Linked(line: Redirected, sep: Separator)

  function LinkedText(links: seq<Linked>, last: Redirected): string {
    if links == [] then RedirectedText(last)
    else RedirectedText(links[0].line) + (SeparatorText(links[0].sep) + LinkedText(links[1..], last))
  }

  function LinkedCommands(links: seq<Linked>, last: Redirected): seq<string> {
    if links == [] then Trimmed(RedirectedText(last)) else Trimmed(RedirectedText(links[0].line)) + LinkedCommands(links[1..], last)
  }

  predicate AreLinked(links: seq<Linked>, last: Redirected, split: Split) {
    if links == [] then IsRedirected(last)
    else
      && IsRedirected(links[0].line) && Splits(links[0].sep, split)
      && Apart(links[0].sep, RedirectedText(links[0].line), LinkedText(links[1..], last))
      && AreLinked(links[1..], last, split)
  }

  lemma {:induction false} LinkedIsChain(links: seq<Linked>, last: Redirected, split: Split) returns (chain: seq<Chained>, end: seq<Part>)
    requires AreLinked(links, last, split)
    ensures IsChain(chain, end, split) && ChainText(chain, end) == LinkedText(links, last)
    ensures ChainCommands(chain, end) == LinkedCommands(links, last)
    decreases |links|
  {
    if links == [] {
      chain := [];
      end := RedirectedIsSteady(last, "", split);
      EmptyConcat(end);
      FitTogether(end, [], START_PLACE, split);
    } else {
      var rest: seq<Chained>;
      rest, end := LinkedIsChain(links[1..], last, split);
      var sep := links[0].sep;
      var line := RedirectedIsSteady(links[0].line, SeparatorText(sep) + ChainText(rest, end), split);
      EmptyConcat(RedirectedText(links[0].line));
      chain := [Chained(line, sep)] + rest;
      assert chain[1..] == rest;
    }
  }

  /**
   Quiet lines with any redirections in them, chained by separators, split at those
   separators and nowhere else: the `&` of a redirection separates nothing.
   */
  lemma {:induction false} RedirectionsSeparateNothing(links: seq<Linked>, last: Redirected, split: Split)
    requires AreLinked(links, last, split)
    ensures CommandsOf(LinkedText(links, last), split) == LinkedCommands(links, last)
  {
    var chain, end := LinkedIsChain(links, last, split);
    SeparatorsSeparate(chain, end, split);
  }
}
