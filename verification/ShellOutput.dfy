/**
 Redirections of a command's output: the word after a bare `>` or `>>`, where no digits
 before it number another stream and no `&` after it goes to one.
 */
module ShellOutput {
  import opened Wrappers
  import opened Sequences
  import opened ShellWords

  /** What follows the last white space. */
  function LastSegment(before: string): string {
    if before == "" || IsWhitespace(before[|before| - 1]) then ""
    else LastSegment(before[..|before| - 1]) + [before[|before| - 1]]
  }

  predicate AllDigits(s: string) {
    forall i :: 0 <= i < |s| ==> '0' <= s[i] <= '9'
  }

  /** The number before a mark, where nothing but digits stands since the last white space. */
  function StreamBefore(before: string): Option<string> {
    var word := LastSegment(before);
    if word != "" && AllDigits(word) then Some(word) else None
  }

  /** Where the `>` or `>>` at `at` ends. */
  function MarkEnd(command: string, at: nat): nat {
    if at + 1 < |command| && command[at + 1] == '>' then at + 2 else at + 1
  }

  predicate NamesStream(command: string, at: nat) {
    MarkEnd(command, at) < |command| && command[MarkEnd(command, at)] == '&'
  }

  predicate IsMark(sign: char, quote: Quote) {
    quote.Bare? && sign == '>'
  }

  /** Where the reader goes on after `i`, past what a `\` escapes and past a redirection. */
  function NextPlace(command: string, i: nat, quote: Quote): (j: nat)
    requires i < |command|
    ensures i < j
  {
    if IsMark(command[i], quote) then
      if NamesStream(command, i) then MarkEnd(command, i) + 1 else MarkEnd(command, i)
    else if !quote.Single? && command[i] == '\\' then i + 2
    else i + 1
  }

  /** The redirections from `i` on, `quote` open, each by its place. */
  function MarksFrom(command: string, i: nat, quote: Quote): seq<nat>
    decreases |command| - i
  {
    if i >= |command| then []
    else if IsMark(command[i], quote) then [i] + MarksFrom(command, NextPlace(command, i, quote), quote)
    else MarksFrom(command, NextPlace(command, i, quote), NextQuote(command[i], quote))
  }

  /** The file the redirection at `at` sends the command's output to. */
  function FileAt(command: string, at: nat): seq<string> {
    if at >= |command| || MarkEnd(command, at) > |command| || NamesStream(command, at) then [] else
      var stream := StreamBefore(command[..at]);
      var words := WordsOf(command[MarkEnd(command, at)..]);
      if (stream == None || stream == Some("1")) && words != [] then [words[0]] else []
  }

  function FilesAt(command: string, marks: seq<nat>): seq<string> {
    if marks == [] then [] else FileAt(command, marks[0]) + FilesAt(command, marks[1..])
  }

  function FilesOf(command: string): seq<string> {
    FilesAt(command, MarksFrom(command, 0, Bare))
  }

  lemma {:induction false} FilesAtMore(command: string, at: nat, marks: seq<nat>)
    ensures FilesAt(command, [at] + marks) == FileAt(command, at) + FilesAt(command, marks)
  {
    assert ([at] + marks)[1..] == marks;
  }

  /** Reads the redirection at `at`: the file it names, and where the reader goes on. */
  method ReadMark(command: string, at: nat) returns (file: seq<string>, i: nat)
    requires at < |command| && command[at] == '>'
    ensures file == FileAt(command, at) && i == NextPlace(command, at, Bare)
  {
    file := [];
    i := at + 1;
    if i < |command| && command[i] == '>' {
      i := i + 1;
    }
    if i < |command| && command[i] == '&' {
      i := i + 1;
    } else {
      var stream := StreamBefore(command[..at]);
      if stream == None || stream == Some("1") {
        var words := Words(command[i..]);
        file := if words == [] then [] else [words[0]];
      }
    }
  }

  /** Reads every redirection in one pass. */
  method OutputFiles(command: string) returns (files: seq<string>)
    ensures files == FilesOf(command)
  {
    files := [];
    var quote := Bare;
    var i := 0;
    EmptyConcat(FilesOf(command));
    while i < |command|
      invariant FilesOf(command) == files + FilesAt(command, MarksFrom(command, i, quote))
    {
      var at, sign := i, command[i];
      i := i + 1;
      if quote.Bare? && sign == '\'' {
        quote := Single;
      } else if quote.Bare? && sign == '"' {
        quote := Double;
      } else if (quote.Single? && sign == '\'') || (quote.Double? && sign == '"') {
        quote := Bare;
      } else if !quote.Single? && sign == '\\' {
        i := i + 1;
      } else if quote.Bare? && sign == '>' {
        var file: seq<string>;
        file, i := ReadMark(command, at);
        FilesAtMore(command, at, MarksFrom(command, i, Bare));
        Assoc(files, file, FilesAt(command, MarksFrom(command, i, Bare)));
        files := files + file;
      }
    }
    EmptyConcat(files);
  }

  // --------------------------------------------------- what is quoted names no file

  /** A piece with no redirection in it. */
  predicate Silent(piece: Piece) {
    Sound(piece) && (piece.Plain? ==> piece.c != '>')
  }

  predicate SilentWord(pieces: seq<Piece>) {
    forall i :: 0 <= i < |pieces| ==> Silent(pieces[i])
  }

  predicate SilentLine(line: seq<Spaced>) {
    forall i :: 0 <= i < |line| ==> AllBlank(line[i].gap) && SilentWord(line[i].word)
  }

  ghost predicate Reads(command: string, i: nat, text: string) {
    i + |text| <= |command| && forall k :: 0 <= k < |text| ==> command[i + k] == text[k]
  }

  predicate PassedOver(c: char) {
    c != '\'' && c != '"' && c != '\\' && c != '>'
  }

  lemma {:induction false} ReadsParts(command: string, i: nat, a: string, b: string)
    requires Reads(command, i, a + b)
    ensures Reads(command, i, a) && Reads(command, i + |a|, b)
  {
    assert forall k :: 0 <= k < |a| ==> (a + b)[k] == a[k];
    assert forall k :: 0 <= k < |b| ==> (a + b)[|a| + k] == b[k];
    forall k | 0 <= k < |b| ensures command[i + |a| + k] == b[k] {
      assert command[i + (|a| + k)] == (a + b)[|a| + k];
    }
  }

  lemma {:induction false} ReadsAt(command: string, i: nat, text: string, k: nat)
    requires Reads(command, i, text) && k < |text|
    ensures command[i + k] == text[k]
  {
  }

  lemma {:induction false} PassesBare(command: string, i: nat, j: nat)
    requires i <= j <= |command| && forall k :: i <= k < j ==> PassedOver(command[k])
    ensures MarksFrom(command, i, Bare) == MarksFrom(command, j, Bare)
    decreases j - i
  {
    if i < j {
      assert PassedOver(command[i]);
      PassesBare(command, i + 1, j);
    }
  }

  lemma {:induction false} PassesSingle(command: string, i: nat, j: nat)
    requires i <= j <= |command| && forall k :: i <= k < j ==> command[k] != '\''
    ensures MarksFrom(command, i, Single) == MarksFrom(command, j, Single)
    decreases j - i
  {
    if i < j {
      PassesSingle(command, i + 1, j);
    }
  }

  lemma {:induction false} PassesDouble(command: string, i: nat, items: seq<Item>)
    requires Reads(command, i, ItemsText(items)) && forall k :: 0 <= k < |items| ==> SoundItem(items[k])
    ensures MarksFrom(command, i, Double) == MarksFrom(command, i + |ItemsText(items)|, Double)
    decreases |items|
  {
    if items != [] {
      var c := items[0].c;
      var first := if items[0].Sign? then [c] else ['\\', c];
      assert SoundItem(items[0]);
      ReadsParts(command, i, first, ItemsText(items[1..]));
      ReadsAt(command, i, first, 0);
      PassesDouble(command, i + |first|, items[1..]);
    }
  }

  lemma {:induction false} PassesPiece(command: string, i: nat, piece: Piece)
    requires Silent(piece) && Reads(command, i, PieceText(piece))
    ensures MarksFrom(command, i, Bare) == MarksFrom(command, i + |PieceText(piece)|, Bare)
  {
    ReadsAt(command, i, PieceText(piece), 0);
    match piece
    case Plain(c) =>
    case Escaped(c) =>
    case SingleQuoted(text) =>
      PassesQuotedText(command, i, text);
    case DoubleQuoted(items) =>
      ReadsEnclosed(command, i, '"', ItemsText(items));
      PassesDouble(command, i + 1, items);
  }

  lemma {:induction false} ReadsEnclosed(command: string, i: nat, mark: char, text: string)
    requires Reads(command, i, [mark] + text + [mark])
    ensures i + |text| + 2 <= |command| && command[i] == mark && command[i + 1 + |text|] == mark && Reads(command, i + 1, text)
  {
    ReadsParts(command, i, [mark] + text, [mark]);
    ReadsAt(command, i + 1 + |text|, [mark], 0);
    ReadsParts(command, i, [mark], text);
    ReadsAt(command, i, [mark], 0);
  }

  lemma {:induction false} PassesQuotedText(command: string, i: nat, text: string)
    requires Reads(command, i, PieceText(SingleQuoted(text))) && Sound(SingleQuoted(text))
    ensures MarksFrom(command, i, Bare) == MarksFrom(command, i + |text| + 2, Bare)
  {
    ReadsEnclosed(command, i, '\'', text);
    forall k | i + 1 <= k < i + 1 + |text| ensures command[k] != '\'' {
      ReadsAt(command, i + 1, text, k - i - 1);
    }
    PassesSingle(command, i + 1, i + 1 + |text|);
  }

  lemma {:induction false} PiecesParts(command: string, i: nat, pieces: seq<Piece>) returns (j: nat)
    requires SilentWord(pieces) && pieces != [] && Reads(command, i, Text(pieces))
    ensures Silent(pieces[0]) && Reads(command, i, PieceText(pieces[0])) && j == i + |PieceText(pieces[0])|
    ensures SilentWord(pieces[1..]) && Reads(command, j, Text(pieces[1..])) && j + |Text(pieces[1..])| == i + |Text(pieces)|
  {
    SilentTail(pieces);
    j := ReadsPair(command, i, PieceText(pieces[0]), Text(pieces[1..]), Text(pieces));
  }

  lemma {:induction false} SilentTail(pieces: seq<Piece>)
    requires SilentWord(pieces) && pieces != []
    ensures Silent(pieces[0]) && SilentWord(pieces[1..]) && Text(pieces) == PieceText(pieces[0]) + Text(pieces[1..])
  {
  }

  lemma {:induction false} ReadsPair(command: string, i: nat, a: string, b: string, text: string) returns (j: nat)
    requires Reads(command, i, text) && text == a + b
    ensures Reads(command, i, a) && j == i + |a| && Reads(command, j, b) && j + |b| == i + |text|
  {
    ReadsParts(command, i, a, b);
    j := i + |a|;
  }

  lemma {:induction false} PassesPieces(command: string, i: nat, pieces: seq<Piece>)
    requires SilentWord(pieces) && Reads(command, i, Text(pieces))
    ensures MarksFrom(command, i, Bare) == MarksFrom(command, i + |Text(pieces)|, Bare)
    decreases |pieces|
  {
    if pieces != [] {
      var j := PiecesParts(command, i, pieces);
      PassesPiece(command, i, pieces[0]);
      PassesPieces(command, j, pieces[1..]);
    }
  }

  lemma {:induction false} PassesText(command: string, i: nat, text: string)
    requires Reads(command, i, text) && forall k :: 0 <= k < |text| ==> PassedOver(text[k])
    ensures MarksFrom(command, i, Bare) == MarksFrom(command, i + |text|, Bare)
  {
    forall k | i <= k < i + |text| ensures PassedOver(command[k]) {
      ReadsAt(command, i, text, k - i);
    }
    PassesBare(command, i, i + |text|);
  }

  lemma {:induction false} BlankIsPassedOver(gap: string)
    requires AllBlank(gap)
    ensures forall k :: 0 <= k < |gap| ==> PassedOver(gap[k])
  {
    assert forall k :: 0 <= k < |gap| ==> IsBlank(gap[k]);
  }

  lemma {:induction false} PassesSpaced(command: string, i: nat, gap: string, word: seq<Piece>)
    requires AllBlank(gap) && SilentWord(word) && Reads(command, i, gap + Text(word))
    ensures MarksFrom(command, i, Bare) == MarksFrom(command, i + |gap| + |Text(word)|, Bare)
  {
    var j := SpacedReads(command, i, gap, word);
    assert MarksFrom(command, i, Bare) == MarksFrom(command, j, Bare) by {
      PassesText(command, i, gap);
    }
    assert MarksFrom(command, j, Bare) == MarksFrom(command, j + |Text(word)|, Bare) by {
      PassesPieces(command, j, word);
    }
  }

  lemma {:induction false} SpacedReads(command: string, i: nat, gap: string, word: seq<Piece>) returns (j: nat)
    requires AllBlank(gap) && Reads(command, i, gap + Text(word))
    ensures j == i + |gap| && Reads(command, i, gap) && Reads(command, j, Text(word))
    ensures forall k :: 0 <= k < |gap| ==> PassedOver(gap[k])
  {
    ReadsParts(command, i, gap, Text(word));
    BlankIsPassedOver(gap);
    j := i + |gap|;
  }

  lemma {:induction false} LineParts(command: string, i: nat, line: seq<Spaced>) returns (j: nat)
    requires SilentLine(line) && line != [] && Reads(command, i, LineText(line))
    ensures SilentLine(line[1..]) && AllBlank(line[0].gap) && SilentWord(line[0].word)
    ensures j == i + |line[0].gap| + |Text(line[0].word)| && Reads(command, j, LineText(line[1..]))
    ensures j + |LineText(line[1..])| == i + |LineText(line)| && Reads(command, i, line[0].gap + Text(line[0].word))
  {
    Assoc(line[0].gap, Text(line[0].word), LineText(line[1..]));
    ReadsParts(command, i, line[0].gap + Text(line[0].word), LineText(line[1..]));
    j := i + |line[0].gap| + |Text(line[0].word)|;
  }

  lemma {:induction false} PassesLine(command: string, i: nat, line: seq<Spaced>)
    requires SilentLine(line) && Reads(command, i, LineText(line))
    ensures MarksFrom(command, i, Bare) == MarksFrom(command, i + |LineText(line)|, Bare)
    decreases |line|
  {
    if line != [] {
      var j := LineParts(command, i, line);
      PassesSpaced(command, i, line[0].gap, line[0].word);
      PassesLine(command, j, line[1..]);
    }
  }

  lemma {:induction false} PiecesAreSilent(part: string)
    ensures SilentWord(PiecesOf(part))
  {
    PiecesSpell(part);
    if NeedsNoQuote(part) {
      PlainSpells(part);
      forall i | 0 <= i < |part| ensures Silent(PlainPieces(part)[i]) {
        assert IsUnread(part[i]) && Sound(PiecesOf(part)[i]);
      }
    } else {
      QuotedIsInQuotes(part, "");
      forall i | 0 <= i < |PiecesOf(part)| ensures Silent(PiecesOf(part)[i]) {
        assert InQuotes(PiecesOf(part)[i]) && Sound(PiecesOf(part)[i]);
      }
    }
  }

  lemma {:induction false} PartsAreSilent(parts: seq<string>)
    ensures SilentLine(SpacedParts(parts, "")) && LineText(SpacedParts(parts, "")) == CommandLine(parts)
  {
    SpacedIsSound(parts, "");
    SpacedSpells(parts, "");
    EmptyConcat(CommandLine(parts));
    forall i | 0 <= i < |parts| ensures SilentWord(SpacedParts(parts, "")[i].word) {
      PiecesAreSilent(parts[i]);
    }
  }

  /** A command line of quoted parts sends its output to no file, whatever the parts hold. */
  lemma {:induction false} QuotedNamesNoFile(parts: seq<string>)
    ensures FilesOf(CommandLine(parts)) == []
  {
    PartsAreSilent(parts);
    SilentNamesNoFile(CommandLine(parts), SpacedParts(parts, ""));
  }

  lemma {:induction false} SilentNamesNoFile(command: string, line: seq<Spaced>)
    requires SilentLine(line) && command == LineText(line)
    ensures FilesOf(command) == []
  {
    PassesLine(command, 0, line);
  }
}
