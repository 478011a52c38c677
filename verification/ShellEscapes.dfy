/**
 The scanner looks at the last sign it took, not at whether that sign was escaped: an
 escaped angle before an `&`, or an escaped blank before a `#`, reads as a bare one. This
 says exactly when a background sign separates and when a sharp sign opens a comment.
 */
module ShellEscapes {
  import opened Sequences
  import opened ShellWords
  import opened ShellScanner
  import opened ShellLines
  import opened ShellScripts
  import opened ShellParts

  lemma {:induction false} TrimStartPasses(a: string, b: string)
    requires TrimStart(a) == ""
    ensures TrimStart(a + b) == TrimStart(b)
    decreases |a|
  {
    if a == "" {
      EmptyConcat(b);
    } else {
      TailOfConcat(a, b);
      TrimStartPasses(a[1..], b);
    }
  }

  lemma {:induction false} TrimStartStays(a: string, b: string)
    requires TrimStart(a) != ""
    ensures TrimStart(a + b) == TrimStart(a) + b
    decreases |a|
  {
    if IsWhitespace(a[0]) {
      TailOfConcat(a, b);
      TrimStartStays(a[1..], b);
    }
  }

  lemma {:induction false} TrimEndIsNoLonger(s: string)
    ensures |TrimEnd(s)| <= |s|
    decreases |s|
  {
    if s != "" && IsWhitespace(s[|s| - 1]) {
      TrimEndIsNoLonger(s[..|s| - 1]);
    }
  }

  /** A text with a sign behind it that is no white space trims to a longer one. */
  lemma {:induction false} TrimSeesInk(a: string, c: char, b: string)
    requires !IsWhitespace(c)
    ensures |Trim(a + ([c] + b))| > |Trim(a)|
  {
    TrimEndIsNoLonger(TrimStart(a));
    if TrimStart(a) == "" {
      TrimStartPasses(a, [c] + b);
      EmptyConcat([c] + b);
      TrimEndLonger("", c, b);
    } else {
      TrimStartStays(a, [c] + b);
      TrimEndLonger(TrimStart(a), c, b);
    }
  }

  lemma {:induction false} ThroughRedirect(line: seq<Spaced>, more: seq<Spaced>, split: Split)
    requires QuietLine(line) && QuietLine(more) && EndsInAngle(LineText(line))
    ensures var script := LineText(line) + (['&'] + LineText(more)); CommandsOf(script, split) == Trimmed(script)
  {
    var text, ahead := LineText(line), LineText(more);
    var start := Start(text + (['&'] + ahead));
    var headed := Read(start, text, ['&'] + ahead);
    EmptyConcat(text);
    ThroughLine(start, line, ['&'] + ahead, split);
    LineIsNoAmpersand(more);
    AmpersandRedirects(headed, ahead, split);
    var marked := Read(headed, ['&'], ahead);
    EmptyConcat(ahead);
    RestOfCommand(marked, [], more, split);
    Assoc(text, ['&'], ahead);
    EmptyConcat(Trimmed(text + (['&'] + ahead)));
  }

  /**
   An `&` between two quiet lines, no angle behind it, separates them exactly when the
   first does not end in an angle, be it a bare one or an escaped one.
   */
  lemma {:induction false} BackgroundSeparatesExactly(line: seq<Spaced>, more: seq<Spaced>, split: Split)
    requires QuietLine(line) && QuietLine(more) && !Starts(LineText(more), '>')
    ensures CommandsOf(LineText(line) + (['&'] + LineText(more)), split) == Trimmed(LineText(line)) + Trimmed(LineText(more))
       <==> !EndsInAngle(LineText(line))
  {
    var text, ahead := LineText(line), LineText(more);
    if EndsInAngle(text) {
      ThroughRedirect(line, more, split);
      TrimSeesInk(text, '&', ahead);
      StartEnds(text);
      assert (Trimmed(text) + Trimmed(ahead))[0] == Trim(text);
    } else {
      LineIsNoAmpersand(more);
      FirstCommandSplitsOff(line, Background, ahead, split);
      EmptyConcat(ahead);
      QuietIsOneCommand(more, split);
    }
  }

  lemma {:induction false} QuietIsOneCommand(line: seq<Spaced>, split: Split)
    requires QuietLine(line)
    ensures CommandsOf(LineText(line), split) == Trimmed(LineText(line))
  {
    EmptyConcat(LineText(line));
    ThroughLine(Start(LineText(line)), line, "", split);
    EmptyConcat(Trimmed(LineText(line)));
    FinishedSays(Read(Start(LineText(line)), LineText(line), ""), [], LineText(line));
  }

  lemma {:induction false} ThroughHash(line: seq<Spaced>, text: string, split: Split)
    requires QuietLine(line) && QuietText(text)
    ensures var script := LineText(line) + (['#'] + text);
            CommandsOf(script, split) == if Blank(LineText(line)) then Trimmed(LineText(line)) else Trimmed(script)
  {
    var head := LineText(line);
    var start := Start(head + (['#'] + text));
    var headed := Read(start, head, ['#'] + text);
    EmptyConcat(head);
    EmptyConcat(text);
    ThroughLine(start, line, ['#'] + text, split);
    if Blank(head) {
      StepComment(headed, text, "", split);
      ScanStep(headed, headed.(rest := ""), split);
      FinishedSays(headed.(rest := ""), [], head);
      EmptyConcat(Trimmed(head));
    } else {
      var marked := Read(headed, ['#'], text);
      StepStands(headed, '#', text, split);
      ScanStep(headed, marked, split);
      ThroughSigns(marked, text, "", split);
      Assoc(head, ['#'], text);
      FinishedSays(Read(marked, text, ""), [], head + (['#'] + text));
      EmptyConcat(Trimmed(head + (['#'] + text)));
    }
  }

  /**
   A `#` behind a quiet line and before quiet text is kept exactly when the line does not
   end in white space, be it between words or escaped in one; otherwise it opens a comment.
   */
  lemma {:induction false} HashIsKeptExactly(line: seq<Spaced>, text: string, split: Split)
    requires QuietLine(line) && QuietText(text)
    ensures CommandsOf(LineText(line) + (['#'] + text), split) == Trimmed(LineText(line) + (['#'] + text)) <==> !Blank(LineText(line))
  {
    ThroughHash(line, text, split);
    TrimSeesInk(LineText(line), '#', text);
  }

  lemma {:induction false} OneWord(word: seq<Piece>, piece: Piece)
    requires QuietWord(word) && QuietPiece(piece)
    ensures QuietLine([Spaced("", word + [piece])]) && LineText([Spaced("", word + [piece])]) == Text(word) + PieceText(piece)
  {
    PiecesTogether(word, piece);
    var line := [Spaced("", word + [piece])];
    assert line[1..] == [];
    EmptyConcat(Text(word + [piece]));
  }

  lemma {:induction false} PiecesTogether(word: seq<Piece>, piece: Piece)
    ensures Text(word + [piece]) == Text(word) + PieceText(piece)
    decreases |word|
  {
    if word == [] {
      EmptyConcat([piece]);
      assert [piece][1..] == [];
      EmptyConcat(PieceText(piece));
    } else {
      TailOfConcat(word, [piece]);
      PiecesTogether(word[1..], piece);
      Assoc(PieceText(word[0]), Text(word[1..]), PieceText(piece));
    }
  }

  /** So a word that ends in an escaped angle hides the `&` behind it, where a shell ends the command there. */
  lemma {:induction false} EscapedAngleHidesBackground(word: seq<Piece>, more: seq<Spaced>, split: Split)
    requires QuietWord(word) && QuietLine(more) && !Starts(LineText(more), '>')
    ensures var first := Text(word) + ['\\', '>'];
            && CommandsOf(first + (['&'] + LineText(more)), split) == Trimmed(first + (['&'] + LineText(more)))
            && CommandsOf(first + (['&'] + LineText(more)), split) != Trimmed(first) + Trimmed(LineText(more))
  {
    var line := [Spaced("", word + [Escaped('>')])];
    OneWord(word, Escaped('>'));
    ThroughRedirect(line, more, split);
    BackgroundSeparatesExactly(line, more, split);
  }

  /** And a word with an escaped blank before a `#` loses what is behind the blank, where a shell reads it on. */
  lemma {:induction false} EscapedBlankOpensComment(word: seq<Piece>, text: string, split: Split)
    requires QuietWord(word) && QuietText(text)
    ensures var first := Text(word) + ['\\', ' '];
            && CommandsOf(first + (['#'] + text), split) == Trimmed(first)
            && CommandsOf(first + (['#'] + text), split) != Trimmed(first + (['#'] + text))
  {
    var line := [Spaced("", word + [Escaped(' ')])];
    OneWord(word, Escaped(' '));
    ThroughHash(line, text, split);
    HashIsKeptExactly(line, text, split);
  }
}
