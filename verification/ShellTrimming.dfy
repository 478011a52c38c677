/**
 A command is handed back trimmed. White space at its ends that belongs to a word, behind
 a `\` or of a kind no blank is, goes with the rest: this says exactly when the words of
 a command change by it.
 */
module ShellTrimming {
  import opened Wrappers
  import opened Sequences
  import opened ShellWords
  import opened ShellScanner
  import opened ShellRedirections

  function FirstPiece(line: seq<Spaced>): Piece
    requires SoundLine(line) && line != []
  {
    line[0].word[0]
  }

  function LastPiece(line: seq<Spaced>): Piece
    requires SoundLine(line) && line != []
  {
    var word := line[|line| - 1].word;
    word[|word| - 1]
  }

  /** White space of a word stands at an end of the line, where trimming reaches it. */
  predicate HasSpaceAtEdge(line: seq<Spaced>)
    requires SoundLine(line) && line != []
  {
    (FirstPiece(line).Plain? && IsWhitespace(FirstPiece(line).c)) || IsSpacePiece(LastPiece(line))
  }

  // ----------------------------------------------------------------- trimming takes no sign back

  lemma {:induction false} ShorterHasFewerSigns(s: string, quote: Quote)
    requires s != ""
    ensures SignsIn(s[..|s| - 1], quote) <= SignsIn(s, quote)
    decreases |s|
  {
    var t := s[..|s| - 1];
    if !quote.Single? && s[0] == '\\' {
      if |s| > 2 {
        assert t[0] == s[0] && t[1] == s[1] && t[2..] == s[2..][..|s[2..]| - 1];
        ShorterHasFewerSigns(s[2..], quote);
      } else if |s| == 2 {
        assert t == ['\\'];
      }
    } else if |s| > 1 {
      assert t[0] == s[0] && t[1..] == s[1..][..|s[1..]| - 1];
      ShorterHasFewerSigns(s[1..], NextQuote(s[0], quote));
    }
  }

  lemma {:induction false} TrimEndHasFewerSigns(s: string)
    ensures SignsIn(TrimEnd(s), Bare) <= SignsIn(s, Bare)
    decreases |s|
  {
    if s != "" && IsWhitespace(s[|s| - 1]) {
      ShorterHasFewerSigns(s, Bare);
      TrimEndHasFewerSigns(s[..|s| - 1]);
    }
  }

  lemma {:induction false} TrimStartHasFewerSigns(s: string)
    ensures SignsIn(TrimStart(s), Bare) <= SignsIn(s, Bare)
    ensures s != "" && IsWhitespace(s[0]) && !IsBlank(s[0]) ==> SignsIn(TrimStart(s), Bare) < SignsIn(s, Bare)
    decreases |s|
  {
    if s != "" && IsWhitespace(s[0]) {
      TrimStartHasFewerSigns(s[1..]);
    }
  }

  // ------------------------------------------------------------------ the signs of a line

  lemma {:induction false} SignsOfSpaced(gap: string, pieces: seq<Piece>, rest: string)
    requires AllBlank(gap) && SoundWord(pieces)
    ensures SignsIn(gap + (Text(pieces) + rest), Bare) == |Value(pieces)| + SignsIn(rest, Bare)
  {
    SignsAreRead(gap + (Text(pieces) + rest), None, Bare);
    SignsAreRead(Text(pieces) + rest, None, Bare);
    ReadsGap(gap, Text(pieces) + rest, None);
    EmptyConcat(WordsFrom(Text(pieces) + rest, None, Bare));
    ReadsPieces(pieces, rest, None);
    var word := if pieces == [] then None else Some(Value(pieces));
    SignsAreRead(rest, word, Bare);
    SignsFlushed(word);
    SignsFlushed(None);
  }

  lemma {:induction false} SignsOfLine(line: seq<Spaced>, rest: string)
    requires forall i :: 0 <= i < |line| ==> AllBlank(line[i].gap) && SoundWord(line[i].word)
    ensures SignsIn(LineText(line) + rest, Bare) == SignsOf(LineValue(line)) + SignsIn(rest, Bare)
    decreases |line|
  {
    if line == [] {
      EmptyConcat(rest);
    } else {
      var gap, word, more := line[0].gap, line[0].word, LineText(line[1..]);
      Assoc(gap, Text(word) + more, rest);
      Assoc(Text(word), more, rest);
      SignsOfSpaced(gap, word, more + rest);
      SignsOfLine(line[1..], rest);
      assert LineValue(line)[1..] == LineValue(line[1..]);
    }
  }

  /** A line up to its last piece, and that piece. */
  lemma {:induction false} LastPieceSplits(line: seq<Spaced>) returns (front: seq<Spaced>)
    requires SoundLine(line) && line != []
    ensures forall i :: 0 <= i < |front| ==> AllBlank(front[i].gap) && SoundWord(front[i].word)
    ensures LineText(line) == LineText(front) + PieceText(LastPiece(line)) && Sound(LastPiece(line))
  {
    var n := |line| - 1;
    var word := line[n].word;
    var m := |word| - 1;
    var short := Spaced(line[n].gap, word[..m]);
    front := line[..n] + [short];
    LastWord(line);
    LastSplit(word);
    PiecesAppend(word[..m], [word[m]]);
    OnePiece(word[m]);
    LineAppend(line[..n], [short]);
    OneSpaced(short);
    var a, g, t, p := LineText(line[..n]), line[n].gap, Text(word[..m]), PieceText(word[m]);
    Assoc(a + g, t, p);
    Assoc(a, g, t);
  }

  lemma {:induction false} PieceEnds(piece: Piece)
    requires Sound(piece)
    ensures PieceText(piece) != ""
    ensures IsWhitespace(PieceText(piece)[|PieceText(piece)| - 1]) <==> IsSpacePiece(piece)
    ensures IsSpacePiece(piece) ==> SignsIn(PieceText(piece)[..|PieceText(piece)| - 1], Bare) < SignsIn(PieceText(piece), Bare)
  {
    var text := PieceText(piece);
    match piece
    case Plain(c) => assert text[1..] == "";
    case Escaped(c) => assert text[..1] == ['\\'] && text[2..] == "";
    case SingleQuoted(_) =>
    case DoubleQuoted(_) =>
  }

  lemma {:induction false} EndsAsPiece(front: string, piece: string)
    requires piece != ""
    ensures (front + piece)[|front + piece| - 1] == piece[|piece| - 1]
    ensures (front + piece)[..|front + piece| - 1] == front + piece[..|piece| - 1]
  {
  }

  /** A line whose last sign is white space loses one of its signs at least. */
  lemma {:induction false} EdgeLosesSigns(line: seq<Spaced>)
    requires SoundLine(line) && line != [] && IsSpacePiece(LastPiece(line))
    ensures SignsIn(TrimEnd(LineText(line)), Bare) < SignsIn(LineText(line), Bare)
  {
    var front := LastPieceSplits(line);
    var piece := PieceText(LastPiece(line));
    PieceEnds(LastPiece(line));
    EndsAsPiece(LineText(front), piece);
    SignsOfLine(front, piece);
    SignsOfLine(front, piece[..|piece| - 1]);
    TrimEndHasFewerSigns(LineText(front) + piece[..|piece| - 1]);
  }

  // ------------------------------------------------------------------- trimming a line

  function Ungapped(line: seq<Spaced>): seq<Spaced>
    requires line != []
  {
    [Spaced("", line[0].word)] + line[1..]
  }

  lemma {:induction false} UngappedIsSound(line: seq<Spaced>)
    requires SoundLine(line) && line != []
    ensures SoundLine(Ungapped(line))
    ensures FirstPiece(Ungapped(line)) == FirstPiece(line) && LastPiece(Ungapped(line)) == LastPiece(line)
  {
    var u := Ungapped(line);
    assert forall i :: 0 < i < |line| ==> u[i] == line[i];
  }

  lemma {:induction false} UngappedText(line: seq<Spaced>)
    requires line != []
    ensures LineText(line) == line[0].gap + LineText(Ungapped(line)) && LineValue(Ungapped(line)) == LineValue(line)
  {
    assert Ungapped(line)[1..] == line[1..];
    EmptyConcat(Text(line[0].word) + LineText(line[1..]));
  }

  lemma {:induction false} TrimStartPassesGap(gap: string, rest: string)
    requires AllBlank(gap)
    ensures TrimStart(gap + rest) == TrimStart(rest)
    decreases |gap|
  {
    if gap == "" {
      EmptyConcat(rest);
    } else {
      assert IsBlank(gap[0]);
      TailOfConcat(gap, rest);
      TrimStartPassesGap(gap[1..], rest);
    }
  }

  lemma {:induction false} StartsAsPiece(line: seq<Spaced>)
    requires SoundLine(line) && line != [] && line[0].gap == ""
    ensures LineText(line) != "" && LineText(line)[0] == PieceText(FirstPiece(line))[0] && !IsBlank(LineText(line)[0])
    ensures IsWhitespace(LineText(line)[0]) <==> FirstPiece(line).Plain? && IsWhitespace(FirstPiece(line).c)
  {
    var piece := FirstPiece(line);
    assert Sound(piece);
    assert Text(line[0].word)[0] == PieceText(piece)[0];
    EmptyConcat(Text(line[0].word) + LineText(line[1..]));
  }

  lemma {:induction false} EndsAsLastPiece(line: seq<Spaced>)
    requires SoundLine(line) && line != []
    ensures LineText(line) != "" && (IsWhitespace(LineText(line)[|LineText(line)| - 1]) <==> IsSpacePiece(LastPiece(line)))
  {
    var front := LastPieceSplits(line);
    PieceEnds(LastPiece(line));
    EndsAsPiece(LineText(front), PieceText(LastPiece(line)));
  }

  lemma {:induction false} SpaceGoes(line: seq<Spaced>)
    requires SoundLine(line) && line != [] && line[0].gap == "" && HasSpaceAtEdge(line)
    ensures SignsIn(Trim(LineText(line)), Bare) < SignsIn(LineText(line), Bare)
  {
    var text := LineText(line);
    StartsAsPiece(line);
    TrimStartHasFewerSigns(text);
    TrimEndHasFewerSigns(TrimStart(text));
    if !IsWhitespace(text[0]) {
      EdgeLosesSigns(line);
    }
  }

  /** A line keeps its words when it is trimmed exactly when no white space of a word stands at its ends. */
  lemma {:induction false} TrimmingKeepsWordsExactly(line: seq<Spaced>)
    requires SoundLine(line) && line != []
    ensures WordsOf(Trim(LineText(line))) == LineValue(line) <==> !HasSpaceAtEdge(line)
  {
    var u := Ungapped(line);
    var text := LineText(u);
    UngappedIsSound(line);
    UngappedText(line);
    TrimStartPassesGap(line[0].gap, text);
    SpellingReadsBack(u, "");
    EmptyConcat(text);
    if HasSpaceAtEdge(line) {
      SpaceGoes(u);
      SignsAreRead(Trim(text), None, Bare);
      SignsAreRead(text, None, Bare);
    } else {
      StartsAsPiece(u);
      EndsAsLastPiece(u);
    }
  }

  /** The word `a\ ` comes back without its blank, and reads as another. */
  lemma {:induction false} TrimmedExample()
    ensures WordsOf(['a', '\\', ' ']) == ["a "] && WordsOf(Trim(['a', '\\', ' '])) != ["a "]
  {
    var word := [Plain('a'), Escaped(' ')] + [];
    var line := [Spaced("", word)];
    TwoMore(Plain('a'), Escaped(' '), []);
    OneSpaced(line[0]);
    assert word == [Plain('a'), Escaped(' ')] && line[1..] == [];
    assert ['a'] + (['\\', ' '] + "") == ['a', '\\', ' '] && ['a'] + ([' '] + "") == "a ";
    EmptyConcat(Text(word));
    EmptyConcat(LineText(line));
    SpellingReadsBack(line, "");
    TrimmingKeepsWordsExactly(line);
  }
}
