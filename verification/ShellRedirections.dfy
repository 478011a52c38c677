/**
 Redirections as they are spelled: words, a mark, and the word it sends the output to. A
 mark is numbered by a word of digits that touches it. What the reader finds in a command
 is compared with what its spelling says, mark by mark.
 */
module ShellRedirections {
  import opened Wrappers
  import opened Sequences
  import opened ShellWords
  import opened ShellOutput

  // --------------------------------------------------------------- the spelled command

  function Mark(twice: bool): string {
    if twice then ">>" else ">"
  }

  /** The signs that end a word of the shell, blanks aside. */
  predicate IsOperator(c: char) {
    c == '>' || c == '<' || c == '(' || c == ')' || c == '&' || c == ';' || c == '|'
  }

  predicate IsDigitPiece(piece: Piece) {
    piece.Plain? && '0' <= piece.c <= '9'
  }

  /** Where the digits begin that end a word. */
  function DigitsStart(word: seq<Piece>): (k: nat)
    ensures k <= |word| && (forall i :: k <= i < |word| ==> IsDigitPiece(word[i]))
    ensures k > 0 ==> !IsDigitPiece(word[k - 1])
  {
    if word == [] || !IsDigitPiece(word[|word| - 1]) then |word| else DigitsStart(word[..|word| - 1])
  }

  /** A word of digits and nothing else. */
  predicate IsNumber(word: seq<Piece>) {
    word != [] && DigitsStart(word) == 0
  }

  /** Words, blanks, a mark, whether it goes to a stream, blanks, and the word it goes to. */
  datatype Redirection = Redirection(line: seq<Spaced>, lead: string, twice: bool, stream: bool, gap: string, target: seq<Piece>)

  function HeadText(r: Redirection): string {
    LineText(r.line) + r.lead
  }

  function Target(r: Redirection): string {
    (if r.stream then ['&'] else "") + (r.gap + Text(r.target))
  }

  function RedirectedText(rs: seq<Redirection>, tail: seq<Spaced>): string {
    if rs == [] then LineText(tail)
    else HeadText(rs[0]) + (Mark(rs[0].twice) + (Target(rs[0]) + RedirectedText(rs[1..], tail)))
  }

  predicate IsTarget(target: seq<Piece>) {
    target != [] && forall i :: 0 <= i < |target| ==> Sound(target[i]) && (target[i].Plain? ==> !IsOperator(target[i].c))
  }

  predicate IsRedirection(r: Redirection) {
    SoundLine(r.line) && SilentLine(r.line) && AllBlank(r.lead) && AllBlank(r.gap) && IsTarget(r.target)
  }

  /** Nothing, or a blank. */
  predicate EndsTarget(text: string) {
    text == "" || IsBlank(text[0])
  }

  /** What ends a word of the shell: nothing, a blank or an operator. */
  predicate Delimits(text: string) {
    EndsTarget(text) || IsOperator(text[0])
  }

  /** After the word `prev` a redirection begins with a blank, or with its mark: which a number would then be part of. */
  predicate Follows(prev: seq<Piece>, r: Redirection) {
    prev == [] || (if HeadText(r) == "" then !IsNumber(prev) else IsBlank(HeadText(r)[0]))
  }

  /** Redirections one after another, the first after the word `prev`, and the words after the last. */
  predicate AllRedirect(prev: seq<Piece>, rs: seq<Redirection>, tail: seq<Spaced>)
    decreases |rs|
  {
    if rs == [] then SilentLine(tail) && (prev == [] || EndsTarget(LineText(tail)))
    else IsRedirection(rs[0]) && Follows(prev, rs[0]) && AllRedirect(rs[0].target, rs[1..], tail)
  }

  /** The number of a mark: the word that touches it, where that is a number. */
  function Number(r: Redirection): Option<string> {
    if r.lead == "" && r.line != [] && IsNumber(r.line[|r.line| - 1].word) then Some(Text(r.line[|r.line| - 1].word)) else None
  }

  /** The output goes where no number stands, or the first stream's. */
  predicate Sends(number: Option<string>) {
    number == None || number == Some("1")
  }

  /** The file a redirection sends the output to, as it is spelled. */
  function Wanted(r: Redirection): seq<string> {
    if !r.stream && Sends(Number(r)) then [Value(r.target)] else []
  }

  function WantedFiles(rs: seq<Redirection>): seq<string> {
    if rs == [] then [] else Wanted(rs[0]) + WantedFiles(rs[1..])
  }

  // ------------------------------------------------------------------ numbers as they are read

  /** A sign of white space that stands in a word: behind a `\`, or one no blank is. */
  predicate IsSpacePiece(piece: Piece) {
    (piece.Plain? || piece.Escaped?) && IsWhitespace(piece.c)
  }

  /** The word that touches the mark, if one does. */
  function Touching(prev: seq<Piece>, r: Redirection): seq<Piece> {
    if r.lead != "" then [] else if r.line != [] then r.line[|r.line| - 1].word else prev
  }

  /** A word with white space in it and digits alone after that. */
  predicate IsMisnumbered(word: seq<Piece>) {
    var k := DigitsStart(word);
    0 < k < |word| && IsSpacePiece(word[k - 1])
  }

  /** The number the reader finds in the word that touches a mark. */
  function NumberRead(word: seq<Piece>): Option<string> {
    var k := DigitsStart(word);
    if k < |word| && (k == 0 || IsSpacePiece(word[k - 1])) then Some(Text(word[k..])) else None
  }

  /** The number that is read is the spelled one exactly unless white space stands in the word before its digits. */
  lemma {:induction false} NumberIsReadExactly(prev: seq<Piece>, r: Redirection)
    requires Follows(prev, r)
    ensures NumberRead(Touching(prev, r)) == Number(r) <==> !IsMisnumbered(Touching(prev, r))
    ensures Number(r).Some? ==> NumberRead(Touching(prev, r)) == Number(r)
  {
    var word := Touching(prev, r);
    EmptyConcat(word);
    if r.lead == "" && r.line == [] {
      assert HeadText(r) == "";
    }
  }

  lemma {:induction false} SegmentMore(before: string, c: char)
    ensures LastSegment(before + [c]) == (if IsWhitespace(c) then "" else LastSegment(before) + [c])
  {
    assert (before + [c])[..|before|] == before;
  }

  lemma {:induction false} SegmentJoins(before: string, digits: string)
    requires AllDigits(digits)
    ensures LastSegment(before + digits) == LastSegment(before) + digits
    decreases |digits|
  {
    if digits == "" {
      EmptyConcat(before);
      EmptyConcat(LastSegment(before));
    } else {
      var n := |digits| - 1;
      LastSplit(digits);
      SegmentJoins(before, digits[..n]);
      Assoc(before, digits[..n], [digits[n]]);
      SegmentMore(before + digits[..n], digits[n]);
      Assoc(LastSegment(before), digits[..n], [digits[n]]);
    }
  }

  lemma {:induction false} PiecesAppend(a: seq<Piece>, b: seq<Piece>)
    ensures Text(a + b) == Text(a) + Text(b) && Value(a + b) == Value(a) + Value(b)
    decreases |a|
  {
    if a == [] {
      EmptyConcat(b);
      EmptyConcat(Text(b));
      EmptyConcat(Value(b));
    } else {
      TailOfConcat(a, b);
      PiecesAppend(a[1..], b);
      Assoc(PieceText(a[0]), Text(a[1..]), Text(b));
      Assoc(PieceValue(a[0]), Value(a[1..]), Value(b));
    }
  }

  lemma {:induction false} OnePiece(piece: Piece)
    ensures Text([piece]) == PieceText(piece)
  {
    assert [piece][1..] == [];
    EmptyConcat(PieceText(piece));
  }

  lemma {:induction false} DigitsText(word: seq<Piece>)
    requires forall i :: 0 <= i < |word| ==> IsDigitPiece(word[i])
    ensures AllDigits(Text(word)) && |Text(word)| == |word|
  {
    if word != [] {
      DigitsText(word[1..]);
      assert IsDigitPiece(word[0]);
    }
  }

  /** How the segment ends after a piece that is no digit. */
  lemma {:induction false} SegmentAfterPiece(before: string, piece: Piece)
    requires Sound(piece) && !IsDigitPiece(piece)
    ensures LastSegment(before + PieceText(piece)) == "" <==> IsSpacePiece(piece)
    ensures !IsSpacePiece(piece) ==> !AllDigits(LastSegment(before + PieceText(piece)))
  {
    match piece
    case Plain(c) => SegmentEnds(before, c);
    case Escaped(c) =>
      assert before + ['\\', c] == (before + ['\\']) + [c];
      SegmentEscaped(before, c);
    case SingleQuoted(text) =>
      Assoc(before, ['\''] + text, ['\'']);
      SegmentEnds(before + (['\''] + text), '\'');
    case DoubleQuoted(items) =>
      Assoc(before, ['"'] + ItemsText(items), ['"']);
      SegmentEnds(before + (['"'] + ItemsText(items)), '"');
  }

  lemma {:induction false} SegmentEnds(before: string, c: char)
    requires !('0' <= c <= '9')
    ensures LastSegment(before + [c]) == "" <==> IsWhitespace(c)
    ensures !IsWhitespace(c) ==> !AllDigits(LastSegment(before + [c]))
  {
    SegmentMore(before, c);
    var s := LastSegment(before + [c]);
    if !IsWhitespace(c) {
      assert s[|s| - 1] == c;
    }
  }

  lemma {:induction false} SegmentEscaped(before: string, c: char)
    ensures LastSegment((before + ['\\']) + [c]) == "" <==> IsWhitespace(c)
    ensures !IsWhitespace(c) ==> !AllDigits(LastSegment((before + ['\\']) + [c]))
  {
    SegmentMore(before, '\\');
    SegmentMore(before + ['\\'], c);
    var s := LastSegment((before + ['\\']) + [c]);
    if !IsWhitespace(c) {
      assert s[|s| - 2] == '\\';
    }
  }

  predicate IsOpen(before: string) {
    before == "" || IsWhitespace(before[|before| - 1])
  }

  lemma {:induction false} SegmentOfWord(before: string, word: seq<Piece>)
    requires SoundWord(word) && (DigitsStart(word) == 0 ==> IsOpen(before))
    ensures var k := DigitsStart(word);
            && LastSegment(before + Text(word)) == LastSegment(before + Text(word[..k])) + Text(word[k..])
            && AllDigits(Text(word[k..])) && (Text(word[k..]) == "" <==> k == |word|)
            && (LastSegment(before + Text(word[..k])) == "" <==> k == 0 || IsSpacePiece(word[k - 1]))
            && (k > 0 && !IsSpacePiece(word[k - 1]) ==> !AllDigits(LastSegment(before + Text(word[..k]))))
  {
    var k := DigitsStart(word);
    var front, digits := word[..k], word[k..];
    Rejoin(word, k);
    PiecesAppend(front, digits);
    Assoc(before, Text(front), Text(digits));
    DigitsText(digits);
    SegmentJoins(before + Text(front), Text(digits));
    if k == 0 {
      EmptyConcat(before);
    } else {
      LastSplit(front);
      PiecesAppend(front[..k - 1], [front[k - 1]]);
      OnePiece(word[k - 1]);
      Assoc(before, Text(front[..k - 1]), PieceText(word[k - 1]));
      SegmentAfterPiece(before + Text(front[..k - 1]), word[k - 1]);
    }
  }

  lemma {:induction false} DigitsOfJoined(a: string, b: string)
    ensures AllDigits(a + b) <==> AllDigits(a) && AllDigits(b)
  {
    assert AllDigits(a + b) ==> forall i :: 0 <= i < |a| ==> (a + b)[i] == a[i];
    assert AllDigits(a + b) ==> forall i :: 0 <= i < |b| ==> (a + b)[|a| + i] == b[i];
  }

  lemma {:induction false} StreamOfSegment(before: string, front: string, digits: string)
    requires LastSegment(before) == front + digits && AllDigits(digits)
    ensures front == "" && digits != "" ==> StreamBefore(before) == Some(digits)
    ensures (front == "" && digits == "") || !AllDigits(front) ==> StreamBefore(before) == None
  {
    DigitsOfJoined(front, digits);
    EmptyConcat(digits);
    EmptyConcat(front);
  }

  /** The stream the reader finds is the number it finds in the word that touches the mark. */
  lemma {:induction false} StreamOfWord(before: string, word: seq<Piece>)
    requires SoundWord(word) && (DigitsStart(word) == 0 ==> IsOpen(before))
    ensures StreamBefore(before + Text(word)) == NumberRead(word)
  {
    var k := DigitsStart(word);
    SegmentOfWord(before, word);
    StreamOfSegment(before + Text(word), LastSegment(before + Text(word[..k])), Text(word[k..]));
  }

  // -------------------------------------------------------------- targets as they are read

  /** A word once begun is the beginning of the first word that is read. */
  lemma {:induction false} BegunIsPrefix(rest: string, word: string, quote: Quote)
    ensures WordsFrom(rest, Some(word), quote) != [] && word <= WordsFrom(rest, Some(word), quote)[0]
    decreases |rest|
  {
    if rest != "" && !(quote.Bare? && IsBlank(rest[0])) {
      if quote.Bare? && rest[0] == '\'' {
        EmptyConcat(word);
        BegunIsPrefix(rest[1..], word, Single);
      } else if quote.Bare? && rest[0] == '"' {
        EmptyConcat(word);
        BegunIsPrefix(rest[1..], word, Double);
      } else if (quote.Single? && rest[0] == '\'') || (quote.Double? && rest[0] == '"') {
        BegunIsPrefix(rest[1..], word, Bare);
      } else if !quote.Single? && rest[0] == '\\' {
        if |rest| > 1 {
          BegunIsPrefix(rest[2..], word + Unescaped(rest[1], quote), quote);
        }
      } else {
        BegunIsPrefix(rest[1..], word + [rest[0]], quote);
      }
    }
  }

  lemma {:induction false} FirstWordAfter(word: string, more: string)
    requires Delimits(more)
    ensures WordsFrom(more, Some(word), Bare) != []
    ensures WordsFrom(more, Some(word), Bare)[0] == word <==> EndsTarget(more)
  {
    BegunIsPrefix(more, word, Bare);
    if !EndsTarget(more) {
      assert WordsFrom(more, Some(word), Bare) == WordsFrom(more[1..], Some(word + [more[0]]), Bare);
      BegunIsPrefix(more[1..], word + [more[0]], Bare);
    }
  }

  /** The first word read after a mark is the spelled one exactly when a blank or the end follows it. */
  lemma {:induction false} TargetIsReadExactly(gap: string, target: seq<Piece>, more: string)
    requires AllBlank(gap) && IsTarget(target) && Delimits(more)
    ensures WordsOf((gap + Text(target)) + more) != []
    ensures WordsOf((gap + Text(target)) + more)[0] == Value(target) <==> EndsTarget(more)
  {
    Assoc(gap, Text(target), more);
    ReadsGap(gap, Text(target) + more, None);
    EmptyConcat(WordsFrom(Text(target) + more, None, Bare));
    ReadsPieces(target, more, None);
    FirstWordAfter(Value(target), more);
  }

  // ----------------------------------------------------------------- one mark, as it is read

  /** White space in the word that touches a mark makes the reader send the output away. */
  predicate Misleads(word: seq<Piece>) {
    IsMisnumbered(word) && Text(word[DigitsStart(word)..]) != "1"
  }

  /**
   What it takes for a redirection to be read as it is spelled: it names no file anyway,
   or a blank or the end follows its target and no white space misleads its number.
   */
  predicate IsReadRight(prev: seq<Piece>, r: Redirection, more: string) {
    r.stream || !Sends(Number(r)) || (EndsTarget(more) && !Misleads(Touching(prev, r)))
  }

  lemma {:induction false} SendsUnlessMisled(prev: seq<Piece>, r: Redirection)
    requires Follows(prev, r)
    ensures Sends(NumberRead(Touching(prev, r))) <==> Sends(Number(r)) && !Misleads(Touching(prev, r))
  {
    NumberIsReadExactly(prev, r);
  }

  lemma {:induction false} ReadsWhole(a: string, b: string)
    ensures Reads(a + b, 0, a) && Reads(a + b, |a|, b) && (a + b)[..|a|] == a && (a + b)[|a|..] == b
  {
  }

  /** Where a mark stands in a command, and where it ends. */
  lemma {:induction false} MarkHeads(command: string, before: string, twice: bool, after: string)
    requires after != "" && after[0] != '>' && command == before + (Mark(twice) + after)
    ensures |before| < |command| && command[|before|] == '>' && MarkEnd(command, |before|) == |before| + |Mark(twice)| < |command|
    ensures NamesStream(command, |before|) == (after[0] == '&')
    ensures command[MarkEnd(command, |before|)..] == after && command[..|before|] == before
  {
    Assoc(before, Mark(twice), after);
    ReadsWhole(before + Mark(twice), after);
    ReadsAt(command, |before| + |Mark(twice)|, after, 0);
    ReadsWhole(before, Mark(twice) + after);
    ReadsAt(command, |before|, Mark(twice) + after, 0);
    ReadsAt(command, |before|, Mark(twice) + after, 1);
  }

  lemma {:induction false} MarkFound(command: string, at: nat)
    requires at < |command| && command[at] == '>'
    ensures MarksFrom(command, at, Bare)
         == [at] + MarksFrom(command, if NamesStream(command, at) then MarkEnd(command, at) + 1 else MarkEnd(command, at), Bare)
  {
  }

  lemma {:induction false} TargetStarts(r: Redirection, more: string)
    requires IsRedirection(r)
    ensures Target(r) + more != "" && (Target(r) + more)[0] != '>' && ((Target(r) + more)[0] == '&' <==> r.stream)
  {
    assert Sound(r.target[0]);
    assert r.gap != "" ==> IsBlank(r.gap[0]);
    assert (r.gap + Text(r.target))[0] == (if r.gap == "" then PieceText(r.target[0])[0] else r.gap[0]);
  }

  /**
   The file read at a mark is the spelled one exactly when the redirection is read
   right; and never is more read than is spelled.
   */
  lemma {:induction false} FileIsReadExactly(command: string, before: string, prev: seq<Piece>, r: Redirection, more: string)
    requires IsRedirection(r) && Follows(prev, r) && Delimits(more) && command == before + (Mark(r.twice) + (Target(r) + more))
    requires StreamBefore(before) == NumberRead(Touching(prev, r))
    ensures FileAt(command, |before|) == Wanted(r) <==> IsReadRight(prev, r, more)
    ensures |FileAt(command, |before|)| <= |Wanted(r)|
    ensures !Sends(NumberRead(Touching(prev, r))) ==> FileAt(command, |before|) == []
  {
    TargetStarts(r, more);
    MarkHeads(command, before, r.twice, Target(r) + more);
    SendsUnlessMisled(prev, r);
    if !r.stream {
      EmptyConcat(r.gap + Text(r.target));
      TargetIsReadExactly(r.gap, r.target, more);
    }
  }

  // ------------------------------------------------------------ the words before a mark

  lemma {:induction false} LineAppend(a: seq<Spaced>, b: seq<Spaced>)
    ensures LineText(a + b) == LineText(a) + LineText(b)
    decreases |a|
  {
    if a == [] {
      EmptyConcat(b);
      EmptyConcat(LineText(b));
    } else {
      TailOfConcat(a, b);
      LineAppend(a[1..], b);
      Assoc(Text(a[0].word), LineText(a[1..]), LineText(b));
      Assoc(a[0].gap, Text(a[0].word) + LineText(a[1..]), LineText(b));
    }
  }

  lemma {:induction false} OneSpaced(spaced: Spaced)
    ensures LineText([spaced]) == spaced.gap + Text(spaced.word)
  {
    assert [spaced][1..] == [];
    EmptyConcat(Text(spaced.word));
  }

  /** A line up to its last word, and that word. */
  lemma {:induction false} LastWord(line: seq<Spaced>)
    requires line != []
    ensures var n := |line| - 1; LineText(line) == (LineText(line[..n]) + line[n].gap) + Text(line[n].word)
  {
    var n := |line| - 1;
    LastSplit(line);
    LineAppend(line[..n], [line[n]]);
    OneSpaced(line[n]);
    Assoc(LineText(line[..n]), line[n].gap, Text(line[n].word));
  }

  lemma {:induction false} FirstSign(line: seq<Spaced>)
    requires SoundLine(line) && line != [] && line[0].gap == ""
    ensures LineText(line) != "" && !IsBlank(LineText(line)[0])
  {
    var piece := line[0].word[0];
    assert Sound(piece);
    assert Text(line[0].word)[0] == PieceText(piece)[0];
    EmptyConcat(Text(line[0].word) + LineText(line[1..]));
  }

  lemma {:induction false} BlankEndIsOpen(before: string, gap: string)
    requires AllBlank(gap) && gap != ""
    ensures IsOpen(before + gap) && LastSegment(before + gap) == ""
  {
    assert IsBlank(gap[|gap| - 1]);
  }

  /** What touches the mark decides the number that is read before it. */
  lemma {:induction false} NumberBeforeMark(x: string, prev: seq<Piece>, r: Redirection)
    requires IsRedirection(r) && Follows(prev, r) && SoundWord(prev) && (prev == [] ==> x == "")
    ensures StreamBefore((x + Text(prev)) + HeadText(r)) == NumberRead(Touching(prev, r))
  {
    var before := x + Text(prev);
    if r.lead != "" {
      Assoc(before, LineText(r.line), r.lead);
      BlankEndIsOpen(before + LineText(r.line), r.lead);
    } else if r.line != [] {
      EmptyConcat(LineText(r.line));
      NumberOfLine(x, prev, r);
    } else {
      EmptyConcat(before);
      StreamOfWord(x, prev);
    }
  }

  lemma {:induction false} NumberOfLine(x: string, prev: seq<Piece>, r: Redirection)
    requires IsRedirection(r) && Follows(prev, r) && (prev == [] ==> x == "") && r.lead == "" && r.line != []
    ensures StreamBefore((x + Text(prev)) + LineText(r.line)) == NumberRead(r.line[|r.line| - 1].word)
  {
    var before, n := x + Text(prev), |r.line| - 1;
    var word := r.line[n];
    LastWord(r.line);
    Assoc(before, LineText(r.line[..n]) + word.gap, Text(word.word));
    Assoc(before, LineText(r.line[..n]), word.gap);
    if word.gap != "" {
      BlankEndIsOpen(before + LineText(r.line[..n]), word.gap);
    } else {
      assert n == 0;
      FirstSign(r.line);
      EmptyConcat(LineText(r.line));
      assert prev == [];
    }
    StreamOfWord(before + (LineText(r.line[..n]) + word.gap), word.word);
  }

  // ------------------------------------------------------------------- whole commands

  /** Every redirection is read as it is spelled, the first after `prev`. */
  predicate AllReadRight(prev: seq<Piece>, rs: seq<Redirection>, tail: seq<Spaced>)
    decreases |rs|
  {
    rs == [] || (IsReadRight(prev, rs[0], RedirectedText(rs[1..], tail)) && AllReadRight(rs[0].target, rs[1..], tail))
  }

  lemma {:induction false} LaterDelimits(prev: seq<Piece>, rs: seq<Redirection>, tail: seq<Spaced>)
    requires AllRedirect(prev, rs, tail) && prev != []
    ensures Delimits(RedirectedText(rs, tail))
  {
    if rs != [] {
      var rest := Mark(rs[0].twice) + (Target(rs[0]) + RedirectedText(rs[1..], tail));
      if HeadText(rs[0]) == "" {
        EmptyConcat(rest);
        assert rest[0] == '>';
      }
    }
  }

  lemma {:induction false} TargetIsSilent(target: seq<Piece>)
    requires IsTarget(target)
    ensures SilentWord(target) && SoundWord(target)
  {
    forall i | 0 <= i < |target| ensures Silent(target[i]) {
    }
  }

  lemma {:induction false} ReadsFrom(command: string, at: nat, text: string, more: string)
    requires at <= |command| && command[at..] == text + more
    ensures Reads(command, at, text)
  {
    assert forall k :: 0 <= k < |text| ==> command[at..][k] == text[k];
  }

  lemma {:induction false} MarkPlace(command: string, before: string, r: Redirection, more: string) returns (end: nat)
    requires IsRedirection(r) && command == before + (Mark(r.twice) + (Target(r) + more))
    ensures |before| < |command| && command[|before|] == '>'
    ensures end == (if NamesStream(command, |before|) then MarkEnd(command, |before|) + 1 else MarkEnd(command, |before|))
    ensures end == |before| + |Mark(r.twice)| + (if r.stream then 1 else 0)
    ensures Reads(command, end, r.gap + Text(r.target))
  {
    TargetStarts(r, more);
    MarkHeads(command, before, r.twice, Target(r) + more);
    end := |before| + |Mark(r.twice)| + (if r.stream then 1 else 0);
    TargetReads(command, |before| + |Mark(r.twice)|, r, more, end);
  }

  lemma {:induction false} TargetReads(command: string, at: nat, r: Redirection, more: string, end: nat)
    requires at <= |command| && command[at..] == Target(r) + more && end == at + (if r.stream then 1 else 0)
    ensures Reads(command, end, r.gap + Text(r.target))
  {
    ReadsFrom(command, at, Target(r), more);
    ReadsParts(command, at, if r.stream then ['&'] else "", r.gap + Text(r.target));
  }

  lemma {:induction false} PassesTarget(command: string, at: nat, end: nat, r: Redirection, next: nat)
    requires IsRedirection(r) && MarksFrom(command, at, Bare) == [at] + MarksFrom(command, end, Bare)
    requires Reads(command, end, r.gap + Text(r.target)) && next == end + |r.gap| + |Text(r.target)|
    ensures MarksFrom(command, at, Bare) == [at] + MarksFrom(command, next, Bare)
  {
    TargetIsSilent(r.target);
    PassesSpaced(command, end, r.gap, r.target);
  }

  lemma {:induction false} PassesLead(command: string, i: nat, lead: string, marks: seq<nat>)
    requires AllBlank(lead) && Reads(command, i, lead) && MarksFrom(command, i + |lead|, Bare) == marks
    ensures MarksFrom(command, i, Bare) == marks
  {
    BlankIsPassedOver(lead);
    PassesText(command, i, lead);
  }

  lemma {:induction false} PassesHead(command: string, i: nat, r: Redirection, marks: seq<nat>)
    requires IsRedirection(r) && Reads(command, i, HeadText(r)) && MarksFrom(command, i + |HeadText(r)|, Bare) == marks
    ensures MarksFrom(command, i, Bare) == marks
  {
    ReadsParts(command, i, LineText(r.line), r.lead);
    var at := i + |LineText(r.line)|;
    PassesLead(command, at, r.lead, marks);
    PassesWords(command, i, r.line, at, marks);
  }

  lemma {:induction false} PassesWords(command: string, i: nat, line: seq<Spaced>, at: nat, marks: seq<nat>)
    requires SilentLine(line) && Reads(command, i, LineText(line)) && at == i + |LineText(line)| && MarksFrom(command, at, Bare) == marks
    ensures MarksFrom(command, i, Bare) == marks
  {
    PassesLine(command, i, line);
  }

  lemma {:induction false} HeadReads(command: string, before: string, text: string, more: string)
    requires command == before + (text + more)
    ensures Reads(command, |before|, text) && command == before + text + more
  {
    Assoc(before, text, more);
    ReadsWhole(before, text + more);
    ReadsParts(command, |before|, text, more);
  }

  /** From the words of a redirection to its target there is one mark, its own. */
  lemma {:induction false} OneMarkPassed(command: string, i: nat, at: nat, end: nat, r: Redirection, next: nat)
    requires IsRedirection(r) && Reads(command, i, HeadText(r)) && at == i + |HeadText(r)| && at < |command| && command[at] == '>'
    requires end == (if NamesStream(command, at) then MarkEnd(command, at) + 1 else MarkEnd(command, at))
    requires Reads(command, end, r.gap + Text(r.target)) && next == end + |r.gap| + |Text(r.target)|
    ensures MarksFrom(command, i, Bare) == [at] + MarksFrom(command, next, Bare)
  {
    assert MarksFrom(command, at, Bare) == [at] + MarksFrom(command, next, Bare) by {
      MarkFound(command, at);
      PassesTarget(command, at, end, r, next);
    }
    PassesHead(command, i, r, [at] + MarksFrom(command, next, Bare));
  }

  lemma {:induction false} FilesOfOneMore(command: string, marks: seq<nat>, at: nat, later: seq<nat>)
    requires marks == [at] + later
    ensures FilesAt(command, marks) == FileAt(command, at) + FilesAt(command, later)
  {
    FilesAtMore(command, at, later);
  }

  /** Lists that are no longer than others are equal to them together exactly when each is. */
  lemma {:induction false} EqualTogether<T>(a: seq<T>, b: seq<T>, x: seq<T>, y: seq<T>)
    requires |a| <= |x| && |b| <= |y|
    ensures a + b == x + y <==> a == x && b == y
  {
    if a + b == x + y {
      assert |a + b| == |x + y|;
      assert a == (a + b)[..|a|] && x == (x + y)[..|a|];
      assert b == (a + b)[|a|..] && y == (x + y)[|a|..];
    }
  }

  lemma {:induction false} NextBefore(command: string, at: string, r: Redirection, later: string)
    requires command == at + (Mark(r.twice) + (Target(r) + later))
    ensures var x := at + (Mark(r.twice) + ((if r.stream then ['&'] else "") + r.gap));
            command == (x + Text(r.target)) + later && |x + Text(r.target)| == |at| + |Mark(r.twice)| + |Target(r)|
  {
    var sign := if r.stream then ['&'] else "";
    Assoc(sign, r.gap, Text(r.target));
    Assoc(sign + r.gap, Text(r.target), later);
    Assoc(Mark(r.twice), sign + r.gap, Text(r.target) + later);
    Assoc(at, Mark(r.twice) + (sign + r.gap), Text(r.target) + later);
    Assoc(at + (Mark(r.twice) + (sign + r.gap)), Text(r.target), later);
  }

  lemma {:induction false} NoMoreFiles(command: string, before: string, tail: seq<Spaced>)
    requires SilentLine(tail) && command == before + LineText(tail)
    ensures FilesAt(command, MarksFrom(command, |before|, Bare)) == []
  {
    EmptyConcat(LineText(tail));
    HeadReads(command, before, LineText(tail), "");
    NothingAtEnd(command, |command|);
    PassesWords(command, |before|, tail, |command|, []);
  }

  lemma {:induction false} FilesFrom(command: string, x: string, prev: seq<Piece>, rs: seq<Redirection>, tail: seq<Spaced>)
    requires AllRedirect(prev, rs, tail) && SoundWord(prev) && (prev == [] ==> x == "")
    requires command == (x + Text(prev)) + RedirectedText(rs, tail)
    ensures var files := FilesAt(command, MarksFrom(command, |x + Text(prev)|, Bare));
            && |files| <= |WantedFiles(rs)|
            && (files == WantedFiles(rs) <==> AllReadRight(prev, rs, tail))
    decreases |rs|
  {
    var before := x + Text(prev);
    if rs == [] {
      NoMoreFiles(command, before, tail);
    } else {
      var r, later := rs[0], RedirectedText(rs[1..], tail);
      var at := before + HeadText(r);
      HeadReads(command, before, HeadText(r), Mark(r.twice) + (Target(r) + later));
      NextBefore(command, at, r, later);
      TargetIsSilent(r.target);
      LaterDelimits(r.target, rs[1..], tail);
      NumberBeforeMark(x, prev, r);
      FileIsReadExactly(command, at, prev, r, later);
      var x' := at + (Mark(r.twice) + ((if r.stream then ['&'] else "") + r.gap));
      FilesFrom(command, x', r.target, rs[1..], tail);
      OneMoreFile(command, |before|, at, r, later, |x' + Text(r.target)|);
      EqualTogether(FileAt(command, |at|), FilesAt(command, MarksFrom(command, |x' + Text(r.target)|, Bare)), Wanted(r), WantedFiles(rs[1..]));
    }
  }

  lemma {:induction false} TargetEnds(r: Redirection)
    ensures |Target(r)| == (if r.stream then 1 else 0) + |r.gap| + |Text(r.target)|
  {
  }

  lemma {:induction false} OneMoreFile(command: string, i: nat, at: string, r: Redirection, more: string, next: nat)
    requires IsRedirection(r) && command == at + (Mark(r.twice) + (Target(r) + more))
    requires Reads(command, i, HeadText(r)) && |at| == i + |HeadText(r)| && next == |at| + |Mark(r.twice)| + |Target(r)|
    ensures FilesAt(command, MarksFrom(command, i, Bare)) == FileAt(command, |at|) + FilesAt(command, MarksFrom(command, next, Bare))
  {
    var end := MarkPlace(command, at, r, more);
    TargetEnds(r);
    OneMarkPassed(command, i, |at|, end, r, next);
    FilesOfOneMore(command, MarksFrom(command, i, Bare), |at|, MarksFrom(command, next, Bare));
  }

  /**
   The files read in a command are the spelled ones, in order, exactly when each of its
   redirections that names a file is followed by a blank or the end and has no white
   space in the word that touches it before digits that number another stream.
   */
  lemma {:induction false} RedirectionsAreReadExactly(rs: seq<Redirection>, tail: seq<Spaced>)
    requires AllRedirect([], rs, tail)
    ensures FilesOf(RedirectedText(rs, tail)) == WantedFiles(rs) <==> AllReadRight([], rs, tail)
  {
    EmptyConcat(RedirectedText(rs, tail));
    FilesFrom(RedirectedText(rs, tail), "", [], rs, tail);
  }

  // --------------------------------------------------------------------- what goes wrong

  lemma {:induction false} TargetIsWord(f: seq<Piece>, g: seq<Piece>)
    requires IsTarget(f) && IsTarget(g)
    ensures WordsOf(Text(f) + (['>'] + Text(g))) == [Value(f) + (['>'] + Value(g))]
  {
    var mark := [Plain('>')];
    var glued := f + (mark + g);
    assert mark[1..] == [];
    EmptyConcat(['>']);
    PiecesAppend(mark, g);
    PiecesAppend(f, mark + g);
    assert SoundWord(glued) by {
      forall i | 0 <= i < |glued| ensures Sound(glued[i]) {
        assert i < |f| ==> glued[i] == f[i];
        assert i > |f| ==> glued[i] == g[i - |f| - 1];
      }
    }
    var line := [Spaced("", glued)];
    SpellingReadsBack(line, "");
    assert line[1..] == [];
    EmptyConcat(Text(glued));
    EmptyConcat([Value(glued)]);
  }

  /** A redirection at the start of a command, a blank before its target or not. */
  function Simple(target: seq<Piece>): Redirection {
    Redirection([], "", false, false, "", target)
  }

  lemma {:induction false} SimpleText(target: seq<Piece>, tail: string)
    ensures HeadText(Simple(target)) == "" && Target(Simple(target)) == Text(target)
    ensures HeadText(Simple(target)) + (Mark(false) + (Target(Simple(target)) + tail)) == ['>'] + (Text(target) + tail)
  {
    EmptyConcat(Text(target));
    EmptyConcat(['>'] + (Text(target) + tail));
  }

  lemma {:induction false} SimpleAlone(g: seq<Piece>)
    ensures RedirectedText([Simple(g)], []) == ['>'] + Text(g) && WantedFiles([Simple(g)]) == [Value(g)]
    ensures IsTarget(g) ==> IsRedirection(Simple(g))
  {
    var rs := [Simple(g)];
    assert rs[1..] == [];
    SimpleText(g, "");
    EmptyConcat(Text(g));
    EmptyConcat([Value(g)]);
  }

  lemma {:induction false} GluedSpells(f: seq<Piece>, g: seq<Piece>)
    ensures RedirectedText([Simple(f), Simple(g)], []) == ['>'] + (Text(f) + (['>'] + Text(g)))
    ensures WantedFiles([Simple(f), Simple(g)]) == [Value(f), Value(g)]
  {
    var rs := [Simple(f), Simple(g)];
    assert rs[1..] == [Simple(g)];
    SimpleAlone(g);
    SimpleText(f, ['>'] + Text(g));
    assert [Value(f)] + [Value(g)] == [Value(f), Value(g)];
  }

  lemma {:induction false} LastRedirects(prev: seq<Piece>, g: seq<Piece>)
    requires IsTarget(g) && !IsNumber(prev)
    ensures AllRedirect(prev, [Simple(g)], [])
  {
    SimpleAlone(g);
    SimpleText(g, "");
    assert [Simple(g)][1..] == [];
  }

  lemma {:induction false} GluedRedirect(f: seq<Piece>, g: seq<Piece>)
    requires IsTarget(f) && IsTarget(g) && !IsNumber(f)
    ensures AllRedirect([], [Simple(f), Simple(g)], [])
  {
    assert [Simple(f), Simple(g)][1..] == [Simple(g)];
    LastRedirects(f, g);
    SimpleAlone(f);
  }

  lemma {:induction false} GluedIsNotRight(f: seq<Piece>, g: seq<Piece>)
    ensures !AllReadRight([], [Simple(f), Simple(g)], [])
  {
    assert [Simple(f), Simple(g)][1..] == [Simple(g)];
    SimpleAlone(g);
    assert Number(Simple(f)) == None;
    assert !EndsTarget(['>'] + Text(g));
  }

  /** A mark glued to the name before it is taken into that name: the first file read is neither of the two. */
  lemma {:induction false} GluedTargetIsMisread(f: seq<Piece>, g: seq<Piece>)
    requires IsTarget(f) && IsTarget(g) && !IsNumber(f)
    ensures FilesOf(['>'] + (Text(f) + (['>'] + Text(g)))) != [Value(f), Value(g)]
    ensures FileAt(['>'] + (Text(f) + (['>'] + Text(g))), 0) == [Value(f) + (['>'] + Value(g))]
  {
    GluedSpells(f, g);
    GluedRedirect(f, g);
    GluedIsNotRight(f, g);
    RedirectionsAreReadExactly([Simple(f), Simple(g)], []);
    GluedFileAt(['>'] + (Text(f) + (['>'] + Text(g))), f, g);
  }

  lemma {:induction false} GluedFileAt(command: string, f: seq<Piece>, g: seq<Piece>)
    requires IsTarget(f) && IsTarget(g) && command == ['>'] + (Text(f) + (['>'] + Text(g)))
    ensures FileAt(command, 0) == [Value(f) + (['>'] + Value(g))]
  {
    var rest := ['>'] + Text(g);
    EmptyConcat(Text(f));
    EmptyConcat(command);
    TargetStarts(Simple(f), rest);
    SimpleText(f, rest);
    MarkHeads(command, "", false, Text(f) + rest);
    TargetIsWord(f, g);
    assert StreamBefore("") == None;
  }

  /** Words that touch a mark, and its target after it. */
  function Touched(line: seq<Spaced>, target: seq<Piece>): Redirection {
    Redirection(line, "", false, false, "", target)
  }

  lemma {:induction false} TouchedText(line: seq<Spaced>, target: seq<Piece>)
    ensures HeadText(Touched(line, target)) == LineText(line) && Target(Touched(line, target)) == Text(target)
    ensures LineText(line) + (Mark(false) + (Target(Touched(line, target)) + "")) == LineText(line) + (['>'] + Text(target))
  {
    EmptyConcat(LineText(line));
    EmptyConcat(Text(target));
  }

  lemma {:induction false} TouchedStands(line: seq<Spaced>, target: seq<Piece>)
    requires SoundLine(line) && SilentLine(line) && line != [] && IsTarget(target)
    ensures IsRedirection(Touched(line, target)) && Follows([], Touched(line, target))
    ensures Touching([], Touched(line, target)) == line[|line| - 1].word
  {
  }

  lemma {:induction false} MisnumberedIsNoNumber(word: seq<Piece>)
    requires IsMisnumbered(word)
    ensures !IsNumber(word)
  {
    var k := DigitsStart(word);
    assert IsSpacePiece(word[k - 1]);
  }

  lemma {:induction false} TouchedWanted(line: seq<Spaced>, target: seq<Piece>)
    requires line != [] && IsMisnumbered(line[|line| - 1].word)
    ensures Wanted(Touched(line, target)) == [Value(target)]
  {
    MisnumberedIsNoNumber(line[|line| - 1].word);
  }

  lemma {:induction false} TouchedNumber(line: seq<Spaced>, target: seq<Piece>)
    requires SoundLine(line) && SilentLine(line) && line != [] && IsTarget(target) && Misleads(line[|line| - 1].word)
    ensures StreamBefore(LineText(line)) == NumberRead(line[|line| - 1].word) && !Sends(NumberRead(line[|line| - 1].word))
  {
    var r := Touched(line, target);
    TouchedStands(line, target);
    TouchedText(line, target);
    NumberBeforeMark("", [], r);
    EmptyConcat(LineText(line));
    SendsUnlessMisled([], r);
  }

  lemma {:induction false} TouchedFile(command: string, line: seq<Spaced>, target: seq<Piece>)
    requires SoundLine(line) && SilentLine(line) && line != [] && IsTarget(target) && Misleads(line[|line| - 1].word)
    requires command == LineText(line) + (['>'] + Text(target))
    ensures FileAt(command, |LineText(line)|) == [] && Wanted(Touched(line, target)) == [Value(target)]
  {
    TouchedStands(line, target);
    TouchedWanted(line, target);
    TouchedText(line, target);
    TouchedNumber(line, target);
    FileIsReadExactly(command, LineText(line), [], Touched(line, target), "");
  }

  /** Words whose last has white space before its digits send nothing to the file named after the mark they touch. */
  lemma {:induction false} MisledTargetIsDropped(line: seq<Spaced>, target: seq<Piece>)
    requires SoundLine(line) && SilentLine(line) && line != [] && IsTarget(target) && Misleads(line[|line| - 1].word)
    ensures FilesOf(LineText(line) + (['>'] + Text(target))) == [] && Wanted(Touched(line, target)) == [Value(target)]
  {
    var command := LineText(line) + (['>'] + Text(target));
    TouchedFile(command, line, target);
    TouchedText(line, target);
    ReadsWhole(LineText(line), ['>'] + Text(target));
    OneMoreFile(command, 0, LineText(line), Touched(line, target), "", |command|);
    NothingAtEnd(command, |command|);
  }

  lemma {:induction false} NothingAtEnd(command: string, i: nat)
    requires i >= |command|
    ensures MarksFrom(command, i, Bare) == []
  {
  }

  lemma {:induction false} ExampleMisleads(word: seq<Piece>)
    requires word == [Plain('x'), Escaped(' '), Plain('2')]
    ensures SoundLine([Spaced("", word)]) && SilentLine([Spaced("", word)]) && Misleads(word)
  {
    assert word[..2] == [Plain('x'), Escaped(' ')];
    assert DigitsStart(word[..2]) == 2;
    assert word[2..] == [Plain('2')];
    OnePiece(Plain('2'));
  }

  lemma {:induction false} ExampleSpells(word: seq<Piece>)
    requires word == [Plain('x'), Escaped(' '), Plain('2')]
    ensures LineText([Spaced("", word)]) == "x\\ 2" && Value(word) == "x 2"
  {
    assert word == [Plain('x'), Escaped(' ')] + [Plain('2')];
    TwoMore(Plain('x'), Escaped(' '), [Plain('2')]);
    One(Plain('2'));
    OneSpaced(Spaced("", word));
    ExampleTexts();
    EmptyConcat("x\\ 2");
  }

  lemma {:induction false} ExampleTexts()
    ensures ['x'] + (['\\', ' '] + ['2']) == "x\\ 2" && ['x'] + ([' '] + ['2']) == "x 2"
  {
  }

  /** The one word `x\ 2` before a mark: its last sign is read as the number of a stream. */
  lemma {:induction false} MisledExample()
    ensures FilesOf("x\\ 2" + (['>'] + ['f'])) == [] && WordsOf("x\\ 2") == ["x 2"]
  {
    var word, target := [Plain('x'), Escaped(' '), Plain('2')], [Plain('f')];
    var line := [Spaced("", word)];
    ExampleMisleads(word);
    ExampleSpells(word);
    OnePiece(Plain('f'));
    MisledTargetIsDropped(line, target);
    SpellingReadsBack(line, "");
    assert line[1..] == [];
    EmptyConcat(LineText(line));
  }
}
