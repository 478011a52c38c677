/**
 How a command line is cut into words, and how words are quoted into one. A word is
 spelled by pieces: signs as they stand, signs behind a `\`, text in single quotes and
 text in double quotes, as in section 2.2 of the Shell Command Language in POSIX.1-2017,
 but for a newline behind a `\`, which that section removes and this reading keeps.
 */
module ShellWords {
  import opened Wrappers
  import opened Sequences

  datatype Quote = Bare | Single | Double

  predicate IsBlank(c: char) {
    c == ' ' || c == '\t' || c == '\n'
  }

  /** The signs a `\` escapes inside double quotes. */
  predicate KeptInDouble(c: char) {
    c == '$' || c == '`' || c == '"' || c == '\\' || c == '\n'
  }

  /** The characters Unicode calls white space. */
  predicate IsWhitespace(c: char) {
    || '\t' <= c <= '\r' || c == ' ' || c == '\U{85}' || c == '\U{A0}' || c == '\U{1680}'
    || '\U{2000}' <= c <= '\U{200A}' || c == '\U{2028}' || c == '\U{2029}' || c == '\U{202F}'
    || c == '\U{205F}' || c == '\U{3000}'
  }

  predicate AllBlank(s: string) {
    forall i :: 0 <= i < |s| ==> IsBlank(s[i])
  }

  // ------------------------------------------------------------------- the reader

  /** The quote that is open after `sign`. */
  function NextQuote(sign: char, quote: Quote): Quote {
    if sign == '\'' && !quote.Double? then (if quote.Bare? then Single else Bare)
    else if sign == '"' && !quote.Single? then (if quote.Bare? then Double else Bare)
    else quote
  }

  function Flush(word: Option<string>): seq<string> {
    if word.Some? then [word.value] else []
  }

  function Put(word: Option<string>, more: string): Option<string> {
    Some(if word.Some? then word.value + more else more)
  }

  /** What a `\` and the sign after it put into a word. */
  function Unescaped(c: char, quote: Quote): string {
    if quote.Double? && !KeptInDouble(c) then ['\\', c] else [c]
  }

  /** The words of the rest of a command, `word` being read and `quote` open. */
  function WordsFrom(rest: string, word: Option<string>, quote: Quote): seq<string>
    decreases |rest|
  {
    if rest == "" then Flush(word)
    else if quote.Bare? && IsBlank(rest[0]) then Flush(word) + WordsFrom(rest[1..], None, Bare)
    else if quote.Bare? && rest[0] == '\'' then WordsFrom(rest[1..], Put(word, ""), Single)
    else if quote.Bare? && rest[0] == '"' then WordsFrom(rest[1..], Put(word, ""), Double)
    else if (quote.Single? && rest[0] == '\'') || (quote.Double? && rest[0] == '"') then WordsFrom(rest[1..], word, Bare)
    else if !quote.Single? && rest[0] == '\\' then
      if |rest| == 1 then Flush(Put(word, if quote.Double? then "\\" else ""))
      else WordsFrom(rest[2..], Put(word, Unescaped(rest[1], quote)), quote)
    else WordsFrom(rest[1..], Put(word, [rest[0]]), quote)
  }

  /** The words a whole command reads as. */
  function WordsOf(command: string): seq<string> {
    WordsFrom(command, None, Bare)
  }

  lemma {:induction false} SliceAfter(s: string, i: nat, n: nat)
    requires i + n <= |s|
    ensures s[i..][n..] == s[i + n..]
  {
  }

  /** Reads the words in one pass over the command. */
  method Words(command: string) returns (words: seq<string>)
    ensures words == WordsOf(command)
  {
    words := [];
    var word: Option<string> := None;
    var quote := Bare;
    var i := 0;
    EmptyConcat(command);
    EmptyConcat(WordsOf(command));
    while i < |command|
      invariant 0 <= i <= |command|
      invariant WordsOf(command) == words + WordsFrom(command[i..], word, quote)
    {
      var sign := command[i];
      ghost var at := i;
      SliceAfter(command, i, 1);
      i := i + 1;
      if quote.Bare? && IsBlank(sign) {
        Assoc(words, Flush(word), WordsFrom(command[i..], None, Bare));
        words := words + Flush(word);
        word := None;
      } else if quote.Bare? && sign == '\'' {
        quote := Single;
        word := Put(word, "");
      } else if quote.Bare? && sign == '"' {
        quote := Double;
        word := Put(word, "");
      } else if (quote.Single? && sign == '\'') || (quote.Double? && sign == '"') {
        quote := Bare;
      } else if !quote.Single? && sign == '\\' {
        if i < |command| {
          SliceAfter(command, at, 2);
          word := Put(word, Unescaped(command[i], quote));
          i := i + 1;
        } else {
          word := Put(word, if quote.Double? then "\\" else "");
        }
      } else {
        word := Put(word, [sign]);
      }
    }
    words := words + Flush(word);
  }

  // ------------------------------------------------------------------ the spelling

  /** One sign inside double quotes, or a `\` and the sign after it. */
  datatype Item = Sign(c: char) | Slashed(c: char)

  datatype Piece = Plain(c: char) | Escaped(c: char) | SingleQuoted(text: string) | DoubleQuoted(items: seq<Item>)

  predicate SoundItem(item: Item) {
    item.Sign? ==> item.c != '"' && item.c != '\\'
  }

  predicate Sound(piece: Piece) {
    match piece
    case Plain(c) => !IsBlank(c) && c != '\'' && c != '"' && c != '\\'
    case Escaped(_) => true
    case SingleQuoted(text) => forall i :: 0 <= i < |text| ==> text[i] != '\''
    case DoubleQuoted(items) => forall i :: 0 <= i < |items| ==> SoundItem(items[i])
  }

  function ItemText(item: Item): string {
    if item.Sign? then [item.c] else ['\\', item.c]
  }

  function ItemsText(items: seq<Item>): string {
    if items == [] then "" else ItemText(items[0]) + ItemsText(items[1..])
  }

  /** What an item stands for: a `\` is gone before the signs section 2.2.3 of that chapter lists, and stays before any other. */
  function ItemValue(item: Item): string {
    match item
    case Sign(c) => [c]
    case Slashed(c) => if c == '$' || c == '`' || c == '"' || c == '\\' || c == '\n' then [c] else ['\\', c]
  }

  function ItemsValue(items: seq<Item>): string {
    if items == [] then "" else ItemValue(items[0]) + ItemsValue(items[1..])
  }

  /** How a piece is written. */
  function PieceText(piece: Piece): string {
    match piece
    case Plain(c) => [c]
    case Escaped(c) => ['\\', c]
    case SingleQuoted(text) => ['\''] + text + ['\'']
    case DoubleQuoted(items) => ['"'] + ItemsText(items) + ['"']
  }

  /** What a piece stands for. */
  function PieceValue(piece: Piece): string {
    match piece
    case Plain(c) => [c]
    case Escaped(c) => [c]
    case SingleQuoted(text) => text
    case DoubleQuoted(items) => ItemsValue(items)
  }

  function Text(pieces: seq<Piece>): string {
    if pieces == [] then "" else PieceText(pieces[0]) + Text(pieces[1..])
  }

  function Value(pieces: seq<Piece>): string {
    if pieces == [] then "" else PieceValue(pieces[0]) + Value(pieces[1..])
  }

  predicate SoundWord(pieces: seq<Piece>) {
    forall i :: 0 <= i < |pieces| ==> Sound(pieces[i])
  }

  /** A word and the blanks before it. */
  datatype Spaced = Spaced(gap: string, word: seq<Piece>)

  function LineText(line: seq<Spaced>): string {
    if line == [] then "" else line[0].gap + (Text(line[0].word) + LineText(line[1..]))
  }

  function LineValue(line: seq<Spaced>): seq<string> {
    if line == [] then [] else [Value(line[0].word)] + LineValue(line[1..])
  }

  /** Words spelled soundly, with blanks between every two. */
  predicate SoundLine(line: seq<Spaced>) {
    && (forall i :: 0 <= i < |line| ==> AllBlank(line[i].gap) && line[i].word != [] && SoundWord(line[i].word))
    && (forall i :: 0 < i < |line| ==> line[i].gap != "")
  }

  // ---------------------------------------------------- the reader reads the spelling

  lemma {:induction false} PutTwice(word: Option<string>, a: string, b: string)
    ensures Put(Put(word, a), b) == Put(word, a + b)
  {
    if word.Some? {
      Assoc(word.value, a, b);
    }
  }

  lemma {:induction false} Uncons(c: char, rest: string)
    ensures ([c] + rest)[0] == c && ([c] + rest)[1..] == rest && [c] + rest != ""
  {
  }

  lemma {:induction false} Uncons2(c: char, d: char, rest: string)
    ensures ([c, d] + rest)[0] == c && ([c, d] + rest)[1] == d && ([c, d] + rest)[2..] == rest && |[c, d] + rest| >= 2
  {
  }

  lemma {:induction false} ReadsSingle(text: string, rest: string, word: Option<string>)
    requires forall i :: 0 <= i < |text| ==> text[i] != '\''
    ensures WordsFrom(text + (['\''] + rest), word, Single) == WordsFrom(rest, if text == "" then word else Put(word, text), Bare)
    decreases |text|
  {
    if text == "" {
      EmptyConcat(['\''] + rest);
      Uncons('\'', rest);
    } else {
      TailOfConcat(text, ['\''] + rest);
      HeadSplit(text);
      ReadsSingle(text[1..], rest, Put(word, [text[0]]));
      PutTwice(word, [text[0]], text[1..]);
      EmptyConcat([text[0]]);
    }
  }

  lemma {:induction false} ReadsDouble(items: seq<Item>, rest: string, word: Option<string>)
    requires forall i :: 0 <= i < |items| ==> SoundItem(items[i])
    ensures WordsFrom(ItemsText(items) + (['"'] + rest), word, Double)
         == WordsFrom(rest, if items == [] then word else Put(word, ItemsValue(items)), Bare)
    decreases |items|
  {
    var tail := ['"'] + rest;
    if items == [] {
      EmptyConcat(tail);
      Uncons('"', rest);
    } else {
      var c, more := items[0].c, ItemsText(items[1..]);
      var read := ItemValue(items[0]);
      assert SoundItem(items[0]);
      if items[0].Sign? {
        Assoc([c], more, tail);
        Uncons(c, more + tail);
      } else {
        Assoc(['\\', c], more, tail);
        Uncons2('\\', c, more + tail);
      }
      ReadsDouble(items[1..], rest, Put(word, read));
      PutTwice(word, read, ItemsValue(items[1..]));
      if items[1..] == [] {
        EmptyConcat(read);
      }
    }
  }

  lemma {:induction false} ReadsPiece(piece: Piece, rest: string, word: Option<string>)
    requires Sound(piece)
    ensures WordsFrom(PieceText(piece) + rest, word, Bare) == WordsFrom(rest, Put(word, PieceValue(piece)), Bare)
  {
    match piece
    case Plain(c) => Uncons(c, rest);
    case Escaped(c) => Uncons2('\\', c, rest);
    case SingleQuoted(text) =>
      Enclosed('\'', text, rest);
      Uncons('\'', text + (['\''] + rest));
      ReadsSingle(text, rest, Put(word, ""));
      PutTwice(word, "", text);
      EmptyConcat(text);
    case DoubleQuoted(items) =>
      Enclosed('"', ItemsText(items), rest);
      Uncons('"', ItemsText(items) + (['"'] + rest));
      ReadsDouble(items, rest, Put(word, ""));
      PutTwice(word, "", ItemsValue(items));
      EmptyConcat(ItemsValue(items));
  }

  lemma {:induction false} Enclosed(mark: char, text: string, rest: string)
    ensures ([mark] + text + [mark]) + rest == [mark] + (text + ([mark] + rest))
  {
  }

  lemma {:induction false} ReadsPieces(pieces: seq<Piece>, rest: string, word: Option<string>)
    requires SoundWord(pieces)
    ensures WordsFrom(Text(pieces) + rest, word, Bare)
         == WordsFrom(rest, if pieces == [] then word else Put(word, Value(pieces)), Bare)
    decreases |pieces|
  {
    if pieces == [] {
      EmptyConcat(rest);
    } else {
      var value := PieceValue(pieces[0]);
      Assoc(PieceText(pieces[0]), Text(pieces[1..]), rest);
      ReadsPiece(pieces[0], Text(pieces[1..]) + rest, word);
      ReadsPieces(pieces[1..], rest, Put(word, value));
      PutTwice(word, value, Value(pieces[1..]));
      if pieces[1..] == [] {
        EmptyConcat(value);
      }
    }
  }

  lemma {:induction false} ReadsGap(gap: string, rest: string, word: Option<string>)
    requires AllBlank(gap)
    ensures WordsFrom(gap + rest, word, Bare)
         == (if gap == "" then WordsFrom(rest, word, Bare) else Flush(word) + WordsFrom(rest, None, Bare))
    decreases |gap|
  {
    if gap == "" {
      EmptyConcat(rest);
    } else {
      TailOfConcat(gap, rest);
      ReadsGap(gap[1..], rest, None);
      EmptyConcat(WordsFrom(rest, None, Bare));
    }
  }

  lemma {:induction false} ReadsOn(line: seq<Spaced>, trail: string, word: Option<string>)
    requires SoundLine(line) && AllBlank(trail) && (word.Some? && line != [] ==> line[0].gap != "")
    ensures WordsFrom(LineText(line) + trail, word, Bare) == Flush(word) + LineValue(line)
    decreases |line|
  {
    if line == [] {
      EmptyConcat(trail);
      ReadsGap(trail, "", word);
      EmptyConcat(Flush(word));
    } else {
      var gap, pieces, more := line[0].gap, line[0].word, LineText(line[1..]);
      assert LineText(line) + trail == gap + (Text(pieces) + (more + trail));
      ReadsGap(gap, Text(pieces) + (more + trail), word);
      ReadsPieces(pieces, more + trail, None);
      ReadsOn(line[1..], trail, Some(Value(pieces)));
      EmptyConcat(LineValue(line));
    }
  }

  /** A line spelled soundly reads as the words its pieces stand for. */
  lemma {:induction false} SpellingReadsBack(line: seq<Spaced>, trail: string)
    requires SoundLine(line) && AllBlank(trail)
    ensures WordsOf(LineText(line) + trail) == LineValue(line)
  {
    ReadsOn(line, trail, None);
    EmptyConcat(LineValue(line));
  }

  // ---------------------------------------------- the spelling covers every closed command

  /** The rest of a command closes every quote it opens, and no `\` ends it. */
  predicate Closes(rest: string, quote: Quote)
    decreases |rest|
  {
    if rest == "" then quote.Bare?
    else if quote.Bare? && rest[0] == '\'' then Closes(rest[1..], Single)
    else if quote.Bare? && rest[0] == '"' then Closes(rest[1..], Double)
    else if (quote.Single? && rest[0] == '\'') || (quote.Double? && rest[0] == '"') then Closes(rest[1..], Bare)
    else if !quote.Single? && rest[0] == '\\' then |rest| > 1 && Closes(rest[2..], quote)
    else Closes(rest[1..], quote)
  }

  lemma {:induction false} SpellSingle(rest: string) returns (text: string, after: string)
    requires Closes(rest, Single)
    ensures rest == text + (['\''] + after) && Closes(after, Bare) && Sound(SingleQuoted(text))
    decreases |rest|
  {
    HeadSplit(rest);
    if rest[0] == '\'' {
      text, after := "", rest[1..];
    } else {
      var more: string;
      more, after := SpellSingle(rest[1..]);
      text := [rest[0]] + more;
    }
  }

  lemma {:induction false} SpellDouble(rest: string) returns (items: seq<Item>, after: string)
    requires Closes(rest, Double)
    ensures rest == ItemsText(items) + (['"'] + after) && Closes(after, Bare) && Sound(DoubleQuoted(items))
    decreases |rest|
  {
    HeadSplit(rest);
    if rest[0] == '"' {
      items, after := [], rest[1..];
      EmptyConcat(rest);
    } else {
      var item := if rest[0] == '\\' then Slashed(rest[1]) else Sign(rest[0]);
      var n := if rest[0] == '\\' then 2 else 1;
      var more: seq<Item>;
      more, after := SpellDouble(rest[n..]);
      items := [item] + more;
      assert items[1..] == more;
      Rejoin(rest, n);
      assert rest[..n] == (if item.Sign? then [item.c] else ['\\', item.c]);
      Assoc(rest[..n], ItemsText(more), ['"'] + after);
    }
  }

  lemma {:induction false} SpellPiece(rest: string) returns (piece: Piece, after: string)
    requires Closes(rest, Bare) && rest != "" && !IsBlank(rest[0])
    ensures Sound(piece) && rest == PieceText(piece) + after && Closes(after, Bare) && |after| < |rest|
  {
    HeadSplit(rest);
    if rest[0] == '\'' {
      var text: string;
      text, after := SpellSingle(rest[1..]);
      piece := SingleQuoted(text);
      Enclosed('\'', text, after);
    } else if rest[0] == '"' {
      var items: seq<Item>;
      items, after := SpellDouble(rest[1..]);
      piece := DoubleQuoted(items);
      Enclosed('"', ItemsText(items), after);
    } else if rest[0] == '\\' {
      piece, after := Escaped(rest[1]), rest[2..];
      assert rest[..2] == PieceText(piece);
      Rejoin(rest, 2);
    } else {
      piece, after := Plain(rest[0]), rest[1..];
    }
  }

  ghost predicate IsSpelling(rest: string, lead: seq<Piece>, line: seq<Spaced>, trail: string) {
    && rest == Text(lead) + (LineText(line) + trail)
    && SoundWord(lead) && SoundLine(line) && AllBlank(trail) && (line != [] ==> line[0].gap != "")
  }

  lemma {:induction false} SpellRest(rest: string) returns (lead: seq<Piece>, line: seq<Spaced>, trail: string)
    requires Closes(rest, Bare)
    ensures IsSpelling(rest, lead, line, trail)
    decreases |rest|
  {
    if rest == "" {
      lead, line, trail := [], [], "";
    } else if IsBlank(rest[0]) {
      lead, line, trail := SpellRest(rest[1..]);
      lead, line, trail := SpellBlank(rest, lead, line, trail);
    } else {
      var piece, after := SpellPiece(rest);
      lead, line, trail := SpellRest(after);
      lead := SpellMore(rest, piece, after, lead, line, trail);
    }
  }

  lemma {:induction false} SpellMore(rest: string, piece: Piece, after: string, lead: seq<Piece>, line: seq<Spaced>, trail: string)
    returns (lead': seq<Piece>)
    requires Sound(piece) && rest == PieceText(piece) + after && IsSpelling(after, lead, line, trail)
    ensures IsSpelling(rest, lead', line, trail)
  {
    lead' := [piece] + lead;
    assert lead'[1..] == lead;
    Assoc(PieceText(piece), Text(lead), LineText(line) + trail);
    assert forall i :: 0 < i < |lead'| ==> lead'[i] == lead[i - 1];
  }

  lemma {:induction false} SpacedMore(first: Spaced, line: seq<Spaced>)
    requires SoundLine(line) && (line != [] ==> line[0].gap != "")
    requires AllBlank(first.gap) && first.word != [] && SoundWord(first.word)
    ensures SoundLine([first] + line) && LineText([first] + line) == first.gap + (Text(first.word) + LineText(line))
  {
    var all := [first] + line;
    assert all[1..] == line;
    assert forall i :: 0 < i < |all| ==> all[i] == line[i - 1];
  }

  lemma {:induction false} SoundTail(line: seq<Spaced>)
    requires SoundLine(line) && line != []
    ensures SoundLine(line[1..]) && (line[1..] != [] ==> line[1..][0].gap != "") && line[0].word != [] && SoundWord(line[0].word) && AllBlank(line[0].gap)
  {
  }

  lemma {:induction false} SpellBlank(rest: string, lead: seq<Piece>, line: seq<Spaced>, trail: string)
    returns (lead': seq<Piece>, line': seq<Spaced>, trail': string)
    requires rest != "" && IsBlank(rest[0]) && IsSpelling(rest[1..], lead, line, trail)
    ensures IsSpelling(rest, lead', line', trail')
  {
    var b := [rest[0]];
    HeadSplit(rest);
    lead', line', trail' := [], line, trail;
    if lead != [] {
      line' := [Spaced(b, lead)] + line;
      SpacedMore(Spaced(b, lead), line);
      GapThen(b, "", Text(lead), LineText(line), trail);
    } else if line != [] {
      var first := Spaced(b + line[0].gap, line[0].word);
      line' := [first] + line[1..];
      SoundTail(line);
      SpacedMore(first, line[1..]);
      GapThen(b, line[0].gap, Text(line[0].word), LineText(line[1..]), trail);
    } else {
      trail' := b + trail;
      GapThen(b, "", "", "", trail);
    }
  }

  lemma {:induction false} GapThen(b: string, gap: string, word: string, more: string, trail: string)
    ensures b + (word + (more + trail)) == "" + ((b + (word + more)) + trail)
    ensures b + ("" + ((gap + (word + more)) + trail)) == "" + (((b + gap) + (word + more)) + trail)
    ensures b + ("" + ("" + trail)) == "" + ("" + (b + trail))
  {
  }

  /** Every command that closes its quotes has a sound spelling, and reads as what it spells. */
  lemma {:induction false} ClosedIsSpelled(command: string) returns (line: seq<Spaced>, trail: string)
    requires Closes(command, Bare)
    ensures SoundLine(line) && AllBlank(trail) && command == LineText(line) + trail && WordsOf(command) == LineValue(line)
  {
    var lead, more, tail := SpellRest(command);
    trail := tail;
    if lead == [] {
      line := more;
      EmptyConcat(command);
    } else {
      line := [Spaced("", lead)] + more;
      assert line[1..] == more;
      EmptyConcat(Text(lead) + LineText(more));
      Assoc(Text(lead), LineText(more), trail);
      assert forall i :: 0 < i < |line| ==> line[i] == more[i - 1];
    }
    SpellingReadsBack(line, trail);
  }

  // --------------------------------------------------------------------- sh_quoted

  predicate IsAsciiAlphanumeric(c: char) {
    ('a' <= c <= 'z') || ('A' <= c <= 'Z') || ('0' <= c <= '9')
  }

  /** A sign no shell reads as anything but itself. */
  predicate IsUnread(c: char) {
    || IsAsciiAlphanumeric(c)
    || c == '_' || c == '.' || c == '/' || c == '=' || c == ':' || c == '-' || c == '@' || c == '%' || c == '+' || c == ','
  }

  predicate NeedsNoQuote(part: string) {
    part != "" && forall i :: 0 <= i < |part| ==> IsUnread(part[i])
  }

  /** Each `'` ends the quote, stands behind a `\`, and opens the quote again. */
  function QuotesReplaced(part: string): string {
    if part == "" then "" else (if part[0] == '\'' then ['\'', '\\', '\'', '\''] else [part[0]]) + QuotesReplaced(part[1..])
  }

  function ShQuoted(part: string): string {
    if NeedsNoQuote(part) then part else ['\''] + QuotesReplaced(part) + ['\'']
  }

  function PlainPieces(part: string): seq<Piece> {
    if part == "" then [] else [Plain(part[0])] + PlainPieces(part[1..])
  }

  /** The pieces of a quoted part, `text` being what the open quote holds. */
  function QuotedPieces(part: string, text: string): seq<Piece>
    decreases |part|
  {
    if part == "" then [SingleQuoted(text)]
    else if part[0] == '\'' then [SingleQuoted(text), Escaped('\'')] + QuotedPieces(part[1..], "")
    else QuotedPieces(part[1..], text + [part[0]])
  }

  function PiecesOf(part: string): seq<Piece> {
    if NeedsNoQuote(part) then PlainPieces(part) else QuotedPieces(part, "")
  }

  lemma {:induction false} PlainSpells(part: string)
    requires forall i :: 0 <= i < |part| ==> IsUnread(part[i])
    ensures |PlainPieces(part)| == |part| && Text(PlainPieces(part)) == part && Value(PlainPieces(part)) == part
    ensures forall i :: 0 <= i < |part| ==> PlainPieces(part)[i] == Plain(part[i])
  {
    if part != "" {
      PlainSpells(part[1..]);
      HeadSplit(part);
      assert PlainPieces(part)[1..] == PlainPieces(part[1..]);
    }
  }

  lemma {:induction false} TwoMore(a: Piece, b: Piece, more: seq<Piece>)
    ensures Text([a, b] + more) == PieceText(a) + (PieceText(b) + Text(more))
    ensures Value([a, b] + more) == PieceValue(a) + (PieceValue(b) + Value(more))
  {
    var all := [a, b] + more;
    assert all[0] == a && all[1..] == [b] + more;
    assert all[1..][0] == b && all[1..][1..] == more;
  }

  lemma {:induction false} One(a: Piece)
    ensures Text([a]) == PieceText(a) && Value([a]) == PieceValue(a)
  {
    assert [a][1..] == [];
    EmptyConcat(PieceText(a));
    EmptyConcat(PieceValue(a));
  }

  predicate Unquoted(text: string) {
    forall i :: 0 <= i < |text| ==> text[i] != '\''
  }

  predicate InQuotes(piece: Piece) {
    piece == Escaped('\'') || (piece.SingleQuoted? && Unquoted(piece.text))
  }

  lemma {:induction false} QuotedSpells(part: string, text: string)
    requires Unquoted(text)
    ensures Text(QuotedPieces(part, text)) == ['\''] + (text + QuotesReplaced(part)) + ['\'']
    ensures Value(QuotedPieces(part, text)) == text + part
    decreases |part|
  {
    if part == "" {
      One(SingleQuoted(text));
      EmptyConcat(text);
    } else if part[0] == '\'' {
      QuotedSpells(part[1..], "");
      TwoMore(SingleQuoted(text), Escaped('\''), QuotedPieces(part[1..], ""));
      EndsAndOpens(text, QuotesReplaced(part[1..]));
      HeadSplit(part);
      EmptyConcat(part[1..]);
    } else {
      QuotedSpells(part[1..], text + [part[0]]);
      HeadSplit(part);
      Assoc(text, [part[0]], part[1..]);
      Assoc(text, [part[0]], QuotesReplaced(part[1..]));
    }
  }

  lemma {:induction false} QuotedIsInQuotes(part: string, text: string)
    requires Unquoted(text)
    ensures QuotedPieces(part, text) != []
    ensures forall i :: 0 <= i < |QuotedPieces(part, text)| ==> InQuotes(QuotedPieces(part, text)[i])
    decreases |part|
  {
    if part != "" {
      QuotedIsInQuotes(part[1..], if part[0] == '\'' then "" else text + [part[0]]);
    }
  }

  lemma {:induction false} EndsAndOpens(text: string, more: string)
    ensures (['\''] + text + ['\'']) + (['\\', '\''] + (['\''] + ("" + more) + ['\'']))
         == ['\''] + (text + (['\'', '\\', '\'', '\''] + more)) + ['\'']
  {
    assert ['\''] + (['\\', '\''] + ['\'']) == ['\'', '\\', '\'', '\''];
    assert "" + more == more;
  }

  lemma {:induction false} PlainIsSound(part: string)
    requires forall i :: 0 <= i < |part| ==> IsUnread(part[i])
    ensures SoundWord(PlainPieces(part))
  {
    PlainSpells(part);
    forall i | 0 <= i < |part| ensures Sound(Plain(part[i])) {
      assert IsUnread(part[i]);
    }
  }

  /** The signs section 2.2 of that chapter has quoted wherever they stand for themselves, and those a pattern, a tilde, a comment, a brace or a history is read by. */
  predicate IsSpecial(c: char) {
    || c == '|' || c == '&' || c == ';' || c == '<' || c == '>' || c == '(' || c == ')' || c == '$' || c == '`' || c == '\\'
    || c == '"' || c == '\'' || c == ' ' || c == '\t' || c == '\n'
    || c == '*' || c == '?' || c == '[' || c == ']' || c == '#' || c == '~' || c == '{' || c == '}' || c == '!' || c == '^'
  }

  /** A part left as it stands holds no sign a shell reads, and every other is one text in single quotes or more. */
  lemma {:induction false} UnquotedHoldsNothingSpecial(part: string)
    ensures ShQuoted(part) == part ==> part != "" && forall i :: 0 <= i < |part| ==> !IsSpecial(part[i])
    ensures ShQuoted(part) != part ==> |ShQuoted(part)| >= 2 && ShQuoted(part)[0] == '\'' && ShQuoted(part)[|ShQuoted(part)| - 1] == '\''
  {
    if !NeedsNoQuote(part) {
      QuotingLengthens(part);
    }
    forall i | 0 <= i < |part| && NeedsNoQuote(part) ensures !IsSpecial(part[i]) {
      assert IsUnread(part[i]);
    }
  }

  lemma {:induction false} QuotingLengthens(part: string)
    ensures |QuotesReplaced(part)| >= |part|
    decreases |part|
  {
    if part != "" {
      QuotingLengthens(part[1..]);
    }
  }

  /** Two texts with a sign between them are two words exactly when the sign is a space, a tab or a newline. */
  lemma {:induction false} SplitsAtExactly(a: string, c: char, b: string)
    requires NeedsNoQuote(a) && NeedsNoQuote(b) && c != '\'' && c != '"' && c != '\\'
    ensures WordsOf(a + ([c] + b)) == [a, b] <==> c == ' ' || c == '\t' || c == '\n'
    ensures WordsOf(a + ([c] + b)) == [a, b] || WordsOf(a + ([c] + b)) == [(a + [c]) + b]
  {
    PlainSpells(a);
    PlainIsSound(a);
    ReadsPieces(PlainPieces(a), [c] + b, None);
    Uncons(c, b);
    if c == ' ' || c == '\t' || c == '\n' {
      EndsAsWord(b, None);
      assert [a] + [b] == [a, b];
    } else {
      EndsAsWord(b, Some(a + [c]));
    }
  }

  lemma {:induction false} EndsAsWord(b: string, word: Option<string>)
    requires NeedsNoQuote(b)
    ensures WordsFrom(b, word, Bare) == [Put(word, b).value]
  {
    PlainSpells(b);
    PlainIsSound(b);
    EmptyConcat(b);
    ReadsPieces(PlainPieces(b), "", word);
  }

  lemma {:induction false} InQuotesIsSound(pieces: seq<Piece>)
    requires forall i :: 0 <= i < |pieces| ==> InQuotes(pieces[i])
    ensures SoundWord(pieces)
  {
    forall i | 0 <= i < |pieces| ensures Sound(pieces[i]) {
      assert InQuotes(pieces[i]);
    }
  }

  lemma {:induction false} PiecesSpell(part: string)
    ensures SoundWord(PiecesOf(part)) && PiecesOf(part) != []
    ensures Text(PiecesOf(part)) == ShQuoted(part) && Value(PiecesOf(part)) == part
  {
    if NeedsNoQuote(part) {
      PlainSpells(part);
      PlainIsSound(part);
    } else {
      QuotedSpells(part, "");
      QuotedIsInQuotes(part, "");
      EmptyConcat(part);
      EmptyConcat(QuotesReplaced(part));
      InQuotesIsSound(QuotedPieces(part, ""));
    }
  }

  // ------------------------------------------------------------------ the round trip

  function Joined(texts: seq<string>, gap: string): string {
    if texts == [] then "" else if |texts| == 1 then texts[0] else texts[0] + gap + Joined(texts[1..], gap)
  }

  function QuotedEach(parts: seq<string>): (r: seq<string>) {
    if parts == [] then [] else [ShQuoted(parts[0])] + QuotedEach(parts[1..])
  }

  /** The command line that runs `parts`. */
  function CommandLine(parts: seq<string>): string {
    Joined(QuotedEach(parts), " ")
  }

  function SpacedParts(parts: seq<string>, gap: string): seq<Spaced>
    decreases |parts|
  {
    if parts == [] then [] else [Spaced(gap, PiecesOf(parts[0]))] + SpacedParts(parts[1..], " ")
  }

  lemma {:induction false} SpacedIsSound(parts: seq<string>, gap: string)
    requires AllBlank(gap)
    ensures |SpacedParts(parts, gap)| == |parts| && SoundLine(SpacedParts(parts, gap))
    ensures forall i :: 0 <= i < |parts| ==> SpacedParts(parts, gap)[i].word == PiecesOf(parts[i])
    ensures forall i :: 0 < i < |parts| ==> SpacedParts(parts, gap)[i].gap == " "
    ensures parts != [] ==> SpacedParts(parts, gap)[0].gap == gap
    decreases |parts|
  {
    if parts != [] {
      var line, more := SpacedParts(parts, gap), SpacedParts(parts[1..], " ");
      PiecesSpell(parts[0]);
      SpacedIsSound(parts[1..], " ");
      assert forall i :: 0 < i < |line| ==> line[i] == more[i - 1] && parts[i] == parts[1..][i - 1];
    }
  }

  lemma {:induction false} SpacedSpells(parts: seq<string>, gap: string)
    ensures LineValue(SpacedParts(parts, gap)) == parts
    ensures LineText(SpacedParts(parts, gap)) == (if parts == [] then "" else gap + CommandLine(parts))
    decreases |parts|
  {
    if parts != [] {
      PiecesSpell(parts[0]);
      SpacedSpells(parts[1..], " ");
      assert SpacedParts(parts, gap)[1..] == SpacedParts(parts[1..], " ");
      HeadSplit(parts);
      QuotedOneMore(parts);
    }
  }

  lemma {:induction false} QuotedOneMore(parts: seq<string>)
    requires parts != []
    ensures CommandLine(parts) == ShQuoted(parts[0]) + (if |parts| == 1 then "" else " " + CommandLine(parts[1..]))
  {
    var quoted, more := QuotedEach(parts), QuotedEach(parts[1..]);
    assert quoted[0] == ShQuoted(parts[0]) && quoted[1..] == more;
    if |parts| == 1 {
      EmptyConcat(quoted[0]);
    } else {
      assert more != [];
      Assoc(quoted[0], " ", Joined(more, " "));
    }
  }

  /** The words of a command line are the parts it was made from, whatever they hold. */
  lemma {:induction false} QuotingReadsBack(parts: seq<string>)
    ensures WordsOf(CommandLine(parts)) == parts
  {
    SpacedIsSound(parts, "");
    SpacedSpells(parts, "");
    var line := LineText(SpacedParts(parts, ""));
    EmptyConcat(line);
    EmptyConcat(CommandLine(parts));
    SpellingReadsBack(SpacedParts(parts, ""), "");
  }

  // ---------------------------------------------------------------------- joined lines

  /** A text without the `\` and newline pairs that stand outside single quotes. */
  function Unjoined(rest: string, quote: Quote): string
    decreases |rest|
  {
    if rest == "" then ""
    else if !quote.Single? && rest[0] == '\\' then
      if |rest| == 1 then rest
      else if rest[1] == '\n' then Unjoined(rest[2..], quote)
      else rest[..2] + Unjoined(rest[2..], quote)
    else [rest[0]] + Unjoined(rest[1..], NextQuote(rest[0], quote))
  }

  /** How many such pairs there are. */
  function Joins(rest: string, quote: Quote): nat
    decreases |rest|
  {
    if rest == "" then 0
    else if !quote.Single? && rest[0] == '\\' then
      if |rest| == 1 then 0 else (if rest[1] == '\n' then 1 else 0) + Joins(rest[2..], quote)
    else Joins(rest[1..], NextQuote(rest[0], quote))
  }

  /** How many signs a text puts into its words. */
  function SignsIn(rest: string, quote: Quote): nat
    decreases |rest|
  {
    if rest == "" then 0
    else if !quote.Single? && rest[0] == '\\' then
      if |rest| == 1 then (if quote.Double? then 1 else 0) else |Unescaped(rest[1], quote)| + SignsIn(rest[2..], quote)
    else (if NextQuote(rest[0], quote) != quote || (quote.Bare? && IsBlank(rest[0])) then 0 else 1)
         + SignsIn(rest[1..], NextQuote(rest[0], quote))
  }

  function SignsOf(words: seq<string>): nat {
    if words == [] then 0 else |words[0]| + SignsOf(words[1..])
  }

  lemma {:induction false} SignsAppend(a: seq<string>, b: seq<string>)
    ensures SignsOf(a + b) == SignsOf(a) + SignsOf(b)
    decreases |a|
  {
    if a == [] {
      EmptyConcat(b);
    } else {
      TailOfConcat(a, b);
      SignsAppend(a[1..], b);
    }
  }

  lemma {:induction false} SignsFlushed(word: Option<string>)
    ensures SignsOf(Flush(word)) == (if word.Some? then |word.value| else 0)
  {
    if word.Some? {
      assert [word.value][1..] == [];
    }
  }

  /** The words of a text hold the signs it puts into them. */
  lemma {:induction false} SignsAreRead(rest: string, word: Option<string>, quote: Quote)
    ensures SignsOf(WordsFrom(rest, word, quote)) == SignsOf(Flush(word)) + SignsIn(rest, quote)
    decreases |rest|
  {
    SignsFlushed(word);
    if rest == "" {
    } else if quote.Bare? && IsBlank(rest[0]) {
      SignsAreRead(rest[1..], None, Bare);
      SignsAppend(Flush(word), WordsFrom(rest[1..], None, Bare));
    } else if !quote.Single? && rest[0] == '\\' {
      if |rest| == 1 {
        SignsFlushed(Put(word, if quote.Double? then "\\" else ""));
      } else {
        var next := Put(word, Unescaped(rest[1], quote));
        SignsFlushed(next);
        SignsAreRead(rest[2..], next, quote);
      }
    } else {
      var after := NextQuote(rest[0], quote);
      var next := if after == quote then Put(word, [rest[0]]) else if quote.Bare? then Put(word, "") else word;
      SignsFlushed(next);
      SignsAreRead(rest[1..], next, after);
    }
  }

  lemma {:induction false} UnjoinedStep(c: char, rest: string, quote: Quote)
    requires quote.Single? || c != '\\'
    ensures SignsIn([c] + rest, quote) == (if NextQuote(c, quote) != quote || (quote.Bare? && IsBlank(c)) then 0 else 1) + SignsIn(rest, NextQuote(c, quote))
  {
    Uncons(c, rest);
  }

  lemma {:induction false} UnjoinedPair(d: char, rest: string, quote: Quote)
    requires !quote.Single?
    ensures SignsIn(['\\', d] + rest, quote) == |Unescaped(d, quote)| + SignsIn(rest, quote)
  {
    Uncons2('\\', d, rest);
  }

  /** Each pair that is taken out takes one sign out of the words. */
  lemma {:induction false} UnjoinedLosesSigns(rest: string, quote: Quote)
    ensures SignsIn(rest, quote) == SignsIn(Unjoined(rest, quote), quote) + Joins(rest, quote)
    ensures Joins(rest, quote) == 0 ==> Unjoined(rest, quote) == rest
    decreases |rest|
  {
    if rest == "" {
    } else if !quote.Single? && rest[0] == '\\' {
      if |rest| > 1 {
        UnjoinedLosesSigns(rest[2..], quote);
        UnjoinedPair(rest[1], Unjoined(rest[2..], quote), quote);
        assert rest[..2] == ['\\', rest[1]];
        Rejoin(rest, 2);
      }
    } else {
      var after := NextQuote(rest[0], quote);
      UnjoinedLosesSigns(rest[1..], after);
      UnjoinedStep(rest[0], Unjoined(rest[1..], after), quote);
      HeadSplit(rest);
    }
  }

  /** A command reads as its joined lines would exactly when it joins none outside single quotes. */
  lemma {:induction false} JoinedLinesReadExactly(command: string)
    ensures WordsOf(command) == WordsOf(Unjoined(command, Bare)) <==> Joins(command, Bare) == 0
  {
    SignsAreRead(command, None, Bare);
    SignsAreRead(Unjoined(command, Bare), None, Bare);
    UnjoinedLosesSigns(command, Bare);
  }

  /** One joined line: the two halves of a word are read with a newline between them. */
  lemma {:induction false} JoinedExample()
    ensures WordsOf(['a'] + (['\\', '\n'] + ['b'])) == [['a', '\n', 'b']]
  {
    var word := [Plain('a'), Escaped('\n')] + [Plain('b')];
    var line := [Spaced("", word)];
    TwoMore(Plain('a'), Escaped('\n'), [Plain('b')]);
    One(Plain('b'));
    SpellingReadsBack(line, "");
    assert line[1..] == [];
    EmptyConcat(Text(word));
    assert ['a'] + (['\n'] + ['b']) == ['a', '\n', 'b'];
    EmptyConcat([Value(word)]);
  }
}
