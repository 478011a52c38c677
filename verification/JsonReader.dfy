/**
 A reader of JSON texts as RFC 8259 has them, kept apart from the renderer: what the
 canonical rendering of a value reads back as says what that rendering is.
 */
module JsonReader {
  import opened Wrappers
  import opened Sequences
  import opened Ordering
  import opened CanonicalJson

  datatype Got<T> = Got(value: T, rest: string) | Nothing

  // ------------------------------------------------------------------- strings

  function HexValue(c: char): Option<nat> {
    if '0' <= c <= '9' then Some(c as int - 48)
    else if 'a' <= c <= 'f' then Some(c as int - 87)
    else if 'A' <= c <= 'F' then Some(c as int - 55)
    else None
  }

  /** The character four digits name; half of a pair names none. */
  function CharOf(s: string): Option<char>
    requires |s| == 4
  {
    var a, b, c, d := HexValue(s[0]), HexValue(s[1]), HexValue(s[2]), HexValue(s[3]);
    if a.None? || b.None? || c.None? || d.None? then None
    else
      var n := ((a.value * 16 + b.value) * 16 + c.value) * 16 + d.value;
      if n < 0xD800 || 0xE000 <= n < 0x10000 then Some(n as char) else None
  }

  /** What the sign behind a backslash stands for, section 7 of RFC 8259. */
  function Meant(c: char): Option<char> {
    if c == '"' || c == '\\' || c == '/' then Some(c)
    else if c == 'b' then Some(8 as char)
    else if c == 'f' then Some(12 as char)
    else if c == 'n' then Some(10 as char)
    else if c == 'r' then Some(13 as char)
    else if c == 't' then Some(9 as char)
    else None
  }

  function Led(c: char, more: Got<string>): (r: Got<string>)
    ensures r.Got? ==> more.Got? && r.rest == more.rest
  {
    if more.Got? then Got([c] + more.value, more.rest) else Nothing
  }

  /** A string behind its opening quote, up to the closing one; no control character stands in it bare. */
  function ReadString(s: string): (r: Got<string>)
    ensures r.Got? ==> |r.rest| < |s|
    decreases |s|
  {
    if s == "" then Nothing
    else if s[0] == '"' then Got("", s[1..])
    else if s[0] != '\\' then (if (s[0] as int) < 32 then Nothing else Led(s[0], ReadString(s[1..])))
    else if |s| >= 6 && s[1] == 'u' && CharOf(s[2..6]).Some? then Led(CharOf(s[2..6]).value, ReadString(s[6..]))
    else if |s| >= 2 && Meant(s[1]).Some? then Led(Meant(s[1]).value, ReadString(s[2..]))
    else Nothing
  }

  // -------------------------------------------------------------------- values

  function NumberRun(s: string): (n: nat)
    ensures n <= |s|
  {
    if s == "" || !IsNumberChar(s[0]) then 0 else 1 + NumberRun(s[1..])
  }

  /** A value at the start of a text. */
  function ReadValue(s: string): (r: Got<Json>)
    ensures r.Got? ==> |r.rest| < |s|
    decreases |s|, 0
  {
    if s == "" then Nothing
    else if s[0] == 'n' then (if "null" <= s then Got(Null, s[4..]) else Nothing)
    else if s[0] == 't' then (if "true" <= s then Got(Bool(true), s[4..]) else Nothing)
    else if s[0] == 'f' then (if "false" <= s then Got(Bool(false), s[5..]) else Nothing)
    else if s[0] == '"' then
      match ReadString(s[1..])
      case Got(text, rest) => Got(Str(text), rest)
      case Nothing => Nothing
    else if s[0] == '[' then
      if |s| > 1 && s[1] == ']' then Got(Arr([]), s[2..])
      else
        match ReadItems(s[1..])
        case Got(items, rest) => Got(Arr(items), rest)
        case Nothing => Nothing
    else if s[0] == '{' then
      if |s| > 1 && s[1] == '}' then Got(Obj([]), s[2..])
      else
        match ReadFields(s[1..])
        case Got(fields, rest) => Got(Obj(fields), rest)
        case Nothing => Nothing
    else if '0' <= s[0] <= '9' || s[0] == '-' then Got(Number(s[..NumberRun(s)]), s[NumberRun(s)..])
    else Nothing
  }

  /** The items of an array, up to its closing bracket. */
  function ReadItems(s: string): (r: Got<seq<Json>>)
    ensures r.Got? ==> |r.rest| < |s|
    decreases |s|, 1
  {
    match ReadValue(s)
    case Nothing => Nothing
    case Got(item, rest) =>
      if rest != "" && rest[0] == ']' then Got([item], rest[1..])
      else if rest == "" || rest[0] != ',' then Nothing
      else
        match ReadItems(rest[1..])
        case Got(items, left) => Got([item] + items, left)
        case Nothing => Nothing
  }

  /** The fields of an object, in the order they stand, up to its closing brace. */
  function ReadFields(s: string): (r: Got<seq<Field>>)
    ensures r.Got? ==> |r.rest| < |s|
    decreases |s|, 1
  {
    match ReadField(s)
    case Nothing => Nothing
    case Got(field, rest) =>
      if rest != "" && rest[0] == '}' then Got([field], rest[1..])
      else if rest == "" || rest[0] != ',' then Nothing
      else
        match ReadFields(rest[1..])
        case Got(fields, left) => Got([field] + fields, left)
        case Nothing => Nothing
  }

  function ReadField(s: string): (r: Got<Field>)
    ensures r.Got? ==> |r.rest| < |s|
    decreases |s|, 0
  {
    if s == "" || s[0] != '"' then Nothing
    else
      match ReadString(s[1..])
      case Nothing => Nothing
      case Got(key, rest) =>
        if rest == "" || rest[0] != ':' then Nothing
        else
          match ReadValue(rest[1..])
          case Got(value, left) => Got(Field(key, value), left)
          case Nothing => Nothing
  }

  // ---------------------------------------------------------- strings read back

  lemma {:induction false} HexReads(n: nat)
    requires n < 16
    ensures HexValue(Hex(n)) == Some(n)
  {
  }

  lemma {:induction false} ControlReads(c: char, tail: string)
    requires (c as int) < 32 && EscapeChar(c) == "\\u00" + [Hex(c as int / 16), Hex(c as int % 16)]
    ensures ReadString(EscapeChar(c) + tail) == Led(c, ReadString(tail))
  {
    var s := EscapeChar(c) + tail;
    HexReads(c as int / 16);
    HexReads(c as int % 16);
    assert s[0] == '\\' && s[1] == 'u' && s[2] == '0' && s[3] == '0' && s[6..] == tail;
    assert s[2..6] == ['0', '0', Hex(c as int / 16), Hex(c as int % 16)];
    assert CharOf(s[2..6]) == Some(c);
  }

  lemma {:induction false} PairReads(c: char, d: char, tail: string)
    requires EscapeChar(c) == ['\\', d] && d != 'u' && Meant(d) == Some(c)
    ensures ReadString(EscapeChar(c) + tail) == Led(c, ReadString(tail))
  {
    var s := EscapeChar(c) + tail;
    assert s[0] == '\\' && s[1] == d && s[2..] == tail;
  }

  lemma {:induction false} EscapeCharReads(c: char, tail: string)
    ensures ReadString(EscapeChar(c) + tail) == Led(c, ReadString(tail))
  {
    var e := EscapeChar(c);
    if |e| == 1 {
      assert e == [c];
      TailOfConcat(e, tail);
    } else if |e| == 2 {
      PairReads(c, e[1], tail);
    } else {
      ControlReads(c, tail);
    }
  }

  /** An escaped string, whatever it holds and whatever follows it, ends at its quote and reads back as itself. */
  lemma {:induction false} QuotedReadsBack(s: string, x: string)
    ensures ReadString(Escape(s) + ("\"" + x)) == Got(s, x)
    decreases |s|
  {
    if s == "" {
      EmptyConcat("\"" + x);
      TailOfConcat("\"", x);
      EmptyConcat(x);
    } else {
      Assoc(EscapeChar(s[0]), Escape(s[1..]), "\"" + x);
      EscapeCharReads(s[0], Escape(s[1..]) + ("\"" + x));
      QuotedReadsBack(s[1..], x);
      HeadSplit(s);
    }
  }

  lemma {:induction false} LedByOne(d: char, more: Got<string>, c: char)
    requires Led(d, more) == Got([c], "")
    ensures d == c && more == Got("", "")
  {
    assert ([d] + more.value)[0] == d && |[d] + more.value| == 1 + |more.value|;
  }

  /** A text without a backslash that reads as one character starts with it. */
  lemma {:induction false} BareReading(t: string, c: char)
    requires t != "" && t[0] != '\\' && ReadString(t + "\"") == Got([c], "")
    ensures t[0] == c && c != '"' && c != '\\' && c as int >= 32
  {
    var s := t + "\"";
    assert s[0] == t[0];
    LedByOne(t[0], ReadString(s[1..]), c);
  }

  /** A text with one that is shorter than a numbered escape is a lettered one. */
  lemma {:induction false} LetteredReading(t: string, c: char)
    requires t != "" && t[0] == '\\' && |t| < 6 && ReadString(t + "\"") == Got([c], "")
    ensures |t| >= 2 && Meant(t[1]) == Some(c)
  {
    var s := t + "\"";
    assert s[0] == t[0] && s[|t|] == '"';
    if |t| == 1 {
      SlashAloneReadsNothing(t);
    } else {
      assert s[1] == t[1];
      assert |t| == 5 ==> s[2..6][3] == '"';
      LedByOne(Meant(t[1]).value, ReadString(s[2..]), c);
    }
  }

  lemma {:induction false} SlashAloneReadsNothing(t: string)
    requires |t| == 1 && t[0] == '\\'
    ensures ReadString(t + "\"").Nothing?
  {
    assert (t + "\"")[1] == '"' && (t + "\"")[2..] == "";
  }

  lemma {:induction false} CloseReadsEmpty()
    ensures ReadString("\"") == Got("", "")
  {
    assert "\""[1..] == "";
  }

  lemma {:induction false} SomethingStands(t: string, c: char)
    requires ReadString(t + "\"") == Got([c], "")
    ensures t != ""
  {
    if t == "" {
      EmptyConcat("\"");
      CloseReadsEmpty();
    }
  }

  /**
   A character is escaped only where it has to be, and by the shortest escape that reads
   as it, the digits in lower case: so the text of a string is the one such text.
   */
  lemma {:induction false} EscapeIsShortest(c: char, t: string)
    requires ReadString(t + "\"") == Got([c], "")
    ensures |EscapeChar(c)| <= |t|
    ensures |EscapeChar(c)| == 6 ==> !('A' <= EscapeChar(c)[4] <= 'Z') && !('A' <= EscapeChar(c)[5] <= 'Z')
  {
    SomethingStands(t, c);
    if t[0] != '\\' {
      BareReading(t, c);
      BareIsKept(c);
    } else if |t| < 6 {
      LetteredReading(t, c);
      LetteredIsKept(c, t[1]);
    }
    DigitsAreLower(c);
  }

  lemma {:induction false} BareIsKept(c: char)
    requires c != '"' && c as int >= 32
    ensures |EscapeChar(c)| == 1 || c == '\\'
  {
  }

  lemma {:induction false} LetteredIsKept(c: char, d: char)
    requires Meant(d) == Some(c)
    ensures |EscapeChar(c)| <= 2
  {
  }

  lemma {:induction false} DigitsAreLower(c: char)
    ensures |EscapeChar(c)| <= 6
    ensures |EscapeChar(c)| == 6 ==> !('A' <= EscapeChar(c)[4] <= 'Z') && !('A' <= EscapeChar(c)[5] <= 'Z')
  {
    if |EscapeChar(c)| == 6 {
      HexIsLower(c as int / 16);
      HexIsLower(c as int % 16);
    }
  }

  lemma {:induction false} HexIsLower(n: nat)
    requires n < 16
    ensures !('A' <= Hex(n) <= 'Z')
  {
  }

  // ----------------------------------------------------------- values read back

  /** The value with the fields of every object in the order of their keys. */
  function Ordered(v: Json): Json
    decreases v, 1, 0
  {
    match v
    case Arr(items) => Arr(OrderedItems(v, 0))
    case Obj(fields) => Obj(OrderedFields(v, SortedKeys(fields)))
    case _ => v
  }

  function OrderedItems(v: Json, i: nat): (r: seq<Json>)
    requires v.Arr? && i <= |v.items|
    ensures |r| == |v.items| - i
    decreases v, 0, |v.items| - i
  {
    if i == |v.items| then [] else [Ordered(v.items[i])] + OrderedItems(v, i + 1)
  }

  function OrderedFields(v: Json, keys: seq<string>): (r: seq<Field>)
    requires v.Obj? && forall k :: k in keys ==> k in Keys(v.fields)
    ensures |r| == |keys| && forall i :: 0 <= i < |keys| ==> r[i].key == keys[i]
    decreases v, 0, |keys|
  {
    if keys == [] then []
    else
      assert keys[0] in keys;
      [Field(keys[0], Ordered(At(v.fields, keys[0])))] + OrderedFields(v, keys[1..])
  }

  lemma {:induction false} NumberReads(text: string, s: string)
    requires (forall i :: 0 <= i < |text| ==> IsNumberChar(text[i])) && Delimited(s)
    ensures NumberRun(text + s) == |text|
    decreases |text|
  {
    if text == "" {
      EmptyConcat(s);
    } else {
      TailOfConcat(text, s);
      NumberReads(text[1..], s);
    }
  }

  lemma {:induction false} WordReads(word: string, s: string)
    ensures word <= word + s && (word + s)[|word|..] == s
  {
  }

  lemma {:induction false} LeafReads(v: Json, s: string)
    requires Valid(v) && Delimited(s) && !v.Arr? && !v.Obj?
    ensures ReadValue(Render(v) + s) == Got(v, s)
  {
    var text := Render(v) + s;
    RenderStarts(v);
    WordReads(Render(v), s);
    assert text[0] == Render(v)[0];
    match v {
      case Str(t) =>
        QuotedSplits(t, s);
        QuotedReadsBack(t, s);
        TailOfConcat("\"", Escape(t) + ("\"" + s));
        EmptyConcat(Escape(t) + ("\"" + s));
      case Number(t) =>
        NumberReads(t, s);
      case _ =>
    }
  }

  lemma {:induction false} OpenReads(open: string, body: string)
    requires |open| == 1 && body != ""
    ensures (open + body)[0] == open[0] && (open + body)[1..] == body && (open + body)[1] == body[0] && (open + body)[2..] == body[1..]
  {
  }

  /** A rendering, whatever delimiter follows it, reads back as the value with its fields in order, and what follows stays. */
  lemma {:induction false} RenderReads(v: Json, s: string)
    requires Valid(v) && Delimited(s)
    ensures ReadValue(Render(v) + s) == Got(Ordered(v), s)
    decreases v, 1, 0
  {
    match v {
      case Arr(items) =>
        var body := RenderItems(v, 0) + ("]" + s);
        BracketSplits("[", RenderItems(v, 0), "]", s);
        OpenReads("[", body);
        if items == [] {
          EmptyConcat("]" + s);
          WordReads("]", s);
        } else {
          NoItemStartsWithClose(v, 0, s);
          ItemsRead(v, 0, s);
        }
      case Obj(fields) =>
        ObjectReads(v, s);
      case _ => LeafReads(v, s);
    }
  }

  lemma {:induction false} ObjectReads(v: Json, s: string)
    requires v.Obj? && Valid(v)
    ensures ReadValue(Render(v) + s) == Got(Ordered(v), s)
    decreases v, 0, |SortedKeys(v.fields)| + 1
  {
    var keys := SortedKeys(v.fields);
    BracketSplits("{", RenderFields(v, keys), "}", s);
    if keys == [] {
      EmptyConcat("}" + s);
      OpenReads("{", "}" + s);
      WordReads("}", s);
    } else {
      var body := RenderFields(v, keys) + ("}" + s);
      NoFieldStartsWithClose(v, keys, s);
      FieldsRead(v, keys, s);
      BracedReads(body, OrderedFields(v, keys), s);
    }
  }

  lemma {:induction false} BracedReads(body: string, fields: seq<Field>, s: string)
    requires body != "" && body[0] != '}' && ReadFields(body) == Got(fields, s)
    ensures ReadValue("{" + body) == Got(Obj(fields), s)
  {
    OpenReads("{", body);
  }

  lemma {:induction false} LastItemReads(text: string, item: Json, s: string)
    requires ReadValue(text) == Got(item, "]" + s)
    ensures ReadItems(text) == Got([item], s)
  {
    WordReads("]", s);
  }

  lemma {:induction false} NextItemReads(text: string, item: Json, rest: string, items: seq<Json>, s: string)
    requires ReadValue(text) == Got(item, "," + rest) && ReadItems(rest) == Got(items, s)
    ensures ReadItems(text) == Got([item] + items, s)
  {
    WordReads(",", rest);
  }

  lemma {:induction false} ItemsRead(v: Json, i: nat, s: string)
    requires v.Arr? && Valid(v) && i < |v.items|
    ensures ReadItems(RenderItems(v, i) + ("]" + s)) == Got(OrderedItems(v, i), s)
    decreases v, 0, |v.items| - i
  {
    var text, rest := RenderItems(v, i) + ("]" + s), RenderItems(v, i + 1) + ("]" + s);
    ItemsSplit(v, i, s);
    RenderReads(v.items[i], ItemsTail(v, i, s));
    if i + 1 < |v.items| {
      ItemsRead(v, i + 1, s);
      NextItemReads(text, Ordered(v.items[i]), rest, OrderedItems(v, i + 1), s);
    } else {
      LastItemReads(text, Ordered(v.items[i]), s);
      EmptyConcat([Ordered(v.items[i])]);
    }
  }

  lemma {:induction false} FieldReads(v: Json, key: string, tail: string)
    requires v.Obj? && Valid(v) && key in Keys(v.fields) && Delimited(tail)
    ensures ReadField(Quoted(key) + (":" + (Render(At(v.fields, key)) + tail))) == Got(Field(key, Ordered(At(v.fields, key))), tail)
    decreases v, 0, 0
  {
    var value := Render(At(v.fields, key)) + tail;
    AtIsValid(v, key);
    QuotedSplits(key, ":" + value);
    WordReads("\"", Escape(key) + ("\"" + (":" + value)));
    QuotedReadsBack(key, ":" + value);
    WordReads(":", value);
    RenderReads(At(v.fields, key), tail);
  }

  lemma {:induction false} LastFieldReads(text: string, field: Field, s: string)
    requires ReadField(text) == Got(field, "}" + s)
    ensures ReadFields(text) == Got([field], s)
  {
    WordReads("}", s);
  }

  lemma {:induction false} NextFieldReads(text: string, field: Field, rest: string, fields: seq<Field>, s: string)
    requires ReadField(text) == Got(field, "," + rest) && ReadFields(rest) == Got(fields, s)
    ensures ReadFields(text) == Got([field] + fields, s)
  {
    WordReads(",", rest);
  }

  lemma {:induction false} FieldsRead(v: Json, keys: seq<string>, s: string)
    requires v.Obj? && Valid(v) && keys != [] && forall k :: k in keys ==> k in Keys(v.fields)
    ensures ReadFields(RenderFields(v, keys) + ("}" + s)) == Got(OrderedFields(v, keys), s)
    decreases v, 0, |keys|
  {
    assert keys[0] in keys;
    var text, field := RenderFields(v, keys) + ("}" + s), Field(keys[0], Ordered(At(v.fields, keys[0])));
    FieldsSplit(v, keys, s);
    FieldReads(v, keys[0], FieldsTail(v, keys, s));
    if |keys| > 1 {
      FieldsRead(v, keys[1..], s);
      NextFieldReads(text, field, RenderFields(v, keys[1..]) + ("}" + s), OrderedFields(v, keys[1..]), s);
    } else {
      LastFieldReads(text, field, s);
      EmptyConcat([field]);
    }
  }

  // --------------------------------------------------------- order and equality

  lemma {:induction false} ItemOrdered(v: Json, i: nat, k: nat)
    requires v.Arr? && i <= k < |v.items|
    ensures OrderedItems(v, i)[k - i] == Ordered(v.items[k])
    decreases k - i
  {
    if i < k {
      ItemOrdered(v, i + 1, k);
    }
  }

  lemma {:induction false} FieldOrdered(v: Json, keys: seq<string>, i: nat)
    requires v.Obj? && (forall k :: k in keys ==> k in Keys(v.fields)) && i < |keys| && keys[i] in Keys(v.fields)
    ensures OrderedFields(v, keys)[i] == Field(keys[i], Ordered(At(v.fields, keys[i])))
    decreases i
  {
    if i > 0 {
      FieldOrdered(v, keys[1..], i - 1);
    }
  }

  lemma {:induction false} KeysOrdered(v: Json, keys: seq<string>)
    requires v.Obj? && forall k :: k in keys ==> k in Keys(v.fields)
    ensures Keys(OrderedFields(v, keys)) == keys
  {
  }

  /** Values with one order of their fields differ in nothing else. */
  lemma {:induction false} OrderedAlikeAreSame(v: Json, w: Json)
    requires Ordered(v) == Ordered(w)
    ensures Same(v, w)
    decreases v
  {
    match v {
      case Arr(items) =>
        forall i | 0 <= i < |items| ensures Same(items[i], w.items[i]) {
          ItemOrdered(v, 0, i);
          ItemOrdered(w, 0, i);
          OrderedAlikeAreSame(items[i], w.items[i]);
        }
      case Obj(fields) =>
        var keys := SortedKeys(fields);
        KeysOrdered(v, keys);
        KeysOrdered(w, SortedKeys(w.fields));
        assert keys == SortedKeys(w.fields);
        forall k | k in Keys(fields) ensures k in Keys(w.fields) && Same(At(fields, k), At(w.fields, k)) {
          var i :| 0 <= i < |keys| && keys[i] == k;
          FieldOrdered(v, keys, i);
          FieldOrdered(w, keys, i);
          AtIsPart(fields, k, v);
          OrderedAlikeAreSame(At(fields, k), At(w.fields, k));
        }
      case _ =>
    }
  }

  lemma {:induction false} AtIsPart(fields: seq<Field>, key: string, v: Json)
    requires v == Obj(fields) && key in Keys(fields)
    ensures At(fields, key) < v
  {
    var i :| 0 <= i < |fields| && fields[i] == Field(key, At(fields, key));
    assert fields[i].value < v;
  }

  /** Ordering the fields changes nothing else. */
  lemma {:induction false} OrderedIsSame(v: Json)
    ensures Same(v, Ordered(v))
    decreases v
  {
    match v {
      case Arr(items) =>
        forall i | 0 <= i < |items| ensures Same(items[i], Ordered(v).items[i]) {
          ItemOrdered(v, 0, i);
          OrderedIsSame(items[i]);
        }
      case Obj(fields) =>
        var keys := SortedKeys(fields);
        var sorted := OrderedFields(v, keys);
        KeysOrdered(v, keys);
        forall k | k in Keys(fields) ensures Same(At(fields, k), At(sorted, k)) {
          var i :| 0 <= i < |sorted| && sorted[i] == Field(k, At(sorted, k));
          FieldOrdered(v, keys, i);
          AtIsPart(fields, k, v);
          OrderedIsSame(At(fields, k));
        }
      case _ =>
    }
  }

  /** A canonical text reads back as the value it was rendered from, the order of its fields apart, and what follows it stays. */
  lemma {:induction false} CanonicalReadsBack(v: Json, s: string)
    requires Valid(v) && Delimited(s)
    ensures exists w :: ReadValue(Render(v) + s) == Got(w, s) && Same(v, w)
  {
    RenderReads(v, s);
    OrderedIsSame(v);
  }

  /** `a` stands before `b`: it is a shorter start of it, or has the lesser character where they first differ. */
  ghost predicate Ascends(a: string, b: string) {
    exists n: nat :: n <= |a| && n < |b| && a[..n] == b[..n] && (n == |a| || a[n] < b[n])
  }

  lemma {:induction false} BeforeAscends(a: string, b: string)
    requires TextBefore(a, b)
    ensures Ascends(a, b)
    decreases |a|
  {
    if a != [] && a[0] == b[0] && !(a[0] < b[0]) {
      BeforeAscends(a[1..], b[1..]);
      var n: nat :| n <= |a[1..]| && n < |b[1..]| && a[1..][..n] == b[1..][..n] && (n == |a[1..]| || a[1..][n] < b[1..][n]);
      assert a[..n + 1] == [a[0]] + a[1..][..n] && b[..n + 1] == [b[0]] + b[1..][..n];
      assert n + 1 <= |a| && n + 1 < |b| && a[..n + 1] == b[..n + 1] && (n + 1 == |a| || a[n + 1] < b[n + 1]);
    } else {
      assert a[..0] == b[..0];
    }
  }

  /** The keys of an object stand in ascending order in its text. */
  lemma {:induction false} KeysReadAscending(v: Json, s: string, i: nat, j: nat)
    requires Valid(v) && v.Obj? && Delimited(s)
    ensures var r := ReadValue(Render(v) + s);
            && r.Got? && r.value.Obj?
            && (i < j < |r.value.fields| ==> Ascends(r.value.fields[i].key, r.value.fields[j].key))
  {
    var keys := SortedKeys(v.fields);
    RenderReads(v, s);
    TextsOrdered();
    SortSorts(TEXTS, Keys(v.fields));
    if i < j < |keys| {
      assert TEXTS(keys[i], keys[j]);
      BeforeAscends(keys[i], keys[j]);
    }
  }

  // ------------------------------------------------------ nothing else renders alike

  /** A delimited rendering is read back one way only. */
  lemma {:induction false} RenderUnique(v: Json, w: Json, s: string, t: string)
    requires Valid(v) && Valid(w) && Delimited(s) && Delimited(t) && Render(v) + s == Render(w) + t
    ensures Same(v, w) && s == t
  {
    RenderReads(v, s);
    RenderReads(w, t);
    OrderedAlikeAreSame(v, w);
  }

  /** Two values render to one text exactly when they are equal up to the order of object keys. */
  lemma {:induction false} CanonicalIsUnambiguous(v: Json, w: Json)
    requires Valid(v) && Valid(w)
    ensures Render(v) == Render(w) <==> Same(v, w)
  {
    if Render(v) == Render(w) {
      RenderUnique(v, w, "", "");
    }
    if Same(v, w) {
      SameRenderAlike(v, w);
    }
  }
}
