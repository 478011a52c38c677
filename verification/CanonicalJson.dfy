/**
 The canonical rendering a manifest's hash is taken over: keys in order, nothing
 between the signs, strings escaped as section 7 of RFC 8259 has them. Two
 values render alike exactly when they differ in nothing but the order of object keys.
 */
module CanonicalJson {
  import opened Sequences
  import opened Ordering

  /** A number is the text it prints as; an object keeps its fields in the order its map gives them. */
  datatype Json =
    | Null
    | Bool(b: bool)
    | Number(text: string)
    | Str(s: string)
    | Arr(items: seq<Json>)
    | Obj(fields: seq<Field>)

  datatype Field = Field(key: string, value: Json)

  predicate IsNumberChar(c: char) {
    '0' <= c <= '9' || c == '-' || c == '+' || c == '.' || c == 'e' || c == 'E'
  }

  predicate IsNumberText(s: string) {
    && s != ""
    && ('0' <= s[0] <= '9' || s[0] == '-')
    && (forall i :: 0 <= i < |s| ==> IsNumberChar(s[i]))
  }

  /** A value a map-backed document can hold: numbers print as numbers, and no object repeats a key. */
  predicate Valid(v: Json) {
    match v
    case Number(text) => IsNumberText(text)
    case Arr(items) => forall i :: 0 <= i < |items| ==> Valid(items[i])
    case Obj(fields) => Distinct(Keys(fields)) && forall i :: 0 <= i < |fields| ==> Valid(fields[i].value)
    case _ => true
  }

  function Keys(fields: seq<Field>): (r: seq<string>)
    ensures |r| == |fields| && forall i :: 0 <= i < |fields| ==> r[i] == fields[i].key
  {
    if fields == [] then [] else Keys(fields[..|fields| - 1]) + [fields[|fields| - 1].key]
  }

  function SortedKeys(fields: seq<Field>): (r: seq<string>)
    ensures forall k :: k in r <==> k in Keys(fields)
  {
    SortMembers(TEXTS, Keys(fields));
    Sort(TEXTS, Keys(fields))
  }

  /** The value under `key`. */
  function At(fields: seq<Field>, key: string): (r: Json)
    requires key in Keys(fields)
    ensures exists i :: 0 <= i < |fields| && fields[i] == Field(key, r)
  {
    if fields[|fields| - 1].key == key then fields[|fields| - 1].value
    else
      assert key in Keys(fields[..|fields| - 1]);
      At(fields[..|fields| - 1], key)
  }

  // ----------------------------------------------------------------- rendering

  function Hex(n: nat): char
    requires n < 16
  {
    "0123456789abcdef"[n]
  }

  function EscapeChar(c: char): (r: string)
    ensures r != ""
  {
    if c == '"' then "\\\""
    else if c == '\\' then "\\\\"
    else if c as int == 8 then "\\b"
    else if c as int == 12 then "\\f"
    else if c == '\n' then "\\n"
    else if c == '\r' then "\\r"
    else if c == '\t' then "\\t"
    else if (c as int) < 32 then "\\u00" + [Hex(c as int / 16), Hex(c as int % 16)]
    else [c]
  }

  function Escape(s: string): string {
    if s == "" then "" else EscapeChar(s[0]) + Escape(s[1..])
  }

  function Quoted(s: string): string {
    "\"" + Escape(s) + "\""
  }

  function Render(v: Json): string
    decreases v, 1, 0
  {
    match v
    case Null => "null"
    case Bool(b) => if b then "true" else "false"
    case Number(text) => text
    case Str(s) => Quoted(s)
    case Arr(items) => "[" + RenderItems(v, 0) + "]"
    case Obj(fields) => "{" + RenderFields(v, SortedKeys(fields)) + "}"
  }

  /** The items of an array from the `i`th on, separated by commas. */
  function RenderItems(v: Json, i: nat): string
    requires v.Arr? && i <= |v.items|
    decreases v, 0, |v.items| - i
  {
    if i == |v.items| then ""
    else Render(v.items[i]) + (if i + 1 < |v.items| then "," + RenderItems(v, i + 1) else "")
  }

  function RenderFields(v: Json, keys: seq<string>): string
    requires v.Obj? && forall k :: k in keys ==> k in Keys(v.fields)
    decreases v, 0, |keys|
  {
    if keys == [] then ""
    else
      assert keys[0] in keys;
      RenderField(v, keys[0]) + (if |keys| > 1 then "," + RenderFields(v, keys[1..]) else "")
  }

  function RenderField(v: Json, key: string): string
    requires v.Obj? && key in Keys(v.fields)
    decreases v, 0, 0
  {
    Quoted(key) + ":" + Render(At(v.fields, key))
  }

  // ---------------------------------------------------- equality up to key order

  ghost predicate Same(v: Json, w: Json)
    decreases v
  {
    match v
    case Arr(items) =>
      w.Arr? && |items| == |w.items| && forall i :: 0 <= i < |items| ==> Same(items[i], w.items[i])
    case Obj(fields) =>
      && w.Obj?
      && (forall k :: k in Keys(fields) <==> k in Keys(w.fields))
      && (forall k :: k in Keys(fields) ==> Same(At(fields, k), At(w.fields, k)))
    case _ => v == w
  }

  // --------------------------------------------- the order of keys changes nothing

  lemma {:induction false} SameKeysSortAlike(a: seq<Field>, b: seq<Field>)
    requires Distinct(Keys(a)) && Distinct(Keys(b)) && forall k :: k in Keys(a) <==> k in Keys(b)
    ensures SortedKeys(a) == SortedKeys(b)
  {
    TextsOrdered();
    SortIsOrderFree(TEXTS, Keys(a), Keys(b));
  }

  lemma {:induction false} AtIsValid(v: Json, key: string)
    requires v.Obj? && Valid(v) && key in Keys(v.fields)
    ensures Valid(At(v.fields, key)) && At(v.fields, key) < v
  {
    var i :| 0 <= i < |v.fields| && v.fields[i] == Field(key, At(v.fields, key));
    assert v.fields[i].value < v;
  }

  /** Values that differ only in the order of object keys render to one text. */
  lemma {:induction false} SameRenderAlike(v: Json, w: Json)
    requires Valid(v) && Valid(w) && Same(v, w)
    ensures Render(v) == Render(w)
    decreases v, 1, 0
  {
    match v {
      case Arr(_) => SameItemsAlike(v, w, 0);
      case Obj(fields) =>
        SameKeysSortAlike(fields, w.fields);
        SameFieldsAlike(v, w, SortedKeys(fields));
      case _ =>
    }
  }

  lemma {:induction false} SameItemsAlike(v: Json, w: Json, i: nat)
    requires v.Arr? && Valid(v) && Valid(w) && Same(v, w) && i <= |v.items|
    ensures RenderItems(v, i) == RenderItems(w, i)
    decreases v, 0, |v.items| - i
  {
    if i < |v.items| {
      SameRenderAlike(v.items[i], w.items[i]);
      SameItemsAlike(v, w, i + 1);
    }
  }

  lemma {:induction false} SameFieldsAlike(v: Json, w: Json, keys: seq<string>)
    requires v.Obj? && Valid(v) && Valid(w) && Same(v, w) && forall k :: k in keys ==> k in Keys(v.fields)
    ensures RenderFields(v, keys) == RenderFields(w, keys)
    decreases v, 0, |keys|
  {
    if keys != [] {
      assert keys[0] in keys;
      AtIsValid(v, keys[0]);
      AtIsValid(w, keys[0]);
      SameRenderAlike(At(v.fields, keys[0]), At(w.fields, keys[0]));
      SameFieldsAlike(v, w, keys[1..]);
    }
  }

  // ----------------------------------------------------- how a rendering comes apart

  lemma {:induction false} QuotedSplits(s: string, x: string)
    ensures Quoted(s) + x == "\"" + (Escape(s) + ("\"" + x))
  {
  }

  /** The end of a document, or what stands after a value inside one. */
  predicate Delimited(s: string) {
    s == "" || s[0] == ',' || s[0] == ']' || s[0] == '}'
  }

  /** Which kind of value a text starts: no two kinds share a first character. */
  function Kind(c: char): nat {
    if c == 'n' then 0
    else if c == 't' then 1
    else if c == 'f' then 2
    else if '0' <= c <= '9' || c == '-' then 3
    else if c == '"' then 4
    else if c == '[' then 5
    else if c == '{' then 6
    else 7
  }

  function KindOf(v: Json): nat {
    match v
    case Null => 0
    case Bool(b) => if b then 1 else 2
    case Number(_) => 3
    case Str(_) => 4
    case Arr(_) => 5
    case Obj(_) => 6
  }

  lemma {:induction false} RenderStarts(v: Json)
    requires Valid(v)
    ensures Render(v) != "" && Kind(Render(v)[0]) == KindOf(v)
  {
  }

  lemma {:induction false} BracketSplits(open: string, body: string, close: string, s: string)
    ensures (open + body + close) + s == open + (body + (close + s))
  {
  }

  /** What stands after the `i`th item. */
  function ItemsTail(v: Json, i: nat, s: string): string
    requires v.Arr? && i < |v.items|
  {
    if i + 1 < |v.items| then "," + (RenderItems(v, i + 1) + ("]" + s)) else "]" + s
  }

  lemma {:induction false} ItemsSplit(v: Json, i: nat, s: string)
    requires v.Arr? && i < |v.items|
    ensures RenderItems(v, i) + ("]" + s) == Render(v.items[i]) + ItemsTail(v, i, s)
    ensures Delimited(ItemsTail(v, i, s))
  {
    if i + 1 < |v.items| {
      var head, rest, end := Render(v.items[i]), RenderItems(v, i + 1), "]" + s;
      Assoc(head, "," + rest, end);
      Assoc(",", rest, end);
    } else {
      EmptyConcat(Render(v.items[i]));
    }
  }

  lemma {:induction false} NoItemStartsWithClose(v: Json, i: nat, s: string)
    requires v.Arr? && Valid(v) && i < |v.items|
    ensures (RenderItems(v, i) + ("]" + s))[0] != ']'
  {
    ItemsSplit(v, i, s);
    RenderStarts(v.items[i]);
    assert (Render(v.items[i]) + ItemsTail(v, i, s))[0] == Render(v.items[i])[0];
  }

  /** What stands after the first of `keys`. */
  function FieldsTail(v: Json, keys: seq<string>, s: string): string
    requires v.Obj? && keys != [] && forall k :: k in keys ==> k in Keys(v.fields)
  {
    if |keys| > 1 then "," + (RenderFields(v, keys[1..]) + ("}" + s)) else "}" + s
  }

  lemma {:induction false} FieldsSplit(v: Json, keys: seq<string>, s: string)
    requires v.Obj? && keys != [] && forall k :: k in keys ==> k in Keys(v.fields)
    requires keys[0] in Keys(v.fields)
    ensures RenderFields(v, keys) + ("}" + s) == Quoted(keys[0]) + (":" + (Render(At(v.fields, keys[0])) + FieldsTail(v, keys, s)))
    ensures Delimited(FieldsTail(v, keys, s))
  {
    var key, value, end := Quoted(keys[0]), Render(At(v.fields, keys[0])), "}" + s;
    var field := key + ":" + value;
    if |keys| > 1 {
      var rest := RenderFields(v, keys[1..]);
      Assoc(field, "," + rest, end);
      Assoc(",", rest, end);
    } else {
      EmptyConcat(field);
    }
    FieldSplits(key, value, FieldsTail(v, keys, s));
  }

  lemma {:induction false} FieldSplits(key: string, value: string, tail: string)
    ensures (key + ":" + value) + tail == key + (":" + (value + tail))
  {
  }

  lemma {:induction false} NoFieldStartsWithClose(v: Json, keys: seq<string>, s: string)
    requires v.Obj? && keys != [] && forall k :: k in keys ==> k in Keys(v.fields)
    ensures (RenderFields(v, keys) + ("}" + s))[0] != '}'
  {
    assert keys[0] in keys;
    FieldsSplit(v, keys, s);
  }

  // --------------------------------------------------------------- the writer

  /** Writes a value onto the end of a buffer, piece by piece. */
  class Writer {
    var out: string

    constructor ()
      ensures out == ""
    {
      out := "";
    }

    method Push(piece: string)
      modifies this
      ensures out == old(out) + piece
    {
      out := out + piece;
    }

    method WriteCanonical(value: Json)
      modifies this
      ensures out == old(out) + Render(value)
      decreases value, 1
    {
      match value {
        case Obj(fields) => WriteObject(value);
        case Arr(items) => WriteArray(value);
        case leaf => Push(Render(leaf));
      }
    }

    method WriteItems(value: Json)
      requires value.Arr?
      modifies this
      ensures out == old(out) + RenderItems(value, 0)
      decreases value, 0, 1
    {
      EmptyConcat(out);
      for i := 0 to |value.items|
        invariant out == old(out) + ItemsUpTo(value, i)
      {
        ghost var before := out;
        if i > 0 {
          Push(",");
        }
        WriteCanonical(value.items[i]);
        EmptyConcat(before);
        Regrouped(old(out), ItemsUpTo(value, i), if i > 0 then "," else "", Render(value.items[i]));
      }
      AllItems(value);
    }

    method WriteArray(value: Json)
      requires value.Arr?
      modifies this
      ensures out == old(out) + Render(value)
      decreases value, 0, 2
    {
      Push("[");
      WriteItems(value);
      Push("]");
      Regrouped(old(out), "[", RenderItems(value, 0), "]");
    }

    method WriteField(value: Json, key: string)
      requires value.Obj? && key in Keys(value.fields)
      modifies this
      ensures out == old(out) + RenderField(value, key)
      decreases value, 0, 0
    {
      var item := At(value.fields, key);
      assert item < value;
      Push(Quoted(key));
      Push(":");
      WriteCanonical(item);
      Regrouped(old(out), Quoted(key), ":", Render(item));
    }

    method WriteFields(value: Json, keys: seq<string>)
      requires value.Obj? && forall k :: k in keys ==> k in Keys(value.fields)
      modifies this
      ensures out == old(out) + RenderFields(value, keys)
      decreases value, 0, 1
    {
      for i := 0 to |keys|
        invariant out == old(out) + FieldsUpTo(value, keys, i)
      {
        if i > 0 {
          Push(",");
        }
        assert keys[i] in keys;
        WriteField(value, keys[i]);
        Regrouped(old(out), FieldsUpTo(value, keys, i), if i > 0 then "," else "", RenderField(value, keys[i]));
      }
      FieldsUpToEnd(value, keys);
    }

    method WriteObject(value: Json)
      requires value.Obj?
      modifies this
      ensures out == old(out) + Render(value)
      decreases value, 0, 2
    {
      var keys := SortedKeys(value.fields);
      Push("{");
      WriteFields(value, keys);
      Push("}");
      Regrouped(old(out), "{", RenderFields(value, keys), "}");
    }
  }

  lemma {:induction false} Regrouped(a: string, b: string, c: string, d: string)
    ensures a + b + c + d == a + (b + c + d)
  {
  }

  /** The first `n` items, as the loop leaves them. */
  function ItemsUpTo(v: Json, n: nat): string
    requires v.Arr? && n <= |v.items|
  {
    if n == 0 then "" else ItemsUpTo(v, n - 1) + (if n > 1 then "," else "") + Render(v.items[n - 1])
  }

  lemma {:induction false} ItemsUpToEnd(v: Json, n: nat)
    requires v.Arr? && n <= |v.items|
    ensures n == 0 ==> RenderItems(v, 0) == ItemsUpTo(v, n) + RenderItems(v, n)
    ensures n > 0 ==> RenderItems(v, 0) == ItemsUpTo(v, n) + (if n < |v.items| then "," + RenderItems(v, n) else "")
  {
    if n == 0 {
      EmptyConcat(RenderItems(v, 0));
    } else {
      ItemsUpToEnd(v, n - 1);
      var done, comma := ItemsUpTo(v, n - 1), if n > 1 then "," else "";
      var item, rest := Render(v.items[n - 1]), if n < |v.items| then "," + RenderItems(v, n) else "";
      assert RenderItems(v, n - 1) == item + rest;
      assert RenderItems(v, 0) == done + (comma + (item + rest));
      Shifted(done, comma, item, rest);
    }
  }

  lemma {:induction false} AllItems(v: Json)
    requires v.Arr?
    ensures ItemsUpTo(v, |v.items|) == RenderItems(v, 0)
  {
    ItemsUpToEnd(v, |v.items|);
    EmptyConcat(ItemsUpTo(v, |v.items|));
  }

  lemma {:induction false} Shifted(a: string, b: string, c: string, d: string)
    ensures a + (b + (c + d)) == a + b + c + d
  {
  }

  function FieldsUpTo(v: Json, keys: seq<string>, n: nat): string
    requires v.Obj? && n <= |keys| && forall k :: k in keys ==> k in Keys(v.fields)
  {
    if n == 0 then ""
    else
      assert keys[n - 1] in keys;
      FieldsUpTo(v, keys, n - 1) + (if n > 1 then "," else "") + RenderField(v, keys[n - 1])
  }

  lemma {:induction false} FieldsAppend(v: Json, keys: seq<string>, key: string)
    requires v.Obj? && key in Keys(v.fields) && forall k :: k in keys ==> k in Keys(v.fields)
    ensures RenderFields(v, keys + [key]) == RenderFields(v, keys) + (if keys != [] then "," else "") + RenderField(v, key)
    decreases |keys|
  {
    if keys == [] {
      EmptyConcat([key]);
      EmptyConcat(RenderField(v, key));
    } else {
      assert keys[0] in keys;
      TailOfConcat(keys, [key]);
      FieldsAppend(v, keys[1..], key);
      var head, rest, last := RenderField(v, keys[0]), RenderFields(v, keys[1..]), RenderField(v, key);
      if |keys| > 1 {
        CommaShifts(head, rest, last);
      } else {
        assert keys[1..] == [];
        EmptyConcat(last);
        EmptyConcat(head);
        Assoc(head, ",", last);
      }
    }
  }

  lemma {:induction false} CommaShifts(head: string, rest: string, last: string)
    ensures head + ("," + (rest + "," + last)) == head + ("," + rest) + "," + last
  {
  }

  lemma {:induction false} FieldsUpToAppend(v: Json, keys: seq<string>, key: string, n: nat)
    requires v.Obj? && n <= |keys| && key in Keys(v.fields) && forall k :: k in keys ==> k in Keys(v.fields)
    ensures forall k :: k in keys + [key] ==> k in Keys(v.fields)
    ensures FieldsUpTo(v, keys + [key], n) == FieldsUpTo(v, keys, n)
  {
    if n > 0 {
      FieldsUpToAppend(v, keys, key, n - 1);
      assert (keys + [key])[n - 1] == keys[n - 1];
    }
  }

  lemma {:induction false} FieldsUpToEnd(v: Json, keys: seq<string>)
    requires v.Obj? && forall k :: k in keys ==> k in Keys(v.fields)
    ensures FieldsUpTo(v, keys, |keys|) == RenderFields(v, keys)
    decreases |keys|
  {
    if keys != [] {
      var before, last := keys[..|keys| - 1], keys[|keys| - 1];
      assert last in keys;
      LastSplit(keys);
      FieldsUpToEnd(v, before);
      FieldsUpToAppend(v, before, last, |before|);
      FieldsAppend(v, before, last);
    }
  }
}
