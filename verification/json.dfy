/**
 * Python's `json.dumps(rows, ensure_ascii=False)` for the one shape the
 * DOCX loader serialises: a list of dicts from strings to strings, written
 * with the default separators `", "` and `": "`. A decoder for exactly that
 * layout is the encoder's inverse.
 */
module Json {
  import opened Wrappers
  import opened Text

  /** A Python dict from str to str: its items in insertion order. */
  type Dict = seq<(string, string)>

  // ---------------------------------------------------------------------
  // String escaping
  // ---------------------------------------------------------------------

  /** Lower-case hexadecimal digit of `d`. */
  function HexDigit(d: nat): (c: char)
    requires d < 16
    ensures IsHex(c) && HexValue(c) == d
  {
    if d < 10 then '0' + d as char else 'a' + (d - 10) as char
  }

  predicate IsHex(c: char)
  {
    '0' <= c <= '9' || 'a' <= c <= 'f' || 'A' <= c <= 'F'
  }

  function HexValue(c: char): (d: nat)
    requires IsHex(c)
    ensures d < 16
  {
    if c <= '9' then (c as int - '0' as int)
    else if c <= 'F' then (c as int - 'A' as int) + 10
    else (c as int - 'a' as int) + 10
  }

  /** The number four hexadecimal digits denote. */
  function Hex4Value(s: string): (n: nat)
    requires |s| == 4 && IsHex(s[0]) && IsHex(s[1]) && IsHex(s[2]) && IsHex(s[3])
    ensures n < 0x1_0000
  {
    ((HexValue(s[0]) * 16 + HexValue(s[1])) * 16 + HexValue(s[2])) * 16 + HexValue(s[3])
  }

  /** Backspace and form feed, which Dafny has no short escape for. */
  const Backspace: char := 8 as char
  const FormFeed: char := 12 as char

  /**
   * How `json.dumps` writes one character with `ensure_ascii=False`: the
   * quote, the backslash and the five named controls by their short
   * escapes, every other control below U+0020 as `\u00xx`, anything else
   * as itself.
   */
  function EscapeChar(c: char): (r: string)
    ensures r != [] && r[0] != '"' && r[0] >= ' '
  {
    if c == '"' then "\\\""
    else if c == '\\' then "\\\\"
    else if c == '\n' then "\\n"
    else if c == '\r' then "\\r"
    else if c == '\t' then "\\t"
    else if c == Backspace then "\\b"
    else if c == FormFeed then "\\f"
    else if c < ' ' then "\\u00" + [HexDigit(c as nat / 16), HexDigit(c as nat % 16)]
    else [c]
  }

  function Escape(s: string): string
  {
    if s == [] then "" else EscapeChar(s[0]) + Escape(s[1..])
  }

  /** A string value: its escaped text between double quotes. */
  function EncodeString(s: string): (r: string)
    ensures |r| >= 2 && r[0] == '"' && r[|r| - 1] == '"'
  {
    "\"" + Escape(s) + "\""
  }

  // ---------------------------------------------------------------------
  // The layout of a list of dicts
  // ---------------------------------------------------------------------

  function EncodeItem(item: (string, string)): string
  {
    EncodeString(item.0) + ": " + EncodeString(item.1)
  }

  /**
   * `sep.join(enc(x) for x in xs)`: how the encoder lays out a list's or a
   * dict's members. It is `Text.Join` over the encoded members
   * (`JoinMapIsJoin`), kept separate so that the decoder's proofs can
   * follow the members rather than their texts.
   */
  function JoinMap<T>(xs: seq<T>, enc: T -> string, sep: string): string
  {
    if xs == [] then ""
    else if |xs| == 1 then enc(xs[0])
    else enc(xs[0]) + sep + JoinMap(xs[1..], enc, sep)
  }

  /** The encoded members of `xs`, in order. */
  function MapSeq<T>(xs: seq<T>, enc: T -> string): (r: seq<string>)
    ensures |r| == |xs|
  {
    seq(|xs|, k requires 0 <= k < |xs| => enc(xs[k]))
  }

  /** Joining the encoded members with `Text.Join` gives the same text. */
  lemma {:induction false} JoinMapIsJoin<T>(xs: seq<T>, enc: T -> string, sep: string)
    ensures JoinMap(xs, enc, sep) == Join(MapSeq(xs, enc), sep)
    decreases |xs|
  {
    if |xs| > 1 {
      assert MapSeq(xs, enc)[1..] == MapSeq(xs[1..], enc);
      JoinMapIsJoin(xs[1..], enc, sep);
    }
  }

  /** A dict is one JSON object: `{}` exactly when it has no items. */
  function EncodeDict(d: Dict): (r: string)
    ensures |r| >= 2 && r[0] == '{' && r[|r| - 1] == '}'
    ensures r == "{}" <==> d == []
  {
    if d != [] then
      EncodeItemStarts();
      JoinMapStart(d, EncodeItem, ", ", '"');
      "{" + JoinMap(d, EncodeItem, ", ") + "}"
    else "{" + JoinMap(d, EncodeItem, ", ") + "}"
  }

  /** `json.dumps(rows, ensure_ascii=False)`: one JSON array, `[]` exactly when there are no rows. */
  function Dumps(rows: seq<Dict>): (r: string)
    ensures |r| >= 2 && r[0] == '[' && r[|r| - 1] == ']'
    ensures r == "[]" <==> rows == []
  {
    if rows != [] then
      JoinMapStart(rows, EncodeDict, ", ", '{');
      "[" + JoinMap(rows, EncodeDict, ", ") + "]"
    else "[" + JoinMap(rows, EncodeDict, ", ") + "]"
  }

  // ---------------------------------------------------------------------
  // Decoding
  // ---------------------------------------------------------------------

  /** Put `c` in front of a decoded string, keeping the text after it. */
  function Prepend(c: char, r: Option<(string, string)>): Option<(string, string)>
  {
    if r.Some? then Some(([c] + r.value.0, r.value.1)) else None
  }

  /** The character a short escape `\x` stands for, if `x` names one. */
  function ShortEscape(x: char): Option<char>
  {
    if x == '"' then Some('"')
    else if x == '\\' then Some('\\')
    else if x == '/' then Some('/')
    else if x == 'n' then Some('\n')
    else if x == 'r' then Some('\r')
    else if x == 't' then Some('\t')
    else if x == 'b' then Some(Backspace)
    else if x == 'f' then Some(FormFeed)
    else None
  }

  /**
   * The body of a JSON string up to its closing quote: the decoded text and
   * what follows the quote. Raw control characters, unknown escapes and
   * `\u` escapes of surrogates are rejected.
   */
  function StringBody(s: string): (r: Option<(string, string)>)
    ensures r.Some? ==> |r.value.1| < |s|
    decreases |s|
  {
    if s == [] then None
    else if s[0] == '"' then Some(("", s[1..]))
    else if s[0] == '\\' then
      if |s| < 2 then None
      else if ShortEscape(s[1]).Some? then Prepend(ShortEscape(s[1]).value, StringBody(s[2..]))
      else if s[1] == 'u' && |s| >= 6 && IsHex(s[2]) && IsHex(s[3]) && IsHex(s[4]) && IsHex(s[5]) then
        var n := Hex4Value(s[2..6]);
        if 0xD800 <= n < 0xE000 then None else Prepend(n as char, StringBody(s[6..]))
      else None
    else if s[0] < ' ' then None
    else Prepend(s[0], StringBody(s[1..]))
  }

  /** A quoted JSON string at the start of `s`. */
  function StringAt(s: string): (r: Option<(string, string)>)
    ensures r.Some? ==> |r.value.1| < |s|
  {
    if s != [] && s[0] == '"' then StringBody(s[1..]) else None
  }

  /** `lit` at the start of `s`: what follows it. */
  function Skip(lit: string, s: string): (r: Option<string>)
    ensures r.Some? ==> s == lit + r.value
  {
    if |lit| <= |s| && s[..|lit|] == lit then Some(s[|lit|..]) else None
  }

  /** One `"key": "value"` item at the start of `s`. */
  function ItemAt(s: string): (r: Option<((string, string), string)>)
    ensures r.Some? ==> |r.value.1| < |s|
  {
    match StringAt(s)
    case None => None
    case Some((key, afterKey)) =>
      match Skip(": ", afterKey)
      case None => None
      case Some(beforeValue) =>
        match StringAt(beforeValue)
        case None => None
        case Some((value, rest)) => Some(((key, value), rest))
  }

  /**
   * Members read by `elem`, separated by `", "`, up to and including
   * `close`. A member reader that consumes nothing stops the scan.
   */
  function ListAt<T>(s: string, elem: string -> Option<(T, string)>, close: string): (r: Option<(seq<T>, string)>)
    ensures r.Some? ==> |r.value.1| < |s|
    decreases |s|
  {
    match elem(s)
    case None => None
    case Some((x, rest)) =>
      if |rest| >= |s| then None
      else if Skip(close, rest).Some? then Some(([x], Skip(close, rest).value))
      else if Skip(", ", rest).Some? then
        match ListAt(Skip(", ", rest).value, elem, close)
        case None => None
        case Some((xs, tail)) => Some(([x] + xs, tail))
      else None
  }

  /** A dict at the start of `s`. */
  function DictAt(s: string): (r: Option<(Dict, string)>)
    ensures r.Some? ==> |r.value.1| < |s|
  {
    match Skip("{", s)
    case None => None
    case Some(body) =>
      if Skip("}", body).Some? then Some(([], Skip("}", body).value)) else ListAt(body, ItemAt, "}")
  }

  /** `json.loads` restricted to a list of dicts of strings written as `Dumps` writes them. */
  function Loads(s: string): Option<seq<Dict>>
  {
    match Skip("[", s)
    case None => None
    case Some(body) =>
      if body == "]" then Some([])
      else
        match ListAt(body, DictAt, "]")
        case None => None
        case Some((ds, rest)) => if rest == [] then Some(ds) else None
  }

  // ---------------------------------------------------------------------
  // Round trip
  // ---------------------------------------------------------------------

  /** Decoding reads one escaped character back. */
  /** A control character written as `\u00xx` reads back. */
  lemma HexEscapeRoundTrip(c: char, rest: string)
    requires c < ' ' && c != '\n' && c != '\r' && c != '\t' && c != Backspace && c != FormFeed
    ensures StringBody(EscapeChar(c) + rest) == Prepend(c, StringBody(rest))
  {
    var e := EscapeChar(c);
    var s := e + rest;
    assert s[..6] == e && s[2..6] == e[2..];
    assert s[6..] == rest;
    assert Hex4Value(s[2..6]) == c as nat;
  }

  /** A character written as itself reads back. */
  lemma PlainRoundTrip(c: char, rest: string)
    requires c >= ' ' && c != '"' && c != '\\'
    ensures StringBody(EscapeChar(c) + rest) == Prepend(c, StringBody(rest))
  {
    assert (EscapeChar(c) + rest)[1..] == rest;
  }

  /** A character written with a two-character escape reads back. */
  lemma ShortEscapeRoundTrip(c: char, rest: string)
    requires c == '"' || c == '\\' || c == '\n' || c == '\r' || c == '\t' || c == Backspace || c == FormFeed
    ensures StringBody(EscapeChar(c) + rest) == Prepend(c, StringBody(rest))
  {
    assert (EscapeChar(c) + rest)[2..] == rest;
  }

  /** Decoding reads one escaped character back. */
  lemma EscapeCharRoundTrip(c: char, rest: string)
    ensures StringBody(EscapeChar(c) + rest) == Prepend(c, StringBody(rest))
  {
    if c == '"' || c == '\\' || c == '\n' || c == '\r' || c == '\t' || c == Backspace || c == FormFeed {
      ShortEscapeRoundTrip(c, rest);
    } else if c < ' ' {
      HexEscapeRoundTrip(c, rest);
    } else {
      PlainRoundTrip(c, rest);
    }
  }

  /** The escaped text of `x` followed by a quote decodes to `x`, leaving what follows. */
  lemma {:induction false} EscapeRoundTrip(x: string, rest: string)
    ensures StringBody(Escape(x) + ("\"" + rest)) == Some((x, rest))
    decreases |x|
  {
    if x == [] {
      assert Escape(x) + ("\"" + rest) == "\"" + rest;
      assert ("\"" + rest)[1..] == rest;
    } else {
      var tail := Escape(x[1..]) + ("\"" + rest);
      assert Escape(x) + ("\"" + rest) == EscapeChar(x[0]) + tail;
      EscapeCharRoundTrip(x[0], tail);
      EscapeRoundTrip(x[1..], rest);
      assert [x[0]] + x[1..] == x;
    }
  }

  lemma StringRoundTrip(x: string, rest: string)
    ensures StringAt(EncodeString(x) + rest) == Some((x, rest))
  {
    assert (EncodeString(x) + rest)[1..] == Escape(x) + ("\"" + rest);
    EscapeRoundTrip(x, rest);
  }

  lemma SkipPrefix(lit: string, rest: string)
    ensures Skip(lit, lit + rest) == Some(rest)
  {
    assert (lit + rest)[..|lit|] == lit;
  }

  lemma ItemStep(s: string, key: string, t: string, value: string, rest: string)
    requires StringAt(s) == Some((key, ": " + t))
    requires StringAt(t) == Some((value, rest))
    ensures ItemAt(s) == Some(((key, value), rest))
  {
    SkipPrefix(": ", t);
  }

  lemma ItemRoundTrip(item: (string, string), rest: string)
    ensures ItemAt(EncodeItem(item) + rest) == Some((item, rest))
  {
    var k := EncodeString(item.0);
    var v := EncodeString(item.1);
    ConcatAssoc(k, ": ", v, rest);
    StringRoundTrip(item.0, ": " + (v + rest));
    StringRoundTrip(item.1, rest);
    ItemStep(k + (": " + (v + rest)), item.0, v + rest, item.1, rest);
  }

  /** A joined list starts with the first character every member starts with. */
  lemma {:induction false} JoinMapStart<T>(xs: seq<T>, enc: T -> string, sep: string, c: char)
    requires xs != []
    requires forall x :: enc(x) != [] && enc(x)[0] == c
    ensures JoinMap(xs, enc, sep) != [] && JoinMap(xs, enc, sep)[0] == c
  {
    var e := enc(xs[0]);
    if |xs| > 1 {
      assert JoinMap(xs, enc, sep) == e + (sep + JoinMap(xs[1..], enc, sep));
    }
  }

  /** The last member, then `close`. */
  lemma ListStepLast<T>(s: string, elem: string -> Option<(T, string)>, close: string, x: T, rest: string)
    requires elem(s) == Some((x, close + rest)) && |close + rest| < |s|
    ensures ListAt(s, elem, close) == Some(([x], rest))
  {
    SkipPrefix(close, rest);
  }

  /** A member, a separator, then more members. */
  lemma ListStepNext<T>(s: string, elem: string -> Option<(T, string)>, close: string, x: T, t: string)
    requires elem(s) == Some((x, ", " + t)) && |", " + t| < |s|
    requires close != [] && close[0] != ','
    requires ListAt(t, elem, close).Some?
    ensures ListAt(s, elem, close) == Some(([x] + ListAt(t, elem, close).value.0, ListAt(t, elem, close).value.1))
  {
    assert (", " + t)[0] == ',';
    SkipPrefix(", ", t);
  }

  /** A joined list of two or more members: the first, a separator, then the others. */
  lemma JoinMapNext<T>(xs: seq<T>, enc: T -> string, tail: string)
    requires |xs| > 1
    ensures JoinMap(xs, enc, ", ") + tail == enc(xs[0]) + (", " + (JoinMap(xs[1..], enc, ", ") + tail))
  {
    ConcatAssoc(enc(xs[0]), ", ", JoinMap(xs[1..], enc, ", "), tail);
  }

  /**
   * When every member's text reads back by `elem`, whatever follows it,
   * the joined members and `close` read back as the whole list.
   */
  lemma {:induction false} ListRoundTrip<T>(xs: seq<T>, enc: T -> string, elem: string -> Option<(T, string)>,
                                           close: string, rest: string)
    requires xs != [] && close != [] && close[0] != ','
    requires forall x :: enc(x) != []
    requires forall x, r :: elem(enc(x) + r) == Some((x, r))
    ensures ListAt(JoinMap(xs, enc, ", ") + (close + rest), elem, close) == Some((xs, rest))
    decreases |xs|
  {
    var e := enc(xs[0]);
    if |xs| == 1 {
      assert elem(e + (close + rest)) == Some((xs[0], close + rest));
      ListStepLast(e + (close + rest), elem, close, xs[0], rest);
      assert [xs[0]] == xs;
    } else {
      var t := JoinMap(xs[1..], enc, ", ") + (close + rest);
      JoinMapNext(xs, enc, close + rest);
      assert elem(e + (", " + t)) == Some((xs[0], ", " + t));
      ListRoundTrip(xs[1..], enc, elem, close, rest);
      ListStepNext(e + (", " + t), elem, close, xs[0], t);
      assert [xs[0]] + xs[1..] == xs;
    }
  }

  /** Every encoded item reads back, whatever follows it. */
  lemma ItemsReadBack()
    ensures forall x, r :: ItemAt(EncodeItem(x) + r) == Some((x, r))
  {
    forall x, r
      ensures ItemAt(EncodeItem(x) + r) == Some((x, r))
    {
      ItemRoundTrip(x, r);
    }
  }

  lemma EncodeItemStarts()
    ensures forall x :: EncodeItem(x) != [] && EncodeItem(x)[0] == '"'
  {
    forall x
      ensures EncodeItem(x) != [] && EncodeItem(x)[0] == '"'
    {
      var key := EncodeString(x.0);
      assert key[0] == '"';
      assert EncodeItem(x) == key + (": " + EncodeString(x.1));
    }
  }

  /** A brace then a body not opening with a closing brace: the body holds items. */
  lemma DictAtItems(body: string)
    requires body != [] && body[0] != '}'
    ensures DictAt("{" + body) == ListAt(body, ItemAt, "}")
  {
    SkipPrefix("{", body);
    assert body[..1][0] != '}';
  }

  lemma DictRoundTrip(d: Dict, rest: string)
    ensures DictAt(EncodeDict(d) + rest) == Some((d, rest))
  {
    var items := JoinMap(d, EncodeItem, ", ");
    ConcatAssoc("{", items, "}", rest);
    if d == [] {
      SkipPrefix("{", "}" + rest);
      SkipPrefix("}", rest);
    } else {
      EncodeItemStarts();
      JoinMapStart(d, EncodeItem, ", ", '"');
      DictAtItems(items + ("}" + rest));
      ItemsReadBack();
      ListRoundTrip(d, EncodeItem, ItemAt, "}", rest);
    }
  }

  /** Reading back what `json.dumps` wrote gives the rows, items and order intact. */
  lemma DumpsRoundTrip(rows: seq<Dict>)
    ensures Loads(Dumps(rows)) == Some(rows)
  {
    var body := JoinMap(rows, EncodeDict, ", ") + "]";
    assert Dumps(rows) == "[" + body;
    SkipPrefix("[", body);
    if rows != [] {
      JoinMapStart(rows, EncodeDict, ", ", '{');
      assert body != "]";
      forall d, r
        ensures DictAt(EncodeDict(d) + r) == Some((d, r))
      {
        DictRoundTrip(d, r);
      }
      assert body == JoinMap(rows, EncodeDict, ", ") + ("]" + "");
      ListRoundTrip(rows, EncodeDict, DictAt, "]", "");
    }
  }
}
