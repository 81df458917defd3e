// JSON values and their canonical text: stableJsonValue (src/store-utils.js).
module Json {
  import opened Text
  import opened Utf8
  import opened Sorting
  import opened Numeral

  // An object is a map: the order of its own keys plays no part in any modelled result.
  datatype Json =
    | JNull
    | JBool(flag: bool)
    | JNum(numeral: Numeral)
    | JStr(text: Text)
    | JArr(items: seq<Json>)
    | JObj(members: map<Text, Json>)

  const QUOTE: CodeUnit := 0x22
  const BACKSLASH: CodeUnit := 0x5C
  const COMMA: CodeUnit := 0x2C
  const COLON: CodeUnit := 0x3A
  const OPEN_BRACKET: CodeUnit := 0x5B
  const CLOSE_BRACKET: CodeUnit := 0x5D
  const OPEN_BRACE: CodeUnit := 0x7B
  const CLOSE_BRACE: CodeUnit := 0x7D

  const NULL_TEXT: Text := [0x6E, 0x75, 0x6C, 0x6C]
  const TRUE_TEXT: Text := [0x74, 0x72, 0x75, 0x65]
  const FALSE_TEXT: Text := [0x66, 0x61, 0x6C, 0x73, 0x65]

  function HexDigit(d: int): CodeUnit
    requires 0 <= d < 16
  {
    if d < 10 then 0x30 + d else 0x57 + d
  }

  // The escape of a code point that has none of the short forms: \u and four lower-case digits.
  function HexEscape(u: int): Text
    requires 0 <= u < 0x1_0000
  {
    [BACKSLASH, 0x75, HexDigit(u / 0x1000), HexDigit(u / 0x100 % 0x10), HexDigit(u / 0x10 % 0x10), HexDigit(u % 0x10)]
  }

  // QuoteJSONString of ECMAScript for one code point: the escapes of section 7 of RFC 8259,
  // with lone surrogates written as escapes.
  function EscapeOf(c: int): (t: Text)
    requires 0 <= c < 0x11_0000
    ensures t != []
  {
    if c == 0x08 then [BACKSLASH, 0x62]
    else if c == 0x09 then [BACKSLASH, 0x74]
    else if c == 0x0A then [BACKSLASH, 0x6E]
    else if c == 0x0C then [BACKSLASH, 0x66]
    else if c == 0x0D then [BACKSLASH, 0x72]
    else if c == 0x22 then [BACKSLASH, QUOTE]
    else if c == 0x5C then [BACKSLASH, BACKSLASH]
    else if c < 0x20 || IsSurrogate(c) then HexEscape(c)
    else Units(c)
  }

  function Escapes(s: Text): Text {
    if s == [] then
      []
    else
      var c := CodePointAt(s, 0);
      EscapeOf(c) + Escapes(s[Width(c)..])
  }

  function Quote(s: Text): Text {
    [QUOTE] + Escapes(s) + [QUOTE]
  }

  // The canonical text of a value: object keys sorted by compareText, no white space.
  function Print(v: Json): Text
    decreases v, 0
  {
    match v
    case JNull => NULL_TEXT
    case JBool(flag) => if flag then TRUE_TEXT else FALSE_TEXT
    case JNum(numeral) => numeral
    case JStr(text) => Quote(text)
    case JArr(items) => [OPEN_BRACKET] + PrintItems(items) + [CLOSE_BRACKET]
    case JObj(members) => [OPEN_BRACE] + PrintMembers(v, SortedKeys(v)) + [CLOSE_BRACE]
  }

  function SortedKeys(v: Json): (ks: seq<Text>)
    requires v.JObj?
    ensures StrictlySorted(ks)
    ensures forall k :: k in ks <==> k in v.members
  {
    var ks := SortedTexts(v.members.Keys);
    assert forall k :: k in ks <==> k in Elements(ks);
    ks
  }

  function PrintItems(items: seq<Json>): Text
    decreases items, |items|
  {
    if items == [] then []
    else if |items| == 1 then Print(items[0])
    else Print(items[0]) + [COMMA] + PrintItems(items[1..])
  }

  function PrintMembers(v: Json, ks: seq<Text>): Text
    requires v.JObj? && forall k | k in ks :: k in v.members
    decreases v, 0, |ks|
  {
    if ks == [] then []
    else
      var member := Quote(ks[0]) + [COLON] + Print(v.members[ks[0]]);
      if |ks| == 1 then member else member + [COMMA] + PrintMembers(v, ks[1..])
  }

  // ----- Lists of texts -----

  // Array.prototype.join(",")
  function Join(texts: seq<Text>): Text {
    if texts == [] then []
    else if |texts| == 1 then texts[0]
    else Join(texts[..|texts| - 1]) + [COMMA] + texts[|texts| - 1]
  }

  lemma {:induction false} JoinFirst(first: Text, rest: seq<Text>)
    requires rest != []
    ensures Join([first] + rest) == first + [COMMA] + Join(rest)
    decreases |rest|
  {
    var all := [first] + rest;
    if |rest| == 1 {
      assert all[..1] == [first];
    } else {
      var init := rest[..|rest| - 1];
      assert all[..|all| - 1] == [first] + init;
      JoinFirst(first, init);
      Commas(first, Join(init), rest[|rest| - 1]);
    }
  }

  lemma Commas(a: Text, b: Text, c: Text)
    ensures a + [COMMA] + b + [COMMA] + c == a + [COMMA] + (b + [COMMA] + c)
  {
  }

  function Printed(items: seq<Json>): seq<Text> {
    seq(|items|, i requires 0 <= i < |items| => Print(items[i]))
  }

  function PrintedMembers(v: Json, ks: seq<Text>): seq<Text>
    requires v.JObj? && forall k | k in ks :: k in v.members
  {
    seq(|ks|, i requires 0 <= i < |ks| => Quote(ks[i]) + [COLON] + Print(v.members[ks[i]]))
  }

  // The text of an array is made of the canonical texts of its items, ...
  lemma {:induction false} PrintJoinsItems(items: seq<Json>)
    ensures Print(JArr(items)) == [OPEN_BRACKET] + Join(Printed(items)) + [CLOSE_BRACKET]
  {
    ItemsJoined(items);
  }

  lemma {:induction false} ItemsJoined(items: seq<Json>)
    ensures PrintItems(items) == Join(Printed(items))
    decreases |items|
  {
    hide Print;
    if |items| > 1 {
      ItemsJoined(items[1..]);
      assert Printed(items) == [Print(items[0])] + Printed(items[1..]);
      JoinFirst(Print(items[0]), Printed(items[1..]));
    }
  }

  // ... and that of an object of its keys and the canonical texts of its members, in the order of
  // compareText.
  lemma {:induction false} PrintJoinsMembers(v: Json)
    requires v.JObj?
    ensures Print(v) == [OPEN_BRACE] + Join(PrintedMembers(v, SortedTexts(v.members.Keys))) + [CLOSE_BRACE]
  {
    hide SortedTexts, StrictlySorted, TextOrder;
    MembersJoined(v, SortedKeys(v));
  }

  lemma {:induction false} MembersJoined(v: Json, ks: seq<Text>)
    requires v.JObj? && forall k | k in ks :: k in v.members
    ensures PrintMembers(v, ks) == Join(PrintedMembers(v, ks))
    decreases |ks|
  {
    hide Print, Quote;
    if |ks| > 1 {
      var first := Quote(ks[0]) + [COLON] + Print(v.members[ks[0]]);
      MembersJoined(v, ks[1..]);
      assert PrintedMembers(v, ks) == [first] + PrintedMembers(v, ks[1..]);
      JoinFirst(first, PrintedMembers(v, ks[1..]));
    }
  }

  // ----- The canonical text holds no lone surrogate -----

  lemma AsciiWellFormed(t: Text)
    requires forall u | u in t :: u < 0x80
    ensures WellFormed(t)
  {
    NoSurrogatesWellFormed(t);
  }

  lemma EscapeWellFormed(c: int)
    requires 0 <= c < 0x11_0000
    ensures WellFormed(EscapeOf(c))
  {
    var t := EscapeOf(c);
    if c >= 0x80 && !IsSurrogate(c) {
      assert t == Units(c);
      WellFormedHead(t, []);
      assert t + [] == t;
    } else {
      AsciiWellFormed(t);
    }
  }

  lemma {:induction false} EscapesWellFormed(s: Text)
    ensures WellFormed(Escapes(s))
  {
    if s != [] {
      var c := CodePointAt(s, 0);
      EscapeWellFormed(c);
      EscapesWellFormed(s[Width(c)..]);
      WellFormedConcat(EscapeOf(c), Escapes(s[Width(c)..]));
    }
  }

  lemma {:induction false} QuoteWellFormed(s: Text)
    ensures WellFormed(Quote(s))
  {
    EscapesWellFormed(s);
    Enclosed(QUOTE, Escapes(s), QUOTE);
  }

  lemma Enclosed(open: CodeUnit, t: Text, close: CodeUnit)
    requires open < 0x80 && close < 0x80 && WellFormed(t)
    ensures WellFormed([open] + t + [close])
  {
    AsciiWellFormed([open]);
    AsciiWellFormed([close]);
    WellFormedConcat([open], t);
    WellFormedConcat([open] + t, [close]);
  }

  lemma Separated(a: Text, separator: CodeUnit, b: Text)
    requires separator < 0x80 && WellFormed(a) && WellFormed(b)
    ensures WellFormed(a + [separator] + b)
  {
    AsciiWellFormed([separator]);
    WellFormedConcat(a, [separator]);
    WellFormedConcat(a + [separator], b);
  }

  // stableJson is always well-formed text, so it goes through a file or a column unchanged.
  lemma {:induction false} PrintWellFormed(v: Json)
    ensures WellFormed(Print(v))
    decreases v, 0
  {
    hide WellFormed, Quote, SortedTexts, StrictlySorted, TextOrder;
    match v
    case JNull => AsciiWellFormed(NULL_TEXT);
    case JBool(flag) => AsciiWellFormed(Print(v));
    case JNum(numeral) =>
      NumeralUnits(numeral);
      AsciiWellFormed(numeral);
    case JStr(text) => QuoteWellFormed(text);
    case JArr(items) =>
      PrintItemsWellFormed(items);
      Enclosed(OPEN_BRACKET, PrintItems(items), CLOSE_BRACKET);
    case JObj(members) =>
      PrintMembersWellFormed(v, SortedKeys(v));
      Enclosed(OPEN_BRACE, PrintMembers(v, SortedKeys(v)), CLOSE_BRACE);
  }

  lemma {:induction false} PrintItemsWellFormed(items: seq<Json>)
    ensures WellFormed(PrintItems(items))
    decreases items, |items|
  {
    if items != [] {
      PrintWellFormed(items[0]);
      if |items| > 1 {
        PrintItemsWellFormed(items[1..]);
        Separated(Print(items[0]), COMMA, PrintItems(items[1..]));
      }
    }
  }

  lemma {:induction false} PrintMembersWellFormed(v: Json, ks: seq<Text>)
    requires v.JObj? && forall k | k in ks :: k in v.members
    ensures WellFormed(PrintMembers(v, ks))
    decreases v, 0, |ks|
  {
    if ks != [] {
      QuoteWellFormed(ks[0]);
      PrintWellFormed(v.members[ks[0]]);
      Separated(Quote(ks[0]), COLON, Print(v.members[ks[0]]));
      if |ks| > 1 {
        PrintMembersWellFormed(v, ks[1..]);
        Separated(Quote(ks[0]) + [COLON] + Print(v.members[ks[0]]), COMMA, PrintMembers(v, ks[1..]));
      }
    }
  }
}
