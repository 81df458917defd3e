// JSON.parse, and what it says about the canonical text: reading a printed value gives the value
// back, so the stored-text check of the stores accepts the printer's image and nothing else.
module JsonParser {
  import opened Wrappers
  import opened Text
  import opened Utf8
  import opened Sorting
  import opened Numeral
  import opened Json

  // The outcome of reading one construct at the head of a text.
  datatype Parsed<+T> = Failed | Got(value: T, rest: Text)

  predicate IsSpace(u: int) {
    u == 0x20 || u == 0x09 || u == 0x0A || u == 0x0D
  }

  function SkipSpace(t: Text): (rest: Text)
    ensures |rest| <= |t|
  {
    if t != [] && IsSpace(t[0]) then SkipSpace(t[1..]) else t
  }

  predicate StartsWith(t: Text, prefix: Text) {
    |prefix| <= |t| && t[..|prefix|] == prefix
  }

  function HexValue(u: int): (v: Option<int>)
    ensures v.Some? ==> 0 <= v.value < 16
  {
    if IsDigit(u) then Some(u - 0x30)
    else if 0x61 <= u <= 0x66 then Some(u - 0x57)
    else if 0x41 <= u <= 0x46 then Some(u - 0x37)
    else None
  }

  function HexUnit(t: Text): Option<CodeUnit>
    requires |t| == 4
  {
    var a, b, c, d := HexValue(t[0]), HexValue(t[1]), HexValue(t[2]), HexValue(t[3]);
    if a.Some? && b.Some? && c.Some? && d.Some? then
      var u: int := a.value * 0x1000 + b.value * 0x100 + c.value * 0x10 + d.value;
      Some(u)
    else
      None
  }

  function ShortEscape(u: int): Option<CodeUnit> {
    if u == 0x22 || u == 0x5C || u == 0x2F then Some(u)
    else if u == 0x62 then Some(0x08)
    else if u == 0x66 then Some(0x0C)
    else if u == 0x6E then Some(0x0A)
    else if u == 0x72 then Some(0x0D)
    else if u == 0x74 then Some(0x09)
    else None
  }

  // One character of a string, escaped or not (section 7 of RFC 8259).
  function ParseUnit(t: Text): (p: Parsed<CodeUnit>)
    requires t != []
    ensures p.Got? ==> |p.rest| < |t|
  {
    if t[0] == BACKSLASH then
      if |t| < 2 then Failed
      else if t[1] == 0x75 then
        if |t| < 6 then Failed
        else match HexUnit(t[2..6]) case Some(u) => Got(u, t[6..]) case None => Failed
      else match ShortEscape(t[1]) case Some(u) => Got(u, t[2..]) case None => Failed
    else if t[0] < 0x20 then Failed
    else Got(t[0], t[1..])
  }

  // The characters of a string after its opening quote.
  function ParseChars(t: Text): (p: Parsed<Text>)
    ensures p.Got? ==> |p.rest| < |t|
  {
    if t == [] then Failed
    else if t[0] == QUOTE then Got([], t[1..])
    else
      match ParseUnit(t)
      case Failed => Failed
      case Got(u, rest) =>
        match ParseChars(rest)
        case Failed => Failed
        case Got(s, rest') => Got([u] + s, rest')
  }

  function NumberRun(t: Text): (n: nat)
    ensures n <= |t|
  {
    if t != [] && IsNumberUnit(t[0]) then 1 + NumberRun(t[1..]) else 0
  }

  // A number ends where no further unit can belong to it. A lexeme too large for a double
  // denotes Infinity, which isJsonValue rejects.
  function ParseNumber(t: Text): (p: Parsed<Json>)
    ensures p.Got? ==> |p.rest| < |t|
  {
    var n := NumberRun(t);
    var lexeme := t[..n];
    if !IsNumeral(lexeme) then Failed
    else
      match READ_NUMBER(lexeme)
      case None => Failed
      case Some(numeral) => Got(JNum(numeral), t[n..])
  }

  function ParseValue(t: Text): (p: Parsed<Json>)
    ensures p.Got? ==> |p.rest| < |t|
    decreases |t|, 0
  {
    var u := SkipSpace(t);
    if u == [] then Failed
    else if u[0] == QUOTE then
      match ParseChars(u[1..])
      case Failed => Failed
      case Got(s, rest) => Got(JStr(s), rest)
    else if u[0] == OPEN_BRACKET then
      var v := SkipSpace(u[1..]);
      if v != [] && v[0] == CLOSE_BRACKET then Got(JArr([]), v[1..])
      else
        match ParseItems(v)
        case Failed => Failed
        case Got(items, rest) => Got(JArr(items), rest)
    else if u[0] == OPEN_BRACE then
      var v := SkipSpace(u[1..]);
      if v != [] && v[0] == CLOSE_BRACE then Got(JObj(map[]), v[1..])
      else
        match ParseMembers(v)
        case Failed => Failed
        case Got(pairs, rest) => Got(JObj(MembersOf(pairs)), rest)
    else if StartsWith(u, NULL_TEXT) then Got(JNull, u[|NULL_TEXT|..])
    else if StartsWith(u, TRUE_TEXT) then Got(JBool(true), u[|TRUE_TEXT|..])
    else if StartsWith(u, FALSE_TEXT) then Got(JBool(false), u[|FALSE_TEXT|..])
    else ParseNumber(u)
  }

  // The items of an array up to and including its closing bracket.
  function ParseItems(t: Text): (p: Parsed<seq<Json>>)
    ensures p.Got? ==> |p.rest| < |t|
    decreases |t|, 1
  {
    match ParseValue(t)
    case Failed => Failed
    case Got(item, rest) =>
      var u := SkipSpace(rest);
      if u == [] then Failed
      else if u[0] == CLOSE_BRACKET then Got([item], u[1..])
      else if u[0] != COMMA then Failed
      else
        match ParseItems(u[1..])
        case Failed => Failed
        case Got(items, rest') => Got([item] + items, rest')
  }

  // The members of an object as they are listed, up to and including its closing brace.
  function ParseMembers(t: Text): (p: Parsed<seq<(Text, Json)>>)
    ensures p.Got? ==> |p.rest| < |t|
    decreases |t|, 1
  {
    var u := SkipSpace(t);
    if u == [] || u[0] != QUOTE then Failed
    else
      match ParseChars(u[1..])
      case Failed => Failed
      case Got(key, rest) =>
        var v := SkipSpace(rest);
        if v == [] || v[0] != COLON then Failed
        else
          match ParseValue(v[1..])
          case Failed => Failed
          case Got(value, rest') =>
            var w := SkipSpace(rest');
            if w == [] then Failed
            else if w[0] == CLOSE_BRACE then Got([(key, value)], w[1..])
            else if w[0] != COMMA then Failed
            else
              match ParseMembers(w[1..])
              case Failed => Failed
              case Got(pairs, rest'') => Got([(key, value)] + pairs, rest'')
  }

  // The object a listing makes; a later duplicate wins.
  function MembersOf(pairs: seq<(Text, Json)>): map<Text, Json> {
    if pairs == [] then map[] else map[pairs[0].0 := pairs[0].1] + MembersOf(pairs[1..])
  }

  function Parse(t: Text): Option<Json> {
    match ParseValue(t)
    case Failed => None
    case Got(v, rest) => if SkipSpace(rest) == [] then Some(v) else None
  }

  // ----- Strings -----

  lemma HexDigitReads(d: int)
    requires 0 <= d < 0x10
    ensures HexValue(HexDigit(d)) == Some(d)
  {
  }

  lemma HexRoundTrip(u: int, rest: Text)
    requires 0 <= u < 0x1_0000
    ensures ParseUnit(HexEscape(u) + rest) == Got(u, rest)
  {
    var t := HexEscape(u) + rest;
    assert t[2..6] == HexEscape(u)[2..];
    assert t[6..] == rest;
    HexDigits(u);
    hide HexUnit, HexEscape;
  }

  lemma HexDigits(u: int)
    requires 0 <= u < 0x1_0000
    ensures HexUnit(HexEscape(u)[2..]) == Some(u)
  {
    HexDigitReads(u / 0x1000);
    HexDigitReads(u / 0x100 % 0x10);
    HexDigitReads(u / 0x10 % 0x10);
    HexDigitReads(u % 0x10);
    hide HexDigit, HexValue;
    assert u == u / 0x1000 * 0x1000 + u / 0x100 % 0x10 * 0x100 + u / 0x10 % 0x10 * 0x10 + u % 0x10 by {
      assert u / 0x100 / 0x10 == u / 0x1000 && u / 0x10 / 0x10 == u / 0x100;
    }
  }

  // One unit of a string read, and then the rest.
  lemma UnitStep(t: Text, u: CodeUnit, rest: Text)
    requires t != [] && t[0] != QUOTE && ParseUnit(t) == Got(u, rest)
    ensures ParseChars(rest).Got? ==> ParseChars(t) == Got([u] + ParseChars(rest).value, ParseChars(rest).rest)
  {
    hide ParseUnit;
  }

  lemma PlainUnit(u: CodeUnit, rest: Text)
    requires u >= 0x20 && u != QUOTE && u != BACKSLASH
    ensures ParseUnit([u] + rest) == Got(u, rest)
  {
    assert ([u] + rest)[1..] == rest;
  }

  // A code point that needs no escape reads as its code units.
  lemma PlainRoundTrip(c: int, rest: Text)
    requires 0x20 <= c < 0x11_0000 && c != 0x22 && c != 0x5C && !IsSurrogate(c)
    ensures ParseChars(rest).Got? ==>
              ParseChars(Units(c) + rest) == Got(Units(c) + ParseChars(rest).value, ParseChars(rest).rest)
  {
    var units := Units(c);
    hide ParseUnit, ParseChars, Units;
    if c > 0xFFFF {
      PlainUnit(units[1], rest);
      UnitStep([units[1]] + rest, units[1], rest);
      PlainUnit(units[0], [units[1]] + rest);
      UnitStep([units[0]] + ([units[1]] + rest), units[0], [units[1]] + rest);
      PairFirst(units, rest);
      if ParseChars(rest).Got? {
        PairFirst(units, ParseChars(rest).value);
      }
    } else {
      PlainUnit(units[0], rest);
      UnitStep([units[0]] + rest, units[0], rest);
      assert units == [units[0]];
    }
  }

  lemma PairFirst(units: Text, rest: Text)
    requires |units| == 2
    ensures units + rest == [units[0]] + ([units[1]] + rest)
  {
  }

  // A short escape: a backslash and a letter.
  lemma ShortRoundTrip(u: CodeUnit, e: Text, rest: Text)
    requires |e| == 2 && e[0] == BACKSLASH && e[1] != 0x75 && ShortEscape(e[1]) == Some(u)
    ensures ParseUnit(e + rest) == Got(u, rest)
  {
    assert (e + rest)[2..] == rest;
  }

  lemma EscapeRoundTrip(c: int, rest: Text)
    requires 0 <= c < 0x11_0000
    ensures ParseChars(rest).Got? ==>
              ParseChars(EscapeOf(c) + rest) == Got(Units(c) + ParseChars(rest).value, ParseChars(rest).rest)
  {
    var e := EscapeOf(c);
    assert e[0] != QUOTE && (e == Units(c) ==> 0x20 <= c && c != 0x22 && c != 0x5C && !IsSurrogate(c));
    assert e != Units(c) ==> Units(c) == [c];
    assert e != Units(c) && e != HexEscape(c) ==> |e| == 2 && e[0] == BACKSLASH && e[1] != 0x75 && ShortEscape(e[1]) == Some(c);
    hide EscapeOf, HexEscape, Units, ParseUnit, ParseChars, ShortEscape;
    if e == Units(c) {
      PlainRoundTrip(c, rest);
    } else {
      if e == HexEscape(c) {
        HexRoundTrip(c, rest);
      } else {
        ShortRoundTrip(c, e, rest);
      }
      UnitStep(e + rest, c, rest);
    }
  }

  lemma Associate(a: Text, b: Text, c: Text, d: Text)
    ensures a + b + c + d == a + (b + c + d)
  {
  }

  lemma FirstEscape(s: Text)
    requires s != []
    ensures Width(CodePointAt(s, 0)) <= |s|
    ensures Escapes(s) == EscapeOf(CodePointAt(s, 0)) + Escapes(s[Width(CodePointAt(s, 0))..])
  {
    hide EscapeOf, CodePointAt;
  }

  // The code points of a text, one at a time.
  lemma FirstCharacter(s: Text)
    requires s != []
    ensures var c := CodePointAt(s, 0);
            && Width(c) <= |s| && s == Units(c) + s[Width(c)..]
            && Escapes(s) == EscapeOf(c) + Escapes(s[Width(c)..])
  {
    hide *;
    FirstEscape(s);
    UnitsOfCodePoint(s);
    assert s == s[..Width(CodePointAt(s, 0))] + s[Width(CodePointAt(s, 0))..];
  }

  // Section 7 of RFC 8259 undone: the characters of a quoted string read back, whatever they
  // are, lone surrogates included.
  lemma {:induction false} EscapesRoundTrip(s: Text, rest: Text)
    ensures ParseChars(Escapes(s) + [QUOTE] + rest) == Got(s, rest)
  {
    if s == [] {
      assert Escapes(s) + [QUOTE] + rest == [QUOTE] + rest;
      assert ([QUOTE] + rest)[1..] == rest;
    } else {
      hide ParseChars, ParseUnit, Escapes, EscapeOf, Units, CodePointAt;
      FirstCharacter(s);
      var c := CodePointAt(s, 0);
      var tail := s[Width(c)..];
      EscapesRoundTrip(tail, rest);
      EscapeRoundTrip(c, Escapes(tail) + [QUOTE] + rest);
      Associate(EscapeOf(c), Escapes(tail), [QUOTE], rest);
    }
  }

  // ----- The shortest form of a string -----

  lemma WellFormedTail(t: Text, n: nat)
    requires WellFormed(t) && n <= |t| && forall i | 0 <= i < n :: t[i] < 0x80
    ensures WellFormed(t[n..])
  {
    if n == 0 {
      assert t[0..] == t;
    } else {
      WellFormedTail(t[1..], n - 1);
      assert t[1..][n - 1..] == t[n..];
    }
  }

  // An escape is all ASCII, and no shorter than the escape of what it stands for.
  lemma EscapeRead(t: Text)
    requires t != [] && t[0] == BACKSLASH && ParseUnit(t).Got?
    ensures var n := |t| - |ParseUnit(t).rest|;
            && (n == 6 || (n == 2 && !IsHigh(ParseUnit(t).value) && |EscapeOf(ParseUnit(t).value)| <= 2))
            && ParseUnit(t).rest == t[n..] && forall i | 0 <= i < n :: t[i] < 0x80
  {
    if t[1] == 0x75 {
      assert HexUnit(t[2..6]).Some?;
      assert t[2..6][0] == t[2] && t[2..6][1] == t[3] && t[2..6][2] == t[4] && t[2..6][3] == t[5];
    }
  }

  // One more unit in front costs at most six, or what its own escape costs.
  lemma EscapesCons(u: CodeUnit, s: Text)
    ensures |Escapes([u] + s)| <= 6 + |Escapes(s)|
    ensures !IsHigh(u) ==> |Escapes([u] + s)| == |EscapeOf(u)| + |Escapes(s)|
  {
    var t := [u] + s;
    assert t[1..] == s;
    FirstEscape(t);
    if IsHigh(u) && s != [] && IsLow(s[0]) {
      FirstEscape(s);
      assert t[2..] == s[1..];
      assert CodePointAt(s, 0) == s[0];
    }
  }

  lemma PairEscape(u: CodeUnit, l: CodeUnit, s: Text)
    requires IsHigh(u) && IsLow(l)
    ensures |Escapes([u] + ([l] + s))| == 2 + |Escapes(s)|
  {
    var t := [u] + ([l] + s);
    FirstEscape(t);
    assert t[2..] == s;
  }

  lemma PlainStep(t: Text)
    requires t != [] && t[0] >= 0x20 && t[0] != QUOTE && t[0] != BACKSLASH && ParseChars(t).Got?
    ensures ParseChars(t[1..]).Got?
    ensures ParseChars(t) == Got([t[0]] + ParseChars(t[1..]).value, ParseChars(t[1..]).rest)
  {
  }

  // Of all the well-formed texts a string reads from, the canonical one is the shortest.
  lemma {:induction false} ShortestEscapes(t: Text)
    requires WellFormed(t) && ParseChars(t).Got?
    ensures |Escapes(ParseChars(t).value)| + 1 + |ParseChars(t).rest| <= |t|
    decreases |t|
  {
    if t[0] == BACKSLASH {
      EscapeRead(t);
      var u, rest := ParseUnit(t).value, ParseUnit(t).rest;
      WellFormedTail(t, |t| - |rest|);
      ShortestEscapes(rest);
      EscapesCons(u, ParseChars(rest).value);
    } else if t[0] != QUOTE {
      PlainStep(t);
      if IsSurrogate(t[0]) {
        PlainStep(t[1..]);
        assert t[1..][1..] == t[2..];
        ShortestEscapes(t[2..]);
        PairEscape(t[0], t[1], ParseChars(t[2..]).value);
      } else {
        ShortestEscapes(t[1..]);
        EscapesCons(t[0], ParseChars(t[1..]).value);
      }
    }
  }

  // Where digits are needed, they are in lower case.
  lemma EscapesLowerCase(c: int)
    requires 0 <= c < 0x11_0000 && EscapeOf(c) != Units(c)
    ensures forall u | u in EscapeOf(c) :: !(0x41 <= u <= 0x5A)
  {
  }

  // ----- Numbers -----

  // Text that cannot continue a number.
  predicate Delimited(rest: Text) {
    rest != [] ==> !IsNumberUnit(rest[0])
  }

  lemma {:induction false} NumberRunOf(lexeme: Text, rest: Text)
    requires forall u | u in lexeme :: IsNumberUnit(u)
    requires Delimited(rest)
    ensures NumberRun(lexeme + rest) == |lexeme|
  {
    if lexeme == [] {
      assert lexeme + rest == rest;
    } else {
      assert lexeme[0] in lexeme;
      assert (lexeme + rest)[1..] == lexeme[1..] + rest;
      NumberRunOf(lexeme[1..], rest);
    }
  }

  lemma NumberRoundTrip(numeral: Numeral, rest: Text)
    requires Delimited(rest)
    ensures ParseNumber(numeral + rest) == Got(JNum(numeral), rest)
  {
    NumeralUnits(numeral);
    NumberRunOf(numeral, rest);
    assert (numeral + rest)[..|numeral|] == numeral;
    assert (numeral + rest)[|numeral|..] == rest;
  }

  // ----- Values -----

  // A printed value opens with neither white space nor a closing mark.
  lemma PrintStart(v: Json)
    ensures Print(v) != []
    ensures !IsSpace(Print(v)[0])
    ensures Print(v)[0] != CLOSE_BRACKET && Print(v)[0] != CLOSE_BRACE
  {
    if v.JNum? {
      NumeralUnits(v.numeral);
    }
  }

  lemma SpaceFree(t: Text)
    requires t != [] && !IsSpace(t[0])
    ensures SkipSpace(t) == t
  {
  }

  lemma LiteralStep(v: Json, rest: Text)
    requires v.JNull? || v.JBool?
    ensures ParseValue(Print(v) + rest) == Got(v, rest)
  {
    var t := Print(v) + rest;
    SpaceFree(t);
    assert t[..|Print(v)|] == Print(v) && t[|Print(v)|..] == rest;
    assert |t| >= 4 && t[..4][0] == t[0];
  }

  lemma NumberStep(numeral: Numeral, rest: Text)
    requires Delimited(rest)
    ensures ParseValue(numeral + rest) == Got(JNum(numeral), rest)
  {
    var t := numeral + rest;
    NumeralUnits(numeral);
    SpaceFree(t);
    assert !StartsWith(t, NULL_TEXT) && !StartsWith(t, TRUE_TEXT) && !StartsWith(t, FALSE_TEXT) by {
      assert |t| >= 4 ==> t[..4][0] == t[0];
      assert |t| >= 5 ==> t[..5][0] == t[0];
    }
    NumberRoundTrip(numeral, rest);
  }

  lemma StringStep(s: Text, rest: Text)
    ensures ParseValue(Quote(s) + rest) == Got(JStr(s), rest)
  {
    var u := Escapes(s) + [QUOTE] + rest;
    assert Quote(s) + rest == [QUOTE] + u;
    SpaceFree([QUOTE] + u);
    assert ([QUOTE] + u)[1..] == u;
    EscapesRoundTrip(s, rest);
  }

  lemma EmptyStep(rest: Text)
    ensures ParseValue([OPEN_BRACKET, CLOSE_BRACKET] + rest) == Got(JArr([]), rest)
    ensures ParseValue([OPEN_BRACE, CLOSE_BRACE] + rest) == Got(JObj(map[]), rest)
  {
    var t, u := [OPEN_BRACKET, CLOSE_BRACKET] + rest, [OPEN_BRACE, CLOSE_BRACE] + rest;
    assert t[1..] == [CLOSE_BRACKET] + rest && t[1..][1..] == rest;
    assert u[1..] == [CLOSE_BRACE] + rest && u[1..][1..] == rest;
  }

  lemma ArrayStep(inner: Text, items: seq<Json>, rest: Text)
    requires inner != [] && !IsSpace(inner[0]) && inner[0] != CLOSE_BRACKET
    requires ParseItems(inner) == Got(items, rest)
    ensures ParseValue([OPEN_BRACKET] + inner) == Got(JArr(items), rest)
  {
    var t := [OPEN_BRACKET] + inner;
    SpaceFree(t);
    assert t[1..] == inner;
    SpaceFree(inner);
  }

  lemma ObjectStep(inner: Text, pairs: seq<(Text, Json)>, rest: Text)
    requires inner != [] && inner[0] == QUOTE
    requires ParseMembers(inner) == Got(pairs, rest)
    ensures ParseValue([OPEN_BRACE] + inner) == Got(JObj(MembersOf(pairs)), rest)
  {
    var t := [OPEN_BRACE] + inner;
    SpaceFree(t);
    assert t[1..] == inner;
    SpaceFree(inner);
  }

  lemma ItemStep(t: Text, item: Json, after: Text)
    requires ParseValue(t) == Got(item, after)
    requires after != []
    ensures after[0] == CLOSE_BRACKET ==> ParseItems(t) == Got([item], after[1..])
    ensures after[0] == COMMA ==>
              match ParseItems(after[1..])
              case Failed => true
              case Got(items, rest) => ParseItems(t) == Got([item] + items, rest)
  {
    if after[0] == CLOSE_BRACKET || after[0] == COMMA {
      SpaceFree(after);
    }
  }

  // One member, from its key to the mark after its value.
  lemma MemberStep(key: Text, value: Json, body: Text, after: Text) returns (t: Text)
    requires ParseValue(body) == Got(value, after)
    requires after != []
    ensures t == Quote(key) + [COLON] + body && t != [] && t[0] == QUOTE
    ensures after[0] == CLOSE_BRACE ==> ParseMembers(t) == Got([(key, value)], after[1..])
    ensures after[0] == COMMA ==>
              match ParseMembers(after[1..])
              case Failed => true
              case Got(pairs, rest) => ParseMembers(t) == Got([(key, value)] + pairs, rest)
  {
    var colon := [COLON] + body;
    var chars := Escapes(key) + [QUOTE] + colon;
    t := [QUOTE] + chars;
    assert t == Quote(key) + [COLON] + body;
    EscapesRoundTrip(key, colon);
    SpaceFree(t);
    assert t[1..] == chars;
    SpaceFree(colon);
    assert colon[1..] == body;
    if after[0] == CLOSE_BRACE || after[0] == COMMA {
      SpaceFree(after);
    }
  }

  lemma {:induction false} ValueRoundTrip(v: Json, rest: Text)
    requires Delimited(rest)
    ensures ParseValue(Print(v) + rest) == Got(v, rest)
    decreases v, 1
  {
    match v
    case JNull => LiteralStep(v, rest);
    case JBool(_) => LiteralStep(v, rest);
    case JNum(numeral) => NumberStep(numeral, rest);
    case JStr(text) => StringStep(text, rest);
    case JArr(items) => ArrayRoundTrip(v, rest);
    case JObj(members) => ObjectRoundTrip(v, rest);
  }

  lemma {:induction false} ArrayRoundTrip(v: Json, rest: Text)
    requires v.JArr?
    ensures ParseValue(Print(v) + rest) == Got(v, rest)
    decreases v, 0
  {
    if v.items == [] {
      EmptyStep(rest);
      assert Print(v) == [OPEN_BRACKET, CLOSE_BRACKET];
    } else {
      var inner := ItemsRoundTrip(v.items, rest);
      ArrayStep(inner, v.items, rest);
      Enclose(OPEN_BRACKET, PrintItems(v.items), CLOSE_BRACKET, rest);
    }
  }

  lemma {:induction false} ObjectRoundTrip(v: Json, rest: Text)
    requires v.JObj?
    ensures ParseValue(Print(v) + rest) == Got(v, rest)
    decreases v, 0, |SortedKeys(v)| + 1
  {
    ObjectText(v);
    hide Print, PrintMembers, ParseValue, ParseMembers, MembersOf, Pairs, SortedTexts, StrictlySorted, TextOrder;
    var ks := SortedKeys(v);
    if ks == [] {
      EmptyStep(rest);
    } else {
      var inner := MembersRoundTrip(v, ks, rest);
      MembersWhole(v);
      ObjectStep(inner, Pairs(v, ks), rest);
      Enclose(OPEN_BRACE, PrintMembers(v, ks), CLOSE_BRACE, rest);
    }
  }

  lemma ObjectText(v: Json)
    requires v.JObj?
    ensures Print(v) == [OPEN_BRACE] + PrintMembers(v, SortedKeys(v)) + [CLOSE_BRACE]
    ensures SortedKeys(v) == [] ==> v == JObj(map[]) && Print(v) == [OPEN_BRACE, CLOSE_BRACE]
  {
    hide SortedTexts, StrictlySorted, TextOrder;
    if SortedKeys(v) == [] {
      assert v.members == map[];
      assert PrintMembers(v, []) == [];
    }
  }

  // The members of an object listed by these keys.
  function Pairs(v: Json, ks: seq<Text>): seq<(Text, Json)>
    requires v.JObj? && forall k | k in ks :: k in v.members
  {
    seq(|ks|, i requires 0 <= i < |ks| => (ks[i], v.members[ks[i]]))
  }

  lemma {:induction false} MembersOfPairs(v: Json, ks: seq<Text>)
    requires v.JObj? && forall k | k in ks :: k in v.members
    ensures MembersOf(Pairs(v, ks)) == map k | k in ks :: v.members[k]
    decreases |ks|
  {
    if ks != [] {
      PairsCons(v, ks);
      MembersOfCons((ks[0], v.members[ks[0]]), Pairs(v, ks[1..]));
      hide MembersOf, Pairs;
      MembersOfPairs(v, ks[1..]);
      MembersCons(v, ks);
    }
  }

  lemma MembersCons(v: Json, ks: seq<Text>)
    requires v.JObj? && ks != [] && forall k | k in ks :: k in v.members
    ensures (map k | k in ks :: v.members[k]) ==
            map[ks[0] := v.members[ks[0]]] + (map k | k in ks[1..] :: v.members[k])
  {
    assert forall k :: k in ks <==> k == ks[0] || k in ks[1..];
  }

  lemma MembersOfCons(pair: (Text, Json), rest: seq<(Text, Json)>)
    ensures MembersOf([pair] + rest) == map[pair.0 := pair.1] + MembersOf(rest)
  {
    assert ([pair] + rest)[1..] == rest;
  }

  lemma PairsCons(v: Json, ks: seq<Text>)
    requires v.JObj? && ks != [] && forall k | k in ks :: k in v.members
    ensures Pairs(v, ks) == [(ks[0], v.members[ks[0]])] + Pairs(v, ks[1..])
    ensures |ks| == 1 ==> Pairs(v, ks) == [(ks[0], v.members[ks[0]])]
  {
  }

  lemma MembersWhole(v: Json)
    requires v.JObj?
    ensures MembersOf(Pairs(v, SortedKeys(v))) == v.members
  {
    hide MembersOf, Pairs;
    MembersOfPairs(v, SortedKeys(v));
  }

  lemma Enclose(open: CodeUnit, t: Text, close: CodeUnit, rest: Text)
    ensures [open] + t + [close] + rest == [open] + (t + [close] + rest)
  {
  }

  lemma LastPart(first: Text, close: CodeUnit, rest: Text)
    ensures first + [close] + rest == first + ([close] + rest)
  {
  }

  lemma OtherPart(first: Text, others: Text, close: CodeUnit, rest: Text)
    ensures first + [COMMA] + others + [close] + rest == first + ([COMMA] + (others + [close] + rest))
  {
  }

  lemma ItemsText(items: seq<Json>, rest: Text)
    requires items != []
    ensures PrintItems(items) + [CLOSE_BRACKET] + rest ==
            Print(items[0]) +
            if |items| == 1 then [CLOSE_BRACKET] + rest
            else [COMMA] + (PrintItems(items[1..]) + [CLOSE_BRACKET] + rest)
  {
    hide Print;
    if |items| == 1 {
      LastPart(Print(items[0]), CLOSE_BRACKET, rest);
    } else {
      OtherPart(Print(items[0]), PrintItems(items[1..]), CLOSE_BRACKET, rest);
    }
  }

  lemma MembersText(v: Json, ks: seq<Text>, rest: Text)
    requires v.JObj? && ks != [] && forall k | k in ks :: k in v.members
    ensures PrintMembers(v, ks) + [CLOSE_BRACE] + rest ==
            Quote(ks[0]) + [COLON] +
            (Print(v.members[ks[0]]) +
             if |ks| == 1 then [CLOSE_BRACE] + rest
             else [COMMA] + (PrintMembers(v, ks[1..]) + [CLOSE_BRACE] + rest))
  {
  }

  lemma {:induction false} ItemsRoundTrip(items: seq<Json>, rest: Text) returns (inner: Text)
    requires items != []
    ensures inner == PrintItems(items) + [CLOSE_BRACKET] + rest
    ensures inner != [] && !IsSpace(inner[0]) && inner[0] != CLOSE_BRACKET
    ensures ParseItems(inner) == Got(items, rest)
    decreases items, |items|
  {
    hide Print, PrintItems, ParseValue, ParseItems;
    var after;
    if |items| == 1 {
      after := [CLOSE_BRACKET] + rest;
      assert after[1..] == rest && items == [items[0]];
    } else {
      var next := ItemsRoundTrip(items[1..], rest);
      after := [COMMA] + next;
      assert after[1..] == next;
    }
    inner := Print(items[0]) + after;
    ItemsText(items, rest);
    PrintStart(items[0]);
    ValueRoundTrip(items[0], after);
    assert items == [items[0]] + items[1..];
    ItemStep(inner, items[0], after);
  }

  lemma {:induction false} MembersRoundTrip(v: Json, ks: seq<Text>, rest: Text) returns (inner: Text)
    requires v.JObj? && ks != [] && forall k | k in ks :: k in v.members
    ensures inner == PrintMembers(v, ks) + [CLOSE_BRACE] + rest
    ensures inner != [] && inner[0] == QUOTE
    ensures ParseMembers(inner) == Got(Pairs(v, ks), rest)
    decreases v, 0, |ks|
  {
    var after;
    if |ks| == 1 {
      after := [CLOSE_BRACE] + rest;
      assert after[1..] == rest;
    } else {
      var next := MembersRoundTrip(v, ks[1..], rest);
      after := [COMMA] + next;
      assert after[1..] == next;
    }
    var value := v.members[ks[0]];
    ValueRoundTrip(value, after);
    inner := MemberStep(ks[0], value, Print(value) + after, after);
    MembersText(v, ks, rest);
    PairsCons(v, ks);
  }

  // ----- The order of keys -----

  // The keys of the object at the head of a text, in the order in which the text lists them.
  function ListedKeys(t: Text): Option<seq<Text>> {
    var u := SkipSpace(t);
    if u == [] || u[0] != OPEN_BRACE then None
    else
      var v := SkipSpace(u[1..]);
      if v != [] && v[0] == CLOSE_BRACE then Some([])
      else
        match ParseMembers(v)
        case Failed => None
        case Got(pairs, _) => Some(KeysOf(pairs))
  }

  function KeysOf(pairs: seq<(Text, Json)>): seq<Text> {
    seq(|pairs|, i requires 0 <= i < |pairs| => pairs[i].0)
  }

  lemma {:induction false} PrintedKeys(v: Json, rest: Text)
    requires v.JObj?
    ensures ListedKeys(Print(v) + rest) == Some(SortedKeys(v))
  {
    ObjectText(v);
    hide Print, PrintMembers, ParseMembers, ListedKeys, Pairs, SortedTexts, StrictlySorted, TextOrder;
    var ks := SortedKeys(v);
    if ks == [] {
      assert Print(v) + rest == [OPEN_BRACE] + ([CLOSE_BRACE] + rest);
      NoKeys(rest);
    } else {
      var inner := MembersRoundTrip(v, ks, rest);
      Enclose(OPEN_BRACE, PrintMembers(v, ks), CLOSE_BRACE, rest);
      KeysStep(v, ks, inner, rest);
    }
  }

  lemma NoKeys(rest: Text)
    ensures ListedKeys([OPEN_BRACE] + ([CLOSE_BRACE] + rest)) == Some([])
  {
    var t := [OPEN_BRACE] + ([CLOSE_BRACE] + rest);
    assert t[1..] == [CLOSE_BRACE] + rest;
  }

  lemma KeysStep(v: Json, ks: seq<Text>, inner: Text, rest: Text)
    requires v.JObj? && forall k | k in ks :: k in v.members
    requires inner != [] && inner[0] == QUOTE && ParseMembers(inner) == Got(Pairs(v, ks), rest)
    ensures ListedKeys([OPEN_BRACE] + inner) == Some(ks)
  {
    hide ParseMembers;
    var t := [OPEN_BRACE] + inner;
    SpaceFree(t);
    assert t[1..] == inner;
    SpaceFree(inner);
    assert KeysOf(Pairs(v, ks)) == ks;
  }

  // The canonical text of an object lists each of its keys once, in the order of compareText,
  // wherever in a text it stands.
  lemma PrintListsSorted(v: Json, rest: Text)
    requires v.JObj?
    ensures var ks := ListedKeys(Print(v) + rest);
            ks.Some? && StrictlySorted(ks.value) && forall k :: k in ks.value <==> k in v.members
  {
    PrintedKeys(v, rest);
  }

  // ----- The canonical form -----

  // Parsing the canonical text of a value gives the value back.
  lemma PrintParse(v: Json)
    ensures Parse(Print(v)) == Some(v)
  {
    ValueRoundTrip(v, []);
    assert Print(v) + [] == Print(v);
  }

  // Two values have the same canonical text exactly when they are the same JSON value.
  lemma PrintInjective(v: Json, w: Json)
    ensures Print(v) == Print(w) <==> v == w
  {
    PrintParse(v);
    PrintParse(w);
  }

  // The check on stored text in FileSystemBlobStore and parseStoredEntry: the text parses and
  // prints as itself.
  predicate IsCanonical(t: Text) {
    var v := Parse(t);
    v.Some? && Print(v.value) == t
  }

  // The check accepts exactly the canonical texts.
  lemma CanonicalIsPrinted(t: Text)
    ensures IsCanonical(t) <==> exists v :: Print(v) == t
  {
    if v :| Print(v) == t {
      PrintParse(v);
    }
  }
}
