// The cursor tokens of the public Relay (apps/public-relay/src/cursor-codec.js): a signed payload
// that says where a listing stopped, for which route and query, and until when it may be resumed.
module Cursor {
  import opened Wrappers
  import opened Text
  import opened Utf8
  import opened Numeral
  import opened Json
  import opened JsonParser
  import opened Scopes
  import opened Validation
  import Base64Url

  // ----- The clock and the signature -----

  // A time value in milliseconds, within the range of section 21.4.1.1 of ECMA-262.
  type Clock = ms: int | -8_640_000_000_000_000 <= ms <= 8_640_000_000_000_000

  type Signature = b: seq<int> | Base64Url.AreBytes(b) && |b| == 32 witness seq(32, _ => 0)

  // HMAC-SHA-256 of an ASCII text under a secret. Nothing is assumed about it.
  const HMAC_SHA256: (seq<int>, Text) -> Signature

  // ttlSeconds is between 1 and 3600, the secret has at least 32 bytes.
  datatype CursorCodec = CursorCodec(secret: seq<int>, ttlSeconds: int)

  type Codec = c: CursorCodec | |c.secret| >= 32 && 1 <= c.ttlSeconds <= 3600
    witness CursorCodec(seq(32, _ => 0), 300)

  // Math.floor(now / 1000)
  function Seconds(now: Clock): int {
    now / 1000
  }

  function ExpiryFrom(codec: Codec, now: Clock): (expiresAt: int)
    ensures -MAX_SAFE <= expiresAt <= MAX_SAFE
  {
    Seconds(now) + codec.ttlSeconds
  }

  // The lifetime of a cursor, in milliseconds: ttlSeconds from the last full second before it was
  // made.
  predicate Alive(codec: Codec, made: Clock, now: Clock) {
    now < made - made % 1000 + 1000 * codec.ttlSeconds
  }

  lemma AliveInSeconds(codec: Codec, made: Clock, now: Clock)
    ensures Alive(codec, made, now) <==> Seconds(now) < ExpiryFrom(codec, made)
  {
  }

  // ----- Tokens -----

  const CURSOR_PREFIX: Text := Ascii("fnsrc1")

  const ROUTE: Text := Ascii("route")
  const QUERY: Text := Ascii("query")
  const LAST_OBJECT_ID: Text := Ascii("lastObjectId")
  const EXPIRES_AT: Text := Ascii("expiresAt")

  datatype Payload = Payload(route: Text, query: Json, lastObjectId: Text, expiresAt: int)

  function PayloadJson(p: Payload): Json
    requires -MAX_SAFE <= p.expiresAt <= MAX_SAFE
  {
    JObj(map[
      VERSION := JNum(IntegralNumeral(1)),
      ROUTE := JStr(p.route),
      QUERY := p.query,
      LAST_OBJECT_ID := JStr(p.lastObjectId),
      EXPIRES_AT := JNum(IntegralNumeral(p.expiresAt))])
  }

  // The signature part of a token.
  function Sign(codec: Codec, encodedPayload: Text): Text {
    Base64Url.Encode(HMAC_SHA256(codec.secret, encodedPayload))
  }

  function EncodedPayload(p: Payload): Text
    requires -MAX_SAFE <= p.expiresAt <= MAX_SAFE
  {
    Base64Url.Encode(Utf8.Encode(Print(PayloadJson(p))))
  }

  // create
  function Create(codec: Codec, now: Clock, route: Text, query: Json, lastObjectId: Text): Result<Text> {
    if route == [] then
      Err(RelayProtocol)
    else
      var encoded := EncodedPayload(Payload(route, query, lastObjectId, ExpiryFrom(codec, now)));
      Ok(CURSOR_PREFIX + [DOT] + encoded + [DOT] + Sign(codec, encoded))
  }

  // String.prototype.split with one separating unit.
  function SplitAt(t: Text, separator: CodeUnit): (parts: seq<Text>)
    ensures parts != []
  {
    if t == [] then [[]]
    else
      var rest := SplitAt(t[1..], separator);
      if t[0] == separator then [[]] + rest else [[t[0]] + rest[0]] + rest[1..]
  }

  // The fields parse checks, if they are all there with the right types.
  function ReadPayload(v: Json): Option<Payload> {
    if v.JObj? && VERSION in v.members && v.members[VERSION] == JNum(IntegralNumeral(1)) && QUERY in v.members then
      var route, last := TextMember(v, ROUTE), TextMember(v, LAST_OBJECT_ID);
      if route.Some? && last.Some? && EXPIRES_AT in v.members && v.members[EXPIRES_AT].JNum? then
        match SafeInteger(v.members[EXPIRES_AT].numeral)
        case Some(expiresAt) => Some(Payload(route.value, v.members[QUERY], last.value, expiresAt))
        case None => None
      else
        None
    else
      None
  }

  // parse
  function ParseCursor(codec: Codec, now: Clock, value: Text, route: Text, query: Json): Result<Payload> {
    var parts := SplitAt(value, DOT);
    if |parts| != 3 || parts[0] != CURSOR_PREFIX then Err(RelayProtocol)
    else if Base64Url.Decode(parts[2]) != Base64Url.Decode(Sign(codec, parts[1])) then Err(RelayProtocol)
    else
      match Parse(Utf8.Decode(Base64Url.Decode(parts[1])))
      case None => Err(RelayProtocol)
      case Some(v) =>
        match ReadPayload(v)
        case None => Err(RelayProtocol)
        case Some(p) =>
          if Print(p.query) != Print(query) || p.route != route || p.expiresAt <= Seconds(now) then Err(RelayProtocol)
          else Ok(p)
  }

  // ----- Splitting -----

  lemma {:induction false} SplitNothing(t: Text, separator: CodeUnit)
    requires forall u | u in t :: u != separator
    ensures SplitAt(t, separator) == [t]
  {
    if t != [] {
      assert t[0] in t && forall u | u in t[1..] :: u in t;
      SplitNothing(t[1..], separator);
      assert [t[0]] + t[1..] == t;
    }
  }

  lemma {:induction false} SplitFirst(a: Text, b: Text, separator: CodeUnit)
    requires forall u | u in a :: u != separator
    ensures SplitAt(a + [separator] + b, separator) == [a] + SplitAt(b, separator)
  {
    var t := a + [separator] + b;
    if a == [] {
      assert t == [separator] + b && t[1..] == b;
    } else {
      assert a[0] in a && forall u | u in a[1..] :: u in a;
      assert t[0] == a[0] && t[1..] == a[1..] + [separator] + b;
      SplitFirst(a[1..], b, separator);
      var rest := SplitAt(t[1..], separator);
      assert rest[0] == a[1..] && rest[1..] == SplitAt(b, separator);
      assert [a[0]] + a[1..] == a;
    }
  }

  lemma LettersHaveNoDot(t: Text)
    requires forall u | u in t :: Base64Url.IsLetter(u)
    ensures forall u | u in t :: u != DOT
  {
  }

  lemma PrefixHasNoDot()
    ensures forall u | u in CURSOR_PREFIX :: u != DOT
  {
    forall u | u in CURSOR_PREFIX ensures u != DOT {
      var i :| 0 <= i < |CURSOR_PREFIX| && CURSOR_PREFIX[i] == u;
      assert "fnsrc1"[i] != '.';
    }
  }

  lemma TokenParts(encoded: Text, signature: Text)
    requires forall u | u in encoded :: Base64Url.IsLetter(u)
    requires forall u | u in signature :: Base64Url.IsLetter(u)
    ensures SplitAt(CURSOR_PREFIX + [DOT] + encoded + [DOT] + signature, DOT) == [CURSOR_PREFIX, encoded, signature]
  {
    hide CURSOR_PREFIX;
    PrefixHasNoDot();
    LettersHaveNoDot(encoded);
    LettersHaveNoDot(signature);
    SplitNothing(signature, DOT);
    SplitFirst(encoded, signature, DOT);
    SplitFirst(CURSOR_PREFIX, encoded + [DOT] + signature, DOT);
    DottedParts(CURSOR_PREFIX, encoded, signature);
  }

  lemma DottedParts(a: Text, b: Text, c: Text)
    ensures a + [DOT] + b + [DOT] + c == a + [DOT] + (b + [DOT] + c)
  {
  }

  // ----- The payload -----

  lemma PayloadKeysDiffer()
    ensures VERSION != ROUTE && VERSION != QUERY && VERSION != LAST_OBJECT_ID && VERSION != EXPIRES_AT
    ensures ROUTE != QUERY && ROUTE != LAST_OBJECT_ID && ROUTE != EXPIRES_AT
    ensures QUERY != LAST_OBJECT_ID && QUERY != EXPIRES_AT && LAST_OBJECT_ID != EXPIRES_AT
  {
    assert |VERSION| == 7 && |ROUTE| == 5 && |QUERY| == 5 && |LAST_OBJECT_ID| == 12 && |EXPIRES_AT| == 9;
    assert ROUTE[0] != QUERY[0];
  }

  lemma PayloadReadsBack(p: Payload)
    requires -MAX_SAFE <= p.expiresAt <= MAX_SAFE
    ensures ReadPayload(PayloadJson(p)) == Some(p)
  {
    hide Ascii, SafeInteger;
    PayloadKeysDiffer();
    IntegralRoundTrip(p.expiresAt);
  }

  // A payload, member by member; others are passed over.
  predicate IsPayload(v: Json, p: Payload) {
    && HasMember(v, VERSION, JNum(IntegralNumeral(1))) && HasMember(v, ROUTE, JStr(p.route))
    && HasMember(v, QUERY, p.query) && HasMember(v, LAST_OBJECT_ID, JStr(p.lastObjectId))
    && -MAX_SAFE <= p.expiresAt <= MAX_SAFE && HasMember(v, EXPIRES_AT, JNum(IntegralNumeral(p.expiresAt)))
  }

  lemma ReadPayloadExactly(v: Json, p: Payload)
    ensures ReadPayload(v) == Some(p) <==> IsPayload(v, p)
  {
    hide VERSION, ROUTE, QUERY, LAST_OBJECT_ID, EXPIRES_AT;
    if -MAX_SAFE <= p.expiresAt <= MAX_SAFE {
      IntegralRoundTrip(p.expiresAt);
    }
  }

  // The payload part survives printing, UTF-8 and base64url.
  lemma EncodedPayloadReadsBack(p: Payload)
    requires -MAX_SAFE <= p.expiresAt <= MAX_SAFE
    ensures Parse(Utf8.Decode(Base64Url.Decode(EncodedPayload(p)))) == Some(PayloadJson(p))
    ensures forall u | u in EncodedPayload(p) :: Base64Url.IsLetter(u)
  {
    hide Parse, Print, PayloadJson;
    var text := Print(PayloadJson(p));
    Base64Url.EncodeDecode(Utf8.Encode(text));
    EncodeDecode(text);
    PrintWellFormed(PayloadJson(p));
    SurvivesUtf8(text);
    PrintParse(PayloadJson(p));
  }

  lemma SignatureReadsBack(codec: Codec, encoded: Text)
    ensures Base64Url.Decode(Sign(codec, encoded)) == HMAC_SHA256(codec.secret, encoded)
    ensures forall u | u in Sign(codec, encoded) :: Base64Url.IsLetter(u)
  {
    Base64Url.EncodeDecode(HMAC_SHA256(codec.secret, encoded));
  }

  lemma SameQuery(a: Json, b: Json)
    ensures Print(a) == Print(b) <==> a == b
  {
    PrintInjective(a, b);
  }

  // ----- Round trip -----

  // A cursor is accepted, at any later or earlier time and for whatever route and query it is
  // presented with, exactly when the route is the one it was made for, the query is the same JSON
  // value, and its lifetime is not over. It then gives back the last id it was made with.
  lemma CursorRoundTrip(codec: Codec, made: Clock, now: Clock, route: Text, query: Json, last: Text, route': Text, query': Json)
    requires route != []
    ensures var token := Create(codec, made, route, query, last);
            && token.Ok?
            && ParseCursor(codec, now, token.value, route', query') ==
               if route' == route && query' == query && Alive(codec, made, now) then
                 Ok(Payload(route, query, last, ExpiryFrom(codec, made)))
               else Err(RelayProtocol)
    ensures Create(codec, made, [], query, last) == Err(RelayProtocol)
  {
    hide Parse, Print, PayloadJson, EncodedPayload, Sign, CURSOR_PREFIX, ReadPayload, SplitAt;
    var p := Payload(route, query, last, ExpiryFrom(codec, made));
    var encoded := EncodedPayload(p);
    EncodedPayloadReadsBack(p);
    SignatureReadsBack(codec, encoded);
    TokenParts(encoded, Sign(codec, encoded));
    PayloadReadsBack(p);
    SameQuery(query', query);
    AliveInSeconds(codec, made, now);
  }

  // A token that carries this payload: three parts, the prefix, a payload that reads as it, and the
  // signature of the payload's own text.
  ghost predicate Carries(codec: Codec, value: Text, p: Payload) {
    var parts := SplitAt(value, DOT);
    && |parts| == 3 && parts[0] == CURSOR_PREFIX
    && Base64Url.Decode(parts[2]) == HMAC_SHA256(codec.secret, parts[1])
    && exists v :: Parse(Utf8.Decode(Base64Url.Decode(parts[1]))) == Some(v) && IsPayload(v, p)
  }

  // Whatever token it is, created here or not: it is accepted exactly if it is signed and is for this
  // route and query and a time to come.
  lemma AcceptedIsSigned(codec: Codec, now: Clock, value: Text, route: Text, query: Json, p: Payload)
    ensures ParseCursor(codec, now, value, route, query) == Ok(p) <==>
            Carries(codec, value, p) && p.route == route && p.query == query && now < 1000 * p.expiresAt
    ensures ParseCursor(codec, now, value, route, query).Err? ==>
              ParseCursor(codec, now, value, route, query) == Err(RelayProtocol)
  {
    hide Parse, Print, ReadPayload, Sign, SplitAt, IsPayload, CURSOR_PREFIX;
    var parts := SplitAt(value, DOT);
    if |parts| == 3 {
      SignatureReadsBack(codec, parts[1]);
      var read := Parse(Utf8.Decode(Base64Url.Decode(parts[1])));
      if read.Some? {
        ReadPayloadExactly(read.value, p);
        SameQuery(p.query, query);
      }
    }
  }

  // ----- Limits and pages -----

  predicate IsPositiveDecimal(t: Text) {
    t != [] && 0x31 <= t[0] <= 0x39 && forall u | u in t :: IsDigit(u)
  }

  // parseLimit: a missing or empty limit is the default.
  function ParseLimit(value: Option<Text>, defaultLimit: int, maximum: int): Result<int> {
    if value.None? || value.value == [] then Ok(defaultLimit)
    else if !IsPositiveDecimal(value.value) then Err(RelayProtocol)
    else
      var limit := DecimalValue(value.value);
      if limit > MAX_SAFE || limit > maximum then Err(RelayProtocol) else Ok(limit)
  }

  lemma {:induction false} DecimalAtLeast(t: Text)
    requires forall u | u in t :: IsDigit(u)
    ensures DecimalValue(t) >= 0
    ensures t != [] && t[0] != 0x30 ==> DecimalValue(t) >= 1
  {
    if t != [] {
      var init := t[..|t| - 1];
      assert t[|t| - 1] in t;
      DecimalAtLeast(init);
      if init != [] {
        assert init[0] == t[0];
      }
    }
  }

  lemma DecimalMore(n: nat, digit: CodeUnit)
    requires n >= 1 && IsDigit(digit)
    ensures Decimal(n * 10 + (digit as int - 0x30)) == Decimal(n) + [digit]
  {
  }

  lemma ValueMore(init: Text, last: CodeUnit)
    ensures DecimalValue(init + [last]) == DecimalValue(init) * 10 + (last as int - 0x30)
  {
    assert (init + [last])[..|init|] == init;
  }

  lemma OneDigit(digit: CodeUnit)
    requires IsDigit(digit) && digit != 0x30
    ensures DecimalValue([digit]) == digit as int - 0x30 >= 1 && Decimal(digit as int - 0x30) == [digit]
  {
    assert [digit][..0] == [] && DecimalValue([]) == 0;
  }

  // A positive decimal is the one text of its number.
  lemma {:induction false} DecimalOfValue(t: Text)
    requires IsPositiveDecimal(t)
    ensures DecimalValue(t) >= 1 && Decimal(DecimalValue(t)) == t
  {
    hide Decimal, DecimalValue;
    var init, last := t[..|t| - 1], t[|t| - 1];
    assert last in t && forall u | u in init :: u in t;
    assert t == init + [last];
    if init == [] {
      OneDigit(last);
      assert t == [last];
    } else {
      assert init[0] == t[0];
      DecimalOfValue(init);
      ValueMore(init, last);
      DecimalMore(DecimalValue(init), last);
    }
  }

  // An absent or empty limit is the default; any other is accepted exactly if it is the plain decimal
  // text of a number from 1 to the maximum, which it then gives.
  lemma LimitExactly(t: Text, defaultLimit: int, maximum: int, n: nat)
    ensures ParseLimit(None, defaultLimit, maximum) == Ok(defaultLimit)
    ensures ParseLimit(Some([]), defaultLimit, maximum) == Ok(defaultLimit)
    ensures t != [] ==>
              (ParseLimit(Some(t), defaultLimit, maximum) == Ok(n) <==>
               t == Decimal(n) && 1 <= n <= maximum && n <= MAX_SAFE)
    ensures ParseLimit(Some(t), defaultLimit, maximum).Err? ==>
              ParseLimit(Some(t), defaultLimit, maximum) == Err(RelayProtocol)
  {
    hide DecimalValue, Decimal;
    DecimalRoundTrip(n);
    if IsPositiveDecimal(t) {
      DecimalOfValue(t);
    }
    if t == Decimal(n) && n >= 1 {
      assert t[0] in t;
    }
  }

  // A limit that is accepted is between 1 and the maximum.
  lemma LimitInRange(value: Option<Text>, defaultLimit: int, maximum: int)
    requires 1 <= defaultLimit <= maximum && ParseLimit(value, defaultLimit, maximum).Ok?
    ensures 1 <= ParseLimit(value, defaultLimit, maximum).value <= maximum
  {
    if value.Some? && value.value != [] {
      DecimalAtLeast(value.value);
    }
  }
}
