// UTF-8 (RFC 3629): the form in which text reaches a SQLite column, a blob file and a cursor
// payload. A lone surrogate has no UTF-8 form (section 3 of RFC 3629) and is replaced by U+FFFD.
module Utf8 {
  import opened Text

  const REPLACEMENT: CodeUnit := 0xFFFD

  // String.prototype.isWellFormed: no lone surrogate.
  predicate WellFormed(t: Text) {
    t == [] ||
    var c := CodePointAt(t, 0);
    !IsSurrogate(c) && WellFormed(t[Width(c)..])
  }

  // String.prototype.toWellFormed.
  function ToWellFormed(t: Text): Text {
    if t == [] then
      []
    else
      var c := CodePointAt(t, 0);
      (if IsSurrogate(c) then [REPLACEMENT] else t[..Width(c)]) + ToWellFormed(t[Width(c)..])
  }

  // The octets of one code point, by the table in section 3 of RFC 3629.
  function Octets(c: int): (b: seq<int>)
    requires 0 <= c < 0x11_0000
    ensures 1 <= |b| <= 4
    ensures forall i | 0 <= i < |b| :: 0 <= b[i] < 0x100
  {
    if c < 0x80 then [c]
    else if c < 0x800 then [0xC0 + c / 0x40, 0x80 + c % 0x40]
    else if c < 0x1_0000 then [0xE0 + c / 0x1000, 0x80 + c / 0x40 % 0x40, 0x80 + c % 0x40]
    else [0xF0 + c / 0x4_0000, 0x80 + c / 0x1000 % 0x40, 0x80 + c / 0x40 % 0x40, 0x80 + c % 0x40]
  }

  // Buffer.from(t): the text without lone surrogates, octet by octet.
  function Encode(t: Text): (b: seq<int>)
    ensures forall i | 0 <= i < |b| :: 0 <= b[i] < 0x100
  {
    if t == [] then
      []
    else
      var c := CodePointAt(t, 0);
      Octets(if IsSurrogate(c) then REPLACEMENT else c) + Encode(t[Width(c)..])
  }

  predicate Continues(b: seq<int>, i: nat) {
    i < |b| && 0x80 <= b[i] < 0xC0
  }

  // The code point at the head of an octet sequence and the number of octets it takes; an
  // ill-formed head reads as U+FFFD.
  function Head(b: seq<int>): (r: (int, nat))
    requires b != []
    ensures 0 <= r.0 < 0x11_0000 && 1 <= r.1 <= |b|
  {
    if 0 <= b[0] < 0x80 then
      (b[0], 1)
    else if 0xC2 <= b[0] < 0xE0 && Continues(b, 1) then
      ((b[0] - 0xC0) * 0x40 + (b[1] - 0x80), 2)
    else if 0xE0 <= b[0] < 0xF0 && Continues(b, 1) && Continues(b, 2) then
      var c := (b[0] - 0xE0) * 0x1000 + (b[1] - 0x80) * 0x40 + (b[2] - 0x80);
      if 0x800 <= c && !IsSurrogate(c) then (c, 3) else (REPLACEMENT, 1)
    else if 0xF0 <= b[0] < 0xF5 && Continues(b, 1) && Continues(b, 2) && Continues(b, 3) then
      var c := (b[0] - 0xF0) * 0x4_0000 + (b[1] - 0x80) * 0x1000 + (b[2] - 0x80) * 0x40 + (b[3] - 0x80);
      if 0x1_0000 <= c < 0x11_0000 then (c, 4) else (REPLACEMENT, 1)
    else
      (REPLACEMENT, 1)
  }

  // Buffer.toString("utf8").
  function Decode(b: seq<int>): Text {
    if b == [] then
      []
    else
      var (c, n) := Head(b);
      Units(c) + Decode(b[n..])
  }

  // ----- Writing text and reading it back -----

  // A number from its digits in base 64.
  lemma Digits(c: int)
    requires 0 <= c
    ensures c == c / 0x40 * 0x40 + c % 0x40
    ensures c / 0x40 == c / 0x1000 * 0x40 + c / 0x40 % 0x40
    ensures c / 0x1000 == c / 0x4_0000 * 0x40 + c / 0x1000 % 0x40
  {
  }

  lemma HeadOfThree(c: int, b: seq<int>)
    requires 0x800 <= c < 0x1_0000 && !IsSurrogate(c)
    requires |b| >= 3 && b[0] == 0xE0 + c / 0x1000 && b[1] == 0x80 + c / 0x40 % 0x40 && b[2] == 0x80 + c % 0x40
    ensures Head(b) == (c, 3)
  {
    Digits(c);
  }

  lemma HeadOfFour(c: int, b: seq<int>)
    requires 0x1_0000 <= c < 0x11_0000
    requires |b| >= 4 && b[0] == 0xF0 + c / 0x4_0000 && b[1] == 0x80 + c / 0x1000 % 0x40
    requires b[2] == 0x80 + c / 0x40 % 0x40 && b[3] == 0x80 + c % 0x40
    ensures Head(b) == (c, 4)
  {
    Digits(c);
  }

  lemma HeadOfOctets(c: int, rest: seq<int>)
    requires 0 <= c < 0x11_0000 && !IsSurrogate(c)
    ensures Head(Octets(c) + rest) == (c, |Octets(c)|)
  {
    var b := Octets(c) + rest;
    assert forall i | 0 <= i < |Octets(c)| :: b[i] == Octets(c)[i];
    if 0x1_0000 <= c {
      HeadOfFour(c, b);
    } else if 0x800 <= c {
      HeadOfThree(c, b);
    }
  }

  // What is read back is the text with its lone surrogates replaced.
  lemma {:induction false} EncodeDecode(t: Text)
    ensures Decode(Encode(t)) == ToWellFormed(t)
  {
    if t != [] {
      var c := CodePointAt(t, 0);
      var d := if IsSurrogate(c) then REPLACEMENT else c;
      var rest := Encode(t[Width(c)..]);
      HeadOfOctets(d, rest);
      assert Encode(t) == Octets(d) + rest;
      assert (Octets(d) + rest)[|Octets(d)|..] == rest;
      EncodeDecode(t[Width(c)..]);
      UnitsOfCodePoint(t);
    }
  }

  // Text survives UTF-8 exactly when it holds no lone surrogate.
  lemma {:induction false} SurvivesUtf8(t: Text)
    ensures ToWellFormed(t) == t <==> WellFormed(t)
    ensures |ToWellFormed(t)| == |t|
    ensures forall i | 0 <= i < |t| :: ToWellFormed(t)[i] == t[i] || ToWellFormed(t)[i] == REPLACEMENT
  {
    if t != [] {
      var w := Width(CodePointAt(t, 0));
      SurvivesUtf8(t[w..]);
      assert t == t[..w] + t[w..];
      assert IsSurrogate(CodePointAt(t, 0)) ==> ToWellFormed(t)[0] == REPLACEMENT;
      assert ToWellFormed(t)[w..] == ToWellFormed(t[w..]);
    }
  }

  lemma {:induction false} ToWellFormedIdempotent(t: Text)
    ensures WellFormed(ToWellFormed(t))
    ensures ToWellFormed(ToWellFormed(t)) == ToWellFormed(t)
  {
    if t != [] {
      var c := CodePointAt(t, 0);
      var head := if IsSurrogate(c) then [REPLACEMENT] else t[..Width(c)];
      var rest := ToWellFormed(t[Width(c)..]);
      ToWellFormedIdempotent(t[Width(c)..]);
      WellFormedHead(head, rest);
    }
    SurvivesUtf8(ToWellFormed(t));
  }

  // The units of one character: a unit that is no surrogate, or a surrogate pair.
  predicate IsCharacter(head: Text) {
    (|head| == 1 && !IsSurrogate(head[0])) || (|head| == 2 && IsHigh(head[0]) && IsLow(head[1]))
  }

  lemma WellFormedSplit(t: Text) returns (head: Text, rest: Text)
    requires WellFormed(t) && t != []
    ensures t == head + rest && IsCharacter(head) && WellFormed(rest)
  {
    var w := Width(CodePointAt(t, 0));
    head, rest := t[..w], t[w..];
  }

  // A well-formed head does not join up with what follows it.
  lemma WellFormedHead(head: Text, rest: Text)
    requires IsCharacter(head) && WellFormed(rest)
    ensures WellFormed(head + rest)
    ensures CodePoints(head + rest) == CodePoints(head) + CodePoints(rest)
  {
    assert (head + rest)[|head|..] == rest;
    assert head[|head|..] == [];
    assert CodePoints(head) == [CodePointAt(head, 0)];
  }

  lemma {:induction false} WellFormedConcat(a: Text, b: Text)
    requires WellFormed(a) && WellFormed(b)
    ensures WellFormed(a + b)
    decreases |a|
  {
    if a == [] {
      assert a + b == b;
    } else {
      var head, rest := WellFormedSplit(a);
      WellFormedConcat(rest, b);
      WellFormedHead(head, rest + b);
      Regroup(head, rest, b);
    }
  }

  lemma Regroup(a: Text, b: Text, c: Text)
    ensures a + b + c == a + (b + c)
  {
  }

  lemma {:induction false} NoSurrogatesWellFormed(t: Text)
    requires forall u | u in t :: !IsSurrogate(u)
    ensures WellFormed(t)
  {
    if t != [] {
      assert t[0] in t;
      NoSurrogatesWellFormed(t[1..]);
    }
  }

  // ----- Reading octets -----

  // An ill-formed head reads as U+FFFD; a well-formed one is the octets of what it reads as, so no
  // overlong form, no surrogate and nothing above U+10FFFF is read.
  lemma HeadExactly(b: seq<int>)
    requires b != []
    ensures Head(b).0 == REPLACEMENT || (!IsSurrogate(Head(b).0) && Octets(Head(b).0) == b[..Head(b).1])
    ensures !IsSurrogate(Head(b).0)
  {
    var (c, n) := Head(b);
    if c != REPLACEMENT {
      if n == 2 {
        LastDigit(b[0] - 0xC0, b[1] - 0x80);
      } else if n == 3 {
        ThreeDigits(b[0] - 0xE0, b[1] - 0x80, b[2] - 0x80);
        assert b[..3] == [b[0], b[1], b[2]];
      } else if n == 4 {
        FourDigits(b[0] - 0xF0, b[1] - 0x80, b[2] - 0x80, b[3] - 0x80);
        assert b[..4] == [b[0], b[1], b[2], b[3]];
      }
    }
  }

  lemma LastDigit(high: int, low: int)
    requires 0 <= low < 0x40
    ensures (high * 0x40 + low) / 0x40 == high && (high * 0x40 + low) % 0x40 == low
  {
  }

  lemma ThreeDigits(x: int, y: int, z: int)
    requires 0 <= x && 0 <= y < 0x40 && 0 <= z < 0x40
    ensures var c := x * 0x1000 + y * 0x40 + z; c / 0x1000 == x && c / 0x40 % 0x40 == y && c % 0x40 == z
  {
    var c := x * 0x1000 + y * 0x40 + z;
    LastDigit(x * 0x40 + y, z);
    LastDigit(x, y);
    Digits(c);
  }

  lemma FourDigits(w: int, x: int, y: int, z: int)
    requires 0 <= w && 0 <= x < 0x40 && 0 <= y < 0x40 && 0 <= z < 0x40
    ensures var c := w * 0x4_0000 + x * 0x1000 + y * 0x40 + z;
            c / 0x4_0000 == w && c / 0x1000 % 0x40 == x && c / 0x40 % 0x40 == y && c % 0x40 == z
  {
    var c := w * 0x4_0000 + x * 0x1000 + y * 0x40 + z;
    ThreeDigits(w * 0x40 + x, y, z);
    LastDigit(w, x);
    Digits(c);
  }

  lemma UnitsAreCharacter(c: int)
    requires 0 <= c < 0x11_0000 && !IsSurrogate(c)
    ensures IsCharacter(Units(c)) && CodePointAt(Units(c), 0) == c && |Units(c)| == Width(c)
  {
  }

  lemma EncodeHead(c: int, rest: Text)
    requires 0 <= c < 0x11_0000 && !IsSurrogate(c) && WellFormed(rest)
    ensures WellFormed(Units(c) + rest) && Encode(Units(c) + rest) == Octets(c) + Encode(rest)
  {
    UnitsAreCharacter(c);
    WellFormedHead(Units(c), rest);
    var t := Units(c) + rest;
    assert CodePointAt(t, 0) == c;
    assert t[Width(c)..] == rest;
  }

  // What is read is well-formed, and where it holds no U+FFFD the octets are its own UTF-8 form and
  // no other.
  lemma {:induction false} DecodeEncode(b: seq<int>)
    ensures WellFormed(Decode(b))
    ensures REPLACEMENT !in Decode(b) ==> Encode(Decode(b)) == b
  {
    if b != [] {
      var (c, n) := Head(b);
      HeadExactly(b);
      DecodeEncode(b[n..]);
      EncodeHead(c, Decode(b[n..]));
      hide Head, Octets, Encode, Units;
      assert b == b[..n] + b[n..];
      if c == REPLACEMENT {
        assert Units(c) == [c] by { ReplacementUnits(); }
        assert Decode(b)[0] == REPLACEMENT;
      }
    }
  }

  lemma ReplacementUnits()
    ensures Units(REPLACEMENT) == [REPLACEMENT]
  {
  }

  // ----- The octet order is the code point order (section 1 of RFC 3629) -----

  lemma {:induction false} OrderAt(a: seq<int>, b: seq<int>, k: nat)
    requires k < |a| && k < |b| && a[..k] == b[..k] && a[k] < b[k]
    ensures Order(a, b) == -1
    decreases k
  {
    if k > 0 {
      assert a[0] == a[..k][0] == b[..k][0] == b[0];
      assert a[1..][..k - 1] == a[..k][1..] == b[..k][1..] == b[1..][..k - 1];
      OrderAt(a[1..], b[1..], k - 1);
    }
  }

  lemma {:induction false} OrderSamePrefix(p: seq<int>, a: seq<int>, b: seq<int>)
    ensures Order(p + a, p + b) == Order(a, b)
  {
    if p == [] {
      assert p + a == a && p + b == b;
    } else {
      assert (p + a)[1..] == p[1..] + a && (p + b)[1..] == p[1..] + b;
      OrderSamePrefix(p[1..], a, b);
    }
  }

  lemma ThreeOctetsDiffer(c: int, d: int) returns (k: nat)
    requires 0x800 <= c < d < 0x1_0000
    ensures k < 3 && Octets(c)[..k] == Octets(d)[..k] && Octets(c)[k] < Octets(d)[k]
  {
    Digits(c);
    Digits(d);
    k := if c / 0x1000 < d / 0x1000 then 0 else if c / 0x40 < d / 0x40 then 1 else 2;
  }

  lemma FourOctetsDiffer(c: int, d: int) returns (k: nat)
    requires 0x1_0000 <= c < d < 0x11_0000
    ensures k < 4 && Octets(c)[..k] == Octets(d)[..k] && Octets(c)[k] < Octets(d)[k]
  {
    Digits(c);
    Digits(d);
    k := if c / 0x4_0000 < d / 0x4_0000 then 0
         else if c / 0x1000 < d / 0x1000 then 1
         else if c / 0x40 < d / 0x40 then 2
         else 3;
  }

  // The octets of two code points in order differ first in an octet in order.
  lemma OctetsDiffer(c: int, d: int) returns (k: nat)
    requires 0 <= c < d < 0x11_0000
    ensures k < |Octets(c)| && k < |Octets(d)|
    ensures Octets(c)[..k] == Octets(d)[..k] && Octets(c)[k] < Octets(d)[k]
  {
    if |Octets(c)| != |Octets(d)| || d < 0x80 {
      return 0;
    } else if d < 0x800 {
      return if c / 0x40 < d / 0x40 then 0 else 1;
    } else if d < 0x1_0000 {
      k := ThreeOctetsDiffer(c, d);
    } else {
      k := FourOctetsDiffer(c, d);
    }
  }

  lemma OctetsOrder(c: int, d: int, restC: seq<int>, restD: seq<int>)
    requires 0 <= c < d < 0x11_0000
    ensures Order(Octets(c) + restC, Octets(d) + restD) == -1
  {
    var k := OctetsDiffer(c, d);
    assert (Octets(c) + restC)[..k] == Octets(c)[..k];
    assert (Octets(d) + restD)[..k] == Octets(d)[..k];
    OrderAt(Octets(c) + restC, Octets(d) + restD, k);
  }

  // On well-formed text compareText agrees with the octet order, which is the order COLLATE
  // BINARY compares by.
  lemma {:induction false} Utf8Order(a: Text, b: Text)
    requires WellFormed(a) && WellFormed(b)
    ensures Order(Encode(a), Encode(b)) == TextOrder(a, b)
    decreases |a|
  {
    if a != [] && b != [] {
      var c, d := CodePointAt(a, 0), CodePointAt(b, 0);
      var restA, restB := a[Width(c)..], b[Width(d)..];
      if c == d {
        OrderSamePrefix(Octets(c), Encode(restA), Encode(restB));
        OrderSamePrefix([c], CodePoints(restA), CodePoints(restB));
        Utf8Order(restA, restB);
      } else if c < d {
        OctetsOrder(c, d, Encode(restA), Encode(restB));
      } else {
        OctetsOrder(d, c, Encode(restB), Encode(restA));
        OrderSwap(Encode(a), Encode(b));
      }
    }
  }
}
