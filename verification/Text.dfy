// Strings as JavaScript has them: sequences of UTF-16 code units, lone surrogates included.
// compareText (src/store-utils.js) orders them by code point.
module Text {

  type CodeUnit = n: int | 0 <= n < 0x1_0000
  type Text = seq<CodeUnit>

  const DOT: CodeUnit := 0x2E

  function Ascii(s: string): (t: Text)
    requires forall c | c in s :: c as int < 128
    ensures |t| == |s|
    ensures forall i | 0 <= i < |s| :: t[i] == s[i] as int
  {
    seq(|s|, i requires 0 <= i < |s| && s[i] in s => AsciiUnit(s[i]))
  }

  function AsciiUnit(c: char): CodeUnit
    requires c as int < 128
  {
    c as int
  }

  predicate IsHigh(u: int) {
    0xD800 <= u <= 0xDBFF
  }

  predicate IsLow(u: int) {
    0xDC00 <= u <= 0xDFFF
  }

  predicate IsSurrogate(u: int) {
    0xD800 <= u <= 0xDFFF
  }

  // String.prototype.codePointAt: a surrogate pair counts as one code point, a lone
  // surrogate as itself.
  function CodePointAt(t: Text, i: nat): (c: int)
    requires i < |t|
    ensures 0 <= c < 0x11_0000
    ensures c > 0xFFFF ==> i + 1 < |t|
  {
    var unit: int := t[i];
    if IsHigh(unit) && i + 1 < |t| && IsLow(t[i + 1]) then
      var next: int := t[i + 1];
      0x1_0000 + (unit - 0xD800) * 0x400 + (next - 0xDC00)
    else
      unit
  }

  function Width(c: int): nat {
    if c > 0xFFFF then 2 else 1
  }

  function CodePoints(t: Text): seq<int> {
    if t == [] then
      []
    else
      var c := CodePointAt(t, 0);
      [c] + CodePoints(t[Width(c)..])
  }

  // Lexicographic three-way comparison.
  function Order(a: seq<int>, b: seq<int>): int {
    if a == [] && b == [] then 0
    else if a == [] then -1
    else if b == [] then 1
    else if a[0] != b[0] then (if a[0] < b[0] then -1 else 1)
    else Order(a[1..], b[1..])
  }

  function TextOrder(left: Text, right: Text): int {
    Order(CodePoints(left), CodePoints(right))
  }

  predicate Before(left: Text, right: Text) {
    TextOrder(left, right) < 0
  }

  lemma CodePointsFrom(t: Text, i: nat)
    requires i < |t|
    ensures CodePointAt(t, i) == CodePointAt(t[i..], 0)
    ensures CodePoints(t[i..]) == [CodePointAt(t, i)] + CodePoints(t[i + Width(CodePointAt(t, i))..])
  {
    var c := CodePointAt(t, i);
    assert t[i..][Width(c)..] == t[i + Width(c)..];
  }

  // The loop of compareText, with its two cursors.
  method CompareText(left: Text, right: Text) returns (order: int)
    ensures order == TextOrder(left, right)
  {
    var leftIndex, rightIndex := 0, 0;
    assert left[0..] == left && right[0..] == right;
    while leftIndex < |left| && rightIndex < |right|
      invariant 0 <= leftIndex <= |left| && 0 <= rightIndex <= |right|
      invariant TextOrder(left, right) == Order(CodePoints(left[leftIndex..]), CodePoints(right[rightIndex..]))
      decreases |left| - leftIndex
    {
      CodePointsFrom(left, leftIndex);
      CodePointsFrom(right, rightIndex);
      var leftCodePoint := CodePointAt(left, leftIndex);
      var rightCodePoint := CodePointAt(right, rightIndex);
      if leftCodePoint != rightCodePoint {
        return if leftCodePoint < rightCodePoint then -1 else 1;
      }
      leftIndex := leftIndex + if leftCodePoint > 0xFFFF then 2 else 1;
      rightIndex := rightIndex + if rightCodePoint > 0xFFFF then 2 else 1;
    }
    order := if leftIndex == |left| && rightIndex == |right| then 0 else if leftIndex == |left| then -1 else 1;
    if leftIndex < |left| {
      CodePointsFrom(left, leftIndex);
    }
    if rightIndex < |right| {
      CodePointsFrom(right, rightIndex);
    }
  }

  // ----- compareText is a strict total order -----

  // The UTF-16 form of one code point.
  function Units(c: int): Text
    requires 0 <= c < 0x11_0000
  {
    if c > 0xFFFF then [0xD800 + (c - 0x1_0000) / 0x400, 0xDC00 + (c - 0x1_0000) % 0x400] else [c]
  }

  lemma UnitsOfCodePoint(t: Text)
    requires t != []
    ensures Units(CodePointAt(t, 0)) == t[..Width(CodePointAt(t, 0))]
  {
  }

  // A text is determined by its code points, lone surrogates included.
  lemma {:induction false} CodePointsInjective(a: Text, b: Text)
    requires CodePoints(a) == CodePoints(b)
    ensures a == b
    decreases |a|
  {
    if a != [] && b != [] {
      var c := CodePointAt(a, 0);
      assert c == CodePoints(a)[0] == CodePoints(b)[0] == CodePointAt(b, 0);
      assert CodePoints(a[Width(c)..]) == CodePoints(a)[1..] == CodePoints(b)[1..] == CodePoints(b[Width(c)..]);
      CodePointsInjective(a[Width(c)..], b[Width(c)..]);
      UnitsOfCodePoint(a);
      UnitsOfCodePoint(b);
      assert a == a[..Width(c)] + a[Width(c)..];
      assert b == b[..Width(c)] + b[Width(c)..];
    }
  }

  lemma {:induction false} OrderZero(a: seq<int>, b: seq<int>)
    ensures Order(a, b) == 0 <==> a == b
    decreases |a|
  {
    if a != [] && b != [] && a[0] == b[0] {
      OrderZero(a[1..], b[1..]);
      assert a == [a[0]] + a[1..] && b == [b[0]] + b[1..];
    }
  }

  lemma {:induction false} OrderSwap(a: seq<int>, b: seq<int>)
    ensures Order(a, b) == -Order(b, a)
    decreases |a|
  {
    if a != [] && b != [] && a[0] == b[0] {
      OrderSwap(a[1..], b[1..]);
    }
  }

  lemma {:induction false} OrderTransitive(a: seq<int>, b: seq<int>, c: seq<int>)
    requires Order(a, b) <= 0 && Order(b, c) <= 0
    ensures Order(a, c) <= 0
    ensures Order(a, b) < 0 || Order(b, c) < 0 ==> Order(a, c) < 0
    decreases |a|
  {
    if a != [] && b != [] && c != [] && a[0] == b[0] == c[0] {
      OrderTransitive(a[1..], b[1..], c[1..]);
    }
  }

  // compareText returns zero exactly for identical texts, changes sign when its arguments
  // are swapped, and its negative part is transitive.
  lemma TextOrderTotal(a: Text, b: Text)
    ensures TextOrder(a, b) == 0 <==> a == b
    ensures TextOrder(a, b) == -TextOrder(b, a)
    ensures -1 <= TextOrder(a, b) <= 1
  {
    OrderZero(CodePoints(a), CodePoints(b));
    OrderSwap(CodePoints(a), CodePoints(b));
    OrderRange(CodePoints(a), CodePoints(b));
    if TextOrder(a, b) == 0 {
      CodePointsInjective(a, b);
    }
  }

  lemma OrderRange(a: seq<int>, b: seq<int>)
    ensures -1 <= Order(a, b) <= 1
  {
  }

  lemma TextOrderTransitive(a: Text, b: Text, c: Text)
    requires Before(a, b) && Before(b, c)
    ensures Before(a, c)
  {
    OrderTransitive(CodePoints(a), CodePoints(b), CodePoints(c));
  }

  // ----- How the order differs from the order of UTF-16 code units -----

  lemma {:induction false} NoSurrogatesCodePoints(t: Text)
    requires forall u | u in t :: !IsSurrogate(u)
    ensures CodePoints(t) == t
  {
    if t != [] {
      assert t[0] in t;
      NoSurrogatesCodePoints(t[1..]);
    }
  }

  // Array.prototype.sort and section 3.2.3 of RFC 8785 compare code units. The two orders
  // agree on texts without surrogates ...
  lemma UnitOrderWithoutSurrogates(a: Text, b: Text)
    requires forall u | u in a + b :: !IsSurrogate(u)
    ensures TextOrder(a, b) == Order(a, b)
  {
    assert forall u | u in a :: u in a + b;
    assert forall u | u in b :: u in a + b;
    NoSurrogatesCodePoints(a);
    NoSurrogatesCodePoints(b);
  }

  // ... and disagree as soon as a character outside the basic plane meets one above the
  // surrogate block: U+10000 sorts after U+E000 here, but its first code unit sorts before.
  lemma UnitOrderDiffers()
    ensures TextOrder([0xE000], [0xD800, 0xDC00]) == -1
    ensures Order([0xE000], [0xD800, 0xDC00]) == 1
  {
    assert CodePointAt([0xD800, 0xDC00], 0) == 0x1_0000;
  }
}
