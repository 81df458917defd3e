// JSON numbers. A number is represented by the numeral that JSON.stringify prints for it. Which
// double a lexeme denotes, and how a double is printed, is not part of this model:
// READ_NUMBER stands for reading a lexeme and printing the result.
module Numeral {
  import opened Wrappers
  import opened Text

  // Number.MAX_SAFE_INTEGER
  const MAX_SAFE: int := 0x1F_FFFF_FFFF_FFFF

  predicate IsDigit(u: int) {
    0x30 <= u <= 0x39
  }

  // The units a JSON number is made of: digits, sign, point and exponent mark.
  predicate IsNumberUnit(u: int) {
    IsDigit(u) || u == 0x2D || u == 0x2B || u == 0x2E || u == 0x65 || u == 0x45
  }

  function SkipDigits(t: Text): (rest: Text)
    ensures |rest| <= |t|
  {
    if t != [] && IsDigit(t[0]) then SkipDigits(t[1..]) else t
  }

  // The number grammar in section 6 of RFC 8259.
  predicate IsNumeral(t: Text) {
    if t != [] && t[0] == 0x2D then IsUnsigned(t[1..]) else IsUnsigned(t)
  }

  predicate IsUnsigned(t: Text) {
    t != [] && IsDigit(t[0]) && IsFraction(if t[0] == 0x30 then t[1..] else SkipDigits(t))
  }

  predicate IsFraction(t: Text) {
    if t != [] && t[0] == 0x2E then |t| > 1 && IsDigit(t[1]) && IsExponent(SkipDigits(t[1..])) else IsExponent(t)
  }

  predicate IsExponent(t: Text) {
    t == [] ||
    ((t[0] == 0x65 || t[0] == 0x45) &&
     var digits := if |t| > 1 && (t[1] == 0x2B || t[1] == 0x2D) then t[2..] else t[1..];
     digits != [] && SkipDigits(digits) == [])
  }

  lemma {:induction false} DigitsSkipped(t: Text)
    requires forall u | u in SkipDigits(t) :: IsNumberUnit(u)
    ensures forall u | u in t :: IsNumberUnit(u)
  {
    if t != [] && IsDigit(t[0]) {
      DigitsSkipped(t[1..]);
      assert t == [t[0]] + t[1..];
    }
  }

  lemma ExponentUnits(t: Text)
    requires IsExponent(t)
    ensures forall u | u in t :: IsNumberUnit(u)
  {
    if t != [] {
      var signed := |t| > 1 && (t[1] == 0x2B || t[1] == 0x2D);
      var digits := if signed then t[2..] else t[1..];
      DigitsSkipped(digits);
      assert t == (if signed then [t[0], t[1]] else [t[0]]) + digits;
    }
  }

  lemma FractionUnits(t: Text)
    requires IsFraction(t)
    ensures forall u | u in t :: IsNumberUnit(u)
  {
    if t != [] && t[0] == 0x2E {
      ExponentUnits(SkipDigits(t[1..]));
      DigitsSkipped(t[1..]);
      assert t == [t[0]] + t[1..];
    } else {
      ExponentUnits(t);
    }
  }

  lemma NumeralUnits(t: Text)
    requires IsNumeral(t)
    ensures t != [] && (t[0] == 0x2D || IsDigit(t[0]))
    ensures forall u | u in t :: IsNumberUnit(u)
  {
    var unsigned := if t[0] == 0x2D then t[1..] else t;
    if unsigned[0] == 0x30 {
      FractionUnits(unsigned[1..]);
      assert unsigned == [unsigned[0]] + unsigned[1..];
    } else {
      FractionUnits(SkipDigits(unsigned));
      DigitsSkipped(unsigned);
    }
    assert t == (if t[0] == 0x2D then [t[0]] else []) + unsigned;
  }

  // ----- Integers -----

  function Digit(d: int): CodeUnit
    requires 0 <= d < 10
  {
    0x30 + d
  }

  function Decimal(n: nat): (t: Text)
    ensures t != []
    ensures forall u | u in t :: IsDigit(u)
  {
    if n < 10 then [Digit(n)] else Decimal(n / 10) + [Digit(n % 10)]
  }

  function Integral(n: int): Text {
    if n < 0 then [0x2D] + Decimal(-n) else Decimal(n)
  }

  function DecimalValue(t: Text): int {
    if t == [] then 0 else DecimalValue(t[..|t| - 1]) * 10 + (t[|t| - 1] as int - 0x30)
  }

  // Number.isSafeInteger on the number a numeral stands for.
  function SafeInteger(t: Text): Option<int> {
    if t == [] then
      None
    else
      var n := if t[0] == 0x2D then -DecimalValue(t[1..]) else DecimalValue(t);
      if -MAX_SAFE <= n <= MAX_SAFE && Integral(n) == t then Some(n) else None
  }

  lemma {:induction false} DecimalRoundTrip(n: nat)
    ensures DecimalValue(Decimal(n)) == n
    ensures Decimal(n)[0] == 0x30 ==> n == 0
  {
    if n < 10 {
      assert [Digit(n)][..0] == [];
      assert DecimalValue([]) == 0;
    } else {
      DecimalRoundTrip(n / 10);
      var t := Decimal(n);
      assert t[..|t| - 1] == Decimal(n / 10);
      assert t[0] == Decimal(n / 10)[0];
    }
  }

  lemma IntegralRoundTrip(n: int)
    requires -MAX_SAFE <= n <= MAX_SAFE
    ensures SafeInteger(Integral(n)) == Some(n)
  {
    DecimalRoundTrip(if n < 0 then -n else n);
    if n < 0 {
      assert Integral(n)[1..] == Decimal(-n);
    } else {
      assert Decimal(n)[0] in Decimal(n);
    }
  }

  lemma {:induction false} AllDigitsSkipped(t: Text)
    requires forall u | u in t :: IsDigit(u)
    ensures SkipDigits(t) == []
  {
    if t != [] {
      assert t[0] in t;
      AllDigitsSkipped(t[1..]);
    }
  }

  lemma IntegralIsNumeral(n: int)
    ensures IsNumeral(Integral(n))
  {
    var m := if n < 0 then -n else n;
    var t := Decimal(m);
    assert t[0] in t;
    DecimalRoundTrip(m);
    AllDigitsSkipped(t);
    if n < 0 {
      assert Integral(n)[1..] == t;
    }
    if m < 10 {
      assert t[1..] == [];
    }
  }

  // ----- The number a lexeme denotes -----

  // A lexeme may overflow to Infinity, which is not a JSON number. Otherwise the printed
  // numeral is itself a lexeme that reads as the same number, and the safe integers print in
  // plain decimal.
  ghost predicate Stable(read: Text -> Option<Text>) {
    && (forall t | IsNumeral(t) && read(t).Some? ::
          IsNumeral(read(t).value) && read(read(t).value) == read(t))
    && (forall n: int {:trigger Integral(n)} | -MAX_SAFE <= n <= MAX_SAFE :: read(Integral(n)) == Some(Integral(n)))
  }

  type NumberReader = read: Text -> Option<Text> | Stable(read) witness ((t: Text) => Some(t))

  const READ_NUMBER: NumberReader

  type Numeral = t: Text | IsNumeral(t) && READ_NUMBER(t) == Some(t) witness ZeroNumeral()

  function ZeroNumeral(): (t: Text)
    ensures IsNumeral(t) && READ_NUMBER(t) == Some(t)
  {
    IntegralIsNumeral(0);
    Integral(0)
  }

  function IntegralNumeral(n: int): Numeral
    requires -MAX_SAFE <= n <= MAX_SAFE
  {
    IntegralIsNumeral(n);
    Integral(n)
  }
}
