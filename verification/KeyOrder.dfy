// compareText against the order of UTF-16 code units, by which Array.prototype.sort and section
// 3.2.3 of RFC 8785 order object keys: exactly where the two part, for every pair of texts.
module KeyOrder {
  import opened Text
  import opened Utf8
  import opened Sorting
  import opened Json
  import opened JsonParser

  // The first code unit of a code point beyond the basic plane, and its second.
  function Lead(c: int): int
    requires 0x1_0000 <= c < 0x11_0000
  {
    0xD800 + (c - 0x1_0000) / 0x400
  }

  predicate AreCodePoints(p: seq<int>) {
    forall i | 0 <= i < |p| :: 0 <= p[i] < 0x11_0000
  }

  // At position i a code point beyond the basic plane, which sorts last by code point, meets one
  // of the basic plane whose code unit sorts after its lead surrogate; or meets just that lead
  // surrogate, alone, with a unit after it that sorts beyond all surrogates.
  predicate Overtaken(p: seq<int>, q: seq<int>, i: nat)
    requires AreCodePoints(p) && i < |p| && i < |q|
  {
    p[i] > 0xFFFF >= q[i] &&
    (q[i] > Lead(p[i]) || (q[i] == Lead(p[i]) && i + 1 < |q| && 0xE000 <= q[i + 1] <= 0xFFFF))
  }

  // The first code points in which two texts differ are such a pair.
  predicate CrossesAt(p: seq<int>, q: seq<int>, i: nat)
    requires AreCodePoints(p) && AreCodePoints(q)
  {
    i < |p| && i < |q| && p[..i] == q[..i] && (Overtaken(p, q, i) || Overtaken(q, p, i))
  }

  ghost predicate Cross(a: Text, b: Text) {
    CodePointsInRange(a);
    CodePointsInRange(b);
    exists i: nat :: CrossesAt(CodePoints(a), CodePoints(b), i)
  }

  lemma {:induction false} CodePointsInRange(t: Text)
    ensures AreCodePoints(CodePoints(t))
  {
    if t != [] {
      CodePointsInRange(t[Width(CodePointAt(t, 0))..]);
    }
  }

  // ----- Texts that begin alike -----

  lemma CrossLater(c: int, p: seq<int>, q: seq<int>, i: nat)
    requires 0 <= c < 0x11_0000 && AreCodePoints(p) && AreCodePoints(q)
    ensures AreCodePoints([c] + p) && AreCodePoints([c] + q)
    ensures CrossesAt([c] + p, [c] + q, i + 1) <==> CrossesAt(p, q, i)
    ensures !CrossesAt([c] + p, [c] + q, 0)
  {
    var p', q' := [c] + p, [c] + q;
    if i < |p| && i < |q| {
      assert p'[..i + 1] == [c] + p[..i] && q'[..i + 1] == [c] + q[..i];
      if p'[..i + 1] == q'[..i + 1] {
        assert p[..i] == p'[..i + 1][1..] == q'[..i + 1][1..] == q[..i];
      }
    }
  }

  lemma SameStart(c: int, restA: Text, restB: Text, a: Text, b: Text)
    requires 0 <= c < 0x11_0000
    requires CodePoints(a) == [c] + CodePoints(restA) && CodePoints(b) == [c] + CodePoints(restB)
    requires a == Units(c) + restA && b == Units(c) + restB
    ensures Cross(a, b) <==> Cross(restA, restB)
    ensures TextOrder(a, b) == TextOrder(restA, restB) && Order(a, b) == Order(restA, restB)
  {
    hide CrossesAt, AreCodePoints, CodePoints, Order;
    OrderSamePrefix(Units(c), restA, restB);
    OrderSamePrefix([c], CodePoints(restA), CodePoints(restB));
    CodePointsInRange(restA);
    CodePointsInRange(restB);
    CodePointsInRange(a);
    CodePointsInRange(b);
    var p, q := CodePoints(restA), CodePoints(restB);
    if Cross(a, b) {
      var i: nat :| CrossesAt([c] + p, [c] + q, i);
      if i == 0 {
        CrossLater(c, p, q, 0);
      } else {
        CrossLater(c, p, q, i - 1);
      }
    }
    if Cross(restA, restB) {
      var i: nat :| CrossesAt(p, q, i);
      CrossLater(c, p, q, i);
      assert CrossesAt(CodePoints(a), CodePoints(b), i + 1);
    }
  }

  // ----- Texts that begin differently -----

  lemma FirstCrosses(p: seq<int>, q: seq<int>)
    requires AreCodePoints(p) && AreCodePoints(q) && p != [] && q != [] && p[0] != q[0]
    ensures (exists i: nat :: CrossesAt(p, q, i)) <==> Overtaken(p, q, 0) || Overtaken(q, p, 0)
  {
    forall i: nat | 0 < i < |p| && i < |q| ensures p[..i] != q[..i] {
      assert p[..i][0] == p[0] && q[..i][0] == q[0];
    }
    if Overtaken(p, q, 0) || Overtaken(q, p, 0) {
      assert CrossesAt(p, q, 0);
    }
  }

  lemma FirstUnits(t: Text)
    requires t != []
    ensures CodePoints(t) != [] && CodePoints(t)[0] == CodePointAt(t, 0)
    ensures CodePointAt(t, 0) > 0xFFFF ==> |t| > 1 && t[0] == Lead(CodePointAt(t, 0)) && IsLow(t[1])
    ensures CodePointAt(t, 0) <= 0xFFFF ==> t[0] == CodePointAt(t, 0) && CodePoints(t)[1..] == CodePoints(t[1..])
    ensures CodePointAt(t, 0) <= 0xFFFF && IsHigh(t[0]) && |t| > 1 ==> !IsLow(t[1])
  {
  }

  // A code point beyond the basic plane against one within it.
  lemma MixedStart(a: Text, b: Text)
    requires a != [] && b != [] && CodePointAt(a, 0) > 0xFFFF >= CodePointAt(b, 0)
    ensures AreCodePoints(CodePoints(a)) && CodePoints(a) != [] && CodePoints(b) != []
    ensures TextOrder(a, b) == 1
    ensures Order(a, b) == if Overtaken(CodePoints(a), CodePoints(b), 0) then -1 else 1
  {
    CodePointsInRange(a);
    FirstUnits(a);
    FirstUnits(b);
    var p, q := CodePoints(a), CodePoints(b);
    if a[0] == b[0] {
      LeadAlone(a, b);
    }
  }

  // The lead surrogate of a pair against the same surrogate alone.
  lemma LeadAlone(a: Text, b: Text)
    requires |a| > 1 && b != [] && IsHigh(a[0]) && IsLow(a[1]) && a[0] == b[0]
    requires CodePointAt(b, 0) <= 0xFFFF && CodePoints(b) != [] && CodePoints(b)[1..] == CodePoints(b[1..])
    requires |b| > 1 ==> !IsLow(b[1])
    ensures Order(a, b) ==
            if |CodePoints(b)| > 1 && 0xE000 <= CodePoints(b)[1] <= 0xFFFF then -1 else 1
  {
    var restA, restB := a[1..], b[1..];
    assert Order(a, b) == Order(restA, restB);
    assert restA != [] && IsLow(restA[0]);
    if restB != [] {
      FirstUnits(restB);
      assert CodePoints(b)[1] == CodePoints(b)[1..][0] == CodePointAt(restB, 0);
    } else {
      assert CodePoints(restB) == [];
    }
  }

  // Two code points beyond the basic plane: their two units order them.
  lemma PairsStart(a: Text, b: Text)
    requires a != [] && b != [] && 0xFFFF < CodePointAt(a, 0) < CodePointAt(b, 0)
    ensures Order(a, b) == -1
  {
    assert a[1..][0] == a[1] && b[1..][0] == b[1];
    if a[0] == b[0] {
      assert Order(a, b) == Order(a[1..], b[1..]);
    }
  }

  lemma DifferentStart(a: Text, b: Text)
    requires a != [] && b != [] && CodePointAt(a, 0) < CodePointAt(b, 0)
    ensures TextOrder(a, b) == Order(a, b) <==> !Cross(a, b)
  {
    CodePointsInRange(a);
    CodePointsInRange(b);
    FirstUnits(a);
    FirstUnits(b);
    FirstCrosses(CodePoints(a), CodePoints(b));
    var c, d := CodePointAt(a, 0), CodePointAt(b, 0);
    if d <= 0xFFFF {
    } else if c > 0xFFFF {
      PairsStart(a, b);
    } else {
      MixedStart(b, a);
      OrderSwap(a, b);
      TextOrderTotal(a, b);
    }
  }

  lemma CrossSwap(a: Text, b: Text)
    ensures Cross(a, b) <==> Cross(b, a)
  {
    hide CodePoints, Overtaken, AreCodePoints;
    CodePointsInRange(a);
    CodePointsInRange(b);
    if i: nat :| CrossesAt(CodePoints(a), CodePoints(b), i) {
      assert CrossesAt(CodePoints(b), CodePoints(a), i);
    }
    if i: nat :| CrossesAt(CodePoints(b), CodePoints(a), i) {
      assert CrossesAt(CodePoints(a), CodePoints(b), i);
    }
  }

  // For all texts, lone surrogates included: the two orders agree exactly when the texts do not
  // cross.
  lemma {:induction false} UnitOrderExactly(a: Text, b: Text)
    ensures TextOrder(a, b) == Order(a, b) <==> !Cross(a, b)
    decreases |a|
  {
    hide Cross, Order, TextOrder, CodePoints;
    if a == [] || b == [] {
      NothingCrosses(a, b);
    } else {
      var c, d := CodePointAt(a, 0), CodePointAt(b, 0);
      if c == d {
        var restA, restB := a[Width(c)..], b[Width(d)..];
        StartOf(a);
        StartOf(b);
        SameStart(c, restA, restB, a, b);
        UnitOrderExactly(restA, restB);
      } else if c < d {
        DifferentStart(a, b);
      } else {
        DifferentStart(b, a);
        CrossSwap(a, b);
        OrderSwap(a, b);
        TextOrderTotal(a, b);
      }
    }
  }

  lemma StartOf(t: Text)
    requires t != []
    ensures var c := CodePointAt(t, 0);
            Width(c) <= |t| && t == Units(c) + t[Width(c)..] && CodePoints(t) == [c] + CodePoints(t[Width(c)..])
  {
    UnitsOfCodePoint(t);
    hide Units, IsHigh, IsLow, CodePointAt;
    JoinAt(t, Width(CodePointAt(t, 0)));
  }

  lemma JoinAt(t: Text, n: nat)
    requires n <= |t|
    ensures t == t[..n] + t[n..]
  {
  }

  lemma NothingCrosses(a: Text, b: Text)
    requires a == [] || b == []
    ensures !Cross(a, b) && TextOrder(a, b) == Order(a, b)
  {
    assert a != [] ==> CodePoints(a) != [];
    assert b != [] ==> CodePoints(b) != [];
  }

  // ----- Well-formed texts -----

  // A character beyond the basic plane against one above the surrogate block.
  predicate Opposed(c: int, d: int) {
    c > 0xFFFF >= d >= 0xE000
  }

  lemma {:induction false} NoSurrogatePoints(t: Text)
    requires WellFormed(t)
    ensures forall i | 0 <= i < |CodePoints(t)| :: !IsSurrogate(CodePoints(t)[i])
  {
    if t != [] {
      NoSurrogatePoints(t[Width(CodePointAt(t, 0))..]);
    }
  }

  // The first characters that differ are opposed.
  predicate OpposedAt(p: seq<int>, q: seq<int>, i: nat) {
    i < |p| && i < |q| && p[..i] == q[..i] && (Opposed(p[i], q[i]) || Opposed(q[i], p[i]))
  }

  // Without lone surrogates that is all there is: the orders agree exactly unless the first
  // characters that differ are opposed.
  lemma UnitOrderWellFormed(a: Text, b: Text)
    requires WellFormed(a) && WellFormed(b)
    ensures TextOrder(a, b) == Order(a, b) <==> !exists i: nat :: OpposedAt(CodePoints(a), CodePoints(b), i)
  {
    hide Order, TextOrder, WellFormed;
    UnitOrderExactly(a, b);
    CodePointsInRange(a);
    CodePointsInRange(b);
    NoSurrogatePoints(a);
    NoSurrogatePoints(b);
    var p, q := CodePoints(a), CodePoints(b);
    if Cross(a, b) {
      var i: nat :| CrossesAt(p, q, i);
      OpposedExactly(p, q, i);
      assert exists k: nat :: OpposedAt(CodePoints(a), CodePoints(b), k);
    }
    if i: nat :| OpposedAt(p, q, i) {
      OpposedExactly(p, q, i);
      assert CrossesAt(p, q, i);
      assert Cross(a, b);
    }
  }

  lemma OpposedExactly(p: seq<int>, q: seq<int>, i: nat)
    requires AreCodePoints(p) && AreCodePoints(q)
    requires forall k | 0 <= k < |p| :: !IsSurrogate(p[k])
    requires forall k | 0 <= k < |q| :: !IsSurrogate(q[k])
    ensures CrossesAt(p, q, i) <==> OpposedAt(p, q, i)
  {
    if i < |p| && i < |q| {
      LeadIsHigh(p[i]);
      LeadIsHigh(q[i]);
    }
  }

  lemma LeadIsHigh(c: int)
    ensures 0x1_0000 <= c < 0x11_0000 ==> IsHigh(Lead(c))
  {
  }

  // ----- Object keys -----

  predicate SortedByUnits(ts: seq<Text>) {
    forall i, j | 0 <= i < j < |ts| :: Order(ts[i], ts[j]) <= 0
  }

  // The canonical text lists the keys of an object in the order of RFC 8785 exactly when no two of
  // them cross.
  lemma KeyOrderExactly(v: Json)
    requires v.JObj?
    ensures ListedKeys(Print(v)).Some?
    ensures SortedByUnits(ListedKeys(Print(v)).value) <==>
            forall k, l | k in v.members && l in v.members :: !Cross(k, l)
  {
    hide Order, TextOrder, Cross, Print, ListedKeys;
    PrintListsSorted(v, []);
    assert Print(v) + [] == Print(v);
    var ks := ListedKeys(Print(v)).value;
    if SortedByUnits(ks) {
      forall k, l | k in v.members && l in v.members ensures !Cross(k, l) {
        KeysAgree(ks, k, l);
      }
    }
    if forall k, l | k in v.members && l in v.members :: !Cross(k, l) {
      forall i, j | 0 <= i < j < |ks| ensures Order(ks[i], ks[j]) <= 0 {
        assert Before(ks[i], ks[j]) && ks[i] in ks && ks[j] in ks;
        UnitOrderExactly(ks[i], ks[j]);
      }
    }
  }

  lemma KeysAgree(ks: seq<Text>, k: Text, l: Text)
    requires StrictlySorted(ks) && SortedByUnits(ks) && k in ks && l in ks
    ensures !Cross(k, l)
  {
    hide Order, TextOrder, Cross;
    var i :| 0 <= i < |ks| && ks[i] == k;
    var j :| 0 <= j < |ks| && ks[j] == l;
    UnitOrderExactly(k, l);
    TextOrderTotal(k, l);
    OrderSwap(k, l);
    OrderZero(k, l);
    OrderRange(k, l);
    if i < j {
      assert Before(k, l) && Order(k, l) <= 0;
    } else if j < i {
      assert Before(l, k) && Order(l, k) <= 0;
    }
  }
}
