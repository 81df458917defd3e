// Sorting by compareText. The order is total, so a set of texts has exactly one sorted listing;
// every sort in the repository (object keys, ids, selected rows) is a use of it.
module Sorting {
  import opened Text

  predicate StrictlySorted(ks: seq<Text>) {
    forall i, j | 0 <= i < j < |ks| :: Before(ks[i], ks[j])
  }

  function Elements(ks: seq<Text>): set<Text> {
    set k | k in ks
  }

  predicate IsLeast(s: set<Text>, least: Text) {
    least in s && forall x | x in s :: x == least || Before(least, x)
  }

  lemma {:induction false} LeastExists(s: set<Text>)
    requires s != {}
    ensures exists least | least in s :: IsLeast(s, least)
  {
    var x :| x in s;
    var rest := s - {x};
    if rest == {} {
      assert s == {x};
      assert IsLeast(s, x);
    } else {
      LeastExists(rest);
      var y :| y in rest && IsLeast(rest, y);
      TextOrderTotal(x, y);
      if Before(x, y) {
        forall z | z in rest && z != y ensures Before(x, z) {
          TextOrderTransitive(x, y, z);
        }
        assert IsLeast(s, x);
      } else {
        assert IsLeast(s, y);
      }
    }
  }

  lemma LeastUnique(s: set<Text>, a: Text, b: Text)
    requires IsLeast(s, a) && IsLeast(s, b)
    ensures a == b
  {
    TextOrderTotal(a, b);
  }

  function Least(s: set<Text>): (least: Text)
    requires s != {}
    ensures IsLeast(s, least)
  {
    LeastExists(s);
    assert forall a, b | a in s && b in s && IsLeast(s, a) && IsLeast(s, b) :: a == b by {
      forall a, b | a in s && b in s && IsLeast(s, a) && IsLeast(s, b) ensures a == b {
        LeastUnique(s, a, b);
      }
    }
    var least :| least in s && IsLeast(s, least);
    least
  }

  lemma SortedPrepend(x: Text, ks: seq<Text>)
    requires StrictlySorted(ks) && forall k | k in Elements(ks) :: k == x || Before(x, k)
    requires x !in Elements(ks)
    ensures StrictlySorted([x] + ks)
    ensures Elements([x] + ks) == {x} + Elements(ks)
  {
    assert forall k | k in ks :: k in Elements(ks);
  }

  function SortedTexts(s: set<Text>): (ks: seq<Text>)
    ensures Elements(ks) == s && |ks| == |s|
    ensures StrictlySorted(ks)
  {
    if s == {} then
      []
    else
      var least := Least(s);
      var rest := SortedTexts(s - {least});
      SortedPrepend(least, rest);
      assert s == {least} + (s - {least});
      [least] + rest
  }

  lemma {:induction false} StrictlySortedDistinct(ks: seq<Text>)
    requires StrictlySorted(ks)
    ensures forall i, j | 0 <= i < |ks| && 0 <= j < |ks| && ks[i] == ks[j] :: i == j
  {
    forall i, j | 0 <= i < j < |ks| ensures ks[i] != ks[j] {
      TextOrderTotal(ks[i], ks[j]);
    }
  }

  lemma ElementsEmpty(ks: seq<Text>)
    ensures Elements(ks) == {} <==> ks == []
  {
    if ks != [] {
      assert ks[0] in Elements(ks);
    }
  }

  // A sorted listing is determined by its elements.
  lemma {:induction false} SortedUnique(a: seq<Text>, b: seq<Text>)
    requires StrictlySorted(a) && StrictlySorted(b) && Elements(a) == Elements(b)
    ensures a == b
  {
    ElementsEmpty(a);
    ElementsEmpty(b);
    if a != [] {
      assert a[0] in Elements(b);
      assert b[0] in Elements(a);
      TextOrderTotal(a[0], b[0]);
      assert a[0] == b[0];
      StrictlySortedDistinct(a);
      StrictlySortedDistinct(b);
      ElementsOfTail(a);
      ElementsOfTail(b);
      SortedUnique(a[1..], b[1..]);
      assert a == [a[0]] + a[1..] && b == [b[0]] + b[1..];
    }
  }

  lemma ElementsOfTail(ks: seq<Text>)
    requires ks != [] && forall i | 0 < i < |ks| :: ks[i] != ks[0]
    ensures Elements(ks[1..]) == Elements(ks) - {ks[0]}
  {
    forall k | k in Elements(ks) - {ks[0]} ensures k in Elements(ks[1..]) {
      var i :| 0 <= i < |ks| && ks[i] == k;
      assert ks[1..][i - 1] == k;
    }
  }
}
