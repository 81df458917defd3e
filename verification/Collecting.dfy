// The way every normaliser gathers a list: by key into a Map, refusing two different values for
// one key, and then listed in key order.
module Collecting {
  import opened Wrappers
  import opened Text
  import opened Sorting

  datatype Collected<V> = Collected(table: map<Text, V>) | Malformed | Conflict

  // One turn of the loop: None is an item that fails its own validation.
  function Add<V(==)>(table: map<Text, V>, item: Option<(Text, V)>): Collected<V> {
    match item
    case None => Malformed
    case Some((key, value)) =>
      if key in table && table[key] != value then Conflict else Collected(table[key := value])
  }

  // The loop over a whole list, the first failure ending it.
  function Collect<V(==)>(items: seq<Option<(Text, V)>>): Collected<V> {
    if items == [] then
      Collected(map[])
    else
      match Collect(items[..|items| - 1])
      case Collected(table) => Add(table, items[|items| - 1])
      case failure => failure
  }

  // [...map.values()] sorted by key.
  function Listing<V>(table: map<Text, V>): (values: seq<V>)
    ensures |values| == |table|
  {
    var keys := SortedTexts(table.Keys);
    assert forall k :: k in keys <==> k in Elements(keys);
    seq(|keys|, i requires 0 <= i < |keys| && keys[i] in table => table[keys[i]])
  }

  // A listing is in the order of the keys its values carry.
  lemma KeysOfListing<V>(table: map<Text, V>, key: V -> Text)
    requires forall k | k in table :: key(table[k]) == k
    ensures forall i | 0 <= i < |table| :: key(Listing(table)[i]) == SortedTexts(table.Keys)[i]
    ensures forall i | 0 <= i < |table| :: SortedTexts(table.Keys)[i] in table
  {
    var keys := SortedTexts(table.Keys);
    forall i | 0 <= i < |keys| ensures keys[i] in table && key(Listing(table)[i]) == keys[i] {
      assert keys[i] in Elements(keys);
    }
  }

  predicate AllValid<V>(items: seq<Option<(Text, V)>>) {
    forall i | 0 <= i < |items| :: items[i].Some?
  }

  predicate Consistent<V(==)>(items: seq<Option<(Text, V)>>) {
    forall i, j | 0 <= i < j < |items| ::
      items[i].Some? && items[j].Some? && items[i].value.0 == items[j].value.0 ==> items[i] == items[j]
  }

  predicate Holds<V(==)>(table: map<Text, V>, items: seq<Option<(Text, V)>>) {
    && (forall i | 0 <= i < |items| && items[i].Some? :: items[i].value.0 in table && table[items[i].value.0] == items[i].value.1)
    && (forall key | key in table :: Some((key, table[key])) in items)
  }

  // Collecting succeeds exactly when every item is valid and no key has two values; the table
  // then holds the items and nothing else.
  lemma {:induction false} CollectExactly<V>(items: seq<Option<(Text, V)>>)
    ensures Collect(items).Collected? <==> AllValid(items) && Consistent(items)
    ensures Collect(items).Collected? ==> Holds(Collect(items).table, items)
  {
    if items != [] {
      var init, last := items[..|items| - 1], items[|items| - 1];
      CollectExactly(init);
      assert items == init + [last];
      if Collect(init).Collected? {
        var table := Collect(init).table;
        AddExactly(table, init, last);
        if Add(table, last).Collected? {
          HoldsMore(table, init, last);
        }
      }
    }
  }

  lemma AddExactly<V>(table: map<Text, V>, init: seq<Option<(Text, V)>>, last: Option<(Text, V)>)
    requires Holds(table, init) && AllValid(init) && Consistent(init)
    ensures Add(table, last).Collected? <==> AllValid(init + [last]) && Consistent(init + [last])
  {
    var items := init + [last];
    if last.None? {
      assert items[|init|].None?;
    } else if Add(table, last).Conflict? {
      assert Some((last.value.0, table[last.value.0])) in init;
      var i :| 0 <= i < |init| && init[i] == Some((last.value.0, table[last.value.0]));
      assert items[i].value.0 == items[|init|].value.0 && items[i] != items[|init|];
    } else {
      forall i, j | 0 <= i < j < |items| && items[i].value.0 == items[j].value.0 ensures items[i] == items[j] {
        assert items[i] == init[i];
      }
    }
  }

  lemma HoldsMore<V>(table: map<Text, V>, init: seq<Option<(Text, V)>>, last: Option<(Text, V)>)
    requires Holds(table, init) && last.Some?
    requires last.value.0 in table ==> table[last.value.0] == last.value.1
    ensures Holds(table[last.value.0 := last.value.1], init + [last])
  {
    var items, more := init + [last], table[last.value.0 := last.value.1];
    forall key | key in more ensures Some((key, more[key])) in items {
      if key == last.value.0 {
        assert items[|init|] == last;
      } else {
        assert Some((key, table[key])) in init;
      }
    }
  }

  lemma ListedValue<V>(table: map<Text, V>, value: V) returns (key: Text)
    requires value in Listing(table)
    ensures key in table && table[key] == value
  {
    var keys, values := SortedTexts(table.Keys), Listing(table);
    var n :| 0 <= n < |values| && values[n] == value;
    assert keys[n] in Elements(keys);
    key := keys[n];
  }

  lemma ValueListed<V>(table: map<Text, V>, key: Text)
    requires key in table
    ensures table[key] in Listing(table)
  {
    var keys := SortedTexts(table.Keys);
    assert key in Elements(keys);
    var n :| 0 <= n < |keys| && keys[n] == key;
    assert Listing(table)[n] == table[key];
  }

  // The listing of what has been collected holds the values of the items and no others.
  lemma CollectedValues<V>(items: seq<Option<(Text, V)>>)
    requires Collect(items).Collected?
    ensures forall value :: value in Listing(Collect(items).table) <==>
              exists i :: 0 <= i < |items| && items[i].Some? && items[i].value.1 == value
  {
    hide Collect, Listing;
    CollectExactly(items);
    var table := Collect(items).table;
    forall value | value in Listing(table)
      ensures exists i :: 0 <= i < |items| && items[i].Some? && items[i].value.1 == value
    {
      var key := ListedValue(table, value);
      assert Some((key, table[key])) in items;
    }
    forall i | 0 <= i < |items| && items[i].Some? ensures items[i].value.1 in Listing(table) {
      ValueListed(table, items[i].value.0);
    }
  }

  // The order and the multiplicity of the items make no difference to a successful collection,
  // nor to whether it succeeds.
  lemma CollectSame<V>(a: seq<Option<(Text, V)>>, b: seq<Option<(Text, V)>>)
    requires forall item :: item in a <==> item in b
    ensures Collect(a).Collected? <==> Collect(b).Collected?
    ensures Collect(a).Collected? ==> Collect(a) == Collect(b)
  {
    CollectExactly(a);
    CollectExactly(b);
    if AllValid(a) && Consistent(a) {
      SameValidity(a, b);
    }
    if AllValid(b) && Consistent(b) {
      SameValidity(b, a);
    }
    if Collect(a).Collected? {
      HoldsSame(Collect(a).table, a, Collect(b).table, b);
    }
  }

  lemma SameValidity<V>(a: seq<Option<(Text, V)>>, b: seq<Option<(Text, V)>>)
    requires forall item :: item in b ==> item in a
    requires AllValid(a) && Consistent(a)
    ensures AllValid(b) && Consistent(b)
  {
    forall i | 0 <= i < |b| ensures b[i].Some? {
      assert b[i] in a;
    }
    forall i, j | 0 <= i < j < |b| && b[i].value.0 == b[j].value.0 ensures b[i] == b[j] {
      assert b[i] in a && b[j] in a;
    }
  }

  lemma HoldsSame<V>(s: map<Text, V>, a: seq<Option<(Text, V)>>, t: map<Text, V>, b: seq<Option<(Text, V)>>)
    requires forall item :: item in a <==> item in b
    requires Holds(s, a) && Holds(t, b)
    ensures s == t
  {
    forall key | key in s ensures key in t && t[key] == s[key] {
      assert Some((key, s[key])) in b;
    }
    forall key | key in t ensures key in s {
      assert Some((key, t[key])) in a;
    }
  }

  // The table with the given sorted keys and, for each, the value at the same place.
  function Tabulate<V>(keys: seq<Text>, values: seq<V>): (table: map<Text, V>)
    requires StrictlySorted(keys) && |keys| == |values|
    ensures table.Keys == Elements(keys)
    ensures forall i | 0 <= i < |keys| :: keys[i] in table && table[keys[i]] == values[i]
  {
    StrictlySortedDistinct(keys);
    map i | 0 <= i < |keys| :: keys[i] := values[i]
  }

  lemma ListingOfTable<V>(keys: seq<Text>, values: seq<V>, table: map<Text, V>)
    requires StrictlySorted(keys) && |keys| == |values|
    requires table.Keys == Elements(keys) && forall i | 0 <= i < |keys| :: keys[i] in table && table[keys[i]] == values[i]
    ensures Listing(table) == values
  {
    SortedUnique(keys, SortedTexts(table.Keys));
  }

  lemma SortedItems<V>(keys: seq<Text>, values: seq<V>, items: seq<Option<(Text, V)>>)
    requires StrictlySorted(keys) && |keys| == |values| == |items|
    requires forall i | 0 <= i < |items| :: items[i] == Some((keys[i], values[i]))
    ensures AllValid(items) && Consistent(items)
    ensures Holds(Tabulate(keys, values), items)
  {
    var table := Tabulate(keys, values);
    StrictlySortedDistinct(keys);
    forall key | key in table ensures Some((key, table[key])) in items {
      var i :| 0 <= i < |keys| && keys[i] == key;
      assert items[i] == Some((key, table[key]));
    }
  }

  // A sorted list of keys and values is collected and listed as it stands.
  lemma CollectSorted<V>(keys: seq<Text>, values: seq<V>, items: seq<Option<(Text, V)>>)
    requires StrictlySorted(keys) && |keys| == |values| == |items|
    requires forall i | 0 <= i < |items| :: items[i] == Some((keys[i], values[i]))
    ensures Collect(items) == Collected(Tabulate(keys, values))
    ensures Listing(Tabulate(keys, values)) == values
  {
    ListingOfTable(keys, values, Tabulate(keys, values));
    SortedItems(keys, values, items);
    CollectExactly(items);
    HoldsSame(Tabulate(keys, values), items, Collect(items).table, items);
  }
}
