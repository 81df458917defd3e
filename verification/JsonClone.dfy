// cloneJson (src/store-utils.js): JSON.parse after JSON.stringify, which lists members in the order
// in which the object holds them, not in canonical order.
module JsonClone {
  import opened Wrappers
  import opened Text
  import opened Numeral
  import opened Json
  import opened JsonParser
  import opened JsonGraph

  // The own keys of an object are distinct.
  predicate DistinctKeys(members: seq<(Text, Property)>) {
    forall i, j | 0 <= i < j < |members| :: members[i].0 != members[j].0
  }

  predicate WellKeyed(heap: Heap) {
    forall ref | ref in heap && heap[ref].ObjectNode? :: DistinctKeys(heap[ref].members)
  }

  predicate SlotsAccepted(heap: Heap, slots: seq<Option<Property>>, path: set<Ref>) {
    forall i | 0 <= i < |slots| :: slots[i].Some? && LegalProperty(slots[i].value) && Accepts(heap, slots[i].value.value, path)
  }

  predicate MembersAccepted(heap: Heap, members: seq<(Text, Property)>, path: set<Ref>) {
    forall i | 0 <= i < |members| :: LegalProperty(members[i].1) && Accepts(heap, members[i].1.value, path)
  }

  lemma AcceptedParts(heap: Heap, v: Value, seen: set<Ref>)
    requires Accepts(heap, v, seen) && v.Object?
    ensures v.ref in heap && v.ref !in seen
    ensures match heap[v.ref]
            case ArrayNode(slots, _) => SlotsAccepted(heap, slots, seen + {v.ref})
            case ObjectNode(_, _, members) => MembersAccepted(heap, members, seen + {v.ref})
  {
    match heap[v.ref]
    case ArrayNode(slots, _) =>
      forall i | 0 <= i < |slots|
        ensures slots[i].Some? && LegalProperty(slots[i].value) && Accepts(heap, slots[i].value.value, seen + {v.ref})
      {
        assert slots[i] in slots;
        assert slots[i].value.value in Children(heap[v.ref]);
      }
    case ObjectNode(_, _, members) =>
      forall i | 0 <= i < |members| ensures LegalProperty(members[i].1) && Accepts(heap, members[i].1.value, seen + {v.ref}) {
        assert members[i] in members;
        assert members[i].1.value in Children(heap[v.ref]);
      }
  }

  // JSON.stringify on a value isJsonValue has accepted.
  function Stringify(heap: Heap, v: Value, seen: set<Ref>): Text
    requires Accepts(heap, v, seen)
    decreases heap.Keys - seen, 0
  {
    match v
    case Null => NULL_TEXT
    case Boolean(flag) => if flag then TRUE_TEXT else FALSE_TEXT
    case String(text) => Quote(text)
    case Number(numeral) => numeral
    case Object(ref) =>
      AcceptedParts(heap, v, seen);
      match heap[ref]
      case ArrayNode(slots, _) => [OPEN_BRACKET] + StringifySlots(heap, slots, seen + {ref}) + [CLOSE_BRACKET]
      case ObjectNode(_, _, members) => [OPEN_BRACE] + StringifyMembers(heap, members, seen + {ref}) + [CLOSE_BRACE]
  }

  function StringifySlots(heap: Heap, slots: seq<Option<Property>>, path: set<Ref>): Text
    requires SlotsAccepted(heap, slots, path)
    decreases heap.Keys - path, 1, |slots|
  {
    if slots == [] then []
    else
      var first := Stringify(heap, slots[0].value.value, path);
      if |slots| == 1 then first else first + [COMMA] + StringifySlots(heap, slots[1..], path)
  }

  function StringifyMembers(heap: Heap, members: seq<(Text, Property)>, path: set<Ref>): Text
    requires MembersAccepted(heap, members, path)
    decreases heap.Keys - path, 1, |members|
  {
    if members == [] then []
    else
      var first := Quote(members[0].0) + [COLON] + Stringify(heap, members[0].1.value, path);
      if |members| == 1 then first else first + [COMMA] + StringifyMembers(heap, members[1..], path)
  }

  // The items and members the text stands for.
  function SlotValues(heap: Heap, slots: seq<Option<Property>>, path: set<Ref>): seq<Json>
    requires SlotsAccepted(heap, slots, path)
  {
    if slots == [] then [] else [Denote(heap, slots[0].value.value, path)] + SlotValues(heap, slots[1..], path)
  }

  function MemberValues(heap: Heap, members: seq<(Text, Property)>, path: set<Ref>): map<Text, Json>
    requires MembersAccepted(heap, members, path)
  {
    if members == [] then map[]
    else map[members[0].0 := Denote(heap, members[0].1.value, path)] + MemberValues(heap, members[1..], path)
  }

  // The members in the order in which they were inserted, as they are listed in the text.
  function MemberPairs(heap: Heap, members: seq<(Text, Property)>, path: set<Ref>): seq<(Text, Json)>
    requires MembersAccepted(heap, members, path)
  {
    if members == [] then []
    else [(members[0].0, Denote(heap, members[0].1.value, path))] + MemberPairs(heap, members[1..], path)
  }

  lemma {:induction false} PairsMakeMembers(heap: Heap, members: seq<(Text, Property)>, path: set<Ref>)
    requires MembersAccepted(heap, members, path)
    ensures MembersOf(MemberPairs(heap, members, path)) == MemberValues(heap, members, path)
  {
    hide Denote, Accepts;
    if members != [] {
      PairsMakeMembers(heap, members[1..], path);
      assert MemberPairs(heap, members, path)[1..] == MemberPairs(heap, members[1..], path);
    }
  }

  lemma {:induction false} SlotValuesExactly(heap: Heap, slots: seq<Option<Property>>, path: set<Ref>)
    requires SlotsAccepted(heap, slots, path)
    ensures |SlotValues(heap, slots, path)| == |slots|
    ensures forall i | 0 <= i < |slots| :: SlotValues(heap, slots, path)[i] == Denote(heap, slots[i].value.value, path)
  {
    hide Denote, Accepts;
    if slots != [] {
      SlotValuesExactly(heap, slots[1..], path);
    }
  }

  lemma {:induction false} MemberValuesExactly(heap: Heap, members: seq<(Text, Property)>, path: set<Ref>)
    requires MembersAccepted(heap, members, path) && DistinctKeys(members)
    ensures forall key :: key in MemberValues(heap, members, path) <==> exists i :: 0 <= i < |members| && members[i].0 == key
    ensures forall i | 0 <= i < |members| ::
              members[i].0 in MemberValues(heap, members, path) &&
              MemberValues(heap, members, path)[members[i].0] == Denote(heap, members[i].1.value, path)
  {
    hide Denote, Accepts;
    if members != [] {
      var rest := members[1..];
      MemberValuesExactly(heap, rest, path);
      assert forall j | 0 <= j < |rest| :: rest[j] == members[j + 1] && rest[j].0 != members[0].0;
      assert members[0].0 !in MemberValues(heap, rest, path);
      forall i | 0 <= i < |members|
        ensures members[i].0 in MemberValues(heap, members, path)
        ensures MemberValues(heap, members, path)[members[i].0] == Denote(heap, members[i].1.value, path)
      {
        if i > 0 {
          assert rest[i - 1] == members[i];
        }
      }
      forall key | key in MemberValues(heap, members, path) ensures exists i :: 0 <= i < |members| && members[i].0 == key {
        if key == members[0].0 {
          assert members[0].0 == key;
        } else {
          var i :| 0 <= i < |rest| && rest[i].0 == key;
          assert members[i + 1].0 == key;
        }
      }
    }
  }

  lemma {:induction false} FirstWithKey(members: seq<(Text, Property)>, i: nat)
    requires DistinctKeys(members) && i < |members| && forall m | m in members :: LegalProperty(m.1)
    ensures members[i] in members && MemberValue(members, members[i].0) == members[i].1.value
  {
    assert members[0] in members;
    if i > 0 {
      assert members[1..][i - 1] == members[i];
      FirstWithKey(members[1..], i - 1);
    }
  }

  lemma DenoteArray(heap: Heap, v: Value, seen: set<Ref>)
    requires Accepts(heap, v, seen) && v.Object? && v.ref in heap && heap[v.ref].ArrayNode?
    requires SlotsAccepted(heap, heap[v.ref].slots, seen + {v.ref})
    ensures Denote(heap, v, seen) == JArr(SlotValues(heap, heap[v.ref].slots, seen + {v.ref}))
  {
    var slots, path := heap[v.ref].slots, seen + {v.ref};
    SlotValuesExactly(heap, slots, path);
    var items := Denote(heap, v, seen).items;
    assert |items| == |slots|;
    forall i | 0 <= i < |slots| ensures items[i] == SlotValues(heap, slots, path)[i] {
      assert slots[i] in slots;
    }
  }

  lemma DenoteMember(heap: Heap, v: Value, seen: set<Ref>, i: nat)
    requires Accepts(heap, v, seen) && v.Object? && v.ref in heap && heap[v.ref].ObjectNode?
    requires MembersAccepted(heap, heap[v.ref].members, seen + {v.ref}) && DistinctKeys(heap[v.ref].members)
    requires i < |heap[v.ref].members|
    ensures var m := heap[v.ref].members[i];
            m.0 in Denote(heap, v, seen).members && Denote(heap, v, seen).members[m.0] == Denote(heap, m.1.value, seen + {v.ref})
  {
    var members := heap[v.ref].members;
    assert forall m | m in members :: LegalProperty(m.1);
    FirstWithKey(members, i);
  }

  lemma DenoteObject(heap: Heap, v: Value, seen: set<Ref>)
    requires Accepts(heap, v, seen) && v.Object? && v.ref in heap && heap[v.ref].ObjectNode?
    requires MembersAccepted(heap, heap[v.ref].members, seen + {v.ref}) && DistinctKeys(heap[v.ref].members)
    ensures Denote(heap, v, seen) == JObj(MemberValues(heap, heap[v.ref].members, seen + {v.ref}))
  {
    hide Denote, Accepts, MemberValues, MembersAccepted, DistinctKeys;
    var members, path := heap[v.ref].members, seen + {v.ref};
    MemberValuesExactly(heap, members, path);
    DenoteKeys(heap, v, seen);
    var denoted := Denote(heap, v, seen).members;
    forall i | 0 <= i < |members|
      ensures members[i].0 in denoted && denoted[members[i].0] == MemberValues(heap, members, path)[members[i].0]
    {
      DenoteMember(heap, v, seen, i);
    }
    forall key | key in denoted ensures key in MemberValues(heap, members, path) {
      var i :| 0 <= i < |members| && members[i].0 == key;
    }
    assert denoted == MemberValues(heap, members, path);
  }

  lemma DenoteKeys(heap: Heap, v: Value, seen: set<Ref>)
    requires Accepts(heap, v, seen) && v.Object? && v.ref in heap && heap[v.ref].ObjectNode?
    ensures Denote(heap, v, seen).JObj?
    ensures forall key | key in Denote(heap, v, seen).members ::
              exists i :: 0 <= i < |heap[v.ref].members| && heap[v.ref].members[i].0 == key
  {
    var members := heap[v.ref].members;
    forall key | key in Denote(heap, v, seen).members ensures exists i :: 0 <= i < |members| && members[i].0 == key {
      var m :| m in members && m.0 == key;
      var i :| 0 <= i < |members| && members[i] == m;
      assert members[i].0 == key;
    }
  }

  // What Denote makes of an object, member by member in the order they are held.
  lemma DenoteParts(heap: Heap, v: Value, seen: set<Ref>)
    requires Accepts(heap, v, seen) && v.Object? && WellKeyed(heap)
    ensures match heap[v.ref]
            case ArrayNode(slots, _) =>
              SlotsAccepted(heap, slots, seen + {v.ref}) && Denote(heap, v, seen) == JArr(SlotValues(heap, slots, seen + {v.ref}))
            case ObjectNode(_, _, members) =>
              MembersAccepted(heap, members, seen + {v.ref}) &&
              Denote(heap, v, seen) == JObj(MemberValues(heap, members, seen + {v.ref}))
  {
    hide Denote, SlotValues, MemberValues;
    AcceptedParts(heap, v, seen);
    match heap[v.ref]
    case ArrayNode(slots, _) => DenoteArray(heap, v, seen);
    case ObjectNode(_, _, members) => DenoteObject(heap, v, seen);
  }

  // ----- Reading the text back -----

  lemma StringifyStart(heap: Heap, v: Value, seen: set<Ref>)
    requires Accepts(heap, v, seen)
    ensures var t := Stringify(heap, v, seen); t != [] && !IsSpace(t[0]) && t[0] != CLOSE_BRACKET && t[0] != CLOSE_BRACE
  {
    if v.Number? {
      NumeralUnits(v.numeral);
    }
    if v.Object? {
      AcceptedParts(heap, v, seen);
    }
  }

  lemma {:induction false} ReadsBack(heap: Heap, v: Value, seen: set<Ref>, rest: Text)
    requires Accepts(heap, v, seen) && WellKeyed(heap) && Delimited(rest)
    ensures ParseValue(Stringify(heap, v, seen) + rest) == Got(Denote(heap, v, seen), rest)
    decreases heap.Keys - seen, 0
  {
    match v
    case Null => LiteralStep(JNull, rest);
    case Boolean(flag) => LiteralStep(JBool(flag), rest);
    case String(text) => StringStep(text, rest);
    case Number(numeral) => NumberStep(numeral, rest);
    case Object(ref) =>
      AcceptedParts(heap, v, seen);
      DenoteParts(heap, v, seen);
      match heap[ref]
      case ArrayNode(slots, _) => ArrayReadsBack(heap, slots, seen + {ref}, rest);
      case ObjectNode(_, _, members) => ObjectReadsBack(heap, members, seen + {ref}, rest);
  }

  lemma {:induction false} ArrayReadsBack(heap: Heap, slots: seq<Option<Property>>, path: set<Ref>, rest: Text)
    requires SlotsAccepted(heap, slots, path) && WellKeyed(heap)
    ensures ParseValue([OPEN_BRACKET] + StringifySlots(heap, slots, path) + [CLOSE_BRACKET] + rest) ==
            Got(JArr(SlotValues(heap, slots, path)), rest)
    decreases heap.Keys - path, 1, |slots| + 1
  {
    hide ParseValue, ParseItems;
    if slots == [] {
      EmptyStep(rest);
      assert [OPEN_BRACKET] + StringifySlots(heap, slots, path) + [CLOSE_BRACKET] == [OPEN_BRACKET, CLOSE_BRACKET];
    } else {
      var inner := SlotsReadBack(heap, slots, path, rest);
      ArrayStep(inner, SlotValues(heap, slots, path), rest);
      Enclose(OPEN_BRACKET, StringifySlots(heap, slots, path), CLOSE_BRACKET, rest);
    }
  }

  lemma {:induction false} ObjectReadsBack(heap: Heap, members: seq<(Text, Property)>, path: set<Ref>, rest: Text)
    requires MembersAccepted(heap, members, path) && WellKeyed(heap)
    ensures ParseValue([OPEN_BRACE] + StringifyMembers(heap, members, path) + [CLOSE_BRACE] + rest) ==
            Got(JObj(MemberValues(heap, members, path)), rest)
    decreases heap.Keys - path, 1, |members| + 1
  {
    hide ParseValue, ParseMembers;
    if members == [] {
      EmptyStep(rest);
      assert [OPEN_BRACE] + StringifyMembers(heap, members, path) + [CLOSE_BRACE] == [OPEN_BRACE, CLOSE_BRACE];
    } else {
      var inner := MembersReadBack(heap, members, path, rest);
      ObjectStep(inner, MemberPairs(heap, members, path), rest);
      PairsMakeMembers(heap, members, path);
      Enclose(OPEN_BRACE, StringifyMembers(heap, members, path), CLOSE_BRACE, rest);
    }
  }

  lemma JoinRest(a: Text, mark: CodeUnit, b: Text, close: CodeUnit, rest: Text)
    ensures a + [mark] + b + [close] + rest == a + ([mark] + (b + [close] + rest))
    ensures a + [close] + rest == a + ([close] + rest)
  {
  }

  lemma {:induction false} SlotsReadBack(heap: Heap, slots: seq<Option<Property>>, path: set<Ref>, rest: Text)
    returns (inner: Text)
    requires SlotsAccepted(heap, slots, path) && WellKeyed(heap) && slots != []
    ensures inner == StringifySlots(heap, slots, path) + [CLOSE_BRACKET] + rest
    ensures inner != [] && !IsSpace(inner[0]) && inner[0] != CLOSE_BRACKET
    ensures ParseItems(inner) == Got(SlotValues(heap, slots, path), rest)
    decreases heap.Keys - path, 1, |slots|
  {
    hide ParseValue, ParseItems, Denote, Accepts;
    var first := Stringify(heap, slots[0].value.value, path);
    var item := Denote(heap, slots[0].value.value, path);
    var after;
    if |slots| == 1 {
      after := [CLOSE_BRACKET] + rest;
      assert after[1..] == rest;
      JoinRest(first, COMMA, [], CLOSE_BRACKET, rest);
      assert SlotValues(heap, slots[1..], path) == [] && [item] + [] == [item];
    } else {
      var next := SlotsReadBack(heap, slots[1..], path, rest);
      after := [COMMA] + next;
      assert after[1..] == next;
      JoinRest(first, COMMA, StringifySlots(heap, slots[1..], path), CLOSE_BRACKET, rest);
    }
    inner := first + after;
    StringifyStart(heap, slots[0].value.value, path);
    ReadsBack(heap, slots[0].value.value, path, after);
    ItemStep(inner, item, after);
  }

  lemma LastMember(key: Text, text: Text, rest: Text)
    ensures key + [COLON] + text + [CLOSE_BRACE] + rest == key + [COLON] + (text + ([CLOSE_BRACE] + rest))
  {
  }

  lemma OtherMember(key: Text, text: Text, others: Text, rest: Text)
    ensures key + [COLON] + text + [COMMA] + others + [CLOSE_BRACE] + rest ==
            key + [COLON] + (text + ([COMMA] + (others + [CLOSE_BRACE] + rest)))
  {
  }

  lemma MarkedRest(mark: CodeUnit, rest: Text)
    ensures ([mark] + rest)[1..] == rest && [mark] + rest != [] && ([mark] + rest)[0] == mark
  {
  }

  lemma {:induction false} MembersReadBack(heap: Heap, members: seq<(Text, Property)>, path: set<Ref>, rest: Text)
    returns (inner: Text)
    requires MembersAccepted(heap, members, path) && WellKeyed(heap) && members != []
    ensures inner == StringifyMembers(heap, members, path) + [CLOSE_BRACE] + rest
    ensures inner != [] && inner[0] == QUOTE
    ensures ParseMembers(inner) == Got(MemberPairs(heap, members, path), rest)
    decreases heap.Keys - path, 1, |members|
  {
    hide ParseValue, ParseMembers, Denote, Accepts, Quote, MembersAccepted;
    AcceptedFirst(heap, members, path);
    var key, value := members[0].0, Denote(heap, members[0].1.value, path);
    var text := Stringify(heap, members[0].1.value, path);
    var after;
    if |members| == 1 {
      after := [CLOSE_BRACE] + rest;
      MarkedRest(CLOSE_BRACE, rest);
      OneValue(heap, members, path);
      LastMember(Quote(key), text, rest);
    } else {
      var next := MembersReadBack(heap, members[1..], path, rest);
      after := [COMMA] + next;
      MarkedRest(COMMA, next);
      OtherMember(Quote(key), text, StringifyMembers(heap, members[1..], path), rest);
    }
    ReadsBack(heap, members[0].1.value, path, after);
    inner := MemberStep(key, value, text + after, after);
  }

  lemma AcceptedFirst(heap: Heap, members: seq<(Text, Property)>, path: set<Ref>)
    requires MembersAccepted(heap, members, path) && members != []
    ensures LegalProperty(members[0].1) && Accepts(heap, members[0].1.value, path) && MembersAccepted(heap, members[1..], path)
  {
    hide Accepts;
  }

  lemma OneValue(heap: Heap, members: seq<(Text, Property)>, path: set<Ref>)
    requires |members| == 1 && MembersAccepted(heap, members, path)
    ensures MemberPairs(heap, members, path) == [(members[0].0, Denote(heap, members[0].1.value, path))]
  {
    hide Accepts, Denote;
    assert MemberPairs(heap, members[1..], path) == [];
  }

  // cloneJson: None is the TypeError for a value that is not JSON, or the SyntaxError of a parse.
  function CloneJson(heap: Heap, v: Value): Option<Json> {
    if Accepts(heap, v, {}) then Parse(Stringify(heap, v, {})) else None
  }

  // A clone is made of exactly the values isJsonValue accepts, and has the canonical text of the
  // original, whatever the order of its members and however often an object is shared.
  lemma CloneIsFaithful(heap: Heap, v: Value)
    requires WellKeyed(heap)
    ensures CloneJson(heap, v).Some? <==> IsJsonGraph(heap, v, {})
    ensures CloneJson(heap, v).Some? ==> StableJson(heap, v) == Some(Print(CloneJson(heap, v).value))
  {
    AcceptsExactly(heap, v, {});
    if Accepts(heap, v, {}) {
      ReadsBack(heap, v, {}, []);
      assert Stringify(heap, v, {}) + [] == Stringify(heap, v, {});
    }
  }
}
