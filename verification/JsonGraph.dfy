// isJsonValue (src/store-utils.js): a walk over the object graph behind a JavaScript value, with
// the set `seen` of the objects on the current path.
module JsonGraph {
  import opened Wrappers
  import opened Text
  import opened Numeral
  import opened Json

  type Ref = nat

  // A JavaScript value. `Opaque` stands for every type that is neither JSON nor an object:
  // undefined, functions, symbols, bigints.
  datatype Value =
    | Null
    | Boolean(flag: bool)
    | String(text: Text)
    | Number(numeral: Numeral)
    | NotFinite
    | Opaque
    | Object(ref: Ref)

  // An own property: enumerable or not, holding data or behind an accessor.
  datatype Property = Data(value: Value, enumerable: bool) | Accessor

  // An array has one slot per index, a hole being no property, and possibly other own keys
  // besides "length". Any other object has its string keys, possibly symbol keys, and a prototype
  // that is plain (Object.prototype or null) or not.
  datatype Node =
    | ArrayNode(slots: seq<Option<Property>>, otherKeys: bool)
    | ObjectNode(plainPrototype: bool, symbolKeys: bool, members: seq<(Text, Property)>)

  type Heap = map<Ref, Node>

  // ----- What a JSON value is, by the paths that lead through it -----

  predicate LegalProperty(p: Property) {
    p.Data? && p.enumerable
  }

  // An object without regard to what its properties hold.
  predicate LegalNode(node: Node) {
    match node
    case ArrayNode(slots, otherKeys) => !otherKeys && forall s | s in slots :: s.Some? && LegalProperty(s.value)
    case ObjectNode(plainPrototype, symbolKeys, members) =>
      plainPrototype && !symbolKeys && forall m | m in members :: LegalProperty(m.1)
  }

  predicate LegalValue(heap: Heap, v: Value) {
    match v
    case NotFinite => false
    case Opaque => false
    case Object(ref) => ref in heap && LegalNode(heap[ref])
    case _ => true
  }

  // The values held by the properties of an object.
  function Children(node: Node): set<Value> {
    match node
    case ArrayNode(slots, _) => set s | s in slots && s.Some? && s.value.Data? :: s.value.value
    case ObjectNode(_, _, members) => set m | m in members && m.1.Data? :: m.1.value
  }

  predicate Leads(heap: Heap, parent: Value, child: Value) {
    parent.Object? && parent.ref in heap && child in Children(heap[parent.ref])
  }

  predicate IsPath(heap: Heap, p: seq<Value>) {
    p != [] && forall i | 0 <= i < |p| - 1 :: Leads(heap, p[i], p[i + 1])
  }

  // The last value of the path is legal, and no object the path or `seen` already holds.
  predicate LegalEnd(heap: Heap, p: seq<Value>, seen: set<Ref>)
    requires p != []
  {
    var end := p[|p| - 1];
    LegalValue(heap, end) && (end.Object? ==> end.ref !in seen && forall i | 0 <= i < |p| - 1 :: p[i] != end)
  }

  // Every path from the root is free of cycles and reaches legal values only.
  ghost predicate IsJsonGraph(heap: Heap, root: Value, seen: set<Ref>) {
    forall p | IsPath(heap, p) && p[0] == root :: LegalEnd(heap, p, seen)
  }

  // ----- What the walk computes -----

  function Accepts(heap: Heap, v: Value, seen: set<Ref>): bool
    decreases heap.Keys - seen
  {
    LegalValue(heap, v) &&
    (v.Object? ==>
       v.ref !in seen && forall child | child in Children(heap[v.ref]) :: Accepts(heap, child, seen + {v.ref}))
  }

  lemma PathsLegal(heap: Heap, p: seq<Value>, seen: set<Ref>)
    requires IsPath(heap, p) && Accepts(heap, p[0], seen)
    ensures LegalEnd(heap, p, seen)
    decreases |p|
  {
    if |p| > 1 {
      assert Leads(heap, p[0], p[1]);
      var q := p[1..];
      forall i | 0 <= i < |q| - 1 ensures Leads(heap, q[i], q[i + 1]) {
        assert Leads(heap, p[i + 1], p[i + 2]);
      }
      PathsLegal(heap, q, seen + {p[0].ref});
      assert q[|q| - 1] == p[|p| - 1];
      forall i | 0 <= i < |p| - 1 ensures p[|p| - 1].Object? ==> p[i] != p[|p| - 1] {
        if i > 0 {
          assert q[i - 1] == p[i];
        }
      }
    }
  }

  lemma PathsSuffice(heap: Heap, v: Value, seen: set<Ref>)
    requires IsJsonGraph(heap, v, seen)
    ensures Accepts(heap, v, seen)
    decreases heap.Keys - seen
  {
    assert LegalEnd(heap, [v], seen);
    if v.Object? {
      forall child | child in Children(heap[v.ref]) ensures Accepts(heap, child, seen + {v.ref}) {
        forall q | IsPath(heap, q) && q[0] == child ensures LegalEnd(heap, q, seen + {v.ref}) {
          ExtendPath(heap, v, q, seen);
        }
        PathsSuffice(heap, child, seen + {v.ref});
      }
    }
  }

  lemma ExtendPath(heap: Heap, v: Value, q: seq<Value>, seen: set<Ref>)
    requires IsJsonGraph(heap, v, seen)
    requires IsPath(heap, q) && Leads(heap, v, q[0])
    ensures LegalEnd(heap, q, seen + {v.ref})
  {
    var p := [v] + q;
    forall i | 0 <= i < |p| - 1 ensures Leads(heap, p[i], p[i + 1]) {
      if i > 0 {
        assert Leads(heap, q[i - 1], q[i]);
      }
    }
    assert IsPath(heap, p) && p[0] == v;
    assert LegalEnd(heap, p, seen);
    assert p[|p| - 1] == q[|q| - 1] && p[0] == v;
    forall i | 0 <= i < |q| - 1 ensures q[|q| - 1].Object? ==> q[i] != q[|q| - 1] {
      assert p[i + 1] == q[i];
    }
  }

  // The walk accepts exactly the values all of whose paths are acyclic and legal; an object met
  // again on another path is no obstacle.
  lemma AcceptsExactly(heap: Heap, v: Value, seen: set<Ref>)
    ensures Accepts(heap, v, seen) <==> IsJsonGraph(heap, v, seen)
  {
    if Accepts(heap, v, seen) {
      forall p | IsPath(heap, p) && p[0] == v ensures LegalEnd(heap, p, seen) {
        PathsLegal(heap, p, seen);
      }
    }
    if IsJsonGraph(heap, v, seen) {
      PathsSuffice(heap, v, seen);
    }
  }

  // ----- The walk itself -----

  class Walker {
    const heap: Heap
    var seen: set<Ref>

    // new Set() as the default argument.
    constructor (heap: Heap)
      ensures this.heap == heap && seen == {}
    {
      this.heap := heap;
      seen := {};
    }

    // Adds the object to the path, visits what it holds, and takes it off again whatever the
    // visit found: the `finally` of the source.
    method IsJsonValue(v: Value) returns (accepted: bool)
      modifies this`seen
      ensures seen == old(seen)
      ensures accepted == Accepts(heap, v, seen)
      decreases heap.Keys - seen, 0
    {
      match v
      case NotFinite => return false;
      case Opaque => return false;
      case Object(ref) =>
        if ref !in heap || ref in seen {
          return false;
        }
        ghost var before := seen;
        seen := seen + {ref};
        accepted := Visit(heap[ref]);
        seen := seen - {ref};
        assert seen == before;
      case _ => return true;
    }

    method Visit(node: Node) returns (accepted: bool)
      modifies this`seen
      ensures seen == old(seen)
      ensures accepted == (LegalNode(node) && forall child | child in Children(node) :: Accepts(heap, child, seen))
      decreases heap.Keys - seen, 1
    {
      match node
      case ArrayNode(slots, otherKeys) =>
        var index := 0;
        while index < |slots|
          invariant 0 <= index <= |slots|
          invariant seen == old(seen)
          invariant forall i | 0 <= i < index ::
                      slots[i].Some? && LegalProperty(slots[i].value) && Accepts(heap, slots[i].value.value, seen)
        {
          var descriptor := slots[index];
          assert descriptor in slots;
          if descriptor.None? || !LegalProperty(descriptor.value) {
            return false;
          }
          var good := IsJsonValue(descriptor.value.value);
          if !good {
            assert descriptor.value.value in Children(node);
            return false;
          }
          index := index + 1;
        }
        return !otherKeys;
      case ObjectNode(plainPrototype, symbolKeys, members) =>
        if !plainPrototype {
          return false;
        }
        var index := 0;
        while index < |members|
          invariant 0 <= index <= |members|
          invariant seen == old(seen)
          invariant forall i | 0 <= i < index ::
                      LegalProperty(members[i].1) && Accepts(heap, members[i].1.value, seen)
        {
          var descriptor := members[index].1;
          assert members[index] in members;
          if !LegalProperty(descriptor) {
            return false;
          }
          var good := IsJsonValue(descriptor.value);
          if !good {
            assert descriptor.value in Children(node);
            return false;
          }
          index := index + 1;
        }
        return !symbolKeys;
    }
  }

  // ----- The value an accepted graph stands for -----

  function MemberValue(members: seq<(Text, Property)>, key: Text): (v: Value)
    requires exists m :: m in members && m.0 == key
    requires forall m | m in members :: LegalProperty(m.1)
    ensures exists m :: m in members && m.1.Data? && m.1.value == v
  {
    if members[0].0 == key then
      assert members[0] in members && LegalProperty(members[0].1);
      members[0].1.value
    else
      MemberValue(members[1..], key)
  }

  // The recursion of stableJsonValue and JSON.stringify, which keep no path set: it is
  // well-founded because isJsonValue has accepted the value.
  function Denote(heap: Heap, v: Value, seen: set<Ref>): Json
    requires Accepts(heap, v, seen)
    decreases heap.Keys - seen
  {
    match v
    case Null => JNull
    case Boolean(flag) => JBool(flag)
    case String(text) => JStr(text)
    case Number(numeral) => JNum(numeral)
    case Object(ref) =>
      var path := seen + {ref};
      match heap[ref]
      case ArrayNode(slots, _) =>
        JArr(seq(|slots|, i requires 0 <= i < |slots| && slots[i] in slots => Denote(heap, slots[i].value.value, path)))
      case ObjectNode(_, _, members) =>
        JObj(map key | key in (set m | m in members :: m.0) :: Denote(heap, MemberValue(members, key), path))
  }

  // The value does not depend on the path by which an object was reached.
  lemma {:induction false} DenoteAnyPath(heap: Heap, v: Value, seen: set<Ref>, other: set<Ref>)
    requires Accepts(heap, v, seen) && Accepts(heap, v, other)
    ensures Denote(heap, v, seen) == Denote(heap, v, other)
    decreases heap.Keys - seen
  {
    if v.Object? {
      var a, b := seen + {v.ref}, other + {v.ref};
      forall child | child in Children(heap[v.ref])
        ensures Accepts(heap, child, a) && Accepts(heap, child, b) && Denote(heap, child, a) == Denote(heap, child, b)
      {
        DenoteAnyPath(heap, child, a, b);
      }
    }
  }

  // stableJson: a TypeError for a value isJsonValue rejects, its canonical text otherwise.
  function StableJson(heap: Heap, v: Value): Option<Text> {
    if Accepts(heap, v, {}) then Some(Print(Denote(heap, v, {}))) else None
  }

  // Sharing is not a cycle: an array that holds the same array twice is a JSON value, one that
  // holds itself is not.
  lemma SharedAndCyclic()
    ensures var twice := [Some(Data(Object(1), true)), Some(Data(Object(1), true))];
            StableJson(map[0 := ArrayNode(twice, false), 1 := ArrayNode([], false)], Object(0)) ==
            Some(Print(JArr([JArr([]), JArr([])])))
    ensures StableJson(map[0 := ArrayNode([Some(Data(Object(0), true))], false)], Object(0)) == None
  {
    var slot := Some(Data(Object(1), true));
    var heap := map[0 := ArrayNode([slot, slot], false), 1 := ArrayNode([], false)];
    assert Children(heap[1]) == {};
    assert Children(heap[0]) == {Object(1)};
    assert Accepts(heap, Object(1), {0});
    assert Accepts(heap, Object(0), {});
    assert Denote(heap, Object(1), {0}) == JArr([]);
    var root: set<Ref> := {};
    assert root + {0} == {0};
    var items := Denote(heap, Object(0), {}).items;
    assert |items| == 2 && items[0] == items[1] == JArr([]);
    assert items == [JArr([]), JArr([])];
    var self := Some(Data(Object(0), true));
    var cyclic := map[0 := ArrayNode([self], false)];
    assert self in cyclic[0].slots;
    assert Object(0) in Children(cyclic[0]);
    assert !Accepts(cyclic, Object(0), {0});
  }
}
