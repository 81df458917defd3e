// The normalisers of relay-contract/src/validation.js. Input that reaches them is a JSON value;
// what they return is in normal form.
module Validation {
  import opened Wrappers
  import opened Text
  import opened Sorting
  import opened Numeral
  import opened Json
  import opened JsonParser
  import opened ObjectId
  import opened Scopes
  import opened Collecting

  // ----- Candidates -----

  datatype Entry = Entry(objectId: Text, value: Json)

  const OBJECT_ID: Text := Ascii("objectId")
  const OBJECT: Text := Ascii("object")

  // normalizeCandidate, and the checks of normalizeEntry: None for anything malformed.
  function ReadEntry(v: Json): Option<Entry> {
    match IdMember(v, OBJECT_ID)
    case Some(id) => if OBJECT in v.members then Some(Entry(id, v.members[OBJECT])) else None
    case None => None
  }

  function EntryJson(e: Entry): Json {
    JObj(map[OBJECT_ID := JStr(e.objectId), OBJECT := e.value])
  }

  function EntriesJson(es: seq<Entry>): Json {
    JArr(seq(|es|, i requires 0 <= i < |es| => EntryJson(es[i])))
  }

  function EntryItem(v: Json): Option<(Text, Entry)> {
    match ReadEntry(v)
    case Some(e) => Some((e.objectId, e))
    case None => None
  }

  function EntryItems(values: seq<Json>): seq<Option<(Text, Entry)>> {
    seq(|values|, i requires 0 <= i < |values| => EntryItem(values[i]))
  }

  // normalizeCandidates as a function of its input.
  function NormalizedCandidates(values: Json): Result<seq<Entry>> {
    if !values.JArr? then
      Err(RelayProtocol)
    else
      match Collect(EntryItems(values.items))
      case Collected(table) => Ok(Listing(table))
      case _ => Err(RelayProtocol)
  }

  // A failure is final: what follows it is not looked at.
  lemma {:induction false} CollectPrefix<V>(items: seq<Option<(Text, V)>>, n: nat)
    requires n <= |items|
    ensures Collect(items[..n]).Collected? || Collect(items) == Collect(items[..n])
    decreases |items|
  {
    if n < |items| {
      var init := items[..|items| - 1];
      CollectPrefix(init, n);
      assert init[..n] == items[..n];
    } else {
      assert items[..n] == items;
    }
  }

  // One more item collected.
  lemma CollectStep<V>(items: seq<Option<(Text, V)>>, n: nat, table: map<Text, V>)
    requires n < |items| && Collect(items[..n]) == Collected(table)
    ensures Collect(items[..n + 1]) == Add(table, items[n])
    ensures Add(table, items[n]).Collected? || Collect(items) == Add(table, items[n])
  {
    assert items[..n + 1][..n] == items[..n];
    CollectPrefix(items, n + 1);
  }

  lemma EntryItemsWhole(values: seq<Json>)
    ensures |EntryItems(values)| == |values| && EntryItems(values)[..|values|] == EntryItems(values)
  {
  }

  // One turn of a loop that gathers entries: a malformed one ends it, and so does another
  // representation of an object gathered before.
  lemma EntryTurn(values: seq<Json>, n: nat, table: map<Text, Entry>)
    requires n < |values| && |EntryItems(values)| == |values|
    requires Collect(EntryItems(values)[..n]) == Collected(table) && forall id | id in table :: table[id].objectId == id
    ensures match ReadEntry(values[n])
            case None => Collect(EntryItems(values)) == Malformed
            case Some(e) =>
              if e.objectId in table && Print(table[e.objectId].value) != Print(e.value) then
                Collect(EntryItems(values)) == Conflict
              else
                Collect(EntryItems(values)[..n + 1]) == Collected(table[e.objectId := e])
  {
    hide Collect, ReadEntry, Print;
    CollectStep(EntryItems(values), n, table);
    if ReadEntry(values[n]).Some? {
      var e := ReadEntry(values[n]).value;
      if e.objectId in table {
        PrintInjective(table[e.objectId].value, e.value);
      }
    }
  }

  // The loop of normalizeCandidates, which compares representations.
  method NormalizeCandidates(values: Json) returns (r: Result<seq<Entry>>)
    ensures r == NormalizedCandidates(values)
  {
    if !values.JArr? {
      return Err(RelayProtocol);
    }
    var candidates: map<Text, Entry> := map[];
    var i := 0;
    assert EntryItems(values.items)[..0] == [];
    assert Collect(EntryItems(values.items)[..0]) == Collected(candidates);
    EntryItemsWhole(values.items);
    hide Collect, EntryItems, ReadEntry, Print, Listing;
    while i < |values.items|
      invariant 0 <= i <= |values.items|
      invariant Collect(EntryItems(values.items)[..i]) == Collected(candidates)
      invariant forall id | id in candidates :: candidates[id].objectId == id
    {
      EntryTurn(values.items, i, candidates);
      var value := ReadEntry(values.items[i]);
      if value.None? {
        return Err(RelayProtocol);
      }
      var candidate := value.value;
      if candidate.objectId in candidates {
        var previous := candidates[candidate.objectId];
        if Print(previous.value) != Print(candidate.value) {
          return Err(RelayProtocol);
        }
      }
      candidates := candidates[candidate.objectId := candidate];
      i := i + 1;
    }
    return Ok(Listing(candidates));
  }

  function Ids(es: seq<Entry>): seq<Text> {
    seq(|es|, i requires 0 <= i < |es| => es[i].objectId)
  }

  // The normal form of a list of candidates: canonical ids in strictly increasing order.
  predicate NormalEntries(es: seq<Entry>) {
    StrictlySorted(Ids(es)) && forall i | 0 <= i < |es| :: IsCanonicalObjectId(es[i].objectId)
  }

  // What a candidate needs: a canonical id and an object, of whatever kind. Other members are
  // passed over.
  lemma ReadEntryExactly(v: Json, e: Entry)
    ensures ReadEntry(v) == Some(e) <==>
            IsCanonicalObjectId(e.objectId) && HasMember(v, OBJECT_ID, JStr(e.objectId)) && HasMember(v, OBJECT, e.value)
  {
    hide IsCanonicalObjectId;
  }

  lemma ReadEntryJson(e: Entry)
    requires IsCanonicalObjectId(e.objectId)
    ensures ReadEntry(EntryJson(e)) == Some(e)
  {
    assert |OBJECT_ID| != |OBJECT|;
  }

  // The candidates by id.
  function TableOf(es: seq<Entry>): map<Text, Entry>
    requires StrictlySorted(Ids(es))
  {
    Tabulate(Ids(es), es)
  }

  lemma CollectedKeys(values: seq<Json>)
    requires Collect(EntryItems(values)).Collected?
    ensures forall id | id in Collect(EntryItems(values)).table ::
              IsCanonicalObjectId(id) && Collect(EntryItems(values)).table[id].objectId == id
  {
    var items := EntryItems(values);
    CollectExactly(items);
    var table := Collect(items).table;
    forall id | id in table ensures IsCanonicalObjectId(id) && table[id].objectId == id {
      var i :| 0 <= i < |items| && items[i] == Some((id, table[id]));
    }
  }

  lemma ListingIds(table: map<Text, Entry>)
    requires forall id | id in table :: table[id].objectId == id
    ensures Ids(Listing(table)) == SortedTexts(table.Keys)
  {
    KeysOfListing(table, (e: Entry) => e.objectId);
  }

  // What normalising returns is in normal form, ...
  lemma CandidatesNormal(values: Json)
    requires NormalizedCandidates(values).Ok?
    ensures NormalEntries(NormalizedCandidates(values).value)
  {
    var table := Collect(EntryItems(values.items)).table;
    CollectedKeys(values.items);
    ListingIds(table);
    var es, keys := Listing(table), SortedTexts(table.Keys);
    forall i | 0 <= i < |es| ensures IsCanonicalObjectId(es[i].objectId) {
      assert keys[i] in Elements(keys) && Ids(es)[i] == keys[i];
    }
  }

  // ... normalising it again changes nothing, ...
  lemma CandidatesIdempotent(es: seq<Entry>)
    requires NormalEntries(es)
    ensures NormalizedCandidates(EntriesJson(es)) == Ok(es)
  {
    var items := EntryItems(EntriesJson(es).items);
    forall i | 0 <= i < |es| ensures items[i] == Some((Ids(es)[i], es[i])) {
      ReadEntryJson(es[i]);
    }
    CollectSorted(Ids(es), es, items);
  }

  // The candidates of two lists read as the same ones. What an item holds besides its id and its
  // object, the order of the items and their repetition make no difference.
  ghost predicate SameCandidates(a: seq<Json>, b: seq<Json>) {
    forall item :: item in EntryItems(a) <==> item in EntryItems(b)
  }

  // ... lists with the same candidates have one normal form, ...
  lemma CandidatesOfSet(a: seq<Json>, b: seq<Json>)
    requires SameCandidates(a, b)
    ensures NormalizedCandidates(JArr(a)) == NormalizedCandidates(JArr(b))
  {
    hide EntryItems;
    CollectSame(EntryItems(a), EntryItems(b));
  }

  // ... and lists of valid candidates with one normal form have the same candidates, ...
  lemma SameNormalForm(a: seq<Json>, b: seq<Json>)
    requires NormalizedCandidates(JArr(a)).Ok? && NormalizedCandidates(JArr(a)) == NormalizedCandidates(JArr(b))
    ensures SameCandidates(a, b)
  {
    CollectedKeys(a);
    CollectedKeys(b);
    SameListing(Collect(EntryItems(a)).table, Collect(EntryItems(b)).table);
    CollectExactly(EntryItems(a));
    CollectExactly(EntryItems(b));
    ItemsOfTable(EntryItems(a), EntryItems(b), Collect(EntryItems(a)).table);
    ItemsOfTable(EntryItems(b), EntryItems(a), Collect(EntryItems(b)).table);
  }

  lemma ItemsOfTable(a: seq<Option<(Text, Entry)>>, b: seq<Option<(Text, Entry)>>, table: map<Text, Entry>)
    requires AllValid(a) && Holds(table, a) && Holds(table, b)
    ensures forall item | item in a :: item in b
  {
    forall item | item in a ensures item in b {
      var i :| 0 <= i < |a| && a[i] == item;
      assert item == Some((item.value.0, table[item.value.0]));
    }
  }

  lemma SameListing(s: map<Text, Entry>, t: map<Text, Entry>)
    requires forall id | id in s :: s[id].objectId == id
    requires forall id | id in t :: t[id].objectId == id
    requires Listing(s) == Listing(t)
    ensures s == t
  {
    hide TextOrder, StrictlySorted, SortedTexts;
    ListingIds(s);
    ListingIds(t);
    var keys := SortedTexts(s.Keys);
    assert Elements(keys) == s.Keys && Elements(SortedTexts(t.Keys)) == t.Keys;
    forall id | id in s ensures id in t && t[id] == s[id] {
      var i :| 0 <= i < |keys| && keys[i] == id;
      assert Listing(s)[i] == s[keys[i]] && Listing(t)[i] == t[keys[i]];
    }
  }

  predicate AllWellFormed(values: seq<Json>) {
    forall i | 0 <= i < |values| :: ReadEntry(values[i]).Some?
  }

  // No id comes with two representations.
  predicate OneRepresentation(values: seq<Json>)
    requires AllWellFormed(values)
  {
    forall i, j | 0 <= i < j < |values| ::
      var a, b := ReadEntry(values[i]).value, ReadEntry(values[j]).value;
      a.objectId == b.objectId ==> Print(a.value) == Print(b.value)
  }

  lemma ItemsConsistent(values: seq<Json>)
    requires AllWellFormed(values)
    ensures AllValid(EntryItems(values))
    ensures Consistent(EntryItems(values)) <==> OneRepresentation(values)
  {
    var items := EntryItems(values);
    forall i, j | 0 <= i < j < |values|
      ensures items[i] == items[j] <==>
              (ReadEntry(values[i]).value.objectId == ReadEntry(values[j]).value.objectId &&
               Print(ReadEntry(values[i]).value.value) == Print(ReadEntry(values[j]).value.value))
    {
      PrintInjective(ReadEntry(values[i]).value.value, ReadEntry(values[j]).value.value);
    }
    if Consistent(items) {
      forall i, j | 0 <= i < j < |values| && ReadEntry(values[i]).value.objectId == ReadEntry(values[j]).value.objectId
        ensures Print(ReadEntry(values[i]).value.value) == Print(ReadEntry(values[j]).value.value)
      {
        assert items[i].value.0 == items[j].value.0;
      }
    }
    if OneRepresentation(values) {
      forall i, j | 0 <= i < j < |items| && items[i].value.0 == items[j].value.0 ensures items[i] == items[j] {
        assert ReadEntry(values[i]).value.objectId == ReadEntry(values[j]).value.objectId;
      }
    }
  }

  // ... and normalising succeeds exactly when every candidate is well-formed and no id comes with
  // two representations.
  lemma CandidatesAccepted(values: seq<Json>)
    ensures NormalizedCandidates(JArr(values)).Ok? <==> AllWellFormed(values) && OneRepresentation(values)
  {
    var items := EntryItems(values);
    CollectExactly(items);
    if AllWellFormed(values) {
      ItemsConsistent(values);
    } else {
      var i :| 0 <= i < |values| && ReadEntry(values[i]).None?;
      assert items[i].None?;
    }
  }

  // The normal form holds exactly the candidates read.
  lemma CandidatesHeld(values: seq<Json>)
    requires NormalizedCandidates(JArr(values)).Ok?
    ensures forall e :: e in NormalizedCandidates(JArr(values)).value <==>
              exists i :: 0 <= i < |values| && ReadEntry(values[i]) == Some(e)
  {
    hide Collect, Listing, ReadEntry;
    var items, es := EntryItems(values), NormalizedCandidates(JArr(values)).value;
    CollectedValues(items);
    forall e | e in es ensures exists i :: 0 <= i < |values| && ReadEntry(values[i]) == Some(e) {
      var i :| 0 <= i < |items| && items[i].Some? && items[i].value.1 == e;
      assert ReadEntry(values[i]) == Some(e);
    }
    forall e, i | 0 <= i < |values| && ReadEntry(values[i]) == Some(e) ensures e in es {
      assert items[i].Some? && items[i].value.1 == e;
    }
  }

  // ----- Coverage -----

  datatype Coverage = Coverage(scope: Scope, complete: bool)

  const METHOD: Text := Ascii("method")
  const SCOPE: Text := Ascii("scope")
  const COMPLETE: Text := Ascii("complete")

  // normalizeCoverageEntry: None for anything malformed.
  function ReadCoverage(v: Json): Option<Coverage> {
    match TextMember(v, METHOD)
    case None => None
    case Some(name) =>
      match MethodOf(name)
      case None => None
      case Some(kind) =>
        if COMPLETE in v.members && v.members[COMPLETE].JBool? && SCOPE in v.members then
          match ReadScope(kind, v.members[SCOPE])
          case Some(scope) => Some(Coverage(scope, v.members[COMPLETE].flag))
          case None => None
        else
          None
  }

  function CoverageEntryJson(c: Coverage): Json {
    JObj(map[METHOD := JStr(MethodName(c.scope.Kind())), SCOPE := ScopeJson(c.scope), COMPLETE := JBool(c.complete)])
  }

  function CoverageJson(cs: seq<Coverage>): Json {
    JArr(seq(|cs|, i requires 0 <= i < |cs| => CoverageEntryJson(cs[i])))
  }

  function CoverageItem(v: Json): Option<(Text, Coverage)> {
    match ReadCoverage(v)
    case Some(c) => Some((CoverageKey(c.scope), c))
    case None => None
  }

  function CoverageItems(values: seq<Json>): seq<Option<(Text, Coverage)>> {
    seq(|values|, i requires 0 <= i < |values| => CoverageItem(values[i]))
  }

  // normalizeCoverage as a function of its input.
  function NormalizedCoverage(values: Json): Result<seq<Coverage>> {
    if !values.JArr? then
      Err(RelayProtocol)
    else
      match Collect(CoverageItems(values.items))
      case Collected(table) => Ok(Listing(table))
      case _ => Err(RelayProtocol)
  }

  predicate KeyedByScope(table: map<Text, Coverage>) {
    forall key | key in table :: CoverageKey(table[key].scope) == key
  }

  lemma SameKeySameScope(table: map<Text, Coverage>, c: Coverage)
    requires KeyedByScope(table)
    ensures KeyedByScope(table[CoverageKey(c.scope) := c])
    ensures CoverageKey(c.scope) in table ==>
              (table[CoverageKey(c.scope)] == c <==> table[CoverageKey(c.scope)].complete == c.complete)
  {
    if CoverageKey(c.scope) in table {
      CoverageKeyInjective(table[CoverageKey(c.scope)].scope, c.scope);
    }
  }

  // One turn of the loop: an entry that is malformed, or differs in its flag, ends it.
  lemma CoverageTurn(values: seq<Json>, n: nat, table: map<Text, Coverage>)
    requires n < |values| && KeyedByScope(table)
    requires |CoverageItems(values)| == |values| && Collect(CoverageItems(values)[..n]) == Collected(table)
    ensures match ReadCoverage(values[n])
            case None => NormalizedCoverage(JArr(values)) == Err(RelayProtocol)
            case Some(c) =>
              var key := CoverageKey(c.scope);
              if key in table && table[key].complete != c.complete then NormalizedCoverage(JArr(values)) == Err(RelayProtocol)
              else Collect(CoverageItems(values)[..n + 1]) == Collected(table[key := c]) && KeyedByScope(table[key := c])
  {
    hide Collect, ReadCoverage, CoverageKey, KeyedByScope, Listing;
    CollectStep(CoverageItems(values), n, table);
    if ReadCoverage(values[n]).Some? {
      SameKeySameScope(table, ReadCoverage(values[n]).value);
    }
  }

  lemma AllCoverage(values: seq<Json>, table: map<Text, Coverage>)
    requires |CoverageItems(values)| == |values| && Collect(CoverageItems(values)[..|values|]) == Collected(table)
    ensures NormalizedCoverage(JArr(values)) == Ok(Listing(table))
  {
    hide Collect, CoverageItems, Listing;
    assert CoverageItems(values)[..|values|] == CoverageItems(values);
  }

  // The loop of normalizeCoverage, which compares the flags of entries with one key.
  method NormalizeCoverage(values: Json) returns (r: Result<seq<Coverage>>)
    ensures r == NormalizedCoverage(values)
  {
    if !values.JArr? {
      return Err(RelayProtocol);
    }
    var coverage: map<Text, Coverage> := map[];
    var i := 0;
    assert CoverageItems(values.items)[..0] == [];
    assert Collect(CoverageItems(values.items)[..0]) == Collected(coverage) && KeyedByScope(coverage);
    hide Collect, CoverageItems, ReadCoverage, CoverageKey, KeyedByScope, NormalizedCoverage, Listing;
    while i < |values.items|
      invariant 0 <= i <= |values.items|
      invariant |CoverageItems(values.items)| == |values.items|
      invariant Collect(CoverageItems(values.items)[..i]) == Collected(coverage)
      invariant KeyedByScope(coverage)
    {
      CoverageTurn(values.items, i, coverage);
      var value := ReadCoverage(values.items[i]);
      if value.None? {
        return Err(RelayProtocol);
      }
      var normalized := value.value;
      var key := CoverageKey(normalized.scope);
      if key in coverage {
        if coverage[key].complete != normalized.complete {
          return Err(RelayProtocol);
        }
      }
      coverage := coverage[key := normalized];
      i := i + 1;
    }
    AllCoverage(values.items, coverage);
    return Ok(Listing(coverage));
  }

  function CoverageKeys(cs: seq<Coverage>): seq<Text> {
    seq(|cs|, i requires 0 <= i < |cs| => CoverageKey(cs[i].scope))
  }

  // The normal form of a coverage list: normal scopes, in strictly increasing order of their keys.
  predicate NormalCoverage(cs: seq<Coverage>) {
    StrictlySorted(CoverageKeys(cs)) && forall i | 0 <= i < |cs| :: IsNormal(cs[i].scope)
  }

  lemma CoverageKeyNamesDiffer()
    ensures METHOD != SCOPE && METHOD != COMPLETE && SCOPE != COMPLETE
  {
    assert |METHOD| == 6 && |SCOPE| == 5 && |COMPLETE| == 8;
  }

  lemma MethodRoundTrip(kind: Discovery)
    ensures MethodOf(MethodName(kind)) == Some(kind)
  {
    assert |BINDINGS| == 8 && |RELEASES| == 8 && |COMMUNE_DOCUMENTS| == 16;
    assert BINDINGS[0] != RELEASES[0];
  }

  // What a coverage entry needs: the name of a method, a scope of that method, and a flag.
  lemma ReadCoverageExactly(v: Json, c: Coverage)
    ensures ReadCoverage(v) == Some(c) <==>
            && HasMember(v, METHOD, JStr(MethodName(c.scope.Kind()))) && HasMember(v, COMPLETE, JBool(c.complete))
            && SCOPE in v.members && ReadScope(c.scope.Kind(), v.members[SCOPE]) == Some(c.scope)
  {
    hide ReadScope, METHOD, SCOPE, COMPLETE, MethodName, MethodOf;
    var name := TextMember(v, METHOD);
    MethodRoundTrip(c.scope.Kind());
    if name.Some? && MethodOf(name.value).Some? {
      MethodNamed(name.value);
      if SCOPE in v.members && ReadScope(MethodOf(name.value).value, v.members[SCOPE]).Some? {
        ReadScopeNormal(MethodOf(name.value).value, v.members[SCOPE]);
      }
    }
  }

  lemma MethodNamed(name: Text)
    ensures MethodOf(name).Some? ==> MethodName(MethodOf(name).value) == name
  {
    hide BINDINGS, RELEASES, COMMUNE_DOCUMENTS;
  }

  lemma ReadCoverageJson(c: Coverage)
    requires IsNormal(c.scope)
    ensures ReadCoverage(CoverageEntryJson(c)) == Some(c)
  {
    hide IsNormal, ReadScope, ScopeJson, MethodName, MethodOf, METHOD, SCOPE, COMPLETE;
    CoverageKeyNamesDiffer();
    MethodRoundTrip(c.scope.Kind());
    ReadScopeJson(c.scope);
  }

  lemma ReadCoverageNormal(v: Json)
    requires ReadCoverage(v).Some?
    ensures IsNormal(ReadCoverage(v).value.scope)
  {
    ReadScopeNormal(MethodOf(v.members[METHOD].text).value, v.members[SCOPE]);
  }

  lemma CoverageListingKeys(table: map<Text, Coverage>)
    requires KeyedByScope(table)
    ensures CoverageKeys(Listing(table)) == SortedTexts(table.Keys)
  {
    KeysOfListing(table, (c: Coverage) => CoverageKey(c.scope));
  }

  lemma CollectedCoverage(values: seq<Json>)
    requires Collect(CoverageItems(values)).Collected?
    ensures KeyedByScope(Collect(CoverageItems(values)).table)
    ensures forall key | key in Collect(CoverageItems(values)).table ::
              IsNormal(Collect(CoverageItems(values)).table[key].scope)
  {
    var items := CoverageItems(values);
    CollectExactly(items);
    var table := Collect(items).table;
    forall key | key in table ensures CoverageKey(table[key].scope) == key && IsNormal(table[key].scope) {
      var i :| 0 <= i < |items| && items[i] == Some((key, table[key]));
      ReadCoverageNormal(values[i]);
    }
  }

  // Normalised coverage is in normal form, ...
  lemma CoverageNormal(values: Json)
    requires NormalizedCoverage(values).Ok?
    ensures NormalCoverage(NormalizedCoverage(values).value)
  {
    hide CoverageItems, CoverageKey, IsNormal, StrictlySorted;
    var table := Collect(CoverageItems(values.items)).table;
    CollectedCoverage(values.items);
    CoverageListingKeys(table);
    var cs, keys := Listing(table), SortedTexts(table.Keys);
    forall i | 0 <= i < |cs| ensures IsNormal(cs[i].scope) {
      assert keys[i] in Elements(keys);
    }
  }

  // ... holds exactly the declarations read, ...
  lemma CoverageHeld(values: seq<Json>)
    requires NormalizedCoverage(JArr(values)).Ok?
    ensures forall c :: c in NormalizedCoverage(JArr(values)).value <==>
              exists i :: 0 <= i < |values| && ReadCoverage(values[i]) == Some(c)
  {
    hide Collect, Listing, ReadCoverage, CoverageKey;
    var items, cs := CoverageItems(values), NormalizedCoverage(JArr(values)).value;
    CollectedValues(items);
    forall c | c in cs ensures exists i :: 0 <= i < |values| && ReadCoverage(values[i]) == Some(c) {
      var i :| 0 <= i < |items| && items[i].Some? && items[i].value.1 == c;
      assert ReadCoverage(values[i]) == Some(c);
    }
    forall c, i | 0 <= i < |values| && ReadCoverage(values[i]) == Some(c) ensures c in cs {
      assert items[i].Some? && items[i].value.1 == c;
    }
  }

  // Well-formed entries, and no scope declared both complete and incomplete.
  predicate Declarable(values: seq<Json>) {
    && (forall i | 0 <= i < |values| :: ReadCoverage(values[i]).Some?)
    && (forall i, j | 0 <= i < j < |values| ::
          ReadCoverage(values[i]).Some? && ReadCoverage(values[j]).Some? &&
          ReadCoverage(values[i]).value.scope == ReadCoverage(values[j]).value.scope ==>
            ReadCoverage(values[i]) == ReadCoverage(values[j]))
  }

  // ... and there is one exactly for a list of such entries; ...
  lemma CoverageAccepted(values: seq<Json>)
    ensures NormalizedCoverage(JArr(values)).Ok? <==> Declarable(values)
  {
    hide Collect, Listing, ReadCoverage, CoverageKey;
    var items := CoverageItems(values);
    CollectExactly(items);
    forall i | 0 <= i < |values| ensures items[i].Some? <==> ReadCoverage(values[i]).Some? {
    }
    forall i, j | 0 <= i < j < |values| && items[i].Some? && items[j].Some?
      ensures items[i].value.0 == items[j].value.0 <==>
              ReadCoverage(values[i]).value.scope == ReadCoverage(values[j]).value.scope
      ensures items[i] == items[j] <==> ReadCoverage(values[i]) == ReadCoverage(values[j])
    {
      CoverageKeyInjective(ReadCoverage(values[i]).value.scope, ReadCoverage(values[j]).value.scope);
    }
  }

  // ... normalising it again changes nothing, ...
  lemma CoverageIdempotent(cs: seq<Coverage>)
    requires NormalCoverage(cs)
    ensures NormalizedCoverage(CoverageJson(cs)) == Ok(cs)
  {
    var items := CoverageItems(CoverageJson(cs).items);
    forall i | 0 <= i < |cs| ensures items[i] == Some((CoverageKeys(cs)[i], cs[i])) {
      ReadCoverageJson(cs[i]);
    }
    CollectSorted(CoverageKeys(cs), cs, items);
  }

  // The declarations of two lists read as the same ones: entries whose scopes differ only in the
  // order or repetition of binding ids, or in members that are not read, are equal here.
  ghost predicate SameDeclarations(a: seq<Json>, b: seq<Json>) {
    forall item :: item in CoverageItems(a) <==> item in CoverageItems(b)
  }

  // ... and lists with the same declarations have one normal form.
  lemma CoverageOfSet(a: seq<Json>, b: seq<Json>)
    requires SameDeclarations(a, b)
    ensures NormalizedCoverage(JArr(a)) == NormalizedCoverage(JArr(b))
  {
    hide CoverageItems;
    CollectSame(CoverageItems(a), CoverageItems(b));
  }

  // Such an entry: the same release scope with its ids listed differently.
  lemma SameReleaseDeclaration(a: seq<Json>, b: seq<Json>, complete: bool)
    requires forall item :: item in a <==> item in b
    ensures CoverageItem(ReleaseDeclaration(a, complete)) == CoverageItem(ReleaseDeclaration(b, complete))
  {
    CoverageKeyNamesDiffer();
    MethodRoundTrip(Releases);
    ReleaseScopeOfSet(a, b);
    hide ReadScope, CoverageKey, MethodOf, METHOD, SCOPE, COMPLETE, BINDING_IDS;
    ReleaseDeclarationReads(a, complete);
    ReleaseDeclarationReads(b, complete);
  }

  lemma ReleaseDeclarationReads(ids: seq<Json>, complete: bool)
    ensures ReadCoverage(ReleaseDeclaration(ids, complete)) ==
            match ReadScope(Releases, JObj(map[BINDING_IDS := JArr(ids)]))
            case Some(scope) => Some(Coverage(scope, complete))
            case None => None
  {
    CoverageKeyNamesDiffer();
    MethodRoundTrip(Releases);
    hide ReadScope, MethodOf, METHOD, SCOPE, COMPLETE, BINDING_IDS;
    var v := ReleaseDeclaration(ids, complete);
    assert TextMember(v, METHOD) == Some(RELEASES);
  }

  function ReleaseDeclaration(ids: seq<Json>, complete: bool): Json {
    JObj(map[
      METHOD := JStr(RELEASES),
      SCOPE := JObj(map[BINDING_IDS := JArr(ids)]),
      COMPLETE := JBool(complete)])
  }

  // ----- Store exports -----

  type SafeRevision = n: int | 0 <= n <= MAX_SAFE

  datatype StoreExport = StoreExport(
    source: Text, snapshot: Option<Text>, dataRevision: SafeRevision, entries: seq<Entry>, coverage: seq<Coverage>)

  const STORE_EXPORT_VERSION: Text := Ascii("fns.store-export.v1")

  const VERSION: Text := Ascii("version")
  const SOURCE: Text := Ascii("source")
  const SNAPSHOT: Text := Ascii("snapshot")
  const DATA_REVISION: Text := Ascii("dataRevision")
  const ENTRIES: Text := Ascii("entries")
  const COVERAGE: Text := Ascii("coverage")

  // A member that may be null or a string: None for anything else.
  function NullableText(v: Json): Option<Option<Text>> {
    if v.JNull? then Some(None) else if v.JStr? then Some(Some(v.text)) else None
  }

  // Number.isSafeInteger and not negative.
  function Revision(v: Json): Option<SafeRevision> {
    if !v.JNum? then None
    else
      match SafeInteger(v.numeral)
      case Some(n) => if n >= 0 then Some(n) else None
      case None => None
  }

  function NormalizeStoreExport(v: Json): Result<StoreExport> {
    if TextMember(v, VERSION) != Some(STORE_EXPORT_VERSION) then Err(RelayProtocol)
    else if TextMember(v, SOURCE).None? || SNAPSHOT !in v.members || DATA_REVISION !in v.members then Err(RelayProtocol)
    else if ENTRIES !in v.members || COVERAGE !in v.members then Err(RelayProtocol)
    else
      var snapshot, revision := NullableText(v.members[SNAPSHOT]), Revision(v.members[DATA_REVISION]);
      var entries, coverage := NormalizedCandidates(v.members[ENTRIES]), NormalizedCoverage(v.members[COVERAGE]);
      if snapshot.None? || revision.None? || entries.Err? || coverage.Err? then Err(RelayProtocol)
      else Ok(StoreExport(v.members[SOURCE].text, snapshot.value, revision.value, entries.value, coverage.value))
  }

  predicate NormalExport(x: StoreExport) {
    NormalEntries(x.entries) && NormalCoverage(x.coverage)
  }

  function NullableJson(t: Option<Text>): Json {
    match t case Some(text) => JStr(text) case None => JNull
  }

  function StoreExportJson(x: StoreExport): Json {
    JObj(map[
      VERSION := JStr(STORE_EXPORT_VERSION),
      SOURCE := JStr(x.source),
      SNAPSHOT := NullableJson(x.snapshot),
      DATA_REVISION := JNum(IntegralNumeral(x.dataRevision)),
      ENTRIES := EntriesJson(x.entries),
      COVERAGE := CoverageJson(x.coverage)])
  }

  lemma ExportKeysDiffer()
    ensures VERSION != SOURCE && VERSION != SNAPSHOT && VERSION != DATA_REVISION && VERSION != ENTRIES && VERSION != COVERAGE
    ensures SOURCE != SNAPSHOT && SOURCE != DATA_REVISION && SOURCE != ENTRIES && SOURCE != COVERAGE
    ensures SNAPSHOT != DATA_REVISION && SNAPSHOT != ENTRIES && SNAPSHOT != COVERAGE
    ensures DATA_REVISION != ENTRIES && DATA_REVISION != COVERAGE && ENTRIES != COVERAGE
  {
    assert |VERSION| == 7 && |SOURCE| == 6 && |SNAPSHOT| == 8 && |DATA_REVISION| == 12 && |ENTRIES| == 7 && |COVERAGE| == 8;
    assert VERSION[0] != ENTRIES[0] && SNAPSHOT[0] != COVERAGE[0];
  }

  // A normalised export is normal, ...
  lemma ExportNormal(v: Json)
    requires NormalizeStoreExport(v).Ok?
    ensures NormalExport(NormalizeStoreExport(v).value)
  {
    CandidatesNormal(v.members[ENTRIES]);
    CoverageNormal(v.members[COVERAGE]);
  }

  lemma ExportMembers(x: StoreExport)
    ensures var members := StoreExportJson(x).members;
            && members.Keys == {VERSION, SOURCE, SNAPSHOT, DATA_REVISION, ENTRIES, COVERAGE}
            && members[VERSION] == JStr(STORE_EXPORT_VERSION) && members[SOURCE] == JStr(x.source)
            && members[SNAPSHOT] == NullableJson(x.snapshot)
            && members[DATA_REVISION] == JNum(IntegralNumeral(x.dataRevision))
            && members[ENTRIES] == EntriesJson(x.entries) && members[COVERAGE] == CoverageJson(x.coverage)
  {
    ExportKeysDiffer();
  }

  // The normaliser, one member at a time.
  lemma NormalizeMembers(v: Json, x: StoreExport)
    requires v.JObj? && TextMember(v, VERSION) == Some(STORE_EXPORT_VERSION) && TextMember(v, SOURCE) == Some(x.source)
    requires SNAPSHOT in v.members && NullableText(v.members[SNAPSHOT]) == Some(x.snapshot)
    requires DATA_REVISION in v.members && Revision(v.members[DATA_REVISION]) == Some(x.dataRevision)
    requires ENTRIES in v.members && NormalizedCandidates(v.members[ENTRIES]) == Ok(x.entries)
    requires COVERAGE in v.members && NormalizedCoverage(v.members[COVERAGE]) == Ok(x.coverage)
    ensures NormalizeStoreExport(v) == Ok(x)
  {
    hide NullableText, Revision, NormalizedCandidates, NormalizedCoverage, STORE_EXPORT_VERSION, VERSION, SOURCE,
         SNAPSHOT, DATA_REVISION, ENTRIES, COVERAGE;
  }

  // What a store export needs, member by member: this version, a source, a snapshot that is a string
  // or null, a safe revision that is not negative, and lists of candidates and coverage that
  // normalise.
  lemma NormalizeExactly(v: Json, x: StoreExport)
    ensures NormalizeStoreExport(v) == Ok(x) <==>
            && HasMember(v, VERSION, JStr(STORE_EXPORT_VERSION)) && HasMember(v, SOURCE, JStr(x.source))
            && HasMember(v, SNAPSHOT, NullableJson(x.snapshot))
            && HasMember(v, DATA_REVISION, JNum(IntegralNumeral(x.dataRevision)))
            && ENTRIES in v.members && NormalizedCandidates(v.members[ENTRIES]) == Ok(x.entries)
            && COVERAGE in v.members && NormalizedCoverage(v.members[COVERAGE]) == Ok(x.coverage)
    ensures NormalizeStoreExport(v).Err? ==> NormalizeStoreExport(v) == Err(RelayProtocol)
  {
    hide NormalizedCandidates, NormalizedCoverage, STORE_EXPORT_VERSION, VERSION, SOURCE, SNAPSHOT, DATA_REVISION,
         ENTRIES, COVERAGE, Revision, IntegralNumeral;
    if v.JObj? && DATA_REVISION in v.members {
      RevisionExactly(v.members[DATA_REVISION], x.dataRevision);
    }
  }

  lemma RevisionExactly(v: Json, n: SafeRevision)
    ensures Revision(v) == Some(n) <==> v == JNum(IntegralNumeral(n))
  {
    RevisionRoundTrip(n);
  }

  // What the normaliser finds in the value of an export.
  lemma ExportFields(x: StoreExport)
    ensures var v := StoreExportJson(x);
            && v.JObj? && TextMember(v, VERSION) == Some(STORE_EXPORT_VERSION) && TextMember(v, SOURCE) == Some(x.source)
            && SNAPSHOT in v.members && NullableText(v.members[SNAPSHOT]) == Some(x.snapshot)
            && DATA_REVISION in v.members && v.members[DATA_REVISION] == JNum(IntegralNumeral(x.dataRevision))
            && ENTRIES in v.members && v.members[ENTRIES] == EntriesJson(x.entries)
            && COVERAGE in v.members && v.members[COVERAGE] == CoverageJson(x.coverage)
  {
    ExportMembers(x);
    hide EntriesJson, CoverageJson, IntegralNumeral, STORE_EXPORT_VERSION, VERSION, SOURCE, SNAPSHOT, DATA_REVISION,
         ENTRIES, COVERAGE;
  }

  lemma RevisionRoundTrip(n: SafeRevision)
    ensures Revision(JNum(IntegralNumeral(n))) == Some(n)
  {
    hide SafeInteger, Integral;
    IntegralRoundTrip(n);
  }

  // ... and normalising it again gives it back.
  lemma ExportIdempotent(x: StoreExport)
    requires NormalExport(x)
    ensures NormalizeStoreExport(StoreExportJson(x)) == Ok(x)
  {
    hide StoreExportJson, NormalizedCandidates, NormalizedCoverage, EntriesJson, CoverageJson, NormalEntries,
         NormalCoverage, STORE_EXPORT_VERSION, VERSION, SOURCE, SNAPSHOT, DATA_REVISION, ENTRIES, COVERAGE,
         IntegralNumeral, Revision, NormalizeStoreExport, TextMember, NullableText, NullableJson;
    ExportFields(x);
    RevisionRoundTrip(x.dataRevision);
    CandidatesIdempotent(x.entries);
    CoverageIdempotent(x.coverage);
    NormalizeMembers(StoreExportJson(x), x);
  }
}
