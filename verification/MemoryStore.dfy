// MemoryStore (src/memory-store.js): the reference implementation of the read interface, and the
// specification the SQLite store is compared with.
module MemoryStore {
  import opened Wrappers
  import opened Text
  import opened Sorting
  import opened Json
  import opened JsonParser
  import opened ObjectId
  import opened Scopes
  import opened Validation
  import opened Store

  // The filters of the three discovery reads, on the object itself.
  predicate EntryMatches(scope: Scope, id: Text, v: Json) {
    var payload := PayloadOf(v);
    match scope
    case BindingScope(context, alias) =>
      TextMember(payload, TYPE) == Some(ALIAS_BIND) && TextMember(payload, CONTEXT) == Some(context) &&
      TextMember(payload, ALIAS) == Some(alias)
    case ReleaseScope(ids) =>
      TextMember(payload, TYPE) == Some(ALIAS_RELEASE) &&
      (match TextMember(payload, BINDING) case Some(binding) => binding in ids case None => false)
    case CommuneScope(context) =>
      id == context || (TextMember(payload, TYPE) == Some(COMMUNE_UPDATE) && TextMember(payload, COMMUNE) == Some(context))
  }

  // The filters, member by member: a binding of the context with the alias; a release of one of the
  // bindings; the context itself, or an update of it.
  lemma MatchesExactly(scope: Scope, id: Text, v: Json)
    ensures var payload := if v.JObj? && PAYLOAD in v.members then v.members[PAYLOAD] else JNull;
            EntryMatches(scope, id, v) <==>
            match scope
            case BindingScope(context, alias) =>
              && HasMember(payload, TYPE, JStr(ALIAS_BIND)) && HasMember(payload, CONTEXT, JStr(context))
              && HasMember(payload, ALIAS, JStr(alias))
            case ReleaseScope(ids) =>
              && HasMember(payload, TYPE, JStr(ALIAS_RELEASE))
              && exists binding | binding in ids :: HasMember(payload, BINDING, JStr(binding))
            case CommuneScope(context) =>
              id == context || (HasMember(payload, TYPE, JStr(COMMUNE_UPDATE)) && HasMember(payload, COMMUNE, JStr(context)))
  {
    hide PAYLOAD, TYPE, CONTEXT, ALIAS, BINDING, COMMUNE, ALIAS_BIND, ALIAS_RELEASE, COMMUNE_UPDATE;
  }

  function MatchingIds(records: map<Text, Json>, scope: Scope): set<Text> {
    set id | id in records && EntryMatches(scope, id, records[id])
  }

  // #all().filter(...), sorted by id.
  function Matching(records: map<Text, Json>, scope: Scope): seq<Entry> {
    Listed(records, SortedTexts(MatchingIds(records, scope)))
  }

  function Listed(records: map<Text, Json>, ids: seq<Text>): seq<Entry> {
    seq(|ids|, i requires 0 <= i < |ids| => Entry(ids[i], if ids[i] in records then records[ids[i]] else JNull))
  }

  // A list of entries in id order is determined by its entries.
  lemma SortedEntries(a: seq<Entry>, b: seq<Entry>)
    requires StrictlySorted(Ids(a)) && StrictlySorted(Ids(b)) && forall e :: e in a <==> e in b
    ensures a == b
  {
    hide TextOrder;
    forall id | id in Elements(Ids(a)) ensures id in Elements(Ids(b)) {
      SameIds(a, b, id);
    }
    forall id | id in Elements(Ids(b)) ensures id in Elements(Ids(a)) {
      SameIds(b, a, id);
    }
    SortedUnique(Ids(a), Ids(b));
    StrictlySortedDistinct(Ids(b));
    assert |a| == |Ids(a)| == |b|;
    forall i | 0 <= i < |a| ensures a[i] == b[i] {
      assert a[i] in b;
      var j :| 0 <= j < |b| && b[j] == a[i];
      assert Ids(b)[j] == Ids(a)[i] == Ids(b)[i];
    }
  }

  lemma SameIds(a: seq<Entry>, b: seq<Entry>, id: Text)
    requires id in Ids(a) && forall e | e in a :: e in b
    ensures id in Ids(b)
  {
    var i :| 0 <= i < |a| && Ids(a)[i] == id;
    assert a[i] in b;
    var j :| 0 <= j < |b| && b[j] == a[i];
    assert Ids(b)[j] == id;
  }

  // What is stored and passes the filter.
  predicate IsMatch(records: map<Text, Json>, scope: Scope, e: Entry) {
    e.objectId in records && records[e.objectId] == e.value && EntryMatches(scope, e.objectId, e.value)
  }

  lemma MatchingExactly(records: map<Text, Json>, scope: Scope)
    ensures StrictlySorted(Ids(Matching(records, scope)))
    ensures forall e :: e in Matching(records, scope) <==> IsMatch(records, scope, e)
  {
    hide EntryMatches, TextOrder;
    var ids := SortedTexts(MatchingIds(records, scope));
    assert Ids(Matching(records, scope)) == ids;
    forall e ensures e in Matching(records, scope) <==> IsMatch(records, scope, e) {
      if IsMatch(records, scope, e) {
        assert e.objectId in Elements(ids);
        var i :| 0 <= i < |ids| && ids[i] == e.objectId;
        assert Matching(records, scope)[i] == e;
      }
      if e in Matching(records, scope) {
        var i :| 0 <= i < |ids| && Matching(records, scope)[i] == e;
        assert ids[i] in Elements(ids);
      }
    }
  }

  lemma AppendById(es: seq<Entry>, e: Entry)
    requires StrictlySorted(Ids(es)) && forall x | x in es :: Before(x.objectId, e.objectId)
    ensures StrictlySorted(Ids(es + [e]))
  {
    hide TextOrder;
    var ids := Ids(es + [e]);
    forall i, j | 0 <= i < j < |ids| ensures Before(ids[i], ids[j]) {
      if j < |es| {
        assert Before(Ids(es)[i], Ids(es)[j]);
      } else {
        assert es[i] in es;
      }
    }
  }

  // The matching entries among some ids, in id order.
  ghost predicate Filtered(records: map<Text, Json>, scope: Scope, ids: seq<Text>, es: seq<Entry>) {
    StrictlySorted(Ids(es)) && forall e :: e in es <==> e.objectId in ids && IsMatch(records, scope, e)
  }

  lemma NothingFiltered(records: map<Text, Json>, scope: Scope)
    ensures Filtered(records, scope, [], [])
  {
    assert Ids([]) == [];
  }

  lemma FilterStep(records: map<Text, Json>, scope: Scope, ids: seq<Text>, i: nat, es: seq<Entry>)
    requires StrictlySorted(ids) && i < |ids| && ids[i] in records && Filtered(records, scope, ids[..i], es)
    ensures var e := Entry(ids[i], records[ids[i]]);
            Filtered(records, scope, ids[..i + 1], if EntryMatches(scope, ids[i], records[ids[i]]) then es + [e] else es)
  {
    hide EntryMatches, TextOrder;
    assert ids[..i + 1] == ids[..i] + [ids[i]];
    var e := Entry(ids[i], records[ids[i]]);
    forall x | x in es ensures Before(x.objectId, e.objectId) {
      var k :| 0 <= k < i && ids[..i][k] == x.objectId;
      assert Before(ids[k], ids[i]);
    }
    AppendById(es, e);
  }

  lemma FilteredAll(records: map<Text, Json>, scope: Scope, ids: seq<Text>, es: seq<Entry>)
    requires Filtered(records, scope, ids, es) && forall id | id in records :: id in ids
    ensures es == Matching(records, scope)
    ensures forall e :: e in es <==> IsMatch(records, scope, e)
  {
    hide EntryMatches, TextOrder, Matching;
    MatchingExactly(records, scope);
    SortedEntries(es, Matching(records, scope));
  }

  // put on a well-formed entry: None is the conflict of representations.
  function Put(records: map<Text, Json>, e: Entry): Option<map<Text, Json>> {
    if e.objectId !in records then Some(records[e.objectId := e.value])
    else if records[e.objectId] == e.value then Some(records)
    else None
  }

  class MemoryStore {
    const source: Text
    const snapshot: Option<Text>
    var records: map<Text, Json>
    var completeness: map<Discovery, bool>

    constructor (source: Text, snapshot: Option<Text>)
      ensures this.source == source && this.snapshot == snapshot
      ensures records == map[]
      ensures completeness == map[Bindings := true, Releases := true, CommuneDocuments := true]
    {
      this.source := source;
      this.snapshot := snapshot;
      records := map[];
      completeness := map[Bindings := true, Releases := true, CommuneDocuments := true];
    }

    // An entry is stored once; storing it again changes nothing, storing another representation
    // under its id fails.
    method PutEntry(entry: Json) returns (r: Result<Entry>)
      modifies this`records
      ensures match ReadEntry(entry)
              case None => r == Err(InvalidRequest) && records == old(records)
              case Some(e) =>
                match Put(old(records), e)
                case None => r == Err(StoreIntegrity) && records == old(records)
                case Some(next) => r == Ok(e) && records == next
    {
      var read := ReadEntry(entry);
      if read.None? {
        return Err(InvalidRequest);
      }
      var e := read.value;
      if e.objectId in records {
        PrintInjective(records[e.objectId], e.value);
        if Print(records[e.objectId]) != Print(e.value) {
          return Err(StoreIntegrity);
        }
        return Ok(Entry(e.objectId, records[e.objectId]));
      }
      records := records[e.objectId := e.value];
      return Ok(e);
    }

    method SetCompleteness(kind: Discovery, complete: bool)
      modifies this`completeness
      ensures completeness == old(completeness)[kind := complete]
    {
      completeness := completeness[kind := complete];
    }

    method GetObject(id: Text) returns (r: Result<Option<Entry>>)
      ensures r == if !IsCanonicalObjectId(id) then Err(InvalidRequest)
                   else if id in records then Ok(Some(Entry(id, records[id])))
                   else Ok(None)
    {
      if !IsCanonicalObjectId(id) {
        return Err(InvalidRequest);
      }
      return Ok(if id in records then Some(Entry(id, records[id])) else None);
    }

    // findAliasBindings, findAliasReleases and findCommuneDocuments on a normalised scope: all the
    // records by id, filtered.
    method Find(scope: Scope) returns (envelope: Envelope)
      ensures StrictlySorted(Ids(envelope.objects))
      ensures forall e :: e in envelope.objects <==> IsMatch(records, scope, e)
      ensures envelope.objects == Matching(records, scope)
      ensures envelope.source == source && envelope.snapshot == snapshot && envelope.scope == scope
      ensures envelope.complete <==> scope.Kind() in completeness && completeness[scope.Kind()]
    {
      hide Filtered, EntryMatches, Matching, StrictlySorted, IsMatch;
      var all := SortedTexts(records.Keys);
      assert forall id :: id in all <==> id in Elements(all);
      var objects: seq<Entry> := [];
      var i := 0;
      NothingFiltered(records, scope);
      assert all[..0] == [];
      while i < |all|
        invariant 0 <= i <= |all|
        invariant Filtered(records, scope, all[..i], objects)
      {
        FilterStep(records, scope, all, i, objects);
        if EntryMatches(scope, all[i], records[all[i]]) {
          objects := objects + [Entry(all[i], records[all[i]])];
        }
        i := i + 1;
      }
      assert all[..i] == all;
      FilteredAll(records, scope, all, objects);
      MatchingExactly(records, scope);
      var complete := scope.Kind() in completeness && completeness[scope.Kind()];
      envelope := Envelope(source, snapshot, scope, objects, complete);
    }
  }
}
