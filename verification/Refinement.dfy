// The indexed, chunked reads of the SQLite store against the filters of the memory store over the
// same objects.
module Refinement {
  import opened Wrappers
  import opened Text
  import opened Utf8
  import opened Sorting
  import opened Json
  import opened ObjectId
  import opened Scopes
  import opened Validation
  import opened Store
  import opened MemoryStore

  // ----- The columns select what the filters select -----

  // Plain text that something becomes in a column was that text before.
  lemma PlainSurvives(t: Text, plain: Text)
    requires forall i | 0 <= i < |plain| :: plain[i] < 0x80
    ensures Bound(t) == plain <==> t == plain
  {
    NoSurrogatesWellFormed(plain);
    SurvivesUtf8(plain);
    SurvivesUtf8(t);
    if Bound(t) == plain {
      assert forall i | 0 <= i < |t| :: t[i] == plain[i];
    }
  }

  lemma TypesArePlain()
    ensures forall i | 0 <= i < |ALIAS_BIND| :: ALIAS_BIND[i] < 0x80
    ensures forall i | 0 <= i < |ALIAS_RELEASE| :: ALIAS_RELEASE[i] < 0x80
    ensures forall i | 0 <= i < |COMMUNE_UPDATE| :: COMMUNE_UPDATE[i] < 0x80
    ensures ALIAS_BIND != ALIAS_RELEASE && ALIAS_BIND != COMMUNE_UPDATE && ALIAS_RELEASE != COMMUNE_UPDATE
  {
    assert |ALIAS_BIND| == 14 && |ALIAS_RELEASE| == 17 && |COMMUNE_UPDATE| == 18;
  }

  lemma OptionSurvives(t: Option<Text>, plain: Text)
    requires forall i | 0 <= i < |plain| :: plain[i] < 0x80
    ensures BoundOption(t) == Some(plain) <==> t == Some(plain)
  {
    if t.Some? {
      PlainSurvives(t.value, plain);
    }
  }

  lemma CanonicalIsPlain(id: Text)
    requires IsCanonicalObjectId(id)
    ensures forall i | 0 <= i < |id| :: id[i] < 0x80
    ensures Bound(id) == id
  {
    CanonicalIsAscii(id);
    SurvivesUtf8(id);
    assert forall i | 0 <= i < |id| :: id[i] in id;
  }

  // A binding whose alias agrees with the one asked for once both are UTF-8.
  predicate AliasAgrees(context: Text, alias: Text, v: Json) {
    var payload := PayloadOf(v);
    TextMember(payload, TYPE) == Some(ALIAS_BIND) && TextMember(payload, CONTEXT) == Some(context) &&
    TextMember(payload, ALIAS).Some? && Bound(TextMember(payload, ALIAS).value) == Bound(alias)
  }

  lemma BindingRowMatches(scope: Scope, id: Text, v: Json)
    requires IsNormal(scope) && scope.BindingScope?
    ensures RowMatches(scope, id, RowOf(v)) <==> AliasAgrees(scope.context, scope.alias, v)
  {
    hide Print, IsCanonicalObjectId, ToWellFormed, Ascii;
    TypesArePlain();
    CanonicalIsPlain(scope.context);
    var x := DeriveIndexes(v);
    OptionSurvives(x.payloadType, ALIAS_BIND);
    OptionSurvives(x.bindContext, scope.context);
  }

  lemma ReleaseRowMatches(scope: Scope, id: Text, v: Json)
    requires IsNormal(scope) && scope.ReleaseScope?
    ensures RowMatches(scope, id, RowOf(v)) <==> EntryMatches(scope, id, v)
  {
    hide Print, IsCanonicalObjectId, ToWellFormed, Ascii;
    TypesArePlain();
    var x := DeriveIndexes(v);
    OptionSurvives(x.payloadType, ALIAS_RELEASE);
    if x.releaseBinding.Some? {
      var binding := x.releaseBinding.value;
      if Bound(binding) in scope.bindingIds {
        CanonicalIsPlain(Bound(binding));
        PlainSurvives(binding, Bound(binding));
      }
      if binding in scope.bindingIds {
        CanonicalIsPlain(binding);
      }
    }
  }

  lemma CommuneRowMatches(scope: Scope, id: Text, v: Json)
    requires IsNormal(scope) && scope.CommuneScope?
    ensures RowMatches(scope, id, RowOf(v)) <==> EntryMatches(scope, id, v)
  {
    hide Print, IsCanonicalObjectId, ToWellFormed, Ascii;
    TypesArePlain();
    CanonicalIsPlain(scope.context);
    var x := DeriveIndexes(v);
    OptionSurvives(x.payloadType, COMMUNE_UPDATE);
    OptionSurvives(x.communeContext, scope.context);
  }

  lemma MatchingRowMatches(scope: Scope, id: Text, v: Json)
    requires IsNormal(scope) && EntryMatches(scope, id, v)
    ensures RowMatches(scope, id, RowOf(v))
  {
    match scope
    case BindingScope(_, _) => BindingRowMatches(scope, id, v);
    case ReleaseScope(_) => ReleaseRowMatches(scope, id, v);
    case CommuneScope(_) => CommuneRowMatches(scope, id, v);
  }

  // ----- Parsing rows -----

  lemma ValidRowParses(db: Database, id: Text)
    requires Valid(db) && id in db.objects
    ensures db.objects[id] == RowOf(Contents(db)[id])
    ensures ParseStoredEntry(id, db.objects[id]) ==
            if Indexable(Contents(db)[id]) then Ok(Entry(id, Contents(db)[id])) else Err(StoreIntegrity)
  {
    ParseRowOf(id, Contents(db)[id]);
  }

  predicate AllIndexable(records: map<Text, Json>, ids: seq<Text>) {
    forall id | id in ids && id in records :: Indexable(records[id])
  }

  // Rows parse exactly when all of them are indexable, and then to the stored objects.
  lemma {:induction false} ParseRowsExactly(db: Database, ids: seq<Text>)
    requires Valid(db) && forall id | id in ids :: id in db.objects
    ensures ParseRows(db, ids) == if AllIndexable(Contents(db), ids) then Ok(Listed(Contents(db), ids)) else Err(StoreIntegrity)
  {
    hide Valid, Contents, ParseStoredEntry, Indexable, RowOf;
    if ids == [] {
      assert Listed(Contents(db), ids) == [];
    } else {
      assert ids[0] in ids;
      ValidRowParses(db, ids[0]);
      ParseRowsExactly(db, ids[1..]);
      assert ids == [ids[0]] + ids[1..];
      ContentsKeys(db);
      assert Listed(Contents(db), ids) == [Entry(ids[0], Contents(db)[ids[0]])] + Listed(Contents(db), ids[1..]);
    }
  }

  lemma ContentsKeys(db: Database)
    ensures Contents(db).Keys == db.objects.Keys
  {
  }

  // ----- Sorting by id -----

  lemma {:induction false} InsertByIdSorted(e: Entry, sorted: seq<Entry>)
    requires StrictlySorted(Ids(sorted)) && forall i | 0 <= i < |sorted| :: sorted[i].objectId != e.objectId
    ensures StrictlySorted(Ids(InsertById(e, sorted)))
    ensures forall x :: x in InsertById(e, sorted) <==> x == e || x in sorted
  {
    hide TextOrder;
    var r := InsertById(e, sorted);
    if sorted == [] {
    } else if Before(e.objectId, sorted[0].objectId) {
      forall i | 0 <= i < |sorted| ensures Before(e.objectId, sorted[i].objectId) {
        if i > 0 {
          assert Before(Ids(sorted)[0], Ids(sorted)[i]);
          TextOrderTransitive(e.objectId, sorted[0].objectId, sorted[i].objectId);
        }
      }
      forall i, j | 0 <= i < j < |r| ensures Before(Ids(r)[i], Ids(r)[j]) {
        if i > 0 {
          assert Before(Ids(sorted)[i - 1], Ids(sorted)[j - 1]);
        }
      }
    } else {
      var rest := sorted[1..];
      forall i, j | 0 <= i < j < |rest| ensures Before(Ids(rest)[i], Ids(rest)[j]) {
        assert Before(Ids(sorted)[i + 1], Ids(sorted)[j + 1]);
      }
      InsertByIdSorted(e, rest);
      TextOrderTotal(e.objectId, sorted[0].objectId);
      var tail := InsertById(e, rest);
      forall j | 0 <= j < |tail| ensures Before(sorted[0].objectId, tail[j].objectId) {
        if tail[j] != e {
          assert tail[j] in rest;
          var k :| 0 <= k < |rest| && rest[k] == tail[j];
          assert Before(Ids(sorted)[0], Ids(sorted)[k + 1]);
        } else {
          TextOrderTotal(e.objectId, sorted[0].objectId);
        }
      }
      forall i, j | 0 <= i < j < |r| ensures Before(Ids(r)[i], Ids(r)[j]) {
        if i > 0 {
          assert Before(Ids(tail)[i - 1], Ids(tail)[j - 1]);
        }
      }
    }
  }

  predicate Distinct(ids: seq<Text>) {
    forall i, j | 0 <= i < j < |ids| :: ids[i] != ids[j]
  }

  lemma {:induction false} SortByIdSorted(es: seq<Entry>)
    requires Distinct(Ids(es))
    ensures StrictlySorted(Ids(SortById(es)))
    ensures forall x :: x in SortById(es) <==> x in es
  {
    if es != [] {
      var init, last := es[..|es| - 1], es[|es| - 1];
      assert Ids(init) == Ids(es)[..|es| - 1];
      SortByIdSorted(init);
      assert es == init + [last];
      forall i | 0 <= i < |SortById(init)| ensures SortById(init)[i].objectId != last.objectId {
        assert SortById(init)[i] in init;
        var k :| 0 <= k < |init| && init[k] == SortById(init)[i];
        assert Ids(es)[k] != Ids(es)[|es| - 1];
      }
      InsertByIdSorted(last, SortById(init));
    }
  }

  lemma SortedIds(records: map<Text, Json>, ids: seq<Text>)
    requires Distinct(ids)
    ensures StrictlySorted(Ids(SortById(Listed(records, ids))))
    ensures forall x :: x in SortById(Listed(records, ids)) <==> x in Listed(records, ids)
    ensures Elements(Ids(SortById(Listed(records, ids)))) == Elements(ids)
  {
    hide TextOrder, SortById, StrictlySorted;
    var es := Listed(records, ids);
    assert Ids(es) == ids;
    SortByIdSorted(es);
    var sorted := SortById(es);
    forall id | id in Elements(Ids(sorted)) ensures id in Elements(ids) {
      var i :| 0 <= i < |sorted| && Ids(sorted)[i] == id;
      assert sorted[i] in es;
    }
    forall id | id in Elements(ids) ensures id in Elements(Ids(sorted)) {
      var i :| 0 <= i < |ids| && ids[i] == id;
      assert es[i] in sorted;
      var j :| 0 <= j < |sorted| && sorted[j] == es[i];
      assert Ids(sorted)[j] == id;
    }
  }

  // The re-sort of the envelope turns any listing without repetition into the sorted listing.
  lemma SortListed(records: map<Text, Json>, ids: seq<Text>)
    requires Distinct(ids)
    ensures SortById(Listed(records, ids)) == Listed(records, SortedTexts(Elements(ids)))
  {
    hide TextOrder, SortById, StrictlySorted, SortedTexts, Distinct;
    var es, keys := Listed(records, ids), SortedTexts(Elements(ids));
    var sorted := SortById(es);
    SortedIds(records, ids);
    SortedUnique(Ids(sorted), keys);
    assert |sorted| == |Ids(sorted)| == |keys|;
    forall i | 0 <= i < |sorted| ensures sorted[i] == Listed(records, keys)[i] {
      assert sorted[i] in es;
      assert Ids(sorted)[i] == keys[i];
    }
  }

  // ----- The chunks of a release lookup -----

  lemma ChunkMatches(db: Database, ids: seq<Text>, n: nat, id: Text)
    requires Distinct(ids) && n <= |ids| && id in db.objects
    ensures RowMatches(ReleaseScope(ids), id, db.objects[id]) <==>
            RowMatches(ReleaseScope(ids[..n]), id, db.objects[id]) || RowMatches(ReleaseScope(ids[n..]), id, db.objects[id])
    ensures !(RowMatches(ReleaseScope(ids[..n]), id, db.objects[id]) && RowMatches(ReleaseScope(ids[n..]), id, db.objects[id]))
  {
    hide Ascii;
    assert ids == ids[..n] + ids[n..];
  }

  // Looking the ids up 900 at a time loses nothing and finds nothing twice.
  lemma {:induction false} ChunksExactly(db: Database, ids: seq<Text>)
    requires Distinct(ids)
    ensures Distinct(ChunkedIds(db, ids))
    ensures forall id :: id in ChunkedIds(db, ids) <==> id in db.objects && RowMatches(ReleaseScope(ids), id, db.objects[id])
  {
    hide RowMatches, Selected;
    if |ids| <= CHUNK_SIZE {
      SelectedElements(db, ReleaseScope(ids));
      StrictlySortedDistinct(Selected(db, ReleaseScope(ids)));
      if ids == [] {
        NothingReleased(db);
      }
    } else {
      var first, rest := Selected(db, ReleaseScope(ids[..CHUNK_SIZE])), ChunkedIds(db, ids[CHUNK_SIZE..]);
      SelectedElements(db, ReleaseScope(ids[..CHUNK_SIZE]));
      StrictlySortedDistinct(first);
      ChunksExactly(db, ids[CHUNK_SIZE..]);
      forall id | id in db.objects
        ensures RowMatches(ReleaseScope(ids), id, db.objects[id]) <==> id in first || id in rest
        ensures !(id in first && id in rest)
      {
        ChunkMatches(db, ids, CHUNK_SIZE, id);
      }
      DistinctConcat(first, rest);
    }
  }

  lemma NothingReleased(db: Database)
    ensures forall id | id in db.objects :: !RowMatches(ReleaseScope([]), id, db.objects[id])
  {
  }

  lemma DistinctConcat(a: seq<Text>, b: seq<Text>)
    requires Distinct(a) && Distinct(b) && forall x | x in a :: x !in b
    ensures Distinct(a + b)
  {
    forall i, j | 0 <= i < j < |a + b| ensures (a + b)[i] != (a + b)[j] {
      if i < |a| <= j {
        assert a[i] in a && b[j - |a|] in b;
      }
    }
  }

  lemma FoundIdsExactly(db: Database, scope: Scope)
    requires IsNormal(scope)
    ensures Distinct(FoundIds(db, scope))
    ensures forall id :: id in FoundIds(db, scope) <==> id in db.objects && RowMatches(scope, id, db.objects[id])
    ensures SortedTexts(Elements(FoundIds(db, scope))) == Selected(db, scope)
  {
    hide RowMatches, IsCanonicalObjectId, ChunkedIds, TextOrder;
    SelectedElements(db, scope);
    StrictlySortedDistinct(Selected(db, scope));
    if scope.ReleaseScope? {
      StrictlySortedDistinct(scope.bindingIds);
      ChunksExactly(db, scope.bindingIds);
    }
    var found := Elements(FoundIds(db, scope));
    assert found == Elements(Selected(db, scope));
    SortedUnique(Selected(db, scope), SortedTexts(found));
  }

  // ----- The reads -----

  // An optional text that a column keeps as it is.
  predicate PlainOption(t: Option<Text>) {
    t.Some? ==> WellFormed(t.value)
  }

  lemma OptionBound(t: Option<Text>)
    ensures BoundOption(t) == t <==> PlainOption(t)
  {
    if t.Some? {
      SurvivesUtf8(t.value);
    }
  }

  // An object is indexable exactly when each of its derived fields is well-formed text.
  lemma DerivedPlain(v: Json)
    ensures var x := DeriveIndexes(v);
            Indexable(v) <==>
            PlainOption(x.payloadType) && PlainOption(x.bindContext) && PlainOption(x.bindAlias) &&
            PlainOption(x.releaseBinding) && PlainOption(x.communeContext)
  {
    hide DeriveIndexes, BoundOption, PlainOption;
    var x := DeriveIndexes(v);
    OptionBound(x.payloadType);
    OptionBound(x.bindContext);
    OptionBound(x.bindAlias);
    OptionBound(x.releaseBinding);
    OptionBound(x.communeContext);
  }

  // A string member, if it is there, is well-formed.
  predicate PlainMember(v: Json, key: Text) {
    v.JObj? && key in v.members && v.members[key].JStr? ==> WellFormed(v.members[key].text)
  }

  // In terms of the object itself: what its payload has for a type is well-formed, and so is what
  // that type is looked up by. Other types and other members do not matter, nor does an object
  // without a payload.
  lemma IndexableExactly(v: Json)
    ensures Indexable(v) <==>
            (v.JObj? && PAYLOAD in v.members ==>
               var payload := v.members[PAYLOAD];
               && PlainMember(payload, TYPE)
               && (HasMember(payload, TYPE, JStr(ALIAS_BIND)) ==> PlainMember(payload, CONTEXT) && PlainMember(payload, ALIAS))
               && (HasMember(payload, TYPE, JStr(ALIAS_RELEASE)) ==> PlainMember(payload, BINDING))
               && (HasMember(payload, TYPE, JStr(COMMUNE_UPDATE)) ==> PlainMember(payload, COMMUNE)))
  {
    hide Indexable, WellFormed, PAYLOAD, TYPE, CONTEXT, ALIAS, BINDING, COMMUNE, ALIAS_BIND, ALIAS_RELEASE, COMMUNE_UPDATE;
    DerivedPlain(v);
  }

  // The alias of a binding of this context.
  function AliasIn(context: Text, v: Json): Option<Text> {
    var payload := PayloadOf(v);
    if TextMember(payload, TYPE) == Some(ALIAS_BIND) && TextMember(payload, CONTEXT) == Some(context) then
      TextMember(payload, ALIAS)
    else
      None
  }

  // When a discovery read agrees with the memory store, by scope: a release lookup always does; a
  // commune lookup unless the context names a stored object with ill-formed indexed text; a
  // binding lookup unless some binding of the context has an alias that is not the one asked for
  // but becomes it as UTF-8, or that is itself ill-formed.
  predicate ReadsAgree(records: map<Text, Json>, scope: Scope) {
    match scope
    case BindingScope(context, alias) =>
      forall id | id in records ::
        var stored := AliasIn(context, records[id]);
        stored.Some? && ToWellFormed(stored.value) == ToWellFormed(alias) ==> stored.value == alias && WellFormed(alias)
    case ReleaseScope(_) => true
    case CommuneScope(context) => context in records ==> Indexable(records[context])
  }

  // What the columns select of one object can be read and passes the filter.
  predicate RowFaithful(scope: Scope, id: Text, v: Json) {
    RowMatches(scope, id, RowOf(v)) ==> Indexable(v) && EntryMatches(scope, id, v)
  }

  lemma CanonicalOption(id: Text)
    requires IsCanonicalObjectId(id)
    ensures PlainOption(Some(id))
  {
    hide IsCanonicalObjectId;
    CanonicalIsAscii(id);
  }

  lemma TypeOption()
    ensures PlainOption(Some(ALIAS_BIND)) && PlainOption(Some(ALIAS_RELEASE)) && PlainOption(Some(COMMUNE_UPDATE))
  {
    TypesArePlain();
    NoSurrogatesWellFormed(ALIAS_BIND);
    NoSurrogatesWellFormed(ALIAS_RELEASE);
    NoSurrogatesWellFormed(COMMUNE_UPDATE);
  }

  lemma ReleaseRowFaithful(scope: Scope, id: Text, v: Json)
    requires IsNormal(scope) && scope.ReleaseScope?
    ensures RowFaithful(scope, id, v)
  {
    hide Print, IsCanonicalObjectId, ToWellFormed, Ascii, WellFormed, RowMatches, RowOf, Indexable;
    ReleaseRowMatches(scope, id, v);
    DerivedPlain(v);
    TypesArePlain();
    TypeOption();
    if EntryMatches(scope, id, v) {
      CanonicalOption(TextMember(PayloadOf(v), BINDING).value);
    }
  }

  lemma CommuneRowFaithful(scope: Scope, id: Text, v: Json)
    requires IsNormal(scope) && scope.CommuneScope?
    ensures RowFaithful(scope, id, v) <==> (id == scope.context ==> Indexable(v))
  {
    hide Print, IsCanonicalObjectId, ToWellFormed, Ascii, WellFormed, RowMatches, RowOf, Indexable;
    CommuneRowMatches(scope, id, v);
    DerivedPlain(v);
    TypesArePlain();
    TypeOption();
    CanonicalOption(scope.context);
  }

  lemma BindingRowFaithful(scope: Scope, id: Text, v: Json)
    requires IsNormal(scope) && scope.BindingScope?
    ensures RowFaithful(scope, id, v) <==>
            var stored := AliasIn(scope.context, v);
            stored.Some? && ToWellFormed(stored.value) == ToWellFormed(scope.alias) ==>
              stored.value == scope.alias && WellFormed(scope.alias)
  {
    hide Print, IsCanonicalObjectId, ToWellFormed, Ascii, WellFormed, RowMatches, RowOf, Indexable;
    BindingRowMatches(scope, id, v);
    DerivedPlain(v);
    TypesArePlain();
    TypeOption();
    CanonicalOption(scope.context);
  }

  lemma RowsFaithful(records: map<Text, Json>, scope: Scope)
    requires IsNormal(scope)
    ensures ReadsAgree(records, scope) <==> forall id | id in records :: RowFaithful(scope, id, records[id])
  {
    hide RowFaithful, AliasIn, IsNormal, Indexable, ToWellFormed, WellFormed;
    forall id | id in records ensures scope.ReleaseScope? ==> RowFaithful(scope, id, records[id])
      ensures scope.CommuneScope? ==> (RowFaithful(scope, id, records[id]) <==> (id == scope.context ==> Indexable(records[id])))
      ensures scope.BindingScope? ==>
                (RowFaithful(scope, id, records[id]) <==>
                 var stored := AliasIn(scope.context, records[id]);
                 stored.Some? && ToWellFormed(stored.value) == ToWellFormed(scope.alias) ==>
                   stored.value == scope.alias && WellFormed(scope.alias))
    {
      match scope
      case ReleaseScope(_) => ReleaseRowFaithful(scope, id, records[id]);
      case CommuneScope(_) => CommuneRowFaithful(scope, id, records[id]);
      case BindingScope(_, _) => BindingRowFaithful(scope, id, records[id]);
    }
  }

  lemma ReadCompleteValid(db: Database, scope: Scope)
    requires Valid(db)
    ensures ReadComplete(db, scope).Ok?
  {
  }

  lemma FindParsed(db: Database, scope: Scope)
    requires Valid(db) && Readable(db) && IsNormal(scope)
    ensures Find(db, scope) ==
            if AllIndexable(Contents(db), Selected(db, scope)) then
              Ok(Envelope(db.source, db.snapshot, scope, Listed(Contents(db), Selected(db, scope)), ReadComplete(db, scope).value))
            else Err(StoreIntegrity)
  {
    hide RowMatches, Indexable, Valid, ParseRows, FoundIds, Selected, ReadComplete, Contents, SortById, Listed,
         SortedTexts, Elements, Distinct, IsNormal, AllIndexable;
    FoundIdsStored(db, scope);
    FoundParse(db, scope);
    ReadCompleteValid(db, scope);
  }

  lemma FoundParse(db: Database, scope: Scope)
    requires Valid(db) && IsNormal(scope)
    requires forall id | id in FoundIds(db, scope) :: id in db.objects
    ensures match ParseRows(db, FoundIds(db, scope))
            case Err(error) => error == StoreIntegrity && !AllIndexable(Contents(db), Selected(db, scope))
            case Ok(es) =>
              AllIndexable(Contents(db), Selected(db, scope)) && SortById(es) == Listed(Contents(db), Selected(db, scope))
  {
    hide RowMatches, Indexable, Valid, ParseRows, FoundIds, Selected, Contents, SortById, Listed, SortedTexts,
         Distinct, IsNormal;
    FoundIdsExactly(db, scope);
    SelectedElements(db, scope);
    ParseRowsExactly(db, FoundIds(db, scope));
    SortListed(Contents(db), FoundIds(db, scope));
  }

  // The discovery reads give the memory store's answer - the same objects in the same order - for
  // every release scope, and for the other two exactly under the condition of ReadsAgree.
  // Otherwise they fail, or find objects under an alias that only its UTF-8 form agrees with.
  lemma FindRefines(db: Database, scope: Scope)
    requires Valid(db) && Readable(db) && IsNormal(scope)
    ensures (Find(db, scope).Ok? && Find(db, scope).value.objects == Matching(Contents(db), scope)) <==>
            ReadsAgree(Contents(db), scope)
    ensures Find(db, scope).Ok? ==> ReadComplete(db, scope) == Ok(Find(db, scope).value.complete)
  {
    hide RowMatches, EntryMatches, Indexable, Valid, Find, Contents, ReadComplete, RowOf, ReadsAgree, StrictlySorted;
    var records := Contents(db);
    FindParsed(db, scope);
    ReadCompleteValid(db, scope);
    RowsFaithful(records, scope);
    SelectedRecords(db, scope);
    var selected, matching := Selected(db, scope), SortedTexts(MatchingIds(records, scope));
    assert forall id :: id in matching <==> id in Elements(matching);
    assert forall id :: id in selected <==> id in Elements(selected);
    if forall id | id in records :: RowFaithful(scope, id, records[id]) {
      assert Elements(matching) == Elements(selected);
      SortedUnique(matching, selected);
    }
    if Find(db, scope).Ok? && Find(db, scope).value.objects == Matching(records, scope) {
      ListedInjective(records, selected, matching);
    }
  }

  // The ids a query selects, in terms of the stored objects.
  lemma SelectedRecords(db: Database, scope: Scope)
    requires Valid(db) && IsNormal(scope)
    ensures StrictlySorted(Selected(db, scope))
    ensures forall id :: id in Selected(db, scope) <==> id in Contents(db) && RowMatches(scope, id, RowOf(Contents(db)[id]))
    ensures forall id | id in Contents(db) && EntryMatches(scope, id, Contents(db)[id]) :: id in Selected(db, scope)
  {
    hide RowMatches, EntryMatches, Valid, Contents, RowOf, Selected, StrictlySorted;
    SelectedElements(db, scope);
    ContentsKeys(db);
    forall id | id in Contents(db)
      ensures db.objects[id] == RowOf(Contents(db)[id])
      ensures EntryMatches(scope, id, Contents(db)[id]) ==> RowMatches(scope, id, RowOf(Contents(db)[id]))
    {
      ValidRowParses(db, id);
      if EntryMatches(scope, id, Contents(db)[id]) {
        MatchingRowMatches(scope, id, Contents(db)[id]);
      }
    }
  }

  lemma ListedInjective(records: map<Text, Json>, a: seq<Text>, b: seq<Text>)
    requires Listed(records, a) == Listed(records, b)
    ensures a == b
  {
    assert |Listed(records, a)| == |a| && |Listed(records, b)| == |b|;
    forall i | 0 <= i < |a| ensures a[i] == b[i] {
      assert Listed(records, a)[i] == Listed(records, b)[i];
    }
  }

  // Where the alias asked for and those of the context's bindings are well-formed, a binding lookup
  // agrees with the memory store.
  lemma WellFormedIsFaithful(records: map<Text, Json>, context: Text, alias: Text)
    requires WellFormed(alias)
    requires forall id | id in records :: PlainOption(AliasIn(context, records[id]))
    ensures ReadsAgree(records, BindingScope(context, alias))
  {
    hide AliasIn, WellFormed;
    SurvivesUtf8(alias);
    forall id | id in records && AliasIn(context, records[id]).Some?
      ensures ToWellFormed(AliasIn(context, records[id]).value) == AliasIn(context, records[id]).value
    {
      SurvivesUtf8(AliasIn(context, records[id]).value);
    }
  }

  // What is selected and can be read passes the filter itself, if the alias asked for is
  // well-formed.
  lemma ReadIsMatching(scope: Scope, id: Text, v: Json)
    requires IsNormal(scope) && (scope.BindingScope? ==> WellFormed(scope.alias))
    requires RowMatches(scope, id, RowOf(v)) && Indexable(v)
    ensures EntryMatches(scope, id, v)
  {
    hide Print, IsCanonicalObjectId, Ascii, RowMatches, RowOf, WellFormed;
    match scope
    case BindingScope(_, alias) =>
      BindingRowMatches(scope, id, v);
      SurvivesUtf8(alias);
    case ReleaseScope(_) => ReleaseRowMatches(scope, id, v);
    case CommuneScope(_) => CommuneRowMatches(scope, id, v);
  }

  // getObject refuses an id that is not canonical, finds nothing under one that is not stored, and
  // gives the stored object exactly when its indexed text is well-formed.
  lemma GetObjectRefines(db: Database, id: Text)
    requires Valid(db)
    ensures !IsCanonicalObjectId(id) ==> GetObject(db, id) == Err(InvalidRequest)
    ensures IsCanonicalObjectId(id) && id !in Contents(db) ==> GetObject(db, id) == Ok(None)
    ensures id in Contents(db) ==>
              GetObject(db, id) ==
              if Indexable(Contents(db)[id]) then Ok(Some(Entry(id, Contents(db)[id]))) else Err(StoreIntegrity)
  {
    ContentsKeys(db);
    if id in db.objects {
      ValidRowParses(db, id);
    }
  }

  // A lone surrogate in an alias is such a case.
  function LoneSurrogateBinding(context: Text): Json {
    JObj(map[PAYLOAD := JObj(map[TYPE := JStr(ALIAS_BIND), CONTEXT := JStr(context), ALIAS := JStr([0xD800])])])
  }

  lemma OneUnreadable(db: Database, id: Text, v: Json, scope: Scope)
    requires Valid(db) && Readable(db) && IsNormal(scope) && Contents(db) == map[id := v]
    requires IsCanonicalObjectId(id) && !Indexable(v) && EntryMatches(scope, id, v)
    ensures GetObject(db, id) == Err(StoreIntegrity)
    ensures Find(db, scope) == Err(StoreIntegrity)
    ensures Matching(Contents(db), scope) == [Entry(id, v)]
  {
    hide RowOf, Valid, IsCanonicalObjectId, EntryMatches, Indexable, Find, GetObject, Selected, RowMatches, Contents;
    GetObjectRefines(db, id);
    FindParsed(db, scope);
    SelectedElements(db, scope);
    MatchingRowMatches(scope, id, v);
    ContentsKeys(db);
    ValidRowParses(db, id);
    assert id in Selected(db, scope);
    assert MatchingIds(Contents(db), scope) == {id};
    OneElement(id);
  }

  lemma OneElement(id: Text)
    ensures SortedTexts({id}) == [id]
  {
    SortedUnique([id], SortedTexts({id}));
  }

  lemma SurrogateBinding(context: Text)
    ensures !Indexable(LoneSurrogateBinding(context))
    ensures forall id :: EntryMatches(BindingScope(context, [0xD800]), id, LoneSurrogateBinding(context))
  {
    assert |TYPE| == 4 && |CONTEXT| == 7 && |ALIAS| == 5;
    assert DeriveIndexes(LoneSurrogateBinding(context)).bindAlias == Some([0xD800]);
    assert !WellFormed([0xD800]);
    SurvivesUtf8([0xD800]);
  }
}
