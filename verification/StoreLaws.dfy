// What every write keeps and what it changes, in terms of the stored objects.
module StoreLaws {
  import opened Wrappers
  import opened Text
  import opened Sorting
  import opened Json
  import opened JsonParser
  import opened ObjectId
  import opened Scopes
  import opened Validation
  import opened Store
  import opened MemoryStore

  // ----- Inserting entries is putting them into the memory store -----

  predicate ValidObjects(objects: map<Text, Row>) {
    forall id | id in objects :: IsCanonicalObjectId(id) && ValidRow(objects[id])
  }

  predicate CanonicalIds(es: seq<Entry>) {
    forall i | 0 <= i < |es| :: IsCanonicalObjectId(es[i].objectId)
  }

  predicate DistinctIds(es: seq<Entry>) {
    forall i, j | 0 <= i < j < |es| :: es[i].objectId != es[j].objectId
  }

  lemma NormalIds(es: seq<Entry>)
    requires NormalEntries(es)
    ensures CanonicalIds(es) && DistinctIds(es)
  {
    StrictlySortedDistinct(Ids(es));
    forall i, j | 0 <= i < j < |es| ensures es[i].objectId != es[j].objectId {
      assert Ids(es)[i] != Ids(es)[j];
    }
  }

  function PutAll(records: map<Text, Json>, es: seq<Entry>): Option<map<Text, Json>> {
    if es == [] then
      Some(records)
    else
      match PutAll(records, es[..|es| - 1])
      case None => None
      case Some(next) => Put(next, es[|es| - 1])
  }

  // A stored text equals the text of an object exactly when it is that object's.
  lemma StoredText(row: Row, v: Json)
    requires ValidRow(row)
    ensures row.objectJson == Print(v) <==> ContentOf(row) == v
  {
    var w := Parse(row.objectJson).value;
    ObjectTextSurvives(w);
    PrintInjective(w, v);
  }

  lemma InsertedNew(objects: map<Text, Row>, e: Entry)
    requires ValidObjects(objects) && IsCanonicalObjectId(e.objectId)
    ensures ValidObjects(objects[e.objectId := RowOf(e.value)])
    ensures ObjectsIn(objects[e.objectId := RowOf(e.value)]) == ObjectsIn(objects)[e.objectId := e.value]
  {
    RowOfValid(e.value);
    hide ValidRow, ContentOf, RowOf, IsCanonicalObjectId;
  }

  lemma InsertedOneIsPut(objects: map<Text, Row>, e: Entry)
    requires ValidObjects(objects) && IsCanonicalObjectId(e.objectId)
    ensures match InsertedOne(objects, e)
            case None => Put(ObjectsIn(objects), e).None?
            case Some(next) => ValidObjects(next) && Put(ObjectsIn(objects), e) == Some(ObjectsIn(next))
  {
    hide ValidRow, ContentOf, RowOf, IsCanonicalObjectId;
    if e.objectId in objects {
      StoredText(objects[e.objectId], e.value);
    } else {
      InsertedNew(objects, e);
    }
  }

  // The transaction inserts what a memory store would hold after the same puts, and conflicts
  // where one of the puts would.
  lemma {:induction false} InsertedIsPutAll(objects: map<Text, Row>, es: seq<Entry>)
    requires ValidObjects(objects) && CanonicalIds(es)
    ensures match Inserted(objects, es)
            case None => PutAll(ObjectsIn(objects), es).None?
            case Some(next) => ValidObjects(next) && PutAll(ObjectsIn(objects), es) == Some(ObjectsIn(next))
  {
    hide ValidRow, ContentOf, RowOf, IsCanonicalObjectId, InsertedOne, Put;
    if es != [] {
      var init, last := es[..|es| - 1], es[|es| - 1];
      InsertedIsPutAll(objects, init);
      if Inserted(objects, init).Some? {
        InsertedOneIsPut(Inserted(objects, init).value, last);
      }
    }
  }

  // ----- Puts in closed form -----

  predicate Agrees(records: map<Text, Json>, e: Entry) {
    e.objectId in records ==> records[e.objectId] == e.value
  }

  predicate AllAgree(records: map<Text, Json>, es: seq<Entry>) {
    forall i | 0 <= i < |es| :: Agrees(records, es[i])
  }

  lemma AgreeingStep(records: map<Text, Json>, es: seq<Entry>)
    requires es != []
    ensures AllAgree(records, es) <==> AllAgree(records, es[..|es| - 1]) && Agrees(records, es[|es| - 1])
  {
    hide Agrees;
    assert es == es[..|es| - 1] + [es[|es| - 1]];
  }

  // The objects of a list of entries, by id.
  function Objects(es: seq<Entry>): map<Text, Json> {
    if es == [] then map[] else Objects(es[..|es| - 1])[es[|es| - 1].objectId := es[|es| - 1].value]
  }

  // One more entry, at the end of a list of distinct ids.
  lemma ObjectsStep(es: seq<Entry>)
    requires DistinctIds(es) && es != []
    ensures DistinctIds(es[..|es| - 1])
    ensures forall i | 0 <= i < |es| - 1 :: es[..|es| - 1][i] == es[i] && es[i].objectId != es[|es| - 1].objectId
    ensures Objects(es) == Objects(es[..|es| - 1])[es[|es| - 1].objectId := es[|es| - 1].value]
  {
  }

  lemma {:induction false} ObjectsOf(es: seq<Entry>)
    requires DistinctIds(es)
    ensures forall i | 0 <= i < |es| :: es[i].objectId in Objects(es) && Objects(es)[es[i].objectId] == es[i].value
    ensures forall id | id in Objects(es) :: exists i :: 0 <= i < |es| && es[i].objectId == id
  {
    if es == [] {
      assert Objects(es) == map[];
    } else {
      ObjectsStep(es);
      hide Objects, DistinctIds;
      var init, last := es[..|es| - 1], es[|es| - 1];
      ObjectsOf(init);
      forall i | 0 <= i < |es| ensures es[i].objectId in Objects(es) && Objects(es)[es[i].objectId] == es[i].value {
        if i < |init| {
          assert init[i] == es[i];
        }
      }
      forall id | id in Objects(es) ensures exists i :: 0 <= i < |es| && es[i].objectId == id {
        if id == last.objectId {
          assert es[|es| - 1].objectId == id;
        } else {
          var i :| 0 <= i < |init| && init[i].objectId == id;
          assert es[i].objectId == id;
        }
      }
    }
  }

  lemma PutLast(records: map<Text, Json>, batch: map<Text, Json>, e: Entry)
    requires e.objectId !in batch
    ensures Put(records + batch, e) == if Agrees(records, e) then Some(records + batch[e.objectId := e.value]) else None
  {
    if e.objectId in records && Agrees(records, e) {
      assert (records + batch)[e.objectId := e.value] == records + batch;
    }
    if Agrees(records, e) {
      assert records + batch[e.objectId := e.value] == (records + batch)[e.objectId := e.value];
    }
  }

  // A batch of distinct ids is stored exactly when none of it disagrees with what is there; then
  // the records are the old ones and the batch.
  lemma {:induction false} PutAllExactly(records: map<Text, Json>, es: seq<Entry>)
    requires DistinctIds(es)
    ensures PutAll(records, es).Some? <==> AllAgree(records, es)
    ensures PutAll(records, es).Some? ==> PutAll(records, es).value == records + Objects(es)
  {
    if es == [] {
      assert records + Objects(es) == records;
    } else {
      ObjectsStep(es);
      AgreeingStep(records, es);
      hide Put, Agrees, Objects, DistinctIds;
      var init, last := es[..|es| - 1], es[|es| - 1];
      PutAllExactly(records, init);
      ObjectsOf(init);
      PutLast(records, Objects(init), last);
    }
  }

  // ----- Each write keeps the tables valid -----

  lemma ContentsIsObjects(db: Database)
    requires Valid(db)
    ensures ValidObjects(db.objects) && Contents(db) == ObjectsIn(db.objects)
  {
    hide ValidRow, ContentOf, IsCanonicalObjectId, ValidCoverageRow;
  }

  lemma NormalizedEntriesNormal(entries: Json)
    requires NormalizedEntries(entries).Ok?
    ensures NormalEntries(NormalizedEntries(entries).value)
    ensures NormalizedCandidates(entries) == NormalizedEntries(entries)
  {
    CandidatesNormal(entries);
  }

  lemma SizesAgree(objects: map<Text, Row>)
    ensures |ObjectsIn(objects)| == |objects|
  {
    assert ObjectsIn(objects).Keys == objects.Keys;
  }

  lemma SameSizeSameTable(before: map<Text, Row>, after: map<Text, Row>)
    requires forall id | id in before :: id in after && after[id] == before[id]
    ensures |after| == |before| <==> after == before
  {
    assert before.Keys <= after.Keys;
    if |after| == |before| {
      assert |after.Keys - before.Keys| == 0;
    }
  }

  lemma ValidRowContent(row: Row)
    requires ValidRow(row)
    ensures row == RowOf(ContentOf(row))
  {
  }

  // Valid rows are determined by the objects they hold.
  lemma SameObjectsSameTable(before: map<Text, Row>, after: map<Text, Row>)
    requires ValidObjects(before) && ValidObjects(after)
    ensures ObjectsIn(before) == ObjectsIn(after) <==> before == after
  {
    hide ValidRow, ContentOf, RowOf, IsCanonicalObjectId;
    if ObjectsIn(before) == ObjectsIn(after) {
      assert before.Keys == ObjectsIn(before).Keys == ObjectsIn(after).Keys == after.Keys;
      forall id | id in before ensures before[id] == after[id] {
        assert ObjectsIn(before)[id] == ObjectsIn(after)[id];
        ValidRowContent(before[id]);
        ValidRowContent(after[id]);
      }
    }
  }

  lemma AppendAccepted(db: Database, es: seq<Entry>)
    requires Valid(db) && NormalEntries(es)
    ensures match Inserted(db.objects, es)
            case None => exists i :: 0 <= i < |es| && !Agrees(Contents(db), es[i])
            case Some(objects) =>
              && (forall i | 0 <= i < |es| :: Agrees(Contents(db), es[i]))
              && ValidObjects(objects) && ObjectsIn(objects) == Contents(db) + Objects(es)
              && (|objects| == |db.objects| <==> objects == db.objects)
  {
    hide ValidObjects, NormalEntries, Valid, Objects;
    ContentsIsObjects(db);
    NormalIds(es);
    InsertedIsPutAll(db.objects, es);
    PutAllExactly(Contents(db), es);
    if Inserted(db.objects, es).Some? {
      InsertedGrows(db.objects, es);
      SameSizeSameTable(db.objects, Inserted(db.objects, es).value);
    }
  }

  // What an append does to the database.
  ghost predicate Appended(before: Database, after: Database, es: seq<Entry>) {
    && Valid(after)
    && Contents(after) == Contents(before) + Objects(es)
    && after.source == before.source && after.snapshot == before.snapshot
    && (Contents(after) == Contents(before) ==> after == before)
    && (Contents(after) != Contents(before) ==> after.coverage == map[] && after.dataRevision == before.dataRevision + 1)
  }

  lemma AppendedRows(db: Database, objects: map<Text, Row>, es: seq<Entry>)
    requires Valid(db) && ValidObjects(objects) && ObjectsIn(objects) == Contents(db) + Objects(es)
    ensures |Contents(db)| == |db.objects|
    ensures objects == db.objects ==> Appended(db, db, es)
    ensures var next := db.(dataRevision := db.dataRevision + 1, objects := objects, coverage := map[]);
            |Contents(next)| == |objects| && (objects != db.objects ==> Appended(db, next, es))
  {
    hide Objects, ObjectsIn, IsCanonicalObjectId, ValidRow, ValidCoverageRow, Bound, BoundOption;
    ContentsIsObjects(db);
    SameObjectsSameTable(db.objects, objects);
    SizesAgree(db.objects);
    SizesAgree(objects);
  }

  // An append succeeds exactly when no entry disagrees with a stored object. It adds the entries
  // and nothing else; if there was nothing new, it changes nothing at all, and otherwise it drops
  // every coverage declaration and moves the revision on. A failed append changes nothing.
  lemma AppendEffect(db: Database, es: seq<Entry>)
    requires Valid(db) && NormalEntries(es)
    ensures var o := AppendNormalized(db, es);
            && (o.result.Ok? <==> Readable(db) && forall i | 0 <= i < |es| :: Agrees(Contents(db), es[i]))
            && (o.result.Err? ==> o.result == Err(StoreIntegrity) && o.db == db)
            && (o.result.Ok? ==>
                  && Appended(db, o.db, es)
                  && o.result.value.dataRevision == o.db.dataRevision
                  && |Contents(db)| + o.result.value.inserted == |Contents(o.db)|)
  {
    hide NormalEntries, Objects, Valid, Contents, Inserted, Appended, Agrees, ValidObjects, ObjectsIn;
    AppendAccepted(db, es);
    if Readable(db) && Inserted(db.objects, es).Some? {
      AppendedRows(db, Inserted(db.objects, es).value, es);
    }
  }

  lemma CoverageTableAt(cs: seq<Coverage>, revision: nat, i: nat)
    requires NormalCoverage(cs) && i < |cs|
    ensures CoverageKey(cs[i].scope) in CoverageTable(cs, revision)
    ensures CoverageTable(cs, revision)[CoverageKey(cs[i].scope)] == CoverageRowOf(cs[i], revision)
  {
    assert CoverageKeys(cs)[i] == CoverageKey(cs[i].scope);
  }

  lemma CoverageTableKey(cs: seq<Coverage>, revision: nat, key: Text) returns (i: nat)
    requires NormalCoverage(cs) && key in CoverageTable(cs, revision)
    ensures i < |cs| && key == CoverageKey(cs[i].scope)
    ensures CoverageTable(cs, revision)[key] == CoverageRowOf(cs[i], revision)
  {
    i :| 0 <= i < |cs| && CoverageKeys(cs)[i] == key;
    hide NormalCoverage, CoverageKey, CoverageRowOf, CoverageTable;
    CoverageTableAt(cs, revision, i);
  }

  lemma CoverageTableValid(cs: seq<Coverage>, revision: nat)
    requires NormalCoverage(cs)
    ensures forall key | key in CoverageTable(cs, revision) :: ValidCoverageRow(key, CoverageTable(cs, revision)[key], revision)
  {
    forall key | key in CoverageTable(cs, revision)
      ensures ValidCoverageRow(key, CoverageTable(cs, revision)[key], revision)
    {
      var i := CoverageTableKey(cs, revision, key);
      CoverageRowValid(cs[i], revision, revision);
    }
  }

  // What an import does to the database.
  ghost predicate Imported(
    before: Database, after: Database, es: seq<Entry>, cs: seq<Coverage>, replace: bool,
    source: Option<Text>, snapshot: Option<Option<Text>>)
    requires NormalCoverage(cs)
  {
    && Valid(after)
    && Contents(after) == (if replace then map[] else Contents(before)) + Objects(es)
    && after.dataRevision == before.dataRevision + 1
    && after.coverage == CoverageTable(cs, after.dataRevision)
    && after.source == (match source case Some(text) => Bound(text) case None => before.source)
    && after.snapshot == (match snapshot case Some(text) => BoundOption(text) case None => before.snapshot)
  }

  lemma ImportAccepted(db: Database, es: seq<Entry>, replace: bool)
    requires Valid(db) && NormalEntries(es)
    ensures var kept: map<Text, Json> := if replace then map[] else Contents(db);
            match Inserted(if replace then map[] else db.objects, es)
            case None => exists i :: 0 <= i < |es| && !Agrees(kept, es[i])
            case Some(objects) =>
              && (forall i | 0 <= i < |es| :: Agrees(kept, es[i]))
              && ValidObjects(objects) && ObjectsIn(objects) == kept + Objects(es)
  {
    hide NormalEntries, Valid, Objects, ContentOf, IsCanonicalObjectId, ValidRow;
    NormalIds(es);
    ContentsIsObjects(db);
    var kept: map<Text, Row> := if replace then map[] else db.objects;
    assert ObjectsIn(kept) == if replace then map[] else Contents(db);
    InsertedIsPutAll(kept, es);
    PutAllExactly(ObjectsIn(kept), es);
  }

  lemma ImportedRows(
    db: Database, objects: map<Text, Row>, es: seq<Entry>, cs: seq<Coverage>, replace: bool,
    source: Option<Text>, snapshot: Option<Option<Text>>)
    requires Valid(db) && NormalCoverage(cs)
    requires ValidObjects(objects) && ObjectsIn(objects) == (if replace then map[] else Contents(db)) + Objects(es)
    ensures Imported(db, ImportedTables(db, objects, cs, source, snapshot), es, cs, replace, source, snapshot)
  {
    hide NormalCoverage, Objects, ObjectsIn, IsCanonicalObjectId, ValidRow, ValidCoverageRow, CoverageTable, Bound,
         BoundOption;
    CoverageTableValid(cs, db.dataRevision + 1);
    BoundTwice(if source.Some? then source.value else [], if snapshot.Some? then snapshot.value else None);
  }

  // An import succeeds exactly when no entry disagrees with an object it keeps. Its coverage is
  // the only coverage afterwards, declared at a revision of its own. A failed import changes nothing.
  lemma ImportEffect(
    db: Database, es: seq<Entry>, cs: seq<Coverage>, replace: bool, source: Option<Text>, snapshot: Option<Option<Text>>)
    requires Valid(db) && NormalEntries(es) && NormalCoverage(cs)
    ensures var o := ImportNormalized(db, es, cs, replace, source, snapshot);
            && (o.result.Ok? <==>
                  Readable(db) && forall i | 0 <= i < |es| :: Agrees(if replace then map[] else Contents(db), es[i]))
            && (o.result.Err? ==> o.result == Err(StoreIntegrity) && o.db == db)
            && (o.result.Ok? ==> Imported(db, o.db, es, cs, replace, source, snapshot))
  {
    hide NormalEntries, NormalCoverage, Objects, Valid, Contents, Inserted, Imported, Agrees, ValidObjects, ObjectsIn,
         ImportedTables;
    ImportAccepted(db, es, replace);
    var inserted := Inserted(if replace then map[] else db.objects, es);
    if Readable(db) && inserted.Some? {
      ImportedRows(db, inserted.value, es, cs, replace, source, snapshot);
    }
  }

  lemma WriteCoverageValid(db: Database, c: Coverage, revision: nat)
    requires Valid(db) && IsNormal(c.scope) && revision <= db.dataRevision
    ensures Valid(WriteCoverage(db, c, revision)) && Contents(WriteCoverage(db, c, revision)) == Contents(db)
  {
    hide ContentOf, IsCanonicalObjectId, ValidRow, ValidCoverageRow, CoverageRowOf, IsNormal, CoverageKey;
    CoverageRowValid(c, revision, db.dataRevision);
  }
}
