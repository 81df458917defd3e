// The Relay's candidate store (relay-local/src/sqlite-candidate-store.js): the normalisers glued to
// the SQLite store, and what exporting a snapshot and restoring it preserves.
module CandidateStore {
  import opened Wrappers
  import opened Text
  import opened Sorting
  import opened Numeral
  import opened Json
  import opened JsonParser
  import opened ObjectId
  import opened Scopes
  import opened Validation
  import opened Store
  import opened MemoryStore
  import opened StoreLaws
  import opened Refinement

  const VALIDATE: Text := Ascii("validate")
  const REPLACE: Text := Ascii("replace")

  datatype Restored =
    | Validated(entries: nat, coverage: nat)
    | Replaced(receipt: ImportReceipt)

  // publishImmutable
  function PublishImmutable(db: Database, candidates: Json): Outcome<AppendReceipt> {
    match NormalizedCandidates(candidates)
    case Err(error) => Outcome(Err(error), db)
    case Ok(es) => Append(db, EntriesJson(es))
  }

  // exportSnapshot, with the normalisation the store's own export goes through.
  function ExportNormalized(db: Database): Result<StoreExport> {
    match ExportSnapshot(db)
    case Err(error) => Err(error)
    case Ok(x) => NormalizeStoreExport(StoreExportJson(x))
  }

  // restoreSnapshot
  function RestoreSnapshot(db: Database, snapshot: Json, mode: Text): Outcome<Restored> {
    match NormalizeStoreExport(snapshot)
    case Err(error) => Outcome(Err(error), db)
    case Ok(x) =>
      if mode == VALIDATE then Outcome(Ok(Validated(|x.entries|, |x.coverage|)), db)
      else if mode != REPLACE then Outcome(Err(RelayProtocol), db)
      else
        var o := Import(db, ReplaceRequest(x));
        match o.result
        case Err(error) => Outcome(Err(error), o.db)
        case Ok(receipt) => Outcome(Ok(Replaced(receipt)), o.db)
  }

  function ReplaceRequest(x: StoreExport): ImportRequest {
    ImportRequest(EntriesJson(x.entries), CoverageJson(x.coverage), true, Some(x.source), Some(x.snapshot))
  }

  // ----- The store takes normalised input as it is -----

  lemma EntriesAsTheyAre(es: seq<Entry>)
    requires NormalEntries(es)
    ensures NormalizedEntries(EntriesJson(es)) == Ok(es)
  {
    CandidatesIdempotent(es);
  }

  lemma OneCandidate(e: Entry)
    requires IsCanonicalObjectId(e.objectId)
    ensures NormalEntries([e]) && NormalizedCandidates(EntriesJson([e])) == Ok([e])
    ensures Objects([e]) == map[e.objectId := e.value]
  {
    hide IsCanonicalObjectId, TextOrder;
    assert NormalEntries([e]);
    CandidatesIdempotent([e]);
    assert [e][..0] == [];
  }

  lemma PublishIsAppend(db: Database, candidates: Json)
    ensures match NormalizedCandidates(candidates)
            case Err(error) => PublishImmutable(db, candidates) == Outcome(Err(RelayProtocol), db)
            case Ok(es) => NormalEntries(es) && PublishImmutable(db, candidates) == AppendNormalized(db, es)
  {
    if NormalizedCandidates(candidates).Ok? {
      CandidatesNormal(candidates);
      EntriesAsTheyAre(NormalizedCandidates(candidates).value);
    }
  }

  lemma RestoreIsImport(db: Database, x: StoreExport)
    requires NormalExport(x)
    ensures Import(db, ReplaceRequest(x)) == ImportNormalized(db, x.entries, x.coverage, true, Some(x.source), Some(x.snapshot))
  {
    hide AppendNormalized, ImportNormalized;
    EntriesAsTheyAre(x.entries);
    CoverageIdempotent(x.coverage);
  }

  // The import of a restore is never refused for its request.
  lemma ReplaceRequestGood(x: StoreExport)
    requires NormalExport(x)
    ensures NormalizedEntries(ReplaceRequest(x).entries) == Ok(x.entries)
    ensures NormalizedCoverage(ReplaceRequest(x).coverage) == Ok(x.coverage)
  {
    hide NormalEntries, NormalCoverage, NormalizedEntries, NormalizedCoverage, EntriesJson, CoverageJson;
    EntriesAsTheyAre(x.entries);
    CoverageIdempotent(x.coverage);
  }

  lemma GoodRequest(db: Database, request: ImportRequest)
    requires NormalizedEntries(request.entries).Ok? && NormalizedCoverage(request.coverage).Ok?
    ensures Import(db, request).result != Err(InvalidRequest)
  {
    hide NormalizedEntries, NormalizedCoverage, Inserted, CoverageTable;
  }

  // ----- What an export holds -----

  // A current coverage row that declares c.
  predicate DeclaresNow(db: Database, c: Coverage) {
    var key := CoverageKey(c.scope);
    key in db.coverage && db.coverage[key].revision == db.dataRevision && db.coverage[key].complete == c.complete
  }

  lemma RowCoverage(db: Database, key: Text) returns (c: Coverage)
    requires Valid(db) && key in db.coverage
    ensures ParseCoverageRow(db.coverage[key], db.dataRevision) == Ok(c)
    ensures CoverageKey(c.scope) == key && IsNormal(c.scope) && c.complete == db.coverage[key].complete
  {
    var row := db.coverage[key];
    assert ValidCoverageRow(key, row, db.dataRevision);
    var scope := ScopeFrom(row.kind, row.scopeJson).value;
    ReadScopeNormal(row.kind, Parse(row.scopeJson).value);
    c := Coverage(scope, row.complete);
  }

  lemma PrependCoverage(c: Coverage, cs: seq<Coverage>)
    requires StrictlySorted(CoverageKeys(cs)) && forall d | d in cs :: Before(CoverageKey(c.scope), CoverageKey(d.scope))
    ensures StrictlySorted(CoverageKeys([c] + cs))
  {
    hide TextOrder, CoverageKey;
    var keys, all := CoverageKeys(cs), CoverageKeys([c] + cs);
    forall i, j | 0 <= i < j < |all| ensures Before(all[i], all[j]) {
      assert cs[j - 1] in cs;
      if i > 0 {
        assert Before(keys[i - 1], keys[j - 1]);
      }
    }
  }

  // The coverage list cs of an export: in key order, and of the rows under these keys exactly the
  // current ones.
  ghost predicate ListsDeclared(db: Database, keys: seq<Text>, cs: seq<Coverage>) {
    && StrictlySorted(CoverageKeys(cs))
    && (forall c :: c in cs <==> CoverageKey(c.scope) in keys && DeclaresNow(db, c))
    && forall c | c in cs :: IsNormal(c.scope)
  }

  // One more row in front: listed when it is current, left out when it is not.
  lemma ListOneMore(db: Database, keys: seq<Text>, c: Coverage, cs: seq<Coverage>)
    requires keys != [] && StrictlySorted(keys) && ListsDeclared(db, keys[1..], cs)
    requires keys[0] in db.coverage && CoverageKey(c.scope) == keys[0] && IsNormal(c.scope)
    requires c.complete == db.coverage[keys[0]].complete
    ensures db.coverage[keys[0]].revision == db.dataRevision ==> ListsDeclared(db, keys, [c] + cs)
    ensures db.coverage[keys[0]].revision != db.dataRevision ==> ListsDeclared(db, keys, cs)
  {
    hide CoverageKey, CoverageKeys, IsNormal, StrictlySorted, DeclaresNow, TextOrder;
    SortedTail(keys);
    DeclaredByKey(db, c, keys[0]);
    PrependCoverage(c, cs);
  }

  lemma ParseOneMore(db: Database, keys: seq<Text>, c: Coverage, cs: seq<Coverage>)
    requires keys != [] && forall key | key in keys :: key in db.coverage
    requires ParseCoverageRow(db.coverage[keys[0]], db.dataRevision) == Ok(c) && ParseCoverage(db, keys[1..]) == Ok(cs)
    ensures ParseCoverage(db, keys) == Ok(if db.coverage[keys[0]].revision == db.dataRevision then [c] + cs else cs)
  {
    hide ParseCoverageRow;
    assert [] + cs == cs;
  }

  // Every row of a valid table parses; the export keeps, in order, those of the current revision.
  lemma {:induction false} ParseCoverageExactly(db: Database, keys: seq<Text>)
    requires Valid(db) && StrictlySorted(keys) && forall key | key in keys :: key in db.coverage
    ensures ParseCoverage(db, keys).Ok? && ListsDeclared(db, keys, ParseCoverage(db, keys).value)
  {
    if keys == [] {
      assert StrictlySorted(CoverageKeys([]));
    } else {
      SortedTail(keys);
      hide Valid, CoverageKey, ParseCoverageRow, IsNormal, StrictlySorted, ListsDeclared, ParseCoverage;
      var c := RowCoverage(db, keys[0]);
      ParseCoverageExactly(db, keys[1..]);
      var cs := ParseCoverage(db, keys[1..]).value;
      ListOneMore(db, keys, c, cs);
      ParseOneMore(db, keys, c, cs);
    }
  }

  lemma SortedTail(keys: seq<Text>)
    requires StrictlySorted(keys) && keys != []
    ensures StrictlySorted(keys[1..])
    ensures forall key | key in keys[1..] :: Before(keys[0], key)
    ensures forall key :: key in keys <==> key == keys[0] || key in keys[1..]
  {
    hide TextOrder;
    assert keys == [keys[0]] + keys[1..];
  }

  // The row under a key declares this coverage and no other.
  lemma DeclaredByKey(db: Database, c: Coverage, key: Text)
    requires key in db.coverage && CoverageKey(c.scope) == key && c.complete == db.coverage[key].complete
    ensures forall d: Coverage | CoverageKey(d.scope) == key ::
              DeclaresNow(db, d) <==> d == c && db.coverage[key].revision == db.dataRevision
  {
    hide CoverageKey;
    forall d: Coverage | CoverageKey(d.scope) == key ensures d.scope == c.scope {
      CoverageKeyInjective(d.scope, c.scope);
    }
  }

  // What an export says of a database.
  ghost predicate Describes(x: StoreExport, db: Database) {
    && NormalExport(x)
    && x.source == db.source && x.snapshot == db.snapshot && x.dataRevision == db.dataRevision
    && Objects(x.entries) == Contents(db)
    && forall c :: c in x.coverage <==> DeclaresNow(db, c)
  }

  lemma ListedDistinct(records: map<Text, Json>, ids: seq<Text>)
    requires StrictlySorted(ids)
    ensures DistinctIds(Listed(records, ids))
  {
    hide TextOrder;
    StrictlySortedDistinct(ids);
  }

  lemma ListedObjects(records: map<Text, Json>, ids: seq<Text>)
    requires StrictlySorted(ids) && Elements(ids) == records.Keys
    ensures Ids(Listed(records, ids)) == ids
    ensures Objects(Listed(records, ids)) == records
  {
    hide StrictlySorted, Objects, TextOrder;
    var es := Listed(records, ids);
    assert Ids(es) == ids;
    ListedDistinct(records, ids);
    ObjectsOf(es);
    forall id | id in records ensures id in Objects(es) && Objects(es)[id] == records[id] {
      var i :| 0 <= i < |ids| && ids[i] == id;
      assert es[i].objectId == id;
    }
    forall id | id in Objects(es) ensures id in records {
      var i :| 0 <= i < |es| && es[i].objectId == id;
      assert ids[i] in Elements(ids);
    }
  }

  lemma ListedNormal(db: Database, ids: seq<Text>)
    requires Valid(db) && StrictlySorted(ids) && forall id | id in ids :: id in db.objects
    ensures NormalEntries(Listed(Contents(db), ids))
  {
    hide Contents, ValidRow, IsCanonicalObjectId, ValidCoverageRow, StrictlySorted;
    assert Ids(Listed(Contents(db), ids)) == ids;
    assert forall i | 0 <= i < |ids| :: ids[i] in ids;
  }

  lemma ExportedEntries(db: Database)
    requires Valid(db)
    ensures var ids := SortedTexts(db.objects.Keys);
            && (forall id | id in ids :: id in db.objects)
            && match ParseRows(db, ids)
               case Err(error) => error == StoreIntegrity && exists id :: id in Contents(db) && !Indexable(Contents(db)[id])
               case Ok(es) =>
                 && (forall id | id in Contents(db) :: Indexable(Contents(db)[id]))
                 && NormalEntries(es) && Objects(es) == Contents(db)
  {
    hide Indexable, Contents, Valid, IsCanonicalObjectId, Objects, ParseRows, StrictlySorted, SortedTexts, Listed;
    var ids := SortedTexts(db.objects.Keys);
    assert forall id :: id in ids <==> id in Elements(ids);
    ContentsKeys(db);
    ParseRowsExactly(db, ids);
    ListedObjects(Contents(db), ids);
    ListedNormal(db, ids);
  }

  lemma ExportedCoverage(db: Database)
    requires Valid(db)
    ensures var keys := SortedTexts(db.coverage.Keys);
            && (forall key | key in keys :: key in db.coverage)
            && ParseCoverage(db, keys).Ok?
            && var cs := ParseCoverage(db, keys).value;
               NormalCoverage(cs) && forall c :: c in cs <==> DeclaresNow(db, c)
  {
    hide Valid, CoverageKey, IsNormal, ParseCoverage;
    var keys := SortedTexts(db.coverage.Keys);
    assert forall key :: key in keys <==> key in Elements(keys);
    ParseCoverageExactly(db, keys);
    var cs := ParseCoverage(db, keys).value;
    assert forall i | 0 <= i < |cs| :: cs[i] in cs;
  }

  // An export succeeds exactly when every stored object is indexable; it then holds every object
  // and every declaration that is still current, in normal form, and the Relay's own
  // normalisation passes it on unchanged.
  lemma ExportExactly(db: Database)
    requires Valid(db)
    ensures ExportSnapshot(db).Ok? <==> Readable(db) && forall id | id in Contents(db) :: Indexable(Contents(db)[id])
    ensures ExportSnapshot(db).Ok? ==> Describes(ExportSnapshot(db).value, db)
    ensures ExportSnapshot(db).Err? ==> ExportSnapshot(db) == Err(StoreIntegrity)
    ensures ExportNormalized(db) == ExportSnapshot(db)
  {
    hide Valid, Indexable, Contents, Objects, NormalEntries, NormalCoverage, DeclaresNow, ParseRows, ParseCoverage,
         SortedTexts;
    ExportedEntries(db);
    ExportedCoverage(db);
    if ExportSnapshot(db).Ok? {
      ExportIdempotent(ExportSnapshot(db).value);
    }
  }

  // ----- Restoring -----

  // Reads of the objects see the rows and nothing else.
  lemma SelectedSame(a: Database, b: Database, scope: Scope)
    requires a.objects == b.objects
    ensures Selected(a, scope) == Selected(b, scope)
  {
    hide RowMatches;
  }

  lemma {:induction false} ParseRowsSame(a: Database, b: Database, ids: seq<Text>)
    requires a.objects == b.objects && forall id | id in ids :: id in a.objects
    ensures ParseRows(a, ids) == ParseRows(b, ids)
  {
    hide ParseStoredEntry;
    if ids != [] {
      ParseRowsSame(a, b, ids[1..]);
    }
  }

  lemma {:induction false} ChunkedSame(a: Database, b: Database, ids: seq<Text>)
    requires a.objects == b.objects
    ensures ChunkedIds(a, ids) == ChunkedIds(b, ids)
  {
    hide Selected;
    if |ids| <= CHUNK_SIZE {
      SelectedSame(a, b, ReleaseScope(ids));
    } else {
      SelectedSame(a, b, ReleaseScope(ids[..CHUNK_SIZE]));
      ChunkedSame(a, b, ids[CHUNK_SIZE..]);
    }
  }

  // Two databases with the same rows, metadata and current declarations answer every read alike.
  ghost predicate SameReads(a: Database, b: Database) {
    && (forall id :: GetObject(a, id) == GetObject(b, id))
    && (forall scope :: ReadComplete(a, scope) == ReadComplete(b, scope))
    && (Readable(a) && Readable(b) ==> forall scope :: Find(a, scope) == Find(b, scope))
    && (Readable(a) && Readable(b) ==>
          forall scope, after, limit :: FindPage(a, scope, after, limit) == FindPage(b, scope, after, limit))
  }

  lemma FindSame(a: Database, b: Database, scope: Scope)
    requires a.objects == b.objects && a.source == b.source && a.snapshot == b.snapshot && Readable(a) && Readable(b)
    requires ReadComplete(a, scope) == ReadComplete(b, scope)
    ensures Find(a, scope) == Find(b, scope)
  {
    hide ParseRows, ReadComplete, SortById, Selected, ChunkedIds;
    SelectedSame(a, b, scope);
    if scope.ReleaseScope? {
      ChunkedSame(a, b, scope.bindingIds);
    }
    FoundIdsStored(a, scope);
    ParseRowsSame(a, b, FoundIds(a, scope));
  }

  lemma FindPageSame(a: Database, b: Database, scope: Scope, after: Option<Text>, limit: int)
    requires a.objects == b.objects && a.source == b.source && a.snapshot == b.snapshot && Readable(a) && Readable(b)
    requires ReadComplete(a, scope) == ReadComplete(b, scope)
    ensures FindPage(a, scope, after, limit) == FindPage(b, scope, after, limit)
  {
    hide ParseRows, ReadComplete, SortById, Selected, IsCanonicalObjectId, After, Take;
    SelectedSame(a, b, scope);
    if limit >= 1 {
      PageIdsStored(a, scope, after, limit);
      ParseRowsSame(a, b, Take(After(Selected(a, scope), after), limit));
    }
  }

  lemma SameTablesSameReads(a: Database, b: Database)
    requires a.objects == b.objects && a.source == b.source && a.snapshot == b.snapshot
    requires forall scope :: ReadComplete(a, scope) == ReadComplete(b, scope)
    ensures SameReads(a, b)
  {
    hide Find, FindPage, ReadComplete, ParseStoredEntry, Readable;
    if Readable(a) && Readable(b) {
      forall scope ensures Find(a, scope) == Find(b, scope) {
        FindSame(a, b, scope);
      }
      forall scope, after, limit ensures FindPage(a, scope, after, limit) == FindPage(b, scope, after, limit) {
        FindPageSame(a, b, scope, after, limit);
      }
    }
  }

  // The coverage an import writes answers as the declarations it was given.
  lemma ImportedComplete(db: Database, cs: seq<Coverage>, scope: Scope)
    requires NormalCoverage(cs) && db.coverage == CoverageTable(cs, db.dataRevision)
    ensures ReadComplete(db, scope) == Ok(Coverage(scope, true) in cs)
  {
    hide NormalCoverage, CoverageTable, CoverageKey;
    var key := CoverageKey(scope);
    if key in db.coverage {
      var i := CoverageTableKey(cs, db.dataRevision, key);
      CoverageKeyInjective(scope, cs[i].scope);
      assert cs[i] in cs;
      forall j | 0 <= j < |cs| && cs[j].scope == scope ensures cs[j].complete == cs[i].complete {
        CoverageTableAt(cs, db.dataRevision, j);
      }
    } else {
      forall j | 0 <= j < |cs| ensures cs[j] != Coverage(scope, true) {
        CoverageTableAt(cs, db.dataRevision, j);
      }
    }
  }

  lemma CompleteAsDeclared(db: Database, scope: Scope)
    requires Valid(db)
    ensures ReadComplete(db, scope) == Ok(DeclaresNow(db, Coverage(scope, true)))
  {
    hide Valid, CoverageKey;
    ReadCompleteValid(db, scope);
  }

  // What restoring the export x of `db` makes of whatever was there before.
  ghost predicate Restores(before: Database, after: Database, db: Database) {
    && Valid(after) && SameReads(db, after)
    && after.objects == db.objects && after.source == db.source && after.snapshot == db.snapshot
    && after.dataRevision == before.dataRevision + 1
  }

  lemma RestoredTables(before: Database, after: Database, db: Database, x: StoreExport)
    requires Valid(db) && Describes(x, db) && Valid(after)
    requires Imported(before, after, x.entries, x.coverage, true, Some(x.source), Some(x.snapshot))
    ensures Restores(before, after, db)
  {
    hide Valid, Contents, Objects, SameReads, CoverageTable, ReadComplete, DeclaresNow, NormalEntries, Bound,
         BoundOption, NormalCoverage;
    var none: map<Text, Json> := map[];
    assert none + Objects(x.entries) == Objects(x.entries);
    MetadataBound(db);
    ContentsIsObjects(db);
    ContentsIsObjects(after);
    SameObjectsSameTable(db.objects, after.objects);
    forall scope ensures ReadComplete(db, scope) == ReadComplete(after, scope) {
      CompleteAsDeclared(db, scope);
      ImportedComplete(after, x.coverage, scope);
    }
    SameTablesSameReads(db, after);
  }

  lemma MetadataBound(db: Database)
    requires Valid(db)
    ensures Bound(db.source) == db.source && BoundOption(db.snapshot) == db.snapshot
  {
    hide Bound, BoundOption, ContentOf, ValidRow, ValidCoverageRow;
  }

  lemma ReplaceDiffers()
    ensures REPLACE != VALIDATE
  {
    assert |REPLACE| == 7 && |VALIDATE| == 8;
  }

  // Export, then replace any readable store with it: every object, every listing, every page and
  // every `complete` answer is what it was in the exported store, and so are source and snapshot;
  // only the revision is the target's own. The restored store is readable again, unless its
  // revision counter was already at the largest safe integer.
  lemma RestorePreserves(db: Database, before: Database)
    requires Valid(db) && Valid(before) && Readable(before) && ExportSnapshot(db).Ok?
    ensures var o := RestoreSnapshot(before, StoreExportJson(ExportSnapshot(db).value), REPLACE);
            && o.result == Ok(Replaced(ImportReceipt(before.dataRevision + 1, |Contents(db)|)))
            && Restores(before, o.db, db)
            && (Readable(o.db) <==> before.dataRevision < MAX_SAFE)
  {
    hide Valid, Contents, Objects, SameReads, ExportSnapshot, Restores, Describes, Imported, ImportNormalized,
         NormalEntries, NormalCoverage;
    var x := ExportSnapshot(db).value;
    ExportDescribes(db);
    ReplaceDiffers();
    RestoreIsImport(before, x);
    ImportEffect(before, x.entries, x.coverage, true, Some(x.source), Some(x.snapshot));
    var o := ImportNormalized(before, x.entries, x.coverage, true, Some(x.source), Some(x.snapshot));
    ImportReceived(before, x, o);
    RestoredTables(before, o.db, db, x);
    CountEntries(db, x);
  }

  lemma ExportDescribes(db: Database)
    requires Valid(db) && ExportSnapshot(db).Ok?
    ensures Describes(ExportSnapshot(db).value, db) && NormalExport(ExportSnapshot(db).value)
    ensures NormalizeStoreExport(StoreExportJson(ExportSnapshot(db).value)) == Ok(ExportSnapshot(db).value)
  {
    hide Valid, Contents, Objects, ExportSnapshot, DeclaresNow, NormalExport;
    ExportExactly(db);
    ExportIdempotent(ExportSnapshot(db).value);
  }

  lemma ImportReceived(before: Database, x: StoreExport, o: Outcome<ImportReceipt>)
    requires NormalExport(x) && o == ImportNormalized(before, x.entries, x.coverage, true, Some(x.source), Some(x.snapshot))
    requires o.result.Ok? && Imported(before, o.db, x.entries, x.coverage, true, Some(x.source), Some(x.snapshot))
    ensures o.result.value == ImportReceipt(before.dataRevision + 1, |x.entries|)
    ensures Valid(o.db) && o.db.dataRevision == before.dataRevision + 1
  {
    hide Valid, Contents, Objects;
  }

  lemma {:induction false} ObjectCount(es: seq<Entry>)
    requires DistinctIds(es)
    ensures |Objects(es)| == |es|
  {
    if es != [] {
      ObjectsStep(es);
      hide Objects, DistinctIds;
      var init, last := es[..|es| - 1], es[|es| - 1];
      ObjectCount(init);
      ObjectsOf(init);
      assert Objects(es).Keys == Objects(init).Keys + {last.objectId};
      assert |Objects(init).Keys| == |Objects(init)|;
    }
  }

  lemma CountEntries(db: Database, x: StoreExport)
    requires Describes(x, db)
    ensures |x.entries| == |Contents(db)|
  {
    hide Contents, Objects, DeclaresNow;
    NormalIds(x.entries);
    ObjectCount(x.entries);
  }

  // ----- A write whose object cannot be read -----

  // Published into a new store, a binding with a lone surrogate in its alias is accepted and
  // stored. From then on neither getObject nor the lookup of its own alias succeeds, although a
  // memory store with the same object answers both, and the store cannot be exported.
  lemma LoneSurrogateAlias(source: Text, snapshot: Option<Text>, id: Text, context: Text)
    requires IsCanonicalObjectId(id) && IsCanonicalObjectId(context)
    ensures var v, scope := LoneSurrogateBinding(context), BindingScope(context, [0xD800]);
            var o := PublishImmutable(EmptyDatabase(source, snapshot), EntriesJson([Entry(id, v)]));
            && o.result == Ok(AppendReceipt(1, 1)) && Contents(o.db) == map[id := v]
            && GetObject(o.db, id) == Err(StoreIntegrity)
            && Find(o.db, scope) == Err(StoreIntegrity)
            && Matching(Contents(o.db), scope) == [Entry(id, v)]
            && ExportSnapshot(o.db) == Err(StoreIntegrity)
  {
    hide Valid, IsCanonicalObjectId, EntryMatches, Indexable, Find, GetObject, Matching, Contents, LoneSurrogateBinding,
         PublishImmutable, ExportSnapshot;
    var v := LoneSurrogateBinding(context);
    FirstPublication(source, snapshot, Entry(id, v));
    SurrogateBinding(context);
    var db := PublishImmutable(EmptyDatabase(source, snapshot), EntriesJson([Entry(id, v)])).db;
    OneUnreadable(db, id, v, BindingScope(context, [0xD800]));
    assert id in Contents(db) && !Indexable(Contents(db)[id]);
    ExportExactly(db);
  }

  lemma FirstPublication(source: Text, snapshot: Option<Text>, e: Entry)
    requires IsCanonicalObjectId(e.objectId)
    ensures var o := PublishImmutable(EmptyDatabase(source, snapshot), EntriesJson([e]));
            && o.result == Ok(AppendReceipt(1, 1))
            && Valid(o.db) && Readable(o.db) && Contents(o.db) == map[e.objectId := e.value]
  {
    hide Valid, Agrees, IsCanonicalObjectId, NormalEntries, Objects, AppendNormalized, PublishImmutable, Appended,
         NormalizedCandidates, EntriesJson, EmptyDatabase, Contents;
    var empty := EmptyDatabase(source, snapshot);
    EmptyIsValid(source, snapshot);
    OneCandidate(e);
    PublishIsAppend(empty, EntriesJson([e]));
    AppendEffect(empty, [e]);
    NothingDisagrees(e);
    assert forall i | 0 <= i < |[e]| :: [e][i] == e;
    FirstAppend(empty, AppendNormalized(empty, [e]).db, e);
  }

  lemma NothingDisagrees(e: Entry)
    ensures Agrees(map[], e)
  {
  }

  lemma FirstAppend(before: Database, after: Database, e: Entry)
    requires before.dataRevision == 0 && Contents(before) == map[] && Objects([e]) == map[e.objectId := e.value]
    requires Readable(before) && Appended(before, after, [e])
    ensures Valid(after) && Readable(after) && after.dataRevision == 1 && Contents(after) == map[e.objectId := e.value]
  {
    hide Valid, Objects, Contents;
    assert e.objectId in Contents(after);
  }

  lemma EmptyIsValid(source: Text, snapshot: Option<Text>)
    ensures Valid(EmptyDatabase(source, snapshot)) && Readable(EmptyDatabase(source, snapshot))
    ensures EmptyDatabase(source, snapshot).dataRevision == 0 && Contents(EmptyDatabase(source, snapshot)) == map[]
  {
    BoundTwice(source, snapshot);
  }
}
