// The SQLite candidate store (src/sqlite-store.js) as a value: its three tables, and what each
// statement or transaction makes of them. Text goes into a column as UTF-8, so a lone surrogate
// is stored as U+FFFD.
module Store {
  import opened Wrappers
  import opened Text
  import opened Utf8
  import opened Sorting
  import opened Numeral
  import opened Json
  import opened JsonParser
  import opened ObjectId
  import opened Scopes
  import opened Collecting
  import opened Validation

  const CHUNK_SIZE := 900
  const PAGE_MAXIMUM := 10000

  // ----- Rows -----

  datatype Indexes = Indexes(
    payloadType: Option<Text>,
    bindContext: Option<Text>,
    bindAlias: Option<Text>,
    releaseBinding: Option<Text>,
    communeContext: Option<Text>)

  datatype Row = Row(objectJson: Text, indexes: Indexes)

  const PAYLOAD: Text := Ascii("payload")
  const TYPE: Text := Ascii("type")
  const BINDING: Text := Ascii("binding")
  const COMMUNE: Text := Ascii("commune")

  const ALIAS_BIND: Text := Ascii("fns.alias.bind")
  const ALIAS_RELEASE: Text := Ascii("fns.alias.release")
  const COMMUNE_UPDATE: Text := Ascii("fns.commune.update")

  function PayloadOf(v: Json): Json {
    if v.JObj? && PAYLOAD in v.members then v.members[PAYLOAD] else JNull
  }

  // deriveIndexes
  function DeriveIndexes(v: Json): Indexes {
    var payload := PayloadOf(v);
    var payloadType := TextMember(payload, TYPE);
    Indexes(
      payloadType,
      if payloadType == Some(ALIAS_BIND) then TextMember(payload, CONTEXT) else None,
      if payloadType == Some(ALIAS_BIND) then TextMember(payload, ALIAS) else None,
      if payloadType == Some(ALIAS_RELEASE) then TextMember(payload, BINDING) else None,
      if payloadType == Some(COMMUNE_UPDATE) then TextMember(payload, COMMUNE) else None)
  }

  // A text bound to a statement, as the column or the comparison sees it.
  function Bound(t: Text): Text {
    ToWellFormed(t)
  }

  function BoundOption(t: Option<Text>): Option<Text> {
    match t case Some(text) => Some(Bound(text)) case None => None
  }

  function BoundIndexes(x: Indexes): Indexes {
    Indexes(
      BoundOption(x.payloadType), BoundOption(x.bindContext), BoundOption(x.bindAlias),
      BoundOption(x.releaseBinding), BoundOption(x.communeContext))
  }

  // The row that normalizeEntry and insertEntry make of an object.
  function RowOf(v: Json): Row {
    Row(Bound(Print(v)), BoundIndexes(DeriveIndexes(v)))
  }

  // parseStoredEntry
  function ParseStoredEntry(id: Text, row: Row): Result<Entry> {
    if !IsCanonicalObjectId(id) then Err(StoreIntegrity)
    else
      match Parse(row.objectJson)
      case None => Err(StoreIntegrity)
      case Some(v) =>
        if Print(v) != row.objectJson || DeriveIndexes(v) != row.indexes then Err(StoreIntegrity)
        else Ok(Entry(id, v))
  }

  // The text fields discovery indexes have no lone surrogate.
  predicate Indexable(v: Json) {
    BoundIndexes(DeriveIndexes(v)) == DeriveIndexes(v)
  }

  lemma ObjectTextSurvives(v: Json)
    ensures RowOf(v).objectJson == Print(v)
  {
    PrintWellFormed(v);
    SurvivesUtf8(Print(v));
  }

  // What was written reads back exactly when its indexed fields are well-formed text; otherwise
  // the stored columns no longer match the stored object.
  lemma ParseRowOf(id: Text, v: Json)
    requires IsCanonicalObjectId(id)
    ensures ParseStoredEntry(id, RowOf(v)) == if Indexable(v) then Ok(Entry(id, v)) else Err(StoreIntegrity)
  {
    ObjectTextSurvives(v);
    PrintParse(v);
  }

  // What a stored row needs to be read: a canonical id, the canonical text of an object, and the
  // indexes derived from that object. Any other row is an integrity error.
  lemma ParseStoredExactly(id: Text, row: Row, e: Entry)
    ensures ParseStoredEntry(id, row) == Ok(e) <==>
            && e.objectId == id && IsCanonicalObjectId(id)
            && row.objectJson == Print(e.value) && row.indexes == DeriveIndexes(e.value)
    ensures ParseStoredEntry(id, row).Err? ==> ParseStoredEntry(id, row) == Err(StoreIntegrity)
  {
    hide Print, Parse, DeriveIndexes, IsCanonicalObjectId;
    PrintParse(e.value);
  }

  // ----- The database -----

  // The primary key (method, scope_json) of a coverage row is one text, the two parts separated
  // by a NUL.
  datatype CoverageRow = CoverageRow(kind: Discovery, scopeJson: Text, complete: bool, revision: nat)

  datatype Database = Database(
    source: Text,
    snapshot: Option<Text>,
    dataRevision: nat,
    objects: map<Text, Row>,
    coverage: map<Text, CoverageRow>)

  function EmptyDatabase(source: Text, snapshot: Option<Text>): Database {
    Database(Bound(source), BoundOption(snapshot), 0, map[], map[])
  }

  // The check of readMetadata.
  predicate Readable(db: Database) {
    db.dataRevision <= MAX_SAFE
  }

  function RowKey(row: CoverageRow): Text {
    MethodName(row.kind) + [0] + row.scopeJson
  }

  function CoverageRowOf(c: Coverage, revision: nat): CoverageRow {
    CoverageRow(c.scope.Kind(), Bound(ScopeText(c.scope)), c.complete, revision)
  }

  lemma ScopeTextSurvives(scope: Scope)
    ensures Bound(ScopeText(scope)) == ScopeText(scope)
  {
    PrintWellFormed(ScopeJson(scope));
    SurvivesUtf8(ScopeText(scope));
  }

  // The scope a stored text stands for, if it is the canonical text of a normal scope.
  function ScopeFrom(kind: Discovery, scopeJson: Text): Option<Scope> {
    match Parse(scopeJson)
    case None => None
    case Some(v) =>
      match ReadScope(kind, v)
      case None => None
      case Some(scope) => if ScopeText(scope) == scopeJson then Some(scope) else None
  }

  lemma ScopeFromText(scope: Scope)
    requires IsNormal(scope)
    ensures ScopeFrom(scope.Kind(), ScopeText(scope)) == Some(scope)
  {
    PrintParse(ScopeJson(scope));
    ReadScopeJson(scope);
  }

  // A stored scope is read exactly if it is the canonical text of a normal scope of that method.
  lemma ScopeFromExactly(kind: Discovery, scopeJson: Text, scope: Scope)
    ensures ScopeFrom(kind, scopeJson) == Some(scope) <==>
            scope.Kind() == kind && IsNormal(scope) && scopeJson == ScopeText(scope)
  {
    hide Print, Parse, ReadScope, ScopeJson, IsNormal;
    PrintParse(ScopeJson(scope));
    ReadScopeJson(scope);
    if Parse(scopeJson).Some? && ReadScope(kind, Parse(scopeJson).value).Some? {
      ReadScopeNormal(kind, Parse(scopeJson).value);
    }
  }

  // parseCoverageRow, without the revision it also returns.
  function ParseCoverageRow(row: CoverageRow, dataRevision: nat): Result<Coverage> {
    match ScopeFrom(row.kind, row.scopeJson)
    case None => Err(StoreIntegrity)
    case Some(scope) => if row.revision > dataRevision then Err(StoreIntegrity) else Ok(Coverage(scope, row.complete))
  }

  // ----- What the tables hold in every reachable state -----

  // A coverage row is read exactly if its scope is and its revision is not above the store's.
  lemma ParseCoverageRowExactly(row: CoverageRow, dataRevision: nat, c: Coverage)
    ensures ParseCoverageRow(row, dataRevision) == Ok(c) <==>
            && row.revision <= dataRevision && row.complete == c.complete
            && row.kind == c.scope.Kind() && IsNormal(c.scope) && row.scopeJson == ScopeText(c.scope)
    ensures ParseCoverageRow(row, dataRevision).Err? ==> ParseCoverageRow(row, dataRevision) == Err(StoreIntegrity)
  {
    hide ScopeFrom, ScopeText, IsNormal;
    ScopeFromExactly(row.kind, row.scopeJson, c.scope);
  }

  predicate ValidRow(row: Row) {
    var v := Parse(row.objectJson);
    v.Some? && row == RowOf(v.value)
  }

  predicate ValidCoverageRow(key: Text, row: CoverageRow, dataRevision: nat) {
    var scope := ScopeFrom(row.kind, row.scopeJson);
    scope.Some? && key == CoverageKey(scope.value) && RowKey(row) == key && scope.value.Kind() == row.kind &&
    row.revision <= dataRevision
  }

  predicate Valid(db: Database) {
    && (forall id | id in db.objects :: IsCanonicalObjectId(id) && ValidRow(db.objects[id]))
    && (forall key | key in db.coverage :: ValidCoverageRow(key, db.coverage[key], db.dataRevision))
    && Bound(db.source) == db.source && BoundOption(db.snapshot) == db.snapshot
  }

  // What has been through a column once goes through unchanged.
  lemma BoundTwice(t: Text, option: Option<Text>)
    ensures Bound(Bound(t)) == Bound(t)
    ensures BoundOption(BoundOption(option)) == BoundOption(option)
  {
    ToWellFormedIdempotent(t);
    if option.Some? {
      ToWellFormedIdempotent(option.value);
    }
  }

  // The object a stored text stands for.
  function ContentOf(row: Row): Json {
    match Parse(row.objectJson) case Some(v) => v case None => JNull
  }

  // The objects of a table, by id.
  function ObjectsIn(objects: map<Text, Row>): map<Text, Json> {
    map id | id in objects :: ContentOf(objects[id])
  }

  // The stored objects, by id.
  function Contents(db: Database): map<Text, Json> {
    ObjectsIn(db.objects)
  }

  lemma RowOfValid(v: Json)
    ensures ValidRow(RowOf(v)) && ContentOf(RowOf(v)) == v
  {
    ObjectTextSurvives(v);
    PrintParse(v);
  }

  lemma CoverageRowValid(c: Coverage, revision: nat, dataRevision: nat)
    requires IsNormal(c.scope) && revision <= dataRevision
    ensures ValidCoverageRow(CoverageKey(c.scope), CoverageRowOf(c, revision), dataRevision)
  {
    ScopeTextSurvives(c.scope);
    ScopeFromText(c.scope);
  }

  // ----- Writing -----

  // normalizeEntries: malformed input and conflicting input raise different errors.
  function NormalizedEntries(entries: Json): Result<seq<Entry>> {
    if !entries.JArr? then
      Err(InvalidRequest)
    else
      match Collect(EntryItems(entries.items))
      case Collected(table) => Ok(Listing(table))
      case Malformed => Err(InvalidRequest)
      case Conflict => Err(StoreIntegrity)
  }

  // normalizeCoverage: both kinds of failure are request errors.
  function NormalizedCoverageRequest(coverage: Json): Result<seq<Coverage>> {
    match NormalizedCoverage(coverage)
    case Ok(cs) => Ok(cs)
    case Err(_) => Err(InvalidRequest)
  }

  // The table after inserting the entries in turn, or None where one conflicts with a stored row.
  function Inserted(objects: map<Text, Row>, es: seq<Entry>): Option<map<Text, Row>> {
    if es == [] then
      Some(objects)
    else
      match Inserted(objects, es[..|es| - 1])
      case None => None
      case Some(table) => InsertedOne(table, es[|es| - 1])
  }

  function InsertedOne(objects: map<Text, Row>, e: Entry): Option<map<Text, Row>> {
    if e.objectId !in objects then Some(objects[e.objectId := RowOf(e.value)])
    else if objects[e.objectId].objectJson == Print(e.value) then Some(objects)
    else None
  }

  // A committed or rolled-back transaction: what the caller gets, and the database after it.
  datatype Outcome<+T> = Outcome(result: Result<T>, db: Database)

  datatype AppendReceipt = AppendReceipt(dataRevision: nat, inserted: nat)
  datatype ImportReceipt = ImportReceipt(dataRevision: nat, objects: nat)

  // appendEntries: coverage is dropped and the revision moves on only when something was new.
  function Append(db: Database, entries: Json): Outcome<AppendReceipt> {
    match NormalizedEntries(entries)
    case Err(error) => Outcome(Err(error), db)
    case Ok(es) => AppendNormalized(db, es)
  }

  function AppendNormalized(db: Database, es: seq<Entry>): Outcome<AppendReceipt> {
    if !Readable(db) then
      Outcome(Err(StoreIntegrity), db)
    else
      match Inserted(db.objects, es)
      case None => Outcome(Err(StoreIntegrity), db)
      case Some(objects) =>
        InsertedGrows(db.objects, es);
        var inserted: nat := |objects| - |db.objects|;
        if inserted == 0 then
          Outcome(Ok(AppendReceipt(db.dataRevision, 0)), db)
        else
          var next := db.dataRevision + 1;
          Outcome(Ok(AppendReceipt(next, inserted)), db.(dataRevision := next, objects := objects, coverage := map[]))
  }

  datatype ImportRequest = ImportRequest(
    entries: Json, coverage: Json, replace: bool, source: Option<Text>, snapshot: Option<Option<Text>>)

  function CoverageTable(cs: seq<Coverage>, revision: nat): map<Text, CoverageRow>
    requires StrictlySorted(CoverageKeys(cs))
  {
    Tabulate(CoverageKeys(cs), seq(|cs|, i requires 0 <= i < |cs| => CoverageRowOf(cs[i], revision)))
  }

  // importSnapshot
  function Import(db: Database, request: ImportRequest): Outcome<ImportReceipt> {
    match NormalizedEntries(request.entries)
    case Err(error) => Outcome(Err(error), db)
    case Ok(es) =>
      match NormalizedCoverageRequest(request.coverage)
      case Err(error) => Outcome(Err(error), db)
      case Ok(cs) =>
        CoverageNormal(request.coverage);
        ImportNormalized(db, es, cs, request.replace, request.source, request.snapshot)
  }

  // The tables after an import that leaves these objects.
  function ImportedTables(
    db: Database, objects: map<Text, Row>, cs: seq<Coverage>, source: Option<Text>, snapshot: Option<Option<Text>>): Database
    requires NormalCoverage(cs)
  {
    Database(
      match source case Some(text) => Bound(text) case None => db.source,
      match snapshot case Some(text) => BoundOption(text) case None => db.snapshot,
      db.dataRevision + 1, objects, CoverageTable(cs, db.dataRevision + 1))
  }

  function ImportNormalized(
    db: Database, es: seq<Entry>, cs: seq<Coverage>, replace: bool, source: Option<Text>, snapshot: Option<Option<Text>>)
    : Outcome<ImportReceipt>
    requires NormalCoverage(cs)
  {
    if !Readable(db) then
      Outcome(Err(StoreIntegrity), db)
    else
      match Inserted(if replace then map[] else db.objects, es)
      case None => Outcome(Err(StoreIntegrity), db)
      case Some(objects) =>
        Outcome(Ok(ImportReceipt(db.dataRevision + 1, |es|)), ImportedTables(db, objects, cs, source, snapshot))
  }

  // The INSERT ... ON CONFLICT DO UPDATE of setCoverage, with the revision its first statement read.
  function WriteCoverage(db: Database, c: Coverage, revision: nat): Database {
    db.(coverage := db.coverage[CoverageKey(c.scope) := CoverageRowOf(c, revision)])
  }

  lemma {:induction false} InsertedGrows(objects: map<Text, Row>, es: seq<Entry>)
    requires Inserted(objects, es).Some?
    ensures |objects| <= |Inserted(objects, es).value|
    ensures forall id | id in objects :: id in Inserted(objects, es).value && Inserted(objects, es).value[id] == objects[id]
  {
    if es != [] {
      InsertedGrows(objects, es[..|es| - 1]);
    }
  }

  // ----- Reading -----

  // readComplete
  function ReadComplete(db: Database, scope: Scope): Result<bool> {
    var key := CoverageKey(scope);
    if key !in db.coverage then Ok(false)
    else if db.coverage[key].revision > db.dataRevision then Err(StoreIntegrity)
    else Ok(db.coverage[key].complete && db.coverage[key].revision == db.dataRevision)
  }

  // Complete exactly with a row of the scope that says so at the store's own revision; a row from
  // a later revision is an integrity error.
  lemma ReadCompleteExactly(db: Database, scope: Scope)
    ensures ReadComplete(db, scope) == Ok(true) <==>
            exists key :: key in db.coverage && key == CoverageKey(scope) && db.coverage[key].complete &&
                          db.coverage[key].revision == db.dataRevision
    ensures ReadComplete(db, scope).Err? <==>
            exists key :: key in db.coverage && key == CoverageKey(scope) && db.coverage[key].revision > db.dataRevision
    ensures ReadComplete(db, scope).Err? ==> ReadComplete(db, scope) == Err(StoreIntegrity)
  {
    hide CoverageKey;
  }

  // The WHERE clauses of the three discovery queries.
  predicate RowMatches(scope: Scope, id: Text, row: Row) {
    match scope
    case BindingScope(context, alias) =>
      row.indexes.payloadType == Some(ALIAS_BIND) && row.indexes.bindContext == Some(Bound(context)) &&
      row.indexes.bindAlias == Some(Bound(alias))
    case ReleaseScope(ids) =>
      row.indexes.payloadType == Some(ALIAS_RELEASE) && row.indexes.releaseBinding.Some? &&
      row.indexes.releaseBinding.value in ids
    case CommuneScope(context) =>
      id == context || (row.indexes.payloadType == Some(COMMUNE_UPDATE) && row.indexes.communeContext == Some(Bound(context)))
  }

  // The ids a query selects, ORDER BY object_id.
  function Selected(db: Database, scope: Scope): seq<Text> {
    SortedTexts(set id | id in db.objects && RowMatches(scope, id, db.objects[id]))
  }

  lemma SelectedElements(db: Database, scope: Scope)
    ensures StrictlySorted(Selected(db, scope))
    ensures forall id :: id in Selected(db, scope) <==> id in db.objects && RowMatches(scope, id, db.objects[id])
  {
    assert forall id :: id in Selected(db, scope) <==> id in Elements(Selected(db, scope));
  }

  // rows.map(parseStoredEntry)
  function ParseRows(db: Database, ids: seq<Text>): Result<seq<Entry>>
    requires forall id | id in ids :: id in db.objects
  {
    if ids == [] then
      Ok([])
    else
      match ParseStoredEntry(ids[0], db.objects[ids[0]])
      case Err(error) => Err(error)
      case Ok(e) =>
        match ParseRows(db, ids[1..])
        case Err(error) => Err(error)
        case Ok(es) => Ok([e] + es)
  }

  datatype Envelope = Envelope(source: Text, snapshot: Option<Text>, scope: Scope, objects: seq<Entry>, complete: bool)

  // objects.sort(byObjectId): a stable sort.
  function InsertById(e: Entry, sorted: seq<Entry>): seq<Entry> {
    if sorted == [] || Before(e.objectId, sorted[0].objectId) then [e] + sorted else [sorted[0]] + InsertById(e, sorted[1..])
  }

  function SortById(es: seq<Entry>): seq<Entry> {
    if es == [] then [] else InsertById(es[|es| - 1], SortById(es[..|es| - 1]))
  }

  // The lookups of findAliasReleases, 900 ids at a time, one after the other.
  function ChunkedIds(db: Database, ids: seq<Text>): seq<Text> {
    if |ids| <= CHUNK_SIZE then
      if ids == [] then [] else Selected(db, ReleaseScope(ids))
    else
      Selected(db, ReleaseScope(ids[..CHUNK_SIZE])) + ChunkedIds(db, ids[CHUNK_SIZE..])
  }

  function FoundIds(db: Database, scope: Scope): seq<Text> {
    if scope.ReleaseScope? then ChunkedIds(db, scope.bindingIds) else Selected(db, scope)
  }

  lemma {:induction false} ChunkedIdsStored(db: Database, ids: seq<Text>)
    ensures forall id | id in ChunkedIds(db, ids) :: id in db.objects
  {
    if |ids| <= CHUNK_SIZE {
      SelectedElements(db, ReleaseScope(ids));
    } else {
      SelectedElements(db, ReleaseScope(ids[..CHUNK_SIZE]));
      ChunkedIdsStored(db, ids[CHUNK_SIZE..]);
    }
  }

  lemma FoundIdsStored(db: Database, scope: Scope)
    ensures forall id | id in FoundIds(db, scope) :: id in db.objects
  {
    if scope.ReleaseScope? {
      ChunkedIdsStored(db, scope.bindingIds);
    } else {
      SelectedElements(db, scope);
    }
  }

  // findAliasBindings, findAliasReleases and findCommuneDocuments on a normalised scope.
  function Find(db: Database, scope: Scope): Result<Envelope> {
    if !Readable(db) then
      Err(StoreIntegrity)
    else
      FoundIdsStored(db, scope);
      match ParseRows(db, FoundIds(db, scope))
      case Err(error) => Err(error)
      case Ok(es) =>
        match ReadComplete(db, scope)
        case Err(error) => Err(error)
        case Ok(complete) => Ok(Envelope(db.source, db.snapshot, scope, SortById(es), complete))
  }

  // getObject
  function GetObject(db: Database, id: Text): Result<Option<Entry>> {
    if !IsCanonicalObjectId(id) then Err(InvalidRequest)
    else if id !in db.objects then Ok(None)
    else
      match ParseStoredEntry(id, db.objects[id])
      case Ok(e) => Ok(Some(e))
      case Err(error) => Err(error)
  }

  datatype Page = Page(envelope: Envelope, hasMore: bool)

  // The ids after a cursor position.
  function After(ids: seq<Text>, after: Option<Text>): seq<Text> {
    match after
    case None => ids
    case Some(last) => if ids == [] || Before(last, ids[0]) then ids else After(ids[1..], after)
  }

  function Take<T>(s: seq<T>, n: nat): seq<T> {
    if |s| <= n then s else s[..n]
  }

  lemma {:induction false} AfterSuffix(ids: seq<Text>, after: Option<Text>)
    ensures exists n: nat :: n <= |ids| && After(ids, after) == ids[n..]
    ensures forall id | id in After(ids, after) :: id in ids
  {
    if after.Some? && ids != [] && !Before(after.value, ids[0]) {
      AfterSuffix(ids[1..], after);
      var n: nat :| n <= |ids[1..]| && After(ids[1..], after) == ids[1..][n..];
      assert ids[1..][n..] == ids[n + 1..];
    } else {
      assert ids[0..] == ids;
    }
  }

  lemma PageIdsStored(db: Database, scope: Scope, after: Option<Text>, limit: nat)
    ensures forall id | id in Take(After(Selected(db, scope), after), limit) :: id in db.objects
  {
    SelectedElements(db, scope);
    AfterSuffix(Selected(db, scope), after);
  }

  // The three find*Page functions on a normalised scope: the rows past the cursor, one more than
  // the limit, of which only the first `limit` are parsed.
  function FindPage(db: Database, scope: Scope, after: Option<Text>, limit: int): Result<Page> {
    if limit < 1 || limit > PAGE_MAXIMUM then Err(InvalidRequest)
    else if after.Some? && !IsCanonicalObjectId(after.value) then Err(InvalidRequest)
    else if scope.ReleaseScope? && |scope.bindingIds| > CHUNK_SIZE then Err(InvalidRequest)
    else if !Readable(db) then Err(StoreIntegrity)
    else
      PageIdsStored(db, scope, after, limit);
      var rows := Take(After(Selected(db, scope), after), limit + 1);
      match ParseRows(db, Take(After(Selected(db, scope), after), limit))
      case Err(error) => Err(error)
      case Ok(es) =>
        match ReadComplete(db, scope)
        case Err(error) => Err(error)
        case Ok(complete) =>
          Ok(Page(Envelope(db.source, db.snapshot, scope, SortById(es), complete), |rows| > limit))
  }

  // exportSnapshot, as normalizeStoreExport passes it on: every object, and the coverage declared
  // at the current revision.
  function ExportSnapshot(db: Database): Result<StoreExport> {
    if !Readable(db) then
      Err(StoreIntegrity)
    else
      var ids := SortedTexts(db.objects.Keys);
      assert forall id :: id in ids <==> id in Elements(ids);
      match ParseRows(db, ids)
      case Err(error) => Err(error)
      case Ok(es) =>
        var keys := SortedTexts(db.coverage.Keys);
        assert forall key :: key in keys <==> key in Elements(keys);
        match ParseCoverage(db, keys)
        case Err(error) => Err(error)
        case Ok(cs) => Ok(StoreExport(db.source, db.snapshot, db.dataRevision, es, cs))
  }

  // Every coverage row is parsed; the ones of the current revision are kept.
  function ParseCoverage(db: Database, keys: seq<Text>): Result<seq<Coverage>>
    requires forall key | key in keys :: key in db.coverage
  {
    if keys == [] then
      Ok([])
    else
      match ParseCoverageRow(db.coverage[keys[0]], db.dataRevision)
      case Err(error) => Err(error)
      case Ok(c) =>
        match ParseCoverage(db, keys[1..])
        case Err(error) => Err(error)
        case Ok(cs) => Ok((if db.coverage[keys[0]].revision == db.dataRevision then [c] else []) + cs)
  }
}
