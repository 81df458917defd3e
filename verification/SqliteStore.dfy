// SQLiteStore and SQLiteStoreAdmin (src/sqlite-store.js) as an object: its tables are fields that
// transactions change row by row and roll back on failure. Each operation is proved to have the
// effect that Store gives for it.
module SqliteStore {
  import opened Wrappers
  import opened Text
  import opened Sorting
  import opened Numeral
  import opened Json
  import opened Scopes
  import opened Collecting
  import opened Validation
  import opened Store

  // ----- Lookups in parts -----

  lemma {:induction false} ParseRowsConcat(db: Database, a: seq<Text>, b: seq<Text>)
    requires forall id | id in a + b :: id in db.objects
    requires forall id | id in a :: id in db.objects
    requires forall id | id in b :: id in db.objects
    ensures ParseRows(db, a + b) ==
            match ParseRows(db, a)
            case Err(error) => Err(error)
            case Ok(first) =>
              match ParseRows(db, b)
              case Err(error) => Err(error)
              case Ok(second) => Ok(first + second)
  {
    hide ParseStoredEntry;
    if a == [] {
      assert a + b == b;
      assert forall second: seq<Entry> :: [] + second == second;
    } else {
      assert (a + b)[0] == a[0] && (a + b)[1..] == a[1..] + b;
      ParseRowsConcat(db, a[1..], b);
      if ParseRows(db, a).Ok? && ParseRows(db, b).Ok? {
        EntryFirst(ParseRows(db, a).value[0], ParseRows(db, a[1..]).value, ParseRows(db, b).value);
      }
    }
  }

  lemma EntryFirst(e: Entry, a: seq<Entry>, b: seq<Entry>)
    ensures [e] + (a + b) == [e] + a + b
  {
  }

  lemma ChunkedIdsStep(db: Database, ids: seq<Text>)
    requires ids != []
    ensures var n := if |ids| <= CHUNK_SIZE then |ids| else CHUNK_SIZE;
            ChunkedIds(db, ids) == Selected(db, ReleaseScope(ids[..n])) + ChunkedIds(db, ids[n..])
  {
    hide Selected;
    if |ids| <= CHUNK_SIZE {
      assert ids[..|ids|] == ids && ids[|ids|..] == [];
      assert Selected(db, ReleaseScope(ids)) + [] == Selected(db, ReleaseScope(ids));
    }
  }

  // What is left of a lookup after a first chunk has been read.
  lemma ParseChunk(db: Database, ids: seq<Text>, n: nat)
    requires ids != [] && n == (if |ids| <= CHUNK_SIZE then |ids| else CHUNK_SIZE)
    ensures (forall id | id in ChunkedIds(db, ids) :: id in db.objects)
    ensures (forall id | id in ChunkedIds(db, ids[n..]) :: id in db.objects)
    ensures (forall id | id in Selected(db, ReleaseScope(ids[..n])) :: id in db.objects)
    ensures ParseRows(db, ChunkedIds(db, ids)) ==
            match ParseRows(db, Selected(db, ReleaseScope(ids[..n])))
            case Err(error) => Err(error)
            case Ok(first) =>
              match ParseRows(db, ChunkedIds(db, ids[n..]))
              case Err(error) => Err(error)
              case Ok(second) => Ok(first + second)
  {
    hide Selected, ParseRows, ChunkedIds;
    ChunkedIdsStored(db, ids);
    ChunkedIdsStored(db, ids[n..]);
    SelectedElements(db, ReleaseScope(ids[..n]));
    ChunkedIdsStep(db, ids);
    ParseRowsConcat(db, Selected(db, ReleaseScope(ids[..n])), ChunkedIds(db, ids[n..]));
  }

  // ----- Insertion row by row -----

  lemma InsertedStep(objects: map<Text, Row>, es: seq<Entry>, n: nat)
    requires n < |es| && Inserted(objects, es[..n]).Some?
    ensures Inserted(objects, es[..n + 1]) == InsertedOne(Inserted(objects, es[..n]).value, es[n])
  {
    assert es[..n + 1][..n] == es[..n];
  }

  lemma {:induction false} InsertedPrefix(objects: map<Text, Row>, es: seq<Entry>, n: nat)
    requires n <= |es|
    ensures Inserted(objects, es[..n]).None? ==> Inserted(objects, es).None?
    decreases |es|
  {
    hide InsertedOne;
    if n == |es| {
      assert es[..n] == es;
    } else {
      assert es[..|es| - 1][..n] == es[..n];
      InsertedPrefix(objects, es[..|es| - 1], n);
    }
  }

  class SQLiteStore {
    const readonly: bool
    var source: Text
    var snapshot: Option<Text>
    var dataRevision: nat
    var objects: map<Text, Row>
    var coverage: map<Text, CoverageRow>

    // A newly migrated store.
    constructor (source: Text, snapshot: Option<Text>, readonly: bool)
      ensures State() == EmptyDatabase(source, snapshot) && this.readonly == readonly
    {
      this.readonly := readonly;
      this.source, this.snapshot := Bound(source), BoundOption(snapshot);
      dataRevision, objects, coverage := 0, map[], map[];
    }

    function State(): Database
      reads this
    {
      Database(source, snapshot, dataRevision, objects, coverage)
    }

    // The loop of normalizeEntries, which tells malformed entries from conflicting ones.
    static method NormalizeEntries(entries: Json) returns (r: Result<seq<Entry>>)
      ensures r == NormalizedEntries(entries)
    {
      if !entries.JArr? {
        return Err(InvalidRequest);
      }
      var byId: map<Text, Entry> := map[];
      var i := 0;
      assert EntryItems(entries.items)[..0] == [];
      assert Collect(EntryItems(entries.items)[..0]) == Collected(byId);
      EntryItemsWhole(entries.items);
      hide Collect, EntryItems, ReadEntry, Print, Listing;
      while i < |entries.items|
        invariant 0 <= i <= |entries.items|
        invariant Collect(EntryItems(entries.items)[..i]) == Collected(byId)
        invariant forall id | id in byId :: byId[id].objectId == id
      {
        EntryTurn(entries.items, i, byId);
        var value := ReadEntry(entries.items[i]);
        if value.None? {
          return Err(InvalidRequest);
        }
        var normalized := value.value;
        if normalized.objectId in byId {
          var previous := byId[normalized.objectId];
          if Print(previous.value) != Print(normalized.value) {
            return Err(StoreIntegrity);
          }
        }
        byId := byId[normalized.objectId := normalized];
        i := i + 1;
      }
      return Ok(Listing(byId));
    }

    // assertNoStoredConflict and insertEntry.
    method InsertEntry(e: Entry) returns (added: Option<bool>)
      modifies this`objects
      ensures match InsertedOne(old(objects), e)
              case None => added == None && objects == old(objects)
              case Some(next) => added == Some(e.objectId !in old(objects)) && objects == next
    {
      if e.objectId in objects {
        if objects[e.objectId].objectJson != Print(e.value) {
          return None;
        }
        return Some(false);
      }
      objects := objects[e.objectId := RowOf(e.value)];
      return Some(true);
    }

    // The insertion loop both transactions share.
    method InsertAll(es: seq<Entry>) returns (inserted: Option<nat>)
      modifies this`objects
      ensures match Inserted(old(objects), es)
              case None => inserted == None
              case Some(next) => objects == next && |old(objects)| <= |next| && inserted == Some(|next| - |old(objects)|)
    {
      var count := 0;
      var i := 0;
      while i < |es|
        invariant 0 <= i <= |es|
        invariant Inserted(old(objects), es[..i]) == Some(objects)
        invariant |objects| == |old(objects)| + count
      {
        InsertedStep(old(objects), es, i);
        InsertedPrefix(old(objects), es, i + 1);
        var added := InsertEntry(es[i]);
        if added.None? {
          return None;
        }
        if added.value {
          count := count + 1;
        }
        i := i + 1;
      }
      assert es[..i] == es;
      return Some(count);
    }

    // appendEntries
    method AppendEntries(entries: Json) returns (r: Result<AppendReceipt>)
      modifies this
      ensures match NormalizedEntries(entries)
              case Err(error) => r == Err(error) && State() == old(State())
              case Ok(_) =>
                if readonly then r == Err(StoreAccess) && State() == old(State())
                else Outcome(r, State()) == Append(old(State()), entries)
    {
      hide NormalizedEntries, Inserted;
      var normalized := NormalizeEntries(entries);
      if normalized.Err? {
        return Err(normalized.error);
      }
      if readonly {
        return Err(StoreAccess);
      }
      if dataRevision > MAX_SAFE {
        return Err(StoreIntegrity);
      }
      var before := objects;
      var inserted := InsertAll(normalized.value);
      if inserted.None? {
        objects := before;
        return Err(StoreIntegrity);
      }
      if inserted.value == 0 {
        UnchangedTable(before, objects, normalized.value);
        return Ok(AppendReceipt(dataRevision, 0));
      }
      coverage := map[];
      dataRevision := dataRevision + 1;
      return Ok(AppendReceipt(dataRevision, inserted.value));
    }

    static lemma UnchangedTable(before: map<Text, Row>, after: map<Text, Row>, es: seq<Entry>)
      requires Inserted(before, es) == Some(after) && |after| == |before|
      ensures after == before
    {
      InsertedGrows(before, es);
      assert before.Keys <= after.Keys;
      assert |after.Keys - before.Keys| == 0;
    }

    // insertCoverage: plain inserts. The key of each row is new, so none of them violates the
    // primary key.
    method InsertCoverage(cs: seq<Coverage>, revision: nat)
      requires NormalCoverage(cs) && coverage == map[]
      modifies this`coverage
      ensures coverage == CoverageTable(cs, revision)
    {
      hide CoverageKey, CoverageRowOf, IsNormal, TextOrder, CoverageTable;
      ghost var keys := CoverageKeys(cs);
      StrictlySortedDistinct(keys);
      var i := 0;
      while i < |cs|
        invariant 0 <= i <= |cs|
        invariant forall j | 0 <= j < i :: keys[j] in coverage && coverage[keys[j]] == CoverageRowOf(cs[j], revision)
        invariant forall key | key in coverage :: exists j :: 0 <= j < i && keys[j] == key
      {
        var key := CoverageKey(cs[i].scope);
        assert key == keys[i];
        assert key !in coverage;
        coverage := coverage[key := CoverageRowOf(cs[i], revision)];
        i := i + 1;
      }
      TableComplete(cs, revision, coverage);
    }

    // importSnapshot
    method ImportSnapshot(request: ImportRequest) returns (r: Result<ImportReceipt>)
      modifies this
      ensures var o := Import(old(State()), request);
              if o.result == Err(InvalidRequest) || NormalizedEntries(request.entries).Err? then
                r == o.result && State() == old(State())
              else if readonly then r == Err(StoreAccess) && State() == old(State())
              else Outcome(r, State()) == o
    {
      hide NormalizedEntries, NormalizedCoverage, Inserted, CoverageTable, NormalCoverage, Bound, BoundOption;
      var entries := NormalizeEntries(request.entries);
      if entries.Err? {
        return Err(entries.error);
      }
      var declared := NormalizeCoverage(request.coverage);
      if declared.Err? {
        return Err(InvalidRequest);
      }
      if readonly {
        return Err(StoreAccess);
      }
      if dataRevision > MAX_SAFE {
        return Err(StoreIntegrity);
      }
      CoverageNormal(request.coverage);
      var next := dataRevision + 1;
      var before := objects;
      if request.replace {
        objects := map[];
      }
      var inserted := InsertAll(entries.value);
      if inserted.None? {
        objects := before;
        return Err(StoreIntegrity);
      }
      coverage := map[];
      InsertCoverage(declared.value, next);
      source := match request.source case Some(text) => Bound(text) case None => source;
      snapshot := match request.snapshot case Some(text) => BoundOption(text) case None => snapshot;
      dataRevision := next;
      return Ok(ImportReceipt(next, |entries.value|));
    }

    // setCoverage, with nothing between its two statements.
    method SetCoverage(name: Text, scope: Json, complete: bool) returns (r: Result<Coverage>)
      modifies this`coverage
      ensures match MethodOf(name)
              case None => r == Err(InvalidRequest) && coverage == old(coverage)
              case Some(kind) =>
                match ReadScope(kind, scope)
                case None => r == Err(InvalidRequest) && coverage == old(coverage)
                case Some(normalized) =>
                  if readonly then r == Err(StoreAccess) && coverage == old(coverage)
                  else if !Readable(State()) then r == Err(StoreIntegrity) && coverage == old(coverage)
                  else
                    && r == Ok(Coverage(normalized, complete))
                    && State() == WriteCoverage(old(State()), r.value, old(dataRevision))
    {
      var kind := MethodOf(name);
      if kind.None? {
        return Err(InvalidRequest);
      }
      var normalized := ReadScope(kind.value, scope);
      if normalized.None? {
        return Err(InvalidRequest);
      }
      if readonly {
        return Err(StoreAccess);
      }
      if dataRevision > MAX_SAFE {
        return Err(StoreIntegrity);
      }
      var revision := dataRevision;
      var c := Coverage(normalized.value, complete);
      coverage := coverage[CoverageKey(c.scope) := CoverageRowOf(c, revision)];
      return Ok(c);
    }

    // exportSnapshot: every row parsed in id order, then every declaration, of which those of the
    // current revision are kept.
    method ExportSnapshot() returns (r: Result<StoreExport>)
      ensures r == Store.ExportSnapshot(State())
    {
      hide Ascii, ParseRows, ParseCoverage, SortedTexts;
      if dataRevision > MAX_SAFE {
        return Err(StoreIntegrity);
      }
      var ids, keys := SortedTexts(objects.Keys), SortedTexts(coverage.Keys);
      assert forall id :: id in ids <==> id in Elements(ids);
      assert forall key :: key in keys <==> key in Elements(keys);
      var entries := ParseAllRows(ids);
      if entries.Err? {
        return Err(entries.error);
      }
      var declared := ParseAllCoverage(keys);
      if declared.Err? {
        return Err(declared.error);
      }
      return Ok(StoreExport(source, snapshot, dataRevision, entries.value, declared.value));
    }

    // rows.map(parseStoredEntry)
    method ParseAllRows(ids: seq<Text>) returns (r: Result<seq<Entry>>)
      requires forall id | id in ids :: id in objects
      ensures r == ParseRows(State(), ids)
    {
      hide ParseStoredEntry;
      var entries: seq<Entry> := [];
      var i := 0;
      assert ids[0..] == ids;
      NothingYet(ParseRows(State(), ids));
      while i < |ids|
        invariant 0 <= i <= |ids|
        invariant ParseRows(State(), ids) == Continued(entries, ParseRows(State(), ids[i..]))
      {
        assert ids[i..][0] == ids[i] && ids[i..][1..] == ids[i + 1..];
        var entry := ParseStoredEntry(ids[i], objects[ids[i]]);
        if entry.Err? {
          return Err(entry.error);
        }
        ContinuedTwice(entries, [entry.value], ParseRows(State(), ids[i + 1..]));
        entries := entries + [entry.value];
        i := i + 1;
      }
      assert entries + [] == entries;
      return Ok(entries);
    }

    // rows.map(parseCoverageRow).filter(...)
    method ParseAllCoverage(keys: seq<Text>) returns (r: Result<seq<Coverage>>)
      requires forall key | key in keys :: key in coverage
      ensures r == ParseCoverage(State(), keys)
    {
      hide ParseCoverageRow;
      var declared: seq<Coverage> := [];
      var i := 0;
      assert keys[0..] == keys;
      NothingYet(ParseCoverage(State(), keys));
      while i < |keys|
        invariant 0 <= i <= |keys|
        invariant ParseCoverage(State(), keys) == Continued(declared, ParseCoverage(State(), keys[i..]))
      {
        assert keys[i..][0] == keys[i] && keys[i..][1..] == keys[i + 1..];
        var c := ParseCoverageRow(coverage[keys[i]], dataRevision);
        if c.Err? {
          return Err(c.error);
        }
        var kept := if coverage[keys[i]].revision == dataRevision then [c.value] else [];
        ContinuedTwice(declared, kept, ParseCoverage(State(), keys[i + 1..]));
        declared := declared + kept;
        i := i + 1;
      }
      assert declared + [] == declared;
      return Ok(declared);
    }

    // findAliasReleases: one query for every 900 ids.
    method FindAliasReleases(bindingIds: Json) returns (r: Result<Envelope>)
      ensures match ReadScope(Releases, JObj(map[BINDING_IDS := bindingIds]))
              case None => r == Err(InvalidRequest)
              case Some(scope) => r == Find(State(), scope)
    {
      var read := ReadScope(Releases, JObj(map[BINDING_IDS := bindingIds]));
      if read.None? {
        return Err(InvalidRequest);
      }
      var scope := read.value;
      ReadScopeNormal(Releases, JObj(map[BINDING_IDS := bindingIds]));
      if dataRevision > MAX_SAFE {
        return Err(StoreIntegrity);
      }
      r := FindChunks(scope);
    }

    method FindChunks(scope: Scope) returns (r: Result<Envelope>)
      requires scope.ReleaseScope? && Readable(State())
      ensures r == Find(State(), scope)
    {
      hide ParseRows, ReadComplete, SortById, Selected, ChunkedIds;
      var ids := scope.bindingIds;
      ghost var db := State();
      FoundIdsStored(db, scope);
      ChunkedIdsStored(db, ids);
      var found: seq<Entry> := [];
      var offset := 0;
      assert ids[0..] == ids;
      NothingYet(ParseRows(db, ChunkedIds(db, ids)));
      while offset < |ids|
        invariant 0 <= offset <= |ids|
        invariant forall id | id in ChunkedIds(db, ids[offset..]) :: id in db.objects
        invariant ParseRows(db, ChunkedIds(db, ids)) == Continued(found, ParseRows(db, ChunkedIds(db, ids[offset..])))
        decreases |ids| - offset
      {
        var end := if |ids| - offset <= CHUNK_SIZE then |ids| else offset + CHUNK_SIZE;
        var chunk := ids[offset..end];
        SlicedTwice(ids, offset, end);
        ParseChunk(db, ids[offset..], end - offset);
        var rows := ParseRows(State(), Selected(State(), ReleaseScope(chunk)));
        if rows.Err? {
          return Err(rows.error);
        }
        ContinuedTwice(found, rows.value, ParseRows(db, ChunkedIds(db, ids[end..])));
        found := found + rows.value;
        offset := end;
      }
      NothingLeft(db, ids[offset..]);
      var complete := ReadComplete(State(), scope);
      if complete.Err? {
        return Err(complete.error);
      }
      return Ok(Envelope(source, snapshot, scope, SortById(found), complete.value));
    }
  }

  lemma TableComplete(cs: seq<Coverage>, revision: nat, table: map<Text, CoverageRow>)
    requires NormalCoverage(cs)
    requires forall j | 0 <= j < |cs| :: CoverageKeys(cs)[j] in table && table[CoverageKeys(cs)[j]] == CoverageRowOf(cs[j], revision)
    requires forall key | key in table :: exists j :: 0 <= j < |cs| && CoverageKeys(cs)[j] == key
    ensures table == CoverageTable(cs, revision)
  {
    hide CoverageKey, CoverageRowOf, IsNormal, TextOrder;
    var keys := CoverageKeys(cs);
    assert table.Keys == Elements(keys);
    forall key | key in table ensures table[key] == CoverageTable(cs, revision)[key] {
      var j :| 0 <= j < |cs| && keys[j] == key;
      assert CoverageTable(cs, revision)[keys[j]] == CoverageRowOf(cs[j], revision);
    }
  }

  // What has been read so far, and then the rest.
  function Continued<T>(found: seq<T>, rest: Result<seq<T>>): Result<seq<T>> {
    match rest case Err(error) => Err(error) case Ok(es) => Ok(found + es)
  }

  lemma NothingYet<T>(rest: Result<seq<T>>)
    ensures Continued([], rest) == rest
  {
    if rest.Ok? {
      assert [] + rest.value == rest.value;
    }
  }

  lemma ContinuedTwice<T>(found: seq<T>, more: seq<T>, rest: Result<seq<T>>)
    ensures Continued(found, Continued(more, rest)) == Continued(found + more, rest)
  {
    if rest.Ok? {
      assert found + (more + rest.value) == found + more + rest.value;
    }
  }

  lemma SlicedTwice(ids: seq<Text>, offset: nat, end: nat)
    requires offset <= end <= |ids|
    ensures ids[offset..][..end - offset] == ids[offset..end]
    ensures ids[offset..][end - offset..] == ids[end..]
  {
  }

  lemma NothingLeft(db: Database, ids: seq<Text>)
    requires ids == []
    ensures ChunkedIds(db, ids) == [] && ParseRows(db, []) == Ok([])
    ensures forall found: seq<Entry> :: Continued(found, Ok([])) == Ok(found)
  {
    assert forall found: seq<Entry> :: found + [] == found;
  }
}
