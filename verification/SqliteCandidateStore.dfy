// SQLiteCandidateStore (relay-local/src/sqlite-candidate-store.js) as an object: it updates the
// SQLite store it is given through the normalisers, and has the effects CandidateStore gives.
module SqliteCandidateStore {
  import opened Wrappers
  import opened Text
  import opened Json
  import opened Validation
  import opened Store
  import opened SqliteStore
  import CandidateStore

  class SQLiteCandidateStore {
    const store: SQLiteStore

    constructor (store: SQLiteStore)
      ensures this.store == store
    {
      this.store := store;
    }

    method PublishImmutable(candidates: Json) returns (r: Result<AppendReceipt>)
      modifies store
      ensures NormalizedCandidates(candidates).Err? || !store.readonly ==>
                Outcome(r, store.State()) == CandidateStore.PublishImmutable(old(store.State()), candidates)
      ensures NormalizedCandidates(candidates).Ok? && store.readonly ==>
                r == Err(StoreAccess) && store.State() == old(store.State())
    {
      hide NormalizedCandidates, NormalizedEntries, EntriesJson, Append;
      var entries := NormalizeCandidates(candidates);
      if entries.Err? {
        ProtocolError(candidates);
        return Err(entries.error);
      }
      CandidatesNormal(candidates);
      CandidateStore.EntriesAsTheyAre(entries.value);
      r := store.AppendEntries(EntriesJson(entries.value));
    }

    // Over valid tables it succeeds exactly when the metadata are readable and every object is
    // indexable, and then describes the store.
    method ExportSnapshot() returns (r: Result<StoreExport>)
      ensures r == CandidateStore.ExportNormalized(store.State())
      ensures Valid(store.State()) ==>
                && (r.Ok? <==> Readable(store.State()) &&
                               forall id | id in Contents(store.State()) :: Indexable(Contents(store.State())[id]))
                && (r.Ok? ==> CandidateStore.Describes(r.value, store.State()))
    {
      hide Valid, Indexable, Contents, Readable, CandidateStore.Describes, Store.ExportSnapshot,
           NormalizeStoreExport, StoreExportJson;
      if Valid(store.State()) {
        CandidateStore.ExportExactly(store.State());
      }
      var exported := store.ExportSnapshot();
      if exported.Err? {
        return Err(exported.error);
      }
      r := NormalizeStoreExport(StoreExportJson(exported.value));
    }

    method RestoreSnapshot(snapshot: Json, mode: Text) returns (r: Result<CandidateStore.Restored>)
      modifies store
      ensures NormalizeStoreExport(snapshot).Err? || mode != CandidateStore.REPLACE || !store.readonly ==>
                Outcome(r, store.State()) == CandidateStore.RestoreSnapshot(old(store.State()), snapshot, mode)
      ensures NormalizeStoreExport(snapshot).Ok? && mode == CandidateStore.REPLACE && store.readonly ==>
                r == Err(StoreAccess) && store.State() == old(store.State())
    {
      hide NormalizeStoreExport, Import, CandidateStore.ReplaceRequest, CandidateStore.VALIDATE,
           CandidateStore.REPLACE, NormalizedEntries, NormalizedCoverage;
      CandidateStore.ReplaceDiffers();
      var normalized := NormalizeStoreExport(snapshot);
      if normalized.Err? {
        return Err(normalized.error);
      }
      if mode == CandidateStore.VALIDATE {
        return Ok(CandidateStore.Validated(|normalized.value.entries|, |normalized.value.coverage|));
      }
      if mode != CandidateStore.REPLACE {
        return Err(RelayProtocol);
      }
      ExportNormal(snapshot);
      CandidateStore.ReplaceRequestGood(normalized.value);
      CandidateStore.GoodRequest(store.State(), CandidateStore.ReplaceRequest(normalized.value));
      var imported := store.ImportSnapshot(CandidateStore.ReplaceRequest(normalized.value));
      if imported.Err? {
        return Err(imported.error);
      }
      return Ok(CandidateStore.Replaced(imported.value));
    }
  }

  lemma ProtocolError(candidates: Json)
    ensures NormalizedCandidates(candidates).Err? ==> NormalizedCandidates(candidates) == Err(RelayProtocol)
  {
  }
}
