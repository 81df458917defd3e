// LocalReferenceRelay (relay-local/src/local-reference-relay.js) over one candidate store and one
// blob store. Other processes may link blobs during its puts; everything else is RelayRuns.
module Relay {
  import opened Wrappers
  import opened Text
  import opened Sorting
  import opened Json
  import opened ObjectId
  import opened Validation
  import opened Archive
  import opened Store
  import opened StoreLaws
  import opened CandidateStore
  import opened BlobStore
  import opened SqliteCandidateStore
  import RelayRuns
  import RelaySafety

  datatype Publication = Publication(candidate: Entry, receipt: AppendReceipt)

  datatype Restoration =
    | Examined(entries: nat, coverage: nat, blobs: nat)
    | Replacement(candidates: Restored, blobs: nat)

  // What a replacing restore reports: the new revision and the number of objects, and of blobs.
  function ReplacedBy(a: Archive, db: Database): Restoration {
    Replacement(Replaced(ImportReceipt(db.dataRevision, |a.snapshot.entries|)), |a.blobs|)
  }

  // ----- Transitions of the two stores together -----

  ghost predicate Sound(files: Directory, db: Database) {
    Valid(db) && AllWhole(files) && RelayRuns.Backed(files, db)
  }

  lemma PutKeepsSound(before: Directory, after: Directory, db: Database)
    requires Sound(before, db) && KeepsBlobs(before, after) && AllWhole(after)
    ensures Sound(after, db)
  {
    hide Valid, AllWhole, KeepsBlobs, RelayRuns.Backed;
    RelayRuns.BackedKept(before, after, db);
  }

  // The candidate that was put is appended in every readable store, and stays backed.
  lemma PublishKeepsSound(files: Directory, db: Database, e: Entry)
    requires Sound(files, db) && IsCanonicalObjectId(e.objectId) && Stored(files, e.objectId, e.value)
    ensures NormalizedCandidates(EntriesJson([e])) == Ok([e])
    ensures var o := PublishImmutable(db, EntriesJson([e]));
            && Sound(files, o.db) && (o.result.Ok? <==> Readable(db))
            && (o.result.Ok? ==> RelaySafety.Added(db, o.db, e, o.result.value))
            && (o.result.Err? ==> o == Outcome(Err(StoreIntegrity), db))
  {
    hide Valid, AllWhole, IsCanonicalObjectId, Stored, Contents, PublishImmutable, NormalEntries, Objects, EntriesJson,
         RelayRuns.Backed, NormalizedCandidates, Readable;
    OneCandidate(e);
    RelaySafety.AppendAdds(files, db, e);
    RelayRuns.AppendStepOk(files, db, e);
  }

  lemma RestoreKeepsSound(files: Directory, db: Database, a: Archive)
    requires Sound(files, db) && NormalArchive(a) && AllStored(files, a.blobs)
    ensures NormalizeStoreExport(StoreExportJson(a.snapshot)) == Ok(a.snapshot)
    ensures var o := RestoreSnapshot(db, StoreExportJson(a.snapshot), REPLACE);
            && Sound(files, o.db) && (o.result.Ok? <==> Readable(db))
            && (o.result.Ok? ==>
                  && o.result == Ok(Replaced(ImportReceipt(db.dataRevision + 1, |a.blobs|)))
                  && o.db.dataRevision == db.dataRevision + 1 && Contents(o.db) == Objects(a.blobs))
            && (o.result.Err? ==> o == Outcome(Err(StoreIntegrity), db))
  {
    hide Valid, AllWhole, Contents, NormalArchive, Objects, AllStored, RelayRuns.Backed, StoreExportJson, RestoreSnapshot;
    RelayRuns.ImportStepOk(files, db, a);
    RelaySafety.ImportReplaces(db, a);
  }

  lemma ExportedStored(files: Directory, db: Database)
    requires Sound(files, db) && ExportSnapshot(db).Ok?
    ensures var x := ExportSnapshot(db).value;
            NormalExport(x) && ExportNormalized(db) == Ok(x) && BlobStore.Exported(files, Ids(x.entries)) == Ok(x.entries)
  {
    hide Valid, AllWhole, Contents, Objects, ExportSnapshot, Describes, NormalExport, RelayRuns.Backed, AllStored;
    ExportExactly(db);
    RelayRuns.ExportEntriesStored(files, db, ExportSnapshot(db).value);
    ExportStored(files, ExportSnapshot(db).value.entries);
  }

  // ----- The Relay -----

  class LocalReferenceRelay {
    const candidateStore: SQLiteCandidateStore
    const blobStore: FileSystemBlobStore

    constructor (candidateStore: SQLiteCandidateStore, blobStore: FileSystemBlobStore)
      ensures this.candidateStore == candidateStore && this.blobStore == blobStore
    {
      this.candidateStore := candidateStore;
      this.blobStore := blobStore;
    }

    // Every candidate has a whole blob with the same representation.
    ghost predicate Backed()
      reads candidateStore.store, blobStore
    {
      Sound(blobStore.files, candidateStore.store.State())
    }

    // publish: the blob first, then the candidate. `refused` is the error of the capability
    // verifier or the publication policy, if either refuses.
    method Publish(value: Json, refused: Option<Error>, nonce: Text, meanwhile: Directory) returns (r: Result<Publication>)
      requires Backed() && OnlyBlobs(meanwhile) && AllWhole(meanwhile)
      requires ReadEntry(value).Some? ==> TempName(ReadEntry(value).value.objectId, nonce) !in blobStore.files
      modifies candidateStore.store, blobStore
      ensures Backed() && KeepsBlobs(old(blobStore.files), blobStore.files)
      ensures r.Err? ==> candidateStore.store.State() == old(candidateStore.store.State())
      ensures match ReadEntry(value)
              case None => r == Err(RelayProtocol) && blobStore.files == old(blobStore.files)
              case Some(e) =>
                if refused.Some? then r == Err(refused.value) && blobStore.files == old(blobStore.files)
                else
                  && (r.Ok? <==>
                        && !blobStore.readonly && Stored(blobStore.files, e.objectId, e.value)
                        && !candidateStore.store.readonly && Readable(old(candidateStore.store.State())))
                  && (r.Ok? ==>
                        && r.value.candidate == e
                        && RelaySafety.Added(old(candidateStore.store.State()), candidateStore.store.State(), e, r.value.receipt))
    {
      var read := ReadEntry(value);
      if read.None? {
        SameFiles(blobStore.files);
        return Err(RelayProtocol);
      }
      if refused.Some? {
        SameFiles(blobStore.files);
        return Err(refused.value);
      }
      r := PutAndAppend(read.value, value, nonce, meanwhile);
    }

    method PutAndAppend(e: Entry, value: Json, nonce: Text, meanwhile: Directory) returns (r: Result<Publication>)
      requires Backed() && OnlyBlobs(meanwhile) && AllWhole(meanwhile) && ReadEntry(value) == Some(e)
      requires TempName(e.objectId, nonce) !in blobStore.files
      modifies candidateStore.store, blobStore
      ensures Backed() && KeepsBlobs(old(blobStore.files), blobStore.files)
      ensures r.Err? ==> candidateStore.store.State() == old(candidateStore.store.State())
      ensures r.Ok? <==>
                && !blobStore.readonly && Stored(blobStore.files, e.objectId, e.value)
                && !candidateStore.store.readonly && Readable(old(candidateStore.store.State()))
      ensures r.Ok? ==>
                && r.value.candidate == e
                && RelaySafety.Added(old(candidateStore.store.State()), candidateStore.store.State(), e, r.value.receipt)
    {
      hide Valid, AllWhole, KeepsBlobs, RelayRuns.Backed, Stored, Contents, TempName, FileName, AfterPut, WithForeign,
           PutResult, Append, RelaySafety.Added, NormalizedCandidates, NormalizedEntries, EntriesJson, Readable;
      EntryCanonical(value);
      hide ReadEntry, IsCanonicalObjectId, Sound;
      ghost var before := candidateStore.store.State();
      var put := blobStore.PutIfAbsent(value, nonce, meanwhile);
      ghost var files := blobStore.files;
      SoundParts(old(blobStore.files), before);
      PutKeepsSound(old(blobStore.files), files, before);
      SoundParts(files, before);
      PutSucceeds(files, e);
      if put.Err? {
        return Err(put.error);
      }
      PublishKeepsSound(files, before, e);
      var appended := candidateStore.PublishImmutable(EntriesJson([e]));
      if appended.Err? {
        return Err(appended.error);
      }
      return Ok(Publication(e, appended.value));
    }

    // exportArchive: the candidates first, then their blobs. Where candidates are backed, no blob
    // is missing and the archive is the snapshot's.
    method ExportArchive(exportedAt: Json) returns (r: Result<Archive>)
      requires Valid(candidateStore.store.State())
      ensures match ExportSnapshot(candidateStore.store.State())
              case Err(error) => r == Err(error)
              case Ok(x) =>
                && (BlobStore.Exported(blobStore.files, Ids(x.entries)).Err? ==>
                      r == Err(BlobStore.Exported(blobStore.files, Ids(x.entries)).error))
                && (Backed() ==> r == CreateRelayArchive(StoreExportJson(x), EntriesJson(x.entries), exportedAt))
    {
      hide Valid, AllWhole, RelayRuns.Backed, ExportSnapshot, NormalizeStoreExport, CreateRelayArchive,
           StoreExportJson, EntriesJson, BlobStore.Exported, IsCanonicalObjectId, TextOrder;
      var snapshot := candidateStore.ExportSnapshot();
      ExportFails(candidateStore.store.State());
      if snapshot.Err? {
        return Err(snapshot.error);
      }
      if Backed() {
        ExportedStored(blobStore.files, candidateStore.store.State());
      }
      ExportDescribes(candidateStore.store.State());
      SnapshotIds(snapshot.value.entries);
      var blobs := blobStore.ExportBlobs(Ids(snapshot.value.entries));
      if blobs.Err? {
        return Err(blobs.error);
      }
      r := CreateRelayArchive(StoreExportJson(snapshot.value), EntriesJson(blobs.value), exportedAt);
    }

    // restoreArchive: the blobs first, then the candidates in one transaction.
    method RestoreArchive(archive: Json, mode: Text, nonce: Text -> Text, meanwhile: seq<Directory>)
      returns (r: Result<Restoration>)
      requires Backed()
      requires forall i | 0 <= i < |meanwhile| :: OnlyBlobs(meanwhile[i]) && AllWhole(meanwhile[i])
      requires VerifyRelayArchive(archive).Ok? ==> NoncesNew(blobStore.files, VerifyRelayArchive(archive).value.blobs, nonce)
      modifies candidateStore.store, blobStore
      ensures Backed() && KeepsBlobs(old(blobStore.files), blobStore.files)
      ensures r.Err? ==> candidateStore.store.State() == old(candidateStore.store.State())
      ensures match VerifyRelayArchive(archive)
              case Err(error) => r == Err(error) && blobStore.files == old(blobStore.files)
              case Ok(a) =>
                if mode == VALIDATE then
                  && r == Ok(Examined(|a.snapshot.entries|, |a.snapshot.coverage|, |a.blobs|))
                  && candidateStore.store.State() == old(candidateStore.store.State()) && blobStore.files == old(blobStore.files)
                else if mode != REPLACE then r == Err(RelayProtocol) && blobStore.files == old(blobStore.files)
                else
                  && (r.Ok? <==>
                        && (blobStore.readonly ==> a.blobs == []) && AllStored(blobStore.files, a.blobs)
                        && !candidateStore.store.readonly && Readable(old(candidateStore.store.State())))
                  && (r.Ok? ==>
                        candidateStore.store.State() ==
                        RestoreSnapshot(old(candidateStore.store.State()), StoreExportJson(a.snapshot), REPLACE).db)
                  && (r.Ok? ==>
                        && r == Ok(ReplacedBy(a, candidateStore.store.State()))
                        && candidateStore.store.State().dataRevision == old(candidateStore.store.State()).dataRevision + 1
                        && Contents(candidateStore.store.State()) == Objects(a.blobs))
      ensures (forall a :: !Presents(archive, a)) ==>
                && r == Err(RelayProtocol)
                && candidateStore.store.State() == old(candidateStore.store.State()) && blobStore.files == old(blobStore.files)
    {
      var verified := VerifyRelayArchive(archive);
      SameFiles(blobStore.files);
      VerifyFails(archive);
      if verified.Err? {
        return Err(verified.error);
      }
      var a := verified.value;
      VerifyExactly(archive, a);
      if mode == VALIDATE {
        return Ok(Examined(|a.snapshot.entries|, |a.snapshot.coverage|, |a.blobs|));
      }
      if mode != REPLACE {
        return Err(RelayProtocol);
      }
      VerifiedIsNormal(archive);
      r := PutAllAndImport(a, nonce, meanwhile);
    }

    method PutAllAndImport(a: Archive, nonce: Text -> Text, meanwhile: seq<Directory>) returns (r: Result<Restoration>)
      requires Backed() && NormalArchive(a) && NoncesNew(blobStore.files, a.blobs, nonce)
      requires forall i | 0 <= i < |meanwhile| :: OnlyBlobs(meanwhile[i]) && AllWhole(meanwhile[i])
      modifies candidateStore.store, blobStore
      ensures Backed() && KeepsBlobs(old(blobStore.files), blobStore.files)
      ensures r.Err? ==> candidateStore.store.State() == old(candidateStore.store.State())
      ensures r.Ok? <==>
                && (blobStore.readonly ==> a.blobs == []) && AllStored(blobStore.files, a.blobs)
                && !candidateStore.store.readonly && Readable(old(candidateStore.store.State()))
      ensures r.Ok? ==>
                candidateStore.store.State() ==
                RestoreSnapshot(old(candidateStore.store.State()), StoreExportJson(a.snapshot), REPLACE).db
      ensures r.Ok? ==>
                && r == Ok(ReplacedBy(a, candidateStore.store.State()))
                && candidateStore.store.State().dataRevision == old(candidateStore.store.State()).dataRevision + 1
                && Contents(candidateStore.store.State()) == Objects(a.blobs)
    {
      hide Valid, AllWhole, KeepsBlobs, RelayRuns.Backed, Contents, Objects, NoncesNew, NormalEntries, Readable,
           NormalArchive, AllStored, AllPut, StoreExportJson, EntriesJson, NormalizeStoreExport, NormalizedCandidates,
           RestoreSnapshot, OnlyBlobs, IsCanonicalObjectId, Sound, REPLACE;
      ghost var before := candidateStore.store.State();
      RelayRuns.ArchiveIds(a);
      BlobCount(a);
      EmptyStored(blobStore.files);
      CandidatesIdempotent(a.blobs);
      SoundParts(blobStore.files, before);
      var put := blobStore.RestoreBlobs(EntriesJson(a.blobs), nonce, meanwhile);
      ghost var files := blobStore.files;
      AllPutStored(files, a.blobs);
      PutKeepsSound(old(blobStore.files), files, before);
      SoundParts(files, before);
      if put.Err? {
        return Err(put.error);
      }
      RestoreKeepsSound(files, before, a);
      var imported := candidateStore.RestoreSnapshot(StoreExportJson(a.snapshot), REPLACE);
      if imported.Err? {
        return Err(imported.error);
      }
      return Ok(Replacement(imported.value, |a.blobs|));
    }
  }

  lemma SnapshotIds(es: seq<Entry>)
    requires NormalEntries(es)
    ensures SortedTexts(Elements(Ids(es))) == Ids(es)
    ensures forall id | id in Ids(es) :: IsCanonicalObjectId(id)
  {
    hide IsCanonicalObjectId, TextOrder;
    SortedUnique(Ids(es), SortedTexts(Elements(Ids(es))));
  }

  lemma BlobCount(a: Archive)
    requires NormalArchive(a)
    ensures |a.blobs| == |a.snapshot.entries|
  {
  }

  lemma EmptyStored(files: Directory)
    ensures AllStored(files, [])
  {
  }

  lemma EntryCanonical(value: Json)
    requires ReadEntry(value).Some?
    ensures IsCanonicalObjectId(ReadEntry(value).value.objectId)
  {
    hide IsCanonicalObjectId;
  }

  lemma SoundParts(files: Directory, db: Database)
    ensures Sound(files, db) <==> Valid(db) && AllWhole(files) && RelayRuns.Backed(files, db)
  {
  }

  lemma ExportFails(db: Database)
    requires Valid(db)
    ensures ExportNormalized(db) == ExportSnapshot(db)
  {
    hide Valid, ExportSnapshot, ExportNormalized;
    ExportExactly(db);
  }
}
