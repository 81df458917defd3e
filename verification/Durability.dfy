// The protocol under loss of power. A directory entry is sure to be on disk only once the directory
// has been synced after it was made; a blob's content is synced before it is linked, and the
// database commits durably. putIfAbsent syncs the directory after it links, but not where it
// returns early for a blob that is already there.
module Durability {
  import opened Wrappers
  import opened Text
  import opened Json
  import opened ObjectId
  import opened Validation
  import opened Archive
  import opened Store
  import opened StoreLaws
  import opened CandidateStore
  import opened BlobStore
  import opened RelayRuns
  import opened RelaySafety

  // What is left when power is lost: of the names that are not on disk, those in `kept`.
  function PowerLoss(s: State, kept: set<Text>): State {
    var files := map name | name in s.files && (name in s.synced || name in kept) :: s.files[name];
    State(files, files.Keys, s.db, map[])
  }

  // ----- Which candidates keep their blobs -----

  lemma LossKeepsWhole(s: State, kept: set<Text>)
    requires AllWhole(s.files)
    ensures AllWhole(PowerLoss(s, kept).files)
  {
    hide IsBlobName, Whole;
  }

  lemma StoredAfterLoss(s: State, kept: set<Text>, id: Text, v: Json)
    requires Stored(s.files, id, v)
    ensures Stored(PowerLoss(s, kept).files, id, v) <==> FileName(id) in s.synced || FileName(id) in kept
  {
    hide FileName, FileOctets;
  }

  // A candidate's blob survives every loss of power exactly when its link is on disk.
  lemma BlobSurvivesExactly(s: State, id: Text)
    requires Invariant(s) && id in Contents(s.db)
    ensures (forall kept :: Stored(PowerLoss(s, kept).files, id, Contents(s.db)[id])) <==> FileName(id) in s.synced
  {
    hide Invariant, Contents, Stored, FileName, PowerLoss, IsCanonicalObjectId;
    CandidateStored(s, id);
    forall kept
      ensures Stored(PowerLoss(s, kept).files, id, Contents(s.db)[id]) <==> FileName(id) in s.synced || FileName(id) in kept
    {
      StoredAfterLoss(s, kept, id, Contents(s.db)[id]);
    }
    var none: set<Text> := {};
    assert Stored(PowerLoss(s, none).files, id, Contents(s.db)[id]) <==> FileName(id) in s.synced;
  }

  predicate LinksKept(s: State, kept: set<Text>) {
    forall id | id in Contents(s.db) :: FileName(id) in s.synced || FileName(id) in kept
  }

  // After a loss of power the stores are sound again exactly when no candidate's link was lost.
  lemma SoundAfterLoss(s: State, kept: set<Text>)
    requires Invariant(s)
    ensures Invariant(PowerLoss(s, kept)) <==> LinksKept(s, kept)
  {
    hide Valid, Contents, Stored, FileName, IsCanonicalObjectId, ProcessOk, OwnsTemporary, AllWhole;
    LossKeepsWhole(s, kept);
    forall id | id in Contents(s.db)
      ensures Stored(PowerLoss(s, kept).files, id, Contents(s.db)[id]) <==> FileName(id) in s.synced || FileName(id) in kept
    {
      StoredAfterLoss(s, kept, id, Contents(s.db)[id]);
    }
    assert PowerLoss(s, kept).processes == map[];
  }

  // ----- The early return -----

  // A process returns early for a blob whose link is not on disk.
  predicate TrustsUnsynced(s: State, event: Event) {
    event.Proceed? && event.process in s.processes &&
    var process := s.processes[event.process];
    process.Putting? && process.stage.Checking? && FileName(process.e.objectId) in s.files &&
    FileName(process.e.objectId) !in s.synced
  }

  predicate Synced(synced: set<Text>, e: Entry) {
    FileName(e.objectId) in synced
  }

  predicate AllSynced(synced: set<Text>, es: seq<Entry>) {
    forall i | 0 <= i < |es| :: Synced(synced, es[i])
  }

  // Every put that has succeeded and gone past its sync has its link on disk.
  predicate LinkSynced(synced: set<Text>, process: Process) {
    match process
    case Putting(e, stage, purpose) =>
      (stage.Unlinking? && stage.outcome.None? ==> Synced(synced, e)) &&
      (purpose.Restoring? && purpose.index <= |purpose.archive.blobs| ==>
         AllSynced(synced, purpose.archive.blobs[..purpose.index]))
    case Appending(e) => Synced(synced, e)
    case Importing(a) => AllSynced(synced, a.blobs)
    case Done(Published(e, _)) => Synced(synced, e)
    case Done(ReplacedWith(a)) => AllSynced(synced, a.blobs)
    case _ => true
  }

  predicate CandidatesSynced(synced: set<Text>, db: Database) {
    forall id | id in Contents(db) :: FileName(id) in synced
  }

  // The invariant, with the link of every candidate and of every put that has succeeded on disk.
  ghost predicate Durable(s: State) {
    && Invariant(s) && CandidatesSynced(s.synced, s.db)
    && forall p | p in s.processes :: LinkSynced(s.synced, s.processes[p])
  }

  // ----- Steps -----

  // What is on disk of the blobs so far stays on disk.
  predicate SyncGrows(before: set<Text>, files: Directory, after: set<Text>) {
    forall name | name in before && name in files :: name in after
  }

  lemma SyncedGrows(s: State, stage: Stage)
    ensures SyncGrows(s.synced, s.files, SyncedAfter(s, stage))
  {
  }

  lemma SyncedStays(before: set<Text>, files: Directory, after: set<Text>, e: Entry)
    requires SyncGrows(before, files, after) && Synced(before, e) && Stored(files, e.objectId, e.value)
    ensures Synced(after, e)
  {
    hide FileName, FileOctets;
  }

  lemma AllSyncedStays(before: set<Text>, files: Directory, after: set<Text>, es: seq<Entry>)
    requires SyncGrows(before, files, after) && AllSynced(before, es) && AllStored(files, es)
    ensures AllSynced(after, es)
  {
    hide Synced, Stored, SyncGrows;
    forall i | 0 <= i < |es| ensures Synced(after, es[i]) {
      SyncedStays(before, files, after, es[i]);
    }
  }

  lemma LinkSyncedStays(before: set<Text>, files: Directory, after: set<Text>, process: Process)
    requires SyncGrows(before, files, after) && ProcessOk(files, process) && LinkSynced(before, process)
    ensures LinkSynced(after, process)
  {
    hide SyncGrows, Synced, Stored, AllSynced, AllStored, NormalArchive, NormalExport, IsCanonicalObjectId, FileOctets;
    match process
    case Putting(e, stage, purpose) =>
      if stage.Unlinking? && stage.outcome.None? {
        SyncedStays(before, files, after, e);
      }
      if purpose.Restoring? && purpose.index <= |purpose.archive.blobs| {
        AllSyncedStays(before, files, after, purpose.archive.blobs[..purpose.index]);
      }
    case Appending(e) => SyncedStays(before, files, after, e);
    case Importing(a) => AllSyncedStays(before, files, after, a.blobs);
    case Done(Published(e, _)) => SyncedStays(before, files, after, e);
    case Done(ReplacedWith(a)) => AllSyncedStays(before, files, after, a.blobs);
    case _ =>
  }

  lemma CandidatesSyncedStays(before: set<Text>, files: Directory, after: set<Text>, db: Database)
    requires SyncGrows(before, files, after) && Backed(files, db) && CandidatesSynced(before, db)
    ensures CandidatesSynced(after, db)
  {
    hide Contents, FileName, FileOctets;
    forall id | id in Contents(db) ensures FileName(id) in after {
      assert Stored(files, id, Contents(db)[id]);
    }
  }

  // A put that ends well, with its link on disk, leaves its process in order.
  lemma PutEndedSynced(synced: set<Text>, files: Directory, e: Entry, purpose: Purpose, outcome: Option<Error>)
    requires PurposeOk(files, e, purpose) && LinkSynced(synced, Putting(e, Checking, purpose))
    requires outcome.None? ==> Synced(synced, e)
    ensures LinkSynced(synced, PutEnded(e, purpose, outcome))
  {
    hide Synced, NormalArchive, AllStored;
    if outcome.None? && purpose.Restoring? {
      var a, index := purpose.archive, purpose.index;
      assert a.blobs[..index + 1] == a.blobs[..index] + [e];
      NextPutSynced(synced, a, index + 1);
    }
  }

  lemma NextPutSynced(synced: set<Text>, a: Archive, index: nat)
    requires index <= |a.blobs| && AllSynced(synced, a.blobs[..index])
    ensures LinkSynced(synced, NextPut(a, index))
  {
    hide Synced;
    if index == |a.blobs| {
      assert a.blobs[..index] == a.blobs;
    }
  }

  lemma PutStepSynced(s: State, p: nat, e: Entry, stage: Stage, purpose: Purpose, nonce: Text, amount: nat)
    requires AllWhole(s.files) && ProcessOk(s.files, Putting(e, stage, purpose))
    requires LinkSynced(s.synced, Putting(e, stage, purpose))
    requires stage.Checking? && FileName(e.objectId) in s.files ==> Synced(s.synced, e)
    ensures LinkSynced(SyncedAfter(s, stage), PutStep(s.files, e, stage, purpose, nonce, amount).1)
  {
    PuttingOk(s.files, e, stage, purpose);
    SyncedGrows(s, stage);
    LinkSyncedStays(s.synced, s.files, SyncedAfter(s, stage), Putting(e, stage, purpose));
    PurposeSynced(SyncedAfter(s, stage), e, stage, purpose);
    hide IsCanonicalObjectId, FileOctets, TempName, AllWhole, PurposeOk, LinkSynced, ProcessOk, PutEnded, Compared;
    match stage
    case Checking => PutEndedSynced(s.synced, s.files, e, purpose, Compared(s.files, e));
      CheckingSynced(s.synced, e, purpose);
    case Unlinking(_, outcome) =>
      UnlinkingSynced(s.synced, e, stage, purpose);
      PutEndedSynced(s.synced, s.files, e, purpose, outcome);
    case Syncing(temporary) => SyncingSynced(s, e, temporary, purpose);
    case _ => OtherSynced(s, e, stage, purpose, nonce, amount);
  }

  lemma PurposeSynced(synced: set<Text>, e: Entry, stage: Stage, purpose: Purpose)
    requires LinkSynced(synced, Putting(e, stage, purpose))
    ensures LinkSynced(synced, Putting(e, Checking, purpose))
  {
    hide AllSynced, Synced;
  }

  lemma CheckingSynced(synced: set<Text>, e: Entry, purpose: Purpose)
    requires LinkSynced(synced, Putting(e, Checking, purpose))
    ensures LinkSynced(synced, Putting(e, Creating, purpose))
  {
    hide AllSynced, Synced;
  }

  lemma UnlinkingSynced(synced: set<Text>, e: Entry, stage: Stage, purpose: Purpose)
    requires stage.Unlinking? && LinkSynced(synced, Putting(e, stage, purpose))
    ensures stage.outcome.None? ==> Synced(synced, e)
  {
    hide AllSynced, Synced;
  }

  lemma SyncingSynced(s: State, e: Entry, temporary: Text, purpose: Purpose)
    requires ProcessOk(s.files, Putting(e, Syncing(temporary), purpose))
    requires LinkSynced(s.files.Keys, Putting(e, Checking, purpose))
    ensures LinkSynced(s.files.Keys, Putting(e, Unlinking(temporary, None), purpose))
  {
    hide AllSynced, PurposeOk, IsCanonicalObjectId, FileName, FileOctets;
  }

  lemma OtherSynced(s: State, e: Entry, stage: Stage, purpose: Purpose, nonce: Text, amount: nat)
    requires stage.Creating? || stage.Writing? || stage.Linking? || stage.Comparing?
    requires LinkSynced(s.synced, Putting(e, Checking, purpose))
    ensures LinkSynced(s.synced, PutStep(s.files, e, stage, purpose, nonce, amount).1)
  {
    hide AllSynced, Synced, FileName, FileOctets, TempName, Compared;
  }

  lemma AppendSynced(s: State, e: Entry)
    requires Invariant(s) && CandidatesSynced(s.synced, s.db) && Synced(s.synced, e)
    requires IsCanonicalObjectId(e.objectId) && Stored(s.files, e.objectId, e.value)
    ensures CandidatesSynced(s.synced, AppendStep(s.db, e).0) && LinkSynced(s.synced, AppendStep(s.db, e).1)
  {
    hide Invariant, Contents, FileName, IsCanonicalObjectId, Stored, PublishImmutable, Readable, Valid, Backed, AllWhole,
         EntriesJson;
    InvariantFiles(s);
    AppendAdds(s.files, s.db, e);
  }

  lemma SyncedObjects(synced: set<Text>, es: seq<Entry>)
    requires AllSynced(synced, es) && DistinctIds(es)
    ensures forall id | id in Objects(es) :: FileName(id) in synced
  {
    hide FileName, Objects, DistinctIds;
    ObjectsOf(es);
    forall id | id in Objects(es) ensures FileName(id) in synced {
      var i :| 0 <= i < |es| && es[i].objectId == id;
      assert Synced(synced, es[i]);
    }
  }

  lemma ImportSynced(s: State, a: Archive)
    requires Invariant(s) && CandidatesSynced(s.synced, s.db) && AllSynced(s.synced, a.blobs)
    requires NormalArchive(a) && AllStored(s.files, a.blobs)
    ensures CandidatesSynced(s.synced, ImportStep(s.db, a).0) && LinkSynced(s.synced, ImportStep(s.db, a).1)
  {
    hide Invariant, Contents, FileName, RestoreSnapshot, Valid, StoreExportJson, Objects, NormalArchive, NormalEntries,
         AllSynced, DistinctIds;
    InvariantFiles(s);
    ImportReplaces(s.db, a);
    ArchiveIds(a);
    NormalIds(a.blobs);
    SyncedObjects(s.synced, a.blobs);
  }

  // A step of a process that does not return early for an unsynced link.
  lemma MovedDurable(s: State, p: nat, nonce: Text, amount: nat)
    requires Durable(s) && p in s.processes && !TrustsUnsynced(s, Proceed(p, nonce, amount))
    ensures var next := Moved(s, p, nonce, amount);
            && SyncGrows(s.synced, s.files, next.synced) && CandidatesSynced(next.synced, next.db)
            && p in next.processes && LinkSynced(next.synced, next.processes[p])
  {
    hide Invariant, CandidatesSynced, LinkSynced, PutStep, AppendStep, ImportStep, SnapshotStep, ReadStep, ProcessOk,
         AllWhole, Valid, Backed, FileName, IsCanonicalObjectId;
    InvariantProcess(s, p);
    ProcessStored(s.files, s.processes[p]);
    NothingSynced(s);
    match s.processes[p]
    case Putting(e, stage, purpose) =>
      SyncedGrows(s, stage);
      CandidatesSyncedStays(s.synced, s.files, SyncedAfter(s, stage), s.db);
      PutStepSynced(s, p, e, stage, purpose, nonce, amount);
    case Appending(e) =>
      AppendingSynced(s.synced, e);
      AppendSynced(s, e);
    case Importing(a) =>
      ImportingSynced(s.synced, a);
      ImportSynced(s, a);
    case Snapshotting(exportedAt) => SnapshotSynced(s, exportedAt);
    case Reading(x, exportedAt, blobs) => ReadSynced(s, x, exportedAt, blobs);
    case Done(_) =>
  }

  lemma NothingSynced(s: State)
    ensures SyncGrows(s.synced, s.files, s.synced)
  {
  }

  lemma AppendingSynced(synced: set<Text>, e: Entry)
    ensures LinkSynced(synced, Appending(e)) <==> Synced(synced, e)
  {
  }

  lemma ImportingSynced(synced: set<Text>, a: Archive)
    ensures LinkSynced(synced, Importing(a)) <==> AllSynced(synced, a.blobs)
  {
  }

  lemma SnapshotSynced(s: State, exportedAt: Json)
    ensures LinkSynced(s.synced, SnapshotStep(s.db, exportedAt))
  {
    hide ExportNormalized;
  }

  lemma ReadSynced(s: State, x: StoreExport, exportedAt: Json, blobs: seq<Entry>)
    ensures LinkSynced(s.synced, ReadStep(s.files, x, exportedAt, blobs))
  {
    hide ReadBlob, CreateRelayArchive;
  }

  lemma StartSynced(synced: set<Text>, candidate: Json, refused: Option<Error>, archive: Json, mode: Text, exportedAt: Json)
    ensures LinkSynced(synced, PublishStart(candidate, refused))
    ensures LinkSynced(synced, RestoreStart(archive, mode))
    ensures LinkSynced(synced, Snapshotting(exportedAt))
  {
    hide ReadEntry, VerifyRelayArchive, VALIDATE, REPLACE, Synced, NextPut, LinkSynced;
    DoneSynced(synced);
    if ReadEntry(candidate).Some? {
      PublishingSynced(synced, ReadEntry(candidate).value);
    }
    if VerifyRelayArchive(archive).Ok? {
      NextPutSynced(synced, VerifyRelayArchive(archive).value, 0);
    }
    SnapshottingSynced(synced, exportedAt);
  }

  lemma DoneSynced(synced: set<Text>)
    ensures LinkSynced(synced, Done(Checked)) && forall error :: LinkSynced(synced, Done(Refused(error)))
  {
  }

  lemma PublishingSynced(synced: set<Text>, e: Entry)
    ensures LinkSynced(synced, Putting(e, Checking, Publishing))
  {
  }

  lemma SnapshottingSynced(synced: set<Text>, exportedAt: Json)
    ensures LinkSynced(synced, Snapshotting(exportedAt))
  {
  }

  lemma FailingSynced(s: State, p: nat)
    requires Durable(s) && p in s.processes
    ensures LinkSynced(s.synced, Failing(s.processes[p]))
  {
    hide Invariant, CandidatesSynced, AllSynced, Synced, PutEnded, PurposeOk, StageOk, IsCanonicalObjectId;
    InvariantProcess(s, p);
    var process := s.processes[p];
    if process.Putting? && process.stage.Unlinking? {
      PurposeSynced(s.synced, process.e, process.stage, process.purpose);
      PutEndedSynced(s.synced, s.files, process.e, process.purpose, process.stage.outcome);
    }
  }

  // Every step keeps that, but for an early return that trusts a link not yet on disk.
  lemma StepDurable(s: State, event: RelayRuns.Event)
    requires Durable(s) && !TrustsUnsynced(s, event)
    ensures Durable(Step(s, event))
  {
    hide Invariant, CandidatesSynced, LinkSynced, Moved, Failing, PublishStart, RestoreStart, ProcessOk, SyncGrows,
         TrustsUnsynced, AllWhole, Valid, Backed;
    StepKeeps(s, event);
    match event
    case StartPublish(p, candidate, refused) => StartSynced(s.synced, candidate, refused, JNull, [], JNull);
    case StartRestore(p, archive, mode) => StartSynced(s.synced, JNull, None, archive, mode, JNull);
    case StartExport(p, exportedAt) => StartSynced(s.synced, JNull, None, JNull, [], exportedAt);
    case Proceed(p, nonce, amount) =>
      if p in s.processes {
        MovedDurable(s, p, nonce, amount);
        var next := Moved(s, p, nonce, amount);
        forall q | q in next.processes ensures LinkSynced(next.synced, next.processes[q]) {
          OnlyMoves(s, p, nonce, amount, q);
          if q != p {
            InvariantProcess(s, q);
            LinkSyncedStays(s.synced, s.files, next.synced, s.processes[q]);
          }
        }
      }
    case Fail(p) =>
      if p in s.processes {
        FailingSynced(s, p);
      }
    case Crash(_) =>
  }

  lemma LossDurable(s: State, kept: set<Text>)
    requires Durable(s)
    ensures Durable(PowerLoss(s, kept))
  {
    hide Invariant, Contents, FileName, Stored;
    SoundAfterLoss(s, kept);
    forall id | id in Contents(s.db) ensures FileName(id) in PowerLoss(s, kept).files {
      CandidateStored(s, id);
      StoredIsFile(s.files, id, Contents(s.db)[id]);
    }
  }

  lemma StoredIsFile(files: Directory, id: Text, v: Json)
    requires Stored(files, id, v)
    ensures FileName(id) in files
  {
  }

  // ----- Runs with losses of power -----

  datatype Happening = Ordinary(event: RelayRuns.Event) | Loss(kept: set<Text>)

  function Happen(s: State, h: Happening): State {
    match h
    case Ordinary(event) => Step(s, event)
    case Loss(kept) => PowerLoss(s, kept)
  }

  function History(s: State, hs: seq<Happening>): State {
    if hs == [] then s else Happen(History(s, hs[..|hs| - 1]), hs[|hs| - 1])
  }

  // No process ever returns early for a blob whose link is not on disk.
  predicate NeverTrusts(s: State, hs: seq<Happening>) {
    forall i | 0 <= i < |hs| && hs[i].Ordinary? :: !TrustsUnsynced(History(s, hs[..i]), hs[i].event)
  }

  lemma {:induction false} HistoryDurable(s: State, hs: seq<Happening>)
    requires Durable(s) && NeverTrusts(s, hs)
    ensures Durable(History(s, hs))
  {
    hide Durable, Step, PowerLoss, TrustsUnsynced;
    if hs != [] {
      var init, last := hs[..|hs| - 1], hs[|hs| - 1];
      forall i | 0 <= i < |init| && init[i].Ordinary? ensures !TrustsUnsynced(History(s, init[..i]), init[i].event) {
        assert init[..i] == hs[..i] && init[i] == hs[i];
      }
      HistoryDurable(s, init);
      match last
      case Ordinary(event) => StepDurable(History(s, init), event);
      case Loss(kept) => LossDurable(History(s, init), kept);
    }
  }

  // As long as that never happens, every candidate has its blob after any number of losses of power.
  lemma CandidatesSurvive(source: Text, snapshot: Option<Text>, hs: seq<Happening>, id: Text)
    requires NeverTrusts(Start(source, snapshot), hs) && id in Contents(History(Start(source, snapshot), hs).db)
    ensures var s := History(Start(source, snapshot), hs);
            Stored(s.files, id, Contents(s.db)[id]) && FileName(id) in s.synced
  {
    hide History, Contents, Stored, FileName, Invariant, NeverTrusts, IsCanonicalObjectId;
    StartDurable(source, snapshot);
    HistoryDurable(Start(source, snapshot), hs);
    CandidateStored(History(Start(source, snapshot), hs), id);
  }

  lemma StartDurable(source: Text, snapshot: Option<Text>)
    ensures Durable(Start(source, snapshot))
  {
    StartInvariant(source, snapshot);
    assert Contents(EmptyDatabase(source, snapshot)) == map[];
  }

  // ----- When the early return is safe -----

  // A put that finds its own representation returns at once.
  lemma StepFound(s: State, p: nat, e: Entry, purpose: Purpose, nonce: Text)
    requires AtStage(s, p, e, Checking, purpose) && IsCanonicalObjectId(e.objectId) && AllWhole(s.files)
    requires Stored(s.files, e.objectId, e.value)
    ensures Step(s, Proceed(p, nonce, 0)) == With(s, p, s.files, PutDone(e, purpose))
  {
    hide IsCanonicalObjectId, AllWhole, FileOctets, TempName, Compared;
    ComparedExactly(s.files, e);
  }

  // A publication that finds its blob there: once it has succeeded, a loss of power can leave its
  // candidate without a blob exactly if the link it relied on was not on disk.
  lemma EarlyReturnExactly(s: State, p: nat, e: Entry, nonce: Text)
    requires Durable(s) && Readable(s.db) && AtStage(s, p, e, Checking, Publishing)
    requires Stored(s.files, e.objectId, e.value)
    ensures var published := Step(Step(s, Proceed(p, nonce, 0)), Proceed(p, nonce, 0));
            && e.objectId in Contents(published.db) && Contents(published.db)[e.objectId] == e.value
            && ((forall kept :: Invariant(PowerLoss(published, kept))) <==> FileName(e.objectId) in s.synced)
  {
    hide Invariant, Contents, FileName, Stored, Step, PowerLoss, Readable, IsCanonicalObjectId, ProcessOk, LinkSynced;
    InvariantProcess(s, p);
    PuttingOk(s.files, e, Checking, Publishing);
    StepFound(s, p, e, Publishing, nonce);
    var s1 := Step(s, Proceed(p, nonce, 0));
    StepKeeps(s, Proceed(p, nonce, 0));
    var db, receipt := AppendNeverConflicts(s1, p, nonce, 0);
    var s2 := Step(s1, Proceed(p, nonce, 0));
    StepKeeps(s1, Proceed(p, nonce, 0));
    assert s2.synced == s.synced && Contents(s2.db) == Contents(s.db)[e.objectId := e.value];
    forall kept ensures Invariant(PowerLoss(s2, kept)) <==> FileName(e.objectId) in s.synced || FileName(e.objectId) in kept {
      SoundAfterLoss(s2, kept);
      assert e.objectId in Contents(s2.db);
    }
    var none: set<Text> := {};
    assert Invariant(PowerLoss(s2, none)) <==> FileName(e.objectId) in s.synced;
  }

  // It can happen: a first publisher links the blob and has not synced; a second one with the same
  // candidate returns early and succeeds; and power is lost.
  lemma LostBlob(source: Text, snapshot: Option<Text>, candidate: Json, nonce: Text)
    requires ReadEntry(candidate).Some?
    ensures var e := ReadEntry(candidate).value;
            var events :=
              [StartPublish(0, candidate, None)] + LinkEvents(0, nonce, |FileOctets(e.value)|) +
              [StartPublish(1, candidate, None), Proceed(1, nonce, 0), Proceed(1, nonce, 0)];
            var s := Run(Start(source, snapshot), events);
            && 1 in s.processes && s.processes[1].Done? && s.processes[1].finish.Published?
            && e.objectId in Contents(PowerLoss(s, {}).db)
            && FileName(e.objectId) !in PowerLoss(s, {}).files
  {
    hide ReadEntry, IsCanonicalObjectId, FileOctets, FileName, TempName, Run, LinkEvents, Contents, Invariant, Step,
         Stored, AllWhole, Readable, Linked;
    var e, s0 := ReadEntry(candidate).value, Start(source, snapshot);
    var first := [StartPublish(0, candidate, None)] + LinkEvents(0, nonce, |FileOctets(e.value)|);
    var s2 := FirstLinked(source, snapshot, candidate, nonce);
    RunKeepsNow(s0, first, source, snapshot);
    StepPublish(s2, 1, candidate);
    StepKeeps(s2, StartPublish(1, candidate, None));
    var s3 := Step(s2, StartPublish(1, candidate, None));
    InvariantFiles(s3);
    CanonicalEntry(candidate);
    StepFound(s3, 1, e, Publishing, nonce);
    StepKeeps(s3, Proceed(1, nonce, 0));
    var s4 := Step(s3, Proceed(1, nonce, 0));
    var db, receipt := AppendNeverConflicts(s4, 1, nonce, 0);
    ThreeSteps(s2, StartPublish(1, candidate, None), Proceed(1, nonce, 0), Proceed(1, nonce, 0));
    RunConcat(s0, first, [StartPublish(1, candidate, None), Proceed(1, nonce, 0), Proceed(1, nonce, 0)]);
  }

  // The state in which the first publisher has linked the blob.
  lemma FirstLinked(source: Text, snapshot: Option<Text>, candidate: Json, nonce: Text) returns (s: State)
    requires ReadEntry(candidate).Some?
    ensures var e := ReadEntry(candidate).value;
            && s == Run(Start(source, snapshot), [StartPublish(0, candidate, None)] + LinkEvents(0, nonce, |FileOctets(e.value)|))
            && Stored(s.files, e.objectId, e.value) && s.synced == {} && 1 !in s.processes && Readable(s.db)
  {
    hide ReadEntry, IsCanonicalObjectId, FileOctets, FileName, TempName, Run, LinkEvents, Step, Bound, BoundOption;
    var e, s0 := ReadEntry(candidate).value, Start(source, snapshot);
    CanonicalEntry(candidate);
    StepPublish(s0, 0, candidate);
    var s1 := With(s0, 0, s0.files, Putting(e, Checking, Publishing));
    UndisturbedLink(s1, 0, e, Publishing, nonce);
    RunFrom(s0, StartPublish(0, candidate, None), LinkEvents(0, nonce, |FileOctets(e.value)|));
    s := Run(s1, LinkEvents(0, nonce, |FileOctets(e.value)|));
  }

  lemma RunKeepsNow(s: State, events: seq<RelayRuns.Event>, source: Text, snapshot: Option<Text>)
    requires s == Start(source, snapshot)
    ensures Invariant(Run(s, events))
  {
    hide Invariant, Run;
    StartInvariant(source, snapshot);
    RunKeeps(s, events, |events|);
  }

  lemma ThreeSteps(s: State, a: RelayRuns.Event, b: RelayRuns.Event, c: RelayRuns.Event)
    ensures Run(s, [a, b, c]) == Step(Step(Step(s, a), b), c)
  {
    hide Step;
    RunFrom(s, a, [b, c]);
    RunFrom(Step(s, a), b, [c]);
    RunOne(Step(Step(s, a), b), c);
    assert [a] + [b, c] == [a, b, c] && [b] + [c] == [b, c];
  }
}
