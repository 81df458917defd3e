// The Relay's publication, restore and export protocol as a step machine over its two stores
// (relay-local/src/local-reference-relay.js). Any number of publishers, restorers and exporters take
// steps in any order; any of them may meet an I/O error or crash between two steps.
module RelayRuns {
  import opened Wrappers
  import opened Text
  import opened Json
  import opened ObjectId
  import opened Validation
  import opened ExportTime
  import opened Archive
  import opened Store
  import opened StoreLaws
  import opened CandidateStore
  import opened BlobStore

  // ----- Processes -----

  // Where putIfAbsent stands. The temporary file is private to the process.
  datatype Stage =
    | Checking                                              // about to read the blob
    | Creating                                              // nothing there: about to open a temporary file
    | Writing(temporary: Text, written: nat)
    | Linking(temporary: Text)
    | Comparing(temporary: Text)                            // link found the name taken
    | Syncing(temporary: Text)                              // linked or equal: about to sync the directory
    | Unlinking(temporary: Text, outcome: Option<Error>)

  // What a put is part of: a publication, or the restoring of one blob of an archive.
  datatype Purpose = Publishing | Restoring(archive: Archive, index: nat)

  datatype Finish =
    | Published(e: Entry, receipt: AppendReceipt)
    | Checked
    | ReplacedWith(archive: Archive)
    | ExportedAs(archive: Archive)
    | Refused(error: Error)

  datatype Process =
    | Putting(e: Entry, stage: Stage, purpose: Purpose)
    | Appending(e: Entry)
    | Importing(archive: Archive)
    | Snapshotting(exportedAt: Json)
    | Reading(snapshot: StoreExport, exportedAt: Json, blobs: seq<Entry>)
    | Done(finish: Finish)

  // The directory, the names in it that are on disk, the database, and the processes.
  datatype State = State(files: Directory, synced: set<Text>, db: Database, processes: map<nat, Process>)

  datatype Event =
    | StartPublish(process: nat, candidate: Json, refused: Option<Error>)
    | StartRestore(process: nat, archive: Json, mode: Text)
    | StartExport(process: nat, exportedAt: Json)
    | Proceed(process: nat, nonce: Text, amount: nat)       // a random name, and octets written, where needed
    | Fail(process: nat)                                    // the step meets an I/O error
    | Crash(process: nat)

  // ----- Steps -----

  // publish up to the put; capability and policy may refuse.
  function PublishStart(candidate: Json, refused: Option<Error>): Process {
    match ReadEntry(candidate)
    case None => Done(Refused(RelayProtocol))
    case Some(e) => match refused case Some(error) => Done(Refused(error)) case None => Putting(e, Checking, Publishing)
  }

  function RestoreStart(archive: Json, mode: Text): Process {
    match VerifyRelayArchive(archive)
    case Err(error) => Done(Refused(error))
    case Ok(a) =>
      if mode == VALIDATE then Done(Checked)
      else if mode != REPLACE then Done(Refused(RelayProtocol))
      else NextPut(a, 0)
  }

  // The loop of restoreBlobs, and the import after it.
  function NextPut(a: Archive, index: nat): Process {
    if index < |a.blobs| then Putting(a.blobs[index], Checking, Restoring(a, index)) else Importing(a)
  }

  function PutDone(e: Entry, purpose: Purpose): Process {
    match purpose
    case Publishing => Appending(e)
    case Restoring(a, index) => NextPut(a, index + 1)
  }

  function PutEnded(e: Entry, purpose: Purpose, outcome: Option<Error>): Process {
    match outcome case None => PutDone(e, purpose) case Some(error) => Done(Refused(error))
  }

  // The comparison of a put with a file that is there.
  function Compared(files: Directory, e: Entry): Option<Error> {
    match PutResult(files, e) case Ok(_) => None case Err(error) => Some(error)
  }

  // One step of putIfAbsent.
  function PutStep(files: Directory, e: Entry, stage: Stage, purpose: Purpose, nonce: Text, amount: nat): (Directory, Process) {
    match stage
    case Checking =>
      (files, if FileName(e.objectId) in files then PutEnded(e, purpose, Compared(files, e)) else Putting(e, Creating, purpose))
    case Creating =>
      var temporary := TempName(e.objectId, nonce);
      if temporary in files then (files, Putting(e, Creating, purpose))
      else (files[temporary := []], Putting(e, Writing(temporary, 0), purpose))
    case Writing(temporary, written) =>
      var octets := FileOctets(e.value);
      var more := if written + amount < |octets| then written + amount else |octets|;
      (files[temporary := octets[..more]],
       Putting(e, if more < |octets| then Writing(temporary, more) else Linking(temporary), purpose))
    case Linking(temporary) =>
      if FileName(e.objectId) in files then (files, Putting(e, Comparing(temporary), purpose))
      else if temporary !in files then (files, Putting(e, Unlinking(temporary, Some(StoreAccess)), purpose))
      else (files[FileName(e.objectId) := files[temporary]], Putting(e, Syncing(temporary), purpose))
    case Comparing(temporary) =>
      var error := Compared(files, e);
      (files, Putting(e, if error.None? then Syncing(temporary) else Unlinking(temporary, error), purpose))
    case Syncing(temporary) => (files, Putting(e, Unlinking(temporary, None), purpose))
    case Unlinking(temporary, outcome) => (files - {temporary}, PutEnded(e, purpose, outcome))
  }

  // One step of exportBlobs, and createRelayArchive after it.
  function ReadStep(files: Directory, x: StoreExport, exportedAt: Json, blobs: seq<Entry>): Process {
    if |blobs| < |x.entries| then
      var id := x.entries[|blobs|].objectId;
      match ReadBlob(files, id)
      case Err(error) => Done(Refused(error))
      case Ok(None) => Done(Refused(StoreIntegrity))
      case Ok(Some(v)) => Reading(x, exportedAt, blobs + [Entry(id, v)])
    else
      match CreateRelayArchive(StoreExportJson(x), EntriesJson(blobs), exportedAt)
      case Err(error) => Done(Refused(error))
      case Ok(a) => Done(ExportedAs(a))
  }

  function AppendStep(db: Database, e: Entry): (Database, Process) {
    var o := PublishImmutable(db, EntriesJson([e]));
    (o.db, match o.result case Ok(receipt) => Done(Published(e, receipt)) case Err(error) => Done(Refused(error)))
  }

  function ImportStep(db: Database, a: Archive): (Database, Process) {
    var o := RestoreSnapshot(db, StoreExportJson(a.snapshot), REPLACE);
    (o.db, match o.result case Ok(_) => Done(ReplacedWith(a)) case Err(error) => Done(Refused(error)))
  }

  function SnapshotStep(db: Database, exportedAt: Json): Process {
    match ExportNormalized(db)
    case Err(error) => Done(Refused(error))
    case Ok(x) => Reading(x, exportedAt, [])
  }

  // syncDirectory puts every name of the directory on disk; nothing else in the protocol does.
  function SyncedAfter(s: State, stage: Stage): set<Text> {
    if stage.Syncing? then s.files.Keys else s.synced
  }

  function Moved(s: State, p: nat, nonce: Text, amount: nat): State
    requires p in s.processes
  {
    match s.processes[p]
    case Putting(e, stage, purpose) =>
      var (files, next) := PutStep(s.files, e, stage, purpose, nonce, amount);
      State(files, SyncedAfter(s, stage), s.db, s.processes[p := next])
    case Appending(e) =>
      var (db, next) := AppendStep(s.db, e);
      s.(db := db, processes := s.processes[p := next])
    case Importing(a) =>
      var (db, next) := ImportStep(s.db, a);
      s.(db := db, processes := s.processes[p := next])
    case Snapshotting(exportedAt) => s.(processes := s.processes[p := SnapshotStep(s.db, exportedAt)])
    case Reading(x, exportedAt, blobs) => s.(processes := s.processes[p := ReadStep(s.files, x, exportedAt, blobs)])
    case Done(_) => s
  }

  // What an I/O error leads to. A temporary file that was opened is unlinked; an error after the
  // link, in syncing the directory, is reported although the blob is there; a failed unlink does
  // not change the outcome and leaves the temporary file.
  function Failing(process: Process): Process {
    match process
    case Putting(e, stage, purpose) =>
      (match stage
       case Checking => Done(Refused(StoreAccess))
       case Creating => Done(Refused(StoreAccess))
       case Unlinking(_, outcome) => PutEnded(e, purpose, outcome)
       case _ => Putting(e, Unlinking(stage.temporary, Some(StoreAccess)), purpose))
    case Done(_) => process
    case _ => Done(Refused(StoreAccess))
  }

  function Started(s: State, p: nat, process: Process): State {
    if p in s.processes then s else s.(processes := s.processes[p := process])
  }

  function Step(s: State, event: Event): State {
    match event
    case StartPublish(p, candidate, refused) => Started(s, p, PublishStart(candidate, refused))
    case StartRestore(p, archive, mode) => Started(s, p, RestoreStart(archive, mode))
    case StartExport(p, exportedAt) => Started(s, p, Snapshotting(exportedAt))
    case Proceed(p, nonce, amount) => if p in s.processes then Moved(s, p, nonce, amount) else s
    case Fail(p) => if p in s.processes then s.(processes := s.processes[p := Failing(s.processes[p])]) else s
    case Crash(p) => s.(processes := s.processes - {p})
  }

  function Start(source: Text, snapshot: Option<Text>): State {
    State(map[], {}, EmptyDatabase(source, snapshot), map[])
  }

  function Run(s: State, events: seq<Event>): State {
    if events == [] then s else Step(Run(s, events[..|events| - 1]), events[|events| - 1])
  }

  // The state after the first n events.
  function At(s: State, events: seq<Event>, n: nat): State
    requires n <= |events|
  {
    Run(s, events[..n])
  }

  // ----- The invariant -----

  // Every visible candidate has a blob with the same representation.
  predicate Backed(files: Directory, db: Database) {
    forall id | id in Contents(db) :: Stored(files, id, Contents(db)[id])
  }

  function TemporaryOf(process: Process): Option<Text> {
    if !process.Putting? then None
    else
      match process.stage
      case Checking => None
      case Creating => None
      case Writing(temporary, _) => Some(temporary)
      case Linking(temporary) => Some(temporary)
      case Comparing(temporary) => Some(temporary)
      case Syncing(temporary) => Some(temporary)
      case Unlinking(temporary, _) => Some(temporary)
  }

  predicate StageOk(files: Directory, e: Entry, stage: Stage) {
    match stage
    case Checking => true
    case Creating => true
    case Writing(temporary, written) =>
      written <= |FileOctets(e.value)| && temporary in files && files[temporary] == FileOctets(e.value)[..written]
    case Linking(temporary) => temporary in files && files[temporary] == FileOctets(e.value)
    case Comparing(temporary) => FileName(e.objectId) in files
    case Syncing(temporary) => Stored(files, e.objectId, e.value)
    case Unlinking(temporary, outcome) => outcome.None? ==> Stored(files, e.objectId, e.value)
  }

  predicate PurposeOk(files: Directory, e: Entry, purpose: Purpose) {
    match purpose
    case Publishing => true
    case Restoring(a, index) =>
      NormalArchive(a) && index < |a.blobs| && a.blobs[index] == e && AllStored(files, a.blobs[..index])
  }

  // What a process has achieved so far.
  predicate ProcessOk(files: Directory, process: Process) {
    match process
    case Putting(e, stage, purpose) => IsCanonicalObjectId(e.objectId) && StageOk(files, e, stage) && PurposeOk(files, e, purpose)
    case Appending(e) => IsCanonicalObjectId(e.objectId) && Stored(files, e.objectId, e.value)
    case Importing(a) => NormalArchive(a) && AllStored(files, a.blobs)
    case Snapshotting(_) => true
    case Reading(x, _, blobs) =>
      NormalExport(x) && AllStored(files, x.entries) && |blobs| <= |x.entries| && blobs == x.entries[..|blobs|]
    case Done(Published(e, _)) => IsCanonicalObjectId(e.objectId) && Stored(files, e.objectId, e.value)
    case Done(ReplacedWith(a)) => NormalArchive(a) && AllStored(files, a.blobs)
    case Done(ExportedAs(a)) => NormalArchive(a) && AllStored(files, a.blobs)
    case Done(_) => true
  }

  predicate OwnsTemporary(files: Directory, process: Process) {
    var t := TemporaryOf(process);
    t.Some? ==> t.value in files && !IsBlobName(t.value)
  }

  predicate Separate(processes: map<nat, Process>) {
    forall p, q | p in processes && q in processes && p != q && TemporaryOf(processes[p]).Some? ::
      TemporaryOf(processes[p]) != TemporaryOf(processes[q])
  }

  ghost predicate Invariant(s: State) {
    && Valid(s.db) && AllWhole(s.files) && Backed(s.files, s.db)
    && (forall p | p in s.processes :: ProcessOk(s.files, s.processes[p]) && OwnsTemporary(s.files, s.processes[p]))
    && Separate(s.processes)
  }

  // ----- What stays true of the other processes -----

  // Only one private file may differ, and files may be added.
  predicate KeepsOthers(before: Directory, after: Directory, own: Option<Text>) {
    forall name | name in before && own != Some(name) :: name in after && after[name] == before[name]
  }

  lemma AllStoredKept(before: Directory, after: Directory, es: seq<Entry>)
    requires KeepsBlobs(before, after) && CanonicalIds(es) && AllStored(before, es)
    ensures AllStored(after, es)
  {
    hide KeepsBlobs, Stored, IsCanonicalObjectId;
    forall i | 0 <= i < |es| ensures Stored(after, es[i].objectId, es[i].value) {
      StoredKept(before, after, es[i].objectId, es[i].value);
    }
  }

  lemma ArchiveIds(a: Archive)
    requires NormalArchive(a)
    ensures NormalEntries(a.blobs) && CanonicalIds(a.blobs)
  {
    NormalIds(a.blobs);
  }

  lemma StageKept(before: Directory, after: Directory, e: Entry, stage: Stage)
    requires KeepsBlobs(before, after) && IsCanonicalObjectId(e.objectId) && StageOk(before, e, stage)
    requires var t := TemporaryOf(Putting(e, stage, Publishing));
             t.Some? && t.value in before ==> t.value in after && after[t.value] == before[t.value]
    ensures StageOk(after, e, stage)
  {
    hide IsCanonicalObjectId, FileOctets, FileName, IsBlobName;
    FileNames(e.objectId, e.objectId, []);
    if stage.Syncing? || (stage.Unlinking? && stage.outcome.None?) {
      StoredKept(before, after, e.objectId, e.value);
    }
  }

  lemma ProcessKept(before: Directory, after: Directory, process: Process)
    requires KeepsBlobs(before, after) && ProcessOk(before, process)
    requires var t := TemporaryOf(process);
             t.Some? && t.value in before ==> t.value in after && after[t.value] == before[t.value]
    ensures ProcessOk(after, process)
  {
    hide KeepsBlobs, Stored, StageOk, IsCanonicalObjectId, NormalArchive, AllStored, NormalEntries, NormalCoverage;
    match process
    case Putting(e, stage, purpose) =>
      StageKept(before, after, e, stage);
      if purpose.Restoring? {
        ArchiveIds(purpose.archive);
        AllStoredKept(before, after, purpose.archive.blobs[..purpose.index]);
      }
    case Appending(e) => StoredKept(before, after, e.objectId, e.value);
    case Importing(a) =>
      ArchiveIds(a);
      AllStoredKept(before, after, a.blobs);
    case Snapshotting(_) =>
    case Reading(x, _, _) =>
      NormalIds(x.entries);
      AllStoredKept(before, after, x.entries);
    case Done(Published(e, _)) => StoredKept(before, after, e.objectId, e.value);
    case Done(ReplacedWith(a)) =>
      ArchiveIds(a);
      AllStoredKept(before, after, a.blobs);
    case Done(ExportedAs(a)) =>
      ArchiveIds(a);
      AllStoredKept(before, after, a.blobs);
    case Done(_) =>
  }

  lemma OthersKeepBlobs(before: Directory, after: Directory, own: Option<Text>)
    requires KeepsOthers(before, after, own) && (own.Some? ==> !IsBlobName(own.value))
    ensures KeepsBlobs(before, after)
  {
    hide IsBlobName;
  }

  lemma BackedKept(before: Directory, after: Directory, db: Database)
    requires KeepsBlobs(before, after) && Valid(db) && Backed(before, db)
    ensures Backed(after, db)
  {
    hide KeepsBlobs, Stored, IsCanonicalObjectId, ValidRow, ContentOf, ValidCoverageRow;
    forall id | id in Contents(db) ensures Stored(after, id, Contents(db)[id]) {
      StoredKept(before, after, id, Contents(db)[id]);
    }
  }

  // A process that goes on to `next` with the files and the database it leaves.
  ghost predicate GoodMove(files: Directory, process: Process, files': Directory, next: Process) {
    && AllWhole(files') && KeepsOthers(files, files', TemporaryOf(process))
    && ProcessOk(files', next) && OwnsTemporary(files', next)
    && (TemporaryOf(next).Some? && TemporaryOf(next) != TemporaryOf(process) ==> TemporaryOf(next).value !in files)
  }

  lemma MoveKeeps(s: State, p: nat, files: Directory, synced: set<Text>, db: Database, next: Process)
    requires Invariant(s) && p in s.processes && GoodMove(s.files, s.processes[p], files, next)
    requires Valid(db) && Backed(files, db)
    ensures Invariant(State(files, synced, db, s.processes[p := next]))
    ensures KeepsBlobs(s.files, files)
  {
    hide Valid, Backed, AllWhole, KeepsBlobs, ProcessOk, IsBlobName, TemporaryOf;
    OthersKeepBlobs(s.files, files, TemporaryOf(s.processes[p]));
    var processes := s.processes[p := next];
    forall q | q in processes ensures ProcessOk(files, processes[q]) && OwnsTemporary(files, processes[q]) {
      if q != p {
        assert TemporaryOf(s.processes[q]).Some? ==> TemporaryOf(s.processes[q]) != TemporaryOf(s.processes[p]);
        ProcessKept(s.files, files, s.processes[q]);
      }
    }
    assert Separate(processes);
  }

  // A process that changes neither files nor database.
  lemma QuietMoveKeeps(s: State, p: nat, next: Process)
    requires Invariant(s) && p in s.processes && ProcessOk(s.files, next)
    requires TemporaryOf(next).None? || TemporaryOf(next) == TemporaryOf(s.processes[p])
    ensures Invariant(s.(processes := s.processes[p := next]))
  {
    hide Valid, Backed, AllWhole, ProcessOk, IsBlobName, TemporaryOf;
    assert GoodMove(s.files, s.processes[p], s.files, next);
    MoveKeeps(s, p, s.files, s.synced, s.db, next);
  }

  // ----- The steps of a put -----

  lemma NextPutOk(files: Directory, a: Archive, index: nat)
    requires NormalArchive(a) && index <= |a.blobs| && AllStored(files, a.blobs[..index])
    ensures ProcessOk(files, NextPut(a, index)) && TemporaryOf(NextPut(a, index)).None?
  {
    hide NormalArchive, Stored, IsCanonicalObjectId;
    ArchiveIds(a);
    if index == |a.blobs| {
      assert a.blobs[..index] == a.blobs;
    }
  }

  lemma PutEndedOk(files: Directory, e: Entry, purpose: Purpose, outcome: Option<Error>)
    requires IsCanonicalObjectId(e.objectId) && PurposeOk(files, e, purpose)
    requires outcome.None? ==> Stored(files, e.objectId, e.value)
    ensures ProcessOk(files, PutEnded(e, purpose, outcome)) && TemporaryOf(PutEnded(e, purpose, outcome)).None?
  {
    hide NormalArchive, Stored, IsCanonicalObjectId;
    if outcome.None? && purpose.Restoring? {
      var a, index := purpose.archive, purpose.index;
      assert a.blobs[..index + 1] == a.blobs[..index] + [e];
      NextPutOk(files, a, index + 1);
    }
  }

  lemma ComparedExactly(files: Directory, e: Entry)
    requires AllWhole(files) && IsCanonicalObjectId(e.objectId)
    ensures Compared(files, e) == if Stored(files, e.objectId, e.value) then None else Some(StoreIntegrity)
  {
    hide AllWhole, IsCanonicalObjectId, PutResult, Stored;
    PutSucceeds(files, e);
  }

  lemma AddTemporary(files: Directory, temporary: Text, octets: seq<int>)
    requires !IsBlobName(temporary) && AllWhole(files)
    ensures AllWhole(files[temporary := octets]) && KeepsOthers(files, files[temporary := octets], Some(temporary))
    ensures temporary !in files ==> KeepsOthers(files, files[temporary := octets], None)
    ensures AllWhole(files - {temporary}) && KeepsOthers(files, files - {temporary}, Some(temporary))
  {
    hide IsBlobName, Whole;
  }

  lemma PurposeKept(before: Directory, after: Directory, e: Entry, purpose: Purpose)
    requires KeepsBlobs(before, after) && PurposeOk(before, e, purpose)
    ensures PurposeOk(after, e, purpose)
  {
    hide KeepsBlobs, NormalArchive, Stored;
    if purpose.Restoring? {
      ArchiveIds(purpose.archive);
      AllStoredKept(before, after, purpose.archive.blobs[..purpose.index]);
    }
  }

  lemma CreatingOk(files: Directory, e: Entry, purpose: Purpose, nonce: Text)
    requires AllWhole(files) && ProcessOk(files, Putting(e, Creating, purpose))
    ensures var (files', next) := PutStep(files, e, Creating, purpose, nonce, 0);
            GoodMove(files, Putting(e, Creating, purpose), files', next)
  {
    hide AllWhole, IsCanonicalObjectId, FileOctets, TempName, FileName, IsBlobName, PurposeOk, KeepsBlobs;
    FileNames(e.objectId, e.objectId, nonce);
    var temporary := TempName(e.objectId, nonce);
    AddTemporary(files, temporary, []);
    OthersKeepBlobs(files, files[temporary := []], Some(temporary));
    PurposeKept(files, files[temporary := []], e, purpose);
    assert FileOctets(e.value)[..0] == [];
  }

  lemma WritingOk(files: Directory, e: Entry, stage: Stage, purpose: Purpose, amount: nat)
    requires AllWhole(files) && stage.Writing?
    requires ProcessOk(files, Putting(e, stage, purpose)) && OwnsTemporary(files, Putting(e, stage, purpose))
    ensures var (files', next) := PutStep(files, e, stage, purpose, [], amount);
            GoodMove(files, Putting(e, stage, purpose), files', next)
  {
    hide AllWhole, IsCanonicalObjectId, FileOctets, FileName, IsBlobName, PurposeOk, KeepsBlobs;
    var octets, temporary := FileOctets(e.value), stage.temporary;
    var more := if stage.written + amount < |octets| then stage.written + amount else |octets|;
    AddTemporary(files, temporary, octets[..more]);
    OthersKeepBlobs(files, files[temporary := octets[..more]], Some(temporary));
    PurposeKept(files, files[temporary := octets[..more]], e, purpose);
    assert octets[..|octets|] == octets;
  }

  lemma LinkWhole(files: Directory, e: Entry)
    requires AllWhole(files) && IsCanonicalObjectId(e.objectId) && FileName(e.objectId) !in files
    ensures AfterPut(files, e) == files[FileName(e.objectId) := FileOctets(e.value)]
    ensures AllWhole(AfterPut(files, e)) && KeepsBlobs(files, AfterPut(files, e))
    ensures Stored(AfterPut(files, e), e.objectId, e.value)
  {
    hide AllWhole, IsCanonicalObjectId, FileOctets, FileName, KeepsBlobs;
    AfterPutKeeps(files, e);
  }

  lemma LinkingOk(files: Directory, e: Entry, stage: Stage, purpose: Purpose)
    requires AllWhole(files) && stage.Linking?
    requires ProcessOk(files, Putting(e, stage, purpose)) && OwnsTemporary(files, Putting(e, stage, purpose))
    ensures var (files', next) := PutStep(files, e, stage, purpose, [], 0);
            GoodMove(files, Putting(e, stage, purpose), files', next)
  {
    hide AllWhole, IsCanonicalObjectId, FileOctets, FileName, IsBlobName, PurposeOk, KeepsBlobs, Stored;
    if FileName(e.objectId) !in files {
      LinkWhole(files, e);
      PurposeKept(files, AfterPut(files, e), e, purpose);
    }
  }

  lemma PutStepOk(files: Directory, e: Entry, stage: Stage, purpose: Purpose, nonce: Text, amount: nat)
    requires AllWhole(files)
    requires ProcessOk(files, Putting(e, stage, purpose)) && OwnsTemporary(files, Putting(e, stage, purpose))
    ensures var (files', next) := PutStep(files, e, stage, purpose, nonce, amount);
            GoodMove(files, Putting(e, stage, purpose), files', next)
  {
    hide AllWhole, IsCanonicalObjectId, FileOctets, FileName, TempName, IsBlobName, PurposeOk, KeepsBlobs, Stored,
         Compared, PutEnded, ProcessOk;
    match stage
    case Checking =>
      PuttingOk(files, e, stage, purpose);
      ComparedExactly(files, e);
      PutEndedOk(files, e, purpose, Compared(files, e));
      CheckedOk(files, e, purpose);
    case Creating => CreatingOk(files, e, purpose, nonce);
    case Writing(_, _) => WritingOk(files, e, stage, purpose, amount);
    case Linking(_) => LinkingOk(files, e, stage, purpose);
    case Comparing(temporary) =>
      PuttingOk(files, e, stage, purpose);
      ComparedExactly(files, e);
      UnlinkingNext(files, e, temporary, Compared(files, e), purpose);
    case Syncing(temporary) =>
      PuttingOk(files, e, stage, purpose);
      UnlinkingNext(files, e, temporary, None, purpose);
    case Unlinking(temporary, outcome) =>
      PuttingOk(files, e, stage, purpose);
      UnlinkingOk(files, e, temporary, outcome, purpose);
  }

  lemma PuttingOk(files: Directory, e: Entry, stage: Stage, purpose: Purpose)
    ensures ProcessOk(files, Putting(e, stage, purpose)) <==>
            IsCanonicalObjectId(e.objectId) && StageOk(files, e, stage) && PurposeOk(files, e, purpose)
  {
  }

  lemma CheckedOk(files: Directory, e: Entry, purpose: Purpose)
    requires IsCanonicalObjectId(e.objectId) && PurposeOk(files, e, purpose)
    ensures ProcessOk(files, Putting(e, Creating, purpose))
  {
  }

  lemma UnlinkingNext(files: Directory, e: Entry, temporary: Text, outcome: Option<Error>, purpose: Purpose)
    requires IsCanonicalObjectId(e.objectId) && PurposeOk(files, e, purpose)
    requires outcome.None? ==> Stored(files, e.objectId, e.value)
    ensures ProcessOk(files, Putting(e, Unlinking(temporary, outcome), purpose))
    ensures outcome.None? ==> ProcessOk(files, Putting(e, Syncing(temporary), purpose))
  {
  }

  lemma UnlinkingOk(files: Directory, e: Entry, temporary: Text, outcome: Option<Error>, purpose: Purpose)
    requires AllWhole(files) && IsCanonicalObjectId(e.objectId) && PurposeOk(files, e, purpose) && !IsBlobName(temporary)
    requires outcome.None? ==> Stored(files, e.objectId, e.value)
    ensures AllWhole(files - {temporary}) && KeepsOthers(files, files - {temporary}, Some(temporary))
    ensures ProcessOk(files - {temporary}, PutEnded(e, purpose, outcome)) && TemporaryOf(PutEnded(e, purpose, outcome)).None?
  {
    hide AllWhole, IsCanonicalObjectId, IsBlobName, PurposeOk, KeepsBlobs, Stored, PutEnded, KeepsOthers, ProcessOk;
    AddTemporary(files, temporary, []);
    OthersKeepBlobs(files, files - {temporary}, Some(temporary));
    PurposeKept(files, files - {temporary}, e, purpose);
    if outcome.None? {
      StoredKept(files, files - {temporary}, e.objectId, e.value);
    }
    PutEndedOk(files - {temporary}, e, purpose, outcome);
  }

  // ----- The steps on the candidate store -----

  // With its blob stored, a candidate cannot disagree with a stored object.
  lemma StoredAgrees(files: Directory, db: Database, e: Entry)
    requires Backed(files, db) && Stored(files, e.objectId, e.value)
    ensures Agrees(Contents(db), e)
  {
    hide Stored, Contents;
    if e.objectId in Contents(db) {
      StoredOnce(files, e.objectId, e.value, Contents(db)[e.objectId]);
    }
  }

  // After putIfAbsent has succeeded, the append never meets a conflict: it succeeds whenever the
  // store is readable, and keeps every candidate backed.
  lemma AppendStepOk(files: Directory, db: Database, e: Entry)
    requires Valid(db) && Backed(files, db) && IsCanonicalObjectId(e.objectId) && Stored(files, e.objectId, e.value)
    ensures PublishImmutable(db, EntriesJson([e])).result.Ok? <==> Readable(db)
    ensures Valid(AppendStep(db, e).0) && Backed(files, AppendStep(db, e).0)
    ensures ProcessOk(files, AppendStep(db, e).1) && TemporaryOf(AppendStep(db, e).1).None?
  {
    hide Valid, Backed, IsCanonicalObjectId, Stored, Contents, AppendNormalized, PublishImmutable, NormalEntries,
         Objects, Agrees, Appended, Readable, NormalizedCandidates, EntriesJson;
    OneCandidate(e);
    PublishIsAppend(db, EntriesJson([e]));
    StoredAgrees(files, db, e);
    AppendEffect(db, [e]);
    var o := AppendNormalized(db, [e]);
    assert [e][0] == e;
    if o.result.Ok? {
      AppendedBacked(files, db, o.db, e);
    }
  }

  lemma AppendedBacked(files: Directory, before: Database, after: Database, e: Entry)
    requires Backed(files, before) && Stored(files, e.objectId, e.value)
    requires Appended(before, after, [e]) && Objects([e]) == map[e.objectId := e.value]
    ensures Valid(after) && Backed(files, after)
  {
    hide Valid, Stored, Contents, Objects;
  }

  lemma AppendedContents(before: Database, after: Database, e: Entry)
    requires Appended(before, after, [e]) && Objects([e]) == map[e.objectId := e.value]
    ensures Contents(after) == Contents(before)[e.objectId := e.value]
  {
    hide Valid, Contents, Objects;
  }

  lemma ImportedBacked(files: Directory, before: Database, after: Database, a: Archive)
    requires NormalArchive(a) && AllStored(files, a.blobs)
    requires Imported(before, after, a.snapshot.entries, a.snapshot.coverage, true, Some(a.snapshot.source), Some(a.snapshot.snapshot))
    ensures Valid(after) && Backed(files, after)
  {
    hide Valid, Stored, Contents, Objects, NormalEntries, NormalCoverage, CoverageTable, Bound, BoundOption, DigestOf,
         IsExportTime;
    var es := a.snapshot.entries;
    NormalIds(es);
    ObjectsOf(es);
    var none: map<Text, Json> := map[];
    assert none + Objects(es) == Objects(es);
    forall id | id in Contents(after) ensures Stored(files, id, Contents(after)[id]) {
      var i :| 0 <= i < |es| && es[i].objectId == id;
      assert Stored(files, es[i].objectId, es[i].value);
    }
  }

  lemma ImportStepOk(files: Directory, db: Database, a: Archive)
    requires Valid(db) && Backed(files, db) && NormalArchive(a) && AllStored(files, a.blobs)
    ensures RestoreSnapshot(db, StoreExportJson(a.snapshot), REPLACE).result.Ok? <==> Readable(db)
    ensures Valid(ImportStep(db, a).0) && Backed(files, ImportStep(db, a).0)
    ensures ProcessOk(files, ImportStep(db, a).1) && TemporaryOf(ImportStep(db, a).1).None?
  {
    hide Valid, Backed, Stored, Contents, ImportNormalized, Import, NormalEntries, NormalCoverage, Objects, Agrees,
         Imported, DigestOf, IsExportTime, StoreExportJson, NormalizeStoreExport, AllStored;
    var x := a.snapshot;
    ExportIdempotent(x);
    ReplaceDiffers();
    RestoreIsImport(db, x);
    ImportEffect(db, x.entries, x.coverage, true, Some(x.source), Some(x.snapshot));
    NothingDisagrees(x.entries);
    var o := ImportNormalized(db, x.entries, x.coverage, true, Some(x.source), Some(x.snapshot));
    if o.result.Ok? {
      ImportedBacked(files, db, o.db, a);
    }
  }

  lemma NothingDisagrees(es: seq<Entry>)
    ensures forall i | 0 <= i < |es| :: Agrees(map[], es[i])
  {
  }

  // A snapshot's entries have blobs at the instant it is taken.
  lemma SnapshotStepOk(files: Directory, db: Database, exportedAt: Json)
    requires Valid(db) && Backed(files, db)
    ensures ProcessOk(files, SnapshotStep(db, exportedAt)) && TemporaryOf(SnapshotStep(db, exportedAt)).None?
  {
    hide Valid, Stored, Contents, Objects, ExportSnapshot, ExportNormalized, DeclaresNow, NormalExport;
    ExportExactly(db);
    if ExportSnapshot(db).Ok? {
      var es := ExportSnapshot(db).value.entries;
      ExportEntriesStored(files, db, ExportSnapshot(db).value);
      assert es[..0] == [];
    }
  }

  lemma ExportEntriesStored(files: Directory, db: Database, x: StoreExport)
    requires Backed(files, db) && Describes(x, db)
    ensures NormalExport(x) && AllStored(files, x.entries)
  {
    hide Stored, Contents, Objects, DeclaresNow, NormalEntries, NormalCoverage;
    NormalIds(x.entries);
    ObjectsOf(x.entries);
    forall i | 0 <= i < |x.entries| ensures Stored(files, x.entries[i].objectId, x.entries[i].value) {
      assert x.entries[i].objectId in Contents(db);
    }
  }

  // ----- The steps of an export -----

  // A running export never misses a blob: every read succeeds, and the archive is made, of exactly
  // the snapshot's entries, unless the export time asked for is none.
  lemma ReadStepExactly(files: Directory, x: StoreExport, exportedAt: Json, blobs: seq<Entry>)
    requires ProcessOk(files, Reading(x, exportedAt, blobs))
    ensures var next := ReadStep(files, x, exportedAt, blobs);
            if |blobs| < |x.entries| then next == Reading(x, exportedAt, x.entries[..|blobs| + 1])
            else if exportedAt.JStr? && IsExportTime(exportedAt.text) then
              next.Done? && next.finish.ExportedAs? && NormalArchive(next.finish.archive) &&
              next.finish.archive.snapshot == x && next.finish.archive.blobs == x.entries
            else next == Done(Refused(RelayProtocol))
  {
    hide Stored, NormalEntries, NormalCoverage, ReadBlob, CreateRelayArchive, StoreExportJson, DigestOf, IsExportTime;
    if |blobs| < |x.entries| {
      var e := x.entries[|blobs|];
      ReadStored(files, e.objectId, e.value);
      assert x.entries[..|blobs| + 1] == blobs + [e];
    } else {
      assert x.entries[..|blobs|] == x.entries;
      ArchiveMade(x, exportedAt);
    }
  }

  lemma ArchiveMade(x: StoreExport, exportedAt: Json)
    requires NormalExport(x)
    ensures var r := CreateRelayArchive(StoreExportJson(x), EntriesJson(x.entries), exportedAt);
            if exportedAt.JStr? && IsExportTime(exportedAt.text) then
              r.Ok? && NormalArchive(r.value) && r.value.snapshot == x && r.value.blobs == x.entries
            else r == Err(RelayProtocol)
  {
    hide NormalCoverage, StoreExportJson, IsExportTime, NormalizeStoreExport, NormalizedCandidates, NormalEntries;
    ExportIdempotent(x);
    CandidatesIdempotent(x.entries);
    CreateNormal(StoreExportJson(x), EntriesJson(x.entries), exportedAt);
    CreateFails(StoreExportJson(x), EntriesJson(x.entries), exportedAt);
  }

  lemma CreateFails(snapshot: Json, blobs: Json, exportedAt: Json)
    ensures var r := CreateRelayArchive(snapshot, blobs, exportedAt);
            r.Err? ==> r == Err(RelayProtocol)
  {
  }

  lemma ReadStepOk(files: Directory, x: StoreExport, exportedAt: Json, blobs: seq<Entry>)
    requires ProcessOk(files, Reading(x, exportedAt, blobs))
    ensures ProcessOk(files, ReadStep(files, x, exportedAt, blobs)) && TemporaryOf(ReadStep(files, x, exportedAt, blobs)).None?
  {
    hide Stored, ReadStep, NormalExport, DigestOf, IsExportTime;
    ReadStepExactly(files, x, exportedAt, blobs);
  }

  // ----- Every step keeps the invariant -----

  lemma MovedKeeps(s: State, p: nat, nonce: Text, amount: nat)
    requires Invariant(s) && p in s.processes
    ensures Invariant(Moved(s, p, nonce, amount)) && KeepsBlobs(s.files, Moved(s, p, nonce, amount).files)
  {
    hide Valid, Backed, AllWhole, KeepsBlobs, ProcessOk, OwnsTemporary, Separate, PutStep, AppendStep, ImportStep,
         SnapshotStep, ReadStep, GoodMove, Stored, TemporaryOf;
    assert ProcessOk(s.files, s.processes[p]);
    SameFiles(s.files);
    match s.processes[p]
    case Putting(e, stage, purpose) =>
      PutStepOk(s.files, e, stage, purpose, nonce, amount);
      var (files, next) := PutStep(s.files, e, stage, purpose, nonce, amount);
      OwnFiles(s, p, files, next);
      BackedKept(s.files, files, s.db);
      MoveKeeps(s, p, files, SyncedAfter(s, stage), s.db, next);
    case Appending(e) =>
      ProcessStored(s.files, s.processes[p]);
      AppendStepOk(s.files, s.db, e);
      StoreMoveKeeps(s, p, AppendStep(s.db, e).0, AppendStep(s.db, e).1);
    case Importing(a) =>
      ProcessStored(s.files, s.processes[p]);
      ImportStepOk(s.files, s.db, a);
      StoreMoveKeeps(s, p, ImportStep(s.db, a).0, ImportStep(s.db, a).1);
    case Snapshotting(exportedAt) =>
      SnapshotStepOk(s.files, s.db, exportedAt);
      QuietMoveKeeps(s, p, SnapshotStep(s.db, exportedAt));
    case Reading(x, exportedAt, blobs) =>
      ReadStepOk(s.files, x, exportedAt, blobs);
      QuietMoveKeeps(s, p, ReadStep(s.files, x, exportedAt, blobs));
    case Done(_) =>
  }

  lemma ProcessStored(files: Directory, process: Process)
    requires ProcessOk(files, process)
    ensures process.Appending? ==> IsCanonicalObjectId(process.e.objectId) && Stored(files, process.e.objectId, process.e.value)
    ensures process.Importing? ==> NormalArchive(process.archive) && AllStored(files, process.archive.blobs)
  {
  }

  lemma OwnFiles(s: State, p: nat, files: Directory, next: Process)
    requires Invariant(s) && p in s.processes && GoodMove(s.files, s.processes[p], files, next)
    ensures KeepsBlobs(s.files, files)
  {
    hide Valid, Backed, AllWhole, KeepsBlobs, ProcessOk, Separate, TemporaryOf, IsBlobName;
    assert OwnsTemporary(s.files, s.processes[p]);
    OthersKeepBlobs(s.files, files, TemporaryOf(s.processes[p]));
  }

  // A transaction of the candidate store.
  lemma StoreMoveKeeps(s: State, p: nat, db: Database, next: Process)
    requires Invariant(s) && p in s.processes && ProcessOk(s.files, next) && TemporaryOf(next).None?
    requires Valid(db) && Backed(s.files, db)
    ensures Invariant(s.(db := db, processes := s.processes[p := next]))
  {
    hide Valid, Backed, AllWhole, ProcessOk, IsBlobName, TemporaryOf;
    assert GoodMove(s.files, s.processes[p], s.files, next);
    MoveKeeps(s, p, s.files, s.synced, db, next);
  }

  lemma StartKeeps(s: State, p: nat, process: Process)
    requires Invariant(s) && ProcessOk(s.files, process) && TemporaryOf(process).None?
    ensures Invariant(Started(s, p, process)) && Started(s, p, process).files == s.files
  {
    hide Valid, Backed, AllWhole, ProcessOk, TemporaryOf;
  }

  lemma PublishStartOk(files: Directory, candidate: Json, refused: Option<Error>)
    ensures ProcessOk(files, PublishStart(candidate, refused)) && TemporaryOf(PublishStart(candidate, refused)).None?
  {
    hide IsCanonicalObjectId;
  }

  lemma RestoreStartOk(files: Directory, archive: Json, mode: Text)
    ensures ProcessOk(files, RestoreStart(archive, mode)) && TemporaryOf(RestoreStart(archive, mode)).None?
  {
    hide NormalArchive, VerifyRelayArchive, NextPut, ProcessOk, VALIDATE, REPLACE;
    DoneOk(files);
    if VerifyRelayArchive(archive).Ok? {
      var a := VerifyRelayArchive(archive).value;
      VerifiedIsNormal(archive);
      assert a.blobs[..0] == [];
      NextPutOk(files, a, 0);
    }
  }

  lemma DoneOk(files: Directory)
    ensures ProcessOk(files, Done(Checked)) && forall error :: ProcessOk(files, Done(Refused(error)))
  {
  }

  // An I/O error keeps what is known of the process, and its temporary file.
  lemma FailingOk(files: Directory, process: Process)
    requires ProcessOk(files, process)
    ensures ProcessOk(files, Failing(process))
    ensures TemporaryOf(Failing(process)).None? || TemporaryOf(Failing(process)) == TemporaryOf(process)
  {
    hide IsCanonicalObjectId, PurposeOk, Stored, FileOctets, NormalArchive, NormalExport, AllStored, PutEnded;
    if process.Putting? && process.stage.Unlinking? {
      PutEndedOk(files, process.e, process.purpose, process.stage.outcome);
    }
  }

  lemma CrashKeeps(s: State, p: nat)
    requires Invariant(s)
    ensures Invariant(s.(processes := s.processes - {p}))
  {
    hide Valid, Backed, AllWhole, ProcessOk, OwnsTemporary, TemporaryOf;
  }

  lemma StepKeeps(s: State, event: Event)
    requires Invariant(s)
    ensures Invariant(Step(s, event)) && KeepsBlobs(s.files, Step(s, event).files)
  {
    hide Invariant, KeepsBlobs, Moved, Started, PublishStart, RestoreStart, Failing, ProcessOk, TemporaryOf;
    SameFiles(s.files);
    match event
    case StartPublish(p, candidate, refused) =>
      PublishStartOk(s.files, candidate, refused);
      StartKeeps(s, p, PublishStart(candidate, refused));
    case StartRestore(p, archive, mode) =>
      RestoreStartOk(s.files, archive, mode);
      StartKeeps(s, p, RestoreStart(archive, mode));
    case StartExport(p, exportedAt) =>
      SnapshottingOk(s.files, exportedAt);
      StartKeeps(s, p, Snapshotting(exportedAt));
    case Proceed(p, nonce, amount) =>
      if p in s.processes {
        MovedKeeps(s, p, nonce, amount);
      }
    case Fail(p) =>
      if p in s.processes {
        InvariantProcess(s, p);
        FailingOk(s.files, s.processes[p]);
        QuietMoveKeeps(s, p, Failing(s.processes[p]));
      }
    case Crash(p) => CrashKeeps(s, p);
  }

  lemma SnapshottingOk(files: Directory, exportedAt: Json)
    ensures ProcessOk(files, Snapshotting(exportedAt)) && TemporaryOf(Snapshotting(exportedAt)).None?
  {
  }

  lemma InvariantProcess(s: State, p: nat)
    requires Invariant(s) && p in s.processes
    ensures ProcessOk(s.files, s.processes[p]) && AllWhole(s.files) && Valid(s.db) && Backed(s.files, s.db)
  {
  }

  lemma StartInvariant(source: Text, snapshot: Option<Text>)
    ensures Invariant(Start(source, snapshot))
  {
    BoundTwice(source, snapshot);
    assert Contents(EmptyDatabase(source, snapshot)) == map[];
  }

  // In every reachable state every candidate has its blob, every blob is whole, and no blob that
  // was ever visible has changed or gone.
  lemma {:induction false} RunKeeps(s: State, events: seq<Event>, n: nat)
    requires Invariant(s) && n <= |events|
    ensures Invariant(Run(s, events)) && Invariant(At(s, events, n))
    ensures KeepsBlobs(At(s, events, n).files, Run(s, events).files)
    decreases |events|
  {
    hide Invariant, Step, KeepsBlobs;
    if n == |events| {
      assert events[..n] == events;
      if events != [] {
        RunKeeps(s, events[..n - 1], n - 1);
        StepKeeps(Run(s, events[..n - 1]), events[n - 1]);
      }
      SameFiles(Run(s, events).files);
    } else {
      var init := events[..|events| - 1];
      RunKeeps(s, init, n);
      assert init[..n] == events[..n];
      StepKeeps(Run(s, init), events[|events| - 1]);
      KeepsBlobsTransitive(At(s, events, n).files, Run(s, init).files, Run(s, events).files);
    }
  }
}
