// What the protocol guarantees over whole runs.
module RelaySafety {
  import opened Wrappers
  import opened Text
  import opened Json
  import opened ObjectId
  import opened Validation
  import opened ExportTime
  import opened Archive
  import opened Store
  import opened StoreLaws
  import opened CandidateStore
  import opened BlobStore
  import opened RelayRuns

  // ----- Candidates and blobs -----

  // However publishers, restorers, exporters, I/O errors and crashes interleave: every candidate
  // there is has a stored blob with the same representation. Blobs without a candidate may remain.
  lemma CandidatesHaveBlobs(source: Text, snapshot: Option<Text>, events: seq<Event>, id: Text)
    requires id in Contents(Run(Start(source, snapshot), events).db)
    ensures var s := Run(Start(source, snapshot), events);
            Stored(s.files, id, Contents(s.db)[id]) && ReadBlob(s.files, id) == Ok(Some(Contents(s.db)[id]))
  {
    hide Run, Contents, Stored, ReadBlob, Valid;
    StartInvariant(source, snapshot);
    RunKeeps(Start(source, snapshot), events, |events|);
    var s := Run(Start(source, snapshot), events);
    ReadStored(s.files, id, Contents(s.db)[id]);
  }

  // ----- A process that nobody disturbs -----

  lemma {:induction false} RunFrom(s: State, event: Event, rest: seq<Event>)
    ensures Run(s, [event] + rest) == Run(Step(s, event), rest)
    decreases |rest|
  {
    hide Step;
    var events := [event] + rest;
    if rest == [] {
      assert events[..0] == [] && Run(s, []) == s;
    } else {
      RunFrom(s, event, rest[..|rest| - 1]);
      assert events[..|events| - 1] == [event] + rest[..|rest| - 1];
    }
  }

  lemma {:induction false} RunConcat(s: State, a: seq<Event>, b: seq<Event>)
    ensures Run(s, a + b) == Run(Run(s, a), b)
    decreases |a|
  {
    hide Step, Run;
    if a == [] {
      assert a + b == b;
      RunNothing(s);
    } else {
      assert a + b == [a[0]] + (a[1..] + b) && a == [a[0]] + a[1..];
      RunFrom(s, a[0], a[1..] + b);
      RunFrom(s, a[0], a[1..]);
      RunConcat(Step(s, a[0]), a[1..], b);
    }
  }

  lemma RunNothing(s: State)
    ensures Run(s, []) == s
  {
  }

  lemma RunFour(s: State, a: Event, b: Event, c: Event, d: Event)
    ensures Run(s, [a, b, c, d]) == Step(Step(Step(Step(s, a), b), c), d)
  {
    hide Step;
    RunFrom(s, a, [b, c, d]);
    RunFrom(Step(s, a), b, [c, d]);
    RunFrom(Step(Step(s, a), b), c, [d]);
    RunFrom(Step(Step(Step(s, a), b), c), d, []);
    assert [a] + [b, c, d] == [a, b, c, d] && [b] + [c, d] == [b, c, d] && [c] + [d] == [c, d] && [d] + [] == [d];
  }

  // The directory and one process changed, everything else as it was.
  function With(s: State, p: nat, files: Directory, next: Process): State {
    s.(files := files, processes := s.processes[p := next])
  }

  predicate AtStage(s: State, p: nat, e: Entry, stage: Stage, purpose: Purpose) {
    p in s.processes && s.processes[p] == Putting(e, stage, purpose)
  }

  lemma StepAbsent(s: State, p: nat, e: Entry, purpose: Purpose, nonce: Text)
    requires AtStage(s, p, e, Checking, purpose) && FileName(e.objectId) !in s.files
    ensures Step(s, Proceed(p, nonce, 0)) == With(s, p, s.files, Putting(e, Creating, purpose))
  {
    hide FileName, Compared, TempName, FileOctets;
  }

  lemma StepCreate(s: State, p: nat, e: Entry, purpose: Purpose, nonce: Text)
    requires AtStage(s, p, e, Creating, purpose) && TempName(e.objectId, nonce) !in s.files
    ensures var t := TempName(e.objectId, nonce);
            Step(s, Proceed(p, nonce, 0)) == With(s, p, s.files[t := []], Putting(e, Writing(t, 0), purpose))
  {
    hide FileName, Compared, TempName, FileOctets;
  }

  lemma StepWrite(s: State, p: nat, e: Entry, t: Text, purpose: Purpose, nonce: Text)
    requires AtStage(s, p, e, Writing(t, 0), purpose)
    ensures Step(s, Proceed(p, nonce, |FileOctets(e.value)|)) ==
            With(s, p, s.files[t := FileOctets(e.value)], Putting(e, Linking(t), purpose))
  {
    hide FileName, Compared, TempName, FileOctets;
    assert FileOctets(e.value)[..|FileOctets(e.value)|] == FileOctets(e.value);
  }

  lemma StepLink(s: State, p: nat, e: Entry, t: Text, purpose: Purpose, nonce: Text)
    requires AtStage(s, p, e, Linking(t), purpose) && FileName(e.objectId) !in s.files && t in s.files
    ensures Step(s, Proceed(p, nonce, 0)) ==
            With(s, p, s.files[FileName(e.objectId) := s.files[t]], Putting(e, Syncing(t), purpose))
  {
    hide FileName, Compared, TempName, FileOctets;
  }

  // Checking, creating, writing and linking.
  function LinkEvents(p: nat, nonce: Text, size: nat): seq<Event> {
    [Proceed(p, nonce, 0), Proceed(p, nonce, 0), Proceed(p, nonce, size), Proceed(p, nonce, 0)]
  }

  function Linked(files: Directory, e: Entry, t: Text): Directory {
    files[t := FileOctets(e.value)][FileName(e.objectId) := FileOctets(e.value)]
  }

  // Left alone, a put of an absent blob links it.
  lemma UndisturbedLink(s: State, p: nat, e: Entry, purpose: Purpose, nonce: Text)
    requires AtStage(s, p, e, Checking, purpose) && IsCanonicalObjectId(e.objectId)
    requires FileName(e.objectId) !in s.files && TempName(e.objectId, nonce) !in s.files
    ensures var t := TempName(e.objectId, nonce);
            Run(s, LinkEvents(p, nonce, |FileOctets(e.value)|)) ==
            With(s, p, Linked(s.files, e, t), Putting(e, Syncing(t), purpose))
  {
    hide IsCanonicalObjectId, FileName, TempName, FileOctets, Step, IsBlobName, Run;
    FileNames(e.objectId, e.objectId, nonce);
    var t, octets := TempName(e.objectId, nonce), FileOctets(e.value);
    StepAbsent(s, p, e, purpose, nonce);
    var s1 := With(s, p, s.files, Putting(e, Creating, purpose));
    StepCreate(s1, p, e, purpose, nonce);
    var s2 := With(s1, p, s.files[t := []], Putting(e, Writing(t, 0), purpose));
    StepWrite(s2, p, e, t, purpose, nonce);
    var s3 := With(s2, p, s2.files[t := octets], Putting(e, Linking(t), purpose));
    assert s3.files == s.files[t := octets];
    StepLink(s3, p, e, t, purpose, nonce);
    RunFour(s, Proceed(p, nonce, 0), Proceed(p, nonce, 0), Proceed(p, nonce, |octets|), Proceed(p, nonce, 0));
    SameProcesses(s, p, s3, Linked(s.files, e, t), Putting(e, Syncing(t), purpose));
  }

  lemma SameProcesses(s: State, p: nat, after: State, files: Directory, next: Process)
    requires after.synced == s.synced && after.db == s.db && p in after.processes
    requires forall q :: q != p ==> (q in after.processes <==> q in s.processes)
    requires forall q | q in s.processes && q != p :: after.processes[q] == s.processes[q]
    ensures With(after, p, files, next) == With(s, p, files, next)
  {
    assert after.processes[p := next] == s.processes[p := next];
  }

  lemma CanonicalEntry(candidate: Json)
    requires ReadEntry(candidate).Some?
    ensures IsCanonicalObjectId(ReadEntry(candidate).value.objectId)
  {
    hide IsCanonicalObjectId;
  }

  lemma StepPublish(s: State, p: nat, candidate: Json)
    requires ReadEntry(candidate).Some? && p !in s.processes
    ensures Step(s, StartPublish(p, candidate, None)) ==
            With(s, p, s.files, Putting(ReadEntry(candidate).value, Checking, Publishing))
  {
    hide ReadEntry;
  }

  // Candidates have blobs, but not the reverse: a crash between put and append leaves a blob and no
  // candidate.
  lemma OrphanBlob(source: Text, snapshot: Option<Text>, candidate: Json, nonce: Text)
    requires ReadEntry(candidate).Some?
    ensures var e := ReadEntry(candidate).value;
            var events := [StartPublish(0, candidate, None)] + LinkEvents(0, nonce, |FileOctets(e.value)|) + [Crash(0)];
            var s := Run(Start(source, snapshot), events);
            Stored(s.files, e.objectId, e.value) && Contents(s.db) == map[]
  {
    hide ReadEntry, IsCanonicalObjectId, FileOctets, FileName, TempName, Bound, BoundOption, Run, LinkEvents;
    var e, s := ReadEntry(candidate).value, Start(source, snapshot);
    var link := LinkEvents(0, nonce, |FileOctets(e.value)|);
    CanonicalEntry(candidate);
    StepPublish(s, 0, candidate);
    var s1 := With(s, 0, s.files, Putting(e, Checking, Publishing));
    UndisturbedLink(s1, 0, e, Publishing, nonce);
    var t := TempName(e.objectId, nonce);
    var s2 := With(s1, 0, Linked(s1.files, e, t), Putting(e, Syncing(t), Publishing));
    RunConcat(s, [StartPublish(0, candidate, None)] + link, [Crash(0)]);
    RunFrom(s, StartPublish(0, candidate, None), link);
    RunOne(s2, Crash(0));
    assert Contents(s.db) == map[];
  }

  lemma RunOne(s: State, event: Event)
    ensures Run(s, [event]) == Step(s, event)
  {
    hide Step;
    assert [event][..0] == [];
  }

  // ----- One representation for each id, over a whole run -----

  // A state shows an object under an id: as a candidate, as a blob, to a publisher that has
  // succeeded, in an archive that was exported or restored.
  ghost predicate Shows(s: State, e: Entry) {
    || (e.objectId in Contents(s.db) && Contents(s.db)[e.objectId] == e.value)
    || (IsCanonicalObjectId(e.objectId) && ReadBlob(s.files, e.objectId) == Ok(Some(e.value)))
    || exists p :: p in s.processes && ShownBy(s.processes[p], e)
  }

  predicate ShownBy(process: Process, e: Entry) {
    match process
    case Done(Published(published, _)) => published == e
    case Done(ExportedAs(a)) => e in a.blobs
    case Done(ReplacedWith(a)) => e in a.blobs
    case _ => false
  }

  lemma BlobShown(files: Directory, e: Entry)
    requires AllWhole(files) && IsCanonicalObjectId(e.objectId) && ReadBlob(files, e.objectId) == Ok(Some(e.value))
    ensures Stored(files, e.objectId, e.value)
  {
    hide IsCanonicalObjectId, FileName, Stored, AllWhole;
    AbsentIsNone(files, e.objectId);
    WholeIsStored(files, e.objectId);
  }

  lemma ShownByStored(files: Directory, process: Process, e: Entry)
    requires ProcessOk(files, process) && ShownBy(process, e)
    ensures IsCanonicalObjectId(e.objectId) && Stored(files, e.objectId, e.value)
  {
    hide IsCanonicalObjectId, Stored, NormalArchive;
    match process
    case Done(Published(_, _)) =>
    case Done(ExportedAs(a)) => ArchiveIds(a);
    case Done(ReplacedWith(a)) => ArchiveIds(a);
    case _ =>
  }

  lemma ShownIsStored(s: State, e: Entry)
    requires Invariant(s) && Shows(s, e)
    ensures IsCanonicalObjectId(e.objectId) && Stored(s.files, e.objectId, e.value)
  {
    hide Invariant, Contents, Stored, ReadBlob, IsCanonicalObjectId, ShownBy;
    if e.objectId in Contents(s.db) && Contents(s.db)[e.objectId] == e.value {
      CandidateStored(s, e.objectId);
    } else if IsCanonicalObjectId(e.objectId) && ReadBlob(s.files, e.objectId) == Ok(Some(e.value)) {
      InvariantFiles(s);
      BlobShown(s.files, e);
    } else {
      var p :| p in s.processes && ShownBy(s.processes[p], e);
      InvariantProcess(s, p);
      ShownByStored(s.files, s.processes[p], e);
    }
  }

  lemma InvariantFiles(s: State)
    requires Invariant(s)
    ensures AllWhole(s.files) && Valid(s.db) && Backed(s.files, s.db)
  {
  }

  lemma CandidateStored(s: State, id: Text)
    requires Invariant(s) && id in Contents(s.db)
    ensures IsCanonicalObjectId(id) && Stored(s.files, id, Contents(s.db)[id])
  {
    hide IsCanonicalObjectId, Stored, ContentOf, ValidRow;
  }

  // Whatever happens in between - destructive restores included - an id is never shown with two
  // representations.
  lemma OneRepresentationOnly(source: Text, snapshot: Option<Text>, events: seq<Event>, n: nat, m: nat, a: Entry, b: Entry)
    requires n <= m <= |events| && a.objectId == b.objectId
    requires Shows(At(Start(source, snapshot), events, n), a) && Shows(At(Start(source, snapshot), events, m), b)
    ensures a == b
  {
    hide Invariant, Run, Shows, Stored, IsCanonicalObjectId, KeepsBlobs;
    var s := Start(source, snapshot);
    StartInvariant(source, snapshot);
    RunKeeps(s, events, m);
    RunKeeps(s, events[..m], n);
    assert events[..m][..n] == events[..n];
    var earlier, later := At(s, events, n), At(s, events, m);
    ShownIsStored(earlier, a);
    ShownIsStored(later, b);
    StoredKept(earlier.files, later.files, a.objectId, a.value);
    StoredOnce(later.files, a.objectId, a.value, b.value);
  }

  // ----- Concurrent puts of one id -----

  // A process for which a put of e has succeeded: it has linked or compared the blob, or gone on to
  // what the put was for.
  predicate PastPut(process: Process, e: Entry) {
    match process
    case Putting(put, stage, purpose) =>
      (put == e && (stage.Syncing? || (stage.Unlinking? && stage.outcome.None?))) || RestoredBefore(purpose, e)
    case Appending(published) => published == e
    case Importing(a) => e in a.blobs
    case Done(Published(published, _)) => published == e
    case Done(ReplacedWith(a)) => e in a.blobs
    case _ => false
  }

  predicate RestoredBefore(purpose: Purpose, e: Entry) {
    purpose.Restoring? && purpose.index <= |purpose.archive.blobs| && e in purpose.archive.blobs[..purpose.index]
  }

  lemma InAllStored(files: Directory, es: seq<Entry>, e: Entry)
    requires CanonicalIds(es) && AllStored(files, es) && e in es
    ensures IsCanonicalObjectId(e.objectId) && Stored(files, e.objectId, e.value)
  {
    hide IsCanonicalObjectId, Stored;
  }

  lemma PastPutIsStored(files: Directory, process: Process, e: Entry)
    requires ProcessOk(files, process) && PastPut(process, e)
    ensures IsCanonicalObjectId(e.objectId) && Stored(files, e.objectId, e.value)
  {
    hide IsCanonicalObjectId, Stored, NormalArchive, FileOctets, AllStored;
    match process
    case Putting(put, stage, purpose) =>
      if RestoredBefore(purpose, e) {
        ArchiveIds(purpose.archive);
        InAllStored(files, purpose.archive.blobs[..purpose.index], e);
      }
    case Importing(a) =>
      ArchiveIds(a);
      InAllStored(files, a.blobs, e);
    case Done(ReplacedWith(a)) =>
      ArchiveIds(a);
      InAllStored(files, a.blobs, e);
    case _ =>
  }

  // Over any run, for every put that has succeeded, whatever became of its process since, and every
  // object seen as the blob of its id, before or after: they are the same. So once a blob is
  // visible, no put of another object under its id ever succeeds.
  lemma PutsOfOneId(s: State, events: seq<Event>, n: nat, m: nat, p: nat, e: Entry, v: Json)
    requires Invariant(s) && n <= |events| && m <= |events| && Stored(At(s, events, n).files, e.objectId, v)
    requires p in At(s, events, m).processes && PastPut(At(s, events, m).processes[p], e)
    ensures e.value == v
  {
    hide Invariant, Run, Stored, IsCanonicalObjectId, KeepsBlobs, PastPut, ProcessOk;
    RunKeeps(s, events, n);
    RunKeeps(s, events, m);
    var files := Run(s, events).files;
    InvariantProcess(At(s, events, m), p);
    PastPutIsStored(At(s, events, m).files, At(s, events, m).processes[p], e);
    StoredKept(At(s, events, n).files, files, e.objectId, v);
    StoredKept(At(s, events, m).files, files, e.objectId, e.value);
    StoredOnce(files, e.objectId, e.value, v);
  }

  // And such a put is told so: wherever it stands when it next looks at the name, it finds the
  // conflict.
  lemma ConflictingPutFails(s: State, p: nat, nonce: Text, amount: nat, v: Json)
    requires Invariant(s) && p in s.processes && s.processes[p].Putting?
    requires var e := s.processes[p].e; Stored(s.files, e.objectId, v) && e.value != v
    ensures var e, purpose := s.processes[p].e, s.processes[p].purpose;
            var next := Step(s, Proceed(p, nonce, amount));
            match s.processes[p].stage
            case Checking => next == With(s, p, s.files, Done(Refused(StoreIntegrity)))
            case Linking(t) => next == With(s, p, s.files, Putting(e, Comparing(t), purpose))
            case Comparing(t) => next == With(s, p, s.files, Putting(e, Unlinking(t, Some(StoreIntegrity)), purpose))
            case Syncing(_) => false
            case Unlinking(t, outcome) =>
              outcome.Some? && next == With(s, p, s.files - {t}, Done(Refused(outcome.value)))
            case _ => true
  {
    hide Invariant, IsCanonicalObjectId, ProcessOk, PutStep, FileOctets, FileName, TempName, AllWhole, Stored;
    var e, stage, purpose := s.processes[p].e, s.processes[p].stage, s.processes[p].purpose;
    InvariantProcess(s, p);
    PuttingOk(s.files, e, stage, purpose);
    Unequal(s.files, e, v);
    ConflictStep(s.files, e, stage, purpose, nonce, amount, v);
    if !stage.Syncing? {
      PutMoves(s, p, e, stage, purpose, nonce, amount);
    }
  }

  lemma PutMoves(s: State, p: nat, e: Entry, stage: Stage, purpose: Purpose, nonce: Text, amount: nat)
    requires AtStage(s, p, e, stage, purpose) && !stage.Syncing?
    ensures var (files, next) := PutStep(s.files, e, stage, purpose, nonce, amount);
            Step(s, Proceed(p, nonce, amount)) == With(s, p, files, next)
  {
    hide PutStep;
  }

  lemma ConflictStep(files: Directory, e: Entry, stage: Stage, purpose: Purpose, nonce: Text, amount: nat, v: Json)
    requires AllWhole(files) && IsCanonicalObjectId(e.objectId) && StageOk(files, e, stage)
    requires Stored(files, e.objectId, v) && !Stored(files, e.objectId, e.value)
    ensures var step := PutStep(files, e, stage, purpose, nonce, amount);
            match stage
            case Checking => step == (files, Done(Refused(StoreIntegrity)))
            case Linking(t) => step == (files, Putting(e, Comparing(t), purpose))
            case Comparing(t) => step == (files, Putting(e, Unlinking(t, Some(StoreIntegrity)), purpose))
            case Syncing(_) => false
            case Unlinking(t, outcome) => outcome.Some? && step == (files - {t}, Done(Refused(outcome.value)))
            case _ => true
  {
    hide IsCanonicalObjectId, FileOctets, FileName, TempName, Compared, AllWhole;
    ComparedExactly(files, e);
  }

  lemma Unequal(files: Directory, e: Entry, v: Json)
    requires Stored(files, e.objectId, v) && e.value != v
    ensures !Stored(files, e.objectId, e.value)
  {
    if Stored(files, e.objectId, e.value) {
      StoredOnce(files, e.objectId, e.value, v);
    }
  }

  // ----- Publishing -----

  // A publication that has got past its put never fails with a conflict: its append succeeds in
  // every readable store, and adds the candidate and nothing else.
  lemma AppendNeverConflicts(s: State, p: nat, nonce: Text, amount: nat) returns (db: Database, receipt: AppendReceipt)
    requires Invariant(s) && p in s.processes && s.processes[p].Appending?
    ensures var e := s.processes[p].e;
            if Readable(s.db) then
              && Step(s, Proceed(p, nonce, amount)) == s.(db := db, processes := s.processes[p := Done(Published(e, receipt))])
              && Added(s.db, db, e, receipt)
            else Step(s, Proceed(p, nonce, amount)) == s.(processes := s.processes[p := Done(Refused(StoreIntegrity))])
  {
    hide Invariant, Contents, PublishImmutable, IsCanonicalObjectId, Stored, ProcessOk, Valid, Backed, EntriesJson,
         PutStep, ImportStep, SnapshotStep, ReadStep, Readable;
    InvariantProcess(s, p);
    ProcessStored(s.files, s.processes[p]);
    var e := s.processes[p].e;
    AppendAdds(s.files, s.db, e);
    var o := PublishImmutable(s.db, EntriesJson([e]));
    db, receipt := o.db, if o.result.Ok? then o.result.value else AppendReceipt(0, 0);
  }

  // What a publication does to the candidates and says of it: it adds this one, counts it if it was
  // not there, and gives the revision of the store, which moves on with it.
  ghost predicate Added(before: Database, after: Database, e: Entry, receipt: AppendReceipt) {
    && Contents(after) == Contents(before)[e.objectId := e.value]
    && receipt.inserted == (if e.objectId in Contents(before) then 0 else 1)
    && receipt.dataRevision == after.dataRevision == before.dataRevision + receipt.inserted
  }

  // What an append of one entry reports.
  lemma OneInserted(db: Database, after: Database, e: Entry, receipt: AppendReceipt)
    requires Contents(after) == Contents(db)[e.objectId := e.value] && Appended(db, after, [e])
    requires Agrees(Contents(db), e)
    requires receipt.dataRevision == after.dataRevision && |Contents(db)| + receipt.inserted == |Contents(after)|
    ensures Added(db, after, e, receipt)
  {
    hide Valid, Contents, Objects;
    if e.objectId in Contents(db) {
      assert Contents(after) == Contents(db);
    } else {
      assert e.objectId in Contents(after);
    }
  }

  lemma AppendAdds(files: Directory, db: Database, e: Entry)
    requires Valid(db) && Backed(files, db) && IsCanonicalObjectId(e.objectId) && Stored(files, e.objectId, e.value)
    ensures var o := PublishImmutable(db, EntriesJson([e]));
            if Readable(db) then o.result.Ok? && Added(db, o.db, e, o.result.value)
            else o == Outcome(Err(StoreIntegrity), db)
  {
    hide Valid, Backed, IsCanonicalObjectId, Stored, Contents, AppendNormalized, PublishImmutable, NormalEntries,
         Objects, Agrees, Appended, Readable, NormalizedCandidates, EntriesJson;
    OneCandidate(e);
    PublishIsAppend(db, EntriesJson([e]));
    StoredAgrees(files, db, e);
    AppendEffect(db, [e]);
    assert [e][0] == e;
    if AppendNormalized(db, [e]).result.Ok? {
      AppendedContents(db, AppendNormalized(db, [e]).db, e);
      OneInserted(db, AppendNormalized(db, [e]).db, e, AppendNormalized(db, [e]).result.value);
    }
  }

  lemma ImportedContents(before: Database, after: Database, x: StoreExport)
    requires NormalExport(x) && Imported(before, after, x.entries, x.coverage, true, Some(x.source), Some(x.snapshot))
    ensures Contents(after) == Objects(x.entries)
  {
    hide Valid, Contents, Objects, CoverageTable, Bound, BoundOption, NormalEntries, NormalCoverage;
    var none: map<Text, Json> := map[];
    assert none + Objects(x.entries) == Objects(x.entries);
  }

  // A replacing restore makes the archive's entries the candidates, or changes nothing.
  lemma ImportReplaces(db: Database, a: Archive)
    requires Valid(db) && NormalArchive(a)
    ensures NormalizeStoreExport(StoreExportJson(a.snapshot)) == Ok(a.snapshot)
    ensures var o := RestoreSnapshot(db, StoreExportJson(a.snapshot), REPLACE);
            && (o.result.Ok? ==>
                  && o.result == Ok(Replaced(ImportReceipt(db.dataRevision + 1, |a.blobs|)))
                  && o.db.dataRevision == db.dataRevision + 1 && Contents(o.db) == Objects(a.blobs))
            && (o.result.Err? ==> o == Outcome(Err(StoreIntegrity), db))
  {
    hide Valid, Contents, ImportNormalized, Import, NormalEntries, NormalCoverage, Objects, Agrees, Imported, DigestOf,
         IsExportTime, StoreExportJson, NormalizeStoreExport;
    var x := a.snapshot;
    ExportIdempotent(x);
    ReplaceDiffers();
    RestoreIsImport(db, x);
    ImportEffect(db, x.entries, x.coverage, true, Some(x.source), Some(x.snapshot));
    var o := ImportNormalized(db, x.entries, x.coverage, true, Some(x.source), Some(x.snapshot));
    if o.result.Ok? {
      ImportedContents(db, o.db, x);
      ImportReceived(db, x, o);
    }
  }

  // ----- Exporting -----

  function SnapshotOf(process: Process): Option<StoreExport> {
    match process
    case Reading(x, _, _) => Some(x)
    case Done(ExportedAs(a)) => Some(a.snapshot)
    case _ => None
  }

  predicate Holding(s: State, p: nat, x: StoreExport) {
    p in s.processes && SnapshotOf(s.processes[p]) == Some(x)
  }

  predicate Waiting(s: State, p: nat) {
    p in s.processes && s.processes[p].Snapshotting?
  }

  // Event j made this process as an export, and since then it has waited to take its snapshot.
  ghost predicate WaitingSince(s: State, events: seq<Event>, p: nat, j: nat) {
    && j < |events| && events[j].StartExport? && events[j].process == p && p !in At(s, events, j).processes
    && forall k: nat | j < k <= |events| :: Waiting(At(s, events, k), p)
  }

  // Event j made this process as an export; it waited until event i, at which it took the snapshot
  // x of the database as it was then; and x is what it has held since.
  ghost predicate HoldingSince(s: State, events: seq<Event>, p: nat, j: nat, i: nat, x: StoreExport) {
    && i < |events| && WaitingSince(s, events[..i], p, j)
    && ExportSnapshot(At(s, events, i).db) == Ok(x)
    && forall k: nat | i < k <= |events| :: Holding(At(s, events, k), p, x)
  }

  ghost predicate ExportsFollowed(s: State, events: seq<Event>) {
    var final := Run(s, events);
    forall p | p in final.processes ::
      && (final.processes[p].Snapshotting? ==> exists j :: WaitingSince(s, events, p, j))
      && (SnapshotOf(final.processes[p]).Some? ==>
            exists j, i :: HoldingSince(s, events, p, j, i, SnapshotOf(final.processes[p]).value))
  }

  lemma StartsWithout(candidate: Json, refused: Option<Error>, archive: Json, mode: Text)
    ensures SnapshotOf(PublishStart(candidate, refused)).None? && SnapshotOf(RestoreStart(archive, mode)).None?
    ensures !PublishStart(candidate, refused).Snapshotting? && !RestoreStart(archive, mode).Snapshotting?
  {
    hide ReadEntry, VerifyRelayArchive, VALIDATE, REPLACE;
  }

  lemma ErrorsKeep(process: Process)
    ensures SnapshotOf(Failing(process)).Some? ==> SnapshotOf(Failing(process)) == SnapshotOf(process)
    ensures !Failing(process).Snapshotting?
  {
  }

  lemma PutWithout(files: Directory, e: Entry, stage: Stage, purpose: Purpose, nonce: Text, amount: nat)
    ensures SnapshotOf(PutStep(files, e, stage, purpose, nonce, amount).1).None?
    ensures !PutStep(files, e, stage, purpose, nonce, amount).1.Snapshotting?
  {
    hide Compared, FileOctets, FileName, TempName;
  }

  lemma AppendingWithout(db: Database, e: Entry)
    ensures SnapshotOf(AppendStep(db, e).1).None? && !AppendStep(db, e).1.Snapshotting?
  {
    hide PublishImmutable;
  }

  lemma ImportingWithout(db: Database, a: Archive)
    ensures SnapshotOf(ImportStep(db, a).1).None? && !ImportStep(db, a).1.Snapshotting?
  {
    hide RestoreSnapshot;
  }

  lemma SnapshotFrom(db: Database, exportedAt: Json)
    requires Valid(db)
    ensures !SnapshotStep(db, exportedAt).Snapshotting?
    ensures SnapshotOf(SnapshotStep(db, exportedAt)).Some? ==>
              ExportSnapshot(db) == Ok(SnapshotOf(SnapshotStep(db, exportedAt)).value)
  {
    hide Valid, ExportSnapshot, ExportNormalized, Describes;
    ExportExactly(db);
  }

  // A step takes a snapshot only from the database it finds, for an export that waited for it.
  lemma MovedFrom(s: State, p: nat, nonce: Text, amount: nat)
    requires Invariant(s) && p in s.processes
    ensures p in Moved(s, p, nonce, amount).processes && !Moved(s, p, nonce, amount).processes[p].Snapshotting?
    ensures var x := SnapshotOf(Moved(s, p, nonce, amount).processes[p]);
            x.Some? ==> Holding(s, p, x.value) || (Waiting(s, p) && ExportSnapshot(s.db) == Ok(x.value))
  {
    hide Invariant, ExportSnapshot, PutStep, AppendStep, ImportStep, SnapshotStep, ReadStep, Valid, Backed, AllWhole,
         ProcessOk;
    InvariantProcess(s, p);
    match s.processes[p]
    case Putting(e, stage, purpose) => PutWithout(s.files, e, stage, purpose, nonce, amount);
    case Appending(e) => AppendingWithout(s.db, e);
    case Importing(a) => ImportingWithout(s.db, a);
    case Snapshotting(exportedAt) => SnapshotFrom(s.db, exportedAt);
    case Reading(x, exportedAt, blobs) => ReadKeepsSnapshot(s.files, s.processes[p]);
    case Done(_) =>
  }

  // What the process was before, if it now waits for a snapshot or holds one.
  lemma ExportStepFrom(s: State, event: Event, p: nat)
    requires Invariant(s)
    ensures Waiting(Step(s, event), p) ==>
              Waiting(s, p) || (event.StartExport? && event.process == p && p !in s.processes)
    ensures forall x | Holding(Step(s, event), p, x) ::
              Holding(s, p, x) || (Waiting(s, p) && ExportSnapshot(s.db) == Ok(x))
  {
    hide Invariant, ExportSnapshot, PublishStart, RestoreStart, Failing, Moved, SnapshotOf;
    match event
    case StartPublish(_, candidate, refused) => StartsWithout(candidate, refused, JNull, []);
    case StartRestore(_, archive, mode) => StartsWithout(JNull, None, archive, mode);
    case StartExport(_, exportedAt) => SnapshottingHoldsNothing(exportedAt);
    case Proceed(q, nonce, amount) =>
      if q in s.processes {
        if p in Moved(s, q, nonce, amount).processes {
          OnlyMoves(s, q, nonce, amount, p);
        }
        MovedFrom(s, q, nonce, amount);
      }
    case Fail(q) =>
      if q in s.processes {
        ErrorsKeep(s.processes[q]);
      }
    case Crash(_) =>
  }

  lemma SnapshottingHoldsNothing(exportedAt: Json)
    ensures SnapshotOf(Snapshotting(exportedAt)).None?
  {
  }

  lemma OnlyMoves(s: State, q: nat, nonce: Text, amount: nat, p: nat)
    requires q in s.processes && p in Moved(s, q, nonce, amount).processes
    ensures p in s.processes && (p != q ==> Moved(s, q, nonce, amount).processes[p] == s.processes[p])
  {
    hide PutStep, AppendStep, ImportStep, SnapshotStep, ReadStep;
  }

  lemma ReadKeepsSnapshot(files: Directory, process: Process)
    requires process.Reading? && ProcessOk(files, process)
    ensures var next := ReadStep(files, process.snapshot, process.exportedAt, process.blobs);
            !next.Snapshotting? && (SnapshotOf(next).Some? ==> SnapshotOf(next) == SnapshotOf(process))
  {
    hide ReadStep, NormalArchive, IsExportTime, ProcessOk;
    ReadStepExactly(files, process.snapshot, process.exportedAt, process.blobs);
  }

  lemma AtEarlier(s: State, events: seq<Event>, more: Event, k: nat)
    requires k <= |events|
    ensures At(s, events + [more], k) == At(s, events, k)
    ensures At(s, events, |events|) == Run(s, events)
    ensures At(s, events + [more], |events| + 1) == Run(s, events + [more])
  {
    hide Run;
    assert (events + [more])[..k] == events[..k];
    assert events[..|events|] == events && (events + [more])[..|events| + 1] == events + [more];
  }

  lemma WaitingLater(s: State, events: seq<Event>, more: Event, p: nat, j: nat)
    requires WaitingSince(s, events, p, j) && Waiting(Run(s, events + [more]), p)
    ensures WaitingSince(s, events + [more], p, j)
  {
    hide Run, Waiting;
    AtEarlier(s, events, more, j);
    forall k: nat | j < k <= |events| + 1 ensures Waiting(At(s, events + [more], k), p) {
      AtEarlier(s, events, more, if k <= |events| then k else 0);
    }
  }

  lemma WaitingNow(s: State, events: seq<Event>, more: Event, p: nat)
    requires more.StartExport? && more.process == p && p !in Run(s, events).processes
    requires Waiting(Run(s, events + [more]), p)
    ensures WaitingSince(s, events + [more], p, |events|)
  {
    hide Run, Waiting;
    AtEarlier(s, events, more, |events|);
  }

  lemma HoldingLater(s: State, events: seq<Event>, more: Event, p: nat, j: nat, i: nat, x: StoreExport)
    requires HoldingSince(s, events, p, j, i, x) && Holding(Run(s, events + [more]), p, x)
    ensures HoldingSince(s, events + [more], p, j, i, x)
  {
    hide Run, Holding, WaitingSince, ExportSnapshot;
    AtEarlier(s, events, more, i);
    assert (events + [more])[..i] == events[..i];
    forall k: nat | i < k <= |events| + 1 ensures Holding(At(s, events + [more], k), p, x) {
      AtEarlier(s, events, more, if k <= |events| then k else 0);
    }
  }

  lemma HoldingNow(s: State, events: seq<Event>, more: Event, p: nat, j: nat, x: StoreExport)
    requires WaitingSince(s, events, p, j) && ExportSnapshot(Run(s, events).db) == Ok(x)
    requires Holding(Run(s, events + [more]), p, x)
    ensures HoldingSince(s, events + [more], p, j, |events|, x)
  {
    hide Run, Holding, WaitingSince, ExportSnapshot;
    AtEarlier(s, events, more, |events|);
    assert (events + [more])[..|events|] == events;
  }

  lemma FollowStep(s: State, events: seq<Event>, more: Event, p: nat)
    requires Invariant(Run(s, events)) && ExportsFollowed(s, events) && p in Run(s, events + [more]).processes
    ensures var next := Run(s, events + [more]).processes[p];
            && (next.Snapshotting? ==> exists j :: WaitingSince(s, events + [more], p, j))
            && (SnapshotOf(next).Some? ==> exists j, i :: HoldingSince(s, events + [more], p, j, i, SnapshotOf(next).value))
  {
    hide Invariant, Run, Step, WaitingSince, HoldingSince, ExportSnapshot, SnapshotOf;
    var before, after := Run(s, events), Run(s, events + [more]);
    RunConcat(s, events, [more]);
    RunOne(before, more);
    ExportStepFrom(before, more, p);
    if after.processes[p].Snapshotting? {
      if Waiting(before, p) {
        var j :| WaitingSince(s, events, p, j);
        WaitingLater(s, events, more, p, j);
      } else {
        WaitingNow(s, events, more, p);
      }
    }
    if SnapshotOf(after.processes[p]).Some? {
      var x := SnapshotOf(after.processes[p]).value;
      assert Holding(after, p, x);
      if Holding(before, p, x) {
        var j, i :| HoldingSince(s, events, p, j, i, x);
        HoldingLater(s, events, more, p, j, i, x);
      } else {
        var j :| WaitingSince(s, events, p, j);
        HoldingNow(s, events, more, p, j, x);
      }
    }
  }

  lemma {:induction false} RunFollowed(source: Text, snapshot: Option<Text>, events: seq<Event>)
    ensures ExportsFollowed(Start(source, snapshot), events)
  {
    hide Invariant, Step, WaitingSince, HoldingSince, SnapshotOf;
    var s := Start(source, snapshot);
    if events != [] {
      var init, last := events[..|events| - 1], events[|events| - 1];
      RunFollowed(source, snapshot, init);
      StartInvariant(source, snapshot);
      RunKeeps(s, init, |init|);
      assert init + [last] == events;
      forall p | p in Run(s, events).processes
        ensures var next := Run(s, events).processes[p];
                && (next.Snapshotting? ==> exists j :: WaitingSince(s, events, p, j))
                && (SnapshotOf(next).Some? ==> exists j, i :: HoldingSince(s, events, p, j, i, SnapshotOf(next).value))
      {
        FollowStep(s, init, last, p);
      }
    }
  }

  // Every archive a run has exported is, entry for entry and declaration for declaration, what the
  // candidate store held at one instant between the start of this very export (event j) and its
  // end, and it verifies as it stands.
  lemma ExportIsASnapshot(source: Text, snapshot: Option<Text>, events: seq<Event>, p: nat) returns (j: nat, i: nat)
    requires var s := Run(Start(source, snapshot), events);
             p in s.processes && s.processes[p].Done? && s.processes[p].finish.ExportedAs?
    ensures var s := Start(source, snapshot);
            var a := Run(s, events).processes[p].finish.archive;
            && HoldingSince(s, events, p, j, i, a.snapshot)
            && Describes(a.snapshot, At(s, events, i).db)
            && a.blobs == a.snapshot.entries
            && VerifyRelayArchive(ArchiveJson(a)) == Ok(a)
  {
    hide Invariant, Run, ExportSnapshot, Describes, VerifyRelayArchive, ArchiveJson, ProcessOk, WaitingSince, Holding;
    var s := Start(source, snapshot);
    var a := Run(s, events).processes[p].finish.archive;
    RunFollowed(source, snapshot, events);
    assert SnapshotOf(Run(s, events).processes[p]) == Some(a.snapshot);
    j, i :| HoldingSince(s, events, p, j, i, a.snapshot);
    StartInvariant(source, snapshot);
    RunKeeps(s, events, i);
    InvariantFiles(At(s, events, i));
    ExportDescribes(At(s, events, i).db);
    InvariantProcess(Run(s, events), p);
    ExportedNormal(Run(s, events).files, Run(s, events).processes[p]);
    VerifyOwn(a);
  }

  lemma ExportedNormal(files: Directory, process: Process)
    requires ProcessOk(files, process) && process.Done? && process.finish.ExportedAs?
    ensures NormalArchive(process.finish.archive) && process.finish.archive.blobs == process.finish.archive.snapshot.entries
  {
  }

  // A running export cannot fail for lack of a blob, whatever has been published or restored since
  // its snapshot: its next step reads one more blob, or makes the archive of just this snapshot, or
  // rejects the export time.
  lemma ExportNeverMisses(s: State, p: nat, nonce: Text, amount: nat) returns (a: Archive)
    requires Invariant(s) && p in s.processes && s.processes[p].Reading?
    ensures var x, t, n := s.processes[p].snapshot, s.processes[p].exportedAt, |s.processes[p].blobs|;
            var next := Step(s, Proceed(p, nonce, amount));
            if n < |x.entries| then next == s.(processes := s.processes[p := Reading(x, t, x.entries[..n + 1])])
            else if t.JStr? && IsExportTime(t.text) then
              && next == s.(processes := s.processes[p := Done(ExportedAs(a))])
              && NormalArchive(a) && a.snapshot == x && a.blobs == x.entries
            else next == s.(processes := s.processes[p := Done(Refused(RelayProtocol))])
  {
    hide Invariant, ReadStep, ProcessOk, IsExportTime, NormalArchive, PutStep, AppendStep, ImportStep, SnapshotStep;
    InvariantProcess(s, p);
    var x, t, blobs := s.processes[p].snapshot, s.processes[p].exportedAt, s.processes[p].blobs;
    ReadStepExactly(s.files, x, t, blobs);
    var next := ReadStep(s.files, x, t, blobs);
    a := if next.Done? && next.finish.ExportedAs? then next.finish.archive else Archive([], x, [], []);
  }
}
