// What the processes of the protocol come to: what a finished one has done, what a publication left
// alone does, and what remains in the directory.
module RelayOutcomes {
  import opened Wrappers
  import opened Text
  import opened Json
  import opened ObjectId
  import opened Validation
  import opened Archive
  import opened Store
  import opened StoreLaws
  import opened CandidateStore
  import opened BlobStore
  import opened RelayRuns
  import opened RelaySafety

  // ----- What a process has done when it finishes -----

  predicate Finishes(s: State, event: Event, p: nat, finish: Finish) {
    p in Step(s, event).processes && Step(s, event).processes[p] == Done(finish) &&
    !(p in s.processes && s.processes[p] == Done(finish))
  }

  // What a finished process reports has been done between two databases: a publication has added its
  // candidate and counted it, a replacing restore has made the archive's blobs the candidates, and
  // with anything else the candidates are as they were.
  ghost predicate Does(before: Database, after: Database, finish: Finish) {
    match finish
    case Published(e, receipt) => Added(before, after, e, receipt) && IsCanonicalObjectId(e.objectId)
    case ReplacedWith(a) =>
      Contents(after) == Objects(a.blobs) && after.dataRevision == before.dataRevision + 1 && NormalArchive(a)
    case Checked => after == before
    case ExportedAs(a) => after == before && NormalArchive(a)
    case Refused(_) => after == before
  }

  // The step in which a process finishes is the one that does what it reports.
  lemma FinishedExactly(s: State, event: Event, p: nat, finish: Finish)
    requires Invariant(s) && Finishes(s, event, p, finish)
    ensures Does(s.db, Step(s, event).db, finish)
    ensures finish.Checked? ==> event.StartRestore? && event.mode == VALIDATE && exists a :: Presents(event.archive, a)
  {
    hide Invariant, NormalArchive, Presents, VerifyRelayArchive, Moved, Failing, Does, Started, PublishStart, RestoreStart;
    match event
    case StartPublish(q, candidate, refused) =>
      StartedFinishes(s, q, PublishStart(candidate, refused), p, finish);
      PublishStarts(s.db, candidate, refused);
    case StartRestore(q, archive, mode) =>
      StartedFinishes(s, q, RestoreStart(archive, mode), p, finish);
      RestoreStarts(s.db, archive, mode);
    case StartExport(q, exportedAt) => StartedFinishes(s, q, Snapshotting(exportedAt), p, finish);
    case Proceed(q, nonce, amount) =>
      ProceedFinishes(s, q, nonce, amount, p, finish);
      MovedDoes(s, p, nonce, amount);
    case Fail(q) =>
      FailFinishes(s, q, p, finish);
      NothingDone(s.db, finish);
    case Crash(q) => CrashFinishesNothing(s, q, p, finish);
  }

  lemma StartedFinishes(s: State, q: nat, process: Process, p: nat, finish: Finish)
    requires p in Started(s, q, process).processes && Started(s, q, process).processes[p] == Done(finish)
    requires !(p in s.processes && s.processes[p] == Done(finish))
    ensures process == Done(finish) && Started(s, q, process).db == s.db
  {
  }

  lemma PublishStarts(db: Database, candidate: Json, refused: Option<Error>)
    ensures PublishStart(candidate, refused).Done? ==> Does(db, db, PublishStart(candidate, refused).finish)
    ensures PublishStart(candidate, refused).Done? ==> !PublishStart(candidate, refused).finish.Checked?
  {
    hide ReadEntry;
  }

  lemma RestoreStarts(db: Database, archive: Json, mode: Text)
    ensures RestoreStart(archive, mode).Done? ==> Does(db, db, RestoreStart(archive, mode).finish)
    ensures RestoreStart(archive, mode) == Done(Checked) ==> mode == VALIDATE && exists a :: Presents(archive, a)
  {
    hide VerifyRelayArchive, Presents, VALIDATE, REPLACE;
    if VerifyRelayArchive(archive).Ok? {
      VerifyExactly(archive, VerifyRelayArchive(archive).value);
    }
  }

  lemma NothingDone(db: Database, finish: Finish)
    requires finish.Refused?
    ensures Does(db, db, finish)
  {
  }

  lemma FailFinishes(s: State, q: nat, p: nat, finish: Finish)
    requires Finishes(s, Fail(q), p, finish)
    ensures finish.Refused? && Step(s, Fail(q)).db == s.db
  {
    if q in s.processes {
      FailedRefused(s.processes[q]);
    }
  }

  lemma CrashFinishesNothing(s: State, q: nat, p: nat, finish: Finish)
    ensures !Finishes(s, Crash(q), p, finish)
  {
    var next := s.processes - {q};
    assert p in next ==> p in s.processes && next[p] == s.processes[p];
  }

  lemma ProceedFinishes(s: State, q: nat, nonce: Text, amount: nat, p: nat, finish: Finish)
    requires Finishes(s, Proceed(q, nonce, amount), p, finish)
    ensures q == p && p in s.processes && !s.processes[p].Done?
    ensures Step(s, Proceed(q, nonce, amount)) == Moved(s, p, nonce, amount)
  {
    hide PutStep, AppendStep, ImportStep, SnapshotStep, ReadStep;
    if q in s.processes {
      OnlyMoves(s, q, nonce, amount, p);
    }
  }

  lemma FailedRefused(process: Process)
    ensures Failing(process).Done? ==> process == Failing(process) || Failing(process).finish.Refused?
  {
  }

  lemma PutFinishes(files: Directory, e: Entry, stage: Stage, purpose: Purpose, nonce: Text, amount: nat)
    ensures PutStep(files, e, stage, purpose, nonce, amount).1.Done? ==>
              PutStep(files, e, stage, purpose, nonce, amount).1.finish.Refused?
  {
    hide FileName, TempName, FileOctets, Compared;
  }

  lemma ImportDoes(db: Database, a: Archive)
    requires Valid(db) && NormalArchive(a)
    ensures ImportStep(db, a).1.Done? && !ImportStep(db, a).1.finish.Checked?
    ensures Does(db, ImportStep(db, a).0, ImportStep(db, a).1.finish)
  {
    hide Valid, Contents, Objects, NormalArchive, StoreExportJson, RestoreSnapshot, NormalizeStoreExport;
    ImportReplaces(db, a);
  }

  lemma AppendDoes(files: Directory, db: Database, e: Entry)
    requires Valid(db) && Backed(files, db) && IsCanonicalObjectId(e.objectId) && Stored(files, e.objectId, e.value)
    ensures AppendStep(db, e).1.Done? && !AppendStep(db, e).1.finish.Checked?
    ensures Does(db, AppendStep(db, e).0, AppendStep(db, e).1.finish)
  {
    hide Valid, Backed, Stored, Contents, PublishImmutable, EntriesJson, Added, IsCanonicalObjectId, Readable;
    AppendAdds(files, db, e);
  }

  lemma QuietDoes(files: Directory, db: Database, next: Process)
    requires ProcessOk(files, next) && next.Done? && (next.finish.ExportedAs? || next.finish.Refused?)
    ensures Does(db, db, next.finish)
  {
    hide NormalArchive;
  }

  // The database a step leaves and the process it makes.
  lemma MovedParts(s: State, p: nat, nonce: Text, amount: nat)
    requires p in s.processes
    ensures var process, next := s.processes[p], Moved(s, p, nonce, amount);
            && p in next.processes
            && (process.Appending? ==> (next.db, next.processes[p]) == AppendStep(s.db, process.e))
            && (process.Importing? ==> (next.db, next.processes[p]) == ImportStep(s.db, process.archive))
            && (process.Putting? || process.Snapshotting? || process.Reading? ==>
                  next.db == s.db &&
                  (next.processes[p].Done? ==> next.processes[p].finish.Refused? || next.processes[p].finish.ExportedAs?))
            && (process.Putting? && next.processes[p].Done? ==> next.processes[p].finish.Refused?)
  {
    hide PutStep, AppendStep, ImportStep, CreateRelayArchive, ExportNormalized, ReadBlob, StoreExportJson, EntriesJson;
    if s.processes[p].Putting? {
      PutFinishes(s.files, s.processes[p].e, s.processes[p].stage, s.processes[p].purpose, nonce, amount);
    }
  }

  lemma MovedDoes(s: State, p: nat, nonce: Text, amount: nat)
    requires Invariant(s) && p in s.processes && !s.processes[p].Done?
    ensures p in Moved(s, p, nonce, amount).processes
    ensures var next := Moved(s, p, nonce, amount);
            next.processes[p].Done? ==> Does(s.db, next.db, next.processes[p].finish) && !next.processes[p].finish.Checked?
  {
    MovedKeeps(s, p, nonce, amount);
    hide Invariant, Does, AppendStep, ImportStep, NormalArchive, Stored, Valid, Backed, AllWhole, IsCanonicalObjectId,
         ProcessOk, Moved;
    MovedParts(s, p, nonce, amount);
    InvariantProcess(s, p);
    var process, next := s.processes[p], Moved(s, p, nonce, amount);
    InvariantProcess(next, p);
    ProcessStored(s.files, process);
    match process
    case Appending(e) => AppendDoes(s.files, s.db, e);
    case Importing(a) => ImportDoes(s.db, a);
    case _ =>
      if next.processes[p].Done? {
        QuietDoes(next.files, s.db, next.processes[p]);
      }
  }

  // ----- What a process begins with -----

  // A publication begins with its put, or is refused for its candidate or by the policy before
  // anything is written.
  lemma PublishBegins(s: State, p: nat, candidate: Json, refused: Option<Error>, e: Entry)
    requires p !in s.processes
    ensures var next := Step(s, StartPublish(p, candidate, refused));
            && next.files == s.files && next.db == s.db && p in next.processes
            && (next.processes[p] == Putting(e, Checking, Publishing) <==> ReadEntry(candidate) == Some(e) && refused.None?)
            && (ReadEntry(candidate).None? ==> next.processes[p] == Done(Refused(RelayProtocol)))
            && (ReadEntry(candidate).Some? && refused.Some? ==> next.processes[p] == Done(Refused(refused.value)))
  {
    hide ReadEntry;
  }

  // A restore of a value that presents an archive is only a check in mode validate; in mode replace
  // it begins with the first blob, or with the import where there is none; and any other mode and
  // any other value are refused.
  lemma RestoreBegins(s: State, p: nat, archive: Json, mode: Text, a: Archive)
    requires p !in s.processes
    ensures var next := Step(s, StartRestore(p, archive, mode));
            && next.files == s.files && next.db == s.db && p in next.processes
            && (Presents(archive, a) ==>
                  next.processes[p] ==
                  if mode == VALIDATE then Done(Checked)
                  else if mode != REPLACE then Done(Refused(RelayProtocol))
                  else if a.blobs == [] then Importing(a)
                  else Putting(a.blobs[0], Checking, Restoring(a, 0)))
            && ((forall b :: !Presents(archive, b)) ==> next.processes[p] == Done(Refused(RelayProtocol)))
  {
    hide VerifyRelayArchive, Presents, VALIDATE, REPLACE;
    VerifyExactly(archive, a);
    VerifyFails(archive);
    if VerifyRelayArchive(archive).Ok? {
      VerifyExactly(archive, VerifyRelayArchive(archive).value);
    }
  }

  // ----- What remains in the directory -----

  // Every file is a blob or the temporary file of a put that is under way.
  ghost predicate Tidy(s: State) {
    forall name | name in s.files && !IsBlobName(name) ::
      exists p :: p in s.processes && TemporaryOf(s.processes[p]) == Some(name)
  }

  // A crash of a put that has a temporary file, or a failed unlink of one.
  predicate Litters(s: State, event: Event) {
    match event
    case Crash(p) => p in s.processes && TemporaryOf(s.processes[p]).Some?
    case Fail(p) => p in s.processes && s.processes[p].Putting? && s.processes[p].stage.Unlinking?
    case _ => false
  }

  lemma EndedWithout(e: Entry, purpose: Purpose, outcome: Option<Error>)
    ensures TemporaryOf(PutEnded(e, purpose, outcome)).None?
  {
  }

  // A step of a put makes no file but its blob and its own temporary one, and leaves that behind
  // only while it goes on.
  lemma PutStepTidy(files: Directory, e: Entry, stage: Stage, purpose: Purpose, nonce: Text, amount: nat)
    requires IsCanonicalObjectId(e.objectId)
    ensures var (files', next) := PutStep(files, e, stage, purpose, nonce, amount);
            forall name | name in files' && !IsBlobName(name) ::
              TemporaryOf(next) == Some(name) ||
              (name in files && TemporaryOf(Putting(e, stage, purpose)) != Some(name))
  {
    hide FileName, TempName, FileOctets, Compared, IsBlobName, IsCanonicalObjectId, PutEnded;
    FileNames(e.objectId, e.objectId, nonce);
    if stage.Unlinking? {
      EndedWithout(e, purpose, stage.outcome);
    }
  }

  // The process p goes on to `next`, and of the files that are no blobs only its own is new.
  lemma TidyStays(s: State, p: nat, after: State)
    requires Tidy(s) && p in s.processes && p in after.processes
    requires forall q | q in s.processes && q != p :: q in after.processes && after.processes[q] == s.processes[q]
    requires forall name | name in after.files && !IsBlobName(name) ::
               TemporaryOf(after.processes[p]) == Some(name) ||
               (name in s.files && TemporaryOf(s.processes[p]) != Some(name))
    ensures Tidy(after)
  {
    hide IsBlobName, TemporaryOf;
    forall name | name in after.files && !IsBlobName(name)
      ensures exists q :: q in after.processes && TemporaryOf(after.processes[q]) == Some(name)
    {
      if TemporaryOf(after.processes[p]) != Some(name) {
        var q :| q in s.processes && TemporaryOf(s.processes[q]) == Some(name);
        assert q in after.processes && TemporaryOf(after.processes[q]) == Some(name);
      }
    }
  }

  lemma MovedTidy(s: State, p: nat, nonce: Text, amount: nat)
    requires Invariant(s) && Tidy(s) && p in s.processes
    ensures Tidy(Moved(s, p, nonce, amount))
  {
    InvariantProcess(s, p);
    hide Invariant, PutStep, AppendStep, ImportStep, SnapshotStep, ReadStep, IsBlobName, StageOk, PurposeOk,
         IsCanonicalObjectId, Tidy, Valid, Backed, AllWhole;
    var process, next := s.processes[p], Moved(s, p, nonce, amount);
    if process.Putting? {
      PutStepTidy(s.files, process.e, process.stage, process.purpose, nonce, amount);
    }
    TidyStays(s, p, next);
  }

  lemma FailingTidy(process: Process)
    requires !(process.Putting? && process.stage.Unlinking?)
    ensures TemporaryOf(Failing(process)) == TemporaryOf(process)
  {
  }

  // Every step keeps the directory tidy, other failures included.
  lemma StepTidy(s: State, event: Event)
    requires Invariant(s) && Tidy(s) && !Litters(s, event)
    ensures Tidy(Step(s, event))
  {
    hide Invariant, Moved, Failing, IsBlobName, TemporaryOf, PublishStart, RestoreStart;
    match event
    case StartPublish(_, _, _) => MoreProcesses(s, Step(s, event));
    case StartRestore(_, _, _) => MoreProcesses(s, Step(s, event));
    case StartExport(_, _) => MoreProcesses(s, Step(s, event));
    case Proceed(p, nonce, amount) =>
      if p in s.processes {
        MovedTidy(s, p, nonce, amount);
      }
    case Fail(p) =>
      if p in s.processes {
        FailingTidy(s.processes[p]);
        SameTemporaries(s, Step(s, event));
      }
    case Crash(p) => SameTemporaries(s, Step(s, event));
  }

  lemma MoreProcesses(s: State, after: State)
    requires Tidy(s) && after.files == s.files
    requires forall q | q in s.processes :: q in after.processes && after.processes[q] == s.processes[q]
    ensures Tidy(after)
  {
    hide IsBlobName, TemporaryOf;
    SameTemporaries(s, after);
  }

  lemma SameTemporaries(s: State, after: State)
    requires Tidy(s) && after.files == s.files
    requires forall q | q in s.processes && TemporaryOf(s.processes[q]).Some? ::
               q in after.processes && TemporaryOf(after.processes[q]) == TemporaryOf(s.processes[q])
    ensures Tidy(after)
  {
    hide IsBlobName, TemporaryOf;
    forall name | name in after.files && !IsBlobName(name)
      ensures exists q :: q in after.processes && TemporaryOf(after.processes[q]) == Some(name)
    {
      var q :| q in s.processes && TemporaryOf(s.processes[q]) == Some(name);
      assert q in after.processes && TemporaryOf(after.processes[q]) == Some(name);
    }
  }

  // In a run without such crashes and failed unlinks, what is in the directory besides blobs are the
  // temporary files of puts under way; when none is, there are only blobs.
  lemma {:induction false} OnlyBlobsRemain(source: Text, snapshot: Option<Text>, events: seq<Event>)
    requires forall i | 0 <= i < |events| :: !Litters(Run(Start(source, snapshot), events[..i]), events[i])
    ensures var s := Run(Start(source, snapshot), events);
            && Tidy(s)
            && ((forall p | p in s.processes :: !s.processes[p].Putting?) ==> OnlyBlobs(s.files))
  {
    hide Litters, Invariant, Step, IsBlobName;
    if events != [] {
      var init, last := events[..|events| - 1], events[|events| - 1];
      forall i | 0 <= i < |init| ensures !Litters(Run(Start(source, snapshot), init[..i]), init[i]) {
        assert init[..i] == events[..i] && init[i] == events[i];
      }
      OnlyBlobsRemain(source, snapshot, init);
      StartInvariant(source, snapshot);
      RunKeeps(Start(source, snapshot), init, |init|);
      StepTidy(Run(Start(source, snapshot), init), last);
    }
  }

  // ----- A publication left alone -----

  // The whole of a publication of an object that has no blob yet: the put, the sync, the unlink and
  // the append.
  function PublishEvents(p: nat, candidate: Json, nonce: Text, size: nat): seq<Event> {
    [StartPublish(p, candidate, None)] + LinkEvents(p, nonce, size) +
    [Proceed(p, nonce, 0), Proceed(p, nonce, 0), Proceed(p, nonce, 0)]
  }

  lemma StepSync(s: State, p: nat, e: Entry, t: Text, nonce: Text)
    requires AtStage(s, p, e, Syncing(t), Publishing)
    ensures Step(s, Proceed(p, nonce, 0)) ==
            With(s, p, s.files, Putting(e, Unlinking(t, None), Publishing)).(synced := s.files.Keys)
  {
    hide FileName, Compared, TempName, FileOctets;
  }

  lemma StepUnlink(s: State, p: nat, e: Entry, t: Text, nonce: Text)
    requires AtStage(s, p, e, Unlinking(t, None), Publishing)
    ensures Step(s, Proceed(p, nonce, 0)) == With(s, p, s.files - {t}, Appending(e))
  {
    hide FileName, Compared, TempName, FileOctets;
  }

  lemma RunThree(s: State, a: Event, b: Event, c: Event)
    ensures Run(s, [a, b, c]) == Step(Step(Step(s, a), b), c)
  {
    hide Step;
    RunFrom(s, a, [b, c]);
    RunFrom(Step(s, a), b, [c]);
    RunOne(Step(Step(s, a), b), c);
    assert [a] + [b, c] == [a, b, c] && [b] + [c] == [b, c];
  }

  lemma TemporaryGone(files: Directory, e: Entry, t: Text)
    requires t !in files && t != FileName(e.objectId)
    ensures Linked(files, e, t) - {t} == files[FileName(e.objectId) := FileOctets(e.value)]
  {
    hide FileName, FileOctets;
  }

  // Left alone in a readable store, it succeeds: the directory has gained the blob and nothing else,
  // its link is on disk, and the store has gained the candidate and nothing else.
  lemma UndisturbedPublication(s: State, p: nat, candidate: Json, nonce: Text) returns (db: Database, receipt: AppendReceipt)
    requires Invariant(s) && Readable(s.db) && p !in s.processes && ReadEntry(candidate).Some?
    requires var e := ReadEntry(candidate).value; FileName(e.objectId) !in s.files && TempName(e.objectId, nonce) !in s.files
    ensures var e := ReadEntry(candidate).value;
            var done := Run(s, PublishEvents(p, candidate, nonce, |FileOctets(e.value)|));
            && done.files == s.files[FileName(e.objectId) := FileOctets(e.value)] && FileName(e.objectId) in done.synced
            && done.db == db && Added(s.db, db, e, receipt)
            && done.processes == s.processes[p := Done(Published(e, receipt))]
  {
    hide ReadEntry, IsCanonicalObjectId, FileOctets, FileName, TempName, IsBlobName, Run, Step, LinkEvents, Invariant,
         Readable, Added;
    var e := ReadEntry(candidate).value;
    var t, link := TempName(e.objectId, nonce), LinkEvents(p, nonce, |FileOctets(e.value)|);
    CanonicalEntry(candidate);
    FileNames(e.objectId, e.objectId, nonce);
    var next := Proceed(p, nonce, 0);
    StepPublish(s, p, candidate);
    var s1 := With(s, p, s.files, Putting(e, Checking, Publishing));
    UndisturbedLink(s1, p, e, Publishing, nonce);
    var s2 := With(s1, p, Linked(s.files, e, t), Putting(e, Syncing(t), Publishing));
    RunFrom(s, StartPublish(p, candidate, None), link);
    RunConcat(s, [StartPublish(p, candidate, None)] + link, [next, next, next]);
    RunKeeps(s, [StartPublish(p, candidate, None)] + link, 0);
    StepSync(s2, p, e, t, nonce);
    StepKeeps(s2, next);
    var s3 := Step(s2, next);
    StepUnlink(s3, p, e, t, nonce);
    StepKeeps(s3, next);
    var s4 := Step(s3, next);
    RunThree(s2, next, next, next);
    TemporaryGone(s.files, e, t);
    db, receipt := AppendNeverConflicts(s4, p, nonce, 0);
    assert s4.processes[p := Done(Published(e, receipt))] == s.processes[p := Done(Published(e, receipt))];
  }
}
