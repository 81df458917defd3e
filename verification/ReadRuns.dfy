// The SQLite store next to a memory store that is given the same entries: after any sequence of
// imports and appends, failed ones included, both hold the same objects and answer alike.
module ReadRuns {
  import opened Wrappers
  import opened Text
  import opened Json
  import opened ObjectId
  import opened Scopes
  import opened Validation
  import opened Store
  import opened MemoryStore
  import opened StoreLaws
  import opened Refinement
  import opened CoverageRuns

  // A batch of puts, all or nothing.
  function Remembered(records: map<Text, Json>, es: seq<Entry>): map<Text, Json> {
    match PutAll(records, es) case Some(next) => next case None => records
  }

  // What an event does to the memory store. A store whose revision counter can no longer be read
  // takes no writes.
  function MemoryStep(records: map<Text, Json>, event: Event, readable: bool): map<Text, Json> {
    match event
    case AppendEntries(entries) =>
      (match NormalizedEntries(entries)
       case Err(_) => records
       case Ok(es) => if readable then Remembered(records, es) else records)
    case ImportSnapshot(request) =>
      (match NormalizedEntries(request.entries)
       case Err(_) => records
       case Ok(es) =>
         if !readable || NormalizedCoverage(request.coverage).Err? then records
         else if request.replace then Remembered(map[], es)
         else Remembered(records, es))
    case _ => records
  }

  function MemoryRun(s: State, events: seq<Event>): map<Text, Json> {
    if events == [] then
      Contents(s.db)
    else
      var init := events[..|events| - 1];
      MemoryStep(MemoryRun(s, init), events[|events| - 1], Readable(Run(s, init).db))
  }

  lemma RememberedExactly(records: map<Text, Json>, es: seq<Entry>)
    requires NormalEntries(es)
    ensures Remembered(records, es) ==
            if forall i | 0 <= i < |es| :: Agrees(records, es[i]) then records + Objects(es) else records
  {
    hide NormalEntries, PutAll, Agrees, Objects;
    NormalIds(es);
    PutAllExactly(records, es);
  }

  // The entries of a replacing import have distinct ids, so none of them conflicts.
  lemma ReplacementRemembered(es: seq<Entry>)
    requires NormalEntries(es)
    ensures Remembered(map[], es) == map[] + Objects(es)
  {
    hide NormalEntries, PutAll, Objects;
    RememberedExactly(map[], es);
  }

  lemma AppendIsPuts(db: Database, entries: Json)
    requires Valid(db)
    ensures Contents(Append(db, entries).db) == MemoryStep(Contents(db), AppendEntries(entries), Readable(db))
  {
    hide Valid, Contents, NormalizedEntries, AppendNormalized, NormalEntries, Objects, Remembered, Agrees, Readable;
    if NormalizedEntries(entries).Ok? {
      var es := NormalizedEntries(entries).value;
      NormalizedEntriesNormal(entries);
      AppendEffect(db, es);
      RememberedExactly(Contents(db), es);
    }
  }

  lemma ImportIsPuts(db: Database, request: ImportRequest)
    requires Valid(db)
    ensures Contents(Import(db, request).db) == MemoryStep(Contents(db), ImportSnapshot(request), Readable(db))
  {
    hide Valid, Contents, NormalizedEntries, ImportNormalized, NormalEntries, NormalCoverage, Objects, CoverageTable,
         NormalizedCoverage, Remembered, Agrees, Readable;
    if NormalizedEntries(request.entries).Ok? && NormalizedCoverage(request.coverage).Ok? {
      var es := NormalizedEntries(request.entries).value;
      NormalizedEntriesNormal(request.entries);
      CoverageNormal(request.coverage);
      ImportEffect(db, es, NormalizedCoverage(request.coverage).value, request.replace, request.source, request.snapshot);
      RememberedExactly(Contents(db), es);
      ReplacementRemembered(es);
      NothingHeld(es);
    }
  }

  lemma NothingHeld(es: seq<Entry>)
    ensures forall i | 0 <= i < |es| :: Agrees(map[], es[i])
  {
  }

  lemma StepIsPuts(s: State, event: Event)
    requires Invariant(s)
    ensures Contents(Step(s, event).db) == MemoryStep(Contents(s.db), event, Readable(s.db))
  {
    hide Valid, Contents, Append, Import, IsNormal, WriteCoverage, NormalizedEntries, NormalizedCoverage, Remembered,
         Readable;
    match event
    case AppendEntries(entries) => AppendIsPuts(s.db, entries);
    case ImportSnapshot(request) => ImportIsPuts(s.db, request);
    case ReadRevision(_, _, _, _) =>
    case WriteRow(process) =>
      if process in s.pending {
        WriteCoverageKeeps(s.db, s.pending[process]);
      }
    case Crash(_) =>
  }

  lemma {:induction false} SameObjects(s: State, events: seq<Event>)
    requires Invariant(s)
    ensures Contents(Run(s, events).db) == MemoryRun(s, events)
  {
    hide Invariant, Step, Contents, MemoryStep;
    if events != [] {
      var init := events[..|events| - 1];
      SameObjects(s, init);
      RunKeeps(s, init, |init|);
      StepIsPuts(Run(s, init), events[|events| - 1]);
    }
  }

  // After any run: the store holds what the memory store holds, getObject gives the memory store's
  // object whenever its indexed text is well-formed, and each discovery read gives the memory
  // store's objects in the memory store's order exactly when ReadsAgree holds - for releases, always.
  lemma ReadsRefineMemory(source: Text, snapshot: Option<Text>, events: seq<Event>, id: Text, scope: Scope)
    requires IsCanonicalObjectId(id) && IsNormal(scope)
    requires Readable(Run(Start(source, snapshot), events).db)
    ensures var db, records := Run(Start(source, snapshot), events).db, MemoryRun(Start(source, snapshot), events);
            && Contents(db) == records
            && GetObject(db, id) ==
               (if id !in records then Ok(None)
                else if Indexable(records[id]) then Ok(Some(Entry(id, records[id])))
                else Err(StoreIntegrity))
            && (Find(db, scope).Ok? && Find(db, scope).value.objects == Matching(records, scope) <==> ReadsAgree(records, scope))
  {
    hide Run, MemoryRun, Contents, GetObject, Find, Matching, ReadsAgree, Indexable, IsNormal,
         IsCanonicalObjectId, Readable, Invariant;
    var s := Start(source, snapshot);
    StartInvariant(source, snapshot);
    SameObjects(s, events);
    RunKeeps(s, events, |events|);
    var db := Run(s, events).db;
    ValidAfter(Run(s, events));
    GetObjectRefines(db, id);
    FindRefines(db, scope);
  }

  lemma ValidAfter(s: State)
    requires Invariant(s)
    ensures Valid(s.db)
  {
  }
}
