// Coverage as a cache-validity protocol: appends and imports interleaved with setCoverage, whose
// two statements - read the revision, write the row - other writers may come between.
module CoverageRuns {
  import opened Wrappers
  import opened Text
  import opened Json
  import opened Scopes
  import opened Validation
  import opened Store
  import opened StoreLaws

  datatype Declaration = Declaration(coverage: Coverage, revision: nat)

  // The database, and the setCoverage calls that have read the revision but not yet written.
  datatype State = State(db: Database, pending: map<nat, Declaration>)

  datatype Event =
    | AppendEntries(entries: Json)
    | ImportSnapshot(request: ImportRequest)
    | ReadRevision(process: nat, kind: Discovery, scope: Json, complete: bool)
    | WriteRow(process: nat)
    | Crash(process: nat)

  // The coverage a setCoverage call declares, if its scope is well-formed.
  function Declared(e: Event): Option<Coverage>
    requires e.ReadRevision?
  {
    match ReadScope(e.kind, e.scope)
    case Some(scope) => Some(Coverage(scope, e.complete))
    case None => None
  }

  function Step(s: State, e: Event): State {
    match e
    case AppendEntries(entries) => s.(db := Append(s.db, entries).db)
    case ImportSnapshot(request) => s.(db := Import(s.db, request).db)
    case ReadRevision(process, _, _, _) =>
      var c := Declared(e);
      if c.Some? && Readable(s.db) then s.(pending := s.pending[process := Declaration(c.value, s.db.dataRevision)]) else s
    case WriteRow(process) =>
      if process in s.pending then
        State(WriteCoverage(s.db, s.pending[process].coverage, s.pending[process].revision), s.pending - {process})
      else
        s
    case Crash(process) => s.(pending := s.pending - {process})
  }

  function Start(source: Text, snapshot: Option<Text>): State {
    State(EmptyDatabase(source, snapshot), map[])
  }

  function Run(s: State, events: seq<Event>): State {
    if events == [] then s else Step(Run(s, events[..|events| - 1]), events[|events| - 1])
  }

  // The state after the first n events.
  function At(s: State, events: seq<Event>, n: nat): State
    requires n <= |events|
  {
    Run(s, events[..n])
  }

  // ----- What each step keeps -----

  predicate PendingValid(s: State) {
    forall process | process in s.pending ::
      IsNormal(s.pending[process].coverage.scope) && s.pending[process].revision <= s.db.dataRevision
  }

  predicate Invariant(s: State) {
    Valid(s.db) && PendingValid(s)
  }

  // How a step may change the database: at one revision the objects stay what they are, and the
  // revision never goes back.
  predicate Advances(before: Database, after: Database) {
    && before.dataRevision <= after.dataRevision
    && (before.dataRevision == after.dataRevision ==> Contents(before) == Contents(after))
  }

  lemma AppendAdvances(db: Database, entries: Json)
    requires Valid(db)
    ensures var after := Append(db, entries).db;
            Valid(after) && Advances(db, after) &&
            (after == db || (after.coverage == map[] && after.dataRevision > db.dataRevision))
  {
    hide Valid, Contents, NormalizedEntries, AppendNormalized, NormalEntries, Objects;
    if NormalizedEntries(entries).Ok? {
      NormalizedEntriesNormal(entries);
      AppendEffect(db, NormalizedEntries(entries).value);
    }
  }

  lemma ImportAdvances(db: Database, request: ImportRequest)
    requires Valid(db)
    ensures var after := Import(db, request).db;
            && Valid(after) && Advances(db, after)
            && (after == db ||
                (after.dataRevision > db.dataRevision && NormalizedCoverage(request.coverage).Ok? &&
                 NormalCoverage(NormalizedCoverage(request.coverage).value) &&
                 after.coverage == CoverageTable(NormalizedCoverage(request.coverage).value, after.dataRevision)))
  {
    hide Valid, Contents, NormalizedEntries, ImportNormalized, NormalEntries, NormalCoverage, Objects, CoverageTable,
         NormalizedCoverage;
    if NormalizedEntries(request.entries).Ok? && NormalizedCoverage(request.coverage).Ok? {
      NormalizedEntriesNormal(request.entries);
      CoverageNormal(request.coverage);
      ImportEffect(
        db, NormalizedEntries(request.entries).value, NormalizedCoverage(request.coverage).value,
        request.replace, request.source, request.snapshot);
    }
  }

  lemma StepKeeps(s: State, e: Event)
    requires Invariant(s)
    ensures Invariant(Step(s, e))
    ensures Advances(s.db, Step(s, e).db)
  {
    hide Valid, Contents, Append, Import, IsNormal, WriteCoverage, CoverageRowOf;
    match e
    case AppendEntries(entries) => AppendAdvances(s.db, entries);
    case ImportSnapshot(request) => ImportAdvances(s.db, request);
    case ReadRevision(_, kind, scope, _) =>
      if Declared(e).Some? {
        ReadScopeNormal(kind, scope);
      }
    case WriteRow(process) =>
      if process in s.pending {
        WriteCoverageKeeps(s.db, s.pending[process]);
      }
    case Crash(_) =>
  }

  lemma WriteCoverageKeeps(db: Database, d: Declaration)
    requires Valid(db) && IsNormal(d.coverage.scope) && d.revision <= db.dataRevision
    ensures Valid(WriteCoverage(db, d.coverage, d.revision))
    ensures Contents(WriteCoverage(db, d.coverage, d.revision)) == Contents(db)
    ensures WriteCoverage(db, d.coverage, d.revision).dataRevision == db.dataRevision
  {
    WriteCoverageValid(db, d.coverage, d.revision);
  }

  lemma StartInvariant(source: Text, snapshot: Option<Text>)
    ensures Invariant(Start(source, snapshot))
  {
    BoundTwice(source, snapshot);
  }

  // In every reachable state the tables are valid - so no coverage row carries a revision above
  // the data revision - and while the revision stays, so do the objects.
  lemma {:induction false} RunKeeps(s: State, events: seq<Event>, n: nat)
    requires Invariant(s) && n <= |events|
    ensures Invariant(Run(s, events)) && Invariant(At(s, events, n))
    ensures Advances(At(s, events, n).db, Run(s, events).db)
    decreases |events|
  {
    hide Invariant, Step, Contents;
    if n == |events| {
      assert events[..n] == events;
      if events != [] {
        RunKeeps(s, events[..n - 1], n - 1);
        StepKeeps(Run(s, events[..n - 1]), events[n - 1]);
      }
    } else {
      var init := events[..|events| - 1];
      RunKeeps(s, init, n);
      assert init[..n] == events[..n];
      StepKeeps(Run(s, init), events[|events| - 1]);
    }
  }

  // ----- Where a coverage row comes from -----

  // Event i declares `scope` complete at `revision`: a setCoverage call that reads this revision,
  // or an import that makes it.
  ghost predicate DeclaredAt(s: State, events: seq<Event>, i: nat, scope: Scope, revision: nat) {
    i < |events| &&
    match events[i]
    case ReadRevision(_, _, _, _) =>
      Declared(events[i]) == Some(Coverage(scope, true)) && At(s, events, i).db.dataRevision == revision
    case ImportSnapshot(request) =>
      && At(s, events, i + 1).db.dataRevision == revision > At(s, events, i).db.dataRevision
      && NormalizedCoverage(request.coverage).Ok? && Coverage(scope, true) in NormalizedCoverage(request.coverage).value
    case _ => false
  }

  ghost predicate Justified(s: State, events: seq<Event>, scope: Scope, revision: nat) {
    exists i :: DeclaredAt(s, events, i, scope, revision)
  }

  ghost predicate AllJustified(s: State, events: seq<Event>) {
    var final := Run(s, events);
    && (forall scope: Scope {:trigger CoverageKey(scope)} |
          CoverageKey(scope) in final.db.coverage && final.db.coverage[CoverageKey(scope)].complete ::
          Justified(s, events, scope, final.db.coverage[CoverageKey(scope)].revision))
    && (forall process | process in final.pending && final.pending[process].coverage.complete ::
          Justified(s, events, final.pending[process].coverage.scope, final.pending[process].revision))
  }

  lemma DeclaredLater(s: State, events: seq<Event>, more: Event, i: nat, scope: Scope, revision: nat)
    requires DeclaredAt(s, events, i, scope, revision)
    ensures DeclaredAt(s, events + [more], i, scope, revision)
  {
    hide Run, Declared;
    assert (events + [more])[..i] == events[..i];
    assert (events + [more])[..i + 1] == events[..i + 1];
  }

  lemma JustifiedLater(s: State, events: seq<Event>, more: Event, scope: Scope, revision: nat)
    requires Justified(s, events, scope, revision)
    ensures Justified(s, events + [more], scope, revision)
  {
    hide DeclaredAt;
    var i :| DeclaredAt(s, events, i, scope, revision);
    DeclaredLater(s, events, more, i, scope, revision);
  }

  // An import justifies the rows of its own table.
  lemma ImportJustifies(s: State, events: seq<Event>, request: ImportRequest, scope: Scope)
    requires Invariant(Run(s, events))
    requires Import(Run(s, events).db, request).db != Run(s, events).db
    requires var db := Import(Run(s, events).db, request).db;
             CoverageKey(scope) in db.coverage && db.coverage[CoverageKey(scope)].complete
    ensures var db := Import(Run(s, events).db, request).db;
            Justified(s, events + [ImportSnapshot(request)], scope, db.coverage[CoverageKey(scope)].revision)
  {
    hide Valid, Contents, Import, NormalizedCoverage, IsNormal, NormalCoverage, CoverageTable, CoverageKey;
    var before := Run(s, events).db;
    var db := Import(before, request).db;
    ImportAdvances(before, request);
    var cs := NormalizedCoverage(request.coverage).value;
    var k := CoverageTableKey(cs, db.dataRevision, CoverageKey(scope));
    CoverageKeyInjective(scope, cs[k].scope);
    assert cs[k] == Coverage(scope, true);
    var all := events + [ImportSnapshot(request)];
    assert all[..|events|] == events && all[..|events| + 1] == all;
    assert DeclaredAt(s, all, |events|, scope, db.dataRevision);
  }

  lemma RevisionJustifies(s: State, events: seq<Event>, e: Event)
    requires e.ReadRevision? && Declared(e).Some? && e.complete
    ensures Justified(s, events + [e], Declared(e).value.scope, Run(s, events).db.dataRevision)
  {
    var all := events + [e];
    assert all[..|events|] == events;
    assert DeclaredAt(s, all, |events|, Declared(e).value.scope, Run(s, events).db.dataRevision);
  }

  lemma RunAppend(s: State, events: seq<Event>, e: Event)
    ensures Run(s, events + [e]) == Step(Run(s, events), e)
  {
    assert (events + [e])[..|events|] == events;
  }

  lemma StepJustified(s: State, events: seq<Event>, e: Event)
    requires Invariant(Run(s, events)) && AllJustified(s, events)
    ensures AllJustified(s, events + [e])
  {
    hide Valid, Contents, Append, Import, Run, Justified, IsNormal, CoverageKey, Declared, NormalizedCoverage,
         CoverageRowOf;
    var before, after := Run(s, events), Run(s, events + [e]);
    RunAppend(s, events, e);
    forall process | process in after.pending && after.pending[process].coverage.complete
      ensures Justified(s, events + [e], after.pending[process].coverage.scope, after.pending[process].revision)
    {
      if process in before.pending && after.pending[process] == before.pending[process] {
        JustifiedLater(s, events, e, before.pending[process].coverage.scope, before.pending[process].revision);
      } else {
        DeclaredCompletes(e);
        RevisionJustifies(s, events, e);
      }
    }
    forall scope: Scope | CoverageKey(scope) in after.db.coverage && after.db.coverage[CoverageKey(scope)].complete
      ensures Justified(s, events + [e], scope, after.db.coverage[CoverageKey(scope)].revision)
    {
      RowJustified(s, events, e, scope);
    }
  }

  lemma DeclaredCompletes(e: Event)
    requires e.ReadRevision?
    ensures Declared(e).Some? ==> Declared(e).value.complete == e.complete
  {
  }

  lemma RowJustified(s: State, events: seq<Event>, e: Event, scope: Scope)
    requires Invariant(Run(s, events)) && AllJustified(s, events)
    requires var after := Step(Run(s, events), e).db;
             CoverageKey(scope) in after.coverage && after.coverage[CoverageKey(scope)].complete
    ensures Justified(s, events + [e], scope, Step(Run(s, events), e).db.coverage[CoverageKey(scope)].revision)
  {
    hide Valid, Contents, Append, Import, Run, Justified, IsNormal, CoverageKey, Declared, NormalizedCoverage;
    var before := Run(s, events);
    match e
    case AppendEntries(entries) =>
      AppendAdvances(before.db, entries);
      JustifiedLater(s, events, e, scope, before.db.coverage[CoverageKey(scope)].revision);
    case ImportSnapshot(request) =>
      if Import(before.db, request).db == before.db {
        JustifiedLater(s, events, e, scope, before.db.coverage[CoverageKey(scope)].revision);
      } else {
        ImportJustifies(s, events, request, scope);
      }
    case WriteRow(process) =>
      if process in before.pending {
        var d := before.pending[process];
        CoverageKeyInjective(scope, d.coverage.scope);
        if scope == d.coverage.scope {
          JustifiedLater(s, events, e, scope, d.revision);
        } else {
          JustifiedLater(s, events, e, scope, before.db.coverage[CoverageKey(scope)].revision);
        }
      } else {
        JustifiedLater(s, events, e, scope, before.db.coverage[CoverageKey(scope)].revision);
      }
    case ReadRevision(_, _, _, _) => JustifiedLater(s, events, e, scope, before.db.coverage[CoverageKey(scope)].revision);
    case Crash(_) => JustifiedLater(s, events, e, scope, before.db.coverage[CoverageKey(scope)].revision);
  }

  lemma {:induction false} RunJustified(source: Text, snapshot: Option<Text>, events: seq<Event>)
    ensures AllJustified(Start(source, snapshot), events)
  {
    hide Invariant, Step;
    var s := Start(source, snapshot);
    if events != [] {
      var init, last := events[..|events| - 1], events[|events| - 1];
      RunJustified(source, snapshot, init);
      StartInvariant(source, snapshot);
      RunKeeps(s, init, |init|);
      StepJustified(s, init, last);
      assert init + [last] == events;
    }
  }

  // ----- Soundness -----

  // From event i on, the revision is the final one and the objects are the final objects.
  ghost predicate UnchangedSince(s: State, events: seq<Event>, i: nat) {
    forall j: nat | i <= j <= |events| ::
      && At(s, events, j).db.dataRevision == Run(s, events).db.dataRevision
      && Contents(At(s, events, j).db) == Contents(Run(s, events).db)
  }

  lemma DeclaredFrom(s: State, events: seq<Event>, i: nat, scope: Scope, revision: nat)
    requires DeclaredAt(s, events, i, scope, revision)
    ensures i < |events|
    ensures At(s, events, if events[i].ImportSnapshot? then i + 1 else i).db.dataRevision == revision
  {
    hide Run, Declared, NormalizedCoverage;
  }

  // Whatever the interleaving: when a read reports a scope complete, exactly this scope was
  // declared complete at the revision that is current now, and since then - for a setCoverage
  // call, since it read the revision; for an import, since it committed - the objects have not
  // changed.
  lemma CoverageSound(source: Text, snapshot: Option<Text>, events: seq<Event>, scope: Scope) returns (i: nat)
    requires ReadComplete(Run(Start(source, snapshot), events).db, scope) == Ok(true)
    ensures var s := Start(source, snapshot);
            && DeclaredAt(s, events, i, scope, Run(s, events).db.dataRevision)
            && UnchangedSince(s, events, if events[i].ImportSnapshot? then i + 1 else i)
  {
    hide Step, Contents, Invariant, Run, DeclaredAt, CoverageKey;
    var s := Start(source, snapshot);
    var final := Run(s, events).db;
    RunJustified(source, snapshot, events);
    assert Justified(s, events, scope, final.dataRevision);
    i :| DeclaredAt(s, events, i, scope, final.dataRevision);
    DeclaredFrom(s, events, i, scope, final.dataRevision);
    var from := if events[i].ImportSnapshot? then i + 1 else i;
    StartInvariant(source, snapshot);
    forall j: nat | from <= j <= |events|
      ensures At(s, events, j).db.dataRevision == final.dataRevision && Contents(At(s, events, j).db) == Contents(final)
    {
      RunKeeps(s, events, j);
      RunKeeps(s, events[..j], from);
      assert events[..j][..from] == events[..from];
    }
  }

  // ----- Exactly when a scope is complete -----

  datatype Written = Written(complete: bool, revision: nat)

  function RowWritten(db: Database, scope: Scope): Option<Written> {
    var key := CoverageKey(scope);
    if key in db.coverage then Some(Written(db.coverage[key].complete, db.coverage[key].revision)) else None
  }

  // What an import declares of a scope, if anything.
  function ImportWrites(request: ImportRequest, scope: Scope, revision: nat): Option<Written> {
    match NormalizedCoverage(request.coverage)
    case Err(_) => None
    case Ok(cs) =>
      if Coverage(scope, true) in cs then Some(Written(true, revision))
      else if Coverage(scope, false) in cs then Some(Written(false, revision))
      else None
  }

  // The last write of the scope's row since the table was last replaced or emptied, read off the
  // events: an append that added something empties the table, an import replaces it, and the second
  // statement of a setCoverage call writes one row with the revision its first one read.
  function LastWrite(s: State, events: seq<Event>, scope: Scope): Option<Written> {
    if events == [] then
      None
    else
      var init := events[..|events| - 1];
      var before, after := Run(s, init), Run(s, events);
      match events[|events| - 1]
      case AppendEntries(_) =>
        if after.db.dataRevision == before.db.dataRevision then LastWrite(s, init, scope) else None
      case ImportSnapshot(request) =>
        if after.db.dataRevision == before.db.dataRevision then LastWrite(s, init, scope)
        else ImportWrites(request, scope, after.db.dataRevision)
      case WriteRow(process) =>
        if process in before.pending && before.pending[process].coverage.scope == scope then
          Some(Written(before.pending[process].coverage.complete, before.pending[process].revision))
        else
          LastWrite(s, init, scope)
      case _ => LastWrite(s, init, scope)
  }

  lemma ImportedRow(db: Database, request: ImportRequest, scope: Scope)
    requires Valid(db) && Import(db, request).db.dataRevision != db.dataRevision
    ensures RowWritten(Import(db, request).db, scope) == ImportWrites(request, scope, Import(db, request).db.dataRevision)
  {
    hide Valid, Contents, Import, NormalizedCoverage, IsNormal, NormalCoverage, CoverageTable, CoverageKey;
    var after := Import(db, request).db;
    ImportAdvances(db, request);
    var cs := NormalizedCoverage(request.coverage).value;
    if CoverageKey(scope) in after.coverage {
      var k := CoverageTableKey(cs, after.dataRevision, CoverageKey(scope));
      CoverageKeyInjective(scope, cs[k].scope);
      assert cs[k] in cs;
      forall i | 0 <= i < |cs| && cs[i].scope == scope ensures cs[i].complete == cs[k].complete {
        CoverageTableAt(cs, after.dataRevision, i);
      }
    } else {
      forall i | 0 <= i < |cs| ensures cs[i].scope != scope {
        CoverageTableAt(cs, after.dataRevision, i);
      }
    }
  }

  lemma WrittenRow(db: Database, d: Declaration, scope: Scope)
    ensures RowWritten(WriteCoverage(db, d.coverage, d.revision), scope) ==
            if d.coverage.scope == scope then Some(Written(d.coverage.complete, d.revision)) else RowWritten(db, scope)
  {
    hide CoverageKey;
    CoverageKeyInjective(scope, d.coverage.scope);
  }

  lemma {:induction false} RowIsLastWrite(source: Text, snapshot: Option<Text>, events: seq<Event>, scope: Scope)
    ensures RowWritten(Run(Start(source, snapshot), events).db, scope) == LastWrite(Start(source, snapshot), events, scope)
  {
    hide Valid, Contents, Append, Import, IsNormal, CoverageKey, RowWritten, WriteCoverage, ImportWrites, Bound, BoundOption;
    var s := Start(source, snapshot);
    if events == [] {
      NoRows(source, snapshot, scope);
    } else {
      var init := events[..|events| - 1];
      RowIsLastWrite(source, snapshot, init, scope);
      StartInvariant(source, snapshot);
      RunKeeps(s, init, |init|);
      LastStep(s, events, scope);
    }
  }

  lemma NoRows(source: Text, snapshot: Option<Text>, scope: Scope)
    ensures RowWritten(Start(source, snapshot).db, scope) == None
  {
  }

  lemma LastStep(s: State, events: seq<Event>, scope: Scope)
    requires events != [] && Invariant(Run(s, events[..|events| - 1]))
    requires RowWritten(Run(s, events[..|events| - 1]).db, scope) == LastWrite(s, events[..|events| - 1], scope)
    ensures RowWritten(Run(s, events).db, scope) == LastWrite(s, events, scope)
  {
    hide Valid, Contents, Append, Import, IsNormal, CoverageKey, RowWritten, WriteCoverage, ImportWrites, Declared;
    var before, event := Run(s, events[..|events| - 1]), events[|events| - 1];
    match event
    case AppendEntries(entries) =>
      AppendAdvances(before.db, entries);
      EmptiedRow(Append(before.db, entries).db, scope);
    case ImportSnapshot(request) =>
      ImportAdvances(before.db, request);
      if Import(before.db, request).db.dataRevision != before.db.dataRevision {
        ImportedRow(before.db, request, scope);
      }
    case WriteRow(process) =>
      if process in before.pending {
        WrittenRow(before.db, before.pending[process], scope);
      }
    case ReadRevision(_, _, _, _) =>
    case Crash(_) =>
  }

  lemma EmptiedRow(db: Database, scope: Scope)
    ensures db.coverage == map[] ==> RowWritten(db, scope) == None
  {
  }

  // A read answers `complete` exactly when the last write of this scope's row since the table was
  // last replaced or emptied declares it complete at the revision that is current now.
  lemma CompleteExactly(source: Text, snapshot: Option<Text>, events: seq<Event>, scope: Scope)
    ensures var s := Start(source, snapshot);
            ReadComplete(Run(s, events).db, scope) ==
            Ok(LastWrite(s, events, scope) == Some(Written(true, Run(s, events).db.dataRevision)))
  {
    hide Contents, CoverageKey, Run, LastWrite;
    var s := Start(source, snapshot);
    RowIsLastWrite(source, snapshot, events, scope);
    StartInvariant(source, snapshot);
    RunKeeps(s, events, |events|);
    RowsCurrent(Run(s, events).db, scope);
  }

  lemma RowsCurrent(db: Database, scope: Scope)
    requires Valid(db)
    ensures ReadComplete(db, scope) == Ok(RowWritten(db, scope) == Some(Written(true, db.dataRevision)))
  {
    hide CoverageKey, ContentOf;
  }
}
