// A client that starts a discovery listing and follows nextCursor, while other writers may add
// objects between its requests.
module PageWalk {
  import opened Wrappers
  import opened Text
  import opened Utf8
  import opened Sorting
  import opened Json
  import opened ObjectId
  import opened Scopes
  import opened Validation
  import opened Store
  import opened MemoryStore
  import opened StoreLaws
  import opened Refinement
  import opened Cursor
  import opened Paging

  // One request of the walk: the store it meets, when it arrives, and the page it gets.
  datatype Visit = Visit(db: Database, arrival: Arrival, page: PublicPage)

  // The cursor of the n-th request.
  function CursorOf(visits: seq<Visit>, n: nat): Option<Text>
    requires n <= |visits|
  {
    if n == 0 then None else visits[n - 1].page.nextCursor
  }

  // Every request but the first carries the cursor of the page before, and each one is answered.
  // The limit may change from one request to the next.
  ghost predicate IsWalk(server: Server, r: Request, visits: seq<Visit>) {
    && visits != []
    && (forall i | 0 <= i < |visits| - 1 :: visits[i].page.nextCursor.Some?)
    && (forall i | 0 <= i < |visits| :: Answered(server, r, visits, i))
  }

  ghost predicate Answered(server: Server, r: Request, visits: seq<Visit>, i: nat)
    requires i < |visits|
  {
    Serve(server, visits[i].db, r, visits[i].arrival, CursorOf(visits, i)) == Ok(visits[i].page)
  }

  predicate Finished(visits: seq<Visit>)
    requires visits != []
  {
    visits[|visits| - 1].page.nextCursor.None?
  }

  function Delivered(visits: seq<Visit>): seq<Entry> {
    if visits == [] then [] else Delivered(visits[..|visits| - 1]) + visits[|visits| - 1].page.envelope.objects
  }

  // ----- A store that only grows -----

  ghost predicate Grows(a: Database, b: Database) {
    forall id | id in Contents(a) :: id in Contents(b) && Contents(b)[id] == Contents(a)[id]
  }

  ghost predicate GrowingStore(visits: seq<Visit>) {
    && (forall i | 0 <= i < |visits| :: Valid(visits[i].db))
    && (forall i | 0 < i < |visits| :: Grows(visits[i - 1].db, visits[i].db))
  }

  // Every append of the store is such growth.
  lemma AppendGrows(before: Database, after: Database, es: seq<Entry>)
    requires Appended(before, after, es) && forall i | 0 <= i < |es| :: Agrees(Contents(before), es[i])
    requires DistinctIds(es)
    ensures Grows(before, after)
  {
    hide Valid, Contents;
    ObjectsOf(es);
    forall id | id in Contents(before) ensures id in Contents(after) && Contents(after)[id] == Contents(before)[id] {
      if id in Objects(es) {
        var i :| 0 <= i < |es| && es[i].objectId == id;
        assert Agrees(Contents(before), es[i]);
      }
    }
  }

  // An entry the store holds and the query selects.
  predicate Holds(db: Database, scope: Scope, e: Entry) {
    e.objectId in Selected(db, scope) && e.objectId in Contents(db) && Contents(db)[e.objectId] == e.value
  }

  lemma SelectedGrows(a: Database, b: Database, scope: Scope, id: Text)
    requires Valid(a) && Valid(b) && Grows(a, b) && id in Selected(a, scope)
    ensures id in Selected(b, scope) && id in Contents(a) && id in Contents(b) && Contents(b)[id] == Contents(a)[id]
  {
    hide Valid, Contents, RowMatches, Selected;
    SelectedElements(a, scope);
    SelectedElements(b, scope);
    ContentsKeys(a);
    ContentsKeys(b);
    ValidRowParses(a, id);
    ValidRowParses(b, id);
  }

  // ----- Where a walk stands -----

  // What has been delivered is sorted without repetition, stored and selected; nothing that was
  // selected at the start is behind the cursor undelivered; and the cursor stands for the last
  // delivered id.
  ghost predicate Progress(server: Server, r: Request, visits: seq<Visit>)
    requires visits != [] && Wanted(r).Some?
  {
    var scope, last, es := Wanted(r).value, visits[|visits| - 1], Delivered(visits);
    && StrictlySorted(Ids(es))
    && (forall i | 0 <= i < |es| :: Holds(last.db, scope, es[i]))
    && (last.page.nextCursor.Some? ==>
          es != [] && last.page.nextCursor == Some(CursorFor(server, r, last.arrival.madeAt, LastId(es))))
    && (forall id | id in Selected(visits[0].db, scope) ::
          id in Ids(es) || (last.page.nextCursor.Some? && Before(LastId(es), id)))
  }

  function LastId(es: seq<Entry>): Text {
    if es == [] then [] else es[|es| - 1].objectId
  }

  // The ids a position and a limit stand for, and what is left behind them.
  lemma PageIds(server: Server, db: Database, r: Request, a: Arrival, after: Option<Text>, limit: nat, page: PublicPage)
    requires Valid(db) && Wanted(r).Some? && IsPage(server, db, r, a, after, limit, page)
    ensures var es, scope := page.envelope.objects, Wanted(r).value;
            && StrictlySorted(Ids(es))
            && (forall i | 0 <= i < |es| :: Holds(db, scope, es[i]) && (after.Some? ==> Before(after.value, es[i].objectId)))
            && (page.nextCursor.Some? ==> es != [] && page.nextCursor == Some(CursorFor(server, r, a.madeAt, LastId(es))))
            && (forall id | id in Selected(db, scope) && (after.Some? ==> Before(after.value, id)) ::
                  id in Ids(es) || (page.nextCursor.Some? && Before(LastId(es), id)))
  {
    hide Valid, Contents, Wanted, Selected, Remaining, Take, CursorFor, TextOrder, Listed;
    var scope := Wanted(r).value;
    var ids := Remaining(db, scope, after);
    RemainingExactly(db, scope, after);
    TakeExactly(ids, limit);
    ListedIds(db, scope, Take(ids, limit));
    if |ids| > limit {
      LastOfPage(Contents(db), ids, limit);
    }
  }

  lemma LastOfPage(records: map<Text, Json>, ids: seq<Text>, limit: nat)
    requires 1 <= limit < |ids|
    ensures Listed(records, Take(ids, limit)) != [] && LastId(Listed(records, Take(ids, limit))) == ids[limit - 1]
  {
  }

  lemma ListedIds(db: Database, scope: Scope, ids: seq<Text>)
    requires forall id | id in ids :: id in Selected(db, scope)
    ensures Ids(Listed(Contents(db), ids)) == ids && |Listed(Contents(db), ids)| == |ids|
    ensures forall i | 0 <= i < |ids| ::
              Holds(db, scope, Listed(Contents(db), ids)[i]) && Listed(Contents(db), ids)[i].objectId == ids[i]
  {
    hide RowMatches, Selected, ContentOf;
    SelectedElements(db, scope);
    ContentsKeys(db);
    assert Ids(Listed(Contents(db), ids)) == ids;
    forall i | 0 <= i < |ids| ensures Holds(db, scope, Listed(Contents(db), ids)[i]) {
      assert ids[i] in ids;
    }
  }

  // The page of an answered request, given what its cursor stands for.
  lemma AnswerIsPage(
    server: Server, db: Database, r: Request, a: Arrival, cursor: Option<Text>, after: Option<Text>, page: PublicPage)
    returns (limit: nat)
    requires Valid(db) && Serve(server, db, r, a, cursor) == Ok(page)
    requires PositionOf(server.codec, a.checkedAt, r, cursor).Ok? ==>
               PositionOf(server.codec, a.checkedAt, r, cursor) == Ok(after)
    ensures ParseLimit(a.limit, server.defaultPageSize, server.maximumPageSize) == Ok(limit)
    ensures limit >= 1 && Wanted(r).Some? && IsPage(server, db, r, a, after, limit, page)
    ensures PageAllowed(Wanted(r).value, after, limit) && Readable(db)
    ensures AllIndexable(Contents(db), Take(Remaining(db, Wanted(r).value, after), limit))
  {
    hide Valid, Contents, Wanted, Serve, ParseLimit, PositionOf, PageAllowed, IsPage, AllIndexable, Take, Remaining;
    ServeExactly(server, db, r, a, cursor);
    LimitInRange(a.limit, server.defaultPageSize, server.maximumPageSize);
    limit := ParseLimit(a.limit, server.defaultPageSize, server.maximumPageSize).value;
  }

  lemma FirstPage(server: Server, r: Request, visits: seq<Visit>)
    requires |visits| == 1 && IsWalk(server, r, visits) && GrowingStore(visits)
    ensures Wanted(r).Some? && Progress(server, r, visits)
  {
    hide Valid, Contents, Wanted, Selected, Serve, CursorFor, TextOrder, IsPage, PositionOf, Grows, PageAllowed,
         AllIndexable;
    var v := visits[0];
    assert Answered(server, r, visits, 0);
    NoCursor(server, v.arrival.checkedAt, r);
    var limit := AnswerIsPage(server, v.db, r, v.arrival, None, None, v.page);
    PageIds(server, v.db, r, v.arrival, None, limit, v.page);
    DeliveredOne(visits);
  }

  lemma NoCursor(server: Server, now: Clock, r: Request)
    ensures PositionOf(server.codec, now, r, None) == Ok(None)
  {
  }

  lemma DeliveredOne(visits: seq<Visit>)
    requires |visits| == 1
    ensures Delivered(visits) == visits[0].page.envelope.objects
  {
    assert visits[..0] == [];
  }

  // Entries after a sorted list, in order, extend it.
  lemma IdsConcat(a: seq<Entry>, b: seq<Entry>)
    requires StrictlySorted(Ids(a)) && StrictlySorted(Ids(b))
    requires a != [] ==> forall i | 0 <= i < |b| :: Before(LastId(a), b[i].objectId)
    ensures StrictlySorted(Ids(a + b)) && Ids(a + b) == Ids(a) + Ids(b)
  {
    hide TextOrder;
    var ids := Ids(a + b);
    assert ids == Ids(a) + Ids(b);
    forall i, j | 0 <= i < j < |ids| ensures Before(ids[i], ids[j]) {
      if j < |a| {
        assert Before(Ids(a)[i], Ids(a)[j]);
      } else if i >= |a| {
        assert Before(Ids(b)[i - |a|], Ids(b)[j - |a|]);
      } else {
        var last := Ids(a)[|a| - 1];
        assert last == LastId(a);
        if i < |a| - 1 {
          assert Before(Ids(a)[i], last);
          TextOrderTransitive(Ids(a)[i], last, ids[j]);
        }
      }
    }
  }

  // What the next answered request adds.
  lemma NextPage(server: Server, r: Request, init: seq<Visit>, v: Visit)
    requires init != [] && Wanted(r).Some? && Progress(server, r, init)
    requires init[|init| - 1].page.nextCursor.Some? && Valid(v.db)
    requires Serve(server, v.db, r, v.arrival, init[|init| - 1].page.nextCursor) == Ok(v.page)
    ensures var es, more, scope := Delivered(init), v.page.envelope.objects, Wanted(r).value;
            && StrictlySorted(Ids(more))
            && (forall i | 0 <= i < |more| :: Holds(v.db, scope, more[i]) && Before(LastId(es), more[i].objectId))
            && (v.page.nextCursor.Some? ==>
                  more != [] && v.page.nextCursor == Some(CursorFor(server, r, v.arrival.madeAt, LastId(more))))
            && (forall id | id in Selected(v.db, scope) && Before(LastId(es), id) ::
                  id in Ids(more) || (v.page.nextCursor.Some? && Before(LastId(more), id)))
  {
    hide Valid, Contents, Wanted, Selected, Serve, CursorFor, TextOrder, IsPage, PositionOf, PageAllowed, Holds,
         AllIndexable, Take, Remaining, Delivered;
    var last := init[|init| - 1];
    var after := LastId(Delivered(init));
    PositionReadsBack(server, r, last.arrival.madeAt, after, v.arrival.checkedAt, r);
    var limit := AnswerIsPage(server, v.db, r, v.arrival, last.page.nextCursor, Some(after), v.page);
    PageIds(server, v.db, r, v.arrival, Some(after), limit, v.page);
  }

  lemma LastOfConcat(a: seq<Entry>, b: seq<Entry>)
    requires b != []
    ensures LastId(a + b) == LastId(b)
  {
  }

  lemma DeliveredMore(init: seq<Visit>, v: Visit)
    ensures Delivered(init + [v]) == Delivered(init) + v.page.envelope.objects
  {
    assert (init + [v])[..|init|] == init;
  }

  lemma HeldLater(a: Database, b: Database, scope: Scope, es: seq<Entry>)
    requires Valid(a) && Valid(b) && Grows(a, b) && forall i | 0 <= i < |es| :: Holds(a, scope, es[i])
    ensures forall i | 0 <= i < |es| :: Holds(b, scope, es[i])
  {
    hide Valid, Contents, Selected, Grows;
    forall i | 0 <= i < |es| ensures Holds(b, scope, es[i]) {
      SelectedGrows(a, b, scope, es[i].objectId);
    }
  }

  lemma ProgressStep(server: Server, r: Request, init: seq<Visit>, v: Visit)
    requires init != [] && Wanted(r).Some? && Progress(server, r, init)
    requires init[|init| - 1].page.nextCursor.Some? && Valid(v.db) && Valid(init[0].db) && Valid(init[|init| - 1].db)
    requires Serve(server, v.db, r, v.arrival, init[|init| - 1].page.nextCursor) == Ok(v.page)
    requires Grows(init[|init| - 1].db, v.db) && Grows(init[0].db, v.db)
    ensures Progress(server, r, init + [v])
  {
    hide Valid, Contents, Wanted, Selected, Serve, CursorFor, TextOrder, Grows, Holds, Delivered;
    var scope := Wanted(r).value;
    var es, more := Delivered(init), v.page.envelope.objects;
    NextPage(server, r, init, v);
    HeldLater(init[|init| - 1].db, v.db, scope, es);
    IdsConcat(es, more);
    DeliveredMore(init, v);
    if more != [] {
      LastOfConcat(es, more);
    }
    forall id | id in Selected(init[0].db, scope)
      ensures id in Ids(es + more) || (v.page.nextCursor.Some? && Before(LastId(more), id))
    {
      SelectedGrows(init[0].db, v.db, scope, id);
    }
  }

  lemma GrowsTransitive(a: Database, b: Database, c: Database)
    requires Grows(a, b) && Grows(b, c)
    ensures Grows(a, c)
  {
    hide Contents;
  }

  lemma {:induction false} GrowsOverall(visits: seq<Visit>)
    requires visits != [] && GrowingStore(visits)
    ensures Grows(visits[0].db, visits[|visits| - 1].db)
  {
    hide Grows, Valid;
    var n := |visits|;
    if n == 1 {
      GrowsSelf(visits[0].db);
    } else {
      var init := visits[..n - 1];
      GrowsOverall(init);
      assert Grows(visits[n - 2].db, visits[n - 1].db);
      GrowsTransitive(visits[0].db, visits[n - 2].db, visits[n - 1].db);
    }
  }

  lemma GrowsSelf(db: Database)
    ensures Grows(db, db)
  {
  }

  lemma WalkPrefix(server: Server, r: Request, visits: seq<Visit>, n: nat)
    requires IsWalk(server, r, visits) && GrowingStore(visits) && 1 <= n <= |visits|
    ensures IsWalk(server, r, visits[..n]) && GrowingStore(visits[..n])
    ensures n < |visits| ==> visits[n - 1].page.nextCursor.Some?
    ensures n < |visits| ==>
              Serve(server, visits[n].db, r, visits[n].arrival, visits[n - 1].page.nextCursor) == Ok(visits[n].page)
  {
    hide Serve, Grows, Valid;
    var init := visits[..n];
    forall i | 0 <= i < n ensures Answered(server, r, init, i) {
      assert Answered(server, r, visits, i);
      assert CursorOf(init, i) == CursorOf(visits, i);
    }
    if n < |visits| {
      assert Answered(server, r, visits, n);
    }
  }

  lemma {:induction false} WalkProgress(server: Server, r: Request, visits: seq<Visit>)
    requires IsWalk(server, r, visits) && GrowingStore(visits)
    ensures Wanted(r).Some? && Progress(server, r, visits)
    decreases |visits|
  {
    hide Serve, Grows, Valid, Wanted, Progress, Answered;
    var n := |visits|;
    WalkPrefix(server, r, visits, n);
    if n == 1 {
      FirstPage(server, r, visits);
    } else {
      var init := visits[..n - 1];
      WalkPrefix(server, r, visits, n - 1);
      WalkProgress(server, r, init);
      GrowsOverall(visits);
      assert Grows(visits[n - 2].db, visits[n - 1].db);
      ProgressStep(server, r, init, visits[n - 1]);
      assert init + [visits[n - 1]] == visits;
    }
  }

  // ----- What a walk delivers -----

  // Where the alias asked for is well-formed text, as every URL parameter is, an entry that was
  // selected and could be read satisfies the filter itself.
  predicate PlainScope(scope: Scope) {
    scope.BindingScope? ==> WellFormed(scope.alias)
  }

  lemma {:induction false} DeliveredIndexable(server: Server, r: Request, visits: seq<Visit>)
    requires IsWalk(server, r, visits) && GrowingStore(visits)
    ensures forall e | e in Delivered(visits) :: Indexable(e.value)
    decreases |visits|
  {
    hide Serve, Grows, Valid, Wanted, Answered, Indexable, Contents, PageAllowed, ParseLimit, PositionOf, Take,
         Remaining;
    var n := |visits|;
    var v := visits[n - 1];
    assert Answered(server, r, visits, n - 1);
    AnsweredIndexable(server, r, visits, n - 1);
    if n > 1 {
      WalkPrefix(server, r, visits, n - 1);
      DeliveredIndexable(server, r, visits[..n - 1]);
    }
  }

  lemma AnsweredIndexable(server: Server, r: Request, visits: seq<Visit>, i: nat)
    requires i < |visits| && Answered(server, r, visits, i) && Valid(visits[i].db)
    ensures forall e | e in visits[i].page.envelope.objects :: Indexable(e.value)
  {
    hide Serve, Valid, Wanted, Indexable, Contents, PageAllowed, PositionOf, Selected, TextOrder, CursorFor,
         RowMatches, Remaining, Take;
    var v := visits[i];
    var position := PositionOf(server.codec, v.arrival.checkedAt, r, CursorOf(visits, i));
    var after := if position.Ok? then position.value else None;
    var limit := AnswerIsPage(server, v.db, r, v.arrival, CursorOf(visits, i), after, v.page);
    var ids := Remaining(v.db, Wanted(r).value, after);
    RemainingExactly(v.db, Wanted(r).value, after);
    TakeExactly(ids, limit);
    SelectedElements(v.db, Wanted(r).value);
    ContentsKeys(v.db);
    var taken := Take(ids, limit);
    assert v.page.envelope.objects == Listed(Contents(v.db), taken);
    forall e | e in Listed(Contents(v.db), taken) ensures Indexable(e.value) {
      var k :| 0 <= k < |taken| && Listed(Contents(v.db), taken)[k] == e;
      assert taken[k] in taken;
    }
  }

  lemma SelectedMatches(db: Database, scope: Scope, e: Entry)
    requires Valid(db) && IsNormal(scope) && PlainScope(scope) && Holds(db, scope, e) && Indexable(e.value)
    ensures EntryMatches(scope, e.objectId, e.value)
  {
    hide Valid, Contents, Selected, RowMatches, EntryMatches, Indexable, IsNormal, RowOf;
    SelectedElements(db, scope);
    ValidRowParses(db, e.objectId);
    ReadIsMatching(scope, e.objectId, e.value);
  }

  lemma MatchingSelected(db: Database, scope: Scope, id: Text)
    requires Valid(db) && IsNormal(scope) && id in Contents(db) && EntryMatches(scope, id, Contents(db)[id])
    ensures id in Selected(db, scope)
  {
    hide Valid, Contents, Selected, RowMatches, EntryMatches, IsNormal, RowOf;
    SelectedElements(db, scope);
    ContentsKeys(db);
    ValidRowParses(db, id);
    MatchingRowMatches(scope, id, Contents(db)[id]);
  }

  lemma StoredAndMatching(db: Database, scope: Scope, es: seq<Entry>)
    requires Valid(db) && IsNormal(scope)
    requires (forall i | 0 <= i < |es| :: Holds(db, scope, es[i])) && forall e | e in es :: Indexable(e.value)
    ensures forall e | e in es ::
              && e.objectId in Contents(db) && Contents(db)[e.objectId] == e.value
              && (PlainScope(scope) ==> EntryMatches(scope, e.objectId, e.value))
  {
    hide Valid, Selected, Contents, EntryMatches, Indexable, IsNormal, PlainScope;
    forall e | e in es
      ensures e.objectId in Contents(db) && Contents(db)[e.objectId] == e.value
      ensures PlainScope(scope) ==> EntryMatches(scope, e.objectId, e.value)
    {
      var i :| 0 <= i < |es| && es[i] == e;
      assert Holds(db, scope, es[i]);
      if PlainScope(scope) {
        SelectedMatches(db, scope, e);
      }
    }
  }

  lemma NothingMissed(first: Database, last: Database, scope: Scope, es: seq<Entry>)
    requires Valid(first) && Valid(last) && IsNormal(scope) && Grows(first, last)
    requires forall i | 0 <= i < |es| :: Holds(last, scope, es[i])
    requires forall id | id in Selected(first, scope) :: id in Ids(es)
    ensures forall id | id in Contents(first) && EntryMatches(scope, id, Contents(first)[id]) ::
              Entry(id, Contents(first)[id]) in es
  {
    hide Valid, Selected, Contents, EntryMatches, Grows, IsNormal;
    forall id | id in Contents(first) && EntryMatches(scope, id, Contents(first)[id])
      ensures Entry(id, Contents(first)[id]) in es
    {
      MatchingSelected(first, scope, id);
      SelectedGrows(first, last, scope, id);
      var i :| 0 <= i < |es| && Ids(es)[i] == id;
      assert Holds(last, scope, es[i]);
      assert es[i] == Entry(id, Contents(first)[id]);
    }
  }

  // While the store only grows, a walk delivers ids in strictly increasing order, so none twice,
  // and nothing that is not stored and does not match; once it has finished, it has delivered every
  // matching object that was there when it began.
  lemma WalkDelivers(server: Server, r: Request, visits: seq<Visit>)
    requires IsWalk(server, r, visits) && GrowingStore(visits)
    ensures Wanted(r).Some?
    ensures StrictlySorted(Ids(Delivered(visits)))
    ensures var final := Contents(visits[|visits| - 1].db);
            forall e | e in Delivered(visits) ::
              && e.objectId in final && final[e.objectId] == e.value
              && (PlainScope(Wanted(r).value) ==> EntryMatches(Wanted(r).value, e.objectId, e.value))
    ensures var first := Contents(visits[0].db);
            Finished(visits) ==>
              forall id | id in first && EntryMatches(Wanted(r).value, id, first[id]) ::
                Entry(id, first[id]) in Delivered(visits)
  {
    assert visits != [];
    hide IsWalk, Valid, Wanted, Selected, Contents, EntryMatches, Indexable, CursorFor, StrictlySorted, TextOrder,
         Grows, IsNormal, Delivered, PlainScope, Holds;
    WalkProgress(server, r, visits);
    DeliveredIndexable(server, r, visits);
    ScopeNormal(r);
    var scope, last := Wanted(r).value, visits[|visits| - 1].db;
    StoredAndMatching(last, scope, Delivered(visits));
    if Finished(visits) {
      GrowsOverall(visits);
      NothingMissed(visits[0].db, last, scope, Delivered(visits));
    }
  }

  // ----- A store that stays as it is -----

  ghost predicate StaticStore(visits: seq<Visit>, db: Database) {
    forall i | 0 <= i < |visits| :: visits[i].db == db
  }

  lemma StaticGrows(visits: seq<Visit>, db: Database)
    requires StaticStore(visits, db) && Valid(db)
    ensures GrowingStore(visits)
  {
    hide Valid;
    GrowsSelf(db);
  }

  // The pages put together are the listing that one unpaged read gives.
  lemma WholeListing(db: Database, scope: Scope, es: seq<Entry>)
    requires Valid(db) && StrictlySorted(Ids(es))
    requires forall i | 0 <= i < |es| :: Holds(db, scope, es[i])
    requires forall id | id in Selected(db, scope) :: id in Ids(es)
    ensures es == Listed(Contents(db), Selected(db, scope))
    ensures (forall e | e in es :: Indexable(e.value)) ==> AllIndexable(Contents(db), Selected(db, scope))
  {
    hide Valid, Contents, Selected, TextOrder, Indexable;
    var selected := Selected(db, scope);
    SelectedElements(db, scope);
    assert Elements(Ids(es)) == Elements(selected);
    SortedUnique(Ids(es), selected);
    assert |es| == |Ids(es)|;
    forall i | 0 <= i < |es| ensures es[i] == Listed(Contents(db), selected)[i] {
      assert Ids(es)[i] == selected[i] && Holds(db, scope, es[i]);
    }
    forall id | (forall e | e in es :: Indexable(e.value)) && id in selected && id in Contents(db)
      ensures Indexable(Contents(db)[id])
    {
      var i :| 0 <= i < |es| && Ids(es)[i] == id;
      assert Holds(db, scope, es[i]) && es[i] in es;
    }
  }

  // On an unchanging store a finished walk has delivered, page after page, exactly the full
  // result, whatever limits it used.
  lemma WalkIsFind(server: Server, r: Request, visits: seq<Visit>, db: Database)
    requires IsWalk(server, r, visits) && Valid(db) && StaticStore(visits, db) && Finished(visits)
    ensures Wanted(r).Some? && Find(db, Wanted(r).value).Ok?
    ensures Delivered(visits) == Find(db, Wanted(r).value).value.objects
  {
    assert visits != [];
    hide IsWalk, Valid, Wanted, Selected, Contents, Indexable, CursorFor, TextOrder, IsNormal, Delivered, Find,
         Readable, Holds, AllIndexable, Listed, StrictlySorted, GrowingStore;
    StaticGrows(visits, db);
    WalkProgress(server, r, visits);
    DeliveredIndexable(server, r, visits);
    WalkReadable(server, r, visits);
    ScopeNormal(r);
    var scope, es := Wanted(r).value, Delivered(visits);
    WholeListing(db, scope, es);
    FindParsed(db, scope);
  }

  lemma WalkReadable(server: Server, r: Request, visits: seq<Visit>)
    requires IsWalk(server, r, visits) && GrowingStore(visits)
    ensures Readable(visits[0].db)
  {
    hide Valid, Contents, Wanted, Serve, Indexable, PageAllowed, PositionOf, Remaining, Take, Listed, Grows,
         AllIndexable, IsPage;
    assert Answered(server, r, visits, 0);
    NoCursor(server, visits[0].arrival.checkedAt, r);
    var limit := AnswerIsPage(server, visits[0].db, r, visits[0].arrival, None, None, visits[0].page);
  }

  // Only the last page of a walk can be empty.
  ghost predicate PagesFilled(visits: seq<Visit>)
    requires visits != []
  {
    |Delivered(visits)| + (if Finished(visits) then 1 else 0) >= |visits|
  }

  lemma {:induction false} WalkLength(server: Server, r: Request, visits: seq<Visit>, db: Database)
    requires IsWalk(server, r, visits) && Valid(db) && StaticStore(visits, db)
    ensures PagesFilled(visits)
    decreases |visits|
  {
    assert visits != [];
    hide IsWalk, Valid, PagesFilled;
    var n := |visits|;
    if n == 1 {
      OnePageFilled(server, r, visits, db);
    } else {
      StaticPrefix(server, r, visits, db, n - 1);
      WalkLength(server, r, visits[..n - 1], db);
      PagesFilledStep(server, r, visits, db);
    }
  }

  lemma StaticPrefix(server: Server, r: Request, visits: seq<Visit>, db: Database, n: nat)
    requires IsWalk(server, r, visits) && Valid(db) && StaticStore(visits, db) && 1 <= n <= |visits|
    ensures IsWalk(server, r, visits[..n]) && StaticStore(visits[..n], db)
  {
    hide IsWalk, Valid, GrowingStore;
    StaticGrows(visits, db);
    WalkPrefix(server, r, visits, n);
  }

  lemma OnePageFilled(server: Server, r: Request, visits: seq<Visit>, db: Database)
    requires IsWalk(server, r, visits) && Valid(db) && StaticStore(visits, db) && |visits| == 1
    ensures PagesFilled(visits)
  {
    hide IsWalk, Valid, Wanted, Serve, Delivered, Progress, GrowingStore;
    StaticGrows(visits, db);
    WalkProgress(server, r, visits);
    ProgressDelivers(server, r, visits);
  }

  lemma PagesFilledStep(server: Server, r: Request, visits: seq<Visit>, db: Database)
    requires IsWalk(server, r, visits) && Valid(db) && StaticStore(visits, db) && |visits| > 1
    requires PagesFilled(visits[..|visits| - 1])
    ensures PagesFilled(visits)
  {
    hide IsWalk, Valid, Wanted, Serve, Delivered, Progress, GrowingStore, PagesFilled;
    var n := |visits|;
    var init := visits[..n - 1];
    StaticGrows(visits, db);
    WalkPrefix(server, r, visits, n - 1);
    WalkProgress(server, r, init);
    assert visits[n - 1].db == db;
    NextPageDelivers(server, r, init, visits[n - 1]);
    assert init + [visits[n - 1]] == visits;
    FilledMore(init, visits[n - 1]);
  }

  lemma FilledMore(init: seq<Visit>, v: Visit)
    requires init != [] && PagesFilled(init) && !Finished(init)
    requires |Delivered(init + [v])| >= |Delivered(init)| + if v.page.nextCursor.Some? then 1 else 0
    ensures PagesFilled(init + [v])
  {
    hide Delivered;
  }

  lemma ProgressDelivers(server: Server, r: Request, visits: seq<Visit>)
    requires visits != [] && Wanted(r).Some? && Progress(server, r, visits)
    ensures Finished(visits) || Delivered(visits) != []
  {
    hide Wanted, Holds, Delivered, CursorFor, Selected;
  }

  lemma NextPageDelivers(server: Server, r: Request, init: seq<Visit>, v: Visit)
    requires init != [] && Wanted(r).Some? && Progress(server, r, init)
    requires init[|init| - 1].page.nextCursor.Some? && Valid(v.db)
    requires Serve(server, v.db, r, v.arrival, init[|init| - 1].page.nextCursor) == Ok(v.page)
    ensures |Delivered(init + [v])| >= |Delivered(init)| + if v.page.nextCursor.Some? then 1 else 0
  {
    hide Valid, Wanted, Serve, Delivered, Progress, Holds, CursorFor, Selected, TextOrder;
    NextPage(server, r, init, v);
    DeliveredMore(init, v);
  }

  lemma SortedNotMore(a: seq<Text>, b: seq<Text>)
    requires StrictlySorted(a) && StrictlySorted(b) && forall x | x in a :: x in b
    ensures |a| <= |b|
  {
    hide TextOrder;
    SortedUnique(a, SortedTexts(Elements(a)));
    SortedUnique(b, SortedTexts(Elements(b)));
    SubsetCount(Elements(a), Elements(b));
  }

  lemma SubsetCount(a: set<Text>, b: set<Text>)
    requires a <= b
    ensures |a| <= |b|
  {
    assert b == a + (b - a);
  }

  lemma HeldNotMore(db: Database, scope: Scope, es: seq<Entry>)
    requires StrictlySorted(Ids(es)) && forall i | 0 <= i < |es| :: Holds(db, scope, es[i])
    ensures |es| <= |Selected(db, scope)|
  {
    hide Selected, Contents, StrictlySorted;
    SelectedElements(db, scope);
    forall x | x in Ids(es) ensures x in Selected(db, scope) {
      var i :| 0 <= i < |es| && Ids(es)[i] == x;
      assert Holds(db, scope, es[i]);
    }
    SortedNotMore(Ids(es), Selected(db, scope));
  }

  // A walk has at most one request more than there are objects to list, ...
  lemma WalkEnds(server: Server, r: Request, visits: seq<Visit>, db: Database)
    requires IsWalk(server, r, visits) && Valid(db) && StaticStore(visits, db)
    ensures Wanted(r).Some? && |visits| <= |Selected(db, Wanted(r).value)| + 1
  {
    assert visits != [];
    hide IsWalk, Valid, Wanted, Selected, Contents, CursorFor, StrictlySorted, Delivered, Holds, GrowingStore;
    StaticGrows(visits, db);
    WalkProgress(server, r, visits);
    WalkLength(server, r, visits, db);
    HeldNotMore(db, Wanted(r).value, Delivered(visits));
  }

  // ----- How many pages there are -----

  lemma SortedJoin(a: seq<Text>, b: seq<Text>, last: Text)
    requires StrictlySorted(a) && StrictlySorted(b) && a != [] && a[|a| - 1] == last
    requires forall id | id in b :: Before(last, id)
    ensures StrictlySorted(a + b) && Elements(a + b) == Elements(a) + Elements(b)
  {
    hide TextOrder;
    var ids := a + b;
    forall i, j | 0 <= i < j < |ids| ensures Before(ids[i], ids[j]) {
      if i < |a| <= j {
        assert b[j - |a|] in b;
        if i < |a| - 1 {
          assert Before(a[i], last);
          TextOrderTransitive(a[i], last, ids[j]);
        }
      }
    }
  }

  // What is delivered and what is left make up the listing.
  lemma LeftOver(db: Database, scope: Scope, es: seq<Entry>)
    requires es != [] && StrictlySorted(Ids(es)) && forall i | 0 <= i < |es| :: Holds(db, scope, es[i])
    requires forall id | id in Selected(db, scope) :: id in Ids(es) || Before(LastId(es), id)
    ensures |es| + |Remaining(db, scope, Some(LastId(es)))| == |Selected(db, scope)|
  {
    hide TextOrder, Selected, Remaining, Contents, StrictlySorted;
    var ids, rest := Ids(es), Remaining(db, scope, Some(LastId(es)));
    RemainingExactly(db, scope, Some(LastId(es)));
    SelectedElements(db, scope);
    SortedJoin(ids, rest, LastId(es));
    forall id | id in ids ensures id in Selected(db, scope) {
      var i :| 0 <= i < |es| && ids[i] == id;
      assert Holds(db, scope, es[i]);
    }
    forall id | id in Elements(ids + rest) ensures id in Elements(Selected(db, scope)) {
    }
    forall id | id in Elements(Selected(db, scope)) ensures id in Elements(ids + rest) {
    }
    SortedUnique(ids + rest, Selected(db, scope));
  }

  // Every request asks for this limit.
  ghost predicate OneLimit(server: Server, visits: seq<Visit>, limit: nat) {
    forall i | 0 <= i < |visits| ::
      ParseLimit(visits[i].arrival.limit, server.defaultPageSize, server.maximumPageSize) == Ok(limit)
  }

  // A walk that is not finished has delivered full pages and leaves something; a finished one has
  // delivered everything, its pages but the last full and the last not empty, unless nothing was
  // there at all.
  predicate Paged(visits: seq<Visit>, limit: nat, n: nat)
    requires visits != []
  {
    if Finished(visits) then
      |Delivered(visits)| == n <= |visits| * limit && (|visits| == 1 || (|visits| - 1) * limit < n)
    else
      |Delivered(visits)| == |visits| * limit < n
  }

  lemma PageSize(server: Server, db: Database, r: Request, a: Arrival, after: Option<Text>, limit: nat, page: PublicPage)
    requires Wanted(r).Some? && IsPage(server, db, r, a, after, limit, page)
    ensures var left := |Remaining(db, Wanted(r).value, after)|;
            && |page.envelope.objects| == (if left <= limit then left else limit)
            && (page.nextCursor.Some? <==> left > limit)
  {
    hide Wanted, Remaining, Contents, CursorFor;
    TakeMore(Remaining(db, Wanted(r).value, after), limit);
  }

  lemma NextSize(server: Server, r: Request, init: seq<Visit>, v: Visit, limit: nat)
    requires init != [] && Wanted(r).Some? && Progress(server, r, init) && !Finished(init)
    requires Valid(v.db) && init[|init| - 1].db == v.db && init[0].db == v.db
    requires Serve(server, v.db, r, v.arrival, init[|init| - 1].page.nextCursor) == Ok(v.page)
    requires ParseLimit(v.arrival.limit, server.defaultPageSize, server.maximumPageSize) == Ok(limit)
    requires Paged(init, limit, |Selected(v.db, Wanted(r).value)|)
    ensures Paged(init + [v], limit, |Selected(v.db, Wanted(r).value)|)
  {
    hide Valid, Contents, Wanted, Selected, Serve, CursorFor, StrictlySorted, IsPage, PositionOf, PageAllowed, Holds,
         AllIndexable, Take, Remaining, Delivered, ParseLimit, Paged;
    var es, last := Delivered(init), init[|init| - 1];
    LeftOver(v.db, Wanted(r).value, es);
    PositionReadsBack(server, r, last.arrival.madeAt, LastId(es), v.arrival.checkedAt, r);
    var l := AnswerIsPage(server, v.db, r, v.arrival, last.page.nextCursor, Some(LastId(es)), v.page);
    PageSize(server, v.db, r, v.arrival, Some(LastId(es)), limit, v.page);
    PagedMore(init, v, limit, |Selected(v.db, Wanted(r).value)|, |Remaining(v.db, Wanted(r).value, Some(LastId(es)))|);
  }

  lemma PagedMore(init: seq<Visit>, v: Visit, limit: nat, n: nat, left: nat)
    requires init != [] && !Finished(init) && Paged(init, limit, n) && |Delivered(init)| + left == n
    requires |v.page.envelope.objects| == (if left <= limit then left else limit)
    requires v.page.nextCursor.Some? <==> left > limit
    ensures Paged(init + [v], limit, n)
  {
    DeliveredMore(init, v);
    OneMore(|init|, limit);
    hide Delivered;
    assert (init + [v])[|init|] == v;
  }

  lemma OneMore(k: nat, limit: nat)
    ensures (k + 1) * limit == k * limit + limit
  {
  }

  lemma FirstSize(server: Server, r: Request, visits: seq<Visit>, limit: nat)
    requires |visits| == 1 && IsWalk(server, r, visits) && GrowingStore(visits) && Wanted(r).Some?
    requires OneLimit(server, visits, limit)
    ensures Paged(visits, limit, |Selected(visits[0].db, Wanted(r).value)|)
  {
    hide Valid, Contents, Wanted, Selected, Serve, CursorFor, TextOrder, IsPage, PositionOf, Grows, PageAllowed,
         AllIndexable, Delivered, ParseLimit;
    var v := visits[0];
    assert Answered(server, r, visits, 0);
    NoCursor(server, v.arrival.checkedAt, r);
    var l := AnswerIsPage(server, v.db, r, v.arrival, None, None, v.page);
    PageSize(server, v.db, r, v.arrival, None, limit, v.page);
    DeliveredOne(visits);
  }

  lemma {:induction false} WalkPaged(server: Server, r: Request, visits: seq<Visit>, db: Database, limit: nat)
    requires IsWalk(server, r, visits) && Valid(db) && StaticStore(visits, db) && OneLimit(server, visits, limit)
    ensures Wanted(r).Some? && Paged(visits, limit, |Selected(db, Wanted(r).value)|)
    decreases |visits|
  {
    assert visits != [] && visits[0].db == db;
    hide IsWalk, Valid, Wanted, Selected, Progress, GrowingStore, Paged, StaticStore;
    StaticGrows(visits, db);
    WalkProgress(server, r, visits);
    if |visits| == 1 {
      FirstSize(server, r, visits, limit);
    } else {
      StaticPrefix(server, r, visits, db, |visits| - 1);
      SameLimit(server, visits, limit, |visits| - 1);
      WalkPaged(server, r, visits[..|visits| - 1], db, limit);
      PagedStep(server, r, visits, db, limit);
    }
  }

  lemma SameLimit(server: Server, visits: seq<Visit>, limit: nat, n: nat)
    requires OneLimit(server, visits, limit) && n <= |visits|
    ensures OneLimit(server, visits[..n], limit)
  {
    hide ParseLimit;
  }

  lemma PagedStep(server: Server, r: Request, visits: seq<Visit>, db: Database, limit: nat)
    requires IsWalk(server, r, visits) && Valid(db) && StaticStore(visits, db) && OneLimit(server, visits, limit)
    requires |visits| > 1 && Wanted(r).Some?
    requires Paged(visits[..|visits| - 1], limit, |Selected(db, Wanted(r).value)|)
    ensures Paged(visits, limit, |Selected(db, Wanted(r).value)|)
  {
    hide IsWalk, Valid, Wanted, Selected, Serve, Progress, GrowingStore, Paged, ParseLimit;
    var n := |visits|;
    var init, v := visits[..n - 1], visits[n - 1];
    StaticGrows(visits, db);
    WalkPrefix(server, r, visits, n - 1);
    WalkProgress(server, r, init);
    assert v.db == db && init[n - 2].db == db && init[0].db == db;
    NextSize(server, r, init, v, limit);
    assert init + [v] == visits;
  }

  // With one limit throughout, a finished walk over n objects has made exactly n / limit requests,
  // rounded up, and one where there are none.
  lemma WalkPages(server: Server, r: Request, visits: seq<Visit>, db: Database, limit: nat)
    requires IsWalk(server, r, visits) && Valid(db) && StaticStore(visits, db) && Finished(visits)
    requires OneLimit(server, visits, limit)
    ensures Wanted(r).Some? && limit >= 1
    ensures var n := |Selected(db, Wanted(r).value)|;
            |visits| == if n == 0 then 1 else (n + limit - 1) / limit
  {
    hide Valid, Wanted, Selected, Delivered, StaticStore, Answered, ParseLimit;
    WalkPaged(server, r, visits, db, limit);
    LimitInRange(visits[0].arrival.limit, server.defaultPageSize, server.maximumPageSize);
    RoundedUp(|Selected(db, Wanted(r).value)|, |visits|, limit);
  }

  lemma RoundedUp(n: nat, k: nat, limit: nat)
    requires limit >= 1 && k >= 1 && n <= k * limit && (k == 1 || (k - 1) * limit < n)
    ensures n > 0 ==> k == (n + limit - 1) / limit
    ensures n == 0 ==> k == 1
  {
    if n > 0 {
      var q := (n + limit - 1) / limit;
      assert q * limit <= n + limit - 1 < (q + 1) * limit;
      if k < q {
        Products(k, q - 1, limit);
      } else if q < k {
        Products(q, k - 1, limit);
      }
    } else if k > 1 {
      Products(0, k - 1, limit);
    }
  }

  lemma Products(a: int, b: int, limit: nat)
    requires a <= b
    ensures a * limit <= b * limit
  {
  }

  lemma IndexablePage(db: Database, scope: Scope, after: Option<Text>, limit: nat)
    requires limit >= 1 && AllIndexable(Contents(db), Selected(db, scope))
    ensures AllIndexable(Contents(db), Take(Remaining(db, scope, after), limit))
  {
    hide Contents, Selected, Indexable, TextOrder, Remaining;
    RemainingExactly(db, scope, after);
    TakeExactly(Remaining(db, scope, after), limit);
  }

  // ... it can start: where the whole listing can be read, a first request with an acceptable limit
  // is answered exactly when it names at most 900 bindings, ...
  lemma WalkStarts(server: Server, r: Request, db: Database, first: Arrival)
    requires Valid(db) && Wanted(r).Some? && Find(db, Wanted(r).value).Ok?
    requires ParseLimit(first.limit, server.defaultPageSize, server.maximumPageSize).Ok?
    ensures Serve(server, db, r, first, None).Ok? <==>
            (Wanted(r).value.ReleaseScope? ==> |Wanted(r).value.bindingIds| <= CHUNK_SIZE)
  {
    hide Valid, Wanted, Selected, Contents, TextOrder, Find, Serve, ParseLimit, AllIndexable, Take, Remaining,
         IsCanonicalObjectId, PositionOf;
    ScopeNormal(r);
    var scope := Wanted(r).value;
    NoCursor(server, first.checkedAt, r);
    ServeExactly(server, db, r, first, None);
    FindReadable(db, scope);
    FindParsed(db, scope);
    LimitInRange(first.limit, server.defaultPageSize, server.maximumPageSize);
    IndexablePage(db, scope, None, ParseLimit(first.limit, server.defaultPageSize, server.maximumPageSize).value);
  }

  // ... and until it has finished it can go on: the next request with an acceptable limit is
  // answered exactly while its cursor has not expired.
  lemma WalkGoesOn(server: Server, r: Request, visits: seq<Visit>, db: Database, next: Arrival)
    requires IsWalk(server, r, visits) && Valid(db) && StaticStore(visits, db) && !Finished(visits)
    requires Wanted(r).Some? && Find(db, Wanted(r).value).Ok?
    requires ParseLimit(next.limit, server.defaultPageSize, server.maximumPageSize).Ok?
    ensures Serve(server, db, r, next, CursorOf(visits, |visits|)).Ok? <==>
            Alive(server.codec, visits[|visits| - 1].arrival.madeAt, next.checkedAt)
  {
    assert visits != [];
    hide IsWalk, Valid, Wanted, Selected, Contents, CursorFor, Find, Serve, ParseLimit, AllIndexable, Take, Remaining,
         IsCanonicalObjectId, PositionOf, StaticStore;
    var last := WalkPosition(server, r, visits, db);
    ScopeNormal(r);
    var scope := Wanted(r).value;
    PositionReadsBack(server, r, visits[|visits| - 1].arrival.madeAt, last, next.checkedAt, r);
    ServeExactly(server, db, r, next, CursorOf(visits, |visits|));
    FindReadable(db, scope);
    FindParsed(db, scope);
    LimitInRange(next.limit, server.defaultPageSize, server.maximumPageSize);
    IndexablePage(db, scope, Some(last), ParseLimit(next.limit, server.defaultPageSize, server.maximumPageSize).value);
  }

  // The position an unfinished walk has reached.
  lemma WalkPosition(server: Server, r: Request, visits: seq<Visit>, db: Database) returns (last: Text)
    requires IsWalk(server, r, visits) && Valid(db) && StaticStore(visits, db) && !Finished(visits)
    ensures CursorOf(visits, |visits|) == Some(CursorFor(server, r, visits[|visits| - 1].arrival.madeAt, last))
    ensures IsCanonicalObjectId(last)
    ensures Wanted(r).Some? && (Wanted(r).value.ReleaseScope? ==> |Wanted(r).value.bindingIds| <= CHUNK_SIZE)
  {
    assert visits != [];
    hide IsWalk, Valid, Wanted, Selected, Contents, CursorFor, StrictlySorted, Delivered, IsCanonicalObjectId;
    StaticGrows(visits, db);
    WalkProgress(server, r, visits);
    last := LastId(Delivered(visits));
    assert Holds(db, Wanted(r).value, Delivered(visits)[|Delivered(visits)| - 1]);
    DeliveredCanonical(db, Wanted(r).value, last);
    WalkAllowed(server, r, visits);
  }

  lemma FindReadable(db: Database, scope: Scope)
    requires Find(db, scope).Ok?
    ensures Readable(db)
  {
  }

  lemma DeliveredCanonical(db: Database, scope: Scope, id: Text)
    requires Valid(db) && id in Selected(db, scope)
    ensures IsCanonicalObjectId(id)
  {
    hide IsCanonicalObjectId, RowMatches, ValidRow, ContentOf, Selected;
    SelectedElements(db, scope);
  }

  // The first page was answered, so the number of bindings is within bounds.
  lemma WalkAllowed(server: Server, r: Request, visits: seq<Visit>)
    requires IsWalk(server, r, visits) && GrowingStore(visits)
    ensures Wanted(r).Some? && (Wanted(r).value.ReleaseScope? ==> |Wanted(r).value.bindingIds| <= CHUNK_SIZE)
  {
    hide Valid, Contents, Wanted, Serve, Indexable, PositionOf, Remaining, Take, Listed, Grows, IsCanonicalObjectId,
         AllIndexable, IsPage;
    assert Answered(server, r, visits, 0);
    NoCursor(server, visits[0].arrival.checkedAt, r);
    var limit := AnswerIsPage(server, visits[0].db, r, visits[0].arrival, None, None, visits[0].page);
  }
}
