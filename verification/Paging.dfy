// The three discovery routes of the public Relay (apps/public-relay/src/server.js): one request
// and the page it is answered with.
module Paging {
  import opened Wrappers
  import opened Text
  import opened Utf8
  import opened Sorting
  import opened Numeral
  import opened Json
  import opened KeyOrder
  import opened ObjectId
  import opened Scopes
  import opened Validation
  import opened Store
  import opened MemoryStore
  import opened Refinement
  import opened Cursor

  // ----- Requests -----

  // The parameters of the three routes; a missing one is null.
  datatype Request =
    | BindingsOf(context: Option<Text>, alias: Option<Text>)
    | ReleasesOf(bindings: seq<Text>)
    | DocumentsOf(context: Option<Text>)
  {
    function Kind(): Discovery {
      match this
      case BindingsOf(_, _) => Bindings
      case ReleasesOf(_) => Releases
      case DocumentsOf(_) => CommuneDocuments
    }
  }

  const ALIAS_BINDINGS_ROUTE: Text := Ascii("/v1/discovery/alias-bindings")
  const ALIAS_RELEASES_ROUTE: Text := Ascii("/v1/discovery/alias-releases")
  const COMMUNE_DOCUMENTS_ROUTE: Text := Ascii("/v1/discovery/commune-documents")

  function RouteOf(r: Request): (route: Text)
    ensures route != []
  {
    match r
    case BindingsOf(_, _) => ALIAS_BINDINGS_ROUTE
    case ReleasesOf(_) => ALIAS_RELEASES_ROUTE
    case DocumentsOf(_) => COMMUNE_DOCUMENTS_ROUTE
  }

  // Array.prototype.sort without a comparator: by UTF-16 code units.
  function InsertText(t: Text, sorted: seq<Text>): seq<Text> {
    if sorted == [] || Order(t, sorted[0]) < 0 then [t] + sorted else [sorted[0]] + InsertText(t, sorted[1..])
  }

  function SortByUnits(ts: seq<Text>): seq<Text> {
    if ts == [] then [] else InsertText(ts[|ts| - 1], SortByUnits(ts[..|ts| - 1]))
  }

  function QueryOf(r: Request): Json {
    match r
    case BindingsOf(context, alias) => JObj(map[CONTEXT := NullableJson(context), ALIAS := NullableJson(alias)])
    case ReleasesOf(bindings) => JObj(map[BINDING_IDS := JArr(TextItems(SortByUnits(bindings)))])
    case DocumentsOf(context) => JObj(map[CONTEXT := NullableJson(context)])
  }

  // The normalised scope of a request.
  function ScopeOf(r: Request): Option<Scope> {
    ReadScope(r.Kind(), QueryOf(r))
  }

  // ----- One page -----

  datatype PublicPage = PublicPage(envelope: Envelope, complete: bool, nextCursor: Option<Text>)

  // paginateEnvelope
  function PaginateEnvelope(page: Page, route: Text, query: Json, limit: int, codec: Codec, now: Clock): Result<PublicPage> {
    var objects := page.envelope.objects;
    if limit < 1 || limit > MAX_SAFE then Err(RelayProtocol)
    else if !page.hasMore then Ok(PublicPage(page.envelope, true, None))
    else if objects == [] then Err(RelayProtocol)
    else
      match Create(codec, now, route, query, objects[|objects| - 1].objectId)
      case Err(error) => Err(error)
      case Ok(token) => Ok(PublicPage(page.envelope, false, Some(token)))
  }

  datatype ServerOptions = ServerOptions(codec: Codec, defaultPageSize: int, maximumPageSize: int)

  // The options createPublicRelayServer accepts.
  type Server = s: ServerOptions | 1 <= s.defaultPageSize <= s.maximumPageSize <= PAGE_MAXIMUM
    witness ServerOptions(CursorCodec(seq(32, _ => 0), 300), 100, 1000)

  // The position a cursor parameter stands for.
  function PositionOf(codec: Codec, now: Clock, r: Request, cursor: Option<Text>): Result<Option<Text>> {
    match cursor
    case None => Ok(None)
    case Some(token) =>
      match ParseCursor(codec, now, token, RouteOf(r), QueryOf(r))
      case Err(error) => Err(error)
      case Ok(p) => Ok(Some(p.lastObjectId))
  }

  // One request: the clock is read once to check the cursor and once more to make the next one.
  datatype Arrival = Arrival(checkedAt: Clock, madeAt: Clock, limit: Option<Text>)

  function Serve(server: Server, db: Database, r: Request, a: Arrival, cursor: Option<Text>): Result<PublicPage> {
    match ParseLimit(a.limit, server.defaultPageSize, server.maximumPageSize)
    case Err(error) => Err(error)
    case Ok(limit) =>
      match PositionOf(server.codec, a.checkedAt, r, cursor)
      case Err(error) => Err(error)
      case Ok(after) =>
        match ScopeOf(r)
        case None => Err(InvalidRequest)
        case Some(scope) =>
          match FindPage(db, scope, after, limit)
          case Err(error) => Err(error)
          case Ok(page) => PaginateEnvelope(page, RouteOf(r), QueryOf(r), limit, server.codec, a.madeAt)
  }

  // ----- The query does not depend on the order of the binding parameters -----

  lemma PrependSorted(t: Text, sorted: seq<Text>)
    requires SortedByUnits(sorted) && forall i | 0 <= i < |sorted| :: Order(t, sorted[i]) <= 0
    ensures SortedByUnits([t] + sorted)
  {
    hide Order;
  }

  lemma TailSorted(sorted: seq<Text>)
    requires SortedByUnits(sorted) && sorted != []
    ensures SortedByUnits(sorted[1..])
    ensures forall x | x in sorted[1..] :: Order(sorted[0], x) <= 0
  {
    hide Order;
  }

  lemma FirstBeforeAll(t: Text, sorted: seq<Text>)
    requires SortedByUnits(sorted) && sorted != [] && Order(t, sorted[0]) <= 0
    ensures forall i | 0 <= i < |sorted| :: Order(t, sorted[i]) <= 0
  {
    hide Order;
    forall i | 0 < i < |sorted| ensures Order(t, sorted[i]) <= 0 {
      OrderTransitive(t, sorted[0], sorted[i]);
    }
  }

  lemma FirstStaysFirst(first: Text, t: Text, rest: seq<Text>, tail: seq<Text>)
    requires Order(first, t) <= 0 && forall x | x in rest :: Order(first, x) <= 0
    requires multiset(tail) == multiset(rest) + multiset{t}
    ensures forall i | 0 <= i < |tail| :: Order(first, tail[i]) <= 0
  {
    hide Order;
    forall i | 0 <= i < |tail| ensures Order(first, tail[i]) <= 0 {
      assert tail[i] in multiset(tail);
      assert tail[i] == t || tail[i] in rest;
    }
  }

  lemma {:induction false} InsertTextSorted(t: Text, sorted: seq<Text>)
    requires SortedByUnits(sorted)
    ensures SortedByUnits(InsertText(t, sorted))
    ensures multiset(InsertText(t, sorted)) == multiset(sorted) + multiset{t}
  {
    hide Order, SortedByUnits;
    if sorted == [] || Order(t, sorted[0]) < 0 {
      if sorted != [] {
        FirstBeforeAll(t, sorted);
      }
      PrependSorted(t, sorted);
    } else {
      var rest := sorted[1..];
      assert sorted == [sorted[0]] + rest;
      TailSorted(sorted);
      InsertTextSorted(t, rest);
      OrderSwap(t, sorted[0]);
      FirstStaysFirst(sorted[0], t, rest, InsertText(t, rest));
      PrependSorted(sorted[0], InsertText(t, rest));
    }
  }

  lemma OrderSelf(t: Text)
    ensures Order(t, t) == 0
  {
    OrderZero(t, t);
  }

  lemma {:induction false} SortByUnitsSorted(ts: seq<Text>)
    ensures SortedByUnits(SortByUnits(ts))
    ensures multiset(SortByUnits(ts)) == multiset(ts)
  {
    if ts != [] {
      var init, last := ts[..|ts| - 1], ts[|ts| - 1];
      SortByUnitsSorted(init);
      InsertTextSorted(last, SortByUnits(init));
      assert ts == init + [last];
    }
  }

  lemma SameFirst(a: seq<Text>, b: seq<Text>)
    requires SortedByUnits(a) && SortedByUnits(b) && multiset(a) == multiset(b) && a != [] && b != []
    ensures a[0] == b[0]
  {
    hide Order;
    assert a[0] in multiset(a) && b[0] in multiset(b);
    assert a[0] in b && b[0] in a;
    OrderSelf(a[0]);
    FirstBeforeAll(a[0], a);
    OrderSelf(b[0]);
    FirstBeforeAll(b[0], b);
    OrderSwap(a[0], b[0]);
    OrderZero(a[0], b[0]);
  }

  lemma SameTails(a: seq<Text>, b: seq<Text>)
    requires multiset(a) == multiset(b) && a != [] && b != [] && a[0] == b[0]
    ensures multiset(a[1..]) == multiset(b[1..])
  {
    assert a == [a[0]] + a[1..] && b == [b[0]] + b[1..];
    assert multiset(a[1..]) == multiset(a) - multiset{a[0]};
    assert multiset(b[1..]) == multiset(b) - multiset{b[0]};
  }

  lemma {:induction false} SortedByUnitsUnique(a: seq<Text>, b: seq<Text>)
    requires SortedByUnits(a) && SortedByUnits(b) && multiset(a) == multiset(b)
    ensures a == b
    decreases |a|
  {
    hide Order, SortedByUnits;
    assert |multiset(a)| == |a| && |multiset(b)| == |b|;
    if a != [] {
      SameFirst(a, b);
      SameTails(a, b);
      TailSorted(a);
      TailSorted(b);
      SortedByUnitsUnique(a[1..], b[1..]);
      assert a == [a[0]] + a[1..] && b == [b[0]] + b[1..];
    }
  }

  // ----- The scope of a request -----

  // What a request asks for, from its own parameters: None where one is missing or is not a
  // canonical id.
  function Wanted(r: Request): Option<Scope> {
    match r
    case BindingsOf(Some(context), Some(alias)) =>
      if IsCanonicalObjectId(context) then Some(BindingScope(context, alias)) else None
    case BindingsOf(_, _) => None
    case ReleasesOf(bindings) =>
      if forall id | id in bindings :: IsCanonicalObjectId(id) then Some(ReleaseScope(SortedTexts(Elements(bindings)))) else None
    case DocumentsOf(Some(context)) => if IsCanonicalObjectId(context) then Some(CommuneScope(context)) else None
    case DocumentsOf(None) => None
  }

  // The scope that is looked up is the one asked for.
  lemma ScopeExactly(r: Request)
    ensures ScopeOf(r) == Wanted(r)
  {
    hide IsCanonicalObjectId, SortedTexts, StrictlySorted, CONTEXT, ALIAS, BINDING_IDS, SortByUnits, TextItems, TextsIn,
         IsIdValue;
    KeysDiffer();
    if r.ReleasesOf? {
      var sorted := SortByUnits(r.bindings);
      SortByUnitsSorted(r.bindings);
      SameTexts(sorted, r.bindings);
      TextItemsElements(sorted);
    }
  }

  lemma SameTexts(a: seq<Text>, b: seq<Text>)
    requires multiset(a) == multiset(b)
    ensures Elements(a) == Elements(b) && forall t :: t in a <==> t in b
  {
    forall t ensures t in a <==> t in b {
      assert t in a <==> t in multiset(a);
    }
  }

  // A release listing is resumed by the same bindings in any order.
  lemma QueryOfPermutation(a: seq<Text>, b: seq<Text>)
    requires multiset(a) == multiset(b)
    ensures QueryOf(ReleasesOf(a)) == QueryOf(ReleasesOf(b))
  {
    SortByUnitsSorted(a);
    SortByUnitsSorted(b);
    SortedByUnitsUnique(SortByUnits(a), SortByUnits(b));
  }

  // ----- What a page holds -----

  lemma {:induction false} AfterExactly(ids: seq<Text>, last: Text)
    requires StrictlySorted(ids)
    ensures StrictlySorted(After(ids, Some(last)))
    ensures forall id :: id in After(ids, Some(last)) <==> id in ids && Before(last, id)
  {
    hide TextOrder;
    if ids != [] {
      var rest := ids[1..];
      assert ids == [ids[0]] + rest;
      if Before(last, ids[0]) {
        forall id | id in ids ensures Before(last, id) {
          var i :| 0 <= i < |ids| && ids[i] == id;
          if i > 0 {
            TextOrderTransitive(last, ids[0], id);
          }
        }
      } else {
        forall i, j | 0 <= i < j < |rest| ensures Before(rest[i], rest[j]) {
          assert Before(ids[i + 1], ids[j + 1]);
        }
        AfterExactly(rest, last);
      }
    }
  }

  lemma TakeExactly(ids: seq<Text>, n: nat)
    requires StrictlySorted(ids) && n >= 1
    ensures StrictlySorted(Take(ids, n))
    ensures forall id | id in Take(ids, n) :: id in ids
    ensures forall id | id in ids :: id in Take(ids, n) || (|ids| > n && Before(ids[n - 1], id))
  {
    hide TextOrder;
    forall id | id in ids ensures id in Take(ids, n) || (|ids| > n && Before(ids[n - 1], id)) {
      var i :| 0 <= i < |ids| && ids[i] == id;
      if |ids| > n && i < n {
        assert ids[..n][i] == id;
      }
    }
  }

  lemma TakeMore(ids: seq<Text>, n: nat)
    ensures |Take(ids, n + 1)| > n <==> |ids| > n
    ensures |Take(ids, n)| == if |ids| <= n then |ids| else n
  {
  }

  // The ids a page is taken from.
  function Remaining(db: Database, scope: Scope, after: Option<Text>): seq<Text> {
    After(Selected(db, scope), after)
  }

  lemma RemainingExactly(db: Database, scope: Scope, after: Option<Text>)
    ensures StrictlySorted(Remaining(db, scope, after))
    ensures forall id :: id in Remaining(db, scope, after) <==>
              id in Selected(db, scope) && (after.Some? ==> Before(after.value, id))
  {
    hide Selected, TextOrder;
    SelectedElements(db, scope);
    if after.Some? {
      AfterExactly(Selected(db, scope), after.value);
    }
  }

  predicate PageAllowed(scope: Scope, after: Option<Text>, limit: int) {
    && 1 <= limit <= PAGE_MAXIMUM
    && (after.Some? ==> IsCanonicalObjectId(after.value))
    && (scope.ReleaseScope? ==> |scope.bindingIds| <= CHUNK_SIZE)
  }

  // The order a query asks of SQLite, and the comparison of its cursor clause, are by octets. On
  // stored ids and cursor positions that is the order of compareText, which the envelope sorts by.
  lemma SelectedInOctetOrder(db: Database, scope: Scope, last: Text)
    requires Valid(db) && IsCanonicalObjectId(last)
    ensures forall i, j | 0 <= i < j < |Selected(db, scope)| ::
              Order(Utf8.Encode(Selected(db, scope)[i]), Utf8.Encode(Selected(db, scope)[j])) == -1
    ensures forall id | id in Selected(db, scope) ::
              Before(last, id) <==> Order(Utf8.Encode(last), Utf8.Encode(id)) == -1
  {
    hide IsCanonicalObjectId, RowMatches, Selected, ValidRow, ContentOf, Utf8.Encode, CodePoints;
    var ids := Selected(db, scope);
    SelectedElements(db, scope);
    forall i, j | 0 <= i < j < |ids| ensures Order(Utf8.Encode(ids[i]), Utf8.Encode(ids[j])) == -1 {
      OctetOrderOfIds(ids[i], ids[j]);
    }
    forall id | id in ids ensures Before(last, id) <==> Order(Utf8.Encode(last), Utf8.Encode(id)) == -1 {
      OctetOrderOfIds(last, id);
    }
  }

  lemma OctetOrderOfIds(a: Text, b: Text)
    requires IsCanonicalObjectId(a) && IsCanonicalObjectId(b)
    ensures Before(a, b) <==> Order(Utf8.Encode(a), Utf8.Encode(b)) == -1
  {
    hide IsCanonicalObjectId, Utf8.Encode;
    CanonicalIsAscii(a);
    CanonicalIsAscii(b);
    Utf8Order(a, b);
    TextOrderTotal(a, b);
  }

  lemma SortedListing(records: map<Text, Json>, ids: seq<Text>)
    requires StrictlySorted(ids)
    ensures SortById(Listed(records, ids)) == Listed(records, ids)
  {
    StrictlySortedDistinct(ids);
    SortListed(records, ids);
    SortedUnique(ids, SortedTexts(Elements(ids)));
  }

  // A page is refused exactly for a bad position, limit or number of bindings, an unreadable store
  // or an unindexable object among its rows. It holds the next `limit` of the selected objects, and
  // hasMore says whether others are left.
  lemma FindPageExactly(db: Database, scope: Scope, after: Option<Text>, limit: int)
    requires Valid(db)
    ensures !PageAllowed(scope, after, limit) ==> FindPage(db, scope, after, limit) == Err(InvalidRequest)
    ensures PageAllowed(scope, after, limit) ==>
              var ids := Take(Remaining(db, scope, after), limit);
              FindPage(db, scope, after, limit) ==
              if Readable(db) && AllIndexable(Contents(db), ids) then
                Ok(Page(
                  Envelope(db.source, db.snapshot, scope, Listed(Contents(db), ids), ReadComplete(db, scope) == Ok(true)),
                  |Remaining(db, scope, after)| > limit))
              else Err(StoreIntegrity)
  {
    hide Valid, Contents, Selected, ParseRows, ReadComplete, SortById, Listed, After, Take, IsCanonicalObjectId,
         AllIndexable;
    if PageAllowed(scope, after, limit) {
      var ids := Take(Remaining(db, scope, after), limit);
      PageIdsStored(db, scope, after, limit);
      ReadCompleteValid(db, scope);
      ParseRowsExactly(db, ids);
      RemainingExactly(db, scope, after);
      TakeExactly(Remaining(db, scope, after), limit);
      TakeMore(Remaining(db, scope, after), limit);
      SortedListing(Contents(db), ids);
    }
  }

  lemma ScopeNormal(r: Request)
    requires Wanted(r).Some?
    ensures IsNormal(Wanted(r).value)
  {
    ScopeExactly(r);
    ReadScopeNormal(r.Kind(), QueryOf(r));
  }

  // ----- A response -----

  // The cursor made at a time for a position.
  function CursorFor(server: Server, r: Request, made: Clock, last: Text): Text {
    Create(server.codec, made, RouteOf(r), QueryOf(r), last).value
  }

  // Requests for one listing: of the same route and parameters, bindings in any order.
  predicate SameListing(r: Request, s: Request) {
    match r
    case BindingsOf(context, alias) => s == BindingsOf(context, alias)
    case ReleasesOf(bindings) => s.ReleasesOf? && multiset(s.bindings) == multiset(bindings)
    case DocumentsOf(context) => s == DocumentsOf(context)
  }

  // Each method has a route of its own.
  lemma RoutesExactly(r: Request, s: Request)
    ensures RouteOf(r) == RouteOf(s) <==> r.Kind() == s.Kind()
  {
    assert ALIAS_BINDINGS_ROUTE[20] != ALIAS_RELEASES_ROUTE[20];
    assert ALIAS_BINDINGS_ROUTE[14] != COMMUNE_DOCUMENTS_ROUTE[14] && ALIAS_RELEASES_ROUTE[14] != COMMUNE_DOCUMENTS_ROUTE[14];
  }

  // Route and query tell listings apart.
  lemma ListingsDiffer(r: Request, s: Request)
    ensures RouteOf(r) == RouteOf(s) && QueryOf(r) == QueryOf(s) <==> SameListing(r, s)
  {
    RoutesExactly(r, s);
    KeysDiffer();
    hide RouteOf, CONTEXT, ALIAS, BINDING_IDS, SortByUnits;
    if r.ReleasesOf? && s.ReleasesOf? {
      if multiset(r.bindings) == multiset(s.bindings) {
        QueryOfPermutation(r.bindings, s.bindings);
      }
      if QueryOf(r) == QueryOf(s) {
        assert QueryOf(r).members[BINDING_IDS] == QueryOf(s).members[BINDING_IDS];
        TextItemsInjective(SortByUnits(r.bindings), SortByUnits(s.bindings));
        SortByUnitsSorted(r.bindings);
        SortByUnitsSorted(s.bindings);
      }
    } else if RouteOf(r) == RouteOf(s) && QueryOf(r) == QueryOf(s) {
      assert QueryOf(r).members[CONTEXT] == QueryOf(s).members[CONTEXT];
      if r.BindingsOf? {
        assert QueryOf(r).members[ALIAS] == QueryOf(s).members[ALIAS];
      }
    }
  }

  // Presented with a request for the same listing, a cursor gives back its position until its
  // lifetime is over; with any other request it is refused.
  lemma PositionReadsBack(server: Server, r: Request, made: Clock, last: Text, now: Clock, s: Request)
    ensures PositionOf(server.codec, now, s, Some(CursorFor(server, r, made, last))) ==
            if SameListing(r, s) && Alive(server.codec, made, now) then Ok(Some(last)) else Err(RelayProtocol)
  {
    hide Create, ParseCursor, QueryOf, RouteOf, Alive, SameListing;
    CursorRoundTrip(server.codec, made, now, RouteOf(r), QueryOf(r), last, RouteOf(s), QueryOf(s));
    ListingsDiffer(r, s);
  }

  // The page a position and a limit stand for.
  ghost predicate IsPage(server: Server, db: Database, r: Request, a: Arrival, after: Option<Text>, limit: nat, page: PublicPage)
    requires Wanted(r).Some?
  {
    var scope := Wanted(r).value;
    var ids := Remaining(db, scope, after);
    && limit >= 1
    && page.envelope ==
       Envelope(db.source, db.snapshot, scope, Listed(Contents(db), Take(ids, limit)), ReadComplete(db, scope) == Ok(true))
    && page.nextCursor == (if |ids| > limit then Some(CursorFor(server, r, a.madeAt, ids[limit - 1])) else None)
    && page.complete == page.nextCursor.None?
  }

  lemma LastTaken(records: map<Text, Json>, ids: seq<Text>, limit: nat)
    requires 1 <= limit < |ids|
    ensures var objects := Listed(records, Take(ids, limit));
            |objects| == limit && objects[limit - 1].objectId == ids[limit - 1]
  {
  }

  // Serving succeeds exactly for an acceptable limit, cursor, scope and position over readable
  // objects, and then with the page meant.
  lemma ServeExactly(server: Server, db: Database, r: Request, a: Arrival, cursor: Option<Text>)
    requires Valid(db)
    ensures var limit := ParseLimit(a.limit, server.defaultPageSize, server.maximumPageSize);
            var after := PositionOf(server.codec, a.checkedAt, r, cursor);
            var served := Serve(server, db, r, a, cursor);
            && (served.Ok? <==>
                  && limit.Ok? && after.Ok? && Wanted(r).Some? && PageAllowed(Wanted(r).value, after.value, limit.value)
                  && Readable(db)
                  && AllIndexable(Contents(db), Take(Remaining(db, Wanted(r).value, after.value), limit.value)))
            && (served.Ok? ==> IsPage(server, db, r, a, after.value, limit.value, served.value))
  {
    ScopeExactly(r);
    hide Valid, Contents, ParseLimit, PositionOf, ScopeOf, Wanted, FindPage, Create, RouteOf, QueryOf, IsCanonicalObjectId,
         AllIndexable, Remaining, Take, Listed, ReadComplete;
    var limit := ParseLimit(a.limit, server.defaultPageSize, server.maximumPageSize);
    var after := PositionOf(server.codec, a.checkedAt, r, cursor);
    if limit.Ok? && after.Ok? && Wanted(r).Some? {
      LimitInRange(a.limit, server.defaultPageSize, server.maximumPageSize);
      FindPageExactly(db, Wanted(r).value, after.value, limit.value);
      var ids := Remaining(db, Wanted(r).value, after.value);
      if |ids| > limit.value {
        LastTaken(Contents(db), ids, limit.value);
        Created(server, r, a.madeAt, ids[limit.value - 1]);
      }
    }
  }

  lemma Created(server: Server, r: Request, made: Clock, last: Text)
    ensures Create(server.codec, made, RouteOf(r), QueryOf(r), last) == Ok(CursorFor(server, r, made, last))
  {
    hide RouteOf, QueryOf, EncodedPayload, Sign;
  }
}
