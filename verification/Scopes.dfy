// Discovery methods and the scopes that coverage is declared for: normalizeScope
// (src/sqlite-store.js), which normalizeCoverageEntry repeats for archives.
module Scopes {
  import opened Wrappers
  import opened Text
  import opened Utf8
  import opened Sorting
  import opened Json
  import opened JsonParser
  import opened ObjectId

  datatype Discovery = Bindings | Releases | CommuneDocuments

  datatype Scope =
    | BindingScope(context: Text, alias: Text)
    | ReleaseScope(bindingIds: seq<Text>)
    | CommuneScope(context: Text)
  {
    function Kind(): Discovery {
      match this
      case BindingScope(_, _) => Bindings
      case ReleaseScope(_) => Releases
      case CommuneScope(_) => CommuneDocuments
    }
  }

  const BINDINGS: Text := Ascii("bindings")
  const RELEASES: Text := Ascii("releases")
  const COMMUNE_DOCUMENTS: Text := Ascii("communeDocuments")

  const CONTEXT: Text := Ascii("context")
  const ALIAS: Text := Ascii("alias")
  const BINDING_IDS: Text := Ascii("bindingIds")

  function MethodName(kind: Discovery): Text {
    match kind
    case Bindings => BINDINGS
    case Releases => RELEASES
    case CommuneDocuments => COMMUNE_DOCUMENTS
  }

  // METHOD_NAMES.has
  function MethodOf(name: Text): Option<Discovery> {
    if name == BINDINGS then Some(Bindings)
    else if name == RELEASES then Some(Releases)
    else if name == COMMUNE_DOCUMENTS then Some(CommuneDocuments)
    else None
  }

  // A string member of an object.
  function TextMember(v: Json, key: Text): Option<Text> {
    if v.JObj? && key in v.members && v.members[key].JStr? then Some(v.members[key].text) else None
  }

  // An ObjectId member, as requireObjectId checks it.
  function IdMember(v: Json, key: Text): Option<Text> {
    match TextMember(v, key)
    case Some(id) => if IsCanonicalObjectId(id) then Some(id) else None
    case None => None
  }

  predicate IsIdValue(v: Json) {
    v.JStr? && IsCanonicalObjectId(v.text)
  }

  function TextsIn(items: seq<Json>): set<Text> {
    set item | item in items && item.JStr? :: item.text
  }

  // normalizeScope: None is the InvalidRequestError of a malformed scope.
  function ReadScope(kind: Discovery, v: Json): Option<Scope> {
    match kind
    case Bindings =>
      var context, alias := IdMember(v, CONTEXT), TextMember(v, ALIAS);
      if context.Some? && alias.Some? then Some(BindingScope(context.value, alias.value)) else None
    case Releases =>
      if v.JObj? && BINDING_IDS in v.members && v.members[BINDING_IDS].JArr? then
        var items := v.members[BINDING_IDS].items;
        if forall item | item in items :: IsIdValue(item) then Some(ReleaseScope(SortedTexts(TextsIn(items)))) else None
      else
        None
    case CommuneDocuments =>
      var context := IdMember(v, CONTEXT);
      if context.Some? then Some(CommuneScope(context.value)) else None
  }

  function ScopeJson(scope: Scope): Json {
    match scope
    case BindingScope(context, alias) => JObj(map[CONTEXT := JStr(context), ALIAS := JStr(alias)])
    case ReleaseScope(bindingIds) => JObj(map[BINDING_IDS := JArr(TextItems(bindingIds))])
    case CommuneScope(context) => JObj(map[CONTEXT := JStr(context)])
  }

  function TextItems(ts: seq<Text>): seq<Json> {
    seq(|ts|, i requires 0 <= i < |ts| => JStr(ts[i]))
  }

  // stableJson(scope), the text a coverage row is keyed by.
  function ScopeText(scope: Scope): Text {
    Print(ScopeJson(scope))
  }

  predicate IsNormal(scope: Scope) {
    match scope
    case BindingScope(context, _) => IsCanonicalObjectId(context)
    case ReleaseScope(bindingIds) => StrictlySorted(bindingIds) && forall id | id in bindingIds :: IsCanonicalObjectId(id)
    case CommuneScope(context) => IsCanonicalObjectId(context)
  }

  lemma KeysDiffer()
    ensures CONTEXT != ALIAS && CONTEXT != BINDING_IDS && ALIAS != BINDING_IDS
  {
    assert |CONTEXT| == 7 && |ALIAS| == 5 && |BINDING_IDS| == 10;
  }

  // Normalising yields a normal scope of the method asked for, and leaves a normal scope alone.
  lemma ReadScopeNormal(kind: Discovery, v: Json)
    requires ReadScope(kind, v).Some?
    ensures IsNormal(ReadScope(kind, v).value)
    ensures ReadScope(kind, v).value.Kind() == kind
  {
    hide IsCanonicalObjectId, StrictlySorted, SortedTexts, TextOrder, CONTEXT, ALIAS, BINDING_IDS;
    if kind.Releases? {
      var items := v.members[BINDING_IDS].items;
      var ids := SortedTexts(TextsIn(items));
      forall id | id in ids ensures IsCanonicalObjectId(id) {
        assert id in Elements(ids);
      }
    }
  }

  predicate HasMember(v: Json, key: Text, value: Json) {
    v.JObj? && key in v.members && v.members[key] == value
  }

  // What normalizeScope accepts, member by member, and what it makes of it: a binding scope needs a
  // canonical context and a string for an alias; a release scope a list of canonical ids and nothing
  // else, which come out sorted, each once; a commune scope a canonical context.
  lemma ReadScopeExactly(kind: Discovery, v: Json, scope: Scope)
    ensures ReadScope(kind, v) == Some(scope) <==>
            match kind
            case Bindings =>
              && scope.BindingScope? && IsCanonicalObjectId(scope.context)
              && HasMember(v, CONTEXT, JStr(scope.context)) && HasMember(v, ALIAS, JStr(scope.alias))
            case Releases =>
              && scope.ReleaseScope? && v.JObj? && BINDING_IDS in v.members && v.members[BINDING_IDS].JArr?
              && (forall item | item in v.members[BINDING_IDS].items :: IsIdValue(item))
              && StrictlySorted(scope.bindingIds)
              && forall id :: id in scope.bindingIds <==> JStr(id) in v.members[BINDING_IDS].items
            case CommuneDocuments =>
              scope.CommuneScope? && IsCanonicalObjectId(scope.context) && HasMember(v, CONTEXT, JStr(scope.context))
  {
    hide IsCanonicalObjectId, StrictlySorted, SortedTexts, TextOrder, CONTEXT, ALIAS, BINDING_IDS;
    if kind.Releases? && v.JObj? && BINDING_IDS in v.members && v.members[BINDING_IDS].JArr? {
      ListedIdsExactly(v.members[BINDING_IDS].items);
      if scope.ReleaseScope? && StrictlySorted(scope.bindingIds) {
        SameIds(v.members[BINDING_IDS].items, scope.bindingIds);
      }
    }
  }

  lemma ListedIdsExactly(items: seq<Json>)
    ensures forall id :: id in SortedTexts(TextsIn(items)) <==> JStr(id) in items
  {
    hide SortedTexts;
    forall id ensures id in SortedTexts(TextsIn(items)) <==> JStr(id) in items {
      assert id in SortedTexts(TextsIn(items)) <==> id in Elements(SortedTexts(TextsIn(items)));
      if JStr(id) in items {
        assert JStr(id).text in TextsIn(items);
      }
    }
  }

  lemma SameIds(items: seq<Json>, ids: seq<Text>)
    requires StrictlySorted(ids)
    ensures ids == SortedTexts(TextsIn(items)) <==> forall id :: id in ids <==> JStr(id) in items
  {
    hide SortedTexts, TextOrder;
    ListedIdsExactly(items);
    if forall id :: id in ids <==> JStr(id) in items {
      assert Elements(ids) == TextsIn(items);
      SortedUnique(ids, SortedTexts(TextsIn(items)));
    }
  }

  lemma TextItemsElements(ids: seq<Text>)
    ensures TextsIn(TextItems(ids)) == Elements(ids)
    ensures (forall item | item in TextItems(ids) :: IsIdValue(item)) <==> forall id | id in ids :: IsCanonicalObjectId(id)
  {
    var items := TextItems(ids);
    forall id | id in ids ensures JStr(id) in items {
      var i :| 0 <= i < |ids| && ids[i] == id;
      assert items[i] == JStr(id);
    }
    if forall item | item in items :: IsIdValue(item) {
      assert forall id | id in ids :: IsIdValue(JStr(id));
    }
  }

  lemma SortedIdsUnique(ids: seq<Text>)
    ensures SortedTexts(Elements(ids)) == ids <==> StrictlySorted(ids)
  {
    if StrictlySorted(ids) {
      SortedUnique(ids, SortedTexts(Elements(ids)));
    }
  }

  lemma ReadReleaseScope(ids: seq<Text>)
    ensures IsNormal(ReleaseScope(ids)) <==> ReadScope(Releases, ScopeJson(ReleaseScope(ids))) == Some(ReleaseScope(ids))
  {
    hide IsCanonicalObjectId, StrictlySorted, SortedTexts, TextOrder, BINDING_IDS, CONTEXT, ALIAS, TextItems, TextsIn, Elements,
         IsIdValue;
    var items := TextItems(ids);
    var v := ScopeJson(ReleaseScope(ids));
    assert v.members[BINDING_IDS].items == items;
    TextItemsElements(ids);
    SortedIdsUnique(ids);
    var valid := forall item | item in items :: IsIdValue(item);
    assert ReadScope(Releases, v) == if valid then Some(ReleaseScope(SortedTexts(TextsIn(items)))) else None;
  }

  lemma ReadContextScope(scope: Scope)
    requires !scope.ReleaseScope?
    ensures IsNormal(scope) <==> ReadScope(scope.Kind(), ScopeJson(scope)) == Some(scope)
  {
    hide IsCanonicalObjectId, StrictlySorted, SortedTexts, TextOrder, TextsIn, CONTEXT, ALIAS, BINDING_IDS;
    KeysDiffer();
  }

  lemma ReadScopeJson(scope: Scope)
    ensures IsNormal(scope) <==> ReadScope(scope.Kind(), ScopeJson(scope)) == Some(scope)
  {
    match scope
    case ReleaseScope(bindingIds) => ReadReleaseScope(bindingIds);
    case BindingScope(_, _) => ReadContextScope(scope);
    case CommuneScope(_) => ReadContextScope(scope);
  }

  // A release scope does not depend on the order or the repetition of the ids asked for.
  lemma ReleaseScopeOfSet(a: seq<Json>, b: seq<Json>)
    requires forall item :: item in a <==> item in b
    ensures ReadScope(Releases, JObj(map[BINDING_IDS := JArr(a)])) == ReadScope(Releases, JObj(map[BINDING_IDS := JArr(b)]))
  {
    assert TextsIn(a) == TextsIn(b);
    var x, y := JObj(map[BINDING_IDS := JArr(a)]), JObj(map[BINDING_IDS := JArr(b)]);
    assert (forall item | item in a :: IsIdValue(item)) == (forall item | item in b :: IsIdValue(item));
  }

  // Two scopes have the same text exactly when they are the same scope.
  lemma ScopeTextInjective(a: Scope, b: Scope)
    ensures ScopeText(a) == ScopeText(b) <==> a == b
  {
    PrintInjective(ScopeJson(a), ScopeJson(b));
    KeysDiffer();
    if ScopeJson(a) == ScopeJson(b) {
      assert ScopeJson(a).members.Keys == ScopeJson(b).members.Keys;
      match a
      case BindingScope(context, alias) =>
        assert ALIAS in ScopeJson(b).members && CONTEXT in ScopeJson(b).members;
      case ReleaseScope(ids) =>
        assert BINDING_IDS in ScopeJson(b).members;
        assert ScopeJson(b).members[BINDING_IDS] == ScopeJson(a).members[BINDING_IDS];
        TextItemsInjective(ids, b.bindingIds);
      case CommuneScope(context) =>
        assert CONTEXT in ScopeJson(b).members && ALIAS !in ScopeJson(b).members;
    }
  }

  lemma TextItemsInjective(a: seq<Text>, b: seq<Text>)
    requires TextItems(a) == TextItems(b)
    ensures a == b
  {
    assert |TextItems(a)| == |a| && |TextItems(b)| == |b|;
    forall i | 0 <= i < |a| ensures a[i] == b[i] {
      assert TextItems(a)[i] == TextItems(b)[i];
    }
  }

  // ----- The key of a coverage entry: the method, a NUL, the scope text -----

  function CoverageKey(scope: Scope): Text {
    MethodName(scope.Kind()) + [0] + ScopeText(scope)
  }

  lemma CoverageKeyInjective(a: Scope, b: Scope)
    ensures CoverageKey(a) == CoverageKey(b) <==> a == b
  {
    if CoverageKey(a) == CoverageKey(b) {
      assert CoverageKey(a)[0] == CoverageKey(b)[0];
      NamesDiffer(a.Kind(), b.Kind());
      NamesDiffer(b.Kind(), a.Kind());
      var n := |MethodName(a.Kind())| + 1;
      assert a.Kind() == b.Kind();
      assert CoverageKey(a)[n..] == ScopeText(a) && CoverageKey(b)[n..] == ScopeText(b);
      ScopeTextInjective(a, b);
    }
  }

  lemma {:induction false} CodePointsAfterAscii(p: Text, t: Text)
    requires forall i | 0 <= i < |p| :: p[i] < 0x80
    ensures CodePoints(p + t) == p + CodePoints(t)
  {
    if p == [] {
      assert p + t == t;
    } else {
      assert (p + t)[1..] == p[1..] + t;
      CodePointsAfterAscii(p[1..], t);
    }
  }

  lemma NamesDiffer(kind: Discovery, other: Discovery)
    ensures IsName(MethodName(kind))
    ensures kind != other ==> MethodName(kind)[0] != MethodName(other)[0]
  {
    assert BINDINGS[0] == 98 && RELEASES[0] == 114 && COMMUNE_DOCUMENTS[0] == 99;
  }

  lemma FirstDecides(s: Text, t: Text)
    requires s != [] && t != [] && s[0] < 0x80 && t[0] < 0x80 && s[0] != t[0]
    ensures TextOrder(s, t) == if s[0] < t[0] then -1 else 1
  {
    assert CodePoints(s)[0] == s[0] && CodePoints(t)[0] == t[0];
  }

  lemma DifferentNameOrder(m: Text, n: Text, s: Text, t: Text)
    requires m != [] && n != [] && m[0] < 0x80 && n[0] < 0x80 && m[0] != n[0]
    ensures TextOrder(m + [0] + s, n + [0] + t) == TextOrder(m, n) != 0
  {
    FirstDecides(m, n);
    FirstDecides(m + [0] + s, n + [0] + t);
  }

  lemma SameNameOrder(m: Text, s: Text, t: Text)
    requires forall i | 0 <= i < |m| :: m[i] < 0x80
    ensures TextOrder(m + s, m + t) == TextOrder(s, t)
  {
    CodePointsAfterAscii(m, s);
    CodePointsAfterAscii(m, t);
    OrderSamePrefix(m, CodePoints(s), CodePoints(t));
  }

  predicate IsName(m: Text) {
    m != [] && forall i | 0 <= i < |m| :: m[i] < 0x80
  }

  // Two names followed by a mark and a text: the names decide, or else the texts.
  lemma MarkedOrder(m: Text, n: Text, s: Text, t: Text)
    requires IsName(m) && IsName(n) && (m == n || m[0] != n[0])
    ensures TextOrder(m + [0] + s, n + [0] + t) == if TextOrder(m, n) == 0 then TextOrder(s, t) else TextOrder(m, n)
  {
    TextOrderTotal(m, n);
    if m == n {
      SameNameOrder(m + [0], s, t);
    } else {
      DifferentNameOrder(m, n, s, t);
    }
  }

  // The comparator of normalizeCoverage, by method and then by scope text, is the order of the keys.
  lemma CoverageKeyOrder(a: Scope, b: Scope)
    ensures var byMethod := TextOrder(MethodName(a.Kind()), MethodName(b.Kind()));
            TextOrder(CoverageKey(a), CoverageKey(b)) ==
            if byMethod == 0 then TextOrder(ScopeText(a), ScopeText(b)) else byMethod
  {
    NamesDiffer(a.Kind(), b.Kind());
    NamesDiffer(b.Kind(), a.Kind());
    MarkedOrder(MethodName(a.Kind()), MethodName(b.Kind()), ScopeText(a), ScopeText(b));
  }
}
