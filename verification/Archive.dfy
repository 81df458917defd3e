// The portable archive of relay-contract/src/archive.js: a candidate snapshot, the matching
// blobs, an export time and a digest over their canonical text.
module Archive {
  import opened Wrappers
  import opened Text
  import opened Sorting
  import opened Numeral
  import opened Json
  import opened JsonParser
  import opened ObjectId
  import opened Scopes
  import opened Validation
  import opened ExportTime

  // SHA-256 of a text, as base64url. Nothing is assumed about it.
  const SHA256: Text -> Text

  const ARCHIVE_VERSION: Text := Ascii("fns.relay-archive.v1")

  const EXPORTED_AT: Text := Ascii("exportedAt")
  const CANDIDATE_SNAPSHOT: Text := Ascii("candidateSnapshot")
  const BLOBS: Text := Ascii("blobs")
  const DIGEST: Text := Ascii("digest")

  const ARCHIVE_KEYS: set<Text> := {VERSION, EXPORTED_AT, CANDIDATE_SNAPSHOT, BLOBS, DIGEST}

  datatype Archive = Archive(exportedAt: Text, snapshot: StoreExport, blobs: seq<Entry>, digest: Text)

  // digest
  function DigestOf(v: Json): Text {
    SHA256(Print(v))
  }

  // ----- Blobs -----

  predicate Matches(blob: Entry, expected: map<Text, Entry>) {
    blob.objectId in expected && Print(expected[blob.objectId].value) == Print(blob.value)
  }

  // normalizeBlobs: equal counts, and a candidate for each blob.
  function NormalizeBlobs(blobs: Json, candidates: seq<Entry>): Result<seq<Entry>>
    requires NormalEntries(candidates)
  {
    var expected := TableOf(candidates);
    match NormalizedCandidates(blobs)
    case Err(error) => Err(error)
    case Ok(normalized) =>
      if |normalized| != |candidates| then Err(RelayProtocol)
      else if forall i | 0 <= i < |normalized| :: Matches(normalized[i], expected) then Ok(normalized)
      else Err(RelayProtocol)
  }

  lemma MatchingBlob(blob: Entry, candidates: seq<Entry>)
    requires NormalEntries(candidates)
    ensures Matches(blob, TableOf(candidates)) <==> blob in candidates
  {
    hide IsCanonicalObjectId, Print, TextOrder;
    var expected := TableOf(candidates);
    if blob in candidates {
      var i :| 0 <= i < |candidates| && candidates[i] == blob;
      assert Ids(candidates)[i] == blob.objectId;
    }
    if blob.objectId in expected {
      var i :| 0 <= i < |candidates| && Ids(candidates)[i] == blob.objectId;
      assert expected[blob.objectId] == candidates[i];
      PrintInjective(candidates[i].value, blob.value);
    }
  }

  // Two sorted lists of one length, one held in the other, are the same list.
  lemma SameBlobs(a: seq<Entry>, b: seq<Entry>)
    requires NormalEntries(a) && NormalEntries(b) && |a| == |b|
    requires forall i | 0 <= i < |a| :: a[i] in b
    ensures a == b
  {
    hide IsCanonicalObjectId, TextOrder;
    var idsA, idsB := Elements(Ids(a)), Elements(Ids(b));
    forall id | id in idsA ensures id in idsB {
      var i :| 0 <= i < |a| && Ids(a)[i] == id;
      var j :| 0 <= j < |b| && b[j] == a[i];
      assert Ids(b)[j] == id;
    }
    SortedCardinality(Ids(a));
    SortedCardinality(Ids(b));
    SubsetOfSameSize(idsA, idsB);
    SortedUnique(Ids(a), Ids(b));
    StrictlySortedDistinct(Ids(b));
    forall i | 0 <= i < |a| ensures a[i] == b[i] {
      var j :| 0 <= j < |b| && b[j] == a[i];
      assert Ids(a)[i] == Ids(b)[i] && Ids(b)[j] == Ids(a)[i];
    }
  }

  lemma SortedCardinality(ks: seq<Text>)
    requires StrictlySorted(ks)
    ensures |Elements(ks)| == |ks|
  {
    SortedUnique(ks, SortedTexts(Elements(ks)));
  }

  lemma SubsetOfSameSize(a: set<Text>, b: set<Text>)
    requires a <= b && |a| == |b|
    ensures a == b
  {
    assert |b - a| == |b| - |a|;
    assert b == a + (b - a);
  }

  // Counting and matching suffice: the blobs are accepted exactly when, once normalised, they are
  // the candidates, id by id and representation by representation.
  lemma BlobsExactly(blobs: Json, candidates: seq<Entry>)
    requires NormalEntries(candidates)
    ensures NormalizeBlobs(blobs, candidates).Ok? <==> NormalizedCandidates(blobs) == Ok(candidates)
    ensures NormalizeBlobs(blobs, candidates).Ok? ==> NormalizeBlobs(blobs, candidates) == Ok(candidates)
  {
    if NormalizedCandidates(blobs).Ok? {
      var normalized := NormalizedCandidates(blobs).value;
      CandidatesNormal(blobs);
      forall i | 0 <= i < |normalized| ensures Matches(normalized[i], TableOf(candidates)) <==> normalized[i] in candidates {
        MatchingBlob(normalized[i], candidates);
      }
      if NormalizeBlobs(blobs, candidates).Ok? {
        SameBlobs(normalized, candidates);
      }
    }
  }

  // ----- Archives -----

  function UnsignedJson(exportedAt: Text, snapshot: StoreExport, blobs: seq<Entry>): Json {
    JObj(map[
      VERSION := JStr(ARCHIVE_VERSION),
      EXPORTED_AT := JStr(exportedAt),
      CANDIDATE_SNAPSHOT := StoreExportJson(snapshot),
      BLOBS := EntriesJson(blobs)])
  }

  function ArchiveJson(a: Archive): Json {
    JObj(UnsignedJson(a.exportedAt, a.snapshot, a.blobs).members[DIGEST := JStr(a.digest)])
  }

  function CreateRelayArchive(snapshot: Json, blobs: Json, exportedAt: Json): Result<Archive> {
    match NormalizeStoreExport(snapshot)
    case Err(error) => Err(error)
    case Ok(normalizedSnapshot) =>
      ExportNormal(snapshot);
      match NormalizeBlobs(blobs, normalizedSnapshot.entries)
      case Err(error) => Err(error)
      case Ok(normalizedBlobs) =>
        if !exportedAt.JStr? || !IsExportTime(exportedAt.text) then
          Err(RelayProtocol)
        else
          var unsigned := UnsignedJson(exportedAt.text, normalizedSnapshot, normalizedBlobs);
          Ok(Archive(exportedAt.text, normalizedSnapshot, normalizedBlobs, DigestOf(unsigned)))
  }

  // A missing member reads as undefined, which every check that follows rejects as it does null.
  function Member(v: Json, key: Text): Json
    requires v.JObj?
  {
    if key in v.members then v.members[key] else JNull
  }

  function VerifyRelayArchive(v: Json): Result<Archive> {
    if !v.JObj? || !(v.members.Keys <= ARCHIVE_KEYS) then Err(RelayProtocol)
    else if TextMember(v, VERSION) != Some(ARCHIVE_VERSION) then Err(RelayProtocol)
    else
      match CreateRelayArchive(Member(v, CANDIDATE_SNAPSHOT), Member(v, BLOBS), Member(v, EXPORTED_AT))
      case Err(error) => Err(error)
      case Ok(normalized) => if TextMember(v, DIGEST) == Some(normalized.digest) then Ok(normalized) else Err(RelayProtocol)
  }

  // ----- The archive normal form -----

  // The archives there are: a normal snapshot, its own candidates as blobs, a real export time,
  // and the digest of all that.
  predicate NormalArchive(a: Archive) {
    && NormalExport(a.snapshot)
    && a.blobs == a.snapshot.entries
    && IsExportTime(a.exportedAt)
    && a.digest == DigestOf(UnsignedJson(a.exportedAt, a.snapshot, a.blobs))
  }

  lemma ArchiveKeysDiffer()
    ensures VERSION != EXPORTED_AT && VERSION != CANDIDATE_SNAPSHOT && VERSION != BLOBS && VERSION != DIGEST
    ensures EXPORTED_AT != CANDIDATE_SNAPSHOT && EXPORTED_AT != BLOBS && EXPORTED_AT != DIGEST
    ensures CANDIDATE_SNAPSHOT != BLOBS && CANDIDATE_SNAPSHOT != DIGEST && BLOBS != DIGEST
  {
    assert |VERSION| == 7 && |EXPORTED_AT| == 10 && |CANDIDATE_SNAPSHOT| == 17 && |BLOBS| == 5 && |DIGEST| == 6;
  }

  // Creating yields a normal archive and succeeds exactly when the snapshot is well-formed, the
  // blobs are its candidates and the time is real.
  lemma CreateNormal(snapshot: Json, blobs: Json, exportedAt: Json)
    ensures var r := CreateRelayArchive(snapshot, blobs, exportedAt);
            var x := NormalizeStoreExport(snapshot);
            && (r.Ok? ==> NormalArchive(r.value) && x == Ok(r.value.snapshot) && exportedAt == JStr(r.value.exportedAt))
            && (r.Ok? <==> x.Ok? && NormalizedCandidates(blobs) == Ok(x.value.entries) &&
                           exportedAt.JStr? && IsExportTime(exportedAt.text))
  {
    hide NormalizeStoreExport, NormalizedCandidates, NormalizeBlobs, NormalEntries, NormalCoverage, IsExportTime, DigestOf,
         UnsignedJson;
    var x := NormalizeStoreExport(snapshot);
    if x.Ok? {
      ExportNormal(snapshot);
      BlobsExactly(blobs, x.value.entries);
    }
  }

  lemma ArchiveMembers(a: Archive)
    ensures var members := ArchiveJson(a).members;
            && members.Keys == ARCHIVE_KEYS
            && members[VERSION] == JStr(ARCHIVE_VERSION) && members[EXPORTED_AT] == JStr(a.exportedAt)
            && members[CANDIDATE_SNAPSHOT] == StoreExportJson(a.snapshot) && members[BLOBS] == EntriesJson(a.blobs)
            && members[DIGEST] == JStr(a.digest)
  {
    ArchiveKeysDiffer();
  }

  // The verifier, one check at a time.
  lemma VerifyMembers(v: Json, a: Archive)
    requires v.JObj? && v.members.Keys <= ARCHIVE_KEYS && TextMember(v, VERSION) == Some(ARCHIVE_VERSION)
    requires CreateRelayArchive(Member(v, CANDIDATE_SNAPSHOT), Member(v, BLOBS), Member(v, EXPORTED_AT)) == Ok(a)
    requires TextMember(v, DIGEST) == Some(a.digest)
    ensures VerifyRelayArchive(v) == Ok(a)
  {
    hide CreateRelayArchive, TextMember, Member, ARCHIVE_KEYS;
  }

  // A normal archive is created again from its own parts.
  lemma CreateOwn(a: Archive)
    requires NormalArchive(a)
    ensures CreateRelayArchive(StoreExportJson(a.snapshot), EntriesJson(a.blobs), JStr(a.exportedAt)) == Ok(a)
  {
    hide StoreExportJson, EntriesJson, NormalizeStoreExport, NormalizedCandidates, CreateRelayArchive, DigestOf,
         UnsignedJson, NormalEntries, NormalCoverage, IsExportTime;
    ExportIdempotent(a.snapshot);
    CandidatesIdempotent(a.blobs);
    CreateNormal(StoreExportJson(a.snapshot), EntriesJson(a.blobs), JStr(a.exportedAt));
  }

  // Every normal archive verifies and comes back unchanged; what verifies is normal. Together with
  // CreateNormal: verification accepts every archive that creation produces, and a second round
  // changes nothing.
  lemma VerifyOwn(a: Archive)
    requires NormalArchive(a)
    ensures VerifyRelayArchive(ArchiveJson(a)) == Ok(a)
  {
    var v := ArchiveJson(a);
    assert v.JObj?;
    hide ArchiveJson, StoreExportJson, EntriesJson, CreateRelayArchive, VerifyRelayArchive, NormalArchive, ARCHIVE_KEYS,
         VERSION, DIGEST, ARCHIVE_VERSION, EXPORTED_AT, CANDIDATE_SNAPSHOT, BLOBS;
    ArchiveMembers(a);
    CreateOwn(a);
    assert Member(v, CANDIDATE_SNAPSHOT) == StoreExportJson(a.snapshot) && Member(v, BLOBS) == EntriesJson(a.blobs);
    VerifyMembers(v, a);
  }

  lemma VerifiedIsNormal(v: Json)
    requires VerifyRelayArchive(v).Ok?
    ensures NormalArchive(VerifyRelayArchive(v).value)
  {
    CreateNormal(Member(v, CANDIDATE_SNAPSHOT), Member(v, BLOBS), Member(v, EXPORTED_AT));
  }

  // ----- What verifies -----

  // The archive a value presents: the five members and no others, this version, an export time, a
  // snapshot and blobs that read as the archive's, and the digest of the archive's own content.
  predicate Presents(v: Json, a: Archive) {
    && NormalArchive(a)
    && v.JObj? && v.members.Keys == ARCHIVE_KEYS
    && HasMember(v, VERSION, JStr(ARCHIVE_VERSION)) && HasMember(v, EXPORTED_AT, JStr(a.exportedAt))
    && NormalizeStoreExport(Member(v, CANDIDATE_SNAPSHOT)) == Ok(a.snapshot)
    && NormalizedCandidates(Member(v, BLOBS)) == Ok(a.blobs)
    && HasMember(v, DIGEST, JStr(a.digest))
  }

  lemma MissingNotNormalized()
    ensures NormalizeStoreExport(JNull).Err? && NormalizedCandidates(JNull).Err?
  {
  }

  lemma AllKeys(keys: set<Text>)
    requires keys <= ARCHIVE_KEYS
    ensures keys == ARCHIVE_KEYS <==>
            VERSION in keys && EXPORTED_AT in keys && CANDIDATE_SNAPSHOT in keys && BLOBS in keys && DIGEST in keys
  {
    hide VERSION, EXPORTED_AT, CANDIDATE_SNAPSHOT, BLOBS, DIGEST;
  }

  // Verification accepts exactly the values that present an archive, and gives that archive.
  lemma VerifyExactly(v: Json, a: Archive)
    ensures VerifyRelayArchive(v) == Ok(a) <==> Presents(v, a)
  {
    hide CreateRelayArchive, NormalizeStoreExport, NormalizedCandidates, DigestOf, UnsignedJson, NormalExport, IsExportTime,
         ARCHIVE_VERSION, ARCHIVE_KEYS, VERSION, EXPORTED_AT, CANDIDATE_SNAPSHOT, BLOBS, DIGEST;
    if v.JObj? {
      CreateNormal(Member(v, CANDIDATE_SNAPSHOT), Member(v, BLOBS), Member(v, EXPORTED_AT));
      MissingNotNormalized();
      if v.members.Keys <= ARCHIVE_KEYS {
        AllKeys(v.members.Keys);
      }
    }
  }

  lemma CreateFails(snapshot: Json, blobs: Json, exportedAt: Json)
    ensures CreateRelayArchive(snapshot, blobs, exportedAt).Err? ==>
              CreateRelayArchive(snapshot, blobs, exportedAt) == Err(RelayProtocol)
  {
    hide NormalizedCoverage, Matches, IsExportTime, TableOf;
  }

  lemma VerifyFails(v: Json)
    ensures VerifyRelayArchive(v).Err? ==> VerifyRelayArchive(v) == Err(RelayProtocol)
  {
    hide CreateRelayArchive;
    if v.JObj? {
      CreateFails(Member(v, CANDIDATE_SNAPSHOT), Member(v, BLOBS), Member(v, EXPORTED_AT));
    }
  }

  // What a normal archive under some digest presents is the archive itself, and the digest is its own.
  lemma PresentedSame(a: Archive, digest: Text, b: Archive)
    requires NormalArchive(a) && Presents(ArchiveJson(a.(digest := digest)), b)
    ensures b == a && digest == a.digest
  {
    ArchiveMembers(a.(digest := digest));
    AllKeys(ArchiveJson(a.(digest := digest)).members.Keys);
    hide ArchiveJson, NormalizeStoreExport, NormalizedCandidates, StoreExportJson, EntriesJson, DigestOf, UnsignedJson,
         NormalEntries, NormalCoverage, IsExportTime, ARCHIVE_VERSION, ARCHIVE_KEYS, VERSION, EXPORTED_AT,
         CANDIDATE_SNAPSHOT, BLOBS, DIGEST;
    ExportIdempotent(a.snapshot);
  }

  // A normal archive with another digest put in its place is refused.
  lemma VerifyDigest(a: Archive, digest: Text)
    requires NormalArchive(a)
    ensures VerifyRelayArchive(ArchiveJson(a.(digest := digest))) == if digest == a.digest then Ok(a) else Err(RelayProtocol)
  {
    hide ArchiveJson, VerifyRelayArchive, NormalArchive, Presents;
    var v := ArchiveJson(a.(digest := digest));
    VerifyFails(v);
    if digest == a.digest {
      VerifyOwn(a);
    } else if VerifyRelayArchive(v).Ok? {
      VerifyExactly(v, VerifyRelayArchive(v).value);
      PresentedSame(a, digest, VerifyRelayArchive(v).value);
    }
  }

  function UnsignedText(a: Archive): Text {
    Print(UnsignedJson(a.exportedAt, a.snapshot, a.blobs))
  }

  // The text a digest is taken of determines the archive.
  lemma UnsignedInjective(a: Archive, b: Archive)
    requires NormalArchive(a) && NormalArchive(b) && UnsignedText(a) == UnsignedText(b)
    ensures a == b
  {
    PrintInjective(UnsignedJson(a.exportedAt, a.snapshot, a.blobs), UnsignedJson(b.exportedAt, b.snapshot, b.blobs));
    UnsignedMembers(a);
    UnsignedMembers(b);
    hide UnsignedJson, NormalExport, NormalizeStoreExport, StoreExportJson, EntriesJson, DigestOf, IsExportTime;
    ExportIdempotent(a.snapshot);
    ExportIdempotent(b.snapshot);
  }

  lemma UnsignedMembers(a: Archive)
    ensures var v := UnsignedJson(a.exportedAt, a.snapshot, a.blobs);
            HasMember(v, EXPORTED_AT, JStr(a.exportedAt)) && HasMember(v, CANDIDATE_SNAPSHOT, StoreExportJson(a.snapshot))
  {
    ArchiveKeysDiffer();
  }

  // The content of one archive under the digest of another verifies exactly when SHA-256 does not
  // tell the two texts apart; so without such a collision it is the same archive.
  lemma ForeignDigest(a: Archive, b: Archive)
    requires NormalArchive(a) && NormalArchive(b)
    ensures var accepted := VerifyRelayArchive(ArchiveJson(b.(digest := a.digest))).Ok?;
            && (accepted <==> SHA256(UnsignedText(a)) == SHA256(UnsignedText(b)))
            && (accepted && (SHA256(UnsignedText(a)) == SHA256(UnsignedText(b)) ==> UnsignedText(a) == UnsignedText(b)) ==>
                  a == b)
  {
    VerifyDigest(b, a.digest);
    hide VerifyRelayArchive, ArchiveJson, UnsignedJson, NormalExport, IsExportTime;
    if UnsignedText(a) == UnsignedText(b) {
      UnsignedInjective(a, b);
    }
  }

  // A value with a member missing or one too many, of another version, or with a digest that is not
  // a string is refused.
  lemma VerifyRefuses(v: Json)
    requires !v.JObj? || v.members.Keys != ARCHIVE_KEYS || !HasMember(v, VERSION, JStr(ARCHIVE_VERSION)) ||
             !Member(v, EXPORTED_AT).JStr? || !Member(v, DIGEST).JStr?
    ensures VerifyRelayArchive(v) == Err(RelayProtocol)
  {
    hide VerifyRelayArchive, NormalArchive, NormalizeStoreExport, NormalizedCandidates, ARCHIVE_VERSION, ARCHIVE_KEYS,
         VERSION, EXPORTED_AT, CANDIDATE_SNAPSHOT, BLOBS, DIGEST;
    if VerifyRelayArchive(v).Ok? {
      VerifyExactly(v, VerifyRelayArchive(v).value);
    }
    VerifyFails(v);
  }

  // ----- Snapshots and blobs that read alike -----

  // Snapshots whose entries and coverage read as the same ones, with the other members equal.
  ghost predicate SameSnapshot(v: Json, w: Json) {
    && v.JObj? && w.JObj?
    && Field(v, VERSION) == Field(w, VERSION) && Field(v, SOURCE) == Field(w, SOURCE)
    && Field(v, SNAPSHOT) == Field(w, SNAPSHOT) && Field(v, DATA_REVISION) == Field(w, DATA_REVISION)
    && SameLists(Field(v, ENTRIES), Field(w, ENTRIES), SameCandidates)
    && SameLists(Field(v, COVERAGE), Field(w, COVERAGE), SameDeclarations)
  }

  function Field(v: Json, key: Text): Option<Json>
    requires v.JObj?
  {
    if key in v.members then Some(v.members[key]) else None
  }

  // Equal, or both of them lists that read alike.
  ghost predicate SameLists(v: Option<Json>, w: Option<Json>, alike: (seq<Json>, seq<Json>) -> bool) {
    v == w || (v.Some? && w.Some? && v.value.JArr? && w.value.JArr? && alike(v.value.items, w.value.items))
  }

  lemma SameListsNormalized(v: Option<Json>, w: Option<Json>)
    ensures SameLists(v, w, SameCandidates) ==>
              (v.Some? <==> w.Some?) && (v.Some? ==> NormalizedCandidates(v.value) == NormalizedCandidates(w.value))
    ensures SameLists(v, w, SameDeclarations) ==>
              (v.Some? <==> w.Some?) && (v.Some? ==> NormalizedCoverage(v.value) == NormalizedCoverage(w.value))
  {
    hide SameCandidates, SameDeclarations, NormalizedCandidates, NormalizedCoverage;
    if v.Some? && w.Some? && v.value.JArr? && w.value.JArr? {
      assert v.value == JArr(v.value.items) && w.value == JArr(w.value.items);
      if SameCandidates(v.value.items, w.value.items) {
        CandidatesOfSet(v.value.items, w.value.items);
      }
      if SameDeclarations(v.value.items, w.value.items) {
        CoverageOfSet(v.value.items, w.value.items);
      }
    }
  }

  lemma SameSnapshotNormalized(v: Json, w: Json)
    requires SameSnapshot(v, w)
    ensures NormalizeStoreExport(v) == NormalizeStoreExport(w)
  {
    hide NormalizedCandidates, NormalizedCoverage, SameLists, SafeInteger;
    SameListsNormalized(Field(v, ENTRIES), Field(w, ENTRIES));
    SameListsNormalized(Field(v, COVERAGE), Field(w, COVERAGE));
  }

  lemma SameBlobsNormalized(v: Json, blobs: Json, others: Json)
    requires NormalizedCandidates(blobs) == NormalizedCandidates(others)
    ensures NormalizeStoreExport(v).Ok? ==>
              NormalEntries(NormalizeStoreExport(v).value.entries) &&
              NormalizeBlobs(blobs, NormalizeStoreExport(v).value.entries) ==
              NormalizeBlobs(others, NormalizeStoreExport(v).value.entries)
  {
    if NormalizeStoreExport(v).Ok? {
      ExportNormal(v);
    }
  }

  // Snapshots and blobs that read as the same ones give the same archive, its digest included,
  // whatever the order, the repetition and the spelling of entries, coverage and blobs.
  lemma CreateOfSet(v: Json, w: Json, blobs: seq<Json>, others: seq<Json>, exportedAt: Json)
    requires SameSnapshot(v, w) && SameCandidates(blobs, others)
    ensures CreateRelayArchive(v, JArr(blobs), exportedAt) == CreateRelayArchive(w, JArr(others), exportedAt)
  {
    hide NormalizeStoreExport, NormalizeBlobs, NormalizedCandidates, SameSnapshot, SameCandidates, UnsignedJson, DigestOf,
         IsExportTime, NormalEntries;
    SameSnapshotNormalized(v, w);
    CandidatesOfSet(blobs, others);
    SameBlobsNormalized(v, JArr(blobs), JArr(others));
  }
}
