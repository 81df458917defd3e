// The write-once blob directory (relay-local/src/filesystem-blob-store.js): one file for each
// ObjectId with the UTF-8 form of its canonical text, next to private temporary files.
module BlobStore {
  import opened Wrappers
  import opened Text
  import opened Utf8
  import opened Sorting
  import opened Json
  import opened JsonParser
  import opened ObjectId
  import opened Validation

  // File names and what the files hold.
  type Directory = map<Text, seq<int>>

  // ----- File names -----

  const JSON_SUFFIX: Text := Ascii(".json")
  const TEMP_SUFFIX: Text := Ascii(".tmp")

  // digestFor
  function DigestPart(id: Text): Text {
    if |PREFIX| <= |id| then id[|PREFIX|..] else []
  }

  function FileName(id: Text): Text {
    DigestPart(id) + JSON_SUFFIX
  }

  // The name of a temporary file; its last part is random.
  function TempName(id: Text, nonce: Text): Text {
    [DOT] + DigestPart(id) + [DOT] + nonce + TEMP_SUFFIX
  }

  // The regular expression BLOB_FILE.
  predicate IsBlobName(name: Text) {
    && |name| == DIGEST_LETTERS + |JSON_SUFFIX|
    && (forall i | 0 <= i < DIGEST_LETTERS :: Base64Url.IsLetter(name[i]))
    && name[DIGEST_LETTERS..] == JSON_SUFFIX
  }

  // Different ids have different files, and no temporary file is taken for a blob.
  lemma FileNames(id: Text, other: Text, nonce: Text)
    requires IsCanonicalObjectId(id) && IsCanonicalObjectId(other)
    ensures IsBlobName(FileName(id))
    ensures FileName(id) == FileName(other) <==> id == other
    ensures !IsBlobName(TempName(id, nonce))
  {
    var digest := DigestPart(id);
    assert FileName(id)[DIGEST_LETTERS..] == JSON_SUFFIX;
    forall i | 0 <= i < DIGEST_LETTERS ensures Base64Url.IsLetter(FileName(id)[i]) {
      assert digest[i] in id[|PREFIX|..];
    }
    if FileName(id) == FileName(other) {
      assert FileName(id)[..DIGEST_LETTERS] == digest && FileName(other)[..DIGEST_LETTERS] == DigestPart(other);
      assert id == PREFIX + digest && other == PREFIX + DigestPart(other);
    }
    assert TempName(id, nonce)[0] == DOT;
  }

  // ----- What a blob file holds -----

  function FileOctets(v: Json): (b: seq<int>)
    ensures b != []
  {
    PrintStart(v);
    assert Print(v) != [];
    Utf8.Encode(Print(v))
  }

  lemma FileTextReadsBack(v: Json)
    ensures Utf8.Decode(FileOctets(v)) == Print(v)
  {
    EncodeDecode(Print(v));
    PrintWellFormed(v);
    SurvivesUtf8(Print(v));
  }

  lemma FileOctetsInjective(v: Json, w: Json)
    ensures FileOctets(v) == FileOctets(w) <==> v == w
  {
    hide Print, FileOctets;
    FileTextReadsBack(v);
    FileTextReadsBack(w);
    PrintInjective(v, w);
  }

  // #read: nothing, the object, or an error for a file that is not canonical JSON.
  function ReadBlob(files: Directory, id: Text): Result<Option<Json>> {
    if FileName(id) !in files then Ok(None)
    else
      var representation := Utf8.Decode(files[FileName(id)]);
      match Parse(representation)
      case None => Err(StoreIntegrity)
      case Some(v) => if Print(v) != representation then Err(StoreIntegrity) else Ok(Some(v))
  }

  // The file of an id holds this object.
  predicate Stored(files: Directory, id: Text, v: Json) {
    FileName(id) in files && files[FileName(id)] == FileOctets(v)
  }

  predicate AllStored(files: Directory, es: seq<Entry>) {
    forall i | 0 <= i < |es| :: Stored(files, es[i].objectId, es[i].value)
  }

  lemma ReadStored(files: Directory, id: Text, v: Json)
    requires Stored(files, id, v)
    ensures ReadBlob(files, id) == Ok(Some(v))
  {
    hide Print;
    FileTextReadsBack(v);
    PrintParse(v);
  }

  // A blob is absent without its file, and an object exactly if the file decodes to its canonical text;
  // any other file is an integrity error.
  lemma ReadBlobExactly(files: Directory, id: Text, v: Json)
    ensures ReadBlob(files, id) == Ok(None) <==> FileName(id) !in files
    ensures ReadBlob(files, id) == Ok(Some(v)) <==> FileName(id) in files && Utf8.Decode(files[FileName(id)]) == Print(v)
    ensures ReadBlob(files, id).Err? ==> ReadBlob(files, id) == Err(StoreIntegrity)
  {
    hide FileName, Print, Parse, Utf8.Decode;
    PrintParse(v);
  }

  lemma StoredOnce(files: Directory, id: Text, v: Json, w: Json)
    requires Stored(files, id, v) && Stored(files, id, w)
    ensures v == w
  {
    hide FileOctets;
    FileOctetsInjective(v, w);
  }

  // Every visible blob is the whole canonical text of some object: none is partial.
  ghost predicate Whole(octets: seq<int>) {
    exists v :: octets == FileOctets(v)
  }

  ghost predicate AllWhole(files: Directory) {
    forall name | name in files && IsBlobName(name) :: Whole(files[name])
  }

  // Blobs, once visible, stay as they are.
  predicate KeepsBlobs(before: Directory, after: Directory) {
    forall name | name in before && IsBlobName(name) :: name in after && after[name] == before[name]
  }

  lemma StoredKept(before: Directory, after: Directory, id: Text, v: Json)
    requires KeepsBlobs(before, after) && IsCanonicalObjectId(id) && Stored(before, id, v)
    ensures Stored(after, id, v)
  {
    hide IsBlobName, FileName, FileOctets, IsCanonicalObjectId;
    FileNames(id, id, []);
  }

  lemma KeepsBlobsTransitive(a: Directory, b: Directory, c: Directory)
    requires KeepsBlobs(a, b) && KeepsBlobs(b, c)
    ensures KeepsBlobs(a, c)
  {
    hide IsBlobName;
  }

  // What a whole blob holds.
  lemma WholeIsStored(files: Directory, id: Text)
    requires AllWhole(files) && IsCanonicalObjectId(id) && FileName(id) in files
    ensures exists v :: Stored(files, id, v)
    ensures ReadBlob(files, id).Ok? && ReadBlob(files, id).value.Some? && Stored(files, id, ReadBlob(files, id).value.value)
  {
    hide IsBlobName, FileName, FileOctets, IsCanonicalObjectId, ReadBlob;
    FileNames(id, id, []);
    var v :| files[FileName(id)] == FileOctets(v);
    ReadStored(files, id, v);
  }

  // The comparison of putIfAbsent.
  lemma SameRepresentation(files: Directory, e: Entry)
    requires AllWhole(files) && IsCanonicalObjectId(e.objectId) && FileName(e.objectId) in files
    ensures ReadBlob(files, e.objectId).Ok? && ReadBlob(files, e.objectId).value.Some?
    ensures Print(ReadBlob(files, e.objectId).value.value) == Print(e.value) <==> Stored(files, e.objectId, e.value)
  {
    hide IsBlobName, FileName, FileOctets, IsCanonicalObjectId, ReadBlob, Print, AllWhole, Stored;
    WholeIsStored(files, e.objectId);
    var v := ReadBlob(files, e.objectId).value.value;
    PrintInjective(v, e.value);
    if Stored(files, e.objectId, e.value) {
      StoredOnce(files, e.objectId, v, e.value);
    }
  }

  // ----- The store as an object -----

  // What other processes link meanwhile: blobs, under names of blobs.
  predicate OnlyBlobs(meanwhile: Directory) {
    forall name | name in meanwhile :: IsBlobName(name)
  }

  // The directory after others have linked their blobs: link never replaces a file.
  function WithForeign(files: Directory, meanwhile: Directory): Directory {
    meanwhile + files
  }

  // The directory after a put: the file is the first representation linked under the id.
  function AfterPut(files: Directory, e: Entry): Directory {
    if FileName(e.objectId) in files then files else files[FileName(e.objectId) := FileOctets(e.value)]
  }

  // The outcome of a put, by the file that is there in the end.
  function PutResult(files: Directory, e: Entry): Result<Entry> {
    match ReadBlob(files, e.objectId)
    case Err(error) => Err(error)
    case Ok(None) => Err(StoreIntegrity)
    case Ok(Some(v)) => if Print(v) == Print(e.value) then Ok(e) else Err(StoreIntegrity)
  }

  // A blob that is there already decides the put.
  lemma EarlyAnswer(files: Directory, e: Entry)
    ensures match ReadBlob(files, e.objectId)
            case Err(error) => PutResult(files, e) == Err(error)
            case Ok(None) => true
            case Ok(Some(v)) =>
              PutResult(files, e) == if Print(v) == Print(e.value) then Ok(Entry(e.objectId, v)) else Err(StoreIntegrity)
  {
    hide ReadBlob, Print;
    if ReadBlob(files, e.objectId).Ok? && ReadBlob(files, e.objectId).value.Some? {
      PrintInjective(ReadBlob(files, e.objectId).value.value, e.value);
    }
  }

  lemma KeepsItself(files: Directory)
    ensures KeepsBlobs(files, files)
  {
  }

  // A put succeeds exactly when the file of the id holds its representation.
  lemma PutSucceeds(files: Directory, e: Entry)
    requires AllWhole(files) && IsCanonicalObjectId(e.objectId)
    ensures PutResult(files, e) == if Stored(files, e.objectId, e.value) then Ok(e) else Err(StoreIntegrity)
  {
    hide IsBlobName, FileOctets, IsCanonicalObjectId, Print, AllWhole, Parse, Utf8.Decode;
    if FileName(e.objectId) in files {
      SameRepresentation(files, e);
    }
  }

  lemma AfterPutKeeps(files: Directory, e: Entry)
    requires IsCanonicalObjectId(e.objectId)
    ensures KeepsBlobs(files, AfterPut(files, e)) && (AllWhole(files) ==> AllWhole(AfterPut(files, e)))
    ensures FileName(e.objectId) !in files ==> Stored(AfterPut(files, e), e.objectId, e.value)
    ensures FileName(e.objectId) !in files ==> PutResult(AfterPut(files, e), e) == Ok(e)
  {
    hide IsBlobName, FileName, FileOctets, IsCanonicalObjectId, ReadBlob;
    assert Whole(FileOctets(e.value));
    if FileName(e.objectId) !in files {
      ReadStored(AfterPut(files, e), e.objectId, e.value);
    }
  }

  lemma ForeignKeeps(files: Directory, meanwhile: Directory)
    ensures KeepsBlobs(files, WithForeign(files, meanwhile))
    ensures AllWhole(files) && AllWhole(meanwhile) ==> AllWhole(WithForeign(files, meanwhile))
  {
    hide IsBlobName, Whole;
  }

  class FileSystemBlobStore {
    const readonly: bool
    var files: Directory

    constructor (files: Directory, readonly: bool)
      ensures this.files == files && this.readonly == readonly
    {
      this.files := files;
      this.readonly := readonly;
    }

    // putIfAbsent. `meanwhile` is what other processes link between the first read and the link;
    // `nonce` is the random part that makes the temporary name a new one.
    method PutIfAbsent(value: Json, nonce: Text, meanwhile: Directory) returns (r: Result<Entry>)
      requires OnlyBlobs(meanwhile)
      requires ReadEntry(value).Some? ==> TempName(ReadEntry(value).value.objectId, nonce) !in files
      modifies this`files
      ensures readonly ==> r == Err(StoreAccess) && files == old(files)
      ensures !readonly ==>
                match ReadEntry(value)
                case None => r == Err(RelayProtocol) && files == old(files)
                case Some(e) =>
                  && r == PutResult(files, e)
                  && (FileName(e.objectId) in old(files) ==> files == old(files))
                  && (FileName(e.objectId) !in old(files) ==> files == AfterPut(WithForeign(old(files), meanwhile), e))
      ensures KeepsBlobs(old(files), files) && (AllWhole(old(files)) && AllWhole(meanwhile) ==> AllWhole(files))
    {
      if readonly {
        return Err(StoreAccess);
      }
      var read := ReadEntry(value);
      if read.None? {
        return Err(RelayProtocol);
      }
      hide IsBlobName, FileName, TempName, FileOctets, IsCanonicalObjectId, ReadBlob, AllWhole, Print, KeepsBlobs,
           Stored, PutResult, AfterPut, WithForeign, OnlyBlobs;
      var e := read.value;
      AbsentIsNone(files, e.objectId);
      KeepsItself(files);
      EarlyAnswer(files, e);
      var existing := ReadBlob(files, e.objectId);
      if existing.Err? {
        return Err(existing.error);
      }
      if existing.value.Some? {
        if Print(existing.value.value) != Print(e.value) {
          return Err(StoreIntegrity);
        }
        return Ok(Entry(e.objectId, existing.value.value));
      }
      r := LinkNew(e, nonce, meanwhile);
      ghost var linked := WithForeign(old(files), meanwhile);
      ForeignKeeps(old(files), meanwhile);
      AfterPutKeeps(linked, e);
      KeepsBlobsTransitive(old(files), linked, files);
    }

    // The rest of putIfAbsent, once the first read has found nothing: write a temporary file, link
    // it under the blob's name, compare with what is there when the name is taken, and unlink it.
    method LinkNew(e: Entry, nonce: Text, meanwhile: Directory) returns (r: Result<Entry>)
      requires OnlyBlobs(meanwhile) && IsCanonicalObjectId(e.objectId) && TempName(e.objectId, nonce) !in files
      modifies this`files
      ensures files == AfterPut(WithForeign(old(files), meanwhile), e)
      ensures r == PutResult(files, e)
    {
      hide IsBlobName, FileName, TempName, FileOctets, IsCanonicalObjectId, ReadBlob, Print, WithForeign, AfterPut;
      var target, temporary := FileName(e.objectId), TempName(e.objectId, nonce);
      FileNames(e.objectId, e.objectId, nonce);
      ghost var linked := WithForeign(files, meanwhile);
      var octets := FileOctets(e.value);
      AfterPutKeeps(linked, e);
      TemporaryApart(files, meanwhile, e, temporary, octets);
      files := files[temporary := octets];
      files := WithForeign(files, meanwhile);
      if target !in files {
        files := files[target := files[temporary]];
        r := Ok(e);
      } else {
        OtherFile(linked, temporary, octets, e.objectId);
        AbsentIsNone(linked, e.objectId);
        var concurrent := ReadBlob(files, e.objectId);
        if concurrent.Err? {
          r := Err(concurrent.error);
        } else if concurrent.value.None? || Print(concurrent.value.value) != Print(e.value) {
          r := Err(StoreIntegrity);
        } else {
          r := Ok(e);
        }
      }
      files := files - {temporary};
    }

    // The put of one blob that is already in normal form. No new temporary file remains.
    method PutBlob(blob: Entry, nonce: Text, meanwhile: Directory) returns (r: Result<Entry>)
      requires !readonly && OnlyBlobs(meanwhile)
      requires IsCanonicalObjectId(blob.objectId) && TempName(blob.objectId, nonce) !in files
      modifies this`files
      ensures r == PutResult(files, blob)
      ensures KeepsBlobs(old(files), files) && (AllWhole(old(files)) && AllWhole(meanwhile) ==> AllWhole(files))
      ensures forall name | name in files && !IsBlobName(name) :: name in old(files)
    {
      hide IsBlobName, TempName, ReadBlob, AllWhole, Print, KeepsBlobs, Stored, PutResult;
      ReadEntryJson(blob);
      OnlyBlobsAdded(old(files), meanwhile, blob);
      r := PutIfAbsent(EntryJson(blob), nonce, meanwhile);
    }

    // restoreBlobs: one put after another. `meanwhile` gives what others link during each of them.
    method RestoreBlobs(blobs: Json, nonce: Text -> Text, meanwhile: seq<Directory>) returns (r: Result<nat>)
      requires forall i | 0 <= i < |meanwhile| :: OnlyBlobs(meanwhile[i])
      requires NormalizedCandidates(blobs).Ok? ==> NoncesNew(files, NormalizedCandidates(blobs).value, nonce)
      modifies this`files
      ensures KeepsBlobs(old(files), files)
      ensures AllWhole(old(files)) && (forall i | 0 <= i < |meanwhile| :: AllWhole(meanwhile[i])) ==> AllWhole(files)
      ensures match NormalizedCandidates(blobs)
              case Err(error) => r == Err(error) && files == old(files)
              case Ok(es) =>
                if es == [] then r == Ok(0) && files == old(files)
                else if readonly then r == Err(StoreAccess) && files == old(files)
                else r == if AllPut(files, es) then Ok(|es|) else Err(StoreIntegrity)
    {
      SameFiles(files);
      var normalized := NormalizeCandidates(blobs);
      if normalized.Err? {
        return Err(normalized.error);
      }
      CandidatesNormal(blobs);
      NormalBlobs(normalized.value);
      if normalized.value == [] {
        return Ok(0);
      }
      if readonly {
        return Err(StoreAccess);
      }
      r := PutAllBlobs(normalized.value, nonce, meanwhile);
    }

    method PutAllBlobs(blobs: seq<Entry>, nonce: Text -> Text, meanwhile: seq<Directory>) returns (r: Result<nat>)
      requires !readonly && NoncesNew(files, blobs, nonce)
      requires forall i | 0 <= i < |blobs| :: IsCanonicalObjectId(blobs[i].objectId)
      requires forall i | 0 <= i < |meanwhile| :: OnlyBlobs(meanwhile[i])
      modifies this`files
      ensures KeepsBlobs(old(files), files)
      ensures AllWhole(old(files)) && (forall i | 0 <= i < |meanwhile| :: AllWhole(meanwhile[i])) ==> AllWhole(files)
      ensures r == if AllPut(files, blobs) then Ok(|blobs|) else Err(StoreIntegrity)
    {
      hide IsBlobName, AllWhole, KeepsBlobs, PutResult, NoncesNew, IsCanonicalObjectId, TempName, OnlyBlobs;
      SameFiles(files);
      var i := 0;
      while i < |blobs|
        invariant 0 <= i <= |blobs|
        invariant KeepsBlobs(old(files), files)
        invariant AllWhole(old(files)) && (forall k | 0 <= k < |meanwhile| :: AllWhole(meanwhile[k])) ==> AllWhole(files)
        invariant AllPut(files, blobs[..i])
        invariant NoncesNew(files, blobs, nonce)
      {
        var blob := blobs[i];
        var others := Others(meanwhile, i);
        NonceNew(files, blobs, nonce, i);
        ghost var before := files;
        var put := PutBlob(blob, nonce(blob.objectId), others);
        KeepsBlobsTransitive(old(files), before, files);
        if put.Err? {
          NotAllPut(files, blobs, i);
          PutFails(files, blob);
          return Err(put.error);
        }
        NoncesStayNew(before, files, blobs, nonce);
        StillPut(before, files, blobs[..i]);
        assert blobs[..i + 1] == blobs[..i] + [blob];
        i := i + 1;
      }
      assert blobs[..i] == blobs;
      return Ok(|blobs|);
    }

    // exportBlobs for a list of ids: each of them once, in order.
    method ExportBlobs(objectIds: seq<Text>) returns (r: Result<seq<Entry>>)
      ensures r == if exists id :: id in objectIds && !IsCanonicalObjectId(id) then Err(InvalidRequest)
                   else Exported(files, SortedTexts(Elements(objectIds)))
    {
      hide IsCanonicalObjectId, SortedTexts, Exported;
      var ids := SortedTexts(Elements(objectIds));
      assert forall id :: id in ids <==> id in Elements(ids);
      if exists id :: id in ids && !IsCanonicalObjectId(id) {
        return Err(InvalidRequest);
      }
      r := ReadInOrder(ids);
    }

    method ReadInOrder(ids: seq<Text>) returns (r: Result<seq<Entry>>)
      ensures r == Exported(files, ids)
    {
      hide ReadBlob;
      var blobs: seq<Entry> := [];
      var i := 0;
      assert ids[..0] == [];
      while i < |ids|
        invariant 0 <= i <= |ids|
        invariant Exported(files, ids[..i]) == Ok(blobs)
      {
        assert ids[..i + 1][..i] == ids[..i];
        ExportedPrefix(files, ids, i + 1);
        var blob := ReadBlob(files, ids[i]);
        if blob.Err? {
          return Err(blob.error);
        }
        if blob.value.None? {
          return Err(StoreIntegrity);
        }
        blobs := blobs + [Entry(ids[i], blob.value.value)];
        i := i + 1;
      }
      assert ids[..i] == ids;
      return Ok(blobs);
    }
  }

  // Every one of these puts succeeds, by the files there are.
  predicate AllPut(files: Directory, es: seq<Entry>) {
    forall i | 0 <= i < |es| :: PutResult(files, es[i]).Ok?
  }

  // Over whole blobs that is to say that all of them are stored.
  lemma AllPutStored(files: Directory, es: seq<Entry>)
    requires AllWhole(files) && forall i | 0 <= i < |es| :: IsCanonicalObjectId(es[i].objectId)
    ensures AllPut(files, es) <==> AllStored(files, es)
  {
    hide AllWhole, IsCanonicalObjectId, PutResult, Stored;
    forall i | 0 <= i < |es| ensures PutResult(files, es[i]).Ok? <==> Stored(files, es[i].objectId, es[i].value) {
      PutSucceeds(files, es[i]);
    }
  }

  lemma PutFails(files: Directory, e: Entry)
    ensures PutResult(files, e).Err? ==> PutResult(files, e) == Err(StoreIntegrity)
  {
    hide Parse, Print, Utf8.Decode, FileName;
  }

  lemma NotAllPut(files: Directory, blobs: seq<Entry>, i: nat)
    requires i < |blobs| && PutResult(files, blobs[i]).Err?
    ensures !AllPut(files, blobs)
  {
  }

  // A put that has succeeded would succeed again.
  lemma StillPut(before: Directory, after: Directory, es: seq<Entry>)
    requires KeepsBlobs(before, after) && AllPut(before, es)
    requires forall i | 0 <= i < |es| :: IsCanonicalObjectId(es[i].objectId)
    ensures AllPut(after, es)
  {
    hide IsBlobName, FileName, IsCanonicalObjectId, Parse, Print, Utf8.Decode;
    forall i | 0 <= i < |es| ensures PutResult(after, es[i]).Ok? {
      FileNames(es[i].objectId, es[i].objectId, []);
      assert PutResult(before, es[i]).Ok?;
    }
  }

  lemma NormalBlobs(blobs: seq<Entry>)
    requires NormalEntries(blobs)
    ensures forall i | 0 <= i < |blobs| :: IsCanonicalObjectId(blobs[i].objectId)
  {
  }

  lemma SameFiles(files: Directory)
    ensures KeepsBlobs(files, files)
  {
  }

  function Others(meanwhile: seq<Directory>, i: nat): (others: Directory)
    ensures (forall k | 0 <= k < |meanwhile| :: OnlyBlobs(meanwhile[k])) ==> OnlyBlobs(others)
    ensures (forall k | 0 <= k < |meanwhile| :: AllWhole(meanwhile[k])) ==> AllWhole(others)
  {
    if i < |meanwhile| then meanwhile[i] else map[]
  }

  lemma OnlyBlobsAdded(files: Directory, meanwhile: Directory, e: Entry)
    requires OnlyBlobs(meanwhile) && IsCanonicalObjectId(e.objectId)
    ensures forall name | name in AfterPut(WithForeign(files, meanwhile), e) && !IsBlobName(name) :: name in files
  {
    hide IsBlobName, FileName, FileOctets, IsCanonicalObjectId;
    FileNames(e.objectId, e.objectId, []);
  }

  // The random names are new in the directory.
  predicate NoncesNew(files: Directory, blobs: seq<Entry>, nonce: Text -> Text) {
    forall i | 0 <= i < |blobs| :: TempName(blobs[i].objectId, nonce(blobs[i].objectId)) !in files
  }

  lemma NonceNew(files: Directory, blobs: seq<Entry>, nonce: Text -> Text, i: nat)
    requires NoncesNew(files, blobs, nonce) && i < |blobs|
    ensures TempName(blobs[i].objectId, nonce(blobs[i].objectId)) !in files
  {
  }

  lemma NoncesStayNew(before: Directory, after: Directory, blobs: seq<Entry>, nonce: Text -> Text)
    requires NoncesNew(before, blobs, nonce)
    requires forall i | 0 <= i < |blobs| :: IsCanonicalObjectId(blobs[i].objectId)
    requires forall name | name in after && !IsBlobName(name) :: name in before
    ensures NoncesNew(after, blobs, nonce)
  {
    hide IsBlobName, TempName, IsCanonicalObjectId;
    forall i | 0 <= i < |blobs| ensures TempName(blobs[i].objectId, nonce(blobs[i].objectId)) !in after {
      FileNames(blobs[i].objectId, blobs[i].objectId, nonce(blobs[i].objectId));
    }
  }

  // The blobs of some ids, up to the first that is missing or unreadable.
  function Exported(files: Directory, ids: seq<Text>): Result<seq<Entry>> {
    if ids == [] then
      Ok([])
    else
      match Exported(files, ids[..|ids| - 1])
      case Err(error) => Err(error)
      case Ok(blobs) =>
        match ReadBlob(files, ids[|ids| - 1])
        case Err(error) => Err(error)
        case Ok(None) => Err(StoreIntegrity)
        case Ok(Some(v)) => Ok(blobs + [Entry(ids[|ids| - 1], v)])
  }

  lemma {:induction false} ExportedPrefix(files: Directory, ids: seq<Text>, n: nat)
    requires n <= |ids|
    ensures Exported(files, ids[..n]).Err? ==> Exported(files, ids) == Exported(files, ids[..n])
    decreases |ids|
  {
    hide ReadBlob;
    if n == |ids| {
      assert ids[..n] == ids;
    } else {
      assert ids[..|ids| - 1][..n] == ids[..n];
      ExportedPrefix(files, ids[..|ids| - 1], n);
    }
  }

  // Stored entries are exported as they are.
  lemma {:induction false} ExportStored(files: Directory, es: seq<Entry>)
    requires AllStored(files, es)
    ensures Exported(files, Ids(es)) == Ok(es)
  {
    hide ReadBlob, Stored;
    if es != [] {
      var init, last := es[..|es| - 1], es[|es| - 1];
      assert Ids(es)[..|es| - 1] == Ids(init);
      ExportStored(files, init);
      ReadStored(files, last.objectId, last.value);
      assert es == init + [last];
    }
  }

  lemma AbsentIsNone(files: Directory, id: Text)
    ensures ReadBlob(files, id) == Ok(None) <==> FileName(id) !in files
  {
  }

  // A temporary file does not get in the way of what others link, nor of the link itself.
  lemma TemporaryApart(files: Directory, meanwhile: Directory, e: Entry, temporary: Text, octets: seq<int>)
    requires temporary !in files && OnlyBlobs(meanwhile) && !IsBlobName(temporary)
    requires IsBlobName(FileName(e.objectId)) && octets == FileOctets(e.value)
    ensures var linked := WithForeign(files, meanwhile);
            && WithForeign(files[temporary := octets], meanwhile) == linked[temporary := octets]
            && linked[temporary := octets] - {temporary} == linked
            && (FileName(e.objectId) in linked ==> AfterPut(linked, e) == linked)
            && (FileName(e.objectId) !in linked ==>
                  linked[temporary := octets][FileName(e.objectId) := octets] - {temporary} == AfterPut(linked, e))
  {
    hide IsBlobName, FileName, FileOctets;
  }

  lemma OtherFile(files: Directory, temporary: Text, octets: seq<int>, id: Text)
    requires FileName(id) != temporary
    ensures ReadBlob(files[temporary := octets], id) == ReadBlob(files, id)
  {
  }
}
