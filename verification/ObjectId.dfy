// Canonical ObjectIds: "fns:obj:sha256:" and the base64url form of a SHA-256 digest.
module ObjectId {
  import opened Text
  import opened Utf8
  import Base64Url

  const PREFIX: Text := Ascii("fns:obj:sha256:")

  const DIGEST_BYTES := 32
  const DIGEST_LETTERS := 43

  // The regular expression OBJECT_ID.
  predicate MatchesPattern(t: Text) {
    |t| == |PREFIX| + DIGEST_LETTERS && t[..|PREFIX|] == PREFIX && forall u | u in t[|PREFIX|..] :: Base64Url.IsLetter(u)
  }

  // isCanonicalObjectId
  predicate IsCanonicalObjectId(t: Text) {
    MatchesPattern(t) &&
    var digest := t[|PREFIX|..];
    var bytes := Base64Url.Decode(digest);
    |bytes| == DIGEST_BYTES && Base64Url.Encode(bytes) == digest
  }

  ghost predicate EncodesDigest(t: Text, bytes: seq<int>) {
    Base64Url.AreBytes(bytes) && |bytes| == DIGEST_BYTES && t == PREFIX + Base64Url.Encode(bytes)
  }

  // The canonical ids are exactly the images of the 32-byte digests, and the digest is read back
  // from the id.
  lemma CanonicalIsEncoded(t: Text)
    ensures IsCanonicalObjectId(t) <==> exists bytes :: EncodesDigest(t, bytes)
    ensures forall bytes | EncodesDigest(t, bytes) :: Base64Url.Decode(t[|PREFIX|..]) == bytes
  {
    if IsCanonicalObjectId(t) {
      var bytes := Base64Url.Decode(t[|PREFIX|..]);
      assert t == t[..|PREFIX|] + t[|PREFIX|..];
      assert EncodesDigest(t, bytes);
    }
    forall bytes | EncodesDigest(t, bytes)
      ensures Base64Url.Decode(t[|PREFIX|..]) == bytes && IsCanonicalObjectId(t)
    {
      Base64Url.EncodeDecode(bytes);
      assert t[..|PREFIX|] == PREFIX && t[|PREFIX|..] == Base64Url.Encode(bytes);
    }
  }

  // Among the texts the pattern admits, the canonical ones are those whose last letter has its
  // two unused bits clear.
  lemma CanonicalByLastLetter(t: Text)
    requires MatchesPattern(t)
    ensures IsCanonicalObjectId(t) <==>
            match Base64Url.LetterValue(t[|t| - 1]) case Some(s) => s % 4 == 0 case None => false
  {
    var digest := t[|PREFIX|..];
    Base64Url.LettersOfSextets(digest);
    Base64Url.DecodeEncode(digest);
    assert digest[|digest| - 1] == t[|t| - 1];
  }

  lemma CanonicalIsAscii(t: Text)
    requires IsCanonicalObjectId(t)
    ensures forall u | u in t :: u < 0x80
    ensures WellFormed(t)
  {
    assert t == PREFIX + t[|PREFIX|..];
    forall u | u in t ensures u < 0x80 {
      if u in PREFIX {
        var i :| 0 <= i < |PREFIX| && PREFIX[i] == u;
      }
    }
    NoSurrogatesWellFormed(t);
  }
}
