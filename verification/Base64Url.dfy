// base64url without padding (section 5 of RFC 4648), as Node's Buffer writes and reads it.
module Base64Url {
  import opened Wrappers
  import opened Text

  predicate AreBytes(b: seq<int>) {
    forall i | 0 <= i < |b| :: 0 <= b[i] < 0x100
  }

  predicate AreSextets(q: seq<int>) {
    forall i | 0 <= i < |q| :: 0 <= q[i] < 0x40
  }

  // The alphabet of table 2 in RFC 4648.
  function Letter(s: int): CodeUnit
    requires 0 <= s < 0x40
  {
    if s < 26 then 0x41 + s
    else if s < 52 then 0x61 + s - 26
    else if s < 62 then 0x30 + s - 52
    else if s == 62 then 0x2D
    else 0x5F
  }

  // The reader also takes the letters + and / of the standard alphabet.
  function LetterValue(u: int): (s: Option<int>)
    ensures s.Some? ==> 0 <= s.value < 0x40
  {
    if 0x41 <= u <= 0x5A then Some(u - 0x41)
    else if 0x61 <= u <= 0x7A then Some(u - 0x61 + 26)
    else if 0x30 <= u <= 0x39 then Some(u - 0x30 + 52)
    else if u == 0x2D || u == 0x2B then Some(62)
    else if u == 0x5F || u == 0x2F then Some(63)
    else None
  }

  // It reads the letter of each value, and for the last two those of the standard alphabet as well.
  lemma LettersRead(u: int, s: int)
    requires 0 <= s < 0x40
    ensures LetterValue(u) == Some(s) <==> u == Letter(s) || (s == 62 && u == 0x2B) || (s == 63 && u == 0x2F)
    ensures forall k | 0 <= k < 0x40 :: Letter(k) == Letter(s) ==> k == s
  {
  }

  // The character class [A-Za-z0-9_-].
  predicate IsLetter(u: int) {
    0x41 <= u <= 0x5A || 0x61 <= u <= 0x7A || 0x30 <= u <= 0x39 || u == 0x2D || u == 0x5F
  }

  function Letters(q: seq<int>): (t: Text)
    requires AreSextets(q)
    ensures |t| == |q|
  {
    if q == [] then [] else [Letter(q[0])] + Letters(q[1..])
  }

  // Characters outside the alphabet are passed over.
  function Sextets(t: Text): (q: seq<int>)
    ensures AreSextets(q)
  {
    if t == [] then []
    else (match LetterValue(t[0]) case Some(s) => [s] case None => []) + Sextets(t[1..])
  }

  // Three bytes as four sextets, and back.
  function Split(b: seq<int>): (q: seq<int>)
    requires AreBytes(b) && |b| == 3
    ensures AreSextets(q) && |q| == 4
  {
    [b[0] / 4, b[0] % 4 * 16 + b[1] / 16, b[1] % 16 * 4 + b[2] / 64, b[2] % 64]
  }

  function Merge(q: seq<int>): (b: seq<int>)
    requires AreSextets(q) && |q| == 4
    ensures AreBytes(b) && |b| == 3
  {
    [q[0] * 4 + q[1] / 16, q[1] % 16 * 16 + q[2] / 4, q[2] % 4 * 64 + q[3]]
  }

  // Eight bits regrouped by six, the last group filled with zero bits.
  function Unpack(b: seq<int>): (q: seq<int>)
    requires AreBytes(b)
    ensures AreSextets(q)
    ensures |q| == |b| / 3 * 4 + (if |b| % 3 == 0 then 0 else |b| % 3 + 1)
  {
    if |b| >= 3 then Split(b[..3]) + Unpack(b[3..])
    else if |b| == 2 then Split(b + [0])[..3]
    else if |b| == 1 then Split(b + [0, 0])[..2]
    else []
  }

  // Six bits regrouped by eight, the bits left over dropped.
  function Pack(q: seq<int>): (b: seq<int>)
    requires AreSextets(q)
    ensures AreBytes(b)
    ensures |b| == |q| * 3 / 4
  {
    if |q| >= 4 then Merge(q[..4]) + Pack(q[4..])
    else if |q| == 3 then Merge(q + [0])[..2]
    else if |q| == 2 then Merge(q + [0, 0])[..1]
    else []
  }

  // buffer.toString("base64url")
  function Encode(b: seq<int>): Text
    requires AreBytes(b)
  {
    Letters(Unpack(b))
  }

  // Buffer.from(t, "base64url")
  function Decode(t: Text): (b: seq<int>)
    ensures AreBytes(b)
  {
    Pack(Sextets(t))
  }

  // ----- Writing and reading -----

  lemma {:induction false} SextetsOfLetters(q: seq<int>)
    requires AreSextets(q)
    ensures Sextets(Letters(q)) == q
    ensures forall u | u in Letters(q) :: IsLetter(u)
  {
    if q != [] {
      SextetsOfLetters(q[1..]);
      assert Letters(q)[1..] == Letters(q[1..]);
      assert q == [q[0]] + q[1..];
    }
  }

  lemma {:induction false} LettersOfSextets(t: Text)
    requires forall u | u in t :: IsLetter(u)
    ensures |Sextets(t)| == |t| && Letters(Sextets(t)) == t
    ensures t != [] ==> LetterValue(t[|t| - 1]) == Some(Sextets(t)[|t| - 1])
  {
    if t != [] {
      assert t[0] in t;
      LettersOfSextets(t[1..]);
      assert Sextets(t)[1..] == Sextets(t[1..]);
      assert t == [t[0]] + t[1..];
    }
  }

  lemma MergeSplit(b: seq<int>)
    requires AreBytes(b) && |b| == 3
    ensures Merge(Split(b)) == b
  {
  }

  lemma SplitMerge(q: seq<int>)
    requires AreSextets(q) && |q| == 4
    ensures Split(Merge(q)) == q
  {
    var b := Merge(q);
    assert b[0] / 4 == q[0] && b[0] % 4 == q[1] / 16;
    assert b[1] / 16 == q[1] % 16 && b[1] % 16 == q[2] / 4;
    assert b[2] / 64 == q[2] % 4 && b[2] % 64 == q[3];
  }

  lemma PackGroup(q: seq<int>, rest: seq<int>)
    requires AreSextets(q) && |q| == 4 && AreSextets(rest)
    ensures AreSextets(q + rest)
    ensures Pack(q + rest) == Merge(q) + Pack(rest)
  {
    assert (q + rest)[..4] == q && (q + rest)[4..] == rest;
  }

  lemma UnpackGroup(b: seq<int>, rest: seq<int>)
    requires AreBytes(b) && |b| == 3 && AreBytes(rest)
    ensures AreBytes(b + rest)
    ensures Unpack(b + rest) == Split(b) + Unpack(rest)
  {
    assert (b + rest)[..3] == b && (b + rest)[3..] == rest;
  }

  lemma {:induction false} PackUnpack(b: seq<int>)
    requires AreBytes(b)
    ensures Pack(Unpack(b)) == b
  {
    if |b| >= 3 {
      PackGroup(Split(b[..3]), Unpack(b[3..]));
      MergeSplit(b[..3]);
      PackUnpack(b[3..]);
      assert b == b[..3] + b[3..];
    } else {
      ShortPackUnpack(b);
    }
  }

  lemma SplitPads(b: seq<int>)
    requires AreBytes(b) && |b| == 3
    ensures b[2] == 0 ==> Split(b)[3] == 0
    ensures b[1] == b[2] == 0 ==> Split(b)[2] == 0
  {
  }

  lemma TakePad(t: seq<int>, n: nat, pad: seq<int>)
    requires n + |pad| == |t| && t[n..] == pad
    ensures t[..n] + pad == t
    ensures forall u: seq<int> | |u| == n :: (u + pad)[..n] == u
  {
  }

  lemma ShortPackUnpack(b: seq<int>)
    requires AreBytes(b) && |b| < 3
    ensures Pack(Unpack(b)) == b
  {
    if |b| == 2 {
      var padded := b + [0];
      MergeSplit(padded);
      SplitPads(padded);
      TakePad(Split(padded), 3, [0]);
    } else if |b| == 1 {
      var padded := b + [0, 0];
      MergeSplit(padded);
      SplitPads(padded);
      TakePad(Split(padded), 2, [0, 0]);
    }
  }

  // The bits of the last group that no byte uses (section 3.5 of RFC 4648).
  predicate PadBitsZero(q: seq<int>) {
    (|q| % 4 == 2 ==> q[|q| - 1] % 16 == 0) && (|q| % 4 == 3 ==> q[|q| - 1] % 4 == 0)
  }

  lemma {:induction false} UnpackPack(q: seq<int>)
    requires AreSextets(q) && |q| % 4 != 1
    ensures Unpack(Pack(q)) == q <==> PadBitsZero(q)
  {
    if |q| >= 4 {
      var group, rest := q[..4], q[4..];
      UnpackPack(rest);
      LongUnpackPack(group, rest);
      assert q == group + rest;
    } else {
      ShortUnpackPack(q);
    }
  }

  lemma LongUnpackPack(group: seq<int>, rest: seq<int>)
    requires AreSextets(group) && |group| == 4 && AreSextets(rest)
    ensures AreSextets(group + rest)
    ensures Unpack(Pack(group + rest)) == group + rest <==> Unpack(Pack(rest)) == rest
    ensures PadBitsZero(group + rest) <==> PadBitsZero(rest)
  {
    PackGroup(group, rest);
    UnpackGroup(Merge(group), Pack(rest));
    SplitMerge(group);
    SamePrefix(group, Unpack(Pack(rest)), rest);
    PadBitsOfRest(group, rest);
  }

  lemma MergePads(q: seq<int>)
    requires AreSextets(q) && |q| == 4
    ensures q[3] == 0 ==> (Merge(q)[2] == 0 <==> q[2] % 4 == 0)
    ensures q[2] == q[3] == 0 ==> Merge(q)[2] == 0 && (Merge(q)[1] == 0 <==> q[1] % 16 == 0)
  {
  }

  lemma SplitMultiples(b: seq<int>)
    requires AreBytes(b) && |b| == 3
    ensures b[2] == 0 ==> Split(b)[2] % 4 == 0
    ensures b[1] == 0 ==> Split(b)[1] % 16 == 0
  {
  }

  lemma ThreeUnpackPack(q: seq<int>)
    requires AreSextets(q) && |q| == 3
    ensures Unpack(Pack(q)) == q <==> q[2] % 4 == 0
  {
    var padded := q + [0];
    var b := Merge(padded);
    assert Pack(q) == b[..2];
    var u := Split(b[..2] + [0]);
    assert Unpack(b[..2]) == u[..3];
    SplitMultiples(b[..2] + [0]);
    assert u[..3][2] % 4 == 0;
    MergePads(padded);
    if q[2] % 4 == 0 {
      TakePad(b, 2, [0]);
      SplitMerge(padded);
      assert u == padded;
      assert padded[..3] == q;
    }
  }

  lemma TwoUnpackPack(q: seq<int>)
    requires AreSextets(q) && |q| == 2
    ensures Unpack(Pack(q)) == q <==> q[1] % 16 == 0
  {
    var padded := q + [0, 0];
    var b := Merge(padded);
    assert Pack(q) == b[..1];
    var u := Split(b[..1] + [0, 0]);
    assert Unpack(b[..1]) == u[..2];
    SplitMultiples(b[..1] + [0, 0]);
    assert u[..2][1] % 16 == 0;
    MergePads(padded);
    hide Merge, Split, Pack, Unpack;
    if q[1] % 16 == 0 {
      TakePad(b, 1, [0, 0]);
      SplitMerge(padded);
      assert u == padded;
      assert padded[..2] == q;
    }
  }

  lemma ShortUnpackPack(q: seq<int>)
    requires AreSextets(q) && |q| < 4 && |q| != 1
    ensures Unpack(Pack(q)) == q <==> PadBitsZero(q)
  {
    if |q| == 3 {
      ThreeUnpackPack(q);
    } else if |q| == 2 {
      TwoUnpackPack(q);
    }
  }

  lemma SamePrefix(p: seq<int>, a: seq<int>, b: seq<int>)
    ensures p + a == p + b <==> a == b
  {
    assert (p + a)[|p|..] == a && (p + b)[|p|..] == b;
  }

  lemma PadBitsOfRest(group: seq<int>, rest: seq<int>)
    requires |group| == 4
    ensures PadBitsZero(group + rest) <==> PadBitsZero(rest)
  {
    assert rest != [] ==> (group + rest)[|group + rest| - 1] == rest[|rest| - 1];
  }

  // Bytes of any length read back as they were written.
  lemma EncodeDecode(b: seq<int>)
    requires AreBytes(b)
    ensures Decode(Encode(b)) == b
    ensures forall u | u in Encode(b) :: IsLetter(u)
  {
    SextetsOfLetters(Unpack(b));
    PackUnpack(b);
  }

  // A text over the alphabet is the encoding of what it decodes to exactly when its unused
  // trailing bits are zero.
  lemma DecodeEncode(t: Text)
    requires |t| % 4 != 1 && forall u | u in t :: IsLetter(u)
    ensures Encode(Decode(t)) == t <==> PadBitsZero(Sextets(t))
  {
    LettersOfSextets(t);
    UnpackPack(Sextets(t));
    var q := Unpack(Pack(Sextets(t)));
    if Letters(q) == t {
      SextetsOfLetters(q);
    }
  }
}
