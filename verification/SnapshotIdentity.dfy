/**
 The byte stream hashed into a snapshot id. Fields are framed by a 64-bit little-endian length and
 records follow each other without a count; the stream can still be parsed back.
 */
module SnapshotIdentity {
  import opened Basics
  import opened Artifacts
  import opened Extractors

  const LIMIT: nat := 0x1_0000_0000_0000_0000

  /** `width` bytes of `n`, least significant first. */
  function LittleEndian(n: nat, width: nat): (bytes: Text)
    ensures |bytes| == width
  {
    if width == 0 then [] else [n % 256] + LittleEndian(n / 256, width - 1)
  }

  function FromLittleEndian(bytes: Text): nat {
    if bytes == [] then 0 else bytes[0] + 256 * FromLittleEndian(bytes[1..])
  }

  function Power256(width: nat): nat {
    if width == 0 then 1 else 256 * Power256(width - 1)
  }

  lemma {:induction false} LittleEndianRoundTrip(n: nat, width: nat)
    requires n < Power256(width)
    ensures FromLittleEndian(LittleEndian(n, width)) == n
  {
    if width > 0 {
      LittleEndianRoundTrip(n / 256, width - 1);
      assert LittleEndian(n, width)[1..] == LittleEndian(n / 256, width - 1);
    }
  }

  lemma EightBytes()
    ensures Power256(8) == LIMIT
  {
    assert Power256(4) == 0x1_0000_0000;
    assert Power256(6) == 0x1_0000_0000_0000;
  }

  function U64(n: nat): (bytes: Text)
    ensures |bytes| == 8
  {
    LittleEndian(n, 8)
  }

  function FromU64(bytes: Text): nat {
    FromLittleEndian(bytes)
  }

  lemma U64RoundTrip(n: nat)
    requires n < LIMIT
    ensures FromU64(U64(n)) == n
  {
    EightBytes();
    LittleEndianRoundTrip(n, 8);
  }

  /** `update_field`: the length, then the bytes. */
  function Field(bytes: Text): Text {
    U64(if |bytes| < LIMIT then |bytes| else LIMIT - 1) + bytes
  }

  function EncodingTag(e: PathEncoding): Text {
    match e
    case UnixBytes => Ascii("unix")
    case WindowsWide => Ascii("wide")
    case Utf8 => Ascii("utf8")
  }

  function Record(fp: Fingerprint): Text {
    Field(fp.repo) + Field(fp.checkout) + Field(EncodingTag(fp.path.encoding)) + Field(fp.path.bytes)
    + Field(fp.extractor) + Field(fp.contentHash) + U64(fp.size)
  }

  function Records(fps: seq<Fingerprint>): Text {
    if fps == [] then [] else Record(fps[0]) + Records(fps[1..])
  }

  /** Everything `snapshot_identity` feeds the hasher, in order. */
  function Stream(manifestHash: Text, budget: Text, fps: seq<Fingerprint>): Text {
    Field(Ascii("community-engine-v1")) + Field(CONTRACT_VERSION) + Field(budget) + Field(manifestHash)
    + Records(fps)
  }

  // ---------------------------------------------------------------- parsing the stream back

  /** The first field of a stream and the rest. */
  function ReadField(stream: Text): Option<(Text, Text)> {
    if |stream| < 8 then None else
      var length := FromU64(stream[..8]);
      if |stream| < 8 + length then None else Some((stream[8..8 + length], stream[8 + length..]))
  }

  lemma ReadWrittenField(bytes: Text, rest: Text)
    requires |bytes| < LIMIT
    ensures ReadField(Field(bytes) + rest) == Some((bytes, rest))
  {
    var stream := Field(bytes) + rest;
    U64RoundTrip(|bytes|);
    assert stream[..8] == U64(|bytes|);
    assert stream[8..8 + |bytes|] == bytes;
    assert stream[8 + |bytes|..] == rest;
  }

  lemma FieldIsPrefixFree(a: Text, b: Text, x: Text, y: Text)
    requires |a| < LIMIT && |b| < LIMIT && Field(a) + x == Field(b) + y
    ensures a == b && x == y
  {
    ReadWrittenField(a, x);
    ReadWrittenField(b, y);
  }

  lemma U64IsPrefixFree(m: nat, n: nat, x: Text, y: Text)
    requires m < LIMIT && n < LIMIT && U64(m) + x == U64(n) + y
    ensures m == n && x == y
  {
    U64RoundTrip(m);
    U64RoundTrip(n);
    assert (U64(m) + x)[..8] == U64(m) && (U64(n) + y)[..8] == U64(n);
    assert (U64(m) + x)[8..] == x && (U64(n) + y)[8..] == y;
  }

  lemma TagsDiffer(a: PathEncoding, b: PathEncoding)
    requires EncodingTag(a) == EncodingTag(b)
    ensures a == b
  {
    assert EncodingTag(UnixBytes)[1] == 110 && EncodingTag(WindowsWide)[1] == 105;
    assert EncodingTag(Utf8)[1] == 116;
  }

  /** Sizes and lengths fit 64 bits, as they do in the machine. */
  predicate Representable(fp: Fingerprint) {
    && |fp.repo| < LIMIT && |fp.checkout| < LIMIT && |fp.path.bytes| < LIMIT
    && |fp.extractor| < LIMIT && |fp.contentHash| < LIMIT && fp.size < LIMIT
  }

  /** All fields of a fingerprint but the display path. */
  predicate SameButDisplay(a: Fingerprint, b: Fingerprint) {
    a == b.(path := b.path.(display := a.path.display))
  }

  lemma RecordIsPrefixFree(a: Fingerprint, b: Fingerprint, x: Text, y: Text)
    requires Representable(a) && Representable(b) && Record(a) + x == Record(b) + y
    ensures SameButDisplay(a, b) && x == y
  {
    hide Field, U64, EncodingTag;
    var a6, b6 := U64(a.size) + x, U64(b.size) + y;
    var a5, b5 := Field(a.contentHash) + a6, Field(b.contentHash) + b6;
    var a4, b4 := Field(a.extractor) + a5, Field(b.extractor) + b5;
    var a3, b3 := Field(a.path.bytes) + a4, Field(b.path.bytes) + b4;
    var a2, b2 := Field(EncodingTag(a.path.encoding)) + a3, Field(EncodingTag(b.path.encoding)) + b3;
    var a1, b1 := Field(a.checkout) + a2, Field(b.checkout) + b2;
    assert Record(a) + x == Field(a.repo) + a1;
    assert Record(b) + y == Field(b.repo) + b1;
    FieldIsPrefixFree(a.repo, b.repo, a1, b1);
    FieldIsPrefixFree(a.checkout, b.checkout, a2, b2);
    TagLength(a.path.encoding);
    TagLength(b.path.encoding);
    FieldIsPrefixFree(EncodingTag(a.path.encoding), EncodingTag(b.path.encoding), a3, b3);
    TagsDiffer(a.path.encoding, b.path.encoding);
    FieldIsPrefixFree(a.path.bytes, b.path.bytes, a4, b4);
    FieldIsPrefixFree(a.extractor, b.extractor, a5, b5);
    FieldIsPrefixFree(a.contentHash, b.contentHash, a6, b6);
    U64IsPrefixFree(a.size, b.size, x, y);
  }

  lemma TagLength(e: PathEncoding)
    ensures |EncodingTag(e)| == 4
  {
  }

  lemma RecordIsNotEmpty(fp: Fingerprint)
    ensures |Record(fp)| > 0
  {
  }

  ghost predicate SameListButDisplays(a: seq<Fingerprint>, b: seq<Fingerprint>) {
    |a| == |b| && forall i :: 0 <= i < |a| ==> SameButDisplay(a[i], b[i])
  }

  lemma {:induction false} RecordsAreUnique(a: seq<Fingerprint>, b: seq<Fingerprint>)
    requires (forall fp <- a :: Representable(fp)) && (forall fp <- b :: Representable(fp))
    requires Records(a) == Records(b)
    ensures SameListButDisplays(a, b)
  {
    hide Record;
    if a == [] {
      if b != [] { RecordIsNotEmpty(b[0]); }
    } else if b == [] {
      RecordIsNotEmpty(a[0]);
    } else {
      RecordIsPrefixFree(a[0], b[0], Records(a[1..]), Records(b[1..]));
      RecordsAreUnique(a[1..], b[1..]);
    }
  }

  /**
   Identity framing is uniquely decodable: two streams are equal if and only if the manifest hash,
   the budget fingerprint and every field of every fingerprint but the display path are equal.
   */
  lemma StreamIsUniquelyDecodable(
    manifest: Text, budget: Text, fps: seq<Fingerprint>,
    manifest': Text, budget': Text, fps': seq<Fingerprint>)
    requires |manifest| < LIMIT && |budget| < LIMIT && |manifest'| < LIMIT && |budget'| < LIMIT
    requires (forall fp <- fps :: Representable(fp)) && (forall fp <- fps' :: Representable(fp))
    ensures Stream(manifest, budget, fps) == Stream(manifest', budget', fps')
            <==> manifest == manifest' && budget == budget' && SameListButDisplays(fps, fps')
  {
    hide Field, Records;
    var engine, version := Field(Ascii("community-engine-v1")), Field(CONTRACT_VERSION);
    var tail, tail' := Field(manifest) + Records(fps), Field(manifest') + Records(fps');
    var body, body' := Field(budget) + tail, Field(budget') + tail';
    assert Stream(manifest, budget, fps) == (engine + version) + body;
    assert Stream(manifest', budget', fps') == (engine + version) + body';
    if Stream(manifest, budget, fps) == Stream(manifest', budget', fps') {
      assert ((engine + version) + body)[|engine + version|..] == body;
      assert ((engine + version) + body')[|engine + version|..] == body';
      FieldIsPrefixFree(budget, budget', tail, tail');
      FieldIsPrefixFree(manifest, manifest', Records(fps), Records(fps'));
      RecordsAreUnique(fps, fps');
    } else if SameListButDisplays(fps, fps') {
      DisplaysAreNotHashed(fps, fps');
    }
  }

  lemma {:induction false} DisplaysAreNotHashed(a: seq<Fingerprint>, b: seq<Fingerprint>)
    requires SameListButDisplays(a, b)
    ensures Records(a) == Records(b)
  {
    hide Field;
    if a != [] {
      assert SameButDisplay(a[0], b[0]);
      DisplaysAreNotHashed(a[1..], b[1..]);
    }
  }

  /**
   What the snapshot-reuse branch relies on: with a collision-free hash, an equal snapshot id
   means an equal manifest, equal budgets and the same artifacts with the same content.
   */
  lemma EqualIdsMeanEqualInputs(
    hash: Text -> Text, manifest: Text, budget: Text, fps: seq<Fingerprint>,
    manifest': Text, budget': Text, fps': seq<Fingerprint>)
    requires forall x, y :: hash(x) == hash(y) ==> x == y
    requires |manifest| < LIMIT && |budget| < LIMIT && |manifest'| < LIMIT && |budget'| < LIMIT
    requires (forall fp <- fps :: Representable(fp)) && (forall fp <- fps' :: Representable(fp))
    requires hash(Stream(manifest, budget, fps)) == hash(Stream(manifest', budget', fps'))
    ensures manifest == manifest' && budget == budget' && SameListButDisplays(fps, fps')
  {
    StreamIsUniquelyDecodable(manifest, budget, fps, manifest', budget', fps');
  }
}
