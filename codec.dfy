/** The stored forms of `KeyViewIndexer` and `EmbeddingCollection`. The
    source writes both as serde JSON text and reads them back with
    `serde_json::from_str(..).unwrap_or(Default::default())`. The model keeps
    what matters to the registry: a serialization that never fails, never
    produces the empty byte string, and reads back exactly what was written;
    and a reading of bytes that are not such a serialization (in particular
    the empty value of a missing key) as the default. */
module Codec {
  import opened Wrappers
  import opened Database

  // ---------------------------------------------------------------------
  // Sequences: each element behind a 1, the end as a 0.

  function EncodeSeq<T>(xs: seq<T>, enc: T -> Bytes): (s: Bytes)
    ensures s != []
    decreases |xs|
  {
    if xs == [] then [0] else [1] + enc(xs[0]) + EncodeSeq(xs[1..], enc)
  }

  /** The decoded sequence and the bytes after it; `None` on malformed
      input. */
  function DecodeSeq<T>(s: Bytes, dec: Bytes -> Option<(T, Bytes)>): (r: Option<(seq<T>, Bytes)>)
    ensures r.Some? ==> |r.value.1| < |s|
    decreases |s|
  {
    if s == [] then None
    else if s[0] == 0 then Some(([], s[1..]))
    else if s[0] != 1 then None
    else match dec(s[1..])
      case None => None
      case Some((x, rest)) =>
        if |rest| >= |s| then None
        else match DecodeSeq(rest, dec)
          case None => None
          case Some((xs, rest2)) => Some(([x] + xs, rest2))
  }

  /** `dec` reads back what `enc` wrote, leaving what follows alone. */
  ghost predicate RoundTrips<T(!new)>(enc: T -> Bytes, dec: Bytes -> Option<(T, Bytes)>) {
    forall x, rest :: dec(enc(x) + rest) == Some((x, rest))
  }

  lemma {:induction false} SeqRoundTrip<T(!new)>(xs: seq<T>, rest: Bytes, enc: T -> Bytes, dec: Bytes -> Option<(T, Bytes)>)
    requires RoundTrips(enc, dec)
    ensures DecodeSeq(EncodeSeq(xs, enc) + rest, dec) == Some((xs, rest))
    decreases |xs|
  {
    if xs != [] {
      var tail := EncodeSeq(xs[1..], enc) + rest;
      var s := EncodeSeq(xs, enc) + rest;
      assert s == [1] + (enc(xs[0]) + tail);
      assert s[1..] == enc(xs[0]) + tail;
      assert dec(s[1..]) == Some((xs[0], tail));
      SeqRoundTrip(xs[1..], rest, enc, dec);
      assert [xs[0]] + xs[1..] == xs;
    }
  }

  lemma SeqsRoundTrip<T(!new)>(enc: T -> Bytes, dec: Bytes -> Option<(T, Bytes)>)
    requires RoundTrips(enc, dec)
    ensures RoundTrips((xs: seq<T>) => EncodeSeq(xs, enc), (s: Bytes) => DecodeSeq(s, dec))
  {
    forall xs: seq<T>, rest: Bytes
      ensures DecodeSeq(EncodeSeq(xs, enc) + rest, dec) == Some((xs, rest))
    {
      SeqRoundTrip(xs, rest, enc, dec);
    }
  }

  // ---------------------------------------------------------------------
  // Strings, float rows and matrices.

  function EncodeByte(b: byte): Bytes { [b] }

  function DecodeByte(s: Bytes): Option<(byte, Bytes)> {
    if s == [] then None else Some((s[0], s[1..]))
  }

  function EncodeBytes(b: Bytes): Bytes { EncodeSeq(b, EncodeByte) }

  function DecodeBytes(s: Bytes): Option<(Bytes, Bytes)> { DecodeSeq(s, DecodeByte) }

  /** An `f32`, as its four bytes. */
  type F32 = b: Bytes | |b| == 4 witness [0, 0, 0, 0]

  /** One embedding: a vector of `f32`. */
  type Row = seq<F32>

  function EncodeF32(f: F32): Bytes { f }

  function DecodeF32(s: Bytes): Option<(F32, Bytes)> {
    if |s| < 4 then None else Some((s[..4], s[4..]))
  }

  function EncodeRow(r: Row): Bytes { EncodeSeq(r, EncodeF32) }

  function DecodeRow(s: Bytes): Option<(Row, Bytes)> { DecodeSeq(s, DecodeF32) }

  function EncodeStrs(xs: seq<Bytes>): Bytes { EncodeSeq(xs, EncodeBytes) }

  function DecodeStrs(s: Bytes): Option<(seq<Bytes>, Bytes)> { DecodeSeq(s, DecodeBytes) }

  function EncodeMatrix(m: seq<Row>): Bytes { EncodeSeq(m, EncodeRow) }

  function DecodeMatrix(s: Bytes): Option<(seq<Row>, Bytes)> { DecodeSeq(s, DecodeRow) }

  lemma BytesRoundTrip()
    ensures RoundTrips(EncodeBytes, DecodeBytes)
  {
    assert RoundTrips(EncodeByte, DecodeByte) by {
      forall x: byte, rest: Bytes
        ensures DecodeByte(EncodeByte(x) + rest) == Some((x, rest))
      {
        assert (EncodeByte(x) + rest)[1..] == rest;
      }
    }
    SeqsRoundTrip(EncodeByte, DecodeByte);
    assert forall b :: EncodeBytes(b) == EncodeSeq(b, EncodeByte);
  }

  lemma StrsRoundTrip()
    ensures RoundTrips(EncodeStrs, DecodeStrs)
  {
    BytesRoundTrip();
    SeqsRoundTrip(EncodeBytes, DecodeBytes);
  }

  lemma MatrixRoundTrip()
    ensures RoundTrips(EncodeMatrix, DecodeMatrix)
  {
    assert RoundTrips(EncodeF32, DecodeF32) by {
      forall x: F32, rest: Bytes
        ensures DecodeF32(EncodeF32(x) + rest) == Some((x, rest))
      {
        var s := EncodeF32(x) + rest;
        assert s[..4] == x && s[4..] == rest;
      }
    }
    SeqsRoundTrip(EncodeF32, DecodeF32);
    assert RoundTrips(EncodeRow, DecodeRow);
    SeqsRoundTrip(EncodeRow, DecodeRow);
  }

  // ---------------------------------------------------------------------
  // `KeyViewIndexer`

  /** The list of collection keys, or of views, kept under one store key. */
  datatype KeyViewIndexer = KeyViewIndexer(values: seq<Bytes>)

  const EMPTY_INDEXER := KeyViewIndexer([])

  /** `serde_json::to_string` of an indexer. */
  function EncodeIndexer(ix: KeyViewIndexer): (s: Bytes)
    ensures s != [] && s[0] == 1
  {
    [1] + EncodeStrs(ix.values)
  }

  function DecodeIndexer(s: Bytes): Option<KeyViewIndexer> {
    if s == [] || s[0] != 1 then None
    else match DecodeStrs(s[1..])
      case Some((values, rest)) => if rest == [] then Some(KeyViewIndexer(values)) else None
      case None => None
  }

  /** Reading stored bytes as an indexer, the empty one when they are not one
      (a missing key reads as the empty byte string). */
  function ReadIndexer(s: Bytes): KeyViewIndexer {
    DecodeIndexer(s).GetOr(EMPTY_INDEXER)
  }

  /** What is written reads back; nothing reads as the empty indexer. */
  lemma IndexerRoundTrip(ix: KeyViewIndexer)
    ensures DecodeIndexer(EncodeIndexer(ix)) == Some(ix)
    ensures ReadIndexer(EncodeIndexer(ix)) == ix
    ensures ReadIndexer([]) == EMPTY_INDEXER
  {
    StrsRoundTrip();
    assert EncodeIndexer(ix)[1..] == EncodeStrs(ix.values) + [];
  }

  // ---------------------------------------------------------------------
  // `EmbeddingCollection`, as stored

  /** The fields of a collection, in the source's order. */
  datatype Collection = Collection(
    documents: seq<Bytes>, embeddings: seq<Row>, metadata: seq<Bytes>, ids: seq<Bytes>, key: Bytes, view: Bytes)

  /** `EmbeddingCollection::default()` */
  const DEFAULT_COLLECTION := Collection([], [], [], [], [], [])

  /** `serde_json::to_string` of a collection. */
  function EncodeCollection(c: Collection): (s: Bytes)
    ensures s != [] && s[0] == 2
  {
    [2] + (EncodeStrs(c.documents) + (EncodeMatrix(c.embeddings) + (EncodeStrs(c.metadata) + (EncodeStrs(c.ids) +
      (EncodeBytes(c.key) + EncodeBytes(c.view))))))
  }

  function DecodeCollection(s: Bytes): Option<Collection> {
    if s == [] || s[0] != 2 then None
    else match DecodeStrs(s[1..])
      case None => None
      case Some((documents, s1)) => match DecodeMatrix(s1)
        case None => None
        case Some((embeddings, s2)) => match DecodeStrs(s2)
          case None => None
          case Some((metadata, s3)) => match DecodeStrs(s3)
            case None => None
            case Some((ids, s4)) => match DecodeBytes(s4)
              case None => None
              case Some((key, s5)) => match DecodeBytes(s5)
                case None => None
                case Some((view, s6)) =>
                  if s6 == [] then Some(Collection(documents, embeddings, metadata, ids, key, view)) else None
  }

  /** Reading stored bytes as a collection, the default one when they are
      not one. */
  function ReadCollection(s: Bytes): Collection {
    DecodeCollection(s).GetOr(DEFAULT_COLLECTION)
  }

  lemma StrsDecode(xs: seq<Bytes>, rest: Bytes)
    ensures DecodeStrs(EncodeStrs(xs) + rest) == Some((xs, rest))
  {
    StrsRoundTrip();
  }

  lemma MatrixDecode(m: seq<Row>, rest: Bytes)
    ensures DecodeMatrix(EncodeMatrix(m) + rest) == Some((m, rest))
  {
    MatrixRoundTrip();
  }

  lemma BytesDecode(b: Bytes, rest: Bytes)
    ensures DecodeBytes(EncodeBytes(b) + rest) == Some((b, rest))
  {
    BytesRoundTrip();
  }

  /** What is written reads back; the empty value and an indexer read as
      the default collection. */
  lemma CollectionRoundTrip(c: Collection)
    ensures DecodeCollection(EncodeCollection(c)) == Some(c)
    ensures ReadCollection(EncodeCollection(c)) == c
  {
    var e0, e1, e2, e3 := EncodeStrs(c.documents), EncodeMatrix(c.embeddings), EncodeStrs(c.metadata), EncodeStrs(c.ids);
    var e4, e5 := EncodeBytes(c.key), EncodeBytes(c.view);
    var s5 := e5;
    assert e5 + [] == e5;
    var s4 := e4 + s5;
    var s3 := e3 + s4;
    var s2 := e2 + s3;
    var s1 := e1 + s2;
    assert EncodeCollection(c)[1..] == e0 + s1;
    StrsDecode(c.documents, s1);
    MatrixDecode(c.embeddings, s2);
    StrsDecode(c.metadata, s3);
    StrsDecode(c.ids, s4);
    BytesDecode(c.key, s5);
    BytesDecode(c.view, []);
  }

  /** The empty value and an indexer read as the default collection. */
  lemma NotACollection(ix: KeyViewIndexer)
    ensures ReadCollection([]) == DEFAULT_COLLECTION
    ensures ReadCollection(EncodeIndexer(ix)) == DEFAULT_COLLECTION
  {
  }
}
