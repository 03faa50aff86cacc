/** What src/embeddings.rs and its older sibling src/embeddings/mod.rs have in
    common: the well-known store keys, the view-name check, how a new
    collection's key and view are formed, how `find` reads a record, and how
    `query` turns the filtered collection into an answer. */
module Registry {
  import opened Wrappers
  import opened Database
  import opened Codec

  /** `VALENTINUS_KEY`, "key" */
  const VALENTINUS_KEY: Bytes := [107, 101, 121]
  /** `VALENTINUS_VIEW`, "view" */
  const VALENTINUS_VIEW: Bytes := [118, 105, 101, 119]
  /** `VALENTINUS_KEYS`, "keys": where the keys indexer lives. */
  const VALENTINUS_KEYS: Bytes := [107, 101, 121, 115]
  /** `VALENTINUS_VIEWS`, "views": where the views indexer lives. */
  const VALENTINUS_VIEWS: Bytes := [118, 105, 101, 119, 115]
  /** The separator `format!("{}-{}", ..)` puts between the parts. */
  const DASH: Bytes := [45]

  // ---------------------------------------------------------------------
  // Names, keys and views

  /** `[a-zA-Z0-9_]` */
  predicate IsNameByte(b: byte) {
    (65 <= b <= 90) || (97 <= b <= 122) || (48 <= b <= 57) || b == 95
  }

  /** `^[a-zA-Z0-9_]+$` */
  predicate ValidViewName(name: Bytes) {
    |name| > 0 && forall i :: 0 <= i < |name| ==> IsNameByte(name[i])
  }

  predicate IsLowerHex(b: byte) {
    (48 <= b <= 57) || (97 <= b <= 102)
  }

  /** The hyphenated text of a UUID (`Uuid::new_v4()` formatted with
      `Display`): 8-4-4-4-12 lower-case hexadecimal digits. */
  predicate IsUuidText(id: Bytes) {
    |id| == 36 && forall i :: 0 <= i < 36 ==> if i in {8, 13, 18, 23} then id[i] == 45 else IsLowerHex(id[i])
  }

  /** `format!("{}-{}", VALENTINUS_KEY, id)` */
  function CollectionKey(id: Bytes): (k: Bytes)
    ensures |k| == 4 + |id|
    ensures k[..4] == VALENTINUS_KEY + DASH && k[4..] == id
  {
    VALENTINUS_KEY + DASH + id
  }

  /** `format!("{}-{}", VALENTINUS_VIEW, name)` */
  function CollectionView(name: Bytes): (v: Bytes)
    ensures |v| == 5 + |name|
    ensures v[..5] == VALENTINUS_VIEW + DASH && v[5..] == name
  {
    VALENTINUS_VIEW + DASH + name
  }

  /** "key-" followed by something that starts with a 'v': the reverse
      lookup keys of both sources. */
  predicate IsLookupKey(k: Bytes) {
    |k| > 4 && k[..4] == VALENTINUS_KEY + DASH && k[4] == 118
  }

  /** The store keys the registry writes are pairwise distinct: the two
      indexers, a collection key and a reverse lookup key. */
  lemma StoreKeysDistinct(id: Bytes, lookup: Bytes)
    requires IsUuidText(id) && IsLookupKey(lookup)
    ensures VALENTINUS_KEYS != VALENTINUS_VIEWS
    ensures CollectionKey(id) != VALENTINUS_KEYS && CollectionKey(id) != VALENTINUS_VIEWS
    ensures lookup != VALENTINUS_KEYS && lookup != VALENTINUS_VIEWS
    ensures CollectionKey(id) != lookup
  {
    assert CollectionKey(id)[4] == id[0];
    assert CollectionKey(id)[3] == 45 && VALENTINUS_KEYS[3] == 115;
    assert lookup[3] == 45 && lookup[0] == 107;
    assert IsLowerHex(id[0]);
  }

  /** A view in a view indexer holds a '-', which a valid name cannot; so a
      valid name is never found in an indexer of views. */
  lemma ViewIsNeverAName(name: Bytes, views: seq<Bytes>)
    requires ValidViewName(name)
    requires forall i :: 0 <= i < |views| ==> |views[i]| >= 5 && views[i][..5] == VALENTINUS_VIEW + DASH
    ensures name !in views
  {
    forall i | 0 <= i < |views|
      ensures views[i] != name
    {
      assert views[i][4] == (VALENTINUS_VIEW + DASH)[4] == 45;
      assert !IsNameByte(45);
    }
  }

  // ---------------------------------------------------------------------
  // `EmbeddingCollection::new`

  /** The collection `new` returns, given what the views indexer key reads
      as and a fresh UUID text. */
  function NewRecord(documents: seq<Bytes>, metadata: seq<Bytes>, ids: seq<Bytes>, name: Bytes, id: Bytes,
                     views: Bytes): (c: Collection)
    ensures !ValidViewName(name) ==> c == DEFAULT_COLLECTION
    ensures ValidViewName(name) && name in ReadIndexer(views).values ==> c == DEFAULT_COLLECTION
    ensures ValidViewName(name) && name !in ReadIndexer(views).values ==>
      c == Collection(documents, [], metadata, ids, CollectionKey(id), CollectionView(name))
  {
    if !ValidViewName(name) then DEFAULT_COLLECTION
    else if name in ReadIndexer(views).values then DEFAULT_COLLECTION
    else Collection(documents, [], metadata, ids, CollectionKey(id), CollectionView(name))
  }

  /** Views indexers hold views. */
  predicate HoldsViews(views: Bytes) {
    var values := ReadIndexer(views).values;
    forall i :: 0 <= i < |values| ==> |values[i]| >= 5 && values[i][..5] == VALENTINUS_VIEW + DASH
  }

  /** No entry of the views indexer is a valid name. Besides an indexer of
      views, this holds for one that also lists the empty view a saved
      default collection registers. */
  predicate HoldsNoName(views: Bytes) {
    var values := ReadIndexer(views).values;
    forall i :: 0 <= i < |values| ==> !ValidViewName(values[i])
  }

  /** An indexer of views holds no name, and appending the empty view keeps
      that so. */
  lemma HoldsViewsHoldsNoName(views: Bytes, other: Bytes)
    requires HoldsViews(views)
    requires ReadIndexer(other).values == ReadIndexer(views).values + [[]]
    ensures HoldsNoName(views) && HoldsNoName(other)
  {
    var values := ReadIndexer(views).values;
    forall i | 0 <= i < |values|
      ensures !ValidViewName(values[i])
    {
      if ValidViewName(values[i]) {
        ViewIsNeverAName(values[i], values);
      }
    }
    assert ReadIndexer(other).values[|values|] == [];
  }

  /** As written, the uniqueness test compares the bare name with stored
      entries, which for a view carry the "view-" prefix. Over an indexer
      that holds no valid name that test never fires: `new` succeeds
      exactly for a valid name, with a key made of the UUID, the prefixed
      view, no embeddings and the other inputs unchanged. */
  lemma NewRecordSucceeds(documents: seq<Bytes>, metadata: seq<Bytes>, ids: seq<Bytes>, name: Bytes, id: Bytes,
                          views: Bytes)
    requires HoldsNoName(views)
    ensures var c := NewRecord(documents, metadata, ids, name, id, views);
      (c != DEFAULT_COLLECTION <==> ValidViewName(name)) &&
      (ValidViewName(name) ==> c == Collection(documents, [], metadata, ids, CollectionKey(id), CollectionView(name)))
  {
    if ValidViewName(name) {
      assert name !in ReadIndexer(views).values;
      assert CollectionView(name) != [];
    }
  }

  /** With the view "view-test" already registered, `new` of the name
      "test" creates a second collection under the same view. */
  lemma NewRecordAcceptsTakenName(documents: seq<Bytes>, metadata: seq<Bytes>, ids: seq<Bytes>, id: Bytes)
    ensures var name: Bytes := [116, 101, 115, 116];
      var views := EncodeIndexer(KeyViewIndexer([CollectionView(name)]));
      NewRecord(documents, metadata, ids, name, id, views).view == CollectionView(name)
  {
    var name: Bytes := [116, 101, 115, 116];
    var ix := KeyViewIndexer([CollectionView(name)]);
    IndexerRoundTrip(ix);
    assert ValidViewName(name) by {
      assert forall i :: 0 <= i < |name| ==> IsNameByte(name[i]);
    }
    ViewIsNeverAName(name, ix.values);
  }

  /** `new` with the uniqueness test evidently intended: the prefixed view
      must not be registered already. */
  function NewRecordChecked(documents: seq<Bytes>, metadata: seq<Bytes>, ids: seq<Bytes>, name: Bytes, id: Bytes,
                            views: Bytes): (c: Collection)
    ensures c != DEFAULT_COLLECTION <==>
      ValidViewName(name) && CollectionView(name) !in ReadIndexer(views).values
    ensures c != DEFAULT_COLLECTION ==>
      c == Collection(documents, [], metadata, ids, CollectionKey(id), CollectionView(name))
    ensures c != DEFAULT_COLLECTION ==> c.view !in ReadIndexer(views).values
  {
    if !ValidViewName(name) then DEFAULT_COLLECTION
    else if CollectionView(name) in ReadIndexer(views).values then DEFAULT_COLLECTION
    else
      assert CollectionView(name) != [];
      Collection(documents, [], metadata, ids, CollectionKey(id), CollectionView(name))
  }

  // ---------------------------------------------------------------------
  // `find` and `fetch_collection_keys`

  /** `find`: with a key, the record under that key; otherwise the record
      under the key that the reverse lookup `lookup` reads as. A missing or
      undecodable record is the default collection. */
  function FindIn(m: Store, key: Option<Bytes>, lookup: Bytes): Collection {
    if key.Some? then ReadCollection(StoreRead(m, key.value))
    else ReadCollection(StoreRead(m, StoreRead(m, lookup)))
  }

  /** The key given to `find` takes precedence over the view. */
  lemma FindKeyFirst(m: Store, k: Bytes, lookup1: Bytes, lookup2: Bytes)
    ensures FindIn(m, Some(k), lookup1) == FindIn(m, Some(k), lookup2)
    ensures k !in m ==> FindIn(m, Some(k), lookup1) == DEFAULT_COLLECTION
  {
    NotACollection(EMPTY_INDEXER);
  }

  /** A view whose reverse lookup is missing finds the default collection,
      unless the empty key itself holds a record. */
  lemma FindMissingView(m: Store, lookup: Bytes)
    requires lookup !in m && [] !in m
    ensures FindIn(m, None, lookup) == DEFAULT_COLLECTION
  {
    NotACollection(EMPTY_INDEXER);
  }

  /** `fetch_collection_keys`: the views indexer when asked for views, the
      keys indexer otherwise. */
  function FetchKeys(m: Store, views: bool): KeyViewIndexer {
    ReadIndexer(StoreRead(m, if views then VALENTINUS_VIEWS else VALENTINUS_KEYS))
  }

  // ---------------------------------------------------------------------
  // The end of `query`

  /** `model.encode`: the embedding of each document. */
  type Embedder = seq<Bytes> -> seq<Row>

  /** `compute_nearest`: the row index of the embedding nearest the query. */
  type Nearest = (seq<Row>, Row) -> nat

  /** After filtering: the query's embedding (indexing `[0]` panics when the
      model returns none), the nearest row, and the document at that index
      (a panic when out of range). */
  function Answer(c: Collection, query_string: Bytes, embed: Embedder, nearest: Nearest): (r: Outcome<Bytes>)
    ensures r.Returned? <==>
      |embed([query_string])| > 0 && nearest(c.embeddings, embed([query_string])[0]) < |c.documents|
    ensures r.Returned? ==> r.value in c.documents
  {
    var qv_output := embed([query_string]);
    if |qv_output| == 0 then Panic
    else
      var n := nearest(c.embeddings, qv_output[0]);
      if n >= |c.documents| then Panic else Returned(c.documents[n])
  }

  /** `Vec::remove(i)`: the element at i taken out (a panic when i is out of
      range, which callers test beforehand). */
  function RemoveAt<T>(s: seq<T>, i: nat): (r: seq<T>)
    requires i < |s|
    ensures |r| == |s| - 1
    ensures forall j :: 0 <= j < i ==> r[j] == s[j]
    ensures forall j :: i <= j < |r| ==> r[j] == s[j + 1]
  {
    s[..i] + s[i + 1..]
  }

  /** How many entries of `xs` equal `s`. */
  function Count(xs: seq<Bytes>, s: Bytes): (n: nat)
    ensures n <= |xs|
    ensures n == 0 <==> s !in xs
  {
    if xs == [] then 0
    else
      var init := xs[..|xs| - 1];
      assert xs == init + [xs[|xs| - 1]];
      Count(init, s) + (if xs[|xs| - 1] == s then 1 else 0)
  }

  /** The rows whose metadata is not `s`, in their order: what a metadata
      filter over one embedding per metadata entry is meant to leave. */
  function Kept<T>(e: seq<T>, metadata: seq<Bytes>, s: Bytes): (r: seq<T>)
    requires |e| == |metadata|
    ensures |r| + Count(metadata, s) == |e|
    ensures s !in metadata ==> r == e
    ensures forall x :: x in r ==> x in e
  {
    if e == [] then []
    else
      var n := |e| - 1;
      assert e == e[..n] + [e[n]];
      assert metadata == metadata[..n] + [metadata[n]];
      Kept(e[..n], metadata[..n], s) + (if metadata[n] == s then [] else [e[n]])
  }

  /** Each kept row is a row whose metadata differs from `s`. */
  lemma {:induction false} KeptIndex<T>(e: seq<T>, metadata: seq<Bytes>, s: Bytes, j: nat)
    requires |e| == |metadata| && j < |Kept(e, metadata, s)|
    ensures exists i :: 0 <= i < |e| && e[i] == Kept(e, metadata, s)[j] && metadata[i] != s
    decreases |e|
  {
    var n := |e| - 1;
    var init := Kept(e[..n], metadata[..n], s);
    assert Kept(e, metadata, s) == init + (if metadata[n] == s then [] else [e[n]]);
    if j < |init| {
      KeptIndex(e[..n], metadata[..n], s, j);
      var i :| 0 <= i < n && e[..n][i] == init[j] && metadata[..n][i] != s;
      assert e[i] == Kept(e, metadata, s)[j] && metadata[i] != s;
    } else {
      assert e[n] == Kept(e, metadata, s)[j] && metadata[n] != s;
    }
  }

  /** The end of `query` as evidently intended: the documents are filtered
      together with their rows, so the nearest row's index picks that row's
      own document, one whose metadata differs from the filter. The filter
      needs one document and one row per metadata entry. */
  function AlignedAnswer(c: Collection, s: Bytes, query_string: Bytes, embed: Embedder, nearest: Nearest)
    : (r: Outcome<Bytes>)
    ensures s == [] ==> r == Answer(c, query_string, embed, nearest)
    ensures r.Returned? ==> r.value in c.documents
    ensures r.Returned? && s != [] ==>
      exists i :: 0 <= i < |c.documents| && i < |c.metadata| && c.documents[i] == r.value && c.metadata[i] != s
  {
    if s == [] then Answer(c, query_string, embed, nearest)
    else if |c.documents| != |c.metadata| || |c.embeddings| != |c.metadata| then Panic
    else
      var docs := Kept(c.documents, c.metadata, s);
      var qv_output := embed([query_string]);
      if |qv_output| == 0 then Panic
      else
        var n := nearest(Kept(c.embeddings, c.metadata, s), qv_output[0]);
        if n >= |docs| then Panic
        else
          KeptIndex(c.documents, c.metadata, s, n);
          Returned(docs[n])
  }
}
