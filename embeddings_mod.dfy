/** The older collection registry of src/embeddings/mod.rs. It differs from
    src/embeddings.rs in three ways: `set_indexes` writes one-element
    indexers instead of extending them, the reverse lookup key is
    "key-view-<view>", and the metadata filter of `query` tests the metadata
    at the loop index itself. */
module EmbeddingsMod {
  import opened Wrappers
  import opened Database
  import opened Codec
  import opened Registry

  /** `format!("{}-{}-{}", VALENTINUS_KEY, VALENTINUS_VIEW, view)` */
  function KvLookupKey(view: Bytes): (k: Bytes)
    ensures IsLookupKey(k)
  {
    assert (VALENTINUS_KEY + DASH + VALENTINUS_VIEW + DASH + view)[..4] == VALENTINUS_KEY + DASH;
    VALENTINUS_KEY + DASH + VALENTINUS_VIEW + DASH + view
  }

  /** The two indexer writes of `set_indexes`: fresh one-element indexers,
      each by a write that refuses an existing key. */
  function AfterIndexers(m: Store, key: Bytes, view: Bytes): Store {
    var m1 := StoreWrite(m, VALENTINUS_KEYS, EncodeIndexer(KeyViewIndexer([key])));
    StoreWrite(m1, VALENTINUS_VIEWS, EncodeIndexer(KeyViewIndexer([view])))
  }

  /** `set_indexes`: the indexers, then the reverse lookup. */
  function AfterSetIndexes(m: Store, key: Bytes, view: Bytes): Store {
    StoreWrite(AfterIndexers(m, key, view), KvLookupKey(view), key)
  }

  /** The collection once `save` has set its embeddings. */
  function Saved(c: Collection, embed: Embedder): Collection {
    c.(embeddings := embed(c.documents))
  }

  /** `save`: `set_indexes`, then the record under the key. */
  function AfterSave(m: Store, c: Collection, embed: Embedder): Store {
    StoreWrite(AfterSetIndexes(m, c.key, c.view), c.key, EncodeCollection(Saved(c, embed)))
  }

  /** `save` panics: the write of the reverse lookup or of the record hands
      LMDB a key it rejects. The two indexer keys are always accepted. */
  predicate SavePanics(m: Store, c: Collection) {
    WritePanics(AfterIndexers(m, c.key, c.view), KvLookupKey(c.view)) ||
    WritePanics(AfterSetIndexes(m, c.key, c.view), c.key)
  }

  /** The store a panicking `save` leaves: the writes before the failing one
      stay committed. */
  function AtSavePanic(m: Store, c: Collection): Store {
    if WritePanics(AfterIndexers(m, c.key, c.view), KvLookupKey(c.view)) then AfterIndexers(m, c.key, c.view)
    else AfterSetIndexes(m, c.key, c.view)
  }

  /** `find` */
  function Found(m: Store, key: Option<Bytes>, view: Option<Bytes>): Collection {
    FindIn(m, key, KvLookupKey(view.GetOr([])))
  }

  /** The loop of `query` from iteration `m` on, with `removals` rows
      removed so far: when the metadata at `m` equals `s`, the row at
      `m - removals` (where original row `m` now sits) is removed. */
  function RemovalFrom(e: seq<Row>, metadata: seq<Bytes>, s: Bytes, m: nat, removals: nat): Outcome<seq<Row>>
    requires removals <= m
    decreases |metadata| - m
  {
    if m >= |metadata| then Returned(e)
    else if metadata[m] == s then
      if m - removals >= |e| then Panic
      else RemovalFrom(RemoveAt(e, m - removals), metadata, s, m + 1, removals + 1)
    else RemovalFrom(e, metadata, s, m + 1, removals)
  }

  /** The embeddings left by the metadata filter of `query`. */
  function Removal(e: seq<Row>, metadata: seq<Bytes>, s: Bytes): Outcome<seq<Row>> {
    if s == [] then Returned(e) else RemovalFrom(e, metadata, s, 0, 0)
  }

  /** `query` on the store `m`. */
  function QueryResult(m: Store, query_string: Bytes, view_name: Bytes, metadata: Option<Bytes>, embed: Embedder,
                       nearest: Nearest): Outcome<Bytes>
  {
    var c := Found(m, None, Some(view_name));
    match Removal(c.embeddings, c.metadata, metadata.GetOr([]))
    case Panic => Panic
    case Returned(e) => Answer(c.(embeddings := e), query_string, embed, nearest)
  }

  class EmbeddingCollection {
    var documents: seq<Bytes>
    var embeddings: seq<Row>
    var metadata: seq<Bytes>
    var ids: seq<Bytes>
    var key: Bytes
    var view: Bytes

    /** The fields, as serialized. */
    function Record(): Collection
      reads this
    {
      Collection(documents, embeddings, metadata, ids, key, view)
    }

    /** `EmbeddingCollection::new`, with `id` the text of the fresh UUID. */
    constructor New(documents: seq<Bytes>, metadata: seq<Bytes>, ids: seq<Bytes>, name: Bytes, id: Bytes,
                    db: DatabaseEnvironment)
      ensures Record() == NewRecord(documents, metadata, ids, name, id, StoreRead(db.data, VALENTINUS_VIEWS))
    {
      var valid := ValidViewName(name);
      var view_indexer := EMPTY_INDEXER;
      if valid {
        var views := db.Read(VALENTINUS_VIEWS);
        view_indexer := ReadIndexer(views);
      }
      if !valid || name in view_indexer.values {
        this.documents, this.embeddings, this.metadata, this.ids, this.key, this.view := [], [], [], [], [], [];
      } else {
        this.documents, this.embeddings, this.metadata, this.ids := documents, [], metadata, ids;
        this.key, this.view := CollectionKey(id), CollectionView(name);
      }
    }

    /** The result of `serde_json::from_str` on a stored record. */
    constructor FromRecord(c: Collection)
      ensures Record() == c
    {
      documents, embeddings, metadata, ids, key, view := c.documents, c.embeddings, c.metadata, c.ids, c.key, c.view;
    }

    /** `set_indexes`; `panicked` when LMDB rejects the lookup key. */
    method SetIndexes(db: DatabaseEnvironment) returns (panicked: bool)
      modifies db
      ensures panicked == WritePanics(AfterIndexers(old(db.data), key, view), KvLookupKey(view))
      ensures db.data == if panicked then AfterIndexers(old(db.data), key, view)
        else AfterSetIndexes(old(db.data), key, view)
    {
      var k_indexer := KeyViewIndexer([]);
      k_indexer := k_indexer.(values := k_indexer.values + [key]);
      assert k_indexer == KeyViewIndexer([key]);
      panicked := db.Write(VALENTINUS_KEYS, EncodeIndexer(k_indexer));
      var v_indexer := KeyViewIndexer([]);
      v_indexer := v_indexer.(values := v_indexer.values + [view]);
      assert v_indexer == KeyViewIndexer([view]);
      panicked := db.Write(VALENTINUS_VIEWS, EncodeIndexer(v_indexer));
      panicked := db.Write(KvLookupKey(view), key);
    }

    /** `save`; `panicked` when LMDB rejects the lookup key or the record's
        key. */
    method Save(db: DatabaseEnvironment, embed: Embedder) returns (panicked: bool)
      modifies this, db
      ensures panicked == SavePanics(old(db.data), old(Record()))
      ensures !panicked ==> Record() == Saved(old(Record()), embed)
      ensures !panicked ==> db.data == AfterSave(old(db.data), old(Record()), embed)
      ensures panicked ==> db.data == AtSavePanic(old(db.data), old(Record()))
    {
      panicked := SetIndexes(db);
      if panicked {
        return;
      }
      var data_output := embed(documents);
      embeddings := data_output;
      var collection := EncodeCollection(Record());
      panicked := db.Write(key, collection);
    }

    /** `fetch_collection_keys` */
    static method FetchCollectionKeys(db: DatabaseEnvironment, views: bool) returns (indexer: KeyViewIndexer)
      ensures indexer == FetchKeys(db.data, views)
    {
      var b_key := VALENTINUS_KEYS;
      if views {
        b_key := VALENTINUS_VIEWS;
      }
      var keys := db.Read(b_key);
      indexer := ReadIndexer(keys);
    }

    /** The metadata filter of `query`, on this collection's embeddings;
        `panicked` when `Vec::remove` is handed an index out of range. */
    method FilterMetadata(s_metadata: Bytes) returns (panicked: bool)
      modifies this
      ensures panicked <==> Removal(old(embeddings), metadata, s_metadata).Panic?
      ensures !panicked ==> embeddings == Removal(old(embeddings), metadata, s_metadata).value
      ensures documents == old(documents) && metadata == old(metadata) && ids == old(ids)
      ensures key == old(key) && view == old(view)
    {
      panicked := false;
      var index := 0;
      var removals := 0;
      if s_metadata != [] {
        for m := 0 to |metadata|
          invariant index == m && removals <= m
          invariant Removal(old(embeddings), metadata, s_metadata) == RemovalFrom(embeddings, metadata, s_metadata, m, removals)
          invariant documents == old(documents) && metadata == old(metadata) && ids == old(ids)
          invariant key == old(key) && view == old(view)
        {
          if metadata[index] == s_metadata {
            if m - removals >= |embeddings| {
              return true;
            }
            embeddings := RemoveAt(embeddings, m - removals);
            removals := removals + 1;
          }
          index := index + 1;
        }
      }
    }

    /** `query`: the document nearest the query among the view's rows that
        survive the metadata filter. */
    static method Query(db: DatabaseEnvironment, query_string: Bytes, view_name: Bytes, metadata: Option<Bytes>,
                        embed: Embedder, nearest: Nearest) returns (r: Outcome<Bytes>)
      ensures r == QueryResult(db.data, query_string, view_name, metadata, embed, nearest)
    {
      var collection := Find(db, None, Some(view_name));
      var s_metadata := metadata.GetOr([]);
      var panicked := collection.FilterMetadata(s_metadata);
      if panicked {
        return Panic;
      }
      var qv_output := embed([query_string]);
      if |qv_output| == 0 {
        return Panic;
      }
      var n := nearest(collection.embeddings, qv_output[0]);
      if n >= |collection.documents| {
        return Panic;
      }
      r := Returned(collection.documents[n]);
    }
  }

  /** `find` */
  method Find(db: DatabaseEnvironment, key: Option<Bytes>, view: Option<Bytes>) returns (c: EmbeddingCollection)
    ensures fresh(c) && c.Record() == Found(db.data, key, view)
  {
    var record: Collection;
    if key.Some? {
      var collection := db.Read(key.value);
      record := ReadCollection(collection);
    } else {
      var s_view := view.GetOr([]);
      var k := db.Read(KvLookupKey(s_view));
      var collection := db.Read(k);
      record := ReadCollection(collection);
    }
    c := new EmbeddingCollection.FromRecord(record);
  }

  // ---------------------------------------------------------------------
  // The registry entries

  /** `set_indexes` writes each indexer once: an existing one keeps its
      contents (so after the first save the later ones are not listed), a
      missing one becomes the list of the one new entry. */
  lemma SetIndexesWriteOnce(m: Store, key: Bytes, view: Bytes)
    requires IsLookupKey(KvLookupKey(view))
    ensures var m' := AfterSetIndexes(m, key, view);
      (StoreKeyExists(m, VALENTINUS_KEYS) ==> FetchKeys(m', false) == FetchKeys(m, false)) &&
      (!StoreKeyExists(m, VALENTINUS_KEYS) ==> FetchKeys(m', false).values == [key]) &&
      (StoreKeyExists(m, VALENTINUS_VIEWS) ==> FetchKeys(m', true) == FetchKeys(m, true)) &&
      (!StoreKeyExists(m, VALENTINUS_VIEWS) ==> FetchKeys(m', true).values == [view])
  {
    var lookup := KvLookupKey(view);
    assert lookup[3] == 45 && VALENTINUS_KEYS[3] == 115 && VALENTINUS_VIEWS[0] == 118;
    IndexerRoundTrip(KeyViewIndexer([key]));
    IndexerRoundTrip(KeyViewIndexer([view]));
  }

  /** `save` on a collection made by `new`, with a fresh UUID and a view not
      registered before: `find` by the view, through the reverse lookup that
      `set_indexes` wrote under the key `find` reads, or by the key returns
      the collection with its embeddings. */
  lemma SaveThenFind(m: Store, c: Collection, embed: Embedder, id: Bytes, name: Bytes)
    requires c.key == CollectionKey(id) && IsUuidText(id) && c.view == CollectionView(name)
    requires !StoreKeyExists(m, c.key) && !StoreKeyExists(m, KvLookupKey(c.view))
    ensures var m' := AfterSave(m, c, embed);
      StoreRead(m', KvLookupKey(c.view)) == c.key &&
      Found(m', None, Some(c.view)) == Saved(c, embed) &&
      Found(m', Some(c.key), None) == Saved(c, embed)
  {
    StoreKeysDistinct(id, KvLookupKey(c.view));
    CollectionRoundTrip(Saved(c, embed));
  }

  /** Over a store whose keys LMDB accepts, `save` of a collection made by
      `new` panics exactly when the name is so long that the reverse lookup
      key "key-view-view-<name>" exceeds LMDB's limit; otherwise the store's
      keys stay valid. */
  lemma SavePanicsForLongNames(m: Store, c: Collection, embed: Embedder, id: Bytes, name: Bytes)
    requires KeysValid(m)
    requires c.key == CollectionKey(id) && IsUuidText(id) && c.view == CollectionView(name)
    ensures SavePanics(m, c) <==> |name| > MAX_KEY_SIZE - 14
    ensures !SavePanics(m, c) ==> KeysValid(AfterSave(m, c, embed))
  {
    var m1 := StoreWrite(m, VALENTINUS_KEYS, EncodeIndexer(KeyViewIndexer([c.key])));
    var m2 := AfterIndexers(m, c.key, c.view);
    WriteKeepsKeysValid(m, VALENTINUS_KEYS, EncodeIndexer(KeyViewIndexer([c.key])));
    WriteKeepsKeysValid(m1, VALENTINUS_VIEWS, EncodeIndexer(KeyViewIndexer([c.view])));
    WriteKeepsKeysValid(m2, KvLookupKey(c.view), c.key);
    if !SavePanics(m, c) {
      WriteKeepsKeysValid(AfterSetIndexes(m, c.key, c.view), c.key, EncodeCollection(Saved(c, embed)));
    }
  }

  /** `save` of the default collection, which `new` returns for a rejected
      name: the reverse lookup "key-view-" is accepted, and then the write of
      the record under the empty key panics. */
  lemma SaveDefaultPanics(m: Store)
    requires KeysValid(m)
    ensures SavePanics(m, DEFAULT_COLLECTION)
    ensures !WritePanics(AfterIndexers(m, [], []), KvLookupKey([]))
  {
    var c := DEFAULT_COLLECTION;
    var m1 := StoreWrite(m, VALENTINUS_KEYS, EncodeIndexer(KeyViewIndexer([c.key])));
    var m2 := AfterIndexers(m, c.key, c.view);
    WriteKeepsKeysValid(m, VALENTINUS_KEYS, EncodeIndexer(KeyViewIndexer([c.key])));
    WriteKeepsKeysValid(m1, VALENTINUS_VIEWS, EncodeIndexer(KeyViewIndexer([c.view])));
    WriteKeepsKeysValid(m2, KvLookupKey(c.view), c.key);
  }

  // ---------------------------------------------------------------------
  // The metadata filter

  /** One more entry of the metadata: it is counted, or its row is kept. */
  lemma KeptStep(e0: seq<Row>, metadata: seq<Bytes>, s: Bytes, m: nat)
    requires |e0| == |metadata| && m < |metadata|
    ensures Count(metadata[..m + 1], s) == Count(metadata[..m], s) + (if metadata[m] == s then 1 else 0)
    ensures Kept(e0[..m + 1], metadata[..m + 1], s) ==
      Kept(e0[..m], metadata[..m], s) + (if metadata[m] == s then [] else [e0[m]])
  {
    assert e0[..m + 1][..m] == e0[..m] && metadata[..m + 1][..m] == metadata[..m];
  }

  /** Removing the element just after a prefix of length i. */
  lemma RemoveAfter(kept: seq<Row>, x: Row, rest: seq<Row>)
    ensures RemoveAt(kept + [x] + rest, |kept|) == kept + rest
  {
    var s := kept + [x] + rest;
    assert s[..|kept|] == kept && s[|kept| + 1..] == rest;
  }

  /** One iteration of the loop keeps the loop state of `RemovalKeeps`. */
  lemma RemovalStep(e0: seq<Row>, metadata: seq<Bytes>, s: Bytes, m: nat, removals: nat)
    requires |e0| == |metadata| && m < |metadata|
    requires removals == Count(metadata[..m], s) && removals <= m
    ensures var e := Kept(e0[..m], metadata[..m], s) + e0[m..];
      var e' := Kept(e0[..m + 1], metadata[..m + 1], s) + e0[m + 1..];
      var removals' := Count(metadata[..m + 1], s);
      removals' <= m + 1 &&
      RemovalFrom(e, metadata, s, m, removals) == RemovalFrom(e', metadata, s, m + 1, removals')
  {
    var kept := Kept(e0[..m], metadata[..m], s);
    KeptStep(e0, metadata, s, m);
    assert e0[m..] == [e0[m]] + e0[m + 1..];
    var e := kept + e0[m..];
    assert e == kept + [e0[m]] + e0[m + 1..];
    assert |kept| == m - removals;
    if metadata[m] == s {
      RemoveAfter(kept, e0[m], e0[m + 1..]);
      assert RemoveAt(e, m - removals) == kept + e0[m + 1..];
      assert Kept(e0[..m + 1], metadata[..m + 1], s) == kept + [] == kept;
      assert RemovalFrom(e, metadata, s, m, removals) ==
        RemovalFrom(RemoveAt(e, m - removals), metadata, s, m + 1, removals + 1);
    } else {
      assert kept + [e0[m]] + e0[m + 1..] == (kept + [e0[m]]) + e0[m + 1..];
    }
  }

  /** The loop state at iteration m: the rows kept so far, then the rows not
      yet visited; `removals` counts the matches so far. */
  lemma {:induction false} RemovalKeeps(e0: seq<Row>, metadata: seq<Bytes>, s: Bytes, m: nat, removals: nat)
    requires |e0| == |metadata| && m <= |metadata|
    requires removals == Count(metadata[..m], s) && removals <= m
    ensures RemovalFrom(Kept(e0[..m], metadata[..m], s) + e0[m..], metadata, s, m, removals) ==
      Returned(Kept(e0, metadata, s))
    decreases |metadata| - m
  {
    if m == |metadata| {
      assert e0[..m] == e0 && metadata[..m] == metadata;
      assert Kept(e0, metadata, s) + e0[m..] == Kept(e0, metadata, s);
    } else {
      RemovalStep(e0, metadata, s, m, removals);
      RemovalKeeps(e0, metadata, s, m + 1, Count(metadata[..m + 1], s));
    }
  }

  /** With one embedding per metadata entry, the filter leaves exactly the
      rows whose metadata differs from `s`, in order; the empty string
      filters nothing. */
  lemma RemovalIsKept(e: seq<Row>, metadata: seq<Bytes>, s: Bytes)
    requires |e| == |metadata|
    ensures s != [] ==> Removal(e, metadata, s) == Returned(Kept(e, metadata, s))
    ensures s == [] ==> Removal(e, metadata, s) == Returned(e)
  {
    if s != [] {
      assert e[..0] == [] && metadata[..0] == [] && e[0..] == e;
      assert Kept(e[..0], metadata[..0], s) + e[0..] == e;
      RemovalKeeps(e, metadata, s, 0, 0);
    }
  }

  /** The two rows of the counterexample for src/embeddings.rs: here only
      the row carrying "a" is removed. */
  lemma RemovalExample(e0: Row, e1: Row)
    ensures Removal([e0, e1], [[97], [98]], [97]) == Returned([e1])
  {
    var meta: seq<Bytes> := [[97], [98]];
    RemovalIsKept([e0, e1], meta, [97]);
    var e: seq<Row> := [e0, e1];
    assert e[..1] == [e0] && meta[..1] == [[97]];
    assert e[..1][..0] == [] && meta[..1][..0] == [];
    assert Kept(e[..1], meta[..1], [97]) == [];
    assert Kept(e, meta, [97]) == [e1];
  }

  /** The filter is right but `query` still indexes the unfiltered
      documents with the filtered rows' index. Documents d0, d1 tagged "a"
      and "b", filter "a": the one row left is d1's, the nearest row is
      row 0, and `query` answers d0, the document the filter excluded. The
      aligned answer is d1. */
  lemma QueryAnswersExcludedDocument(d0: Bytes, d1: Bytes, e0: Row, e1: Row, q: Bytes, embed: Embedder,
                                     nearest: Nearest)
    requires |embed([q])| > 0 && nearest([e1], embed([q])[0]) == 0
    ensures var c := Collection([d0, d1], [e0, e1], [[97], [98]], [], [], []);
      Removal(c.embeddings, c.metadata, [97]) == Returned([e1]) &&
      Answer(c.(embeddings := [e1]), q, embed, nearest) == Returned(d0) &&
      AlignedAnswer(c, [97], q, embed, nearest) == Returned(d1)
  {
    RemovalExample(e0, e1);
    var meta: seq<Bytes> := [[97], [98]];
    var docs: seq<Bytes> := [d0, d1];
    var rows: seq<Row> := [e0, e1];
    assert docs[..1] == [d0] && meta[..1] == [[97]] && rows[..1] == [e0];
    assert docs[..1][..0] == [] && meta[..1][..0] == [] && rows[..1][..0] == [];
    assert Kept(docs, meta, [97]) == [d1];
    assert Kept(rows, meta, [97]) == [e1];
  }
}
