/** The collection registry of src/embeddings.rs. A collection is saved as
    one record under its key, plus three registry entries: the keys indexer
    ("keys"), the views indexer ("views") and the reverse lookup
    "key-<view>" that leads from a view to its key. The sentence-embedding
    model and the nearest-neighbour search are parameters. */
module Embeddings {
  import opened Wrappers
  import opened Database
  import opened Codec
  import opened Registry

  /** The reverse lookup key of a view, `format!("{}-{}", VALENTINUS_KEY, view)`. */
  function KvLookupKey(view: Bytes): (k: Bytes)
    ensures IsLookupKey(k) <==> |view| > 0 && view[0] == 118
  {
    assert (VALENTINUS_KEY + DASH + view)[..4] == VALENTINUS_KEY + DASH;
    VALENTINUS_KEY + DASH + view
  }

  // ---------------------------------------------------------------------
  // The store after each step of `save`

  /** The indexer under `index` with `x` pushed at the end. */
  function Appended(m: Store, index: Bytes, x: Bytes): KeyViewIndexer {
    KeyViewIndexer(ReadIndexer(StoreRead(m, index)).values + [x])
  }

  /** `set_key_indexes`: the extended list is written without deleting the
      old one first. */
  function AfterKeyIndexes(m: Store, key: Bytes): Store {
    StoreWrite(m, VALENTINUS_KEYS, EncodeIndexer(Appended(m, VALENTINUS_KEYS, key)))
  }

  /** `set_kv_index` */
  function AfterKvIndex(m: Store, key: Bytes, view: Bytes): Store {
    StoreWrite(m, KvLookupKey(view), key)
  }

  /** `set_view_indexes`: delete, then write the extended list. */
  function AfterViewIndexes(m: Store, view: Bytes): Store {
    StoreWrite(StoreDelete(m, VALENTINUS_VIEWS), VALENTINUS_VIEWS, EncodeIndexer(Appended(m, VALENTINUS_VIEWS, view)))
  }

  /** The collection once `save` has set its embeddings. */
  function Saved(c: Collection, embed: Embedder): Collection {
    c.(embeddings := embed(c.documents))
  }

  /** The three registry steps of `save`. */
  function AfterRegistry(m: Store, c: Collection): Store {
    AfterViewIndexes(AfterKvIndex(AfterKeyIndexes(m, c.key), c.key, c.view), c.view)
  }

  /** `save`: the three registry steps, then the record under the key. */
  function AfterSave(m: Store, c: Collection, embed: Embedder): Store {
    StoreWrite(AfterRegistry(m, c), c.key, EncodeCollection(Saved(c, embed)))
  }

  /** `save` panics: the write of the reverse lookup or of the record hands
      LMDB a key it rejects. The two indexer keys are always accepted. */
  predicate SavePanics(m: Store, c: Collection) {
    WritePanics(AfterKeyIndexes(m, c.key), KvLookupKey(c.view)) || WritePanics(AfterRegistry(m, c), c.key)
  }

  /** The store a panicking `save` leaves: the steps before the failing
      write stay committed. */
  function AtSavePanic(m: Store, c: Collection): Store {
    if WritePanics(AfterKeyIndexes(m, c.key), KvLookupKey(c.view)) then AfterKeyIndexes(m, c.key)
    else AfterRegistry(m, c)
  }

  /** `find` */
  function Found(m: Store, key: Option<Bytes>, view: Option<Bytes>): Collection {
    FindIn(m, key, KvLookupKey(view.GetOr([])))
  }

  // ---------------------------------------------------------------------
  // The metadata filter of `query`

  /** The loop of `query` from iteration `m` on, with `removals` rows
      removed so far: row `m - removals` is removed when the metadata at
      that same position (the metadata list itself never shrinks) equals
      `s`. */
  function RemovalFrom(e: seq<Row>, metadata: seq<Bytes>, s: Bytes, m: nat, removals: nat): Outcome<seq<Row>>
    requires removals <= m
    decreases |metadata| - m
  {
    if m >= |metadata| then Returned(e)
    else
      var real_index := m - removals;
      if metadata[real_index] == s then
        if real_index >= |e| then Panic
        else RemovalFrom(RemoveAt(e, real_index), metadata, s, m + 1, removals + 1)
      else RemovalFrom(e, metadata, s, m + 1, removals)
  }

  /** The embeddings left by the metadata filter of `query`; no filter for
      the empty string. */
  function Removal(e: seq<Row>, metadata: seq<Bytes>, s: Bytes): Outcome<seq<Row>> {
    if s == [] then Returned(e) else RemovalFrom(e, metadata, s, 0, 0)
  }

  /** `query` on the store `m`. */
  function QueryResult(m: Store, query_string: Bytes, view_name: Bytes, metadata: Option<Bytes>, embed: Embedder,
                       nearest: Nearest): Outcome<Bytes>
  {
    var c := Found(m, None, Some(view_name));
    match Removal(c.embeddings, c.metadata, metadata.GetOr([]))
    case Panic => Panic
    case Returned(e) => Answer(c.(embeddings := e), query_string, embed, nearest)
  }

  class EmbeddingCollection {
    var documents: seq<Bytes>
    var embeddings: seq<Row>
    var metadata: seq<Bytes>
    var ids: seq<Bytes>
    var key: Bytes
    var view: Bytes

    /** The fields, as serialized. */
    function Record(): Collection
      reads this
    {
      Collection(documents, embeddings, metadata, ids, key, view)
    }

    /** `EmbeddingCollection::new`, with `id` the text of the fresh UUID. */
    constructor New(documents: seq<Bytes>, metadata: seq<Bytes>, ids: seq<Bytes>, name: Bytes, id: Bytes,
                    db: DatabaseEnvironment)
      ensures Record() == NewRecord(documents, metadata, ids, name, id, StoreRead(db.data, VALENTINUS_VIEWS))
    {
      var valid := ValidViewName(name);
      var view_indexer := EMPTY_INDEXER;
      if valid {
        var views := db.Read(VALENTINUS_VIEWS);
        view_indexer := ReadIndexer(views);
      }
      if !valid || name in view_indexer.values {
        this.documents, this.embeddings, this.metadata, this.ids, this.key, this.view := [], [], [], [], [], [];
      } else {
        this.documents, this.embeddings, this.metadata, this.ids := documents, [], metadata, ids;
        this.key, this.view := CollectionKey(id), CollectionView(name);
      }
    }

    /** The result of `serde_json::from_str` on a stored record. */
    constructor FromRecord(c: Collection)
      ensures Record() == c
    {
      documents, embeddings, metadata, ids, key, view := c.documents, c.embeddings, c.metadata, c.ids, c.key, c.view;
    }

    /** `set_key_indexes` */
    method SetKeyIndexes(db: DatabaseEnvironment)
      modifies db
      ensures db.data == AfterKeyIndexes(old(db.data), key)
    {
      var b_keys := db.Read(VALENTINUS_KEYS);
      var kv_index := ReadIndexer(b_keys);
      var current_keys: seq<Bytes> := [];
      if kv_index.values != [] {
        for i := 0 to |kv_index.values|
          invariant current_keys == kv_index.values[..i]
        {
          current_keys := current_keys + [kv_index.values[i]];
        }
      }
      assert current_keys == kv_index.values;
      current_keys := current_keys + [key];
      var panicked := db.Write(VALENTINUS_KEYS, EncodeIndexer(KeyViewIndexer(current_keys)));
    }

    /** `set_kv_index`; `panicked` when LMDB rejects the lookup key. */
    method SetKvIndex(db: DatabaseEnvironment) returns (panicked: bool)
      modifies db
      ensures panicked == WritePanics(old(db.data), KvLookupKey(view))
      ensures db.data == if panicked then old(db.data) else AfterKvIndex(old(db.data), key, view)
    {
      panicked := db.Write(KvLookupKey(view), key);
    }

    /** `set_view_indexes` */
    method SetViewIndexes(db: DatabaseEnvironment)
      modifies db
      ensures db.data == AfterViewIndexes(old(db.data), view)
    {
      var b_keys := db.Read(VALENTINUS_VIEWS);
      var kv_index := ReadIndexer(b_keys);
      var current_keys: seq<Bytes> := [];
      if kv_index.values != [] {
        for i := 0 to |kv_index.values|
          invariant current_keys == kv_index.values[..i]
        {
          current_keys := current_keys + [kv_index.values[i]];
        }
      }
      assert current_keys == kv_index.values;
      current_keys := current_keys + [view];
      db.Delete(VALENTINUS_VIEWS);
      var panicked := db.Write(VALENTINUS_VIEWS, EncodeIndexer(KeyViewIndexer(current_keys)));
    }

    /** `save`: registers the collection, sets its embeddings from the model
        and stores the record under its key; `panicked` when LMDB rejects the
        lookup key or the record's key. */
    method Save(db: DatabaseEnvironment, embed: Embedder) returns (panicked: bool)
      modifies this, db
      ensures panicked == SavePanics(old(db.data), old(Record()))
      ensures !panicked ==> Record() == Saved(old(Record()), embed)
      ensures !panicked ==> db.data == AfterSave(old(db.data), old(Record()), embed)
      ensures panicked ==> db.data == AtSavePanic(old(db.data), old(Record()))
    {
      SetKeyIndexes(db);
      panicked := SetKvIndex(db);
      if panicked {
        return;
      }
      SetViewIndexes(db);
      var data_output := embed(documents);
      embeddings := data_output;
      var collection := EncodeCollection(Record());
      panicked := db.Write(key, collection);
    }

    /** `fetch_collection_keys` */
    static method FetchCollectionKeys(db: DatabaseEnvironment, views: bool) returns (indexer: KeyViewIndexer)
      ensures indexer == FetchKeys(db.data, views)
    {
      var b_key := VALENTINUS_KEYS;
      if views {
        b_key := VALENTINUS_VIEWS;
      }
      var keys := db.Read(b_key);
      indexer := ReadIndexer(keys);
    }

    /** The metadata filter of `query`, on this collection's embeddings;
        `panicked` when `Vec::remove` is handed an index out of range. */
    method FilterMetadata(s_metadata: Bytes) returns (panicked: bool)
      modifies this
      ensures panicked <==> Removal(old(embeddings), metadata, s_metadata).Panic?
      ensures !panicked ==> embeddings == Removal(old(embeddings), metadata, s_metadata).value
      ensures documents == old(documents) && metadata == old(metadata) && ids == old(ids)
      ensures key == old(key) && view == old(view)
    {
      panicked := false;
      var removals := 0;
      if s_metadata != [] {
        for m := 0 to |metadata|
          invariant removals <= m
          invariant Removal(old(embeddings), metadata, s_metadata) == RemovalFrom(embeddings, metadata, s_metadata, m, removals)
          invariant documents == old(documents) && metadata == old(metadata) && ids == old(ids)
          invariant key == old(key) && view == old(view)
        {
          var real_index := m - removals;
          if metadata[real_index] == s_metadata {
            if real_index >= |embeddings| {
              return true;
            }
            embeddings := RemoveAt(embeddings, real_index);
            removals := removals + 1;
          }
        }
      }
    }

    /** `query`: the document nearest the query among the view's rows that
        survive the metadata filter. */
    static method Query(db: DatabaseEnvironment, query_string: Bytes, view_name: Bytes, metadata: Option<Bytes>,
                        embed: Embedder, nearest: Nearest) returns (r: Outcome<Bytes>)
      ensures r == QueryResult(db.data, query_string, view_name, metadata, embed, nearest)
    {
      var collection := Find(db, None, Some(view_name));
      var s_metadata := metadata.GetOr([]);
      var panicked := collection.FilterMetadata(s_metadata);
      if panicked {
        return Panic;
      }
      var qv_output := embed([query_string]);
      if |qv_output| == 0 {
        return Panic;
      }
      var n := nearest(collection.embeddings, qv_output[0]);
      if n >= |collection.documents| {
        return Panic;
      }
      r := Returned(collection.documents[n]);
    }

    /** `delete`: removes the record of the collection the view finds. */
    static method Delete(db: DatabaseEnvironment, view_name: Bytes)
      modifies db
      ensures db.data == StoreDelete(old(db.data), Found(old(db.data), None, Some(view_name)).key)
    {
      var collection := Find(db, None, Some(view_name));
      var s_key := collection.key;
      db.Delete(s_key);
    }
  }

  /** `find` */
  method Find(db: DatabaseEnvironment, key: Option<Bytes>, view: Option<Bytes>) returns (c: EmbeddingCollection)
    ensures fresh(c) && c.Record() == Found(db.data, key, view)
  {
    var record: Collection;
    if key.Some? {
      var collection := db.Read(key.value);
      record := ReadCollection(collection);
    } else {
      var s_view := view.GetOr([]);
      var k := db.Read(KvLookupKey(s_view));
      var collection := db.Read(k);
      record := ReadCollection(collection);
    }
    c := new EmbeddingCollection.FromRecord(record);
  }

  // ---------------------------------------------------------------------
  // The registry entries

  /** Once the keys indexer exists, `set_key_indexes` changes nothing: the
      new key never reaches the store. Before that it writes the list of the
      one new key. */
  lemma KeyIndexesWriteOnce(m: Store, key: Bytes)
    ensures StoreKeyExists(m, VALENTINUS_KEYS) ==> AfterKeyIndexes(m, key) == m
    ensures !StoreKeyExists(m, VALENTINUS_KEYS) ==>
      ReadIndexer(StoreRead(AfterKeyIndexes(m, key), VALENTINUS_KEYS)).values == [key]
  {
    IndexerRoundTrip(Appended(m, VALENTINUS_KEYS, key));
  }

  /** `set_view_indexes` appends the view to the views indexer, in order,
      and touches no other key. */
  lemma ViewIndexesAppend(m: Store, view: Bytes)
    ensures ReadIndexer(StoreRead(AfterViewIndexes(m, view), VALENTINUS_VIEWS)).values ==
      ReadIndexer(StoreRead(m, VALENTINUS_VIEWS)).values + [view]
    ensures forall j :: j != VALENTINUS_VIEWS ==> StoreRead(AfterViewIndexes(m, view), j) == StoreRead(m, j)
  {
    IndexerRoundTrip(Appended(m, VALENTINUS_VIEWS, view));
  }

  /** The store keys of a collection made by `new`: its record's key and its
      reverse lookup are distinct from each other and from both indexers. */
  lemma NewKeysDistinct(c: Collection, id: Bytes, name: Bytes)
    requires c.key == CollectionKey(id) && IsUuidText(id) && c.view == CollectionView(name)
    ensures IsLookupKey(KvLookupKey(c.view))
    ensures c.key != VALENTINUS_KEYS && c.key != VALENTINUS_VIEWS && c.key != KvLookupKey(c.view)
    ensures KvLookupKey(c.view) != VALENTINUS_KEYS && KvLookupKey(c.view) != VALENTINUS_VIEWS
  {
    assert c.view[0] == 118;
    StoreKeysDistinct(id, KvLookupKey(c.view));
  }

  /** `save` on a collection made by `new`, with a fresh UUID and a view not
      registered before: the reverse lookup leads to the key, and `find` by
      view or by key returns the collection with its embeddings. */
  lemma SaveThenFind(m: Store, c: Collection, embed: Embedder, id: Bytes, name: Bytes)
    requires c.key == CollectionKey(id) && IsUuidText(id) && c.view == CollectionView(name)
    requires !StoreKeyExists(m, c.key) && !StoreKeyExists(m, KvLookupKey(c.view))
    ensures var m' := AfterSave(m, c, embed);
      StoreRead(m', KvLookupKey(c.view)) == c.key &&
      Found(m', None, Some(c.view)) == Saved(c, embed) &&
      Found(m', Some(c.key), None) == Saved(c, embed)
  {
    NewKeysDistinct(c, id, name);
    CollectionRoundTrip(Saved(c, embed));
  }

  /** `save` appends the view to the views indexer and leaves an existing
      keys indexer as it was. */
  lemma SaveIndexers(m: Store, c: Collection, embed: Embedder, id: Bytes, name: Bytes)
    requires c.key == CollectionKey(id) && IsUuidText(id) && c.view == CollectionView(name)
    ensures var m' := AfterSave(m, c, embed);
      FetchKeys(m', true).values == FetchKeys(m, true).values + [c.view] &&
      (StoreKeyExists(m, VALENTINUS_KEYS) ==> FetchKeys(m', false) == FetchKeys(m, false)) &&
      (!StoreKeyExists(m, VALENTINUS_KEYS) ==> FetchKeys(m', false).values == [c.key])
  {
    NewKeysDistinct(c, id, name);
    var m1 := AfterKeyIndexes(m, c.key);
    var m2 := AfterKvIndex(m1, c.key, c.view);
    KeyIndexesWriteOnce(m, c.key);
    ViewIndexesAppend(m2, c.view);
  }

  /** `delete` after `save`: the view no longer finds the collection, while
      both indexers and the reverse lookup stay as they were. */
  lemma DeleteAfterSave(m: Store, c: Collection, embed: Embedder, id: Bytes, name: Bytes)
    requires c.key == CollectionKey(id) && IsUuidText(id) && c.view == CollectionView(name)
    requires !StoreKeyExists(m, c.key) && !StoreKeyExists(m, KvLookupKey(c.view))
    ensures var m1 := AfterSave(m, c, embed);
      var m2 := StoreDelete(m1, Found(m1, None, Some(c.view)).key);
      Found(m2, None, Some(c.view)) == DEFAULT_COLLECTION &&
      StoreRead(m2, VALENTINUS_KEYS) == StoreRead(m1, VALENTINUS_KEYS) &&
      StoreRead(m2, VALENTINUS_VIEWS) == StoreRead(m1, VALENTINUS_VIEWS) &&
      StoreRead(m2, KvLookupKey(c.view)) == c.key
  {
    SaveThenFind(m, c, embed, id, name);
    NewKeysDistinct(c, id, name);
    NotACollection(EMPTY_INDEXER);
  }

  /** Over a store whose keys LMDB accepts, `save` of a collection made by
      `new` panics exactly when the name is so long that the reverse lookup
      key exceeds LMDB's limit; otherwise the store's keys stay valid. */
  lemma SavePanicsForLongNames(m: Store, c: Collection, embed: Embedder, id: Bytes, name: Bytes)
    requires KeysValid(m)
    requires c.key == CollectionKey(id) && IsUuidText(id) && c.view == CollectionView(name)
    ensures SavePanics(m, c) <==> |name| > MAX_KEY_SIZE - 9
    ensures !SavePanics(m, c) ==> KeysValid(AfterSave(m, c, embed))
  {
    var m1 := AfterKeyIndexes(m, c.key);
    WriteKeepsKeysValid(m, VALENTINUS_KEYS, EncodeIndexer(Appended(m, VALENTINUS_KEYS, c.key)));
    WriteKeepsKeysValid(m1, KvLookupKey(c.view), c.key);
    if !SavePanics(m, c) {
      var m2 := AfterKvIndex(m1, c.key, c.view);
      var m2' := StoreDelete(m2, VALENTINUS_VIEWS);
      assert KeysValid(m2');
      WriteKeepsKeysValid(m2', VALENTINUS_VIEWS, EncodeIndexer(Appended(m2, VALENTINUS_VIEWS, c.view)));
      WriteKeepsKeysValid(AfterRegistry(m, c), c.key, EncodeCollection(Saved(c, embed)));
    }
  }

  /** `save` of the default collection, which `new` returns for a rejected
      name: the empty view is appended to the views indexer (the reverse
      lookup "key-" is accepted), and then the write of the record under the
      empty key panics. */
  lemma SaveDefaultPanics(m: Store)
    requires KeysValid(m)
    ensures SavePanics(m, DEFAULT_COLLECTION)
    ensures !WritePanics(AfterKeyIndexes(m, []), KvLookupKey([]))
    ensures FetchKeys(AtSavePanic(m, DEFAULT_COLLECTION), true).values == FetchKeys(m, true).values + [[]]
  {
    var c := DEFAULT_COLLECTION;
    var m1 := AfterKeyIndexes(m, c.key);
    var m2 := AfterKvIndex(m1, c.key, c.view);
    WriteKeepsKeysValid(m, VALENTINUS_KEYS, EncodeIndexer(Appended(m, VALENTINUS_KEYS, c.key)));
    WriteKeepsKeysValid(m1, KvLookupKey(c.view), c.key);
    assert StoreRead(m2, VALENTINUS_VIEWS) == StoreRead(m, VALENTINUS_VIEWS);
    ViewIndexesAppend(m2, c.view);
    assert StoreRead(AfterRegistry(m, c), []) == StoreRead(m, []);
  }

  // ---------------------------------------------------------------------
  // The metadata filter

  /** The position of the first `s` in `xs`, or `|xs|`. */
  function FirstIndex(xs: seq<Bytes>, s: Bytes): (p: nat)
    ensures p <= |xs|
    ensures forall i :: 0 <= i < p ==> xs[i] != s
    ensures p < |xs| ==> xs[p] == s
  {
    if xs == [] then 0 else if xs[0] == s then 0 else 1 + FirstIndex(xs[1..], s)
  }

  /** Once position p matched, every later iteration removes row p again. */
  lemma {:induction false} RemovalTail(e: seq<Row>, metadata: seq<Bytes>, s: Bytes, m: nat, p: nat)
    requires p <= m <= |metadata| && p < |metadata| && metadata[p] == s
    requires |e| == p + |metadata| - m
    ensures RemovalFrom(e, metadata, s, m, m - p) == Returned(e[..p])
    decreases |metadata| - m
  {
    if m < |metadata| {
      var e' := RemoveAt(e, p);
      RemovalTail(e', metadata, s, m + 1, p);
      assert e'[..p] == e[..p];
    } else {
      assert e[..p] == e;
    }
  }

  lemma {:induction false} RemovalHead(e: seq<Row>, metadata: seq<Bytes>, s: Bytes, m: nat)
    requires |e| == |metadata| && m <= FirstIndex(metadata, s)
    ensures RemovalFrom(e, metadata, s, m, 0) == Returned(e[..FirstIndex(metadata, s)])
    decreases |metadata| - m
  {
    var p := FirstIndex(metadata, s);
    if m == p {
      if p < |metadata| {
        RemovalTail(e, metadata, s, m, p);
      } else {
        assert e[..p] == e;
      }
    } else {
      RemovalHead(e, metadata, s, m + 1);
    }
  }

  /** With one embedding per metadata entry, the filter as written does not
      drop the matching rows: it keeps exactly the rows before the first
      match, and every row when nothing matches or the filter is empty. */
  lemma RemovalKeepsPrefix(e: seq<Row>, metadata: seq<Bytes>, s: Bytes)
    requires |e| == |metadata|
    ensures s != [] ==> Removal(e, metadata, s) == Returned(e[..FirstIndex(metadata, s)])
    ensures s == [] || s !in metadata ==> Removal(e, metadata, s) == Returned(e)
  {
    if s != [] {
      RemovalHead(e, metadata, s, 0);
      if s !in metadata {
        assert FirstIndex(metadata, s) == |metadata|;
        assert e[..|e|] == e;
      }
    }
  }

  /** Two rows with metadata "a" and "b" and the filter "a": both rows are
      removed, although only the first carries "a". */
  lemma RemovalCounterexample(e0: Row, e1: Row)
    ensures Removal([e0, e1], [[97], [98]], [97]) == Returned([])
    ensures Kept([e0, e1], [[97], [98]], [97]) == [e1]
  {
    var meta: seq<Bytes> := [[97], [98]];
    RemovalKeepsPrefix([e0, e1], meta, [97]);
    assert FirstIndex(meta, [97]) == 0;
    assert [e0, e1][1..] == [e1];
    assert meta[1..] == [[98]];
  }

  /** Without a metadata argument `query` filters nothing. */
  lemma QueryWithoutMetadata(m: Store, query_string: Bytes, view_name: Bytes, embed: Embedder, nearest: Nearest)
    ensures QueryResult(m, query_string, view_name, None, embed, nearest) ==
      Answer(Found(m, None, Some(view_name)), query_string, embed, nearest)
  {
  }
}
