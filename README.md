# valentinus, modelled in Dafny

valentinus is an embedded vector store. It keeps *embedding collections* in
an LMDB key/value environment. Each collection bundles documents, their
sentence embeddings, one metadata string per document and document ids.
It is stored as one serialized record under its key (`key-<uuid>`). Beside
the records there are three kinds of registry entry: the keys indexer under
`keys`, the views indexer under `views`, and a reverse lookup that leads
from a collection's view (`view-<name>`) to its key. Queries pick the
document nearest to a query embedding, with an optional metadata filter.
Two JSON filter languages decide whether a metadata document satisfies a
list of filters.

This project models four parts:

- the key/value store: a map that refuses to overwrite a key or to delete
  a missing one (`database.dfy`);
- both revisions of the metadata filter language: the newer one
  (`md2f.dfy`) and the older, typed one (`filter.dfy`), over a JSON value
  datatype (`json.dfy`);
- the stored forms of indexers and collections, as an injective byte
  encoding with a proved round trip (`codec.dfy`);
- both revisions of the collection registry: `embeddings.dfy`, the older
  `embeddings_mod.dfy`, and what the two share in `registry.dfy`.

Rust panics are an explicit `Panic` outcome, or a `panicked` result of a
method, for these causes:

- in the filter languages: a key list indexed past its end (`key[index]`,
  `keys()[0]`), for example an empty operator object;
- in `query`: `Vec::remove` out of range, `[0]` of an empty query
  embedding, and `documents[nearest]` out of range;
- in the store: the `unwrap` of LMDB's `put` when `write` hands it a key
  LMDB rejects, that is an empty key or one longer than 511 bytes, and,
  over `read` as written, the `unwrap` of `del` for an absent key.

Three behaviours of the code that a reader may not expect, which the
model keeps:

- `delete` in src/embeddings.rs removes only the record. The keys indexer,
  the views indexer and the reverse lookup stay as they were.
- The two registry revisions use different reverse lookup keys:
  `key-<view>` in src/embeddings.rs and `key-view-<view>` in
  src/embeddings/mod.rs.
- src/database.rs `read` positions its cursor with operation code 0, which
  is LMDB's `MDB_FIRST`, rather than at the requested key (first row of "## Findings").
  The rest of the model reads the store by key, which the callers
  evidently expect.

`new` returns the default collection, with empty key and view, for a
rejected name. `save` of that collection registers the empty view and then
panics at the write of the record under the empty key.

## Model

| member | source | states |
|---|---|---|
| Database.StoreRead | src/database.rs:56-79 | a key that is absent reads as the empty sequence, a present key as its value |
| Database.StoreKeyExists | src/database.rs:98-102 | a key exists exactly when it is bound to a non-empty value, so a key bound to the empty value counts as absent |
| Database.StoreWrite | src/database.rs:39-55 | writing an existing key leaves the whole store unchanged; otherwise k is bound to v, the key set grows by k, and every other key reads as before |
| Database.StoreDelete | src/database.rs:81-96 | deleting an absent key is a no-op; otherwise k reads as empty afterwards, the key set shrinks by k, and every other key reads as before |
| Database.WriteThenRead | src/database.rs:117-124 | a write to a free key reads back; a second write of the same key changes nothing |
| Database.WriteDeleteDelete | src/database.rs:117-130 | write then delete leaves the key reading as empty, and a second delete changes nothing |
| Database.DatabaseEnvironment.Read | src/database.rs:61-79 | returns the value under the key, or the empty sequence |
| Database.DatabaseEnvironment.KeyExists | src/database.rs:98-102 | true exactly when the read is non-empty |
| Database.DatabaseEnvironment.Write | src/database.rs:39-55 | panics exactly when k is free and LMDB rejects it, leaving the store as it was (the transaction aborts); otherwise the store becomes the non-overwriting write of k and v |
| Database.WriteKeepsKeysValid | src/database.rs:42-50 | over a store whose keys LMDB accepts, a write panics exactly for a rejected key, and a write that does not panic keeps every key accepted |
| Database.DatabaseEnvironment.Delete | src/database.rs:81-96 | the store becomes the delete of k, which does nothing when k is absent |
| Database.FirstKeyExists | src/database.rs:68 | every non-empty key set has a least key in LMDB's byte order |
| Database.ReadAsWritten | src/database.rs:61-79 | read as written returns the value of the first record in byte order whatever key is asked for, and empty for an empty store |
| Database.ReadAsWrittenReturnsFirstRecord | src/database.rs:68 | in a store holding keys [1] and [2], reading key [2] as written returns the value of key [1] |
| Database.KeyExistsAsWrittenIsFirstRecord | src/database.rs:39-102 | over `read` as written, whether any key exists is decided by the first record's value alone; once it is non-empty, `write` refuses every key and `delete` of an absent key panics; in an empty store `delete` refuses every key |
| Database.WriteDeleteAsWrittenExample | src/database.rs:84-90 | with the one record [1] := [7], as written a write of the free key [2] is refused and its delete panics, where the by-key store binds [2] and refuses the delete |
| Json.GetAscending | src/filter.rs:72-78 | in a parsed object, whose keys are ascending, looking up the i-th key finds the i-th entry |
| Json.Index | src/filter.rs:78 | `value[key]` is the entry's value, or `Null` when there is no such entry or the value is not an object |
| Json.AsObject | src/filter.rs:67 | `as_object` gives the entries exactly for an object |
| Json.AsStr | src/filter.rs:79-82 | `as_str` gives the text exactly for a string |
| Json.AsU64 | src/filter.rs:221 | `as_u64` gives the number exactly for a non-negative integer |
| Json.AsI64 | src/filter.rs:311 | `as_i64` gives the number exactly for a negative integer or a non-negative one up to the i64 maximum |
| Json.AsF64 | src/filter.rs:401 | `as_f64` gives the number exactly for a floating-point number |
| Md2f.GetEnum | src/md2f.rs:25-34 | "gt", "gte", "lt" and "lte" map to their operations; every other string, "eq" and "in" included, maps to `EqualTo`; nothing maps to `Noop` |
| Md2f.CreateFilter | src/md2f.rs:78-153 | `Err(SerdeJsonError)` exactly for invalid JSON; a panic exactly for an empty object or an empty operator object |
| Md2f.CreateFilterMetadata | src/md2f.rs:97-123 | a document without an operator object gives a `Noop` filter on its first key: a string filter for a string value, otherwise a u64 filter holding the value or 0 |
| Md2f.CreateFilterOperator | src/md2f.rs:124-152 | an operator object gives its first operator with a string or u64 operand; any other operand gives the default string filter (empty key, `Noop`) |
| Md2f.Eq | src/md2f.rs:154-159 | true exactly for an `EqualTo` filter with the same key and value |
| Md2f.Gt | src/md2f.rs:160-165 | true exactly for a `GreaterThan` filter on the same key whose value is below the metadata value |
| Md2f.Gte | src/md2f.rs:166-171 | true exactly for a `GreaterThanEqualTo` filter on the same key whose value is at most the metadata value |
| Md2f.Lt | src/md2f.rs:172-177 | true exactly for a `LessThan` filter on the same key whose value is above the metadata value |
| Md2f.Lte | src/md2f.rs:178-183 | true exactly for a `LessThanEqualTo` filter on the same key whose value is at least the metadata value |
| Md2f.ComparisonsTrichotomy | src/md2f.rs:160-183 | on one key, exactly one of gt, lt and "equal values" holds; gte is gt or equal, and lte is lt or equal |
| Md2f.ProcessFilter | src/md2f.rs:186-225 | panics exactly when one of the two documents panics; fails exactly when either is invalid JSON |
| Md2f.ProcessFilterTrue | src/md2f.rs:194-224 | a match needs a filter with an operator, of the same kind and on the same key as the metadata; a string match needs `EqualTo` and equal text |
| Md2f.NumberFilterMeaning | src/md2f.rs:210-224 | a filter `{K:{op:n}}` against metadata `{K':v}` holds exactly when K = K' and v stands in the operator's relation to n |
| Md2f.StringFilterMeaning | src/md2f.rs:194-203 | a filter `{K:{op:s}}` against metadata `{K':t}` holds exactly when op maps to `EqualTo`, K = K' and s = t |
| Md2f.MixedKindsNeverMatch | src/md2f.rs:194-224 | a string filter never matches u64 metadata, and a u64 filter never matches string metadata |
| Md2f.NoopNeverMatches | src/md2f.rs:97-123 | a metadata-shaped filter, or one whose operand is neither a string nor a u64, never matches |
| Md2f.ScanPairs | src/md2f.rs:232-247 | the nested loop returns the scan of all (metadata, filter) results in loop order, with the running counter |
| Md2f.FilterWhere | src/md2f.rs:232-247 | `filter_where` is the counted scan of `process_filter` over metadata × filters |
| Md2f.FilterWhereCountsPairs | src/md2f.rs:233-246 | with no failing pair, the result is true exactly when there are filters and the matching pairs number at least the filters |
| Md2f.FilterWhereFailure | src/md2f.rs:237 | a failure is always the failure of some pair, and it is the first failing pair's unless enough pairs matched before it |
| Md2f.FilterWhereEmpty | src/md2f.rs:233-246 | no filters, or no metadata, gives `Ok(false)` |
| Md2f.UnmatchedFilter | src/md2f.rs:227-231 | a filter that no document matches means not every filter is matched |
| Md2f.SearchEachFilter | src/md2f.rs:227-231 | a successful result is true exactly when there are filters and each one is matched by some document; a failure comes from some pair; with no failing pair there is no failure |
| Md2f.FilterWhereDistinct | src/md2f.rs:227-247 | the documented conjunction, with every filter matched by at least one document, searched filter by filter |
| Md2f.YearEqualExample | src/md2f.rs:232-247 | `{"Year":{"eq":2017}}` holds over two documents of which one has Year 2017 |
| Md2f.YearOtherExample | src/md2f.rs:232-247 | `{"Year":{"eq":2018}}` fails over the same documents |
| Md2f.RatingGreaterExample | src/md2f.rs:232-247 | `{"Rating":{"gt":3}}` holds when a document has a rating above 3 |
| Md2f.OverCount | src/md2f.rs:238-242 | two documents that both satisfy the first filter make `filter_where` true, although no document satisfies the second |
| Filter.GetEnum | src/filter.rs:18-28 | "gt", "gte", "in", "lt" and "lte" map to their operations; every other string maps to `EqualTo`; nothing maps to `Noop` |
| Filter.Default | src/filter.rs:42-50 | the default filter has an empty key, the type's zero value and `Noop` |
| Filter.AsStrArray | src/filter.rs:144-150 | an array becomes its elements' text, with "" for each non-string element; anything else is no array |
| Filter.CreateFilter | src/filter.rs:59-95 | the enumerate loop with its early returns equals the recursive reading from position 0 |
| Filter.CreateFilterStep | src/filter.rs:60-93 | one iteration panics, returns the default, returns a filter read from the current document, or moves on |
| Filter.CreateFilterKey | src/filter.rs:60-85 | a filter other than the default comes from some document `raw[i]`, read with that document's i-th key in sorted order |
| Filter.MetadataFirstDocumentOnly | src/filter.rs:76-84 | when the first document is not an operator object, the later documents are never consulted; its first entry gives a `Noop` filter or the default |
| Filter.SingleFilterDocument | src/filter.rs:86-93 | a one-document filter is its first operator on its first key, or the default when the operand has another type |
| Filter.Eq | src/filter.rs:96-101 | true exactly for an `EqualTo` filter with the same key and value |
| Filter.Gt | src/filter.rs:235-264 | true exactly for a `GreaterThan` filter on the same key whose value is below the metadata value |
| Filter.Gte | src/filter.rs:235-264 | true exactly for a `GreaterThanEqualTo` filter on the same key whose value is at most the metadata value |
| Filter.Lt | src/filter.rs:325-354 | true exactly for a `LessThan` filter on the same key whose value is above the metadata value |
| Filter.Lte | src/filter.rs:325-354 | true exactly for a `LessThanEqualTo` filter on the same key whose value is at least the metadata value |
| Filter.VIn | src/filter.rs:168-173 | true exactly for an `In` filter whose list holds the metadata value |
| Filter.OrderedMatchSplits | src/filter.rs:235-264 | under an order that is strict and total on the two values, on one key exactly one of eq, gt and lt holds, gte is gt or eq, and lte is lt or eq |
| Filter.OrderedMatchTrichotomy | src/filter.rs:477-532 | that split holds for the u64, i64 and f64 comparisons `process_u64_filter`, `process_i64_filter` and `process_f64_filter` dispatch to |
| Filter.ProcessString | src/filter.rs:447-460 | panics exactly when a document panics; true exactly for an `EqualTo` string filter with a non-empty key that equals the metadata |
| Filter.ProcessStringArray | src/filter.rs:462-475 | never true: `v_in` is called only under `EqualTo`, yet it holds only under `In` |
| Filter.ProcessU64 | src/filter.rs:477-494 | panics exactly when a document panics; true exactly when the filter's key is non-empty and its operator's u64 comparison holds |
| Filter.ProcessI64 | src/filter.rs:496-513 | the same for i64 |
| Filter.ProcessF64 | src/filter.rs:515-532 | the same for f64, with doubles held as exact reals |
| Filter.StringAndU64Exclusive | src/filter.rs:553-558 | the string and u64 results are never both true for one filter |
| Filter.FilterWhereWith | src/filter.rs:539-568 | the loop over filters, with the counter reset per filter and early returns, equals the recursive reading |
| Filter.FilterWhere | src/filter.rs:539-568 | `filter_where` with the five typed checks |
| Filter.FilterWhereFromTrue | src/filter.rs:549-562 | a true result needs a filter list of length one |
| Filter.FilterWhereOnlySingle | src/filter.rs:539-568 | true only for exactly one filter; an empty filter list gives false |
| Filter.FilterWhereSingle | src/filter.rs:546-564 | for one filter with no panics, the result is the string check or the u64 check |
| Filter.FilterWhereFirstPanics | src/filter.rs:546-552 | with two or more filters, a panic in any check of the first filter is the result |
| Filter.YearFilterReadings | src/filter.rs:197-234 | `{"Year":{"eq":2017}}` reads as a u64 and i64 `EqualTo` filter and as the default string, f64 and array filters |
| Filter.YearMetaReadings | src/filter.rs:215-224 | `{"Year":2017}` reads as a u64 and i64 `Noop` metadata filter |
| Filter.YearFilterMatches | src/filter.rs:539-568 | that filter matches that metadata |
| Filter.RepeatedFilterNeverMatches | src/filter.rs:539-568 | the same filter given twice never matches, because a true result needs exactly one filter |
| Codec.SeqRoundTrip | src/embeddings.rs:15-26 | decoding an encoded sequence gives it back, with what follows untouched |
| Codec.StrsRoundTrip | src/embeddings.rs:15-26 | lists of strings round-trip |
| Codec.MatrixRoundTrip | src/embeddings.rs:39-53 | matrices of f32 round-trip |
| Codec.IndexerRoundTrip | src/embeddings.rs:15-26 | an indexer reads back as written, and the empty value reads as the empty indexer |
| Codec.CollectionRoundTrip | src/embeddings.rs:39-53 | a collection reads back as written |
| Codec.NotACollection | src/embeddings.rs:246-248 | the empty value, and an indexer, read as the default collection |
| Registry.CollectionKey | src/embeddings.rs:75 | the key is "key-" followed by the UUID text |
| Registry.CollectionView | src/embeddings.rs:76 | the view is "view-" followed by the name |
| Registry.StoreKeysDistinct | src/embeddings.rs:204-234 | the two indexer keys, a collection key and a reverse lookup key are pairwise distinct |
| Registry.ViewIsNeverAName | src/embeddings.rs:69 | a name that passes the name check is never found in a list of views |
| Registry.NewRecord | src/embeddings.rs:57-80 | `new` gives the default collection for an invalid name or a name found in the views indexer, and otherwise the collection with the UUID key, the prefixed view, no embeddings and the other inputs unchanged |
| Registry.HoldsViewsHoldsNoName | src/embeddings.rs:69 | an indexer of views holds no valid name, and neither does it with the empty view appended, as a saved default collection leaves it |
| Registry.NewRecordSucceeds | src/embeddings.rs:64-79 | over a views indexer that holds no valid name, `new` succeeds exactly for a valid name: the UUID key, the prefixed view, no embeddings and the other inputs unchanged |
| Registry.NewRecordAcceptsTakenName | src/embeddings.rs:64-72 | with "view-test" registered, `new` still creates a collection with the view "view-test" |
| Registry.NewRecordChecked | src/embeddings.rs:64-79 | the intended test: success exactly for a valid name whose view is not registered, and then the view is new |
| Registry.FindKeyFirst | src/embeddings.rs:240-249 | with a key, `find` ignores the view; a missing key finds the default collection |
| Registry.FindMissingView | src/embeddings.rs:250-264 | a view without a reverse lookup finds the default collection |
| Registry.Answer | src/embeddings.rs:142-148 | an answer exists exactly when the model yields an embedding and the nearest index is in range, and it is one of the documents |
| Registry.RemoveAt | src/embeddings.rs:137 | `Vec::remove` shortens by one, keeps the elements before i and shifts the rest down |
| Registry.Count | src/embeddings/mod.rs:146-157 | the number of matches is at most the length, and zero exactly when there is no match |
| Registry.Kept | src/embeddings/mod.rs:146-157 | the kept rows and the matches together make up all rows; with no match every row is kept |
| Registry.KeptIndex | src/embeddings/mod.rs:146-157 | each kept row is a row of the input whose metadata differs from the filter |
| Registry.AlignedAnswer | src/embeddings/mod.rs:158-164 | with the documents filtered together with their rows, an answer is one of the documents, and under a filter one whose metadata differs from it; without a filter it is the as-written answer |
| Embeddings.KvLookupKey | src/embeddings.rs:229 | the lookup key is a reverse lookup key exactly when the view starts with 'v' |
| Embeddings.EmbeddingCollection.New | src/embeddings.rs:57-80 | the new collection is `NewRecord` over the current views indexer |
| Embeddings.EmbeddingCollection.FromRecord | src/embeddings.rs:247-248 | the collection holds the decoded record |
| Embeddings.EmbeddingCollection.SetKeyIndexes | src/embeddings.rs:204-225 | the store becomes the write of the old keys plus the new key, with no delete first; it cannot panic, since "keys" is a key LMDB accepts |
| Embeddings.EmbeddingCollection.SetKvIndex | src/embeddings.rs:227-234 | panics exactly when the reverse lookup key is free and LMDB rejects it; otherwise the store becomes the write of the reverse lookup |
| Embeddings.EmbeddingCollection.SetViewIndexes | src/embeddings.rs:181-202 | the store becomes the delete and then the write of the old views plus the new view |
| Embeddings.EmbeddingCollection.Save | src/embeddings.rs:82-102 | panics exactly when the lookup or the record write panics, leaving the steps before it committed; otherwise the embeddings are set, and the store takes the three registry steps and then the record under the key |
| Embeddings.EmbeddingCollection.FetchCollectionKeys | src/embeddings.rs:108-120 | the views indexer when asked for views, the keys indexer otherwise |
| Embeddings.EmbeddingCollection.FilterMetadata | src/embeddings.rs:129-141 | the loop panics exactly when the removal reading does, and otherwise leaves its result; only `embeddings` changes |
| Embeddings.EmbeddingCollection.Query | src/embeddings.rs:126-149 | `query` is find by view, then the metadata filter, then the answer |
| Embeddings.EmbeddingCollection.Delete | src/embeddings.rs:155-162 | the store becomes the delete of the found collection's key |
| Embeddings.Find | src/embeddings.rs:240-265 | a fresh collection holding what `find` reads |
| Embeddings.KeyIndexesWriteOnce | src/embeddings.rs:204-224 | once the keys indexer exists the store is unchanged; before that the indexer becomes the one new key |
| Embeddings.ViewIndexesAppend | src/embeddings.rs:181-202 | the views indexer becomes the old views followed by the new view, and no other key changes |
| Embeddings.NewKeysDistinct | src/embeddings.rs:75-76 | a new collection's record key and reverse lookup are distinct from each other and from both indexers |
| Embeddings.SaveThenFind | src/embeddings.rs:82-102 | after `save` of a new collection, the reverse lookup leads to its key, and `find` by view or by key returns it with its embeddings |
| Embeddings.SaveIndexers | src/embeddings.rs:82-86 | `save` appends the view to the views indexer; an existing keys indexer stays unchanged, and a missing one becomes the one key |
| Embeddings.DeleteAfterSave | src/embeddings.rs:155-162 | after save and then delete, the view finds the default collection, while both indexers and the reverse lookup are unchanged |
| Embeddings.SavePanicsForLongNames | src/embeddings.rs:82-101 | over a store whose keys LMDB accepts, `save` of a new collection panics exactly for a name longer than 502 bytes; otherwise every key stays accepted |
| Embeddings.SaveDefaultPanics | src/embeddings.rs:82-101 | `save` of the default collection appends the empty view to the views indexer and then panics at the record's empty key |
| Embeddings.FirstIndex | src/embeddings.rs:134-136 | the first position holding s, or the length when there is none |
| Embeddings.RemovalTail | src/embeddings.rs:134-140 | once position p has matched, each remaining iteration removes row p again |
| Embeddings.RemovalHead | src/embeddings.rs:134-140 | the loop leaves exactly the rows before the first match |
| Embeddings.RemovalKeepsPrefix | src/embeddings.rs:130-141 | with one row per metadata entry, the filter leaves the rows before the first match; the empty filter or a missing value leaves all rows |
| Embeddings.RemovalCounterexample | src/embeddings.rs:134-140 | rows tagged "a" and "b", filtered by "a", both disappear, though only the first should |
| Embeddings.QueryWithoutMetadata | src/embeddings.rs:129-132 | without a metadata argument, nothing is filtered |
| EmbeddingsMod.KvLookupKey | src/embeddings/mod.rs:201-206 | "key-view-" followed by the view is always a reverse lookup key |
| EmbeddingsMod.EmbeddingCollection.New | src/embeddings/mod.rs:78-102 | the new collection is `NewRecord` over the current views indexer |
| EmbeddingsMod.EmbeddingCollection.FromRecord | src/embeddings/mod.rs:218-220 | the collection holds the decoded record |
| EmbeddingsMod.EmbeddingCollection.SetIndexes | src/embeddings/mod.rs:184-207 | the store becomes two non-overwriting writes of one-element keys and views indexers, then panics exactly when LMDB rejects the free reverse lookup key, and otherwise takes its write |
| EmbeddingsMod.EmbeddingCollection.Save | src/embeddings/mod.rs:104-121 | panics exactly when the lookup or the record write panics, leaving the writes before it committed; otherwise the embeddings are set, and the store takes `set_indexes` and then the record under the key |
| EmbeddingsMod.EmbeddingCollection.FetchCollectionKeys | src/embeddings/mod.rs:127-137 | the views indexer when asked for views, the keys indexer otherwise |
| EmbeddingsMod.EmbeddingCollection.FilterMetadata | src/embeddings/mod.rs:146-157 | the loop panics exactly when the removal reading does, and otherwise leaves its result; only `embeddings` changes |
| EmbeddingsMod.EmbeddingCollection.Query | src/embeddings/mod.rs:143-165 | `query` is find by view, then the metadata filter, then the answer |
| EmbeddingsMod.Find | src/embeddings/mod.rs:213-234 | a fresh collection holding what `find` reads |
| EmbeddingsMod.SetIndexesWriteOnce | src/embeddings/mod.rs:184-199 | an existing indexer keeps its contents, so later saves are not listed; a missing one becomes the one new entry |
| EmbeddingsMod.SaveThenFind | src/embeddings/mod.rs:201-206 | after `save` of a new collection, the lookup `set_indexes` wrote is the one `find` reads, so `find` by view or by key returns the collection |
| EmbeddingsMod.SavePanicsForLongNames | src/embeddings/mod.rs:104-120 | over a store whose keys LMDB accepts, `save` of a new collection panics exactly for a name longer than 497 bytes; otherwise every key stays accepted |
| EmbeddingsMod.SaveDefaultPanics | src/embeddings/mod.rs:104-120 | `save` of the default collection gets past the reverse lookup "key-view-" and panics at the record's empty key |
| EmbeddingsMod.RemovalStep | src/embeddings/mod.rs:150-156 | one iteration carries "the kept rows so far, then the unvisited rows", with `removals` counting the matches |
| EmbeddingsMod.RemovalKeeps | src/embeddings/mod.rs:150-156 | from any loop state of that form, the loop ends with exactly the kept rows |
| EmbeddingsMod.RemovalIsKept | src/embeddings/mod.rs:146-157 | with one row per metadata entry, the filter leaves exactly the rows whose metadata differs from s, in order, and never panics |
| EmbeddingsMod.RemovalExample | src/embeddings/mod.rs:146-157 | rows tagged "a" and "b", filtered by "a": only the second remains |
| EmbeddingsMod.QueryAnswersExcludedDocument | src/embeddings/mod.rs:158-164 | documents d0, d1 tagged "a" and "b", filter "a", nearest row 0: `query` answers d0, the excluded document, where the aligned answer is d1 |

## Left out

- ONNX inference and the sentence-embedding model (src/onnx.rs, the `encode` calls): foreign libraries. They are the `Embedder` parameter, a function from documents to rows; its failures (`expect`) are not modelled.
- The nearest-neighbour search `compute_nearest` (src/ml.rs): a k-d tree library over f32 distances. It is the `Nearest` parameter, a function returning an index; a panic inside it is not modelled.
- JSON text: parsing and printing (serde_json) are not modelled. A raw filter or metadata string is what parsing makes of it, `Option<Value>`, with `None` for invalid JSON. Indexers and collections use a concrete injective byte encoding in place of JSON text; its round trip is proved rather than assumed.
- Invalid UTF-8 in stored bytes (`from_utf8(..).unwrap_or_default()`) is not modelled: the model's encodings are byte strings that decode directly.
- UUID generation: nondeterministic. The UUID text is a parameter of `new`, and lemmas that need it require the 8-4-4-4-12 lower-case hexadecimal form.
- `DatabaseEnvironment::open`, LMDB transactions and commit failures: I/O. One `DatabaseEnvironment` object holds the map. The `TEST` environment name plays no part.
- The name check's regular expression is stated directly: non-empty, and every byte in `[A-Za-z0-9_]`.
- Logging, getters and `set_embeddings` as a separate member (its one use is inlined in `save`); src/main.rs, src/lib.rs and the example programs.
- The constants `VALENTINUS_KEY`, `VALENTINUS_VIEW`, `VALENTINUS_KEYS` and `VALENTINUS_VIEWS` are not defined in the repository's source. They are taken as "key", "view", "keys" and "views".
- Filter.ProcessF64: the f64 path is kept, because `filter_where` calls it and it can panic. Doubles are exact reals, so NaN, infinities and rounding are not modelled.
- Filter.StringAndU64Exclusive: stated for documents that parsing can produce (ascending object keys, `Json.Valid`), which is what serde_json's ordered map yields.
- Md2f.CreateFilter: object keys are taken in their stored order, which for a parsed document is ascending key order; duplicate keys are not modelled.
- Embeddings.EmbeddingCollection.Query and EmbeddingsMod.EmbeddingCollection.Query: the query embedding's `[0]` and the document index are checked; `unwrap` and `expect` failures of the libraries are not.
- Database.StoreKeyExists, Database.StoreWrite and Database.StoreDelete, and every registry step built on them, use the by-key read, not `read` as written; what `key_exists`, `write` and `delete` do over `read` as written is stated separately (`KeyExistsAsWritten`, `WriteAsWritten`, `DeleteAsWritten`).
- Database.StoreWrite: the map-level write binds any free key, the empty key and keys over 511 bytes included; the panic for those keys is `WritePanics`, which `DatabaseEnvironment.Write` and the `save` methods report.
- Database.StoreRead: a read of a key LMDB rejects is the map lookup; over a store whose keys are all accepted (`KeysValid`, which writes that do not panic keep) it is empty, as LMDB's failing `get` gives.
- `begin_rw_txn().unwrap()` and `open_db(None).unwrap()`: failures to start a transaction or open the database are I/O and not modelled.

## Reference definitions

These carry no contract of their own: they define what the code computes,
and the members in the table above are proved against them.

- Registry.ValidViewName (src/embeddings.rs:29, src/embeddings.rs:59, src/embeddings/mod.rs:80-81): the name check, non-empty with every byte in `[A-Za-z0-9_]`.
- Registry.HoldsViews, Registry.HoldsNoName (src/embeddings.rs:69): every entry of an indexer is a view, or no entry is a valid name.
- Registry.FindIn (src/embeddings.rs:240-265): `find`, by key or through the reverse lookup, with the default collection for a missing or undecodable record.
- Registry.FetchKeys (src/embeddings.rs:108-120): `fetch_collection_keys` on a store.
- Database.KeyValid, Database.WritePanics, Database.KeysValid (src/database.rs:42-50): the keys LMDB accepts, when `write` panics, and a store of accepted keys.
- Database.KeyExistsAsWritten, Database.WriteAsWritten, Database.DeleteAsWritten (src/database.rs:39-102): `key_exists`, `write` and `delete` over `read` as written.
- Embeddings.AfterKeyIndexes, Embeddings.AfterKvIndex, Embeddings.AfterViewIndexes (src/embeddings.rs:181-234): the store after `set_key_indexes`, `set_kv_index` and `set_view_indexes`.
- Embeddings.AfterRegistry, Embeddings.AfterSave, Embeddings.SavePanics, Embeddings.AtSavePanic (src/embeddings.rs:82-102): the store after the three registry steps and after `save`, when `save` panics, and the store a panicking `save` leaves.
- Embeddings.RemovalFrom, Embeddings.Removal (src/embeddings.rs:130-141): the metadata filter loop of `query` from a given iteration on, and from the start.
- Embeddings.QueryResult (src/embeddings.rs:126-149): `query` on a store.
- EmbeddingsMod.AfterIndexers, EmbeddingsMod.AfterSetIndexes, EmbeddingsMod.AfterSave, EmbeddingsMod.SavePanics, EmbeddingsMod.AtSavePanic (src/embeddings/mod.rs:104-121, src/embeddings/mod.rs:184-207): the same for the older registry.
- EmbeddingsMod.RemovalFrom, EmbeddingsMod.Removal, EmbeddingsMod.QueryResult (src/embeddings/mod.rs:143-165): its metadata filter and `query`.
- Filter.CreateFilterFrom (src/filter.rs:59-95): the loop of `create_filter` from a given position on, generic over the value type.
- Filter.Tally, Filter.FilterWhereFrom (src/filter.rs:539-568): one step of the counter, and the loop of `filter_where` from a given filter on.
- Filter.SplitsThreeWays (src/filter.rs:235-264): the three-way split of `eq`, `gt` and `lt` on two values.
- Md2f.PairResults, Md2f.Scan, Md2f.CountTrue (src/md2f.rs:232-247): the results of all (metadata, filter) pairs in loop order, the counted scan over them, and the number of true results.

## Findings

| source | as written | input that shows it | evidently intended | confidence | as-written member | corrected member |
|---|---|---|---|---|---|---|
| src/database.rs:68 | `get(Some(k), None, 0)` passes cursor operation 0, which is `MDB_FIRST`, so the read returns the first record in the store | keys [1] and [2] stored; reading [2] returns the value of [1] | position at k (`MDB_SET_KEY`) and return its value, or empty when k is absent | not executed | Database.ReadAsWrittenReturnsFirstRecord | Database.DatabaseEnvironment.Read |
| src/md2f.rs:232-247 | one counter runs over all metadata × filter pairs and is never reset, so a filter that matches several documents is counted several times | filters `{"Year":{"eq":2017}}` and `{"Rating":{"gt":3}}`, two documents `{"Year":2017}`: true | every filter is satisfied by some document | not executed | Md2f.OverCount | Md2f.FilterWhereDistinct |
| src/embeddings.rs:64-72 | here and at src/embeddings/mod.rs:91, the uniqueness test looks for the bare name in the views indexer, which holds "view-" + name, so it never fires | "view-test" registered; `new(.., "test")` succeeds with view "view-test" again | reject a name whose prefixed view is registered | not executed | Registry.NewRecordAcceptsTakenName | Registry.NewRecordChecked |
| src/embeddings.rs:134-140 | the metadata is read at `m - removals`, but the metadata list never shrinks, so after the first match the same position is read and the row there is removed again | rows tagged "a" and "b", filter "a": no row is left | remove exactly the rows whose metadata equals the filter, as src/embeddings/mod.rs:146-157 does | not executed | Embeddings.RemovalCounterexample | EmbeddingsMod.RemovalIsKept |
| src/database.rs:84-90 | `key_exists` calls `read` as written, so for every key it reports the first record's non-emptiness; `delete` of an absent key then reaches `del(..).unwrap()`, which fails with MDB_NOTFOUND and panics | the one record [1] := [7]; `delete([2])` | refuse (log and return) the delete of an absent key | not executed | Database.WriteDeleteAsWrittenExample | Database.StoreDelete |
| src/embeddings/mod.rs:158-164 | the filter removes rows from `embeddings` only, and `documents[nearest]` indexes the unfiltered documents with an index into the filtered rows | documents d0, d1 tagged "a" and "b", filter "a", nearest row 0: the answer is d0 | filter the documents together with their rows and answer the nearest row's own document | not executed | EmbeddingsMod.QueryAnswersExcludedDocument | Registry.AlignedAnswer |
