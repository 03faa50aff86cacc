/** The LMDB key/value environment (src/database.rs) as a map from byte
    strings to byte strings. The environment never overwrites: `write`
    refuses a key that is already present and `delete` refuses one that is
    absent, and a missing key reads as the empty byte string. A `write` of a
    key LMDB does not accept panics. */
module Database {
  import opened Wrappers

  newtype byte = x: int | 0 <= x < 256
  type Bytes = seq<byte>

  /** The contents of one environment. */
  type Store = map<Bytes, Bytes>

  /** What `read` hands back: the bound value, or the empty byte string when
      the key is not bound. It is never an error. */
  function StoreRead(m: Store, k: Bytes): (v: Bytes)
    ensures k !in m ==> v == []
    ensures k in m ==> v == m[k]
  {
    if k in m then m[k] else []
  }

  /** `key_exists`: the read is non-empty, so a key bound to the empty value
      is reported absent. */
  predicate StoreKeyExists(m: Store, k: Bytes)
    ensures StoreKeyExists(m, k) <==> k in m && m[k] != []
  {
    StoreRead(m, k) != []
  }

  /** The store after `write(k, v)`. */
  function StoreWrite(m: Store, k: Bytes, v: Bytes): (m': Store)
    ensures StoreKeyExists(m, k) ==> m' == m
    ensures !StoreKeyExists(m, k) ==> StoreRead(m', k) == v && m'.Keys == m.Keys + {k}
    ensures forall j {:trigger StoreRead(m', j)} :: j != k ==> StoreRead(m', j) == StoreRead(m, j)
  {
    if StoreKeyExists(m, k) then m else m[k := v]
  }

  /** The largest key LMDB accepts, in bytes (its default maximum key size). */
  const MAX_KEY_SIZE: nat := 511

  /** A key LMDB's `put` accepts: neither empty nor longer than
      `MAX_KEY_SIZE`. For any other key `put` fails with MDB_BAD_VALSIZE. */
  predicate KeyValid(k: Bytes) {
    0 < |k| <= MAX_KEY_SIZE
  }

  /** `write(k, v)` panics: the key is not present, so `put` runs, and LMDB
      rejects the key, so the `unwrap` of the result of `put` panics. The
      transaction is then dropped, which aborts it. */
  predicate WritePanics(m: Store, k: Bytes) {
    !StoreKeyExists(m, k) && !KeyValid(k)
  }

  /** Every key of the store is one LMDB accepts: what every store built by
      writes that did not panic satisfies. */
  predicate KeysValid(m: Store) {
    forall k :: k in m ==> KeyValid(k)
  }

  /** A write that does not panic keeps every key valid, and over such a
      store a write panics exactly for the keys LMDB rejects. */
  lemma WriteKeepsKeysValid(m: Store, k: Bytes, v: Bytes)
    requires KeysValid(m)
    ensures WritePanics(m, k) <==> !KeyValid(k)
    ensures !WritePanics(m, k) ==> KeysValid(StoreWrite(m, k, v))
  {
    if !KeyValid(k) {
      assert k !in m;
    }
  }

  /** The store after `delete(k)`. */
  function StoreDelete(m: Store, k: Bytes): (m': Store)
    ensures !StoreKeyExists(m, k) ==> m' == m
    ensures StoreKeyExists(m, k) ==> StoreRead(m', k) == [] && m'.Keys == m.Keys - {k}
    ensures forall j {:trigger StoreRead(m', j)} :: j != k ==> StoreRead(m', j) == StoreRead(m, j)
  {
    if !StoreKeyExists(m, k) then m else m - {k}
  }

  /** A `write` followed by a `read` of the same key gives back what was
      written, provided the key was free (database.rs test, lines 117-122),
      and a second `write` of the key changes nothing (lines 123-124). */
  lemma WriteThenRead(m: Store, k: Bytes, v: Bytes, v2: Bytes)
    requires !StoreKeyExists(m, k)
    ensures StoreRead(StoreWrite(m, k, v), k) == v
    ensures v != [] ==> StoreWrite(StoreWrite(m, k, v), k, v2) == StoreWrite(m, k, v)
  {
  }

  /** A `write`, a `delete` and a second `delete` of one key: the key then
      reads as empty and the second delete changes nothing (database.rs test,
      lines 125-130). */
  lemma WriteDeleteDelete(m: Store, k: Bytes, v: Bytes)
    requires !StoreKeyExists(m, k) && v != []
    ensures var m1 := StoreDelete(StoreWrite(m, k, v), k);
      StoreRead(m1, k) == [] && StoreDelete(m1, k) == m1
  {
  }

  /** The environment handle. Every operation of the source runs in its own
      transaction, so each method below is one atomic step on `data`. */
  class DatabaseEnvironment {
    var data: Store

    /** `read` */
    method Read(k: Bytes) returns (v: Bytes)
      ensures v == StoreRead(data, k)
    {
      if k in data {
        v := data[k];
      } else {
        v := [];
      }
    }

    /** `key_exists` */
    method KeyExists(k: Bytes) returns (b: bool)
      ensures b == StoreKeyExists(data, k)
    {
      var s := Read(k);
      b := s != [];
    }

    /** `write`: refuses (logs and returns) when the key exists, and
        `panicked` when the `unwrap` of `put` panics; a panic aborts the
        transaction, so the store is then as it was. */
    method Write(k: Bytes, v: Bytes) returns (panicked: bool)
      modifies this
      ensures panicked == WritePanics(old(data), k)
      ensures data == if panicked then old(data) else StoreWrite(old(data), k, v)
    {
      var present := KeyExists(k);
      if present {
        return false;
      }
      if !KeyValid(k) {
        return true;
      }
      data := data[k := v];
      panicked := false;
    }

    /** `delete`: refuses (logs and returns) when the key does not exist. */
    method Delete(k: Bytes)
      modifies this
      ensures data == StoreDelete(old(data), k)
    {
      var present := KeyExists(k);
      if !present {
        return;
      }
      data := data - {k};
    }
  }

  // ---------------------------------------------------------------------
  // `read` as written. It positions an LMDB cursor with operation code 0,
  // which is MDB_FIRST, so the key argument is ignored and the first record
  // of the database (in LMDB's byte-wise key order) is returned.

  /** Byte-wise lexicographic order: LMDB's default key order. */
  predicate LexLe(a: Bytes, b: Bytes)
    decreases |a|
  {
    a == [] || (b != [] && (a[0] < b[0] || (a[0] == b[0] && LexLe(a[1..], b[1..]))))
  }

  lemma {:induction false} LexLeReflexive(a: Bytes)
    ensures LexLe(a, a)
    decreases |a|
  {
    if a != [] {
      LexLeReflexive(a[1..]);
    }
  }

  lemma {:induction false} LexLeTotal(a: Bytes, b: Bytes)
    ensures LexLe(a, b) || LexLe(b, a)
    decreases |a|
  {
    if a != [] && b != [] && a[0] == b[0] {
      LexLeTotal(a[1..], b[1..]);
    }
  }

  lemma {:induction false} LexLeTransitive(a: Bytes, b: Bytes, c: Bytes)
    requires LexLe(a, b) && LexLe(b, c)
    ensures LexLe(a, c)
    decreases |a|
  {
    if a != [] && a[0] == b[0] && b[0] == c[0] {
      LexLeTransitive(a[1..], b[1..], c[1..]);
    }
  }

  /** `k` is the first key of `s` in byte-wise order. */
  ghost predicate IsFirst(k: Bytes, s: set<Bytes>) {
    k in s && forall j :: j in s ==> LexLe(k, j)
  }

  /** Every non-empty finite set of keys has a first key. */
  lemma {:induction false} FirstKeyExists(s: set<Bytes>)
    requires s != {}
    ensures exists k :: IsFirst(k, s)
    decreases s
  {
    var x :| x in s;
    LexLeReflexive(x);
    var rest := s - {x};
    if rest == {} {
      assert s == {x};
      assert IsFirst(x, s);
    } else {
      FirstKeyExists(rest);
      var y :| IsFirst(y, rest);
      LexLeTotal(x, y);
      if LexLe(x, y) {
        forall j | j in s
          ensures LexLe(x, j)
        {
          if j != x {
            LexLeTransitive(x, y, j);
          }
        }
        assert IsFirst(x, s);
      } else {
        forall j | j in s
          ensures LexLe(y, j)
        {
          if j != x {
            assert j in rest;
          }
        }
        assert IsFirst(y, s);
      }
    }
  }

  ghost function FirstKey(m: Store): (k: Bytes)
    requires m != map[]
    ensures k in m && forall j :: j in m ==> LexLe(k, j)
  {
    FirstKeyExists(m.Keys);
    var k :| IsFirst(k, m.Keys);
    k
  }

  /** database.rs `read` exactly as written: the value of the first record,
      whatever key is asked for; empty only when the database is empty. */
  ghost function ReadAsWritten(m: Store, k: Bytes): (v: Bytes)
    ensures m == map[] ==> v == []
    ensures m != map[] ==> exists j :: j in m && v == m[j] && forall i :: i in m ==> LexLe(j, i)
  {
    if m == map[] then [] else m[FirstKey(m)]
  }

  /** With two records, reading the second key returns the first record's
      value instead of its own. */
  lemma ReadAsWrittenReturnsFirstRecord()
    ensures var m: Store := map[[1] := [7], [2] := [8]];
      ReadAsWritten(m, [2]) == [7] && StoreRead(m, [2]) == [8]
  {
    var m: Store := map[[1] := [7], [2] := [8]];
    assert [1] in m;
    var f := FirstKey(m);
    assert LexLe(f, [1]);
    assert f != [2] by {
      assert !LexLe([2], [1]);
    }
  }

  /** `key_exists` over `read` as written. */
  ghost predicate KeyExistsAsWritten(m: Store, k: Bytes) {
    ReadAsWritten(m, k) != []
  }

  /** `write` over `read` as written; `put` binds the key when it runs. */
  ghost function WriteAsWritten(m: Store, k: Bytes, v: Bytes): Outcome<Store> {
    if KeyExistsAsWritten(m, k) then Returned(m)
    else if !KeyValid(k) then Panic
    else Returned(m[k := v])
  }

  /** `delete` over `read` as written: `del` of an absent key fails with
      MDB_NOTFOUND, and its `unwrap` panics. */
  ghost function DeleteAsWritten(m: Store, k: Bytes): Outcome<Store> {
    if !KeyExistsAsWritten(m, k) then Returned(m)
    else if k in m then Returned(m - {k})
    else Panic
  }

  /** As written, whether a key "exists" is decided by the first record
      alone, for every key. Once the first record's value is non-empty,
      `write` refuses every key, bound or not, and `delete` of an absent key
      panics; in an empty database `delete` refuses every key. */
  lemma KeyExistsAsWrittenIsFirstRecord(m: Store, k: Bytes, v: Bytes)
    ensures m == map[] ==> !KeyExistsAsWritten(m, k) && DeleteAsWritten(m, k) == Returned(m)
    ensures m != map[] ==> (KeyExistsAsWritten(m, k) <==> m[FirstKey(m)] != [])
    ensures m != map[] && m[FirstKey(m)] != [] ==> WriteAsWritten(m, k, v) == Returned(m)
    ensures m != map[] && m[FirstKey(m)] != [] && k !in m ==> DeleteAsWritten(m, k) == Panic
  {
  }

  /** One record [1] := [7]: as written, a `write` of the free key [2] is
      refused and a `delete` of it panics, where the model of the intended
      store binds [2] and refuses the delete. */
  lemma WriteDeleteAsWrittenExample()
    ensures var m: Store := map[[1] := [7]];
      WriteAsWritten(m, [2], [8]) == Returned(m) && StoreWrite(m, [2], [8]) == m[[2] := [8]] &&
      DeleteAsWritten(m, [2]) == Panic && StoreDelete(m, [2]) == m
  {
    var m: Store := map[[1] := [7]];
    assert [1] in m;
    assert FirstKey(m) == [1];
    KeyExistsAsWrittenIsFirstRecord(m, [2], [8]);
  }
}
