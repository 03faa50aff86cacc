/** serde_json's `Value`, as far as the filter code inspects it. A raw JSON
    text is represented by what `serde_json::from_str` makes of it: `None`
    when the text is not valid JSON, `Some(v)` otherwise. */
module Json {
  import opened Wrappers

  newtype u64 = x: int | 0 <= x < 0x1_0000_0000_0000_0000
  newtype i64 = x: int | -0x8000_0000_0000_0000 <= x < 0x8000_0000_0000_0000

  const I64_MAX: int := 0x7FFF_FFFF_FFFF_FFFF

  /** serde_json's `Number`: a non-negative integer is `PosInt`, a negative
      one `NegInt`, anything with a fraction or exponent `Float` (a finite
      double, held here as the exact real it denotes). */
  datatype Number = PosInt(u: u64) | NegInt(i: i64) | Float(f: real)

  /** An object is its entries in iteration order. serde_json's map is a
      `BTreeMap`, so that order is ascending key order (see `Valid`). */
  datatype Value =
    | Null
    | Bool(b: bool)
    | Num(n: Number)
    | Str(s: string)
    | Array(items: seq<Value>)
    | Object(fields: seq<(string, Value)>)

  /** Rust's `Ord` on `String`: lexicographic, a proper prefix first. */
  predicate StrLess(a: string, b: string)
    decreases |a|
  {
    if a == [] then b != []
    else if b == [] then false
    else if a[0] != b[0] then a[0] < b[0]
    else StrLess(a[1..], b[1..])
  }

  lemma {:induction false} StrLessIrreflexive(a: string)
    ensures !StrLess(a, a)
    decreases |a|
  {
    if a != [] {
      StrLessIrreflexive(a[1..]);
    }
  }

  lemma {:induction false} StrLessTransitive(a: string, b: string, c: string)
    requires StrLess(a, b) && StrLess(b, c)
    ensures StrLess(a, c)
    decreases |a|
  {
    if a != [] && b != [] && c != [] && a[0] == b[0] && b[0] == c[0] {
      StrLessTransitive(a[1..], b[1..], c[1..]);
    }
  }

  /** The keys of an object in iteration order. */
  function Keys(fields: seq<(string, Value)>): (ks: seq<string>)
    ensures |ks| == |fields|
    ensures forall i :: 0 <= i < |fields| ==> ks[i] == fields[i].0
  {
    seq(|fields|, i requires 0 <= i < |fields| => fields[i].0)
  }

  /** Keys strictly ascending: what a `BTreeMap` iterates. */
  predicate Ascending(fields: seq<(string, Value)>) {
    forall i :: 0 < i < |fields| ==> StrLess(fields[i - 1].0, fields[i].0)
  }

  /** A value that `serde_json::from_str` can produce: object keys ascending
      and unique, negative integers only in `NegInt`. */
  predicate Valid(v: Value)
    decreases v
  {
    match v
    case Num(n) => n.NegInt? ==> n.i < 0
    case Array(items) => forall i :: 0 <= i < |items| ==> Valid(items[i])
    case Object(fields) =>
      Ascending(fields) && forall i :: 0 <= i < |fields| ==> Valid(fields[i].1)
    case _ => true
  }

  /** Entry lookup by key: the value of the first entry with that key. */
  function Get(fields: seq<(string, Value)>, k: string): (r: Option<Value>)
    ensures r.Some? <==> exists i :: 0 <= i < |fields| && fields[i].0 == k
    ensures r.Some? ==> exists i :: 0 <= i < |fields| && fields[i] == (k, r.value)
  {
    if fields == [] then None
    else if fields[0].0 == k then Some(fields[0].1)
    else
      var r := Get(fields[1..], k);
      assert r.Some? ==> exists i :: 0 <= i < |fields[1..]| && fields[1..][i] == (k, r.value);
      r
  }

  /** In an ascending object the i-th key finds the i-th entry. */
  lemma {:induction false} GetAscending(fields: seq<(string, Value)>, i: nat)
    requires Ascending(fields) && i < |fields|
    ensures Get(fields, fields[i].0) == Some(fields[i].1)
  {
    if i > 0 {
      assert fields[0].0 != fields[i].0 by {
        AscendingBelow(fields, 0, i);
        StrLessIrreflexive(fields[i].0);
      }
      assert Ascending(fields[1..]);
      GetAscending(fields[1..], i - 1);
    }
  }

  lemma {:induction false} AscendingBelow(fields: seq<(string, Value)>, i: nat, j: nat)
    requires Ascending(fields) && i < j < |fields|
    ensures StrLess(fields[i].0, fields[j].0)
    decreases j - i
  {
    if i + 1 < j {
      AscendingBelow(fields, i + 1, j);
      StrLessTransitive(fields[i].0, fields[i + 1].0, fields[j].0);
    }
  }

  /** `value[key]`: the entry's value, or `Null` when `value` is not an
      object or has no such key. */
  function Index(v: Value, k: string): (r: Value)
    ensures !v.Object? ==> r == Null
    ensures v.Object? && Get(v.fields, k).Some? ==> r == Get(v.fields, k).value
    ensures v.Object? && Get(v.fields, k).None? ==> r == Null
  {
    match v
    case Object(fields) => Get(fields, k).GetOr(Null)
    case _ => Null
  }

  /** `as_object` */
  function AsObject(v: Value): (r: Option<seq<(string, Value)>>)
    ensures r.Some? <==> v.Object?
    ensures r.Some? ==> r.value == v.fields
  {
    if v.Object? then Some(v.fields) else None
  }

  /** `as_str` (Some exactly when `is_string`) */
  function AsStr(v: Value): (r: Option<string>)
    ensures r.Some? <==> v.Str?
    ensures r.Some? ==> r.value == v.s
  {
    if v.Str? then Some(v.s) else None
  }

  /** `as_u64` (Some exactly when `is_u64`): only a non-negative integer. */
  function AsU64(v: Value): (r: Option<u64>)
    ensures r.Some? <==> v.Num? && v.n.PosInt?
    ensures r.Some? ==> r.value == v.n.u
  {
    if v.Num? && v.n.PosInt? then Some(v.n.u) else None
  }

  /** `as_i64` (Some exactly when `is_i64`): a negative integer, or a
      non-negative one no larger than `i64::MAX`. */
  function AsI64(v: Value): (r: Option<i64>)
    ensures r.Some? <==> v.Num? && (v.n.NegInt? || (v.n.PosInt? && v.n.u as int <= I64_MAX))
    ensures r.Some? ==> r.value as int == (if v.n.NegInt? then v.n.i as int else v.n.u as int)
  {
    if v.Num? && v.n.NegInt? then Some(v.n.i)
    else if v.Num? && v.n.PosInt? && v.n.u as int <= I64_MAX then Some(v.n.u as int as i64)
    else None
  }

  /** `as_f64` behind an `is_f64` test: only a `Float` passes. */
  function AsF64(v: Value): (r: Option<real>)
    ensures r.Some? <==> v.Num? && v.n.Float?
    ensures r.Some? ==> r.value == v.n.f
  {
    if v.Num? && v.n.Float? then Some(v.n.f) else None
  }
}
