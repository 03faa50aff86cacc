/** The metadata filter language of src/md2f.rs. A filter is a JSON document
    `{K: {op: V}}`, a metadata document is `{K: V}`; both are parsed into a
    `MetadataFilterResult` and compared, and `filter_where` combines a list
    of filters against a list of metadata documents. */
module Md2f {
  import opened Wrappers
  import opened Json

  /** `Md2fsError`. Only `SerdeJsonError` is ever produced. */
  datatype Md2fsError = SerdeJsonError | ParseError

  /** `Result<T, Md2fsError>`, with a third outcome for a thread that panics
      (indexing the first key of an empty object). */
  datatype Md2fResult<+T> = Ok(value: T) | Err(error: Md2fsError) | Panic

  /** `FilterOperations` */
  datatype FilterOperation =
    EqualTo | GreaterThanEqualTo | GreaterThan | LessThan | LessThanEqualTo | Noop

  /** `FilterOperations::get_enum`: the five operator names, and `EqualTo`
      for anything else. `Noop` is never produced. */
  function GetEnum(s: string): (op: FilterOperation)
    ensures op != Noop
    ensures op == GreaterThan <==> s == "gt"
    ensures op == GreaterThanEqualTo <==> s == "gte"
    ensures op == LessThan <==> s == "lt"
    ensures op == LessThanEqualTo <==> s == "lte"
    ensures op == EqualTo <==> s != "gt" && s != "gte" && s != "lt" && s != "lte"
  {
    match s
    case "eq" => EqualTo
    case "gt" => GreaterThan
    case "gte" => GreaterThanEqualTo
    case "lt" => LessThan
    case "lte" => LessThanEqualTo
    case _ => EqualTo
  }

  /** `MetadataFilter<T>` */
  datatype MetadataFilter<T> = MetadataFilter(key: string, value: T, filter: FilterOperation)

  /** `MetadataFilterResult` */
  datatype MetadataFilterResult =
    | U64Filter(uf: MetadataFilter<u64>)
    | StringFilter(sf: MetadataFilter<string>)

  /** `MetadataFilter::<String>::default()` */
  const DefaultStringFilter: MetadataFilter<string> := MetadataFilter("", "", Noop)

  /** A document whose first entry is an operator object, i.e. a filter. */
  predicate HasOpObject(v: Value) {
    v.Object? && v.fields != [] && v.fields[0].1.Object?
  }

  /** `create_filter`. The text arrives already parsed: `None` when it is not
      valid JSON. `keys()[0]` of an empty object panics. The key is the first
      key of the document (or "" when it is not an object); an entry that is
      not an object is metadata and gives a `Noop` filter, an entry that is an
      object gives its first operator and that operator's value. */
  function CreateFilter(raw: Option<Value>): (r: Md2fResult<MetadataFilterResult>)
    ensures r.Err? <==> raw.None?
    ensures r.Err? ==> r.error == SerdeJsonError
    ensures r.Panic? <==> (raw.Some? && raw.value.Object? &&
      (raw.value.fields == [] || (HasOpObject(raw.value) && raw.value.fields[0].1.fields == [])))
  {
    match raw
    case None => Err(SerdeJsonError)
    case Some(u_v) =>
      if u_v.Object? && u_v.fields == [] then Md2fResult.Panic
      else
        var key := if u_v.Object? then Keys(u_v.fields)[0] else "";
        var vo2 := if u_v.Object? then AsObject(Index(u_v, key)) else None;
        if vo2.None? then
          var p_value := Index(u_v, key);
          if p_value.Str? then Ok(StringFilter(MetadataFilter(key, p_value.s, Noop)))
          else Ok(U64Filter(MetadataFilter(key, AsU64(p_value).GetOr(0), Noop)))
        else if vo2.value == [] then Md2fResult.Panic
        else
          var op := Keys(vo2.value)[0];
          var value := Index(Object(vo2.value), op);
          var filter := GetEnum(op);
          if value.Str? then Ok(StringFilter(MetadataFilter(key, value.s, filter)))
          else if AsU64(value).Some? then Ok(U64Filter(MetadataFilter(key, AsU64(value).value, filter)))
          else Ok(StringFilter(DefaultStringFilter))
  }

  /** A document that is not an object gives the u64 filter with empty key,
      value 0 and `Noop`; an object whose first entry is not an operator
      object is metadata: a `Noop` filter on the first key, a string filter
      when the value is a string and otherwise a u64 filter holding the value
      or 0 when it is not a u64. */
  lemma CreateFilterMetadata(raw: Option<Value>)
    requires raw.Some? && !HasOpObject(raw.value) && !(raw.value.Object? && raw.value.fields == [])
    ensures !raw.value.Object? ==> CreateFilter(raw) == Ok(U64Filter(MetadataFilter("", 0, Noop)))
    ensures raw.value.Object? ==>
      var (key, x) := raw.value.fields[0];
      CreateFilter(raw) == if x.Str? then Ok(StringFilter(MetadataFilter(key, x.s, Noop)))
                           else Ok(U64Filter(MetadataFilter(key, AsU64(x).GetOr(0), Noop)))
  {
  }

  /** An object whose first entry is a non-empty operator object is a filter
      on the first key with the first operator: a string filter for a string
      operand, a u64 filter for a u64 operand and the default string filter
      (empty key, `Noop`) for any other operand. */
  lemma CreateFilterOperator(raw: Option<Value>)
    requires raw.Some? && HasOpObject(raw.value) && raw.value.fields[0].1.fields != []
    ensures var key := raw.value.fields[0].0;
      var (op, x) := raw.value.fields[0].1.fields[0];
      CreateFilter(raw) ==
        if x.Str? then Ok(StringFilter(MetadataFilter(key, x.s, GetEnum(op))))
        else if x.Num? && x.n.PosInt? then Ok(U64Filter(MetadataFilter(key, x.n.u, GetEnum(op))))
        else Ok(StringFilter(MetadataFilter("", "", Noop)))
  {
  }

  /** `eq`: only an `EqualTo` filter, on the same key, with the same value. */
  predicate Eq<T(==)>(f: MetadataFilter<T>, m: MetadataFilter<T>)
    ensures Eq(f, m) <==> f.filter == EqualTo && f.key == m.key && f.value == m.value
  {
    match f.filter
    case EqualTo => f.key == m.key && f.value == m.value
    case _ => false
  }

  /** `gt`: the filter's value is below the metadata's. */
  predicate Gt(f: MetadataFilter<u64>, m: MetadataFilter<u64>)
    ensures Gt(f, m) <==> f.filter == GreaterThan && f.key == m.key && m.value > f.value
  {
    match f.filter
    case GreaterThan => f.key == m.key && f.value < m.value
    case _ => false
  }

  /** `gte`: the filter's value is at most the metadata's. */
  predicate Gte(f: MetadataFilter<u64>, m: MetadataFilter<u64>)
    ensures Gte(f, m) <==> f.filter == GreaterThanEqualTo && f.key == m.key && m.value >= f.value
  {
    match f.filter
    case GreaterThanEqualTo => f.key == m.key && f.value <= m.value
    case _ => false
  }

  /** `lt`: the filter's value is above the metadata's. */
  predicate Lt(f: MetadataFilter<u64>, m: MetadataFilter<u64>)
    ensures Lt(f, m) <==> f.filter == LessThan && f.key == m.key && m.value < f.value
  {
    match f.filter
    case LessThan => f.key == m.key && f.value > m.value
    case _ => false
  }

  /** `lte`: the filter's value is at least the metadata's. */
  predicate Lte(f: MetadataFilter<u64>, m: MetadataFilter<u64>)
    ensures Lte(f, m) <==> f.filter == LessThanEqualTo && f.key == m.key && m.value <= f.value
  {
    match f.filter
    case LessThanEqualTo => f.key == m.key && f.value >= m.value
    case _ => false
  }

  /** On one key, the strict comparisons and equality split every pair of
      values three ways, and the non-strict ones are their unions. */
  lemma ComparisonsTrichotomy(key: string, a: u64, b: u64)
    ensures var m := MetadataFilter(key, b, Noop);
      var e, g, l := Eq(MetadataFilter(key, a, EqualTo), m), Gt(MetadataFilter(key, a, GreaterThan), m),
        Lt(MetadataFilter(key, a, LessThan), m);
      (e || g || l) && !(e && g) && !(e && l) && !(g && l)
    ensures var m := MetadataFilter(key, b, Noop);
      Gte(MetadataFilter(key, a, GreaterThanEqualTo), m) ==
        (Gt(MetadataFilter(key, a, GreaterThan), m) || Eq(MetadataFilter(key, a, EqualTo), m))
    ensures var m := MetadataFilter(key, b, Noop);
      Lte(MetadataFilter(key, a, LessThanEqualTo), m) ==
        (Lt(MetadataFilter(key, a, LessThan), m) || Eq(MetadataFilter(key, a, EqualTo), m))
  {
  }

  function FilterKey(t: MetadataFilterResult): string {
    match t
    case U64Filter(f) => f.key
    case StringFilter(f) => f.key
  }

  function FilterOp(t: MetadataFilterResult): FilterOperation {
    match t
    case U64Filter(f) => f.filter
    case StringFilter(f) => f.filter
  }

  /** The string half of `process_filter`. */
  predicate StringMatch(tf: MetadataFilterResult, tm: MetadataFilterResult) {
    tf.StringFilter? && tm.StringFilter? && tf.sf.filter == EqualTo && Eq(tf.sf, tm.sf)
  }

  /** The u64 half of `process_filter`: dispatch on the filter's operator. */
  predicate U64Match(tf: MetadataFilterResult, tm: MetadataFilterResult) {
    tf.U64Filter? && tm.U64Filter? &&
      match tf.uf.filter
      case EqualTo => Eq(tf.uf, tm.uf)
      case GreaterThan => Gt(tf.uf, tm.uf)
      case GreaterThanEqualTo => Gte(tf.uf, tm.uf)
      case LessThan => Lt(tf.uf, tm.uf)
      case LessThanEqualTo => Lte(tf.uf, tm.uf)
      case Noop => false
  }

  /** `process_filter`. Both documents are parsed before either error is
      propagated, so a panic on either side wins; then the filter's error,
      then the metadata's. The u64 pass parses both texts again with the same
      result, so its `?` never fires. */
  function ProcessFilter(raw_f: Option<Value>, raw_m: Option<Value>): (r: Md2fResult<bool>)
    ensures r.Panic? <==> CreateFilter(raw_f).Panic? || CreateFilter(raw_m).Panic?
    ensures r.Err? <==> !r.Panic? && (raw_f.None? || raw_m.None?)
  {
    var try_filter := CreateFilter(raw_f);
    var try_meta := CreateFilter(raw_m);
    if try_filter.Panic? || try_meta.Panic? then Md2fResult.Panic
    else if try_filter.Err? then Err(try_filter.error)
    else if try_meta.Err? then Err(try_meta.error)
    else
      var tf := try_filter.value;
      var tm := try_meta.value;
      var string_filter := StringMatch(tf, tm);
      var u64_filter := U64Match(tf, tm);
      Ok(string_filter || u64_filter)
  }

  /** A match needs a filter with an operator (so never a metadata document
      or a default filter), of the same kind and on the same key as the
      metadata; a string match further needs "eq" and equal text. */
  lemma ProcessFilterTrue(raw_f: Option<Value>, raw_m: Option<Value>)
    ensures ProcessFilter(raw_f, raw_m) == Ok(true) ==>
      var tf, tm := CreateFilter(raw_f).value, CreateFilter(raw_m).value;
      FilterOp(tf) != Noop && FilterKey(tf) == FilterKey(tm) && tf.StringFilter? == tm.StringFilter? &&
      (tf.StringFilter? ==> tf.sf.filter == EqualTo && tf.sf.value == tm.sf.value)
  {
  }

  // ---------------------------------------------------------------------
  // Independent reading of a filter against a flat metadata document.

  /** `v` is a filter document whose first entry is `key` with an operator
      object whose first entry is `(op, x)`. */
  predicate IsFilterDoc(v: Value, key: string, op: string, x: Value) {
    v.Object? && v.fields != [] && v.fields[0].0 == key &&
    v.fields[0].1.Object? && v.fields[0].1.fields != [] && v.fields[0].1.fields[0] == (op, x)
  }

  /** `v` is a metadata document whose first entry is `(key, x)`. */
  predicate IsMetaDoc(v: Value, key: string, x: Value) {
    v.Object? && v.fields != [] && v.fields[0] == (key, x)
  }

  /** What `{K: {op: n}}` asks of a metadata value `v` under `K`. */
  predicate OpHolds(op: string, v: int, n: int) {
    if op == "gt" then v > n
    else if op == "gte" then v >= n
    else if op == "lt" then v < n
    else if op == "lte" then v <= n
    else v == n
  }

  /** A number filter against a metadata document whose first entry is a
      number: it holds exactly when the keys agree and the metadata value
      stands in the operator's relation to the filter's bound. Any other
      operator name behaves as "eq"; later entries of either document play
      no part. */
  lemma NumberFilterMeaning(f: Value, key: string, op: string, n: u64, m: Value, mkey: string, v: u64)
    requires IsFilterDoc(f, key, op, Num(PosInt(n)))
    requires IsMetaDoc(m, mkey, Num(PosInt(v)))
    ensures ProcessFilter(Some(f), Some(m)) == Ok(key == mkey && OpHolds(op, v as int, n as int))
  {
    assert CreateFilter(Some(f)) == Ok(U64Filter(MetadataFilter(key, n, GetEnum(op))));
    assert CreateFilter(Some(m)) == Ok(U64Filter(MetadataFilter(mkey, v, Noop)));
  }

  /** A string filter against a metadata document whose first entry is a
      string: only "eq" (or an unknown operator) can hold, and then exactly
      when key and text agree. */
  lemma StringFilterMeaning(f: Value, key: string, op: string, s: string, m: Value, mkey: string, t: string)
    requires IsFilterDoc(f, key, op, Str(s))
    requires IsMetaDoc(m, mkey, Str(t))
    ensures ProcessFilter(Some(f), Some(m)) == Ok(GetEnum(op) == EqualTo && key == mkey && s == t)
  {
    assert CreateFilter(Some(f)) == Ok(StringFilter(MetadataFilter(key, s, GetEnum(op))));
    assert CreateFilter(Some(m)) == Ok(StringFilter(MetadataFilter(mkey, t, Noop)));
  }

  /** A string filter never matches a number and a number filter never
      matches a string. */
  lemma MixedKindsNeverMatch(f: Value, key: string, op: string, s: string, n: u64, m: Value, mkey: string)
    requires IsFilterDoc(f, key, op, Str(s)) || IsFilterDoc(f, key, op, Num(PosInt(n)))
    requires IsMetaDoc(m, mkey, if IsFilterDoc(f, key, op, Str(s)) then Num(PosInt(n)) else Str(s))
    ensures ProcessFilter(Some(f), Some(m)) == Ok(false)
  {
  }


  /** A metadata document used as a filter carries `Noop` and so matches
      nothing, and a filter whose value is neither a string nor a u64 (a
      negative number, a float, an array, ...) matches nothing either. */
  lemma NoopNeverMatches(raw_f: Option<Value>, raw_m: Option<Value>)
    requires raw_f.Some?
    requires !HasOpObject(raw_f.value) ||
      (raw_f.value.fields[0].1.fields != [] && !raw_f.value.fields[0].1.fields[0].1.Str? &&
       AsU64(raw_f.value.fields[0].1.fields[0].1).None?)
    ensures ProcessFilter(raw_f, raw_m) != Ok(true)
  {
    ProcessFilterTrue(raw_f, raw_m);
    if HasOpObject(raw_f.value) {
      CreateFilterOperator(raw_f);
    } else if !(raw_f.value.Object? && raw_f.value.fields == []) {
      CreateFilterMetadata(raw_f);
    }
  }

  // ---------------------------------------------------------------------
  // `filter_where`
  //
  // The scan is written once for any pairwise test, so that its proof does
  // not unfold `process_filter`; `FilterWhere` runs it with `ProcessFilter`.

  type PairTest = (Option<Value>, Option<Value>) -> Md2fResult<bool>

  /** The results of one metadata document against every filter, in filter
      order. */
  function Row(fs: seq<Option<Value>>, m: Option<Value>, test: PairTest): (rs: seq<Md2fResult<bool>>)
    ensures |rs| == |fs|
    ensures forall j :: 0 <= j < |fs| ==> rs[j] == test(fs[j], m)
  {
    seq(|fs|, j requires 0 <= j < |fs| => test(fs[j], m))
  }

  /** The results of the whole metadata × filters scan, in scan order. */
  function PairResults(fs: seq<Option<Value>>, ms: seq<Option<Value>>, test: PairTest): (rs: seq<Md2fResult<bool>>)
    decreases |ms|
  {
    if ms == [] then [] else Row(fs, ms[0], test) + PairResults(fs, ms[1..], test)
  }

  /** The scan loop over a sequence of results: stop at the first error or
      panic, count true results, succeed when the count reaches `length`. */
  function Scan(rs: seq<Md2fResult<bool>>, count: nat, length: nat): Md2fResult<bool>
    decreases |rs|
  {
    if rs == [] then Ok(false)
    else match rs[0]
      case Panic => Md2fResult.Panic
      case Err(e) => Err(e)
      case Ok(b) =>
        if b && count + 1 == length then Ok(true)
        else Scan(rs[1..], if b then count + 1 else count, length)
  }

  predicate AllOk(rs: seq<Md2fResult<bool>>) {
    forall k :: 0 <= k < |rs| ==> rs[k].Ok?
  }

  /** The number of true results. */
  function CountTrue(rs: seq<Md2fResult<bool>>): nat
    decreases |rs|
  {
    if rs == [] then 0 else (if rs[0] == Ok(true) then 1 else 0) + CountTrue(rs[1..])
  }

  /** With no failure in the scan, the loop answers whether the true results
      reach `length`, counted with repetition. */
  lemma {:induction false} ScanAllOk(rs: seq<Md2fResult<bool>>, count: nat, length: nat)
    requires AllOk(rs)
    requires length == 0 || count < length
    ensures Scan(rs, count, length) == Ok(length > 0 && count + CountTrue(rs) >= length)
    decreases |rs|
  {
    if rs != [] {
      assert rs[0].Ok?;
      assert AllOk(rs[1..]) by {
        forall k | 0 <= k < |rs[1..]|
          ensures rs[1..][k].Ok?
        {
          assert rs[1..][k] == rs[k + 1];
        }
      }
      if !(rs[0].value && count + 1 == length) {
        ScanAllOk(rs[1..], if rs[0].value then count + 1 else count, length);
      }
    }
  }

  /** The scan reports the first failure, unless the count was reached
      before it. */
  lemma {:induction false} ScanFailure(rs: seq<Md2fResult<bool>>, count: nat, length: nat, k: nat)
    requires length == 0 || count < length
    requires k < |rs| && !rs[k].Ok? && AllOk(rs[..k])
    requires count + CountTrue(rs[..k]) < length || length == 0
    ensures Scan(rs, count, length) == rs[k]
    decreases k
  {
    if k > 0 {
      assert rs[..k][0] == rs[0];
      assert rs[0].Ok?;
      var tail := rs[1..][..k - 1];
      assert rs[..k][1..] == tail;
      assert AllOk(tail) by {
        forall i | 0 <= i < |tail|
          ensures tail[i].Ok?
        {
          assert tail[i] == rs[..k][i + 1];
        }
      }
      ScanFailure(rs[1..], if rs[0].value then count + 1 else count, length, k - 1);
    }
  }

  /** Whatever the scan reports that is not `Ok` is one of the results. */
  lemma {:induction false} ScanFailureOccurs(rs: seq<Md2fResult<bool>>, count: nat, length: nat)
    ensures !Scan(rs, count, length).Ok? ==> exists k :: 0 <= k < |rs| && rs[k] == Scan(rs, count, length)
    decreases |rs|
  {
    if rs != [] && rs[0].Ok? && !(rs[0].value && count + 1 == length) {
      var c := if rs[0].value then count + 1 else count;
      ScanFailureOccurs(rs[1..], c, length);
      if !Scan(rs[1..], c, length).Ok? {
        var k :| 0 <= k < |rs[1..]| && rs[1..][k] == Scan(rs[1..], c, length);
        assert rs[k + 1] == rs[1..][k];
      }
    }
  }

  lemma {:induction false} PairResultsNoFilters(ms: seq<Option<Value>>, test: PairTest)
    ensures PairResults([], ms, test) == []
    decreases |ms|
  {
    if ms != [] {
      PairResultsNoFilters(ms[1..], test);
    }
  }

  lemma PairResultsStep(fs: seq<Option<Value>>, ms: seq<Option<Value>>, i: nat, test: PairTest)
    requires i < |ms|
    ensures PairResults(fs, ms[i..], test) == Row(fs, ms[i], test) + PairResults(fs, ms[i + 1..], test)
  {
    assert ms[i..][1..] == ms[i + 1..];
  }

  /** One step of `Scan` at position `j` of a row followed by `rest`. */
  lemma ScanStep(row: seq<Md2fResult<bool>>, j: nat, rest: seq<Md2fResult<bool>>, count: nat, length: nat)
    requires j < |row|
    ensures Scan(row[j..] + rest, count, length) ==
      match row[j]
      case Panic => Md2fResult.Panic
      case Err(e) => Err(e)
      case Ok(b) =>
        if b && count + 1 == length then Ok(true)
        else Scan(row[j + 1..] + rest, if b then count + 1 else count, length)
  {
    assert (row[j..] + rest)[0] == row[j];
    assert (row[j..] + rest)[1..] == row[j + 1..] + rest;
  }

  /** The loop of `filter_where` over metadata × filters with one running
      counter, returning `Ok(true)` as soon as the counter reaches the number
      of filters and the first failure as soon as it occurs. */
  method ScanPairs(raw_f: seq<Option<Value>>, raw_m: seq<Option<Value>>, test: PairTest) returns (r: Md2fResult<bool>)
    ensures r == Scan(PairResults(raw_f, raw_m, test), 0, |raw_f|)
  {
    var t_count: nat := 0;
    var length := |raw_f|;
    ghost var all := PairResults(raw_f, raw_m, test);
    var i := 0;
    while i < |raw_m|
      invariant 0 <= i <= |raw_m|
      invariant length == 0 || t_count < length
      invariant Scan(all, 0, length) == Scan(PairResults(raw_f, raw_m[i..], test), t_count, length)
    {
      PairResultsStep(raw_f, raw_m, i, test);
      ghost var row := Row(raw_f, raw_m[i], test);
      ghost var rest := PairResults(raw_f, raw_m[i + 1..], test);
      var j := 0;
      while j < |raw_f|
        invariant 0 <= j <= |raw_f|
        invariant length == 0 || t_count < length
        invariant Scan(all, 0, length) == Scan(row[j..] + rest, t_count, length)
      {
        ScanStep(row, j, rest, t_count, length);
        var tsf_result := test(raw_f[j], raw_m[i]);
        match tsf_result {
          case Panic =>
            return Md2fResult.Panic;
          case Err(e) =>
            return Err(e);
          case Ok(b) =>
            if b {
              t_count := t_count + 1;
              if t_count == length {
                return Ok(b);
              }
            }
        }
        j := j + 1;
      }
      assert row[j..] + rest == rest;
      i := i + 1;
    }
    assert raw_m[i..] == [];
    return Ok(false);
  }

  /** `filter_where` */
  method FilterWhere(raw_f: seq<Option<Value>>, raw_m: seq<Option<Value>>) returns (r: Md2fResult<bool>)
    ensures r == Scan(PairResults(raw_f, raw_m, ProcessFilter), 0, |raw_f|)
  {
    r := ScanPairs(raw_f, raw_m, ProcessFilter);
  }

  /** With no failure in the scan, `filter_where` holds exactly when the
      filter list is non-empty and the (metadata, filter) pairs that match
      are at least as many as the filters, one filter matching two documents
      counting twice. */
  lemma FilterWhereCountsPairs(fs: seq<Option<Value>>, ms: seq<Option<Value>>)
    requires AllOk(PairResults(fs, ms, ProcessFilter))
    ensures Scan(PairResults(fs, ms, ProcessFilter), 0, |fs|) ==
      Ok(|fs| > 0 && CountTrue(PairResults(fs, ms, ProcessFilter)) >= |fs|)
  {
    ScanAllOk(PairResults(fs, ms, ProcessFilter), 0, |fs|);
  }

  /** `filter_where` fails only with a failure of some (metadata, filter)
      pair, and with the first one unless enough pairs matched before it. */
  lemma FilterWhereFailure(fs: seq<Option<Value>>, ms: seq<Option<Value>>)
    ensures var rs := PairResults(fs, ms, ProcessFilter);
      !Scan(rs, 0, |fs|).Ok? ==> exists k :: 0 <= k < |rs| && rs[k] == Scan(rs, 0, |fs|)
    ensures var rs := PairResults(fs, ms, ProcessFilter);
      forall k :: 0 <= k < |rs| && !rs[k].Ok? && AllOk(rs[..k]) && CountTrue(rs[..k]) < |fs| ==>
        Scan(rs, 0, |fs|) == rs[k]
  {
    var rs := PairResults(fs, ms, ProcessFilter);
    ScanFailureOccurs(rs, 0, |fs|);
    forall k | 0 <= k < |rs| && !rs[k].Ok? && AllOk(rs[..k]) && CountTrue(rs[..k]) < |fs|
      ensures Scan(rs, 0, |fs|) == rs[k]
    {
      ScanFailure(rs, 0, |fs|, k);
    }
  }

  /** No filters, or no metadata: `Ok(false)`. */
  lemma FilterWhereEmpty(fs: seq<Option<Value>>, ms: seq<Option<Value>>)
    ensures Scan(PairResults([], ms, ProcessFilter), 0, 0) == Ok(false)
    ensures Scan(PairResults(fs, [], ProcessFilter), 0, |fs|) == Ok(false)
  {
    PairResultsNoFilters(ms, ProcessFilter);
  }

  // ---------------------------------------------------------------------
  // The conjunction as documented: every filter matched by some document.

  /** Every filter is matched by at least one metadata document. */
  predicate EveryFilterMatched(fs: seq<Option<Value>>, ms: seq<Option<Value>>, test: PairTest) {
    forall j :: 0 <= j < |fs| ==> exists i :: 0 <= i < |ms| && test(fs[j], ms[i]) == Ok(true)
  }

  lemma UnmatchedFilter(fs: seq<Option<Value>>, ms: seq<Option<Value>>, j: nat, test: PairTest)
    requires j < |fs|
    requires forall i :: 0 <= i < |ms| ==> test(fs[j], ms[i]) == Ok(false)
    ensures !EveryFilterMatched(fs, ms, test)
  {
    assert !exists i :: 0 <= i < |ms| && test(fs[j], ms[i]) == Ok(true);
  }

  /** The per-filter search: each filter must be satisfied on its own. A
      failure on a pair that is examined is propagated. */
  method SearchEachFilter(raw_f: seq<Option<Value>>, raw_m: seq<Option<Value>>, test: PairTest)
    returns (r: Md2fResult<bool>)
    ensures r.Ok? ==> (r.value <==> |raw_f| > 0 && EveryFilterMatched(raw_f, raw_m, test))
    ensures !r.Ok? ==> exists j, i :: 0 <= j < |raw_f| && 0 <= i < |raw_m| && test(raw_f[j], raw_m[i]) == r
    ensures (forall j, i :: 0 <= j < |raw_f| && 0 <= i < |raw_m| ==> test(raw_f[j], raw_m[i]).Ok?) ==> r.Ok?
  {
    var j := 0;
    while j < |raw_f|
      invariant 0 <= j <= |raw_f|
      invariant EveryFilterMatched(raw_f[..j], raw_m, test)
    {
      var found := false;
      var i := 0;
      while i < |raw_m| && !found
        invariant 0 <= i <= |raw_m|
        invariant found ==> exists i' :: 0 <= i' < |raw_m| && test(raw_f[j], raw_m[i']) == Ok(true)
        invariant !found ==> forall i' :: 0 <= i' < i ==> test(raw_f[j], raw_m[i']) == Ok(false)
      {
        var res := test(raw_f[j], raw_m[i]);
        match res {
          case Panic =>
            return Md2fResult.Panic;
          case Err(e) =>
            return Err(e);
          case Ok(b) =>
            found := b;
        }
        i := i + 1;
      }
      if !found {
        UnmatchedFilter(raw_f, raw_m, j, test);
        return Ok(false);
      }
      ghost var done := raw_f[..j + 1];
      assert EveryFilterMatched(done, raw_m, test) by {
        forall j' | 0 <= j' < |done|
          ensures exists i' :: 0 <= i' < |raw_m| && test(done[j'], raw_m[i']) == Ok(true)
        {
          if j' < j {
            assert done[j'] == raw_f[..j][j'];
          }
        }
      }
      j := j + 1;
    }
    assert raw_f[..j] == raw_f;
    return Ok(|raw_f| > 0);
  }

  /** `filter_where` as documented: true exactly when there are filters and
      each of them is matched by at least one metadata document. */
  method FilterWhereDistinct(raw_f: seq<Option<Value>>, raw_m: seq<Option<Value>>) returns (r: Md2fResult<bool>)
    ensures r.Ok? ==> (r.value <==> |raw_f| > 0 && EveryFilterMatched(raw_f, raw_m, ProcessFilter))
    ensures !r.Ok? ==> exists j, i :: 0 <= j < |raw_f| && 0 <= i < |raw_m| && ProcessFilter(raw_f[j], raw_m[i]) == r
    ensures (forall j, i :: 0 <= j < |raw_f| && 0 <= i < |raw_m| ==> ProcessFilter(raw_f[j], raw_m[i]).Ok?) ==> r.Ok?
  {
    r := SearchEachFilter(raw_f, raw_m, ProcessFilter);
  }

  // ---------------------------------------------------------------------
  // Worked examples

  function Doc(k: string, v: Value): Value { Object([(k, v)]) }

  function FilterDoc(k: string, op: string, n: u64): Value { Doc(k, Doc(op, Num(PosInt(n)))) }

  lemma RowOfTwo(f0: Option<Value>, f1: Option<Value>, m: Option<Value>)
    ensures Row([f0, f1], m, ProcessFilter) == [ProcessFilter(f0, m), ProcessFilter(f1, m)]
  {
  }

  lemma RowOfOne(f: Option<Value>, m: Option<Value>)
    ensures Row([f], m, ProcessFilter) == [ProcessFilter(f, m)]
  {
  }

  lemma PairsOfTwo(fs: seq<Option<Value>>, m0: Option<Value>, m1: Option<Value>)
    ensures PairResults(fs, [m0, m1], ProcessFilter) == Row(fs, m0, ProcessFilter) + Row(fs, m1, ProcessFilter)
  {
    assert [m0, m1][1..] == [m1];
    assert PairResults(fs, [m1], ProcessFilter) == Row(fs, m1, ProcessFilter) + PairResults(fs, [], ProcessFilter);
  }

  /** The scan of two single-filter results. */
  lemma ScanTwo(a: Md2fResult<bool>, b: Md2fResult<bool>)
    requires a.Ok? && b.Ok?
    ensures Scan([a, b], 0, 1) == Ok(a.value || b.value)
  {
    assert [b][1..] == [];
    assert Scan([b], 0, 1) == Ok(b.value);
    assert [a, b][1..] == [b];
  }

  /** The metadata documents `{"Year":2017}` and `{"Rating":5}`. */
  function YearRatingDocs(): seq<Option<Value>> {
    [Some(Doc("Year", Num(PosInt(2017)))), Some(Doc("Rating", Num(PosInt(5))))]
  }

  /** `{"Year":{"eq":2017}}` holds against `{"Year":2017}`, `{"Rating":5}`. */
  lemma YearEqualExample()
    ensures Scan(PairResults([Some(FilterDoc("Year", "eq", 2017))], YearRatingDocs(), ProcessFilter), 0, 1) == Ok(true)
  {
    var m0 := Doc("Year", Num(PosInt(2017)));
    var m1 := Doc("Rating", Num(PosInt(5)));
    var f := FilterDoc("Year", "eq", 2017);
    assert "Year" != "Rating";
    NumberFilterMeaning(f, "Year", "eq", 2017, m0, "Year", 2017);
    NumberFilterMeaning(f, "Year", "eq", 2017, m1, "Rating", 5);
    RowOfOne(Some(f), Some(m0));
    RowOfOne(Some(f), Some(m1));
    PairsOfTwo([Some(f)], Some(m0), Some(m1));
    ScanTwo(ProcessFilter(Some(f), Some(m0)), ProcessFilter(Some(f), Some(m1)));
  }

  /** `{"Year":{"eq":2018}}` does not hold against the same documents. */
  lemma YearOtherExample()
    ensures Scan(PairResults([Some(FilterDoc("Year", "eq", 2018))], YearRatingDocs(), ProcessFilter), 0, 1) == Ok(false)
  {
    var m0 := Doc("Year", Num(PosInt(2017)));
    var m1 := Doc("Rating", Num(PosInt(5)));
    var f := FilterDoc("Year", "eq", 2018);
    assert "Year" != "Rating";
    NumberFilterMeaning(f, "Year", "eq", 2018, m0, "Year", 2017);
    NumberFilterMeaning(f, "Year", "eq", 2018, m1, "Rating", 5);
    RowOfOne(Some(f), Some(m0));
    RowOfOne(Some(f), Some(m1));
    PairsOfTwo([Some(f)], Some(m0), Some(m1));
    ScanTwo(ProcessFilter(Some(f), Some(m0)), ProcessFilter(Some(f), Some(m1)));
  }

  /** `{"Rating":{"gt":3}}` holds against the same documents: 5 > 3. */
  lemma RatingGreaterExample()
    ensures Scan(PairResults([Some(FilterDoc("Rating", "gt", 3))], YearRatingDocs(), ProcessFilter), 0, 1) == Ok(true)
  {
    var m0 := Doc("Year", Num(PosInt(2017)));
    var m1 := Doc("Rating", Num(PosInt(5)));
    var f := FilterDoc("Rating", "gt", 3);
    assert "Year" != "Rating";
    NumberFilterMeaning(f, "Rating", "gt", 3, m0, "Year", 2017);
    NumberFilterMeaning(f, "Rating", "gt", 3, m1, "Rating", 5);
    RowOfOne(Some(f), Some(m0));
    RowOfOne(Some(f), Some(m1));
    PairsOfTwo([Some(f)], Some(m0), Some(m1));
    ScanTwo(ProcessFilter(Some(f), Some(m0)), ProcessFilter(Some(f), Some(m1)));
  }

  /** The running counter over-counts: two documents that both satisfy the
      first filter make `filter_where` hold although the second filter is
      satisfied by neither. */
  lemma OverCount()
    ensures var fs := [Some(FilterDoc("Year", "eq", 2017)), Some(FilterDoc("Rating", "gt", 3))];
      var ms := [Some(Doc("Year", Num(PosInt(2017)))), Some(Doc("Year", Num(PosInt(2017))))];
      Scan(PairResults(fs, ms, ProcessFilter), 0, 2) == Ok(true) && !EveryFilterMatched(fs, ms, ProcessFilter)
  {
    var f0, f1 := FilterDoc("Year", "eq", 2017), FilterDoc("Rating", "gt", 3);
    var m := Doc("Year", Num(PosInt(2017)));
    var fs := [Some(f0), Some(f1)];
    var ms := [Some(m), Some(m)];
    assert "Rating" != "Year";
    NumberFilterMeaning(f0, "Year", "eq", 2017, m, "Year", 2017);
    NumberFilterMeaning(f1, "Rating", "gt", 3, m, "Year", 2017);
    RowOfTwo(Some(f0), Some(f1), Some(m));
    PairsOfTwo(fs, Some(m), Some(m));
    var rs := [Ok(true), Ok(false), Ok(true), Ok(false)];
    assert PairResults(fs, ms, ProcessFilter) == rs;
    assert rs[1..][1..] == [Ok(true), Ok(false)];
    UnmatchedFilter(fs, ms, 1, ProcessFilter);
  }
}
