/** The older, typed metadata filter of src/filter.rs. Each value type
    (string, string array, u64, i64, f64) has its own `create_filter`, and
    `filter_where` tries every type on each filter in turn. Parsing never
    fails here: invalid JSON gives the default filter. What can go wrong is a
    panic, when a document has too few keys for the loop index or an empty
    operator object. */
module Filter {
  import opened Wrappers
  import opened Json

  /** `FilterOperations` */
  datatype FilterOperation =
    EqualTo | GreaterThanEqualTo | GreaterThan | In | LessThan | LessThanEqualTo | Noop

  /** `FilterOperations::get_enum`: the six operator names, and `EqualTo`
      for anything else. */
  function GetEnum(s: string): (op: FilterOperation)
    ensures op != Noop
    ensures op == GreaterThan <==> s == "gt"
    ensures op == GreaterThanEqualTo <==> s == "gte"
    ensures op == In <==> s == "in"
    ensures op == LessThan <==> s == "lt"
    ensures op == LessThanEqualTo <==> s == "lte"
    ensures op == EqualTo <==> s != "gt" && s != "gte" && s != "in" && s != "lt" && s != "lte"
  {
    match s
    case "eq" => EqualTo
    case "gt" => GreaterThan
    case "gte" => GreaterThanEqualTo
    case "in" => In
    case "lt" => LessThan
    case "lte" => LessThanEqualTo
    case _ => EqualTo
  }

  /** `MetadataFilter<T>` */
  datatype MetadataFilter<T> = MetadataFilter(key: string, value: T, filter: FilterOperation)

  /** `MetadataFilter::<T>::default()`: empty key, the type's zero, `Noop`. */
  function Default<T>(zero: T): (d: MetadataFilter<T>)
    ensures d.key == [] && d.value == zero && d.filter == Noop
  {
    MetadataFilter("", zero, Noop)
  }

  // ---------------------------------------------------------------------
  // The value each `create_filter` accepts (`is_string` and `as_str`,
  // `is_array`, `is_u64`, `is_i64`, `is_f64`).

  type Extract<!T> = Value -> Option<T>

  /** The string-array reading: an array, with every element that is not a
      string replaced by the empty string. */
  function AsStrArray(v: Value): (r: Option<seq<string>>)
    ensures r.Some? <==> v.Array?
    ensures r.Some? ==> (|r.value| == |v.items| &&
      forall i :: 0 <= i < |v.items| ==> r.value[i] == if v.items[i].Str? then v.items[i].s else "")
  {
    if v.Array? then Some(seq(|v.items|, i requires 0 <= i < |v.items| => AsStr(v.items[i]).GetOr(""))) else None
  }

  // ---------------------------------------------------------------------
  // `create_filter`, one definition for all five types.

  /** What the loop of `create_filter` computes from position `index` on.
      At position i the document `raw[i]` is consulted with its i-th key in
      sorted order (the entries of a parsed object are already in key order,
      see `Json.Valid`). A document that is not valid JSON or not an object
      gives the default filter. An entry that is not an operator object is
      metadata: a `Noop` filter when the value has the type, the default
      otherwise, and the loop ends either way. An operator object gives its
      first operator when that operand has the type; otherwise the loop moves
      on to the next document. */
  function CreateFilterFrom<T>(raw: seq<Option<Value>>, index: nat, extract: Extract<T>, zero: T)
    : Outcome<MetadataFilter<T>>
    decreases |raw| - index
  {
    if index >= |raw| then Returned(Default(zero))
    else match raw[index]
      case None => Returned(Default(zero))
      case Some(u_v) =>
        if !u_v.Object? then Returned(Default(zero))
        else
          var keys := Keys(u_v.fields);
          if index >= |keys| then Panic
          else
            var key := keys[index];
            var vo2 := AsObject(Index(u_v, key));
            if vo2.None? then
              match extract(Index(u_v, key))
              case None => Returned(Default(zero))
              case Some(x) => Returned(MetadataFilter(key, x, Noop))
            else if vo2.value == [] then Panic
            else
              var op := Keys(vo2.value)[0];
              match extract(Index(Object(vo2.value), op))
              case Some(x) => Returned(MetadataFilter(key, x, GetEnum(op)))
              case None => CreateFilterFrom(raw, index + 1, extract, zero)
  }

  predicate AllValid(raw: seq<Option<Value>>) {
    forall i :: 0 <= i < |raw| && raw[i].Some? ==> Valid(raw[i].value)
  }

  /** `create_filter`: the enumerate loop with its early returns. */
  method CreateFilter<T>(raw: seq<Option<Value>>, extract: Extract<T>, zero: T) returns (r: Outcome<MetadataFilter<T>>)
    ensures r == CreateFilterFrom(raw, 0, extract, zero)
  {
    var index := 0;
    while index < |raw|
      invariant 0 <= index <= |raw|
      invariant CreateFilterFrom(raw, 0, extract, zero) == CreateFilterFrom(raw, index, extract, zero)
    {
      var jstr := raw[index];
      if jstr.None? {
        return Returned(Default(zero));
      }
      var u_v := jstr.value;
      var vo := AsObject(u_v);
      if vo.None? {
        return Returned(Default(zero));
      }
      var key := Keys(vo.value);
      if index >= |key| {
        return Panic;
      }
      var k := key[index];
      var vo2 := AsObject(Index(u_v, k));
      if vo2.None? {
        var p_value := extract(Index(u_v, k));
        if p_value.None? {
          return Returned(Default(zero));
        }
        return Returned(MetadataFilter(k, p_value.value, Noop));
      }
      if vo2.value == [] {
        return Panic;
      }
      var op := Keys(vo2.value)[0];
      var value := extract(Index(Object(vo2.value), op));
      if value.Some? {
        return Returned(MetadataFilter(k, value.value, GetEnum(op)));
      }
      index := index + 1;
    }
    return Returned(Default(zero));
  }

  /** `f` is what document `raw[i]` yields at position i: its i-th key,
      with either the entry's own value (metadata, `Noop`) or the first
      operator and operand of the entry's operator object. */
  ghost predicate FromDocument<T>(raw: seq<Option<Value>>, i: nat, f: MetadataFilter<T>, extract: Extract<T>) {
    i < |raw| && raw[i].Some? && raw[i].value.Object? && i < |raw[i].value.fields| &&
    var (key, x) := raw[i].value.fields[i];
    f.key == key &&
    if f.filter == Noop then extract(x) == Some(f.value)
    else x.Object? && x.fields != [] && f.filter == GetEnum(x.fields[0].0) && extract(x.fields[0].1) == Some(f.value)
  }

  /** One step of the loop: a panic, the default filter, a filter read from
      `raw[index]` itself, or whatever the next position gives. */
  lemma CreateFilterStep<T>(raw: seq<Option<Value>>, index: nat, extract: Extract<T>, zero: T)
    requires AllValid(raw) && index < |raw|
    ensures var r := CreateFilterFrom(raw, index, extract, zero);
      r.Panic? || r == Returned(Default(zero)) || FromDocument(raw, index, r.value, extract) ||
      r == CreateFilterFrom(raw, index + 1, extract, zero)
  {
    var r := CreateFilterFrom(raw, index, extract, zero);
    if raw[index].Some? && raw[index].value.Object? && index < |raw[index].value.fields| {
      var fields := raw[index].value.fields;
      GetAscending(fields, index);
      var (key, x) := fields[index];
      assert Index(raw[index].value, key) == x;
      if x.Object? && x.fields != [] {
        assert Valid(x);
        GetAscending(x.fields, 0);
      }
    }
  }

  /** A filter that is not the default one comes from some document `raw[i]`
      at or after `index`, read with that document's i-th key. */
  lemma {:induction false} CreateFilterKey<T>(raw: seq<Option<Value>>, index: nat, extract: Extract<T>, zero: T)
    requires AllValid(raw)
    ensures var r := CreateFilterFrom(raw, index, extract, zero);
      r.Returned? && r.value != Default(zero) ==>
        exists i :: index <= i && FromDocument(raw, i, r.value, extract)
    decreases |raw| - index
  {
    if index < |raw| {
      CreateFilterStep(raw, index, extract, zero);
      CreateFilterKey(raw, index + 1, extract, zero);
    }
  }

  /** A document that is not an operator object, at the first position,
      decides `create_filter` on its own: the later documents are never
      consulted. In particular, for metadata only `raw_m[0]` matters. */
  lemma MetadataFirstDocumentOnly<T>(raw: seq<Option<Value>>, extract: Extract<T>, zero: T)
    requires raw != [] && AllValid(raw)
    requires !(raw[0].Some? && raw[0].value.Object? && raw[0].value.fields != [] && raw[0].value.fields[0].1.Object?)
    ensures CreateFilterFrom(raw, 0, extract, zero) == CreateFilterFrom([raw[0]], 0, extract, zero)
    ensures raw[0].Some? && raw[0].value.Object? && raw[0].value.fields != [] ==>
      var (key, x) := raw[0].value.fields[0];
      CreateFilterFrom(raw, 0, extract, zero) ==
        if extract(x).Some? then Returned(MetadataFilter(key, extract(x).value, Noop)) else Returned(Default(zero))
  {
    if raw[0].Some? && raw[0].value.Object? && raw[0].value.fields != [] {
      GetAscending(raw[0].value.fields, 0);
    }
  }

  /** A filter of one document `{K: {op: V, ...}, ...}` whose operand has the
      type is that operator on the first key; with an operand of another
      type it is the default filter. */
  lemma SingleFilterDocument<T>(f: Value, extract: Extract<T>, zero: T)
    requires Valid(f) && f.Object? && f.fields != [] && f.fields[0].1.Object? && f.fields[0].1.fields != []
    ensures var key := f.fields[0].0;
      var (op, x) := f.fields[0].1.fields[0];
      CreateFilterFrom([Some(f)], 0, extract, zero) ==
        if extract(x).Some? then Returned(MetadataFilter(key, extract(x).value, GetEnum(op))) else Returned(Default(zero))
  {
    GetAscending(f.fields, 0);
    GetAscending(f.fields[0].1.fields, 0) by {
      assert Valid(f.fields[0].1);
    }
  }

  // ---------------------------------------------------------------------
  // The comparisons, generic over the order of the value type.

  /** `eq`: only an `EqualTo` filter, on the same key, with the same value. */
  predicate Eq<T(==)>(f: MetadataFilter<T>, m: MetadataFilter<T>)
    ensures Eq(f, m) <==> f.filter == EqualTo && f.key == m.key && f.value == m.value
  {
    match f.filter
    case EqualTo => f.key == m.key && f.value == m.value
    case _ => false
  }

  /** `gt`: the filter's value is below the metadata's. */
  predicate Gt<T>(f: MetadataFilter<T>, m: MetadataFilter<T>, less: (T, T) -> bool)
    ensures Gt(f, m, less) <==> f.filter == GreaterThan && f.key == m.key && less(f.value, m.value)
  {
    match f.filter
    case GreaterThan => f.key == m.key && less(f.value, m.value)
    case _ => false
  }

  /** `gte`: the filter's value is at most the metadata's. */
  predicate Gte<T(==)>(f: MetadataFilter<T>, m: MetadataFilter<T>, less: (T, T) -> bool)
    ensures Gte(f, m, less) <==>
      f.filter == GreaterThanEqualTo && f.key == m.key && (less(f.value, m.value) || f.value == m.value)
  {
    match f.filter
    case GreaterThanEqualTo => f.key == m.key && (less(f.value, m.value) || f.value == m.value)
    case _ => false
  }

  /** `lt`: the filter's value is above the metadata's. */
  predicate Lt<T>(f: MetadataFilter<T>, m: MetadataFilter<T>, less: (T, T) -> bool)
    ensures Lt(f, m, less) <==> f.filter == LessThan && f.key == m.key && less(m.value, f.value)
  {
    match f.filter
    case LessThan => f.key == m.key && less(m.value, f.value)
    case _ => false
  }

  /** `lte`: the filter's value is at least the metadata's. */
  predicate Lte<T(==)>(f: MetadataFilter<T>, m: MetadataFilter<T>, less: (T, T) -> bool)
    ensures Lte(f, m, less) <==>
      f.filter == LessThanEqualTo && f.key == m.key && (less(m.value, f.value) || f.value == m.value)
  {
    match f.filter
    case LessThanEqualTo => f.key == m.key && (less(m.value, f.value) || f.value == m.value)
    case _ => false
  }

  /** `v_in`: only an `In` filter, whose list holds the metadata's string. */
  predicate VIn(f: MetadataFilter<seq<string>>, m: MetadataFilter<string>)
    ensures VIn(f, m) <==> f.filter == In && m.value in f.value
  {
    match f.filter
    case In => m.value in f.value
    case _ => false
  }

  /** The dispatch of the u64, i64 and f64 `process_*_filter`. */
  predicate OrderedMatch<T(==)>(tf: MetadataFilter<T>, tm: MetadataFilter<T>, less: (T, T) -> bool) {
    match tf.filter
    case EqualTo => Eq(tf, tm)
    case GreaterThan => Gt(tf, tm, less)
    case GreaterThanEqualTo => Gte(tf, tm, less)
    case LessThan => Lt(tf, tm, less)
    case LessThanEqualTo => Lte(tf, tm, less)
    case _ => false
  }


  // ---------------------------------------------------------------------
  // `process_*_filter`. Both filters are built first, so a panic in either
  // one is a panic of the call; an empty filter key gives false.

  function LessU64(a: u64, b: u64): bool { a < b }
  function LessI64(a: i64, b: i64): bool { a < b }
  function LessReal(a: real, b: real): bool { a < b }

  /** The values a and b on one key split three ways by `eq`, `gt` and `lt`
      under `less`, and `gte`, `lte` are the unions. */
  predicate SplitsThreeWays<T(==)>(key: string, a: T, b: T, less: (T, T) -> bool) {
    var m := MetadataFilter(key, b, Noop);
    var e, g, l := OrderedMatch(MetadataFilter(key, a, EqualTo), m, less),
      OrderedMatch(MetadataFilter(key, a, GreaterThan), m, less), OrderedMatch(MetadataFilter(key, a, LessThan), m, less);
    (e || g || l) && !(e && g) && !(e && l) && !(g && l) &&
    OrderedMatch(MetadataFilter(key, a, GreaterThanEqualTo), m, less) == (g || e) &&
    OrderedMatch(MetadataFilter(key, a, LessThanEqualTo), m, less) == (l || e)
  }

  /** Under any `less` that orders a and b strictly and totally. */
  lemma OrderedMatchSplits<T>(key: string, a: T, b: T, less: (T, T) -> bool)
    requires less(a, b) || a == b || less(b, a)
    requires !(less(a, b) && less(b, a)) && !less(a, a) && !less(b, b)
    ensures SplitsThreeWays(key, a, b, less)
  {
  }

  /** On one key, for the u64, i64 and f64 filters alike, `eq`, `gt` and
      `lt` split every pair of values three ways, and `gte`, `lte` are the
      unions. For f64 this holds for the values modelled as reals, not for
      NaN. */
  lemma {:induction false} OrderedMatchTrichotomy(key: string, a: u64, b: u64, c: i64, d: i64, x: real, y: real)
    ensures SplitsThreeWays(key, a, b, LessU64)
    ensures SplitsThreeWays(key, c, d, LessI64)
    ensures SplitsThreeWays(key, x, y, LessReal)
  {
    OrderedMatchSplits(key, a, b, LessU64);
    OrderedMatchSplits(key, c, d, LessI64);
    OrderedMatchSplits(key, x, y, LessReal);
  }

  function StringFilter(raw: seq<Option<Value>>): Outcome<MetadataFilter<string>> {
    CreateFilterFrom(raw, 0, AsStr, "")
  }

  function StringArrayFilter(raw: seq<Option<Value>>): Outcome<MetadataFilter<seq<string>>> {
    CreateFilterFrom(raw, 0, AsStrArray, [])
  }

  function U64Filter(raw: seq<Option<Value>>): Outcome<MetadataFilter<u64>> {
    CreateFilterFrom(raw, 0, AsU64, 0)
  }

  function I64Filter(raw: seq<Option<Value>>): Outcome<MetadataFilter<i64>> {
    CreateFilterFrom(raw, 0, AsI64, 0)
  }

  function F64Filter(raw: seq<Option<Value>>): Outcome<MetadataFilter<real>> {
    CreateFilterFrom(raw, 0, AsF64, 0.0)
  }

  /** `process_string_filter`: true only for an "eq" filter whose key and
      text are those of the metadata. */
  function ProcessString(raw_f: seq<Option<Value>>, raw_m: seq<Option<Value>>): (r: Outcome<bool>)
    ensures r.Panic? <==> StringFilter(raw_f).Panic? || StringFilter(raw_m).Panic?
    ensures r == Returned(true) <==> (r.Returned? &&
      var (tf, tm) := (StringFilter(raw_f).value, StringFilter(raw_m).value);
      tf.key != "" && tf.filter == EqualTo && tf.key == tm.key && tf.value == tm.value)
  {
    var try_filter := StringFilter(raw_f);
    var try_meta := StringFilter(raw_m);
    if try_filter.Panic? || try_meta.Panic? then Panic
    else
      var tf := try_filter.value;
      if tf.key == [] then Returned(false)
      else
        var tm := try_meta.value;
        Returned(match tf.filter case EqualTo => Eq(tf, tm) case _ => false)
  }

  /** `process_string_array_filter`: `v_in` is consulted only for an
      `EqualTo` filter and holds only for an `In` filter, so the result is
      never true. */
  function ProcessStringArray(raw_f: seq<Option<Value>>, raw_m: seq<Option<Value>>): (r: Outcome<bool>)
    ensures r.Panic? <==> StringArrayFilter(raw_f).Panic? || StringFilter(raw_m).Panic?
    ensures r != Returned(true)
  {
    var try_filter := StringArrayFilter(raw_f);
    var try_meta := StringFilter(raw_m);
    if try_filter.Panic? || try_meta.Panic? then Panic
    else
      var tf := try_filter.value;
      if tf.key == [] then Returned(false)
      else
        var tm := try_meta.value;
        Returned(match tf.filter case EqualTo => VIn(tf, tm) case _ => false)
  }

  /** `process_u64_filter` */
  function ProcessU64(raw_f: seq<Option<Value>>, raw_m: seq<Option<Value>>): (r: Outcome<bool>)
    ensures r.Panic? <==> U64Filter(raw_f).Panic? || U64Filter(raw_m).Panic?
    ensures r == Returned(true) <==> (r.Returned? &&
      var (tf, tm) := (U64Filter(raw_f).value, U64Filter(raw_m).value);
      tf.key != "" && tf.key == tm.key && OrderedMatch(tf, tm, LessU64))
  {
    var try_filter := U64Filter(raw_f);
    var try_meta := U64Filter(raw_m);
    if try_filter.Panic? || try_meta.Panic? then Panic
    else
      var tf := try_filter.value;
      if tf.key == [] then Returned(false)
      else Returned(OrderedMatch(tf, try_meta.value, LessU64))
  }

  /** `process_i64_filter` */
  function ProcessI64(raw_f: seq<Option<Value>>, raw_m: seq<Option<Value>>): (r: Outcome<bool>)
    ensures r.Panic? <==> I64Filter(raw_f).Panic? || I64Filter(raw_m).Panic?
    ensures r == Returned(true) <==> (r.Returned? &&
      var (tf, tm) := (I64Filter(raw_f).value, I64Filter(raw_m).value);
      tf.key != "" && tf.key == tm.key && OrderedMatch(tf, tm, LessI64))
  {
    var try_filter := I64Filter(raw_f);
    var try_meta := I64Filter(raw_m);
    if try_filter.Panic? || try_meta.Panic? then Panic
    else
      var tf := try_filter.value;
      if tf.key == [] then Returned(false)
      else Returned(OrderedMatch(tf, try_meta.value, LessI64))
  }

  /** `process_f64_filter` */
  function ProcessF64(raw_f: seq<Option<Value>>, raw_m: seq<Option<Value>>): (r: Outcome<bool>)
    ensures r.Panic? <==> F64Filter(raw_f).Panic? || F64Filter(raw_m).Panic?
    ensures r == Returned(true) <==> (r.Returned? &&
      var (tf, tm) := (F64Filter(raw_f).value, F64Filter(raw_m).value);
      tf.key != "" && tf.key == tm.key && OrderedMatch(tf, tm, LessReal))
  {
    var try_filter := F64Filter(raw_f);
    var try_meta := F64Filter(raw_m);
    if try_filter.Panic? || try_meta.Panic? then Panic
    else
      var tf := try_filter.value;
      if tf.key == [] then Returned(false)
      else Returned(OrderedMatch(tf, try_meta.value, LessReal))
  }

  /** For a single filter document the string and the u64 reading cannot
      both match: the operand is either a string or a u64. */
  lemma StringAndU64Exclusive(f: Option<Value>, raw_m: seq<Option<Value>>)
    requires ValidOpt(f)
    ensures !(ProcessString([f], raw_m) == Returned(true) && ProcessU64([f], raw_m) == Returned(true))
  {
    if f.Some? && f.value.Object? && f.value.fields != [] {
      var fv := f.value;
      GetAscending(fv.fields, 0);
      if fv.fields[0].1.Object? && fv.fields[0].1.fields != [] {
        SingleFilterDocument(fv, AsStr, "");
        SingleFilterDocument(fv, AsU64, 0);
      } else if !fv.fields[0].1.Object? {
        assert AllValid([f]);
        MetadataFirstDocumentOnly([f], AsStr, "");
        MetadataFirstDocumentOnly([f], AsU64, 0);
      }
    }
  }

  predicate ValidOpt(f: Option<Value>) { f.Some? ==> Valid(f.value) }

  // ---------------------------------------------------------------------
  // `filter_where`

  /** The five value types `filter_where` tries, in its order. */
  datatype ValueType = StringType | U64Type | I64Type | F64Type | StringArrayType

  /** One `process_*_filter` call, by value type. */
  function ProcessTyped(t: ValueType, raw_f: seq<Option<Value>>, raw_m: seq<Option<Value>>): Outcome<bool> {
    match t
    case StringType => ProcessString(raw_f, raw_m)
    case U64Type => ProcessU64(raw_f, raw_m)
    case I64Type => ProcessI64(raw_f, raw_m)
    case F64Type => ProcessF64(raw_f, raw_m)
    case StringArrayType => ProcessStringArray(raw_f, raw_m)
  }

  type ProcessFn = (ValueType, seq<Option<Value>>, seq<Option<Value>>) -> Outcome<bool>

  /** The counter contribution of one result. */
  function Tally(b: bool): nat { if b then 1 else 0 }

  /** What the loop of `filter_where` computes from the filter `fs[0]` on,
      for the readings `process` (the source's are `ProcessTyped`): for each
      filter, in order, the string, u64, i64, f64 and string-array readings
      against all metadata, with a counter that starts at 0 for each filter
      and counts only the string and u64 results. */
  function FilterWhereFrom(fs: seq<Option<Value>>, raw_m: seq<Option<Value>>, length: nat, process: ProcessFn)
    : Outcome<bool>
    decreases |fs|
  {
    if fs == [] then Returned(false)
    else
      var f := [fs[0]];
      var s := process(StringType, f, raw_m);
      if s.Panic? then Panic
      else if s.value && Tally(s.value) == length then Returned(true)
      else
        var u := process(U64Type, f, raw_m);
        if u.Panic? then Panic
        else
          var count := Tally(s.value) + Tally(u.value);
          if u.value && count == length then Returned(true)
          else
            var i := process(I64Type, f, raw_m);
            if i.Panic? then Panic
            else if i.value && count == length then Returned(true)
            else
              var x := process(F64Type, f, raw_m);
              if x.Panic? then Panic
              else if x.value && count == length then Returned(true)
              else
                var a := process(StringArrayType, f, raw_m);
                if a.Panic? then Panic
                else if a.value && count == length then Returned(true)
                else FilterWhereFrom(fs[1..], raw_m, length, process)
  }

  /** The loop of `filter_where`, for the readings `process`. */
  method FilterWhereWith(raw_f: seq<Option<Value>>, raw_m: seq<Option<Value>>, process: ProcessFn)
    returns (r: Outcome<bool>)
    ensures r == FilterWhereFrom(raw_f, raw_m, |raw_f|, process)
  {
    var length := |raw_f|;
    var k := 0;
    while k < |raw_f|
      invariant 0 <= k <= |raw_f|
      invariant FilterWhereFrom(raw_f, raw_m, length, process) == FilterWhereFrom(raw_f[k..], raw_m, length, process)
    {
      assert raw_f[k..][1..] == raw_f[k + 1..];
      var filter := [raw_f[k]];
      var truthy_counter := 0;
      var tsf_result := process(StringType, filter, raw_m);
      if tsf_result.Panic? {
        return Panic;
      }
      if tsf_result.value {
        truthy_counter := truthy_counter + 1;
      }
      if tsf_result.value && truthy_counter == length {
        return Returned(true);
      }
      var tuf_result := process(U64Type, filter, raw_m);
      if tuf_result.Panic? {
        return Panic;
      }
      if tuf_result.value {
        truthy_counter := truthy_counter + 1;
      }
      if tuf_result.value && truthy_counter == length {
        return Returned(true);
      }
      var tif_result := process(I64Type, filter, raw_m);
      if tif_result.Panic? {
        return Panic;
      }
      if tif_result.value && truthy_counter == length {
        return Returned(true);
      }
      var tff_result := process(F64Type, filter, raw_m);
      if tff_result.Panic? {
        return Panic;
      }
      if tff_result.value && truthy_counter == length {
        return Returned(true);
      }
      var taf_result := process(StringArrayType, filter, raw_m);
      if taf_result.Panic? {
        return Panic;
      }
      if taf_result.value && truthy_counter == length {
        return Returned(true);
      }
      k := k + 1;
    }
    return Returned(false);
  }

  /** `filter_where` */
  method FilterWhere(raw_f: seq<Option<Value>>, raw_m: seq<Option<Value>>) returns (r: Outcome<bool>)
    ensures r == FilterWhereFrom(raw_f, raw_m, |raw_f|, ProcessTyped)
  {
    r := FilterWhereWith(raw_f, raw_m, ProcessTyped);
  }

  /** No panic on any reading of the filter `f` against `raw_m`. */
  predicate NoPanic(f: Option<Value>, raw_m: seq<Option<Value>>) {
    !ProcessString([f], raw_m).Panic? && !ProcessU64([f], raw_m).Panic? && !ProcessI64([f], raw_m).Panic? &&
    !ProcessF64([f], raw_m).Panic? && !ProcessStringArray([f], raw_m).Panic?
  }

  /** With readings whose string and u64 results never both hold, and the
      counter reset per filter, the loop can only succeed when the whole list
      has length 1. */
  lemma {:induction false} FilterWhereFromTrue(fs: seq<Option<Value>>, raw_m: seq<Option<Value>>, length: nat, process: ProcessFn)
    requires forall k :: 0 <= k < |fs| ==>
      !(process(StringType, [fs[k]], raw_m) == Returned(true) && process(U64Type, [fs[k]], raw_m) == Returned(true))
    requires 1 <= length
    ensures FilterWhereFrom(fs, raw_m, length, process) == Returned(true) ==> length == 1
    decreases |fs|
  {
    if fs != [] {
      assert !(process(StringType, [fs[0]], raw_m) == Returned(true) && process(U64Type, [fs[0]], raw_m) == Returned(true));
      var tail := fs[1..];
      assert forall k :: 0 <= k < |tail| ==> tail[k] == fs[k + 1];
      FilterWhereFromTrue(tail, raw_m, length, process);
    }
  }

  /** `filter_where` returns true only for a list of exactly one filter; an
      empty list gives false. */
  lemma FilterWhereOnlySingle(fs: seq<Option<Value>>, raw_m: seq<Option<Value>>)
    requires forall k :: 0 <= k < |fs| ==> ValidOpt(fs[k])
    ensures FilterWhereFrom(fs, raw_m, |fs|, ProcessTyped) == Returned(true) ==> |fs| == 1
    ensures fs == [] ==> FilterWhereFrom(fs, raw_m, |fs|, ProcessTyped) == Returned(false)
  {
    if fs != [] {
      forall k | 0 <= k < |fs|
        ensures !(ProcessTyped(StringType, [fs[k]], raw_m) == Returned(true) &&
          ProcessTyped(U64Type, [fs[k]], raw_m) == Returned(true))
      {
        StringAndU64Exclusive(fs[k], raw_m);
      }
      FilterWhereFromTrue(fs, raw_m, |fs|, ProcessTyped);
    }
  }

  /** With one filter, readings that do not panic and string and u64
      results that never both hold, the loop gives the string result or the
      u64 result. */
  lemma FilterWhereSingleWith(f: Option<Value>, raw_m: seq<Option<Value>>, process: ProcessFn)
    requires forall t: ValueType :: process(t, [f], raw_m).Returned?
    requires !(process(StringType, [f], raw_m) == Returned(true) && process(U64Type, [f], raw_m) == Returned(true))
    ensures FilterWhereFrom([f], raw_m, 1, process) ==
      Returned(process(StringType, [f], raw_m).value || process(U64Type, [f], raw_m).value)
  {
    assert process(StringType, [f], raw_m).Returned? && process(U64Type, [f], raw_m).Returned?;
    assert process(I64Type, [f], raw_m).Returned? && process(F64Type, [f], raw_m).Returned?;
    assert process(StringArrayType, [f], raw_m).Returned?;
    assert [f][1..] == [];
  }

  /** For one filter and no panic, `filter_where` is the string reading or
      the u64 reading; the i64, f64 and string-array readings never decide
      the result. */
  lemma FilterWhereSingle(f: Option<Value>, raw_m: seq<Option<Value>>)
    requires ValidOpt(f) && NoPanic(f, raw_m)
    ensures FilterWhereFrom([f], raw_m, 1, ProcessTyped) ==
      Returned(ProcessString([f], raw_m).value || ProcessU64([f], raw_m).value)
  {
    StringAndU64Exclusive(f, raw_m);
    forall t: ValueType
      ensures ProcessTyped(t, [f], raw_m).Returned?
    {
    }
    FilterWhereSingleWith(f, raw_m, ProcessTyped);
  }

  /** With two or more filters, a panic of any reading of the first filter
      is a panic of `filter_where`: no reading before it can have succeeded. */
  lemma FilterWhereFirstPanics(fs: seq<Option<Value>>, raw_m: seq<Option<Value>>)
    requires |fs| > 1 && ValidOpt(fs[0])
    requires !NoPanic(fs[0], raw_m)
    ensures FilterWhereFrom(fs, raw_m, |fs|, ProcessTyped) == Panic
  {
    StringAndU64Exclusive(fs[0], raw_m);
  }

  // ---------------------------------------------------------------------
  // Examples

  function YearFilter(): Value {
    Object([("Year", Object([("eq", Num(PosInt(2017)))]))])
  }

  function YearMeta(): Value {
    Object([("Year", Num(PosInt(2017)))])
  }

  /** How each type reads the filter of the examples. */
  lemma YearFilterReadings()
    ensures StringFilter([Some(YearFilter())]) == Returned(Default(""))
    ensures U64Filter([Some(YearFilter())]) == Returned(MetadataFilter("Year", 2017, EqualTo))
    ensures I64Filter([Some(YearFilter())]) == Returned(MetadataFilter("Year", 2017, EqualTo))
    ensures F64Filter([Some(YearFilter())]) == Returned(Default(0.0))
    ensures StringArrayFilter([Some(YearFilter())]) == Returned(Default([]))
  {
    var f := YearFilter();
    assert Valid(f) by {
      assert Valid(f.fields[0].1);
    }
    assert GetEnum("eq") == EqualTo;
    SingleFilterDocument(f, AsStr, "");
    SingleFilterDocument(f, AsU64, 0);
    SingleFilterDocument(f, AsI64, 0);
    SingleFilterDocument(f, AsF64, 0.0);
    SingleFilterDocument(f, AsStrArray, []);
  }

  /** How each type reads the metadata of the examples. */
  lemma YearMetaReadings()
    ensures U64Filter([Some(YearMeta())]) == Returned(MetadataFilter("Year", 2017, Noop))
    ensures I64Filter([Some(YearMeta())]) == Returned(MetadataFilter("Year", 2017, Noop))
    ensures !StringFilter([Some(YearMeta())]).Panic? && !F64Filter([Some(YearMeta())]).Panic?
  {
    var m := YearMeta();
    assert AllValid([Some(m)]);
    MetadataFirstDocumentOnly([Some(m)], AsStr, "");
    MetadataFirstDocumentOnly([Some(m)], AsU64, 0);
    MetadataFirstDocumentOnly([Some(m)], AsI64, 0);
    MetadataFirstDocumentOnly([Some(m)], AsF64, 0.0);
  }

  /** The one filter `{"Year":{"eq":2017}}` against `{"Year":2017}` holds. */
  lemma YearFilterMatches()
    ensures FilterWhereFrom([Some(YearFilter())], [Some(YearMeta())], 1, ProcessTyped) == Returned(true)
  {
    YearFilterReadings();
    YearMetaReadings();
    assert [Some(YearFilter())][1..] == [];
  }

  /** Listing that same filter twice, the counter never reaches 2: the
      result is false although every filter holds. */
  lemma RepeatedFilterNeverMatches()
    ensures FilterWhereFrom([Some(YearFilter()), Some(YearFilter())], [Some(YearMeta())], 2, ProcessTyped) == Returned(false)
  {
    var f, m := Some(YearFilter()), [Some(YearMeta())];
    YearFilterReadings();
    YearMetaReadings();
    assert ProcessU64([f], m) == Returned(true);
    assert [f, f][1..] == [f];
    assert [f][1..] == [];
  }
}
