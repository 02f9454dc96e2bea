/** The data side of the shared table helper in `modules/table.js`: the sort state a
    table starts with and how a click on a column header changes it, the dotted-key
    lookup of a cell value, the search filter and the comparator-driven sort. Rendering
    to HTML, timers and the DOM are not modelled. */
module Table {
  import opened Strings
  import opened Wrappers

  /** A JavaScript value as a row of the table holds it. Arrays, functions and
      non-integer numbers are not modelled. */
  datatype Value =
    | Undefined
    | Null
    | Bool(b: bool)
    | Num(n: int)
    | Str(s: string)
    | Object(fields: map<string, Value>)

  /** JavaScript truthiness. */
  predicate Truthy(v: Value) {
    match v
    case Undefined => false
    case Null => false
    case Bool(b) => b
    case Num(n) => n != 0
    case Str(s) => s != ""
    case Object(_) => true
  }

  /** `String(v)`, for the values the search reaches (it only stringifies truthy ones). */
  function Text(v: Value): string {
    match v
    case Undefined => "undefined"
    case Null => "null"
    case Bool(b) => if b then "true" else "false"
    case Num(n) => if n < 0 then "-" + NatToString(-n) else NatToString(n)
    case Str(s) => s
    case Object(_) => "[object Object]"
  }

  // ------------------------------------------------------------ getNestedValue

  /** One step of the `reduce`: a property of a truthy object, else `undefined`. */
  function Member(v: Value, key: string): Value {
    if v.Object? && key in v.fields then v.fields[key] else Undefined
  }

  /** Follows `keys` one property at a time from `v`. */
  function Walk(v: Value, keys: seq<string>): Value
    decreases |keys|
  {
    if |keys| == 0 then v else Walk(Member(v, keys[0]), keys[1..])
  }

  /** `getNestedValue`: an empty key path (falsy) names the object itself; otherwise the
      path is split at every '.' and walked. */
  function GetNestedValue(obj: Value, keyPath: string): Value {
    if keyPath == "" then obj else Walk(obj, Split(keyPath, '.'))
  }

  /** The object in which `keys` leads to `leaf`: the partner of `Walk`. */
  function Nest(keys: seq<string>, leaf: Value): Value
    decreases |keys|
  {
    if |keys| == 0 then leaf else Object(map[keys[0] := Nest(keys[1..], leaf)])
  }

  /** Walking the keys an object was nested under gives back what was put there. */
  lemma {:induction false} WalkNest(keys: seq<string>, leaf: Value)
    ensures Walk(Nest(keys, leaf), keys) == leaf
    decreases |keys|
  {
    if |keys| > 0 {
      WalkNest(keys[1..], leaf);
    }
  }

  /** For a non-empty path, the lookup finds the value nested under the path's pieces. */
  lemma NestedLookup(keyPath: string, leaf: Value)
    requires keyPath != ""
    ensures GetNestedValue(Nest(Split(keyPath, '.'), leaf), keyPath) == leaf
  {
    WalkNest(Split(keyPath, '.'), leaf);
  }

  /** Once the walk reaches something that is not an object, every further key gives
      `undefined`. */
  lemma {:induction false} WalkStuck(v: Value, keys: seq<string>)
    requires !v.Object? && |keys| > 0
    ensures Walk(v, keys) == Undefined
    decreases |keys|
  {
    if |keys| > 1 {
      WalkStuck(Undefined, keys[1..]);
    }
  }

  lemma {:induction false} WalkAppend(v: Value, a: seq<string>, b: seq<string>)
    ensures Walk(v, a + b) == Walk(Walk(v, a), b)
    decreases |a|
  {
    if |a| > 0 {
      assert (a + b)[0] == a[0] && (a + b)[1..] == a[1..] + b;
      WalkAppend(Member(v, a[0]), a[1..], b);
    } else {
      assert a + b == b;
    }
  }

  /** A dotted path is looked up in two stages: `obj.p.q` is `(obj.p).q`. */
  lemma PathConcat(obj: Value, p: string, q: string)
    requires p != "" && q != ""
    ensures GetNestedValue(obj, p + "." + q) == GetNestedValue(GetNestedValue(obj, p), q)
  {
    SplitAppend(p, q, '.');
    WalkAppend(obj, Split(p, '.'), Split(q, '.'));
  }

  // ------------------------------------------------------------ configuration and state

  /** A column: the key path of its value and an optional `sortTransform`. */
  datatype Column = Column(key: string, sortTransform: Option<Value -> Value>)

  /** `defaultSort`: each part may be missing. */
  datatype SortSpec = SortSpec(column: Option<int>, order: Option<string>)

  datatype Config = Config(
    columns: seq<Column>,
    searchColumns: seq<int>,
    sortable: bool,
    defaultSort: Option<SortSpec>)

  datatype TableState = TableState(
    sortColumn: int,
    sortOrder: string,
    searchTerm: string,
    data: seq<Value>,
    processedData: Option<seq<Value>>)

  /** The comparator's direction: anything but "asc" sorts descending. */
  predicate Ascending(order: string) {
    order == "asc"
  }

  /** The state `registerTable` creates: column and order from `defaultSort` when given
      (a zero column or an empty order counts as missing), else column 0 ascending. */
  function InitialState(config: Config): (r: TableState)
    ensures r.sortColumn == (if config.defaultSort.Some? then config.defaultSort.value.column.GetOr(0) else 0)
    ensures Ascending(r.sortOrder) <==>
              config.defaultSort.None? || config.defaultSort.value.order.GetOr("") in {"", "asc"}
    ensures r.searchTerm == "" && r.data == [] && r.processedData.None?
  {
    var column := if config.defaultSort.Some? then config.defaultSort.value.column else None;
    var order := if config.defaultSort.Some? then config.defaultSort.value.order else None;
    TableState(
      if column.Some? && column.value != 0 then column.value else 0,
      if order.Some? && order.value != "" then order.value else "asc",
      "", [], None)
  }

  /** `handleSort`: the same column flips the direction, another column starts
      ascending; the cached result is dropped either way. */
  function HandleSort(state: TableState, columnIndex: int): (r: TableState)
    ensures r.sortColumn == columnIndex
    ensures r.sortOrder in {"asc", "desc"}
    ensures state.sortColumn == columnIndex ==> Ascending(r.sortOrder) == !Ascending(state.sortOrder)
    ensures state.sortColumn != columnIndex ==> Ascending(r.sortOrder)
    ensures r.processedData.None? && r.searchTerm == state.searchTerm && r.data == state.data
  {
    if state.sortColumn == columnIndex then
      state.(sortOrder := if state.sortOrder == "asc" then "desc" else "asc", processedData := None)
    else
      state.(sortColumn := columnIndex, sortOrder := "asc", processedData := None)
  }

  /** Two clicks on the current column restore its order, whatever column came before. */
  lemma ClickTwice(state: TableState, columnIndex: int)
    requires state.sortOrder in {"asc", "desc"}
    ensures HandleSort(HandleSort(state, columnIndex), columnIndex).sortOrder ==
              (if state.sortColumn == columnIndex then state.sortOrder else "desc")
  {
  }

  /** The debounced search input: a changed term replaces the old one and drops the
      cached result; the same term changes nothing. */
  function SetSearchTerm(state: TableState, newValue: string): (r: TableState)
    ensures r.searchTerm == newValue
    ensures r.sortColumn == state.sortColumn && r.sortOrder == state.sortOrder && r.data == state.data
    ensures state.searchTerm == newValue <==> r == state
  {
    if state.searchTerm != newValue then state.(searchTerm := newValue, processedData := None) else state
  }

  // ------------------------------------------------------------ search filter

  /** Every search column names a column; a missing one makes the source throw. */
  predicate ValidSearchColumns(config: Config) {
    forall k :: 0 <= k < |config.searchColumns| ==> 0 <= config.searchColumns[k] < |config.columns|
  }

  /** The column's value is truthy and its text, lower-cased, contains the lower-cased term. */
  predicate ColumnHit(item: Value, column: Column, term: string) {
    var v := GetNestedValue(item, column.key);
    Truthy(v) && Contains(Lower(Text(v)), Lower(term))
  }

  /** `searchColumns.some(...)`. */
  predicate Hit(item: Value, config: Config, term: string)
    requires ValidSearchColumns(config)
  {
    exists k :: 0 <= k < |config.searchColumns| && ColumnHit(item, config.columns[config.searchColumns[k]], term)
  }

  /** `data.filter(...)`: exactly the hits, each as often as in `data`. */
  function Filter(data: seq<Value>, config: Config, term: string): (r: seq<Value>)
    requires ValidSearchColumns(config)
    ensures forall x :: multiset(r)[x] == (if Hit(x, config, term) then multiset(data)[x] else 0)
    decreases |data|
  {
    if |data| == 0 then []
    else
      assert data == [data[0]] + data[1..];
      (if Hit(data[0], config, term) then [data[0]] else []) + Filter(data[1..], config, term)
  }

  /** The filter keeps the order of `data`: it distributes over concatenation. */
  lemma {:induction false} FilterAppend(a: seq<Value>, b: seq<Value>, config: Config, term: string)
    requires ValidSearchColumns(config)
    ensures Filter(a + b, config, term) == Filter(a, config, term) + Filter(b, config, term)
    decreases |a|
  {
    if |a| == 0 {
      assert a + b == b;
    } else {
      var h := if Hit(a[0], config, term) then [a[0]] else [];
      assert (a + b)[0] == a[0];
      assert (a + b)[1..] == a[1..] + b;
      FilterAppend(a[1..], b, config, term);
      calc {
        Filter(a + b, config, term);
        h + Filter(a[1..] + b, config, term);
        h + (Filter(a[1..], config, term) + Filter(b, config, term));
        (h + Filter(a[1..], config, term)) + Filter(b, config, term);
      }
    }
  }

  /** Items that all match pass through unchanged. */
  lemma {:induction false} FilterAllHits(data: seq<Value>, config: Config, term: string)
    requires ValidSearchColumns(config)
    requires forall i :: 0 <= i < |data| ==> Hit(data[i], config, term)
    ensures Filter(data, config, term) == data
    decreases |data|
  {
    if |data| > 0 {
      FilterAllHits(data[1..], config, term);
    }
  }

  /** An empty search term skips the filter. */
  function Search(data: seq<Value>, config: Config, term: string): (r: seq<Value>)
    requires ValidSearchColumns(config)
    ensures term == "" ==> r == data
    ensures forall x :: multiset(r)[x] == (if term == "" || Hit(x, config, term) then multiset(data)[x] else 0)
    ensures forall x :: x in r <==> x in data && (term == "" || Hit(x, config, term))
  {
    if term == "" then data
    else
      var r := Filter(data, config, term);
      assert forall x :: x in r <==> multiset(r)[x] > 0;
      r
  }

  // ------------------------------------------------------------ the comparator

  /** JavaScript's `<` on strings: lexicographic by character. */
  predicate StrLess(a: string, b: string)
    decreases |a|
  {
    if |a| == 0 then |b| > 0
    else if |b| == 0 then false
    else if a[0] != b[0] then a[0] < b[0]
    else StrLess(a[1..], b[1..])
  }

  lemma {:induction false} StrLessTrichotomy(a: string, b: string)
    ensures a == b || StrLess(a, b) || StrLess(b, a)
    ensures !(StrLess(a, b) && StrLess(b, a))
    ensures !StrLess(a, a)
    decreases |a|
  {
    if |a| > 0 && |b| > 0 {
      StrLessTrichotomy(a[1..], b[1..]);
      if a[0] == b[0] && a[1..] == b[1..] {
        assert a == [a[0]] + a[1..] && b == [b[0]] + b[1..];
      }
    }
    if |a| > 0 {
      StrLessTrichotomy(a[1..], a[1..]);
    }
  }

  lemma {:induction false} StrLessTransitive(a: string, b: string, c: string)
    requires StrLess(a, b) && StrLess(b, c)
    ensures StrLess(a, c)
    decreases |a|
  {
    if |a| > 0 && a[0] == b[0] && b[0] == c[0] {
      StrLessTransitive(a[1..], b[1..], c[1..]);
    }
  }

  /** The value a column sorts by before lower-casing: the looked-up value, through
      `sortTransform` when the column has one. */
  function RawKey(item: Value, column: Column): Value {
    var v := GetNestedValue(item, column.key);
    if column.sortTransform.Some? then column.sortTransform.value(v) else v
  }

  /** The comparator can only be relied on for two strings or two numbers. */
  predicate SameKind(a: Value, b: Value) {
    (a.Str? && b.Str?) || (a.Num? && b.Num?)
  }

  /** What the comparator compares in the end: without a transform, strings lower-cased. */
  function Key(item: Value, column: Column): Value {
    var v := RawKey(item, column);
    if column.sortTransform.None? && v.Str? then Str(Lower(v.s)) else v
  }

  /** JavaScript's `>` on two keys of the same kind. */
  predicate Greater(x: Value, y: Value)
    requires SameKind(x, y)
  {
    if x.Str? then StrLess(y.s, x.s) else x.n > y.n
  }

  /** The comparator `sortData` hands to `sort`: equal keys give 0, otherwise 1 or -1 by
      `>`, negated for a descending order. */
  function Compare(a: Value, b: Value, column: Column, order: string): (r: int)
    requires SameKind(RawKey(a, column), RawKey(b, column))
    ensures r in {-1, 0, 1}
    ensures r == 0 <==> Key(a, column) == Key(b, column)
  {
    var av := RawKey(a, column);
    var bv := RawKey(b, column);
    var x := if column.sortTransform.None? && av.Str? then Str(Lower(av.s)) else av;
    var y := if column.sortTransform.None? && av.Str? then Str(if Truthy(bv) then Lower(bv.s) else "") else bv;
    assert y == Key(b, column);
    if x == y then 0
    else
      var result := if Greater(x, y) then 1 else -1;
      if Ascending(order) then result else -result
  }

  /** Swapping the arguments negates the comparator. */
  lemma CompareAntisymmetric(a: Value, b: Value, column: Column, order: string)
    requires SameKind(RawKey(a, column), RawKey(b, column))
    ensures Compare(a, b, column, order) == -Compare(b, a, column, order)
  {
    var x := Key(a, column);
    var y := Key(b, column);
    if x.Str? {
      StrLessTrichotomy(x.s, y.s);
    }
  }

  /** The comparator is a consistent preorder: "sorts no later than" is transitive. */
  lemma CompareTransitive(a: Value, b: Value, c: Value, column: Column, order: string)
    requires SameKind(RawKey(a, column), RawKey(b, column)) && SameKind(RawKey(b, column), RawKey(c, column))
    requires Compare(a, b, column, order) <= 0 && Compare(b, c, column, order) <= 0
    ensures Compare(a, c, column, order) <= 0
  {
    var x, y, z := Key(a, column), Key(b, column), Key(c, column);
    if x.Str? {
      StrLessTrichotomy(x.s, y.s);
      StrLessTrichotomy(y.s, z.s);
      StrLessTrichotomy(x.s, z.s);
      if Ascending(order) {
        if x != y && y != z { StrLessTransitive(x.s, y.s, z.s); }
      } else {
        if x != y && y != z { StrLessTransitive(z.s, y.s, x.s); }
      }
    }
  }

  /** The descending comparator is the ascending one negated. */
  lemma DescendingReverses(a: Value, b: Value, column: Column)
    requires SameKind(RawKey(a, column), RawKey(b, column))
    ensures Compare(a, b, column, "desc") == -Compare(a, b, column, "asc")
  {
  }

  // ------------------------------------------------------------ sortData

  /** All sort keys of `s` are strings, or all are numbers. */
  predicate Uniform(s: seq<Value>, column: Column) {
    || (forall v :: v in s ==> RawKey(v, column).Str?)
    || (forall v :: v in s ==> RawKey(v, column).Num?)
  }

  lemma UniformSubset(s: seq<Value>, t: seq<Value>, column: Column)
    requires Uniform(t, column)
    requires forall v :: v in s ==> v in t
    ensures Uniform(s, column)
  {
  }

  /** Neighbours are in comparator order. */
  predicate Sorted(s: seq<Value>, column: Column, order: string)
    requires Uniform(s, column)
  {
    forall i :: 0 <= i < |s| - 1 ==> Compare(s[i], s[i + 1], column, order) <= 0
  }

  /** Puts `x` after every element that does not sort after it (keeping a sort stable). */
  function Insert(x: Value, s: seq<Value>, column: Column, order: string): (r: seq<Value>)
    requires Uniform([x] + s, column)
    ensures multiset(r) == multiset(s) + multiset{x}
    ensures |r| == |s| + 1
    ensures r[0] == x || (|s| > 0 && r[0] == s[0])
    decreases |s|
  {
    if |s| == 0 then [x]
    else if Compare(s[0], x, column, order) > 0 then [x] + s
    else
      UniformSubset([x] + s[1..], [x] + s, column);
      assert s == [s[0]] + s[1..];
      [s[0]] + Insert(x, s[1..], column, order)
  }

  lemma InsertUniform(x: Value, s: seq<Value>, column: Column, order: string)
    requires Uniform([x] + s, column)
    ensures Uniform(Insert(x, s, column, order), column)
  {
    var r := Insert(x, s, column, order);
    assert forall v :: v in r ==> v in multiset(r);
    UniformSubset(r, [x] + s, column);
  }

  lemma SortedTail(s: seq<Value>, column: Column, order: string)
    requires Uniform(s, column) && Sorted(s, column, order) && |s| > 0
    ensures Uniform(s[1..], column) && Sorted(s[1..], column, order)
  {
    UniformSubset(s[1..], s, column);
    var t := s[1..];
    forall i | 0 <= i < |t| - 1
      ensures Compare(t[i], t[i + 1], column, order) <= 0
    {
      assert t[i] == s[i + 1] && t[i + 1] == s[i + 2];
    }
  }

  /** Prepending an element that sorts no later than the head keeps a sequence sorted. */
  lemma SortedCons(y: Value, t: seq<Value>, column: Column, order: string)
    requires Uniform([y] + t, column) && Uniform(t, column) && Sorted(t, column, order)
    requires |t| > 0 ==> Compare(y, t[0], column, order) <= 0
    ensures Sorted([y] + t, column, order)
  {
    var r := [y] + t;
    forall i | 0 <= i < |r| - 1
      ensures Compare(r[i], r[i + 1], column, order) <= 0
    {
      if i > 0 {
        assert r[i] == t[i - 1] && r[i + 1] == t[i];
      }
    }
  }

  lemma {:induction false} InsertSorted(x: Value, s: seq<Value>, column: Column, order: string)
    requires Uniform([x] + s, column)
    requires Uniform(s, column) && Sorted(s, column, order)
    ensures Uniform(Insert(x, s, column, order), column)
    ensures Sorted(Insert(x, s, column, order), column, order)
    decreases |s|
  {
    InsertUniform(x, s, column, order);
    if |s| == 0 {
    } else if Compare(s[0], x, column, order) > 0 {
      CompareAntisymmetric(s[0], x, column, order);
      SortedCons(x, s, column, order);
    } else {
      UniformSubset([x] + s[1..], [x] + s, column);
      SortedTail(s, column, order);
      InsertSorted(x, s[1..], column, order);
      var t := Insert(x, s[1..], column, order);
      assert Insert(x, s, column, order) == [s[0]] + t;
      InsertUniform(x, s, column, order);
      SortedCons(s[0], t, column, order);
    }
  }

  /** Insertion sort: each item, in input order, goes after the ones already placed
      that do not sort after it. */
  function Sort(data: seq<Value>, column: Column, order: string): (r: seq<Value>)
    requires Uniform(data, column)
    ensures multiset(r) == multiset(data)
    ensures Uniform(r, column) && Sorted(r, column, order)
    decreases |data|
  {
    if |data| == 0 then []
    else
      var n := |data| - 1;
      assert data == data[..n] + [data[n]];
      UniformSubset(data[..n], data, column);
      var sorted := Sort(data[..n], column, order);
      assert forall v :: v in [data[n]] + sorted ==> v in multiset(data);
      UniformSubset([data[n]] + sorted, data, column);
      InsertSorted(data[n], sorted, column, order);
      Insert(data[n], sorted, column, order)
  }

  /** `sortData`: the rows sorted on the state's column, or the input when that column
      does not exist. The input sequence itself is never changed (the source sorts a copy). */
  function SortData(data: seq<Value>, state: TableState, config: Config): (r: seq<Value>)
    requires 0 <= state.sortColumn < |config.columns| ==> Uniform(data, config.columns[state.sortColumn])
    ensures multiset(r) == multiset(data)
    ensures !(0 <= state.sortColumn < |config.columns|) ==> r == data
    ensures 0 <= state.sortColumn < |config.columns| ==>
              var column := config.columns[state.sortColumn];
              Uniform(r, column) && Sorted(r, column, state.sortOrder)
  {
    if 0 <= state.sortColumn < |config.columns| then
      Sort(data, config.columns[state.sortColumn], state.sortOrder)
    else data
  }

  /** Sortedness of neighbours extends to every pair. */
  lemma {:induction false} SortedPairs(s: seq<Value>, column: Column, order: string)
    requires Uniform(s, column) && Sorted(s, column, order)
    ensures forall i, j :: 0 <= i < j < |s| ==> Compare(s[i], s[j], column, order) <= 0
    decreases |s|
  {
    if |s| > 1 {
      var t := s[1..];
      SortedTail(s, column, order);
      SortedPairs(t, column, order);
      forall j | 1 < j < |s|
        ensures Compare(s[0], s[j], column, order) <= 0
      {
        assert t[0] == s[1] && t[j - 1] == s[j];
        CompareTransitive(s[0], s[1], s[j], column, order);
      }
    }
  }

  // ------------------------------------------------------------ processBatchRender

  /** The rows `processBatchRender` shows: searched, then sorted when the table is sortable. */
  function Processed(data: seq<Value>, state: TableState, config: Config): (r: seq<Value>)
    requires ValidSearchColumns(config)
    requires config.sortable && 0 <= state.sortColumn < |config.columns| ==>
               Uniform(data, config.columns[state.sortColumn])
    ensures forall x :: multiset(r)[x] ==
              (if state.searchTerm == "" || Hit(x, config, state.searchTerm) then multiset(data)[x] else 0)
    ensures forall x :: x in r <==> x in data && (state.searchTerm == "" || Hit(x, config, state.searchTerm))
    ensures config.sortable && 0 <= state.sortColumn < |config.columns| ==>
              Sorted(r, config.columns[state.sortColumn], state.sortOrder)
    ensures !(config.sortable && 0 <= state.sortColumn < |config.columns|) ==> r == Search(data, config, state.searchTerm)
  {
    var filtered := Search(data, config, state.searchTerm);
    if config.sortable then
      if 0 <= state.sortColumn < |config.columns| then
        UniformSubset(filtered, data, config.columns[state.sortColumn]);
        var r := SortData(filtered, state, config);
        assert forall x :: x in r <==> x in multiset(filtered);
        r
      else SortData(filtered, state, config)
    else filtered
  }

  /** One batched render of new rows: the rows are stored, and the processed rows cached,
      unless there are none, in which case only the empty message shows. */
  function Render(state: TableState, config: Config, data: seq<Value>): (r: TableState)
    requires ValidSearchColumns(config)
    requires config.sortable && 0 <= state.sortColumn < |config.columns| ==>
               Uniform(data, config.columns[state.sortColumn])
    ensures r.data == data
    ensures r.processedData.Some? <==> |data| > 0
    ensures r.processedData.Some? ==>
              forall x :: x in r.processedData.value <==>
                x in data && (state.searchTerm == "" || Hit(x, config, state.searchTerm))
    ensures r.sortColumn == state.sortColumn && r.sortOrder == state.sortOrder && r.searchTerm == state.searchTerm
  {
    if |data| == 0 then state.(data := data, processedData := None)
    else state.(data := data, processedData := Some(Processed(data, state, config)))
  }
}
