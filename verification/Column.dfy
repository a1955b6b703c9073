/** src/proto/column.rs: columns in memory, the invariant `validate` checks,
    and the logical value a row of a column has. */
module Column {
  import opened Base

  /** The fixed-width leaves. A value is its unsigned bit pattern. */
  datatype Kind =
    | UInt8 | UInt16 | UInt32 | UInt64 | UInt128 | UInt256
    | Int8 | Int16 | Int32 | Int64 | Int128 | Int256
    | Float64

  function Width(k: Kind): (w: nat)
    ensures w in {1, 2, 4, 8, 16, 32}
  {
    match k
    case UInt8 | Int8 => 1
    case UInt16 | Int16 => 2
    case UInt32 | Int32 => 4
    case UInt64 | Int64 | Float64 => 8
    case UInt128 | Int128 => 16
    case UInt256 | Int256 => 32
  }

  datatype Col =
    | Scalar(kind: Kind, vals: seq<nat>)
    | Str(strs: seq<string>)
    | FixedStr(n: nat, data: seq<byte>)
    | Nothing(rows: nat)
    | Json(texts: seq<string>)
    | Nullable(inner: Col, nulls: seq<byte>)
    | Array(items: Col, offsets: seq<nat>)
    | Tuple(elems: seq<Col>)
    | Map(keys: Col, values: Col, offsets: seq<nat>)
    | Nested(names: seq<string>, fields: seq<Col>, offsets: seq<nat>)
    | LowCardinality(dict: Col, refs: seq<nat>, keyWidth: nat)
    | Variant(discriminators: seq<nat>, slots: seq<nat>, columns: seq<Col>)
    | Dynamic(typeNames: seq<string>, discriminators: seq<nat>, slots: seq<nat>, columns: seq<Col>)

  const NULL_DISCRIMINATOR: nat := 255

  function Last(offsets: seq<nat>): nat {
    if offsets == [] then 0 else offsets[|offsets| - 1]
  }

  /** Where the elements of row `i` start. */
  function Start(offsets: seq<nat>, i: nat): nat
    requires i <= |offsets|
  {
    if i == 0 then 0 else offsets[i - 1]
  }

  predicate Monotone(offsets: seq<nat>) {
    forall i, j :: 0 <= i <= j < |offsets| ==> offsets[i] <= offsets[j]
  }

  function RowCount(c: Col): nat {
    match c
    case Scalar(_, vals) => |vals|
    case Str(strs) => |strs|
    case FixedStr(n, data) => if n == 0 then 0 else |data| / n
    case Nothing(rows) => rows
    case Json(texts) => |texts|
    case Nullable(_, nulls) => |nulls|
    case Array(_, offsets) => |offsets|
    case Tuple(elems) => if elems == [] then 0 else RowCount(elems[0])
    case Map(_, _, offsets) => |offsets|
    case Nested(_, _, offsets) => |offsets|
    case LowCardinality(_, refs, _) => |refs|
    case Variant(ds, _, _) => |ds|
    case Dynamic(_, ds, _, _) => |ds|
  }

  /** How many rows carry discriminator `d`. */
  function CountOf(ds: seq<nat>, d: nat): (n: nat)
    ensures n <= |ds|
  {
    if ds == [] then 0
    else CountOf(ds[..|ds| - 1], d) + (if ds[|ds| - 1] == d then 1 else 0)
  }

  function KeyBound(keyWidth: nat): nat {
    if keyWidth == 1 then 0x100
    else if keyWidth == 2 then 0x1_0000
    else if keyWidth == 4 then U32_BOUND
    else U64_BOUND
  }

  /** Each column holds as many rows as there are discriminators choosing it. */
  predicate CountsMatch(ds: seq<nat>, columns: seq<Col>) {
    forall i :: 0 <= i < |columns| ==> RowCount(columns[i]) == CountOf(ds, i)
  }

  /** What `validate` accepts. */
  predicate Valid(c: Col) {
    match c
    case Nullable(inner, nulls) => RowCount(inner) == |nulls| && Valid(inner)
    case Array(items, offsets) =>
      Monotone(offsets) && RowCount(items) == Last(offsets) && Valid(items)
    case Tuple(elems) =>
      && (forall i :: 0 <= i < |elems| ==> RowCount(elems[i]) == RowCount(elems[0]))
      && (forall i :: 0 <= i < |elems| ==> Valid(elems[i]))
    case Map(keys, values, offsets) =>
      && Monotone(offsets)
      && RowCount(keys) == Last(offsets) && RowCount(values) == Last(offsets)
      && Valid(keys) && Valid(values)
    case Nested(_, fields, offsets) =>
      && Monotone(offsets)
      && (forall i :: 0 <= i < |fields| ==> RowCount(fields[i]) == Last(offsets))
      && (forall i :: 0 <= i < |fields| ==> Valid(fields[i]))
    case FixedStr(n, data) => n > 0 && |data| % n == 0
    case LowCardinality(dict, refs, keyWidth) =>
      && keyWidth in {1, 2, 4, 8}
      && (forall i :: 0 <= i < |refs| ==> refs[i] < KeyBound(keyWidth) && refs[i] < RowCount(dict))
      && Valid(dict)
    case Variant(ds, slots, columns) =>
      && |slots| == |ds|
      && (forall i :: 0 <= i < |ds| ==> ds[i] == NULL_DISCRIMINATOR || ds[i] < |columns|)
      && (forall i :: 0 <= i < |columns| ==>
            RowCount(columns[i]) == if i == NULL_DISCRIMINATOR then 0 else CountOf(ds, i))
      && (forall i :: 0 <= i < |columns| ==> Valid(columns[i]))
    case Dynamic(typeNames, ds, slots, columns) =>
      && |typeNames| == |columns| && |slots| == |ds|
      && (forall i :: 0 <= i < |ds| ==> ds[i] <= |columns|)
      && CountsMatch(ds, columns)
      && (forall i :: 0 <= i < |columns| ==> Valid(columns[i]))
    case _ => true
  }

  // ---- validate, as the loops of the source ----------------------------------

  method CheckMonotone(offsets: seq<nat>) returns (ok: bool)
    ensures ok == Monotone(offsets)
  {
    var i := 1;
    while i < |offsets|
      invariant 1 <= i && Monotone(offsets[..if i <= |offsets| then i else |offsets|])
    {
      if offsets[i] < offsets[i - 1] {
        return false;
      }
      i := i + 1;
    }
    assert offsets[..|offsets|] == offsets;
    ok := true;
  }

  /** Counts the rows of every discriminator, skipping `skip`; fails on one that
      names no column. */
  method CountRows(ds: seq<nat>, skip: nat, n: nat) returns (ok: bool, counts: seq<nat>)
    ensures ok == forall i :: 0 <= i < |ds| ==> ds[i] == skip || ds[i] < n
    ensures ok ==> |counts| == n
    ensures ok ==> forall j :: 0 <= j < n ==> counts[j] == if j == skip then 0 else CountOf(ds, j)
  {
    counts := seq(n, _ => 0);
    for i := 0 to |ds|
      invariant |counts| == n
      invariant forall k :: 0 <= k < i ==> ds[k] == skip || ds[k] < n
      invariant forall j :: 0 <= j < n ==> counts[j] == if j == skip then 0 else CountOf(ds[..i], j)
    {
      assert ds[..i + 1][..i] == ds[..i];
      var d := ds[i];
      if d != skip {
        if d >= n {
          return false, [];
        }
        counts := counts[d := counts[d] + 1];
      }
    }
    assert ds[..|ds|] == ds;
    ok := true;
  }

  method Validate(c: Col) returns (ok: bool)
    ensures ok == Valid(c)
    decreases c
  {
    match c
    case Nullable(inner, nulls) =>
      if RowCount(inner) != |nulls| {
        return false;
      }
      ok := Validate(inner);
    case Array(items, offsets) =>
      ok := CheckMonotone(offsets);
      if !ok || RowCount(items) != Last(offsets) {
        return false;
      }
      ok := Validate(items);
    case Tuple(elems) =>
      ok := ValidateParallel(elems, if elems == [] then 0 else RowCount(elems[0]));
    case Map(keys, values, offsets) =>
      ok := CheckMonotone(offsets);
      if !ok || RowCount(keys) != Last(offsets) || RowCount(values) != Last(offsets) {
        return false;
      }
      ok := Validate(keys);
      if ok {
        ok := Validate(values);
      }
    case Nested(_, fields, offsets) =>
      ok := CheckMonotone(offsets);
      if !ok {
        return false;
      }
      ok := ValidateParallel(fields, Last(offsets));
    case FixedStr(n, data) =>
      ok := n > 0 && |data| % n == 0;
    case LowCardinality(dict, refs, keyWidth) =>
      if keyWidth !in {1, 2, 4, 8} {
        return false;
      }
      for i := 0 to |refs|
        invariant forall k :: 0 <= k < i ==> refs[k] < KeyBound(keyWidth) && refs[k] < RowCount(dict)
      {
        if refs[i] >= KeyBound(keyWidth) || refs[i] >= RowCount(dict) {
          return false;
        }
      }
      ok := Validate(dict);
    case Variant(ds, slots, columns) =>
      if |slots| != |ds| {
        return false;
      }
      var counts;
      ok, counts := CountRows(ds, NULL_DISCRIMINATOR, |columns|);
      if ok {
        ok := ValidateColumns(columns, counts);
      }
    case Dynamic(typeNames, ds, slots, columns) =>
      if |typeNames| != |columns| || |slots| != |ds| {
        return false;
      }
      var counts;
      ok, counts := CountRows(ds, |columns|, |columns|);
      if ok {
        ok := ValidateColumns(columns, counts);
      }
    case _ =>
      ok := true;
  }

  method ValidateParallel(columns: seq<Col>, rows: nat) returns (ok: bool)
    ensures ok == forall i :: 0 <= i < |columns| ==> RowCount(columns[i]) == rows && Valid(columns[i])
    decreases columns
  {
    for i := 0 to |columns|
      invariant forall k :: 0 <= k < i ==> RowCount(columns[k]) == rows && Valid(columns[k])
    {
      if RowCount(columns[i]) != rows {
        return false;
      }
      ok := Validate(columns[i]);
      if !ok {
        return false;
      }
    }
    ok := true;
  }

  method ValidateColumns(columns: seq<Col>, counts: seq<nat>) returns (ok: bool)
    requires |counts| == |columns|
    ensures ok == forall i :: 0 <= i < |columns| ==> RowCount(columns[i]) == counts[i] && Valid(columns[i])
    decreases columns
  {
    for i := 0 to |columns|
      invariant forall k :: 0 <= k < i ==> RowCount(columns[k]) == counts[k] && Valid(columns[k])
    {
      if RowCount(columns[i]) != counts[i] {
        return false;
      }
      ok := Validate(columns[i]);
      if !ok {
        return false;
      }
    }
    ok := true;
  }

  // ---- The value of a row ------------------------------------------------------

  datatype Value =
    | Num(kind: Kind, bits: nat)
    | Txt(text: string)
    | Raw(bytes: seq<byte>)
    | Unit
    | Null
    | List(items: seq<Value>)
    | Record(parts: seq<Value>)
    | Dict(keys: seq<Value>, vals: seq<Value>)
    | Tagged(which: nat, value: Value)
    | Missing  // a slot past the end of its sub-column: there is no value

  /** Row `i` of a column, as the formatter reads it. */
  function RowValue(c: Col, i: nat): Value
    requires Valid(c) && i < RowCount(c)
    decreases c, 0
  {
    match c
    case Scalar(kind, vals) => Num(kind, vals[i])
    case Str(strs) => Txt(strs[i])
    case FixedStr(n, data) =>
      FixedRow(n, |data|, i);
      Raw(data[i * n..i * n + n])
    case Nothing(_) => Unit
    case Json(texts) => Txt(texts[i])
    case Nullable(inner, nulls) => if nulls[i] == 1 then Null else RowValue(inner, i)
    case Array(items, offsets) => List(RowValues(items, Start(offsets, i), offsets[i]))
    case Tuple(elems) => Record(seq(|elems|, j requires 0 <= j < |elems| => RowValue(elems[j], i)))
    case Map(keys, values, offsets) =>
      Dict(RowValues(keys, Start(offsets, i), offsets[i]), RowValues(values, Start(offsets, i), offsets[i]))
    case Nested(_, fields, offsets) =>
      var start := Start(offsets, i);
      List(seq(offsets[i] - start, k requires 0 <= k < offsets[i] - start =>
        Record(seq(|fields|, j requires 0 <= j < |fields| => RowValue(fields[j], start + k)))))
    case LowCardinality(dict, refs, _) => RowValue(dict, refs[i])
    case Variant(ds, slots, columns) =>
      if ds[i] == NULL_DISCRIMINATOR then Null else ColumnValue(columns, ds[i], slots[i])
    case Dynamic(_, ds, slots, columns) =>
      if ds[i] == |columns| then Null else ColumnValue(columns, ds[i], slots[i])
  }

  function RowValues(c: Col, from: nat, to: nat): (vs: seq<Value>)
    requires Valid(c) && from <= to <= RowCount(c)
    ensures |vs| == to - from
    decreases c, 1
  {
    seq(to - from, k requires 0 <= k < to - from => RowValue(c, from + k))
  }

  function ColumnValue(columns: seq<Col>, d: nat, slot: nat): Value
    requires d < |columns| && Valid(columns[d])
    decreases columns
  {
    if slot < RowCount(columns[d]) then Tagged(d, RowValue(columns[d], slot)) else Missing
  }

  lemma FixedRow(n: nat, len: nat, i: nat)
    requires n > 0 && len % n == 0 && i < len / n
    ensures i * n + n <= len
  {
    var q := len / n;
    assert len == q * n;
    RowsFit(n, i + 1, q);
  }

  lemma OneMoreRow(n: nat, i: nat)
    ensures (i + 1) * n == i * n + n
  {
  }

  lemma RowsFit(n: nat, i: nat, q: nat)
    requires i <= q
    ensures i * n <= q * n
  {
  }

  lemma RowsOf(size: nat, rows: nat, len: nat)
    requires size > 0 && len == rows * size
    ensures len % size == 0 && len / size == rows
  {
    var q := len / size;
    assert len == size * q + len % size;
    if q < rows {
      RowsFit(size, q + 1, rows);
    } else if q > rows {
      RowsFit(size, rows + 1, q);
    }
  }
}
