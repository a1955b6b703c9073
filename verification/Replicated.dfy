/** src/proto/column.rs: the REPLICATED column kind. A column of distinct
    elements and a list of indexes are expanded into a dense column. */
module Replicated {
  import opened Base
  import opened Column

  predicate InRange(idx: seq<nat>, n: nat) {
    forall i :: 0 <= i < |idx| ==> idx[i] < n
  }

  // ---- What the code does, errors included -------------------------------------

  /** `out`, then `v[i]` for each index; the first index that is not below `n`
      is an error, one below `n` but past the end of `v` a panic. */
  function Lookup<T>(v: seq<T>, idx: seq<nat>, n: nat, out: seq<T>): (r: Result<seq<T>>)
    ensures !r.EndsEarly()
  {
    if idx == [] then Ok(out)
    else if idx[0] >= n then Err(InvalidData)
    else if idx[0] >= |v| then Err(Panic)
    else Lookup(v, idx[1..], n, out + [v[idx[0]]])
  }

  function LookupFixed(size: nat, data: seq<byte>, idx: seq<nat>, n: nat, out: seq<byte>): (r: Result<seq<byte>>)
    ensures !r.EndsEarly()
  {
    if idx == [] then Ok(out)
    else if idx[0] >= n then Err(InvalidData)
    else if idx[0] * size + size > |data| then Err(Panic)
    else LookupFixed(size, data, idx[1..], n, out + data[idx[0] * size..idx[0] * size + size])
  }

  function Range(from: nat, to: nat): seq<nat> {
    if from <= to then seq(to - from, i requires 0 <= i => from + i) else []
  }

  /** The element positions of the chosen rows, and the new offsets. */
  function Flatten(offsets: seq<nat>, idx: seq<nat>, n: nat, flat: seq<nat>, ends: seq<nat>)
    : (r: Result<(seq<nat>, seq<nat>)>)
    ensures !r.EndsEarly()
  {
    if idx == [] then Ok((flat, ends))
    else if idx[0] >= n then Err(InvalidData)
    else if idx[0] >= |offsets| || Start(offsets, idx[0]) > offsets[idx[0]] then Err(Panic)
    else
      var flat' := flat + Range(Start(offsets, idx[0]), offsets[idx[0]]);
      Flatten(offsets, idx[1..], n, flat', ends + [|flat'|])
  }

  function Replicate(c: Col, idx: seq<nat>, n: nat): (r: Result<Col>)
    ensures !r.EndsEarly()
    decreases c
  {
    match c
    case Scalar(kind, vals) =>
      var out :- Lookup(vals, idx, n, []);
      Ok(Scalar(kind, out))
    case Str(strs) =>
      var out :- Lookup(strs, idx, n, []);
      Ok(Str(out))
    case FixedStr(size, data) =>
      if size * |idx| >= U64_BOUND then Err(InvalidData)
      else
        var out :- LookupFixed(size, data, idx, n, []);
        Ok(FixedStr(size, out))
    case Nothing(_) => Ok(Nothing(|idx|))
    case Json(texts) =>
      var out :- Lookup(texts, idx, n, []);
      Ok(Json(out))
    case Nullable(inner, nulls) =>
      var dense :- Replicate(inner, idx, n);
      var out :- Lookup(nulls, idx, n, []);
      Ok(Nullable(dense, out))
    case Array(items, offsets) =>
      var (flat, ends) :- Flatten(offsets, idx, n, [], []);
      var dense :- Replicate(items, flat, Last(offsets));
      Ok(Array(dense, ends))
    case Tuple(elems) =>
      var dense :- ReplicateEach(elems, idx, n, []);
      Ok(Tuple(dense))
    case Map(keys, values, offsets) =>
      var (flat, ends) :- Flatten(offsets, idx, n, [], []);
      var newKeys :- Replicate(keys, flat, Last(offsets));
      var newValues :- Replicate(values, flat, Last(offsets));
      Ok(Map(newKeys, newValues, ends))
    case Nested(names, fields, offsets) =>
      var (flat, ends) :- Flatten(offsets, idx, n, [], []);
      var dense :- ReplicateEach(fields, flat, Last(offsets), []);
      Ok(Nested(names, dense, ends))
    case LowCardinality(dict, refs, keyWidth) =>
      var out :- Lookup(refs, idx, n, []);
      Ok(LowCardinality(dict, out, keyWidth))
    case Variant(_, _, _) => Err(Unsupported)
    case Dynamic(_, _, _, _) => Err(Unsupported)
  }

  function ReplicateEach(cols: seq<Col>, idx: seq<nat>, n: nat, out: seq<Col>): (r: Result<seq<Col>>)
    ensures !r.EndsEarly()
    decreases cols
  {
    if cols == [] then Ok(out)
    else
      var dense :- Replicate(cols[0], idx, n);
      ReplicateEach(cols[1..], idx, n, out + [dense])
  }

  // ---- The loops of the source ---------------------------------------------------

  method LookupLoop<T>(v: seq<T>, idx: seq<nat>, n: nat) returns (r: Result<seq<T>>)
    ensures r == Lookup(v, idx, n, [])
  {
    var out := [];
    for k := 0 to |idx|
      invariant Lookup(v, idx[k..], n, out) == Lookup(v, idx, n, [])
    {
      assert idx[k..][0] == idx[k] && idx[k..][1..] == idx[k + 1..];
      if idx[k] >= n {
        return Err(InvalidData);
      }
      if idx[k] >= |v| {
        return Err(Panic);
      }
      out := out + [v[idx[k]]];
    }
    r := Ok(out);
  }

  method CopyRun(dense: array<byte>, at: nat, piece: seq<byte>)
    requires at + |piece| <= dense.Length
    modifies dense
    ensures dense[..at + |piece|] == old(dense[..at]) + piece
  {
    forall j | 0 <= j < |piece| {
      dense[at + j] := piece[j];
    }
  }

  /** Copies each chosen row of `size` bytes into place in a zeroed buffer. */
  method LookupFixedLoop(size: nat, data: seq<byte>, idx: seq<nat>, n: nat) returns (r: Result<seq<byte>>)
    ensures r == LookupFixed(size, data, idx, n, [])
  {
    hide RowCount;
    var dense := new byte[size * |idx|](_ => 0);
    ghost var goal := LookupFixed(size, data, idx, n, []);
    for k := 0 to |idx|
      invariant k * size <= dense.Length
      invariant LookupFixed(size, data, idx[k..], n, dense[..k * size]) == goal
    {
      assert idx[k..][0] == idx[k] && idx[k..][1..] == idx[k + 1..];
      if idx[k] >= n {
        return Err(InvalidData);
      }
      var src, dst := idx[k] * size, k * size;
      if src + size > |data| {
        return Err(Panic);
      }
      RowsFit(size, k + 1, |idx|);
      OneMoreRow(size, k);
      CopyRun(dense, dst, data[src..src + size]);
    }
    assert dense[..|idx| * size] == dense[..];
    r := Ok(dense[..]);
  }

  method FlattenLoop(offsets: seq<nat>, idx: seq<nat>, n: nat) returns (r: Result<(seq<nat>, seq<nat>)>)
    ensures r == Flatten(offsets, idx, n, [], [])
  {
    var flat: seq<nat>, ends: seq<nat>, total := [], [], 0;
    for k := 0 to |idx|
      invariant total == |flat|
      invariant Flatten(offsets, idx[k..], n, flat, ends) == Flatten(offsets, idx, n, [], [])
    {
      assert idx[k..][0] == idx[k] && idx[k..][1..] == idx[k + 1..];
      var i := idx[k];
      if i >= n {
        return Err(InvalidData);
      }
      if i >= |offsets| {
        return Err(Panic);
      }
      var start := if i == 0 then 0 else offsets[i - 1];
      var end := offsets[i];
      if end < start {
        return Err(Panic);
      }
      ghost var before := flat;
      for j := start to end
        invariant flat == before + Range(start, j)
      {
        flat := flat + [j];
      }
      total := total + (end - start);
      ends := ends + [total];
    }
    r := Ok((flat, ends));
  }

  method MaterializeReplicated(c: Col, idx: seq<nat>, n: nat) returns (r: Result<Col>)
    ensures r == Replicate(c, idx, n)
    decreases c
  {
    match c
    case Scalar(kind, vals) =>
      var out :- LookupLoop(vals, idx, n);
      r := Ok(Scalar(kind, out));
    case Str(strs) =>
      var out :- LookupLoop(strs, idx, n);
      r := Ok(Str(out));
    case FixedStr(size, data) =>
      if size * |idx| >= U64_BOUND {
        return Err(InvalidData);
      }
      var out :- LookupFixedLoop(size, data, idx, n);
      r := Ok(FixedStr(size, out));
    case Nothing(_) =>
      r := Ok(Nothing(|idx|));
    case Json(texts) =>
      var out :- LookupLoop(texts, idx, n);
      r := Ok(Json(out));
    case Nullable(inner, nulls) =>
      var dense :- MaterializeReplicated(inner, idx, n);
      var out :- LookupLoop(nulls, idx, n);
      r := Ok(Nullable(dense, out));
    case Array(items, offsets) =>
      var flat :- FlattenLoop(offsets, idx, n);
      var dense :- MaterializeReplicated(items, flat.0, Last(offsets));
      r := Ok(Array(dense, flat.1));
    case Tuple(elems) =>
      var dense :- MaterializeEach(elems, idx, n);
      r := Ok(Tuple(dense));
    case Map(keys, values, offsets) =>
      var flat :- FlattenLoop(offsets, idx, n);
      var newKeys :- MaterializeReplicated(keys, flat.0, Last(offsets));
      var newValues :- MaterializeReplicated(values, flat.0, Last(offsets));
      r := Ok(Map(newKeys, newValues, flat.1));
    case Nested(names, fields, offsets) =>
      var flat :- FlattenLoop(offsets, idx, n);
      var dense :- MaterializeEach(fields, flat.0, Last(offsets));
      r := Ok(Nested(names, dense, flat.1));
    case LowCardinality(dict, refs, keyWidth) =>
      var out :- LookupLoop(refs, idx, n);
      r := Ok(LowCardinality(dict, out, keyWidth));
    case Variant(_, _, _) =>
      r := Err(Unsupported);
    case Dynamic(_, _, _, _) =>
      r := Err(Unsupported);
  }

  method MaterializeEach(cols: seq<Col>, idx: seq<nat>, n: nat) returns (r: Result<seq<Col>>)
    ensures r == ReplicateEach(cols, idx, n, [])
    decreases cols
  {
    hide Replicate;
    var out := [];
    for k := 0 to |cols|
      invariant ReplicateEach(cols[k..], idx, n, out) == ReplicateEach(cols, idx, n, [])
    {
      assert cols[k..][0] == cols[k] && cols[k..][1..] == cols[k + 1..];
      var dense :- MaterializeReplicated(cols[k], idx, n);
      out := out + [dense];
    }
    r := Ok(out);
  }

  // ---- What it means: row selection ------------------------------------------------

  /** Column types the expansion handles, at every depth it reaches. */
  predicate Supported(c: Col) {
    match c
    case Nullable(inner, _) => Supported(inner)
    case Array(items, _) => Supported(items)
    case Tuple(elems) => forall i :: 0 <= i < |elems| ==> Supported(elems[i])
    case Map(keys, values, _) => Supported(keys) && Supported(values)
    case Nested(_, fields, _) => forall i :: 0 <= i < |fields| ==> Supported(fields[i])
    case Variant(_, _, _) => false
    case Dynamic(_, _, _, _) => false
    case _ => true
  }

  function Pick<T>(v: seq<T>, idx: seq<nat>): (r: seq<T>)
    requires InRange(idx, |v|)
    ensures |r| == |idx| && forall i :: 0 <= i < |idx| ==> r[i] == v[idx[i]]
  {
    seq(|idx|, i requires 0 <= i < |idx| => v[idx[i]])
  }

  function PickFixed(size: nat, data: seq<byte>, idx: seq<nat>): (r: seq<byte>)
    requires size > 0 && |data| % size == 0 && InRange(idx, |data| / size)
  {
    if idx == [] then []
    else
      var k := |idx| - 1;
      FixedRow(size, |data|, idx[k]);
      PickFixed(size, data, idx[..k]) + data[idx[k] * size..idx[k] * size + size]
  }

  /** The element positions of the chosen rows of an array column. */
  function Flat(offsets: seq<nat>, idx: seq<nat>): (r: seq<nat>)
    requires Monotone(offsets) && InRange(idx, |offsets|)
    ensures InRange(r, Last(offsets))
  {
    if idx == [] then []
    else
      var k := |idx| - 1;
      Flat(offsets, idx[..k]) + Range(Start(offsets, idx[k]), offsets[idx[k]])
  }

  /** One more row appends its run of positions. */
  lemma FlatStep(offsets: seq<nat>, idx: seq<nat>, i: nat)
    requires Monotone(offsets) && InRange(idx, |offsets|) && i < |idx|
    ensures Flat(offsets, idx[..i + 1])
         == Flat(offsets, idx[..i]) + Range(Start(offsets, idx[i]), offsets[idx[i]])
  {
    assert idx[..i + 1][..i] == idx[..i];
  }

  lemma {:induction false} FlatPrefix(offsets: seq<nat>, idx: seq<nat>, i: nat, j: nat)
    requires Monotone(offsets) && InRange(idx, |offsets|) && i <= j <= |idx|
    ensures Flat(offsets, idx[..i]) <= Flat(offsets, idx[..j])
    decreases j
  {
    hide Flat;
    if i < j {
      FlatPrefix(offsets, idx, i, j - 1);
      FlatStep(offsets, idx, j - 1);
    }
  }

  /** The offsets of the chosen rows laid end to end. */
  function Ends(offsets: seq<nat>, idx: seq<nat>): (r: seq<nat>)
    requires Monotone(offsets) && InRange(idx, |offsets|)
    ensures |r| == |idx| && Monotone(r)
    ensures Last(r) == |Flat(offsets, idx)|
    ensures forall i :: 0 <= i <= |idx| ==> Start(r, i) == |Flat(offsets, idx[..i])|
  {
    EndsShape(offsets, idx);
    seq(|idx|, i requires 0 <= i < |idx| => |Flat(offsets, idx[..i + 1])|)
  }

  lemma EndsShape(offsets: seq<nat>, idx: seq<nat>)
    requires Monotone(offsets) && InRange(idx, |offsets|)
    ensures idx[..|idx|] == idx && idx[..0] == [] && Flat(offsets, []) == []
    ensures forall i, j :: 0 <= i <= j <= |idx| ==> |Flat(offsets, idx[..i])| <= |Flat(offsets, idx[..j])|
  {
    forall i, j | 0 <= i <= j <= |idx|
      ensures |Flat(offsets, idx[..i])| <= |Flat(offsets, idx[..j])|
    {
      FlatPrefix(offsets, idx, i, j);
    }
  }

  /** Block `i` of the flattened positions is the run of row `idx[i]`. */
  lemma FlatBlock(offsets: seq<nat>, idx: seq<nat>, i: nat)
    requires Monotone(offsets) && InRange(idx, |offsets|) && i < |idx|
    ensures var flat := Flat(offsets, idx);
            var ends := Ends(offsets, idx);
            var run := Range(Start(offsets, idx[i]), offsets[idx[i]]);
            && Start(ends, i) + |run| == ends[i] <= |flat|
            && forall k :: 0 <= k < |run| ==> flat[Start(ends, i) + k] == run[k]
  {
    hide Flat;
    FlatStep(offsets, idx, i);
    FlatPrefix(offsets, idx, i + 1, |idx|);
    assert idx[..|idx|] == idx;
    assert Start(Ends(offsets, idx), i + 1) == Ends(offsets, idx)[i];
  }

  function SelectFixed(size: nat, data: seq<byte>, idx: seq<nat>): (r: Col)
    requires size > 0 && |data| % size == 0 && InRange(idx, |data| / size)
    ensures Valid(r) && RowCount(r) == |idx|
  {
    PickFixedLength(size, data, idx);
    RowsOf(size, |idx|, |PickFixed(size, data, idx)|);
    FixedStr(size, PickFixed(size, data, idx))
  }

  lemma {:induction false} PickFixedLength(size: nat, data: seq<byte>, idx: seq<nat>)
    requires size > 0 && |data| % size == 0 && InRange(idx, |data| / size)
    ensures |PickFixed(size, data, idx)| == |idx| * size
  {
    if idx != [] {
      var k := |idx| - 1;
      var at := idx[k] * size;
      FixedRow(size, |data|, idx[k]);
      assert |data[at..at + size]| == size;
      PickFixedLength(size, data, idx[..k]);
      OneMoreRow(size, k);
    }
  }

  lemma NoneBelowZero(idx: seq<nat>)
    ensures idx != [] ==> !InRange(idx, 0)
  {
    if idx != [] {
      assert !(idx[0] < 0);
    }
  }

  /** The rows `idx` of a column, as a dense column. */
  function Select(c: Col, idx: seq<nat>): (r: Col)
    requires Valid(c) && Supported(c) && InRange(idx, RowCount(c))
    ensures Valid(r) && Supported(r) && RowCount(r) == |idx|
    decreases c
  {
    match c
    case Scalar(kind, vals) => Scalar(kind, Pick(vals, idx))
    case Str(strs) => Str(Pick(strs, idx))
    case FixedStr(size, data) => SelectFixed(size, data, idx)
    case Nothing(_) => Nothing(|idx|)
    case Json(texts) => Json(Pick(texts, idx))
    case Nullable(inner, nulls) => Nullable(Select(inner, idx), Pick(nulls, idx))
    case Array(items, offsets) =>
      Array(Select(items, Flat(offsets, idx)), Ends(offsets, idx))
    case Tuple(elems) =>
      NoneBelowZero(idx);
      Tuple(SelectEach(elems, idx))
    case Map(keys, values, offsets) =>
      var flat := Flat(offsets, idx);
      Map(Select(keys, flat), Select(values, flat), Ends(offsets, idx))
    case Nested(names, fields, offsets) =>
      Nested(names, SelectEach(fields, Flat(offsets, idx)), Ends(offsets, idx))
    case LowCardinality(dict, refs, keyWidth) =>
      LowCardinality(dict, Pick(refs, idx), keyWidth)
  }

  function SelectEach(cols: seq<Col>, idx: seq<nat>): (r: seq<Col>)
    requires forall i :: 0 <= i < |cols| ==> Valid(cols[i]) && Supported(cols[i])
    requires forall i :: 0 <= i < |cols| ==> InRange(idx, RowCount(cols[i]))
    ensures |r| == |cols| && forall i :: 0 <= i < |cols| ==> r[i] == Select(cols[i], idx)
    decreases cols
  {
    seq(|cols|, i requires 0 <= i < |cols| => Select(cols[i], idx))
  }

  /** The central property: row `i` of the result is row `idx[i]` of the
      source, through every level of nesting. */
  lemma {:induction false} RowSelection(c: Col, idx: seq<nat>, i: nat)
    requires Valid(c) && Supported(c) && InRange(idx, RowCount(c)) && i < |idx|
    ensures RowValue(Select(c, idx), i) == RowValue(c, idx[i])
    decreases c, 0
  {
    hide Flat, PickFixed, RowValues;
    match c
    case Nullable(inner, _) => RowSelection(inner, idx, i);
    case FixedStr(size, data) => FixedSelection(size, data, idx, i);
    case Array(items, offsets) => RunSelection(items, offsets, idx, i);
    case Tuple(elems) =>
      forall j | 0 <= j < |elems| ensures RowValue(Select(elems[j], idx), i) == RowValue(elems[j], idx[i]) {
        RowSelection(elems[j], idx, i);
      }
      assert RowValue(Select(c, idx), i).parts == RowValue(c, idx[i]).parts;
    case Map(keys, values, offsets) =>
      RunSelection(keys, offsets, idx, i);
      RunSelection(values, offsets, idx, i);
    case Nested(_, fields, offsets) =>
      forall j | 0 <= j < |fields| ensures RunSelected(fields[j], offsets, idx, i) {
        RunSelection(fields[j], offsets, idx, i);
      }
      NestedSelection(c, idx, i);
    case _ =>
  }

  /** The elements of row `i` of the expanded column are those of row `idx[i]`. */
  ghost predicate RunSelected(items: Col, offsets: seq<nat>, idx: seq<nat>, i: nat)
    requires Valid(items) && Supported(items) && Monotone(offsets) && RowCount(items) == Last(offsets)
    requires InRange(idx, |offsets|) && i < |idx|
  {
    var ends := Ends(offsets, idx);
    RowValues(Select(items, Flat(offsets, idx)), Start(ends, i), ends[i])
    == RowValues(items, Start(offsets, idx[i]), offsets[idx[i]])
  }

  lemma {:induction false} RunSelection(items: Col, offsets: seq<nat>, idx: seq<nat>, i: nat)
    requires Valid(items) && Supported(items) && Monotone(offsets) && RowCount(items) == Last(offsets)
    requires InRange(idx, |offsets|) && i < |idx|
    ensures RunSelected(items, offsets, idx, i)
    decreases items, 1
  {
    hide Flat, RowValue, Select, Valid, Supported, RowCount;
    FlatBlock(offsets, idx, i);
    var flat, from := Flat(offsets, idx), Start(Ends(offsets, idx), i);
    var start, count := Start(offsets, idx[i]), offsets[idx[i]] - Start(offsets, idx[i]);
    var a := RowValues(Select(items, flat), from, from + count);
    var b := RowValues(items, start, start + count);
    forall k | 0 <= k < count ensures a[k] == b[k] {
      assert flat[from + k] == Range(start, start + count)[k] == start + k;
      RowSelection(items, flat, from + k);
    }
    assert a == b;
  }

  lemma NestedSelection(c: Col, idx: seq<nat>, i: nat)
    requires Valid(c) && Supported(c) && c.Nested? && InRange(idx, RowCount(c)) && i < |idx|
    requires forall j :: 0 <= j < |c.fields| ==> RunSelected(c.fields[j], c.offsets, idx, i)
    ensures RowValue(Select(c, idx), i) == RowValue(c, idx[i])
  {
    hide Flat;
    FlatBlock(c.offsets, idx, i);
    var flat, from := Flat(c.offsets, idx), Start(Ends(c.offsets, idx), i);
    var a, b := RowValue(Select(c, idx), i), RowValue(c, idx[i]);
    forall k | 0 <= k < |a.items| ensures a.items[k] == b.items[k] {
      forall j | 0 <= j < |c.fields| ensures a.items[k].parts[j] == b.items[k].parts[j] {
        assert RowValues(Select(c.fields[j], flat), from, Ends(c.offsets, idx)[i])[k]
            == RowValues(c.fields[j], Start(c.offsets, idx[i]), c.offsets[idx[i]])[k];
      }
      assert a.items[k].parts == b.items[k].parts;
    }
    assert a.items == b.items;
  }

  lemma {:induction false} FixedSelection(size: nat, data: seq<byte>, idx: seq<nat>, i: nat)
    requires size > 0 && |data| % size == 0 && InRange(idx, |data| / size) && i < |idx|
    ensures idx[i] * size + size <= |data| && i * size + size <= |PickFixed(size, data, idx)|
    ensures PickFixed(size, data, idx)[i * size..i * size + size]
         == data[idx[i] * size..idx[i] * size + size]
  {
    var k, at := |idx| - 1, i * size;
    var whole, front := PickFixed(size, data, idx), PickFixed(size, data, idx[..k]);
    FixedRow(size, |data|, idx[i]);
    FixedRow(size, |data|, idx[k]);
    assert whole == front + data[idx[k] * size..idx[k] * size + size];
    hide PickFixed;
    if i < k {
      FixedSelection(size, data, idx[..k], i);
      assert whole[at..at + size] == front[at..at + size];
    } else {
      PickFixedLength(size, data, idx[..k]);
    }
  }
}
