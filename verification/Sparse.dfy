/** src/proto/column.rs: the SPARSE column kind. Only the rows that differ from
    the type's default are sent; they are scattered into a dense column. */
module Sparse {
  import opened Base
  import opened Column
  import opened SparseOffsets

  // ---- What the code does, panics included -----------------------------------------

  /** Puts `v[i]`, `v[i + 1]`, ... up to `v[n - 1]` at their positions. */
  function Scatter<T>(v: seq<T>, positions: seq<nat>, n: nat, i: nat, dense: seq<T>): (r: Result<seq<T>>)
    ensures !r.EndsEarly()
    decreases n - i
  {
    if i >= n then Ok(dense)
    else if i >= |v| || i >= |positions| || positions[i] >= |dense| then Err(Panic)
    else Scatter(v, positions, n, i + 1, dense[positions[i] := v[i]])
  }

  function Repeat<T>(x: T, n: nat): (r: seq<T>)
    ensures |r| == n && forall i :: 0 <= i < n ==> r[i] == x
  {
    seq(n, _ => x)
  }

  function Overwrite(dense: seq<byte>, at: nat, piece: seq<byte>): (r: seq<byte>)
    requires at + |piece| <= |dense|
    ensures |r| == |dense|
  {
    dense[..at] + piece + dense[at + |piece|..]
  }

  /** The same for runs of `size` bytes. */
  function ScatterFixed(size: nat, data: seq<byte>, positions: seq<nat>, i: nat, dense: seq<byte>)
    : (r: Result<seq<byte>>)
    ensures !r.EndsEarly()
    decreases |positions| - i
  {
    if i >= |positions| then Ok(dense)
    else if positions[i] * size + size > |dense| || i * size + size > |data| then Err(Panic)
    else
      var piece := data[i * size..i * size + size];
      ScatterFixed(size, data, positions, i + 1, Overwrite(dense, positions[i] * size, piece))
  }

  predicate Expandable(kind: Kind) {
    kind != UInt256 && kind != Int256
  }

  function Materialize(c: Col, positions: seq<nat>, rows: nat): (r: Result<Col>)
    ensures !r.EndsEarly()
    decreases c
  {
    match c
    case Scalar(kind, vals) =>
      if !Expandable(kind) then Err(Unsupported)
      else
        var dense :- Scatter<nat>(vals, positions, |positions|, 0, Repeat<nat>(0, rows));
        Ok(Scalar(kind, dense))
    case Str(strs) =>
      var dense :- Scatter(strs, positions, |strs|, 0, Repeat("", rows));
      Ok(Str(dense))
    case FixedStr(size, data) =>
      if size * rows >= U64_BOUND then Err(InvalidData)
      else
        var dense :- ScatterFixed(size, data, positions, 0, Repeat<byte>(0, size * rows));
        Ok(FixedStr(size, dense))
    case Nullable(inner, nulls) =>
      var denseInner :- Materialize(inner, positions, rows);
      var denseNulls :- Scatter<byte>(nulls, positions, |positions|, 0, Repeat<byte>(1, rows));
      Ok(Nullable(denseInner, denseNulls))
    case _ => Err(Unsupported)
  }

  // ---- The loops of the source -------------------------------------------------------

  method ScatterLoop<T>(v: seq<T>, positions: seq<nat>, n: nat, rows: nat, blank: T) returns (r: Result<seq<T>>)
    ensures r == Scatter(v, positions, n, 0, Repeat(blank, rows))
  {
    var dense := new T[rows](_ => blank);
    assert dense[..] == Repeat(blank, rows);
    for i := 0 to n
      invariant Scatter(v, positions, n, i, dense[..]) == Scatter(v, positions, n, 0, Repeat(blank, rows))
    {
      if i >= |v| || i >= |positions| || positions[i] >= dense.Length {
        return Err(Panic);
      }
      ghost var before := dense[..];
      dense[positions[i]] := v[i];
      assert dense[..] == before[positions[i] := v[i]];
    }
    r := Ok(dense[..]);
  }

  method CopyInto(dense: array<byte>, at: nat, piece: seq<byte>)
    requires at + |piece| <= dense.Length
    modifies dense
    ensures dense[..] == Overwrite(old(dense[..]), at, piece)
  {
    forall j | 0 <= j < |piece| {
      dense[at + j] := piece[j];
    }
  }

  lemma ScatterFixedStep(size: nat, data: seq<byte>, positions: seq<nat>, i: nat, dense: seq<byte>)
    ensures i >= |positions| ==> ScatterFixed(size, data, positions, i, dense) == Ok(dense)
    ensures i < |positions| ==>
              var src, dst := i * size, positions[i] * size;
              ScatterFixed(size, data, positions, i, dense)
              == if dst + size > |dense| || src + size > |data| then Err(Panic)
                 else ScatterFixed(size, data, positions, i + 1, Overwrite(dense, dst, data[src..src + size]))
  {
    hide Overwrite;
  }

  method ScatterFixedLoop(size: nat, data: seq<byte>, positions: seq<nat>, rows: nat) returns (r: Result<seq<byte>>)
    ensures r == ScatterFixed(size, data, positions, 0, Repeat<byte>(0, size * rows))
  {
    hide Overwrite, ScatterFixed;
    var dense := new byte[size * rows](_ => 0);
    ghost var goal := ScatterFixed(size, data, positions, 0, Repeat<byte>(0, size * rows));
    assert dense[..] == Repeat<byte>(0, size * rows);
    for i := 0 to |positions|
      invariant ScatterFixed(size, data, positions, i, dense[..]) == goal
    {
      var src, dst := i * size, positions[i] * size;
      ScatterFixedStep(size, data, positions, i, dense[..]);
      if dst + size > dense.Length || src + size > |data| {
        return Err(Panic);
      }
      CopyInto(dense, dst, data[src..src + size]);
    }
    ScatterFixedStep(size, data, positions, |positions|, dense[..]);
    r := Ok(dense[..]);
  }

  method MaterializeSparse(c: Col, positions: seq<nat>, rows: nat) returns (r: Result<Col>)
    ensures r == Materialize(c, positions, rows)
    decreases c
  {
    hide Scatter, ScatterFixed;
    match c
    case Scalar(kind, vals) =>
      if !Expandable(kind) {
        return Err(Unsupported);
      }
      var dense :- ScatterLoop<nat>(vals, positions, |positions|, rows, 0);
      r := Ok(Scalar(kind, dense));
    case Str(strs) =>
      var dense :- ScatterLoop(strs, positions, |strs|, rows, "");
      r := Ok(Str(dense));
    case FixedStr(size, data) =>
      if size * rows >= U64_BOUND {
        return Err(InvalidData);
      }
      var dense :- ScatterFixedLoop(size, data, positions, rows);
      r := Ok(FixedStr(size, dense));
    case Nullable(inner, nulls) =>
      var denseInner :- MaterializeSparse(inner, positions, rows);
      var denseNulls :- ScatterLoop<byte>(nulls, positions, |positions|, rows, 1);
      r := Ok(Nullable(denseInner, denseNulls));
    case _ =>
      r := Err(Unsupported);
  }

  // ---- What it means --------------------------------------------------------------------

  /** The types a sparse column may have. */
  predicate Expands(c: Col, rows: nat) {
    match c
    case Scalar(kind, _) => Expandable(kind)
    case Str(_) => true
    case FixedStr(size, _) => size * rows < U64_BOUND
    case Nullable(inner, _) => Expands(inner, rows)
    case _ => false
  }

  /** The value of a row that was not sent. */
  function Default(c: Col): Value {
    match c
    case Scalar(kind, _) => Num(kind, 0)
    case Str(_) => Txt("")
    case FixedStr(size, _) => Raw(Repeat<byte>(0, size))
    case _ => Null
  }

  lemma {:induction false} ScatterPlaces<T>(v: seq<T>, positions: seq<nat>, rows: nat, i: nat, dense: seq<T>)
    requires |v| == |positions| && Increasing(positions, 0, rows) && i <= |positions| && |dense| == rows
    ensures var r := Scatter(v, positions, |positions|, i, dense);
            && r.Ok? && |r.value| == rows
            && (forall k :: i <= k < |positions| ==> r.value[positions[k]] == v[k])
            && (forall p :: 0 <= p < rows && (forall k :: i <= k < |positions| ==> positions[k] != p) ==>
                  r.value[p] == dense[p])
    decreases |positions| - i
  {
    if i < |positions| {
      ScatterPlaces(v, positions, rows, i + 1, dense[positions[i] := v[i]]);
    }
  }

  /** Row `p` of the buffer. */
  function Run(size: nat, data: seq<byte>, p: nat): seq<byte>
    requires p * size + size <= |data|
  {
    data[p * size..p * size + size]
  }

  lemma RunFits(size: nat, p: nat, rows: nat)
    requires p < rows
    ensures p * size + size <= size * rows
  {
    RowsFit(size, p + 1, rows);
  }

  lemma SliceOverwritten(dense: seq<byte>, at: nat, piece: seq<byte>, from: nat, to: nat)
    requires at + |piece| <= |dense| && from <= to <= |dense|
    ensures var r := Overwrite(dense, at, piece);
            && (to <= at || at + |piece| <= from ==> r[from..to] == dense[from..to])
            && r[at..at + |piece|] == piece
  {
  }

  lemma RunOverwritten(size: nat, dense: seq<byte>, rows: nat, at: nat, piece: seq<byte>, p: nat)
    requires |dense| == size * rows && at < rows && p < rows && |piece| == size
    ensures at * size + size <= |dense| && p * size + size <= |dense|
    ensures Run(size, Overwrite(dense, at * size, piece), p) == if p == at then piece else Run(size, dense, p)
  {
    hide Overwrite;
    RunFits(size, at, rows);
    RunFits(size, p, rows);
    if p < at {
      RowsFit(size, p + 1, at);
      OneMoreRow(size, p);
    } else if p > at {
      RowsFit(size, at + 1, p);
      OneMoreRow(size, at);
    }
    SliceOverwritten(dense, at * size, piece, p * size, p * size + size);
  }

  lemma {:induction false} ScatterFixedPlaces(size: nat, data: seq<byte>, positions: seq<nat>, rows: nat,
      i: nat, dense: seq<byte>)
    requires |data| == size * |positions| && Increasing(positions, 0, rows)
    requires i <= |positions| && |dense| == size * rows
    ensures var r := ScatterFixed(size, data, positions, i, dense); r.Ok? && |r.value| == size * rows
    ensures forall p :: 0 <= p < rows ==> FixedPlaced(size, data, positions, rows, i, dense, p)
    decreases |positions| - i
  {
    if i < |positions| {
      var at := positions[i];
      RunFits(size, at, rows);
      RunFits(size, i, |positions|);
      var piece := data[i * size..i * size + size];
      var next := Overwrite(dense, at * size, piece);
      ScatterFixedPlaces(size, data, positions, rows, i + 1, next);
      forall p | 0 <= p < rows ensures FixedPlaced(size, data, positions, rows, i, dense, p) {
        RunFits(size, p, rows);
        RunOverwritten(size, dense, rows, at, piece, p);
        assert FixedPlaced(size, data, positions, rows, i + 1, next, p);
        forall k | i + 1 <= k < |positions| ensures k * size + size <= |data| { RunFits(size, k, |positions|); }
      }
    } else {
      forall p | 0 <= p < rows ensures FixedPlaced(size, data, positions, rows, i, dense, p) {
        RunFits(size, p, rows);
      }
    }
  }

  ghost predicate FixedPlaced(size: nat, data: seq<byte>, positions: seq<nat>, rows: nat, i: nat,
      dense: seq<byte>, p: nat)
  {
    var r := ScatterFixed(size, data, positions, i, dense);
    && r.Ok? && |r.value| == |dense| && p * size + size <= |dense|
    && (forall k :: i <= k < |positions| && positions[k] == p ==>
          k * size + size <= |data| && Run(size, r.value, p) == Run(size, data, k))
    && ((forall k :: i <= k < |positions| ==> positions[k] != p) ==> Run(size, r.value, p) == Run(size, dense, p))
  }

  /** On a valid column of as many rows as there are positions the expansion
      succeeds exactly for the supported types, and gives `rows` valid rows. */
  lemma {:induction false} MaterializeExactly(c: Col, positions: seq<nat>, rows: nat)
    requires Valid(c) && RowCount(c) == |positions| && Increasing(positions, 0, rows)
    ensures Materialize(c, positions, rows).Ok? <==> Expands(c, rows)
    ensures var r := Materialize(c, positions, rows); r.Ok? ==> Valid(r.value) && RowCount(r.value) == rows
    decreases c
  {
    hide Scatter, ScatterFixed, Increasing;
    match c
    case Scalar(_, vals) => ScatterPlaces<nat>(vals, positions, rows, 0, Repeat<nat>(0, rows));
    case Str(strs) => ScatterPlaces(strs, positions, rows, 0, Repeat("", rows));
    case FixedStr(size, data) =>
      FixedLength(size, |data|);
      ScatterFixedPlaces(size, data, positions, rows, 0, Repeat<byte>(0, size * rows));
      RowsOf(size, rows, size * rows);
    case Nullable(inner, nulls) =>
      MaterializeExactly(inner, positions, rows);
      ScatterPlaces<byte>(nulls, positions, rows, 0, Repeat<byte>(1, rows));
    case _ =>
  }

  lemma FixedLength(size: nat, len: nat)
    requires size > 0 && len % size == 0
    ensures len == size * (len / size)
  {
  }

  /** The dense column holds the sent rows at their positions and the type's
      default, NULL for a Nullable one, everywhere else. */
  lemma {:induction false} SparseRow(c: Col, positions: seq<nat>, rows: nat, p: nat)
    requires Valid(c) && RowCount(c) == |positions| && Increasing(positions, 0, rows) && p < rows
    requires Materialize(c, positions, rows).Ok?
    ensures var d := Materialize(c, positions, rows).value;
            && Valid(d) && RowCount(d) == rows
            && (forall k :: 0 <= k < |positions| && positions[k] == p ==> RowValue(d, p) == RowValue(c, k))
            && (p !in positions ==> RowValue(d, p) == Default(c))
    decreases c
  {
    hide Scatter, ScatterFixed, Increasing, FixedPlaced;
    MaterializeExactly(c, positions, rows);
    match c
    case Scalar(_, vals) => ScatterPlaces<nat>(vals, positions, rows, 0, Repeat<nat>(0, rows));
    case Str(strs) => ScatterPlaces(strs, positions, rows, 0, Repeat("", rows));
    case FixedStr(size, data) => FixedRowPlaced(size, data, positions, rows, p);
    case Nullable(inner, nulls) =>
      SparseRow(inner, positions, rows, p);
      ScatterPlaces<byte>(nulls, positions, rows, 0, Repeat<byte>(1, rows));
  }

  lemma FixedRowPlaced(size: nat, data: seq<byte>, positions: seq<nat>, rows: nat, p: nat)
    requires Valid(FixedStr(size, data)) && |data| / size == |positions| && Increasing(positions, 0, rows) && p < rows
    requires size * rows < U64_BOUND
    ensures var r := ScatterFixed(size, data, positions, 0, Repeat<byte>(0, size * rows));
            && r.Ok? && |r.value| == size * rows && p * size + size <= |r.value|
            && (forall k :: 0 <= k < |positions| && positions[k] == p ==>
                  k * size + size <= |data| && Run(size, r.value, p) == Run(size, data, k))
            && (p !in positions ==> Run(size, r.value, p) == Repeat<byte>(0, size))
  {
    hide ScatterFixed, Increasing;
    FixedLength(size, |data|);
    var blank := Repeat<byte>(0, size * rows);
    RunFits(size, p, rows);
    ScatterFixedPlaces(size, data, positions, rows, 0, blank);
    assert FixedPlaced(size, data, positions, rows, 0, blank, p);
    assert Run(size, blank, p) == Repeat<byte>(0, size);
  }

  /** All fixed-width leaves but the 256-bit integers can be sparse, strings too,
      and nothing composite but a Nullable of those. */
  lemma SparseTypes(kind: Kind, vals: seq<nat>, positions: seq<nat>, rows: nat)
    requires |vals| == |positions| && Increasing(positions, 0, rows)
    ensures Materialize(Scalar(kind, vals), positions, rows).Ok? <==> kind != UInt256 && kind != Int256
    ensures kind in {UInt256, Int256} ==> Materialize(Scalar(kind, vals), positions, rows) == Err(Unsupported)
  {
    hide Scatter;
    ScatterPlaces<nat>(vals, positions, rows, 0, Repeat<nat>(0, rows));
  }

  /** A type the layout does not have is unsupported, a FixedString past 64 bits is
      invalid, and a Nullable is refused as what is inside it. */
  lemma SparseRefused(c: Col, positions: seq<nat>, rows: nat)
    ensures c.Scalar? && c.kind in {UInt256, Int256} ==> Materialize(c, positions, rows) == Err(Unsupported)
    ensures !c.Scalar? && !c.Str? && !c.FixedStr? && !c.Nullable? ==>
              Materialize(c, positions, rows) == Err(Unsupported)
    ensures c.FixedStr? && c.n * rows >= 0x1_0000_0000_0000_0000 ==>
              Materialize(c, positions, rows) == Err(InvalidData)
    ensures c.Nullable? && Materialize(c.inner, positions, rows).Err? ==>
              Materialize(c, positions, rows) == Materialize(c.inner, positions, rows)
  {
    hide Scatter, ScatterFixed;
  }
}
