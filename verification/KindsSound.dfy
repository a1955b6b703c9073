/** A column of a block decoded from any bytes, in any layout the reader knows,
    is one the encoder accepts, with the block's row count. */
module KindsSound {
  import opened Base
  import opened Wire
  import opened ByteIO
  import opened Column
  import opened TypeTree
  import opened Codec
  import opened CodecRoundTrip
  import opened CodecSound
  import opened Decoded
  import opened Replicated
  import opened ReplicatedLaws
  import opened SparseOffsets
  import opened Sparse
  import opened Kinds

  lemma SparseDecodedIsValid(t: Ty, rows: nat, s: seq<byte>, c: Col, rest: seq<byte>)
    requires PlainType(t) && ParseSparse(t, rows, s) == Ok((c, rest))
    ensures Valid(c) && RowCount(c) == rows
  {
    hide PlainType, DecodeTree, ParsePositions, Materialize, Valid, RowCount, Increasing;
    var (positions, s1) := ParsePositions(rows, 0, [], s).value;
    var (values, _) := DecodeTree(t, |positions|, s1).value;
    AcceptedStream(rows, 0, [], s);
    assert positions[0..] == positions;
    ExpandedIsPlain(values, positions, rows);
    DecodedIsValid(t, |positions|, s1, values, rest);
    MaterializeExactly(values, positions, rows);
  }

  lemma {:induction false} ExpandedIsPlain(c: Col, positions: seq<nat>, rows: nat)
    requires Materialize(c, positions, rows).Ok?
    ensures PlainRuntime(c)
  {
    hide Scatter, ScatterFixed;
    if c.Nullable? {
      ExpandedIsPlain(c.inner, positions, rows);
    }
  }

  /** Out-of-range indexes go unnoticed only where no element is looked at; the
      row count is right even then. */
  lemma {:induction false} UncheckedRows(c: Col, idx: seq<nat>, n: nat, d: Col)
    requires Unchecked(c) && Guarded(c, 1) && Replicate(c, idx, n) == Ok(d)
    ensures Valid(d) && RowCount(d) == |idx|
    decreases c, 1
  {
    if c.Tuple? {
      UncheckedEach(c.elems, idx, n, [], d.elems);
    }
  }

  lemma {:induction false} UncheckedEach(cols: seq<Col>, idx: seq<nat>, n: nat, done: seq<Col>, all: seq<Col>)
    requires forall i :: 0 <= i < |cols| ==> Unchecked(cols[i]) && Guarded(cols[i], 1)
    requires ReplicateEach(cols, idx, n, done) == Ok(all)
    requires forall i :: 0 <= i < |done| ==> Valid(done[i]) && RowCount(done[i]) == |idx|
    ensures |all| == |done| + |cols|
    ensures forall i :: 0 <= i < |all| ==> Valid(all[i]) && RowCount(all[i]) == |idx|
    decreases cols, 0
  {
    hide Unchecked, Guarded, Valid, RowCount, Replicate;
    if cols != [] {
      var d := Replicate(cols[0], idx, n).value;
      UncheckedRows(cols[0], idx, n, d);
      UncheckedEach(cols[1..], idx, n, done + [d], all);
    }
  }

  /** The expansion refuses Dynamic columns, so it vouches for the runtime types. */
  lemma {:induction false} ReplicatedIsPlain(c: Col, t: Ty, idx: seq<nat>, n: nat)
    requires PlainType(t) && WellTyped(c, t) && Replicate(c, idx, n).Ok?
    ensures PlainRuntime(c)
    decreases c, 1
  {
    hide Lookup, LookupFixed, Flatten, AllRustStrings, AnyStateful, TypeOf, Pow256;
    match t
    case TNullable(u) => ReplicatedIsPlain(c.inner, u, idx, n);
    case TArray(u) =>
      var flat := Flatten(c.offsets, idx, n, [], []).value.0;
      ReplicatedIsPlain(c.items, u, flat, Last(c.offsets));
    case TMap(k, v) =>
      var flat := Flatten(c.offsets, idx, n, [], []).value.0;
      ReplicatedIsPlain(c.keys, k, flat, Last(c.offsets));
      ReplicatedIsPlain(c.values, v, flat, Last(c.offsets));
    case TTuple(ts) => ReplicatedEachPlain(c.elems, ts, idx, n, []);
    case TNested(_, ts) =>
      var flat := Flatten(c.offsets, idx, n, [], []).value.0;
      ReplicatedEachPlain(c.fields, ts, flat, Last(c.offsets), []);
    case _ =>
  }

  lemma {:induction false} ReplicatedEachPlain(cols: seq<Col>, ts: seq<Ty>, idx: seq<nat>, n: nat, done: seq<Col>)
    requires |cols| == |ts| && forall i :: 0 <= i < |ts| ==> PlainType(ts[i]) && WellTyped(cols[i], ts[i])
    requires ReplicateEach(cols, idx, n, done).Ok?
    ensures forall i :: 0 <= i < |cols| ==> PlainRuntime(cols[i])
    decreases cols, 0
  {
    hide PlainType, WellTyped, Replicate, PlainRuntime;
    if cols != [] {
      ReplicatedIsPlain(cols[0], ts[0], idx, n);
      ReplicatedEachPlain(cols[1..], ts[1..], idx, n, done + [Replicate(cols[0], idx, n).value]);
      assert cols == [cols[0]] + cols[1..];
    }
  }

  lemma ReplicatedDecodedIsValid(t: Ty, rows: nat, s: seq<byte>, c: Col, rest: seq<byte>)
    requires PlainType(t) && ParseReplicated(t, rows, s) == Ok((c, rest))
    ensures Valid(c) && RowCount(c) == rows
  {
    hide PlainType, DecodeTree, ParseVarUInt, ParseLE, ParseLEs, Replicate, Valid, RowCount, WellTyped, Guarded;
    hide Pow256, Fits, Canonical, Bare, PlainRuntime, Select, SizesFit, Supported, Unchecked, InRange;
    var s1 := ParseVarUInt(s).value.1;
    var (width, s2) := ParseLE(1, s1).value;
    var (indexes, s3) := ParseIndexes(width, rows, s2).value;
    IndexCount(width, rows, s2);
    var (n, s4) := ParseVarUInt(s3).value;
    var (elements, after) := DecodeTree(t, n, s4).value;
    DecodedIsSound(t, n, s4);
    ReplicatedIsPlain(elements, t, indexes, n);
    DecodedIsValid(t, n, s4, elements, after);
    ReplicateExactly(elements, indexes);
    if !InRange(indexes, n) {
      PlainGuarded(elements, t, 1);
      UncheckedRows(elements, indexes, n, c);
    }
  }

  lemma IndexCount(width: nat, rows: nat, s: seq<byte>)
    ensures ParseIndexes(width, rows, s).Ok? ==> |ParseIndexes(width, rows, s).value.0| == rows
  {
    hide ParseLEs;
    IndexCountFrom(width, rows, [], s);
  }

  lemma {:induction false} IndexCountFrom(width: nat, n: nat, v: seq<nat>, s: seq<byte>)
    ensures var r := ParseLEs(width, n, v, s); r.Ok? ==> |r.value.0| == |v| + n
  {
    hide ParseLE;
    if n > 0 && ParseLE(width, s).Ok? {
      var (x, rest) := ParseLE(width, s).value;
      IndexCountFrom(width, n - 1, v + [x], rest);
    }
  }

  /** For every column layout: what was decoded at a plain type is valid and has
      the rows the block declared. */
  lemma EntryDecodedIsValid(rows: nat, protocol: nat, s: seq<byte>, e: Entry, rest: seq<byte>)
    requires ParseEntry(rows, protocol, s) == Ok((e, rest))
    requires PlainType(TypeOf(e.dataType)) && PlainRuntime(e.data)
    ensures Valid(e.data) && RowCount(e.data) == rows
  {
    hide PlainType, PlainRuntime, TypeOf, DecodeTree, ParseSparse, ParseReplicated, ParseString, ParseKind, Valid;
    hide RowCount;
    var (_, s1) := ParseString(s).value;
    var (_, s2) := ParseString(s1).value;
    var (ser, s3) := ParseKind(protocol, s2).value;
    var t := TypeOf(e.dataType);
    var data := ParseData(ser, t, rows, s3);
    assert data.Ok? && data.value.0 == e.data && data.value.1 == rest;
    if ser == Dense || ser.kindStack == [0] {
      DecodedIsValid(t, rows, s3, e.data, rest);
    } else if ser.kindStack == [1] {
      SparseDecodedIsValid(t, rows, s3, e.data, rest);
    } else {
      ReplicatedDecodedIsValid(t, rows, s3, e.data, rest);
    }
  }
}
