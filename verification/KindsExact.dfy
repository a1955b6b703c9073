/** Which columns of a block come back. The writer lays the data out densely
    whatever kind a column is marked with, so the mark decides. */
module KindsExact {
  import opened Base
  import opened Wire
  import opened ByteIO
  import opened Column
  import opened TypeTree
  import opened Codec
  import opened CodecRoundTrip
  import opened CodecSound
  import opened Decoded
  import opened HighBytes
  import opened Replicated
  import opened ReplicatedLaws
  import opened SparseOffsets
  import opened Sparse
  import opened Kinds
  import opened KindsSound

  // ---- What an offsets stream uses up ------------------------------------------------

  /** The number that ends an offsets stream has a high byte. */
  lemma {:induction false} StreamHigh(rows: nat, cursor: nat, done: seq<nat>, s: seq<byte>)
    ensures var r := ParsePositions(rows, cursor, done, s); r.Ok? ==> High(r.value.1) < High(s)
    decreases |s|
  {
    hide ParseVarUInt, High, Leb;
    VarUIntHigh(s);
    match ParseVarUInt(s)
    case Err(_) =>
    case Ok((raw, rest)) =>
      EndIsLarge(raw);
      var at := cursor + GroupSize(raw);
      if at < U64_BOUND && !IsEnd(raw) && at < rows {
        hide IsEnd, GroupSize;
        StreamHigh(rows, at + 1, done + [at], rest);
      }
  }

  lemma EndIsLarge(raw: nat)
    ensures IsEnd(raw) ==> raw >= 128
  {
  }

  lemma Accepted(rows: nat, s: seq<byte>)
    ensures var r := ParsePositions(rows, 0, [], s); r.Ok? ==> Increasing(r.value.0, 0, rows)
  {
    hide ParsePositions, Increasing;
    AcceptedStream(rows, 0, [], s);
    match ParsePositions(rows, 0, [], s)
    case Ok((positions, _)) => assert positions[0..] == positions;
    case Err(_) =>
  }

  // ---- Rows that are not sent have no high bytes --------------------------------------------

  /** `all` has the values at their positions and nothing elsewhere. */
  ghost predicate Spread(all: seq<nat>, positions: seq<nat>, values: seq<nat>) {
    && Increasing(positions, 0, |all|) && |values| == |positions|
    && (forall k :: 0 <= k < |positions| ==> all[positions[k]] == values[k])
    && (forall p :: 0 <= p < |all| && p !in positions ==> all[p] == 0)
  }

  lemma {:induction false} SpreadTotal(all: seq<nat>, positions: seq<nat>, values: seq<nat>)
    requires Spread(all, positions, values)
    ensures Total(all) == Total(values)
    decreases |all|
  {
    if all == [] {
      assert positions == [];
    } else {
      var n, k := |all| - 1, |positions| - 1;
      TotalSnoc(all[..n], all[n]);
      assert all[..n] + [all[n]] == all;
      if positions != [] && positions[k] == n {
        LastRow(all, positions, values);
        SpreadTotal(all[..n], positions[..k], values[..k]);
        TotalSnoc(values[..k], values[k]);
        assert values[..k] + [values[k]] == values;
      } else {
        NoLastRow(all, positions, values);
        SpreadTotal(all[..n], positions, values);
      }
    }
  }

  lemma {:induction false} TotalSnoc(xs: seq<nat>, x: nat)
    ensures Total(xs + [x]) == Total(xs) + x
  {
    if xs == [] {
      assert ([x])[1..] == [];
    } else {
      TotalSnoc(xs[1..], x);
      assert (xs + [x])[1..] == xs[1..] + [x];
    }
  }

  lemma LastRow(all: seq<nat>, positions: seq<nat>, values: seq<nat>)
    requires Spread(all, positions, values) && all != [] && positions != []
    requires positions[|positions| - 1] == |all| - 1
    ensures Spread(all[..|all| - 1], positions[..|positions| - 1], values[..|values| - 1])
    ensures all[|all| - 1] == values[|values| - 1]
  {
    var n, k := |all| - 1, |positions| - 1;
    forall p | 0 <= p < n && p !in positions[..k] ensures all[p] == 0 {
      assert p !in positions;
    }
  }

  lemma NoLastRow(all: seq<nat>, positions: seq<nat>, values: seq<nat>)
    requires Spread(all, positions, values) && all != []
    requires positions != [] ==> positions[|positions| - 1] != |all| - 1
    ensures Spread(all[..|all| - 1], positions, values) && all[|all| - 1] == 0
  {
    var n, k := |all| - 1, |positions| - 1;
    forall i | 0 <= i < |positions| ensures positions[i] < n {
      assert i < k ==> positions[i] < positions[k];
    }
  }

  // ---- High bytes of a column, row by row -----------------------------------------------------

  function NumberWeights(w: nat, xs: seq<nat>): (r: seq<nat>)
    ensures |r| == |xs|
  {
    seq(|xs|, i requires 0 <= i < |xs| => High(LE(w, xs[i])))
  }

  lemma {:induction false} NumbersTotal(w: nat, xs: seq<nat>)
    ensures High(LEs(w, xs)) == Total(NumberWeights(w, xs))
  {
    hide LE, High;
    if xs == [] {
      NothingHigh();
    } else {
      NumbersTotal(w, xs[1..]);
      HighAppend(LE(w, xs[0]), LEs(w, xs[1..]));
      assert NumberWeights(w, xs) == [High(LE(w, xs[0]))] + NumberWeights(w, xs[1..]);
    }
  }

  lemma {:induction false} ZeroHigh(w: nat)
    ensures High(LE(w, 0)) == 0 && High(Repeat<byte>(0, w)) == 0
  {
    if w > 0 {
      ZeroHigh(w - 1);
      assert Repeat<byte>(0, w)[1..] == Repeat<byte>(0, w - 1);
    }
  }

  function StringWeights(xs: seq<string>): (r: seq<nat>)
    ensures |r| == |xs|
  {
    seq(|xs|, i requires 0 <= i < |xs| => High(EncodeString(xs[i])))
  }

  lemma {:induction false} StringsTotal(xs: seq<string>)
    ensures High(EncodeStrings(xs)) == Total(StringWeights(xs))
  {
    hide EncodeString, High;
    if xs == [] {
      NothingHigh();
    } else {
      StringsTotal(xs[1..]);
      HighAppend(EncodeString(xs[0]), EncodeStrings(xs[1..]));
      assert StringWeights(xs) == [High(EncodeString(xs[0]))] + StringWeights(xs[1..]);
    }
  }

  lemma EmptyStringHigh()
    ensures High(EncodeString("")) == 0
  {
    assert EncodeString("") == [0] && [0][1..] == [];
  }

  function ByteWeights(xs: seq<byte>): (r: seq<nat>)
    ensures |r| == |xs|
  {
    seq(|xs|, i requires 0 <= i < |xs| => if xs[i] >= 128 then 1 else 0)
  }

  lemma {:induction false} BytesTotal(xs: seq<byte>)
    ensures High(xs) == Total(ByteWeights(xs))
  {
    if xs != [] {
      BytesTotal(xs[1..]);
      assert ByteWeights(xs)[1..] == ByteWeights(xs[1..]);
    }
  }

  function RunWeights(size: nat, data: seq<byte>, rows: nat): (r: seq<nat>)
    requires |data| == size * rows
    ensures |r| == rows
  {
    seq(rows, p requires 0 <= p < rows => RunFits(size, p, rows); High(Run(size, data, p)))
  }

  lemma {:induction false} RunsTotal(size: nat, data: seq<byte>, rows: nat)
    requires |data| == size * rows
    ensures High(data) == Total(RunWeights(size, data, rows))
    decreases rows
  {
    hide High, Run;
    if rows == 0 {
      NothingHigh();
      assert data == [];
    } else {
      var n := rows - 1;
      OneMoreRow(size, n);
      assert |data| == size * n + size;
      var front, last := data[..size * n], data[size * n..];
      RunsTotal(size, front, n);
      HighAppend(front, last);
      assert front + last == data;
      FrontRuns(size, data, rows);
      TotalSnoc(RunWeights(size, front, n), High(last));
    }
  }

  lemma FrontRuns(size: nat, data: seq<byte>, rows: nat)
    requires rows > 0 && |data| == size * rows
    ensures size * (rows - 1) <= |data| && |data[..size * (rows - 1)]| == size * (rows - 1)
    ensures RunWeights(size, data, rows)
         == RunWeights(size, data[..size * (rows - 1)], rows - 1) + [High(data[size * (rows - 1)..])]
  {
    hide High;
    var n := rows - 1;
    OneMoreRow(size, n);
    var front := data[..size * n];
    forall p | 0 <= p < n ensures RunWeights(size, data, rows)[p] == RunWeights(size, front, n)[p] {
      RunFits(size, p, n);
      assert front[p * size..p * size + size] == data[p * size..p * size + size];
    }
    assert data[n * size..n * size + size] == data[size * n..];
  }

  /** Expanding adds rows, but no high bytes. */
  lemma {:induction false} MaterializeHigh(c: Col, positions: seq<nat>, rows: nat, d: Col)
    requires Valid(c) && RowCount(c) == |positions| && Increasing(positions, 0, rows)
    requires Materialize(c, positions, rows) == Ok(d)
    ensures High(Encode(d)) == High(Encode(c))
    decreases c
  {
    hide Scatter, ScatterFixed, Increasing, LEs, LE, EncodeStrings, High, Spread;
    match c
    case Scalar(kind, vals) => ScalarSpread(Width(kind), vals, positions, rows, d.vals);
    case Str(strs) => StringsSpread(strs, positions, rows, d.strs);
    case FixedStr(size, data) => FixedSpread(size, data, positions, rows, d.data);
    case Nullable(inner, nulls) =>
      MaterializeHigh(inner, positions, rows, d.inner);
      FlagsSpread(nulls, positions, rows, d.nulls);
      HighAppend(nulls, Encode(inner));
      HighAppend(d.nulls, Encode(d.inner));
  }

  lemma ScalarSpread(w: nat, v: seq<nat>, positions: seq<nat>, rows: nat, dense: seq<nat>)
    requires |v| == |positions| && Increasing(positions, 0, rows)
    requires Scatter<nat>(v, positions, |positions|, 0, Repeat<nat>(0, rows)) == Ok(dense)
    ensures High(LEs(w, dense)) == High(LEs(w, v))
  {
    hide Scatter, LEs, LE, High;
    ScatterPlaces<nat>(v, positions, rows, 0, Repeat<nat>(0, rows));
    ZeroHigh(w);
    assert Spread(NumberWeights(w, dense), positions, NumberWeights(w, v));
    SpreadTotal(NumberWeights(w, dense), positions, NumberWeights(w, v));
    NumbersTotal(w, dense);
    NumbersTotal(w, v);
  }

  lemma StringsSpread(v: seq<string>, positions: seq<nat>, rows: nat, dense: seq<string>)
    requires |v| == |positions| && Increasing(positions, 0, rows)
    requires Scatter(v, positions, |v|, 0, Repeat("", rows)) == Ok(dense)
    ensures High(EncodeStrings(dense)) == High(EncodeStrings(v))
  {
    hide Scatter, EncodeStrings, EncodeString, High;
    ScatterPlaces(v, positions, rows, 0, Repeat("", rows));
    EmptyStringHigh();
    assert Spread(StringWeights(dense), positions, StringWeights(v));
    SpreadTotal(StringWeights(dense), positions, StringWeights(v));
    StringsTotal(dense);
    StringsTotal(v);
  }

  lemma FlagsSpread(v: seq<byte>, positions: seq<nat>, rows: nat, dense: seq<byte>)
    requires |v| == |positions| && Increasing(positions, 0, rows)
    requires Scatter<byte>(v, positions, |positions|, 0, Repeat<byte>(1, rows)) == Ok(dense)
    ensures High(dense) == High(v)
  {
    hide Scatter, High;
    ScatterPlaces<byte>(v, positions, rows, 0, Repeat<byte>(1, rows));
    assert Spread(ByteWeights(dense), positions, ByteWeights(v));
    SpreadTotal(ByteWeights(dense), positions, ByteWeights(v));
    BytesTotal(dense);
    BytesTotal(v);
  }

  lemma FixedSpread(size: nat, data: seq<byte>, positions: seq<nat>, rows: nat, dense: seq<byte>)
    requires Valid(FixedStr(size, data)) && |data| / size == |positions| && Increasing(positions, 0, rows)
    requires size * rows < U64_BOUND
    requires ScatterFixed(size, data, positions, 0, Repeat<byte>(0, size * rows)) == Ok(dense)
    ensures High(dense) == High(data)
  {
    hide ScatterFixed, High, Increasing, Run;
    FixedLength(size, |data|);
    ScatterFixedPlaces(size, data, positions, rows, 0, Repeat<byte>(0, size * rows));
    RunsSpread(size, data, positions, rows, dense);
    SpreadTotal(RunWeights(size, dense, rows), positions, RunWeights(size, data, |positions|));
    RunsTotal(size, dense, rows);
    RunsTotal(size, data, |positions|);
  }

  lemma RunsSpread(size: nat, data: seq<byte>, positions: seq<nat>, rows: nat, dense: seq<byte>)
    requires Valid(FixedStr(size, data)) && |data| == size * |positions| && |data| / size == |positions|
    requires Increasing(positions, 0, rows) && size * rows < U64_BOUND && |dense| == size * rows
    requires ScatterFixed(size, data, positions, 0, Repeat<byte>(0, size * rows)) == Ok(dense)
    ensures Spread(RunWeights(size, dense, rows), positions, RunWeights(size, data, |positions|))
  {
    hide ScatterFixed, High, Run;
    var all, values := RunWeights(size, dense, rows), RunWeights(size, data, |positions|);
    forall k | 0 <= k < |positions| ensures all[positions[k]] == values[k] {
      FixedRowPlaced(size, data, positions, rows, positions[k]);
      RunFits(size, k, |positions|);
      assert Run(size, dense, positions[k]) == Run(size, data, k);
    }
    ZeroHigh(size);
    forall p | 0 <= p < rows && p !in positions ensures all[p] == 0 {
      FixedRowPlaced(size, data, positions, rows, p);
    }
  }

  // ---- A sparse mark on dense data ---------------------------------------------------------

  lemma {:induction false} ExpandsPlain(c: Col, t: Ty)
    requires WellTyped(c, t) && Valid(c) && Expands(c, 0)
    ensures PlainType(t)
  {
    if c.Nullable? { ExpandsPlain(c.inner, t.t); }
  }

  lemma {:induction false} MaterializedExpands(c: Col, positions: seq<nat>, rows: nat)
    ensures var r := Materialize(c, positions, rows); r.Ok? ==> Expands(r.value, 0)
  {
    hide Scatter, ScatterFixed;
    if c.Nullable? { MaterializedExpands(c.inner, positions, rows); }
  }

  /** A sparse column takes more high bytes than its dense form is written with:
      those of its values, and the one that ends its offsets. */
  lemma SparseHigh(t: Ty, rows: nat, s: seq<byte>, c: Col, rest: seq<byte>)
    requires PlainType(t) && ParseSparse(t, rows, s) == Ok((c, rest))
    ensures High(Encode(c)) + High(rest) < High(s)
  {
    hide ParsePositions, Increasing, Materialize, Valid, RowCount, PlainType, PlainRuntime, DecodeTree, Encode, High;
    hide NoDictionary, WellTyped;
    var (positions, s1) := ParsePositions(rows, 0, [], s).value;
    var (values, _) := DecodeTree(t, |positions|, s1).value;
    Accepted(rows, s);
    StreamHigh(rows, 0, [], s);
    PlainNoDictionary(t);
    DecodeHigh(t, |positions|, s1);
    ExpandedIsPlain(values, positions, rows);
    DecodedIsValid(t, |positions|, s1, values, rest);
    MaterializeHigh(values, positions, rows, c);
  }

  /** Marked sparse and written densely, no column is read back. */
  lemma SparseNeverReadBack(c: Col, t: Ty, rest: seq<byte>)
    requires WellTyped(c, t) && Valid(c)
    ensures ParseSparse(t, RowCount(c), Encode(c) + rest) != Ok((c, rest))
  {
    hide ParsePositions, Materialize, WellTyped, Valid, RowCount, PlainType, DecodeTree, Encode, High, Expands;
    var s, rows := Encode(c) + rest, RowCount(c);
    if ParseSparse(t, rows, s) == Ok((c, rest)) {
      var (positions, s1) := ParsePositions(rows, 0, [], s).value;
      MaterializedExpands(DecodeTree(t, |positions|, s1).value.0, positions, rows);
      ExpandsPlain(c, t);
      SparseHigh(t, rows, s, c, rest);
      HighAppend(Encode(c), rest);
    }
  }

  // ---- A replicated mark -----------------------------------------------------------------

  /** A replicated column takes a byte a row and three more: one that was written
      with less is not read back. */
  lemma ReplicatedNeedsRoom(t: Ty, rows: nat, s: seq<byte>)
    requires NoDictionary(t)
    ensures var r := ParseReplicated(t, rows, s); r.Ok? ==> |r.value.1| + rows + 3 <= |s|
  {
    hide DecodeTree, ParseVarUInt, ParseLE, ParseLEs, Replicate, NoDictionary, LEs;
    if ParseReplicated(t, rows, s).Ok? {
      var s1 := ParseVarUInt(s).value.1;
      var (width, s2) := ParseLE(1, s1).value;
      LESpelled(1, s1);
      var (indexes, s3) := ParseIndexes(width, rows, s2).value;
      LEsSpelled(width, rows, s2);
      LEsLength(width, indexes);
      var (n, s4) := ParseVarUInt(s3).value;
      DecodeHigh(t, n, s4);
      if rows > 0 { AtLeastRows(width, rows); }
    }
  }

  lemma AtLeastRows(width: nat, rows: nat)
    requires width >= 1
    ensures width * rows >= rows
  {
  }

  // ---- The theorem -------------------------------------------------------------------------

  /** Names, types and data as Rust holds them, accepted by `validate`. */
  predicate Storable(e: Entry) {
    && RustString(e.name) && RustString(e.dataType)
    && WellTyped(e.data, TypeOf(e.dataType)) && Valid(e.data)
  }

  /** All marks but the replicated one, which is only known to fail where the
      data is too short for it. */
  predicate Decided(e: Entry, protocol: nat) {
    protocol >= CUSTOM_SERIALIZATION && e.serialization == Custom([4]) ==>
      NoDictionary(TypeOf(e.dataType)) && |Encode(e.data)| < RowCount(e.data) + 3
  }

  /** A kind that is not kept is dropped, cut to its first byte, or announces a
      layout the data does not have. */
  lemma KindLost(ser: Serialization, protocol: nat, s: seq<byte>)
    requires !KindKept(ser, protocol)
    ensures var r := ParseKind(protocol, KindBytes(ser, protocol) + s);
            r.Ok? && r.value.0 == ser ==>
              r.value.1 == s && protocol >= CUSTOM_SERIALIZATION && ser.Custom? && |ser.kindStack| == 1
  {
    if protocol >= CUSTOM_SERIALIZATION {
      var s1 := ser.kindStack + s;
      assert KindBytes(ser, protocol) + s == [1] + s1;
      TakeAppend([1], s1);
      if |ser.kindStack| == 1 {
        TakeAppend(ser.kindStack, s);
      }
    }
  }

  lemma DataLost(ser: Serialization, c: Col, t: Ty, rest: seq<byte>)
    requires ser.Custom? && |ser.kindStack| == 1 && ser.kindStack != [0] && WellTyped(c, t) && Valid(c)
    requires ser.kindStack == [4] ==> NoDictionary(t) && |Encode(c)| < RowCount(c) + 3
    ensures ParseData(ser, t, RowCount(c), Encode(c) + rest) != Ok((c, rest))
  {
    hide WellTyped, Valid, RowCount, Encode, DecodeTree, ParseSparse, ParseReplicated, NoDictionary;
    if ser.kindStack == [1] {
      SparseNeverReadBack(c, t, rest);
    } else if ser.kindStack == [4] {
      ReplicatedNeedsRoom(t, RowCount(c), Encode(c) + rest);
    }
  }

  /** A column of a block comes back, the bytes after it untouched, exactly when
      it is sendable: name and type within the length bound, a kind that is kept,
      and data that survives the column codec. */
  lemma EntryReadBackIff(e: Entry, protocol: nat, rest: seq<byte>)
    requires Storable(e) && Decided(e, protocol)
    ensures ParseEntry(RowCount(e.data), protocol, EncodeEntry(e, protocol) + rest) == Ok((e, rest))
       <==> Sendable(e, protocol)
  {
    hide RustString, TypeOf, WellTyped, Valid, Fits, Canonical, Encode, DecodeTree, ParseEntry, EntryHeader;
    hide RowCount, ParseKind, KindBytes, ParseSparse, ParseReplicated, Unbarred, Routed, NoDictionary;
    var ser, t, s3 := e.serialization, TypeOf(e.dataType), Encode(e.data) + rest;
    assert EncodeEntry(e, protocol) + rest == EntryHeader(e, protocol) + s3;
    HeaderReads(e, protocol, RowCount(e.data), s3);
    assert e == Entry(e.name, e.dataType, ser, e.data);
    if KindKept(ser, protocol) {
      KindReadBack(ser, protocol, s3);
      RoundTripIff(e.data, t, rest);
    } else {
      KindLost(ser, protocol, s3);
      if ser.Custom? && |ser.kindStack| == 1 && protocol >= CUSTOM_SERIALIZATION {
        DataLost(ser, e.data, t, rest);
      }
    }
  }

  // ---- A replicated mark can be right by accident ------------------------------------------

  const PREFIX: seq<byte> := [5, 1, 0, 0, 1, 2, 3, 4]

  /** Five rows, the first two of which spell a replicated header for the last
      four: dense data that is read back as replicated data, unchanged. */
  lemma ReplicatedByAccident(a: nat, b: nat, d: nat, rest: seq<byte>)
    requires a < U64_BOUND && b < U64_BOUND && d < U64_BOUND
    ensures var x := FromLE(PREFIX);
            var c := Scalar(UInt64, [x, x, a, b, d]);
            ParseReplicated(TScalar(UInt64), 5, Encode(c) + rest) == Ok((c, rest))
  {
    hide ParseReplicated, LE, FromLE, Pow256, LEs, WellTyped, Valid, Fits, Canonical, Supported, Unbarred, Routed;
    hide SizesFit, InRange, Select, Leb;
    var x, idx := FromLE(PREFIX), [0, 0, 1, 2, 3];
    LEOfFromLE(PREFIX);
    Pow256Values();
    AccidentElements(x, a, b, d, idx);
    ReplicatedReadBack(Scalar(UInt64, [x, a, b, d]), TScalar(UInt64), idx, 1, rest);
    AccidentBytes(idx);
    FirstNumber(8, x, [x, a, b, d]);
    assert [x] + [x, a, b, d] == [x, x, a, b, d];
    Joined(LEs(8, [x, a, b, d]), rest);
  }

  lemma AccidentElements(x: nat, a: nat, b: nat, d: nat, idx: seq<nat>)
    requires x < U64_BOUND && a < U64_BOUND && b < U64_BOUND && d < U64_BOUND && idx == [0, 0, 1, 2, 3]
    ensures var elements := Scalar(UInt64, [x, a, b, d]);
            && WellTyped(elements, TScalar(UInt64)) && Valid(elements) && Fits(elements) && Canonical(elements)
            && Supported(elements) && Unbarred(TScalar(UInt64)) && Routed(elements)
            && RowCount(elements) == 4 && InRange(idx, 4) && SizesFit(elements, idx)
            && Select(elements, idx) == Scalar(UInt64, [x, x, a, b, d])
  {
    hide Pow256;
    Pow256Values();
  }

  lemma Joined(body: seq<byte>, rest: seq<byte>)
    ensures [5] + ([1] + ([0, 0, 1, 2, 3] + ([4] + (body + rest)))) == PREFIX + body + rest
  {
  }

  lemma FirstNumber(w: nat, x: nat, xs: seq<nat>)
    ensures LEs(w, [x] + xs) == LE(w, x) + LEs(w, xs)
  {
    assert ([x] + xs)[1..] == xs;
  }

  lemma AccidentBytes(idx: seq<nat>)
    requires idx == [0, 0, 1, 2, 3]
    ensures Leb(5) == [5] && LE(1, 1) == [1] && LEs(1, idx) == [0, 0, 1, 2, 3] && Leb(4) == [4]
  {
    assert idx[1..] == [0, 1, 2, 3] && [0, 1, 2, 3][1..] == [1, 2, 3];
  }
}
