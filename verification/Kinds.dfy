/** src/proto/column.rs: one column of a block, with its name, its type and the
    serialization kind that says how its data is laid out. */
module Kinds {
  import opened Base
  import opened Wire
  import opened Chunked
  import opened Compression
  import opened ByteIO
  import opened Column
  import opened TypeTree
  import opened Codec
  import opened CodecRoundTrip
  import opened Encoder
  import opened Decoder
  import opened Replicated
  import opened ReplicatedLaws
  import opened SparseOffsets
  import opened Sparse

  // ---- Sparse and replicated data ----------------------------------------------------

  function ParseSparse(t: Ty, rows: nat, s: seq<byte>): Parsed<Col> {
    var (positions, s1) :- ParsePositions(rows, 0, [], s);
    var (values, rest) :- DecodeTree(t, |positions|, s1);
    var dense :- Materialize(values, positions, rows);
    Ok((dense, rest))
  }

  method ReadSparse(r: ByteReader, s: string, rows: nat) returns (res: Result<Col>)
    requires r.Valid()
    modifies r.Repr()
    ensures r.Delivers(res, ParseSparse(TypeOf(s), rows, old(r.rest)))
  {
    hide Inflate, Advance, Deframe, ByteReader.Valid, TypeOf, DecodeTree, ParsePositions, Materialize;
    var positions, _ := ReadPositions(r, rows);
    if positions.Err? {
      return Err(positions.error);
    }
    var values := DecodeColumn(r, s, |positions.value|);
    if values.Err? {
      return values;
    }
    res := MaterializeSparse(values.value, positions.value, rows);
  }

  /** An unknown width is only noticed when there is an index to read. */
  function ParseIndexes(width: nat, rows: nat, s: seq<byte>): Parsed<seq<nat>> {
    if rows > 0 && width !in {1, 2, 4, 8} then Err(InvalidData) else ParseLEs(width, rows, [], s)
  }

  function ParseReplicated(t: Ty, rows: nat, s: seq<byte>): Parsed<Col> {
    var (declared, s1) :- ParseVarUInt(s);
    if declared != rows then Err(InvalidData)
    else
      var (width, s2) :- ParseLE(1, s1);
      var (indexes, s3) :- ParseIndexes(width, rows, s2);
      var (n, s4) :- ParseVarUInt(s3);
      var (elements, rest) :- DecodeTree(t, n, s4);
      var dense :- Replicate(elements, indexes, n);
      Ok((dense, rest))
  }

  method ReadReplicated(r: ByteReader, s: string, rows: nat) returns (res: Result<Col>)
    requires r.Valid()
    modifies r.Repr()
    ensures r.Delivers(res, ParseReplicated(TypeOf(s), rows, old(r.rest)))
  {
    hide Inflate, Advance, Deframe, ByteReader.Valid, TypeOf, DecodeTree, ParseVarUInt, ParseLE, ParseLEs, Replicate;
    var declared := r.ReadVarUInt();
    if declared.Err? {
      return Err(declared.error);
    }
    if declared.value != rows {
      return Err(InvalidData);
    }
    var width := r.ReadLE(1);
    if width.Err? {
      return Err(width.error);
    }
    if rows > 0 && width.value !in {1, 2, 4, 8} {
      return Err(InvalidData);
    }
    var indexes := r.ReadLEs(width.value, rows);
    if indexes.Err? {
      return Err(indexes.error);
    }
    var n := r.ReadVarUInt();
    if n.Err? {
      return Err(n.error);
    }
    var elements := DecodeColumn(r, s, n.value);
    if elements.Err? {
      return elements;
    }
    res := MaterializeReplicated(elements.value, indexes.value, n.value);
  }

  // ---- What the server's layouts decode to -------------------------------------------

  /** The types the two layouts handle are never stateful and never refused. */
  lemma {:induction false} ExpandsReads(c: Col, t: Ty, rows: nat)
    requires WellTyped(c, t) && Expands(c, rows)
    ensures Unbarred(t) && Routed(c)
  {
    if c.Nullable? {
      ExpandsReads(c.inner, t.t, rows);
    }
  }

  /** Explicit rows at increasing positions come back scattered among defaults. */
  lemma SparseReadBack(c: Col, t: Ty, positions: seq<nat>, rows: nat, rest: seq<byte>)
    requires WellTyped(c, t) && Valid(c) && Fits(c) && Canonical(c) && Expands(c, rows)
    requires RowCount(c) == |positions| && rows < U64_BOUND
    requires Increasing(positions, 0, rows) && FlagsClear(Gaps(positions, 0, rows))
    ensures var r := ParseSparse(t, rows, EncodePositions(positions, rows) + (Encode(c) + rest));
            && r.Ok? && r.value.1 == rest
            && Valid(r.value.0) && RowCount(r.value.0) == rows
            && (forall k :: 0 <= k < |positions| ==> RowValue(r.value.0, positions[k]) == RowValue(c, k))
            && (forall p :: 0 <= p < rows && p !in positions ==> RowValue(r.value.0, p) == Default(c))
  {
    hide WellTyped, Valid, Fits, Canonical, Expands, RowCount, Materialize, DecodeTree, Encode, ParsePositions;
    hide EncodePositions, Gaps, FlagsClear, RowValue, Default, Unbarred, Routed;
    ExpandsReads(c, t, rows);
    PositionsReadBack(positions, rows, Encode(c) + rest);
    RoundTripIff(c, t, rest);
    MaterializeExactly(c, positions, rows);
    forall k | 0 <= k < |positions|
      ensures RowValue(Materialize(c, positions, rows).value, positions[k]) == RowValue(c, k)
    {
      SparseRow(c, positions, rows, positions[k]);
    }
    forall p | 0 <= p < rows && p !in positions
      ensures RowValue(Materialize(c, positions, rows).value, p) == Default(c)
    {
      SparseRow(c, positions, rows, p);
    }
  }

  /** Distinct elements and in-range indexes come back as the selected rows. */
  lemma ReplicatedReadBack(elements: Col, t: Ty, indexes: seq<nat>, width: nat, rest: seq<byte>)
    requires WellTyped(elements, t) && Valid(elements) && Fits(elements) && Canonical(elements)
    requires Supported(elements) && Unbarred(t) && Routed(elements)
    requires RowCount(elements) < U64_BOUND && |indexes| < U64_BOUND
    requires InRange(indexes, RowCount(elements)) && SizesFit(elements, indexes)
    requires width in {1, 2, 4, 8} && AllBelow(indexes, Pow256(width))
    ensures ParseReplicated(t, |indexes|,
              Leb(|indexes|) + (LE(1, width) + (LEs(width, indexes)
              + (Leb(RowCount(elements)) + (Encode(elements) + rest)))))
         == Ok((Select(elements, indexes), rest))
  {
    hide WellTyped, Valid, Fits, Canonical, Supported, RowCount, DecodeTree, Encode, SizesFit, Select, Replicate;
    hide Unbarred, Routed;
    hide ParseVarUInt, ParseLE, ParseLEs, Pow256, InRange, LE, LEs, Leb;
    var s4 := Leb(RowCount(elements)) + (Encode(elements) + rest);
    var s3 := LEs(width, indexes) + s4;
    Pow256Values();
    ParseVarUIntAppend(|indexes|, LE(1, width) + s3);
    ParseLEAppend(1, width, s3);
    ParseLEsAppend(width, indexes, [], s4);
    assert [] + indexes == indexes;
    ParseVarUIntAppend(RowCount(elements), Encode(elements) + rest);
    RoundTripIff(elements, t, rest);
    ReplicateExactly(elements, indexes);
  }

  // ---- A column of a block ---------------------------------------------------------------

  const CUSTOM_SERIALIZATION: nat := 54454

  datatype Serialization = Dense | Custom(kindStack: seq<byte>)

  datatype Entry = Entry(name: string, dataType: string, serialization: Serialization, data: Col)

  function KindBytes(ser: Serialization, protocol: nat): seq<byte> {
    if protocol < CUSTOM_SERIALIZATION then []
    else match ser
         case Dense => [0]
         case Custom(kindStack) => [1] + kindStack
  }

  function EntryHeader(e: Entry, protocol: nat): seq<byte> {
    EncodeString(e.name) + (EncodeString(e.dataType) + KindBytes(e.serialization, protocol))
  }

  /** The data follows densely, whatever the kind says; invalid data is refused
      after the header has gone out. */
  function EncodeEntry(e: Entry, protocol: nat): seq<byte> {
    EntryHeader(e, protocol) + if Valid(e.data) then Encode(e.data) else []
  }

  method WriteEntry(e: Entry, protocol: nat, w: ByteWriter) returns (ok: bool)
    requires w.Valid()
    modifies w.Repr()
    ensures ok == Valid(e.data)
    ensures w.State() == old(w.State()).Plus(EncodeEntry(e, protocol))
  {
    hide Out.Plus, ByteWriter.State, ByteWriter.Valid, EncodeString, Encode, Valid;
    ghost var o := w.State();
    w.WriteString(e.name);
    w.WriteString(e.dataType);
    if protocol < CUSTOM_SERIALIZATION {
      PlusNothing(w.State());
    } else {
      match e.serialization
      case Dense => w.Write([0]);
      case Custom(kindStack) =>
        ghost var was := w.State();
        w.Write([1]);
        w.Write(kindStack);
        PlusPlus(was, [1], kindStack);
    }
    ghost var kinds := KindBytes(e.serialization, protocol);
    PlusPlus(o.Plus(EncodeString(e.name)), EncodeString(e.dataType), kinds);
    PlusPlus(o, EncodeString(e.name), EncodeString(e.dataType) + kinds);
    assert w.State() == o.Plus(EntryHeader(e, protocol));
    ok := EncodeColumn(e.data, w);
    ghost var body := if Valid(e.data) then Encode(e.data) else [];
    PlusNothing(o.Plus(EntryHeader(e, protocol)));
    PlusPlus(o, EntryHeader(e, protocol), body);
  }

  function ParseKind(protocol: nat, s: seq<byte>): Parsed<Serialization> {
    if protocol < CUSTOM_SERIALIZATION then Ok((Dense, s))
    else
      var (flag, s1) :- Take(1, s);
      if flag[0] == 0 then Ok((Dense, s1))
      else if flag[0] == 1 then
        var (kind, s2) :- Take(1, s1);
        Ok((Custom(kind), s2))
      else Err(InvalidData)
  }

  /** The layouts the reader knows, by the first byte of the kind stack. */
  function ParseData(ser: Serialization, t: Ty, rows: nat, s: seq<byte>): Parsed<Col> {
    if ser == Dense || ser.kindStack == [0] then DecodeTree(t, rows, s)
    else if ser.kindStack == [1] then ParseSparse(t, rows, s)
    else if ser.kindStack == [4] then ParseReplicated(t, rows, s)
    else Err(Unsupported)
  }

  function ParseEntry(rows: nat, protocol: nat, s: seq<byte>): Parsed<Entry> {
    var (name, s1) :- ParseString(s);
    var (dataType, s2) :- ParseString(s1);
    var (ser, s3) :- ParseKind(protocol, s2);
    var (data, rest) :- ParseData(ser, TypeOf(dataType), rows, s3);
    Ok((Entry(name, dataType, ser, data), rest))
  }

  method ReadKind(r: ByteReader, protocol: nat) returns (res: Result<Serialization>)
    requires r.Valid()
    modifies r.Repr()
    ensures r.Delivers(res, ParseKind(protocol, old(r.rest)))
  {
    hide Inflate, Advance, Deframe, ByteReader.Valid;
    if protocol < CUSTOM_SERIALIZATION {
      return Ok(Dense);
    }
    var flag := r.ReadExact(1);
    if flag.Err? {
      return Err(flag.error);
    }
    if flag.value[0] == 0 {
      return Ok(Dense);
    }
    if flag.value[0] != 1 {
      return Err(InvalidData);
    }
    var kind := r.ReadExact(1);
    res := if kind.Err? then Err(kind.error) else Ok(Custom(kind.value));
  }

  method ReadEntry(r: ByteReader, rows: nat, protocol: nat) returns (res: Result<Entry>)
    requires r.Valid()
    modifies r.Repr()
    ensures r.Delivers(res, ParseEntry(rows, protocol, old(r.rest)))
  {
    hide Inflate, Advance, Deframe, ByteReader.Valid, ParseString, ParseKind, TypeOf, DecodeTree, ParseSparse;
    hide ParseReplicated;
    var name := r.ReadString();
    if name.Err? {
      return Err(name.error);
    }
    var dataType := r.ReadString();
    if dataType.Err? {
      return Err(dataType.error);
    }
    var ser := ReadKind(r, protocol);
    if ser.Err? {
      return Err(ser.error);
    }
    var data: Result<Col>;
    if ser.value == Dense || ser.value.kindStack == [0] {
      data := DecodeColumn(r, dataType.value, rows);
    } else if ser.value.kindStack == [1] {
      data := ReadSparse(r, dataType.value, rows);
    } else if ser.value.kindStack == [4] {
      data := ReadReplicated(r, dataType.value, rows);
    } else {
      data := Err(Unsupported);
    }
    res := if data.Err? then Err(data.error) else Ok(Entry(name.value, dataType.value, ser.value, data.value));
  }

  /** The kinds whose data the writer lays out the way the reader expects. */
  predicate KindKept(ser: Serialization, protocol: nat) {
    ser == Dense || (protocol >= CUSTOM_SERIALIZATION && ser == Custom([0]))
  }

  predicate Sendable(e: Entry, protocol: nat) {
    && RustString(e.name) && |e.name| <= MAX_STRING_LEN
    && RustString(e.dataType) && |e.dataType| <= MAX_STRING_LEN
    && KindKept(e.serialization, protocol)
    && WellTyped(e.data, TypeOf(e.dataType)) && Valid(e.data) && Fits(e.data) && Canonical(e.data)
    && Unbarred(TypeOf(e.dataType)) && Routed(e.data)
  }

  /** The header is undone piece by piece; a name or type past the bound stops it. */
  lemma HeaderReads(e: Entry, protocol: nat, rows: nat, rest: seq<byte>)
    requires RustString(e.name) && RustString(e.dataType)
    ensures var kind := ParseKind(protocol, KindBytes(e.serialization, protocol) + rest);
            ParseEntry(rows, protocol, EntryHeader(e, protocol) + rest)
            == if |e.name| > MAX_STRING_LEN || |e.dataType| > MAX_STRING_LEN then Err(InvalidData)
               else if kind.Err? then Err(kind.error)
               else
                 var (ser, after) := kind.value;
                 var data := ParseData(ser, TypeOf(e.dataType), rows, after);
                 if data.Err? then Err(data.error) else Ok((Entry(e.name, e.dataType, ser, data.value.0), data.value.1))
  {
    hide RustString, TypeOf, EncodeString, ParseString, ParseKind, KindBytes, ParseData;
    var s2 := KindBytes(e.serialization, protocol) + rest;
    var s1 := EncodeString(e.dataType) + s2;
    assert EntryHeader(e, protocol) + rest == EncodeString(e.name) + s1;
    ParseStringAppend(e.name, s1);
    ParseStringAppend(e.dataType, s2);
  }

  lemma EntryReadBack(e: Entry, protocol: nat, rest: seq<byte>)
    requires Sendable(e, protocol)
    ensures ParseEntry(RowCount(e.data), protocol, EncodeEntry(e, protocol) + rest) == Ok((e, rest))
  {
    hide RustString, TypeOf, WellTyped, Valid, Fits, Canonical, Encode, DecodeTree, ParseEntry, EntryHeader, RowCount;
    hide Unbarred, Routed, ParseKind, KindBytes;
    var s := Encode(e.data) + rest;
    assert EncodeEntry(e, protocol) + rest == EntryHeader(e, protocol) + s;
    HeaderReads(e, protocol, RowCount(e.data), s);
    KindReadBack(e.serialization, protocol, s);
    RoundTripIff(e.data, TypeOf(e.dataType), rest);
  }

  lemma KindReadBack(ser: Serialization, protocol: nat, rest: seq<byte>)
    requires KindKept(ser, protocol)
    ensures ParseKind(protocol, KindBytes(ser, protocol) + rest) == Ok((ser, rest))
  {
    if protocol >= CUSTOM_SERIALIZATION {
      match ser
      case Dense => TakeAppend([0], rest);
      case Custom(_) =>
        assert [1] + [0] + rest == [1] + ([0] + rest);
        TakeAppend([1], [0] + rest);
        TakeAppend([0], rest);
    } else {
      assert [] + rest == rest;
    }
  }

  // ---- The server's layouts behind a header -----------------------------------------------

  /** The value of a row a sparse column leaves out. */
  predicate IsBlank(v: Value, c: Col) {
    match c
    case Scalar(kind, _) => v == Num(kind, 0)
    case Str(_) => v == Txt("")
    case FixedStr(n, _) => v.Raw? && |v.bytes| == n && forall i :: 0 <= i < n ==> v.bytes[i] == 0
    case _ => v == Null
  }

  lemma DefaultIsBlank(c: Col)
    ensures c.Scalar? || c.Str? || c.FixedStr? || c.Nullable? ==> IsBlank(Default(c), c)
  {
  }

  lemma ExpandsShape(c: Col, rows: nat)
    ensures Expands(c, rows) ==> c.Scalar? || c.Str? || c.FixedStr? || c.Nullable?
  {
  }

  /** The bytes 1 and 1 after name and type announce a sparse column: it is read as
      its explicit rows among blanks. */
  lemma SparseEntryReads(name: string, dataType: string, c: Col, positions: seq<nat>, rows: nat, protocol: nat,
      rest: seq<byte>)
    requires RustString(name) && |name| <= MAX_STRING_LEN && RustString(dataType) && |dataType| <= MAX_STRING_LEN
    requires protocol >= 54454 && rows < U64_BOUND
    requires WellTyped(c, TypeOf(dataType)) && Valid(c) && Fits(c) && Canonical(c) && Expands(c, rows)
    requires RowCount(c) == |positions| && Increasing(positions, 0, rows) && FlagsClear(Gaps(positions, 0, rows))
    ensures var body := EncodePositions(positions, rows) + (Encode(c) + rest);
            var r := ParseEntry(rows, protocol, EncodeString(name) + (EncodeString(dataType) + ([1, 1] + body)));
            && r.Ok? && r.value.1 == rest
            && var e := r.value.0;
               && e.name == name && e.dataType == dataType && e.serialization == Custom([1])
               && Valid(e.data) && RowCount(e.data) == rows
               && (forall k :: 0 <= k < |positions| ==> RowValue(e.data, positions[k]) == RowValue(c, k))
               && (forall p :: 0 <= p < rows && p !in positions ==> IsBlank(RowValue(e.data, p), c))
  {
    hide RustString, TypeOf, WellTyped, Valid, Fits, Canonical, Expands, RowCount, Encode, EncodeString, ParseEntry;
    hide EncodePositions, Gaps, FlagsClear, RowValue, Default, IsBlank, ParseSparse, ParseKind, EntryHeader, DecodeTree;
    var body := EncodePositions(positions, rows) + (Encode(c) + rest);
    KindHeader(name, dataType, 1, protocol, rows, body);
    SparseReadBack(c, TypeOf(dataType), positions, rows, rest);
    DefaultIsBlank(c);
    ExpandsShape(c, rows);
  }

  /** What follows the kind byte is read in the layout it announces. */
  lemma KindHeader(name: string, dataType: string, kind: byte, protocol: nat, rows: nat, body: seq<byte>)
    requires RustString(name) && |name| <= MAX_STRING_LEN && RustString(dataType) && |dataType| <= MAX_STRING_LEN
    requires protocol >= 54454
    ensures var r := ParseEntry(rows, protocol, EncodeString(name) + (EncodeString(dataType) + ([1, kind] + body)));
            var data := ParseData(Custom([kind]), TypeOf(dataType), rows, body);
            r == if data.Err? then Err(data.error)
                 else Ok((Entry(name, dataType, Custom([kind]), data.value.0), data.value.1))
  {
    hide RustString, TypeOf, EncodeString, ParseData, ParseEntry;
    var e := Entry(name, dataType, Custom([kind]), Nothing(0));
    HeaderReads(e, protocol, rows, body);
    assert KindBytes(e.serialization, protocol) == [1, kind];
    TakeAppend([1], [kind] + body);
    TakeAppend([kind], body);
    assert [1, kind] + body == [1] + ([kind] + body);
    Associate(EncodeString(name), EncodeString(dataType) + [1, kind], body);
    Associate(EncodeString(dataType), [1, kind], body);
  }

  /** What a server sends of a replicated column: the row count, the width of an
      index, the indexes, the number of elements, the elements. */
  function ReplicatedLayout(elements: Col, indexes: seq<nat>, width: byte): seq<byte> {
    Leb(|indexes|) + ([width] + (LEs(width, indexes) + (Leb(RowCount(elements)) + Encode(elements))))
  }

  lemma LayoutThen(elements: Col, indexes: seq<nat>, width: byte, rest: seq<byte>)
    ensures ReplicatedLayout(elements, indexes, width) + rest
         == Leb(|indexes|) + (LE(1, width) + (LEs(width, indexes)
            + (Leb(RowCount(elements)) + (Encode(elements) + rest))))
  {
    hide Encode, LEs, Leb, LE, RowCount;
    WidthByte(width);
    var a, b, c, d, e := Leb(|indexes|), [width], LEs(width, indexes), Leb(RowCount(elements)), Encode(elements);
    assert a + (b + (c + (d + e))) + rest == a + (b + (c + (d + (e + rest))));
  }

  /** The bytes 1 and 4 announce a replicated column: it is read as the selected
      rows. */
  lemma ReplicatedEntryReads(name: string, dataType: string, elements: Col, indexes: seq<nat>, width: byte,
      protocol: nat, rest: seq<byte>)
    requires RustString(name) && |name| <= MAX_STRING_LEN && RustString(dataType) && |dataType| <= MAX_STRING_LEN
    requires protocol >= 54454 && Unbarred(TypeOf(dataType)) && Routed(elements)
    requires WellTyped(elements, TypeOf(dataType)) && Valid(elements) && Fits(elements) && Canonical(elements)
    requires Supported(elements) && RowCount(elements) < U64_BOUND && |indexes| < U64_BOUND
    requires InRange(indexes, RowCount(elements)) && SizesFit(elements, indexes)
    requires width in {1, 2, 4, 8} && AllBelow(indexes, Pow256(width))
    ensures var body := ReplicatedLayout(elements, indexes, width) + rest;
            ParseEntry(|indexes|, protocol, EncodeString(name) + (EncodeString(dataType) + ([1, 4] + body)))
            == Ok((Entry(name, dataType, Custom([4]), Select(elements, indexes)), rest))
  {
    hide RustString, TypeOf, WellTyped, Valid, Fits, Canonical, Supported, RowCount, Encode, EncodeString, ParseEntry;
    hide Unbarred, Routed, InRange, SizesFit, Select, LEs, Leb, LE, ParseReplicated, Pow256, ReplicatedLayout;
    LayoutThen(elements, indexes, width, rest);
    ReplicatedReadBack(elements, TypeOf(dataType), indexes, width, rest);
    KindHeader(name, dataType, 4, protocol, |indexes|, ReplicatedLayout(elements, indexes, width) + rest);
  }

  lemma WidthByte(width: nat)
    requires width < 256
    ensures LE(1, width) == [width]
  {
    assert LE(0, width / 256) == [];
  }
}
