/** src/proto/column.rs: `ColumnData::encode` on a byte writer. */
module Encoder {
  import opened Base
  import opened Wire
  import opened ByteIO
  import opened Column
  import opened Codec

  /** Checks first, at every level: a column that is not valid leaves no byte on
      the wire. */
  method EncodeColumn(c: Col, w: ByteWriter) returns (ok: bool)
    requires w.Valid()
    modifies w.Repr()
    ensures ok == Valid(c)
    ensures w.State() == if ok then old(w.State()).Plus(Encode(c)) else old(w.State())
    decreases c, 1
  {
    hide LE, LEs, Leb, EncodeStrings, Out.Plus, ByteWriter.State, ByteWriter.Valid, KeyMetadata, DiscriminatorWidth;
    ok := Validate(c);
    if !ok {
      return;
    }
    ghost var o := w.State();
    match c
    case Scalar(kind, vals) => w.WriteLEs(Width(kind), vals);
    case Str(strs) => w.WriteStrings(strs);
    case FixedStr(_, data) => w.Write(data);
    case Nothing(rows) => WritePlaceholders(rows, w);
    case Json(texts) =>
      if texts == [] {
        PlusNothing(o);
      } else {
        w.WriteLE(8, 1);
        w.WriteStrings(texts);
        PlusPlus(o, LE(8, 1), EncodeStrings(texts));
      }
    case Nullable(inner, nulls) =>
      w.Write(nulls);
      ok := EncodeColumn(inner, w);
      PlusPlus(o, nulls, Encode(inner));
    case Array(items, offsets) =>
      w.WriteLEs(8, offsets);
      ok := EncodeColumn(items, w);
      PlusPlus(o, LEs(8, offsets), Encode(items));
    case Tuple(elems) => ok := EncodeColumns(elems, w);
    case Map(keys, values, offsets) =>
      w.WriteLEs(8, offsets);
      ok := EncodeColumn(keys, w);
      ok := EncodeColumn(values, w);
      PlusPlus(o.Plus(LEs(8, offsets)), Encode(keys), Encode(values));
      PlusPlus(o, LEs(8, offsets), Encode(keys) + Encode(values));
    case Nested(_, fields, offsets) =>
      w.WriteLEs(8, offsets);
      ok := EncodeColumns(fields, w);
      PlusPlus(o, LEs(8, offsets), EncodeEach(fields));
    case LowCardinality(_, _, _) => EncodeLowCardinality(c, w);
    case Variant(ds, _, columns) =>
      if ds == [] {
        PlusNothing(o);
      } else {
        w.WriteLE(8, 0);
        w.WriteLEs(1, ds);
        ok := EncodeColumns(columns, w);
        PlusPlus(o.Plus(LE(8, 0)), LEs(1, ds), EncodeEach(columns));
        PlusPlus(o, LE(8, 0), LEs(1, ds) + EncodeEach(columns));
      }
    case Dynamic(_, _, _, _) => EncodeDynamic(c, w);
  }

  method EncodeColumns(cols: seq<Col>, w: ByteWriter) returns (ok: bool)
    requires w.Valid() && forall i :: 0 <= i < |cols| ==> Valid(cols[i])
    modifies w.Repr()
    ensures ok
    ensures w.State() == old(w.State()).Plus(EncodeEach(cols))
    decreases cols, 0
  {
    hide Encode, Valid, Out.Plus, ByteWriter.State, ByteWriter.Valid;
    ok := true;
    ghost var o, done := w.State(), [];
    PlusNothing(o);
    for i := 0 to |cols|
      invariant ok
      invariant w.State() == o.Plus(done)
      invariant done + EncodeEach(cols[i..]) == EncodeEach(cols)
    {
      ok := EncodeColumn(cols[i], w);
      PlusPlus(o, done, Encode(cols[i]));
      assert cols[i..][1..] == cols[i + 1..];
      assert done + (Encode(cols[i]) + EncodeEach(cols[i + 1..])) == done + Encode(cols[i]) + EncodeEach(cols[i + 1..]);
      done := done + Encode(cols[i]);
    }
    assert done == EncodeEach(cols);
  }

  method WritePlaceholders(rows: nat, w: ByteWriter)
    requires w.Valid()
    modifies w.Repr()
    ensures w.State() == old(w.State()).Plus(Placeholders(rows))
  {
    hide Out.Plus, ByteWriter.State, ByteWriter.Valid;
    ghost var o := w.State();
    PlusNothing(o);
    assert Placeholders(0) == [];
    for i := 0 to rows
      invariant w.State() == o.Plus(Placeholders(i))
    {
      w.Write([0x30]);
      PlusPlus(o, Placeholders(i), [0x30]);
      assert Placeholders(i) + [0x30] == Placeholders(i + 1);
    }
  }

  method EncodeLowCardinality(c: Col, w: ByteWriter)
    requires w.Valid() && c.LowCardinality? && Valid(c)
    modifies w.Repr()
    ensures w.State() == old(w.State()).Plus(Encode(c))
    decreases c, 0
  {
    hide LE, LEs, Out.Plus, ByteWriter.State, ByteWriter.Valid, KeyMetadata, RowCount;
    ghost var o := w.State();
    if c.refs == [] {
      PlusNothing(o);
      return;
    }
    var meta := KeyMetadata(c.keyWidth);
    w.WriteLE(8, 1);
    w.WriteLE(8, meta);
    w.WriteLE(8, RowCount(c.dict));
    var ok := EncodeColumn(c.dict, w);
    w.WriteLE(8, |c.refs|);
    w.WriteLEs(c.keyWidth, c.refs);
    Chain6(o, LE(8, 1), LE(8, meta), LE(8, RowCount(c.dict)), Encode(c.dict), LE(8, |c.refs|), LEs(c.keyWidth, c.refs));
  }

  lemma Chain6(o: Out, a: seq<byte>, b: seq<byte>, c: seq<byte>, d: seq<byte>, e: seq<byte>, f: seq<byte>)
    ensures o.Plus(a).Plus(b).Plus(c).Plus(d).Plus(e).Plus(f) == o.Plus(a + (b + (c + (d + (e + f)))))
  {
    hide Out.Plus;
    PlusPlus(o.Plus(a).Plus(b).Plus(c).Plus(d), e, f);
    PlusPlus(o.Plus(a).Plus(b).Plus(c), d, e + f);
    PlusPlus(o.Plus(a).Plus(b), c, d + (e + f));
    PlusPlus(o.Plus(a), b, c + (d + (e + f)));
    PlusPlus(o, a, b + (c + (d + (e + f))));
  }

  method EncodeDynamic(c: Col, w: ByteWriter)
    requires w.Valid() && c.Dynamic? && Valid(c)
    modifies w.Repr()
    ensures w.State() == old(w.State()).Plus(Encode(c))
    decreases c, 0
  {
    hide LE, LEs, Leb, EncodeStrings, Out.Plus, ByteWriter.State, ByteWriter.Valid, DiscriminatorWidth;
    ghost var o := w.State();
    if c.discriminators == [] {
      PlusNothing(o);
      return;
    }
    var width := DiscriminatorWidth(|c.typeNames|);
    w.WriteLE(8, 3);
    w.WriteVarUInt(|c.typeNames|);
    w.WriteStrings(c.typeNames);
    w.WriteLEs(width, c.discriminators);
    ghost var five := w.State();
    var ok := EncodeColumns(c.columns, w);
    PlusNothing(w.State());
    assert EncodeEach(c.columns) + [] == EncodeEach(c.columns);
    Chain6(o, LE(8, 3), Leb(|c.typeNames|), EncodeStrings(c.typeNames), LEs(width, c.discriminators),
      EncodeEach(c.columns), []);
  }
}
