/** src/proto/column.rs: `ColumnData::decode` on a byte reader, driven by the
    type string alone. Each method delivers what the tree of the type says. */
module Decoder {
  import opened Base
  import opened Wire
  import opened Chunked
  import opened Compression
  import opened ByteIO
  import opened Column
  import opened TypeString
  import opened TypeTree
  import opened Codec

  // ---- Loops over the stream ---------------------------------------------------------

  method ReadOffsets(r: ByteReader, rows: nat) returns (res: Result<seq<nat>>)
    requires r.Valid()
    modifies r.Repr()
    ensures r.Delivers(res, ParseOffsets(rows, old(r.rest)))
  {
    hide Inflate, Advance, Deframe, ByteReader.Valid, ParseLEs;
    var offsets := r.ReadLEs(8, rows);
    if offsets.Err? {
      return offsets;
    }
    var ok := CheckMonotone(offsets.value);
    if !ok {
      return Err(InvalidData);
    }
    var total := CheckedCount(Last(offsets.value));
    if total.Err? {
      return Err(total.error);
    }
    res := Ok(offsets.value);
  }

  /** Discriminators with the slot of each row and the size of each sub-column. */
  function ParseSlots(width: nat, rows: nat, nil: nat, n: nat, s: seq<byte>): Parsed<(seq<nat>, seq<nat>, seq<nat>)> {
    var (ds, rest) :- ParseDiscriminators(width, rows, nil, n, [], s);
    Ok(((ds, Slots(ds, nil), Counts(ds, nil, n)), rest))
  }

  method ReadSlots(r: ByteReader, width: nat, rows: nat, nil: nat, n: nat)
    returns (res: Result<(seq<nat>, seq<nat>, seq<nat>)>)
    requires r.Valid()
    modifies r.Repr()
    ensures r.Delivers(res, ParseSlots(width, rows, nil, n, old(r.rest)))
  {
    hide Inflate, Advance, Deframe, ByteReader.Valid, ParseLE, CountOf;
    ghost var goal := ParseDiscriminators(width, rows, nil, n, [], r.rest);
    var ds: seq<nat>, slots: seq<nat>, counts: seq<nat> := [], [], seq(n, _ => 0);
    NoneCounted(nil, n);
    var i := 0;
    while i < rows
      invariant i <= rows && r.Valid()
      invariant slots == Slots(ds, nil) && counts == Counts(ds, nil, n)
      invariant ParseDiscriminators(width, rows - i, nil, n, ds, r.rest) == goal
    {
      var x := r.ReadLE(width);
      if x.Err? {
        return Err(x.error);
      }
      var d := x.value;
      if d == nil {
        slots := slots + [0];
      } else if d < n {
        slots := slots + [counts[d]];
        counts := counts[d := counts[d] + 1];
      } else {
        return Err(InvalidData);
      }
      OneMoreSlot(ds, d, nil, n);
      ds := ds + [d];
      i := i + 1;
    }
    res := Ok((ds, slots, counts));
  }

  lemma NoneCounted(nil: nat, n: nat)
    ensures Slots([], nil) == [] && Counts([], nil, n) == seq(n, _ => 0)
  {
  }

  lemma OneMoreSlot(ds: seq<nat>, d: nat, nil: nat, n: nat)
    requires d == nil || d < n
    ensures Slots(ds + [d], nil) == Slots(ds, nil) + [if d == nil then 0 else Counts(ds, nil, n)[d]]
    ensures Counts(ds + [d], nil, n)
         == if d == nil then Counts(ds, nil, n) else Counts(ds, nil, n)[d := Counts(ds, nil, n)[d] + 1]
  {
    var all := ds + [d];
    assert all[..|ds|] == ds;
    forall i | 0 <= i < |ds| ensures all[..i] == ds[..i] {
    }
  }

  // ---- The decoder --------------------------------------------------------------------

  /** The bytes decide nothing about when this stops: the type string gets
      smaller at every call, geo names and runtime types included. */
  method DecodeColumn(r: ByteReader, s: string, rows: nat) returns (res: Result<Col>)
    requires r.Valid()
    modifies r.Repr()
    ensures r.Delivers(res, DecodeTree(TypeOf(s), rows, old(r.rest)))
    decreases StateRank(s), GeoRank(s), Parens(s), 2
  {
    hide Inflate, Advance, Deframe, ByteReader.Valid, Stateful, GeoRank, Parens, BaseType, HeadOf, ParseFixedSize;
    hide ParseLEs, ParseStrings, ParseLE, ParseTuple, ParseMap, ParseNested, ParseVariant, ParseInner, DictType;
    hide AliasTarget;
    match HeadOf(BaseType(s))
    case HScalar(kind) =>
      var vals := r.ReadLEs(Width(kind), rows);
      res := if vals.Err? then Err(vals.error) else Ok(Scalar(kind, vals.value));
    case HStr =>
      var strs := r.ReadStrings(rows);
      res := if strs.Err? then Err(strs.error) else Ok(Str(strs.value));
    case HNothing =>
      var zeros := r.ReadExact(rows);
      res := if zeros.Err? then Err(zeros.error) else Ok(Nothing(rows));
    case HFixed => res := DecodeFixed(r, s, rows);
    case HJson => res := DecodeJson(r, rows);
    case HNullable => res := DecodeNullable(r, s, rows);
    case HArray => res := DecodeArray(r, s, rows);
    case HTuple => res := DecodeTuple(r, s, rows);
    case HMap => res := DecodeMap(r, s, rows);
    case HNested => res := DecodeNested(r, s, rows);
    case HLowCardinality => res := DecodeLowCardinality(r, s, rows);
    case HVariant => res := DecodeVariant(r, s, rows);
    case HDynamic => res := DecodeDynamic(r, s, rows);
    case HAlias(rank) =>
      AliasBelow(s, rank);
      res := DecodeColumn(r, AliasTarget(rank), rows);
    case HAggregate =>
      AggregateBelow(s);
      var inner := ParseAggregate(s);
      if inner.Err? {
        return Err(inner.error);
      }
      res := DecodeColumn(r, inner.value, rows);
    case HUnknown => res := Err(Unsupported);
  }

  method DecodeFixed(r: ByteReader, s: string, rows: nat) returns (res: Result<Col>)
    requires r.Valid() && HeadOf(BaseType(s)).HFixed?
    modifies r.Repr()
    ensures r.Delivers(res, DecodeTree(TypeOf(s), rows, old(r.rest)))
  {
    hide Inflate, Advance, Deframe, ByteReader.Valid, Stateful, GeoRank, Parens, StateRank, BaseType, HeadOf;
    hide ParseFixedSize;
    var n := ParseFixedSize(s);
    if n.Err? {
      return Err(n.error);
    }
    if n.value * rows >= U64_BOUND {
      return Err(InvalidData);
    }
    var data := r.ReadExact(n.value * rows);
    res := if data.Err? then Err(data.error) else Ok(FixedStr(n.value, data.value));
  }

  method DecodeJson(r: ByteReader, rows: nat) returns (res: Result<Col>)
    requires r.Valid()
    modifies r.Repr()
    ensures r.Delivers(res, DecodeTree(TJson, rows, old(r.rest)))
  {
    hide Inflate, Advance, Deframe, ByteReader.Valid, ParseLE, ParseStrings;
    if rows == 0 {
      return Ok(Json([]));
    }
    var version := r.ReadLE(8);
    if version.Err? {
      return Err(version.error);
    }
    if version.value != 1 {
      return Err(Unsupported);
    }
    var texts := r.ReadStrings(rows);
    res := if texts.Err? then Err(texts.error) else Ok(Json(texts.value));
  }

  method DecodeNullable(r: ByteReader, s: string, rows: nat) returns (res: Result<Col>)
    requires r.Valid() && HeadOf(BaseType(s)).HNullable?
    modifies r.Repr()
    ensures r.Delivers(res, DecodeTree(TypeOf(s), rows, old(r.rest)))
    decreases StateRank(s), GeoRank(s), Parens(s), 1
  {
    hide Inflate, Advance, Deframe, ByteReader.Valid, Stateful, GeoRank, Parens, StateRank, BaseType, HeadOf;
    hide ParseInner;
    InnerBelow(s);
    var inner := ParseInner(s);
    if inner.Err? {
      return Err(inner.error);
    }
    var nulls := r.ReadExact(rows);
    if nulls.Err? {
      return Err(nulls.error);
    }
    var c := DecodeColumn(r, inner.value, rows);
    res := if c.Err? then c else Ok(Nullable(c.value, nulls.value));
  }

  method DecodeArray(r: ByteReader, s: string, rows: nat) returns (res: Result<Col>)
    requires r.Valid() && HeadOf(BaseType(s)).HArray?
    modifies r.Repr()
    ensures r.Delivers(res, DecodeTree(TypeOf(s), rows, old(r.rest)))
    decreases StateRank(s), GeoRank(s), Parens(s), 1
  {
    hide Inflate, Advance, Deframe, ByteReader.Valid, Stateful, GeoRank, Parens, StateRank, BaseType, HeadOf;
    hide ParseInner, ParseOffsets;
    InnerBelow(s);
    var inner := ParseInner(s);
    if inner.Err? {
      return Err(inner.error);
    }
    var offsets := ReadOffsets(r, rows);
    if offsets.Err? {
      return Err(offsets.error);
    }
    var c := DecodeColumn(r, inner.value, Last(offsets.value));
    res := if c.Err? then c else Ok(Array(c.value, offsets.value));
  }

  method DecodeMap(r: ByteReader, s: string, rows: nat) returns (res: Result<Col>)
    requires r.Valid() && HeadOf(BaseType(s)).HMap?
    modifies r.Repr()
    ensures r.Delivers(res, DecodeTree(TypeOf(s), rows, old(r.rest)))
    decreases StateRank(s), GeoRank(s), Parens(s), 1
  {
    hide Inflate, Advance, Deframe, ByteReader.Valid, Stateful, GeoRank, Parens, StateRank, BaseType, HeadOf;
    hide ParseMap, ParseOffsets;
    MapBelow(s);
    var pair := ParseMap(s);
    if pair.Err? {
      return Err(pair.error);
    }
    var offsets := ReadOffsets(r, rows);
    if offsets.Err? {
      return Err(offsets.error);
    }
    var keys := DecodeColumn(r, pair.value.0, Last(offsets.value));
    if keys.Err? {
      return keys;
    }
    var values := DecodeColumn(r, pair.value.1, Last(offsets.value));
    res := if values.Err? then values else Ok(Map(keys.value, values.value, offsets.value));
  }

  /** The columns of a list of type strings, each with its own row count. */
  method DecodeColumns(r: ByteReader, names: seq<string>, counts: seq<nat>,
      ghost s: string) returns (res: Result<seq<Col>>)
    requires r.Valid() && |counts| == |names|
    requires forall i :: 0 <= i < |names| ==> Smaller(names[i], s)
    modifies r.Repr()
    ensures r.Delivers(res, DecodeEach(RuntimeTypes(names), counts, old(r.rest), []))
    decreases StateRank(s), GeoRank(s), Parens(s), 0
  {
    hide Inflate, Advance, Deframe, ByteReader.Valid, TypeOf, DecodeTree, Stateful, GeoRank, Parens, StateRank;
    var ts := RuntimeTypes(names);
    ghost var goal := DecodeEach(ts, counts, r.rest, []);
    var cols: seq<Col>, i := [], 0;
    while i < |names|
      invariant i <= |names| && r.Valid()
      invariant DecodeEach(ts[i..], counts[i..], r.rest, cols) == goal
    {
      assert ts[i..][0] == TypeOf(names[i]) && ts[i..][1..] == ts[i + 1..];
      assert counts[i..][0] == counts[i] && counts[i..][1..] == counts[i + 1..];
      var c := DecodeColumn(r, names[i], counts[i]);
      if c.Err? {
        return Err(c.error);
      }
      cols, i := cols + [c.value], i + 1;
    }
    res := Ok(cols);
  }

  ghost predicate Smaller(t: string, s: string) {
    StateRank(t) < StateRank(s) || Below(t, s)
  }

  method DecodeTuple(r: ByteReader, s: string, rows: nat) returns (res: Result<Col>)
    requires r.Valid() && HeadOf(BaseType(s)).HTuple?
    modifies r.Repr()
    ensures r.Delivers(res, DecodeTree(TypeOf(s), rows, old(r.rest)))
    decreases StateRank(s), GeoRank(s), Parens(s), 1
  {
    hide Inflate, Advance, Deframe, ByteReader.Valid, Stateful, GeoRank, Parens, StateRank, BaseType, HeadOf;
    hide ParseTuple, DecodeEach;
    TupleBelow(s);
    var parts := ParseTuple(s);
    if parts.Err? {
      return Err(parts.error);
    }
    assert TypeOf(s).TTuple? && TypeOf(s).ts == RuntimeTypes(parts.value);
    if parts.value == [] {
      var zeros := r.ReadExact(rows);
      res := if zeros.Err? then Err(zeros.error) else Ok(Tuple([]));
    } else {
      var elems := DecodeColumns(r, parts.value, Same(|parts.value|, rows), s);
      res := if elems.Err? then Err(elems.error) else Ok(Tuple(elems.value));
    }
  }

  method DecodeNested(r: ByteReader, s: string, rows: nat) returns (res: Result<Col>)
    requires r.Valid() && HeadOf(BaseType(s)).HNested?
    modifies r.Repr()
    ensures r.Delivers(res, DecodeTree(TypeOf(s), rows, old(r.rest)))
    decreases StateRank(s), GeoRank(s), Parens(s), 1
  {
    hide Inflate, Advance, Deframe, ByteReader.Valid, Stateful, GeoRank, Parens, StateRank, BaseType, HeadOf;
    hide ParseNested, DecodeEach, ParseOffsets;
    NestedBelow(s);
    var fields := ParseNestedLoop(s);
    if fields.Err? {
      return Err(fields.error);
    }
    var parts := FieldStrings(fields.value);
    assert TypeOf(s).TNested? && TypeOf(s).ts == RuntimeTypes(parts);
    var offsets := ReadOffsets(r, rows);
    if offsets.Err? {
      return Err(offsets.error);
    }
    var cols := DecodeColumns(r, parts, Same(|parts|, Last(offsets.value)), s);
    res := if cols.Err? then Err(cols.error) else Ok(Nested(FieldNames(fields.value), cols.value, offsets.value));
  }

  function FieldStrings(fields: seq<(string, string)>): (r: seq<string>)
    ensures |r| == |fields| && forall i :: 0 <= i < |fields| ==> r[i] == fields[i].1
  {
    seq(|fields|, i requires 0 <= i < |fields| => fields[i].1)
  }

  method DecodeLowCardinality(r: ByteReader, s: string, rows: nat) returns (res: Result<Col>)
    requires r.Valid() && HeadOf(BaseType(s)).HLowCardinality?
    modifies r.Repr()
    ensures r.Delivers(res, DecodeTree(TypeOf(s), rows, old(r.rest)))
    decreases StateRank(s), GeoRank(s), Parens(s), 1
  {
    hide Inflate, Advance, Deframe, ByteReader.Valid, Stateful, GeoRank, Parens, StateRank, BaseType, HeadOf;
    hide DictType, ParseLE, ParseLEs;
    DictBelow(s);
    var inner := DictType(s);
    if inner.Err? {
      return Err(inner.error);
    }
    if rows == 0 {
      var dict := DecodeColumn(r, inner.value, 0);
      return if dict.Err? then dict else Ok(LowCardinality(dict.value, [], 1));
    }
    var prefix := r.ReadLE(8);
    if prefix.Err? {
      return Err(prefix.error);
    }
    if prefix.value != 1 {
      return Err(Unsupported);
    }
    var metadata := r.ReadLE(8);
    if metadata.Err? {
      return Err(metadata.error);
    }
    var keyWidth := WidthOfKeyCode(metadata.value % 256);
    if keyWidth.Err? {
      return Err(keyWidth.error);
    }
    res := DecodeDictionary(r, inner.value, keyWidth.value, s);
  }

  /** What follows the key type: the dictionary and the keys. */
  function ParseDictionary(u: Ty, keyWidth: nat, s: seq<byte>): Parsed<Col>
  {
    var (size, s3) :- ParseLE(8, s);
    var _ :- CheckedCount(size);
    var (dict, s4) :- DecodeTree(u, size, s3);
    var (count, s5) :- ParseLE(8, s4);
    var _ :- CheckedCount(count);
    var (refs, rest) :- ParseLEs(keyWidth, count, [], s5);
    Ok((LowCardinality(dict, refs, keyWidth), rest))
  }

  method DecodeDictionary(r: ByteReader, inner: string, keyWidth: nat, ghost s: string) returns (res: Result<Col>)
    requires r.Valid() && Below(inner, s)
    modifies r.Repr()
    ensures r.Delivers(res, ParseDictionary(TypeOf(inner), keyWidth, old(r.rest)))
    decreases StateRank(s), GeoRank(s), Parens(s), 0
  {
    hide Inflate, Advance, Deframe, ByteReader.Valid, Stateful, GeoRank, Parens, StateRank, TypeOf, DecodeTree;
    hide ParseLE, ParseLEs;
    var size := r.ReadLE(8);
    if size.Err? {
      return Err(size.error);
    }
    var checkedSize := CheckedCount(size.value);
    if checkedSize.Err? {
      return Err(checkedSize.error);
    }
    var dict := DecodeColumn(r, inner, size.value);
    if dict.Err? {
      return dict;
    }
    var count := r.ReadLE(8);
    if count.Err? {
      return Err(count.error);
    }
    var checkedKeys := CheckedCount(count.value);
    if checkedKeys.Err? {
      return Err(checkedKeys.error);
    }
    var refs := r.ReadLEs(keyWidth, count.value);
    res := if refs.Err? then Err(refs.error) else Ok(LowCardinality(dict.value, refs.value, keyWidth));
  }

  method DecodeVariant(r: ByteReader, s: string, rows: nat) returns (res: Result<Col>)
    requires r.Valid() && HeadOf(BaseType(s)).HVariant?
    modifies r.Repr()
    ensures r.Delivers(res, DecodeTree(TypeOf(s), rows, old(r.rest)))
    decreases StateRank(s), GeoRank(s), Parens(s), 1
  {
    hide Inflate, Advance, Deframe, ByteReader.Valid, Stateful, GeoRank, Parens, StateRank, BaseType, HeadOf;
    hide ParseVariant, DecodeEach, ParseLE, ParseDiscriminators, Slots, Counts;
    VariantBelow(s);
    var parts := ParseVariant(s);
    if parts.Err? {
      return Err(parts.error);
    }
    var n := |parts.value|;
    assert TypeOf(s).TVariant? && TypeOf(s).ts == RuntimeTypes(parts.value);
    assert TypeOf(s).barred == AnyStateful(parts.value);
    if AnyStateful(parts.value) {
      return Err(Unsupported);
    }
    RuntimeStateless(parts.value);
    if rows == 0 {
      var columns := DecodeColumns(r, parts.value, Same(n, 0), s);
      return if columns.Err? then Err(columns.error) else Ok(Variant([], [], columns.value));
    }
    var mode := r.ReadLE(8);
    if mode.Err? {
      return Err(mode.error);
    }
    if mode.value != 0 {
      return Err(Unsupported);
    }
    var slots := ReadSlots(r, 1, rows, NULL_DISCRIMINATOR, n);
    if slots.Err? {
      return Err(slots.error);
    }
    var columns := DecodeColumns(r, parts.value, slots.value.2, s);
    res := if columns.Err? then Err(columns.error) else Ok(Variant(slots.value.0, slots.value.1, columns.value));
  }

  method DecodeDynamic(r: ByteReader, s: string, rows: nat) returns (res: Result<Col>)
    requires r.Valid() && HeadOf(BaseType(s)).HDynamic?
    modifies r.Repr()
    ensures r.Delivers(res, DecodeTree(TDynamic, rows, old(r.rest)))
    decreases StateRank(s), GeoRank(s), Parens(s), 1
  {
    hide Inflate, Advance, Deframe, ByteReader.Valid, Stateful, GeoRank, Parens, StateRank, BaseType, HeadOf;
    hide DecodeEach, ParseLE, ParseVarUInt, ParseStrings, ParseDiscriminators, Slots, Counts, TypeOf;
    if rows == 0 {
      return Ok(Dynamic([], [], [], []));
    }
    var version := r.ReadLE(8);
    if version.Err? {
      return Err(version.error);
    }
    if version.value != 3 {
      return Err(Unsupported);
    }
    var num := r.ReadVarUInt();
    if num.Err? {
      return Err(num.error);
    }
    var names := r.ReadStrings(num.value);
    if names.Err? {
      return Err(names.error);
    }
    if AnyStateful(names.value) {
      return Err(Unsupported);
    }
    RuntimeSmaller(names.value, s);
    var n := |names.value|;
    var slots := ReadSlots(r, DiscriminatorWidth(n), rows, n, n);
    if slots.Err? {
      return Err(slots.error);
    }
    var columns := DecodeColumns(r, names.value, slots.value.2, s);
    res := if columns.Err? then Err(columns.error)
           else Ok(Dynamic(names.value, slots.value.0, slots.value.1, columns.value));
  }

  /** A runtime type is below the Dynamic type that carries it, since it may not
      mention a stateful type. */
  lemma RuntimeSmaller(names: seq<string>, s: string)
    requires !AnyStateful(names) && HeadOf(BaseType(s)).HDynamic?
    ensures forall i :: 0 <= i < |names| ==> Smaller(names[i], s)
  {
    hide Contains, BaseType, HeadOf, Below;
    StatefulHeads(BaseType(s));
    BaseInside(s);
    assert STATEFUL[2] == "Dynamic";
  }
}
