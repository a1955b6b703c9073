/** Round trip of the column codec, with exact consumption: what follows an
    encoded column is left untouched, byte for byte. */
module CodecRoundTrip {
  import opened Base
  import opened Wire
  import opened ByteIO
  import opened Column
  import opened TypeString
  import opened TypeTree
  import opened Codec

  /** Decoding an encoded column gives its normal form and leaves `rest`, or is
      refused: when a count exceeds the reader's bounds, or when a runtime type on
      the wire is stateful. */
  ghost predicate Trip(c: Col, t: Ty, rest: seq<byte>) {
    var r := DecodeTree(t, RowCount(c), Encode(c) + rest);
    if Routed(c) then r == if Fits(c) then Ok((Normal(c), rest)) else Err(InvalidData) else r.Err?
  }

  // ---- Pieces of the format -------------------------------------------------------

  lemma ParseOffsetsAppend(offsets: seq<nat>, rest: seq<byte>)
    requires Monotone(offsets) && AllBelow(offsets, U64_BOUND)
    ensures ParseOffsets(|offsets|, LEs(8, offsets) + rest)
         == if Last(offsets) <= MAX_WIRE_COUNT then Ok((offsets, rest)) else Err(InvalidData)
  {
    hide LEs, ParseLEs;
    Pow256Values();
    ParseLEsAppend(8, offsets, [], rest);
    assert [] + offsets == offsets;
  }

  predicate DiscriminatorsOk(ds: seq<nat>, nil: nat, numTypes: nat) {
    forall i :: 0 <= i < |ds| ==> ds[i] == nil || ds[i] < numTypes
  }

  lemma {:induction false} ParseDiscriminatorsAppend(width: nat, ds: seq<nat>, nil: nat, numTypes: nat,
      done: seq<nat>, rest: seq<byte>)
    requires DiscriminatorsOk(ds, nil, numTypes) && AllBelow(ds, Pow256(width))
    ensures ParseDiscriminators(width, |ds|, nil, numTypes, done, LEs(width, ds) + rest) == Ok((done + ds, rest))
  {
    hide LE, ParseLE, Pow256;
    if ds == [] {
      assert LEs(width, ds) + rest == rest && done + ds == done;
    } else {
      ParseLEAppend(width, ds[0], LEs(width, ds[1..]) + rest);
      Associate(LE(width, ds[0]), LEs(width, ds[1..]), rest);
      ParseDiscriminatorsAppend(width, ds[1..], nil, numTypes, done + [ds[0]], rest);
      assert done + [ds[0]] + ds[1..] == done + ds;
    }
  }

  /** The width chosen for Dynamic discriminators can express the NULL slot, and
      no narrower width the reader knows could. */
  lemma NullSlotFits(numTypes: nat)
    requires numTypes < U64_BOUND
    ensures numTypes < Pow256(DiscriminatorWidth(numTypes))
    ensures forall w :: w in {1, 2, 4, 8} && w < DiscriminatorWidth(numTypes) ==> numTypes >= Pow256(w)
  {
    hide Pow256;
    Pow256Values();
  }

  // ---- Stateful elements ----------------------------------------------------------------

  lemma {:induction false} StatelessUnbarred(t: Ty)
    requires Stateless(t)
    ensures Unbarred(t)
  {
    match t
    case TNullable(u) => StatelessUnbarred(u);
    case TArray(u) => StatelessUnbarred(u);
    case TTuple(ts) => ElementsUnbarred(ts);
    case TNested(_, ts) => ElementsUnbarred(ts);
    case TMap(k, v) => StatelessUnbarred(k); StatelessUnbarred(v);
    case _ =>
  }

  lemma {:induction false} ElementsUnbarred(ts: seq<Ty>)
    ensures AllStateless(ts) ==> forall i :: 0 <= i < |ts| ==> Unbarred(ts[i])
  {
    hide Stateless, Unbarred;
    if AllStateless(ts) {
      forall i | 0 <= i < |ts| ensures Unbarred(ts[i]) { StatelessUnbarred(ts[i]); }
    }
  }

  /** A Variant with a stateful element is refused wherever it stands in the type,
      whatever the bytes. */
  lemma {:induction false} BarredFails(t: Ty, rows: nat, s: seq<byte>)
    requires !Unbarred(t)
    ensures DecodeTree(t, rows, s).Err?
    decreases t, 1
  {
    hide ParseOffsets, ParseLE, ParseLEs, Pow256, DecodeEach, CheckedCount;
    match t
    case TNullable(u) => if rows <= |s| { BarredFails(u, rows, s[rows..]); }
    case TArray(u) =>
      match ParseOffsets(rows, s) {
        case Ok((offsets, s1)) => BarredFails(u, Last(offsets), s1);
        case Err(_) =>
      }
    case TMap(k, v) => BarredMap(t, rows, s);
    case TTuple(ts) => BarredEachFails(ts, Same(|ts|, rows), s, []);
    case TNested(_, ts) =>
      match ParseOffsets(rows, s) {
        case Ok((offsets, s1)) => BarredEachFails(ts, Same(|ts|, Last(offsets)), s1, []);
        case Err(_) =>
      }
    case TLowCardinality(u) => BarredDictionary(t, rows, s);
    case TVariant(_, _) =>
  }

  lemma BarredMap(t: Ty, rows: nat, s: seq<byte>)
    requires t.TMap? && !Unbarred(t)
    ensures DecodeTree(t, rows, s).Err?
    decreases t, 0
  {
    hide ParseOffsets;
    match ParseOffsets(rows, s)
    case Err(_) =>
    case Ok((offsets, s1)) =>
      if !Unbarred(t.k) {
        BarredFails(t.k, Last(offsets), s1);
      } else {
        match DecodeTree(t.k, Last(offsets), s1)
        case Ok((_, s2)) => BarredFails(t.v, Last(offsets), s2);
        case Err(_) =>
      }
  }

  lemma BarredDictionary(t: Ty, rows: nat, s: seq<byte>)
    requires t.TLowCardinality? && !Unbarred(t)
    ensures DecodeTree(t, rows, s).Err?
    decreases t, 0
  {
    hide ParseLE, ParseLEs, Pow256;
    if rows == 0 {
      BarredFails(t.t, 0, s);
    } else if DecodeTree(t, rows, s).Ok? {
      var s1 := ParseLE(8, s).value.1;
      var s2 := ParseLE(8, s1).value.1;
      var (size, s3) := ParseLE(8, s2).value;
      BarredFails(t.t, size, s3);
    }
  }

  lemma {:induction false} BarredEachFails(ts: seq<Ty>, counts: seq<nat>, s: seq<byte>, cols: seq<Col>)
    requires |counts| == |ts| && exists i :: 0 <= i < |ts| && !Unbarred(ts[i])
    ensures DecodeEach(ts, counts, s, cols).Err?
    decreases ts, 0
  {
    hide DecodeTree, Unbarred;
    if !Unbarred(ts[0]) {
      BarredFails(ts[0], counts[0], s);
    } else {
      match DecodeTree(ts[0], counts[0], s)
      case Ok((c, rest)) =>
        var i :| 0 <= i < |ts| && !Unbarred(ts[i]);
        assert ts[1..][i - 1] == ts[i];
        BarredEachFails(ts[1..], counts[1..], rest, cols + [c]);
      case Err(_) =>
    }
  }

  // ---- Columns without rows -----------------------------------------------------------

  lemma EmptyLeaf(c: Col, t: Ty, s: seq<byte>)
    requires WellTyped(c, t)
    requires t.TScalar? || t.TStr? || t.TFixed? || t.TNothing? || t.TJson? || t.TDynamic?
    ensures DecodeTree(t, 0, s) == Ok((Emptied(c), s))
  {
    hide LE, Pow256, AnyStateful, TypeOf;
    assert s[..0] == [] && s[0..] == s;
  }

  lemma {:induction false} EmptyDecode(c: Col, t: Ty, s: seq<byte>)
    requires WellTyped(c, t) && Unbarred(t)
    ensures DecodeTree(t, 0, s) == Ok((Emptied(c), s))
    decreases c, 1
  {
    hide LE, Pow256, AnyStateful, TypeOf, DecodeEach, EmptiedEach;
    match t
    case TNullable(u) => EmptyDecode(c.inner, u, s); assert s[..0] == [] && s[0..] == s;
    case TArray(u) => EmptyDecode(c.items, u, s);
    case TMap(k, v) => EmptyDecode(c.keys, k, s); EmptyDecode(c.values, v, s);
    case TTuple(ts) =>
      EmptyEach(c.elems, ts, s, []);
      assert s[0..] == s && [] + EmptiedEach(c.elems) == EmptiedEach(c.elems);
    case TNested(_, ts) => EmptyEach(c.fields, ts, s, []);
      assert [] + EmptiedEach(c.fields) == EmptiedEach(c.fields);
    case TVariant(ts, _) =>
      ElementsUnbarred(ts);
      EmptyEach(c.columns, ts, s, []);
      assert [] + EmptiedEach(c.columns) == EmptiedEach(c.columns);
    case TLowCardinality(u) => EmptyDecode(c.dict, u, s);
    case Bad(_) =>
    case _ => EmptyLeaf(c, t, s);
  }

  lemma {:induction false} EmptyEach(cols: seq<Col>, ts: seq<Ty>, s: seq<byte>, done: seq<Col>)
    requires |cols| == |ts| && forall i :: 0 <= i < |ts| ==> WellTyped(cols[i], ts[i]) && Unbarred(ts[i])
    ensures DecodeEach(ts, Same(|ts|, 0), s, done) == Ok((done + EmptiedEach(cols), s))
    decreases cols, 0
  {
    hide DecodeTree, WellTyped, Emptied, Unbarred;
    if ts == [] {
      assert done + EmptiedEach(cols) == done;
    } else {
      EmptyDecode(cols[0], ts[0], s);
      EmptyEach(cols[1..], ts[1..], s, done + [Emptied(cols[0])]);
      assert Same(|ts|, 0)[1..] == Same(|ts| - 1, 0);
      assert done + [Emptied(cols[0])] + EmptiedEach(cols[1..]) == done + EmptiedEach(cols);
    }
  }

  // ---- One case per type -----------------------------------------------------------------

  lemma LeafTrip(c: Col, t: Ty, rest: seq<byte>)
    requires WellTyped(c, t) && Valid(c)
    requires t.TScalar? || t.TStr? || t.TFixed? || t.TNothing?
    ensures Trip(c, t, rest)
  {
    hide LEs, ParseLEs, ParseStrings, EncodeStrings, Pow256;
    match t
    case TScalar(kind) =>
      ParseLEsAppend(Width(kind), c.vals, [], rest);
      assert [] + c.vals == c.vals;
    case TStr =>
      ParseStringsAppend(c.strs, [], rest);
      assert [] + c.strs == c.strs;
    case TFixed(n) =>
      TakeAppend(c.data, rest);
      assert n * (|c.data| / n) == |c.data|;
    case TNothing => TakeAppend(Placeholders(c.rows), rest);
  }

  lemma JsonTrip(texts: seq<string>, rest: seq<byte>)
    requires AllRustStrings(texts)
    ensures Trip(Json(texts), TJson, rest)
  {
    hide ParseStrings, EncodeStrings, LE, ParseLE, Pow256;
    if texts == [] {
      assert [] + rest == rest;
    } else {
      Pow256Values();
      Associate(LE(8, 1), EncodeStrings(texts), rest);
      ParseLEAppend(8, 1, EncodeStrings(texts) + rest);
      ParseStringsAppend(texts, [], rest);
      assert [] + texts == texts;
    }
  }

  lemma NullableTrip(inner: Col, nulls: seq<byte>, u: Ty, rest: seq<byte>)
    requires RowCount(inner) == |nulls| && Trip(inner, u, rest)
    ensures Trip(Nullable(inner, nulls), TNullable(u), rest)
  {
    Associate(nulls, Encode(inner), rest);
    TakeAppend(nulls, Encode(inner) + rest);
  }

  lemma ArrayTrip(items: Col, offsets: seq<nat>, u: Ty, rest: seq<byte>)
    requires Monotone(offsets) && AllBelow(offsets, U64_BOUND) && RowCount(items) == Last(offsets)
    requires Trip(items, u, rest)
    ensures Trip(Array(items, offsets), TArray(u), rest)
  {
    hide LEs, ParseOffsets;
    Associate(LEs(8, offsets), Encode(items), rest);
    ParseOffsetsAppend(offsets, Encode(items) + rest);
  }

  lemma MapTrip(keys: Col, values: Col, offsets: seq<nat>, k: Ty, v: Ty, rest: seq<byte>)
    requires Monotone(offsets) && AllBelow(offsets, U64_BOUND)
    requires RowCount(keys) == Last(offsets) && RowCount(values) == Last(offsets)
    requires Trip(keys, k, Encode(values) + rest) && Trip(values, v, rest)
    ensures Trip(Map(keys, values, offsets), TMap(k, v), rest)
  {
    hide LEs, ParseOffsets, Encode, RowCount, Normal, Fits, Routed;
    MapParts(keys, values, offsets);
    var pairs := Encode(keys) + Encode(values);
    Associate(LEs(8, offsets), pairs, rest);
    Associate(Encode(keys), Encode(values), rest);
    ParseOffsetsAppend(offsets, pairs + rest);
  }

  lemma MapParts(keys: Col, values: Col, offsets: seq<nat>)
    ensures var c := Map(keys, values, offsets);
            && RowCount(c) == |offsets| && Encode(c) == LEs(8, offsets) + (Encode(keys) + Encode(values))
            && Normal(c) == Map(Normal(keys), Normal(values), offsets)
            && (Fits(c) <==> Last(offsets) <= MAX_WIRE_COUNT && Fits(keys) && Fits(values))
            && (Routed(c) <==> Routed(keys) && Routed(values))
  {
    hide LEs;
  }

  ghost predicate EachFits(cols: seq<Col>) {
    forall i :: 0 <= i < |cols| ==> Fits(cols[i])
  }

  ghost predicate EachRouted(cols: seq<Col>) {
    forall i :: 0 <= i < |cols| ==> Routed(cols[i])
  }

  lemma NoneUnfit()
    ensures EachFits([]) && EachRouted([])
  {
  }

  lemma EachFitsCons(cols: seq<Col>)
    requires cols != []
    ensures EachFits(cols) <==> Fits(cols[0]) && EachFits(cols[1..])
    ensures EachRouted(cols) <==> Routed(cols[0]) && EachRouted(cols[1..])
  {
    hide Fits, Routed;
    assert cols == [cols[0]] + cols[1..];
  }

  /** The columns one after another, each with its own count, are read back one
      after another. */
  ghost predicate TripEach(cols: seq<Col>, ts: seq<Ty>, counts: seq<nat>, rest: seq<byte>)
    requires |ts| == |cols| == |counts|
  {
    var r := DecodeEach(ts, counts, EncodeEach(cols) + rest, []);
    if EachRouted(cols) then r == if EachFits(cols) then Ok((NormalEach(cols), rest)) else Err(InvalidData) else r.Err?
  }

  lemma TupleTrip(elems: seq<Col>, ts: seq<Ty>, rows: nat, rest: seq<byte>)
    requires |elems| == |ts| && rows == RowCount(Tuple(elems))
    requires TripEach(elems, ts, Same(|ts|, rows), rest)
    ensures Trip(Tuple(elems), TTuple(ts), rest)
  {
    hide DecodeEach, RowCount;
    if ts == [] {
      assert EncodeEach(elems) + rest == rest && rest[0..] == rest;
      EmptyTupleRows();
      assert NormalEach(elems) == [];
    }
  }

  lemma EmptyTupleRows()
    ensures RowCount(Tuple([])) == 0
  {
  }

  lemma NestedTrip(names: seq<string>, fields: seq<Col>, offsets: seq<nat>, ts: seq<Ty>, rest: seq<byte>)
    requires |fields| == |ts| && Monotone(offsets) && AllBelow(offsets, U64_BOUND)
    requires TripEach(fields, ts, Same(|ts|, Last(offsets)), rest)
    ensures Trip(Nested(names, fields, offsets), TNested(names, ts), rest)
  {
    hide LEs, ParseOffsets, DecodeEach;
    Associate(LEs(8, offsets), EncodeEach(fields), rest);
    ParseOffsetsAppend(offsets, EncodeEach(fields) + rest);
  }

  lemma KeyMetadataReads(keyWidth: nat)
    requires keyWidth in {1, 2, 4, 8}
    ensures WidthOfKeyCode(KeyMetadata(keyWidth) % 256) == Ok(keyWidth)
    ensures KeyMetadata(keyWidth) < U64_BOUND && KeyBound(keyWidth) == Pow256(keyWidth)
  {
    Pow256Values();
  }

  lemma LowCardinalityTrip(dict: Col, refs: seq<nat>, keyWidth: nat, u: Ty, rest: seq<byte>)
    requires Valid(LowCardinality(dict, refs, keyWidth)) && refs != []
    requires RowCount(dict) < U64_BOUND && |refs| < U64_BOUND
    requires Trip(dict, u, LE(8, |refs|) + LEs(keyWidth, refs) + rest)
    ensures Trip(LowCardinality(dict, refs, keyWidth), TLowCardinality(u), rest)
  {
    hide LE, LEs, ParseLE, ParseLEs, Pow256, Valid, Encode, RowCount, Normal, Fits, Routed, KeyMetadata;
    var c := LowCardinality(dict, refs, keyWidth);
    LowCardinalityParts(dict, refs, keyWidth);
    Pow256Values();
    KeyMetadataReads(keyWidth);
    var tail5 := LEs(keyWidth, refs) + rest;
    var tail4 := LE(8, |refs|) + tail5;
    var tail3 := Encode(dict) + tail4;
    var tail2 := LE(8, RowCount(dict)) + tail3;
    var tail1 := LE(8, KeyMetadata(keyWidth)) + tail2;
    assert LE(8, |refs|) + LEs(keyWidth, refs) + rest == tail4;
    assert Encode(c) + rest == LE(8, 1) + tail1;
    ParseLEAppend(8, 1, tail1);
    ParseLEAppend(8, KeyMetadata(keyWidth), tail2);
    ParseLEAppend(8, RowCount(dict), tail3);
    ParseLEAppend(8, |refs|, tail5);
    ParseLEsAppend(keyWidth, refs, [], rest);
    assert [] + refs == refs;
  }

  lemma LowCardinalityParts(dict: Col, refs: seq<nat>, keyWidth: nat)
    requires Valid(LowCardinality(dict, refs, keyWidth)) && refs != []
    ensures var c := LowCardinality(dict, refs, keyWidth);
            && RowCount(c) == |refs| && keyWidth in {1, 2, 4, 8} && AllBelow(refs, KeyBound(keyWidth))
            && Normal(c) == LowCardinality(Normal(dict), refs, keyWidth)
            && (Fits(c) <==> RowCount(dict) <= MAX_WIRE_COUNT && Fits(dict) && |refs| <= MAX_WIRE_COUNT)
            && (Routed(c) <==> Routed(dict))
            && Encode(c) == LE(8, 1) + (LE(8, KeyMetadata(keyWidth)) + (LE(8, RowCount(dict))
                 + (Encode(dict) + (LE(8, |refs|) + LEs(keyWidth, refs)))))
  {
  }

  lemma VariantTrip(ds: seq<nat>, slots: seq<nat>, columns: seq<Col>, ts: seq<Ty>, rest: seq<byte>)
    requires ds != [] && |columns| == |ts| && AllBelow(ds, 0x100)
    requires DiscriminatorsOk(ds, NULL_DISCRIMINATOR, |ts|) && AllStateless(ts)
    requires TripEach(columns, ts, Counts(ds, NULL_DISCRIMINATOR, |ts|), rest)
    ensures Trip(Variant(ds, slots, columns), TVariant(ts, false), rest)
  {
    hide LE, LEs, ParseLE, Pow256, DecodeEach, ParseDiscriminators, AllStateless;
    Pow256Values();
    var tail2 := EncodeEach(columns) + rest;
    var tail1 := LEs(1, ds) + tail2;
    assert Encode(Variant(ds, slots, columns)) + rest == LE(8, 0) + tail1;
    ParseLEAppend(8, 0, tail1);
    ParseDiscriminatorsAppend(1, ds, NULL_DISCRIMINATOR, |ts|, [], tail2);
    assert [] + ds == ds;
  }

  lemma DynamicTrip(names: seq<string>, ds: seq<nat>, slots: seq<nat>, columns: seq<Col>, rest: seq<byte>)
    requires ds != [] && |names| == |columns| < U64_BOUND
    requires AllRustStrings(names)
    requires forall i :: 0 <= i < |ds| ==> ds[i] <= |columns|
    requires !AnyStateful(names) ==> TripEach(columns, RuntimeTypes(names), Counts(ds, |names|, |names|), rest)
    ensures Trip(Dynamic(names, ds, slots, columns), TDynamic, rest)
  {
    hide Encode, Normal, Fits, Routed, RowCount, DecodeTree, EachFits, EachRouted, RuntimeTypes, AnyStateful, Counts;
    hide AllRustStrings, AllStringsFit, DecodeEach, EncodeEach, Slots, NormalEach;
    DynamicParts(names, ds, slots, columns);
    DynamicReads(names, ds, slots, columns, rest);
  }

  /** What the column is made of, each part of it read by name. */
  lemma DynamicParts(names: seq<string>, ds: seq<nat>, slots: seq<nat>, columns: seq<Col>)
    requires ds != []
    ensures var c := Dynamic(names, ds, slots, columns);
            && RowCount(c) == |ds|
            && Normal(c) == Dynamic(names, ds, Slots(ds, |columns|), NormalEach(columns))
            && (Fits(c) <==> AllStringsFit(names) && EachFits(columns))
            && (Routed(c) <==> !AnyStateful(names) && EachRouted(columns))
  {
    hide Slots, AnyStateful, AllStringsFit;
  }

  /** The format undone piece by piece: the names, at which a stateful type ends
      it, the discriminators, and the sub-columns they count. */
  lemma DynamicReads(names: seq<string>, ds: seq<nat>, slots: seq<nat>, columns: seq<Col>, rest: seq<byte>)
    requires ds != [] && |names| == |columns| < U64_BOUND && AllRustStrings(names)
    requires forall i :: 0 <= i < |ds| ==> ds[i] <= |names|
    ensures var n := |names|;
            var read := DecodeEach(RuntimeTypes(names), Counts(ds, n, n), EncodeEach(columns) + rest, []);
            DecodeTree(TDynamic, |ds|, Encode(Dynamic(names, ds, slots, columns)) + rest)
            == if !AllStringsFit(names) then Err(InvalidData)
               else if AnyStateful(names) then Err(Unsupported)
               else if read.Err? then Err(read.error)
               else Ok((Dynamic(names, ds, Slots(ds, n), read.value.0), read.value.1))
  {
    hide LE, LEs, ParseLE, Pow256, DecodeEach, ParseDiscriminators, ParseStrings, EncodeStrings, ParseVarUInt, Leb;
    hide AnyStateful, AllStringsFit, RuntimeTypes, DiscriminatorWidth, Counts, Slots, AllRustStrings, EncodeEach;
    Pow256Values();
    var n := |names|;
    var w := DiscriminatorWidth(n);
    var tail4 := EncodeEach(columns) + rest;
    var tail3 := LEs(w, ds) + tail4;
    var tail2 := EncodeStrings(names) + tail3;
    var tail1 := Leb(n) + tail2;
    assert Encode(Dynamic(names, ds, slots, columns)) + rest == LE(8, 3) + tail1;
    ParseLEAppend(8, 3, tail1);
    ParseVarUIntAppend(n, tail2);
    ParseStringsAppend(names, [], tail3);
    assert [] + names == names;
    NullSlotFits(n);
    ParseDiscriminatorsAppend(w, ds, n, n, [], tail4);
    assert [] + ds == ds;
  }

  // ---- The theorem ------------------------------------------------------------------------

  lemma {:induction false} RoundTrip(c: Col, t: Ty, rest: seq<byte>)
    requires WellTyped(c, t) && Valid(c) && Unbarred(t)
    ensures Trip(c, t, rest)
    decreases c, 1
  {
    hide Trip, TripEach, Encode, LE, LEs, Leb, Pow256, CountOf, Stateful, TypeOf, DecodeTree, Normal, Fits, Routed;
    hide AnyStateful, AllStateless;
    match t
    case TNullable(u) => RoundTrip(c.inner, u, rest); NullableTrip(c.inner, c.nulls, u, rest);
    case TArray(u) => RoundTrip(c.items, u, rest); ArrayTrip(c.items, c.offsets, u, rest);
    case TMap(k, v) =>
      RoundTrip(c.keys, k, Encode(c.values) + rest);
      RoundTrip(c.values, v, rest);
      MapTrip(c.keys, c.values, c.offsets, k, v, rest);
    case TTuple(ts) =>
      RoundTripEach(c.elems, ts, Same(|ts|, RowCount(c)), rest);
      TupleTrip(c.elems, ts, RowCount(c), rest);
    case TNested(names, ts) =>
      RoundTripEach(c.fields, ts, Same(|ts|, Last(c.offsets)), rest);
      NestedTrip(names, c.fields, c.offsets, ts, rest);
    case TJson => JsonTrip(c.texts, rest);
    case TLowCardinality(u) =>
      if c.refs == [] { EmptyTrip(c, t, rest); } else {
        RoundTrip(c.dict, u, LE(8, |c.refs|) + LEs(c.keyWidth, c.refs) + rest);
        LowCardinalityTrip(c.dict, c.refs, c.keyWidth, u, rest);
      }
    case TVariant(ts, _) =>
      if c.discriminators == [] { EmptyTrip(c, t, rest); } else {
        ElementsUnbarred(ts);
        RoundTripEach(c.columns, ts, Counts(c.discriminators, NULL_DISCRIMINATOR, |ts|), rest);
        VariantTrip(c.discriminators, c.slots, c.columns, ts, rest);
      }
    case TDynamic =>
      if c.discriminators == [] { EmptyTrip(c, t, rest); } else {
        var n := |c.typeNames|;
        if !AnyStateful(c.typeNames) {
          RuntimeStateless(c.typeNames);
          ElementsUnbarred(RuntimeTypes(c.typeNames));
          RoundTripEach(c.columns, RuntimeTypes(c.typeNames), Counts(c.discriminators, n, n), rest);
        }
        DynamicTrip(c.typeNames, c.discriminators, c.slots, c.columns, rest);
      }
    case _ => LeafTrip(c, t, rest);
  }

  lemma EmptyTrip(c: Col, t: Ty, rest: seq<byte>)
    requires WellTyped(c, t) && Unbarred(t)
    requires (c.LowCardinality? && c.refs == []) || ((c.Variant? || c.Dynamic?) && c.discriminators == [])
    ensures Trip(c, t, rest)
  {
    hide DecodeTree, WellTyped, Emptied, Unbarred;
    EmptyDecode(c, t, rest);
    assert Encode(c) + rest == rest;
  }

  lemma {:induction false} RoundTripEach(cols: seq<Col>, ts: seq<Ty>, counts: seq<nat>, rest: seq<byte>)
    requires |ts| == |cols| == |counts| && forall i :: 0 <= i < |ts| ==> Unbarred(ts[i])
    requires forall i :: 0 <= i < |cols| ==>
      WellTyped(cols[i], ts[i]) && Valid(cols[i]) && RowCount(cols[i]) == counts[i]
    ensures TripEach(cols, ts, counts, rest)
    decreases cols, 1
  {
    hide DecodeEach, EncodeEach, WellTyped, Valid, RowCount, EachFits, EachRouted, Unbarred;
    TripFrom(cols, ts, counts, rest, []);
    assert [] + NormalEach(cols) == NormalEach(cols);
  }

  lemma {:induction false} TripFrom(cols: seq<Col>, ts: seq<Ty>, counts: seq<nat>, rest: seq<byte>, done: seq<Col>)
    requires |ts| == |cols| == |counts| && forall i :: 0 <= i < |ts| ==> Unbarred(ts[i])
    requires forall i :: 0 <= i < |cols| ==>
      WellTyped(cols[i], ts[i]) && Valid(cols[i]) && RowCount(cols[i]) == counts[i]
    ensures var r := DecodeEach(ts, counts, EncodeEach(cols) + rest, done);
            if EachRouted(cols) then
              r == if EachFits(cols) then Ok((done + NormalEach(cols), rest)) else Err(InvalidData)
            else r.Err?
    decreases cols, 0
  {
    hide DecodeTree, Encode, WellTyped, Valid, RowCount, Fits, Normal, EachFits, Routed, EachRouted, Unbarred;
    NoneUnfit();
    if cols == [] {
      assert done + NormalEach(cols) == done && EncodeEach(cols) + rest == rest;
    } else {
      var others := cols[1..];
      EachFitsCons(cols);
      Associate(Encode(cols[0]), EncodeEach(others), rest);
      RoundTrip(cols[0], ts[0], EncodeEach(others) + rest);
      if Fits(cols[0]) && Routed(cols[0]) {
        TripFrom(others, ts[1..], counts[1..], rest, done + [Normal(cols[0])]);
        assert done + [Normal(cols[0])] + NormalEach(others) == done + NormalEach(cols);
      }
    }
  }

  // ---- Exactly which columns come back unchanged ---------------------------------------------

  /** Slots are the ones the decoder computes, and a column without rows keeps
      nothing the wire does not carry. */
  predicate Canonical(c: Col) {
    match c
    case Nullable(inner, _) => Canonical(inner)
    case Array(items, _) => Canonical(items)
    case Tuple(elems) => forall i :: 0 <= i < |elems| ==> Canonical(elems[i])
    case Map(keys, values, _) => Canonical(keys) && Canonical(values)
    case Nested(_, fields, _) => forall i :: 0 <= i < |fields| ==> Canonical(fields[i])
    case LowCardinality(dict, refs, keyWidth) =>
      if refs == [] then keyWidth == 1 && Bare(dict) else Canonical(dict)
    case Variant(ds, slots, columns) =>
      && slots == Slots(ds, NULL_DISCRIMINATOR)
      && if ds == [] then forall i :: 0 <= i < |columns| ==> Bare(columns[i])
         else forall i :: 0 <= i < |columns| ==> Canonical(columns[i])
    case Dynamic(names, ds, slots, columns) =>
      && slots == Slots(ds, |columns|)
      && if ds == [] then names == [] && columns == []
         else forall i :: 0 <= i < |columns| ==> Canonical(columns[i])
    case _ => true
  }

  /** A column with no content at any depth. */
  predicate Bare(c: Col) {
    match c
    case Scalar(_, vals) => vals == []
    case Str(strs) => strs == []
    case FixedStr(_, data) => data == []
    case Nothing(rows) => rows == 0
    case Json(texts) => texts == []
    case Nullable(inner, nulls) => nulls == [] && Bare(inner)
    case Array(items, offsets) => offsets == [] && Bare(items)
    case Tuple(elems) => forall i :: 0 <= i < |elems| ==> Bare(elems[i])
    case Map(keys, values, offsets) => offsets == [] && Bare(keys) && Bare(values)
    case Nested(_, fields, offsets) => offsets == [] && forall i :: 0 <= i < |fields| ==> Bare(fields[i])
    case LowCardinality(dict, refs, keyWidth) => refs == [] && keyWidth == 1 && Bare(dict)
    case Variant(ds, slots, columns) => ds == [] && slots == [] && forall i :: 0 <= i < |columns| ==> Bare(columns[i])
    case Dynamic(names, ds, slots, columns) => names == [] && ds == [] && slots == [] && columns == []
  }

  lemma {:induction false} BareIsEmptied(c: Col)
    ensures Emptied(c) == c <==> Bare(c)
    decreases c
  {
    match c
    case Nullable(inner, _) => BareIsEmptied(inner);
    case Array(items, _) => BareIsEmptied(items);
    case Tuple(elems) => BareEach(elems);
    case Map(keys, values, _) => BareIsEmptied(keys); BareIsEmptied(values);
    case Nested(_, fields, _) => BareEach(fields);
    case LowCardinality(dict, _, _) => BareIsEmptied(dict);
    case Variant(_, _, columns) => BareEach(columns);
    case _ =>
  }

  lemma {:induction false} BareEach(cols: seq<Col>)
    ensures EmptiedEach(cols) == cols <==> forall i :: 0 <= i < |cols| ==> Bare(cols[i])
    decreases cols
  {
    hide Bare, Emptied;
    forall i | 0 <= i < |cols| ensures Emptied(cols[i]) == cols[i] <==> Bare(cols[i]) {
      BareIsEmptied(cols[i]);
    }
    if EmptiedEach(cols) == cols {
      forall i | 0 <= i < |cols| ensures Bare(cols[i]) {
        assert EmptiedEach(cols)[i] == cols[i];
      }
    }
  }

  lemma {:induction false} CanonicalIsNormal(c: Col)
    ensures Normal(c) == c <==> Canonical(c)
    decreases c
  {
    hide Slots, Bare, Emptied;
    match c
    case Nullable(inner, _) => CanonicalIsNormal(inner);
    case Array(items, _) => CanonicalIsNormal(items);
    case Tuple(elems) => CanonicalEach(elems);
    case Map(keys, values, _) => CanonicalIsNormal(keys); CanonicalIsNormal(values);
    case Nested(_, fields, _) => CanonicalEach(fields);
    case LowCardinality(dict, refs, _) =>
      if refs == [] { EmptiedShape(c); BareIsEmptied(dict); } else { CanonicalIsNormal(dict); }
    case Variant(ds, slots, columns) =>
      if ds == [] { EmptiedShape(c); BareEach(columns); NoSlots(NULL_DISCRIMINATOR); } else { CanonicalEach(columns); }
    case Dynamic(_, ds, slots, columns) =>
      if ds == [] { EmptiedShape(c); NoSlots(|columns|); } else { CanonicalEach(columns); }
    case _ =>
  }

  lemma EmptiedShape(c: Col)
    ensures c.LowCardinality? ==> Emptied(c) == LowCardinality(Emptied(c.dict), [], 1)
    ensures c.Variant? ==> Emptied(c) == Variant([], [], EmptiedEach(c.columns))
    ensures c.Dynamic? ==> Emptied(c) == Dynamic([], [], [], [])
  {
  }

  lemma NoSlots(nil: nat)
    ensures Slots([], nil) == []
  {
  }

  lemma {:induction false} CanonicalEach(cols: seq<Col>)
    ensures NormalEach(cols) == cols <==> forall i :: 0 <= i < |cols| ==> Canonical(cols[i])
    decreases cols
  {
    hide Canonical, Normal;
    forall i | 0 <= i < |cols| ensures Normal(cols[i]) == cols[i] <==> Canonical(cols[i]) {
      CanonicalIsNormal(cols[i]);
    }
    if NormalEach(cols) == cols {
      forall i | 0 <= i < |cols| ensures Canonical(cols[i]) {
        assert NormalEach(cols)[i] == cols[i];
      }
    }
  }

  /** A valid column comes back unchanged, the bytes after it untouched, exactly
      when its counts are within bounds, it is canonical, and no stateful type
      stands in a Variant or is a runtime type on the wire. */
  lemma RoundTripIff(c: Col, t: Ty, rest: seq<byte>)
    requires WellTyped(c, t) && Valid(c)
    ensures DecodeTree(t, RowCount(c), Encode(c) + rest) == Ok((c, rest))
       <==> Fits(c) && Canonical(c) && Unbarred(t) && Routed(c)
  {
    hide DecodeTree, Encode, Normal, Canonical, Fits, WellTyped, Valid, RowCount, Unbarred, Routed;
    if Unbarred(t) {
      RoundTrip(c, t, rest);
      CanonicalIsNormal(c);
    } else {
      BarredFails(t, RowCount(c), Encode(c) + rest);
    }
  }

  // ---- A column that is written and refused -----------------------------------------------

  const WORD_DICTIONARY := LowCardinality(Str(["a"]), [0], 1)

  lemma WordDictionary()
    ensures var c := WORD_DICTIONARY;
            && Valid(c) && RowCount(c) == 1 && Fits(c) && Canonical(c) && Routed(c)
            && WellTyped(c, TLowCardinality(TStr))
  {
    assert Octets("a")[1..] == [] && Utf8(Octets("a"));
  }

  /** The encoder writes a dictionary column inside a Variant; nothing is ever
      read back at that type. */
  lemma StatefulElement(s: seq<byte>)
    ensures var c := Variant([0], [0], [WORD_DICTIONARY]);
            var t := TVariant([TLowCardinality(TStr)], true);
            && WellTyped(c, t) && Valid(c) && Fits(c) && Canonical(c) && Routed(c)
            && DecodeTree(t, RowCount(c), s).Err?
  {
    hide WORD_DICTIONARY, DecodeTree, CountOf, Slots;
    WordDictionary();
    OneRow();
    BarredFails(TVariant([TLowCardinality(TStr)], true), 1, s);
  }

  lemma OneRow()
    ensures CountOf([0], 0) == 1
    ensures forall nil: nat :: nil > 0 ==> Slots([0], nil) == [0]
  {
    assert [0][..0] == [];
  }
}
