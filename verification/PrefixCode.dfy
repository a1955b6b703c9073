/** The encodings of a type are a prefix code, refused types included: where one
    ends, and what survives of it, is determined by the bytes alone. */
module PrefixCode {
  import opened Base
  import opened Wire
  import opened ByteIO
  import opened Column
  import opened TypeTree
  import opened Codec
  import opened CodecRoundTrip

  lemma LEPrefix(w: nat, x: nat, y: nat, a: seq<byte>, b: seq<byte>)
    requires x < Pow256(w) && y < Pow256(w) && LE(w, x) + a == LE(w, y) + b
    ensures x == y && a == b
  {
    hide LE, ParseLE, Pow256;
    ParseLEAppend(w, x, a);
    ParseLEAppend(w, y, b);
  }

  lemma LEsPrefix(w: nat, xs: seq<nat>, ys: seq<nat>, a: seq<byte>, b: seq<byte>)
    requires |xs| == |ys| && AllBelow(xs, Pow256(w)) && AllBelow(ys, Pow256(w))
    requires LEs(w, xs) + a == LEs(w, ys) + b
    ensures xs == ys && a == b
  {
    hide LEs, ParseLEs, Pow256;
    ParseLEsAppend(w, xs, [], a);
    ParseLEsAppend(w, ys, [], b);
    assert [] + xs == xs && [] + ys == ys;
  }

  lemma StringsPrefix(xs: seq<string>, ys: seq<string>, a: seq<byte>, b: seq<byte>)
    requires |xs| == |ys| && AllRustStrings(xs) && AllRustStrings(ys) && AllStringsFit(xs) && AllStringsFit(ys)
    requires EncodeStrings(xs) + a == EncodeStrings(ys) + b
    ensures xs == ys && a == b
  {
    hide EncodeStrings, ParseStrings, AllRustStrings, AllStringsFit;
    ParseStringsAppend(xs, [], a);
    ParseStringsAppend(ys, [], b);
    assert [] + xs == xs && [] + ys == ys;
  }

  /** Two columns of one type without rows are the same on the wire. */
  lemma {:induction false} EmptiedSame(c: Col, d: Col, t: Ty)
    requires WellTyped(c, t) && WellTyped(d, t)
    ensures Emptied(c) == Emptied(d)
    decreases c
  {
    hide TypeOf, RustString, Pow256;
    match t
    case TNullable(u) => EmptiedSame(c.inner, d.inner, u);
    case TArray(u) => EmptiedSame(c.items, d.items, u);
    case TMap(k, v) => EmptiedSame(c.keys, d.keys, k); EmptiedSame(c.values, d.values, v);
    case TTuple(ts) => EmptiedSameEach(c.elems, d.elems, ts);
    case TNested(_, ts) => EmptiedSameEach(c.fields, d.fields, ts);
    case TLowCardinality(u) => EmptiedSame(c.dict, d.dict, u);
    case TVariant(ts, _) => EmptiedSameEach(c.columns, d.columns, ts);
    case _ =>
  }

  lemma {:induction false} EmptiedSameEach(cs: seq<Col>, ds: seq<Col>, ts: seq<Ty>)
    requires |cs| == |ds| == |ts|
    requires forall i :: 0 <= i < |ts| ==> WellTyped(cs[i], ts[i]) && WellTyped(ds[i], ts[i])
    ensures EmptiedEach(cs) == EmptiedEach(ds)
    decreases cs
  {
    hide WellTyped, Emptied;
    forall i | 0 <= i < |ts| ensures EmptiedEach(cs)[i] == EmptiedEach(ds)[i] {
      EmptiedSame(cs[i], ds[i], ts[i]);
    }
  }

  /** A column the writer accepts at a type, counts within bounds. */
  predicate Written(c: Col, t: Ty) {
    WellTyped(c, t) && Valid(c) && Fits(c)
  }

  predicate WrittenEach(cols: seq<Col>, ts: seq<Ty>) {
    |cols| == |ts| && forall i :: 0 <= i < |ts| ==> Written(cols[i], ts[i])
  }

  predicate SameRows(cs: seq<Col>, ds: seq<Col>) {
    |cs| == |ds| && forall i :: 0 <= i < |cs| ==> RowCount(cs[i]) == RowCount(ds[i])
  }

  lemma LeafPrefix(c: Col, d: Col, t: Ty, more: seq<byte>, rest: seq<byte>)
    requires t.TScalar? || t.TStr? || t.TFixed? || t.TNothing? || t.TJson?
    requires Written(c, t) && Written(d, t) && RowCount(c) == RowCount(d) && Encode(c) + more == Encode(d) + rest
    ensures Normal(c) == Normal(d) && more == rest
  {
    hide Encode, Normal, Valid, Fits, RowCount, DecodeTree, WellTyped;
    LeafReads(c, t);
    LeafReads(d, t);
    RoundTrip(c, t, more);
    RoundTrip(d, t, rest);
  }

  lemma LeafReads(c: Col, t: Ty)
    requires t.TScalar? || t.TStr? || t.TFixed? || t.TNothing? || t.TJson?
    requires WellTyped(c, t)
    ensures Unbarred(t) && Routed(c)
  {
  }

  lemma {:induction false} Prefix(c: Col, d: Col, t: Ty, more: seq<byte>, rest: seq<byte>)
    requires Written(c, t) && Written(d, t) && RowCount(c) == RowCount(d) && Encode(c) + more == Encode(d) + rest
    ensures Normal(c) == Normal(d) && more == rest
    decreases c, 2
  {
    hide *;
    match t
    case Bad(_) => NothingBad(c, t);
    case TNullable(_) => NullablePrefix(c, d, t, more, rest);
    case TArray(_) => ArrayPrefix(c, d, t, more, rest);
    case TMap(_, _) => MapPrefix(c, d, t, more, rest);
    case TTuple(_) => TuplePrefix(c, d, t, more, rest);
    case TNested(_, _) => NestedPrefix(c, d, t, more, rest);
    case TLowCardinality(_) => LowCardinalityPrefix(c, d, t, more, rest);
    case TVariant(_, _) => VariantPrefix(c, d, t, more, rest);
    case TDynamic => DynamicPrefix(c, d, more, rest);
    case _ => LeafPrefix(c, d, t, more, rest);
  }

  lemma NothingBad(c: Col, t: Ty)
    requires t.Bad?
    ensures !Written(c, t)
  {
  }

  lemma NullablePrefix(c: Col, d: Col, t: Ty, more: seq<byte>, rest: seq<byte>)
    requires t.TNullable? && Written(c, t) && Written(d, t)
    requires RowCount(c) == RowCount(d) && Encode(c) + more == Encode(d) + rest
    ensures Normal(c) == Normal(d) && more == rest
    decreases c, 1
  {
    Associate(c.nulls, Encode(c.inner), more);
    Associate(d.nulls, Encode(d.inner), rest);
    TakeAppend(c.nulls, Encode(c.inner) + more);
    TakeAppend(d.nulls, Encode(d.inner) + rest);
    Prefix(c.inner, d.inner, t.t, more, rest);
  }

  lemma ArrayPrefix(c: Col, d: Col, t: Ty, more: seq<byte>, rest: seq<byte>)
    requires t.TArray? && Written(c, t) && Written(d, t)
    requires RowCount(c) == RowCount(d) && Encode(c) + more == Encode(d) + rest
    ensures Normal(c) == Normal(d) && more == rest
    decreases c, 1
  {
    hide LEs, Pow256, Monotone;
    Pow256Values();
    Associate(LEs(8, c.offsets), Encode(c.items), more);
    Associate(LEs(8, d.offsets), Encode(d.items), rest);
    LEsPrefix(8, c.offsets, d.offsets, Encode(c.items) + more, Encode(d.items) + rest);
    Prefix(c.items, d.items, t.t, more, rest);
  }

  lemma MapPrefix(c: Col, d: Col, t: Ty, more: seq<byte>, rest: seq<byte>)
    requires t.TMap? && Written(c, t) && Written(d, t)
    requires RowCount(c) == RowCount(d) && Encode(c) + more == Encode(d) + rest
    ensures Normal(c) == Normal(d) && more == rest
    decreases c, 1
  {
    hide LEs, Pow256, Monotone, Encode, Normal;
    Pow256Values();
    MapParts(c.keys, c.values, c.offsets);
    MapParts(d.keys, d.values, d.offsets);
    var cs, ds := Encode(c.values) + more, Encode(d.values) + rest;
    assert Encode(c) + more == LEs(8, c.offsets) + (Encode(c.keys) + cs);
    assert Encode(d) + rest == LEs(8, d.offsets) + (Encode(d.keys) + ds);
    LEsPrefix(8, c.offsets, d.offsets, Encode(c.keys) + cs, Encode(d.keys) + ds);
    Prefix(c.keys, d.keys, t.k, cs, ds);
    Prefix(c.values, d.values, t.v, more, rest);
  }

  lemma TuplePrefix(c: Col, d: Col, t: Ty, more: seq<byte>, rest: seq<byte>)
    requires t.TTuple? && Written(c, t) && Written(d, t)
    requires RowCount(c) == RowCount(d) && Encode(c) + more == Encode(d) + rest
    ensures Normal(c) == Normal(d) && more == rest
    decreases c, 1
  {
    PrefixEach(c.elems, d.elems, t.ts, more, rest);
  }

  lemma NestedPrefix(c: Col, d: Col, t: Ty, more: seq<byte>, rest: seq<byte>)
    requires t.TNested? && Written(c, t) && Written(d, t)
    requires RowCount(c) == RowCount(d) && Encode(c) + more == Encode(d) + rest
    ensures Normal(c) == Normal(d) && more == rest
    decreases c, 1
  {
    hide LEs, Pow256, Monotone;
    Pow256Values();
    Associate(LEs(8, c.offsets), EncodeEach(c.fields), more);
    Associate(LEs(8, d.offsets), EncodeEach(d.fields), rest);
    LEsPrefix(8, c.offsets, d.offsets, EncodeEach(c.fields) + more, EncodeEach(d.fields) + rest);
    PrefixEach(c.fields, d.fields, t.ts, more, rest);
  }

  /** Without rows nothing is written, and all that is left is the type's. */
  lemma NoRowsPrefix(c: Col, d: Col, t: Ty, more: seq<byte>, rest: seq<byte>)
    requires t.TLowCardinality? || t.TVariant? || t.TDynamic?
    requires WellTyped(c, t) && WellTyped(d, t) && RowCount(c) == 0 == RowCount(d)
    requires Encode(c) + more == Encode(d) + rest
    ensures Normal(c) == Normal(d) && more == rest
  {
    hide *;
    NoRowsShape(c, t);
    NoRowsShape(d, t);
    EmptiedSame(c, d, t);
    assert [] + more == more && [] + rest == rest;
  }

  lemma NoRowsShape(c: Col, t: Ty)
    requires t.TLowCardinality? || t.TVariant? || t.TDynamic?
    requires WellTyped(c, t) && RowCount(c) == 0
    ensures Encode(c) == [] && Normal(c) == Emptied(c)
  {
    hide TypeOf, RustString, Slots, Emptied, Pow256, LE, LEs, EncodeStrings, EncodeEach;
  }

  lemma LowCardinalityPrefix(c: Col, d: Col, t: Ty, more: seq<byte>, rest: seq<byte>)
    requires t.TLowCardinality? && Written(c, t) && Written(d, t)
    requires RowCount(c) == RowCount(d) && Encode(c) + more == Encode(d) + rest
    ensures Normal(c) == Normal(d) && more == rest
    decreases c, 1
  {
    hide LE, LEs, Pow256, Valid, Encode, Normal, RowCount, Fits, KeyMetadata;
    DictionaryShape(c, t);
    DictionaryShape(d, t);
    if c.refs == [] {
      NoRowsPrefix(c, d, t, more, rest);
    } else {
      Pow256Values();
      LowCardinalityParts(c.dict, c.refs, c.keyWidth);
      LowCardinalityParts(d.dict, d.refs, d.keyWidth);
      KeyMetadataReads(c.keyWidth);
      KeyMetadataReads(d.keyWidth);
      var c5, d5 := LEs(c.keyWidth, c.refs) + more, LEs(d.keyWidth, d.refs) + rest;
      var c4, d4 := LE(8, |c.refs|) + c5, LE(8, |d.refs|) + d5;
      var c3, d3 := Encode(c.dict) + c4, Encode(d.dict) + d4;
      var c2, d2 := LE(8, RowCount(c.dict)) + c3, LE(8, RowCount(d.dict)) + d3;
      var c1, d1 := LE(8, KeyMetadata(c.keyWidth)) + c2, LE(8, KeyMetadata(d.keyWidth)) + d2;
      assert Encode(c) + more == LE(8, 1) + c1 && Encode(d) + rest == LE(8, 1) + d1;
      LEPrefix(8, 1, 1, c1, d1);
      LEPrefix(8, KeyMetadata(c.keyWidth), KeyMetadata(d.keyWidth), c2, d2);
      LEPrefix(8, RowCount(c.dict), RowCount(d.dict), c3, d3);
      Prefix(c.dict, d.dict, t.t, c4, d4);
      LEPrefix(8, |c.refs|, |d.refs|, c5, d5);
      LEsPrefix(c.keyWidth, c.refs, d.refs, more, rest);
    }
  }

  lemma DictionaryShape(c: Col, t: Ty)
    requires t.TLowCardinality? && Written(c, t)
    ensures c.LowCardinality? && RowCount(c) == |c.refs| && Valid(c) && WellTyped(c, t)
    ensures RowCount(c.dict) < U64_BOUND && |c.refs| < U64_BOUND
    ensures c.refs != [] ==> Written(c.dict, t.t)
  {
    hide Pow256;
  }

  lemma VariantPrefix(c: Col, d: Col, t: Ty, more: seq<byte>, rest: seq<byte>)
    requires t.TVariant? && Written(c, t) && Written(d, t)
    requires RowCount(c) == RowCount(d) && Encode(c) + more == Encode(d) + rest
    ensures Normal(c) == Normal(d) && more == rest
    decreases c, 1
  {
    hide LE, LEs, Pow256, Slots, CountOf;
    if c.discriminators == [] {
      NoRowsPrefix(c, d, t, more, rest);
    } else {
      Pow256Values();
      var c2, d2 := EncodeEach(c.columns) + more, EncodeEach(d.columns) + rest;
      var c1, d1 := LEs(1, c.discriminators) + c2, LEs(1, d.discriminators) + d2;
      assert Encode(c) + more == LE(8, 0) + c1 && Encode(d) + rest == LE(8, 0) + d1;
      LEPrefix(8, 0, 0, c1, d1);
      LEsPrefix(1, c.discriminators, d.discriminators, c2, d2);
      PrefixEach(c.columns, d.columns, t.ts, more, rest);
    }
  }

  lemma DynamicPrefix(c: Col, d: Col, more: seq<byte>, rest: seq<byte>)
    requires Written(c, TDynamic) && Written(d, TDynamic)
    requires RowCount(c) == RowCount(d) && Encode(c) + more == Encode(d) + rest
    ensures Normal(c) == Normal(d) && more == rest
    decreases c, 1
  {
    hide LE, LEs, Leb, Pow256, Slots, CountOf, EncodeStrings, AllRustStrings, AllStringsFit, TypeOf, ParseVarUInt;
    hide Encode, Normal, Valid, Fits, WellTyped, RowCount, DiscriminatorWidth;
    DynamicShape(c);
    DynamicShape(d);
    if c.discriminators == [] {
      NoRowsPrefix(c, d, TDynamic, more, rest);
    } else {
      Pow256Values();
      var n, m := |c.typeNames|, |d.typeNames|;
      var c4, d4 := EncodeEach(c.columns) + more, EncodeEach(d.columns) + rest;
      var c3 := LEs(DiscriminatorWidth(n), c.discriminators) + c4;
      var d3 := LEs(DiscriminatorWidth(m), d.discriminators) + d4;
      var c2, d2 := EncodeStrings(c.typeNames) + c3, EncodeStrings(d.typeNames) + d3;
      var c1, d1 := Leb(n) + c2, Leb(m) + d2;
      assert Encode(c) + more == LE(8, 3) + c1 && Encode(d) + rest == LE(8, 3) + d1;
      LEPrefix(8, 3, 3, c1, d1);
      ParseVarUIntAppend(n, c2);
      ParseVarUIntAppend(m, d2);
      StringsPrefix(c.typeNames, d.typeNames, c3, d3);
      NullSlotFits(n);
      LEsPrefix(DiscriminatorWidth(n), c.discriminators, d.discriminators, c4, d4);
      PrefixEach(c.columns, d.columns, RuntimeTypes(c.typeNames), more, rest);
    }
  }

  lemma DynamicShape(c: Col)
    requires Written(c, TDynamic)
    ensures c.Dynamic? && WellTyped(c, TDynamic) && RowCount(c) == |c.discriminators|
    ensures |c.typeNames| == |c.columns| < U64_BOUND && AllRustStrings(c.typeNames)
    ensures forall i :: 0 <= i < |c.discriminators| ==> c.discriminators[i] <= |c.columns|
    ensures CountsMatch(c.discriminators, c.columns)
    ensures c.discriminators != [] ==>
              && AllStringsFit(c.typeNames) && WrittenEach(c.columns, RuntimeTypes(c.typeNames))
              && Normal(c) == Dynamic(c.typeNames, c.discriminators, Slots(c.discriminators, |c.columns|),
                                      NormalEach(c.columns))
              && Encode(c) == LE(8, 3) + (Leb(|c.typeNames|) + (EncodeStrings(c.typeNames)
                   + (LEs(DiscriminatorWidth(|c.typeNames|), c.discriminators) + EncodeEach(c.columns))))
  {
    hide LE, LEs, Leb, Slots, CountOf, EncodeStrings, AllRustStrings, AllStringsFit, TypeOf, DiscriminatorWidth;
  }

  lemma {:induction false} PrefixEach(cs: seq<Col>, ds: seq<Col>, ts: seq<Ty>, more: seq<byte>, rest: seq<byte>)
    requires WrittenEach(cs, ts) && WrittenEach(ds, ts) && SameRows(cs, ds)
    requires EncodeEach(cs) + more == EncodeEach(ds) + rest
    ensures NormalEach(cs) == NormalEach(ds) && more == rest
    decreases cs, 0
  {
    hide Encode, Normal, Written, RowCount;
    if ts == [] {
      assert [] + more == more && [] + rest == rest;
    } else {
      Associate(Encode(cs[0]), EncodeEach(cs[1..]), more);
      Associate(Encode(ds[0]), EncodeEach(ds[1..]), rest);
      Prefix(cs[0], ds[0], ts[0], EncodeEach(cs[1..]) + more, EncodeEach(ds[1..]) + rest);
      PrefixEach(cs[1..], ds[1..], ts[1..], more, rest);
      NormalCons(cs);
      NormalCons(ds);
    }
  }

  lemma NormalCons(cols: seq<Col>)
    requires cols != []
    ensures NormalEach(cols) == [Normal(cols[0])] + NormalEach(cols[1..])
  {
    hide Normal;
  }

  /** From joined bytes the column, in its normal form, and the place where it
      ends are determined; a canonical column is determined itself. */
  lemma EncodingsArePrefixFree(c: Col, d: Col, t: Ty, more: seq<byte>, rest: seq<byte>)
    requires Written(c, t) && Written(d, t)
    requires RowCount(c) == RowCount(d) && Encode(c) + more == Encode(d) + rest
    ensures Normal(c) == Normal(d) && more == rest
    ensures Canonical(c) && Canonical(d) ==> c == d
  {
    hide *;
    Prefix(c, d, t, more, rest);
    CanonicalIsNormal(c);
    CanonicalIsNormal(d);
  }
}
