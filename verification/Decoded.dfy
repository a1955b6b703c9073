/** Every successful decode, whatever the bytes, gives a column the encoder
    accepts, but for three checks the decoder leaves out. */
module Decoded {
  import opened Base
  import opened Wire
  import opened ByteIO
  import opened Column
  import opened TypeString
  import opened TypeTree
  import opened Codec
  import opened CodecRoundTrip
  import opened CodecSound

  // ---- The theorem ------------------------------------------------------------------------

  /** Whatever the bytes, a decoded column has values of the declared widths and
      counts within bounds; and it is what the encoder accepts, with the row
      count asked for, exactly when the three omitted checks hold of it. In that
      case it would survive another encoding unchanged. */
  lemma {:induction false} DecodedIsSound(t: Ty, rows: nat, s: seq<byte>)
    ensures var r := DecodeTree(t, rows, s); r.Ok? ==> Sound(r.value.0, t, rows)
    decreases Rank(t), t, 1
  {
    hide Sound, TypeOf, Stateful, Pow256, ParseLE, ParseLEs, ParseStrings, ParseOffsets, ParseDiscriminators, Slots;
    hide Counts, AnyStateful, DecodeTree;
    match t
    case Bad(_) => BadFails(t, rows, s);
    case TFixed(n) => FixedSound(n, rows, s);
    case TNullable(_) => NullableDecoded(t, rows, s);
    case TArray(_) => ArrayDecoded(t, rows, s);
    case TMap(_, _) => MapDecoded(t, rows, s);
    case TTuple(_) => TupleDecoded(t, rows, s);
    case TNested(_, _) => NestedDecoded(t, rows, s);
    case TLowCardinality(_) => LowCardinalityDecoded(t, rows, s);
    case TVariant(_, _) => VariantDecoded(t, rows, s);
    case TDynamic => DynamicDecoded(rows, s);
    case _ => LeafSound(t, rows, s);
  }

  lemma BadFails(t: Ty, rows: nat, s: seq<byte>)
    requires t.Bad?
    ensures DecodeTree(t, rows, s).Err?
  {
  }

  lemma NullableDecoded(t: Ty, rows: nat, s: seq<byte>)
    requires t.TNullable?
    ensures var r := DecodeTree(t, rows, s); r.Ok? ==> Sound(r.value.0, t, rows)
    decreases Rank(t), t, 0
  {
    hide Sound;
    match Take(rows, s)
    case Err(_) =>
    case Ok((nulls, s1)) =>
      DecodedIsSound(t.t, rows, s1);
      match DecodeTree(t.t, rows, s1)
      case Err(_) =>
      case Ok((inner, _)) => NullableSound(inner, nulls, t.t, rows);
  }

  lemma ArrayDecoded(t: Ty, rows: nat, s: seq<byte>)
    requires t.TArray?
    ensures var r := DecodeTree(t, rows, s); r.Ok? ==> Sound(r.value.0, t, rows)
    decreases Rank(t), t, 0
  {
    hide Sound, ParseOffsets;
    ParseOffsetsBound(rows, s);
    match ParseOffsets(rows, s)
    case Err(_) =>
    case Ok((offsets, s1)) =>
      DecodedIsSound(t.t, Last(offsets), s1);
      match DecodeTree(t.t, Last(offsets), s1)
      case Err(_) =>
      case Ok((items, _)) => ArraySound(items, offsets, t.t);
  }

  lemma MapDecoded(t: Ty, rows: nat, s: seq<byte>)
    requires t.TMap?
    ensures var r := DecodeTree(t, rows, s); r.Ok? ==> Sound(r.value.0, t, rows)
    decreases Rank(t), t, 0
  {
    hide Sound, ParseOffsets;
    ParseOffsetsBound(rows, s);
    match ParseOffsets(rows, s)
    case Err(_) =>
    case Ok((offsets, s1)) =>
      DecodedIsSound(t.k, Last(offsets), s1);
      match DecodeTree(t.k, Last(offsets), s1)
      case Err(_) =>
      case Ok((keys, s2)) =>
        DecodedIsSound(t.v, Last(offsets), s2);
        match DecodeTree(t.v, Last(offsets), s2)
        case Err(_) =>
        case Ok((values, _)) => MapSound(keys, values, offsets, t.k, t.v);
  }

  lemma TupleDecoded(t: Ty, rows: nat, s: seq<byte>)
    requires t.TTuple?
    ensures var r := DecodeTree(t, rows, s); r.Ok? ==> Sound(r.value.0, t, rows)
    decreases Rank(t), t, 0
  {
    hide Sound, DecodeEach;
    if t.ts == [] {
      NoneSound();
      TupleSound([], t.ts, rows);
    } else {
      EachDecoded(t.ts, Same(|t.ts|, rows), s);
      match DecodeEach(t.ts, Same(|t.ts|, rows), s, [])
      case Err(_) =>
      case Ok((elems, _)) => TupleSound(elems, t.ts, rows);
    }
  }

  lemma NoneSound()
    ensures SoundEach([], [], [])
  {
  }

  lemma NestedDecoded(t: Ty, rows: nat, s: seq<byte>)
    requires t.TNested?
    ensures var r := DecodeTree(t, rows, s); r.Ok? ==> Sound(r.value.0, t, rows)
    decreases Rank(t), t, 0
  {
    hide Sound, SoundEach, DecodeEach, ParseOffsets;
    ParseOffsetsBound(rows, s);
    match ParseOffsets(rows, s)
    case Err(_) =>
    case Ok((offsets, s1)) =>
      EachDecoded(t.ts, Same(|t.ts|, Last(offsets)), s1);
      match DecodeEach(t.ts, Same(|t.ts|, Last(offsets)), s1, [])
      case Err(_) =>
      case Ok((fields, _)) => NestedSound(t.names, fields, offsets, t.ts);
  }

  lemma LowCardinalityDecoded(t: Ty, rows: nat, s: seq<byte>)
    requires t.TLowCardinality?
    ensures var r := DecodeTree(t, rows, s); r.Ok? ==> Sound(r.value.0, t, rows)
    decreases Rank(t), t, 0
  {
    hide Sound, ParseLE, ParseLEs, Pow256, PlainType;
    if rows == 0 {
      DecodedIsSound(t.t, 0, s);
      match DecodeTree(t.t, 0, s)
      case Err(_) =>
      case Ok((dict, _)) => LowCardinalitySound(dict, [], 1, t.t, 0, 0);
    } else if DecodeTree(t, rows, s).Ok? {
      var s1 := ParseLE(8, s).value.1;
      var (metadata, s2) := ParseLE(8, s1).value;
      var keyWidth := WidthOfKeyCode(metadata % 256).value;
      var (size, s3) := ParseLE(8, s2).value;
      DecodedIsSound(t.t, size, s3);
      var (dict, s4) := DecodeTree(t.t, size, s3).value;
      var (count, s5) := ParseLE(8, s4).value;
      ParseLEsBound(keyWidth, count, [], s5);
      LowCardinalitySound(dict, ParseLEs(keyWidth, count, [], s5).value.0, keyWidth, t.t, size, rows);
    }
  }

  lemma VariantDecoded(t: Ty, rows: nat, s: seq<byte>)
    requires t.TVariant?
    ensures var r := DecodeTree(t, rows, s); r.Ok? ==> Sound(r.value.0, t, rows)
    decreases Rank(t), t, 0
  {
    hide Sound, SoundEach, DecodeEach, ParseDiscriminators, ParseLE, Pow256, Slots, Counts;
    var n := |t.ts|;
    if rows == 0 {
      NothingCounted([], NULL_DISCRIMINATOR, n);
      NoSlots(NULL_DISCRIMINATOR);
      EachDecoded(t.ts, Same(n, 0), s);
      match DecodeEach(t.ts, Same(n, 0), s, [])
      case Err(_) =>
      case Ok((columns, _)) => VariantSound([], columns, t.ts);
    } else if DecodeTree(t, rows, s).Ok? {
      var s1 := ParseLE(8, s).value.1;
      Pow256Values();
      ParseDiscriminatorsBound(1, rows, NULL_DISCRIMINATOR, n, [], s1);
      var (ds, s2) := ParseDiscriminators(1, rows, NULL_DISCRIMINATOR, n, [], s1).value;
      EachDecoded(t.ts, Counts(ds, NULL_DISCRIMINATOR, n), s2);
      VariantSound(ds, DecodeEach(t.ts, Counts(ds, NULL_DISCRIMINATOR, n), s2, []).value.0, t.ts);
    }
  }

  lemma EmptyDynamicSound()
    ensures Sound(Dynamic([], [], [], []), TDynamic, 0)
  {
    hide TypeOf;
    NoSlots(0);
  }

  lemma DynamicDecoded(rows: nat, s: seq<byte>)
    ensures var r := DecodeTree(TDynamic, rows, s); r.Ok? ==> Sound(r.value.0, TDynamic, rows)
    decreases Rank(TDynamic), TDynamic, 0
  {
    hide Sound, SoundEach, DecodeEach, ParseDiscriminators, ParseLE, ParseVarUInt, ParseStrings, Pow256, Slots;
    hide Counts, AnyStateful, RuntimeTypes, AllRustStrings, AllStringsFit, DiscriminatorWidth;
    if rows == 0 {
      EmptyDynamicSound();
    } else if DecodeTree(TDynamic, rows, s).Ok? {
      var s1 := ParseLE(8, s).value.1;
      var (num, s2) := ParseVarUInt(s1).value;
      ParseVarUIntBound(s1);
      NoStrings();
      ParseStringsBound(num, [], s2);
      var (names, s3) := ParseStrings(num, [], s2).value;
      RuntimeStateless(names);
      var n, ts := |names|, RuntimeTypes(names);
      ParseDiscriminatorsBound(DiscriminatorWidth(n), rows, n, n, [], s3);
      var (ds, s4) := ParseDiscriminators(DiscriminatorWidth(n), rows, n, n, [], s3).value;
      EachDecoded(ts, Counts(ds, n, n), s4);
      DynamicSound(names, ds, DecodeEach(ts, Counts(ds, n, n), s4, []).value.0);
    }
  }

  lemma NoStrings()
    ensures AllRustStrings([]) && AllStringsFit([])
  {
  }

  lemma EachDecoded(ts: seq<Ty>, counts: seq<nat>, s: seq<byte>)
    requires |counts| == |ts|
    ensures var r := DecodeEach(ts, counts, s, []); r.Ok? ==> SoundEach(r.value.0, ts, counts)
    decreases RankAll(ts), ts, 1
  {
    hide DecodeEach, SoundEach;
    NoneSound();
    EachDecodedFrom(ts, counts, s, [], [], []);
    assert [] + ts == ts && [] + counts == counts;
  }

  lemma {:induction false} EachDecodedFrom(ts: seq<Ty>, counts: seq<nat>, s: seq<byte>, cols: seq<Col>,
      doneTs: seq<Ty>, doneCounts: seq<nat>)
    requires |counts| == |ts|
    requires SoundEach(cols, doneTs, doneCounts)
    ensures var r := DecodeEach(ts, counts, s, cols); r.Ok? ==> SoundEach(r.value.0, doneTs + ts, doneCounts + counts)
    decreases RankAll(ts), ts, 0
  {
    hide DecodeTree, Sound;
    if ts == [] {
      assert doneTs + ts == doneTs && doneCounts + counts == doneCounts;
    } else {
      DecodedIsSound(ts[0], counts[0], s);
      match DecodeTree(ts[0], counts[0], s)
      case Err(_) =>
      case Ok((c, rest)) =>
        EachDecodedFrom(ts[1..], counts[1..], rest, cols + [c], doneTs + [ts[0]], doneCounts + [counts[0]]);
        assert doneTs + [ts[0]] + ts[1..] == doneTs + ts;
        assert doneCounts + [counts[0]] + counts[1..] == doneCounts + counts;
    }
  }

  // ---- Consequences ------------------------------------------------------------------

  /** Every successful decode at a plain type gives a column that `validate`
      accepts at every level, with the row count asked for. */
  lemma DecodedIsValid(t: Ty, rows: nat, s: seq<byte>, c: Col, rest: seq<byte>)
    requires PlainType(t) && DecodeTree(t, rows, s) == Ok((c, rest)) && PlainRuntime(c)
    ensures Valid(c) && RowCount(c) == rows && WellTyped(c, t)
  {
    hide DecodeTree, PlainType, Guarded, Valid, RowCount, WellTyped, PlainRuntime, Fits, Canonical, Bare;
    DecodedIsSound(t, rows, s);
    PlainGuarded(c, t, rows);
  }

  /** For a dictionary column the two checks the decoder leaves out are exactly
      what is missing. */
  lemma LowCardinalityExactly(u: Ty, rows: nat, s: seq<byte>, c: Col, rest: seq<byte>)
    requires PlainType(u) && DecodeTree(TLowCardinality(u), rows, s) == Ok((c, rest)) && PlainRuntime(c)
    ensures c.LowCardinality?
    ensures Valid(c) && RowCount(c) == rows
       <==> |c.refs| == rows && forall i :: 0 <= i < |c.refs| ==> c.refs[i] < RowCount(c.dict)
  {
    hide DecodeTree, PlainType, Valid, Fits, Routed, Canonical, Bare, RowCount, Even;
    DecodedIsSound(TLowCardinality(u), rows, s);
    var size, s3, after := DictionaryBytes(u, rows, s, c, rest);
    DecodedIsSound(u, size, s3);
    DecodedIsValid(u, size, s3, c.dict, after);
  }

  lemma DictionaryBytes(u: Ty, rows: nat, s: seq<byte>, c: Col, rest: seq<byte>)
    returns (size: nat, s3: seq<byte>, after: seq<byte>)
    requires DecodeTree(TLowCardinality(u), rows, s) == Ok((c, rest)) && c.LowCardinality?
    ensures DecodeTree(u, size, s3) == Ok((c.dict, after))
  {
    hide ParseLE, ParseLEs;
    if rows == 0 {
      size, s3, after := 0, s, rest;
    } else {
      var s1 := ParseLE(8, s).value.1;
      var s2 := ParseLE(8, s1).value.1;
      var (n, s4) := ParseLE(8, s2).value;
      size, s3, after := n, s4, DecodeTree(u, n, s4).value.1;
    }
  }

  lemma EmptyTupleExactly(rows: nat, s: seq<byte>, c: Col, rest: seq<byte>)
    requires DecodeTree(TTuple([]), rows, s) == Ok((c, rest))
    ensures RowCount(c) == rows <==> rows == 0
  {
  }

  lemma FixedStringExactly(n: nat, rows: nat, s: seq<byte>, c: Col, rest: seq<byte>)
    requires DecodeTree(TFixed(n), rows, s) == Ok((c, rest))
    ensures Valid(c) && RowCount(c) == rows <==> n > 0
  {
    hide Pow256;
    FixedSound(n, rows, s);
  }

  /** Decoding, encoding and decoding again changes nothing, whatever spelling
      the first bytes used. */
  lemma DecodeIsStable(t: Ty, rows: nat, s: seq<byte>, c: Col, after: seq<byte>, rest: seq<byte>)
    requires DecodeTree(t, rows, s) == Ok((c, after)) && Guarded(c, rows)
    ensures DecodeTree(t, rows, Encode(c) + rest) == Ok((c, rest))
  {
    hide DecodeTree, Encode, Guarded, Valid, RowCount, WellTyped, Fits, Routed, Unbarred, Canonical, Bare, Own;
    DecodedIsSound(t, rows, s);
    if !Unbarred(t) { BarredFails(t, rows, s); }
    RoundTripIff(c, t, rest);
  }

  // ---- Each omitted check is needed ----------------------------------------------------

  /** One row of `Array(Tuple())` holding one empty tuple. */
  lemma ArrayOfEmptyTuple()
    ensures DecodeTree(TArray(TTuple([])), 1, LEs(8, [1]) + [0x30]) == Ok((Array(Tuple([]), [1]), []))
    ensures !Valid(Array(Tuple([]), [1]))
  {
    hide LEs, ParseOffsets;
    ParseOffsetsAppend([1], [0x30]);
    assert Last([1]) == 1 && [0x30][1..] == [];
    EmptyTupleRows();
  }

  /** A FixedString(0) column is accepted for any number of rows. */
  lemma FixedStringZero(rows: nat, s: seq<byte>)
    ensures DecodeTree(TFixed(0), rows, s) == Ok((FixedStr(0, []), s)) && !Valid(FixedStr(0, []))
  {
    assert s[0..] == s && s[..0] == [];
  }

  /** One row whose key points past an empty dictionary. */
  lemma DanglingKey()
    ensures var s := LE(8, 1) + (LE(8, 0) + (LE(8, 0) + (LE(8, 1) + LEs(1, [5]))));
            var c := LowCardinality(Scalar(UInt8, []), [5], 1);
            DecodeTree(TLowCardinality(TScalar(UInt8)), 1, s) == Ok((c, [])) && !Valid(c)
  {
    hide LE, LEs, ParseLE, Pow256;
    Pow256Values();
    var keys := LEs(1, [5]);
    ParseLEAppend(8, 1, LE(8, 0) + (LE(8, 0) + (LE(8, 1) + keys)));
    ParseLEAppend(8, 0, LE(8, 0) + (LE(8, 1) + keys));
    ParseLEAppend(8, 0, LE(8, 1) + keys);
    ParseLEAppend(8, 1, keys);
    ParseLEsAppend(1, [5], [], []);
    assert keys + [] == keys && [] + [5] == [5];
    var c := LowCardinality(Scalar(UInt8, []), [5], 1);
    assert c.refs[0] == 5 && RowCount(c.dict) == 0;
  }
}
