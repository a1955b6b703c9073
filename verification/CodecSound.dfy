/** What a successful decode establishes at each type: the invariant the encoder
    checks, values of the declared widths, and a column that would come back
    unchanged if it were encoded again. */
module CodecSound {
  import opened Base
  import opened Wire
  import opened ByteIO
  import opened Column
  import opened TypeTree
  import opened Codec
  import opened CodecRoundTrip

  /** No LowCardinality, no empty tuple, no FixedString(0). */
  predicate PlainType(t: Ty) {
    match t
    case TFixed(n) => n > 0
    case TLowCardinality(_) => false
    case TNullable(u) => PlainType(u)
    case TArray(u) => PlainType(u)
    case TTuple(ts) => ts != [] && forall i :: 0 <= i < |ts| ==> PlainType(ts[i])
    case TMap(k, v) => PlainType(k) && PlainType(v)
    case TNested(_, ts) => forall i :: 0 <= i < |ts| ==> PlainType(ts[i])
    case TVariant(ts, _) => forall i :: 0 <= i < |ts| ==> PlainType(ts[i])
    case _ => true
  }

  /** The same of the types that only the bytes of a Dynamic column name. */
  predicate PlainRuntime(c: Col) {
    match c
    case Nullable(inner, _) => PlainRuntime(inner)
    case Array(items, _) => PlainRuntime(items)
    case Tuple(elems) => forall i :: 0 <= i < |elems| ==> PlainRuntime(elems[i])
    case Map(keys, values, _) => PlainRuntime(keys) && PlainRuntime(values)
    case Nested(_, fields, _) => forall i :: 0 <= i < |fields| ==> PlainRuntime(fields[i])
    case LowCardinality(dict, _, _) => PlainRuntime(dict)
    case Variant(_, _, columns) => forall i :: 0 <= i < |columns| ==> PlainRuntime(columns[i])
    case Dynamic(names, _, _, columns) =>
      && (forall i :: 0 <= i < |names| ==> PlainType(TypeOf(names[i])))
      && (forall i :: 0 <= i < |columns| ==> PlainRuntime(columns[i]))
    case _ => true
  }

  /** The elements of a tuple agree in their row counts, at every depth of tuples. */
  predicate Even(c: Col) {
    c.Tuple? ==> forall i :: 0 <= i < |c.elems| ==> RowCount(c.elems[i]) == RowCount(c) && Even(c.elems[i])
  }

  /** The three checks the decoder leaves out, each at the row count its place
      in the tree calls for: an empty tuple stands for no rows, fixed strings
      have a size, and a LowCardinality has one key a row, each naming an entry
      of a dictionary that is itself even. */
  predicate Guarded(c: Col, rows: nat)
    decreases c
  {
    match c
    case FixedStr(n, _) => n > 0
    case Nullable(inner, _) => Guarded(inner, rows)
    case Array(items, offsets) => Guarded(items, Last(offsets))
    case Tuple(elems) => (elems == [] ==> rows == 0) && forall i :: 0 <= i < |elems| ==> Guarded(elems[i], rows)
    case Map(keys, values, offsets) => Guarded(keys, Last(offsets)) && Guarded(values, Last(offsets))
    case Nested(_, fields, offsets) => forall i :: 0 <= i < |fields| ==> Guarded(fields[i], Last(offsets))
    case LowCardinality(dict, refs, _) =>
      && |refs| == rows && (forall i :: 0 <= i < |refs| ==> refs[i] < RowCount(dict))
      && Even(dict) && Guarded(dict, RowCount(dict))
    case Variant(ds, _, columns) =>
      forall i :: 0 <= i < |columns| ==> Guarded(columns[i], Counts(ds, NULL_DISCRIMINATOR, |columns|)[i])
    case Dynamic(_, ds, _, columns) =>
      forall i :: 0 <= i < |columns| ==> Guarded(columns[i], Counts(ds, |columns|, |columns|)[i])
    case _ => true
  }

  lemma {:induction false} PlainGuarded(c: Col, t: Ty, rows: nat)
    requires PlainType(t) && WellTyped(c, t) && PlainRuntime(c)
    ensures Guarded(c, rows)
    decreases c
  {
    hide TypeOf, AnyStateful, AllRustStrings, CountOf, Pow256;
    match t
    case TNullable(u) => PlainGuarded(c.inner, u, rows);
    case TArray(u) => PlainGuarded(c.items, u, Last(c.offsets));
    case TMap(k, v) =>
      PlainGuarded(c.keys, k, Last(c.offsets));
      PlainGuarded(c.values, v, Last(c.offsets));
    case TTuple(ts) => PlainEach(c.elems, ts, Same(|ts|, rows));
    case TNested(_, ts) => PlainEach(c.fields, ts, Same(|ts|, Last(c.offsets)));
    case TVariant(ts, _) => PlainEach(c.columns, ts, Counts(c.discriminators, NULL_DISCRIMINATOR, |ts|));
    case TDynamic =>
      var n := |c.columns|;
      PlainEach(c.columns, RuntimeTypes(c.typeNames), Counts(c.discriminators, n, n));
    case _ =>
  }

  lemma {:induction false} PlainEach(cols: seq<Col>, ts: seq<Ty>, counts: seq<nat>)
    requires |cols| == |ts| == |counts|
    requires forall i :: 0 <= i < |ts| ==> PlainType(ts[i]) && WellTyped(cols[i], ts[i]) && PlainRuntime(cols[i])
    ensures forall i :: 0 <= i < |ts| ==> Guarded(cols[i], counts[i])
    decreases cols
  {
    hide PlainType, WellTyped, Guarded, PlainRuntime;
    forall i | 0 <= i < |ts| ensures Guarded(cols[i], counts[i]) {
      PlainGuarded(cols[i], ts[i], counts[i]);
    }
  }

  // ---- Pieces of the format ---------------------------------------------------------

  lemma ParseOffsetsBound(rows: nat, s: seq<byte>)
    ensures var r := ParseOffsets(rows, s);
            r.Ok? ==>
              var offsets := r.value.0;
              |offsets| == rows && Monotone(offsets) && AllBelow(offsets, U64_BOUND) && Last(offsets) <= MAX_WIRE_COUNT
  {
    hide ParseLEs;
    Pow256Values();
    ParseLEsBound(8, rows, [], s);
  }

  lemma {:induction false} ParseDiscriminatorsBound(width: nat, n: nat, nil: nat, numTypes: nat, ds: seq<nat>,
      s: seq<byte>)
    requires DiscriminatorsOk(ds, nil, numTypes) && AllBelow(ds, Pow256(width))
    ensures var r := ParseDiscriminators(width, n, nil, numTypes, ds, s);
            r.Ok? ==>
              && |r.value.0| == |ds| + n && DiscriminatorsOk(r.value.0, nil, numTypes)
              && AllBelow(r.value.0, Pow256(width))
  {
    hide Pow256, ParseLE;
    if n > 0 {
      ParseLEBound(width, s);
      match ParseLE(width, s)
      case Ok((d, rest)) =>
        if d == nil || d < numTypes { ParseDiscriminatorsBound(width, n - 1, nil, numTypes, ds + [d], rest); }
      case Err(_) =>
    }
  }

  // ---- One case per type ---------------------------------------------------------------

  /** What is true of a column decoded at type `t` for `rows` rows. */
  ghost predicate Sound(c: Col, t: Ty, rows: nat) {
    Asked(c, t, rows) && Own(c, rows)
  }

  ghost predicate Asked(c: Col, t: Ty, rows: nat) {
    && WellTyped(c, t) && Fits(c) && Routed(c) && (Guarded(c, rows) ==> Canonical(c))
    && (rows == 0 ==> Bare(c))
    && (Valid(c) && RowCount(c) == rows <==> Guarded(c, rows))
  }

  /** The same at the column's own row count, which is what a dictionary goes by. */
  ghost predicate Own(c: Col, rows: nat) {
    && (RowCount(c) == rows || RowCount(c) <= MAX_WIRE_COUNT)
    && (Valid(c) <==> Even(c) && Guarded(c, RowCount(c)))
    && (Valid(c) && RowCount(c) > 0 ==> Canonical(c))
  }

  lemma AsAsked(c: Col, t: Ty, rows: nat)
    requires Asked(c, t, rows) && RowCount(c) == rows && !c.Tuple?
    ensures Sound(c, t, rows)
  {
    hide WellTyped, Fits, Routed, Canonical, Bare, Guarded, Valid, RowCount;
  }

  ghost predicate SoundEach(cols: seq<Col>, ts: seq<Ty>, counts: seq<nat>) {
    && |cols| == |ts| == |counts|
    && forall i :: 0 <= i < |cols| ==> Sound(cols[i], ts[i], counts[i])
  }

  lemma LeafSound(t: Ty, rows: nat, s: seq<byte>)
    requires t.TScalar? || t.TStr? || t.TNothing? || t.TJson?
    ensures var r := DecodeTree(t, rows, s); r.Ok? ==> Sound(r.value.0, t, rows)
  {
    hide ParseLEs, ParseStrings, ParseLE, RustString, Pow256;
    match t
    case TScalar(kind) => ParseLEsBound(Width(kind), rows, [], s);
    case TStr => ParseStringsBound(rows, [], s);
    case TJson =>
      if rows > 0 && ParseLE(8, s).Ok? { ParseStringsBound(rows, [], ParseLE(8, s).value.1); }
    case TNothing =>
  }

  lemma FixedSound(n: nat, rows: nat, s: seq<byte>)
    ensures var r := DecodeTree(TFixed(n), rows, s); r.Ok? ==> Sound(r.value.0, TFixed(n), rows)
  {
    hide Pow256;
    if n > 0 {
      RowsOf(n, rows, n * rows);
    }
  }

  lemma NullableSound(inner: Col, nulls: seq<byte>, u: Ty, rows: nat)
    requires Sound(inner, u, rows) && |nulls| == rows
    ensures Sound(Nullable(inner, nulls), TNullable(u), rows)
  {
    hide Own;
    AsAsked(Nullable(inner, nulls), TNullable(u), rows);
  }

  lemma ArraySound(items: Col, offsets: seq<nat>, u: Ty)
    requires Sound(items, u, Last(offsets))
    requires Monotone(offsets) && AllBelow(offsets, U64_BOUND) && Last(offsets) <= MAX_WIRE_COUNT
    ensures Sound(Array(items, offsets), TArray(u), |offsets|)
  {
    hide Own;
    AsAsked(Array(items, offsets), TArray(u), |offsets|);
  }

  lemma MapSound(keys: Col, values: Col, offsets: seq<nat>, k: Ty, v: Ty)
    requires Sound(keys, k, Last(offsets)) && Sound(values, v, Last(offsets))
    requires Monotone(offsets) && AllBelow(offsets, U64_BOUND) && Last(offsets) <= MAX_WIRE_COUNT
    ensures Sound(Map(keys, values, offsets), TMap(k, v), |offsets|)
  {
    hide Own;
    AsAsked(Map(keys, values, offsets), TMap(k, v), |offsets|);
  }

  /** The parts of `Sound`, each for all the columns at once. */
  lemma EachSound(cols: seq<Col>, ts: seq<Ty>, counts: seq<nat>)
    requires SoundEach(cols, ts, counts)
    ensures |cols| == |ts| == |counts|
    ensures forall i :: 0 <= i < |cols| ==> WellTyped(cols[i], ts[i])
    ensures forall i :: 0 <= i < |cols| ==> Fits(cols[i])
    ensures forall i :: 0 <= i < |cols| ==> Routed(cols[i])
    ensures (forall i :: 0 <= i < |cols| ==> Guarded(cols[i], counts[i]))
        ==> forall i :: 0 <= i < |cols| ==> Canonical(cols[i])
    ensures (forall i :: 0 <= i < |cols| ==> counts[i] == 0) ==> forall i :: 0 <= i < |cols| ==> Bare(cols[i])
    ensures (forall i :: 0 <= i < |cols| ==> Guarded(cols[i], counts[i]))
       <==> (forall i :: 0 <= i < |cols| ==> Valid(cols[i]))
            && (forall i :: 0 <= i < |cols| ==> RowCount(cols[i]) == counts[i])
  {
    hide WellTyped, Fits, Routed, Canonical, Bare, Guarded, Valid, RowCount, Own;
  }

  lemma EachOwn(cols: seq<Col>, ts: seq<Ty>, counts: seq<nat>)
    requires SoundEach(cols, ts, counts)
    ensures |cols| == |counts| && forall i :: 0 <= i < |cols| ==> Own(cols[i], counts[i])
  {
    hide Own, Asked;
  }

  lemma TupleSound(elems: seq<Col>, ts: seq<Ty>, rows: nat)
    requires SoundEach(elems, ts, Same(|ts|, rows))
    ensures Sound(Tuple(elems), TTuple(ts), rows)
  {
    hide WellTyped, Fits, Routed, Canonical, Bare, Guarded, Valid, RowCount, SoundEach, Own;
    EachSound(elems, ts, Same(|ts|, rows));
    TupleShape(elems, ts);
    TupleGuard(elems, rows);
    EachOwn(elems, ts, Same(|ts|, rows));
    TupleOwn(elems, rows);
  }

  lemma TupleShape(elems: seq<Col>, ts: seq<Ty>)
    requires |elems| == |ts|
    requires forall i :: 0 <= i < |elems| ==> WellTyped(elems[i], ts[i]) && Fits(elems[i]) && Routed(elems[i])
    ensures WellTyped(Tuple(elems), TTuple(ts)) && Fits(Tuple(elems)) && Routed(Tuple(elems))
    ensures (forall i :: 0 <= i < |elems| ==> Bare(elems[i])) ==> Bare(Tuple(elems))
    ensures (forall i :: 0 <= i < |elems| ==> Canonical(elems[i])) ==> Canonical(Tuple(elems))
  {
  }

  lemma TupleGuard(elems: seq<Col>, rows: nat)
    ensures Guarded(Tuple(elems), rows) <==>
              (elems == [] ==> rows == 0) && forall i :: 0 <= i < |elems| ==> Guarded(elems[i], rows)
    ensures var c := Tuple(elems);
            Valid(c) && RowCount(c) == rows <==>
              && (elems == [] ==> rows == 0)
              && (forall i :: 0 <= i < |elems| ==> RowCount(elems[i]) == rows)
              && (forall i :: 0 <= i < |elems| ==> Valid(elems[i]))
  {
  }

  lemma TupleOwn(elems: seq<Col>, rows: nat)
    requires forall i :: 0 <= i < |elems| ==> Own(elems[i], rows)
    ensures Own(Tuple(elems), rows)
  {
    hide Canonical, Bare, Guarded, Valid, RowCount, Even;
    var c := Tuple(elems);
    var n := RowCount(c);
    TupleGuard(elems, n);
    TupleCounts(elems);
    if Even(c) && Guarded(c, n) {
      forall i | 0 <= i < |elems| ensures Valid(elems[i]) { assert RowCount(elems[i]) == n; }
    }
  }

  lemma TupleCounts(elems: seq<Col>)
    ensures var c := Tuple(elems);
            && RowCount(c) == (if elems == [] then 0 else RowCount(elems[0]))
            && (Even(c) <==> forall i :: 0 <= i < |elems| ==> RowCount(elems[i]) == RowCount(c) && Even(elems[i]))
            && (Canonical(c) <==> forall i :: 0 <= i < |elems| ==> Canonical(elems[i]))
  {
  }

  lemma NestedSound(names: seq<string>, fields: seq<Col>, offsets: seq<nat>, ts: seq<Ty>)
    requires SoundEach(fields, ts, Same(|ts|, Last(offsets)))
    requires Monotone(offsets) && AllBelow(offsets, U64_BOUND) && Last(offsets) <= MAX_WIRE_COUNT
    ensures Sound(Nested(names, fields, offsets), TNested(names, ts), |offsets|)
  {
    hide WellTyped, Fits, Routed, Canonical, Bare, Guarded, Valid, RowCount, SoundEach, Own;
    EachSound(fields, ts, Same(|ts|, Last(offsets)));
    NestedShape(names, fields, offsets, ts);
    NestedGuard(names, fields, offsets);
    AsAsked(Nested(names, fields, offsets), TNested(names, ts), |offsets|);
  }

  lemma NestedShape(names: seq<string>, fields: seq<Col>, offsets: seq<nat>, ts: seq<Ty>)
    requires |fields| == |ts|
    requires forall i :: 0 <= i < |fields| ==> WellTyped(fields[i], ts[i]) && Fits(fields[i]) && Routed(fields[i])
    requires AllBelow(offsets, U64_BOUND) && Last(offsets) <= MAX_WIRE_COUNT
    ensures var c := Nested(names, fields, offsets);
            && WellTyped(c, TNested(names, ts)) && Fits(c) && Routed(c)
            && (offsets == [] && (forall i :: 0 <= i < |fields| ==> Bare(fields[i])) ==> Bare(c))
            && ((forall i :: 0 <= i < |fields| ==> Canonical(fields[i])) ==> Canonical(c))
  {
  }

  lemma NestedGuard(names: seq<string>, fields: seq<Col>, offsets: seq<nat>)
    requires Monotone(offsets)
    ensures var c := Nested(names, fields, offsets);
            && RowCount(c) == |offsets|
            && (Guarded(c, |offsets|) <==> forall i :: 0 <= i < |fields| ==> Guarded(fields[i], Last(offsets)))
            && (Valid(c) <==> (forall i :: 0 <= i < |fields| ==> RowCount(fields[i]) == Last(offsets))
                              && (forall i :: 0 <= i < |fields| ==> Valid(fields[i])))
  {
    hide Monotone;
  }

  lemma LowCardinalitySound(dict: Col, refs: seq<nat>, keyWidth: nat, u: Ty, size: nat, rows: nat)
    requires Sound(dict, u, size)
    requires keyWidth in {1, 2, 4, 8} && AllBelow(refs, Pow256(keyWidth))
    requires size <= MAX_WIRE_COUNT && |refs| <= MAX_WIRE_COUNT
    requires rows == 0 ==> refs == [] && size == 0 && keyWidth == 1
    ensures Sound(LowCardinality(dict, refs, keyWidth), TLowCardinality(u), rows)
  {
    hide WellTyped, Fits, Routed, Canonical, Bare, Guarded, Valid, RowCount, Pow256, Even;
    LowCardinalityUnfolds(dict, refs, keyWidth, u);
    if refs != [] && refs[0] < RowCount(dict) {
      assert RowCount(dict) > 0;
    }
  }

  lemma LowCardinalityUnfolds(dict: Col, refs: seq<nat>, keyWidth: nat, u: Ty)
    requires keyWidth in {1, 2, 4, 8} && AllBelow(refs, Pow256(keyWidth)) && |refs| <= MAX_WIRE_COUNT
    requires RowCount(dict) <= MAX_WIRE_COUNT
    ensures var c := LowCardinality(dict, refs, keyWidth);
            var inDict := forall i :: 0 <= i < |refs| ==> refs[i] < RowCount(dict);
            && RowCount(c) == |refs| && Even(c)
            && (WellTyped(c, TLowCardinality(u)) <==> WellTyped(dict, u))
            && (Fits(dict) ==> Fits(c)) && (Routed(dict) ==> Routed(c))
            && (Bare(c) <==> refs == [] && keyWidth == 1 && Bare(dict))
            && (Canonical(c) <==> if refs == [] then keyWidth == 1 && Bare(dict) else Canonical(dict))
            && (forall rows :: Guarded(c, rows) <==>
                  |refs| == rows && inDict && Even(dict) && Guarded(dict, RowCount(dict)))
            && (Valid(c) <==> inDict && Valid(dict))
  {
    hide Pow256, Slots, CountOf;
    Pow256Values();
    assert KeyBound(keyWidth) == Pow256(keyWidth);
  }

  lemma VariantSound(ds: seq<nat>, columns: seq<Col>, ts: seq<Ty>)
    requires SoundEach(columns, ts, Counts(ds, NULL_DISCRIMINATOR, |ts|))
    requires DiscriminatorsOk(ds, NULL_DISCRIMINATOR, |ts|) && AllBelow(ds, 0x100)
    ensures Sound(Variant(ds, Slots(ds, NULL_DISCRIMINATOR), columns), TVariant(ts, false), |ds|)
  {
    hide WellTyped, Fits, Routed, Canonical, Bare, Guarded, Valid, RowCount, SoundEach, Slots, CountOf, Own;
    EachSound(columns, ts, Counts(ds, NULL_DISCRIMINATOR, |ts|));
    VariantShape(ds, columns, ts);
    VariantGuard(ds, columns);
    VariantValid(ds, columns);
    NothingCounted(ds, NULL_DISCRIMINATOR, |ts|);
    AsAsked(Variant(ds, Slots(ds, NULL_DISCRIMINATOR), columns), TVariant(ts, false), |ds|);
  }

  lemma NothingCounted(ds: seq<nat>, nil: nat, n: nat)
    ensures ds == [] ==> Counts(ds, nil, n) == Same(n, 0)
  {
  }

  lemma VariantShape(ds: seq<nat>, columns: seq<Col>, ts: seq<Ty>)
    requires |columns| == |ts|
    requires forall i :: 0 <= i < |columns| ==> WellTyped(columns[i], ts[i]) && Fits(columns[i]) && Routed(columns[i])
    requires AllBelow(ds, 0x100)
    ensures var c := Variant(ds, Slots(ds, NULL_DISCRIMINATOR), columns);
            && WellTyped(c, TVariant(ts, false)) && Fits(c) && Routed(c)
            && (ds == [] && (forall i :: 0 <= i < |columns| ==> Bare(columns[i])) ==> Bare(c) && Canonical(c))
            && (ds != [] && (forall i :: 0 <= i < |columns| ==> Canonical(columns[i])) ==> Canonical(c))
  {
    hide Slots;
    NoSlots(NULL_DISCRIMINATOR);
  }

  lemma VariantGuard(ds: seq<nat>, columns: seq<Col>)
    ensures var c := Variant(ds, Slots(ds, NULL_DISCRIMINATOR), columns);
            var counts := Counts(ds, NULL_DISCRIMINATOR, |columns|);
            Guarded(c, |ds|) <==> forall i :: 0 <= i < |columns| ==> Guarded(columns[i], counts[i])
  {
    hide Slots, Counts;
  }

  lemma VariantValid(ds: seq<nat>, columns: seq<Col>)
    requires DiscriminatorsOk(ds, NULL_DISCRIMINATOR, |columns|)
    ensures var c := Variant(ds, Slots(ds, NULL_DISCRIMINATOR), columns);
            var counts := Counts(ds, NULL_DISCRIMINATOR, |columns|);
            && RowCount(c) == |ds|
            && (Valid(c) <==> (forall i :: 0 <= i < |columns| ==> RowCount(columns[i]) == counts[i])
                              && (forall i :: 0 <= i < |columns| ==> Valid(columns[i])))
  {
    hide Slots, CountOf;
  }

  lemma DynamicSound(names: seq<string>, ds: seq<nat>, columns: seq<Col>)
    requires ds != [] && AllRustStrings(names) && AllStringsFit(names) && !AnyStateful(names) && |names| < U64_BOUND
    requires SoundEach(columns, RuntimeTypes(names), Counts(ds, |names|, |names|))
    requires DiscriminatorsOk(ds, |names|, |names|)
    ensures Sound(Dynamic(names, ds, Slots(ds, |names|), columns), TDynamic, |ds|)
  {
    hide WellTyped, Fits, Routed, Canonical, Bare, Guarded, Valid, RowCount, SoundEach, Slots, CountOf;
    hide AllRustStrings, AllStringsFit, AnyStateful, TypeOf, Own;
    EachSound(columns, RuntimeTypes(names), Counts(ds, |names|, |names|));
    DynamicShape(names, ds, columns);
    DynamicGuard(names, ds, columns);
    DynamicValid(names, ds, columns);
    AsAsked(Dynamic(names, ds, Slots(ds, |names|), columns), TDynamic, |ds|);
  }

  lemma DynamicShape(names: seq<string>, ds: seq<nat>, columns: seq<Col>)
    requires ds != [] && AllRustStrings(names) && AllStringsFit(names) && !AnyStateful(names) && |names| < U64_BOUND
    requires |columns| == |names|
    requires forall i :: 0 <= i < |columns| ==>
      WellTyped(columns[i], TypeOf(names[i])) && Fits(columns[i]) && Routed(columns[i])
    ensures var c := Dynamic(names, ds, Slots(ds, |names|), columns);
            && WellTyped(c, TDynamic) && Fits(c) && Routed(c)
            && ((forall i :: 0 <= i < |columns| ==> Canonical(columns[i])) ==> Canonical(c))
  {
    hide Slots, AnyStateful, TypeOf, AllRustStrings, AllStringsFit;
  }

  lemma DynamicGuard(names: seq<string>, ds: seq<nat>, columns: seq<Col>)
    requires |columns| == |names|
    ensures var c := Dynamic(names, ds, Slots(ds, |names|), columns);
            var counts := Counts(ds, |names|, |names|);
            Guarded(c, |ds|) <==> forall i :: 0 <= i < |columns| ==> Guarded(columns[i], counts[i])
  {
    hide Slots, Counts;
  }

  lemma DynamicValid(names: seq<string>, ds: seq<nat>, columns: seq<Col>)
    requires |columns| == |names| && DiscriminatorsOk(ds, |names|, |names|)
    ensures var c := Dynamic(names, ds, Slots(ds, |names|), columns);
            var counts := Counts(ds, |names|, |names|);
            && RowCount(c) == |ds|
            && (Valid(c) <==> (forall i :: 0 <= i < |columns| ==> RowCount(columns[i]) == counts[i])
                              && (forall i :: 0 <= i < |columns| ==> Valid(columns[i])))
  {
    hide Slots, CountOf;
  }
}
