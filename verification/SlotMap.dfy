/** How the rows of a Variant or Dynamic column map onto its sub-columns: the
    decoder's slots make a bijection that keeps the row order. */
module SlotMap {
  import opened Base
  import opened Column
  import opened TypeTree
  import opened Codec
  import opened CodecRoundTrip
  import opened CodecSound
  import opened Decoded

  lemma CountPrefix(ds: seq<nat>, d: nat, i: nat, j: nat)
    requires i <= j <= |ds|
    ensures CountOf(ds[..i], d) <= CountOf(ds[..j], d)
    decreases j
  {
    if i < j {
      CountPrefix(ds, d, i, j - 1);
      assert ds[..j][..j - 1] == ds[..j - 1];
    }
  }

  lemma CountStep(ds: seq<nat>, d: nat, i: nat)
    requires i < |ds|
    ensures CountOf(ds[..i + 1], d) == CountOf(ds[..i], d) + if ds[i] == d then 1 else 0
  {
    assert ds[..i + 1][..i] == ds[..i];
  }

  /** Every row that is not NULL points at an element its sub-column has. */
  lemma SlotInRange(ds: seq<nat>, nil: nat, n: nat, i: nat)
    requires DiscriminatorsOk(ds, nil, n) && i < |ds| && ds[i] != nil
    ensures ds[i] < n && Slots(ds, nil)[i] < Counts(ds, nil, n)[ds[i]]
  {
    hide CountOf;
    CountStep(ds, ds[i], i);
    CountPrefix(ds, ds[i], i + 1, |ds|);
    assert ds[..|ds|] == ds;
  }

  /** Rows of one sub-column take its elements in row order; no two share one. */
  lemma SlotsIncrease(ds: seq<nat>, nil: nat, i: nat, j: nat)
    requires i < j < |ds| && ds[i] == ds[j] != nil
    ensures Slots(ds, nil)[i] < Slots(ds, nil)[j]
  {
    hide CountOf;
    CountStep(ds, ds[i], i);
    CountPrefix(ds, ds[i], i + 1, j);
  }

  /** Every element of every sub-column is some row's value. */
  lemma {:induction false} SlotIsTaken(ds: seq<nat>, nil: nat, n: nat, d: nat, slot: nat) returns (i: nat)
    requires d < n && slot < Counts(ds, nil, n)[d]
    ensures i < |ds| && ds[i] == d && d != nil && Slots(ds, nil)[i] == slot
  {
    assert ds[..|ds|] == ds;
    i := TakenBefore(ds, d, slot, |ds|);
  }

  lemma {:induction false} TakenBefore(ds: seq<nat>, d: nat, slot: nat, j: nat) returns (i: nat)
    requires j <= |ds| && slot < CountOf(ds[..j], d)
    ensures i < j && ds[i] == d && CountOf(ds[..i], d) == slot
    decreases j
  {
    assert ds[..0] == [];
    CountStep(ds, d, j - 1);
    if slot < CountOf(ds[..j - 1], d) {
      i := TakenBefore(ds, d, slot, j - 1);
    } else {
      i := j - 1;
    }
  }

  function Sum(xs: seq<nat>): nat {
    if xs == [] then 0 else Sum(xs[..|xs| - 1]) + xs[|xs| - 1]
  }

  /** No row is lost or counted twice: the sub-columns and the NULL rows make up
      the column. */
  lemma {:induction false} RowsAreConserved(ds: seq<nat>, nil: nat, n: nat)
    requires DiscriminatorsOk(ds, nil, n)
    ensures Sum(Counts(ds, nil, n)) + CountOf(ds, nil) == |ds|
  {
    if ds == [] {
      SumOfZeros(Counts(ds, nil, n));
    } else {
      var front, d := ds[..|ds| - 1], ds[|ds| - 1];
      RowsAreConserved(front, nil, n);
      var before, after := Counts(front, nil, n), Counts(ds, nil, n);
      if d != nil {
        assert after == before[d := before[d] + 1];
        SumUpdate(before, d);
      } else {
        assert after == before;
      }
    }
  }

  lemma SumOfZeros(xs: seq<nat>)
    requires forall i :: 0 <= i < |xs| ==> xs[i] == 0
    ensures Sum(xs) == 0
  {
  }

  lemma {:induction false} SumUpdate(xs: seq<nat>, k: nat)
    requires k < |xs|
    ensures Sum(xs[k := xs[k] + 1]) == Sum(xs) + 1
    decreases |xs|
  {
    var ys, m := xs[k := xs[k] + 1], |xs| - 1;
    if k == m {
      assert ys[..m] == xs[..m];
    } else {
      SumUpdate(xs[..m], k);
      assert ys[..m] == xs[..m][k := xs[..m][k] + 1];
    }
  }

  // ---- Reading the rows ---------------------------------------------------------------

  // ---- Rows that have a value --------------------------------------------------------

  /** No slot that was followed on the way to the value is out of range. */
  predicate Complete(v: Value) {
    match v
    case Missing => false
    case List(items) => forall j :: 0 <= j < |items| ==> Complete(items[j])
    case Record(parts) => forall j :: 0 <= j < |parts| ==> Complete(parts[j])
    case Dict(keys, vals) =>
      && (forall j :: 0 <= j < |keys| ==> Complete(keys[j]))
      && (forall j :: 0 <= j < |vals| ==> Complete(vals[j]))
    case Tagged(_, value) => Complete(value)
    case _ => true
  }

  /** The slots looked up to print row `i`, at every depth, are within their
      sub-columns. */
  predicate InRange(c: Col, i: nat)
    requires Valid(c) && i < RowCount(c)
    decreases c
  {
    match c
    case Nullable(inner, nulls) => nulls[i] == 1 || InRange(inner, i)
    case Array(items, offsets) => forall j :: Start(offsets, i) <= j < offsets[i] ==> InRange(items, j)
    case Tuple(elems) => forall k :: 0 <= k < |elems| ==> InRange(elems[k], i)
    case Map(keys, values, offsets) =>
      forall j :: Start(offsets, i) <= j < offsets[i] ==> InRange(keys, j) && InRange(values, j)
    case Nested(_, fields, offsets) =>
      forall k, j :: 0 <= k < |fields| && Start(offsets, i) <= j < offsets[i] ==> InRange(fields[k], j)
    case LowCardinality(dict, refs, _) => InRange(dict, refs[i])
    case Variant(ds, slots, columns) =>
      ds[i] == NULL_DISCRIMINATOR || SubInRange(columns, ds[i], slots[i])
    case Dynamic(_, ds, slots, columns) =>
      ds[i] == |columns| || SubInRange(columns, ds[i], slots[i])
    case _ => true
  }

  predicate SubInRange(columns: seq<Col>, d: nat, slot: nat)
    requires d < |columns| && Valid(columns[d])
    decreases columns
  {
    slot < RowCount(columns[d]) && InRange(columns[d], slot)
  }

  /** Every slot there is to look up is in range, exactly when there is a value to
      print. */
  lemma {:induction false} RowIsComplete(c: Col, i: nat)
    requires Valid(c) && i < RowCount(c)
    ensures Complete(RowValue(c, i)) <==> InRange(c, i)
    decreases c, 1
  {
    hide CountOf, Monotone;
    match c
    case Nullable(inner, nulls) => if nulls[i] != 1 { RowIsComplete(inner, i); }
    case Array(_, _) => ArrayIsComplete(c, i);
    case Tuple(elems) => RecordIsComplete(elems, i, RowValue(c, i));
    case Map(_, _, _) => MapIsComplete(c, i);
    case Nested(_, _, _) => NestedIsComplete(c, i);
    case LowCardinality(dict, refs, _) => RowIsComplete(dict, refs[i]);
    case Variant(ds, slots, columns) =>
      if ds[i] != NULL_DISCRIMINATOR && slots[i] < RowCount(columns[ds[i]]) { RowIsComplete(columns[ds[i]], slots[i]); }
    case Dynamic(_, ds, slots, columns) =>
      if ds[i] != |columns| && slots[i] < RowCount(columns[ds[i]]) { RowIsComplete(columns[ds[i]], slots[i]); }
    case _ =>
  }

  predicate EachInRange(c: Col, from: nat, to: nat)
    requires Valid(c) && to <= RowCount(c)
  {
    forall j :: from <= j < to ==> InRange(c, j)
  }

  predicate EachComplete(vs: seq<Value>) {
    forall k :: 0 <= k < |vs| ==> Complete(vs[k])
  }

  lemma ItemsComplete(c: Col, from: nat, to: nat)
    requires Valid(c) && from <= to <= RowCount(c)
    ensures EachComplete(RowValues(c, from, to)) <==> EachInRange(c, from, to)
    decreases c, 2
  {
    hide Valid, RowCount, RowValue, Complete, InRange;
    var vs := RowValues(c, from, to);
    forall j | from <= j < to ensures Complete(vs[j - from]) <==> InRange(c, j) {
      RowIsComplete(c, j);
      assert vs[j - from] == RowValue(c, from + (j - from));
    }
    if EachInRange(c, from, to) {
      forall k | 0 <= k < |vs| ensures Complete(vs[k]) { assert InRange(c, from + k); }
    }
  }

  lemma ArrayIsComplete(c: Col, i: nat)
    requires c.Array? && Valid(c) && i < RowCount(c)
    ensures Complete(RowValue(c, i)) <==> InRange(c, i)
    decreases c, 0
  {
    var from, to := Start(c.offsets, i), c.offsets[i];
    ItemsComplete(c.items, from, to);
    assert RowValue(c, i) == List(RowValues(c.items, from, to));
    hide RowValue, RowValues;
    assert InRange(c, i) <==> EachInRange(c.items, from, to);
  }

  lemma MapIsComplete(c: Col, i: nat)
    requires c.Map? && Valid(c) && i < RowCount(c)
    ensures Complete(RowValue(c, i)) <==> InRange(c, i)
    decreases c, 0
  {
    var from, to := Start(c.offsets, i), c.offsets[i];
    ItemsComplete(c.keys, from, to);
    ItemsComplete(c.values, from, to);
    assert RowValue(c, i) == Dict(RowValues(c.keys, from, to), RowValues(c.values, from, to));
    hide RowValue, RowValues;
    assert InRange(c, i) <==> EachInRange(c.keys, from, to) && EachInRange(c.values, from, to);
  }

  lemma NestedIsComplete(c: Col, i: nat)
    requires c.Nested? && Valid(c) && i < RowCount(c)
    ensures Complete(RowValue(c, i)) <==> InRange(c, i)
    decreases c, 0
  {
    var from, to := Start(c.offsets, i), c.offsets[i];
    var records := RowValue(c, i).items;
    forall k | 0 <= k < to - from
      ensures Complete(records[k]) <==> forall f :: 0 <= f < |c.fields| ==> InRange(c.fields[f], from + k)
    {
      RecordIsComplete(c.fields, from + k, records[k]);
    }
    hide RowValue;
    if forall k :: 0 <= k < |records| ==> Complete(records[k]) {
      forall f, j | 0 <= f < |c.fields| && from <= j < to ensures InRange(c.fields[f], j) {
        assert Complete(records[j - from]);
      }
    }
  }

  lemma RecordIsComplete(fields: seq<Col>, j: nat, v: Value)
    requires forall f :: 0 <= f < |fields| ==> Valid(fields[f]) && j < RowCount(fields[f])
    requires v == Record(seq(|fields|, f requires 0 <= f < |fields| => RowValue(fields[f], j)))
    ensures Complete(v) <==> forall f :: 0 <= f < |fields| ==> InRange(fields[f], j)
    decreases fields, 0
  {
    hide Valid, RowCount, RowValue, InRange;
    forall f | 0 <= f < |fields| ensures Complete(v.parts[f]) <==> InRange(fields[f], j) {
      RowIsComplete(fields[f], j);
    }
  }

  /** A row of a valid Variant column is NULL exactly where the discriminator says
      so, otherwise the element in the row's slot, and incomplete without one. */
  lemma VariantRows(c: Col, i: nat)
    requires c.Variant? && Valid(c) && i < RowCount(c)
    ensures RowValue(c, i) == Null <==> c.discriminators[i] == NULL_DISCRIMINATOR
    ensures c.discriminators[i] != NULL_DISCRIMINATOR ==>
              var d, slot := c.discriminators[i], c.slots[i];
              && d < |c.columns| && Valid(c.columns[d])
              && (slot < RowCount(c.columns[d]) ==> RowValue(c, i) == Tagged(d, RowValue(c.columns[d], slot)))
              && (Complete(RowValue(c, i)) <==> slot < RowCount(c.columns[d]) && InRange(c.columns[d], slot))
  {
    hide CountOf;
    RowIsComplete(c, i);
  }

  lemma DynamicRows(c: Col, i: nat)
    requires c.Dynamic? && Valid(c) && i < RowCount(c)
    ensures RowValue(c, i) == Null <==> c.discriminators[i] == |c.columns|
    ensures c.discriminators[i] != |c.columns| ==>
              var d, slot := c.discriminators[i], c.slots[i];
              && d < |c.columns| && Valid(c.columns[d])
              && (slot < RowCount(c.columns[d]) ==> RowValue(c, i) == Tagged(d, RowValue(c.columns[d], slot)))
              && (Complete(RowValue(c, i)) <==> slot < RowCount(c.columns[d]) && InRange(c.columns[d], slot))
  {
    hide CountOf;
    RowIsComplete(c, i);
  }

  /** The slots the decoder computes are in range, wherever they stand. */
  lemma {:induction false} CanonicalInRange(c: Col, i: nat)
    requires Valid(c) && Canonical(c) && i < RowCount(c)
    ensures InRange(c, i)
    decreases c
  {
    hide CountOf, Bare, Slots;
    match c
    case Nullable(inner, _) => CanonicalInRange(inner, i);
    case Array(items, offsets) =>
      forall j | Start(offsets, i) <= j < offsets[i] ensures InRange(items, j) { CanonicalInRange(items, j); }
    case Tuple(elems) =>
      forall k | 0 <= k < |elems| ensures InRange(elems[k], i) { CanonicalInRange(elems[k], i); }
    case Map(keys, values, offsets) =>
      forall j | Start(offsets, i) <= j < offsets[i] ensures InRange(keys, j) && InRange(values, j) {
        CanonicalInRange(keys, j);
        CanonicalInRange(values, j);
      }
    case Nested(_, fields, offsets) =>
      forall k, j | 0 <= k < |fields| && Start(offsets, i) <= j < offsets[i] ensures InRange(fields[k], j) {
        CanonicalInRange(fields[k], j);
      }
    case LowCardinality(dict, refs, _) => CanonicalInRange(dict, refs[i]);
    case Variant(ds, slots, columns) =>
      if ds[i] != NULL_DISCRIMINATOR {
        SlotFits(c, NULL_DISCRIMINATOR, i);
        CanonicalInRange(columns[ds[i]], slots[i]);
      }
    case Dynamic(_, ds, slots, columns) =>
      if ds[i] != |columns| {
        SlotFits(c, |columns|, i);
        CanonicalInRange(columns[ds[i]], slots[i]);
      }
    case _ =>
  }

  lemma SlotFits(c: Col, nil: nat, i: nat)
    requires (c.Variant? && nil == NULL_DISCRIMINATOR) || (c.Dynamic? && nil == |c.columns|)
    requires Valid(c) && c.slots == Slots(c.discriminators, nil) && i < |c.discriminators|
    requires c.discriminators[i] != nil
    ensures c.discriminators[i] < |c.columns| && c.slots[i] < RowCount(c.columns[c.discriminators[i]])
  {
    hide CountOf, Slots;
    SlotInRange(c.discriminators, nil, |c.columns|, i);
  }

  /** Every row of every column decoded from any bytes has a value to print, if
      the three checks the decoder leaves out hold of it. */
  lemma DecodedInRange(t: Ty, rows: nat, s: seq<byte>, c: Col, rest: seq<byte>, i: nat)
    requires DecodeTree(t, rows, s) == Ok((c, rest)) && Guarded(c, rows) && i < rows
    ensures Valid(c) && RowCount(c) == rows && Complete(RowValue(c, i))
  {
    hide DecodeTree, Valid, RowCount, RowValue, Canonical, InRange, Guarded, WellTyped, Fits, Bare, Routed, Own;
    hide Complete;
    DecodedIsSound(t, rows, s);
    CanonicalInRange(c, i);
    RowIsComplete(c, i);
  }

  const INNER := Variant([0], [7], [Scalar(UInt8, [5])])

  /** `validate` does not look at the slots: one that points past its sub-column
      passes, and so does one inside a sub-column. */
  lemma ValidateMissesSlots()
    ensures Valid(INNER) && RowValue(INNER, 0) == Missing
    ensures var c := Variant([0], [0], [INNER]); Valid(c) && RowValue(c, 0) == Tagged(0, Missing) && !InRange(c, 0)
  {
    assert CountOf([0], 0) == 1;
    assert Valid(INNER) && RowCount(INNER) == 1;
    assert !Complete(Missing);
    RowIsComplete(Variant([0], [0], [INNER]), 0);
  }
}
