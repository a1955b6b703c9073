/** Laws of the REPLICATED expansion: exactly when it succeeds, and that it is
    a functor on index lists. */
module ReplicatedLaws {
  import opened Base
  import opened Column
  import opened Replicated

  // ---- The error-carrying code computes Select -----------------------------------

  lemma NonePicked<T>(v: seq<T>)
    ensures InRange([], |v|) && Pick(v, []) == []
  {
  }

  lemma PickCons<T>(v: seq<T>, idx: seq<nat>)
    requires idx != []
    ensures InRange(idx, |v|) <==> idx[0] < |v| && InRange(idx[1..], |v|)
    ensures InRange(idx, |v|) ==> Pick(v, idx) == [v[idx[0]]] + Pick(v, idx[1..])
  {
    assert idx == [idx[0]] + idx[1..];
  }

  lemma {:induction false} LookupPicks<T>(v: seq<T>, idx: seq<nat>, out: seq<T>)
    ensures Lookup(v, idx, |v|, out)
         == if InRange(idx, |v|) then Ok(out + Pick(v, idx)) else Err(InvalidData)
  {
    hide InRange, Pick;
    if idx == [] {
      NonePicked(v);
      assert out + [] == out;
    } else {
      PickCons(v, idx);
      if idx[0] < |v| {
        LookupPicks(v, idx[1..], out + [v[idx[0]]]);
        if InRange(idx, |v|) {
          assert out + [v[idx[0]]] + Pick(v, idx[1..]) == out + Pick(v, idx);
        }
      }
    }
  }

  lemma {:induction false} LookupFixedPicks(size: nat, data: seq<byte>, idx: seq<nat>, k: nat)
    requires size > 0 && |data| % size == 0 && k <= |idx| && InRange(idx[..k], |data| / size)
    ensures var n := |data| / size;
            (LookupFixed(size, data, idx[k..], n, PickFixed(size, data, idx[..k]))
             == if InRange(idx, n) then Ok(PickFixed(size, data, idx)) else Err(InvalidData))
    decreases |idx| - k
  {
    hide PickFixed;
    var n := |data| / size;
    if k == |idx| {
      assert idx[..k] == idx;
    } else if idx[k] < n {
      FixedRow(size, |data|, idx[k]);
      PickFixedStep(size, data, idx, k);
      LookupFixedPicks(size, data, idx, k + 1);
      assert idx[k..][1..] == idx[k + 1..];
    }
  }

  lemma PickFixedStep(size: nat, data: seq<byte>, idx: seq<nat>, k: nat)
    requires size > 0 && |data| % size == 0 && k < |idx| && InRange(idx[..k], |data| / size)
    requires idx[k] < |data| / size && idx[k] * size + size <= |data|
    ensures InRange(idx[..k + 1], |data| / size)
    ensures PickFixed(size, data, idx[..k + 1])
         == PickFixed(size, data, idx[..k]) + data[idx[k] * size..idx[k] * size + size]
  {
    assert idx[..k + 1] == idx[..k] + [idx[k]];
    assert idx[..k + 1][..k] == idx[..k];
  }

  lemma {:induction false} FlattenIsFlat(offsets: seq<nat>, idx: seq<nat>, k: nat)
    requires Monotone(offsets) && k <= |idx| && InRange(idx[..k], |offsets|)
    ensures Flatten(offsets, idx[k..], |offsets|, Flat(offsets, idx[..k]), Ends(offsets, idx[..k]))
         == if InRange(idx, |offsets|) then Ok((Flat(offsets, idx), Ends(offsets, idx)))
            else Err(InvalidData)
    decreases |idx| - k
  {
    hide Flat, Ends;
    if k == |idx| {
      assert idx[..k] == idx;
    } else if idx[k] < |offsets| {
      var upTo := idx[..k + 1];
      assert upTo == idx[..k] + [idx[k]];
      FlatStep(offsets, upTo, k);
      assert upTo[..k] == idx[..k] && upTo[..k + 1] == upTo;
      EndsStep(offsets, upTo);
      FlattenIsFlat(offsets, idx, k + 1);
      assert idx[k..][1..] == idx[k + 1..];
    }
  }

  lemma EndsStep(offsets: seq<nat>, idx: seq<nat>)
    requires Monotone(offsets) && InRange(idx, |offsets|) && idx != []
    ensures Ends(offsets, idx) == Ends(offsets, idx[..|idx| - 1]) + [|Flat(offsets, idx)|]
  {
    hide Flat, Ends;
    var k := |idx| - 1;
    var a, b := Ends(offsets, idx), Ends(offsets, idx[..k]);
    forall i | 0 <= i < k ensures a[i] == b[i] {
      assert idx[..k][..i + 1] == idx[..i + 1];
      assert Start(a, i + 1) == a[i] && Start(b, i + 1) == b[i];
    }
    assert a[k] == Last(a);
  }

  /** Columns whose expansion never looks at an index: `Nothing`, and tuples of
      such columns. Out-of-range indexes go unnoticed there. */
  predicate Unchecked(c: Col) {
    match c
    case Nothing(_) => true
    case Tuple(elems) => forall i :: 0 <= i < |elems| ==> Unchecked(elems[i])
    case _ => false
  }

  /** Every expanded FixedString stays within 64-bit sizes. */
  predicate SizesFit(c: Col, idx: seq<nat>)
    requires Valid(c) && InRange(idx, RowCount(c))
  {
    match c
    case FixedStr(size, _) => size * |idx| < U64_BOUND
    case Nullable(inner, _) => SizesFit(inner, idx)
    case Array(items, offsets) => SizesFit(items, Flat(offsets, idx))
    case Tuple(elems) => forall i :: 0 <= i < |elems| ==> SizesFit(elems[i], idx)
    case Map(keys, values, offsets) =>
      SizesFit(keys, Flat(offsets, idx)) && SizesFit(values, Flat(offsets, idx))
    case Nested(_, fields, offsets) =>
      forall i :: 0 <= i < |fields| ==> SizesFit(fields[i], Flat(offsets, idx))
    case _ => true
  }

  /** On a valid column the expansion succeeds exactly when every type in it is
      supported, the sizes fit, and the indexes are in range (or never looked
      at); and then it is the selection. */
  lemma {:induction false} ReplicateExactly(c: Col, idx: seq<nat>)
    requires Valid(c)
    ensures InRange(idx, RowCount(c)) && Supported(c) && SizesFit(c, idx) ==>
              Replicate(c, idx, RowCount(c)) == Ok(Select(c, idx))
    ensures InRange(idx, RowCount(c)) && !(Supported(c) && SizesFit(c, idx)) ==>
              Replicate(c, idx, RowCount(c)).Err?
    ensures !InRange(idx, RowCount(c)) ==>
              (Replicate(c, idx, RowCount(c)).Ok? <==> Unchecked(c))
    decreases c
  {
    hide Flat, Ends, PickFixed, Pick, Lookup, LookupFixed, Flatten, SelectFixed;
    var n := RowCount(c);
    match c
    case Nullable(inner, nulls) =>
      ReplicateExactly(inner, idx);
      LookupExactly(nulls, idx);
    case Array(items, offsets) =>
      FlattenExactly(offsets, idx);
      if InRange(idx, n) { ReplicateExactly(items, Flat(offsets, idx)); }
    case Map(keys, values, offsets) =>
      FlattenExactly(offsets, idx);
      if InRange(idx, n) {
        ReplicateExactly(keys, Flat(offsets, idx));
        ReplicateExactly(values, Flat(offsets, idx));
      }
    case Tuple(elems) => EachExactly(elems, idx, n);
    case Nested(_, fields, offsets) =>
      FlattenExactly(offsets, idx);
      if InRange(idx, n) { EachExactly(fields, Flat(offsets, idx), Last(offsets)); }
    case _ => LeafExactly(c, idx);
  }

  predicate IsLeaf(c: Col) {
    !c.Nullable? && !c.Array? && !c.Map? && !c.Tuple? && !c.Nested?
  }

  lemma LeafExactly(c: Col, idx: seq<nat>)
    requires Valid(c) && IsLeaf(c)
    ensures InRange(idx, RowCount(c)) && Supported(c) && SizesFit(c, idx) ==>
              Replicate(c, idx, RowCount(c)) == Ok(Select(c, idx))
    ensures InRange(idx, RowCount(c)) && !(Supported(c) && SizesFit(c, idx)) ==>
              Replicate(c, idx, RowCount(c)).Err?
    ensures !InRange(idx, RowCount(c)) ==>
              (Replicate(c, idx, RowCount(c)).Ok? <==> Unchecked(c))
  {
    hide PickFixed, Pick, Lookup, LookupFixed;
    match c
    case Scalar(_, vals) => LookupExactly(vals, idx);
    case Str(strs) => LookupExactly(strs, idx);
    case Json(texts) => LookupExactly(texts, idx);
    case LowCardinality(_, refs, _) => LookupExactly(refs, idx);
    case FixedStr(size, data) => FixedExactly(size, data, idx);
    case _ =>
  }

  lemma LookupExactly<T>(v: seq<T>, idx: seq<nat>)
    ensures Lookup(v, idx, |v|, [])
         == if InRange(idx, |v|) then Ok(Pick(v, idx)) else Err(InvalidData)
  {
    LookupPicks(v, idx, []);
    if InRange(idx, |v|) {
      assert [] + Pick(v, idx) == Pick(v, idx);
    }
  }

  lemma FlattenExactly(offsets: seq<nat>, idx: seq<nat>)
    requires Monotone(offsets)
    ensures Flatten(offsets, idx, |offsets|, [], [])
         == if InRange(idx, |offsets|) then Ok((Flat(offsets, idx), Ends(offsets, idx)))
            else Err(InvalidData)
  {
    FlattenIsFlat(offsets, idx, 0);
    assert idx[..0] == [] && idx[0..] == idx;
  }

  lemma FixedExactly(size: nat, data: seq<byte>, idx: seq<nat>)
    requires size > 0 && |data| % size == 0
    ensures LookupFixed(size, data, idx, |data| / size, [])
         == if InRange(idx, |data| / size) then Ok(PickFixed(size, data, idx)) else Err(InvalidData)
  {
    LookupFixedPicks(size, data, idx, 0);
    assert idx[..0] == [] && idx[0..] == idx;
  }

  predicate AllAdmitted(cols: seq<Col>, idx: seq<nat>, n: nat)
    requires forall i :: 0 <= i < |cols| ==> Valid(cols[i]) && RowCount(cols[i]) == n
    requires InRange(idx, n)
  {
    forall i :: 0 <= i < |cols| ==> Supported(cols[i]) && SizesFit(cols[i], idx)
  }

  lemma EachExactly(cols: seq<Col>, idx: seq<nat>, n: nat)
    requires forall i :: 0 <= i < |cols| ==> Valid(cols[i]) && RowCount(cols[i]) == n
    ensures var r := ReplicateEach(cols, idx, n, []);
            && (InRange(idx, n) ==>
                  if AllAdmitted(cols, idx, n) then r == Ok(SelectEach(cols, idx)) else r.Err?)
            && (!InRange(idx, n) ==>
                  (r.Ok? <==> forall i :: 0 <= i < |cols| ==> Unchecked(cols[i])))
    decreases cols, 1
  {
    hide ReplicateEach, SizesFit, Supported, Unchecked, Valid, RowCount;
    EachFrom(cols, idx, n, []);
    if InRange(idx, n) && AllAdmitted(cols, idx, n) {
      assert [] + SelectEach(cols, idx) == SelectEach(cols, idx);
    }
  }

  lemma EachCons(cols: seq<Col>, idx: seq<nat>, n: nat)
    requires cols != [] && forall i :: 0 <= i < |cols| ==> Valid(cols[i]) && RowCount(cols[i]) == n
    ensures InRange(idx, n) ==>
              (AllAdmitted(cols, idx, n)
               <==> Supported(cols[0]) && SizesFit(cols[0], idx) && AllAdmitted(cols[1..], idx, n))
    ensures InRange(idx, n) && AllAdmitted(cols, idx, n) ==>
              SelectEach(cols, idx) == [Select(cols[0], idx)] + SelectEach(cols[1..], idx)
    ensures (forall i :: 0 <= i < |cols| ==> Unchecked(cols[i]))
       <==> Unchecked(cols[0]) && forall i :: 0 <= i < |cols[1..]| ==> Unchecked(cols[1..][i])
  {
    hide Select, SizesFit, Supported, Unchecked, Valid, RowCount, InRange;
    assert cols == [cols[0]] + cols[1..];
  }

  lemma NoneSelected(idx: seq<nat>)
    ensures SelectEach([], idx) == []
  {
  }

  lemma {:induction false} EachFrom(cols: seq<Col>, idx: seq<nat>, n: nat, out: seq<Col>)
    requires forall i :: 0 <= i < |cols| ==> Valid(cols[i]) && RowCount(cols[i]) == n
    ensures var r := ReplicateEach(cols, idx, n, out);
            && (InRange(idx, n) ==>
                  if AllAdmitted(cols, idx, n) then r == Ok(out + SelectEach(cols, idx)) else r.Err?)
            && (!InRange(idx, n) ==>
                  (r.Ok? <==> forall i :: 0 <= i < |cols| ==> Unchecked(cols[i])))
    decreases cols, 0
  {
    hide Replicate, Select, SizesFit, Supported, Unchecked, Valid, RowCount, InRange;
    if cols == [] {
      NoneSelected(idx);
      assert out + [] == out;
    } else {
      hide AllAdmitted, SelectEach;
      ReplicateExactly(cols[0], idx);
      EachCons(cols, idx, n);
      match Replicate(cols[0], idx, n)
      case Err(_) =>
      case Ok(dense) =>
        EachFrom(cols[1..], idx, n, out + [dense]);
        if InRange(idx, n) && AllAdmitted(cols, idx, n) {
          assert out + [dense] + SelectEach(cols[1..], idx) == out + SelectEach(cols, idx);
        }
    }
  }

  // ---- Functor laws ------------------------------------------------------------------

  function Identity(n: nat): (idx: seq<nat>)
    ensures |idx| == n && InRange(idx, n)
  {
    seq(n, i requires 0 <= i => i)
  }

  lemma IdentityPrefix(n: nat, k: nat)
    requires k <= n
    ensures Identity(n)[..k] == Identity(k)
    ensures Identity(k) + Range(k, n) == Identity(n)
  {
  }

  lemma {:induction false} FlatIdentity(offsets: seq<nat>, k: nat)
    requires Monotone(offsets) && k <= |offsets|
    ensures InRange(Identity(k), |offsets|)
    ensures Flat(offsets, Identity(k)) == Identity(Start(offsets, k))
  {
    if k == 0 {
      FlatNothing(offsets);
      assert Identity(0) == [];
    } else {
      hide Flat, Identity, Range;
      FlatIdentity(offsets, k - 1);
      LastOfIdentity(k);
      FlatStep(offsets, Identity(k), k - 1);
      IdentityPrefix(k, k - 1);
      assert Identity(k)[..k] == Identity(k);
      IdentityPrefix(offsets[k - 1], Start(offsets, k - 1));
    }
  }

  lemma LastOfIdentity(k: nat)
    requires k > 0
    ensures Identity(k)[k - 1] == k - 1
  {
  }

  lemma EndsIdentity(offsets: seq<nat>)
    requires Monotone(offsets)
    ensures Flat(offsets, Identity(|offsets|)) == Identity(Last(offsets))
    ensures Ends(offsets, Identity(|offsets|)) == offsets
  {
    hide Flat, Ends;
    var all := Identity(|offsets|);
    FlatIdentity(offsets, |offsets|);
    var ends := Ends(offsets, all);
    forall i | 0 <= i < |offsets| ensures ends[i] == offsets[i] {
      assert all[..i + 1] == Identity(i + 1);
      FlatIdentity(offsets, i + 1);
      assert ends[i] == Start(ends, i + 1) == |Flat(offsets, all[..i + 1])|;
    }
  }

  lemma PickFixedLast(size: nat, data: seq<byte>, k: nat)
    requires size > 0 && |data| % size == 0 && k < |data| / size
    requires InRange(Identity(k), |data| / size) && k * size + size <= |data|
    ensures InRange(Identity(k + 1), |data| / size)
    ensures PickFixed(size, data, Identity(k + 1))
         == PickFixed(size, data, Identity(k)) + data[k * size..k * size + size]
  {
    assert Identity(k + 1)[..k] == Identity(k);
  }

  lemma PrefixGrows(data: seq<byte>, at: nat, size: nat)
    requires at + size <= |data|
    ensures data[..at] + data[at..at + size] == data[..at + size]
  {
  }

  /** Picking every run in order gives the data back, a run at a time. */
  ghost predicate PicksPrefix(size: nat, data: seq<byte>, k: nat) {
    && size > 0 && |data| % size == 0 && k <= |data| / size
    && InRange(Identity(k), |data| / size) && k * size <= |data|
    && PickFixed(size, data, Identity(k)) == data[..k * size]
  }

  lemma NextPrefix(size: nat, data: seq<byte>, k: nat)
    requires PicksPrefix(size, data, k) && k < |data| / size
    ensures PicksPrefix(size, data, k + 1)
  {
    hide PickFixed, InRange, Identity;
    FixedRow(size, |data|, k);
    PickFixedLast(size, data, k);
    PrefixGrows(data, k * size, size);
    OneMoreRow(size, k);
  }

  lemma {:induction false} PickFixedIdentity(size: nat, data: seq<byte>, k: nat)
    requires size > 0 && |data| % size == 0 && k <= |data| / size
    ensures PicksPrefix(size, data, k)
  {
    if k > 0 {
      hide PicksPrefix;
      PickFixedIdentity(size, data, k - 1);
      NextPrefix(size, data, k - 1);
    }
  }

  /** Selecting every row in order changes nothing, offsets included. */
  lemma {:induction false} SelectIdentity(c: Col)
    requires Valid(c) && Supported(c)
    ensures Select(c, Identity(RowCount(c))) == c
    decreases c
  {
    hide Flat, Ends, PickFixed;
    match c
    case FixedStr(size, data) =>
      PickFixedIdentity(size, data, |data| / size);
      assert |data| / size * size == |data|;
    case Nullable(inner, nulls) => SelectIdentity(inner);
    case Array(items, offsets) => EndsIdentity(offsets); SelectIdentity(items);
    case Map(keys, values, offsets) =>
      EndsIdentity(offsets); SelectIdentity(keys); SelectIdentity(values);
    case Tuple(elems) => EachIdentity(elems, RowCount(c));
    case Nested(_, fields, offsets) => EndsIdentity(offsets); EachIdentity(fields, Last(offsets));
    case _ =>
  }

  lemma {:induction false} EachIdentity(cols: seq<Col>, n: nat)
    requires forall i :: 0 <= i < |cols| ==> Valid(cols[i]) && Supported(cols[i]) && RowCount(cols[i]) == n
    ensures SelectEach(cols, Identity(n)) == cols
    decreases cols
  {
    forall i | 0 <= i < |cols| ensures Select(cols[i], Identity(n)) == cols[i] {
      SelectIdentity(cols[i]);
    }
  }

  lemma FlatConcatPick<T>(v: seq<T>, a: seq<nat>, b: seq<nat>)
    requires InRange(a, |v|) && InRange(b, |v|)
    ensures InRange(a + b, |v|) && Pick(v, a + b) == Pick(v, a) + Pick(v, b)
  {
  }

  /** Choosing rows `b` of the rows `a`: the flattened positions compose. */
  lemma {:induction false} FlatCompose(offsets: seq<nat>, a: seq<nat>, b: seq<nat>, k: nat)
    requires Monotone(offsets) && InRange(a, |offsets|) && InRange(b, |a|) && k <= |b|
    ensures Pick(Flat(offsets, a), Flat(Ends(offsets, a), b[..k])) == Flat(offsets, Pick(a, b)[..k])
  {
    hide Flat, Ends;
    if k == 0 {
      FlatNothing(offsets);
      FlatNothing(Ends(offsets, a));
    } else {
      FlatCompose(offsets, a, b, k - 1);
      FlatStep(Ends(offsets, a), b, k - 1);
      FlatStep(offsets, Pick(a, b), k - 1);
      BlockCompose(offsets, a, b[k - 1]);
      FlatConcatPick(Flat(offsets, a), Flat(Ends(offsets, a), b[..k - 1]), BlockOf(Ends(offsets, a), b[k - 1]));
    }
  }

  lemma FlatCompositions(offsets: seq<nat>, a: seq<nat>, b: seq<nat>)
    requires Monotone(offsets) && InRange(a, |offsets|) && InRange(b, |a|)
    ensures Pick(Flat(offsets, a), Flat(Ends(offsets, a), b)) == Flat(offsets, Pick(a, b))
    ensures Ends(Ends(offsets, a), b) == Ends(offsets, Pick(a, b))
  {
    hide Flat, Ends;
    FlatCompose(offsets, a, b, |b|);
    assert b[..|b|] == b && Pick(a, b)[..|b|] == Pick(a, b);
    var x, y := Ends(Ends(offsets, a), b), Ends(offsets, Pick(a, b));
    forall i | 0 <= i < |b| ensures x[i] == y[i] {
      FlatCompose(offsets, a, b, i + 1);
      assert Start(x, i + 1) == x[i] && Start(y, i + 1) == y[i];
    }
  }

  lemma FlatNothing(offsets: seq<nat>)
    requires Monotone(offsets)
    ensures Flat(offsets, []) == []
  {
  }

  function BlockOf(offsets: seq<nat>, i: nat): seq<nat>
    requires i < |offsets|
  {
    Range(Start(offsets, i), offsets[i])
  }

  lemma BlockCompose(offsets: seq<nat>, a: seq<nat>, i: nat)
    requires Monotone(offsets) && InRange(a, |offsets|) && i < |a|
    ensures InRange(BlockOf(Ends(offsets, a), i), |Flat(offsets, a)|)
    ensures Pick(Flat(offsets, a), BlockOf(Ends(offsets, a), i)) == BlockOf(offsets, a[i])
  {
    hide Flat, Ends;
    FlatBlock(offsets, a, i);
  }

  lemma {:induction false} PickFixedCompose(size: nat, data: seq<byte>, a: seq<nat>, b: seq<nat>)
    requires size > 0 && |data| % size == 0 && InRange(a, |data| / size) && InRange(b, |a|)
    ensures |PickFixed(size, data, a)| % size == 0 && |PickFixed(size, data, a)| / size == |a|
    ensures PickFixed(size, PickFixed(size, data, a), b) == PickFixed(size, data, Pick(a, b))
  {
    var chosen := PickFixed(size, data, a);
    PickFixedLength(size, data, a);
    RowsOf(size, |a|, |chosen|);
    if b != [] {
      var k := |b| - 1;
      PickFixedCompose(size, data, a, b[..k]);
      FixedSelection(size, data, a, b[k]);
      FixedRow(size, |chosen|, b[k]);
      FixedRow(size, |data|, a[b[k]]);
      PickFixedStep(size, chosen, b, k);
      PickFixedStep(size, data, Pick(a, b), k);
      assert b[..k + 1] == b;
      assert Pick(a, b)[..k] == Pick(a, b[..k]) && Pick(a, b)[..k + 1] == Pick(a, b);
    }
  }

  /** Selecting by `a` and then by `b` is selecting once by the composition. */
  lemma {:induction false} SelectCompose(c: Col, a: seq<nat>, b: seq<nat>)
    requires Valid(c) && Supported(c) && InRange(a, RowCount(c)) && InRange(b, |a|)
    ensures Select(Select(c, a), b) == Select(c, Pick(a, b))
    decreases c
  {
    hide Flat, Ends, PickFixed;
    match c
    case FixedStr(size, data) => PickFixedCompose(size, data, a, b);
    case Nullable(inner, nulls) => SelectCompose(inner, a, b);
    case Array(items, offsets) =>
      FlatCompositions(offsets, a, b);
      SelectCompose(items, Flat(offsets, a), Flat(Ends(offsets, a), b));
    case Map(keys, values, offsets) =>
      FlatCompositions(offsets, a, b);
      SelectCompose(keys, Flat(offsets, a), Flat(Ends(offsets, a), b));
      SelectCompose(values, Flat(offsets, a), Flat(Ends(offsets, a), b));
    case Tuple(elems) => EachCompose(elems, a, b);
    case Nested(_, fields, offsets) =>
      FlatCompositions(offsets, a, b);
      EachCompose(fields, Flat(offsets, a), Flat(Ends(offsets, a), b));
    case _ =>
  }

  lemma {:induction false} EachCompose(cols: seq<Col>, a: seq<nat>, b: seq<nat>)
    requires forall i :: 0 <= i < |cols| ==> Valid(cols[i]) && Supported(cols[i]) && InRange(a, RowCount(cols[i]))
    requires InRange(b, |a|)
    ensures SelectEach(SelectEach(cols, a), b) == SelectEach(cols, Pick(a, b))
    decreases cols
  {
    forall i | 0 <= i < |cols| ensures Select(Select(cols[i], a), b) == Select(cols[i], Pick(a, b)) {
      SelectCompose(cols[i], a, b);
    }
  }
}
