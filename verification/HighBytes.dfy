/** Bytes of 128 and more. No spelling the decoder accepts has fewer of them than
    the encoder's own, so they cannot be made up for. */
module HighBytes {
  import opened Base
  import opened Wire
  import opened ByteIO
  import opened Column
  import opened TypeTree
  import opened Codec
  import opened CodecRoundTrip
  import opened CodecSound

  function High(s: seq<byte>): (n: nat)
    ensures n <= |s|
  {
    if s == [] then 0 else (if s[0] >= 128 then 1 else 0) + High(s[1..])
  }

  lemma {:induction false} HighAppend(a: seq<byte>, b: seq<byte>)
    ensures High(a + b) == High(a) + High(b)
  {
    if a == [] {
      assert a + b == b;
    } else {
      HighAppend(a[1..], b);
      assert (a + b)[1..] == a[1..] + b;
    }
  }

  lemma TakeHigh(n: nat, s: seq<byte>)
    requires n <= |s|
    ensures High(s) == High(s[..n]) + High(s[n..])
  {
    assert s == s[..n] + s[n..];
    HighAppend(s[..n], s[n..]);
  }

  // ---- VarUInts and strings ------------------------------------------------------------

  lemma {:induction false} LebHigh(x: nat)
    ensures High(Leb(x)) == |Leb(x)| - 1
  {
    if x < 128 {
      assert [x][1..] == [];
    } else {
      LebHigh(x / 128);
      assert Leb(x)[1..] == Leb(x / 128);
    }
  }

  /** All bytes of a VarUInt but its last are high, however it is spelled. */
  lemma {:induction false} GroupsHigh(s: seq<byte>, shift: nat, res: nat)
    ensures var r := ParseGroups(s, shift, res);
            r.Ok? ==> |r.value.1| < |s| && High(s) == High(r.value.1) + (|s| - |r.value.1| - 1)
    decreases |s|
  {
    hide ShiftLeft;
    if s != [] && shift < 64 && s[0] >= 128 {
      GroupsHigh(s[1..], shift + 7, res + ShiftLeft(s[0] % 128, shift));
    }
  }

  /** `m` groups hold at most 7 * `m` bits. */
  lemma {:induction false} GroupsGrow(s: seq<byte>, shift: nat, res: nat)
    requires shift % 7 == 0 && shift < 64 && res < Pow2(shift)
    ensures var r := ParseGroups(s, shift, res);
            r.Ok? ==> |r.value.1| < |s| && r.value.0 < Pow2(shift + 7 * (|s| - |r.value.1|))
    decreases |s|
  {
    hide Pow2, ShiftLeft, ParseGroups;
    GroupsEnd(s, shift, res);
    if s != [] && ParseGroups(s, shift, res).Ok? {
      ParseGroup(s, shift, res);
      var c := ShiftLeftIs(s[0] % 128, shift);
      var sum, used := res + c * Pow2(shift), |s| - |ParseGroups(s, shift, res).value.1|;
      if shift < 57 {
        GroupRoom(res, c, shift);
        if s[0] < 128 {
          assert used == 1;
        } else {
          GroupsGrow(s[1..], shift + 7, sum);
          assert shift + 7 + 7 * (used - 1) == shift + 7 * used;
        }
      } else {
        ParseGroupsBound(s, shift, res);
        TopGroup(shift + 7 * used);
      }
    }
  }

  lemma TopGroup(bits: nat)
    requires bits >= 64
    ensures Pow2(bits) >= U64_BOUND
  {
    hide Pow2;
    Pow2Of64();
    Pow2Add(64, bits - 64);
    Pow2Positive(bits - 64);
    AtLeast(Pow2(bits - 64));
  }

  lemma GroupsEnd(s: seq<byte>, shift: nat, res: nat)
    ensures s == [] ==> ParseGroups(s, shift, res).Err?
  {
  }

  lemma {:induction false} Pow2Positive(k: nat)
    ensures Pow2(k) >= 1
  {
    if k > 0 { Pow2Positive(k - 1); }
  }

  lemma AtLeast(p: nat)
    requires p >= 1
    ensures U64_BOUND * p >= U64_BOUND
  {
  }

  /** No spelling of a number is shorter than the writer's. */
  lemma VarUIntSpends(s: seq<byte>)
    ensures var r := ParseVarUInt(s); r.Ok? ==> |Leb(r.value.0)| + |r.value.1| <= |s|
  {
    hide Pow2, ShiftLeft, Leb, ParseGroups;
    match ParseVarUInt(s)
    case Err(_) =>
    case Ok((x, rest)) =>
      OnePower();
      GroupsGrow(s, 0, 0);
      LebLength(x, |s| - |rest| - 1);
  }

  lemma OnePower()
    ensures Pow2(0) == 1
  {
  }

  lemma VarUIntHigh(s: seq<byte>)
    ensures var r := ParseVarUInt(s);
            r.Ok? ==>
              && High(Leb(r.value.0)) + High(r.value.1) <= High(s)
              && (r.value.0 >= 128 ==> High(r.value.1) < High(s))
  {
    hide Leb, ParseGroups;
    VarUIntSpends(s);
    GroupsHigh(s, 0, 0);
    match ParseVarUInt(s)
    case Err(_) =>
    case Ok((x, rest)) =>
      LebHigh(x);
      LebLong(x);
  }

  lemma LebLong(x: nat)
    ensures x >= 128 ==> |Leb(x)| >= 2
  {
  }

  lemma StringHigh(s: seq<byte>)
    ensures var r := ParseString(s); r.Ok? ==> High(EncodeString(r.value.0)) + High(r.value.1) <= High(s)
  {
    hide ParseVarUInt, Leb, Utf8, High;
    VarUIntHigh(s);
    match ParseVarUInt(s)
    case Err(_) =>
    case Ok((l, s1)) =>
      if l <= MAX_STRING_LEN && l <= |s1| {
        TakeHigh(l, s1);
        OctetsOfText(s1[..l]);
        HighAppend(Leb(l), s1[..l]);
      }
  }

  lemma {:induction false} StringsHigh(n: nat, v: seq<string>, s: seq<byte>)
    ensures var r := ParseStrings(n, v, s);
            r.Ok? ==>
              && |r.value.0| == |v| + n && |r.value.1| <= |s|
              && High(EncodeStrings(r.value.0)) + High(r.value.1) <= High(EncodeStrings(v)) + High(s)
  {
    hide ParseString, EncodeString, EncodeStrings, High;
    if n > 0 {
      StringHigh(s);
      match ParseString(s)
      case Ok((x, rest)) =>
        StringsHigh(n - 1, v + [x], rest);
        StringsSnoc(v, x);
      case Err(_) =>
    }
  }

  lemma {:induction false} StringsSnoc(v: seq<string>, x: string)
    ensures High(EncodeStrings(v + [x])) == High(EncodeStrings(v)) + High(EncodeString(x))
  {
    hide EncodeString, High;
    if v == [] {
      OneString(x);
    } else {
      StringsSnoc(v[1..], x);
      assert (v + [x])[1..] == v[1..] + [x];
      HighAppend(EncodeString(v[0]), EncodeStrings(v[1..]));
      HighAppend(EncodeString(v[0]), EncodeStrings(v[1..] + [x]));
    }
  }

  lemma OneString(x: string)
    ensures EncodeStrings([x]) == EncodeString(x) && High(EncodeStrings([])) == 0 && [] + [x] == [x]
  {
    hide EncodeString;
    assert ([x])[1..] == [];
  }

  // ---- Fixed-width numbers --------------------------------------------------------------

  lemma {:induction false} LEsLength(w: nat, xs: seq<nat>)
    ensures |LEs(w, xs)| == w * |xs|
  {
    hide LE;
    if xs != [] { LEsLength(w, xs[1..]); }
  }

  lemma LESpelled(w: nat, s: seq<byte>)
    ensures var r := ParseLE(w, s); r.Ok? ==> s == LE(w, r.value.0) + r.value.1
  {
    hide LE, FromLE;
    if w <= |s| { LEOfFromLE(s[..w]); }
  }

  /** Fixed-width numbers have one spelling. */
  lemma LEsSpelled(w: nat, n: nat, s: seq<byte>)
    ensures var r := ParseLEs(w, n, [], s);
            r.Ok? ==> |r.value.0| == n && s == LEs(w, r.value.0) + r.value.1
  {
    hide ParseLEs, LEs;
    SpelledFrom(w, n, [], s);
    LEsLength(w, []);
    assert LEs(w, []) + s == s;
  }

  lemma {:induction false} SpelledFrom(w: nat, n: nat, v: seq<nat>, s: seq<byte>)
    ensures var r := ParseLEs(w, n, v, s);
            r.Ok? ==> |r.value.0| == |v| + n && LEs(w, v) + s == LEs(w, r.value.0) + r.value.1
  {
    hide LE, ParseLE, LEs;
    if n > 0 && ParseLE(w, s).Ok? {
      LESpelled(w, s);
      var (x, rest) := ParseLE(w, s).value;
      SpelledFrom(w, n - 1, v + [x], rest);
      LEsSnoc(w, v, x);
      Associate(LEs(w, v), LE(w, x), rest);
    }
  }

  lemma {:induction false} LEsSnoc(w: nat, v: seq<nat>, x: nat)
    ensures LEs(w, v + [x]) == LEs(w, v) + LE(w, x)
  {
    hide LE;
    if v == [] {
      assert ([x])[1..] == [];
    } else {
      LEsSnoc(w, v[1..], x);
      assert (v + [x])[1..] == v[1..] + [x];
    }
  }

  lemma OffsetsSpelled(rows: nat, s: seq<byte>)
    ensures var r := ParseOffsets(rows, s); r.Ok? ==> s == LEs(8, r.value.0) + r.value.1
  {
    hide ParseLEs, LEs;
    LEsSpelled(8, rows, s);
  }

  lemma {:induction false} DiscriminatorsSpelled(w: nat, n: nat, nil: nat, numTypes: nat, v: seq<nat>, s: seq<byte>)
    ensures var r := ParseDiscriminators(w, n, nil, numTypes, v, s);
            r.Ok? ==> |r.value.0| == |v| + n && LEs(w, v) + s == LEs(w, r.value.0) + r.value.1
  {
    hide LE, ParseLE, LEs;
    if n > 0 && ParseLE(w, s).Ok? {
      LESpelled(w, s);
      var (x, rest) := ParseLE(w, s).value;
      if x == nil || x < numTypes {
        DiscriminatorsSpelled(w, n - 1, nil, numTypes, v + [x], rest);
      }
      LEsSnoc(w, v, x);
      Associate(LEs(w, v), LE(w, x), rest);
    }
  }

  lemma DiscriminatorsHigh(w: nat, n: nat, nil: nat, numTypes: nat, s: seq<byte>)
    ensures var r := ParseDiscriminators(w, n, nil, numTypes, [], s);
            r.Ok? ==>
              |r.value.0| == n && High(LEs(w, r.value.0)) + High(r.value.1) == High(s) && |r.value.1| <= |s|
  {
    hide ParseDiscriminators, LEs, High;
    DiscriminatorsSpelled(w, n, nil, numTypes, [], s);
    LEsLength(w, []);
    assert LEs(w, []) + s == s;
    match ParseDiscriminators(w, n, nil, numTypes, [], s)
    case Ok((ds, rest)) => HighAppend(LEs(w, ds), rest);
    case Err(_) =>
  }

  // ---- Columns -----------------------------------------------------------------------------

  /** No dictionary anywhere in the type. */
  predicate NoDictionary(t: Ty) {
    match t
    case TLowCardinality(_) => false
    case TNullable(u) => NoDictionary(u)
    case TArray(u) => NoDictionary(u)
    case TTuple(ts) => forall i :: 0 <= i < |ts| ==> NoDictionary(ts[i])
    case TMap(k, v) => NoDictionary(k) && NoDictionary(v)
    case TNested(_, ts) => forall i :: 0 <= i < |ts| ==> NoDictionary(ts[i])
    case TVariant(ts, _) => forall i :: 0 <= i < |ts| ==> NoDictionary(ts[i])
    case _ => true
  }

  lemma {:induction false} StatelessNoDictionary(t: Ty)
    requires Stateless(t)
    ensures NoDictionary(t)
  {
    match t
    case TNullable(u) => StatelessNoDictionary(u);
    case TArray(u) => StatelessNoDictionary(u);
    case TTuple(ts) => forall i | 0 <= i < |ts| ensures NoDictionary(ts[i]) { StatelessNoDictionary(ts[i]); }
    case TNested(_, ts) => forall i | 0 <= i < |ts| ensures NoDictionary(ts[i]) { StatelessNoDictionary(ts[i]); }
    case TMap(k, v) => StatelessNoDictionary(k); StatelessNoDictionary(v);
    case _ =>
  }

  lemma {:induction false} PlainNoDictionary(t: Ty)
    requires PlainType(t)
    ensures NoDictionary(t)
  {
    match t
    case TNullable(u) => PlainNoDictionary(u);
    case TArray(u) => PlainNoDictionary(u);
    case TTuple(ts) => forall i | 0 <= i < |ts| ensures NoDictionary(ts[i]) { PlainNoDictionary(ts[i]); }
    case TNested(_, ts) => forall i | 0 <= i < |ts| ensures NoDictionary(ts[i]) { PlainNoDictionary(ts[i]); }
    case TVariant(ts, _) => forall i | 0 <= i < |ts| ensures NoDictionary(ts[i]) { PlainNoDictionary(ts[i]); }
    case TMap(k, v) => PlainNoDictionary(k); PlainNoDictionary(v);
    case _ =>
  }

  /** Decoding uses up at least the high bytes that encoding would write, and
      gives back no more bytes than it got. */
  ghost predicate Spends(r: Result<(Col, seq<byte>)>, s: seq<byte>) {
    r.Ok? ==> High(Encode(r.value.0)) + High(r.value.1) <= High(s) && |r.value.1| <= |s|
  }

  lemma LeafHigh(t: Ty, rows: nat, s: seq<byte>)
    requires t.TScalar? || t.TStr? || t.TFixed? || t.TNothing? || t.TJson?
    ensures Spends(DecodeTree(t, rows, s), s)
  {
    hide ParseLEs, ParseLE, ParseStrings, LEs, LE, EncodeStrings, High, Pow256;
    NothingHigh();
    if DecodeTree(t, rows, s).Ok? {
      var (c, rest) := DecodeTree(t, rows, s).value;
      match t
      case TScalar(kind) =>
        LEsSpelled(Width(kind), rows, s);
        HighAppend(Encode(c), rest);
      case TStr => StringsHigh(rows, [], s);
      case TFixed(n) => TakeHigh(n * rows, s);
      case TNothing =>
        TakeHigh(rows, s);
        PlaceholdersHigh(rows);
      case TJson =>
        if rows > 0 {
          LESpelled(8, s);
          var s1 := ParseLE(8, s).value.1;
          HighAppend(LE(8, 1), s1);
          StringsHigh(rows, [], s1);
          HighAppend(LE(8, 1), EncodeStrings(c.texts));
        }
    }
  }

  lemma NothingHigh()
    ensures High([]) == 0 && EncodeStrings([]) == [] && forall w: nat :: LEs(w, []) == []
    ensures EncodeEach([]) == []
  {
  }

  lemma {:induction false} PlaceholdersHigh(rows: nat)
    ensures High(Placeholders(rows)) == 0
  {
    if rows > 0 {
      PlaceholdersHigh(rows - 1);
      assert Placeholders(rows)[1..] == Placeholders(rows - 1);
    }
  }

  lemma {:induction false} DecodeHigh(t: Ty, rows: nat, s: seq<byte>)
    requires NoDictionary(t)
    ensures Spends(DecodeTree(t, rows, s), s)
    decreases Rank(t), t, 1
  {
    hide Spends, TypeOf, DecodeTree, Encode, High;
    match t
    case Bad(_) => BadHigh(t, rows, s);
    case TNullable(_) => NullableHigh(t, rows, s);
    case TArray(_) => ArrayHigh(t, rows, s);
    case TMap(_, _) => MapHigh(t, rows, s);
    case TTuple(_) => TupleHigh(t, rows, s);
    case TNested(_, _) => NestedHigh(t, rows, s);
    case TVariant(_, _) => VariantHigh(t, rows, s);
    case TDynamic => DynamicHigh(rows, s);
    case _ => LeafHigh(t, rows, s);
  }

  lemma BadHigh(t: Ty, rows: nat, s: seq<byte>)
    requires t.Bad?
    ensures Spends(DecodeTree(t, rows, s), s)
  {
  }

  lemma NullableHigh(t: Ty, rows: nat, s: seq<byte>)
    requires t.TNullable? && NoDictionary(t)
    ensures Spends(DecodeTree(t, rows, s), s)
    decreases Rank(t), t, 0
  {
    hide High;
    if rows <= |s| {
      TakeHigh(rows, s);
      DecodeHigh(t.t, rows, s[rows..]);
      match DecodeTree(t.t, rows, s[rows..])
      case Err(_) =>
      case Ok((inner, _)) => HighAppend(s[..rows], Encode(inner));
    }
  }

  lemma ArrayHigh(t: Ty, rows: nat, s: seq<byte>)
    requires t.TArray? && NoDictionary(t)
    ensures Spends(DecodeTree(t, rows, s), s)
    decreases Rank(t), t, 0
  {
    hide High, ParseOffsets, LEs, Encode;
    OffsetsSpelled(rows, s);
    match ParseOffsets(rows, s)
    case Err(_) =>
    case Ok((offsets, s1)) =>
      HighAppend(LEs(8, offsets), s1);
      DecodeHigh(t.t, Last(offsets), s1);
      match DecodeTree(t.t, Last(offsets), s1)
      case Err(_) =>
      case Ok((items, _)) =>
        ArrayBytes(items, offsets);
        HighAppend(LEs(8, offsets), Encode(items));
  }

  lemma ArrayBytes(items: Col, offsets: seq<nat>)
    ensures Encode(Array(items, offsets)) == LEs(8, offsets) + Encode(items)
  {
  }

  lemma MapHigh(t: Ty, rows: nat, s: seq<byte>)
    requires t.TMap? && NoDictionary(t)
    ensures Spends(DecodeTree(t, rows, s), s)
    decreases Rank(t), t, 0
  {
    hide High, ParseOffsets, LEs, Encode;
    OffsetsSpelled(rows, s);
    match ParseOffsets(rows, s)
    case Err(_) =>
    case Ok((offsets, s1)) =>
      HighAppend(LEs(8, offsets), s1);
      DecodeHigh(t.k, Last(offsets), s1);
      match DecodeTree(t.k, Last(offsets), s1)
      case Err(_) =>
      case Ok((keys, s2)) =>
        DecodeHigh(t.v, Last(offsets), s2);
        match DecodeTree(t.v, Last(offsets), s2)
        case Err(_) =>
        case Ok((values, _)) =>
          MapParts(keys, values, offsets);
          HighAppend(Encode(keys), Encode(values));
          HighAppend(LEs(8, offsets), Encode(keys) + Encode(values));
  }

  lemma TupleHigh(t: Ty, rows: nat, s: seq<byte>)
    requires t.TTuple? && NoDictionary(t)
    ensures Spends(DecodeTree(t, rows, s), s)
    decreases Rank(t), t, 0
  {
    hide High, DecodeEach;
    NothingHigh();
    if t.ts == [] {
      if rows <= |s| { TakeHigh(rows, s); }
    } else {
      EachHigh(t.ts, Same(|t.ts|, rows), s, []);
    }
  }

  lemma NestedHigh(t: Ty, rows: nat, s: seq<byte>)
    requires t.TNested? && NoDictionary(t)
    ensures Spends(DecodeTree(t, rows, s), s)
    decreases Rank(t), t, 0
  {
    hide High, ParseOffsets, LEs, DecodeEach, EncodeEach;
    NothingHigh();
    OffsetsSpelled(rows, s);
    match ParseOffsets(rows, s)
    case Err(_) =>
    case Ok((offsets, s1)) =>
      HighAppend(LEs(8, offsets), s1);
      EachHigh(t.ts, Same(|t.ts|, Last(offsets)), s1, []);
      match DecodeEach(t.ts, Same(|t.ts|, Last(offsets)), s1, [])
      case Err(_) =>
      case Ok((fields, _)) => HighAppend(LEs(8, offsets), EncodeEach(fields));
  }

  lemma VariantHigh(t: Ty, rows: nat, s: seq<byte>)
    requires t.TVariant? && NoDictionary(t)
    ensures Spends(DecodeTree(t, rows, s), s)
    decreases Rank(t), t, 0
  {
    hide High, ParseLE, LE, LEs, ParseDiscriminators, DecodeEach, EncodeEach, Slots, Counts;
    NothingHigh();
    var n := |t.ts|;
    if rows == 0 {
      EachHigh(t.ts, Same(n, 0), s, []);
    } else if DecodeTree(t, rows, s).Ok? {
      LESpelled(8, s);
      var s1 := ParseLE(8, s).value.1;
      DiscriminatorsHigh(1, rows, NULL_DISCRIMINATOR, n, s1);
      var (ds, s2) := ParseDiscriminators(1, rows, NULL_DISCRIMINATOR, n, [], s1).value;
      var counts := Counts(ds, NULL_DISCRIMINATOR, n);
      EachHigh(t.ts, counts, s2, []);
      var columns := DecodeEach(t.ts, counts, s2, []).value.0;
      HighAppend(LE(8, 0), s1);
      HighAppend(LEs(1, ds), EncodeEach(columns));
      HighAppend(LE(8, 0), LEs(1, ds) + EncodeEach(columns));
    }
  }

  lemma DynamicHigh(rows: nat, s: seq<byte>)
    ensures Spends(DecodeTree(TDynamic, rows, s), s)
    decreases Rank(TDynamic), TDynamic, 0
  {
    hide High, ParseLE, LE, LEs, Leb, ParseVarUInt, ParseStrings, EncodeStrings, ParseDiscriminators, DecodeEach;
    hide EncodeEach, Slots, Counts, AnyStateful, RuntimeTypes, DiscriminatorWidth, Pow256;
    NothingHigh();
    if rows > 0 && DecodeTree(TDynamic, rows, s).Ok? {
      LESpelled(8, s);
      var s1 := ParseLE(8, s).value.1;
      var (num, s2) := ParseVarUInt(s1).value;
      VarUIntHigh(s1);
      StringsHigh(num, [], s2);
      var (names, s3) := ParseStrings(num, [], s2).value;
      RuntimeStateless(names);
      var n, ts := |names|, RuntimeTypes(names);
      forall i | 0 <= i < |ts| ensures NoDictionary(ts[i]) { StatelessNoDictionary(ts[i]); }
      DiscriminatorsHigh(DiscriminatorWidth(n), rows, n, n, s3);
      var (ds, s4) := ParseDiscriminators(DiscriminatorWidth(n), rows, n, n, [], s3).value;
      EachHigh(ts, Counts(ds, n, n), s4, []);
      var columns := DecodeEach(ts, Counts(ds, n, n), s4, []).value.0;
      var e3 := LEs(DiscriminatorWidth(n), ds) + EncodeEach(columns);
      var e2 := EncodeStrings(names) + e3;
      HighAppend(LE(8, 3), s1);
      HighAppend(LEs(DiscriminatorWidth(n), ds), EncodeEach(columns));
      HighAppend(EncodeStrings(names), e3);
      HighAppend(Leb(n), e2);
      HighAppend(LE(8, 3), Leb(n) + e2);
    }
  }

  lemma {:induction false} EachHigh(ts: seq<Ty>, counts: seq<nat>, s: seq<byte>, done: seq<Col>)
    requires |counts| == |ts| && forall i :: 0 <= i < |ts| ==> NoDictionary(ts[i])
    ensures var r := DecodeEach(ts, counts, s, done);
            r.Ok? ==>
              && High(EncodeEach(r.value.0)) + High(r.value.1) <= High(EncodeEach(done)) + High(s)
              && |r.value.1| <= |s|
    decreases RankAll(ts), ts, 0
  {
    hide High, DecodeTree, NoDictionary, Encode, EncodeEach;
    if ts != [] {
      DecodeHigh(ts[0], counts[0], s);
      match DecodeTree(ts[0], counts[0], s)
      case Err(_) =>
      case Ok((c, rest)) =>
        EachHigh(ts[1..], counts[1..], rest, done + [c]);
        EachSnoc(done, c);
    }
  }

  lemma {:induction false} EachSnoc(cols: seq<Col>, c: Col)
    ensures High(EncodeEach(cols + [c])) == High(EncodeEach(cols)) + High(Encode(c))
  {
    hide High, Encode;
    if cols == [] {
      OneColumn(c);
    } else {
      EachSnoc(cols[1..], c);
      assert (cols + [c])[1..] == cols[1..] + [c];
      HighAppend(Encode(cols[0]), EncodeEach(cols[1..]));
      HighAppend(Encode(cols[0]), EncodeEach(cols[1..] + [c]));
    }
  }

  lemma OneColumn(c: Col)
    ensures EncodeEach([c]) == Encode(c) && High(EncodeEach([])) == 0 && [] + [c] == [c]
  {
    hide Encode;
    assert ([c])[1..] == [];
  }
}
