/** src/proto/column.rs: the native encoding of column data, written without
    row framing and read back from a type and a row count alone. */
module Codec {
  import opened Base
  import opened Wire
  import opened ByteIO
  import opened Column
  import opened TypeString
  import opened TypeTree

  const MAX_WIRE_COUNT: nat := 0x1_0000_0000

  // ---- Encoding ----------------------------------------------------------------

  function KeyCode(keyWidth: nat): nat {
    if keyWidth == 1 then 0 else if keyWidth == 2 then 1 else if keyWidth == 4 then 2
    else if keyWidth == 8 then 3 else 0
  }

  /** The key type, HasAdditionalKeys (bit 9) and NeedUpdateDictionary (bit 10). */
  function KeyMetadata(keyWidth: nat): nat {
    KeyCode(keyWidth) + 0x200 + 0x400
  }

  function DiscriminatorWidth(numTypes: nat): (w: nat)
    ensures w in {1, 2, 4, 8}
  {
    if numTypes <= 0xFF then 1
    else if numTypes <= 0xFFFF then 2
    else if numTypes <= 0xFFFF_FFFF then 4
    else 8
  }

  function Encode(c: Col): seq<byte>
    decreases c
  {
    match c
    case Scalar(kind, vals) => LEs(Width(kind), vals)
    case Str(strs) => EncodeStrings(strs)
    case FixedStr(_, data) => data
    case Nothing(rows) => Placeholders(rows)
    case Json(texts) => if texts == [] then [] else LE(8, 1) + EncodeStrings(texts)
    case Nullable(inner, nulls) => nulls + Encode(inner)
    case Array(items, offsets) => LEs(8, offsets) + Encode(items)
    case Tuple(elems) => EncodeEach(elems)
    case Map(keys, values, offsets) => LEs(8, offsets) + (Encode(keys) + Encode(values))
    case Nested(_, fields, offsets) => LEs(8, offsets) + EncodeEach(fields)
    case LowCardinality(dict, refs, keyWidth) =>
      if refs == [] then []
      else LE(8, 1) + (LE(8, KeyMetadata(keyWidth)) + (LE(8, RowCount(dict))
           + (Encode(dict) + (LE(8, |refs|) + LEs(keyWidth, refs)))))
    case Variant(ds, _, columns) =>
      if ds == [] then [] else LE(8, 0) + (LEs(1, ds) + EncodeEach(columns))
    case Dynamic(typeNames, ds, _, columns) =>
      if ds == [] then []
      else LE(8, 3) + (Leb(|typeNames|) + (EncodeStrings(typeNames)
           + (LEs(DiscriminatorWidth(|typeNames|), ds) + EncodeEach(columns))))
  }

  function EncodeEach(cols: seq<Col>): seq<byte>
    decreases cols
  {
    if cols == [] then [] else Encode(cols[0]) + EncodeEach(cols[1..])
  }

  /** The ASCII zeros written for a column without values. */
  function Placeholders(rows: nat): (s: seq<byte>)
    ensures |s| == rows
  {
    seq(rows, _ => 0x30)
  }

  // ---- Decoding ----------------------------------------------------------------

  function CheckedCount(n: nat): Result<nat> {
    if n > MAX_WIRE_COUNT then Err(InvalidData) else Ok(n)
  }

  /** Array offsets: never decreasing, the last one within bounds. */
  function ParseOffsets(rows: nat, s: seq<byte>): Parsed<seq<nat>> {
    var (offsets, rest) :- ParseLEs(8, rows, [], s);
    if !Monotone(offsets) then Err(InvalidData)
    else
      var _ :- CheckedCount(Last(offsets));
      Ok((offsets, rest))
  }

  /** Discriminators, each either `nil` or below `numTypes`. */
  function ParseDiscriminators(width: nat, n: nat, nil: nat, numTypes: nat, ds: seq<nat>, s: seq<byte>)
    : Parsed<seq<nat>>
  {
    if n == 0 then Ok((ds, s))
    else
      var (d, rest) :- ParseLE(width, s);
      if d == nil || d < numTypes then ParseDiscriminators(width, n - 1, nil, numTypes, ds + [d], rest)
      else Err(InvalidData)
  }

  /** For each row, how many earlier rows have its discriminator. */
  function Slots(ds: seq<nat>, nil: nat): (r: seq<nat>)
    ensures |r| == |ds|
  {
    seq(|ds|, i requires 0 <= i < |ds| => if ds[i] == nil then 0 else CountOf(ds[..i], ds[i]))
  }

  function Counts(ds: seq<nat>, nil: nat, numTypes: nat): (r: seq<nat>)
    ensures |r| == numTypes
  {
    seq(numTypes, i requires 0 <= i => if i == nil then 0 else CountOf(ds, i))
  }

  function WidthOfKeyCode(code: nat): Result<nat> {
    if code == 0 then Ok(1) else if code == 1 then Ok(2) else if code == 2 then Ok(4)
    else if code == 3 then Ok(8) else Err(InvalidData)
  }

  /** The runtime types of a Dynamic column; stateful ones are refused. */
  function RuntimeTypes(names: seq<string>): (ts: seq<Ty>)
    ensures |ts| == |names| && forall i :: 0 <= i < |names| ==> ts[i] == TypeOf(names[i])
  {
    seq(|names|, i requires 0 <= i < |names| => TypeOf(names[i]))
  }

  predicate AnyStateful(names: seq<string>) {
    exists i :: 0 <= i < |names| && Stateful(names[i])
  }

  lemma RuntimeStateless(names: seq<string>)
    requires !AnyStateful(names)
    ensures AllStateless(RuntimeTypes(names))
  {
    hide TypeOf, Stateful, Stateless;
    forall i | 0 <= i < |names| ensures Stateless(RuntimeTypes(names)[i]) {
      StatelessType(names[i]);
    }
  }

  predicate AllStateless(ts: seq<Ty>) {
    forall i :: 0 <= i < |ts| ==> Stateless(ts[i])
  }

  function Rank(t: Ty): nat {
    if Stateless(t) then 0 else 1
  }

  function RankAll(ts: seq<Ty>): nat {
    if AllStateless(ts) then 0 else 1
  }

  function DecodeTree(t: Ty, rows: nat, s: seq<byte>): Parsed<Col>
    decreases Rank(t), t
  {
    match t
    case Bad(e) => Err(e)
    case TScalar(kind) =>
      var (vals, rest) :- ParseLEs(Width(kind), rows, [], s);
      Ok((Scalar(kind, vals), rest))
    case TStr =>
      var (strs, rest) :- ParseStrings(rows, [], s);
      Ok((Str(strs), rest))
    case TFixed(n) =>
      if n * rows >= U64_BOUND then Err(InvalidData)
      else
        var (data, rest) :- Take(n * rows, s);
        Ok((FixedStr(n, data), rest))
    case TNothing =>
      var (_, rest) :- Take(rows, s);
      Ok((Nothing(rows), rest))
    case TJson =>
      if rows == 0 then Ok((Json([]), s))
      else
        var (version, s1) :- ParseLE(8, s);
        if version != 1 then Err(Unsupported)
        else
          var (texts, rest) :- ParseStrings(rows, [], s1);
          Ok((Json(texts), rest))
    case TNullable(u) =>
      var (nulls, s1) :- Take(rows, s);
      var (inner, rest) :- DecodeTree(u, rows, s1);
      Ok((Nullable(inner, nulls), rest))
    case TArray(u) =>
      var (offsets, s1) :- ParseOffsets(rows, s);
      var (items, rest) :- DecodeTree(u, Last(offsets), s1);
      Ok((Array(items, offsets), rest))
    case TTuple(ts) =>
      if ts == [] then
        var (_, rest) :- Take(rows, s);
        Ok((Tuple([]), rest))
      else
        var (elems, rest) :- DecodeEach(ts, Same(|ts|, rows), s, []);
        Ok((Tuple(elems), rest))
    case TMap(k, v) =>
      var (offsets, s1) :- ParseOffsets(rows, s);
      var (keys, s2) :- DecodeTree(k, Last(offsets), s1);
      var (values, rest) :- DecodeTree(v, Last(offsets), s2);
      Ok((Map(keys, values, offsets), rest))
    case TNested(names, ts) =>
      var (offsets, s1) :- ParseOffsets(rows, s);
      var (fields, rest) :- DecodeEach(ts, Same(|ts|, Last(offsets)), s1, []);
      Ok((Nested(names, fields, offsets), rest))
    case TLowCardinality(u) =>
      if rows == 0 then
        var (dict, rest) :- DecodeTree(u, 0, s);
        Ok((LowCardinality(dict, [], 1), rest))
      else
        var (prefix, s1) :- ParseLE(8, s);
        if prefix != 1 then Err(Unsupported)
        else
          var (metadata, s2) :- ParseLE(8, s1);
          var keyWidth :- WidthOfKeyCode(metadata % 256);
          var (size, s3) :- ParseLE(8, s2);
          var _ :- CheckedCount(size);
          var (dict, s4) :- DecodeTree(u, size, s3);
          var (count, s5) :- ParseLE(8, s4);
          var _ :- CheckedCount(count);
          var (refs, rest) :- ParseLEs(keyWidth, count, [], s5);
          Ok((LowCardinality(dict, refs, keyWidth), rest))
    case TVariant(ts, barred) =>
      if barred || !AllStateless(ts) then Err(Unsupported)
      else if rows == 0 then
        var (columns, rest) :- DecodeEach(ts, Same(|ts|, 0), s, []);
        Ok((Variant([], [], columns), rest))
      else
        var (mode, s1) :- ParseLE(8, s);
        if mode != 0 then Err(Unsupported)
        else
          var (ds, s2) :- ParseDiscriminators(1, rows, NULL_DISCRIMINATOR, |ts|, [], s1);
          var (columns, rest) :- DecodeEach(ts, Counts(ds, NULL_DISCRIMINATOR, |ts|), s2, []);
          Ok((Variant(ds, Slots(ds, NULL_DISCRIMINATOR), columns), rest))
    case TDynamic =>
      if rows == 0 then Ok((Dynamic([], [], [], []), s))
      else
        var (version, s1) :- ParseLE(8, s);
        if version != 3 then Err(Unsupported)
        else
          var (num, s2) :- ParseVarUInt(s1);
          var (names, s3) :- ParseStrings(num, [], s2);
          if AnyStateful(names) then Err(Unsupported)
          else
            var n := |names|;
            var (ds, s4) :- ParseDiscriminators(DiscriminatorWidth(n), rows, n, n, [], s3);
            RuntimeStateless(names);
            var (columns, rest) :- DecodeEach(RuntimeTypes(names), Counts(ds, n, n), s4, []);
            Ok((Dynamic(names, ds, Slots(ds, n), columns), rest))
  }

  function Same(n: nat, rows: nat): (r: seq<nat>)
    ensures |r| == n && forall i :: 0 <= i < n ==> r[i] == rows
  {
    seq(n, _ => rows)
  }

  function DecodeEach(ts: seq<Ty>, counts: seq<nat>, s: seq<byte>, cols: seq<Col>): Parsed<seq<Col>>
    requires |counts| == |ts|
    decreases RankAll(ts), ts
  {
    if ts == [] then Ok((cols, s))
    else
      var (c, rest) :- DecodeTree(ts[0], counts[0], s);
      DecodeEach(ts[1..], counts[1..], rest, cols + [c])
  }

  // ---- Columns of a type ----------------------------------------------------------

  /** The column has the shape of the type and values of Rust's widths. */
  predicate WellTyped(c: Col, t: Ty)
    decreases c
  {
    match t
    case TScalar(kind) => c.Scalar? && c.kind == kind && AllBelow(c.vals, Pow256(Width(kind)))
    case TStr => c.Str? && AllRustStrings(c.strs)
    case TFixed(n) => c.FixedStr? && c.n == n && |c.data| < U64_BOUND
    case TNothing => c.Nothing?
    case TJson => c.Json? && AllRustStrings(c.texts)
    case TNullable(u) => c.Nullable? && WellTyped(c.inner, u)
    case TArray(u) => c.Array? && AllBelow(c.offsets, U64_BOUND) && WellTyped(c.items, u)
    case TTuple(ts) =>
      c.Tuple? && |c.elems| == |ts| && forall i :: 0 <= i < |ts| ==> WellTyped(c.elems[i], ts[i])
    case TMap(k, v) =>
      c.Map? && AllBelow(c.offsets, U64_BOUND) && WellTyped(c.keys, k) && WellTyped(c.values, v)
    case TNested(names, ts) =>
      && c.Nested? && c.names == names && AllBelow(c.offsets, U64_BOUND) && |c.fields| == |ts|
      && forall i :: 0 <= i < |ts| ==> WellTyped(c.fields[i], ts[i])
    case TLowCardinality(u) =>
      && c.LowCardinality? && WellTyped(c.dict, u)
      && RowCount(c.dict) < U64_BOUND && |c.refs| < U64_BOUND
    case TVariant(ts, _) =>
      && c.Variant? && AllBelow(c.discriminators, 0x100) && |c.columns| == |ts|
      && forall i :: 0 <= i < |ts| ==> WellTyped(c.columns[i], ts[i])
    case TDynamic =>
      && c.Dynamic? && |c.typeNames| == |c.columns| < U64_BOUND
      && AllRustStrings(c.typeNames)
      && forall i :: 0 <= i < |c.columns| ==> WellTyped(c.columns[i], TypeOf(c.typeNames[i]))
    case Bad(_) => false
  }

  /** Every count on the wire is within the reader's sanity bounds. */
  predicate Fits(c: Col) {
    match c
    case Str(strs) => AllStringsFit(strs)
    case Json(texts) => AllStringsFit(texts)
    case Nullable(inner, _) => Fits(inner)
    case Array(items, offsets) => Last(offsets) <= MAX_WIRE_COUNT && Fits(items)
    case Tuple(elems) => forall i :: 0 <= i < |elems| ==> Fits(elems[i])
    case Map(keys, values, offsets) => Last(offsets) <= MAX_WIRE_COUNT && Fits(keys) && Fits(values)
    case Nested(_, fields, offsets) =>
      Last(offsets) <= MAX_WIRE_COUNT && forall i :: 0 <= i < |fields| ==> Fits(fields[i])
    case LowCardinality(dict, refs, _) =>
      refs == [] || (RowCount(dict) <= MAX_WIRE_COUNT && Fits(dict) && |refs| <= MAX_WIRE_COUNT)
    case Variant(ds, _, columns) => ds == [] || forall i :: 0 <= i < |columns| ==> Fits(columns[i])
    case Dynamic(names, ds, _, columns) =>
      ds == [] || (AllStringsFit(names) && forall i :: 0 <= i < |columns| ==> Fits(columns[i]))
    case _ => true
  }

  /** No Variant of the type has a stateful element, by the word test on its text
      or by its tree; the decoder refuses one that has. */
  predicate Unbarred(t: Ty) {
    match t
    case TVariant(ts, barred) => !barred && AllStateless(ts)
    case TNullable(u) => Unbarred(u)
    case TArray(u) => Unbarred(u)
    case TTuple(ts) => forall i :: 0 <= i < |ts| ==> Unbarred(ts[i])
    case TMap(k, v) => Unbarred(k) && Unbarred(v)
    case TNested(_, ts) => forall i :: 0 <= i < |ts| ==> Unbarred(ts[i])
    case TLowCardinality(u) => Unbarred(u)
    case _ => true
  }

  /** No Dynamic column on the wire has a runtime type with a stateful word; the
      decoder refuses one that has. */
  predicate Routed(c: Col) {
    match c
    case Nullable(inner, _) => Routed(inner)
    case Array(items, _) => Routed(items)
    case Tuple(elems) => forall i :: 0 <= i < |elems| ==> Routed(elems[i])
    case Map(keys, values, _) => Routed(keys) && Routed(values)
    case Nested(_, fields, _) => forall i :: 0 <= i < |fields| ==> Routed(fields[i])
    case LowCardinality(dict, refs, _) => refs == [] || Routed(dict)
    case Variant(ds, _, columns) => ds == [] || forall i :: 0 <= i < |columns| ==> Routed(columns[i])
    case Dynamic(names, ds, _, columns) =>
      ds == [] || (!AnyStateful(names) && forall i :: 0 <= i < |columns| ==> Routed(columns[i]))
    case _ => true
  }

  /** The column of the same type without rows, as the decoder makes it. */
  function Emptied(c: Col): Col {
    match c
    case Scalar(kind, _) => Scalar(kind, [])
    case Str(_) => Str([])
    case FixedStr(n, _) => FixedStr(n, [])
    case Nothing(_) => Nothing(0)
    case Json(_) => Json([])
    case Nullable(inner, _) => Nullable(Emptied(inner), [])
    case Array(items, _) => Array(Emptied(items), [])
    case Tuple(elems) => Tuple(EmptiedEach(elems))
    case Map(keys, values, _) => Map(Emptied(keys), Emptied(values), [])
    case Nested(names, fields, _) => Nested(names, EmptiedEach(fields), [])
    case LowCardinality(dict, _, _) => LowCardinality(Emptied(dict), [], 1)
    case Variant(_, _, columns) => Variant([], [], EmptiedEach(columns))
    case Dynamic(_, _, _, _) => Dynamic([], [], [], [])
  }

  function EmptiedEach(cols: seq<Col>): (r: seq<Col>)
    ensures |r| == |cols| && forall i :: 0 <= i < |cols| ==> r[i] == Emptied(cols[i])
    decreases cols
  {
    seq(|cols|, i requires 0 <= i < |cols| => Emptied(cols[i]))
  }

  /** What survives the wire. Slots are recomputed, and a column without rows
      loses its dictionary, its key width and its runtime types. */
  function Normal(c: Col): Col {
    match c
    case Nullable(inner, nulls) => Nullable(Normal(inner), nulls)
    case Array(items, offsets) => Array(Normal(items), offsets)
    case Tuple(elems) => Tuple(NormalEach(elems))
    case Map(keys, values, offsets) => Map(Normal(keys), Normal(values), offsets)
    case Nested(names, fields, offsets) => Nested(names, NormalEach(fields), offsets)
    case LowCardinality(dict, refs, keyWidth) =>
      if refs == [] then Emptied(c) else LowCardinality(Normal(dict), refs, keyWidth)
    case Variant(ds, _, columns) =>
      if ds == [] then Emptied(c) else Variant(ds, Slots(ds, NULL_DISCRIMINATOR), NormalEach(columns))
    case Dynamic(names, ds, _, columns) =>
      if ds == [] then Emptied(c) else Dynamic(names, ds, Slots(ds, |columns|), NormalEach(columns))
    case _ => c
  }

  function NormalEach(cols: seq<Col>): (r: seq<Col>)
    ensures |r| == |cols| && forall i :: 0 <= i < |cols| ==> r[i] == Normal(cols[i])
    decreases cols
  {
    seq(|cols|, i requires 0 <= i < |cols| => Normal(cols[i]))
  }
}
