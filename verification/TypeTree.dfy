/** The type tree a type string stands for. The decoder is driven by strings;
    `TypeOf` is everything it ever works out from one, errors included. */
module TypeTree {
  import opened Base
  import opened Column
  import opened TypeString

  datatype Ty =
    | Bad(error: Error)
    | TScalar(kind: Kind)
    | TStr
    | TFixed(n: nat)
    | TNothing
    | TJson
    | TNullable(t: Ty)
    | TArray(t: Ty)
    | TTuple(ts: seq<Ty>)
    | TMap(k: Ty, v: Ty)
    | TNested(names: seq<string>, ts: seq<Ty>)
    | TLowCardinality(t: Ty)
    | TVariant(ts: seq<Ty>, barred: bool)  // barred: an element's text has a stateful word
    | TDynamic

  // ---- The recursion goes down --------------------------------------------------

  function StateRank(s: string): nat {
    if Stateful(s) then 1 else 0
  }

  ghost predicate Below(t: string, s: string) {
    && StateRank(t) <= StateRank(s)
    && GeoRank(t) <= GeoRank(s)
    && Parens(t) < Parens(s)
  }

  lemma DeeperIsBelow(t: string, s: string)
    requires Deeper(t, s)
    ensures Below(t, s)
  {
    hide Stateful, GeoRank;
    MeasureInside(t, s);
  }

  lemma InnerBelow(s: string)
    ensures ParseInner(s).Ok? ==> Below(ParseInner(s).value, s)
  {
    hide Deeper, Below, ParseInner;
    ParseInnerDeeper(s);
    if ParseInner(s).Ok? { DeeperIsBelow(ParseInner(s).value, s); }
  }

  lemma BelowTrans(a: string, b: string, c: string)
    requires Below(a, b) && Below(b, c)
    ensures Below(a, c)
  {
    hide Stateful, GeoRank, Parens;
  }

  lemma AggregateBelow(s: string)
    ensures ParseAggregate(s).Ok? ==> Below(ParseAggregate(s).value, s)
  {
    hide Deeper, Below, ParseAggregate;
    ParseAggregateDeeper(s);
    if ParseAggregate(s).Ok? { DeeperIsBelow(ParseAggregate(s).value, s); }
  }

  lemma TupleBelow(s: string)
    ensures ParseTuple(s).Ok? ==> forall i :: 0 <= i < |ParseTuple(s).value| ==> Below(ParseTuple(s).value[i], s)
  {
    hide Deeper, Below, ParseTuple;
    ParseTupleDeeper(s);
    if ParseTuple(s).Ok? {
      forall i | 0 <= i < |ParseTuple(s).value| ensures Below(ParseTuple(s).value[i], s) {
        DeeperIsBelow(ParseTuple(s).value[i], s);
      }
    }
  }

  lemma VariantBelow(s: string)
    ensures ParseVariant(s).Ok? ==> forall i :: 0 <= i < |ParseVariant(s).value| ==> Below(ParseVariant(s).value[i], s)
  {
    hide Deeper, Below, ParseVariant;
    ParseVariantDeeper(s);
    if ParseVariant(s).Ok? {
      forall i | 0 <= i < |ParseVariant(s).value| ensures Below(ParseVariant(s).value[i], s) {
        DeeperIsBelow(ParseVariant(s).value[i], s);
      }
    }
  }

  lemma NestedBelow(s: string)
    ensures ParseNested(s).Ok? ==> forall i :: 0 <= i < |ParseNested(s).value| ==> Below(ParseNested(s).value[i].1, s)
  {
    hide Deeper, Below, ParseNested;
    ParseNestedDeeper(s);
    if ParseNested(s).Ok? {
      forall i | 0 <= i < |ParseNested(s).value| ensures Below(ParseNested(s).value[i].1, s) {
        DeeperIsBelow(ParseNested(s).value[i].1, s);
      }
    }
  }

  lemma MapBelow(s: string)
    ensures ParseMap(s).Ok? ==> (Below(ParseMap(s).value.0, s) && Below(ParseMap(s).value.1, s))
  {
    hide Deeper, Below, ParseMap;
    ParseMapDeeper(s);
    if ParseMap(s).Ok? {
      DeeperIsBelow(ParseMap(s).value.0, s);
      DeeperIsBelow(ParseMap(s).value.1, s);
    }
  }

  // Geo names expand to longer strings, of a lower rank.

  lemma {:induction false} MissingChar(s: string, w: string, k: nat)
    requires k < |w| && w[k] !in s
    ensures !Contains(s, w)
  {
    if s != [] {
      MissingChar(s[1..], w, k);
    }
    NotPrefix(s, w, k);
  }

  lemma NotPrefix(s: string, w: string, k: nat)
    requires k < |w|
    ensures w <= s ==> w[k] in s
  {
  }

  lemma NoStateIn(s: string)
    requires 'L' !in s && 'V' !in s && 'D' !in s && 'J' !in s && 'O' !in s
    ensures !Stateful(s)
  {
    hide Contains;
    forall i | 0 <= i < |STATEFUL| ensures !Contains(s, STATEFUL[i]) {
      MissingChar(s, STATEFUL[i], 0);
    }
  }

  lemma NoGeoIn(s: string)
    requires 'M' !in s && 'P' !in s && 'R' !in s && 'L' !in s
    ensures GeoRank(s) == 0
  {
    hide Contains;
    MissingChar(s, "MultiPolygon", 0);
    MissingChar(s, "Polygon", 0);
    MissingChar(s, "MultiLineString", 0);
    MissingChar(s, "Ring", 0);
    MissingChar(s, "LineString", 0);
    MissingChar(s, "Point", 0);
  }

  lemma TupleAliasRank()
    ensures GeoRank("Tuple(Float64, Float64)") == 0
  {
    hide GeoRank;
    NoGeoIn("Tuple(Float64, Float64)");
  }

  lemma TupleAliasState()
    ensures !Stateful("Tuple(Float64, Float64)")
  {
    hide Stateful;
    NoStateIn("Tuple(Float64, Float64)");
  }

  lemma ArrayPointAlias()
    ensures GeoRank("Array(Point)") <= 1 && !Stateful("Array(Point)")
  {
    hide Contains, Stateful;
    var s := "Array(Point)";
    NoStateIn(s);
    MissingChar(s, "MultiPolygon", 0);
    MissingChar(s, "Polygon", 2);
    MissingChar(s, "MultiLineString", 0);
    MissingChar(s, "Ring", 0);
    MissingChar(s, "LineString", 0);
  }

  lemma ArrayRingAlias()
    ensures GeoRank("Array(Ring)") <= 2 && !Stateful("Array(Ring)")
  {
    hide Contains, Stateful;
    var s := "Array(Ring)";
    NoStateIn(s);
    MissingChar(s, "MultiPolygon", 0);
    MissingChar(s, "Polygon", 0);
    MissingChar(s, "MultiLineString", 0);
  }

  lemma ArrayPolygonAlias()
    ensures GeoRank("Array(Polygon)") <= 3 && !Stateful("Array(Polygon)")
  {
    hide Contains, Stateful;
    NoStateIn("Array(Polygon)");
    MissingChar("Array(Polygon)", "MultiPolygon", 0);
  }

  lemma {:induction false} BaseInside(s: string)
    ensures BaseType(s) == [] || Contains(s, BaseType(s))
  {
    hide Trim, Find;
    var i, j := TrimIsSlice(s[..Find(s, '(')]);
    assert s[..Find(s, '(')][i..j] == s[i..j];
    assert s == s[..i] + s[i..j] + s[j..];
    ContainsMiddle(s[..i], s[i..j], s[j..], s[i..j]);
  }

  lemma AliasHeads(base: string)
    ensures HeadOf(base).HAlias? ==>
              (match HeadOf(base).rank
               case 1 => base == "Point"
               case 2 => base == "Ring" || base == "LineString"
               case 3 => base == "Polygon" || base == "MultiLineString"
               case 4 => base == "MultiPolygon"
               case _ => false)
  {
  }

  lemma StatefulHeads(base: string)
    ensures HeadOf(base).HLowCardinality? ==> base == "LowCardinality"
    ensures HeadOf(base).HVariant? ==> base == "Variant"
    ensures HeadOf(base).HDynamic? ==> base == "Dynamic"
    ensures HeadOf(base).HJson? ==> base == "JSON"
  {
  }

  lemma AliasBelow(s: string, rank: nat)
    requires HeadOf(BaseType(s)) == HAlias(rank)
    ensures !Stateful(AliasTarget(rank))
    ensures GeoRank(AliasTarget(rank)) < GeoRank(s)
  {
    hide Contains, HeadOf, Stateful, BaseType;
    AliasHeads(BaseType(s));
    BaseInside(s);
    TupleAliasRank();
    TupleAliasState();
    ArrayPointAlias();
    ArrayRingAlias();
    ArrayPolygonAlias();
  }

  // ---- The tree -------------------------------------------------------------------------

  function Types(parts: seq<string>, s: string): (ts: seq<Ty>)
    requires forall i {:trigger parts[i]} :: 0 <= i < |parts| ==> Below(parts[i], s)
    ensures |ts| == |parts|
    ensures forall i :: 0 <= i < |parts| ==> assert Below(parts[i], s); ts[i] == TypeOf(parts[i])
    decreases StateRank(s), GeoRank(s), Parens(s), 0
  {
    seq(|parts|, i requires 0 <= i < |parts| => assert Below(parts[i], s); TypeOf(parts[i]))
  }

  function FieldTypes(fields: seq<(string, string)>, s: string): (ts: seq<Ty>)
    requires forall i {:trigger fields[i]} :: 0 <= i < |fields| ==> Below(fields[i].1, s)
    ensures |ts| == |fields|
    ensures forall i :: 0 <= i < |fields| ==> assert Below(fields[i].1, s); ts[i] == TypeOf(fields[i].1)
    decreases StateRank(s), GeoRank(s), Parens(s), 0
  {
    seq(|fields|, i requires 0 <= i < |fields| => assert Below(fields[i].1, s); TypeOf(fields[i].1))
  }

  function FieldNames(fields: seq<(string, string)>): seq<string> {
    seq(|fields|, i requires 0 <= i < |fields| => fields[i].0)
  }

  /** The dictionary's type: a `Nullable(` just inside is taken off. */
  function DictType(s: string): (r: Result<string>)
    ensures !r.EndsEarly()
  {
    var inner :- ParseInner(s);
    if "Nullable(" <= inner then ParseInner(inner) else Ok(inner)
  }

  lemma DictBelow(s: string)
    ensures DictType(s).Ok? ==> Below(DictType(s).value, s)
  {
    hide Below, ParseInner;
    InnerBelow(s);
    if ParseInner(s).Ok? {
      var inner := ParseInner(s).value;
      InnerBelow(inner);
      if ParseInner(inner).Ok? { BelowTrans(ParseInner(inner).value, inner, s); }
    }
  }

  /** The decoder's recursion over type strings always ends: the measure is
      whether a stateful word occurs, then the highest geo name, then the
      number of parentheses. */
  function TypeOf(s: string): Ty
    decreases StateRank(s), GeoRank(s), Parens(s), 1
  {
    match HeadOf(BaseType(s))
    case HScalar(kind) => TScalar(kind)
    case HStr => TStr
    case HNothing => TNothing
    case HJson => TJson
    case HDynamic => TDynamic
    case HFixed => (match ParseFixedSize(s) case Err(e) => Bad(e) case Ok(n) => TFixed(n))
    case HNullable =>
      InnerBelow(s);
      (match ParseInner(s) case Err(e) => Bad(e) case Ok(t) => TNullable(TypeOf(t)))
    case HArray =>
      InnerBelow(s);
      (match ParseInner(s) case Err(e) => Bad(e) case Ok(t) => TArray(TypeOf(t)))
    case HLowCardinality =>
      DictBelow(s);
      (match DictType(s) case Err(e) => Bad(e) case Ok(t) => TLowCardinality(TypeOf(t)))
    case HTuple =>
      TupleBelow(s);
      (match ParseTuple(s) case Err(e) => Bad(e) case Ok(ts) => TTuple(Types(ts, s)))
    case HMap =>
      MapBelow(s);
      (match ParseMap(s) case Err(e) => Bad(e) case Ok((k, v)) => TMap(TypeOf(k), TypeOf(v)))
    case HNested =>
      NestedBelow(s);
      (match ParseNested(s) case Err(e) => Bad(e) case Ok(fs) => TNested(FieldNames(fs), FieldTypes(fs, s)))
    case HVariant =>
      VariantBelow(s);
      (match ParseVariant(s)
       case Err(e) => Bad(e)
       case Ok(ts) => TVariant(Types(ts, s), exists i :: 0 <= i < |ts| && Stateful(ts[i])))
    case HAlias(rank) =>
      AliasBelow(s, rank);
      TypeOf(AliasTarget(rank))
    case HAggregate =>
      AggregateBelow(s);
      (match ParseAggregate(s) case Err(e) => Bad(e) case Ok(t) => TypeOf(t))
    case HUnknown => Bad(Unsupported)
  }

  /** No node of the tree has a state prefix on the wire. */
  predicate Stateless(t: Ty) {
    match t
    case TJson => false
    case TLowCardinality(_) => false
    case TVariant(_, _) => false
    case TDynamic => false
    case TNullable(u) => Stateless(u)
    case TArray(u) => Stateless(u)
    case TTuple(ts) => forall i :: 0 <= i < |ts| ==> Stateless(ts[i])
    case TNested(_, ts) => forall i :: 0 <= i < |ts| ==> Stateless(ts[i])
    case TMap(k, v) => Stateless(k) && Stateless(v)
    case _ => true
  }

  lemma StatefulHead(s: string)
    requires !Stateful(s)
    ensures var h := HeadOf(BaseType(s));
            !h.HLowCardinality? && !h.HVariant? && !h.HDynamic? && !h.HJson?
  {
    hide Contains, HeadOf, BaseType;
    StatefulHeads(BaseType(s));
    BaseInside(s);
    assert STATEFUL[0] == "LowCardinality" && STATEFUL[1] == "Variant";
    assert STATEFUL[2] == "Dynamic" && STATEFUL[3] == "JSON";
  }

  /** The word test on the string keeps every state prefix out of the tree. */
  lemma {:induction false} StatelessType(s: string)
    requires !Stateful(s)
    ensures Stateless(TypeOf(s))
    decreases GeoRank(s), Parens(s)
  {
    hide Stateful, GeoRank, Parens, HeadOf, BaseType;
    hide ParseInner, ParseTuple, ParseMap, ParseNested, ParseAggregate, AliasTarget;
    StatefulHead(s);
    match HeadOf(BaseType(s))
    case HNullable => InnerBelow(s); if ParseInner(s).Ok? { StatelessType(ParseInner(s).value); }
    case HArray => InnerBelow(s); if ParseInner(s).Ok? { StatelessType(ParseInner(s).value); }
    case HTuple =>
      TupleBelow(s);
      if ParseTuple(s).Ok? {
        forall i | 0 <= i < |ParseTuple(s).value| ensures Stateless(TypeOf(ParseTuple(s).value[i])) {
          StatelessType(ParseTuple(s).value[i]);
        }
      }
    case HNested =>
      NestedBelow(s);
      if ParseNested(s).Ok? {
        forall i | 0 <= i < |ParseNested(s).value| ensures Stateless(TypeOf(ParseNested(s).value[i].1)) {
          StatelessType(ParseNested(s).value[i].1);
        }
      }
    case HMap =>
      MapBelow(s);
      if ParseMap(s).Ok? {
        StatelessType(ParseMap(s).value.0);
        StatelessType(ParseMap(s).value.1);
      }
    case HAlias(rank) => AliasBelow(s, rank); StatelessType(AliasTarget(rank));
    case HAggregate =>
      AggregateBelow(s);
      if ParseAggregate(s).Ok? { StatelessType(ParseAggregate(s).value); }
    case _ =>
  }
}
