/** src/proto/column.rs: the type strings that are refused, and how. */
module TypeErrors {
  import opened Base
  import opened Digits
  import opened Column
  import opened TypeString
  import opened TypeTree
  import opened TypePrint
  import opened TypeRefinement

  // ---- Parentheses ------------------------------------------------------------------------

  /** What stands between the first opening and the last closing parenthesis is
      the inner text; only `Tuple` and `SimpleAggregateFunction` may have none. */
  lemma InnerText(a: string, t: string, b: string)
    requires '(' !in a && ')' !in b
    ensures var s := a + "(" + t + ")" + b;
            && ParseInner(s) == (if t == [] then Err(InvalidData) else Ok(Trim(t)))
            && ParseInnerOrEmpty(s) == Ok(Trim(t))
            && ParseFixedSize(s) == (if t == [] || ParseUsize(Trim(t)).None? then Err(InvalidData)
                                     else Ok(ParseUsize(Trim(t)).value))
  {
    hide Trim, ParseUsize, Find, FindEnd;
    var s := a + "(" + t + ")" + b;
    var open, close := |a|, |a| + 2 + |t|;
    assert s[open] == '(' && s[close - 1] == ')' && s[open + 1..close - 1] == t;
    assert forall k :: 0 <= k < open ==> s[k] == a[k];
    assert forall k :: close <= k < |s| ==> s[k] == b[k - close];
    assert Find(s, '(') == open;
    assert FindEnd(s, ')') == close;
  }

  /** Without an opening parenthesis in front of a closing one there is no inner
      text. */
  lemma NoInnerText(s: string)
    requires forall i, j :: 0 <= i < j < |s| ==> s[i] != '(' || s[j] != ')'
    ensures ParseInner(s) == Err(InvalidData) && ParseInnerOrEmpty(s) == Err(InvalidData)
    ensures ParseFixedSize(s) == Err(InvalidData)
  {
    hide Trim, ParseUsize, Find, FindEnd;
    var open, close := Find(s, '('), FindEnd(s, ')');
    if open < |s| && close > 0 {
      assert s[open] == '(' && s[close - 1] == ')';
    }
  }

  // ---- Lists -----------------------------------------------------------------------------------

  /** A list is cut exactly when its parentheses add up; the empty list is an abort. */
  lemma SplitFails(s: string)
    ensures Split(s).Ok? <==> s != [] && DepthEnd(s, 0) == 0
    ensures s != [] && DepthEnd(s, 0) != 0 ==> Split(s) == Err(InvalidInput)
    ensures Split([]) == Err(Panic)
  {
    assert s[0..] == s;
    SplitEnds(s, 0, 0, 0, []);
  }

  lemma {:induction false} SplitEnds(s: string, i: nat, depth: int, start: nat, parts: seq<string>)
    requires start <= i <= |s|
    ensures var r, d := SplitFrom(s, i, depth, start, parts), DepthEnd(s[i..], depth);
            && (r.Ok? <==> s != [] && d == 0)
            && (d != 0 ==> r == Err(InvalidInput))
    decreases |s| - i
  {
    hide Trim;
    if i < |s| {
      assert s[i..][1..] == s[i + 1..];
      if Cuts(s[i], depth, start, i) {
        SplitEnds(s, i + 1, depth, i + 1, parts + [Trim(s[start..i])]);
      } else {
        SplitEnds(s, i + 1, NextDepth(s[i], depth), start, parts);
      }
    }
  }

  /** A Map has two types, and an aggregate function a name and at least one. */
  lemma ListLengths(head: string, ps: seq<string>)
    requires '(' !in head && ps != [] && AllPieces(ps) && (|ps| == 1 || |ps[0]| >= 2)
    ensures var s := Call(head, Join(ps));
            && ParseMap(s) == (if |ps| == 2 then Ok((ps[0], ps[1])) else Err(InvalidData))
            && ParseVariant(s) == Ok(ps)
            && ParseAggregate(s) == (if |ps| == 1 then Err(InvalidData) else Ok(Join(ps[1..])))
  {
    hide AllPieces, Trimmed, Join, Split, ParseInner, ParseInnerOrEmpty, Trim;
    var inner := Join(ps);
    AllPiecesTrimmed(ps);
    JoinTrimmed(ps);
    TrimTrimmed(inner);
    TrimmedLength(inner);
    InnerText(head, inner, []);
    assert Call(head, inner) == head + "(" + inner + ")" + [];
    SplitOfJoin(ps);
  }

  lemma AllPiecesTrimmed(ps: seq<string>)
    requires AllPieces(ps)
    ensures forall i :: 0 <= i < |ps| ==> Trimmed(ps[i])
  {
  }

  /** A field of a Nested needs a space between its name and its type, and needs
      no more: neither can then be empty. */
  lemma FieldRefused(piece: string)
    ensures ParseField(piece).Ok? <==> FindSpace(Trim(piece)) < |Trim(piece)|
    ensures ParseField(piece).Err? ==> ParseField(piece) == Err(InvalidData)
    ensures (forall i :: 0 <= i < |Trim(piece)| ==> !IsAsciiSpace(Trim(piece)[i]))
       <==> FindSpace(Trim(piece)) == |Trim(piece)|
  {
    var part := Trim(piece);
    var i := FindSpace(part);
    var from, to := TrimmedEnds(piece);
    hide Trim, FindSpace;
    if i < |part| {
      assert !IsSpace(part[0]) && !IsSpace(part[|part| - 1]);
      assert i > 0 && i + 1 < |part|;
      NotBlank(part[..i], 0);
      NotBlank(part[i + 1..], |part| - i - 2);
    }
  }

  lemma NotBlank(s: string, k: nat)
    requires k < |s| && !IsSpace(s[k])
    ensures Trim(s) != []
  {
    var i, j := TrimmedEnds(s);
  }

  // ---- Names ------------------------------------------------------------------------------------

  /** Every type name of the model. */
  const NAMES: set<string> := {
    "UInt8", "UInt16", "UInt32", "UInt64", "UInt128", "UInt256",
    "Int8", "Int16", "Int32", "Int64", "Int128", "Int256", "Float64",
    "String", "FixedString", "Nothing", "JSON", "Nullable", "Array", "Tuple", "Map", "Nested",
    "LowCardinality", "Variant", "Dynamic", "Point", "Ring", "LineString", "Polygon", "MultiLineString",
    "MultiPolygon", "SimpleAggregateFunction"}

  lemma UnknownName(s: string)
    ensures HeadOf(BaseType(s)).HUnknown? <==> BaseType(s) !in NAMES
    ensures BaseType(s) !in NAMES ==> TypeOf(s) == Bad(Unsupported)
  {
    hide BaseType;
  }

  /** A point is a tuple of two floats; the other geo names are arrays of it, up to
      three deep. */
  lemma GeoTypes()
    ensures TypeOf("Point") == TTuple([TScalar(Float64), TScalar(Float64)])
    ensures TypeOf("Ring") == TypeOf("LineString") == TArray(TypeOf("Point"))
    ensures TypeOf("Polygon") == TypeOf("MultiLineString") == TArray(TypeOf("Ring"))
    ensures TypeOf("MultiPolygon") == TArray(TypeOf("Polygon"))
  {
    hide TypeOf, GeoTree, GeoLevel, GeoName;
    GeoNames();
    GeoTrees();
    GeoNameType(Geo.Point);
    GeoNameType(Ring);
    GeoNameType(LineString);
    GeoNameType(Polygon);
    GeoNameType(MultiLineString);
    GeoNameType(MultiPolygon);
  }

  lemma GeoNames()
    ensures GeoName(Geo.Point) == "Point" && GeoName(Ring) == "Ring" && GeoName(LineString) == "LineString"
    ensures GeoName(Polygon) == "Polygon" && GeoName(MultiLineString) == "MultiLineString"
    ensures GeoName(MultiPolygon) == "MultiPolygon"
  {
  }

  lemma GeoTrees()
    ensures GeoTree(GeoLevel(Geo.Point)) == TTuple([TScalar(Float64), TScalar(Float64)])
    ensures GeoTree(GeoLevel(Ring)) == GeoTree(GeoLevel(LineString)) == TArray(GeoTree(GeoLevel(Geo.Point)))
    ensures GeoTree(GeoLevel(Polygon)) == GeoTree(GeoLevel(MultiLineString)) == TArray(GeoTree(GeoLevel(Ring)))
    ensures GeoTree(GeoLevel(MultiPolygon)) == TArray(GeoTree(GeoLevel(Polygon)))
  {
  }

  /** The dictionary of nullable values is one of the values themselves. */
  lemma NullableDictionary(e: Expr)
    requires WellFormed(e) && !e.ENullable?
    ensures TypeOf(Call("LowCardinality", Call("Nullable", Print(e)))) == TypeOf(Call("LowCardinality", Print(e)))
         == TLowCardinality(TypeOf(Print(e)))
  {
    hide TypeOf;
    TypeOfPrint(e);
    TypeOfPrint(ELowCardinality(e));
    TypeOfPrint(ELowCardinality(ENullable(e)));
  }
}
