/** Reading back printed type expressions: the string-driven decoder sees the
    tree the expression denotes. */
module TypeRefinement {
  import opened Base
  import opened Digits
  import opened Column
  import opened TypeString
  import opened TypeTree
  import opened TypePrint

  /** Expressions ClickHouse can print: fields of a Nested are named, names are
      plain words, lists that cannot be empty are not. */
  ghost predicate WellFormed(e: Expr) {
    match e
    case EFixed(n) => n < U64_BOUND
    case ENullable(t) => WellFormed(t)
    case EArray(t) => WellFormed(t)
    case ELowCardinality(t) => WellFormed(t)
    case ETuple(names, es) =>
      && |names| == |es|
      && (forall i :: 0 <= i < |names| ==> names[i] == "" || Ident(names[i]))
      && (forall i :: 0 <= i < |es| ==> WellFormed(es[i]))
    case ENested(names, es) =>
      && |names| == |es| && es != []
      && (forall i :: 0 <= i < |names| ==> Ident(names[i]))
      && (forall i :: 0 <= i < |es| ==> WellFormed(es[i]))
    case EMap(k, v) => WellFormed(k) && WellFormed(v)
    case EVariant(es) => es != [] && forall i :: 0 <= i < |es| ==> WellFormed(es[i])
    case EAggregate(func, t) => Whole(func) && Trimmed(func) && |func| >= 2 && WellFormed(t)
    case _ => true
  }

  function HeadName(e: Expr): string {
    match e
    case EScalar(kind) => KindName(kind)
    case EStr => "String"
    case EFixed(_) => "FixedString"
    case ENothing => "Nothing"
    case EJson => "JSON"
    case ENullable(_) => "Nullable"
    case EArray(_) => "Array"
    case ETuple(_, _) => "Tuple"
    case EMap(_, _) => "Map"
    case ENested(_, _) => "Nested"
    case ELowCardinality(_) => "LowCardinality"
    case EVariant(_) => "Variant"
    case EDynamic => "Dynamic"
    case EGeo(geo) => GeoName(geo)
    case EAggregate(_, _) => "SimpleAggregateFunction"
  }

  // ---- The words ------------------------------------------------------------------

  lemma KindNameIdent(k: Kind)
    ensures Ident(KindName(k)) && |KindName(k)| >= 2 && KindName(k) != "Nullable"
    ensures HeadOf(KindName(k)) == HScalar(k)
  {
  }

  lemma GeoNameIdent(g: Geo)
    ensures Ident(GeoName(g)) && |GeoName(g)| >= 2 && GeoName(g) != "Nullable"
  {
  }

  lemma LowGeoHeads()
    ensures HeadOf("Point") == HAlias(1)
    ensures HeadOf("Ring") == HAlias(2) && HeadOf("LineString") == HAlias(2)
  {
  }

  lemma HighGeoHeads()
    ensures HeadOf("Polygon") == HAlias(3) && HeadOf("MultiLineString") == HAlias(3)
    ensures HeadOf("MultiPolygon") == HAlias(4)
  {
  }

  lemma GeoNameHead(g: Geo)
    ensures HeadOf(GeoName(g)) == HAlias(GeoLevel(g))
  {
    hide HeadOf;
    LowGeoHeads();
    HighGeoHeads();
  }

  lemma WrapperIdent()
    ensures Ident("Nullable") && Ident("LowCardinality") && Ident("FixedString")
  {
  }

  lemma ArrayIdent()
    ensures Ident("Array") && Ident("Tuple")
  {
  }

  lemma NestedIdent()
    ensures Ident("Nested") && Ident("Map") && Ident("Variant")
  {
  }

  lemma LeafIdent()
    ensures Ident("String") && Ident("Nothing") && Ident("JSON") && Ident("Dynamic")
  {
  }

  lemma AggregateIdent()
    ensures Ident("SimpleAggregateFunction")
  {
  }

  lemma HeadNameIdent(e: Expr)
    ensures Ident(HeadName(e)) && |HeadName(e)| >= 2
    ensures HeadName(e) == "Nullable" <==> e.ENullable?
  {
    hide KindName, GeoName, Ident;
    LeafIdent();
    WrapperIdent();
    ArrayIdent();
    NestedIdent();
    AggregateIdent();
    match e
    case EScalar(kind) => KindNameIdent(kind);
    case EGeo(geo) => GeoNameIdent(geo);
    case _ =>
  }

  lemma LeafHeads()
    ensures HeadOf("String") == HStr && HeadOf("FixedString") == HFixed
    ensures HeadOf("Nothing") == HNothing && HeadOf("JSON") == HJson
    ensures HeadOf("Dynamic") == HDynamic
  {
  }

  lemma WrapperHeads()
    ensures HeadOf("Nullable") == HNullable && HeadOf("Array") == HArray
    ensures HeadOf("LowCardinality") == HLowCardinality
    ensures HeadOf("SimpleAggregateFunction") == HAggregate
  {
  }

  lemma ListHeads()
    ensures HeadOf("Tuple") == HTuple && HeadOf("Map") == HMap
    ensures HeadOf("Nested") == HNested && HeadOf("Variant") == HVariant
  {
  }

  // ---- Reading one call ---------------------------------------------------------------

  lemma FindIn(a: string, b: string, c: char)
    requires c !in a
    ensures Find(a + [c] + b, c) == |a|
  {
    var s := a + [c] + b;
    assert s[|a|] == c;
    assert forall k :: 0 <= k < |a| ==> s[k] == a[k] && a[k] in a;
  }

  lemma NotFound(a: string, c: char)
    requires c !in a
    ensures Find(a, c) == |a|
  {
    assert forall k :: 0 <= k < |a| ==> a[k] in a;
  }

  lemma IdentHasNo(w: string)
    requires Ident(w)
    ensures '(' !in w && Trimmed(w)
  {
  }

  lemma ReadCall(head: string, inner: string)
    requires Ident(head)
    ensures var s := Call(head, inner);
            && Find(s, '(') == |head| && s[..Find(s, '(')] == head
            && BaseType(s) == head
            && ParseInnerOrEmpty(s) == Ok(Trim(inner))
            && (inner != [] ==> ParseInner(s) == Ok(Trim(inner)))
  {
    hide Find, FindEnd, Trim;
    var s := Call(head, inner);
    IdentHasNo(head);
    TrimTrimmed(head);
    FindIn(head, inner + ")", '(');
    assert s == head + ['('] + (inner + ")");
    assert s[..|head|] == head;
    assert s[|s| - 1] == ')';
    assert FindEnd(s, ')') == |s|;
    assert s[|head| + 1..|s| - 1] == inner;
  }

  lemma ReadWord(w: string)
    requires Ident(w)
    ensures Find(w, '(') == |w| && BaseType(w) == w
  {
    hide Find, Trim;
    IdentHasNo(w);
    NotFound(w, '(');
    TrimTrimmed(w);
    assert w[..|w|] == w;
  }

  // ---- Printed text is one whole piece ----------------------------------------------------

  ghost predicate Piece(p: string) {
    Whole(p) && Trimmed(p) && |p| >= 2
  }

  lemma CallPiece(head: string, inner: string)
    requires Ident(head) && Inert(inner)
    ensures Piece(Call(head, inner))
  {
    hide Inert, Whole;
    CallWhole(head, inner);
  }

  lemma DecInert(n: nat)
    ensures Inert(Dec(n)) && Trimmed(Dec(n))
  {
    var w := Dec(n);
    assert forall i :: 0 <= i < |w| ==> IsDigit(w[i]);
    IdentWhole(w);
  }

  lemma WholeInert(p: string)
    requires Whole(p)
    ensures Inert(p)
  {
  }

  lemma {:induction false} PrintPiece(e: Expr)
    requires WellFormed(e)
    ensures Piece(Print(e)) && Print(e)[..Find(Print(e), '(')] == HeadName(e)
    decreases e, 0
  {
    hide Inert, Whole, Trimmed, Find, Dec, KindName, GeoName, Ident, Join, Call;
    HeadNameIdent(e);
    match e
    case EFixed(n) => DecInert(n); FinishCall(HeadName(e), Dec(n));
    case ENullable(t) => PrintPiece(t); WholeInert(Print(t)); FinishCall(HeadName(e), Print(t));
    case EArray(t) => PrintPiece(t); WholeInert(Print(t)); FinishCall(HeadName(e), Print(t));
    case ELowCardinality(t) => PrintPiece(t); WholeInert(Print(t)); FinishCall(HeadName(e), Print(t));
    case ETuple(names, es) => FieldPieces(names, es); FinishList(HeadName(e), PrintFields(names, es));
    case ENested(names, es) => FieldPieces(names, es); FinishList(HeadName(e), PrintFields(names, es));
    case EMap(k, v) => PrintPiece(k); PrintPiece(v); FinishList(HeadName(e), [Print(k), Print(v)]);
    case EVariant(es) => AllPrinted(es); FinishList(HeadName(e), PrintAll(es));
    case EAggregate(func, t) => PrintPiece(t); FinishList(HeadName(e), [func, Print(t)]);
    case _ => FinishWord(HeadName(e));
  }

  lemma FinishWord(w: string)
    requires Ident(w) && |w| >= 2
    ensures Piece(w) && w[..Find(w, '(')] == w
  {
    IdentWhole(w);
    ReadWord(w);
  }

  lemma FinishCall(head: string, inner: string)
    requires Ident(head) && Inert(inner)
    ensures Piece(Call(head, inner)) && Call(head, inner)[..Find(Call(head, inner), '(')] == head
  {
    CallPiece(head, inner);
    ReadCall(head, inner);
  }

  lemma FinishList(head: string, ps: seq<string>)
    requires Ident(head) && forall i :: 0 <= i < |ps| ==> Whole(ps[i])
    ensures Piece(Call(head, Join(ps))) && Call(head, Join(ps))[..Find(Call(head, Join(ps)), '(')] == head
  {
    hide Whole, Join;
    JoinInert(ps);
    FinishCall(head, Join(ps));
  }

  lemma {:induction false} AllPrinted(es: seq<Expr>)
    requires forall i :: 0 <= i < |es| ==> WellFormed(es[i])
    ensures forall i :: 0 <= i < |es| ==> Piece(PrintAll(es)[i])
    decreases es
  {
    hide Piece;
    forall i | 0 <= i < |es| ensures Piece(PrintAll(es)[i]) {
      PrintPiece(es[i]);
    }
  }

  lemma {:induction false} FieldPieces(names: seq<string>, es: seq<Expr>)
    requires |names| == |es|
    requires forall i :: 0 <= i < |names| ==> names[i] == "" || Ident(names[i])
    requires forall i :: 0 <= i < |es| ==> WellFormed(es[i])
    ensures forall i :: 0 <= i < |es| ==> Piece(PrintFields(names, es)[i])
    decreases es
  {
    hide Piece, FieldText;
    forall i | 0 <= i < |es| ensures Piece(PrintFields(names, es)[i]) {
      PrintPiece(es[i]);
      FieldPiece(names[i], es[i]);
    }
  }

  lemma FieldPiece(name: string, e: Expr)
    requires name == "" || Ident(name)
    requires Piece(Print(e))
    ensures Piece(FieldText(name, e))
  {
    var p := Print(e);
    if name != "" {
      IdentWhole(name);
      var f := name + " " + p;
      forall d: nat ensures NoCut(f, d) && DepthEnd(f, d) == d {
        NoCutConcat(name + " ", p, d);
        NoCutConcat(name, " ", d);
        SpaceFlat(d);
        hide NoCut, DepthEnd;
      }
    }
  }

  lemma SpaceFlat(d: int)
    ensures NoCut(" ", d) && DepthEnd(" ", d) == d
  {
    assert " "[1..] == "";
  }

  // ---- Fields -------------------------------------------------------------------------------

  lemma StripText(name: string, e: Expr)
    requires name == "" || Ident(name)
    requires Piece(Print(e)) && Print(e)[..Find(Print(e), '(')] == HeadName(e) && Ident(HeadName(e))
    ensures StripFieldName(FieldText(name, e)) == Print(e)
  {
    hide Whole, Find, FindSpaceEnd, Trim, TrimStart, Print, HeadName;
    var p, h := Print(e), HeadName(e);
    TrimTrimmed(p);
    if name == "" {
      IdentNoSpace(h);
    } else {
      var f := name + " " + p;
      TrimTrimmed(f);
      IdentHasNo(name);
      FindAfter(name + " ", p, '(');
      assert f[..Find(f, '(')] == name + " " + h;
      LastSpace(name, h);
      assert f[|name|..] == " " + p;
    }
  }

  lemma IdentNoSpace(h: string)
    requires Ident(h)
    ensures FindSpaceEnd(h) == 0
  {
  }

  lemma LastSpace(name: string, h: string)
    requires Ident(h)
    ensures FindSpaceEnd(name + " " + h) == |name| + 1
  {
    var front := name + " ";
    assert IsSpace(front[|name|]);
    assert forall k :: 0 <= k < |h| ==> !IsSpace(h[k]);
    hide FindSpaceEnd, Ident, IsSpace;
    SpaceBefore(front, h);
  }

  lemma SpaceBefore(front: string, h: string)
    requires front != [] && IsSpace(front[|front| - 1]) && forall k :: 0 <= k < |h| ==> !IsSpace(h[k])
    ensures FindSpaceEnd(front + h) == |front|
  {
    hide FindSpaceEnd, IsSpace;
    var t := front + h;
    assert t[|front| - 1] == front[|front| - 1];
    assert forall k :: |front| <= k < |t| ==> t[k] == h[k - |front|];
  }

  lemma FindAfter(a: string, b: string, c: char)
    requires c !in a
    ensures Find(a + b, c) == |a| + Find(b, c)
  {
    var s, j := a + b, Find(b, c);
    assert forall k :: 0 <= k < |a| ==> s[k] == a[k] && a[k] in a;
    assert forall k :: |a| <= k < |s| ==> s[k] == b[k - |a|];
    assert j < |b| ==> s[|a| + j] == c;
    assert Find(s, c) < |s| ==> Find(s, c) >= |a|;
  }

  lemma ReadField(name: string, e: Expr)
    requires Ident(name) && Piece(Print(e))
    ensures ParseField(FieldText(name, e)) == Ok((name, Print(e)))
  {
    hide Whole, FindSpace, Trim, TrimStart, Print;
    var p := Print(e);
    var f := name + " " + p;
    IdentHasNo(name);
    TrimTrimmed(f);
    TrimTrimmed(name);
    TrimTrimmed(p);
    assert f[|name|] == ' ';
    assert forall k :: 0 <= k < |name| ==> f[k] == name[k];
    assert FindSpace(f) == |name|;
    assert f[..|name|] == name && f[|name| + 1..] == p;
  }

  // ---- Lists ----------------------------------------------------------------------------------

  lemma ReadList(head: string, ps: seq<string>)
    requires Ident(head) && ps != [] && forall i :: 0 <= i < |ps| ==> Piece(ps[i])
    ensures var s := Call(head, Join(ps));
            && BaseType(s) == head && Join(ps) != []
            && ParseInner(s) == Ok(Join(ps)) && ParseInnerOrEmpty(s) == Ok(Join(ps))
            && Split(Join(ps)) == Ok(ps)
  {
    hide Whole, Join, Call, BaseType, ParseInner, ParseInnerOrEmpty, Split, Trim, Find;
    JoinTrimmed(ps);
    TrimTrimmed(Join(ps));
    ReadCall(head, Join(ps));
    SplitOfJoin(ps);
  }

  lemma {:induction false} JoinTrimmed(ps: seq<string>)
    requires ps != [] && forall i :: 0 <= i < |ps| ==> Trimmed(ps[i])
    ensures Trimmed(Join(ps))
  {
    if |ps| > 1 {
      JoinTrimmed(ps[1..]);
    }
  }

  // ---- The theorem -----------------------------------------------------------------------------

  lemma GeoNameType(g: Geo)
    ensures TypeOf(GeoName(g)) == GeoTree(GeoLevel(g))
    decreases GeoLevel(g)
  {
    hide HeadOf, Ident, Find, Stateful, GeoRank, Parens, BaseType, ParseInner, Call, ParseTuple;
    GeoNameIdent(g);
    ReadWord(GeoName(g));
    GeoNameHead(g);
    match GeoLevel(g)
    case 1 => PointType();
    case 2 => GeoNameType(Point); AliasArray(Point, 2);
    case 3 => GeoNameType(Ring); AliasArray(Ring, 3);
    case _ => GeoNameType(Polygon); AliasArray(Polygon, 4);
  }

  lemma AliasArray(g: Geo, level: nat)
    requires (g == Point && level == 2) || (g == Ring && level == 3) || (g == Polygon && level == 4)
    ensures TypeOf(AliasTarget(level)) == TArray(TypeOf(GeoName(g)))
  {
    hide HeadOf, Ident, Find, Stateful, GeoRank, Parens, BaseType, ParseInner, Trim, AliasTarget, Call, GeoName;
    hide Trimmed;
    ArrayIdent();
    GeoNameIdent(g);
    IdentHasNo(GeoName(g));
    ReadCall("Array", GeoName(g));
    TrimTrimmed(GeoName(g));
    WrapperHeads();
    AliasText(g, level);
  }

  lemma AliasText(g: Geo, level: nat)
    requires (g == Point && level == 2) || (g == Ring && level == 3) || (g == Polygon && level == 4)
    ensures AliasTarget(level) == Call("Array", GeoName(g)) && GeoName(g) != []
  {
  }

  lemma PointType()
    ensures TypeOf("Tuple(Float64, Float64)") == GeoTree(1)
  {
    hide HeadOf, Ident, Find, Stateful, GeoRank, Parens, BaseType, ParseInner, ParseInnerOrEmpty, Split, Piece, Call;
    hide Join, StripFieldName;
    var e := EScalar(Float64);
    var es := [e, e];
    KindNameIdent(Float64);
    ArrayIdent();
    FinishWord("Float64");
    ReadWord("Float64");
    FieldPieces(["", ""], es);
    var ps := PrintFields(["", ""], es);
    ReadList("Tuple", ps);
    ListHeads();
    StripText("", e);
    PointText(ps);
    assert ParseTuple("Tuple(Float64, Float64)") == Ok(StripAll(ps));
    assert StripAll(ps) == ["Float64", "Float64"];
  }

  lemma PointText(ps: seq<string>)
    requires ps == ["Float64", "Float64"]
    ensures Call("Tuple", Join(ps)) == "Tuple(Float64, Float64)"
  {
    assert ps[1..] == ["Float64"];
    assert Join(ps) == "Float64, Float64";
  }

  lemma TupleType(names: seq<string>, es: seq<Expr>)
    requires WellFormed(ETuple(names, es))
    requires forall i :: 0 <= i < |es| ==> TypeOf(Print(es[i])) == Denote(es[i])
    ensures TypeOf(Print(ETuple(names, es))) == Denote(ETuple(names, es))
  {
    hide HeadOf, Ident, Find, Stateful, GeoRank, Parens, BaseType, ParseInnerOrEmpty, Split, Whole, Join, Call;
    hide StripFieldName, FieldText, Piece, HeadName;
    var ps := PrintFields(names, es);
    var s := Print(ETuple(names, es));
    ArrayIdent();
    ListHeads();
    FieldPieces(names, es);
    if es == [] {
      EmptyTuple();
      assert ps == [];
      assert TypeOf(s).ts == DenoteAll(es);
    } else {
      ReadList("Tuple", ps);
      forall i | 0 <= i < |es| ensures StripFieldName(ps[i]) == Print(es[i]) {
        PrintPiece(es[i]);
        HeadNameIdent(es[i]);
        StripText(names[i], es[i]);
      }
      assert StripAll(ps) == PrintAll(es);
      assert ParseTuple(s) == Ok(PrintAll(es));
      assert TypeOf(s).ts == DenoteAll(es);
    }
  }

  lemma EmptyTuple()
    ensures BaseType(Call("Tuple", Join([]))) == "Tuple" && ParseTuple(Call("Tuple", Join([]))) == Ok([])
  {
    hide Find, BaseType, ParseInnerOrEmpty, Split;
    ArrayIdent();
    ReadCall("Tuple", []);
  }

  lemma NestedType(names: seq<string>, es: seq<Expr>)
    requires WellFormed(ENested(names, es))
    requires forall i :: 0 <= i < |es| ==> TypeOf(Print(es[i])) == Denote(es[i])
    ensures TypeOf(Print(ENested(names, es))) == Denote(ENested(names, es))
  {
    hide HeadOf, Ident, Find, Stateful, GeoRank, Parens, BaseType, ParseInner, Split, Whole, Join, Call, FieldText;
    hide Piece, ParseFields, ParseField;
    var ps := PrintFields(names, es);
    var s := Print(ENested(names, es));
    NestedIdent();
    ListHeads();
    FieldPieces(names, es);
    ReadList("Nested", ps);
    forall i | 0 <= i < |es| ensures ParseField(ps[i]) == Ok((names[i], Print(es[i]))) {
      PrintPiece(es[i]);
      ReadField(names[i], es[i]);
    }
    var fields := seq(|es|, i requires 0 <= i < |es| => (names[i], Print(es[i])));
    ReadFields(ps, fields, 0);
    assert ps[0..] == ps && fields[..0] == [];
    assert ParseNested(s) == Ok(fields);
    assert FieldNames(fields) == names;
    assert TypeOf(s).TNested? && TypeOf(s).ts == DenoteAll(es);
  }

  lemma {:induction false} ReadFields(ps: seq<string>, fields: seq<(string, string)>, k: nat)
    requires k <= |ps| == |fields|
    requires forall i :: 0 <= i < |ps| ==> ParseField(ps[i]) == Ok(fields[i])
    ensures ParseFields(ps[k..], fields[..k]) == Ok(fields)
    decreases |ps| - k
  {
    hide ParseField;
    if k == |ps| {
      assert fields[..k] == fields;
    } else {
      ReadFields(ps, fields, k + 1);
      assert ps[k..][1..] == ps[k + 1..];
      assert fields[..k] + [fields[k]] == fields[..k + 1];
    }
  }

  lemma VariantType(es: seq<Expr>)
    requires WellFormed(EVariant(es))
    requires forall i :: 0 <= i < |es| ==> TypeOf(Print(es[i])) == Denote(es[i])
    ensures TypeOf(Print(EVariant(es))) == Denote(EVariant(es))
  {
    hide HeadOf, Ident, Find, Stateful, GeoRank, Parens, BaseType, ParseInner, Split, Whole, Join, Call, Piece;
    var ps := PrintAll(es);
    var s := Print(EVariant(es));
    NestedIdent();
    ListHeads();
    AllPrinted(es);
    ReadList("Variant", ps);
    assert ParseVariant(s) == Ok(ps);
    assert (exists i :: 0 <= i < |ps| && Stateful(ps[i]))
        <==> (exists i :: 0 <= i < |es| && Stateful(Print(es[i])));
    assert TypeOf(s).ts == DenoteAll(es);
  }

  lemma MapType(k: Expr, v: Expr)
    requires WellFormed(k) && WellFormed(v)
    requires TypeOf(Print(k)) == Denote(k) && TypeOf(Print(v)) == Denote(v)
    ensures TypeOf(Print(EMap(k, v))) == Denote(EMap(k, v))
  {
    hide HeadOf, Ident, Find, Stateful, GeoRank, Parens, BaseType, ParseInner, Split, Whole, Join, Call, Piece;
    var ps := [Print(k), Print(v)];
    NestedIdent();
    ListHeads();
    PrintPiece(k);
    PrintPiece(v);
    ReadList("Map", ps);
    MapBelow(Print(EMap(k, v)));
  }

  lemma AggregateType(func: string, t: Expr)
    requires WellFormed(EAggregate(func, t)) && TypeOf(Print(t)) == Denote(t)
    ensures TypeOf(Print(EAggregate(func, t))) == Denote(EAggregate(func, t))
  {
    hide HeadOf, Ident, Find, Stateful, GeoRank, Parens, BaseType, ParseInnerOrEmpty, Split, Whole, Call;
    var ps := [func, Print(t)];
    AggregateIdent();
    WrapperHeads();
    PrintPiece(t);
    ReadList("SimpleAggregateFunction", ps);
    assert ps[1..] == [Print(t)];
    AggregateBelow(Print(EAggregate(func, t)));
  }

  lemma WrapperType(e: Expr, t: Expr)
    requires WellFormed(t) && TypeOf(Print(t)) == Denote(t)
    requires e == ENullable(t) || e == EArray(t)
    ensures TypeOf(Print(e)) == Denote(e)
  {
    hide HeadOf, Ident, Find, Stateful, GeoRank, Parens, BaseType, ParseInner, Whole, Call, Trim;
    WrapperIdent();
    ArrayIdent();
    WrapperHeads();
    PrintPiece(t);
    TrimTrimmed(Print(t));
    ReadCall(HeadName(e), Print(t));
    InnerBelow(Print(e));
  }

  lemma LowCardinalityType(t: Expr)
    requires WellFormed(t) && TypeOf(Print(t)) == Denote(t)
    requires t.ENullable? ==> TypeOf(Print(t.e)) == Denote(t.e)
    ensures TypeOf(Print(ELowCardinality(t))) == Denote(ELowCardinality(t))
  {
    hide HeadOf, Ident, Find, Stateful, GeoRank, Parens, BaseType, ParseInner, Whole, Call, Trim;
    WrapperIdent();
    WrapperHeads();
    PrintPiece(t);
    TrimTrimmed(Print(t));
    ReadCall("LowCardinality", Print(t));
    DictBelow(Print(ELowCardinality(t)));
    NullablePrefix(t);
    if t.ENullable? {
      PrintPiece(t.e);
      TrimTrimmed(Print(t.e));
      ReadCall("Nullable", Print(t.e));
    }
  }

  lemma NullablePrefix(t: Expr)
    requires WellFormed(t)
    ensures "Nullable(" <= Print(t) <==> t.ENullable?
  {
    hide Ident, Find, Piece, WellFormed, Call;
    HeadNameIdent(t);
    PrintPiece(t);
    NullableFind(Print(t));
    if t.ENullable? {
      NullableCall(Print(t.e));
    }
  }

  lemma NullableCall(inner: string)
    ensures "Nullable(" <= Call("Nullable", inner)
  {
    assert Call("Nullable", inner)[..9] == "Nullable(";
  }

  lemma NullableFind(p: string)
    ensures "Nullable(" <= p ==> p[..Find(p, '(')] == "Nullable"
  {
    hide Find;
    WrapperIdent();
    IdentHasNo("Nullable");
    if "Nullable(" <= p {
      FindIn("Nullable", p[9..], '(');
      assert p == "Nullable" + ['('] + p[9..];
    }
  }

  lemma FixedType(n: nat)
    requires n < U64_BOUND
    ensures TypeOf(Print(EFixed(n))) == TFixed(n)
  {
    hide HeadOf, Ident, Stateful, GeoRank, Parens, BaseType, Dec, Trim, ParseUsize, Inert;
    WrapperIdent();
    LeafHeads();
    DecInert(n);
    TrimTrimmed(Dec(n));
    ReadCall("FixedString", Dec(n));
    ParseUsizeOfDec(n);
    FixedSlice(Dec(n));
  }

  lemma FixedSlice(d: string)
    requires d != []
    ensures ParseFixedSize(Call("FixedString", d))
         == match ParseUsize(Trim(d)) case Some(n) => Ok(n) case None => Err(InvalidData)
  {
    hide Find, FindEnd, Trim, ParseUsize, Ident;
    var s := Call("FixedString", d);
    WrapperIdent();
    ReadCall("FixedString", d);
    assert s[|s| - 1] == ')' && FindEnd(s, ')') == |s|;
    assert s[12..|s| - 1] == d;
  }

  /** For every printable type expression, what the decoder works out from its
      text is the tree the expression denotes. */
  lemma {:induction false} TypeOfPrint(e: Expr)
    requires WellFormed(e)
    ensures TypeOf(Print(e)) == Denote(e)
    decreases e
  {
    hide HeadOf, Ident, Find, Stateful, GeoRank, Parens, BaseType, ParseInner, Call, KindName, GeoName;
    match e
    case EScalar(kind) => KindNameIdent(kind); ReadWord(KindName(kind));
    case EFixed(n) => FixedType(n);
    case ENullable(t) => TypeOfPrint(t); WrapperType(e, t);
    case EArray(t) => TypeOfPrint(t); WrapperType(e, t);
    case ELowCardinality(t) =>
      TypeOfPrint(t);
      if t.ENullable? { TypeOfPrint(t.e); }
      LowCardinalityType(t);
    case ETuple(names, es) =>
      forall i | 0 <= i < |es| ensures TypeOf(Print(es[i])) == Denote(es[i]) { TypeOfPrint(es[i]); }
      TupleType(names, es);
    case ENested(names, es) =>
      forall i | 0 <= i < |es| ensures TypeOf(Print(es[i])) == Denote(es[i]) { TypeOfPrint(es[i]); }
      NestedType(names, es);
    case EVariant(es) =>
      forall i | 0 <= i < |es| ensures TypeOf(Print(es[i])) == Denote(es[i]) { TypeOfPrint(es[i]); }
      VariantType(es);
    case EMap(k, v) => TypeOfPrint(k); TypeOfPrint(v); MapType(k, v);
    case EAggregate(func, t) => TypeOfPrint(t); AggregateType(func, t);
    case EGeo(geo) => GeoNameType(geo);
    case _ => LeafHeads(); HeadNameIdent(e); ReadWord(HeadName(e));
  }
}
