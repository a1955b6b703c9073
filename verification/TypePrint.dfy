/** Type expressions as ClickHouse prints them, and the proof that the string
    helpers read back exactly the printed structure. */
module TypePrint {
  import opened Base
  import opened Digits
  import opened Column
  import opened TypeString
  import opened TypeTree

  datatype Geo = Point | Ring | LineString | Polygon | MultiLineString | MultiPolygon

  /** A type expression. A tuple field without a name has the name "". */
  datatype Expr =
    | EScalar(kind: Kind)
    | EStr
    | EFixed(n: nat)
    | ENothing
    | EJson
    | ENullable(e: Expr)
    | EArray(e: Expr)
    | ETuple(names: seq<string>, es: seq<Expr>)
    | EMap(k: Expr, v: Expr)
    | ENested(names: seq<string>, es: seq<Expr>)
    | ELowCardinality(e: Expr)
    | EVariant(es: seq<Expr>)
    | EDynamic
    | EGeo(geo: Geo)
    | EAggregate(func: string, e: Expr)

  function KindName(k: Kind): string {
    match k
    case UInt8 => "UInt8"
    case UInt16 => "UInt16"
    case UInt32 => "UInt32"
    case UInt64 => "UInt64"
    case UInt128 => "UInt128"
    case UInt256 => "UInt256"
    case Int8 => "Int8"
    case Int16 => "Int16"
    case Int32 => "Int32"
    case Int64 => "Int64"
    case Int128 => "Int128"
    case Int256 => "Int256"
    case Float64 => "Float64"
  }

  function GeoName(g: Geo): string {
    match g
    case Point => "Point"
    case Ring => "Ring"
    case LineString => "LineString"
    case Polygon => "Polygon"
    case MultiLineString => "MultiLineString"
    case MultiPolygon => "MultiPolygon"
  }

  function GeoLevel(g: Geo): (r: nat)
    ensures 1 <= r <= 4
  {
    match g
    case Point => 1
    case Ring | LineString => 2
    case Polygon | MultiLineString => 3
    case MultiPolygon => 4
  }

  function Call(head: string, inner: string): string {
    head + "(" + inner + ")"
  }

  function Print(e: Expr): string
    decreases e, 0
  {
    match e
    case EScalar(kind) => KindName(kind)
    case EStr => "String"
    case EFixed(n) => Call("FixedString", Dec(n))
    case ENothing => "Nothing"
    case EJson => "JSON"
    case ENullable(t) => Call("Nullable", Print(t))
    case EArray(t) => Call("Array", Print(t))
    case ETuple(names, es) => Call("Tuple", Join(PrintFields(names, es)))
    case EMap(k, v) => Call("Map", Join([Print(k), Print(v)]))
    case ENested(names, es) => Call("Nested", Join(PrintFields(names, es)))
    case ELowCardinality(t) => Call("LowCardinality", Print(t))
    case EVariant(es) => Call("Variant", Join(PrintAll(es)))
    case EDynamic => "Dynamic"
    case EGeo(geo) => GeoName(geo)
    case EAggregate(func, t) => Call("SimpleAggregateFunction", Join([func, Print(t)]))
  }

  function PrintAll(es: seq<Expr>): (ps: seq<string>)
    ensures |ps| == |es|
    ensures forall i :: 0 <= i < |es| ==> ps[i] == Print(es[i])
    decreases es
  {
    seq(|es|, i requires 0 <= i < |es| => Print(es[i]))
  }

  function FieldText(name: string, e: Expr): string
    decreases e, 1
  {
    if name == "" then Print(e) else name + " " + Print(e)
  }

  function PrintFields(names: seq<string>, es: seq<Expr>): (ps: seq<string>)
    ensures |ps| == |es|
    ensures |names| == |es| ==> forall i :: 0 <= i < |es| ==> ps[i] == FieldText(names[i], es[i])
    decreases es
  {
    seq(|es|, i requires 0 <= i < |es| => if i < |names| then FieldText(names[i], es[i]) else "")
  }

  function GeoTree(level: nat): Ty {
    if level <= 1 then TTuple([TScalar(Float64), TScalar(Float64)]) else TArray(GeoTree(level - 1))
  }

  /** The meaning of an expression. Names of tuple fields and aggregate
      functions leave no trace; a stateful word in an element bars a Variant. */
  function Denote(e: Expr): Ty
    decreases e, 0
  {
    match e
    case EScalar(kind) => TScalar(kind)
    case EStr => TStr
    case EFixed(n) => TFixed(n)
    case ENothing => TNothing
    case EJson => TJson
    case ENullable(t) => TNullable(Denote(t))
    case EArray(t) => TArray(Denote(t))
    case ETuple(_, es) => TTuple(DenoteAll(es))
    case EMap(k, v) => TMap(Denote(k), Denote(v))
    case ENested(names, es) => TNested(names, DenoteAll(es))
    case ELowCardinality(t) => TLowCardinality(if t.ENullable? then Denote(t.e) else Denote(t))
    case EVariant(es) => TVariant(DenoteAll(es), exists i :: 0 <= i < |es| && Stateful(Print(es[i])))
    case EDynamic => TDynamic
    case EGeo(geo) => GeoTree(GeoLevel(geo))
    case EAggregate(_, t) => Denote(t)
  }

  function DenoteAll(es: seq<Expr>): (ts: seq<Ty>)
    ensures |ts| == |es|
    ensures forall i :: 0 <= i < |es| ==> ts[i] == Denote(es[i])
    decreases es
  {
    seq(|es|, i requires 0 <= i < |es| => Denote(es[i]))
  }

  // ---- Pieces a comma split keeps whole ------------------------------------------

  function DepthEnd(p: string, d: int): int {
    if p == [] then d else DepthEnd(p[1..], NextDepth(p[0], d))
  }

  /** No comma of `p` stands outside parentheses when `p` starts at depth `d`. */
  predicate NoCut(p: string, d: int) {
    p == [] || ((p[0] == ',' ==> d != 0) && NoCut(p[1..], NextDepth(p[0], d)))
  }

  /** At every depth, `p` closes what it opens and is never cut inside. */
  ghost predicate Whole(p: string) {
    forall d: nat :: NoCut(p, d) && DepthEnd(p, d) == d
  }

  predicate Trimmed(p: string) {
    p != [] && !IsSpace(p[0]) && !IsSpace(p[|p| - 1])
  }

  lemma {:induction false} NoCutConcat(a: string, b: string, d: int)
    ensures DepthEnd(a + b, d) == DepthEnd(b, DepthEnd(a, d))
    ensures NoCut(a + b, d) <==> NoCut(a, d) && NoCut(b, DepthEnd(a, d))
  {
    if a == [] {
      assert a + b == b;
    } else {
      assert (a + b)[1..] == a[1..] + b;
      NoCutConcat(a[1..], b, NextDepth(a[0], d));
    }
  }

  /** A plain word: no separator, parenthesis or whitespace. */
  predicate Ident(w: string) {
    w != [] && forall i :: 0 <= i < |w| ==>
      !IsSpace(w[i]) && w[i] != ',' && w[i] != '(' && w[i] != ')'
  }

  lemma {:induction false} FlatDepth(w: string, d: int)
    requires forall i :: 0 <= i < |w| ==> w[i] != ',' && w[i] != '(' && w[i] != ')'
    ensures NoCut(w, d) && DepthEnd(w, d) == d
  {
    if w != [] {
      FlatDepth(w[1..], d);
    }
  }

  lemma IdentWhole(w: string)
    requires Ident(w)
    ensures Whole(w) && Trimmed(w)
  {
    forall d: nat ensures NoCut(w, d) && DepthEnd(w, d) == d {
      FlatDepth(w, d);
    }
  }

  ghost predicate Inert(inner: string) {
    forall d: nat :: d > 0 ==> NoCut(inner, d) && DepthEnd(inner, d) == d
  }

  lemma CallWhole(head: string, inner: string)
    requires Ident(head) && Inert(inner)
    ensures Whole(Call(head, inner)) && Trimmed(Call(head, inner))
  {
    var c := Call(head, inner);
    forall d: nat ensures NoCut(c, d) && DepthEnd(c, d) == d {
      FlatDepth(head, d);
      NoCutConcat(head + "(" + inner, ")", d);
      NoCutConcat(head + "(", inner, d);
      NoCutConcat(head, "(", d);
      OneParen(d);
      hide NoCut, DepthEnd;
    }
  }

  lemma OneParen(d: int)
    ensures DepthEnd("(", d) == d + 1 && NoCut("(", d)
    ensures DepthEnd(")", d + 1) == d && NoCut(")", d + 1)
  {
    assert "("[1..] == "" && ")"[1..] == "";
  }

  lemma {:induction false} JoinInert(ps: seq<string>)
    requires forall i :: 0 <= i < |ps| ==> Whole(ps[i])
    ensures Inert(Join(ps))
  {
    hide NoCut, DepthEnd;
    EmptyInert();
    if |ps| > 1 {
      JoinInert(ps[1..]);
      var tail := Join(ps[1..]);
      forall d: nat | d > 0 ensures NoCut(Join(ps), d) && DepthEnd(Join(ps), d) == d {
        NoCutConcat(ps[0] + ", ", tail, d);
        NoCutConcat(ps[0], ", ", d);
        CommaInert(d);
      }
    }
  }

  lemma EmptyInert()
    ensures Inert([])
  {
  }

  lemma CommaInert(d: int)
    requires d > 0
    ensures NoCut(", ", d) && DepthEnd(", ", d) == d
  {
    assert NoCut(" ", d) && DepthEnd(" ", d) == d by { assert " "[1..] == ""; }
    assert ", "[1..] == " ";
  }

  // ---- Trimming --------------------------------------------------------------------

  lemma TrimTrimmed(p: string)
    requires Trimmed(p)
    ensures Trim(p) == p && Trim(" " + p) == p && TrimStart(" " + p) == p
  {
    assert (" " + p)[1..] == p;
  }

  // ---- Split inverts Join ---------------------------------------------------------

  /** The scan passes over text that is not cut. */
  lemma {:induction false} Scan(s: string, i: nat, j: nat, depth: int, start: nat, parts: seq<string>)
    requires start <= i <= j <= |s| && NoCut(s[i..j], depth)
    ensures SplitFrom(s, i, depth, start, parts)
         == SplitFrom(s, j, DepthEnd(s[i..j], depth), start, parts)
    decreases j - i
  {
    if i < j {
      assert s[i..j][1..] == s[i + 1..j];
      Scan(s, i + 1, j, NextDepth(s[i], depth), start, parts);
    }
  }

  function Tail(ps: seq<string>): string {
    if ps == [] then "" else ", " + Join(ps)
  }

  ghost predicate AllPieces(ps: seq<string>) {
    forall i :: 0 <= i < |ps| ==> Whole(ps[i]) && Trimmed(ps[i])
  }

  /** From a piece `done + seg` begun at `start`, of which `done` is already
      scanned, the split yields that piece and then all the others. */
  lemma {:induction false} SplitRest(s: string, start: nat, done: string, seg: string, ps: seq<string>,
      parts: seq<string>)
    requires start + |done| <= |s| && s[start..] == done + seg + Tail(ps)
    requires Whole(seg) && AllPieces(ps) && s != []
    requires |done + seg| >= 2 || ps == []
    ensures SplitFrom(s, start + |done|, 0, start, parts) == Ok(parts + [Trim(done + seg)] + ps)
    decreases |ps|
  {
    hide Trim, Whole, Trimmed, Join, Tail, NoCut, DepthEnd;
    var j := start + |done| + |seg|;
    Slices(s, start, done, seg, Tail(ps));
    WholeAtZero(seg);
    Scan(s, start + |done|, j, 0, start, parts);
    var all := parts + [Trim(done + seg)];
    TailShape(ps);
    if ps == [] {
      assert all + ps == all;
      assert s[start..j] == s[start..];
    } else {
      NextPiece(s, j, ps);
      AllPiecesParts(ps);
      TrimmedLength(ps[0]);
      SplitRest(s, j + 1, " ", ps[0], ps[1..], all);
      SpaceScan(s, j + 1, all);
      PieceTrim(ps[0], ps);
      assert all + [ps[0]] + ps[1..] == all + ps;
    }
  }

  lemma Slices(s: string, start: nat, done: string, seg: string, tail: string)
    requires start <= |s| && s[start..] == done + seg + tail
    ensures var j := start + |done| + |seg|;
            j <= |s| && s[start + |done|..j] == seg && s[start..j] == done + seg && s[j..] == tail
  {
    var j, t := start + |done| + |seg|, s[start..];
    assert s[start + |done|..j] == t[|done|..|done| + |seg|];
    assert s[start..j] == t[..|done| + |seg|];
    assert s[j..] == t[|done| + |seg|..];
  }

  lemma TailShape(ps: seq<string>)
    ensures ps == [] ==> Tail(ps) == []
  {
  }

  lemma NextPiece(s: string, j: nat, ps: seq<string>)
    requires j <= |s| && s[j..] == Tail(ps) && ps != []
    ensures j + 1 < |s| && s[j] == ',' && s[j + 1] == ' '
    ensures s[j + 1..] == " " + ps[0] + Tail(ps[1..])
  {
    hide Join;
    JoinHead(ps);
    var t := s[j..];
    assert t[0] == ',' && t[1] == ' ';
    assert s[j + 1..] == t[1..];
  }

  lemma SpaceScan(s: string, i: nat, parts: seq<string>)
    requires i < |s| && s[i] == ' '
    ensures SplitFrom(s, i, 0, i, parts) == SplitFrom(s, i + 1, 0, i, parts)
  {
  }

  lemma WholeAtZero(p: string)
    requires Whole(p)
    ensures NoCut(p, 0) && DepthEnd(p, 0) == 0
  {
  }

  lemma TrimmedLength(p: string)
    requires Trimmed(p)
    ensures |p| >= 1
  {
  }

  lemma PieceTrim(p: string, ps: seq<string>)
    requires AllPieces(ps) && p in ps
    ensures Trim(" " + p) == p
  {
    var i :| 0 <= i < |ps| && ps[i] == p;
    TrimTrimmed(ps[i]);
  }

  lemma AllPiecesParts(ps: seq<string>)
    requires AllPieces(ps) && ps != []
    ensures Whole(ps[0]) && Trimmed(ps[0]) && AllPieces(ps[1..])
  {
  }

  lemma JoinHead(ps: seq<string>)
    requires ps != []
    ensures Join(ps) == ps[0] + Tail(ps[1..])
  {
  }

  /** Splitting a printed list gives the pieces back, unless the first of
      several pieces is a single character: that comma is passed over. */
  lemma SplitOfJoin(ps: seq<string>)
    requires ps != [] && AllPieces(ps)
    ensures |ps| == 1 || |ps[0]| >= 2 ==> Split(Join(ps)) == Ok(ps)
    ensures |ps| >= 2 && |ps[0]| == 1 ==>
              Split(Join(ps)) == Ok([ps[0] + ", " + ps[1]] + ps[2..])
  {
    hide Whole, Trimmed, SplitFrom, Trim, Join, Tail;
    var s := Join(ps);
    JoinHead(ps);
    AllPiecesParts(ps);
    TrimmedLength(ps[0]);
    TrimTrimmed(ps[0]);
    assert s[0..] == [] + ps[0] + Tail(ps[1..]);
    if |ps| == 1 || |ps[0]| >= 2 {
      SplitRest(s, 0, [], ps[0], ps[1..], []);
      assert [] + [ps[0]] + ps[1..] == ps;
      assert [] + ps[0] == ps[0];
    } else {
      ShortHead(ps);
    }
  }

  lemma ShortHead(ps: seq<string>)
    requires AllPieces(ps) && |ps| >= 2 && |ps[0]| == 1
    ensures Split(Join(ps)) == Ok([ps[0] + ", " + ps[1]] + ps[2..])
  {
    hide Whole, Trimmed, SplitFrom, Trim, Join, NoCut, DepthEnd;
    var s := Join(ps);
    AllPiecesParts(ps);
    AllPiecesParts(ps[1..]);
    TwoHeads(ps);
    var done := ps[0] + ", ";
    WholeAtZero(ps[0]);
    assert s[0..1] == ps[0];
    Scan(s, 0, 1, 0, 0, []);
    assert s[1] == ',' && s[2] == ' ';
    CommaPassed(s);
    assert s[0..] == s;
    SplitRest(s, 0, done, ps[1], ps[2..], []);
    TrimPair(ps[0], ps[1]);
    assert [] + [done + ps[1]] + ps[2..] == [done + ps[1]] + ps[2..];
  }

  lemma Regroup(a: string, b: string, c: string, d: string)
    ensures a + (b + (c + d)) == a + b + c + d
  {
  }

  lemma TailIs(ps: seq<string>)
    requires ps != []
    ensures Tail(ps) == ", " + Join(ps)
  {
  }

  lemma TwoHeads(ps: seq<string>)
    requires |ps| >= 2
    ensures Join(ps) == ps[0] + ", " + ps[1] + Tail(ps[2..])
    ensures ps[1..][0] == ps[1] && ps[1..][1..] == ps[2..]
  {
    hide Join, Tail;
    assert ps[1..][0] == ps[1] && ps[1..][1..] == ps[2..];
    JoinHead(ps);
    JoinHead(ps[1..]);
    TailIs(ps[1..]);
    Regroup(ps[0], ", ", ps[1], Tail(ps[2..]));
  }

  lemma CommaPassed(s: string)
    requires |s| >= 3 && s[1] == ',' && s[2] == ' '
    ensures SplitFrom(s, 1, 0, 0, []) == SplitFrom(s, 3, 0, 0, [])
  {
    assert !Cuts(s[1], 0, 0, 1);
    assert SplitFrom(s, 1, 0, 0, []) == SplitFrom(s, 2, 0, 0, []);
  }

  lemma TrimPair(a: string, b: string)
    requires Trimmed(a) && Trimmed(b)
    ensures Trim(a + ", " + b) == a + ", " + b
  {
    TrimTrimmed(a + ", " + b);
  }
}
