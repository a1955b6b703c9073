/** src/proto/column.rs: the type strings that drive the decoder, and the type
    tree each one stands for. */
module TypeString {
  import opened Base
  import opened Digits
  import opened Column

  // ---- str helpers -----------------------------------------------------------

  /** `char::is_whitespace`, on ASCII. */
  predicate IsSpace(c: char) {
    c == ' ' || c == '\t' || c == '\n' || c == '\U{0B}' || c == '\U{0C}' || c == '\r'
  }

  /** `is_ascii_whitespace`, which leaves out the vertical tab. */
  predicate IsAsciiSpace(c: char) {
    IsSpace(c) && c != '\U{0B}'
  }

  function TrimStart(s: string): string {
    if s != [] && IsSpace(s[0]) then TrimStart(s[1..]) else s
  }

  function TrimEnd(s: string): string {
    if s != [] && IsSpace(s[|s| - 1]) then TrimEnd(s[..|s| - 1]) else s
  }

  function Trim(s: string): string {
    TrimEnd(TrimStart(s))
  }

  /** Position of the first `c`, or the length. */
  function Find(s: string, c: char): (i: nat)
    ensures i <= |s| && (i < |s| ==> s[i] == c)
    ensures forall k :: 0 <= k < i ==> s[k] != c
  {
    if s == [] || s[0] == c then 0 else 1 + Find(s[1..], c)
  }

  /** One past the position of the last `c`, or 0. */
  function FindEnd(s: string, c: char): (i: nat)
    ensures i <= |s| && (i > 0 ==> s[i - 1] == c)
    ensures forall k :: i <= k < |s| ==> s[k] != c
  {
    if s == [] then 0
    else if s[|s| - 1] == c then |s|
    else FindEnd(s[..|s| - 1], c)
  }

  /** Position of the first ASCII whitespace, or the length. */
  function FindSpace(s: string): (i: nat)
    ensures i <= |s| && (i < |s| ==> IsAsciiSpace(s[i]))
    ensures forall k :: 0 <= k < i ==> !IsAsciiSpace(s[k])
  {
    if s == [] || IsAsciiSpace(s[0]) then 0 else 1 + FindSpace(s[1..])
  }

  /** One past the position of the last whitespace, or 0. */
  function FindSpaceEnd(s: string): (i: nat)
    ensures i <= |s| && (i > 0 ==> IsSpace(s[i - 1]))
    ensures forall k :: i <= k < |s| ==> !IsSpace(s[k])
  {
    if s == [] then 0
    else if IsSpace(s[|s| - 1]) then |s|
    else FindSpaceEnd(s[..|s| - 1])
  }

  predicate Contains(s: string, word: string) {
    word <= s || (s != [] && Contains(s[1..], word))
  }

  function Join(parts: seq<string>): string {
    if parts == [] then []
    else if |parts| == 1 then parts[0]
    else parts[0] + ", " + Join(parts[1..])
  }

  // ---- The parse helpers -----------------------------------------------------------

  /** The text before the first parenthesis, trimmed. */
  function BaseType(s: string): string {
    Trim(s[..Find(s, '(')])
  }

  /** `parse_composite_inner_type`. */
  function ParseInner(s: string): (r: Result<string>)
    ensures !r.EndsEarly()
  {
    var open, close := Find(s, '('), FindEnd(s, ')');
    if open == |s| || close == 0 || open + 1 >= close - 1 then Err(InvalidData)
    else Ok(Trim(s[open + 1..close - 1]))
  }

  /** What stands between the outer parentheses, which may be nothing. */
  function ParseInnerOrEmpty(s: string): (r: Result<string>)
    ensures !r.EndsEarly()
  {
    var open, close := Find(s, '('), FindEnd(s, ')');
    if open == |s| || close == 0 || close - 1 < open + 1 then Err(InvalidData)
    else Ok(Trim(s[open + 1..close - 1]))
  }

  function NextDepth(c: char, depth: int): int {
    if c == '(' then depth + 1 else if c == ')' then depth - 1 else depth
  }

  /** A comma at position `i` ends a piece only outside parentheses, and only
      when the piece has at least two characters. */
  predicate Cuts(c: char, depth: int, start: nat, i: nat) {
    c == ',' && depth == 0 && start + 1 < i
  }

  /** The splitting loop from position `i` on, for a piece begun at `start`. */
  function SplitFrom(s: string, i: nat, depth: int, start: nat, parts: seq<string>): (r: Result<seq<string>>)
    ensures !r.EndsEarly()
    requires start <= i <= |s|
    decreases |s| - i
  {
    if i == |s| then
      if depth != 0 then Err(InvalidInput)
      else if s == [] then Err(Panic)
      else Ok(parts + [Trim(s[start..])])
    else if Cuts(s[i], depth, start, i) then
      SplitFrom(s, i + 1, depth, i + 1, parts + [Trim(s[start..i])])
    else
      SplitFrom(s, i + 1, NextDepth(s[i], depth), start, parts)
  }

  function Split(s: string): (r: Result<seq<string>>)
    ensures !r.EndsEarly()
  {
    SplitFrom(s, 0, 0, 0, [])
  }

  /** `split_with_composite`. On the empty string the final slice is out of
      range. */
  method SplitWithComposite(s: string) returns (r: Result<seq<string>>)
    ensures r == Split(s)
  {
    var depth: int, start: nat, end: nat := 0, 0, 0;
    var parts: seq<string> := [];
    for i := 0 to |s|
      invariant start <= i && end == (if i == 0 then 0 else i - 1)
      invariant SplitFrom(s, i, depth, start, parts) == Split(s)
    {
      var c := s[i];
      if c == '(' {
        depth := depth + 1;
      } else if c == ')' {
        depth := depth - 1;
      } else if c == ',' {
        if depth == 0 && start < end {
          parts := parts + [Trim(s[start..end + 1])];
          start := i + 1;
        }
      }
      end := i;
    }
    if depth != 0 {
      return Err(InvalidInput);
    }
    if end + 1 > |s| {
      return Err(Panic);
    }
    assert s[start..end + 1] == s[start..];
    r := Ok(parts + [Trim(s[start..end + 1])]);
  }

  function StripFieldName(piece: string): string {
    var s := Trim(piece);
    var prefix := s[..Find(s, '(')];
    var end := FindSpaceEnd(prefix);
    if end > 0 then TrimStart(s[end - 1..]) else s
  }

  function StripAll(pieces: seq<string>): (r: seq<string>)
    ensures |r| == |pieces|
  {
    seq(|pieces|, i requires 0 <= i < |pieces| => StripFieldName(pieces[i]))
  }

  /** `parse_tuple_inner_types`: field names dropped, `Tuple()` allowed. */
  function ParseTuple(s: string): (r: Result<seq<string>>)
    ensures !r.EndsEarly()
  {
    var inner :- ParseInnerOrEmpty(s);
    if inner == [] then Ok([])
    else
      var parts :- Split(inner);
      Ok(StripAll(parts))
  }

  function ParseMap(s: string): (r: Result<(string, string)>)
    ensures !r.EndsEarly()
  {
    var inner :- ParseInner(s);
    var parts :- Split(inner);
    if |parts| != 2 then Err(InvalidData) else Ok((parts[0], parts[1]))
  }

  function ParseVariant(s: string): (r: Result<seq<string>>)
    ensures !r.EndsEarly()
  {
    var inner :- ParseInner(s);
    Split(inner)
  }

  function ParseAggregate(s: string): (r: Result<string>)
    ensures !r.EndsEarly()
  {
    var inner :- ParseInnerOrEmpty(s);
    var parts :- Split(inner);
    if |parts| < 2 then Err(InvalidData) else Ok(Join(parts[1..]))
  }

  /** One `name TYPE` piece of a Nested type. */
  function ParseField(piece: string): (r: Result<(string, string)>)
    ensures !r.EndsEarly()
  {
    var part := Trim(piece);
    var i := FindSpace(part);
    if i == |part| then Err(InvalidData)
    else
      var name, ty := Trim(part[..i]), Trim(part[i + 1..]);
      if name == [] || ty == [] then Err(InvalidData) else Ok((name, ty))
  }

  function ParseFields(pieces: seq<string>, fields: seq<(string, string)>): (r: Result<seq<(string, string)>>)
    ensures !r.EndsEarly()
  {
    if pieces == [] then Ok(fields)
    else
      var field :- ParseField(pieces[0]);
      ParseFields(pieces[1..], fields + [field])
  }

  function ParseNested(s: string): (r: Result<seq<(string, string)>>)
    ensures !r.EndsEarly()
  {
    var inner :- ParseInner(s);
    var parts :- Split(inner);
    ParseFields(parts, [])
  }

  method ParseNestedLoop(s: string) returns (r: Result<seq<(string, string)>>)
    ensures r == ParseNested(s)
  {
    var inner :- ParseInner(s);
    var parts :- SplitWithComposite(inner);
    var fields: seq<(string, string)> := [];
    for i := 0 to |parts|
      invariant ParseFields(parts[i..], fields) == ParseFields(parts, [])
    {
      assert parts[i..][0] == parts[i] && parts[i..][1..] == parts[i + 1..];
      var field :- ParseField(parts[i]);
      fields := fields + [field];
    }
    r := Ok(fields);
  }

  function ParseFixedSize(s: string): (r: Result<nat>)
    ensures !r.EndsEarly()
  {
    var open, close := Find(s, '('), FindEnd(s, ')');
    if open == |s| || close == 0 || close - 1 <= open + 1 then Err(InvalidData)
    else
      match ParseUsize(Trim(s[open + 1..close - 1]))
      case Some(n) => Ok(n)
      case None => Err(InvalidData)
  }

  const STATEFUL: seq<string> := ["LowCardinality", "Variant", "Dynamic", "JSON", "Object"]

  predicate Stateful(s: string) {
    exists i :: 0 <= i < |STATEFUL| && Contains(s, STATEFUL[i])
  }

  // ---- Heads -------------------------------------------------------------------------

  datatype Head =
    | HScalar(kind: Kind) | HStr | HFixed | HNothing | HJson
    | HNullable | HArray | HTuple | HMap | HNested
    | HLowCardinality | HVariant | HDynamic
    | HAlias(rank: nat)
    | HAggregate
    | HUnknown

  /** The arms of the decoder's match on the base type. */
  function HeadOf(base: string): Head {
    if base == "UInt8" then HScalar(UInt8)
    else if base == "UInt16" then HScalar(UInt16)
    else if base == "UInt32" then HScalar(UInt32)
    else if base == "UInt64" then HScalar(UInt64)
    else if base == "UInt128" then HScalar(UInt128)
    else if base == "UInt256" then HScalar(UInt256)
    else if base == "Int8" then HScalar(Int8)
    else if base == "Int16" then HScalar(Int16)
    else if base == "Int32" then HScalar(Int32)
    else if base == "Int64" then HScalar(Int64)
    else if base == "Int128" then HScalar(Int128)
    else if base == "Int256" then HScalar(Int256)
    else if base == "Float64" then HScalar(Float64)
    else if base == "String" then HStr
    else if base == "FixedString" then HFixed
    else if base == "Nothing" then HNothing
    else if base == "JSON" then HJson
    else if base == "Nullable" then HNullable
    else if base == "Array" then HArray
    else if base == "Tuple" then HTuple
    else if base == "Map" then HMap
    else if base == "Nested" then HNested
    else if base == "LowCardinality" then HLowCardinality
    else if base == "Variant" then HVariant
    else if base == "Dynamic" then HDynamic
    else if base == "Point" then HAlias(1)
    else if base == "Ring" || base == "LineString" then HAlias(2)
    else if base == "Polygon" || base == "MultiLineString" then HAlias(3)
    else if base == "MultiPolygon" then HAlias(4)
    else if base == "SimpleAggregateFunction" then HAggregate
    else HUnknown
  }

  /** What a geo name stands for; the names of rank `r` expand to rank `r - 1`. */
  function AliasTarget(rank: nat): string {
    if rank == 1 then "Tuple(Float64, Float64)"
    else if rank == 2 then "Array(Point)"
    else if rank == 3 then "Array(Ring)"
    else "Array(Polygon)"
  }

  // ---- The measure the decoder's recursion goes down by ---------------------------------

  /** The highest geo name occurring anywhere in the string. */
  function GeoRank(s: string): nat {
    if Contains(s, "MultiPolygon") then 4
    else if Contains(s, "Polygon") || Contains(s, "MultiLineString") then 3
    else if Contains(s, "Ring") || Contains(s, "LineString") then 2
    else if Contains(s, "Point") then 1
    else 0
  }

  function Parens(s: string): nat {
    if s == [] then 0 else (if s[0] == '(' then 1 else 0) + Parens(s[1..])
  }

  /** No separator in it, so it cannot straddle two pieces. */
  predicate Word(w: string) {
    w != [] && ',' !in w && ' ' !in w
  }

  /** `t` has no parenthesis and no word that `s` does not have. */
  ghost predicate Inside(t: string, s: string) {
    Parens(t) <= Parens(s) && forall w :: Word(w) && Contains(t, w) ==> Contains(s, w)
  }

  lemma {:induction false} ParensConcat(a: string, b: string)
    ensures Parens(a + b) == Parens(a) + Parens(b)
  {
    if a == [] {
      assert a + b == b;
    } else {
      ParensConcat(a[1..], b);
      assert (a + b)[1..] == a[1..] + b;
    }
  }

  lemma {:induction false} ContainsMiddle(a: string, t: string, b: string, w: string)
    requires Contains(t, w)
    ensures Contains(a + t + b, w)
    decreases |a| + |t|
  {
    var s := a + t + b;
    if a != [] {
      ContainsMiddle(a[1..], t, b, w);
      assert s[1..] == a[1..] + t + b;
    } else if !(w <= t) {
      ContainsMiddle([], t[1..], b, w);
      assert s[1..] == [] + t[1..] + b;
    }
  }

  lemma SliceInside(s: string, i: nat, j: nat)
    requires i <= j <= |s|
    ensures Inside(s[i..j], s)
  {
    hide Contains, Parens;
    var a, t, b := s[..i], s[i..j], s[j..];
    assert s == a + t + b;
    ParensConcat(a, t);
    ParensConcat(a + t, b);
    forall w | Word(w) && Contains(t, w) ensures Contains(s, w) {
      ContainsMiddle(a, t, b, w);
    }
  }

  lemma {:induction false} TrimIsSlice(s: string) returns (i: nat, j: nat)
    ensures i <= j <= |s| && Trim(s) == s[i..j]
  {
    i := TrimStartIsSlice(s);
    var front := TrimEndIsSlice(s[i..]);
    j := i + front;
  }

  lemma {:induction false} TrimStartIsSlice(s: string) returns (i: nat)
    ensures i <= |s| && TrimStart(s) == s[i..]
  {
    if s != [] && IsSpace(s[0]) {
      var k := TrimStartIsSlice(s[1..]);
      i := k + 1;
    } else {
      i := 0;
    }
  }

  lemma {:induction false} TrimEndIsSlice(s: string) returns (j: nat)
    ensures j <= |s| && TrimEnd(s) == s[..j]
  {
    if s != [] && IsSpace(s[|s| - 1]) {
      j := TrimEndIsSlice(s[..|s| - 1]);
    } else {
      j := |s|;
    }
  }

  lemma TrimInside(s: string)
    ensures Inside(Trim(s), s)
  {
    var i, j := TrimIsSlice(s);
    SliceInside(s, i, j);
  }

  lemma InsideTrans(a: string, b: string, c: string)
    requires Inside(a, b) && Inside(b, c)
    ensures Inside(a, c)
  {
  }

  /** Splitting only ever hands out slices of its input, and no parenthesis
      twice. */
  ghost predicate PiecesOf(parts: seq<string>, s: string) {
    forall i :: 0 <= i < |parts| ==> Inside(parts[i], s)
  }

  function ParensOf(parts: seq<string>): nat {
    if parts == [] then 0 else ParensOf(parts[..|parts| - 1]) + Parens(parts[|parts| - 1])
  }

  lemma {:induction false} SplitFromPieces(s: string, i: nat, depth: int, start: nat, parts: seq<string>)
    requires start <= i <= |s| && PiecesOf(parts, s)
    requires ParensOf(parts) <= Parens(s[..start])
    ensures var r := SplitFrom(s, i, depth, start, parts);
            r.Ok? ==> (PiecesOf(r.value, s) && ParensOf(r.value) <= Parens(s) && |r.value| > |parts|)
    decreases |s| - i
  {
    hide Inside, Parens, Trim;
    if i == |s| {
      PieceInside(s, start, i);
      assert s[..|s|] == s && s[start..i] == s[start..];
      var all := parts + [Trim(s[start..])];
      assert all[..|all| - 1] == parts;
    } else if Cuts(s[i], depth, start, i) {
      PieceInside(s, start, i);
      var all := parts + [Trim(s[start..i])];
      assert all[..|all| - 1] == parts;
      ParensPrefix(s, i, i + 1);
      SplitFromPieces(s, i + 1, depth, i + 1, all);
    } else {
      SplitFromPieces(s, i + 1, NextDepth(s[i], depth), start, parts);
    }
  }

  lemma ParensPrefix(s: string, i: nat, j: nat)
    requires i <= j <= |s|
    ensures Parens(s[..i]) <= Parens(s[..j])
  {
    assert s[..j] == s[..i] + s[i..j];
    ParensConcat(s[..i], s[i..j]);
  }

  lemma PieceInside(s: string, start: nat, i: nat)
    requires start <= i <= |s|
    ensures Inside(Trim(s[start..i]), s)
    ensures Parens(s[..start]) + Parens(Trim(s[start..i])) <= Parens(s[..i])
  {
    SliceInside(s, start, i);
    TrimInside(s[start..i]);
    assert s[..i] == s[..start] + s[start..i];
    ParensConcat(s[..start], s[start..i]);
  }

  lemma SplitPieces(s: string)
    ensures Split(s).Ok? ==>
              PiecesOf(Split(s).value, s) && ParensOf(Split(s).value) <= Parens(s) && |Split(s).value| > 0
  {
    SplitFromPieces(s, 0, 0, 0, []);
  }

  /** Every helper hands on something inside its argument, one parenthesis
      poorer. */
  ghost predicate Deeper(t: string, s: string) {
    Inside(t, s) && Parens(t) < Parens(s)
  }

  lemma ParensAround(a: string, t: string, b: string)
    ensures Parens(a + "(" + t + b) > Parens(t)
  {
    ParensConcat(a + "(" + t, b);
    ParensConcat(a + "(", t);
    ParensConcat(a, "(");
  }

  lemma BetweenParens(s: string, close: nat)
    requires Find(s, '(') + 1 <= close <= |s|
    ensures Deeper(Trim(s[Find(s, '(') + 1..close]), s)
  {
    hide Contains, Trim, Find, Parens;
    var open := Find(s, '(');
    var t := s[open + 1..close];
    TrimInside(t);
    SliceInside(s, open + 1, close);
    ParensAround(s[..open], t, s[close..]);
    assert s == s[..open] + "(" + t + s[close..];
  }

  lemma ParseInnerDeeper(s: string)
    ensures ParseInner(s).Ok? ==> Deeper(ParseInner(s).value, s)
    ensures ParseInnerOrEmpty(s).Ok? ==> Deeper(ParseInnerOrEmpty(s).value, s)
  {
    hide Deeper, Trim;
    if ParseInnerOrEmpty(s).Ok? {
      BetweenParens(s, FindEnd(s, ')') - 1);
    }
  }

  lemma DeeperTrans(t: string, m: string, s: string)
    requires Inside(t, m) && Deeper(m, s)
    ensures Deeper(t, s)
  {
  }

  lemma StripInside(piece: string)
    ensures Inside(StripFieldName(piece), piece)
  {
    hide Inside, Trim, FindSpaceEnd, Find;
    var s := Trim(piece);
    TrimInside(piece);
    var end := FindSpaceEnd(s[..Find(s, '(')]);
    if end > 0 {
      var i := TrimStartIsSlice(s[end - 1..]);
      assert s[end - 1..][i..] == s[end - 1 + i..|s|];
      SliceInside(s, end - 1 + i, |s|);
      InsideTrans(StripFieldName(piece), s, piece);
    }
  }

  lemma ParseTupleDeeper(s: string)
    ensures ParseTuple(s).Ok? ==> forall i :: 0 <= i < |ParseTuple(s).value| ==> Deeper(ParseTuple(s).value[i], s)
  {
    hide Deeper, Inside, Split, ParseInnerOrEmpty, StripFieldName;
    if ParseTuple(s).Ok? {
      var inner := ParseInnerOrEmpty(s).value;
      ParseInnerDeeper(s);
      SplitPieces(inner);
      forall i | 0 <= i < |ParseTuple(s).value| ensures Deeper(ParseTuple(s).value[i], s) {
        var piece := Split(inner).value[i];
        StripInside(piece);
        InsideTrans(StripFieldName(piece), piece, inner);
        DeeperTrans(StripFieldName(piece), inner, s);
      }
    }
  }

  lemma ParseMapDeeper(s: string)
    ensures ParseMap(s).Ok? ==> (Deeper(ParseMap(s).value.0, s) && Deeper(ParseMap(s).value.1, s))
  {
    hide Deeper, Inside, Split, ParseInner;
    ParseInnerDeeper(s);
    if ParseMap(s).Ok? {
      var inner := ParseInner(s).value;
      SplitPieces(inner);
      DeeperTrans(ParseMap(s).value.0, inner, s);
      DeeperTrans(ParseMap(s).value.1, inner, s);
    }
  }

  lemma ParseVariantDeeper(s: string)
    ensures ParseVariant(s).Ok? ==> forall i :: 0 <= i < |ParseVariant(s).value| ==> Deeper(ParseVariant(s).value[i], s)
  {
    hide Deeper, Inside, Split, ParseInner;
    ParseInnerDeeper(s);
    if ParseVariant(s).Ok? {
      var inner := ParseInner(s).value;
      SplitPieces(inner);
      forall i | 0 <= i < |ParseVariant(s).value| ensures Deeper(ParseVariant(s).value[i], s) {
        DeeperTrans(ParseVariant(s).value[i], inner, s);
      }
    }
  }

  lemma FieldInside(piece: string)
    ensures ParseField(piece).Ok? ==> Inside(ParseField(piece).value.1, piece)
  {
    hide Inside, Trim, FindSpace;
    var part := Trim(piece);
    var i := FindSpace(part);
    if i < |part| {
      TrimInside(piece);
      TrimInside(part[i + 1..]);
      assert part[i + 1..] == part[i + 1..|part|];
      SliceInside(part, i + 1, |part|);
      InsideTrans(Trim(part[i + 1..]), part[i + 1..], part);
      InsideTrans(Trim(part[i + 1..]), part, piece);
    }
  }

  lemma {:induction false} FieldsDeeper(pieces: seq<string>, fields: seq<(string, string)>, s: string)
    requires forall i :: 0 <= i < |pieces| ==> Deeper(pieces[i], s)
    requires forall i :: 0 <= i < |fields| ==> Deeper(fields[i].1, s)
    ensures var r := ParseFields(pieces, fields);
            r.Ok? ==> forall i :: 0 <= i < |r.value| ==> Deeper(r.value[i].1, s)
  {
    hide Deeper, ParseField;
    if pieces != [] && ParseField(pieces[0]).Ok? {
      FieldInside(pieces[0]);
      DeeperTrans(ParseField(pieces[0]).value.1, pieces[0], s);
      FieldsDeeper(pieces[1..], fields + [ParseField(pieces[0]).value], s);
    }
  }

  lemma ParseNestedDeeper(s: string)
    ensures ParseNested(s).Ok? ==> forall i :: 0 <= i < |ParseNested(s).value| ==> Deeper(ParseNested(s).value[i].1, s)
  {
    hide Deeper, Inside, Split, ParseInner, ParseFields;
    ParseInnerDeeper(s);
    if ParseNested(s).Ok? {
      var inner := ParseInner(s).value;
      SplitPieces(inner);
      var parts := Split(inner).value;
      forall i | 0 <= i < |parts| ensures Deeper(parts[i], s) {
        DeeperTrans(parts[i], inner, s);
      }
      FieldsDeeper(parts, [], s);
    }
  }

  // A join of pieces is inside the string they came from.

  /** A word at the start of a joined text is at the start of the first piece. */
  lemma WordStops(a: string, b: string, w: string)
    requires Word(w)
    ensures w <= a + ", " + b ==> w <= a
    ensures !(w <= " " + b)
  {
    assert forall k :: 0 <= k < |w| ==> w[k] in w;
    assert (a + ", " + b)[|a|] == ',';
    assert w[0] != ' ';
  }

  lemma {:induction false} WordStraddlesNot(a: string, b: string, w: string)
    requires Word(w) && Contains(a + ", " + b, w)
    ensures Contains(a, w) || Contains(b, w)
  {
    var s := a + ", " + b;
    WordStops(a, b, w);
    if a == [] {
      assert s[1..] == " " + b;
      assert s[1..][1..] == b;
    } else if !(w <= s) {
      assert s[1..] == a[1..] + ", " + b;
      WordStraddlesNot(a[1..], b, w);
    }
  }

  lemma {:induction false} JoinInside(parts: seq<string>, s: string)
    requires PiecesOf(parts, s)
    ensures forall w :: Word(w) && Contains(Join(parts), w) ==> Contains(s, w)
    ensures Parens(Join(parts)) == ParensFront(parts)
  {
    hide Contains, Parens;
    if |parts| == 0 {
      NothingInside();
    } else if |parts| > 1 {
      JoinInside(parts[1..], s);
      forall w | Word(w) && Contains(Join(parts), w) ensures Contains(s, w) {
        WordStraddlesNot(parts[0], Join(parts[1..]), w);
      }
      ParensConcat(parts[0] + ", ", Join(parts[1..]));
      ParensConcat(parts[0], ", ");
      NothingInside();
    } else {
      assert parts[1..] == [];
    }
  }

  function ParensFront(parts: seq<string>): nat {
    if parts == [] then 0 else Parens(parts[0]) + ParensFront(parts[1..])
  }

  lemma NothingInside()
    ensures Parens([]) == 0 && Parens(", ") == 0
    ensures forall w :: Word(w) ==> !Contains([], w)
  {
    assert ", "[1..] == " " && " "[1..] == "";
  }

  lemma {:induction false} ParensFrontIs(parts: seq<string>)
    ensures ParensFront(parts) == ParensOf(parts)
  {
    hide Parens;
    if |parts| > 1 {
      var k := |parts| - 1;
      ParensFrontIs(parts[1..]);
      ParensFrontIs(parts[..k]);
      ParensFrontIs(parts[1..][..k - 1]);
      assert parts[1..][..k - 1] == parts[..k][1..];
    } else if |parts| == 1 {
      assert parts[1..] == [] && parts[..0] == [];
    }
  }

  lemma ParseAggregateDeeper(s: string)
    ensures ParseAggregate(s).Ok? ==> Deeper(ParseAggregate(s).value, s)
  {
    hide Contains, Parens, Split, ParseInnerOrEmpty, Join;
    ParseInnerDeeper(s);
    if ParseAggregate(s).Ok? {
      var inner := ParseInnerOrEmpty(s).value;
      SplitPieces(inner);
      var parts := Split(inner).value;
      JoinInside(parts[1..], inner);
      ParensFrontIs(parts);
      assert Inside(Join(parts[1..]), inner);
      DeeperTrans(Join(parts[1..]), inner, s);
    }
  }

  // ---- From Inside to the measure --------------------------------------------------------

  lemma GeoWords()
    ensures Word("MultiPolygon") && Word("Polygon") && Word("MultiLineString")
    ensures Word("Ring") && Word("LineString") && Word("Point")
  {
  }

  lemma StatefulWord(i: nat)
    requires i < |STATEFUL|
    ensures Word(STATEFUL[i])
  {
  }

  lemma MeasureInside(t: string, s: string)
    requires Inside(t, s)
    ensures Stateful(t) ==> Stateful(s)
    ensures GeoRank(t) <= GeoRank(s)
  {
    hide Contains, Parens, Word;
    GeoWords();
    if Stateful(t) {
      var i :| 0 <= i < |STATEFUL| && Contains(t, STATEFUL[i]);
      StatefulWord(i);
      assert Contains(s, STATEFUL[i]);
    }
  }

  // ---- Words and spaces in literal characters ---------------------------------------------

  /** Space, and the five control characters from tab to carriage return; the ASCII
      test leaves out the vertical tab. */
  lemma Spaces(c: char)
    ensures IsSpace(c) <==> c as int == 32 || 9 <= c as int <= 13
    ensures IsAsciiSpace(c) <==> c as int == 32 || (9 <= c as int <= 13 && c as int != 11)
  {
  }

  /** Trimming takes spaces off both ends, and nothing else. */
  lemma {:induction false} TrimmedEnds(s: string) returns (i: nat, j: nat)
    ensures i <= j <= |s| && Trim(s) == s[i..j]
    ensures forall k :: 0 <= k < i || j <= k < |s| ==> IsSpace(s[k])
    ensures i < j ==> !IsSpace(s[i]) && !IsSpace(s[j - 1])
  {
    i := StartTrimmed(s);
    var n := EndTrimmed(s[i..]);
    j := i + n;
    assert s[i..][..n] == s[i..j];
    forall k | j <= k < |s| ensures IsSpace(s[k]) { assert IsSpace(s[i..][k - i]); }
  }

  lemma {:induction false} StartTrimmed(s: string) returns (i: nat)
    ensures i <= |s| && TrimStart(s) == s[i..] && (i < |s| ==> !IsSpace(s[i]))
    ensures forall k :: 0 <= k < i ==> IsSpace(s[k])
  {
    if s != [] && IsSpace(s[0]) {
      var n := StartTrimmed(s[1..]);
      i := n + 1;
      assert s[1..][n..] == s[i..];
      forall k | 0 <= k < i ensures IsSpace(s[k]) {
        if k > 0 { assert s[1..][k - 1] == s[k]; }
      }
    } else {
      i := 0;
    }
  }

  lemma {:induction false} EndTrimmed(s: string) returns (j: nat)
    ensures j <= |s| && TrimEnd(s) == s[..j] && (j > 0 ==> !IsSpace(s[j - 1]))
    ensures forall k :: j <= k < |s| ==> IsSpace(s[k])
    decreases |s|
  {
    if s != [] && IsSpace(s[|s| - 1]) {
      j := EndTrimmed(s[..|s| - 1]);
      assert s[..|s| - 1][..j] == s[..j];
    } else {
      j := |s|;
      assert s[..|s|] == s;
    }
  }

  /** The five words that make a type stateful. */
  lemma StatefulWords(s: string)
    ensures Stateful(s)
       <==> || Contains(s, "LowCardinality") || Contains(s, "Variant") || Contains(s, "Dynamic")
            || Contains(s, "JSON") || Contains(s, "Object")
  {
    hide Contains;
    assert STATEFUL[0] == "LowCardinality" && STATEFUL[1] == "Variant" && STATEFUL[2] == "Dynamic";
    assert STATEFUL[3] == "JSON" && STATEFUL[4] == "Object";
  }

  /** A word is contained where it stands as a slice, and nowhere else. */
  lemma {:induction false} ContainsAt(s: string, word: string) returns (i: nat)
    requires Contains(s, word)
    ensures i + |word| <= |s| && s[i..i + |word|] == word
  {
    i := 0;
    if !(word <= s) {
      var k := ContainsAt(s[1..], word);
      i := k + 1;
    }
  }

  lemma {:induction false} SliceContains(s: string, i: nat, j: nat)
    requires i <= j <= |s|
    ensures Contains(s, s[i..j])
  {
    if i == 0 {
      assert s[i..j] <= s;
    } else {
      SliceContains(s[1..], i - 1, j - 1);
      assert s[1..][i - 1..j - 1] == s[i..j];
    }
  }
}
