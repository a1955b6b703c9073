/** src/tsv.rs: logical values as quoted text, and a reader that recovers the
    value and whatever follows it. */
module QuotedText {
  import opened Base
  import opened Wire
  import opened Digits
  import opened Column
  import opened TypeTree
  import opened DateText
  import opened Escape

  type FloatText = nat -> string

  predicate SignedKind(kind: Kind) {
    kind in {Int8, Int16, Int32, Int64, Int128, Int256}
  }

  /** The number a bit pattern stands for. */
  function NumberOf(kind: Kind, bits: nat): int {
    if SignedKind(kind) && 2 * bits >= Pow256(Width(kind)) then bits - Pow256(Width(kind)) else bits
  }

  function NumText(kind: Kind, bits: nat, ft: FloatText): string {
    if kind == Float64 then ft(bits) else IntText(NumberOf(kind, bits))
  }

  function Render(v: Value, ft: FloatText): string
    decreases v, 1, 0
  {
    match v
    case Num(kind, bits) => NumText(kind, bits, ft)
    case Txt(text) => "'" + Escaped(text, '\'') + "'"
    case Raw(bytes) => "'" + Escaped(Text(bytes), '\'') + "'"
    case Null => "NULL"
    case List(items) => "[" + RenderAll(items, ft) + "]"
    case Record(parts) => "(" + RenderAll(parts, ft) + ")"
    case Dict(keys, vals) => if |keys| == |vals| then "{" + RenderPairs(v, 0, ft) + "}" else ""
    case _ => ""
  }

  function RenderAll(vs: seq<Value>, ft: FloatText): string
    decreases vs, 0, 0
  {
    if vs == [] then ""
    else Render(vs[0], ft) + if |vs| == 1 then "" else "," + RenderAll(vs[1..], ft)
  }

  /** The pairs from the `i`th on. */
  function RenderPairs(v: Value, i: nat, ft: FloatText): string
    requires v.Dict? && |v.keys| == |v.vals|
    decreases v, 0, |v.keys| - i
  {
    if i >= |v.keys| then ""
    else Render(v.keys[i], ft) + ":" + Render(v.vals[i], ft)
         + if i + 1 == |v.keys| then "" else "," + RenderPairs(v, i + 1, ft)
  }

  // ---- Values of a type ------------------------------------------------------------

  /** The types whose text determines the value: integers, strings, and what is
      built from them. */
  predicate Readable(t: Ty) {
    match t
    case TScalar(kind) => kind != Float64
    case TStr => true
    case TFixed(_) => true
    case TNullable(u) => Readable(u)
    case TArray(u) => Readable(u)
    case TTuple(ts) => forall i :: 0 <= i < |ts| ==> Readable(ts[i])
    case TMap(k, v) => Readable(k) && Readable(v)
    case TNested(_, ts) => forall i :: 0 <= i < |ts| ==> Readable(ts[i])
    case TLowCardinality(u) => Readable(u)
    case _ => false
  }

  predicate OfType(v: Value, t: Ty)
    decreases t, v
  {
    match t
    case TScalar(kind) => v.Num? && v.kind == kind && v.bits < Pow256(Width(kind))
    case TStr => v.Txt?
    case TFixed(n) => v.Raw? && |v.bytes| == n
    case TNullable(u) => v.Null? || OfType(v, u)
    case TArray(u) => v.List? && forall i :: 0 <= i < |v.items| ==> OfType(v.items[i], u)
    case TTuple(ts) => v.Record? && PartsOf(v.parts, ts)
    case TMap(k, u) =>
      && v.Dict? && |v.keys| == |v.vals|
      && (forall i :: 0 <= i < |v.keys| ==> OfType(v.keys[i], k))
      && (forall i :: 0 <= i < |v.vals| ==> OfType(v.vals[i], u))
    case TNested(_, ts) =>
      v.List? && forall i :: 0 <= i < |v.items| ==> v.items[i].Record? && PartsOf(v.items[i].parts, ts)
    case TLowCardinality(u) => OfType(v, u)
    case _ => false
  }

  predicate PartsOf(parts: seq<Value>, ts: seq<Ty>)
    decreases ts, parts
  {
    |parts| == |ts| && forall i :: 0 <= i < |ts| ==> OfType(parts[i], ts[i])
  }

  // ---- The reader -----------------------------------------------------------------------

  /** One past the leading digits. */
  function DigitsEnd(s: string): (i: nat)
    ensures i <= |s| && AllDigits(s[..i]) && (i < |s| ==> !IsDigit(s[i]))
  {
    if s == [] || !IsDigit(s[0]) then 0
    else
      var i := 1 + DigitsEnd(s[1..]);
      assert s[..i] == [s[0]] + s[1..][..i - 1];
      i
  }

  function ReadNumber(kind: Kind, s: string): Option<(Value, string)> {
    var neg := s != [] && s[0] == '-';
    var digits := if neg then s[1..] else s;
    var i := DigitsEnd(digits);
    var n := DecValue(digits[..i]);
    if i == 0 then None
    else if !neg then Some((Num(kind, n), digits[i..]))
    else if n > Pow256(Width(kind)) then None
    else Some((Num(kind, Pow256(Width(kind)) - n), digits[i..]))
  }

  function ReadValue(t: Ty, s: string): Option<(Value, string)>
    decreases t, |s| + 2
  {
    match t
    case TScalar(kind) => ReadNumber(kind, s)
    case TStr =>
      if s == [] || s[0] != '\'' then None
      else (match ReadQuoted(s[1..], []) case Some((text, rest)) => Some((Txt(text), rest)) case None => None)
    case TFixed(_) =>
      if s == [] || s[0] != '\'' then None
      else (match ReadQuoted(s[1..], []) case Some((text, rest)) => Some((Raw(Octets(text)), rest)) case None => None)
    case TNullable(u) => if "NULL" <= s then Some((Null, s[4..])) else ReadValue(u, s)
    case TLowCardinality(u) => ReadValue(u, s)
    case TArray(_) =>
      if s == [] || s[0] != '[' then None
      else if |s| > 1 && s[1] == ']' then Some((List([]), s[2..]))
      else ReadItems(t, s[1..], [])
    case TNested(_, _) =>
      if s == [] || s[0] != '[' then None
      else if |s| > 1 && s[1] == ']' then Some((List([]), s[2..]))
      else ReadItems(t, s[1..], [])
    case TTuple(ts) =>
      (match ReadRecord(ts, s) case Some((v, rest)) => Some((v, rest)) case None => None)
    case TMap(_, _) =>
      if s == [] || s[0] != '{' then None
      else if |s| > 1 && s[1] == '}' then Some((Dict([], []), s[2..]))
      else ReadPairs(t, s[1..], [], [])
    case _ => None
  }

  function ReadItem(t: Ty, s: string): Option<(Value, string)>
    decreases t, 0
  {
    if t.TArray? then ReadValue(t.t, s) else if t.TNested? then ReadRecord(t.ts, s) else None
  }

  /** Items up to the closing bracket. */
  function ReadItems(t: Ty, s: string, items: seq<Value>): Option<(Value, string)>
    decreases t, |s| + 1
  {
    match ReadItem(t, s)
    case None => None
    case Some((v, rest)) =>
      if rest == [] || |rest| >= |s| then None
      else if rest[0] == ']' then Some((List(items + [v]), rest[1..]))
      else if rest[0] == ',' then ReadItems(t, rest[1..], items + [v])
      else None
  }

  function ReadPairs(t: Ty, s: string, keys: seq<Value>, vals: seq<Value>): Option<(Value, string)>
    decreases t, |s| + 1
  {
    if !t.TMap? then None
    else
      match ReadValue(t.k, s)
      case None => None
      case Some((k, s1)) =>
        if s1 == [] || s1[0] != ':' then None
        else
          match ReadValue(t.v, s1[1..])
          case None => None
          case Some((v, rest)) =>
            if rest == [] || |rest| >= |s| then None
            else if rest[0] == '}' then Some((Dict(keys + [k], vals + [v]), rest[1..]))
            else if rest[0] == ',' then ReadPairs(t, rest[1..], keys + [k], vals + [v])
            else None
  }

  function ReadRecord(ts: seq<Ty>, s: string): Option<(Value, string)>
    decreases ts, |s| + 1
  {
    if s == [] || s[0] != '(' then None
    else if ts == [] then if |s| > 1 && s[1] == ')' then Some((Record([]), s[2..])) else None
    else ReadParts(ts, s[1..], [])
  }

  function ReadParts(ts: seq<Ty>, s: string, parts: seq<Value>): Option<(Value, string)>
    decreases ts, 0
  {
    if ts == [] then None
    else
      match ReadValue(ts[0], s)
      case None => None
      case Some((v, rest)) =>
        if |ts| == 1 then
          if rest == [] || rest[0] != ')' then None else Some((Record(parts + [v]), rest[1..]))
        else if rest == [] || rest[0] != ',' then None
        else ReadParts(ts[1..], rest[1..], parts + [v])
  }

  // ---- What a number's text denotes -------------------------------------------------------

  /** The integer a text denotes: digits, after a minus sign or not. */
  function ReadInteger(t: string): Option<int> {
    var neg := t != [] && t[0] == '-';
    var digits := if neg then t[1..] else t;
    if digits == [] || !AllDigits(digits) then None
    else Some(if neg then -(DecValue(digits) as int) else DecValue(digits))
  }

  lemma IntegerReads(v: int)
    ensures ReadInteger(IntText(v)) == Some(v)
  {
    hide Dec, DecValue, AllDigits;
    var digits := Dec(Abs(v));
    DecValueOfDec(Abs(v));
    FirstDigit(digits);
    if v < 0 {
      assert IntText(v)[1..] == digits;
    } else {
      assert IntText(v) == digits;
    }
  }

  /** The text of an integer denotes the one number of its kind that has these
      bits: congruent to them, from 0 up for an unsigned kind, and half of the
      range negative for a signed one. */
  lemma NumberReads(kind: Kind, bits: nat, ft: FloatText)
    requires kind != Float64 && bits < Pow256(Width(kind))
    ensures var n := ReadInteger(NumText(kind, bits, ft));
            var range: int := Pow256(Width(kind));
            && n.Some? && (n.value - bits) % range == 0
            && (kind in {UInt8, UInt16, UInt32, UInt64, UInt128, UInt256} ==> 0 <= n.value < range)
            && (kind in {Int8, Int16, Int32, Int64, Int128, Int256} ==> -range <= 2 * n.value < range)
  {
    hide IntText, ReadInteger, Pow256;
    IntegerReads(NumberOf(kind, bits));
    CongruentToBits(NumberOf(kind, bits), bits, Pow256(Width(kind)));
  }

  lemma CongruentToBits(v: int, bits: nat, range: nat)
    requires range > 0 && (v == bits || v == bits - range)
    ensures (v - bits) % range == 0
  {
    if v != bits { assert v - bits == -1 * range; }
  }
}
