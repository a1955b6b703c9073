/** Quoted text is uniquely readable: from the text of a value, followed by
    anything that does not extend a number, the reader gets back the value and
    stops at its end. */
module QuotedReadable {
  import opened Base
  import opened Wire
  import opened Digits
  import opened Column
  import opened TypeTree
  import opened DateText
  import opened Escape
  import opened QuotedText

  /** What follows cannot be taken for more of the value. */
  predicate Stops(rest: string) {
    rest == [] || !IsDigit(rest[0])
  }

  lemma {:induction false} DigitsEndAt(d: string, rest: string)
    requires AllDigits(d) && Stops(rest)
    ensures DigitsEnd(d + rest) == |d|
  {
    if d == [] {
      assert d + rest == rest;
    } else {
      assert (d + rest)[1..] == d[1..] + rest;
      DigitsEndAt(d[1..], rest);
    }
  }

  lemma SignedDigitsRead(kind: Kind, neg: bool, d: string, rest: string)
    requires AllDigits(d) && d != [] && Stops(rest) && DecValue(d) <= Pow256(Width(kind))
    ensures ReadNumber(kind, (if neg then "-" else "") + d + rest)
         == Some((Num(kind, if neg then Pow256(Width(kind)) - DecValue(d) else DecValue(d)), rest))
  {
    hide Pow256, DecValue, DigitsEnd;
    var s := (if neg then "-" else "") + d + rest;
    DigitsEndAt(d, rest);
    assert (d + rest)[..|d|] == d && (d + rest)[|d|..] == rest;
    if neg {
      assert s[1..] == d + rest;
    } else {
      assert s == d + rest && IsDigit(d[0]);
    }
  }

  lemma NumberReads(kind: Kind, bits: nat, rest: string, ft: FloatText)
    requires kind != Float64 && bits < Pow256(Width(kind)) && Stops(rest)
    ensures ReadNumber(kind, NumText(kind, bits, ft) + rest) == Some((Num(kind, bits), rest))
    ensures NumText(kind, bits, ft)[0] == '-' || IsDigit(NumText(kind, bits, ft)[0])
  {
    hide Pow256, Dec, DecValue, ReadNumber;
    var n := NumberOf(kind, bits);
    DecValueOfDec(Abs(n));
    SignedDigitsRead(kind, n < 0, Dec(Abs(n)), rest);
  }

  /** How a value's text may begin. */
  predicate Opens(v: Value, c: char) {
    if v.Null? then c == 'N' else IsDigit(c) || c == '-' || c == '\'' || c == '[' || c == '(' || c == '{'
  }

  lemma {:induction false} FirstCharacter(v: Value, t: Ty, ft: FloatText)
    requires Readable(t) && OfType(v, t)
    ensures Render(v, ft) != [] && Opens(v, Render(v, ft)[0])
    decreases t
  {
    hide Pow256, RenderAll, RenderPairs, Escaped, NumText;
    match t
    case TScalar(kind) => NumberReads(kind, v.bits, [], ft);
    case TNullable(u) => if !v.Null? { FirstCharacter(v, u, ft); }
    case TLowCardinality(u) => FirstCharacter(v, u, ft);
    case _ =>
  }

  lemma StringReads(text: string, rest: string)
    ensures var s := "'" + Escaped(text, '\'') + "'" + rest;
            s[0] == '\'' && ReadQuoted(s[1..], []) == Some((text, rest))
  {
    hide Escaped, ReadQuoted;
    var s := "'" + Escaped(text, '\'') + "'" + rest;
    QuotedReads(text, [], rest);
    assert s[1..] == Escaped(text, '\'') + "'" + rest && [] + text == text;
  }

  lemma {:induction false} ReadRender(v: Value, t: Ty, rest: string, ft: FloatText)
    requires Readable(t) && OfType(v, t) && Stops(rest)
    ensures ReadValue(t, Render(v, ft) + rest) == Some((v, rest))
    decreases t, 3, 0
  {
    hide Pow256, RenderAll, RenderPairs, Escaped, ReadQuoted, ReadNumber, NumText, ReadItems, ReadPairs, ReadRecord;
    hide Octets, Text;
    match t
    case TScalar(kind) => NumberReads(kind, v.bits, rest, ft);
    case TStr => StringReads(v.text, rest);
    case TFixed(_) =>
      StringReads(Text(v.bytes), rest);
      OctetsOfText(v.bytes);
    case TNullable(u) => NullableReads(v, t, rest, ft);
    case TLowCardinality(u) => ReadRender(v, u, rest, ft);
    case TArray(_) => ListReads(v, t, rest, ft);
    case TNested(_, _) => ListReads(v, t, rest, ft);
    case TTuple(ts) => RecordReads(v, ts, rest, ft);
    case TMap(_, _) => MapReads(v, t, rest, ft);
  }

  lemma NullableReads(v: Value, t: Ty, rest: string, ft: FloatText)
    requires t.TNullable? && Readable(t) && OfType(v, t) && Stops(rest)
    ensures ReadValue(t, Render(v, ft) + rest) == Some((v, rest))
    decreases t, 2, 0
  {
    hide Render, OfType, Readable;
    var s := Render(v, ft) + rest;
    if v.Null? {
      NullText(ft);
      assert s[..4] == "NULL" && s[4..] == rest;
    } else {
      NotNull(v, t);
      FirstCharacter(v, t.t, ft);
      assert s[0] != 'N';
      ReadRender(v, t.t, rest, ft);
    }
  }

  lemma NullText(ft: FloatText)
    ensures Render(Null, ft) == "NULL"
  {
  }

  lemma NotNull(v: Value, t: Ty)
    requires t.TNullable? && Readable(t) && OfType(v, t) && !v.Null?
    ensures Readable(t.t) && OfType(v, t.t)
  {
    hide Pow256;
  }

  // ---- Lists ------------------------------------------------------------------------

  /** `v` may be an item of a list of type `t`. */
  ghost predicate ItemOf(v: Value, t: Ty) {
    (t.TArray? && OfType(v, t.t)) || (t.TNested? && v.Record? && PartsOf(v.parts, t.ts))
  }

  lemma ListItems(v: Value, t: Ty)
    requires (t.TArray? || t.TNested?) && OfType(v, t)
    ensures v.List? && forall i :: 0 <= i < |v.items| ==> ItemOf(v.items[i], t)
  {
  }

  lemma ItemReads(v: Value, t: Ty, rest: string, ft: FloatText)
    requires Readable(t) && ItemOf(v, t) && Stops(rest)
    ensures ReadItem(t, Render(v, ft) + rest) == Some((v, rest))
    ensures Render(v, ft) != [] && Render(v, ft)[0] != ']'
    decreases t, 0, 0
  {
    hide OfType, PartsOf, Render, ReadValue, ReadRecord;
    if t.TArray? {
      FirstCharacter(v, t.t, ft);
      ReadRender(v, t.t, rest, ft);
    } else {
      RecordReads(v, t.ts, rest, ft);
    }
  }

  lemma OpenBracket(t: Ty, body: string)
    requires t.TArray? || t.TNested?
    ensures ReadValue(t, "[" + body)
         == if body != [] && body[0] == ']' then Some((List([]), body[1..])) else ReadItems(t, body, [])
  {
    hide ReadItems;
    var s := "[" + body;
    assert s[1..] == body;
    if body != [] {
      assert s[1] == body[0] && s[2..] == body[1..];
    }
  }

  lemma ListReads(v: Value, t: Ty, rest: string, ft: FloatText)
    requires (t.TArray? || t.TNested?) && Readable(t) && OfType(v, t)
    ensures ReadValue(t, Render(v, ft) + rest) == Some((v, rest))
    decreases t, 2, 0
  {
    ListItems(v, t);
    assert Render(v, ft) == "[" + RenderAll(v.items, ft) + "]";
    hide OfType, Readable, RenderAll, ReadItems, ReadValue, Render, ItemOf;
    var body := RenderAll(v.items, ft) + "]" + rest;
    assert Render(v, ft) + rest == "[" + body;
    OpenBracket(t, body);
    if v.items == [] {
      NothingRendered(ft);
      assert body == "]" + rest && body[1..] == rest;
    } else {
      ItemsRead(v.items, t, [], rest, ft);
      RenderAllFirst(v.items, ft);
      ItemReads(v.items[0], t, [], ft);
      assert body[0] == RenderAll(v.items, ft)[0];
      assert [] + v.items == v.items;
    }
  }

  lemma NothingRendered(ft: FloatText)
    ensures RenderAll([], ft) == ""
  {
  }

  lemma RenderAllFirst(vs: seq<Value>, ft: FloatText)
    requires vs != []
    ensures RenderAll(vs, ft) == Render(vs[0], ft) + if |vs| == 1 then "" else "," + RenderAll(vs[1..], ft)
  {
  }

  lemma ItemStep(t: Ty, first: string, v: Value, done: seq<Value>, c: char, tail: string)
    requires first != [] && ReadItem(t, first + ([c] + tail)) == Some((v, [c] + tail))
    ensures c == ']' ==> ReadItems(t, first + ([c] + tail), done) == Some((List(done + [v]), tail))
    ensures c == ',' ==> ReadItems(t, first + ([c] + tail), done) == ReadItems(t, tail, done + [v])
  {
    hide ReadItem;
    assert ([c] + tail)[1..] == tail;
  }

  lemma {:induction false} ItemsRead(items: seq<Value>, t: Ty, done: seq<Value>, rest: string, ft: FloatText)
    requires items != [] && Readable(t) && forall i :: 0 <= i < |items| ==> ItemOf(items[i], t)
    ensures ReadItems(t, RenderAll(items, ft) + "]" + rest, done) == Some((List(done + items), rest))
    decreases t, 1, |items|
  {
    hide Render, RenderAll, ReadItem, ReadItems, ItemOf, Readable;
    RenderAllFirst(items, ft);
    var first := Render(items[0], ft);
    var s := RenderAll(items, ft) + "]" + rest;
    if |items| == 1 {
      ItemReads(items[0], t, "]" + rest, ft);
      ItemStep(t, first, items[0], done, ']', rest);
      assert s == first + ("]" + rest);
      assert done + [items[0]] == done + items;
    } else {
      var others := RenderAll(items[1..], ft) + "]" + rest;
      ItemReads(items[0], t, "," + others, ft);
      ItemStep(t, first, items[0], done, ',', others);
      assert s == first + ("," + others);
      ItemsRead(items[1..], t, done + [items[0]], rest, ft);
      assert done + [items[0]] + items[1..] == done + items;
    }
  }

  // ---- Records ---------------------------------------------------------------------------

  lemma RecordReads(v: Value, ts: seq<Ty>, rest: string, ft: FloatText)
    requires v.Record? && PartsOf(v.parts, ts) && forall i :: 0 <= i < |ts| ==> Readable(ts[i])
    ensures ReadRecord(ts, Render(v, ft) + rest) == Some((v, rest))
    ensures Render(v, ft) != [] && Render(v, ft)[0] == '('
    decreases ts, 1, 0
  {
    hide OfType, Readable, Render, RenderAll, ReadParts;
    RecordText(v, ft);
    var s := Render(v, ft) + rest;
    var body := RenderAll(v.parts, ft) + ")" + rest;
    assert s == "(" + body && s[1..] == body;
    if ts == [] {
      NothingRendered(ft);
      assert v.parts == [] && s[1] == ')' && s[2..] == rest;
    } else {
      PartsRead(v.parts, ts, [], rest, ft);
      assert [] + v.parts == v.parts;
    }
  }

  lemma RecordText(v: Value, ft: FloatText)
    requires v.Record?
    ensures Render(v, ft) == "(" + RenderAll(v.parts, ft) + ")"
  {
    hide RenderAll;
  }

  lemma {:induction false} PartsRead(parts: seq<Value>, ts: seq<Ty>, done: seq<Value>, rest: string, ft: FloatText)
    requires ts != [] && PartsOf(parts, ts) && forall i :: 0 <= i < |ts| ==> Readable(ts[i])
    ensures ReadParts(ts, RenderAll(parts, ft) + ")" + rest, done) == Some((Record(done + parts), rest))
    decreases ts, 0, 0
  {
    hide Render, RenderAll, ReadValue, OfType, Readable;
    RenderAllFirst(parts, ft);
    var first := Render(parts[0], ft);
    var s := RenderAll(parts, ft) + ")" + rest;
    if |ts| == 1 {
      ReadRender(parts[0], ts[0], ")" + rest, ft);
      assert s == first + (")" + rest) && (")" + rest)[1..] == rest;
      assert done + [parts[0]] == done + parts;
    } else {
      var others := RenderAll(parts[1..], ft) + ")" + rest;
      ReadRender(parts[0], ts[0], "," + others, ft);
      assert s == first + ("," + others) && ("," + others)[1..] == others;
      PartsRead(parts[1..], ts[1..], done + [parts[0]], rest, ft);
      assert done + [parts[0]] + parts[1..] == done + parts;
    }
  }

  // ---- Maps --------------------------------------------------------------------------------

  lemma OpenBrace(t: Ty, body: string)
    requires t.TMap?
    ensures ReadValue(t, "{" + body)
         == if body != [] && body[0] == '}' then Some((Dict([], []), body[1..])) else ReadPairs(t, body, [], [])
  {
    hide ReadPairs;
    var s := "{" + body;
    assert s[1..] == body;
    if body != [] {
      assert s[1] == body[0] && s[2..] == body[1..];
    }
  }

  lemma DictText(v: Value, t: Ty, ft: FloatText)
    requires t.TMap? && OfType(v, t)
    ensures v.Dict? && |v.keys| == |v.vals| && Render(v, ft) == "{" + RenderPairs(v, 0, ft) + "}"
  {
    hide RenderPairs;
  }

  lemma MapReads(v: Value, t: Ty, rest: string, ft: FloatText)
    requires t.TMap? && Readable(t) && OfType(v, t)
    ensures ReadValue(t, Render(v, ft) + rest) == Some((v, rest))
    decreases t, 2, 0
  {
    hide RenderPairs, ReadPairs, ReadValue, Render, OfType, Readable;
    DictText(v, t, ft);
    var body := RenderPairs(v, 0, ft) + "}" + rest;
    assert Render(v, ft) + rest == "{" + body;
    OpenBrace(t, body);
    if v.keys == [] {
      PairsEnd(v, ft);
      assert v == Dict([], []) && body == "}" + rest && body[1..] == rest;
    } else {
      PairTypes(v, t, 0);
      PairsRead(v, t, 0, rest, ft);
      PairFirst(v, 0, ft);
      FirstCharacter(v.keys[0], t.k, ft);
      assert body[0] == RenderPairs(v, 0, ft)[0];
      assert v.keys[..0] == [] && v.vals[..0] == [];
    }
  }

  lemma PairsEnd(v: Value, ft: FloatText)
    requires v.Dict? && |v.keys| == |v.vals|
    ensures RenderPairs(v, |v.keys|, ft) == ""
  {
  }

  lemma PairFirst(v: Value, i: nat, ft: FloatText)
    requires v.Dict? && |v.keys| == |v.vals| && i < |v.keys|
    ensures RenderPairs(v, i, ft) == Render(v.keys[i], ft) + ":" + Render(v.vals[i], ft)
              + if i + 1 == |v.keys| then "" else "," + RenderPairs(v, i + 1, ft)
  {
  }

  lemma PairStep(t: Ty, key: string, val: string, k: Value, v: Value, keys: seq<Value>, vals: seq<Value>,
      c: char, tail: string)
    requires t.TMap? && val != []
    requires ReadValue(t.k, key + (":" + (val + ([c] + tail)))) == Some((k, ":" + (val + ([c] + tail))))
    requires ReadValue(t.v, val + ([c] + tail)) == Some((v, [c] + tail))
    ensures var s := key + (":" + (val + ([c] + tail)));
            && (c == '}' ==> ReadPairs(t, s, keys, vals) == Some((Dict(keys + [k], vals + [v]), tail)))
            && (c == ',' ==> ReadPairs(t, s, keys, vals) == ReadPairs(t, tail, keys + [k], vals + [v]))
  {
    hide ReadValue;
    assert (":" + (val + ([c] + tail)))[1..] == val + ([c] + tail);
    assert ([c] + tail)[1..] == tail;
  }

  lemma {:induction false} PairsRead(v: Value, t: Ty, i: nat, rest: string, ft: FloatText)
    requires t.TMap? && Readable(t) && OfType(v, t) && i < |v.keys|
    ensures ReadPairs(t, RenderPairs(v, i, ft) + "}" + rest, v.keys[..i], v.vals[..i]) == Some((v, rest))
    decreases t, 1, |v.keys| - i
  {
    hide Render, RenderPairs, ReadValue, ReadPairs, OfType, Readable;
    PairTypes(v, t, i);
    PairFirst(v, i, ft);
    FirstCharacter(v.vals[i], t.v, ft);
    var key, val := Render(v.keys[i], ft), Render(v.vals[i], ft);
    var s := RenderPairs(v, i, ft) + "}" + rest;
    var last := i + 1 == |v.keys|;
    var c, tail := if last then '}' else ',', if last then rest else RenderPairs(v, i + 1, ft) + "}" + rest;
    assert s == key + (":" + (val + ([c] + tail)));
    ReadRender(v.keys[i], t.k, ":" + (val + ([c] + tail)), ft);
    ReadRender(v.vals[i], t.v, [c] + tail, ft);
    PairStep(t, key, val, v.keys[i], v.vals[i], v.keys[..i], v.vals[..i], c, tail);
    assert v.keys[..i] + [v.keys[i]] == v.keys[..i + 1] && v.vals[..i] + [v.vals[i]] == v.vals[..i + 1];
    if last {
      assert v.keys[..i + 1] == v.keys && v.vals[..i + 1] == v.vals;
    } else {
      PairsRead(v, t, i + 1, rest, ft);
    }
  }

  lemma PairTypes(v: Value, t: Ty, i: nat)
    requires t.TMap? && Readable(t) && OfType(v, t) && i < |v.keys|
    ensures v.Dict? && |v.keys| == |v.vals|
    ensures Readable(t.k) && Readable(t.v) && OfType(v.keys[i], t.k) && OfType(v.vals[i], t.v)
  {
  }

  // ---- Consequences ------------------------------------------------------------------------

  /** Two values of one type never render alike, and neither text continues the
      other except by more digits. */
  lemma RenderIsInjective(v: Value, w: Value, t: Ty, more: string, rest: string, ft: FloatText)
    requires Readable(t) && OfType(v, t) && OfType(w, t) && Stops(more) && Stops(rest)
    requires Render(v, ft) + more == Render(w, ft) + rest
    ensures v == w && more == rest
  {
    hide *;
    ReadRender(v, t, more, ft);
    ReadRender(w, t, rest, ft);
  }
}
