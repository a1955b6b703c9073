/** src/tsv.rs: `write_value_quoted` and the writers of composites, on columns. */
module QuotedWriter {
  import opened Base
  import opened Wire
  import opened Column
  import opened TypeTree
  import opened Codec
  import opened ByteIO
  import opened Escape
  import opened QuotedText
  import opened QuotedReadable

  /** The columns every value of which can be quoted. */
  predicate Quotable(c: Col) {
    match c
    case Scalar(_, _) => true
    case Str(_) => true
    case FixedStr(_, _) => true
    case Nullable(inner, _) => Quotable(inner)
    case Array(items, _) => Quotable(items)
    case Tuple(elems) => forall i :: 0 <= i < |elems| ==> Quotable(elems[i])
    case Map(keys, values, _) => Quotable(keys) && Quotable(values)
    case Nested(_, fields, _) => forall i :: 0 <= i < |fields| ==> Quotable(fields[i])
    case LowCardinality(dict, _, _) => Quotable(dict)
    case _ => false
  }

  /** Row `i` can be quoted: no column of it that is looked at is of another type.
      A NULL hides what is under it, and an empty list has nothing to look at. */
  predicate Printable(c: Col, i: nat)
    requires Valid(c) && i < RowCount(c)
    decreases c, 0
  {
    match c
    case Scalar(_, _) => true
    case Str(_) => true
    case FixedStr(_, _) => true
    case Nullable(inner, nulls) => nulls[i] == 1 || Printable(inner, i)
    case Array(items, offsets) => RunPrintable(items, Start(offsets, i), offsets[i])
    case Tuple(elems) => forall k :: 0 <= k < |elems| ==> Printable(elems[k], i)
    case Map(keys, values, offsets) =>
      forall j :: Start(offsets, i) <= j < offsets[i] ==> Printable(keys, j) && Printable(values, j)
    case Nested(_, fields, offsets) =>
      forall k :: 0 <= k < |fields| ==> RunPrintable(fields[k], Start(offsets, i), offsets[i])
    case LowCardinality(dict, refs, _) => Printable(dict, refs[i])
    case _ => false
  }

  predicate RunPrintable(c: Col, from: nat, to: nat)
    requires Valid(c) && to <= RowCount(c)
    decreases c, 1
  {
    forall j :: from <= j < to ==> Printable(c, j)
  }

  /** Every row of a column of quotable types can be. */
  lemma {:induction false} QuotableRows(c: Col, i: nat)
    requires Valid(c) && i < RowCount(c) && Quotable(c)
    ensures Printable(c, i)
    decreases c
  {
    hide CountOf;
    match c
    case Nullable(inner, _) => QuotableRows(inner, i);
    case Array(items, offsets) =>
      forall j | Start(offsets, i) <= j < offsets[i] ensures Printable(items, j) { QuotableRows(items, j); }
      assert RunPrintable(items, Start(offsets, i), offsets[i]);
    case Tuple(elems) =>
      forall k | 0 <= k < |elems| ensures Printable(elems[k], i) { QuotableRows(elems[k], i); }
    case Map(keys, values, offsets) =>
      forall j | Start(offsets, i) <= j < offsets[i] ensures Printable(keys, j) && Printable(values, j) {
        QuotableRows(keys, j);
        QuotableRows(values, j);
      }
    case Nested(_, fields, offsets) =>
      forall k | 0 <= k < |fields| ensures RunPrintable(fields[k], Start(offsets, i), offsets[i]) {
        forall j | Start(offsets, i) <= j < offsets[i] ensures Printable(fields[k], j) { QuotableRows(fields[k], j); }
      }
    case LowCardinality(dict, refs, _) => QuotableRows(dict, refs[i]);
    case _ =>
  }

  // ---- The text of a row, by type ----------------------------------------------------

  /** The values of one row across several columns. */
  function Across(cols: seq<Col>, row: nat): (vs: seq<Value>)
    requires forall j :: 0 <= j < |cols| ==> Valid(cols[j]) && row < RowCount(cols[j])
    ensures |vs| == |cols|
  {
    seq(|cols|, j requires 0 <= j < |cols| => RowValue(cols[j], row))
  }

  /** The records of a nested row. */
  function Records(fields: seq<Col>, from: nat, to: nat): (vs: seq<Value>)
    requires from <= to && forall j :: 0 <= j < |fields| ==> Valid(fields[j]) && to <= RowCount(fields[j])
    ensures |vs| == to - from
  {
    seq(to - from, k requires 0 <= k < to - from => Record(Across(fields, from + k)))
  }

  lemma ScalarRow(c: Col, i: nat, ft: FloatText)
    requires c.Scalar? && i < RowCount(c)
    ensures Render(RowValue(c, i), ft) == NumText(c.kind, c.vals[i], ft)
  {
    hide NumText;
  }

  lemma StringRow(c: Col, i: nat, ft: FloatText)
    requires (c.Str? || c.FixedStr?) && Valid(c) && i < RowCount(c)
    ensures c.Str? ==> Render(RowValue(c, i), ft) == "'" + Escaped(c.strs[i], '\'') + "'"
    ensures c.FixedStr? ==>
              && i * c.n + c.n <= |c.data|
              && Render(RowValue(c, i), ft) == "'" + Escaped(Text(c.data[i * c.n..i * c.n + c.n]), '\'') + "'"
  {
    hide Escaped;
    if c.FixedStr? {
      FixedRow(c.n, |c.data|, i);
    }
  }

  lemma WrappedRow(c: Col, i: nat, ft: FloatText)
    requires (c.Nullable? || c.LowCardinality?) && Valid(c) && i < RowCount(c)
    ensures c.Nullable? ==>
              Render(RowValue(c, i), ft) == if c.nulls[i] == 1 then "NULL" else Render(RowValue(c.inner, i), ft)
    ensures c.LowCardinality? ==> Render(RowValue(c, i), ft) == Render(RowValue(c.dict, c.refs[i]), ft)
  {
    hide NumText, RenderAll, RenderPairs;
  }

  lemma ArrayRow(c: Col, i: nat, ft: FloatText)
    requires c.Array? && Valid(c) && i < RowCount(c)
    ensures Render(RowValue(c, i), ft)
         == "[" + RenderAll(RowValues(c.items, Start(c.offsets, i), c.offsets[i]), ft) + "]"
  {
    hide RenderAll, RowValues;
  }

  lemma TupleRow(c: Col, i: nat, ft: FloatText)
    requires c.Tuple? && Valid(c) && i < RowCount(c)
    ensures Render(RowValue(c, i), ft) == "(" + RenderAll(Across(c.elems, i), ft) + ")"
  {
    hide RenderAll;
    assert RowValue(c, i).parts == Across(c.elems, i);
  }

  lemma NestedItems(c: Col, i: nat)
    requires c.Nested? && Valid(c) && i < RowCount(c)
    ensures Start(c.offsets, i) <= c.offsets[i] <= Last(c.offsets)
    ensures RowValue(c, i) == List(Records(c.fields, Start(c.offsets, i), c.offsets[i]))
  {
    var from, to := Start(c.offsets, i), c.offsets[i];
    forall k | 0 <= k < to - from ensures RowValue(c, i).items[k] == Record(Across(c.fields, from + k)) {
      assert RowValue(c, i).items[k].parts == Across(c.fields, from + k);
    }
    assert RowValue(c, i).items == Records(c.fields, from, to);
  }

  lemma NestedRow(c: Col, i: nat, ft: FloatText)
    requires c.Nested? && Valid(c) && i < RowCount(c)
    ensures Start(c.offsets, i) <= c.offsets[i] <= Last(c.offsets)
    ensures Render(RowValue(c, i), ft)
         == "[" + RenderAll(Records(c.fields, Start(c.offsets, i), c.offsets[i]), ft) + "]"
  {
    hide RenderAll, RowValue, Records, Valid;
    NestedItems(c, i);
  }

  lemma MapRow(c: Col, i: nat, ft: FloatText)
    requires c.Map? && Valid(c) && i < RowCount(c)
    ensures var v, from, to := RowValue(c, i), Start(c.offsets, i), c.offsets[i];
            && from <= to <= RowCount(c.keys) && to <= RowCount(c.values)
            && v.Dict? && v.keys == RowValues(c.keys, from, to) && v.vals == RowValues(c.values, from, to)
            && Render(v, ft) == "{" + RenderPairs(v, 0, ft) + "}"
  {
    hide RenderPairs, RowValues;
  }

  // ---- Loops over items -------------------------------------------------------------------

  /** What is still to be written: with a comma in front unless nothing has been. */
  function Listed(vs: seq<Value>, first: bool, ft: FloatText): string {
    if vs == [] then "" else (if first then "" else ",") + RenderAll(vs, ft)
  }

  lemma ListedStep(vs: seq<Value>, first: bool, ft: FloatText)
    requires vs != []
    ensures Listed(vs, first, ft) == (if first then "" else ",") + Render(vs[0], ft) + Listed(vs[1..], false, ft)
  {
    hide Render, RenderAll;
    RenderAllFirst(vs, ft);
    assert |vs| == 1 <==> vs[1..] == [];
    Regroup("", if first then "" else ",", Render(vs[0], ft), Listed(vs[1..], false, ft));
    assert RenderAll(vs, ft) == Render(vs[0], ft) + Listed(vs[1..], false, ft);
  }

  lemma ListedAll(vs: seq<Value>, ft: FloatText)
    ensures Listed(vs, true, ft) == RenderAll(vs, ft)
  {
    NothingRendered(ft);
  }

  lemma NothingListed(first: bool, ft: FloatText)
    ensures Listed([], first, ft) == ""
  {
  }

  lemma Regroup(a: string, b: string, c: string, d: string)
    ensures a + (b + c + d) == a + b + c + d
  {
  }

  lemma RunStep(items: Col, i: nat, end: nat)
    requires Valid(items) && i < end <= RowCount(items)
    ensures var vs := RowValues(items, i, end);
            vs != [] && vs[0] == RowValue(items, i) && vs[1..] == RowValues(items, i + 1, end)
  {
    hide RowValue, Valid, RowCount;
  }

  lemma RunEnd(items: Col, end: nat)
    requires Valid(items) && end <= RowCount(items)
    ensures RowValues(items, end, end) == []
  {
    hide RowValue, Valid, RowCount;
  }

  lemma RecordsStep(fields: seq<Col>, i: nat, end: nat)
    requires i < end && forall j :: 0 <= j < |fields| ==> Valid(fields[j]) && end <= RowCount(fields[j])
    ensures var vs := Records(fields, i, end);
            vs != [] && vs[0] == Record(Across(fields, i)) && vs[1..] == Records(fields, i + 1, end)
  {
    hide RowValue, Valid, RowCount, Across;
  }

  lemma Bracketed(before: string, open: string, body: string, close: string)
    ensures before + open + body + close == before + (open + body + close)
  {
  }

  // ---- The writers -------------------------------------------------------------------------

  /** Fails exactly where the row comes to a type that has no quoted form;
      otherwise the text is that of the row's logical value, whatever columns it is
      spread over. */
  method WriteValueQuoted(w: Sink, c: Col, i: nat, ft: FloatText) returns (ok: bool)
    requires Valid(c) && i < RowCount(c)
    modifies w
    ensures ok == Printable(c, i)
    ensures ok ==> w.text == old(w.text) + Render(RowValue(c, i), ft)
    decreases c, 3
  {
    hide Render, RowValue, Escaped, NumText, RowValues, Pow256, CountOf;
    ok := true;
    PrintableRow(c, i);
    if c.Tuple? { PrintableTuple(c, i); }
    if c.Nested? { PrintableNested(c, i); }
    hide Printable, RunPrintable, RenderAll, Records, Across, Monotone, Listed;
    match c
    case Scalar(_, _) => WriteLeaf(w, c, i, ft);
    case Str(_) => WriteLeaf(w, c, i, ft);
    case FixedStr(_, _) => WriteLeaf(w, c, i, ft);
    case Nullable(inner, nulls) =>
      WrappedRow(c, i, ft);
      if nulls[i] == 1 {
        w.Put("NULL");
      } else {
        ok := WriteValueQuoted(w, inner, i, ft);
      }
    case Array(items, offsets) =>
      ArrayRow(c, i, ft);
      ok := WriteArray(w, items, offsets, i, ft);
    case Tuple(elems) =>
      TupleRow(c, i, ft);
      ok := WriteTuple(w, elems, i, ft);
    case Map(_, _, _) => ok := WriteMap(w, c, i, ft);
    case Nested(_, fields, offsets) =>
      NestedRow(c, i, ft);
      ok := WriteNested(w, fields, offsets, i, ft);
    case LowCardinality(dict, refs, _) =>
      WrappedRow(c, i, ft);
      ok := WriteValueQuoted(w, dict, refs[i], ft);
    case _ => ok := false;
  }

  lemma PrintableRow(c: Col, i: nat)
    requires Valid(c) && i < RowCount(c)
    ensures c.Scalar? || c.Str? || c.FixedStr? ==> Printable(c, i)
    ensures c.Nullable? ==> (Printable(c, i) <==> c.nulls[i] == 1 || Printable(c.inner, i))
    ensures c.LowCardinality? ==> c.refs[i] < RowCount(c.dict) && (Printable(c, i) <==> Printable(c.dict, c.refs[i]))
    ensures c.Nothing? || c.Json? || c.Variant? || c.Dynamic? ==> !Printable(c, i)
    ensures c.Array? ==>
              && Start(c.offsets, i) <= c.offsets[i] <= RowCount(c.items)
              && (Printable(c, i) <==> RunPrintable(c.items, Start(c.offsets, i), c.offsets[i]))
  {
    hide CountOf, RunPrintable;
  }

  lemma PrintableTuple(c: Col, i: nat)
    requires c.Tuple? && Valid(c) && i < RowCount(c)
    ensures forall k :: 0 <= k < |c.elems| ==> i < RowCount(c.elems[k])
    ensures Printable(c, i) <==> forall k :: 0 <= k < |c.elems| ==> Printable(c.elems[k], i)
  {
  }

  lemma PrintableNested(c: Col, i: nat)
    requires c.Nested? && Valid(c) && i < RowCount(c)
    ensures forall k :: 0 <= k < |c.fields| ==> c.offsets[i] <= RowCount(c.fields[k])
    ensures Printable(c, i) <==>
              forall k :: 0 <= k < |c.fields| ==> RunPrintable(c.fields[k], Start(c.offsets, i), c.offsets[i])
  {
    hide RunPrintable;
  }

  method WriteLeaf(w: Sink, c: Col, i: nat, ft: FloatText)
    requires (c.Scalar? || c.Str? || c.FixedStr?) && Valid(c) && i < RowCount(c)
    modifies w
    ensures w.text == old(w.text) + Render(RowValue(c, i), ft)
  {
    hide Render, RowValue, Escaped, NumText, Pow256;
    match c
    case Scalar(kind, vals) =>
      ScalarRow(c, i, ft);
      w.Put(NumText(kind, vals[i], ft));
    case Str(strs) =>
      StringRow(c, i, ft);
      WriteQuotedString(w, strs[i]);
    case FixedStr(n, data) =>
      StringRow(c, i, ft);
      WriteQuotedString(w, Text(data[i * n..i * n + n]));
  }

  method WriteQuotedString(w: Sink, s: string)
    modifies w
    ensures w.text == old(w.text) + ("'" + Escaped(s, '\'') + "'")
  {
    hide Escaped;
    w.Put("'");
    WriteEscaped(w, s, '\'');
    w.Put("'");
  }

  method WriteArray(w: Sink, items: Col, offsets: seq<nat>, row: nat, ft: FloatText) returns (ok: bool)
    requires Valid(items) && Monotone(offsets) && RowCount(items) == Last(offsets) && row < |offsets|
    modifies w
    ensures Start(offsets, row) <= offsets[row] <= RowCount(items)
    ensures ok == RunPrintable(items, Start(offsets, row), offsets[row])
    ensures ok ==>
              w.text == old(w.text) + ("[" + RenderAll(RowValues(items, Start(offsets, row), offsets[row]), ft) + "]")
    decreases items, 4
  {
    hide RenderAll, Render, RowValue, RowValues, Listed, Valid, RowCount, Printable;
    var start := if row == 0 then 0 else offsets[row - 1];
    var end := offsets[row];
    ghost var before, all := w.text, RowValues(items, start, end);
    w.Put("[");
    ListedAll(all, ft);
    for i := start to end
      invariant forall j :: start <= j < i ==> Printable(items, j)
      invariant w.text + Listed(RowValues(items, i, end), i == start, ft) == before + "[" + RenderAll(all, ft)
    {
      ghost var vs := RowValues(items, i, end);
      RunStep(items, i, end);
      ListedStep(vs, i == start, ft);
      Regroup(w.text, if i == start then "" else ",", Render(vs[0], ft), Listed(vs[1..], false, ft));
      if i > start {
        w.Put(",");
      }
      ok := WriteValueQuoted(w, items, i, ft);
      if !ok {
        return;
      }
    }
    NothingListed(end == start, ft);
    RunEnd(items, end);
    Bracketed(before, "[", RenderAll(all, ft), "]");
    w.Put("]");
    ok := true;
  }

  method WriteTuple(w: Sink, elems: seq<Col>, row: nat, ft: FloatText) returns (ok: bool)
    requires forall j :: 0 <= j < |elems| ==> Valid(elems[j]) && row < RowCount(elems[j])
    modifies w
    ensures ok == forall j :: 0 <= j < |elems| ==> Printable(elems[j], row)
    ensures ok ==> w.text == old(w.text) + ("(" + RenderAll(Across(elems, row), ft) + ")")
    decreases elems, 0
  {
    hide RenderAll, Render, RowValue, Listed, Valid, RowCount, Printable;
    ghost var before, all := w.text, Across(elems, row);
    w.Put("(");
    ListedAll(all, ft);
    assert all[0..] == all;
    for j := 0 to |elems|
      invariant forall k :: 0 <= k < j ==> Printable(elems[k], row)
      invariant w.text + Listed(all[j..], j == 0, ft) == before + "(" + RenderAll(all, ft)
    {
      assert all[j..][0] == RowValue(elems[j], row) && all[j..][1..] == all[j + 1..];
      ListedStep(all[j..], j == 0, ft);
      Regroup(w.text, if j == 0 then "" else ",", Render(all[j], ft), Listed(all[j + 1..], false, ft));
      if j > 0 {
        w.Put(",");
      }
      ok := WriteValueQuoted(w, elems[j], row, ft);
      if !ok {
        return;
      }
    }
    NothingListed(|elems| == 0, ft);
    assert all[|elems|..] == [];
    Bracketed(before, "(", RenderAll(all, ft), ")");
    w.Put(")");
    ok := true;
  }

  method WriteNested(w: Sink, fields: seq<Col>, offsets: seq<nat>, row: nat, ft: FloatText) returns (ok: bool)
    requires Monotone(offsets) && row < |offsets|
    requires forall j :: 0 <= j < |fields| ==> Valid(fields[j]) && RowCount(fields[j]) == Last(offsets)
    modifies w
    ensures Start(offsets, row) <= offsets[row] <= Last(offsets)
    ensures ok == forall k :: 0 <= k < |fields| ==> RunPrintable(fields[k], Start(offsets, row), offsets[row])
    ensures ok ==>
              w.text == old(w.text) + ("[" + RenderAll(Records(fields, Start(offsets, row), offsets[row]), ft) + "]")
    decreases fields, 1
  {
    hide RenderAll, Render, RowValue, Listed, Valid, RowCount, Printable, Across, Records;
    var start := if row == 0 then 0 else offsets[row - 1];
    var end := offsets[row];
    ghost var before, all := w.text, Records(fields, start, end);
    w.Put("[");
    ListedAll(all, ft);
    for i := start to end
      invariant forall k, j :: 0 <= k < |fields| && start <= j < i ==> Printable(fields[k], j)
      invariant w.text + Listed(Records(fields, i, end), i == start, ft) == before + "[" + RenderAll(all, ft)
    {
      ghost var vs := Records(fields, i, end);
      RecordsStep(fields, i, end);
      ListedStep(vs, i == start, ft);
      RecordText(vs[0], ft);
      Regroup(w.text, if i == start then "" else ",", Render(vs[0], ft), Listed(vs[1..], false, ft));
      if i > start {
        w.Put(",");
      }
      ok := WriteTuple(w, fields, i, ft);
      if !ok {
        return;
      }
    }
    NothingListed(end == start, ft);
    assert |Records(fields, end, end)| == 0;
    Bracketed(before, "[", RenderAll(all, ft), "]");
    w.Put("]");
    ok := true;
  }

  function PairsListed(v: Value, i: nat, ft: FloatText): string
    requires v.Dict? && |v.keys| == |v.vals|
  {
    if i >= |v.keys| then "" else (if i == 0 then "" else ",") + RenderPairs(v, i, ft)
  }

  lemma PairsListedStep(v: Value, i: nat, ft: FloatText)
    requires v.Dict? && |v.keys| == |v.vals| && i < |v.keys|
    ensures PairsListed(v, i, ft)
         == (if i == 0 then "" else ",") + (Render(v.keys[i], ft) + ":" + Render(v.vals[i], ft))
            + PairsListed(v, i + 1, ft)
  {
    hide Render;
    PairFirst(v, i, ft);
  }

  lemma PairsListedAll(v: Value, ft: FloatText)
    requires v.Dict? && |v.keys| == |v.vals|
    ensures PairsListed(v, 0, ft) == RenderPairs(v, 0, ft) && PairsListed(v, |v.keys|, ft) == ""
  {
  }

  lemma MapPair(c: Col, row: nat, i: nat)
    requires c.Map? && Valid(c) && row < RowCount(c) && Start(c.offsets, row) <= i < c.offsets[row]
    ensures i < RowCount(c.keys) && i < RowCount(c.values)
    ensures var v, k := RowValue(c, row), i - Start(c.offsets, row);
            && v.Dict? && k < |v.keys| == |v.vals|
            && v.keys[k] == RowValue(c.keys, i) && v.vals[k] == RowValue(c.values, i)
  {
  }

  method WriteMap(w: Sink, c: Col, row: nat, ft: FloatText) returns (ok: bool)
    requires c.Map? && Valid(c) && row < RowCount(c)
    modifies w
    ensures ok == Printable(c, row)
    ensures ok ==> w.text == old(w.text) + Render(RowValue(c, row), ft)
    decreases c, 2
  {
    hide RenderPairs, Render, RowValue, RowValues, PairsListed, Valid;
    MapRow(c, row, ft);
    ValidMap(c);
    var start := if row == 0 then 0 else c.offsets[row - 1];
    var end := c.offsets[row];
    ghost var before, v := w.text, RowValue(c, row);
    w.Put("{");
    PairsListedAll(v, ft);
    for i := start to end
      invariant forall j :: start <= j < i ==> Printable(c.keys, j) && Printable(c.values, j)
      invariant w.text + PairsListed(v, i - start, ft) == before + "{" + RenderPairs(v, 0, ft)
    {
      ghost var k := i - start;
      MapPair(c, row, i);
      PairsListedStep(v, k, ft);
      Regroup(w.text, if k == 0 then "" else ",", Render(v.keys[k], ft) + ":" + Render(v.vals[k], ft),
        PairsListed(v, k + 1, ft));
      if i > start {
        w.Put(",");
      }
      ok := WritePair(w, c, i, ft);
      if !ok {
        return;
      }
    }
    Bracketed(before, "{", RenderPairs(v, 0, ft), "}");
    w.Put("}");
    ok := true;
  }

  method WritePair(w: Sink, c: Col, i: nat, ft: FloatText) returns (ok: bool)
    requires c.Map? && Valid(c.keys) && Valid(c.values) && i < RowCount(c.keys) && i < RowCount(c.values)
    modifies w
    ensures ok == (Printable(c.keys, i) && Printable(c.values, i))
    ensures ok ==> w.text == old(w.text) + (Render(RowValue(c.keys, i), ft) + ":" + Render(RowValue(c.values, i), ft))
    decreases c, 1
  {
    hide Render, RowValue, Valid, RowCount;
    ghost var before := w.text;
    ok := WriteValueQuoted(w, c.keys, i, ft);
    if ok {
      w.Put(":");
      ok := WriteValueQuoted(w, c.values, i, ft);
      Bracketed(before, Render(RowValue(c.keys, i), ft), ":", Render(RowValue(c.values, i), ft));
    }
  }

  lemma ValidMap(c: Col)
    requires c.Map? && Valid(c)
    ensures Monotone(c.offsets) && RowCount(c) == |c.offsets|
    ensures Valid(c.keys) && Valid(c.values)
    ensures RowCount(c.keys) == Last(c.offsets) && RowCount(c.values) == Last(c.offsets)
  {
  }

  // ---- Types of rows -------------------------------------------------------------------------

  /** The rows of a well-typed column are values of its type, so their text can
      be read back. */
  lemma {:induction false} RowsOfType(c: Col, t: Ty, i: nat)
    requires Readable(t) && WellTyped(c, t) && Valid(c) && i < RowCount(c)
    ensures OfType(RowValue(c, i), t)
    decreases c, 2
  {
    hide Pow256, AllRustStrings, PartsOf;
    match t
    case TNullable(u) => if c.nulls[i] != 1 { RowsOfType(c.inner, u, i); }
    case TFixed(n) => FixedRow(n, |c.data|, i);
    case TLowCardinality(u) => RowsOfType(c.dict, u, c.refs[i]);
    case TArray(u) => RunOfType(c.items, u, Start(c.offsets, i), c.offsets[i]);
    case TMap(_, _) => MapOfType(c, t, i);
    case TTuple(ts) =>
      AcrossOfType(c.elems, ts, i);
      assert RowValue(c, i).parts == Across(c.elems, i);
    case TNested(_, _) => NestedOfType(c, t, i);
    case _ =>
  }

  lemma MapOfType(c: Col, t: Ty, i: nat)
    requires t.TMap? && Readable(t) && WellTyped(c, t) && Valid(c) && i < RowCount(c)
    ensures OfType(RowValue(c, i), t)
    decreases c, 1
  {
    var from, to := Start(c.offsets, i), c.offsets[i];
    RunOfType(c.keys, t.k, from, to);
    RunOfType(c.values, t.v, from, to);
    assert RowValue(c, i) == Dict(RowValues(c.keys, from, to), RowValues(c.values, from, to));
    hide RowValue, RowValues, WellTyped, Valid;
  }

  lemma NestedOfType(c: Col, t: Ty, i: nat)
    requires t.TNested? && Readable(t) && WellTyped(c, t) && Valid(c) && i < RowCount(c)
    ensures OfType(RowValue(c, i), t)
    decreases c, 1
  {
    hide PartsOf;
    NestedItems(c, i);
    forall k | Start(c.offsets, i) <= k < c.offsets[i] ensures PartsOf(Across(c.fields, k), t.ts) {
      AcrossOfType(c.fields, t.ts, k);
    }
  }

  lemma {:induction false} RunOfType(c: Col, t: Ty, from: nat, to: nat)
    requires Readable(t) && WellTyped(c, t) && Valid(c) && from <= to <= RowCount(c)
    ensures forall k :: 0 <= k < to - from ==> OfType(RowValues(c, from, to)[k], t)
    decreases c, 3
  {
    hide Readable, WellTyped, Valid, RowCount, OfType, RowValue;
    forall k | 0 <= k < to - from ensures OfType(RowValues(c, from, to)[k], t) {
      RowsOfType(c, t, from + k);
    }
  }

  lemma {:induction false} AcrossOfType(cols: seq<Col>, ts: seq<Ty>, i: nat)
    requires |cols| == |ts| && forall j :: 0 <= j < |cols| ==> Readable(ts[j]) && WellTyped(cols[j], ts[j])
    requires forall j :: 0 <= j < |cols| ==> Valid(cols[j]) && i < RowCount(cols[j])
    ensures PartsOf(Across(cols, i), ts)
    decreases cols, 0
  {
    hide Readable, WellTyped, Valid, RowCount, OfType, RowValue;
    forall j | 0 <= j < |cols| ensures OfType(RowValue(cols[j], i), ts[j]) {
      RowsOfType(cols[j], ts[j], i);
    }
  }

  /** Rows of one column that read alike are alike. */
  lemma RowsReadApart(c: Col, t: Ty, i: nat, j: nat, ft: FloatText)
    requires Readable(t) && WellTyped(c, t) && Valid(c) && i < RowCount(c) && j < RowCount(c)
    requires Render(RowValue(c, i), ft) == Render(RowValue(c, j), ft)
    ensures RowValue(c, i) == RowValue(c, j)
  {
    hide *;
    RowsOfType(c, t, i);
    RowsOfType(c, t, j);
    EndStops();
    RenderIsInjective(RowValue(c, i), RowValue(c, j), t, [], [], ft);
  }

  lemma EndStops()
    ensures Stops([])
  {
  }
}
