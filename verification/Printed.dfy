/** Columns and the text of their types: what the encoder writes for a column is
    read back by a decoder that was given nothing but the printed type. */
module Printed {
  import opened Base
  import opened Column
  import opened TypeString
  import opened TypeTree
  import opened TypePrint
  import opened TypeRefinement
  import opened Codec
  import opened CodecRoundTrip

  /** No element of a Variant has a stateful word in its text. */
  predicate NoStatefulElement(e: Expr) {
    match e
    case EVariant(es) => forall i :: 0 <= i < |es| ==> !Stateful(Print(es[i]))
    case ENullable(t) => NoStatefulElement(t)
    case EArray(t) => NoStatefulElement(t)
    case ETuple(_, es) => forall i :: 0 <= i < |es| ==> NoStatefulElement(es[i])
    case EMap(k, v) => NoStatefulElement(k) && NoStatefulElement(v)
    case ENested(_, es) => forall i :: 0 <= i < |es| ==> NoStatefulElement(es[i])
    case ELowCardinality(t) => NoStatefulElement(t)
    case EAggregate(_, t) => NoStatefulElement(t)
    case _ => true
  }

  lemma {:induction false} GeoUnbarred(level: nat)
    ensures Unbarred(GeoTree(level))
  {
    if level > 1 { GeoUnbarred(level - 1); }
  }

  /** The word test on the text is all there is to it. */
  lemma {:induction false} UnbarredText(e: Expr)
    requires WellFormed(e)
    ensures Unbarred(Denote(e)) <==> NoStatefulElement(e)
    decreases e, 1
  {
    hide Print, Stateful, TypeOf, Ident, AllStateless, Stateless;
    match e
    case EVariant(es) => UnbarredVariant(es);
    case ENullable(t) => UnbarredText(t);
    case EArray(t) => UnbarredText(t);
    case ETuple(_, es) => UnbarredEach(es);
    case EMap(k, v) => UnbarredText(k); UnbarredText(v);
    case ENested(_, es) => UnbarredEach(es);
    case ELowCardinality(t) => UnbarredText(t);
    case EAggregate(_, t) => UnbarredText(t);
    case EGeo(geo) => GeoUnbarred(GeoLevel(geo));
    case _ =>
  }

  lemma {:induction false} UnbarredEach(es: seq<Expr>)
    requires forall i :: 0 <= i < |es| ==> WellFormed(es[i])
    ensures (forall i :: 0 <= i < |es| ==> Unbarred(DenoteAll(es)[i]))
       <==> (forall i :: 0 <= i < |es| ==> NoStatefulElement(es[i]))
    decreases es, 0
  {
    hide Unbarred, NoStatefulElement, WellFormed, Denote;
    forall i | 0 <= i < |es| ensures Unbarred(DenoteAll(es)[i]) <==> NoStatefulElement(es[i]) {
      UnbarredText(es[i]);
    }
  }

  lemma UnbarredVariant(es: seq<Expr>)
    requires WellFormed(EVariant(es))
    ensures Unbarred(Denote(EVariant(es))) <==> NoStatefulElement(EVariant(es))
  {
    hide Print, Stateful, TypeOf, Ident, Stateless, Denote, DenoteAll;
    VariantDenotes(es);
    if forall i :: 0 <= i < |es| ==> !Stateful(Print(es[i])) {
      forall i | 0 <= i < |es| ensures Stateless(DenoteAll(es)[i]) {
        TypeOfPrint(es[i]);
        StatelessType(Print(es[i]));
      }
    }
  }

  lemma VariantDenotes(es: seq<Expr>)
    ensures Denote(EVariant(es)) == TVariant(DenoteAll(es), exists i :: 0 <= i < |es| && Stateful(Print(es[i])))
  {
    hide Print, Stateful;
  }

  /** With nothing but the printed type, a valid column comes back unchanged exactly
      when its counts are within bounds, it is canonical, no Variant element's text
      has a stateful word, and no runtime type on the wire has one. */
  lemma RoundTripByText(c: Col, e: Expr, rest: seq<byte>)
    requires WellFormed(e) && WellTyped(c, Denote(e)) && Valid(c)
    ensures DecodeTree(TypeOf(Print(e)), RowCount(c), Encode(c) + rest) == Ok((c, rest))
       <==> Fits(c) && Canonical(c) && NoStatefulElement(e) && Routed(c)
  {
    hide *;
    TypeOfPrint(e);
    UnbarredText(e);
    RoundTripIff(c, Denote(e), rest);
  }

  /** A Variant of dictionaries: valid, in bounds and canonical, written by the
      encoder and refused by the decoder. */
  lemma StatefulVariantText(rest: seq<byte>)
    ensures var e := EVariant([ELowCardinality(EStr)]);
            var c := Variant([0], [0], [WORD_DICTIONARY]);
            && WellFormed(e) && WellTyped(c, Denote(e)) && Valid(c) && Fits(c) && Canonical(c) && Routed(c)
            && DecodeTree(TypeOf(Print(e)), RowCount(c), Encode(c) + rest).Err?
  {
    hide WORD_DICTIONARY, DecodeTree, TypeOf, Encode, Valid, Fits, Canonical, Routed, Print, RowCount, Stateful;
    var e := EVariant([ELowCardinality(EStr)]);
    StatefulElement(Encode(Variant([0], [0], [WORD_DICTIONARY])) + rest);
    TypeOfPrint(e);
    DictionaryText();
    VariantDenotes(e.es);
    assert e.es[0] == ELowCardinality(EStr);
    assert DenoteAll(e.es) == [TLowCardinality(TStr)];
  }

  lemma DictionaryText()
    ensures Stateful(Print(ELowCardinality(EStr)))
  {
    hide Ident, Contains;
    var p := Print(ELowCardinality(EStr));
    assert p == "LowCardinality(String)";
    assert p[..14] == "LowCardinality" && STATEFUL[0] == "LowCardinality";
    PrefixContained(p, "LowCardinality");
  }

  lemma PrefixContained(s: string, w: string)
    requires w <= s
    ensures Contains(s, w)
  {
  }

  const JSON_RUNTIME := Dynamic(["JSON"], [0], [0], [Json(["a"])])

  /** A Dynamic column with a stateful runtime type: the encoder writes it, the
      decoder refuses it. */
  lemma StatefulRuntime(rest: seq<byte>)
    ensures var c := JSON_RUNTIME;
            && WellTyped(c, TDynamic) && Valid(c) && Fits(c) && Canonical(c) && !Routed(c)
            && DecodeTree(TDynamic, RowCount(c), Encode(c) + rest) != Ok((c, rest))
  {
    hide DecodeTree, Encode, WellTyped, Valid, Fits, Canonical, Routed, RowCount, JSON_RUNTIME;
    JsonRuntimeShape();
    JsonRuntimeType();
    RoundTripIff(JSON_RUNTIME, TDynamic, rest);
  }

  lemma JsonRuntimeShape()
    ensures var c := JSON_RUNTIME; Valid(c) && Fits(c) && Canonical(c)
  {
    hide CountOf, Slots;
    OneRow();
  }

  lemma JsonRuntimeType()
    ensures var c := JSON_RUNTIME; WellTyped(c, TDynamic) && !Routed(c)
  {
    hide TypeOf, Stateful, RustString;
    JsonText();
    assert JSON_RUNTIME.typeNames[0] == "JSON" && AnyStateful(JSON_RUNTIME.typeNames);
    assert WellTyped(Json(["a"]), TJson);
  }

  lemma JsonText()
    ensures Stateful("JSON") && TypeOf("JSON") == TJson && RustString("JSON") && RustString("a")
  {
    hide Contains, TypeOf, Ident;
    TypeOfPrint(EJson);
    assert Print(EJson) == "JSON";
    assert STATEFUL[3] == "JSON";
    PrefixContained("JSON", "JSON");
    var b := Octets("JSON");
    assert b[1..] == Octets("SON") && Octets("SON")[1..] == Octets("ON") && Octets("ON")[1..] == Octets("N");
    assert Octets("N")[1..] == [] && Octets("a")[1..] == [];
  }
}
