/** src/tsv.rs: decimal numbers as text, from 128-bit and from 256-bit values. */
module Decimal {
  import opened Base
  import opened Wire
  import opened Digits
  import opened DateText
  import opened WideInt
  import Calendar

  function TrimZeros(s: string): (r: string)
    ensures AllDigits(s) ==> AllDigits(r)
    ensures r == [] || r[|r| - 1] != '0'
  {
    if s != [] && s[|s| - 1] == '0' then TrimZeros(s[..|s| - 1]) else s
  }

  // ---- 128 bits ----------------------------------------------------------------------

  const I128_BOUND: int := 0x8000_0000_0000_0000_0000_0000_0000_0000

  /** What is left and right of the point. */
  function Whole(n: nat, scale: nat): nat {
    DivRest(n, Pow10(scale));
    n / Pow10(scale)
  }

  function Rest(n: nat, scale: nat): (r: nat)
    ensures r < Pow10(scale)
  {
    DivRest(n, Pow10(scale));
    n % Pow10(scale)
  }

  lemma DivRest(n: nat, p: nat)
    requires p > 0
    ensures n / p >= 0 && 0 <= n % p < p && n == n / p * p + n % p
  {
  }

  lemma WholeRest(n: nat, scale: nat)
    ensures n == Whole(n, scale) * Pow10(scale) + Rest(n, scale)
  {
    hide Pow10;
    DivRest(n, Pow10(scale));
  }

  lemma WholeRestUnique(n: nat, scale: nat, q: nat, r: nat)
    requires n == q * Pow10(scale) + r && r < Pow10(scale)
    ensures Whole(n, scale) == q && Rest(n, scale) == r
  {
    hide Pow10;
    Calendar.DivUnique(n, Pow10(scale), q, r);
  }

  function Fraction(frac: nat, scale: nat): string {
    if frac == 0 then "" else "." + TrimZeros(Pad(frac, scale))
  }

  /** `write_decimal`; a scale above 38 overflows its power of ten. */
  function WriteDecimal(value: int, scale: nat): Result<string> {
    if scale > 38 then Err(Panic)
    else
      var abs := Abs(value);
      Ok((if value < 0 then "-" else "") + Dec(Whole(abs, scale))
         + if scale > 0 then Fraction(Rest(abs, scale), scale) else "")
  }

  // ---- 256 bits --------------------------------------------------------------------------

  function Padded(digits: string, scale: nat): (s: string)
    ensures |s| > scale
  {
    if |digits| <= scale then Zeros(scale + 1 - |digits|) + digits else digits
  }

  /** The digits cut `scale` places from the end, zeros supplied in front. */
  function PlacePoint(digits: string, scale: nat): string {
    if scale == 0 then digits
    else
      var padded := Padded(digits, scale);
      var split := |padded| - scale;
      Pointed(padded[..split], TrimZeros(padded[split..]))
  }

  function Pointed(whole: string, frac: string): string {
    whole + if frac == [] then "" else "." + frac
  }

  function DecimalText(v: int, scale: nat): string {
    (if v < 0 then "-" else "") + PlacePoint(Dec(Abs(v)), scale)
  }

  method WriteDecimal256(le: seq<byte>, scale: nat) returns (text: string)
    requires |le| == BYTES
    ensures text == DecimalText(Signed(le), scale)
  {
    hide FromLE, Pow256, Dec, PlacePoint;
    var neg, mag := SignMagnitude(le);
    var digits := U256ToDecimal(mag);
    text := (if neg then "-" else "") + PlacePoint(digits, scale);
  }

  method WriteI256(le: seq<byte>) returns (text: string)
    requires |le| == BYTES
    ensures text == IntText(Signed(le))
  {
    hide FromLE, Pow256, Dec;
    var neg, mag := SignMagnitude(le);
    var digits := U256ToDecimal(mag);
    text := (if neg then "-" else "") + digits;
  }

  // ---- Both agree -----------------------------------------------------------------------------

  lemma PadStep(n: nat, width: nat)
    requires width > 0
    ensures Pad(n, width + 1) == Pad(n / 10, width) + [DigitChar(n % 10)]
  {
    if n < 10 {
      assert Zeros(width) == Zeros(width - 1) + Dec(0);
    }
  }

  /** The last `scale` digits and the rest are remainder and quotient. */
  lemma {:induction false} DigitsSplit(n: nat, scale: nat)
    ensures var s := Pad(n, scale + 1);
            && |s| > scale
            && s[..|s| - scale] == Dec(Whole(n, scale))
            && (scale > 0 ==> s[|s| - scale..] == Pad(Rest(n, scale), scale))
  {
    hide Dec, Pow10, Pad, Whole, Rest, AllDigits, DecValue;
    Pow10Zero();
    if scale == 0 {
      WholeRestUnique(n, 0, n, 0);
      PaddedIsPad(n, 0);
      assert Pad(n, 1)[..|Dec(n)|] == Dec(n);
    } else {
      var k, front, c := scale - 1, Pad(n / 10, scale), DigitChar(n % 10);
      PadStep(n, scale);
      DigitsSplit(n / 10, k);
      TenFirst(n, scale);
      SplitSnoc(front, c, k);
      LastDigits(Rest(n / 10, k), n % 10, k, front);
    }
  }

  lemma SplitSnoc(front: string, c: char, k: nat)
    requires k < |front|
    ensures (front + [c])[..|front| - k] == front[..|front| - k]
    ensures (front + [c])[|front| - k..] == front[|front| - k..] + [c]
  {
  }

  /** One digit more behind the point. */
  lemma LastDigits(r: nat, d: nat, k: nat, front: string)
    requires d < 10 && k < |front|
    requires if k > 0 then front[|front| - k..] == Pad(r, k) else r == 0
    ensures front[|front| - k..] + [DigitChar(d)] == Pad(10 * r + d, k + 1)
  {
    hide Dec, AllDigits, DecValue;
    var n := 10 * r + d;
    assert n / 10 == r && n % 10 == d;
    if k == 0 {
      OneDigitPad(d);
      assert front[|front|..] == [];
    } else {
      hide Pad;
      PadStep(n, k);
    }
  }

  /** Dividing by ten first changes neither the quotient nor the digits left. */
  lemma TenFirst(n: nat, scale: nat)
    requires scale > 0
    ensures Whole(n, scale) == Whole(n / 10, scale - 1)
    ensures Rest(n, scale) == 10 * Rest(n / 10, scale - 1) + n % 10
  {
    hide Pow10, Whole, Rest;
    var q, r := Whole(n / 10, scale - 1), Rest(n / 10, scale - 1);
    WholeRest(n / 10, scale - 1);
    Pow10Next(scale - 1);
    TimesTen(q, Pow10(scale - 1));
    WholeRestUnique(n, scale, q, 10 * r + n % 10);
  }

  lemma OneDigitPad(d: nat)
    requires d < 10
    ensures Pad(d, 1) == [DigitChar(d)]
  {
    assert Dec(d) == [DigitChar(d)];
    assert Zeros(0) == [];
  }

  lemma PaddedIsPad(n: nat, scale: nat)
    ensures Pad(n, scale + 1) == Padded(Dec(n), scale)
  {
    assert Zeros(0) + Dec(n) == Dec(n);
  }

  lemma {:induction false} TrimmedAway(s: string)
    requires AllDigits(s)
    ensures TrimZeros(s) == [] <==> DecValue(s) == 0
  {
    if s != [] {
      var front := s[..|s| - 1];
      if s[|s| - 1] == '0' {
        TrimmedAway(front);
      }
    }
  }

  /** The fraction as printed. */
  function Tail(n: nat, scale: nat): (t: string)
    ensures AllDigits(t)
  {
    if scale == 0 then [] else TrimZeros(Pad(Rest(n, scale), scale))
  }

  /** Placing the point among the digits is splitting the number by the scale. */
  lemma PlacePointSplits(n: nat, scale: nat)
    ensures PlacePoint(Dec(n), scale) == Pointed(Dec(Whole(n, scale)), Tail(n, scale))
  {
    hide Dec, Pow10, TrimZeros, Pad, Whole, Rest, Padded;
    if scale == 0 {
      Pow10Zero();
      WholeRestUnique(n, 0, n, 0);
      assert Dec(n) + "" == Dec(n);
    } else {
      DigitsSplit(n, scale);
      PaddedIsPad(n, scale);
    }
  }

  lemma FractionIsTail(n: nat, scale: nat)
    ensures (if scale > 0 then Fraction(Rest(n, scale), scale) else "")
         == if Tail(n, scale) == [] then "" else "." + Tail(n, scale)
  {
    hide Pow10, TrimZeros, Pad, Rest;
    if scale > 0 {
      PadValue(Rest(n, scale), scale);
      TrimmedAway(Pad(Rest(n, scale), scale));
    }
  }

  /** A signed value as 32 bytes. */
  function SignExtended(v: int): seq<byte>
    requires -I128_BOUND <= v < I128_BOUND
  {
    Pow256Positive();
    LE(BYTES, if v < 0 then v + Pow256(32) else v)
  }

  lemma Pow256Positive()
    ensures Pow256(32) > 2 * I128_BOUND
  {
    hide Pow256;
    Pow256Values();
    Pow256Add(8, 8);
    Pow256Add(16, 16);
  }

  lemma SignedOfExtended(v: int)
    requires -I128_BOUND <= v < I128_BOUND
    ensures Signed(SignExtended(v)) == v
  {
    hide Pow256, FromLE, LE;
    Pow256Positive();
    FromLEOfLE(BYTES, if v < 0 then v + Pow256(32) else v);
    SignBit(SignExtended(v));
  }

  /** On every value both can print, with every scale the narrow one can take,
      the two printers write the same text. */
  lemma PrintersAgree(v: int, scale: nat)
    requires -I128_BOUND <= v < I128_BOUND && scale <= 38
    ensures var le := SignExtended(v);
            WriteDecimal(v, scale) == Ok(DecimalText(Signed(le), scale))
  {
    hide Dec, Pow10, PlacePoint, Fraction, SignExtended, Signed, Whole, Rest, Tail;
    SignedOfExtended(v);
    PlacePointSplits(Abs(v), scale);
    FractionIsTail(Abs(v), scale);
    var sign := if v < 0 then "-" else "";
    var whole := Dec(Whole(Abs(v), scale));
    var tail := if scale > 0 then Fraction(Rest(Abs(v), scale), scale) else "";
    assert sign + whole + tail == sign + (whole + tail);
  }

  /** The narrow printer stops at scale 38, the last one whose power of ten fits 128
      bits. */
  lemma ScaleFits(v: int, scale: nat)
    ensures WriteDecimal(v, scale).Ok? <==> scale <= 38
    ensures scale > 38 ==> WriteDecimal(v, scale) == Err(Panic)
    ensures scale <= 38 <==> Pow10(scale) < I128_BOUND
  {
    hide Pow10, Dec, Whole, Rest, Fraction;
    Pow10Of38();
    if scale < 38 {
      Pow10Grows(scale, 38);
    } else if scale > 38 {
      Pow10Grows(38, scale);
    }
  }

  lemma Pow10Of38()
    ensures Pow10(38) < I128_BOUND <= 10 * Pow10(38)
  {
    Pow10Powers();
    assert Pow10(20) == 100 * Pow10(18);
    assert Pow10(22) == 100 * Pow10(20);
    assert Pow10(24) == 100 * Pow10(22);
    assert Pow10(26) == 100 * Pow10(24);
    assert Pow10(28) == 100 * Pow10(26);
    assert Pow10(30) == 100 * Pow10(28);
    assert Pow10(32) == 100 * Pow10(30);
    assert Pow10(34) == 100 * Pow10(32);
    assert Pow10(36) == 100 * Pow10(34);
  }

  // ---- What the text denotes ---------------------------------------------------------------------

  /** Position of the point, or the length. */
  function PointAt(s: string): (i: nat)
    ensures i <= |s| && (i < |s| ==> s[i] == '.')
    ensures forall k :: 0 <= k < i ==> s[k] != '.'
  {
    if s == [] || s[0] == '.' then 0 else 1 + PointAt(s[1..])
  }

  /** The magnitude a text denotes, in units of 10^-scale. */
  function ReadDecimal(t: string, scale: nat): Option<nat> {
    var i := PointAt(t);
    var whole, frac := t[..i], if i < |t| then t[i + 1..] else [];
    if !AllDigits(whole) || !AllDigits(frac) || |frac| > scale then None
    else Some(DecValue(whole) * Pow10(scale) + DecValue(frac) * Pow10(scale - |frac|))
  }

  /** No superfluous zero at either end, and no bare point. */
  predicate Shortest(t: string) {
    var i := PointAt(t);
    && i > 0 && (t[0] == '0' ==> i == 1)
    && (i < |t| ==> i + 1 < |t| && t[|t| - 1] != '0')
  }

  lemma {:induction false} TrimKeepsValue(s: string, n: nat)
    requires AllDigits(s) && |s| <= n
    ensures |TrimZeros(s)| <= |s|
    ensures DecValue(TrimZeros(s)) * Pow10(n - |TrimZeros(s)|) == DecValue(s) * Pow10(n - |s|)
    decreases |s|
  {
    if s != [] && s[|s| - 1] == '0' {
      var front := s[..|s| - 1];
      hide Pow10;
      TrimKeepsValue(front, n);
      Pow10Next(n - |s|);
      TimesTen(DecValue(front), Pow10(n - |s|));
      assert DecValue(s) == 10 * DecValue(front);
      Shift(DecValue(front), Pow10(n - |s|));
    }
  }

  lemma Shift(d: nat, p: nat)
    ensures d * (10 * p) == (10 * d) * p
  {
  }

  lemma PointedReads(whole: string, frac: string, scale: nat)
    requires AllDigits(whole) && AllDigits(frac) && |frac| <= scale
    ensures PointAt(Pointed(whole, frac)) == |whole|
    ensures ReadDecimal(Pointed(whole, frac), scale)
         == Some(DecValue(whole) * Pow10(scale) + DecValue(frac) * Pow10(scale - |frac|))
  {
    hide Pow10, DecValue, PointAt, AllDigits;
    var t := Pointed(whole, frac);
    DigitsHaveNoPoint(whole);
    NoDigits();
    if frac == [] {
      PointAfter(whole, []);
      assert t == whole + [] && t[..|whole|] == whole;
    } else {
      PointAfter(whole, "." + frac);
      assert t[..|whole|] == whole && t[|whole| + 1..] == frac;
    }
  }

  lemma TailValue(n: nat, scale: nat)
    ensures |Tail(n, scale)| <= scale
    ensures DecValue(Tail(n, scale)) * Pow10(scale - |Tail(n, scale)|) == Rest(n, scale)
  {
    hide Pow10, TrimZeros, Pad, DecValue, Rest;
    NoDigits();
    Pow10Zero();
    if scale > 0 {
      var digits := Pad(Rest(n, scale), scale);
      PadValue(Rest(n, scale), scale);
      PadLength(Rest(n, scale), scale);
      TrimKeepsValue(digits, scale);
    } else {
      WholeRestUnique(n, 0, n, 0);
    }
  }

  /** The printed magnitude denotes exactly value / 10^scale, in its shortest
      form. */
  lemma DecimalDenotes(n: nat, scale: nat)
    ensures var t := PlacePoint(Dec(n), scale);
            ReadDecimal(t, scale) == Some(n) && Shortest(t)
  {
    hide Dec, Pow10, TrimZeros, Pad, PlacePoint, PointAt, DecValue, AllDigits, Whole, Rest, Tail, ReadDecimal;
    PlacePointSplits(n, scale);
    WholeRest(n, scale);
    DecValueOfDec(Whole(n, scale));
    TailValue(n, scale);
    TailEnds(n, scale);
    PointedReads(Dec(Whole(n, scale)), Tail(n, scale), scale);
  }

  /** The number a signed text denotes, in units of 10^-scale. */
  function ReadSigned(t: string, scale: nat): Option<int> {
    var neg := t != [] && t[0] == '-';
    match ReadDecimal(if neg then t[1..] else t, scale)
    case Some(n) => Some(if neg then -(n as int) else n)
    case None => None
  }

  /** The text of a signed value denotes it, in its shortest form and with a minus
      sign exactly for the negative ones: no two values of a scale print alike. */
  lemma SignedDenotes(v: int, scale: nat)
    ensures var t := DecimalText(v, scale);
            && ReadSigned(t, scale) == Some(v) && (t != [] && t[0] == '-' <==> v < 0)
            && Shortest(if v < 0 then t[1..] else t)
  {
    hide ReadDecimal, PlacePoint, Dec, Shortest;
    var n := Abs(v);
    var m := PlacePoint(Dec(n), scale);
    DecimalDenotes(n, scale);
    StartsWithDigit(m, scale);
    if v < 0 {
      assert DecimalText(v, scale)[1..] == m;
    } else {
      assert DecimalText(v, scale) == m;
    }
  }

  lemma StartsWithDigit(t: string, scale: nat)
    requires ReadDecimal(t, scale).Some? && Shortest(t)
    ensures t != [] && t[0] != '-'
  {
    hide PointAt, DecValue, Pow10;
    var whole := t[..PointAt(t)];
    assert AllDigits(whole) && whole[0] == t[0];
  }

  lemma TailEnds(n: nat, scale: nat)
    ensures var t := Tail(n, scale); t == [] || t[|t| - 1] != '0'
  {
    hide Pad, Rest;
  }

  lemma DigitsHaveNoPoint(s: string)
    requires AllDigits(s)
    ensures '.' !in s
  {
  }

  lemma PointAfter(whole: string, more: string)
    requires '.' !in whole && (more == [] || more[0] == '.')
    ensures PointAt(whole + more) == |whole|
  {
    var s := whole + more;
    assert forall k :: 0 <= k < |whole| ==> s[k] == whole[k] && whole[k] in whole;
    assert more != [] ==> s[|whole|] == '.';
  }
}
