/** src/tsv.rs: 256-bit integers as 32 little-endian bytes, printed by long
    division in place. */
module WideInt {
  import opened Base
  import opened Wire
  import opened Digits
  import opened DateText

  const BYTES: nat := 32

  // ---- Values of byte strings --------------------------------------------------------

  function FromBE(s: seq<byte>): nat {
    if s == [] then 0 else 256 * FromBE(s[..|s| - 1]) + s[|s| - 1]
  }

  function Reversed<T>(s: seq<T>): (r: seq<T>)
    ensures |r| == |s| && forall i :: 0 <= i < |s| ==> r[i] == s[|s| - 1 - i]
  {
    seq(|s|, i requires 0 <= i < |s| => s[|s| - 1 - i])
  }

  lemma {:induction false} FromBEOfReversed(s: seq<byte>)
    ensures FromBE(Reversed(s)) == FromLE(s)
  {
    if s != [] {
      FromBEOfReversed(s[1..]);
      assert Reversed(s)[..|s| - 1] == Reversed(s[1..]);
    }
  }

  lemma FromBENothing()
    ensures FromBE([]) == 0
  {
  }

  // ---- Long division -------------------------------------------------------------------

  lemma FromBEAppend(s: seq<byte>, b: byte)
    ensures FromBE(s + [b]) == 256 * FromBE(s) + b
  {
    assert (s + [b])[..|s|] == s;
  }

  /** One pass of the inner loop: the number in `be` is divided by ten in place. */
  method DivideByTen(be: array<byte>) returns (rem: nat, nonzero: bool)
    modifies be
    ensures rem < 10
    ensures FromBE(old(be[..])) == 10 * FromBE(be[..]) + rem
    ensures nonzero <==> FromBE(be[..]) != 0
  {
    hide FromBE;
    ghost var was := be[..];
    rem, nonzero := 0, false;
    assert was[..0] == be[..0] == [];
    FromBENothing();
    for i := 0 to be.Length
      invariant rem < 10
      invariant be[i..] == was[i..]
      invariant FromBE(was[..i]) == 10 * FromBE(be[..i]) + rem
      invariant nonzero <==> FromBE(be[..i]) != 0
    {
      assert be[i] == be[i..][0] == was[i];
      var cur := 256 * rem + be[i];
      assert cur < 0x1_0000 && cur / 10 < 256;  // fits u16, and its quotient u8
      ghost var before := be[..i];
      FromBEAppend(was[..i], was[i]);
      FromBEAppend(before, cur / 10);
      be[i] := cur / 10;
      rem := cur % 10;
      if be[i] != 0 {
        nonzero := true;
      }
      assert was[..i + 1] == was[..i] + [was[i]] && be[..i + 1] == before + [be[i]];
      assert be[i + 1..] == was[i + 1..];
    }
    assert was[..be.Length] == was && be[..be.Length] == be[..];
  }

  /** Digits pushed lowest first, then reversed. */
  lemma {:induction false} ReversedPush(s: string, c: char)
    requires AllDigits(s) && IsDigit(c)
    ensures AllDigits(Reversed(s + [c])) && AllDigits(Reversed(s))
    ensures DecValue(Reversed(s + [c])) == DecValue(Reversed(s)) + DigitOf(c) * Pow10(|s|)
  {
    var t := Reversed(s);
    assert Reversed(s + [c]) == [c] + t;
    DecValueCons(c, t);
  }

  lemma {:induction false} DecValueCons(c: char, t: string)
    requires AllDigits(t) && IsDigit(c)
    ensures AllDigits([c] + t) && DecValue([c] + t) == DecValue(t) + DigitOf(c) * Pow10(|t|)
    decreases |t|
  {
    hide Pow10;
    var s := [c] + t;
    if t == [] {
      Pow10Zero();
      assert s[..0] == [] && s[0] == c;
    } else {
      var k := |t| - 1;
      DecValueCons(c, t[..k]);
      assert s[..|s| - 1] == [c] + t[..k];
      Pow10Next(k);
      TimesTen(DigitOf(c), Pow10(k));
    }
  }

  lemma TimesTen(d: nat, p: nat)
    ensures d * (10 * p) == 10 * (d * p)
  {
  }

  /** `u256_to_decimal`: the shortest decimal text of the value, 78 digits at
      most. */
  method U256ToDecimal(le: seq<byte>) returns (s: string)
    requires |le| == BYTES
    ensures s == Dec(FromLE(le)) && |s| <= 78
  {
    hide Pow256, FromLE, Dec, Pow10, DecValue;
    var be := new byte[BYTES](i requires 0 <= i < BYTES => le[31 - i]);
    assert be[..] == Reversed(le);
    FromBEOfReversed(le);
    ghost var total := FromLE(le);
    var digits: string := [];
    Pow10Zero();
    NoDigits();
    assert Reversed<char>([]) == [];
    assert total == FromBE(be[..]) * 1 + 0;
    while true
      invariant AllDigits(digits) && AllDigits(Reversed(digits))
      invariant total == FromBE(be[..]) * Pow10(|digits|) + DecValue(Reversed(digits))
      invariant digits != [] ==> FromBE(be[..]) != 0
      decreases FromBE(be[..])
    {
      ghost var v, k, low := FromBE(be[..]), |digits|, DecValue(Reversed(digits));
      var rem, nonzero := DivideByTen(be);
      ReversedPush(digits, DigitChar(rem));
      Pow10Next(k);
      OneDigit(v, FromBE(be[..]), rem, Pow10(k));
      digits := digits + [DigitChar(rem)];
      if !nonzero {
        break;
      }
    }
    s := Reversed(digits);
    assert s[0] == digits[|digits| - 1];
    DecOfDecValue(s);
    U256Length(le);
  }

  lemma Pow10Next(k: nat)
    ensures Pow10(k + 1) == 10 * Pow10(k)
  {
  }

  lemma OneDigit(v: nat, q: nat, rem: nat, p: nat)
    requires v == 10 * q + rem
    ensures v * p == q * (10 * p) + rem * p
  {
  }

  lemma {:induction false} Pow256Add(a: nat, b: nat)
    ensures Pow256(a + b) == Pow256(a) * Pow256(b)
  {
    if a > 0 {
      Pow256Add(a - 1, b);
      assert Pow256(a) * Pow256(b) == 256 * (Pow256(a - 1) * Pow256(b));
    }
  }

  lemma {:induction false} Pow10Add(a: nat, b: nat)
    ensures Pow10(a + b) == Pow10(a) * Pow10(b)
  {
    if a > 0 {
      Pow10Add(a - 1, b);
      assert Pow10(a) * Pow10(b) == 10 * (Pow10(a - 1) * Pow10(b));
    }
  }

  lemma Pow10Values()
    ensures Pow10(13) == 10_000_000_000_000
  {
    assert Pow10(5) == 100_000;
    assert Pow10(9) == 1_000_000_000;
  }

  lemma SquareBelow(a: nat, b: nat)
    requires a < b
    ensures a * a < b * b
  {
    assert a * a <= a * b;
    assert a * b < b * b;
  }

  /** 2^256 is below 10^78. */
  lemma Pow256Below()
    ensures Pow256(32) < Pow10(78)
  {
    hide Pow256, Pow10;
    Pow256Values();
    Pow256Add(8, 8);
    Pow256Add(16, 16);
    Pow10Values();
    Pow10Add(13, 13);
    Pow10Add(26, 13);
    Pow10Add(39, 39);
    SquareBelow(Pow256(16), Pow10(39));
  }

  lemma U256Length(le: seq<byte>)
    requires |le| == BYTES
    ensures |Dec(FromLE(le))| <= 78
  {
    hide Pow256, FromLE, Pow10, Dec;
    LEOfFromLE(le);
    Pow256Below();
    DecLength(FromLE(le), 78);
  }

  // ---- Two's complement ------------------------------------------------------------------

  /** The signed value of 32 bytes. */
  function Signed(le: seq<byte>): int
    requires |le| == BYTES
  {
    if le[31] >= 0x80 then FromLE(le) - Pow256(32) else FromLE(le)
  }

  lemma {:induction false} FromLEAppend(s: seq<byte>, b: byte)
    ensures FromLE(s + [b]) == FromLE(s) + b * Pow256(|s|)
  {
    if s == [] {
      assert (s + [b])[1..] == [];
    } else {
      FromLEAppend(s[1..], b);
      assert (s + [b])[1..] == s[1..] + [b];
      assert Pow256(|s|) == 256 * Pow256(|s| - 1);
      assert 256 * (b * Pow256(|s| - 1)) == b * Pow256(|s|);
    }
  }

  /** The top bit tells the sign. */
  lemma SignBit(le: seq<byte>)
    requires |le| == BYTES
    ensures FromLE(le) < Pow256(32)
    ensures le[31] >= 0x80 <==> 2 * FromLE(le) >= Pow256(32)
  {
    hide Pow256, FromLE;
    assert le == le[..31] + [le[31]];
    FromLEAppend(le[..31], le[31]);
    LEOfFromLE(le[..31]);
    LEOfFromLE(le);
    Pow256Next(31);
    TopByte(le[31], Pow256(31), FromLE(le[..31]));
  }

  lemma TopByte(b: byte, p: nat, low: nat)
    requires low < p
    ensures b >= 0x80 <==> 2 * (low + b * p) >= 256 * p
  {
    assert b >= 0x80 ==> b * p >= 0x80 * p;
    assert b < 0x80 ==> b * p <= 0x7F * p;
  }

  lemma Pow256Next(k: nat)
    ensures Pow256(k + 1) == 256 * Pow256(k)
  {
  }

  /** `i256_sign_magnitude`: invert the bytes and add one with carry. */
  method SignMagnitude(le: seq<byte>) returns (neg: bool, mag: seq<byte>)
    requires |le| == BYTES
    ensures |mag| == BYTES
    ensures neg <==> Signed(le) < 0
    ensures FromLE(mag) == if Signed(le) < 0 then -Signed(le) else Signed(le)
  {
    hide Pow256, FromLE;
    SignBit(le);
    neg := le[31] / 0x80 % 2 != 0;
    if !neg {
      return neg, le;
    }
    var m := new byte[BYTES](_ => 0);
    var carry: nat := 1;
    assert m[..0] == [] && le[..0] == [];
    NoBytes();
    for i := 0 to BYTES
      invariant carry <= 1
      invariant FromLE(m[..i]) + Carried(carry, i) == Pow256(i) - FromLE(le[..i])
    {
      var v := (255 - le[i]) + carry;
      NegateStep(le[..i], m[..i], le[i], carry);
      ghost var before := m[..i];
      m[i] := v % 256;
      carry := v / 256;
      assert m[..i + 1] == before + [m[i]] && le[..i + 1] == le[..i] + [le[i]];
    }
    assert le[..32] == le && m[..32] == m[..];
    mag := m[..];
    LEOfFromLE(mag);
  }

  /** What a carry out of the first `i` bytes is worth. */
  function Carried(carry: nat, i: nat): nat {
    if carry == 0 then 0 else Pow256(i)
  }

  lemma NegateStep(low: seq<byte>, out: seq<byte>, b: byte, carry: nat)
    requires |low| == |out| && carry <= 1
    requires FromLE(out) + Carried(carry, |low|) == Pow256(|low|) - FromLE(low)
    ensures var v := (255 - b) + carry; var n := |low| + 1;
            FromLE(out + [v % 256]) + Carried(v / 256, n) == Pow256(n) - FromLE(low + [b])
  {
    hide Pow256, FromLE;
    var v, p := (255 - b) + carry, Pow256(|low|);
    FromLEAppend(out, v % 256);
    FromLEAppend(low, b);
    Pow256Next(|low|);
    if v == 256 {
      assert b == 0 && carry == 1 && v % 256 == 0;
    } else {
      assert v % 256 == v && v / 256 == 0;
      Inverted(b, carry, p);
    }
  }

  lemma Inverted(b: byte, carry: nat, p: nat)
    requires carry <= 1
    ensures ((255 - b) + carry) * p == 255 * p - b * p + if carry == 0 then 0 else p
  {
  }

  lemma NoBytes()
    ensures FromLE([]) == 0 && Pow256(0) == 1
  {
  }
}
