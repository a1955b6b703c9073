/** UTF-8, as `String::from_utf8` accepts it: exactly the encodings of sequences of
    Unicode scalar values (table 3-7 of The Unicode Standard). */
module Utf8Text {
  import opened Base

  predicate IsScalar(cp: nat) {
    cp < 0xD800 || 0xDFFF < cp < 0x11_0000
  }

  function EncodeChar(cp: nat): seq<byte>
    requires IsScalar(cp)
  {
    if cp < 0x80 then [cp]
    else if cp < 0x800 then [0xC0 + cp / 64, 0x80 + cp % 64]
    else if cp < 0x1_0000 then [0xE0 + cp / 4096, 0x80 + cp / 64 % 64, 0x80 + cp % 64]
    else [0xF0 + cp / 262144, 0x80 + cp / 4096 % 64, 0x80 + cp / 64 % 64, 0x80 + cp % 64]
  }

  function EncodeChars(cps: seq<nat>): seq<byte>
    requires forall i :: 0 <= i < |cps| ==> IsScalar(cps[i])
  {
    if cps == [] then [] else EncodeChar(cps[0]) + EncodeChars(cps[1..])
  }

  lemma FirstChar(cp: nat, more: seq<byte>)
    requires IsScalar(cp)
    ensures Utf8(EncodeChar(cp) + more) <==> Utf8(more)
  {
    var e := EncodeChar(cp);
    var b := e + more;
    assert b[|e|..] == more;
    if cp < 0x80 {
    } else if cp < 0x800 {
      assert 0xC2 <= b[0] <= 0xDF && Continuation(b[1]);
    } else if cp < 0x1_0000 {
      assert 0xE0 <= b[0] <= 0xEF && Continuation(b[1]) && Continuation(b[2]);
    } else {
      assert 0xF0 <= b[0] <= 0xF4 && Continuation(b[1]) && Continuation(b[2]) && Continuation(b[3]);
    }
  }

  lemma {:induction false} CharsAreUtf8(cps: seq<nat>)
    requires forall i :: 0 <= i < |cps| ==> IsScalar(cps[i])
    ensures Utf8(EncodeChars(cps))
  {
    if cps != [] {
      hide Utf8, EncodeChar;
      FirstChar(cps[0], EncodeChars(cps[1..]));
      CharsAreUtf8(cps[1..]);
    } else {
    }
  }

  /** The code point at the front of UTF-8 text. */
  function FrontChar(b: seq<byte>): int
    requires b != [] && Utf8(b)
  {
    var a: int := b[0];
    if a < 0x80 then a
    else if a <= 0xDF then (a - 0xC0) * 64 + Low(b[1])
    else if a <= 0xEF then (a - 0xE0) * 4096 + Low(b[1]) * 64 + Low(b[2])
    else (a - 0xF0) * 262144 + Low(b[1]) * 4096 + Low(b[2]) * 64 + Low(b[3])
  }

  /** The six bits of a continuation byte. */
  function Low(b: byte): int {
    b as int - 0x80
  }

  lemma TwoBytes(a: int, x: int)
    requires 0 <= x < 64
    ensures (a * 64 + x) / 64 == a && (a * 64 + x) % 64 == x
  {
  }

  lemma ThreeBytes(a: int, x: int, y: int)
    requires 0 <= x < 64 && 0 <= y < 64
    ensures var cp := a * 4096 + x * 64 + y; cp / 4096 == a && cp / 64 % 64 == x && cp % 64 == y
  {
    TwoBytes(a * 64 + x, y);
    TwoBytes(a, x);
    var cp := a * 4096 + x * 64 + y;
    assert cp == (a * 64 + x) * 64 + y;
    assert cp / 4096 == cp / 64 / 64;
  }

  lemma FourBytes(a: int, x: int, y: int, z: int)
    requires 0 <= x < 64 && 0 <= y < 64 && 0 <= z < 64
    ensures var cp := a * 262144 + x * 4096 + y * 64 + z;
            cp / 262144 == a && cp / 4096 % 64 == x && cp / 64 % 64 == y && cp % 64 == z
  {
    TwoBytes(a * 4096 + x * 64 + y, z);
    ThreeBytes(a, x, y);
    var cp := a * 262144 + x * 4096 + y * 64 + z;
    assert cp == (a * 4096 + x * 64 + y) * 64 + z;
    assert cp / 262144 == cp / 64 / 4096 && cp / 4096 == cp / 64 / 64;
  }

  lemma EncodeTwo(cp: nat, a: int, x: int)
    requires cp == (a - 0xC0) * 64 + (x - 0x80) && 0xC2 <= a <= 0xDF && 0x80 <= x <= 0xBF
    ensures IsScalar(cp) && EncodeChar(cp) == [a, x]
  {
    TwoBytes(a - 0xC0, x - 0x80);
    assert 0x80 <= cp < 0x800;
  }

  lemma EncodeThree(cp: nat, a: int, x: int, y: int)
    requires cp == (a - 0xE0) * 4096 + (x - 0x80) * 64 + (y - 0x80)
    requires 0xE0 <= a <= 0xEF && 0x80 <= x <= 0xBF && 0x80 <= y <= 0xBF
    requires (a == 0xE0 ==> x >= 0xA0) && (a == 0xED ==> x <= 0x9F)
    ensures IsScalar(cp) && EncodeChar(cp) == [a, x, y]
  {
    ThreeBytes(a - 0xE0, x - 0x80, y - 0x80);
    assert 0x800 <= cp < 0x1_0000;
  }

  lemma EncodeFour(cp: nat, a: int, x: int, y: int, z: int)
    requires cp == (a - 0xF0) * 262144 + (x - 0x80) * 4096 + (y - 0x80) * 64 + (z - 0x80)
    requires 0xF0 <= a <= 0xF4 && 0x80 <= x <= 0xBF && 0x80 <= y <= 0xBF && 0x80 <= z <= 0xBF
    requires (a == 0xF0 ==> x >= 0x90) && (a == 0xF4 ==> x <= 0x8F)
    ensures IsScalar(cp) && EncodeChar(cp) == [a, x, y, z]
  {
    FourBytes(a - 0xF0, x - 0x80, y - 0x80, z - 0x80);
    assert 0x1_0000 <= cp < 0x11_0000;
  }

  lemma FrontIsChar(b: seq<byte>)
    requires b != [] && Utf8(b)
    ensures FrontChar(b) >= 0 && IsScalar(FrontChar(b)) && EncodeChar(FrontChar(b)) <= b
  {
    FrontBytes(b);
    hide Utf8, EncodeChar;
    var cp := FrontChar(b);
    if b[0] < 0x80 {
      EncodeOne(cp);
    } else if b[0] <= 0xDF {
      EncodeTwo(cp, b[0], b[1]);
      assert [b[0], b[1]] <= b;
    } else if b[0] <= 0xEF {
      EncodeThree(cp, b[0], b[1], b[2]);
      assert [b[0], b[1], b[2]] <= b;
    } else {
      EncodeFour(cp, b[0], b[1], b[2], b[3]);
      assert [b[0], b[1], b[2], b[3]] <= b;
    }
  }

  lemma EncodeOne(cp: nat)
    requires cp < 0x80
    ensures IsScalar(cp) && EncodeChar(cp) == [cp]
  {
  }

  /** What the check of the first character says about its bytes. */
  lemma FrontBytes(b: seq<byte>)
    requires b != [] && Utf8(b)
    ensures b[0] < 0x80 || 0xC2 <= b[0] <= 0xF4
    ensures b[0] >= 0xC2 ==> |b| >= 2 && Continuation(b[1])
    ensures b[0] >= 0xE0 ==> |b| >= 3 && Continuation(b[2])
    ensures b[0] >= 0xF0 ==> |b| >= 4 && Continuation(b[3])
    ensures (b[0] == 0xE0 ==> b[1] >= 0xA0) && (b[0] == 0xED ==> b[1] <= 0x9F)
    ensures (b[0] == 0xF0 ==> b[1] >= 0x90) && (b[0] == 0xF4 ==> b[1] <= 0x8F)
  {
  }

  lemma {:induction false} Utf8IsChars(b: seq<byte>) returns (cps: seq<nat>)
    requires Utf8(b)
    ensures (forall i :: 0 <= i < |cps| ==> IsScalar(cps[i])) && EncodeChars(cps) == b
    decreases |b|
  {
    if b == [] {
      cps := [];
    } else {
      var cp := FrontChar(b);
      FrontIsChar(b);
      var e := EncodeChar(cp);
      assert b == e + b[|e|..] && |e| >= 1;
      hide Utf8, EncodeChar, FrontChar;
      FirstChar(cp, b[|e|..]);
      var others := Utf8IsChars(b[|e|..]);
      cps := [cp] + others;
      assert cps[1..] == others;
    }
  }

  /** A byte string is accepted exactly when it spells code points. */
  lemma Utf8Exactly(b: seq<byte>)
    ensures Utf8(b)
       <==> exists cps: seq<nat> :: (forall i :: 0 <= i < |cps| ==> IsScalar(cps[i])) && EncodeChars(cps) == b
  {
    hide Utf8, EncodeChars;
    if Utf8(b) {
      var cps := Utf8IsChars(b);
    }
    if exists cps: seq<nat> :: (forall i :: 0 <= i < |cps| ==> IsScalar(cps[i])) && EncodeChars(cps) == b {
      var cps: seq<nat> :| (forall i :: 0 <= i < |cps| ==> IsScalar(cps[i])) && EncodeChars(cps) == b;
      CharsAreUtf8(cps);
    }
  }
}
