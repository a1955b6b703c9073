/** src/proto/wire.rs: the integer and string encodings, as functions on byte
    sequences. A parser returns its value and the bytes it left unread. */
module Wire {
  import opened Base

  type Parsed<+T> = Result<(T, seq<byte>)>

  // ---- Powers ------------------------------------------------------------

  function Pow2(k: nat): (p: nat)
    ensures p > 0
  {
    if k == 0 then 1 else 2 * Pow2(k - 1)
  }

  function Pow256(n: nat): (p: nat)
    ensures p > 0
  {
    if n == 0 then 1 else 256 * Pow256(n - 1)
  }

  lemma Pow2Add(a: nat, b: nat)
    ensures Pow2(a + b) == Pow2(a) * Pow2(b)
  {
    if a > 0 {
      Pow2Add(a - 1, b);
    }
  }

  lemma Pow2Small()
    ensures Pow2(1) == 2 && Pow2(6) == 64 && Pow2(7) == 128 && Pow2(8) == 256
  {
  }

  lemma Pow2Of64()
    ensures Pow2(64) == U64_BOUND && Pow2(63) * 2 == U64_BOUND && Pow2(7) == 128
  {
    hide Pow2;
    Pow2Small();
    Pow2Add(8, 8);
    Pow2Add(16, 16);
    Pow2Add(32, 32);
    Pow2Add(1, 63);
  }

  lemma Pow256Values()
    ensures Pow256(1) == 0x100 && Pow256(2) == 0x1_0000 && Pow256(4) == U32_BOUND
    ensures Pow256(8) == U64_BOUND
  {
    assert Pow256(3) == 0x100_0000;
    assert Pow256(4) == U32_BOUND;
    assert Pow256(5) == 0x100_0000_0000;
    assert Pow256(6) == 0x1_0000_0000_0000;
    assert Pow256(7) == 0x100_0000_0000_0000;
  }

  lemma Associate(a: seq<byte>, b: seq<byte>, c: seq<byte>)
    ensures a + b + c == a + (b + c)
  {
  }

  // ---- Reading exactly n bytes ---------------------------------------------

  function Take(n: nat, s: seq<byte>): Parsed<seq<byte>> {
    if |s| < n then Err(UnexpectedEof) else Ok((s[..n], s[n..]))
  }

  lemma TakeAppend(a: seq<byte>, rest: seq<byte>)
    ensures Take(|a|, a + rest) == Ok((a, rest))
  {
  }

  // ---- Little-endian integers ----------------------------------------------

  function LE(n: nat, v: nat): (s: seq<byte>)
    ensures |s| == n
  {
    if n == 0 then [] else [v % 256] + LE(n - 1, v / 256)
  }

  function FromLE(s: seq<byte>): nat {
    if s == [] then 0 else s[0] + 256 * FromLE(s[1..])
  }

  lemma {:induction false} FromLEOfLE(n: nat, v: nat)
    requires v < Pow256(n)
    ensures FromLE(LE(n, v)) == v
  {
    if n > 0 {
      FromLEOfLE(n - 1, v / 256);
      assert LE(n, v)[1..] == LE(n - 1, v / 256);
    }
  }

  lemma {:induction false} LEOfFromLE(s: seq<byte>)
    ensures FromLE(s) < Pow256(|s|)
    ensures LE(|s|, FromLE(s)) == s
  {
    if s != [] {
      var v := FromLE(s[1..]);
      LEOfFromLE(s[1..]);
      assert s == [s[0]] + s[1..];
      assert (s[0] + 256 * v) % 256 == s[0] && (s[0] + 256 * v) / 256 == v;
    }
  }

  function ParseLE(n: nat, s: seq<byte>): Parsed<nat> {
    var (b, rest) :- Take(n, s);
    Ok((FromLE(b), rest))
  }

  lemma ParseLEAppend(n: nat, v: nat, rest: seq<byte>)
    requires v < Pow256(n)
    ensures ParseLE(n, LE(n, v) + rest) == Ok((v, rest))
  {
    FromLEOfLE(n, v);
    TakeAppend(LE(n, v), rest);
  }

  lemma ParseLEBound(n: nat, s: seq<byte>)
    ensures ParseLE(n, s).Ok? ==> ParseLE(n, s).value.0 < Pow256(n)
  {
    if n <= |s| {
      LEOfFromLE(s[..n]);
    }
  }

  // ---- VarUInt ---------------------------------------------------------------

  /** Unsigned LEB128 (section 7.6 of DWARF 5). */
  function Leb(x: nat): (s: seq<byte>)
    ensures |s| >= 1
  {
    if x < 128 then [x] else [x % 128 + 128] + Leb(x / 128)
  }

  lemma {:induction false} LebLength(x: nat, k: nat)
    ensures |Leb(x)| <= k + 1 <==> x < Pow2(7 * k + 7)
  {
    hide Pow2;
    Pow2Small();
    if x < 128 {
      Pow2Add(7, 7 * k);
      assert Pow2(7 * k + 7) >= 128;
    } else if k > 0 {
      Pow2Add(7, 7 * k);
      LebLength(x / 128, k - 1);
    }
  }

  /** A VarUInt takes one to ten bytes, and the tenth is needed exactly from
      2^63 up. */
  lemma LebOfU64(x: nat)
    requires x < U64_BOUND
    ensures 1 <= |Leb(x)| <= 10
    ensures |Leb(x)| == 10 <==> x >= Pow2(63)
  {
    hide *;
    Pow2Small();
    Pow2Of64();
    Pow2Add(64, 6);
    LebLength(x, 9);
    LebLength(x, 8);
  }

  /** Bitwise or of two naturals, bit by bit. */
  function BitOr(a: nat, b: nat): nat {
    if a == 0 && b == 0 then 0
    else (if a % 2 == 1 || b % 2 == 1 then 1 else 0) + 2 * BitOr(a / 2, b / 2)
  }

  /** Or-ing in a value above every bit in use adds it. */
  lemma {:induction false} OrDisjoint(a: nat, c: nat, k: nat)
    requires a < Pow2(k)
    ensures BitOr(a, c * Pow2(k)) == a + c * Pow2(k)
    decreases k
  {
    if k == 0 {
      OrZero(c);
    } else {
      var h := c * Pow2(k - 1);
      assert c * Pow2(k) == 2 * h;
      OrDisjoint(a / 2, c, k - 1);
    }
  }

  lemma {:induction false} OrZero(c: nat)
    ensures BitOr(0, c) == c
  {
    if c > 0 {
      OrZero(c / 2);
    }
  }

  /** The reader: the seven data bits of each byte go in at `shift`, bits past
      the 64th are dropped, and a shift of 64 or more is an overflow. */
  function ParseGroups(s: seq<byte>, shift: nat, res: nat): (r: Parsed<nat>)
    ensures r.Ok? ==> |r.value.1| < |s|
  {
    if s == [] then Err(UnexpectedEof)
    else if shift >= 64 then Err(Panic)
    else
      var sum := res + ShiftLeft(s[0] % 128, shift);
      if s[0] < 128 then Ok((sum, s[1..])) else ParseGroups(s[1..], shift + 7, sum)
  }

  function ShiftLeft(data: nat, shift: nat): (r: nat)
    requires data < 128 && shift < 64
    ensures r < U64_BOUND
  {
    data * Pow2(shift) % U64_BOUND
  }

  function ParseVarUInt(s: seq<byte>): (r: Parsed<nat>)
    ensures r.Ok? ==> |r.value.1| < |s|
  {
    ParseGroups(s, 0, 0)
  }


  /** Below 64 the shifted group is a multiple of `Pow2(shift)`: at shift 63
      only its lowest bit survives. */
  lemma ShiftLeftIs(data: nat, shift: nat) returns (c: nat)
    requires data < 128 && shift < 64 && shift % 7 == 0
    ensures ShiftLeft(data, shift) == c * Pow2(shift)
    ensures c == if shift < 63 then data else data % 2
    ensures c < 128 && (c + 1) * Pow2(shift) <= U64_BOUND
  {
    hide Pow2;
    Pow2Of64();
    if shift < 63 {
      c := data;
      Pow2Add(shift, 63 - shift);
      Pow2AtLeast(63 - shift);
      ProductBound(data, Pow2(shift), Pow2(63 - shift));
    } else {
      c := data % 2;
      assert data * Pow2(63) == (data / 2) * U64_BOUND + c * Pow2(63);
      ModOfMultiple(data / 2, c * Pow2(63));
    }
  }

  lemma Pow2AtLeast(k: nat)
    requires k >= 7
    ensures Pow2(k) >= 128
  {
    hide *;
    Pow2Small();
    Pow2Add(7, k - 7);
  }

  lemma ProductBound(d: nat, p: nat, q: nat)
    requires d < 128 <= q && p > 0 && 2 * (p * q) == U64_BOUND
    ensures d * p % U64_BOUND == d * p && (d + 1) * p <= U64_BOUND
  {
    assert (d + 1) * p <= q * p;
    assert d * p <= (d + 1) * p;
  }

  lemma ModOfMultiple(k: nat, r: nat)
    requires r < U64_BOUND
    ensures (k * U64_BOUND + r) % U64_BOUND == r
  {
  }

  lemma ParseGroup(s: seq<byte>, shift: nat, res: nat)
    requires s != [] && shift < 64
    ensures ParseGroups(s, shift, res)
         == var sum := res + ShiftLeft(s[0] % 128, shift);
            if s[0] < 128 then Ok((sum, s[1..])) else ParseGroups(s[1..], shift + 7, sum)
  {
    hide ShiftLeft;
  }

  lemma {:induction false} ParseGroupsOfLeb(x: nat, shift: nat, res: nat, rest: seq<byte>)
    requires shift < 64 && shift % 7 == 0
    requires (x + 1) * Pow2(shift) <= U64_BOUND
    ensures ParseGroups(Leb(x) + rest, shift, res) == Ok((res + x * Pow2(shift), rest))
    decreases x
  {
    hide Pow2, ShiftLeft, ParseGroups;
    var s := Leb(x) + rest;
    ParseGroup(s, shift, res);
    GroupFits(x, shift);
    if x < 128 {
      assert s[0] == x && s[1..] == rest;
    } else {
      var q, d := x / 128, x % 128;
      assert s[0] == d + 128;
      assert s[1..] == Leb(q) + rest;
      NextGroup(x, shift);
      ParseGroupsOfLeb(q, shift + 7, res + d * Pow2(shift), rest);
    }
  }

  /** No bit of a value that fits is shifted out. */
  lemma GroupFits(x: nat, shift: nat)
    requires shift < 64 && shift % 7 == 0
    requires (x + 1) * Pow2(shift) <= U64_BOUND
    ensures ShiftLeft(x % 128, shift) == x % 128 * Pow2(shift)
    ensures x >= 128 ==> shift < 63
  {
    hide *;
    var c := ShiftLeftIs(x % 128, shift);
    if shift == 63 {
      Pow2Of64();
      CancelProduct(x + 1, 2, Pow2(63));
    }
  }

  lemma CancelProduct(a: nat, b: nat, p: nat)
    requires p > 0 && a * p <= b * p
    ensures a <= b
  {
  }

  /** Shifting in the lowest group leaves the rest a valid value one group up. */
  lemma NextGroup(x: nat, shift: nat)
    requires shift < 63 && shift % 7 == 0
    requires (x + 1) * Pow2(shift) <= U64_BOUND
    ensures (x / 128 + 1) * Pow2(shift + 7) <= U64_BOUND
    ensures x % 128 * Pow2(shift) + x / 128 * Pow2(shift + 7) == x * Pow2(shift)
  {
    hide *;
    Pow2Of64();
    Pow2Add(7, shift);
    var p, q, d := Pow2(shift), x / 128, x % 128;
    var m := Pow2(57 - shift);
    assert U64_BOUND == p * (128 * m) by {
      Pow2Add(shift, 64 - shift);
      Pow2Add(7, 57 - shift);
    }
    RoundUp(x, m, p);
    Distribute(q, d, p);
  }

  lemma RoundUp(x: nat, m: nat, p: nat)
    requires p > 0 && (x + 1) * p <= p * (128 * m)
    ensures (x / 128 + 1) * (128 * p) <= p * (128 * m)
  {
    CancelProduct(x + 1, 128 * m, p);
    var n := x / 128 + 1;
    assert n <= m;
    assert n * (128 * p) == p * (128 * n);
    assert p * (128 * n) <= p * (128 * m);
  }

  lemma Distribute(q: nat, d: nat, p: nat)
    ensures (128 * q + d) * p == q * (128 * p) + d * p
  {
  }

  /** The reader inverts the writer and stops right after it. */
  lemma ParseVarUIntAppend(x: nat, rest: seq<byte>)
    requires x < U64_BOUND
    ensures ParseVarUInt(Leb(x) + rest) == Ok((x, rest))
  {
    ParseGroupsOfLeb(x, 0, 0, rest);
  }

  /** Whatever the reader accepts fits the 64 bits it is kept in. */
  lemma {:induction false} ParseGroupsBound(s: seq<byte>, shift: nat, res: nat)
    requires shift % 7 == 0 && (if shift < 64 then res < Pow2(shift) else res < U64_BOUND)
    ensures var r := ParseGroups(s, shift, res); r.Ok? ==> r.value.0 < U64_BOUND
    decreases |s|
  {
    hide Pow2, ShiftLeft;
    if s != [] && shift < 64 {
      var c := ShiftLeftIs(s[0] % 128, shift);
      var sum := res + c * Pow2(shift);
      GroupRoom(res, c, shift);
      Distribute(0, c + 1, Pow2(shift));
      assert sum < (c + 1) * Pow2(shift);
      ParseGroupsBound(s[1..], shift + 7, sum);
    }
  }

  /** Below shift 63 the next group leaves the value below the next power. */
  lemma GroupRoom(res: nat, c: nat, shift: nat)
    requires shift < 64 && res < Pow2(shift) && c < 128
    ensures shift < 57 ==> res + c * Pow2(shift) < Pow2(shift + 7)
  {
    hide *;
    Pow2Small();
    Pow2Add(7, shift);
    var p := Pow2(shift);
    assert c * p <= 127 * p;
  }

  lemma ParseVarUIntBound(s: seq<byte>)
    ensures ParseVarUInt(s).Ok? ==> ParseVarUInt(s).value.0 < U64_BOUND
  {
    ParseGroupsBound(s, 0, 0);
  }

  // Lists of VarUInts.

  function LebAll(xs: seq<nat>): seq<byte> {
    if xs == [] then [] else Leb(xs[0]) + LebAll(xs[1..])
  }

  function ParseVarUInts(n: nat, s: seq<byte>): Parsed<seq<nat>> {
    if n == 0 then Ok(([], s))
    else
      var (x, s1) :- ParseVarUInt(s);
      var (xs, s2) :- ParseVarUInts(n - 1, s1);
      Ok(([x] + xs, s2))
  }

  /** Any concatenation of VarUInts reads back as the same list. */
  lemma {:induction false} ParseVarUIntsOfLebAll(xs: seq<nat>, rest: seq<byte>)
    requires forall i :: 0 <= i < |xs| ==> xs[i] < U64_BOUND
    ensures ParseVarUInts(|xs|, LebAll(xs) + rest) == Ok((xs, rest))
  {
    if xs == [] {
      assert LebAll(xs) + rest == rest;
    } else {
      assert xs == [xs[0]] + xs[1..];
      ParseVarUIntAppend(xs[0], LebAll(xs[1..]) + rest);
      assert LebAll(xs) + rest == Leb(xs[0]) + (LebAll(xs[1..]) + rest);
      ParseVarUIntsOfLebAll(xs[1..], rest);
    }
  }

  // ---- Strings -----------------------------------------------------------------

  const MAX_STRING_LEN: nat := 0x1_0000_0000

  function EncodeString(s: string): seq<byte> {
    Leb(|s|) + Octets(s)
  }

  function ParseString(s: seq<byte>): (r: Parsed<string>)
    ensures r.Ok? ==> |r.value.1| < |s|
    ensures r.Ok? ==> RustString(r.value.0) && |r.value.0| <= MAX_STRING_LEN
  {
    var (l, s1) :- ParseVarUInt(s);
    if l > MAX_STRING_LEN then Err(InvalidData)
    else
      var (b, s2) :- Take(l, s1);
      if Utf8(b) then
        OctetsOfText(b);
        Ok((Text(b), s2))
      else Err(InvalidData)
  }

  lemma ParseStringAppend(s: string, rest: seq<byte>)
    requires RustString(s)
    ensures ParseString(EncodeString(s) + rest)
         == if |s| <= MAX_STRING_LEN then Ok((s, rest)) else Err(InvalidData)
  {
    assert EncodeString(s) + rest == Leb(|s|) + (Octets(s) + rest);
    ParseVarUIntAppend(|s|, Octets(s) + rest);
    TakeAppend(Octets(s), rest);
    TextOfOctets(s);
  }
}
