/** The native format in literal bytes: what the encodings look like to someone
    who knows neither the encoder nor the decoder. */
module WireFormat {
  import opened Base
  import opened Wire
  import opened Chunked
  import opened ByteIO
  import opened Digits
  import opened Column
  import opened TypePrint
  import opened Codec
  import opened CodecRoundTrip
  import Calendar

  // ---- Numbers ------------------------------------------------------------------------

  /** Byte `j` of a number is its digit of weight 256^j: least significant first. */
  lemma {:induction false} ByteOfNumber(width: nat, v: nat, j: nat)
    requires j < width
    ensures Pow256(j) > 0 && LE(width, v)[j] == v / Pow256(j) % 256
  {
    if j > 0 {
      ByteOfNumber(width - 1, v / 256, j - 1);
      DivideTwice(v, 256, Pow256(j - 1));
    }
  }

  lemma DivideTwice(v: nat, a: nat, b: nat)
    requires a > 0 && b > 0
    ensures a * b > 0 && v / a / b == v / (a * b)
  {
    var q, r := v / a, v % a;
    var x, y := q / b, q % b;
    QuotientRest(v, a);
    QuotientRest(q, b);
    TwoRests(a, b, q, r, x, y);
    Calendar.DivUnique(v, a * b, x, a * y + r);
  }

  lemma QuotientRest(n: nat, p: nat)
    requires p > 0
    ensures n == p * (n / p) + n % p && n % p < p
  {
  }

  lemma TwoRests(a: nat, b: nat, q: nat, r: nat, x: nat, y: nat)
    requires r < a && y < b && q == b * x + y
    ensures a * q + r == x * (a * b) + (a * y + r) && a * y + r < a * b
  {
    Distribute(a, b * x, y);
    Reorder(a, b, x);
    Bounded(a, y + 1, b);
    Distribute(a, y, 1);
  }

  lemma Distribute(a: nat, m: nat, y: nat)
    ensures a * (m + y) == a * m + a * y
  {
  }

  lemma Reorder(a: nat, b: nat, x: nat)
    ensures a * (b * x) == x * (a * b)
  {
  }

  lemma Bounded(a: nat, m: nat, b: nat)
    requires m <= b
    ensures a * m <= a * b
  {
  }

  lemma {:induction false} ByteOfNumbers(width: nat, xs: seq<nat>, i: nat, j: nat)
    requires i < |xs| && j < width
    ensures i * width + j < |LEs(width, xs)| && Pow256(j) > 0
    ensures LEs(width, xs)[i * width + j] == xs[i] / Pow256(j) % 256
  {
    hide LE, Pow256;
    if i == 0 {
      ByteOfNumber(width, xs[0], j);
    } else {
      ByteOfNumbers(width, xs[1..], i - 1, j);
      OneMoreRow(width, i - 1);
      assert i * width + j == width + ((i - 1) * width + j);
    }
  }

  /** A fixed-width column is its values, each as many bytes as a eighth of the
      number in the type's name. */
  lemma ScalarBytes(kind: Kind, vals: seq<nat>)
    ensures |Encode(Scalar(kind, vals))| == Width(kind) * |vals|
    ensures kind != Float64 ==>
              KindName(kind) == (if kind in {Int8, Int16, Int32, Int64, Int128, Int256} then "Int" else "UInt")
                                + Dec(8 * Width(kind))
    ensures KindName(Float64) == "Float64" && Width(Float64) == 8
  {
    hide LEs;
    NumbersLength(Width(kind), vals);
    BitNames();
  }

  lemma BitNames()
    ensures Dec(8) == "8" && Dec(16) == "16" && Dec(32) == "32" && Dec(64) == "64"
    ensures Dec(128) == "128" && Dec(256) == "256"
  {
    assert Dec(12) == "12" && Dec(25) == "25";
  }

  lemma {:induction false} NumbersLength(width: nat, xs: seq<nat>)
    ensures |LEs(width, xs)| == width * |xs|
  {
    hide LE;
    if xs != [] { NumbersLength(width, xs[1..]); }
  }

  /** The number a VarUInt spells: seven bits a byte, least significant first, the
      top bit set on all but the last. */
  function Septets(s: seq<byte>): Option<nat> {
    if s == [] then None
    else if |s| == 1 then if s[0] < 128 then Some(s[0]) else None
    else if s[0] < 128 then None
    else match Septets(s[1..])
         case Some(n) => Some(s[0] - 128 + 128 * n)
         case None => None
  }

  lemma {:induction false} VarUIntBytes(x: nat)
    ensures Septets(Leb(x)) == Some(x)
    ensures |Leb(x)| > 1 ==> Leb(x)[|Leb(x)| - 1] != 0
  {
    if x >= 128 {
      VarUIntBytes(x / 128);
      assert Leb(x)[1..] == Leb(x / 128);
      if |Leb(x / 128)| == 1 { assert x / 128 < 128 && Leb(x / 128) == [x / 128]; }
    }
  }

  /** A VarUInt of up to ten bytes is read as its number modulo 2^64, canonical or
      not, and nothing after it is touched. */
  lemma VarUIntReads(s: seq<byte>, k: nat)
    requires k < |s| && s[k] < 128 && forall i :: 0 <= i < k ==> s[i] >= 128
    ensures Septets(s[..k + 1]).Some?
    ensures k <= 9 ==> ParseVarUInt(s) == Ok((Septets(s[..k + 1]).value % 0x1_0000_0000_0000_0000, s[k + 1..]))
    ensures k > 9 ==> ParseVarUInt(s) == Err(Panic)
  {
    SeptetsOf(s, k);
    if k <= 9 {
      GroupsRead(s, k, 0, 0);
    } else {
      GroupsEnd(s, 0, 0);
    }
  }

  /** Without a last byte it is an early end, or an overflow from the eleventh
      byte on. */
  lemma VarUIntEnds(s: seq<byte>)
    requires forall i :: 0 <= i < |s| && i < 10 ==> s[i] >= 128
    ensures ParseVarUInt(s) == Err(if |s| <= 10 then UnexpectedEof else Panic)
  {
    GroupsEnd(s, 0, 0);
  }

  lemma {:induction false} SeptetsOf(s: seq<byte>, k: nat)
    requires k < |s| && s[k] < 128 && forall i :: 0 <= i < k ==> s[i] >= 128
    ensures Septets(s[..k + 1]).Some?
    ensures k > 0 ==>
              && Septets(s[1..][..k]).Some?
              && Septets(s[..k + 1]).value == s[0] - 128 + 128 * Septets(s[1..][..k]).value
    ensures k == 0 ==> Septets(s[..1]).value == s[0]
  {
    var t := s[..k + 1];
    if k > 0 {
      SeptetsOf(s[1..], k - 1);
      assert t[1..] == s[1..][..k];
    }
  }

  lemma {:induction false} GroupsEnd(s: seq<byte>, shift: nat, res: nat)
    requires shift <= 70 && shift % 7 == 0 && forall i :: 0 <= i < |s| && shift + 7 * i < 70 ==> s[i] >= 128
    ensures ParseGroups(s, shift, res) == Err(if shift + 7 * |s| <= 70 then UnexpectedEof else Panic)
    decreases |s|
  {
    hide ShiftLeft;
    if s != [] && shift < 64 {
      forall i | 0 <= i < |s[1..]| && shift + 7 + 7 * i < 70 ensures s[1..][i] >= 128 { assert s[1..][i] == s[i + 1]; }
      GroupsEnd(s[1..], shift + 7, res + ShiftLeft(s[0] % 128, shift));
    }
  }

  lemma {:induction false} GroupsRead(s: seq<byte>, k: nat, shift: nat, res: nat)
    requires k < |s| && s[k] < 128 && forall i :: 0 <= i < k ==> s[i] >= 128
    requires shift % 7 == 0 && shift + 7 * k <= 63
    ensures Septets(s[..k + 1]).Some?
    ensures ParseGroups(s, shift, res)
         == Ok((res + Septets(s[..k + 1]).value * Pow2(shift) % U64_BOUND, s[k + 1..]))
  {
    hide Pow2, Septets, ParseGroups;
    SeptetsOf(s, k);
    ParseGroup(s, shift, res);
    var d := s[0] % 128;
    if k > 0 {
      var high := Septets(s[1..][..k]).value;
      var sum := res + ShiftLeft(d, shift);
      assert s[1..][k - 1] == s[k] && s[1..][k..] == s[k + 1..];
      GroupsRead(s[1..], k - 1, shift + 7, sum);
      GroupOver(d, high, shift);
    }
  }

  /** A group shifted in below the others is added, modulo 2^64 too. */
  lemma GroupOver(d: nat, high: nat, shift: nat)
    requires d < 128 && shift < 63 && shift % 7 == 0
    ensures ShiftLeft(d, shift) + high * Pow2(shift + 7) % U64_BOUND == (d + 128 * high) * Pow2(shift) % U64_BOUND
  {
    hide *;
    var c := ShiftLeftIs(d, shift);
    Pow2Add(7, shift);
    Pow2Small();
    Pow2Of64();
    Pow2Add(shift + 7, 57 - shift);
    OverModulus(d, high, Pow2(shift), Pow2(shift + 7), Pow2(57 - shift), U64_BOUND);
  }

  lemma OverModulus(d: nat, high: nat, p: nat, m: nat, n: nat, u: nat)
    requires d < 128 && p > 0 && n > 0 && m == 128 * p && u == m * n
    ensures u > 0 && d * p + high * m % u == (d + 128 * high) * p % u
  {
    Below(d, 128, p);
    RestOfSum(d * p, high, m, n);
    Gather(d, high, p);
  }

  lemma Below(d: nat, e: nat, p: nat)
    requires d < e && p > 0
    ensures d * p < e * p
  {
  }

  lemma Gather(d: nat, high: nat, p: nat)
    ensures (d + 128 * high) * p == d * p + high * (128 * p)
  {
  }

  lemma RestOfSum(low: nat, high: nat, m: nat, n: nat)
    requires low < m && n > 0
    ensures m * n > 0 && (low + high * m) % (m * n) == low + high * m % (m * n)
  {
    var q, r := high / n, high % n;
    QuotientRest(high, n);
    Distribute(m, n * q, r);
    Reorder(m, n, q);
    Bounded(m, r + 1, n);
    Distribute(m, r, 1);
    Bounded(m, 1, n);
    Calendar.DivUnique(high * m, m * n, q, m * r);
    Calendar.DivUnique(low + high * m, m * n, q, low + m * r);
  }

  // ---- Columns --------------------------------------------------------------------------

  const WORD0: seq<byte> := [0, 0, 0, 0, 0, 0, 0, 0]
  const WORD1: seq<byte> := [1, 0, 0, 0, 0, 0, 0, 0]
  const WORD3: seq<byte> := [3, 0, 0, 0, 0, 0, 0, 0]

  lemma Words()
    ensures LE(8, 0) == WORD0 && LE(8, 1) == WORD1 && LE(8, 3) == WORD3
  {
    SmallWord(0);
    SmallWord(1);
    SmallWord(3);
  }

  lemma SmallWord(v: nat)
    requires v < 256
    ensures LE(8, v) == [v, 0, 0, 0, 0, 0, 0, 0]
  {
    FirstByte(8, v);
    ZeroBytes(7);
    hide LE;
    assert LE(8, v) == [v] + [0, 0, 0, 0, 0, 0, 0];
  }

  lemma {:induction false} ZeroBytes(n: nat)
    ensures LE(n, 0) == seq(n, _ => 0)
  {
    if n > 0 {
      ZeroBytes(n - 1);
    }
  }

  /** A column of Nothing is a '0' character a row. */
  lemma NothingBytes(rows: nat)
    ensures |Encode(Nothing(rows))| == rows && forall i :: 0 <= i < rows ==> Encode(Nothing(rows))[i] == 0x30
  {
  }

  /** JSON text: serialization version 1, then strings. */
  lemma JsonBytes(texts: seq<string>)
    ensures Encode(Json(texts)) == if texts == [] then [] else WORD1 + Encode(Str(texts))
  {
    hide LE, EncodeStrings;
    Words();
  }

  /** A string is its length and its bytes. */
  lemma StringBytes(s: string, more: seq<string>)
    requires RustString(s)
    ensures Encode(Str([s] + more)) == Leb(|s|) + seq(|s|, i requires 0 <= i < |s| => s[i] as byte) + Encode(Str(more))
    ensures Encode(Str([])) == []
  {
    hide Leb, Utf8;
    OctetsAre(s);
    hide Octets, RustString;
    assert ([s] + more)[0] == s && ([s] + more)[1..] == more;
  }

  lemma OctetsAre(s: string)
    requires IsByteString(s)
    ensures Octets(s) == seq(|s|, i requires 0 <= i < |s| => s[i] as byte)
  {
  }

  /** The null map goes first. */
  lemma NullableBytes(inner: Col, nulls: seq<byte>)
    ensures nulls <= Encode(Nullable(inner, nulls)) && Encode(Nullable(inner, nulls))[|nulls|..] == Encode(inner)
  {
  }

  /** Offsets are 64-bit, and the elements follow them. */
  lemma ArrayBytes(items: Col, offsets: seq<nat>, i: nat, j: nat)
    requires i < |offsets| && j < 8
    ensures |Encode(Array(items, offsets))| == 8 * |offsets| + |Encode(items)|
    ensures Encode(Array(items, offsets))[8 * |offsets|..] == Encode(items)
    ensures Pow256(j) > 0 && Encode(Array(items, offsets))[i * 8 + j] == offsets[i] / Pow256(j) % 256
  {
    hide LE, LEs, Pow256;
    NumbersLength(8, offsets);
    ByteOfNumbers(8, offsets, i, j);
  }

  /** The keys of a Map stand like an Array before the values, and a Nested is an
      Array of Tuples. */
  lemma MapAndNestedBytes(keys: Col, values: Col, names: seq<string>, fields: seq<Col>, offsets: seq<nat>)
    ensures Encode(Map(keys, values, offsets)) == Encode(Array(keys, offsets)) + Encode(values)
    ensures Encode(Nested(names, fields, offsets)) == Encode(Array(Tuple(fields), offsets))
  {
    hide LEs, EncodeEach;
    MapBytes(keys, values, offsets);
    NestedBytes(names, fields, offsets);
    hide Encode;
  }

  lemma MapBytes(keys: Col, values: Col, offsets: seq<nat>)
    ensures Encode(Map(keys, values, offsets)) == Encode(Array(keys, offsets)) + Encode(values)
  {
    hide LEs, EncodeEach;
    assert Encode(Map(keys, values, offsets)) == LEs(8, offsets) + (Encode(keys) + Encode(values));
    assert Encode(Array(keys, offsets)) == LEs(8, offsets) + Encode(keys);
    hide Encode;
    Associate(LEs(8, offsets), Encode(keys), Encode(values));
  }

  lemma NestedBytes(names: seq<string>, fields: seq<Col>, offsets: seq<nat>)
    ensures Encode(Nested(names, fields, offsets)) == Encode(Array(Tuple(fields), offsets))
  {
    hide LEs, EncodeEach;
    TupleIs(fields);
  }

  /** The elements of a tuple one after another. */
  lemma TupleBytes(c: Col, more: seq<Col>)
    ensures Encode(Tuple([])) == [] && Encode(Tuple([c] + more)) == Encode(c) + Encode(Tuple(more))
  {
    hide Encode;
    TupleIs([]);
    TupleIs(more);
    TupleIs([c] + more);
    assert ([c] + more)[0] == c && ([c] + more)[1..] == more;
  }

  lemma TupleIs(elems: seq<Col>)
    ensures Encode(Tuple(elems)) == EncodeEach(elems)
  {
  }

  /** The metadata word of a dictionary column: the key type in the low byte, and
      the flags HasAdditionalKeys and NeedUpdateDictionary, which are 512 and 1024. */
  lemma DictionaryWord(c: Col)
    requires c.LowCardinality? && Valid(c) && c.refs != []
    ensures var code: nat := match c.keyWidth case 1 => 0 case 2 => 1 case 4 => 2 case _ => 3;
            && |Encode(c)| >= 16 && Encode(c)[..8] == WORD1
            && Encode(c)[8..16] == LE(8, code + 512 + 1024) == [code, 6, 0, 0, 0, 0, 0, 0]
  {
    hide Encode, Valid, LE, LEs, RowCount, KeyMetadata;
    Words();
    LowCardinalityParts(c.dict, c.refs, c.keyWidth);
    var code: nat := match c.keyWidth case 1 => 0 case 2 => 1 case 4 => 2 case _ => 3;
    assert KeyMetadata(c.keyWidth) == code + 512 + 1024 by { MetadataIs(c.keyWidth, code); }
    TwoByteWord(code);
    var word := LE(8, KeyMetadata(c.keyWidth));
    var after := Encode(c)[16..];
    assert Encode(c)[..8] == LE(8, 1);
    assert Encode(c)[8..16] == word;
  }

  lemma MetadataIs(keyWidth: nat, code: nat)
    requires keyWidth in {1, 2, 4, 8}
    requires code == match keyWidth case 1 => 0 case 2 => 1 case 4 => 2 case _ => 3
    ensures KeyMetadata(keyWidth) == code + 512 + 1024
  {
  }

  lemma TwoByteWord(code: nat)
    requires code < 4
    ensures LE(8, code + 512 + 1024) == [code, 6, 0, 0, 0, 0, 0, 0]
  {
    var v := code + 1536;
    assert v % 256 == code && v / 256 == 6;
    FirstByte(8, v);
    FirstByte(7, 6);
    ZeroBytes(6);
    hide LE;
    assert LE(8, v) == [code] + ([6] + LE(6, 0));
  }

  lemma FirstByte(n: nat, v: nat)
    requires n > 0
    ensures LE(n, v) == [v % 256] + LE(n - 1, v / 256)
  {
  }

  /** A Variant: mode 0, a byte a row, the sub-columns like a tuple's elements. */
  lemma VariantBytes(ds: seq<nat>, slots: seq<nat>, columns: seq<Col>)
    requires forall i :: 0 <= i < |ds| ==> ds[i] < 256
    ensures Encode(Variant(ds, slots, columns))
         == if ds == [] then []
            else WORD0 + seq(|ds|, i requires 0 <= i < |ds| => ds[i] as byte) + Encode(Tuple(columns))
  {
    hide LE, LEs, EncodeEach;
    Words();
    if ds != [] {
      SingleBytes(ds);
    }
  }

  lemma {:induction false} SingleBytes(ds: seq<nat>)
    requires forall i :: 0 <= i < |ds| ==> ds[i] < 256
    ensures LEs(1, ds) == seq(|ds|, i requires 0 <= i < |ds| => ds[i] as byte)
  {
    if ds != [] {
      SingleBytes(ds[1..]);
      OneByte(ds[0]);
    }
  }

  lemma OneByte(v: nat)
    requires v < 256
    ensures LE(1, v) == [v]
  {
    assert LE(0, v / 256) == [];
  }

  /** A Dynamic: version 3, the number of types and their names, the
      discriminators, the sub-columns. Up to 255 types a discriminator is a byte. */
  lemma DynamicBytes(names: seq<string>, ds: seq<nat>, slots: seq<nat>, columns: seq<Col>)
    ensures Encode(Dynamic(names, ds, slots, columns))
         == if ds == [] then []
            else WORD3 + Leb(|names|) + Encode(Str(names)) + LEs(DiscriminatorWidth(|names|), ds)
                 + Encode(Tuple(columns))
    ensures DiscriminatorWidth(|names|)
         == if |names| <= 255 then 1 else if |names| <= 65535 then 2 else if |names| <= 4294967295 then 4 else 8
  {
    hide LE, LEs, EncodeEach, EncodeStrings, Leb;
    Words();
  }

  /** A chunk is its size in four bytes, the data and four zeros. */
  lemma ChunkBytes(data: seq<byte>)
    requires |data| < 0x1_0000_0000
    ensures Frame(data) == LE(4, |data|) + data + [0, 0, 0, 0]
  {
    hide LE;
    SmallRest(|data|, U32_BOUND);
    assert LE(4, |data| % U32_BOUND) == LE(4, |data|);
  }

  lemma SmallRest(n: nat, p: nat)
    requires n < p
    ensures n % p == n
  {
  }
}
