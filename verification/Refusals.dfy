/** What the decoders accept and how they refuse, in literal bytes and numbers:
    every version word, bound, kind and checksum the client insists on. */
module Refusals {
  import opened Base
  import opened Wire
  import opened ByteIO
  import opened Compression
  import opened Column
  import opened TypeString
  import opened TypeTree
  import opened Codec
  import opened Decoder
  import opened Blocks
  import opened Client
  import opened Kinds
  import opened Replicated
  import opened WireFormat

  /** A fixed 64-bit word is read as its number and as nothing else. */
  lemma WordIs(s: seq<byte>, v: nat)
    requires v < U64_BOUND
    ensures |s| < 8 ==> ParseLE(8, s) == Err(UnexpectedEof)
    ensures |s| >= 8 ==> ParseLE(8, s).Ok? && ParseLE(8, s).value.1 == s[8..]
    ensures |s| >= 8 ==> (ParseLE(8, s).value.0 == v <==> s[..8] == LE(8, v))
  {
    hide LE, FromLE, Pow256;
    Pow256Values();
    if |s| >= 8 {
      LEOfFromLE(s[..8]);
      FromLEOfLE(8, v);
    }
  }

  // ---- Strings and offsets -----------------------------------------------------------------

  /** At most 4 GiB, and UTF-8. */
  lemma StringRefused(s: seq<byte>, l: nat, s1: seq<byte>)
    requires ParseVarUInt(s) == Ok((l, s1))
    ensures ParseString(s)
         == if l > 0x1_0000_0000 then Err(InvalidData)
            else if |s1| < l then Err(UnexpectedEof)
            else if !Utf8(s1[..l]) then Err(InvalidData)
            else Ok((Text(s1[..l]), s1[l..]))
  {
    hide ParseVarUInt, Utf8, Text;
  }

  /** Rising, and the last one at most 2^32. */
  lemma OffsetsRefused(rows: nat, s: seq<byte>, offsets: seq<nat>, rest: seq<byte>)
    requires ParseLEs(8, rows, [], s) == Ok((offsets, rest))
    ensures var rising := forall i :: 0 < i < |offsets| ==> offsets[i - 1] <= offsets[i];
            ParseOffsets(rows, s)
            == if !rising || (offsets != [] && offsets[|offsets| - 1] > 0x1_0000_0000) then Err(InvalidData)
               else Ok((offsets, rest))
  {
    hide ParseLEs;
    if forall i :: 0 < i < |offsets| ==> offsets[i - 1] <= offsets[i] {
      StepsRise(offsets);
    } else {
      var i :| 0 < i < |offsets| && offsets[i - 1] > offsets[i];
      assert !Monotone(offsets);
    }
  }

  lemma {:induction false} StepsRise(xs: seq<nat>)
    requires forall i :: 0 < i < |xs| ==> xs[i - 1] <= xs[i]
    ensures Monotone(xs)
  {
    if xs != [] {
      var front := xs[..|xs| - 1];
      StepsRise(front);
      forall i, j | 0 <= i <= j < |xs| ensures xs[i] <= xs[j] {
        if i < j == |xs| - 1 {
          assert front[i] <= front[j - 1] == xs[j - 1] <= xs[j];
        } else if j < |xs| - 1 {
          assert front[i] <= front[j];
        }
      }
    }
  }

  // ---- Columns ---------------------------------------------------------------------------------

  /** JSON as text is version 1. */
  lemma JsonRefused(rows: nat, s: seq<byte>)
    requires rows > 0
    ensures |s| < 8 ==> DecodeTree(TJson, rows, s) == Err(UnexpectedEof)
    ensures |s| >= 8 && s[..8] != WORD1 ==> DecodeTree(TJson, rows, s) == Err(Unsupported)
    ensures |s| >= 8 && s[..8] == WORD1 ==>
              DecodeTree(TJson, rows, s) == match ParseStrings(rows, [], s[8..])
                                            case Ok((texts, rest)) => Ok((Json(texts), rest))
                                            case Err(e) => Err(e)
  {
    hide ParseLE, ParseStrings, LE;
    Words();
    WordIs(s, 1);
  }

  /** A dictionary column from its metadata on. */
  lemma DictionaryAfter(u: Ty, rows: nat, s: seq<byte>, s1: seq<byte>, metadata: nat, s2: seq<byte>)
    requires rows > 0 && ParseLE(8, s) == Ok((1, s1)) && ParseLE(8, s1) == Ok((metadata, s2))
    ensures var r, w := DecodeTree(TLowCardinality(u), rows, s), WidthOfKeyCode(metadata % 256);
            r == if w.Err? then Err(w.error) else ParseDictionary(u, w.value, s2)
  {
    hide ParseLE, ParseLEs, WidthOfKeyCode;
  }

  lemma DictionaryBody(u: Ty, keyWidth: nat, s2: seq<byte>, size: nat, s3: seq<byte>)
    ensures ParseLE(8, s2) == Ok((size, s3)) ==>
              var r := ParseDictionary(u, keyWidth, s2);
              && (size > 0x1_0000_0000 ==> r == Err(InvalidData))
              && (r.Ok? ==>
                    && r.value.0.LowCardinality? && r.value.0.keyWidth == keyWidth
                    && DecodeTree(u, size, s3).Ok? && DecodeTree(u, size, s3).value.0 == r.value.0.dict)
    ensures ParseLE(8, s2).Err? ==> ParseDictionary(u, keyWidth, s2).Err?
  {
    hide ParseLE, ParseLEs, DecodeTree;
  }

  lemma DictionaryWords(u: Ty, rows: nat, s: seq<byte>, s1: seq<byte>, metadata: nat, s2: seq<byte>, size: nat,
      s3: seq<byte>)
    requires rows > 0 && ParseLE(8, s) == Ok((1, s1)) && ParseLE(8, s1) == Ok((metadata, s2))
    ensures metadata % 256 > 3 ==> DecodeTree(TLowCardinality(u), rows, s) == Err(InvalidData)
    ensures ParseLE(8, s2) == Ok((size, s3)) ==>
              var r := DecodeTree(TLowCardinality(u), rows, s);
              && (size > 0x1_0000_0000 ==> r == Err(InvalidData))
              && (r.Ok? ==>
                    && metadata % 256 <= 3 && r.value.0.LowCardinality?
                    && r.value.0.keyWidth == (match metadata % 256 case 0 => 1 case 1 => 2 case 2 => 4 case _ => 8)
                    && DecodeTree(u, size, s3).Ok? && DecodeTree(u, size, s3).value.0 == r.value.0.dict)
    ensures ParseLE(8, s2).Err? ==> DecodeTree(TLowCardinality(u), rows, s).Err?
  {
    hide ParseLE, DecodeTree, ParseDictionary;
    DictionaryAfter(u, rows, s, s1, metadata, s2);
    var w := WidthOfKeyCode(metadata % 256);
    if w.Ok? {
      DictionaryBody(u, w.value, s2, size, s3);
    }
  }

  /** The first word tells the version, and what is missing is an early end. */
  lemma DictionaryVersion(u: Ty, rows: nat, s: seq<byte>)
    requires rows > 0
    ensures ParseLE(8, s).Err? ==> DecodeTree(TLowCardinality(u), rows, s) == Err(ParseLE(8, s).error)
    ensures ParseLE(8, s).Ok? && ParseLE(8, s).value.0 != 1 ==>
              DecodeTree(TLowCardinality(u), rows, s) == Err(Unsupported)
    ensures ParseLE(8, s).Ok? && ParseLE(8, s).value.0 == 1 && ParseLE(8, ParseLE(8, s).value.1).Err? ==>
              DecodeTree(TLowCardinality(u), rows, s) == Err(ParseLE(8, ParseLE(8, s).value.1).error)
  {
    hide ParseLE, ParseLEs;
  }

  /** A dictionary is version 1, of a key type 0 to 3 in the low byte of its
      metadata, whatever the other bytes say, and of at most 2^32 entries. */
  lemma DictionaryRefused(u: Ty, rows: nat, s: seq<byte>)
    requires rows > 0
    ensures var r := DecodeTree(TLowCardinality(u), rows, s);
            && (|s| < 8 ==> r == Err(UnexpectedEof))
            && (|s| >= 8 && s[..8] != WORD1 ==> r == Err(Unsupported))
            && (8 <= |s| < 16 && s[..8] == WORD1 ==> r == Err(UnexpectedEof))
            && (|s| >= 16 && s[..8] == WORD1 && s[8] > 3 ==> r == Err(InvalidData))
            && (|s| >= 24 && s[..8] == WORD1 && s[8] <= 3 && FromLE(s[16..24]) > 0x1_0000_0000 ==>
                  r == Err(InvalidData))
  {
    hide ParseLE, DecodeTree, LE, FromLE, Pow256;
    Words();
    WordIs(s, 1);
    DictionaryVersion(u, rows, s);
    if |s| >= 8 && s[..8] == WORD1 {
      WordIs(s[8..], 0);
      if |s| >= 16 {
        DictionaryPieces(s);
        var size := if |s| >= 24 then FromLE(s[16..24]) else 0;
        DictionaryWords(u, rows, s, s[8..], FromLE(s[8..16]), s[16..], size, if |s| >= 24 then s[24..] else []);
      }
    }
  }

  lemma DictionaryPieces(s: seq<byte>)
    requires |s| >= 16
    ensures ParseLE(8, s[8..]) == Ok((FromLE(s[8..16]), s[16..])) && FromLE(s[8..16]) % 256 == s[8]
    ensures |s| >= 24 ==> ParseLE(8, s[16..]) == Ok((FromLE(s[16..24]), s[24..]))
    ensures |s| < 24 ==> ParseLE(8, s[16..]).Err?
  {
    hide ParseLE, FromLE;
    WordAt(s, 8);
    LowByte(s[8..16]);
    WordIs(s[16..], 0);
    if |s| >= 24 { WordAt(s, 16); }
  }

  lemma WordAt(s: seq<byte>, i: nat)
    requires i + 8 <= |s|
    ensures ParseLE(8, s[i..]) == Ok((FromLE(s[i..i + 8]), s[i + 8..]))
  {
    hide FromLE;
    assert s[i..][..8] == s[i..i + 8] && s[i..][8..] == s[i + 8..];
  }

  lemma LowByte(s: seq<byte>)
    requires s != []
    ensures FromLE(s) % 256 == s[0]
  {
    LowDigit(s[0], FromLE(s[1..]));
  }

  lemma LowDigit(b: int, high: nat)
    requires 0 <= b < 256
    ensures (b + 256 * high) % 256 == b
  {
  }

  /** The three parts of a dictionary column after its metadata, with the key
      widths of the four key types. */
  lemma DictionaryAccepted(u: Ty, rows: nat, s: seq<byte>, c: Col, rest: seq<byte>)
    requires rows > 0 && DecodeTree(TLowCardinality(u), rows, s) == Ok((c, rest))
    ensures |s| >= 24 && s[..8] == WORD1 && s[8] <= 3
    ensures c.LowCardinality? && c.keyWidth == match s[8] case 0 => 1 case 1 => 2 case 2 => 4 case _ => 8
    ensures DecodeTree(u, FromLE(s[16..24]), s[24..]).Ok? && DecodeTree(u, FromLE(s[16..24]), s[24..]).value.0 == c.dict
  {
    hide ParseLE, DecodeTree, LE, FromLE, Pow256;
    DictionaryRefused(u, rows, s);
    Words();
    WordIs(s, 1);
    DictionaryPieces(s);
    var size := if |s| >= 24 then FromLE(s[16..24]) else 0;
    DictionaryWords(u, rows, s, s[8..], FromLE(s[8..16]), s[16..], size, if |s| >= 24 then s[24..] else []);
  }

  /** A Variant is in mode 0. */
  lemma VariantRefused(ts: seq<Ty>, rows: nat, s: seq<byte>)
    requires rows > 0 && AllStateless(ts)
    ensures |s| < 8 ==> DecodeTree(TVariant(ts, false), rows, s) == Err(UnexpectedEof)
    ensures |s| >= 8 && s[..8] != WORD0 ==> DecodeTree(TVariant(ts, false), rows, s) == Err(Unsupported)
    ensures DecodeTree(TVariant(ts, true), rows, s) == Err(Unsupported)
  {
    hide ParseLE, LE, ParseDiscriminators, DecodeEach, Slots, Counts, AllStateless;
    Words();
    WordIs(s, 0);
  }

  /** The first row's byte that is neither 255 nor the number of an element is
      refused. */
  lemma VariantByteRefused(ts: seq<Ty>, rows: nat, tail: seq<byte>, i: nat)
    requires AllStateless(ts) && i < rows && i < |tail| && tail[i] != 255 && tail[i] >= |ts|
    requires forall j :: 0 <= j < i ==> tail[j] == 255 || tail[j] < |ts|
    ensures DecodeTree(TVariant(ts, false), rows, WORD0 + tail) == Err(InvalidData)
  {
    hide ParseLE, LE, ParseDiscriminators, DecodeEach, Slots, Counts, AllStateless;
    Words();
    WordIs(WORD0 + tail, 0);
    assert (WORD0 + tail)[..8] == WORD0 && (WORD0 + tail)[8..] == tail;
    BadDiscriminator(rows, |ts|, [], tail, i);
  }

  lemma {:induction false} BadDiscriminator(n: nat, numTypes: nat, ds: seq<nat>, s: seq<byte>, i: nat)
    requires i < n && i < |s| && s[i] != 255 && s[i] >= numTypes
    requires forall j :: 0 <= j < i ==> s[j] == 255 || s[j] < numTypes
    ensures ParseDiscriminators(1, n, NULL_DISCRIMINATOR, numTypes, ds, s) == Err(InvalidData)
    decreases i
  {
    hide FromLE;
    ByteWord(s);
    if i > 0 {
      BadDiscriminator(n - 1, numTypes, ds + [s[0]], s[1..], i - 1);
    }
  }

  lemma ByteWord(s: seq<byte>)
    requires s != []
    ensures ParseLE(1, s) == Ok((s[0], s[1..]))
  {
    assert s[..1][1..] == [];
    assert FromLE(s[..1]) == s[0];
  }

  /** The discriminators of an accepted Variant are its bytes from the ninth on. */
  lemma VariantAccepted(ts: seq<Ty>, rows: nat, s: seq<byte>, c: Col, rest: seq<byte>)
    requires rows > 0 && DecodeTree(TVariant(ts, false), rows, s) == Ok((c, rest))
    ensures |s| >= 8 + rows && s[..8] == WORD0 && c.Variant? && |c.discriminators| == rows
    ensures forall i :: 0 <= i < rows ==> c.discriminators[i] == s[8 + i] && (s[8 + i] == 255 || s[8 + i] < |ts|)
  {
    hide ParseLE, LE, ParseDiscriminators, DecodeEach, Slots, Counts, AllStateless;
    Words();
    WordIs(s, 0);
    ReadBytes(rows, |ts|, [], s[8..]);
  }

  lemma {:induction false} ReadBytes(n: nat, numTypes: nat, ds: seq<nat>, s: seq<byte>)
    ensures var r := ParseDiscriminators(1, n, NULL_DISCRIMINATOR, numTypes, ds, s);
            r.Ok? ==>
              && |s| >= n && |r.value.0| == |ds| + n && r.value.0[..|ds|] == ds
              && forall i :: 0 <= i < n ==> r.value.0[|ds| + i] == s[i] && (s[i] == 255 || s[i] < numTypes)
  {
    hide FromLE;
    if n > 0 && s != [] {
      ByteWord(s);
      ReadBytes(n - 1, numTypes, ds + [s[0]], s[1..]);
      var r := ParseDiscriminators(1, n, NULL_DISCRIMINATOR, numTypes, ds, s);
      if r.Ok? {
        assert r.value.0[..|ds + [s[0]]|] == ds + [s[0]];
        assert r.value.0[|ds|] == s[0];
        forall i | 0 < i < n ensures r.value.0[|ds| + i] == s[i] && (s[i] == 255 || s[i] < numTypes) {
          assert r.value.0[|ds + [s[0]]| + (i - 1)] == s[1..][i - 1];
        }
      }
    }
  }

  /** A row of a decoded Variant is NULL exactly where its byte is 255. */
  lemma NullByte(ts: seq<Ty>, rows: nat, s: seq<byte>, c: Col, rest: seq<byte>, i: nat)
    requires i < rows && DecodeTree(TVariant(ts, false), rows, s) == Ok((c, rest)) && Valid(c)
    ensures |s| >= 8 + rows && RowCount(c) == rows
    ensures RowValue(c, i) == Null <==> s[8 + i] == 255
  {
    hide DecodeTree, CountOf;
    VariantAccepted(ts, rows, s, c, rest);
  }

  /** Rows that are all NULL are accepted at every list of element types, as long
      as each decodes without rows. */
  lemma AllNullBytes(ts: seq<Ty>, rows: nat, after: seq<byte>, columns: seq<Col>, rest: seq<byte>)
    requires rows > 0 && AllStateless(ts) && DecodeEach(ts, Same(|ts|, 0), after, []) == Ok((columns, rest))
    ensures var nulls: seq<byte> := seq(rows, _ => 255);
            var r := DecodeTree(TVariant(ts, false), rows, WORD0 + (nulls + after));
            && r.Ok? && r.value.1 == rest && r.value.0.Variant? && r.value.0.columns == columns
            && r.value.0.discriminators == seq(rows, _ => 255) && r.value.0.slots == seq(rows, _ => 0)
  {
    hide ParseLE, LE, ParseDiscriminators, DecodeEach, Slots, Counts, AllStateless;
    var nulls: seq<byte> := seq(rows, _ => 255);
    var s := WORD0 + (nulls + after);
    Words();
    WordIs(s, 0);
    assert s[..8] == WORD0 && s[8..] == nulls + after;
    ReadNulls(rows, |ts|, [], nulls + after);
    assert (nulls + after)[rows..] == after;
    NothingCounts(rows, |ts|);
  }

  lemma {:induction false} ReadNulls(n: nat, numTypes: nat, ds: seq<nat>, s: seq<byte>)
    requires n <= |s| && forall i :: 0 <= i < n ==> s[i] == 255
    ensures ParseDiscriminators(1, n, NULL_DISCRIMINATOR, numTypes, ds, s) == Ok((ds + seq(n, _ => 255), s[n..]))
  {
    hide FromLE;
    if n > 0 {
      ByteWord(s);
      ReadNulls(n - 1, numTypes, ds + [255], s[1..]);
      assert ds + [255] + seq(n - 1, _ => 255) == ds + seq(n, _ => 255);
      assert s[1..][n - 1..] == s[n..];
    } else {
      assert ds + seq(n, _ => 255) == ds;
    }
  }

  lemma NothingCounts(rows: nat, n: nat)
    ensures Counts([] + seq(rows, _ => 255), NULL_DISCRIMINATOR, n) == Same(n, 0)
    ensures Slots([] + seq(rows, _ => 255), NULL_DISCRIMINATOR) == seq(rows, _ => 0)
    ensures [] + seq(rows, _ => 255) == seq<nat>(rows, _ => 255)
  {
    hide CountOf;
    var ds := [] + seq(rows, _ => 255);
    forall d | 0 <= d < n && d != 255 ensures CountOf(ds, d) == 0 { CountNone(ds, d); }
  }

  lemma {:induction false} CountNone(ds: seq<nat>, d: nat)
    requires d !in ds
    ensures CountOf(ds, d) == 0
  {
    if ds != [] {
      CountNone(ds[..|ds| - 1], d);
    }
  }

  /** A Dynamic is version 3. */
  lemma DynamicRefused(rows: nat, s: seq<byte>)
    requires rows > 0
    ensures |s| < 8 ==> DecodeTree(TDynamic, rows, s) == Err(UnexpectedEof)
    ensures |s| >= 8 && s[..8] != WORD3 ==> DecodeTree(TDynamic, rows, s) == Err(Unsupported)
  {
    hide ParseLE, LE;
    Words();
    WordIs(s, 3);
  }

  /** And none of its runtime types is stateful. */
  lemma DynamicStateful(rows: nat, s: seq<byte>, num: nat, s2: seq<byte>, names: seq<string>, s3: seq<byte>, i: nat)
    requires rows > 0 && |s| >= 8 && s[..8] == WORD3 && ParseVarUInt(s[8..]) == Ok((num, s2))
    requires ParseStrings(num, [], s2) == Ok((names, s3)) && i < |names| && Stateful(names[i])
    ensures DecodeTree(TDynamic, rows, s) == Err(Unsupported)
  {
    hide ParseLE, LE, ParseVarUInt, ParseStrings, Stateful, ParseDiscriminators, DecodeEach;
    Words();
    WordIs(s, 3);
  }

  /** A fixed string column is refused when its size does not fit 64 bits. */
  lemma FixedRefused(n: nat, rows: nat, s: seq<byte>)
    ensures DecodeTree(TFixed(n), rows, s)
         == if n * rows >= 0x1_0000_0000_0000_0000 then Err(InvalidData)
            else if |s| < n * rows then Err(UnexpectedEof)
            else Ok((FixedStr(n, s[..n * rows]), s[n * rows..]))
  {
  }

  // ---- Frames ------------------------------------------------------------------------------

  /** A frame is 16 bytes of checksum, a method byte, the size of what follows the
      checksum, the size of the data, and the body. It is accepted exactly when
      the method is one of the three, the checksum is that of all the rest, and
      the body unpacks to as many bytes as it says. */
  lemma FrameAccepted(codec: Compressor, s: seq<byte>, data: seq<byte>, rest: seq<byte>)
    ensures ParseFrame(codec, s) == Ok((data, rest))
       <==> && |s| >= 25 && s[16] in {0x02, 0x82, 0x90}
            && var size := FromLE(s[17..21]);
               && 9 <= size && 16 + size <= |s| && rest == s[16 + size..]
               && codec.digest(s[16..16 + size]) == s[..16]
               && |data| == FromLE(s[21..25])
               && (s[16] == 0x02 ==> data == s[25..16 + size])
               && (s[16] == 0x82 ==> codec.decompress(Lz4, s[25..16 + size], |data|) == Some(data))
               && (s[16] == 0x90 ==> codec.decompress(Zstd, s[25..16 + size], |data|) == Some(data))
  {
    hide FromLE;
    if |s| >= 25 {
      FramePieces(s);
      var size := FromLE(s[17..21]);
      if 9 <= size && 16 + size <= |s| {
        FrameTail(s, size);
      }
    }
  }

  lemma FramePieces(s: seq<byte>)
    requires |s| >= 25
    ensures var h := s[16..][..9];
            h == s[16..25] && h[0] == s[16] && h[1..5] == s[17..21] && h[5..9] == s[21..25] && s[16..][9..] == s[25..]
  {
  }

  lemma FrameTail(s: seq<byte>, size: nat)
    requires 9 <= size && 16 + size <= |s|
    ensures s[25..][..size - 9] == s[25..16 + size] && s[25..][size - 9..] == s[16 + size..]
    ensures s[16..25] + s[25..16 + size] == s[16..16 + size]
  {
  }

  /** A wrong checksum, an unknown method or an impossible size is invalid data. */
  lemma FrameRefused(codec: Compressor, s: seq<byte>)
    ensures |s| < 25 ==> ParseFrame(codec, s) == Err(UnexpectedEof)
    ensures |s| >= 25 && s[16] !in {0x02, 0x82, 0x90} ==> ParseFrame(codec, s) == Err(InvalidData)
    ensures |s| >= 25 && FromLE(s[17..21]) < 9 ==> ParseFrame(codec, s) == Err(InvalidData)
    ensures (|s| >= 25 && 9 <= FromLE(s[17..21]) && 16 + FromLE(s[17..21]) <= |s|
             && codec.digest(s[16..16 + FromLE(s[17..21])]) != s[..16]) ==> ParseFrame(codec, s) == Err(InvalidData)
  {
    hide FromLE;
    if |s| >= 25 {
      FramePieces(s);
      var size := FromLE(s[17..21]);
      if 9 <= size && 16 + size <= |s| {
        FrameTail(s, size);
      }
    }
  }

  // ---- Column headers and block info ----------------------------------------------------------

  /** From protocol 54454 on a byte says whether a kind follows, and the kind is
      one byte. */
  lemma KindBytesRead(protocol: nat, s: seq<byte>)
    ensures ParseKind(protocol, s)
         == if protocol < 54454 then Ok((Dense, s))
            else if s == [] then Err(UnexpectedEof)
            else if s[0] == 0 then Ok((Dense, s[1..]))
            else if s[0] != 1 then Err(InvalidData)
            else if |s| == 1 then Err(UnexpectedEof)
            else Ok((Custom([s[1]]), s[2..]))
  {
    if |s| >= 2 {
      assert s[1..][..1] == [s[1]] && s[1..][1..] == s[2..];
    }
  }

  /** Kind 0 is dense, 1 sparse and 4 replicated; there is no other. */
  lemma KindsKnown(kind: byte, t: Ty, rows: nat, s: seq<byte>)
    ensures ParseData(Custom([kind]), t, rows, s)
         == match kind
            case 0 => DecodeTree(t, rows, s)
            case 1 => ParseSparse(t, rows, s)
            case 4 => ParseReplicated(t, rows, s)
            case _ => Err(Unsupported)
  {
    hide DecodeTree, ParseSparse, ParseReplicated;
    assert [kind][0] == kind;
  }

  /** A replicated column declares the rows it was asked for, and indexes of 1, 2,
      4 or 8 bytes. */
  lemma ReplicatedRefused(t: Ty, rows: nat, s: seq<byte>, declared: nat, s1: seq<byte>)
    requires ParseVarUInt(s) == Ok((declared, s1))
    ensures declared != rows ==> ParseReplicated(t, rows, s) == Err(InvalidData)
    ensures declared == rows > 0 && s1 != [] && s1[0] !in {1, 2, 4, 8} ==>
              ParseReplicated(t, rows, s) == Err(InvalidData)
  {
    hide ParseVarUInt, ParseLEs, DecodeTree, Replicate, ParseLE;
    if s1 != [] { ByteWord(s1); }
  }

  /** Without rows the index width is passed over. */
  lemma WidthIgnored(t: Ty, width: byte, rest: seq<byte>)
    ensures ParseReplicated(t, 0, [0, width] + rest) == ParseReplicated(t, 0, [0, 1] + rest)
  {
    hide ParseVarUInt, DecodeTree, Replicate, ParseLE;
    NoIndexes(width, rest);
    NoIndexes(1, rest);
  }

  lemma NoIndexes(width: byte, rest: seq<byte>)
    ensures ParseVarUInt([0, width] + rest) == Ok((0, [width] + rest))
    ensures ParseLE(1, [width] + rest) == Ok((width, rest)) && ParseLEs(width, 0, [], rest) == Ok(([], rest))
  {
    hide ParseVarUInt;
    assert Leb(0) == [0] && [0, width] + rest == Leb(0) + ([width] + rest);
    ParseVarUIntAppend(0, [width] + rest);
    ByteWord([width] + rest);
    assert ([width] + rest)[1..] == rest;
  }

  /** Block info is fields numbered 1, 2 and 3 up to a 0, with the bucket -1 where
      none is sent; any other number is invalid. */
  lemma InfoFields(s: seq<byte>, field: nat, s1: seq<byte>, info: Info)
    requires ParseVarUInt(s) == Ok((field, s1))
    ensures field == 0 ==> ParseInfo(info, s) == Ok((info, s1)) && NO_INFO == Info(false, -1, [])
    ensures field == 1 && s1 != [] ==> ParseInfo(info, s) == ParseInfo(info.(overflows := s1[0] != 0), s1[1..])
    ensures field == 2 && |s1| >= 4 ==>
              var bits := FromLE(s1[..4]);
              var bucket := if bits < 0x8000_0000 then bits else bits - 0x1_0000_0000;
              bits < 0x1_0000_0000 && ParseInfo(info, s) == ParseInfo(info.(bucket := bucket), s1[4..])
    ensures field > 3 ==> ParseInfo(info, s) == Err(InvalidData)
  {
    hide ParseVarUInt, ParseI32s, FromLE;
    I32Bound(s1);
  }

  /** Field 3 is a count and as many 32-bit bucket numbers. */
  lemma BucketsField(s: seq<byte>, s1: seq<byte>, count: nat, s2: seq<byte>, info: Info) returns (xs: seq<int32>)
    requires ParseVarUInt(s) == Ok((3, s1)) && ParseVarUInt(s1) == Ok((count, s2))
    ensures |s2| < 4 * count ==> ParseInfo(info, s) == Err(UnexpectedEof)
    ensures |s2| >= 4 * count ==>
              && |xs| == count && ParseInfo(info, s) == ParseInfo(info.(buckets := xs), s2[4 * count..])
              && forall i :: 0 <= i < count ==> I32Bits(xs[i]) == FromLE(s2[4 * i..4 * i + 4])
  {
    hide ParseVarUInt, ParseI32, FromLE, ParseInfo;
    xs := [];
    BucketNumbers(count, [], s2);
    InfoBuckets(s, s1, count, s2, info);
    if |s2| >= 4 * count {
      xs := ParseI32s(count, [], s2).value.0;
      forall i | 0 <= i < count ensures I32Bits(xs[i]) == FromLE(s2[4 * i..4 * i + 4]) {
        BucketAt(count, [], s2, i);
      }
    }
  }

  lemma InfoBuckets(s: seq<byte>, s1: seq<byte>, count: nat, s2: seq<byte>, info: Info)
    requires ParseVarUInt(s) == Ok((3, s1)) && ParseVarUInt(s1) == Ok((count, s2))
    ensures var r := ParseI32s(count, [], s2);
            && (r.Ok? ==> ParseInfo(info, s) == ParseInfo(info.(buckets := r.value.0), r.value.1))
            && (r.Err? ==> ParseInfo(info, s) == Err(r.error))
  {
    hide ParseVarUInt, ParseI32, ParseI32s;
    I32sShrink(count, [], s2);
  }

  lemma {:induction false} BucketNumbers(n: nat, v: seq<int32>, s: seq<byte>)
    ensures |s| < 4 * n ==> ParseI32s(n, v, s) == Err(UnexpectedEof)
    ensures |s| >= 4 * n ==>
              && ParseI32s(n, v, s).Ok? && ParseI32s(n, v, s).value.1 == s[4 * n..]
              && |ParseI32s(n, v, s).value.0| == |v| + n && ParseI32s(n, v, s).value.0[..|v|] == v
  {
    hide FromLE, I32Bits;
    if n > 0 {
      BucketNumber(s);
      if |s| >= 4 {
        var x := ParseI32(s).value.0;
        BucketNumbers(n - 1, v + [x], s[4..]);
        if |s| >= 4 * n {
          var xs := ParseI32s(n, v, s).value.0;
          assert s[4..][4 * (n - 1)..] == s[4 * n..];
          assert xs[..|v| + 1] == v + [x] && xs[..|v| + 1][..|v|] == xs[..|v|];
        }
      }
    } else {
      assert s[0..] == s && v[..|v|] == v;
    }
  }

  lemma {:induction false} BucketAt(n: nat, v: seq<int32>, s: seq<byte>, i: nat)
    requires |s| >= 4 * n && i < n
    ensures ParseI32s(n, v, s).Ok? && |ParseI32s(n, v, s).value.0| == |v| + n
    ensures I32Bits(ParseI32s(n, v, s).value.0[|v| + i]) == FromLE(s[4 * i..4 * i + 4])
  {
    hide FromLE, I32Bits;
    BucketNumbers(n, v, s);
    BucketNumber(s);
    var x := ParseI32(s).value.0;
    var xs := ParseI32s(n, v, s).value.0;
    if i == 0 {
      BucketNumbers(n - 1, v + [x], s[4..]);
      assert xs[..|v| + 1] == v + [x];
      assert xs[|v|] == xs[..|v| + 1][|v|] == x && s[0..4] == s[..4];
    } else {
      BucketAt(n - 1, v + [x], s[4..], i - 1);
      assert |v + [x]| + (i - 1) == |v| + i;
      assert s[4..][4 * (i - 1)..4 * (i - 1) + 4] == s[4 * i..4 * i + 4];
    }
  }

  lemma BucketNumber(s: seq<byte>)
    ensures |s| < 4 ==> ParseI32(s) == Err(UnexpectedEof)
    ensures |s| >= 4 ==>
              && ParseI32(s).Ok? && ParseI32(s).value.1 == s[4..]
              && I32Bits(ParseI32(s).value.0) == FromLE(s[..4])
  {
    hide FromLE, I32Bits;
    I32Bound(s);
  }

  /** The info a client sends, byte by byte. */
  lemma InfoBytes(info: Info)
    ensures EncodeInfo(info)
         == [1, if info.overflows then 1 else 0, 2]
            + LE(4, if info.bucket < 0 then info.bucket + 0x1_0000_0000 else info.bucket) + [0]
  {
    hide LE;
    assert Leb(1) == [1] && Leb(2) == [2] && Leb(0) == [0];
  }

  /** A block is its info, from protocol 51903 on, the number of columns, the
      number of rows, and the columns. */
  lemma BlockBytes(b: Block, protocol: nat)
    requires b.info.Some?
    ensures EncodeBlock(b, protocol)
         == (if protocol >= 51903 then EncodeInfo(b.info.value) else [])
            + Leb(|b.columns|) + Leb(b.rows) + EncodeEntries(b.columns, protocol)
  {
    hide Leb, EncodeInfo, EncodeEntries;
  }

  /** A column of a block is its name, its type, from protocol 54454 on the kind,
      and the data. */
  lemma EntryBytes(e: Entry, protocol: nat)
    requires Valid(e.data)
    ensures EncodeEntry(e, protocol)
         == EncodeString(e.name) + EncodeString(e.dataType)
            + (if protocol < 54454 then []
               else if e.serialization == Dense then [0] else [1] + e.serialization.kindStack)
            + Encode(e.data)
  {
    hide EncodeString, Encode, Valid;
  }

  /** The client compresses with LZ4: the byte behind the checksum of a compressed
      packet's block is 0x82. */
  lemma PacketMethod(p: Packet, protocol: nat, codec: Compressor)
    requires codec.Lossless()
    ensures var s := PacketBytes(p, protocol, true, codec);
            var head := Leb(p.code) + EncodeString(p.table);
            head <= s && |s| >= |head| + 25 && s[|head| + 16] == 0x82
    ensures PacketBytes(p, protocol, false, codec)
         == Leb(p.code) + EncodeString(p.table) + EncodeBlock(p.block, protocol)
  {
    hide Leb, EncodeString, EncodeBlock, Compressor.Body, LE;
    var head := Leb(p.code) + EncodeString(p.table);
    var data := EncodeBlock(p.block, protocol);
    var body := codec.Body(Lz4, data);
    var covered := Header(Lz4, |body|, |data|) + body;
    assert PacketBytes(p, protocol, true, codec) == head + EncodeFrame(codec, Lz4, data);
    assert EncodeFrame(codec, Lz4, data) == codec.digest(covered) + covered;
    assert covered[0] == 0x82;
  }
}
