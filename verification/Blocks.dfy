/** src/proto/block.rs: a block is its info, its counts and its columns. */
module Blocks {
  import opened Base
  import opened Wire
  import opened Chunked
  import opened Compression
  import opened ByteIO
  import opened Column
  import opened Kinds

  const BLOCK_INFO: nat := 51903

  // ---- Block info -------------------------------------------------------------------

  type int32 = x: int | -0x8000_0000 <= x < 0x8000_0000

  function I32Bits(v: int32): (n: nat)
    ensures n < U32_BOUND
  {
    if v < 0 then v + U32_BOUND else v
  }

  function I32Of(n: nat): (v: int32)
    requires n < U32_BOUND
    ensures I32Bits(v) == n
  {
    if n < 0x8000_0000 then n else n - U32_BOUND
  }

  datatype Info = Info(overflows: bool, bucket: int32, buckets: seq<int32>)

  const NO_INFO := Info(false, -1, [])

  function EncodeInfo(info: Info): seq<byte> {
    Leb(1) + ([if info.overflows then 1 else 0] + (Leb(2) + (LE(4, I32Bits(info.bucket)) + Leb(0))))
  }

  method WriteInfo(info: Info, w: ByteWriter)
    requires w.Valid()
    modifies w.Repr()
    ensures w.State() == old(w.State()).Plus(EncodeInfo(info))
  {
    hide Out.Plus, ByteWriter.State, ByteWriter.Valid, Leb, LE;
    ghost var o := w.State();
    ghost var flag := [if info.overflows then 1 else 0];
    ghost var bucket := LE(4, I32Bits(info.bucket));
    w.WriteVarUInt(1);
    w.Write([if info.overflows then 1 else 0]);
    w.WriteVarUInt(2);
    w.WriteLE(4, I32Bits(info.bucket));
    w.WriteVarUInt(0);
    PlusPlus(o.Plus(Leb(1)).Plus(flag).Plus(Leb(2)), bucket, Leb(0));
    PlusPlus(o.Plus(Leb(1)).Plus(flag), Leb(2), bucket + Leb(0));
    PlusPlus(o.Plus(Leb(1)), flag, Leb(2) + (bucket + Leb(0)));
    PlusPlus(o, Leb(1), flag + (Leb(2) + (bucket + Leb(0))));
  }

  function ParseI32(s: seq<byte>): Parsed<int32> {
    var (n, rest) :- ParseLE(4, s);
    I32Bound(s);
    Ok((I32Of(n), rest))
  }

  lemma I32Bound(s: seq<byte>)
    ensures ParseLE(4, s).Ok? ==> ParseLE(4, s).value.0 < U32_BOUND
  {
    hide Pow256;
    Pow256Values();
    ParseLEBound(4, s);
  }

  function ParseI32s(n: nat, v: seq<int32>, s: seq<byte>): Parsed<seq<int32>> {
    if n == 0 then Ok((v, s))
    else
      var (x, rest) :- ParseI32(s);
      ParseI32s(n - 1, v + [x], rest)
  }

  /** Fields in any order and any number of times, up to the end marker. */
  function ParseInfo(info: Info, s: seq<byte>): Parsed<Info>
    decreases |s|
  {
    var (field, s1) :- ParseVarUInt(s);
    if field == 0 then Ok((info, s1))
    else if field == 1 then
      var (b, s2) :- Take(1, s1);
      ParseInfo(info.(overflows := b[0] != 0), s2)
    else if field == 2 then
      var (x, s2) :- ParseI32(s1);
      ParseInfo(info.(bucket := x), s2)
    else if field == 3 then
      var (count, s2) :- ParseVarUInt(s1);
      var (xs, s3) :- ParseI32s(count, [], s2);
      I32sShrink(count, [], s2);
      ParseInfo(info.(buckets := xs), s3)
    else Err(InvalidData)
  }

  lemma {:induction false} I32sShrink(n: nat, v: seq<int32>, s: seq<byte>)
    ensures ParseI32s(n, v, s).Ok? ==> |ParseI32s(n, v, s).value.1| <= |s|
  {
    hide FromLE;
    if n > 0 {
      match ParseI32(s)
      case Ok((x, rest)) => I32sShrink(n - 1, v + [x], rest);
      case Err(_) =>
    }
  }

  method ReadI32(r: ByteReader) returns (res: Result<int32>)
    requires r.Valid()
    modifies r.Repr()
    ensures r.Delivers(res, ParseI32(old(r.rest)))
  {
    hide Inflate, Advance, Deframe, ByteReader.Valid, ParseLE;
    ghost var s := r.rest;
    var n := r.ReadLE(4);
    if n.Err? {
      return Err(n.error);
    }
    I32Bound(s);
    res := Ok(I32Of(n.value));
  }

  method ReadI32s(r: ByteReader, n: nat) returns (res: Result<seq<int32>>)
    requires r.Valid()
    modifies r.Repr()
    ensures r.Delivers(res, ParseI32s(n, [], old(r.rest)))
  {
    hide Inflate, Advance, Deframe, ByteReader.Valid, ParseI32;
    ghost var goal := ParseI32s(n, [], r.rest);
    var v: seq<int32>, i := [], 0;
    while i < n
      invariant i <= n && r.Valid()
      invariant ParseI32s(n - i, v, r.rest) == goal
    {
      var x := ReadI32(r);
      if x.Err? {
        return Err(x.error);
      }
      v, i := v + [x.value], i + 1;
    }
    res := Ok(v);
  }

  method ReadInfo(r: ByteReader) returns (res: Result<Info>)
    requires r.Valid()
    modifies r.Repr()
    ensures r.Delivers(res, ParseInfo(NO_INFO, old(r.rest)))
  {
    hide Inflate, Advance, Deframe, ByteReader.Valid, ParseVarUInt, ParseI32, ParseI32s, Take;
    ghost var goal := ParseInfo(NO_INFO, r.rest);
    var info := NO_INFO;
    while true
      invariant r.Valid() && ParseInfo(info, r.rest) == goal
      decreases |r.rest|
    {
      var field := r.ReadVarUInt();
      if field.Err? {
        return Err(field.error);
      }
      ghost var s1 := r.rest;
      match field.value
      case 0 => return Ok(info);
      case 1 =>
        var b := r.ReadExact(1);
        if b.Err? { return Err(b.error); }
        TakeShrinks(1, s1);
        info := info.(overflows := b.value[0] != 0);
      case 2 =>
        var x := ReadI32(r);
        if x.Err? { return Err(x.error); }
        I32Shrinks(s1);
        info := info.(bucket := x.value);
      case 3 =>
        var count := r.ReadVarUInt();
        if count.Err? { return Err(count.error); }
        ghost var s2 := r.rest;
        var xs := ReadI32s(r, count.value);
        if xs.Err? { return Err(xs.error); }
        I32sShrink(count.value, [], s2);
        info := info.(buckets := xs.value);
      case _ => return Err(InvalidData);
    }
  }

  lemma TakeShrinks(n: nat, s: seq<byte>)
    ensures Take(n, s).Ok? ==> |Take(n, s).value.1| <= |s| && |Take(n, s).value.0| == n
  {
  }

  lemma I32Shrinks(s: seq<byte>)
    ensures ParseI32(s).Ok? ==> |ParseI32(s).value.1| <= |s|
  {
    hide FromLE;
  }

  /** Everything but the delayed buckets, which the writer never sends. */
  lemma InfoReadBack(info: Info, rest: seq<byte>)
    ensures ParseInfo(NO_INFO, EncodeInfo(info) + rest) == Ok((info.(buckets := []), rest))
    ensures ParseInfo(NO_INFO, EncodeInfo(info) + rest) == Ok((info, rest)) <==> info.buckets == []
  {
    hide Leb, LE, ParseVarUInt, ParseI32, ParseInfo;
    var flag: seq<byte>, bucket := [if info.overflows then 1 else 0], LE(4, I32Bits(info.bucket));
    var s4 := Leb(0) + rest;
    var s3 := Leb(2) + (bucket + s4);
    assert EncodeInfo(info) + rest == Leb(1) + (flag + s3);
    ParseVarUIntAppend(1, flag + s3);
    TakeAppend(flag, s3);
    InfoStep(NO_INFO, Leb(1) + (flag + s3));
    var flagged := NO_INFO.(overflows := info.overflows);
    ParseVarUIntAppend(2, bucket + s4);
    I32ReadBack(info.bucket, s4);
    InfoStep(flagged, s3);
    ParseVarUIntAppend(0, rest);
    InfoStep(flagged.(bucket := info.bucket), s4);
  }

  lemma I32ReadBack(v: int32, rest: seq<byte>)
    ensures ParseI32(LE(4, I32Bits(v)) + rest) == Ok((v, rest))
  {
    hide LE, ParseLE, Pow256;
    Pow256Values();
    ParseLEAppend(4, I32Bits(v), rest);
  }

  /** One field. */
  lemma InfoStep(info: Info, s: seq<byte>)
    ensures ParseVarUInt(s).Ok? ==>
              var (field, s1) := ParseVarUInt(s).value;
              && (field == 0 ==> ParseInfo(info, s) == Ok((info, s1)))
              && (field == 1 && Take(1, s1).Ok? ==>
                    var (b, s2) := Take(1, s1).value;
                    ParseInfo(info, s) == ParseInfo(info.(overflows := b[0] != 0), s2))
              && (field == 2 && ParseI32(s1).Ok? ==>
                    var (x, s2) := ParseI32(s1).value;
                    ParseInfo(info, s) == ParseInfo(info.(bucket := x), s2))
  {
    hide ParseVarUInt, ParseI32, ParseI32s;
  }

  lemma BucketsStep(info: Info, s: seq<byte>, s1: seq<byte>, count: nat, s2: seq<byte>, xs: seq<int32>, s3: seq<byte>)
    requires ParseVarUInt(s) == Ok((3, s1)) && ParseVarUInt(s1) == Ok((count, s2))
    requires ParseI32s(count, [], s2) == Ok((xs, s3))
    ensures ParseInfo(info, s) == ParseInfo(info.(buckets := xs), s3)
  {
    hide ParseVarUInt, ParseI32, ParseI32s;
    I32sShrink(count, [], s2);
  }

  // ---- Block info as a server sends it ---------------------------------------------------

  function AllBits(xs: seq<int32>): seq<nat> {
    seq(|xs|, i requires 0 <= i < |xs| => I32Bits(xs[i]))
  }

  /** With the delayed buckets, which only servers send. */
  function ServerInfo(info: Info): seq<byte> {
    Leb(1) + ([if info.overflows then 1 else 0] + (Leb(2) + (LE(4, I32Bits(info.bucket))
    + (Leb(3) + (Leb(|info.buckets|) + (LEs(4, AllBits(info.buckets)) + Leb(0)))))))
  }

  lemma {:induction false} I32sReadBack(xs: seq<int32>, v: seq<int32>, rest: seq<byte>)
    ensures ParseI32s(|xs|, v, LEs(4, AllBits(xs)) + rest) == Ok((v + xs, rest))
  {
    hide LE, ParseI32, I32Bits;
    if xs == [] {
      assert LEs(4, AllBits(xs)) + rest == rest && v + xs == v;
    } else {
      var more := LEs(4, AllBits(xs[1..])) + rest;
      assert AllBits(xs)[1..] == AllBits(xs[1..]);
      assert LEs(4, AllBits(xs)) + rest == LE(4, I32Bits(xs[0])) + more;
      I32ReadBack(xs[0], more);
      I32sReadBack(xs[1..], v + [xs[0]], rest);
      assert v + [xs[0]] + xs[1..] == v + xs;
    }
  }

  /** What a server says is read in full. */
  lemma ServerInfoReadBack(info: Info, rest: seq<byte>)
    requires |info.buckets| < U64_BOUND
    ensures ParseInfo(NO_INFO, ServerInfo(info) + rest) == Ok((info, rest))
  {
    hide Leb, LE, LEs, AllBits, ParseVarUInt, ParseI32, ParseI32s, ParseInfo;
    var flag: seq<byte> := [if info.overflows then 1 else 0];
    var bucket, buckets := LE(4, I32Bits(info.bucket)), LEs(4, AllBits(info.buckets));
    var s7 := Leb(0) + rest;
    var s6 := buckets + s7;
    var s5 := Leb(|info.buckets|) + s6;
    var s4 := Leb(3) + s5;
    var s3 := Leb(2) + (bucket + s4);
    var s := Leb(1) + (flag + s3);
    assert ServerInfo(info) + rest == s;
    ParseVarUIntAppend(1, flag + s3);
    TakeAppend(flag, s3);
    InfoStep(NO_INFO, s);
    var one := NO_INFO.(overflows := info.overflows);
    ParseVarUIntAppend(2, bucket + s4);
    I32ReadBack(info.bucket, s4);
    InfoStep(one, s3);
    var two := one.(bucket := info.bucket);
    ParseVarUIntAppend(3, s5);
    ParseVarUIntAppend(|info.buckets|, s6);
    I32sReadBack(info.buckets, [], s7);
    assert [] + info.buckets == info.buckets;
    BucketsStep(two, s4, s5, |info.buckets|, s6, info.buckets, s7);
    ParseVarUIntAppend(0, rest);
    InfoStep(info, s7);
  }

  // ---- Blocks -----------------------------------------------------------------------------

  datatype Block = Block(info: Option<Info>, columns: seq<Entry>, rows: nat)

  function EncodeEntries(es: seq<Entry>, protocol: nat): seq<byte> {
    if es == [] then []
    else EncodeEntry(es[0], protocol) + if Valid(es[0].data) then EncodeEntries(es[1..], protocol) else []
  }

  predicate InfoOk(b: Block, protocol: nat) {
    protocol >= BLOCK_INFO ==> b.info.Some?
  }

  /** The bytes written for a block: nothing when its info is missing, and no
      more columns after one that is not valid. */
  function EncodeBlock(b: Block, protocol: nat): seq<byte> {
    if !InfoOk(b, protocol) then []
    else
      (if protocol >= BLOCK_INFO then EncodeInfo(b.info.value) else [])
      + (Leb(|b.columns|) + (Leb(b.rows) + EncodeEntries(b.columns, protocol)))
  }

  predicate Encodable(b: Block, protocol: nat) {
    InfoOk(b, protocol) && forall i :: 0 <= i < |b.columns| ==> Valid(b.columns[i].data)
  }

  method WriteBlock(b: Block, protocol: nat, w: ByteWriter) returns (ok: bool)
    requires w.Valid()
    modifies w.Repr()
    ensures ok == Encodable(b, protocol)
    ensures w.State() == old(w.State()).Plus(EncodeBlock(b, protocol))
  {
    hide Out.Plus, ByteWriter.State, ByteWriter.Valid, Leb, EncodeInfo, EncodeEntries, Valid;
    ghost var o := w.State();
    PlusNothing(o);
    ghost var info: seq<byte> := [];
    if protocol >= BLOCK_INFO {
      if b.info.None? {
        return false;
      }
      WriteInfo(b.info.value, w);
      info := EncodeInfo(b.info.value);
    }
    w.WriteVarUInt(|b.columns|);
    w.WriteVarUInt(b.rows);
    ok := WriteEntries(b.columns, protocol, w);
    ghost var body := EncodeEntries(b.columns, protocol);
    PlusPlus(o.Plus(info).Plus(Leb(|b.columns|)), Leb(b.rows), body);
    PlusPlus(o.Plus(info), Leb(|b.columns|), Leb(b.rows) + body);
    PlusPlus(o, info, Leb(|b.columns|) + (Leb(b.rows) + body));
  }

  method WriteEntries(es: seq<Entry>, protocol: nat, w: ByteWriter) returns (ok: bool)
    requires w.Valid()
    modifies w.Repr()
    ensures ok == forall i :: 0 <= i < |es| ==> Valid(es[i].data)
    ensures w.State() == old(w.State()).Plus(EncodeEntries(es, protocol))
  {
    hide Out.Plus, ByteWriter.State, ByteWriter.Valid, EncodeEntry, Valid;
    ghost var o, done := w.State(), [];
    PlusNothing(o);
    for i := 0 to |es|
      invariant w.State() == o.Plus(done)
      invariant done + EncodeEntries(es[i..], protocol) == EncodeEntries(es, protocol)
      invariant forall k :: 0 <= k < i ==> Valid(es[k].data)
    {
      ghost var piece, others := EncodeEntry(es[i], protocol), EncodeEntries(es[i + 1..], protocol);
      assert es[i..][1..] == es[i + 1..];
      ok := WriteEntry(es[i], protocol, w);
      PlusPlus(o, done, piece);
      if !ok {
        assert done + (piece + []) == done + piece;
        return;
      }
      assert done + (piece + others) == done + piece + others;
      done := done + piece;
    }
    assert done == EncodeEntries(es, protocol);
    ok := true;
  }

  function ParseEntries(n: nat, rows: nat, protocol: nat, es: seq<Entry>, s: seq<byte>): Parsed<seq<Entry>> {
    if n == 0 then Ok((es, s))
    else
      var (e, rest) :- ParseEntry(rows, protocol, s);
      ParseEntries(n - 1, rows, protocol, es + [e], rest)
  }

  function ParseInfoIf(protocol: nat, s: seq<byte>): Parsed<Option<Info>> {
    if protocol < BLOCK_INFO then Ok((None, s))
    else
      var (info, rest) :- ParseInfo(NO_INFO, s);
      Ok((Some(info), rest))
  }

  function ParseBlock(protocol: nat, s: seq<byte>): Parsed<Block> {
    var (info, s1) :- ParseInfoIf(protocol, s);
    var (n, s2) :- ParseVarUInt(s1);
    var (rows, s3) :- ParseVarUInt(s2);
    var (es, rest) :- ParseEntries(n, rows, protocol, [], s3);
    Ok((Block(info, es, rows), rest))
  }

  method ReadBlock(r: ByteReader, protocol: nat) returns (res: Result<Block>)
    requires r.Valid()
    modifies r.Repr()
    ensures r.Delivers(res, ParseBlock(protocol, old(r.rest)))
  {
    hide Inflate, Advance, Deframe, ByteReader.Valid, ParseVarUInt, ParseInfo, ParseEntry;
    var info: Option<Info> := None;
    if protocol >= BLOCK_INFO {
      var i := ReadInfo(r);
      if i.Err? {
        return Err(i.error);
      }
      info := Some(i.value);
    }
    var n := r.ReadVarUInt();
    if n.Err? {
      return Err(n.error);
    }
    var rows := r.ReadVarUInt();
    if rows.Err? {
      return Err(rows.error);
    }
    if n.value == 0 {
      return Ok(Block(info, [], rows.value));
    }
    var es := ReadEntries(r, n.value, rows.value, protocol);
    res := if es.Err? then Err(es.error) else Ok(Block(info, es.value, rows.value));
  }

  method ReadEntries(r: ByteReader, n: nat, rows: nat, protocol: nat) returns (res: Result<seq<Entry>>)
    requires r.Valid()
    modifies r.Repr()
    ensures r.Delivers(res, ParseEntries(n, rows, protocol, [], old(r.rest)))
  {
    hide Inflate, Advance, Deframe, ByteReader.Valid, ParseEntry;
    ghost var goal := ParseEntries(n, rows, protocol, [], r.rest);
    var es: seq<Entry>, i := [], 0;
    while i < n
      invariant i <= n && r.Valid()
      invariant ParseEntries(n - i, rows, protocol, es, r.rest) == goal
    {
      var e := ReadEntry(r, rows, protocol);
      if e.Err? {
        return Err(e.error);
      }
      es, i := es + [e.value], i + 1;
    }
    res := Ok(es);
  }

  // ---- Round trip ------------------------------------------------------------------------

  /** A block both ends agree on: every column has the block's row count and can
      be sent, and no buckets are delayed. */
  predicate BlockSendable(b: Block, protocol: nat) {
    && |b.columns| < U64_BOUND && b.rows < U64_BOUND
    && (if protocol >= BLOCK_INFO then b.info.Some? && b.info.value.buckets == [] else b.info.None?)
    && forall i :: 0 <= i < |b.columns| ==> Sendable(b.columns[i], protocol) && RowCount(b.columns[i].data) == b.rows
  }

  lemma BlockReadBack(b: Block, protocol: nat, rest: seq<byte>)
    requires BlockSendable(b, protocol)
    ensures Encodable(b, protocol)
    ensures ParseBlock(protocol, EncodeBlock(b, protocol) + rest) == Ok((b, rest))
  {
    hide Leb, ParseVarUInt, ParseInfo, EncodeInfo, EncodeEntries, ParseEntries, RowCount, Sendable;
    EntriesValid(b.columns, protocol);
    var s3 := EncodeEntries(b.columns, protocol) + rest;
    var s2 := Leb(b.rows) + s3;
    var s1 := Leb(|b.columns|) + s2;
    if protocol >= BLOCK_INFO {
      assert EncodeBlock(b, protocol) + rest == EncodeInfo(b.info.value) + s1;
      InfoReadBack(b.info.value, s1);
    } else {
      assert EncodeBlock(b, protocol) + rest == s1;
    }
    ParseVarUIntAppend(|b.columns|, s2);
    ParseVarUIntAppend(b.rows, s3);
    EntriesReadBack(b.columns, b.rows, protocol, [], rest);
    assert [] + b.columns == b.columns;
  }

  lemma EntriesValid(es: seq<Entry>, protocol: nat)
    requires forall i :: 0 <= i < |es| ==> Sendable(es[i], protocol)
    ensures forall i :: 0 <= i < |es| ==> Valid(es[i].data)
  {
  }

  lemma {:induction false} EntriesReadBack(es: seq<Entry>, rows: nat, protocol: nat, done: seq<Entry>, rest: seq<byte>)
    requires forall i :: 0 <= i < |es| ==> Sendable(es[i], protocol) && RowCount(es[i].data) == rows
    ensures ParseEntries(|es|, rows, protocol, done, EncodeEntries(es, protocol) + rest) == Ok((done + es, rest))
  {
    hide Sendable, RowCount, EncodeEntry, ParseEntry, Valid;
    EntriesValid(es, protocol);
    if es == [] {
      assert EncodeEntries(es, protocol) + rest == rest && done + es == done;
    } else {
      var others := EncodeEntries(es[1..], protocol) + rest;
      assert EncodeEntries(es, protocol) + rest == EncodeEntry(es[0], protocol) + others;
      EntryReadBack(es[0], protocol, others);
      EntriesReadBack(es[1..], rows, protocol, done + [es[0]], rest);
      assert done + [es[0]] + es[1..] == done + es;
    }
  }

  // ---- Where a writer stops -------------------------------------------------------------------

  lemma {:induction false} EntriesAppend(es: seq<Entry>, more: seq<Entry>, protocol: nat)
    requires forall i :: 0 <= i < |es| ==> Valid(es[i].data)
    ensures EncodeEntries(es + more, protocol) == EncodeEntries(es, protocol) + EncodeEntries(more, protocol)
  {
    hide EncodeEntry, Valid;
    if es == [] {
      assert es + more == more;
    } else {
      assert (es + more)[1..] == es[1..] + more;
      EntriesAppend(es[1..], more, protocol);
      Associate(EncodeEntry(es[0], protocol), EncodeEntries(es[1..], protocol), EncodeEntries(more, protocol));
    }
  }

  /** The header of the first column that is not valid is the last thing written,
      and without the info its protocol asks for nothing is. */
  lemma WriterStops(info: Option<Info>, es: seq<Entry>, bad: Entry, more: seq<Entry>, rows: nat, protocol: nat)
    requires (forall i :: 0 <= i < |es| ==> Valid(es[i].data)) && !Valid(bad.data)
    ensures EncodeEntries(es + ([bad] + more), protocol) == EncodeEntries(es, protocol) + EntryHeader(bad, protocol)
    ensures !Encodable(Block(info, es + ([bad] + more), rows), protocol)
    ensures info.None? && protocol >= 51903 ==>
              EncodeBlock(Block(info, es, rows), protocol) == [] && !Encodable(Block(info, es, rows), protocol)
  {
    hide EntryHeader, Valid, EncodeInfo, Leb;
    EntriesAppend(es, [bad] + more, protocol);
    assert ([bad] + more)[0] == bad;
    assert (es + ([bad] + more))[|es|] == bad;
    hide EncodeEntries;
    assert EncodeEntry(bad, protocol) + [] == EntryHeader(bad, protocol);
  }
}
