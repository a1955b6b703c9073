/** Which blocks come back: the writer never compares a block's row count with
    its columns, the reader gives every column that count. */
module BlocksExact {
  import opened Base
  import opened Wire
  import opened ByteIO
  import opened Column
  import opened TypeTree
  import opened TypePrint
  import opened TypeRefinement
  import opened Codec
  import opened CodecRoundTrip
  import opened CodecSound
  import opened Decoded
  import opened HighBytes
  import opened Kinds
  import opened KindsSound
  import opened KindsExact
  import opened Blocks

  /** A column as Rust holds it, of a plain type, under any mark but the
      replicated one. */
  predicate PlainStorable(e: Entry, protocol: nat) {
    && Storable(e) && PlainType(TypeOf(e.dataType)) && PlainRuntime(e.data)
    && (protocol >= CUSTOM_SERIALIZATION ==> e.serialization != Custom([4]))
  }

  /** What the writer takes. */
  predicate Writable(b: Block, protocol: nat) {
    && |b.columns| < U64_BOUND && b.rows < U64_BOUND && InfoOk(b, protocol)
    && forall i :: 0 <= i < |b.columns| ==> PlainStorable(b.columns[i], protocol)
  }

  predicate AllSendable(es: seq<Entry>, rows: nat, protocol: nat) {
    forall i :: 0 <= i < |es| ==> Sendable(es[i], protocol) && RowCount(es[i].data) == rows
  }

  // ---- One column ------------------------------------------------------------------------

  lemma KindSpelled(protocol: nat, s: seq<byte>)
    ensures var r := ParseKind(protocol, s);
            r.Ok? ==>
              && s == KindBytes(r.value.0, protocol) + r.value.1
              && (r.value.0.Custom? ==> protocol >= CUSTOM_SERIALIZATION && |r.value.0.kindStack| == 1)
  {
  }

  /** Whatever its bytes, a column read back has the rows asked for, used up the
      high bytes it is written with, and would survive unless it came sparse; then
      it used up more. */
  lemma EntryDecoded(rows: nat, protocol: nat, s: seq<byte>, e: Entry, rest: seq<byte>)
    requires ParseEntry(rows, protocol, s) == Ok((e, rest)) && PlainStorable(e, protocol)
    ensures RowCount(e.data) == rows
    ensures High(EncodeEntry(e, protocol)) + High(rest) <= High(s)
    ensures Sendable(e, protocol) || High(EncodeEntry(e, protocol)) + High(rest) < High(s)
  {
    hide RustString, TypeOf, WellTyped, Valid, Fits, Canonical, Encode, DecodeTree, EncodeString, ParseString, High;
    hide RowCount, ParseKind, KindBytes, ParseSparse, ParseReplicated, Unbarred, Routed, PlainType, PlainRuntime;
    var (_, s1) := ParseString(s).value;
    var (_, s2) := ParseString(s1).value;
    var (ser, s3) := ParseKind(protocol, s2).value;
    var t := TypeOf(e.dataType);
    EntryDecodedIsValid(rows, protocol, s, e, rest);
    StringHigh(s);
    StringHigh(s1);
    KindSpelled(protocol, s2);
    HeaderHigh(e, protocol, Encode(e.data));
    HighAppend(KindBytes(ser, protocol), s3);
    var data := ParseData(ser, t, rows, s3);
    assert data.Ok? && e == Entry(e.name, e.dataType, ser, data.value.0) && rest == data.value.1;
    if KindKept(ser, protocol) {
      DenseDecoded(t, rows, s3, e.data, rest);
    } else {
      SparseHigh(t, rows, s3, e.data, rest);
    }
  }

  lemma HeaderHigh(e: Entry, protocol: nat, body: seq<byte>)
    ensures High(EntryHeader(e, protocol) + body)
         == High(EncodeString(e.name)) + High(EncodeString(e.dataType)) + High(KindBytes(e.serialization, protocol))
            + High(body)
  {
    hide EncodeString, KindBytes, High;
    var kinds := KindBytes(e.serialization, protocol);
    HighAppend(EntryHeader(e, protocol), body);
    HighAppend(EncodeString(e.name), EncodeString(e.dataType) + kinds);
    HighAppend(EncodeString(e.dataType), kinds);
  }

  lemma DenseDecoded(t: Ty, rows: nat, s: seq<byte>, c: Col, rest: seq<byte>)
    requires PlainType(t) && PlainRuntime(c) && DecodeTree(t, rows, s) == Ok((c, rest))
    ensures Fits(c) && Canonical(c) && Routed(c) && Unbarred(t)
    ensures High(Encode(c)) + High(rest) <= High(s)
  {
    hide DecodeTree, PlainType, PlainRuntime, Fits, Canonical, Routed, Unbarred, High, Encode, NoDictionary, Guarded;
    hide WellTyped, Valid, RowCount, Bare, Own;
    PlainNoDictionary(t);
    DecodeHigh(t, rows, s);
    DecodedIsSound(t, rows, s);
    PlainGuarded(c, t, rows);
    if !Unbarred(t) { BarredFails(t, rows, s); }
  }

  // ---- All columns -------------------------------------------------------------------------

  lemma {:induction false} EntriesKept(n: nat, rows: nat, protocol: nat, done: seq<Entry>, s: seq<byte>)
    ensures var r := ParseEntries(n, rows, protocol, done, s); r.Ok? ==> done <= r.value.0
  {
    hide ParseEntry;
    if n > 0 {
      match ParseEntry(rows, protocol, s)
      case Ok((e, rest)) => EntriesKept(n - 1, rows, protocol, done + [e], rest);
      case Err(_) =>
    }
  }

  /** Columns that are read back, in any stream: each has the rows it was read
      with, and if no high byte is left over, each comes back on its own. */
  lemma {:induction false} EntriesDecoded(es: seq<Entry>, rows: nat, protocol: nat, done: seq<Entry>, s: seq<byte>,
      rest: seq<byte>)
    requires forall i :: 0 <= i < |es| ==> PlainStorable(es[i], protocol)
    requires ParseEntries(|es|, rows, protocol, done, s) == Ok((done + es, rest))
    ensures High(EncodeEntries(es, protocol)) + High(rest) <= High(s)
    ensures AllSendable(es, rows, protocol) || High(EncodeEntries(es, protocol)) + High(rest) < High(s)
  {
    hide PlainStorable, RowCount, EncodeEntry, ParseEntry, Valid, High, Sendable;
    NothingHigh();
    if es != [] {
      var (e, after) := ParseEntry(rows, protocol, s).value;
      EntriesKept(|es| - 1, rows, protocol, done + [e], after);
      assert (done + es)[|done|] == e;
      assert es == [e] + es[1..];
      EntryDecoded(rows, protocol, s, e, after);
      assert done + [e] + es[1..] == done + es;
      EntriesDecoded(es[1..], rows, protocol, done + [e], after, rest);
      StorableIsValid(e, protocol);
      HighAppend(EncodeEntry(e, protocol), EncodeEntries(es[1..], protocol));
    }
  }

  lemma StorableIsValid(e: Entry, protocol: nat)
    requires PlainStorable(e, protocol)
    ensures Valid(e.data)
  {
  }

  // ---- The block -----------------------------------------------------------------------------

  /** The info that survives: nothing of it before block infos, no buckets after. */
  function InfoRead(b: Block, protocol: nat): Option<Info>
    requires InfoOk(b, protocol)
  {
    if protocol >= BLOCK_INFO then Some(b.info.value.(buckets := [])) else None
  }

  lemma BlockHeadReads(b: Block, protocol: nat, rest: seq<byte>)
    requires |b.columns| < U64_BOUND && b.rows < U64_BOUND && InfoOk(b, protocol)
    ensures var entries := ParseEntries(|b.columns|, b.rows, protocol, [], EncodeEntries(b.columns, protocol) + rest);
            ParseBlock(protocol, EncodeBlock(b, protocol) + rest)
            == if entries.Err? then Err(entries.error)
               else Ok((Block(InfoRead(b, protocol), entries.value.0, b.rows), entries.value.1))
  {
    hide Leb, ParseVarUInt, ParseInfo, EncodeInfo, EncodeEntries, ParseEntries;
    var s3 := EncodeEntries(b.columns, protocol) + rest;
    var s2 := Leb(b.rows) + s3;
    var s1 := Leb(|b.columns|) + s2;
    if protocol >= BLOCK_INFO {
      assert EncodeBlock(b, protocol) + rest == EncodeInfo(b.info.value) + s1;
      InfoReadBack(b.info.value, s1);
    } else {
      assert EncodeBlock(b, protocol) + rest == s1;
    }
    ParseVarUIntAppend(|b.columns|, s2);
    ParseVarUIntAppend(b.rows, s3);
  }

  /** A block comes back, and nothing after it is touched, exactly when its info
      is what the protocol version carries, and every column has the block's row
      count and would come back on its own. */
  lemma BlockReadBackIff(b: Block, protocol: nat, rest: seq<byte>)
    requires Writable(b, protocol)
    ensures ParseBlock(protocol, EncodeBlock(b, protocol) + rest) == Ok((b, rest))
       <==> b.info == InfoRead(b, protocol) && AllSendable(b.columns, b.rows, protocol)
  {
    hide EncodeBlock, ParseBlock, EncodeEntries, ParseEntries, RowCount, Sendable, PlainStorable, High;
    var es, body := b.columns, EncodeEntries(b.columns, protocol);
    BlockHeadReads(b, protocol, rest);
    assert b == Block(b.info, es, b.rows) && [] + es == es;
    if AllSendable(es, b.rows, protocol) {
      EntriesReadBack(es, b.rows, protocol, [], rest);
    } else if ParseEntries(|es|, b.rows, protocol, [], body + rest) == Ok((es, rest)) {
      EntriesDecoded(es, b.rows, protocol, [], body + rest, rest);
      HighAppend(body, rest);
    }
  }

  const TWO_ROWS := Block(None, [Entry("x", "UInt8", Dense, Scalar(UInt8, [5]))], 2)

  lemma AsciiNames()
    ensures RustString("x") && RustString("UInt8")
  {
    assert Octets("x")[1..] == [];
    var b := Octets("UInt8");
    assert b[1..] == Octets("Int8") && Octets("Int8")[1..] == Octets("nt8");
    assert Octets("nt8")[1..] == Octets("t8") && Octets("t8")[1..] == Octets("8") && Octets("8")[1..] == [];
  }

  /** One column of one row in a block of two: written, and not read back. */
  lemma RowsMismatch(rest: seq<byte>)
    ensures Encodable(TWO_ROWS, 0) && ParseBlock(0, EncodeBlock(TWO_ROWS, 0) + rest) != Ok((TWO_ROWS, rest))
  {
    hide ParseBlock, EncodeBlock, TypeOf;
    AsciiNames();
    TypeOfPrint(EScalar(UInt8));
    assert RowCount(TWO_ROWS.columns[0].data) == 1;
    BlockReadBackIff(TWO_ROWS, 0, rest);
  }

  /** A dictionary column carries its own count and is read by it, so there the
      block's row count decides nothing: only types without dictionaries are
      told apart. */
  lemma DictionaryRowsIgnored(c: Col, u: Ty, rows: nat, rest: seq<byte>)
    requires WellTyped(c, TLowCardinality(u)) && Valid(c) && Fits(c) && Canonical(c) && Unbarred(u) && Routed(c)
    requires RowCount(c) > 0 && rows > 0
    ensures DecodeTree(TLowCardinality(u), rows, Encode(c) + rest) == Ok((c, rest))
  {
    hide WellTyped, Valid, Fits, Canonical, Routed, Encode, RowCount, ParseLE, ParseLEs;
    RoundTripIff(c, TLowCardinality(u), rest);
  }
}
