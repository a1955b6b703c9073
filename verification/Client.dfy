/** src/client.rs: packets that carry a block. The packet code and the table
    name go out raw; the block body goes through a compression adapter of its
    own when the query is compressed, over the chunked stream. */
module Client {
  import opened Base
  import opened Wire
  import opened Chunked
  import opened Compression
  import opened ByteIO
  import opened Blocks

  datatype Packet = Packet(code: nat, table: string, block: Block)

  // ---- Writing ---------------------------------------------------------------------

  /** A block body as the stream below sees it. */
  function BodyOps(b: Block, protocol: nat, compressed: bool, codec: Compressor): seq<Op> {
    if !compressed then [OpWrite(EncodeBlock(b, protocol))]
    else if Encodable(b, protocol) then [OpWrite(EncodeFrame(codec, Lz4, EncodeBlock(b, protocol))), OpFlush]
    else []
  }

  function PacketOps(p: Packet, protocol: nat, compressed: bool, codec: Compressor): seq<Op> {
    [OpWrite(Leb(p.code)), OpWrite(EncodeString(p.table))] + BodyOps(p.block, protocol, compressed, codec)
  }

  /** Packet after packet, up to the first whose block cannot be encoded; of that
      one only what went out before it failed. */
  function SessionOps(ps: seq<Packet>, protocol: nat, compressed: bool, codec: Compressor): seq<Op> {
    if ps == [] then []
    else
      PacketOps(ps[0], protocol, compressed, codec)
      + if Encodable(ps[0].block, protocol) then SessionOps(ps[1..], protocol, compressed, codec) else []
  }

  lemma {:induction false} RunAppend(s: WriteSide, a: seq<Op>, b: seq<Op>)
    ensures s.Run(a + b) == s.Run(a).Run(b)
    decreases |a|
  {
    if a == [] {
      assert a + b == b;
    } else {
      assert (a + b)[1..] == a[1..] + b;
      RunAppend(s.Apply(a[0]), a[1..], b);
    }
  }

  lemma RunTwo(s: WriteSide, a: Op, b: Op)
    ensures s.Run([a]) == s.Apply(a) && s.Run([a, b]) == s.Apply(a).Apply(b) && s.Run([]) == s
  {
    hide WriteSide.Apply;
    var t := s.Apply(a);
    assert [a][1..] == [] && [a, b][1..] == [b] && [b][1..] == [];
    assert s.Run([a]) == t.Run([]) && s.Run([a, b]) == t.Run([b]);
    assert t.Run([b]) == t.Apply(b).Run([]);
  }

  class Connection {
    const inner: ChunkedStream
    const codec: Compressor
    const protocol: nat
    var queryCompression: bool

    constructor (inner: ChunkedStream, codec: Compressor, protocol: nat, compression: bool)
      ensures this.inner == inner && this.codec == codec && this.protocol == protocol
      ensures queryCompression == compression
    {
      this.inner, this.codec, this.protocol := inner, codec, protocol;
      queryCompression := compression;
    }

    /** A compressed block that cannot be encoded leaves nothing on the stream:
        its bytes were still in the adapter. */
    method WriteBlock(b: Block, compressed: bool) returns (ok: bool)
      modifies inner, inner.inner
      ensures ok == Encodable(b, protocol)
      ensures inner.Sending() == old(inner.Sending()).Run(BodyOps(b, protocol, compressed, codec))
    {
      hide EncodeBlock, Encodable, EncodeFrame, Frame;
      ghost var s := inner.Sending();
      ghost var bytes := EncodeBlock(b, protocol);
      if compressed {
        var cw := new CompressedWriter(inner, codec, Lz4);
        var w := new ByteWriter.Compressed(inner, cw);
        ok := Blocks.WriteBlock(b, protocol, w);
        assert cw.buf == bytes;
        if ok {
          cw.Flush();
        }
        RunTwo(s, OpWrite(EncodeFrame(codec, Lz4, bytes)), OpFlush);
      } else {
        var w := new ByteWriter.Plain(inner);
        ok := Blocks.WriteBlock(b, protocol, w);
        RunTwo(s, OpWrite(bytes), OpFlush);
      }
    }

    method SendPacket(p: Packet) returns (ok: bool)
      modifies inner, inner.inner
      ensures ok == Encodable(p.block, protocol)
      ensures inner.Sending() == old(inner.Sending()).Run(PacketOps(p, protocol, queryCompression, codec))
    {
      hide Encodable, BodyOps, WriteSide.Run, WriteSide.Apply;
      ghost var s := inner.Sending();
      ghost var head := [OpWrite(Leb(p.code)), OpWrite(EncodeString(p.table))];
      var w := new ByteWriter.Plain(inner);
      w.WriteVarUInt(p.code);
      w.WriteString(p.table);
      RunTwo(s, head[0], head[1]);
      ok := WriteBlock(p.block, queryCompression);
      RunAppend(s, head, BodyOps(p.block, protocol, queryCompression, codec));
    }

    /** All packets, then a flush; the first block that cannot be encoded ends it. */
    method SendSession(ps: seq<Packet>) returns (ok: bool)
      modifies inner, inner.inner
      ensures ok == forall i :: 0 <= i < |ps| ==> Encodable(ps[i].block, protocol)
      ensures inner.Sending()
           == old(inner.Sending()).Run(SessionOps(ps, protocol, queryCompression, codec) + if ok then [OpFlush] else [])
    {
      hide PacketOps, WriteSide.Run, WriteSide.Apply, Encodable;
      ghost var s, done := inner.Sending(), [];
      ghost var all := SessionOps(ps, protocol, queryCompression, codec);
      RunTwo(s, OpFlush, OpFlush);
      for i := 0 to |ps|
        invariant forall k :: 0 <= k < i ==> Encodable(ps[k].block, protocol)
        invariant inner.Sending() == s.Run(done)
        invariant done + SessionOps(ps[i..], protocol, queryCompression, codec) == all
      {
        ghost var ops := PacketOps(ps[i], protocol, queryCompression, codec);
        ghost var others := SessionOps(ps[i + 1..], protocol, queryCompression, codec);
        assert ps[i..][1..] == ps[i + 1..];
        ok := SendPacket(ps[i]);
        RunAppend(s, done, ops);
        if !ok {
          assert done + (ops + []) == done + ops && all + [] == all;
          return;
        }
        assert done + (ops + others) == done + ops + others;
        done := done + ops;
      }
      inner.Flush();
      ok := true;
      assert done == all;
      RunTwo(s.Run(all), OpFlush, OpFlush);
      RunAppend(s, all, [OpFlush]);
    }

    /** The adapter and what it still holds are dropped after the block. Where its
        frames end too early, the error is that of the frame that broke. */
    method ReadBlock(compressed: bool) returns (res: Result<Block>)
      modifies inner, inner.inner
      ensures var spec := ParseBody(compressed, codec, protocol, old(inner.Rest()));
              match spec
              case Ok((b, rest)) => res == Ok(b) && inner.Rest() == rest
              case Err(e) => res == Err(e)
    {
      hide Inflate, Advance, Stop, Deframe, ParseBlock;
      if compressed {
        var r := new ByteReader.Compressed(inner, codec);
        res := Blocks.ReadBlock(r, protocol);
      } else {
        var r := new ByteReader.Plain(inner);
        res := Blocks.ReadBlock(r, protocol);
      }
    }

    method ReceivePacket() returns (res: Result<Packet>)
      modifies inner, inner.inner
      ensures var spec := ParsePacket(queryCompression, codec, protocol, old(inner.Rest()));
              match spec
              case Ok((p, rest)) => res == Ok(p) && inner.Rest() == rest
              case Err(e) => res == Err(e)
    {
      hide Inflate, Advance, Deframe, ParseBody, ParseVarUInt, ParseString;
      var r := new ByteReader.Plain(inner);
      var code := r.ReadVarUInt();
      if code.Err? {
        return Err(code.error);
      }
      var table := r.ReadString();
      if table.Err? {
        return Err(table.error);
      }
      var b := ReadBlock(queryCompression);
      res := if b.Err? then Err(b.error) else Ok(Packet(code.value % 256, table.value, b.value));
    }

    method ReceiveSession(n: nat) returns (res: Result<seq<Packet>>)
      modifies inner, inner.inner
      ensures var spec := ParsePackets(n, queryCompression, codec, protocol, [], old(inner.Rest()));
              match spec
              case Ok((ps, rest)) => res == Ok(ps) && inner.Rest() == rest
              case Err(e) => res == Err(e)
    {
      hide ParsePacket, Deframe;
      ghost var goal := ParsePackets(n, queryCompression, codec, protocol, [], inner.Rest());
      var ps: seq<Packet>, i := [], 0;
      while i < n
        invariant i <= n
        invariant ParsePackets(n - i, queryCompression, codec, protocol, ps, inner.Rest()) == goal
      {
        var p := ReceivePacket();
        if p.Err? {
          return Err(p.error);
        }
        ps, i := ps + [p.value], i + 1;
      }
      res := Ok(ps);
    }
  }

  // ---- Reading ---------------------------------------------------------------------------

  function ParseBody(compressed: bool, codec: Compressor, protocol: nat, s: seq<byte>): Parsed<Block> {
    if !compressed then ParseBlock(protocol, s)
    else
      var ahead := Inflate(codec, s);
      match ParseBlock(protocol, ahead)
      case Err(e) => Err(if e == UnexpectedEof then Stop(codec, s) else e)
      case Ok((b, after)) =>
        Ok((b, Advance(codec, Lag([], s), if |after| <= |ahead| then |ahead| - |after| else 0).behind))
  }

  function ParsePacket(compressed: bool, codec: Compressor, protocol: nat, s: seq<byte>): Parsed<Packet> {
    var (code, s1) :- ParseVarUInt(s);
    var (table, s2) :- ParseString(s1);
    var (b, rest) :- ParseBody(compressed, codec, protocol, s2);
    Ok((Packet(code % 256, table, b), rest))
  }

  function ParsePackets(n: nat, compressed: bool, codec: Compressor, protocol: nat, ps: seq<Packet>,
      s: seq<byte>): Parsed<seq<Packet>> {
    if n == 0 then Ok((ps, s))
    else
      var (p, rest) :- ParsePacket(compressed, codec, protocol, s);
      ParsePackets(n - 1, compressed, codec, protocol, ps + [p], rest)
  }

  // ---- Loopback -----------------------------------------------------------------------------

  function PacketBytes(p: Packet, protocol: nat, compressed: bool, codec: Compressor): seq<byte> {
    var body := EncodeBlock(p.block, protocol);
    Leb(p.code) + (EncodeString(p.table) + if compressed then EncodeFrame(codec, Lz4, body) else body)
  }

  function SessionBytes(ps: seq<Packet>, protocol: nat, compressed: bool, codec: Compressor): seq<byte> {
    if ps == [] then []
    else PacketBytes(ps[0], protocol, compressed, codec) + SessionBytes(ps[1..], protocol, compressed, codec)
  }

  predicate PacketSendable(p: Packet, protocol: nat, compressed: bool, codec: Compressor) {
    && p.code < 256 && RustString(p.table) && |p.table| <= MAX_STRING_LEN
    && BlockSendable(p.block, protocol)
    && (compressed ==> FrameFits(codec, Lz4, EncodeBlock(p.block, protocol)))
  }

  predicate SessionSendable(ps: seq<Packet>, protocol: nat, compressed: bool, codec: Compressor) {
    forall i :: 0 <= i < |ps| ==> PacketSendable(ps[i], protocol, compressed, codec)
  }

  lemma BlockIsNotEmpty(b: Block, protocol: nat)
    requires BlockSendable(b, protocol)
    ensures EncodeBlock(b, protocol) != []
  {
    hide EncodeInfo, EncodeEntries, Leb;
  }

  /** One frame holds the block exactly, so a reader of it empties the frame and
      leaves the stream right behind it. */
  lemma BodyReadBack(b: Block, protocol: nat, compressed: bool, codec: Compressor, rest: seq<byte>)
    requires BlockSendable(b, protocol) && codec.Lossless()
    requires compressed ==> FrameFits(codec, Lz4, EncodeBlock(b, protocol))
    ensures var data := EncodeBlock(b, protocol);
            var body := if compressed then EncodeFrame(codec, Lz4, data) else data;
            && ParseBody(compressed, codec, protocol, body + rest) == Ok((b, rest))
            && (compressed ==> Advance(codec, Lag([], body + rest), |data|) == Lag([], rest))
  {
    hide BlockSendable, EncodeBlock, ParseBlock, EncodeFrame, ParseFrame, FrameFits, Compressor.Lossless, Inflate;
    hide Advance;
    var data := EncodeBlock(b, protocol);
    if compressed {
      var s := EncodeFrame(codec, Lz4, data) + rest;
      ParseFrameAppend(codec, Lz4, data, rest);
      BlockIsNotEmpty(b, protocol);
      Refill(codec, s, data, rest);
      TakeFromHand(codec, data, rest, |data|);
      BlockReadBack(b, protocol, Inflate(codec, rest));
      assert data[|data|..] == [];
      assert Advance(codec, Lag([], s), |data|) == Advance(codec, Lag(data, rest), |data|);
    } else {
      BlockReadBack(b, protocol, rest);
    }
  }

  lemma PacketReadBack(p: Packet, protocol: nat, compressed: bool, codec: Compressor, rest: seq<byte>)
    requires PacketSendable(p, protocol, compressed, codec) && codec.Lossless()
    ensures ParsePacket(compressed, codec, protocol, PacketBytes(p, protocol, compressed, codec) + rest)
         == Ok((p, rest))
  {
    hide BlockSendable, EncodeBlock, ParseBody, EncodeFrame, FrameFits, Compressor.Lossless, RustString, ParseVarUInt;
    hide ParseString, Leb, EncodeString;
    var data := EncodeBlock(p.block, protocol);
    var body := if compressed then EncodeFrame(codec, Lz4, data) else data;
    var s1 := EncodeString(p.table) + (body + rest);
    assert PacketBytes(p, protocol, compressed, codec) + rest == Leb(p.code) + s1;
    ParseVarUIntAppend(p.code, s1);
    ParseStringAppend(p.table, body + rest);
    BodyReadBack(p.block, protocol, compressed, codec, rest);
  }

  lemma {:induction false} SessionReadBack(ps: seq<Packet>, protocol: nat, compressed: bool, codec: Compressor,
      done: seq<Packet>, rest: seq<byte>)
    requires SessionSendable(ps, protocol, compressed, codec) && codec.Lossless()
    ensures ParsePackets(|ps|, compressed, codec, protocol, done, SessionBytes(ps, protocol, compressed, codec) + rest)
         == Ok((done + ps, rest))
  {
    hide PacketSendable, ParsePacket, PacketBytes, Compressor.Lossless;
    if ps == [] {
      assert SessionBytes(ps, protocol, compressed, codec) + rest == rest && done + ps == done;
    } else {
      var first := PacketBytes(ps[0], protocol, compressed, codec);
      var more := SessionBytes(ps[1..], protocol, compressed, codec) + rest;
      assert SessionBytes(ps, protocol, compressed, codec) + rest == first + more;
      PacketReadBack(ps[0], protocol, compressed, codec, more);
      SessionReadBack(ps[1..], protocol, compressed, codec, done + [ps[0]], rest);
      assert done + [ps[0]] + ps[1..] == done + ps;
    }
  }

  lemma {:induction false} WrittenAppend(a: seq<Op>, b: seq<Op>)
    ensures Written(a + b) == Written(a) + Written(b)
  {
    if a == [] {
      assert a + b == b;
    } else {
      WrittenAppend(a[1..], b);
      assert (a + b)[1..] == a[1..] + b;
      Associate(if a[0].OpWrite? then a[0].data else [], Written(a[1..]), Written(b));
    }
  }

  lemma {:induction false} SessionWrites(ps: seq<Packet>, protocol: nat, compressed: bool, codec: Compressor)
    requires SessionSendable(ps, protocol, compressed, codec)
    ensures Written(SessionOps(ps, protocol, compressed, codec)) == SessionBytes(ps, protocol, compressed, codec)
  {
    hide PacketSendable, PacketOps, PacketBytes, Written, Encodable;
    if ps == [] {
      WrittenNothing();
    } else {
      AllEncodable(ps, protocol, compressed, codec);
      PacketWrites(ps[0], protocol, compressed, codec);
      SessionWrites(ps[1..], protocol, compressed, codec);
      WrittenAppend(PacketOps(ps[0], protocol, compressed, codec), SessionOps(ps[1..], protocol, compressed, codec));
    }
  }

  lemma WrittenNothing()
    ensures Written([]) == [] && Written([OpFlush]) == []
  {
  }

  lemma PacketWrites(p: Packet, protocol: nat, compressed: bool, codec: Compressor)
    requires PacketSendable(p, protocol, compressed, codec)
    ensures Written(PacketOps(p, protocol, compressed, codec)) == PacketBytes(p, protocol, compressed, codec)
  {
    hide EncodeBlock, EncodeFrame, Leb, EncodeString, Written, RustString, FrameFits, BlockSendable, Encodable, BodyOps;
    var body := BodyOps(p.block, protocol, compressed, codec);
    var head := [OpWrite(Leb(p.code)), OpWrite(EncodeString(p.table))];
    BodyWrites(p.block, protocol, compressed, codec);
    WrittenTwo(head);
    WrittenAppend(head, body);
    Associate(Leb(p.code), EncodeString(p.table), Written(body));
  }

  lemma BodyWrites(b: Block, protocol: nat, compressed: bool, codec: Compressor)
    requires BlockSendable(b, protocol)
    ensures var data := EncodeBlock(b, protocol);
            Written(BodyOps(b, protocol, compressed, codec))
            == if compressed then EncodeFrame(codec, Lz4, data) else data
  {
    hide EncodeBlock, EncodeFrame, Written, BlockSendable, Encodable;
    BlockReadBack(b, protocol, []);
    WrittenTwo(BodyOps(b, protocol, compressed, codec));
    assert EncodeFrame(codec, Lz4, EncodeBlock(b, protocol)) + [] == EncodeFrame(codec, Lz4, EncodeBlock(b, protocol));
    assert EncodeBlock(b, protocol) + [] == EncodeBlock(b, protocol);
  }

  lemma WrittenTwo(ops: seq<Op>)
    requires 1 <= |ops| <= 2 && ops[0].OpWrite?
    ensures Written(ops) == ops[0].data + if |ops| == 2 && ops[1].OpWrite? then ops[1].data else []
  {
    if |ops| == 2 {
      assert ops == [ops[0], ops[1]] && ops[1..] == [ops[1]] && [ops[1]][1..] == [];
      assert Written([ops[1]]) == (if ops[1].OpWrite? then ops[1].data else []) + Written([]);
    } else {
      assert ops[1..] == [];
    }
  }

  /** What the peer's stream delivers for the bytes a whole session put on the
      wire after position `k`. */
  lemma SessionCrossesWire(ps: seq<Packet>, protocol: nat, compressed: bool, codec: Compressor, s: WriteSide)
    requires SessionSendable(ps, protocol, compressed, codec) && s.buf == []
    requires s.FlushesFit(SessionOps(ps, protocol, compressed, codec) + [OpFlush])
    ensures var end := s.Run(SessionOps(ps, protocol, compressed, codec) + [OpFlush]);
            var k := |s.sent|;
            && end.buf == [] && end.chunked == s.chunked && k <= |end.sent| && end.sent[..k] == s.sent
            && (if s.chunked then Deframe(0, end.sent[k..]) else end.sent[k..])
               == SessionBytes(ps, protocol, compressed, codec)
  {
    hide SessionOps, SessionBytes, Deframe, Packets, WriteSide.Run, WriteSide.FlushesFit, Written, SessionSendable;
    var ops := SessionOps(ps, protocol, compressed, codec);
    var all := ops + [OpFlush];
    SessionWrites(ps, protocol, compressed, codec);
    WrittenAppend(ops, [OpFlush]);
    WrittenNothing();
    assert Written(all) == SessionBytes(ps, protocol, compressed, codec);
    NeverSwitches(ps, protocol, compressed, codec);
    KeepsMode(s, all);
    RunAppend(s, ops, [OpFlush]);
    RunTwo(s.Run(ops), OpFlush, OpFlush);
    var end := s.Run(all);
    var k := |s.sent|;
    if s.chunked {
      NothingFramed(s.sent);
      ChunkedRun(s, k, all);
      Strip(end.sent[..k], s.sent, Deframe(0, end.sent[k..]), Written(all));
    } else {
      PlainSends(s, all);
    }
  }

  lemma Strip(a: seq<byte>, b: seq<byte>, x: seq<byte>, y: seq<byte>)
    requires |a| == |b| && a + x + [] == b + [] + y
    ensures a == b && x == y
  {
    assert a == (a + x)[..|a|] && b == (b + y)[..|b|];
    assert x == (a + x)[|a|..] && y == (b + y)[|b|..];
    assert a + x == a + x + [] && b + y == b + [] + y;
  }

  predicate NoSwitch(ops: seq<Op>) {
    forall i :: 0 <= i < |ops| ==> !ops[i].OpEnable?
  }

  lemma {:induction false} NeverSwitches(ps: seq<Packet>, protocol: nat, compressed: bool, codec: Compressor)
    ensures NoSwitch(SessionOps(ps, protocol, compressed, codec))
  {
    if ps != [] {
      hide EncodeBlock, EncodeFrame, Leb, EncodeString, Encodable;
      var first := PacketOps(ps[0], protocol, compressed, codec);
      assert forall i :: 0 <= i < |first| ==> !first[i].OpEnable?;
      NeverSwitches(ps[1..], protocol, compressed, codec);
    }
  }

  lemma {:induction false} KeepsMode(s: WriteSide, ops: seq<Op>)
    requires NoSwitch(ops)
    ensures s.Run(ops).chunked == s.chunked
    ensures !s.chunked && s.buf == [] ==> s.Run(ops).buf == []
    decreases |ops|
  {
    if ops != [] {
      KeepsMode(s.Apply(ops[0]), ops[1..]);
    }
  }

  lemma {:induction false} PlainSends(s: WriteSide, ops: seq<Op>)
    requires !s.chunked && NoSwitch(ops)
    ensures s.Run(ops).sent == s.sent + Written(ops)
    decreases |ops|
  {
    assert s.sent + [] == s.sent;
    if ops != [] {
      hide Frame;
      var put := if ops[0].OpWrite? then ops[0].data else [];
      assert s.Apply(ops[0]).sent == s.sent + put;
      PlainSends(s.Apply(ops[0]), ops[1..]);
      Associate(s.sent, put, Written(ops[1..]));
    }
  }

  /** The whole stack, end to end: packets sent over a socket and read at the
      other end come back block for block, whatever the socket's read sizes,
      and nothing is left over. */
  method Loopback(ps: seq<Packet>, protocol: nat, compressed: bool, chunked: bool, codec: Compressor)
    returns (res: Result<seq<Packet>>)
    requires SessionSendable(ps, protocol, compressed, codec) && codec.Lossless()
    requires WriteSide([], chunked, []).FlushesFit(SessionOps(ps, protocol, compressed, codec) + [OpFlush])
    ensures res == Ok(ps)
  {
    hide SessionOps, SessionBytes, Deframe, WriteSide.Run, WriteSide.FlushesFit, SessionSendable, ParsePackets;
    hide Compressor.Lossless;
    var here := new Transport([]);
    var stream := new ChunkedStream(here);
    if chunked {
      stream.EnableWriteChunked();
    }
    var sender := new Connection(stream, codec, protocol, compressed);
    AllEncodable(ps, protocol, compressed, codec);
    var sent := sender.SendSession(ps);
    SessionCrossesWire(ps, protocol, compressed, codec, WriteSide([], chunked, []));

    var there := new Transport(here.sent);
    var peer := new ChunkedStream(there);
    if chunked {
      peer.EnableReadChunked();
    }
    ghost var bytes := SessionBytes(ps, protocol, compressed, codec);
    assert here.sent[0..] == here.sent;
    assert peer.Rest() == bytes + [];
    var receiver := new Connection(peer, codec, protocol, compressed);
    SessionReadBack(ps, protocol, compressed, codec, [], []);
    assert [] + ps == ps;
    res := receiver.ReceiveSession(|ps|);
  }

  lemma AllEncodable(ps: seq<Packet>, protocol: nat, compressed: bool, codec: Compressor)
    requires SessionSendable(ps, protocol, compressed, codec)
    ensures forall i :: 0 <= i < |ps| ==> Encodable(ps[i].block, protocol)
  {
    hide Encodable, BlockSendable, FrameFits, EncodeBlock, RustString;
    forall i | 0 <= i < |ps| ensures Encodable(ps[i].block, protocol) {
      assert PacketSendable(ps[i], protocol, compressed, codec);
      BlockReadBack(ps[i].block, protocol, []);
    }
  }

  // ---- Where a sender stops, and what a receiver makes of a code ----------------------------------

  lemma {:induction false} SessionAppend(ps: seq<Packet>, more: seq<Packet>, protocol: nat, compressed: bool,
      codec: Compressor)
    requires forall i :: 0 <= i < |ps| ==> Encodable(ps[i].block, protocol)
    ensures SessionOps(ps + more, protocol, compressed, codec)
         == SessionOps(ps, protocol, compressed, codec) + SessionOps(more, protocol, compressed, codec)
  {
    hide PacketOps, Encodable;
    if ps == [] {
      assert ps + more == more;
    } else {
      assert (ps + more)[1..] == ps[1..] + more;
      SessionAppend(ps[1..], more, protocol, compressed, codec);
      var a, b := PacketOps(ps[0], protocol, compressed, codec), SessionOps(ps[1..], protocol, compressed, codec);
      assert a + b + SessionOps(more, protocol, compressed, codec)
          == a + (b + SessionOps(more, protocol, compressed, codec));
    }
  }

  /** Nothing follows a packet whose block cannot be encoded, and under compression
      nothing of that block goes out either. */
  lemma SessionStops(ps: seq<Packet>, bad: Packet, more: seq<Packet>, protocol: nat, compressed: bool,
      codec: Compressor)
    requires (forall i :: 0 <= i < |ps| ==> Encodable(ps[i].block, protocol)) && !Encodable(bad.block, protocol)
    ensures SessionOps(ps + ([bad] + more), protocol, compressed, codec)
         == SessionOps(ps, protocol, compressed, codec) + [OpWrite(Leb(bad.code)), OpWrite(EncodeString(bad.table))]
            + if compressed then [] else [OpWrite(EncodeBlock(bad.block, protocol))]
  {
    hide Encodable, EncodeBlock, Leb, EncodeString;
    SessionAppend(ps, [bad] + more, protocol, compressed, codec);
    assert ([bad] + more)[0] == bad;
    var ops := PacketOps(bad, protocol, compressed, codec);
    assert SessionOps([bad] + more, protocol, compressed, codec) == ops + [];
    hide SessionOps;
    assert SessionOps(ps, protocol, compressed, codec) + (ops + [])
        == SessionOps(ps, protocol, compressed, codec) + [OpWrite(Leb(bad.code)), OpWrite(EncodeString(bad.table))]
           + if compressed then [] else [OpWrite(EncodeBlock(bad.block, protocol))];
  }

  /** A packet code is a number cut to its lowest byte. */
  lemma CodeIsCut(code: nat, compressed: bool, codec: Compressor, protocol: nat, rest: seq<byte>)
    requires code < U64_BOUND
    ensures ParsePacket(compressed, codec, protocol, Leb(code) + rest)
         == ParsePacket(compressed, codec, protocol, Leb(code % 256) + rest)
    ensures var r := ParsePacket(compressed, codec, protocol, Leb(code) + rest);
            r.Ok? ==> r.value.0.code == code % 256
  {
    hide ParseVarUInt, Leb, ParseString, ParseBody;
    var low := code % 256;
    assert low < 256 && low % 256 == low;
    ParseVarUIntAppend(code, rest);
    ParseVarUIntAppend(low, rest);
    assert ParseVarUInt(Leb(code) + rest) == Ok((code, rest)) && ParseVarUInt(Leb(low) + rest) == Ok((low, rest));
  }
}
