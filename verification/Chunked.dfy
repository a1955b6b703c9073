/** src/proto/chunked.rs: chunked framing over a byte transport. */
module Chunked {
  import opened Base
  import opened Wire

  const TERMINATOR: seq<byte> := [0, 0, 0, 0]

  /** One packet: size, data, terminator. The size is the length cut to 32 bits. */
  function Frame(data: seq<byte>): seq<byte> {
    LE(4, |data| % U32_BOUND) + data + TERMINATOR
  }

  /** The payload bytes a reader gets out of `wire` when `remaining` bytes of
      its current chunk are still to come. A cut-off header yields nothing. */
  function Deframe(remaining: nat, wire: seq<byte>): seq<byte>
    decreases |wire|
  {
    if remaining >= |wire| > 0 then wire
    else if remaining > 0 && wire != [] then
      wire[..remaining] + Deframe(0, wire[remaining..])
    else if |wire| < 4 then []
    else Deframe(FromLE(wire[..4]), wire[4..])
  }

  /** The bytes of a socket: those still to arrive and those already sent. */
  class Transport {
    var data: seq<byte>
    var sent: seq<byte>

    constructor (incoming: seq<byte>)
      ensures data == incoming && sent == []
    {
      data, sent := incoming, [];
    }

    /** A read may be short, but makes progress while bytes are left. */
    method Read(n: nat) returns (got: seq<byte>)
      modifies this`data
      ensures got + data == old(data) && |got| <= n
      ensures n > 0 && old(data) != [] ==> got != []
    {
      var k: nat :| k <= n && k <= |data| && (n > 0 && data != [] ==> k > 0);
      got, data := data[..k], data[k..];
    }

    method ReadExact(n: nat) returns (r: Result<seq<byte>>)
      modifies this`data
      ensures r == if n <= old(|data|) then Ok(old(data[..n])) else Err(UnexpectedEof)
      ensures r.Ok? ==> data == old(data[n..])
    {
      var buf := [];
      while |buf| < n
        invariant |buf| <= n && buf + data == old(data)
      {
        var got := Read(n - |buf|);
        if got == [] {
          return Err(UnexpectedEof);
        }
        buf := buf + got;
      }
      r := Ok(buf);
    }

    method Write(b: seq<byte>)
      modifies this`sent
      ensures sent == old(sent) + b
    {
      sent := sent + b;
    }
  }

  class ChunkedStream {
    const inner: Transport
    var readChunked: bool
    var writeChunked: bool
    var readRemaining: nat
    var writeBuf: seq<byte>

    constructor (inner: Transport)
      ensures this.inner == inner
      ensures !readChunked && !writeChunked && readRemaining == 0 && writeBuf == []
    {
      this.inner := inner;
      readChunked, writeChunked := false, false;
      readRemaining, writeBuf := 0, [];
    }

    ghost function Repr(): set<object> {
      {this, inner}
    }

    /** Every byte still to be read through this stream. */
    ghost function Rest(): seq<byte>
      reads this, inner
    {
      if readChunked then Deframe(readRemaining, inner.data) else inner.data
    }

    /** The write side as a value. */
    ghost function Sending(): WriteSide
      reads this, inner
    {
      WriteSide(inner.sent, writeChunked, writeBuf)
    }

    method EnableReadChunked()
      modifies this`readChunked
      ensures readChunked
    {
      readChunked := true;
    }

    method EnableWriteChunked()
      modifies this`writeChunked
      ensures Sending() == old(Sending()).Apply(OpEnable)
    {
      writeChunked := true;
    }

    /** Up to `n` payload bytes, in order; none only at the end of the data. */
    method Read(n: nat) returns (r: Result<seq<byte>>)
      modifies this`readRemaining, inner`data
      ensures r.Ok? ==> r.value + Rest() == old(Rest()) && |r.value| <= n
      ensures r.Ok? && n > 0 && old(Rest()) != [] ==> r.value != []
      ensures r.Err? ==> r.error == UnexpectedEof && old(Rest()) == []
      ensures !readChunked ==> readRemaining == old(readRemaining)
    {
      if !readChunked {
        var got := inner.Read(n);
        return Ok(got);
      }
      while readRemaining == 0
        invariant Rest() == old(Rest())
        decreases |inner.data|
      {
        var header := inner.ReadExact(4);
        if header.Err? {
          return Err(header.error);
        }
        var size := FromLE(header.value);
        if size == 0 {
          continue;
        }
        readRemaining := size;
      }
      var m := if n <= readRemaining then n else readRemaining;
      ghost var rem, wire := readRemaining, inner.data;
      var got := inner.Read(m);
      readRemaining := readRemaining - |got|;
      DeframeSplit(rem, got, inner.data);
      r := Ok(got);
    }

    method ReadExact(n: nat) returns (r: Result<seq<byte>>)
      modifies this`readRemaining, inner`data
      ensures r == if n <= old(|Rest()|) then Ok(old(Rest()[..n])) else Err(UnexpectedEof)
      ensures r.Ok? ==> Rest() == old(Rest()[n..])
      ensures !readChunked ==> readRemaining == old(readRemaining)
    {
      var buf := [];
      while |buf| < n
        invariant |buf| <= n && buf + Rest() == old(Rest())
        invariant !readChunked ==> readRemaining == old(readRemaining)
        decreases n - |buf|
      {
        var got := Read(n - |buf|);
        if got.Err? {
          return Err(got.error);
        }
        if got.value == [] {
          return Err(UnexpectedEof);
        }
        ghost var was := buf;
        buf := buf + got.value;
        assert was + (got.value + Rest()) == buf + Rest();
      }
      r := Ok(buf);
    }

    method Write(b: seq<byte>)
      modifies this`writeBuf, inner`sent
      ensures Sending() == old(Sending()).Apply(OpWrite(b))
    {
      if !writeChunked {
        inner.Write(b);
      } else {
        writeBuf := writeBuf + b;
      }
    }

    method Flush()
      modifies this`writeBuf, inner`sent
      ensures Sending() == old(Sending()).Apply(OpFlush)
    {
      if writeChunked && writeBuf != [] {
        var size := |writeBuf| % U32_BOUND;
        ghost var before := inner.sent;
        inner.Write(LE(4, size));
        inner.Write(writeBuf);
        inner.Write([0, 0, 0, 0]);
        assert inner.sent == before + Frame(writeBuf);
        writeBuf := [];
      }
    }
  }

  /** Taking bytes out of the current chunk takes them out of the payload. */
  lemma DeframeSplit(remaining: nat, got: seq<byte>, wire: seq<byte>)
    requires |got| <= remaining && remaining > 0
    ensures got + Deframe(remaining - |got|, wire) == Deframe(remaining, got + wire)
  {
    if got == [] {
      assert got + wire == wire;
    } else if remaining < |got + wire| {
      assert (got + wire)[..remaining] == got + wire[..remaining - |got|];
      assert (got + wire)[remaining..] == wire[remaining - |got|..];
      if remaining == |got| {
        assert wire[0..] == wire;
      }
    } else if wire != [] {
    }
  }

  // ---- The write side over whole runs ------------------------------------

  datatype Op = OpWrite(data: seq<byte>) | OpFlush | OpEnable

  datatype WriteSide = WriteSide(sent: seq<byte>, chunked: bool, buf: seq<byte>) {

    function Apply(op: Op): WriteSide {
      match op
      case OpWrite(b) =>
        if chunked then this.(buf := buf + b) else this.(sent := sent + b)
      case OpFlush =>
        if chunked && buf != [] then WriteSide(sent + Frame(buf), chunked, []) else this
      case OpEnable => this.(chunked := true)
    }

    function Run(ops: seq<Op>): WriteSide
      decreases |ops|
    {
      if ops == [] then this else Apply(ops[0]).Run(ops[1..])
    }

    /** No flush of the run exceeds what a 32-bit size can say. */
    predicate FlushesFit(ops: seq<Op>)
      decreases |ops|
    {
      ops == [] || ((ops[0].OpFlush? && chunked ==> |buf| < U32_BOUND) && Apply(ops[0]).FlushesFit(ops[1..]))
    }
  }

  function Written(ops: seq<Op>): seq<byte> {
    if ops == [] then []
    else (if ops[0].OpWrite? then ops[0].data else []) + Written(ops[1..])
  }

  /** How far the wire is plain: up to the first switch to chunks. */
  function PlainLength(s: WriteSide, ops: seq<Op>): nat
    decreases |ops|
  {
    if s.chunked || ops == [] then |s.sent| else PlainLength(s.Apply(ops[0]), ops[1..])
  }

  /** What a reader that switches after `k` plain bytes gets out of `wire`. */
  function Received(k: nat, wire: seq<byte>): seq<byte>
    requires k <= |wire|
  {
    wire[..k] + Deframe(0, wire[k..])
  }

  /** A whole number of packets, each one chunk of at least one byte and a
      terminator. */
  predicate Packets(wire: seq<byte>)
    decreases |wire|
  {
    wire == [] || (
      && |wire| >= 8
      && var size := FromLE(wire[..4]);
      && size > 0
      && |wire| >= size + 8
      && wire[4 + size..8 + size] == TERMINATOR
      && Packets(wire[8 + size..]))
  }

  lemma FromLETerminator()
    ensures FromLE(TERMINATOR) == 0
  {
    assert FromLE([0, 0, 0, 0][1..]) == 0 by {
      assert FromLE([0, 0, 0][1..]) == 0 by {
        assert FromLE([0, 0][1..]) == 0;
        assert [0, 0, 0][1..] == [0, 0];
      }
      assert [0, 0, 0, 0][1..] == [0, 0, 0];
    }
  }

  lemma DeframeFrame(data: seq<byte>)
    requires 0 < |data| < U32_BOUND
    ensures Packets(Frame(data)) && Deframe(0, Frame(data)) == data
  {
    hide LE, FromLE, Pow256, Deframe;
    var all := Frame(data);
    Pow256Values();
    FromLEOfLE(4, |data|);
    assert all[..4] == LE(4, |data|);
    assert all[4..4 + |data|] == data;
    assert all[4 + |data|..8 + |data|] == TERMINATOR;
    assert all[8 + |data|..] == [];
    DeframePacket(all, |data|);
    DeframeNothing();
  }

  lemma DeframeNothing()
    ensures Deframe(0, []) == []
  {
  }

  /** After whole packets, the payload of what follows is simply appended. */
  lemma {:induction false} DeframeAppend(wire: seq<byte>, more: seq<byte>)
    requires Packets(wire)
    ensures Packets(more) ==> Packets(wire + more)
    ensures Deframe(0, wire + more) == Deframe(0, wire) + Deframe(0, more)
    decreases |wire|
  {
    if wire == [] {
      assert wire + more == more;
    } else {
      var size := FromLE(wire[..4]);
      var tail := wire[8 + size..];
      DeframeAppend(tail, more);
      PacketPrefix(wire, more, size);
      DeframePacket(wire, size);
      DeframePacket(wire + more, size);
      Associate(wire[4..4 + size], Deframe(0, tail), Deframe(0, more));
    }
  }

  lemma PacketPrefix(wire: seq<byte>, more: seq<byte>, size: nat)
    requires |wire| >= 8 + size
    ensures (wire + more)[..4] == wire[..4]
    ensures (wire + more)[4..4 + size] == wire[4..4 + size]
    ensures (wire + more)[4 + size..8 + size] == wire[4 + size..8 + size]
    ensures (wire + more)[8 + size..] == wire[8 + size..] + more
  {
  }

  /** The first packet of a wire gives its data, then the rest is read. */
  lemma DeframePacket(wire: seq<byte>, size: nat)
    requires size > 0 && |wire| >= size + 8 && FromLE(wire[..4]) == size
    requires wire[4 + size..8 + size] == TERMINATOR
    ensures Deframe(0, wire) == wire[4..4 + size] + Deframe(0, wire[8 + size..])
  {
    FromLETerminator();
    var w := wire[4..];
    assert w[..size] == wire[4..4 + size];
    assert w[size..][..4] == wire[4 + size..8 + size];
    assert w[size..][4..] == wire[8 + size..];
    var t := w[size..];
    assert |t| >= 4 && FromLE(t[..4]) == 0;
    assert Deframe(0, t) == Deframe(0, t[4..]);
  }

  /** Framing is transparent over every run of writes, flushes and a switch to
      chunks: what is read, followed by what is still buffered, is what was
      written; and the wire after the switch is whole packets. */
  lemma FramingIsTransparent(ops: seq<Op>)
    requires WriteSide([], false, []).FlushesFit(ops)
    ensures var start := WriteSide([], false, []);
            var end := start.Run(ops);
            && PlainLength(start, ops) <= |end.sent|
            && Packets(end.sent[PlainLength(start, ops)..])
            && Received(PlainLength(start, ops), end.sent) + end.buf == Written(ops)
  {
    PlainRun(WriteSide([], false, []), ops);
  }

  lemma {:induction false} PlainRun(s: WriteSide, ops: seq<Op>)
    requires !s.chunked && s.buf == [] && s.FlushesFit(ops)
    ensures var end := s.Run(ops); var k := PlainLength(s, ops);
            && k <= |end.sent| && Packets(end.sent[k..])
            && Received(k, end.sent) + end.buf == s.sent + Written(ops)
    decreases |ops|
  {
    hide Deframe, Packets, Received;
    if ops == [] {
      NothingFramed(s.sent);
    } else if ops[0].OpEnable? {
      NothingFramed(s.sent);
      ChunkedRun(s.Apply(OpEnable), |s.sent|, ops[1..]);
      assert s.sent + [] + Written(ops[1..]) == s.sent + Written(ops);
    } else {
      PlainRun(s.Apply(ops[0]), ops[1..]);
      if ops[0].OpWrite? {
        Associate(s.sent, ops[0].data, Written(ops[1..]));
      }
    }
  }

  lemma NothingFramed(sent: seq<byte>)
    ensures Packets(sent[|sent|..]) && Received(|sent|, sent) + [] == sent
    ensures Received(|sent|, sent) == sent
  {
    DeframeNothing();
    assert sent[|sent|..] == [];
  }

  lemma {:induction false} ChunkedRun(s: WriteSide, k: nat, ops: seq<Op>)
    requires s.chunked && s.FlushesFit(ops)
    requires k <= |s.sent| && Packets(s.sent[k..])
    ensures var end := s.Run(ops);
            && k <= |end.sent| && Packets(end.sent[k..])
            && Received(k, end.sent) + end.buf == Received(k, s.sent) + s.buf + Written(ops)
    decreases |ops|
  {
    hide Deframe, Packets, Frame;
    if ops != [] {
      var next := s.Apply(ops[0]);
      ChunkedStep(s, k, ops[0]);
      ChunkedRun(next, k, ops[1..]);
      var put := if ops[0].OpWrite? then ops[0].data else [];
      assert Received(k, s.sent) + s.buf + put + Written(ops[1..])
          == Received(k, s.sent) + s.buf + (put + Written(ops[1..]));
    }
  }

  /** One operation in chunked mode moves or adds bytes; it loses none. */
  lemma ChunkedStep(s: WriteSide, k: nat, op: Op)
    requires s.chunked && (op.OpFlush? ==> |s.buf| < U32_BOUND)
    requires k <= |s.sent| && Packets(s.sent[k..])
    ensures var next := s.Apply(op);
            && k <= |next.sent| && Packets(next.sent[k..])
            && Received(k, next.sent) + next.buf
               == Received(k, s.sent) + s.buf + (if op.OpWrite? then op.data else [])
  {
    if op.OpFlush? && s.buf != [] {
      DeframeFrame(s.buf);
      ReceivedAppend(k, s.sent, Frame(s.buf));
    }
  }

  lemma ReceivedAppend(k: nat, sent: seq<byte>, more: seq<byte>)
    requires k <= |sent| && Packets(sent[k..]) && Packets(more)
    ensures Packets((sent + more)[k..])
    ensures Received(k, sent + more) == Received(k, sent) + Deframe(0, more)
  {
    hide Packets, Deframe;
    var tail := sent[k..];
    DeframeAppend(tail, more);
    assert (sent + more)[k..] == tail + more;
    assert (sent + more)[..k] == sent[..k];
    Associate(sent[..k], Deframe(0, tail), Deframe(0, more));
  }

  // ---- Both ends ----------------------------------------------------------------

  /** Plays a run of the write side into a socket and reads the socket at the
      other end, in pieces of any size, switching to chunks at the byte where the
      writer did. What arrives is what was written and flushed. */
  method PlayBack(ops: seq<Op>) returns (got: seq<byte>)
    requires WriteSide([], false, []).FlushesFit(ops)
    ensures got + WriteSide([], false, []).Run(ops).buf == Written(ops)
  {
    hide Deframe, Packets, Frame, PlainLength, WriteSide.FlushesFit, Written, WriteSide.Apply;
    ghost var start, end := WriteSide([], false, []), WriteSide([], false, []).Run(ops);
    FramingIsTransparent(ops);
    var here := new Transport([]);
    var writer := new ChunkedStream(here);
    assert ops[0..] == ops;
    for i := 0 to |ops|
      invariant writer.Sending().Run(ops[i..]) == end
    {
      assert ops[i..][0] == ops[i] && ops[i..][1..] == ops[i + 1..];
      match ops[i]
      case OpWrite(b) => writer.Write(b);
      case OpFlush => writer.Flush();
      case OpEnable => writer.EnableWriteChunked();
    }
    assert writer.Sending() == end;

    var k := PlainLength(WriteSide([], false, []), ops);
    var there := new Transport(here.sent);
    var reader := new ChunkedStream(there);
    var plain := reader.ReadExact(k);
    reader.EnableReadChunked();
    got := plain.value;
    while true
      invariant got + reader.Rest() == Received(k, end.sent)
      decreases |reader.Rest()|
    {
      var n: nat :| n > 0;
      var more := reader.Read(n);
      if more.Err? || more.value == [] {
        break;
      }
      ghost var was := got;
      got := got + more.value;
      Associate(was, more.value, reader.Rest());
    }
    assert got + [] == got;
  }

  // ---- Where framing breaks ----------------------------------------------------

  lemma {:induction false} DeframeShrinks(remaining: nat, wire: seq<byte>)
    ensures |Deframe(remaining, wire)| <= |wire|
    ensures remaining == 0 && |wire| >= 4 ==> |Deframe(remaining, wire)| <= |wire| - 4
    decreases |wire|
  {
    if remaining >= |wire| > 0 {
    } else if remaining > 0 && wire != [] {
      DeframeShrinks(0, wire[remaining..]);
    } else if |wire| >= 4 {
      DeframeShrinks(FromLE(wire[..4]), wire[4..]);
    }
  }

  /** A flush comes through exactly when its size fits 32 bits; `flush` does
      not check it. */
  lemma FrameReadsBackIff(data: seq<byte>)
    requires data != []
    ensures Deframe(0, Frame(data)) == data <==> |data| < U32_BOUND
  {
    Pow256Values();
    if |data| < U32_BOUND {
      DeframeFrame(data);
    } else {
      var size := |data| % U32_BOUND;
      FromLEOfLE(4, size);
      var wire := data + TERMINATOR;
      assert Frame(data)[..4] == LE(4, size) && Frame(data)[4..] == wire;
      assert Deframe(0, Frame(data)) == Deframe(size, wire);
      var tail := data[size..] + TERMINATOR;
      assert wire[..size] == data[..size] && wire[size..] == tail;
      assert Deframe(size, wire) == data[..size] + Deframe(0, tail) by {
        if size == 0 { assert wire[..0] + Deframe(0, wire) == Deframe(0, wire); }
      }
      if Deframe(0, Frame(data)) == data {
        assert data == data[..size] + data[size..];
        assert Deframe(0, tail) == data[size..] by {
          assert data[..size] + Deframe(0, tail) == data[..size] + data[size..];
          assert (data[..size] + Deframe(0, tail))[size..] == Deframe(0, tail);
        }
        TailNeverItself(data[size..]);
      }
    }
  }

  /** Data that is read as a header cannot come back as data. */
  lemma TailNeverItself(d: seq<byte>)
    requires |d| >= 4
    ensures Deframe(0, d + TERMINATOR) != d
  {
    var w := d + TERMINATOR;
    var size := FromLE(w[..4]);
    var body := w[4..];
    if size == 0 {
      DeframeShrinks(0, body);
    } else if size < |body| {
      DeframeShrinks(0, body[size..]);
    } else if body == d {
      ShiftByFour(d, |d|);
      assert w[..4] == d[..4] == TERMINATOR;
      FromLETerminator();
    }
  }

  lemma {:induction false} ShiftByFour(d: seq<byte>, n: nat)
    requires (d + TERMINATOR)[4..] == d && n <= |d|
    ensures forall i :: |d| - n <= i < |d| ==> d[i] == 0
  {
    if n > 0 {
      ShiftByFour(d, n - 1);
      var i := |d| - n;
      assert d[i] == (d + TERMINATOR)[4..][i] == (d + TERMINATOR)[i + 4];
    }
  }

  // ---- Exactly which runs are transparent all the way ----------------------------------

  /** After the run, what is read followed by what is buffered is what was
      written. */
  ghost predicate Transparent(ops: seq<Op>) {
    var start := WriteSide([], false, []);
    var end, k := start.Run(ops), PlainLength(start, ops);
    k <= |end.sent| && Received(k, end.sent) + end.buf == Written(ops)
  }

  predicate OpFits(s: WriteSide, op: Op) {
    op.OpFlush? && s.chunked ==> |s.buf| < U32_BOUND
  }

  lemma {:induction false} OneMoreOp(s: WriteSide, ops: seq<Op>, op: Op)
    ensures s.Run(ops + [op]) == s.Run(ops).Apply(op)
    ensures s.FlushesFit(ops + [op]) <==> s.FlushesFit(ops) && OpFits(s.Run(ops), op)
    decreases |ops|
  {
    hide WriteSide.Apply;
    if ops == [] {
      assert ([op])[1..] == [] && ops + [op] == [op];
    } else {
      OneMoreOp(s.Apply(ops[0]), ops[1..], op);
      assert (ops + [op])[1..] == ops[1..] + [op];
    }
  }

  lemma {:induction false} OneMoreWrite(s: WriteSide, ops: seq<Op>, op: Op)
    ensures s.Run(ops).chunked ==> PlainLength(s, ops + [op]) == PlainLength(s, ops)
    ensures Written(ops + [op]) == Written(ops) + if op.OpWrite? then op.data else []
    decreases |ops|
  {
    hide WriteSide.Apply;
    if ops == [] {
      assert ([op])[1..] == [] && ops + [op] == [op];
    } else {
      OneMoreWrite(s.Apply(ops[0]), ops[1..], op);
      assert (ops + [op])[1..] == ops[1..] + [op];
    }
  }

  /** A flush that does not fit breaks a run that was transparent before it. */
  lemma OversizedFlush(ops: seq<Op>)
    requires var s := WriteSide([], false, []); s.FlushesFit(ops) && !OpFits(s.Run(ops), OpFlush)
    ensures !Transparent(ops + [OpFlush])
  {
    hide Deframe, Frame, Packets, Received, Written, PlainLength, WriteSide.Run, WriteSide.FlushesFit;
    var start := WriteSide([], false, []);
    var s, k := start.Run(ops), PlainLength(start, ops);
    FramingIsTransparent(ops);
    OneMoreOp(start, ops, OpFlush);
    OneMoreWrite(start, ops, OpFlush);
    FrameReadsBackIff(s.buf);
    ReceivedMore(k, s.sent, Frame(s.buf));
    var before := Received(k, s.sent);
    if Transparent(ops + [OpFlush]) {
      assert before + Deframe(0, Frame(s.buf)) + [] == before + s.buf + [];
      Cancel(before, Deframe(0, Frame(s.buf)), s.buf);
    }
  }

  lemma Cancel(a: seq<byte>, x: seq<byte>, y: seq<byte>)
    requires a + x + [] == a + y + []
    ensures x == y
  {
    assert (a + x + [])[|a|..] == x && (a + y + [])[|a|..] == y;
  }

  lemma ReceivedMore(k: nat, sent: seq<byte>, more: seq<byte>)
    requires k <= |sent| && Packets(sent[k..])
    ensures k <= |sent + more| && Received(k, sent + more) == Received(k, sent) + Deframe(0, more)
  {
    hide Packets, Deframe;
    DeframeAppend(sent[k..], more);
    assert (sent + more)[k..] == sent[k..] + more && (sent + more)[..k] == sent[..k];
    Associate(sent[..k], Deframe(0, sent[k..]), Deframe(0, more));
  }

  /** A run is transparent after every one of its operations exactly when every
      flush of it is under 2^32 bytes. */
  lemma {:induction false} TransparentThroughout(ops: seq<Op>)
    ensures (forall n :: 0 <= n <= |ops| ==> Transparent(ops[..n])) <==> WriteSide([], false, []).FlushesFit(ops)
    decreases |ops|
  {
    hide Transparent, WriteSide.FlushesFit, WriteSide.Run;
    var start := WriteSide([], false, []);
    assert ops[..|ops|] == ops;
    if ops == [] {
      NothingRun();
      FitsIsTransparent(ops);
    } else {
      var front, op := ops[..|ops| - 1], ops[|ops| - 1];
      assert front + [op] == ops;
      TransparentThroughout(front);
      OneMoreOp(start, front, op);
      forall n | 0 <= n <= |front| ensures ops[..n] == front[..n] {}
      if start.FlushesFit(ops) {
        FitsIsTransparent(ops);
      } else if start.FlushesFit(front) {
        OversizedFlush(front);
        assert !Transparent(ops[..|ops|]);
      } else {
        var n :| 0 <= n <= |front| && !Transparent(front[..n]);
        assert !Transparent(ops[..n]);
      }
    }
  }

  lemma NothingRun()
    ensures WriteSide([], false, []).FlushesFit([])
  {
  }

  lemma FitsIsTransparent(ops: seq<Op>)
    requires WriteSide([], false, []).FlushesFit(ops)
    ensures Transparent(ops)
  {
    hide Packets, Received, Written, PlainLength;
    FramingIsTransparent(ops);
  }
}
