/** src/proto/compression.rs: compression frames, and the two adapters that
    read and write a chunked stream through them. The compressors and the
    checksum are parameters; only that decompression undoes compression, and
    that a checksum is 16 bytes, is ever assumed of them. */
module Compression {
  import opened Base
  import opened Wire
  import opened Chunked

  datatype Method = NoCompression | Lz4 | Zstd

  function MethodByte(m: Method): byte {
    match m
    case NoCompression => 0x02
    case Lz4 => 0x82
    case Zstd => 0x90
  }

  function MethodFromByte(b: byte): Option<Method> {
    if b == 0x02 then Some(NoCompression)
    else if b == 0x82 then Some(Lz4)
    else if b == 0x90 then Some(Zstd)
    else None
  }

  datatype Compressor = Compressor(
    compress: (Method, seq<byte>) -> seq<byte>,
    decompress: (Method, seq<byte>, nat) -> Option<seq<byte>>,
    digest: seq<byte> -> seq<byte>)
  {
    ghost predicate Lossless() {
      && (forall m, d :: decompress(m, compress(m, d), |d|) == Some(d))
      && (forall d :: |digest(d)| == CHECKSUM_LEN)
    }

    function Body(m: Method, data: seq<byte>): seq<byte> {
      if m == NoCompression then data else compress(m, data)
    }

    function Unpack(m: Method, body: seq<byte>, size: nat): Option<seq<byte>> {
      if m == NoCompression then Some(body) else decompress(m, body, size)
    }
  }

  const HEADER_LEN: nat := 9
  const CHECKSUM_LEN: nat := 16

  function Header(m: Method, bodyLen: nat, dataLen: nat): (h: seq<byte>)
    ensures |h| == HEADER_LEN
  {
    [MethodByte(m)] + LE(4, (HEADER_LEN + bodyLen) % U32_BOUND) + LE(4, dataLen % U32_BOUND)
  }

  function EncodeFrame(codec: Compressor, m: Method, data: seq<byte>): seq<byte> {
    var body := codec.Body(m, data);
    var covered := Header(m, |body|, |data|) + body;
    codec.digest(covered) + covered
  }

  function ParseFrame(codec: Compressor, s: seq<byte>): (r: Parsed<seq<byte>>)
    ensures r.Ok? ==> |r.value.1| < |s|
  {
    var (checksum, s1) :- Take(CHECKSUM_LEN, s);
    var (header, s2) :- Take(HEADER_LEN, s1);
    ParseFrameBody(codec, checksum, header, s2)
  }

  function ParseFrameBody(codec: Compressor, checksum: seq<byte>, header: seq<byte>, s: seq<byte>)
    : (r: Parsed<seq<byte>>)
    requires |header| == HEADER_LEN
    ensures r.Ok? ==> |r.value.1| <= |s|
  {
    var m := MethodFromByte(header[0]);
    if m.None? then Err(InvalidData)
    else
      var size := FromLE(header[1..5]);
      if size < HEADER_LEN then Err(InvalidData)
      else
        var (body, rest) :- Take(size - HEADER_LEN, s);
        if codec.digest(header + body) != checksum then Err(InvalidData)
        else
          var data := codec.Unpack(m.value, body, FromLE(header[5..9]));
          if data.None? || |data.value| != FromLE(header[5..9]) then Err(InvalidData)
          else Ok((data.value, rest))
  }

  /** Both sizes a frame header carries fit their 32 bits. */
  predicate FrameFits(codec: Compressor, m: Method, data: seq<byte>) {
    |data| < U32_BOUND && HEADER_LEN + |codec.Body(m, data)| < U32_BOUND
  }

  /** A frame is read back, and nothing after it, exactly when its sizes fit:
      `encode_frame` cuts both of them to 32 bits. */
  lemma ParseFrameAppend(codec: Compressor, m: Method, data: seq<byte>, rest: seq<byte>)
    requires codec.Lossless()
    ensures ParseFrame(codec, EncodeFrame(codec, m, data) + rest) == Ok((data, rest)) <==> FrameFits(codec, m, data)
  {
    hide ParseFrameBody, Compressor.Body;
    var body := codec.Body(m, data);
    var header := Header(m, |body|, |data|);
    var checksum := codec.digest(header + body);
    assert EncodeFrame(codec, m, data) + rest == checksum + (header + (body + rest));
    TakeAppend(checksum, header + (body + rest));
    TakeAppend(header, body + rest);
    FrameBody(codec, m, data, rest);
  }

  /** A cut body length leaves bytes of the body behind, and a cut data length
      gives too little data, whatever the checksum says. */
  lemma FrameBody(codec: Compressor, m: Method, data: seq<byte>, rest: seq<byte>)
    requires codec.Lossless()
    ensures var body := codec.Body(m, data);
            var header := Header(m, |body|, |data|);
            ParseFrameBody(codec, codec.digest(header + body), header, body + rest) == Ok((data, rest))
            <==> FrameFits(codec, m, data)
  {
    hide LE, FromLE, Pow256, Header, MethodFromByte;
    var body := codec.Body(m, data);
    HeaderFields(m, |body|, |data|);
    TakeAppend(body, rest);
  }

  /** The fields a reader finds in a header. */
  lemma HeaderFields(m: Method, bodyLen: nat, dataLen: nat)
    ensures var h := Header(m, bodyLen, dataLen);
            && MethodFromByte(h[0]) == Some(m)
            && FromLE(h[1..5]) == (HEADER_LEN + bodyLen) % U32_BOUND
            && FromLE(h[5..9]) == dataLen % U32_BOUND
  {
    hide LE, FromLE, Pow256;
    var h := Header(m, bodyLen, dataLen);
    var size, unpacked := (HEADER_LEN + bodyLen) % U32_BOUND, dataLen % U32_BOUND;
    Pow256Values();
    FromLEOfLE(4, size);
    FromLEOfLE(4, unpacked);
    assert h[1..5] == LE(4, size);
    assert h[5..9] == LE(4, unpacked);
  }

  /** What a reader gets out of a stream of frames; an empty frame, a broken
      one or the end of the stream stops it. */
  function Inflate(codec: Compressor, s: seq<byte>): seq<byte>
    decreases |s|
  {
    match ParseFrame(codec, s)
    case Err(_) => []
    case Ok((data, rest)) => if data == [] then [] else data + Inflate(codec, rest)
  }

  /** What a reader of the frames meets when it wants more than they hold: the
      error of the frame that broke, or an early end. */
  function Stop(codec: Compressor, s: seq<byte>): Error
    decreases |s|
  {
    match ParseFrame(codec, s)
    case Err(e) => e
    case Ok((data, rest)) => if data == [] then UnexpectedEof else Stop(codec, rest)
  }

  /** Reads one frame off the chunked stream (`decode_frame`). */
  method DecodeFrame(codec: Compressor, inner: ChunkedStream) returns (r: Result<seq<byte>>)
    modifies inner`readRemaining, inner.inner`data
    ensures var spec := ParseFrame(codec, old(inner.Rest()));
            match spec
            case Ok((data, rest)) => r == Ok(data) && inner.Rest() == rest
            case Err(e) => r == Err(e)
  {
    hide Deframe, FromLE, MethodFromByte, ChunkedStream.Rest;
    var checksum := inner.ReadExact(CHECKSUM_LEN);
    if checksum.Err? { return checksum; }
    var header := inner.ReadExact(HEADER_LEN);
    if header.Err? { return header; }
    var m := MethodFromByte(header.value[0]);
    if m.None? { return Err(InvalidData); }
    var size := FromLE(header.value[1..5]);
    var unpacked := FromLE(header.value[5..9]);
    if size < HEADER_LEN { return Err(InvalidData); }
    var body := inner.ReadExact(size - HEADER_LEN);
    if body.Err? { return body; }
    if codec.digest(header.value + body.value) != checksum.value {
      return Err(InvalidData);
    }
    var data := codec.Unpack(m.value, body.value, unpacked);
    if data.None? || |data.value| != unpacked { return Err(InvalidData); }
    r := Ok(data.value);
  }

  /** The state of a reader: unpacked bytes in hand, and the stream behind. */
  datatype Lag = Lag(hand: seq<byte>, behind: seq<byte>)

  /** The state after `n` more bytes were taken, when a new frame is unpacked
      only once the last one is used up. */
  function Advance(codec: Compressor, lag: Lag, n: nat): Lag
    decreases |lag.behind|
  {
    if n <= |lag.hand| then Lag(lag.hand[n..], lag.behind)
    else
      match ParseFrame(codec, lag.behind)
      case Err(_) => lag
      case Ok((data, rest)) =>
        if data == [] then lag else Advance(codec, Lag(data, rest), n - |lag.hand|)
  }

  lemma AdvanceNone(codec: Compressor, lag: Lag)
    ensures Advance(codec, lag, 0) == lag
  {
  }

  lemma {:induction false} AdvanceAdd(codec: Compressor, lag: Lag, m: nat, n: nat)
    requires m + n <= |lag.hand + Inflate(codec, lag.behind)|
    ensures Advance(codec, Advance(codec, lag, m), n) == Advance(codec, lag, m + n)
    decreases |lag.behind|
  {
    if m <= |lag.hand| {
      if m + n > |lag.hand| {
        match ParseFrame(codec, lag.behind)
        case Ok((data, rest)) =>
        case Err(_) =>
      } else {
        assert lag.hand[m..][n..] == lag.hand[m + n..];
      }
    } else {
      match ParseFrame(codec, lag.behind)
      case Ok((data, rest)) =>
        AdvanceAdd(codec, Lag(data, rest), m - |lag.hand|, n);
      case Err(_) =>
    }
  }

  /** Unpacking a frame into an empty hand changes nothing a reader can see. */
  lemma Refill(codec: Compressor, behind: seq<byte>, data: seq<byte>, rest: seq<byte>)
    requires ParseFrame(codec, behind) == Ok((data, rest)) && data != []
    ensures Inflate(codec, behind) == data + Inflate(codec, rest) && Stop(codec, behind) == Stop(codec, rest)
    ensures forall n: nat :: n > 0 ==>
              Advance(codec, Lag([], behind), n) == Advance(codec, Lag(data, rest), n)
  {
  }

  lemma TakeFromHand(codec: Compressor, hand: seq<byte>, behind: seq<byte>, k: nat)
    requires k <= |hand|
    ensures Advance(codec, Lag(hand, behind), k) == Lag(hand[k..], behind)
    ensures hand + Inflate(codec, behind) == hand[..k] + (hand[k..] + Inflate(codec, behind))
  {
  }

  class CompressedReader {
    const inner: ChunkedStream
    const codec: Compressor
    var buf: seq<byte>
    var pos: nat

    constructor (inner: ChunkedStream, codec: Compressor)
      ensures this.inner == inner && this.codec == codec
      ensures Valid() && Lagging() == Lag([], inner.Rest())
    {
      this.inner, this.codec := inner, codec;
      buf, pos := [], 0;
    }

    ghost predicate Valid()
      reads this
    {
      pos <= |buf|
    }

    ghost function Lagging(): Lag
      reads this, inner, inner.inner
      requires Valid()
    {
      Lag(buf[pos..], inner.Rest())
    }

    ghost function Rest(): seq<byte>
      reads this, inner, inner.inner
      requires Valid()
    {
      buf[pos..] + Inflate(codec, inner.Rest())
    }

    /** The first half of `read`: with nothing in hand, unpack the next frame. */
    method Fill() returns (r: Result<()>)
      requires Valid() && pos >= |buf|
      modifies this`buf, this`pos, inner`readRemaining, inner.inner`data
      ensures Valid()
      ensures r.Err? || buf == [] ==> old(Rest()) == []
      ensures r.Err? ==> r.error == old(Stop(codec, inner.Rest()))
      ensures r.Ok? && buf == [] ==> old(Stop(codec, inner.Rest())) == UnexpectedEof
      ensures r.Ok? && buf != [] ==>
                && pos == 0
                && Rest() == old(Rest()) && Stop(codec, inner.Rest()) == old(Stop(codec, inner.Rest()))
                && (forall n: nat :: n > 0 ==>
                      Advance(codec, old(Lagging()), n) == Advance(codec, Lagging(), n))
    {
      ghost var behind := inner.Rest();
      assert buf[pos..] == [];
      var frame := DecodeFrame(codec, inner);
      if frame.Err? {
        return Err(frame.error);
      }
      buf, pos := frame.value, 0;
      assert buf[pos..] == buf;
      if buf != [] {
        Refill(codec, behind, buf, inner.Rest());
      }
      r := Ok(());
    }

    /** Some of the coming bytes, at most `n`. Getting none (or an error) means
        there are none, and the error is that of the frame that broke; otherwise
        no frame is touched before it is needed. */
    method Read(n: nat) returns (r: Result<seq<byte>>)
      requires Valid() && n > 0
      modifies this`buf, this`pos, inner`readRemaining, inner.inner`data
      ensures Valid()
      ensures r.Err? || r.value == [] ==> old(Rest()) == []
      ensures r.Err? ==> r.error == old(Stop(codec, inner.Rest()))
      ensures r == Ok([]) ==> old(Stop(codec, inner.Rest())) == UnexpectedEof
      ensures r.Ok? && r.value != [] ==>
                && |r.value| <= n && Stop(codec, inner.Rest()) == old(Stop(codec, inner.Rest()))
                && r.value + Rest() == old(Rest())
                && Lagging() == Advance(codec, old(Lagging()), |r.value|)
    {
      hide Inflate, Advance, Stop;
      if pos >= |buf| {
        var filled := Fill();
        if filled.Err? {
          return Err(filled.error);
        }
        if buf == [] {
          return Ok([]);
        }
      }
      var k := if |buf| - pos <= n then |buf| - pos else n;
      var got := buf[pos..pos + k];
      TakeFromHand(codec, buf[pos..], inner.Rest(), k);
      assert buf[pos..][..k] == got && buf[pos..][k..] == buf[pos + k..];
      pos := pos + k;
      r := Ok(got);
    }
  }

  class CompressedWriter {
    const inner: ChunkedStream
    const codec: Compressor
    const m: Method
    var buf: seq<byte>

    constructor (inner: ChunkedStream, codec: Compressor, m: Method)
      ensures this.inner == inner && this.codec == codec && this.m == m && buf == []
    {
      this.inner, this.codec, this.m := inner, codec, m;
      buf := [];
    }

    method Write(b: seq<byte>)
      modifies this`buf
      ensures buf == old(buf) + b
    {
      buf := buf + b;
    }

    /** One frame for everything buffered, then a flush of the stream below;
        an empty buffer still makes a frame. */
    method Flush()
      modifies this`buf, inner`writeBuf, inner.inner`sent
      ensures buf == []
      ensures inner.Sending()
           == old(inner.Sending()).Apply(OpWrite(EncodeFrame(codec, m, old(buf)))).Apply(OpFlush)
    {
      var body := codec.Body(m, buf);
      var compressedSize := (HEADER_LEN + |body|) % U32_BOUND;
      var headerAndBody := [MethodByte(m)] + LE(4, compressedSize) + LE(4, |buf| % U32_BOUND) + body;
      var frame := codec.digest(headerAndBody) + headerAndBody;
      inner.Write(frame);
      buf := [];
      inner.Flush();
    }
  }
}
