/** src/proto/wire.rs: the `ProtoRead` and `ProtoWrite` methods. A reader or a
    writer stands on a chunked stream, with or without compression frames
    between, as src/client.rs stacks them. */
module ByteIO {
  import opened Base
  import opened Wire
  import opened Chunked
  import opened Compression

  /** `n` little-endian integers of `width` bytes, after those in `v`. */
  function ParseLEs(width: nat, n: nat, v: seq<nat>, s: seq<byte>): Parsed<seq<nat>> {
    if n == 0 then Ok((v, s))
    else
      var (x, rest) :- ParseLE(width, s);
      ParseLEs(width, n - 1, v + [x], rest)
  }

  function LEs(width: nat, xs: seq<nat>): seq<byte> {
    if xs == [] then [] else LE(width, xs[0]) + LEs(width, xs[1..])
  }

  function ParseStrings(n: nat, v: seq<string>, s: seq<byte>): Parsed<seq<string>> {
    if n == 0 then Ok((v, s))
    else
      var (x, rest) :- ParseString(s);
      ParseStrings(n - 1, v + [x], rest)
  }

  function EncodeStrings(xs: seq<string>): seq<byte> {
    if xs == [] then [] else EncodeString(xs[0]) + EncodeStrings(xs[1..])
  }

  predicate AllBelow(xs: seq<nat>, bound: nat) {
    forall i :: 0 <= i < |xs| ==> xs[i] < bound
  }

  lemma {:induction false} ParseLEsAppend(width: nat, xs: seq<nat>, v: seq<nat>, rest: seq<byte>)
    requires AllBelow(xs, Pow256(width))
    ensures ParseLEs(width, |xs|, v, LEs(width, xs) + rest) == Ok((v + xs, rest))
  {
    hide LE, ParseLE, Pow256;
    if xs == [] {
      assert LEs(width, xs) + rest == rest && v + xs == v;
    } else {
      ParseLEAppend(width, xs[0], LEs(width, xs[1..]) + rest);
      assert LEs(width, xs) + rest == LE(width, xs[0]) + (LEs(width, xs[1..]) + rest);
      ParseLEsAppend(width, xs[1..], v + [xs[0]], rest);
      assert v + [xs[0]] + xs[1..] == v + xs;
    }
  }

  lemma {:induction false} ParseLEsBound(width: nat, n: nat, v: seq<nat>, s: seq<byte>)
    requires AllBelow(v, Pow256(width))
    ensures var r := ParseLEs(width, n, v, s);
            r.Ok? ==> |r.value.0| == |v| + n && AllBelow(r.value.0, Pow256(width))
  {
    if n > 0 {
      ParseLEBound(width, s);
      match ParseLE(width, s)
      case Ok((x, rest)) => ParseLEsBound(width, n - 1, v + [x], rest);
      case Err(_) =>
    }
  }

  predicate AllStringsFit(xs: seq<string>) {
    forall i :: 0 <= i < |xs| ==> |xs[i]| <= MAX_STRING_LEN
  }

  predicate AllRustStrings(xs: seq<string>) {
    forall i :: 0 <= i < |xs| ==> RustString(xs[i])
  }

  lemma {:induction false} ParseStringsAppend(xs: seq<string>, v: seq<string>, rest: seq<byte>)
    requires AllRustStrings(xs)
    ensures ParseStrings(|xs|, v, EncodeStrings(xs) + rest)
         == if AllStringsFit(xs) then Ok((v + xs, rest)) else Err(InvalidData)
  {
    hide EncodeString, ParseString, RustString;
    if xs == [] {
      assert EncodeStrings(xs) + rest == rest && v + xs == v;
    } else {
      ParseStringAppend(xs[0], EncodeStrings(xs[1..]) + rest);
      assert EncodeStrings(xs) + rest == EncodeString(xs[0]) + (EncodeStrings(xs[1..]) + rest);
      ParseStringsAppend(xs[1..], v + [xs[0]], rest);
      assert v + [xs[0]] + xs[1..] == v + xs;
      assert AllStringsFit(xs) <==> |xs[0]| <= MAX_STRING_LEN && AllStringsFit(xs[1..]) by {
        assert xs == [xs[0]] + xs[1..];
      }
    }
  }

  lemma {:induction false} ParseStringsBound(n: nat, v: seq<string>, s: seq<byte>)
    requires AllRustStrings(v) && AllStringsFit(v)
    ensures var r := ParseStrings(n, v, s);
            r.Ok? ==> |r.value.0| == |v| + n && AllRustStrings(r.value.0) && AllStringsFit(r.value.0)
  {
    if n > 0 {
      match ParseString(s)
      case Ok((x, rest)) => ParseStringsBound(n - 1, v + [x], rest);
      case Err(_) =>
    }
  }

  // ---- Reading ---------------------------------------------------------------

  class ByteReader {
    const base: ChunkedStream
    const frames: CompressedReader?
    ghost const origin: seq<byte>
    ghost const start: Lag
    ghost const failure: Error  // how a read fails that wants more than there is
    ghost var rest: seq<byte>  // everything still to be read

    constructor Plain(base: ChunkedStream)
      ensures this.base == base && frames == null
      ensures Valid() && rest == base.Rest() && failure == UnexpectedEof
    {
      this.base, frames := base, null;
      origin, start, rest := base.Rest(), Lag([], []), base.Rest();
      failure := UnexpectedEof;
    }

    constructor Compressed(base: ChunkedStream, codec: Compressor)
      ensures this.base == base && frames != null && fresh(frames) && frames.codec == codec
      ensures Valid() && rest == Inflate(codec, base.Rest())
      ensures origin == rest && start == Lag([], base.Rest()) && failure == Stop(codec, base.Rest())
    {
      this.base := base;
      var cr := new CompressedReader(base, codec);
      frames := cr;
      ghost var ahead := Inflate(codec, base.Rest());
      origin, start, rest := ahead, Lag([], base.Rest()), ahead;
      failure := Stop(codec, base.Rest());
      new;
      hide Inflate, Advance, Stop, Deframe;
      AdvanceNone(codec, start);
      assert frames.buf[frames.pos..] == [];
    }

    ghost function Repr(): set<object> {
      {this, base, base.inner} + (if frames != null then {frames} else {})
    }

    ghost predicate Layered()
      reads Repr()
    {
      frames != null ==> frames.inner == base && frames.Valid()
    }

    /** `rest` is what the layers below will deliver, and no frame was unpacked
        before the bytes read so far called for it. */
    ghost predicate Valid()
      reads Repr()
    {
      && Layered()
      && rest == (if frames == null then base.Rest() else frames.Rest())
      && |rest| <= |origin|
      && failure == (if frames == null then UnexpectedEof else Stop(frames.codec, base.Rest()))
      && (frames != null ==>
            && start.hand + Inflate(frames.codec, start.behind) == origin
            && frames.Lagging() == Advance(frames.codec, start, |origin| - |rest|))
    }

    /** A read did what its parser says of the bytes that were ahead. An early
        end is reported the way the layers below fail. */
    ghost predicate Delivers<T>(r: Result<T>, spec: Parsed<T>)
      reads Repr()
    {
      match spec
      case Ok((v, after)) => r == Ok(v) && Valid() && rest == after
      case Err(e) => r == Err(if e == UnexpectedEof then failure else e)
    }

    method Read(n: nat) returns (r: Result<seq<byte>>)
      requires Valid() && n > 0
      modifies Repr()
      ensures r.Err? || r.value == [] ==> old(rest) == []
      ensures r.Err? ==> r.error == failure
      ensures r == Ok([]) ==> failure == UnexpectedEof
      ensures r.Ok? && r.value != [] ==>
                && Valid() && |r.value| <= n && r.value + rest == old(rest)
    {
      hide Inflate, Advance, Stop, Deframe;
      if frames == null {
        r := base.Read(n);
      } else {
        r := frames.Read(n);
        if r.Ok? && r.value != [] {
          AdvanceAdd(frames.codec, start, |origin| - |rest|, |r.value|);
        }
      }
      if r.Ok? && r.value != [] {
        rest := rest[|r.value|..];
      }
    }

    /** `std::io::Read::read_exact`. */
    method ReadExact(n: nat) returns (r: Result<seq<byte>>)
      requires Valid()
      modifies Repr()
      ensures Delivers(r, Take(n, old(rest)))
    {
      hide Inflate, Advance, Stop, Deframe, FromLE, ByteReader.Valid;
      var buf := [];
      while |buf| < n
        invariant |buf| <= n && Valid() && buf + rest == old(rest)
        decreases n - |buf|
      {
        var got := Read(n - |buf|);
        if got.Err? {
          return got;
        }
        if got.value == [] {
          return Err(UnexpectedEof);
        }
        ghost var was := buf;
        buf := buf + got.value;
        assert was + (got.value + rest) == buf + rest;
      }
      r := Ok(buf);
    }

    method ReadLE(width: nat) returns (r: Result<nat>)
      requires Valid()
      modifies Repr()
      ensures Delivers(r, ParseLE(width, old(rest)))
    {
      hide Inflate, Advance, Stop, Deframe, FromLE, ByteReader.Valid;
      var b := ReadExact(width);
      if b.Err? {
        return Err(b.error);
      }
      r := Ok(FromLE(b.value));
    }

    method ReadLEs(width: nat, n: nat) returns (r: Result<seq<nat>>)
      requires Valid()
      modifies Repr()
      ensures Delivers(r, ParseLEs(width, n, [], old(rest)))
    {
      hide Inflate, Advance, Stop, Deframe, ParseLE, ByteReader.Valid;
      ghost var goal := ParseLEs(width, n, [], rest);
      var v: seq<nat>, i := [], 0;
      while i < n
        invariant i <= n && Valid()
        invariant ParseLEs(width, n - i, v, rest) == goal
      {
        var x := ReadLE(width);
        if x.Err? {
          return Err(x.error);
        }
        v, i := v + [x.value], i + 1;
      }
      r := Ok(v);
    }

    method ReadVarUInt() returns (r: Result<nat>)
      requires Valid()
      modifies Repr()
      ensures Delivers(r, ParseVarUInt(old(rest)))
    {
      hide Inflate, Advance, Stop, Deframe, FromLE, ByteReader.Valid;
      var res: nat, shift: nat := 0, 0;
      while true
        invariant Valid() && shift % 7 == 0 && shift <= 70
        invariant shift < 64 ==> res < Pow2(shift)
        invariant ParseGroups(rest, shift, res) == ParseVarUInt(old(rest))
        decreases |rest|
      {
        ghost var before := rest;
        var buf := ReadExact(1);
        if buf.Err? {
          return Err(buf.error);
        }
        var x := buf.value[0];
        assert before[0] == x && before[1..] == rest;
        if shift >= 64 {
          return Err(Panic);
        }
        var data := ShiftLeft(x % 128, shift);
        ghost var c := ShiftLeftIs(x % 128, shift);
        OrDisjoint(res, c, shift);
        GroupRoom(res, c, shift);
        res := BitOr(res, data);
        shift := shift + 7;
        if x < 128 {
          return Ok(res);
        }
      }
    }

    method ReadString() returns (r: Result<string>)
      requires Valid()
      modifies Repr()
      ensures Delivers(r, ParseString(old(rest)))
    {
      hide Inflate, Advance, Stop, Deframe, FromLE, ByteReader.Valid;
      var l := ReadVarUInt();
      if l.Err? {
        return Err(l.error);
      }
      if l.value > MAX_STRING_LEN {
        return Err(InvalidData);
      }
      var b := ReadExact(l.value);
      if b.Err? {
        return Err(b.error);
      }
      if !Utf8(b.value) {
        return Err(InvalidData);
      }
      r := Ok(Text(b.value));
    }

    method ReadStrings(n: nat) returns (r: Result<seq<string>>)
      requires Valid()
      modifies Repr()
      ensures Delivers(r, ParseStrings(n, [], old(rest)))
    {
      hide Inflate, Advance, Stop, Deframe, ParseString, ByteReader.Valid;
      ghost var goal := ParseStrings(n, [], rest);
      var v: seq<string>, i := [], 0;
      while i < n
        invariant i <= n && Valid()
        invariant ParseStrings(n - i, v, rest) == goal
      {
        var x := ReadString();
        if x.Err? {
          return Err(x.error);
        }
        v, i := v + [x.value], i + 1;
      }
      r := Ok(v);
    }

  }

  // ---- Writing ------------------------------------------------------------------

  /** Where written bytes stand: in a frame being filled, or on the stream. */
  datatype Out = Direct(side: WriteSide) | InFrame(buf: seq<byte>, side: WriteSide) {

    function Plus(b: seq<byte>): Out {
      match this
      case Direct(side) => Direct(side.Apply(OpWrite(b)))
      case InFrame(buf, side) => InFrame(buf + b, side)
    }
  }

  lemma PlusPlus(o: Out, a: seq<byte>, b: seq<byte>)
    ensures o.Plus(a).Plus(b) == o.Plus(a + b)
  {
    match o
    case Direct(s) =>
      assert s.sent + a + b == s.sent + (a + b) && s.buf + a + b == s.buf + (a + b);
    case InFrame(buf, _) => assert buf + a + b == buf + (a + b);
  }

  lemma PlusNothing(o: Out)
    ensures o.Plus([]) == o
  {
    match o
    case Direct(s) => assert s.sent + [] == s.sent && s.buf + [] == s.buf;
    case InFrame(buf, _) => assert buf + [] == buf;
  }

  class ByteWriter {
    const base: ChunkedStream
    const frames: CompressedWriter?

    constructor Plain(base: ChunkedStream)
      ensures this.base == base && frames == null
      ensures Valid() && State() == Direct(base.Sending())
    {
      this.base, frames := base, null;
    }

    constructor Compressed(base: ChunkedStream, frames: CompressedWriter)
      requires frames.inner == base
      ensures this.base == base && this.frames == frames
      ensures Valid() && State() == InFrame(frames.buf, base.Sending())
    {
      this.base, this.frames := base, frames;
    }

    ghost function Repr(): set<object> {
      {base, base.inner} + (if frames != null then {frames} else {})
    }

    ghost predicate Valid() {
      frames != null ==> frames.inner == base
    }

    ghost function State(): Out
      reads Repr()
    {
      if frames == null then Direct(base.Sending()) else InFrame(frames.buf, base.Sending())
    }

    method Write(b: seq<byte>)
      requires Valid()
      modifies Repr()
      ensures State() == old(State()).Plus(b)
    {
      if frames == null {
        base.Write(b);
      } else {
        frames.Write(b);
      }
    }

    method WriteVarUInt(n: nat)
      requires Valid()
      modifies Repr()
      ensures State() == old(State()).Plus(Leb(n))
    {
      hide Out.Plus, ByteWriter.State;
      ghost var done: seq<byte> := [];
      PlusNothing(State());
      var x := n;
      while true
        invariant State() == old(State()).Plus(done)
        invariant done + Leb(x) == Leb(n)
        decreases x
      {
        var curr := x % 128;
        var more := x / 128;
        if more != 0 {
          curr := curr + 128;
        }
        ghost var before := x;
        x := more;
        Write([curr]);
        PlusPlus(old(State()), done, [curr]);
        if x == 0 {
          assert done + [curr] == Leb(n);
          break;
        }
        assert done + ([curr] + Leb(x)) == done + [curr] + Leb(x);
        done := done + [curr];
      }
    }

    method WriteLE(width: nat, x: nat)
      requires Valid()
      modifies Repr()
      ensures State() == old(State()).Plus(LE(width, x))
    {
      Write(LE(width, x));
    }

    method WriteLEs(width: nat, xs: seq<nat>)
      requires Valid()
      modifies Repr()
      ensures State() == old(State()).Plus(LEs(width, xs))
    {
      hide LE, Out.Plus, ByteWriter.State;
      ghost var done := [];
      PlusNothing(State());
      for i := 0 to |xs|
        invariant State() == old(State()).Plus(done)
        invariant done + LEs(width, xs[i..]) == LEs(width, xs)
      {
        WriteLE(width, xs[i]);
        PlusPlus(old(State()), done, LE(width, xs[i]));
        assert xs[i..][1..] == xs[i + 1..];
        assert done + (LE(width, xs[i]) + LEs(width, xs[i + 1..]))
            == done + LE(width, xs[i]) + LEs(width, xs[i + 1..]);
        done := done + LE(width, xs[i]);
      }
      assert done == LEs(width, xs);
    }

    method WriteString(s: string)
      requires Valid()
      modifies Repr()
      ensures State() == old(State()).Plus(EncodeString(s))
    {
      WriteVarUInt(|s|);
      PlusPlus(State(), Octets(s), []);
      PlusPlus(old(State()), Leb(|s|), Octets(s));
      Write(Octets(s));
    }

    method WriteStrings(xs: seq<string>)
      requires Valid()
      modifies Repr()
      ensures State() == old(State()).Plus(EncodeStrings(xs))
    {
      hide EncodeString, Out.Plus, ByteWriter.State;
      ghost var done := [];
      PlusNothing(State());
      for i := 0 to |xs|
        invariant State() == old(State()).Plus(done)
        invariant done + EncodeStrings(xs[i..]) == EncodeStrings(xs)
      {
        WriteString(xs[i]);
        PlusPlus(old(State()), done, EncodeString(xs[i]));
        assert xs[i..][1..] == xs[i + 1..];
        assert done + (EncodeString(xs[i]) + EncodeStrings(xs[i + 1..]))
            == done + EncodeString(xs[i]) + EncodeStrings(xs[i + 1..]);
        done := done + EncodeString(xs[i]);
      }
      assert done == EncodeStrings(xs);
    }
  }
}
