/** Bytes, errors and results shared by every module.

    A Rust `String` is modelled as a `string` holding one character per UTF-8
    byte, so that lengths and positions are byte lengths and byte positions. */
module Base {

  type byte = x: int | 0 <= x < 256

  const U32_BOUND: nat := 0x1_0000_0000
  const U64_BOUND: nat := 0x1_0000_0000_0000_0000

  /** The `ErrorKind`s the client raises. `Panic` stands for an abort: an
      out-of-bounds index or an arithmetic overflow. */
  datatype Error = UnexpectedEof | InvalidData | InvalidInput | Unsupported | Panic

  datatype Result<+T> = Ok(value: T) | Err(error: Error) {

    /** Only a reader that runs out of bytes fails this way. */
    predicate EndsEarly() {
      Err? && error == UnexpectedEof
    }

    predicate IsFailure() {
      Err?
    }

    function PropagateFailure<U>(): Result<U>
      requires Err?
    {
      Err(error)
    }

    function Extract(): T
      requires Ok?
    {
      value
    }
  }

  datatype Option<+T> = None | Some(value: T)

  // The bytes of a string, and the string of some bytes.

  function Octets(s: string): (b: seq<byte>)
    ensures |b| == |s|
  {
    seq(|s|, i requires 0 <= i < |s| => s[i] as int % 256)
  }

  function Text(b: seq<byte>): (s: string)
    ensures |s| == |b|
  {
    seq(|b|, i requires 0 <= i < |b| => b[i] as char)
  }

  predicate IsByteString(s: string) {
    forall i :: 0 <= i < |s| ==> s[i] as int < 256
  }

  lemma TextOfOctets(s: string)
    requires IsByteString(s)
    ensures Text(Octets(s)) == s
  {
  }

  lemma OctetsOfText(b: seq<byte>)
    ensures IsByteString(Text(b))
    ensures Octets(Text(b)) == b
  {
  }

  predicate Continuation(b: byte) {
    0x80 <= b <= 0xBF
  }

  /** Well-formed UTF-8, as `String::from_utf8` checks it. */
  predicate Utf8(b: seq<byte>)
    decreases |b|
  {
    if b == [] then true
    else if b[0] < 0x80 then Utf8(b[1..])
    else if 0xC2 <= b[0] <= 0xDF then
      |b| >= 2 && Continuation(b[1]) && Utf8(b[2..])
    else if 0xE0 <= b[0] <= 0xEF then
      && |b| >= 3 && Continuation(b[1]) && Continuation(b[2])
      && (b[0] == 0xE0 ==> b[1] >= 0xA0)
      && (b[0] == 0xED ==> b[1] <= 0x9F)
      && Utf8(b[3..])
    else if 0xF0 <= b[0] <= 0xF4 then
      && |b| >= 4 && Continuation(b[1]) && Continuation(b[2]) && Continuation(b[3])
      && (b[0] == 0xF0 ==> b[1] >= 0x90)
      && (b[0] == 0xF4 ==> b[1] <= 0x8F)
      && Utf8(b[4..])
    else false
  }

  /** What the Rust type `String` guarantees. */
  predicate RustString(s: string) {
    IsByteString(s) && Utf8(Octets(s)) && |s| < U64_BOUND
  }
}
