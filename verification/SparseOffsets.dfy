/** src/proto/column.rs: the offsets stream of the SPARSE column kind. Each
    VarUInt counts the default rows before the next explicit one; the last one,
    flagged in bit 62, counts the default rows at the end. */
module SparseOffsets {
  import opened Base
  import opened Wire
  import opened Chunked
  import opened Compression
  import opened ByteIO

  const END_OF_GRANULE: nat := 0x4000_0000_0000_0000

  predicate IsEnd(raw: nat) {
    raw / END_OF_GRANULE % 2 == 1
  }

  function GroupSize(raw: nat): nat {
    if IsEnd(raw) then raw - END_OF_GRANULE else raw
  }

  function ParsePositions(rows: nat, cursor: nat, positions: seq<nat>, s: seq<byte>): Parsed<seq<nat>>
    decreases |s|
  {
    var (raw, rest) :- ParseVarUInt(s);
    var at := cursor + GroupSize(raw);
    if at >= U64_BOUND then Err(Panic)
    else if IsEnd(raw) then
      if at != rows then Err(InvalidData) else Ok((positions, rest))
    else if at >= rows then Err(InvalidData)
    else ParsePositions(rows, at + 1, positions + [at], rest)
  }

  /** Whatever the stream says, no more than `rows + 1` numbers are read. */
  method ReadPositions(r: ByteReader, rows: nat) returns (res: Result<seq<nat>>, ghost rounds: nat)
    requires r.Valid()
    modifies r.Repr()
    ensures r.Delivers(res, ParsePositions(rows, 0, [], old(r.rest)))
    ensures rounds <= rows + 1
  {
    hide Inflate, Advance, Deframe, ByteReader.Valid, ParseVarUInt, IsEnd, GroupSize;
    ghost var goal := ParsePositions(rows, 0, [], r.rest);
    var positions: seq<nat>, cursor := [], 0;
    rounds := 0;
    while true
      invariant r.Valid() && rounds <= cursor <= rows
      invariant ParsePositions(rows, cursor, positions, r.rest) == goal
      decreases rows - cursor
    {
      rounds := rounds + 1;
      var raw := r.ReadVarUInt();
      if raw.Err? {
        return Err(raw.error), rounds;
      }
      var at := cursor + GroupSize(raw.value);
      if at >= U64_BOUND {
        return Err(Panic), rounds;
      }
      if IsEnd(raw.value) {
        cursor := at;
        break;
      }
      if at >= rows {
        return Err(InvalidData), rounds;
      }
      positions, cursor := positions + [at], at + 1;
    }
    res := if cursor != rows then Err(InvalidData) else Ok(positions);
  }

  // ---- Accepted streams -------------------------------------------------------------

  /** Strictly increasing positions in `[from, rows)`. */
  predicate Increasing(positions: seq<nat>, from: nat, rows: nat) {
    && (forall i :: 0 <= i < |positions| ==> from <= positions[i] < rows)
    && (forall i, j :: 0 <= i < j < |positions| ==> positions[i] < positions[j])
  }

  /** The default rows before each position and after the last one. */
  function Gaps(positions: seq<nat>, from: nat, rows: nat): (g: seq<nat>)
    requires Increasing(positions, from, rows) && from <= rows
    ensures |g| == |positions| + 1
    decreases |positions|
  {
    if positions == [] then [rows - from]
    else [positions[0] - from] + Gaps(positions[1..], positions[0] + 1, rows)
  }

  function Total(xs: seq<nat>): nat {
    if xs == [] then 0 else xs[0] + Total(xs[1..])
  }

  /** Default rows and explicit rows make up the column. */
  lemma {:induction false} GapsCover(positions: seq<nat>, from: nat, rows: nat)
    requires Increasing(positions, from, rows) && from <= rows
    ensures Total(Gaps(positions, from, rows)) + |positions| == rows - from
    decreases |positions|
  {
    if positions != [] {
      GapsCover(positions[1..], positions[0] + 1, rows);
    } else {
      assert Gaps(positions, from, rows)[1..] == [];
    }
  }

  /** The flag bit or-ed in. */
  function Flagged(gap: nat): (raw: nat)
    ensures IsEnd(raw)
    ensures gap < U64_BOUND ==> raw < U64_BOUND
  {
    if IsEnd(gap) then gap else gap + END_OF_GRANULE
  }

  /** The numbers on the wire: the gaps, the last one flagged. */
  function Marked(gaps: seq<nat>): (raws: seq<nat>)
    requires gaps != []
    ensures |raws| == |gaps|
  {
    gaps[..|gaps| - 1] + [Flagged(gaps[|gaps| - 1])]
  }

  /** No gap has the flag bit of its own. */
  predicate FlagsClear(gaps: seq<nat>) {
    forall i :: 0 <= i < |gaps| ==> !IsEnd(gaps[i])
  }

  lemma MarkedCons(g: nat, gaps: seq<nat>)
    requires gaps != []
    ensures Marked([g] + gaps) == [g] + Marked(gaps)
    ensures FlagsClear([g] + gaps) <==> !IsEnd(g) && FlagsClear(gaps)
  {
    hide IsEnd, Flagged;
    var all := [g] + gaps;
    assert all[..|gaps|] == [g] + gaps[..|gaps| - 1];
    assert all[0] == g && forall i :: 0 <= i < |gaps| ==> all[i + 1] == gaps[i];
    if FlagsClear(all) {
      forall i | 0 <= i < |gaps| ensures !IsEnd(gaps[i]) {
        assert !IsEnd(all[i + 1]);
      }
    }
  }

  /** The stream is the marked gaps of the positions found, spelled as VarUInts,
      and `rest` follows it. */
  ghost predicate Marks(found: seq<nat>, cursor: nat, rows: nat, s: seq<byte>, rest: seq<byte>) {
    && cursor <= rows && Increasing(found, cursor, rows)
    && ParseVarUInts(|found| + 1, s) == Ok((Marked(Gaps(found, cursor, rows)), rest))
  }

  lemma LastMark(cursor: nat, rows: nat, s: seq<byte>, raw: nat, rest: seq<byte>)
    requires ParseVarUInt(s) == Ok((raw, rest)) && IsEnd(raw) && cursor + GroupSize(raw) == rows
    ensures Marks([], cursor, rows, s, rest)
  {
    hide ParseVarUInt, IsEnd, GroupSize, Flagged, Marked;
    GroupSizes(raw);
    assert ParseVarUInts(0, rest) == Ok(([], rest));
    assert ParseVarUInts(1, s) == Ok(([raw] + [], rest)) && [raw] + [] == [raw];
    assert Gaps([], cursor, rows) == [raw - END_OF_GRANULE];
    OneGap(raw - END_OF_GRANULE, []);
  }

  lemma FirstMark(found: seq<nat>, cursor: nat, rows: nat, s: seq<byte>, raw: nat, after: seq<byte>, rest: seq<byte>)
    requires ParseVarUInt(s) == Ok((raw, after)) && !IsEnd(raw) && cursor + raw < rows
    requires Marks(found, cursor + raw + 1, rows, after, rest)
    ensures Marks([cursor + raw] + found, cursor, rows, s, rest)
  {
    hide ParseVarUInt, IsEnd, Marked;
    var at := cursor + raw;
    var all, gaps := [at] + found, Gaps(found, at + 1, rows);
    assert all[0] == at && all[1..] == found;
    PrependIncreasing(found, at, cursor, rows);
    MarkedCons(raw, gaps);
  }

  lemma PrependIncreasing(found: seq<nat>, at: nat, cursor: nat, rows: nat)
    requires Increasing(found, at + 1, rows) && cursor <= at < rows
    ensures Increasing([at] + found, cursor, rows)
  {
  }

  /** An accepted stream is nothing but the marked gaps of increasing positions
      below `rows`. */
  lemma {:induction false} AcceptedStream(rows: nat, cursor: nat, done: seq<nat>, s: seq<byte>)
    requires cursor <= rows
    ensures var r := ParsePositions(rows, cursor, done, s);
            r.Ok? ==>
              var (all, rest) := r.value;
              && done <= all && Increasing(all[|done|..], cursor, rows)
              && var found := all[|done|..];
                 ParseVarUInts(|found| + 1, s) == Ok((Marked(Gaps(found, cursor, rows)), rest))
    decreases |s|
  {
    hide ParseVarUInt, IsEnd, GroupSize, Marked, Gaps, Increasing, ParseVarUInts;
    if ParsePositions(rows, cursor, done, s).Ok? {
      var (raw, after) := ParseVarUInt(s).value;
      var at := cursor + GroupSize(raw);
      GroupSizes(raw);
      var (all, rest) := ParsePositions(rows, cursor, done, s).value;
      if IsEnd(raw) {
        assert all[|done|..] == [];
        LastMark(cursor, rows, s, raw, after);
      } else {
        AcceptedStream(rows, at + 1, done + [at], after);
        var tail := all[|done + [at]|..];
        assert all[|done|..] == [at] + tail;
        FirstMark(tail, cursor, rows, s, raw, after, rest);
      }
    }
  }

  lemma GroupSizes(raw: nat)
    ensures IsEnd(raw) ==> raw >= END_OF_GRANULE && GroupSize(raw) == raw - END_OF_GRANULE
    ensures IsEnd(raw) ==> Flagged(raw - END_OF_GRANULE) == raw
    ensures !IsEnd(raw) ==> GroupSize(raw) == raw && GroupSize(Flagged(raw)) == raw
    ensures IsEnd(raw) ==> GroupSize(Flagged(raw)) == raw - END_OF_GRANULE
  {
  }

  // ---- The server's side ----------------------------------------------------------------

  function EncodePositions(positions: seq<nat>, rows: nat): seq<byte>
    requires Increasing(positions, 0, rows)
  {
    LebAll(Marked(Gaps(positions, 0, rows)))
  }

  /** Gap-encoded positions are read back, and nothing after them is touched,
      exactly when no gap has bit 62 set. */
  lemma PositionsReadBack(positions: seq<nat>, rows: nat, rest: seq<byte>)
    requires Increasing(positions, 0, rows) && rows < U64_BOUND
    ensures ParsePositions(rows, 0, [], EncodePositions(positions, rows) + rest) == Ok((positions, rest))
       <==> FlagsClear(Gaps(positions, 0, rows))
  {
    ReadBackFrom(positions, 0, rows, [], rest);
    assert [] + positions == positions;
  }

  lemma {:induction false} ReadBackFrom(positions: seq<nat>, from: nat, rows: nat, done: seq<nat>, rest: seq<byte>)
    requires Increasing(positions, from, rows) && from <= rows < U64_BOUND
    ensures var gaps := Gaps(positions, from, rows);
            ParsePositions(rows, from, done, LebAll(Marked(gaps)) + rest)
            == if FlagsClear(gaps) then Ok((done + positions, rest)) else Err(InvalidData)
    decreases |positions|
  {
    hide ParseVarUInt, IsEnd, GroupSize, Leb, Flagged, FlagsClear, Marked;
    var gaps := Gaps(positions, from, rows);
    GroupSizes(gaps[0]);
    if positions == [] {
      var raw := Flagged(gaps[0]);
      OneGap(gaps[0], rest);
      ParseVarUIntAppend(raw, rest);
      assert done + positions == done;
    } else {
      var tail, at := positions[1..], positions[0];
      var others := Gaps(tail, at + 1, rows);
      assert gaps == [gaps[0]] + others;
      MarkedCons(gaps[0], others);
      var more := LebAll(Marked(others)) + rest;
      assert LebAll(Marked(gaps)) + rest == Leb(gaps[0]) + more by {
        assert ([gaps[0]] + Marked(others))[1..] == Marked(others);
      }
      ParseVarUIntAppend(gaps[0], more);
      if !IsEnd(gaps[0]) {
        ReadBackFrom(tail, at + 1, rows, done + [at], rest);
        assert done + [at] + tail == done + positions;
      }
    }
  }

  lemma OneGap(gap: nat, rest: seq<byte>)
    ensures Marked([gap]) == [Flagged(gap)] && LebAll(Marked([gap])) + rest == Leb(Flagged(gap)) + rest
    ensures FlagsClear([gap]) <==> !IsEnd(gap)
  {
    hide IsEnd, Leb, Flagged;
    var raw := Flagged(gap);
    assert Marked([gap]) == [raw] && [raw][1..] == [];
    assert [gap][0] == gap;
  }

  /** The narrowest gap that is misread; one of 2^63 is read correctly. */
  lemma WideGapIsMisread(rest: seq<byte>)
    ensures ParsePositions(END_OF_GRANULE + 1, 0, [], EncodePositions([END_OF_GRANULE], END_OF_GRANULE + 1) + rest)
         == Err(InvalidData)
    ensures var wide := 2 * END_OF_GRANULE;
            ParsePositions(wide + 1, 0, [], EncodePositions([wide], wide + 1) + rest) == Ok(([wide], rest))
  {
    OneWideGap(END_OF_GRANULE, rest);
    OneWideGap(2 * END_OF_GRANULE, rest);
  }

  lemma OneWideGap(at: nat, rest: seq<byte>)
    requires at < U64_BOUND - 1
    ensures ParsePositions(at + 1, 0, [], EncodePositions([at], at + 1) + rest)
         == if IsEnd(at) then Err(InvalidData) else Ok(([at], rest))
  {
    hide ParsePositions, IsEnd, FlagsClear, Marked, LebAll, Gaps;
    TwoGaps(at);
    ReadBackFrom([at], 0, at + 1, [], rest);
    assert [] + [at] == [at];
  }

  lemma TwoGaps(at: nat)
    ensures Gaps([at], 0, at + 1) == [at, 0]
    ensures FlagsClear(Gaps([at], 0, at + 1)) <==> !IsEnd(at)
  {
    hide IsEnd, Flagged, Marked, FlagsClear;
    assert [at][1..] == [] && [at][0] == at;
    assert Gaps([], at + 1, at + 1) == [0];
    assert Gaps([at], 0, at + 1) == [at] + [0];
    MarkedCons(at, [0]);
    OneGap(0, []);
    ZeroIsNoEnd();
  }

  lemma ZeroIsNoEnd()
    ensures !IsEnd(0)
  {
  }

  // ---- The stream in numbers -------------------------------------------------------------

  /** A number below 2^62 is a gap before an explicit row, and 2^62 more than a gap
      is the gap after the last one. */
  lemma StreamNumbers(rows: nat, cursor: nat, done: seq<nat>, gap: nat, rest: seq<byte>)
    requires gap < 0x4000_0000_0000_0000 && cursor <= rows < 0x4000_0000_0000_0000
    ensures ParsePositions(rows, cursor, done, Leb(gap) + rest)
         == if cursor + gap >= rows then Err(InvalidData)
            else ParsePositions(rows, cursor + gap + 1, done + [cursor + gap], rest)
    ensures ParsePositions(rows, cursor, done, Leb(0x4000_0000_0000_0000 + gap) + rest)
         == if cursor + gap != rows then Err(InvalidData) else Ok((done, rest))
  {
    hide ParseVarUInt, Leb;
    ParseVarUIntAppend(gap, rest);
    ParseVarUIntAppend(0x4000_0000_0000_0000 + gap, rest);
    MarkBit(gap);
    hide IsEnd, GroupSize;
  }

  lemma MarkBit(gap: nat)
    requires gap < 0x4000_0000_0000_0000
    ensures !IsEnd(gap) && GroupSize(gap) == gap
    ensures IsEnd(0x4000_0000_0000_0000 + gap) && GroupSize(0x4000_0000_0000_0000 + gap) == gap
  {
  }
}
