/** src/bin/ch-tsv.rs: SQL text cut into statements at the semicolons that are
    not inside quotes or comments. Text is one character per byte. */
module SqlSplit {
  import opened Escape
  import opened TypeString

  // ---- The scanners ------------------------------------------------------------------

  /** Past the closing quote, scanning from inside the string. */
  function SingleEnd(s: string, i: nat): (j: nat)
    requires i <= |s|
    ensures i <= j <= |s|
    decreases |s| - i
  {
    if i == |s| then i
    else if s[i] == '\\' && i + 1 < |s| then SingleEnd(s, i + 2)
    else if s[i] == '\'' then
      if i + 1 < |s| && s[i + 1] == '\'' then SingleEnd(s, i + 2) else i + 1
    else SingleEnd(s, i + 1)
  }

  function DoubleEnd(s: string, i: nat): (j: nat)
    requires i <= |s|
    ensures i <= j <= |s|
    decreases |s| - i
  {
    if i == |s| then i
    else if s[i] == '\\' && i + 1 < |s| then DoubleEnd(s, i + 2)
    else if s[i] == '"' then i + 1
    else DoubleEnd(s, i + 1)
  }

  function BacktickEnd(s: string, i: nat): (j: nat)
    requires i <= |s|
    ensures i <= j <= |s|
    decreases |s| - i
  {
    if i == |s| then i else if s[i] == '`' then i + 1 else BacktickEnd(s, i + 1)
  }

  function LineEnd(s: string, i: nat): (j: nat)
    requires i <= |s|
    ensures i <= j <= |s|
    decreases |s| - i
  {
    if i == |s| || s[i] == '\n' then i else LineEnd(s, i + 1)
  }

  function BlockEnd(s: string, i: nat): (j: nat)
    requires i <= |s|
    ensures i <= j <= |s|
    decreases |s| - i
  {
    if i + 1 >= |s| then |s|
    else if s[i] == '*' && s[i + 1] == '/' then i + 2
    else BlockEnd(s, i + 1)
  }

  method SkipSingleQuoted(s: string, start: nat) returns (i: nat)
    requires start < |s|
    ensures i == SingleEnd(s, start + 1)
  {
    i := start + 1;
    while i < |s|
      invariant i <= |s| && SingleEnd(s, i) == SingleEnd(s, start + 1)
    {
      if s[i] == '\\' && i + 1 < |s| {
        i := i + 2;
      } else if s[i] == '\'' {
        if i + 1 < |s| && s[i + 1] == '\'' {
          i := i + 2;
        } else {
          return i + 1;
        }
      } else {
        i := i + 1;
      }
    }
  }

  method SkipDoubleQuoted(s: string, start: nat) returns (i: nat)
    requires start < |s|
    ensures i == DoubleEnd(s, start + 1)
  {
    i := start + 1;
    while i < |s|
      invariant i <= |s| && DoubleEnd(s, i) == DoubleEnd(s, start + 1)
    {
      if s[i] == '\\' && i + 1 < |s| {
        i := i + 2;
      } else if s[i] == '"' {
        return i + 1;
      } else {
        i := i + 1;
      }
    }
  }

  method SkipBacktick(s: string, start: nat) returns (i: nat)
    requires start < |s|
    ensures i == BacktickEnd(s, start + 1)
  {
    i := start + 1;
    while i < |s| && s[i] != '`'
      invariant i <= |s| && BacktickEnd(s, i) == BacktickEnd(s, start + 1)
    {
      i := i + 1;
    }
    if i < |s| {
      i := i + 1;
    }
  }

  method SkipLineComment(s: string, start: nat) returns (i: nat)
    requires start + 1 < |s|
    ensures i == LineEnd(s, start + 2)
  {
    i := start + 2;
    while i < |s| && s[i] != '\n'
      invariant i <= |s| && LineEnd(s, i) == LineEnd(s, start + 2)
    {
      i := i + 1;
    }
  }

  method SkipBlockComment(s: string, start: nat) returns (i: nat)
    requires start + 1 < |s|
    ensures i == BlockEnd(s, start + 2)
  {
    i := start + 2;
    while i + 1 < |s|
      invariant i <= |s| && BlockEnd(s, i) == BlockEnd(s, start + 2)
    {
      if s[i] == '*' && s[i + 1] == '/' {
        return i + 2;
      }
      i := i + 1;
    }
    return |s|;
  }

  // ---- The splitter ---------------------------------------------------------------------

  /** Where the token that begins at `i` ends. Every token has a character. */
  function TokenEnd(s: string, i: nat): (j: nat)
    requires i < |s|
    ensures i < j <= |s|
  {
    if s[i] == '\'' then SingleEnd(s, i + 1)
    else if s[i] == '"' then DoubleEnd(s, i + 1)
    else if s[i] == '`' then BacktickEnd(s, i + 1)
    else if s[i] == '-' && i + 1 < |s| && s[i + 1] == '-' then LineEnd(s, i + 2)
    else if s[i] == '/' && i + 1 < |s| && s[i + 1] == '*' then BlockEnd(s, i + 2)
    else i + 1
  }

  predicate Blank(s: string) {
    forall i :: 0 <= i < |s| ==> IsSpace(s[i])
  }

  function Finish(parts: seq<string>, tail: string): seq<string> {
    if Blank(tail) then parts else parts + [tail]
  }

  function CutFrom(s: string, i: nat, start: nat, parts: seq<string>): seq<string>
    requires start <= i <= |s|
    decreases |s| - i
  {
    if i == |s| then Finish(parts, s[start..])
    else if s[i] == ';' then CutFrom(s, i + 1, i + 1, parts + [s[start..i]])
    else CutFrom(s, TokenEnd(s, i), start, parts)
  }

  function Statements(s: string): seq<string> {
    CutFrom(s, 0, 0, [])
  }

  method SplitStatements(s: string) returns (out: seq<string>)
    ensures out == Statements(s)
  {
    hide SingleEnd, DoubleEnd, BacktickEnd, LineEnd, BlockEnd, Blank;
    out := [];
    var start: nat, i: nat := 0, 0;
    while i < |s|
      invariant start <= i <= |s| && CutFrom(s, i, start, out) == Statements(s)
      decreases |s| - i
    {
      var b := s[i];
      ghost var next := TokenEnd(s, i);
      if b == '\'' {
        i := SkipSingleQuoted(s, i);
      } else if b == '"' {
        i := SkipDoubleQuoted(s, i);
      } else if b == '`' {
        i := SkipBacktick(s, i);
      } else if b == '-' && i + 1 < |s| && s[i + 1] == '-' {
        i := SkipLineComment(s, i);
      } else if b == '/' && i + 1 < |s| && s[i + 1] == '*' {
        i := SkipBlockComment(s, i);
      } else if b == ';' {
        out := out + [s[start..i]];
        i := i + 1;
        start := i;
      } else {
        i := i + 1;
      }
      assert b != ';' ==> i == next;
    }
    if start < |s| {
      var tail := s[start..];
      if !Blank(tail) {
        out := out + [tail];
      }
    } else {
      EmptyIsBlank();
      assert s[start..] == [];
    }
  }

  lemma EmptyIsBlank()
    ensures Blank([])
  {
  }

  // ---- A character-by-character reference ---------------------------------------------------

  /** Where a character stands. The `After` states have seen the first half of a
      two-character mark. */
  datatype Mode =
    | Code | AfterDash | AfterSlash
    | InSingle | SingleEscape | SingleQuote
    | InDouble | DoubleEscape
    | InBacktick | InLine | InBlock | BlockStar

  /** Outside quotes and comments. A quote that ended a string is outside unless
      another one follows. */
  predicate Outside(m: Mode) {
    m in {Code, AfterDash, AfterSlash, SingleQuote}
  }

  function FromCode(c: char): Mode {
    if c == '\'' then InSingle
    else if c == '"' then InDouble
    else if c == '`' then InBacktick
    else if c == '-' then AfterDash
    else if c == '/' then AfterSlash
    else Code
  }

  function Step(m: Mode, c: char): Mode {
    match m
    case Code => FromCode(c)
    case AfterDash => if c == '-' then InLine else FromCode(c)
    case AfterSlash => if c == '*' then InBlock else FromCode(c)
    case InSingle => if c == '\\' then SingleEscape else if c == '\'' then SingleQuote else InSingle
    case SingleEscape => InSingle
    case SingleQuote => if c == '\'' then InSingle else FromCode(c)
    case InDouble => if c == '\\' then DoubleEscape else if c == '"' then Code else InDouble
    case DoubleEscape => InDouble
    case InBacktick => if c == '`' then Code else InBacktick
    case InLine => if c == '\n' then Code else InLine
    case InBlock => if c == '*' then BlockStar else InBlock
    case BlockStar => if c == '/' then Code else if c == '*' then BlockStar else InBlock
  }

  /** The same split with one state and no lookahead. */
  function Reference(s: string, m: Mode, piece: string, parts: seq<string>): seq<string>
    decreases |s|
  {
    if s == [] then Finish(parts, piece)
    else if Outside(m) && s[0] == ';' then Reference(s[1..], Code, [], parts + [piece])
    else Reference(s[1..], Step(m, s[0]), piece + [s[0]], parts)
  }

  /** The reference from position `i`, for a piece begun at `start`. */
  function At(s: string, i: nat, m: Mode, start: nat, parts: seq<string>): seq<string>
    requires start <= i <= |s|
  {
    Reference(s[i..], m, s[start..i], parts)
  }

  lemma StepAt(s: string, i: nat, m: Mode, start: nat, parts: seq<string>)
    requires start <= i < |s| && !(Outside(m) && s[i] == ';')
    ensures At(s, i, m, start, parts) == At(s, i + 1, Step(m, s[i]), start, parts)
  {
    assert s[i..][1..] == s[i + 1..] && s[start..i] + [s[i]] == s[start..i + 1];
  }

  /** At a token's start it does not matter what came before. */
  predicate Fresh(s: string, i: nat, m: Mode)
    requires i <= |s|
  {
    i == |s| || (Step(m, s[i]) == FromCode(s[i]) && (s[i] == ';' ==> Outside(m)))
  }

  // ---- Each scanner against the reference ---------------------------------------------------

  lemma {:induction false} SingleReads(s: string, i: nat, start: nat, parts: seq<string>) returns (m: Mode)
    requires start <= i <= |s|
    ensures At(s, i, InSingle, start, parts) == At(s, SingleEnd(s, i), m, start, parts)
    ensures Fresh(s, SingleEnd(s, i), m)
    decreases |s| - i
  {
    hide Reference, At;
    if i == |s| {
      m := InSingle;
    } else {
      StepAt(s, i, InSingle, start, parts);
      if s[i] == '\\' && i + 1 < |s| {
        StepAt(s, i + 1, SingleEscape, start, parts);
        m := SingleReads(s, i + 2, start, parts);
      } else if s[i] == '\'' {
        if i + 1 < |s| && s[i + 1] == '\'' {
          StepAt(s, i + 1, SingleQuote, start, parts);
          m := SingleReads(s, i + 2, start, parts);
        } else {
          m := SingleQuote;
        }
      } else if s[i] == '\\' {
        m := SingleEscape;
      } else {
        m := SingleReads(s, i + 1, start, parts);
      }
    }
  }

  lemma {:induction false} DoubleReads(s: string, i: nat, start: nat, parts: seq<string>) returns (m: Mode)
    requires start <= i <= |s|
    ensures At(s, i, InDouble, start, parts) == At(s, DoubleEnd(s, i), m, start, parts)
    ensures Fresh(s, DoubleEnd(s, i), m)
    decreases |s| - i
  {
    hide Reference, At;
    if i == |s| {
      m := InDouble;
    } else {
      StepAt(s, i, InDouble, start, parts);
      if s[i] == '\\' && i + 1 < |s| {
        StepAt(s, i + 1, DoubleEscape, start, parts);
        m := DoubleReads(s, i + 2, start, parts);
      } else if s[i] == '"' {
        m := Code;
      } else if s[i] == '\\' {
        m := DoubleEscape;
      } else {
        m := DoubleReads(s, i + 1, start, parts);
      }
    }
  }

  lemma {:induction false} BacktickReads(s: string, i: nat, start: nat, parts: seq<string>) returns (m: Mode)
    requires start <= i <= |s|
    ensures At(s, i, InBacktick, start, parts) == At(s, BacktickEnd(s, i), m, start, parts)
    ensures Fresh(s, BacktickEnd(s, i), m)
    decreases |s| - i
  {
    hide Reference, At;
    if i == |s| {
      m := InBacktick;
    } else {
      StepAt(s, i, InBacktick, start, parts);
      if s[i] == '`' {
        m := Code;
      } else {
        m := BacktickReads(s, i + 1, start, parts);
      }
    }
  }

  lemma {:induction false} LineReads(s: string, i: nat, start: nat, parts: seq<string>)
    requires start <= i <= |s|
    ensures At(s, i, InLine, start, parts) == At(s, LineEnd(s, i), InLine, start, parts)
    ensures Fresh(s, LineEnd(s, i), InLine)
    decreases |s| - i
  {
    hide Reference, At;
    if i < |s| && s[i] != '\n' {
      StepAt(s, i, InLine, start, parts);
      LineReads(s, i + 1, start, parts);
    }
  }

  lemma {:induction false} BlockReads(s: string, i: nat, m: Mode, start: nat, parts: seq<string>) returns (end: Mode)
    requires start <= i <= |s|
    requires m == InBlock || (m == BlockStar && (i < |s| ==> s[i] != '/'))
    ensures At(s, i, m, start, parts) == At(s, BlockEnd(s, i), end, start, parts)
    ensures Fresh(s, BlockEnd(s, i), end)
    decreases |s| - i
  {
    hide Reference, At;
    if i == |s| {
      end := m;
    } else {
      StepAt(s, i, m, start, parts);
      var next := Step(m, s[i]);
      if i + 1 == |s| {
        end := next;
      } else if s[i] == '*' && s[i + 1] == '/' {
        StepAt(s, i + 1, BlockStar, start, parts);
        end := Code;
      } else {
        end := BlockReads(s, i + 1, next, start, parts);
      }
    }
  }

  /** A whole token, from a fresh start to the next. */
  lemma TokenReads(s: string, i: nat, m: Mode, start: nat, parts: seq<string>) returns (end: Mode)
    requires start <= i < |s| && Fresh(s, i, m) && s[i] != ';'
    ensures At(s, i, m, start, parts) == At(s, TokenEnd(s, i), end, start, parts)
    ensures Fresh(s, TokenEnd(s, i), end)
  {
    hide Reference, At, SingleEnd, DoubleEnd, BacktickEnd, LineEnd, BlockEnd;
    StepAt(s, i, m, start, parts);
    end := FromCode(s[i]);
    if s[i] == '\'' {
      end := SingleReads(s, i + 1, start, parts);
    } else if s[i] == '"' {
      end := DoubleReads(s, i + 1, start, parts);
    } else if s[i] == '`' {
      end := BacktickReads(s, i + 1, start, parts);
    } else if s[i] == '-' && i + 1 < |s| && s[i + 1] == '-' {
      StepAt(s, i + 1, AfterDash, start, parts);
      LineReads(s, i + 2, start, parts);
      end := InLine;
    } else if s[i] == '/' && i + 1 < |s| && s[i + 1] == '*' {
      StepAt(s, i + 1, AfterSlash, start, parts);
      end := BlockReads(s, i + 2, InBlock, start, parts);
    }
  }

  lemma {:induction false} CutsAgree(s: string, i: nat, m: Mode, start: nat, parts: seq<string>)
    requires start <= i <= |s| && Fresh(s, i, m)
    ensures CutFrom(s, i, start, parts) == At(s, i, m, start, parts)
    decreases |s| - i
  {
    hide SingleEnd, DoubleEnd, BacktickEnd, LineEnd, BlockEnd, TokenEnd, Step, Finish;
    if i == |s| {
      assert s[i..] == [] && s[start..i] == s[start..];
    } else if s[i] == ';' {
      FreshCode(s, i + 1);
      CutsAgree(s, i + 1, Code, i + 1, parts + [s[start..i]]);
      assert s[i..][1..] == s[i + 1..] && s[i + 1..i + 1] == [];
    } else {
      var end := TokenReads(s, i, m, start, parts);
      CutsAgree(s, TokenEnd(s, i), end, start, parts);
    }
  }

  lemma FreshCode(s: string, i: nat)
    requires i <= |s|
    ensures Fresh(s, i, Code)
  {
  }

  /** The scanner-based split cuts exactly where the one-state reference does: at
      every semicolon outside quotes and comments, and nowhere else. */
  lemma StatementsAreReference(s: string)
    ensures Statements(s) == Reference(s, Code, [], [])
  {
    FreshCode(s, 0);
    CutsAgree(s, 0, Code, 0, []);
    assert s[0..] == s && s[0..0] == [];
  }

  // ---- Conservation ---------------------------------------------------------------------------

  function Terminated(parts: seq<string>): string {
    if parts == [] then [] else Terminated(parts[..|parts| - 1]) + parts[|parts| - 1] + ";"
  }

  /** Pieces of a text: all but the last are ended by a semicolon, and so is the
      last unless it is the text's tail; a blank tail is dropped. */
  ghost predicate Rejoins(pieces: seq<string>, dropped: string, text: string) {
    || (Blank(dropped) && text == Terminated(pieces) + dropped)
    || (pieces != [] && text == Terminated(pieces[..|pieces| - 1]) + pieces[|pieces| - 1])
  }

  lemma {:induction false} ReferenceConserves(s: string, m: Mode, piece: string,
      parts: seq<string>) returns (dropped: string)
    ensures Rejoins(Reference(s, m, piece, parts), dropped, Terminated(parts) + piece + s)
    decreases |s|
  {
    hide Blank, Step;
    if s == [] {
      dropped := piece;
      assert Terminated(parts) + piece + [] == Terminated(parts) + piece;
      assert (parts + [piece])[..|parts|] == parts;
    } else if Outside(m) && s[0] == ';' {
      var cut := parts + [piece];
      dropped := ReferenceConserves(s[1..], Code, [], cut);
      assert cut[..|cut| - 1] == parts;
      assert s == ";" + s[1..];
      assert Terminated(cut) + [] + s[1..] == Terminated(parts) + piece + s;
    } else {
      dropped := ReferenceConserves(s[1..], Step(m, s[0]), piece + [s[0]], parts);
      assert s == [s[0]] + s[1..];
      assert Terminated(parts) + (piece + [s[0]]) + s[1..] == Terminated(parts) + piece + s;
    }
  }

  /** Nothing of the text is lost or added but a blank tail. */
  lemma SplitConserves(s: string) returns (dropped: string)
    ensures Rejoins(Statements(s), dropped, s)
  {
    hide Rejoins, Reference;
    StatementsAreReference(s);
    dropped := ReferenceConserves(s, Code, [], []);
    assert Terminated([]) + [] + s == s;
  }

  // ---- Locality ----------------------------------------------------------------------------------

  function Run(m: Mode, s: string): Mode
    decreases |s|
  {
    if s == [] then m else Step(Run(m, s[..|s| - 1]), s[|s| - 1])
  }

  /** No semicolon of the text stands outside quotes and comments. */
  predicate Uncut(m: Mode, s: string)
    decreases |s|
  {
    s == [] || (Uncut(m, s[..|s| - 1]) && !(Outside(Run(m, s[..|s| - 1])) && s[|s| - 1] == ';'))
  }

  lemma {:induction false} PiecesAreUncut(s: string, m: Mode, piece: string, parts: seq<string>)
    requires Uncut(Code, piece) && m == Run(Code, piece)
    requires forall i :: 0 <= i < |parts| ==> Uncut(Code, parts[i])
    ensures forall i :: 0 <= i < |Reference(s, m, piece, parts)| ==> Uncut(Code, Reference(s, m, piece, parts)[i])
    decreases |s|
  {
    hide Step, Blank;
    if s != [] {
      if Outside(m) && s[0] == ';' {
        PiecesAreUncut(s[1..], Code, [], parts + [piece]);
      } else {
        var longer := piece + [s[0]];
        assert longer[..|longer| - 1] == piece;
        PiecesAreUncut(s[1..], Step(m, s[0]), longer, parts);
      }
    }
  }

  lemma {:induction false} UncutStaysWhole(s: string, k: nat, parts: seq<string>)
    requires k <= |s| && Uncut(Code, s)
    ensures Reference(s[k..], Run(Code, s[..k]), s[..k], parts) == Finish(parts, s)
    decreases |s| - k
  {
    hide Step, Finish;
    if k == |s| {
      assert s[k..] == [] && s[..k] == s;
    } else {
      UncutStaysWhole(s, k + 1, parts);
      UncutPrefix(s, k + 1);
      assert s[..k + 1][..k] == s[..k] && s[..k] + [s[k]] == s[..k + 1];
      assert s[k..][1..] == s[k + 1..];
    }
  }

  lemma {:induction false} UncutPrefix(s: string, k: nat)
    requires k <= |s| && Uncut(Code, s)
    ensures Uncut(Code, s[..k])
    decreases |s|
  {
    if k == |s| {
      assert s[..k] == s;
    } else {
      UncutPrefix(s[..|s| - 1], k);
      assert s[..|s| - 1][..k] == s[..k];
    }
  }

  /** Splitting a piece again gives just that piece, or nothing if it is blank:
      where to cut never depends on what stands before or after. */
  lemma SplitIsLocal(s: string, i: nat)
    requires i < |Statements(s)|
    ensures var p := Statements(s)[i];
            Statements(p) == if Blank(p) then [] else [p]
  {
    hide Reference, Uncut, Run, Statements, Blank;
    StatementsAreReference(s);
    NothingUncut();
    PiecesAreUncut(s, Code, [], []);
    var p := Statements(s)[i];
    StatementsAreReference(p);
    UncutStaysWhole(p, 0, []);
    assert p[0..] == p && p[..0] == [];
  }

  lemma NothingUncut()
    ensures Uncut(Code, []) && Run(Code, []) == Code
  {
  }

  // ---- Quotes and comments are whole -----------------------------------------------------------

  lemma {:induction false} PartsFirst(s: string, m: Mode, piece: string, parts: seq<string>)
    ensures Reference(s, m, piece, parts) == parts + Reference(s, m, piece, [])
    decreases |s|
  {
    hide Step, Outside, Blank;
    if s == [] {
      assert parts + [] == parts && parts + ([] + [piece]) == parts + [piece];
    } else if Outside(m) && s[0] == ';' {
      PartsFirst(s[1..], Code, [], parts + [piece]);
      PartsFirst(s[1..], Code, [], [] + [piece]);
      assert [] + [piece] == [piece];
      assert parts + [piece] + Reference(s[1..], Code, [], []) == parts + ([piece] + Reference(s[1..], Code, [], []));
    } else {
      PartsFirst(s[1..], Step(m, s[0]), piece + [s[0]], parts);
    }
  }

  /** One character that does not cut. */
  lemma OneStep(c: char, s: string, m: Mode, piece: string)
    requires !(Outside(m) && c == ';')
    ensures Reference([c] + s, m, piece, []) == Reference(s, Step(m, c), piece + [c], [])
  {
    assert ([c] + s)[1..] == s;
  }

  /** A semicolon outside ends the piece, and what follows is split on its own. */
  lemma CutHere(piece: string, m: Mode, r: string)
    requires Outside(m)
    ensures Reference(";" + r, m, piece, []) == [piece] + Statements(r)
  {
    hide Step;
    assert (";" + r)[1..] == r && [] + [piece] == [piece];
    PartsFirst(r, Code, [], [piece]);
    StatementsAreReference(r);
  }

  function InsideOf(q: char): Mode {
    if q == '\'' then InSingle else InDouble
  }

  function AfterOf(q: char): Mode {
    if q == '\'' then SingleQuote else Code
  }

  lemma {:induction false} ThroughQuoted(q: char, t: string, s: string, piece: string)
    requires (q == '\'' || q == '"') && QuotesEscaped(t, q)
    ensures Reference(t + [q] + s, InsideOf(q), piece, []) == Reference(s, AfterOf(q), piece + t + [q], [])
    decreases |t|
  {
    hide Reference;
    var m := InsideOf(q);
    if t == [] {
      assert t + [q] + s == [q] + s && piece + t + [q] == piece + [q];
      OneStep(q, s, m, piece);
    } else {
      var k := if t[0] == '\\' then 2 else 1;
      var more := t[k..] + [q] + s;
      if k == 2 {
        assert t + [q] + s == [t[0]] + ([t[1]] + more);
        OneStep(t[0], [t[1]] + more, m, piece);
        OneStep(t[1], more, Step(m, t[0]), piece + [t[0]]);
        assert piece + [t[0]] + [t[1]] + t[2..] == piece + t;
      } else {
        assert t + [q] + s == [t[0]] + more;
        OneStep(t[0], more, m, piece);
        assert piece + [t[0]] + t[1..] == piece + t;
      }
      ThroughQuoted(q, t[k..], s, if k == 2 then piece + [t[0]] + [t[1]] else piece + [t[0]]);
    }
  }

  /** A quoted text in which every quote is escaped is never cut, whatever else
      stands in it. */
  lemma QuotedIsWhole(q: char, t: string, r: string)
    requires (q == '\'' || q == '"') && QuotesEscaped(t, q)
    ensures Statements([q] + t + [q] + ";" + r) == [[q] + t + [q]] + Statements(r)
  {
    hide Reference, QuotesEscaped, Statements;
    var s := ";" + r;
    var all := [q] + t + [q] + ";" + r;
    StatementsAreReference(all);
    assert all == [q] + (t + [q] + s);
    OneStep(q, t + [q] + s, Code, []);
    assert [] + [q] == [q];
    ThroughQuoted(q, t, s, [q]);
    CutHere([q] + t + [q], AfterOf(q), r);
  }

  /** A single quote written twice does not end the text either. */
  lemma DoubledIsWhole(a: string, b: string, r: string)
    requires QuotesEscaped(a, '\'') && QuotesEscaped(b, '\'')
    ensures var quoted := "'" + a + "''" + b + "'";
            Statements(quoted + ";" + r) == [quoted] + Statements(r)
  {
    hide Reference, QuotesEscaped, Statements;
    var s := ";" + r;
    var quoted := "'" + a + "''" + b + "'";
    var more := b + ['\''] + s;
    StatementsAreReference(quoted + s);
    assert quoted + ";" + r == quoted + s;
    assert quoted + s == ['\''] + (a + ['\''] + (['\''] + more));
    OneStep('\'', a + ['\''] + (['\''] + more), Code, []);
    assert [] + ['\''] == "'";
    ThroughQuoted('\'', a, ['\''] + more, "'");
    OneStep('\'', more, SingleQuote, "'" + a + ['\'']);
    ThroughQuoted('\'', b, s, "'" + a + ['\''] + ['\'']);
    assert "'" + a + ['\''] + ['\''] + b + ['\''] == quoted;
    CutHere(quoted, SingleQuote, r);
  }

  /** What opens a quote or can open a comment. */
  const MARKS: set<char> := {'\'', '"', '`', '-', '/'}

  lemma {:induction false} ThroughCode(t: string, s: string, piece: string)
    requires forall i :: 0 <= i < |t| ==> t[i] !in MARKS && t[i] != ';'
    ensures Reference(t + s, Code, piece, []) == Reference(s, Code, piece + t, [])
    decreases |t|
  {
    hide Reference;
    if t == [] {
      assert t + s == s && piece + t == piece;
    } else {
      assert t + s == [t[0]] + (t[1..] + s);
      OneStep(t[0], t[1..] + s, Code, piece);
      ThroughCode(t[1..], s, piece + [t[0]]);
      assert piece + [t[0]] + t[1..] == piece + t;
    }
  }

  /** Outside quotes and comments every semicolon cuts. */
  lemma PlainIsCut(t: string, r: string)
    requires forall i :: 0 <= i < |t| ==> t[i] !in MARKS && t[i] != ';'
    ensures Statements(t + ";" + r) == [t] + Statements(r)
  {
    hide Reference, Statements;
    var s := ";" + r;
    StatementsAreReference(t + s);
    assert t + ";" + r == t + s && [] + t == t;
    ThroughCode(t, s, []);
    CutHere(t, Code, r);
  }

  /** So the client's own quoted strings survive its own splitter. */
  lemma EscapedIsWhole(text: string, q: char, r: string)
    requires q == '\'' || q == '"'
    ensures var quoted := [q] + Escaped(text, q) + [q];
            Statements(quoted + ";" + r) == [quoted] + Statements(r)
  {
    hide Escaped, QuotesEscaped, Statements;
    EscapedStaysInside(text, q);
    QuotedIsWhole(q, Escaped(text, q), r);
  }

  lemma {:induction false} ThroughPlain(m: Mode, t: string, s: string, piece: string)
    requires (m == InBacktick && '`' !in t) || (m == InLine && '\n' !in t)
    ensures Reference(t + s, m, piece, []) == Reference(s, m, piece + t, [])
    decreases |t|
  {
    hide Reference;
    if t == [] {
      assert t + s == s && piece + t == piece;
    } else {
      assert t + s == [t[0]] + (t[1..] + s);
      OneStep(t[0], t[1..] + s, m, piece);
      ThroughPlain(m, t[1..], s, piece + [t[0]]);
      assert piece + [t[0]] + t[1..] == piece + t;
    }
  }

  /** Neither is a name in backticks, where a backslash means nothing, */
  lemma BacktickIsWhole(t: string, r: string)
    requires '`' !in t
    ensures Statements("`" + t + "`;" + r) == ["`" + t + "`"] + Statements(r)
  {
    hide Reference, Statements;
    var s := ";" + r;
    var all := "`" + t + "`;" + r;
    StatementsAreReference(all);
    assert all == ['`'] + (t + (['`'] + s));
    OneStep('`', t + (['`'] + s), Code, []);
    assert [] + ['`'] == "`";
    ThroughPlain(InBacktick, t, ['`'] + s, "`");
    OneStep('`', s, InBacktick, "`" + t);
    CutHere("`" + t + "`", Code, r);
  }

  /** nor a comment up to the end of its line, */
  lemma LineIsWhole(t: string, r: string)
    requires '\n' !in t
    ensures Statements("--" + t + "\n;" + r) == ["--" + t + "\n"] + Statements(r)
  {
    hide Reference, Statements;
    var s := ";" + r;
    var all := "--" + t + "\n;" + r;
    StatementsAreReference(all);
    assert all == ['-'] + (['-'] + (t + (['\n'] + s)));
    OneStep('-', ['-'] + (t + (['\n'] + s)), Code, []);
    OneStep('-', t + (['\n'] + s), AfterDash, [] + ['-']);
    assert [] + ['-'] + ['-'] == "--";
    ThroughPlain(InLine, t, ['\n'] + s, "--");
    OneStep('\n', s, InLine, "--" + t);
    CutHere("--" + t + "\n", Code, r);
  }

  predicate EndsBlock(t: string, i: nat)
    requires i + 1 < |t|
  {
    t[i] == '*' && t[i + 1] == '/'
  }

  lemma {:induction false} ThroughBlock(m: Mode, t: string, s: string, piece: string)
    requires m == InBlock || (m == BlockStar && (t != [] ==> t[0] != '/'))
    requires forall i :: 0 <= i < |t| - 1 ==> !EndsBlock(t, i)
    ensures Reference(t + ("*/" + s), m, piece, []) == Reference(s, Code, piece + t + "*/", [])
    decreases |t|
  {
    hide Reference;
    if t == [] {
      assert t + ("*/" + s) == ['*'] + (['/'] + s);
      OneStep('*', ['/'] + s, m, piece);
      OneStep('/', s, BlockStar, piece + ['*']);
      assert piece + ['*'] + ['/'] == piece + t + "*/";
    } else {
      var u := t[1..];
      assert t + ("*/" + s) == [t[0]] + (u + ("*/" + s));
      OneStep(t[0], u + ("*/" + s), m, piece);
      forall i | 0 <= i < |u| - 1 ensures !EndsBlock(u, i) { assert !EndsBlock(t, i + 1); }
      if |t| > 1 { assert !EndsBlock(t, 0); }
      ThroughBlock(Step(m, t[0]), u, s, piece + [t[0]]);
      assert piece + [t[0]] + u + "*/" == piece + t + "*/";
    }
  }

  /** nor one between slash-star and the first star-slash. */
  lemma BlockIsWhole(t: string, r: string)
    requires forall i :: 0 <= i < |t| - 1 ==> !EndsBlock(t, i)
    ensures Statements("/*" + t + "*/;" + r) == ["/*" + t + "*/"] + Statements(r)
  {
    hide Reference, Statements;
    var s := ";" + r;
    var all := "/*" + t + "*/;" + r;
    StatementsAreReference(all);
    assert all == ['/'] + (['*'] + (t + ("*/" + s)));
    OneStep('/', ['*'] + (t + ("*/" + s)), Code, []);
    OneStep('*', t + ("*/" + s), AfterSlash, [] + ['/']);
    assert [] + ['/'] + ['*'] == "/*";
    ThroughBlock(InBlock, t, s, "/*");
    CutHere("/*" + t + "*/", Code, r);
  }
}
