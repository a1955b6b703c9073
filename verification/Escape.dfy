/** src/tsv.rs: backslash escapes, written in chunks, and the reader that undoes
    them. Text is one character per byte. */
module Escape {
  import opened Base

  /** What stands for a byte inside quotes. */
  function EscapeOf(b: char, quote: char): (e: string)
    ensures (|e| == 1 && e[0] == b) || (|e| == 2 && e[0] == '\\')
  {
    if b == '\\' then "\\\\"
    else if b == '\t' then "\\t"
    else if b == '\n' then "\\n"
    else if b == '\r' then "\\r"
    else if b == '\0' then "\\0"
    else if b == '\U{08}' then "\\b"
    else if b == '\U{0C}' then "\\f"
    else if b == quote && (quote == '\'' || quote == '"') then ['\\', quote]
    else [b]
  }

  function Escaped(s: string, quote: char): string {
    if s == [] then [] else Escaped(s[..|s| - 1], quote) + EscapeOf(s[|s| - 1], quote)
  }

  class Sink {
    var text: string

    constructor ()
      ensures text == []
    {
      text := [];
    }

    method Put(s: string)
      modifies this
      ensures text == old(text) + s
    {
      text := text + s;
    }
  }

  /** Runs of plain bytes go out whole; only what needs it is escaped. */
  method WriteEscaped(w: Sink, s: string, quote: char)
    modifies w
    ensures w.text == old(w.text) + Escaped(s, quote)
  {
    hide EscapeOf;
    ghost var before := w.text;
    var chunkStart: nat := 0;
    assert s[..0] == [] && before + Escaped([], quote) == before;
    for i := 0 to |s|
      invariant chunkStart <= i
      invariant w.text + s[chunkStart..i] == before + Escaped(s[..i], quote)
    {
      var escape := EscapeOf(s[i], quote);
      assert s[..i + 1][..i] == s[..i];
      ghost var was := w.text;
      assert before + (Escaped(s[..i], quote) + escape) == (was + s[chunkStart..i]) + escape;
      if escape == [s[i]] {
        assert was + s[chunkStart..i + 1] == (was + s[chunkStart..i]) + escape;
        continue;
      }
      if chunkStart < i {
        w.Put(s[chunkStart..i]);
      }
      assert w.text == was + s[chunkStart..i];
      w.Put(escape);
      chunkStart := i + 1;
      assert w.text + s[chunkStart..i + 1] == w.text;
    }
    assert s[..|s|] == s && s[chunkStart..|s|] == s[chunkStart..];
    if chunkStart < |s| {
      w.Put(s[chunkStart..]);
    }
  }

  // ---- Reading back ------------------------------------------------------------------

  /** The byte an escape stands for, given what follows the backslash. */
  function Unescape(c: char): char {
    if c == 't' then '\t'
    else if c == 'n' then '\n'
    else if c == 'r' then '\r'
    else if c == '0' then '\0'
    else if c == 'b' then '\U{08}'
    else if c == 'f' then '\U{0C}'
    else c
  }

  /** The string up to the closing single quote, and what follows it. */
  function ReadQuoted(s: string, done: string): Option<(string, string)>
    decreases |s|
  {
    if s == [] then None
    else if s[0] == '\'' then Some((done, s[1..]))
    else if s[0] != '\\' then ReadQuoted(s[1..], done + [s[0]])
    else if |s| == 1 then None
    else ReadQuoted(s[2..], done + [Unescape(s[1])])
  }

  lemma {:induction false} EscapedConcat(a: string, b: string, quote: char)
    ensures Escaped(a + b, quote) == Escaped(a, quote) + Escaped(b, quote)
    decreases |b|
  {
    if b == [] {
      assert a + b == a;
    } else {
      hide EscapeOf;
      var front, last := b[..|b| - 1], EscapeOf(b[|b| - 1], quote);
      assert (a + b)[..|a + b| - 1] == a + front;
      EscapedConcat(a, front, quote);
      assert Escaped(a, quote) + Escaped(front, quote) + last == Escaped(a, quote) + (Escaped(front, quote) + last);
    }
  }

  lemma ReadOne(c: char, more: string, done: string)
    ensures ReadQuoted(EscapeOf(c, '\'') + more, done) == ReadQuoted(more, done + [c])
  {
    var e := EscapeOf(c, '\'');
    var s := e + more;
    assert s[|e|..] == more;
    if |e| == 2 {
      assert s[1] == e[1] && Unescape(e[1]) == c;
    }
  }

  lemma EscapedFirst(s: string)
    requires s != []
    ensures Escaped(s, '\'') == EscapeOf(s[0], '\'') + Escaped(s[1..], '\'')
  {
    hide EscapeOf;
    var e := EscapeOf(s[0], '\'');
    assert s == [s[0]] + s[1..];
    EscapedConcat([s[0]], s[1..], '\'');
    assert [s[0]][..0] == [] && [] + e == e;
  }

  /** No string's escapes contain a closing quote or run into what follows. */
  lemma {:induction false} QuotedReads(s: string, done: string, rest: string)
    ensures ReadQuoted(Escaped(s, '\'') + "'" + rest, done) == Some((done + s, rest))
    decreases |s|
  {
    if s == [] {
      assert "'" + rest == [] + "'" + rest && done + s == done;
      assert ("'" + rest)[1..] == rest;
    } else {
      hide EscapeOf, Escaped, ReadQuoted;
      var e := EscapeOf(s[0], '\'');
      var more := Escaped(s[1..], '\'') + "'" + rest;
      EscapedFirst(s);
      assert Escaped(s, '\'') + "'" + rest == e + more;
      ReadOne(s[0], more, done);
      QuotedReads(s[1..], done + [s[0]], rest);
      assert done + [s[0]] + s[1..] == done + s;
    }
  }

  /** Escaping is injective, so quoting never makes two strings alike. */
  lemma EscapedIsInjective(a: string, b: string)
    requires Escaped(a, '\'') == Escaped(b, '\'')
    ensures a == b
  {
    QuotedReads(a, [], []);
    QuotedReads(b, [], []);
    assert [] + a == a && [] + b == b;
  }

  // ---- What never comes out ------------------------------------------------------------

  /** The bytes that would break a row of tab-separated output apart. */
  const CONTROL: set<char> := {'\t', '\n', '\r', '\0', '\U{08}', '\U{0C}'}

  /** Reading pairs after a backslash, no quote stands on its own. */
  predicate QuotesEscaped(t: string, quote: char)
    decreases |t|
  {
    if t == [] then true
    else if t[0] == '\\' then |t| >= 2 && QuotesEscaped(t[2..], quote)
    else t[0] != quote && QuotesEscaped(t[1..], quote)
  }

  lemma {:induction false} QuotesConcat(a: string, b: string, quote: char)
    requires QuotesEscaped(a, quote) && QuotesEscaped(b, quote)
    ensures QuotesEscaped(a + b, quote)
    decreases |a|
  {
    if a == [] {
      assert a + b == b;
    } else if a[0] == '\\' {
      assert (a + b)[2..] == a[2..] + b;
      QuotesConcat(a[2..], b, quote);
    } else {
      assert (a + b)[1..] == a[1..] + b;
      QuotesConcat(a[1..], b, quote);
    }
  }

  lemma OneEscape(c: char, quote: char)
    requires quote == '\'' || quote == '"'
    ensures QuotesEscaped(EscapeOf(c, quote), quote)
    ensures forall i :: 0 <= i < |EscapeOf(c, quote)| ==> EscapeOf(c, quote)[i] !in CONTROL
    ensures EscapeOf(c, quote) == [c] <==> c !in CONTROL && c != '\\' && c != quote
  {
    var e := EscapeOf(c, quote);
    if |e| == 2 {
      assert e[2..] == [];
    } else {
      assert e[1..] == [];
    }
  }

  /** Escaped text stays on its line and inside its quotes: it has no control
      character, and every quote in it is escaped by a backslash. */
  lemma {:induction false} EscapedStaysInside(s: string, quote: char)
    requires quote == '\'' || quote == '"'
    ensures forall i :: 0 <= i < |Escaped(s, quote)| ==> Escaped(s, quote)[i] !in CONTROL
    ensures QuotesEscaped(Escaped(s, quote), quote)
    decreases |s|
  {
    if s != [] {
      hide EscapeOf;
      var front, last := Escaped(s[..|s| - 1], quote), EscapeOf(s[|s| - 1], quote);
      EscapedStaysInside(s[..|s| - 1], quote);
      OneEscape(s[|s| - 1], quote);
      QuotesConcat(front, last, quote);
    }
  }

  /** Nothing else is touched. */
  lemma {:induction false} EscapedPlain(s: string, quote: char)
    requires quote == '\'' || quote == '"'
    ensures Escaped(s, quote) == s
       <==> forall i :: 0 <= i < |s| ==> s[i] !in CONTROL && s[i] != '\\' && s[i] != quote
    decreases |s|
  {
    if s != [] {
      hide EscapeOf;
      var front, c := s[..|s| - 1], s[|s| - 1];
      assert s == front + [c];
      EscapedPlain(front, quote);
      OneEscape(c, quote);
      EscapedGrows(front, quote);
      EscapeGrows(c, quote);
      if Escaped(s, quote) == s {
        assert Escaped(front, quote) == s[..|front|] == front;
        assert EscapeOf(c, quote) == s[|front|..] == [c];
      }
    }
  }

  lemma EscapeGrows(c: char, quote: char)
    ensures |EscapeOf(c, quote)| >= 1
  {
  }

  lemma {:induction false} EscapedGrows(s: string, quote: char)
    ensures |Escaped(s, quote)| >= |s|
    decreases |s|
  {
    if s != [] {
      hide EscapeOf;
      EscapedGrows(s[..|s| - 1], quote);
      EscapeGrows(s[|s| - 1], quote);
    }
  }
}
