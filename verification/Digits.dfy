/** Decimal digits of naturals, as the client prints and parses them. */
module Digits {
  import opened Base

  predicate IsDigit(c: char) {
    '0' <= c <= '9'
  }

  predicate AllDigits(s: string) {
    forall i :: 0 <= i < |s| ==> IsDigit(s[i])
  }

  function DigitChar(d: nat): (c: char)
    requires d < 10
    ensures IsDigit(c) && DigitOf(c) == d
  {
    '0' + d as char
  }

  function DigitOf(c: char): (d: nat)
    requires IsDigit(c)
    ensures d < 10
  {
    (c - '0') as nat
  }

  /** The shortest decimal text of `n`. */
  function Dec(n: nat): (s: string)
    ensures s != [] && AllDigits(s)
    ensures s[0] == '0' ==> n == 0 && s == "0"
  {
    if n < 10 then [DigitChar(n)] else Dec(n / 10) + [DigitChar(n % 10)]
  }

  /** The number a digit string denotes, leading zeros allowed. */
  function DecValue(s: string): nat
    requires AllDigits(s)
  {
    if s == [] then 0 else 10 * DecValue(s[..|s| - 1]) + DigitOf(s[|s| - 1])
  }

  lemma {:induction false} DecValueOfDec(n: nat)
    ensures DecValue(Dec(n)) == n
  {
    if n >= 10 {
      DecValueOfDec(n / 10);
      assert Dec(n)[..|Dec(n)| - 1] == Dec(n / 10);
    }
  }

  /** `Dec` is the only digit string for `n` without a superfluous zero. */
  lemma {:induction false} DecOfDecValue(s: string)
    requires AllDigits(s) && s != [] && (s[0] == '0' ==> s == "0")
    ensures Dec(DecValue(s)) == s
  {
    var front, c := s[..|s| - 1], s[|s| - 1];
    assert s == front + [c];
    if front != [] {
      DecOfDecValue(front);
      DecOfZero(front);
      DecAppend(DecValue(front), c);
    }
  }

  lemma DecOfZero(s: string)
    requires AllDigits(s)
    ensures s != [] && s[0] != '0' && Dec(DecValue(s)) == s ==> DecValue(s) > 0
  {
    assert Dec(0) == "0";
  }

  lemma DecAppend(n: nat, c: char)
    requires n > 0 && IsDigit(c)
    ensures Dec(10 * n + DigitOf(c)) == Dec(n) + [c]
  {
    assert (10 * n + DigitOf(c)) / 10 == n;
  }

  /** `str::parse::<usize>`: an optional `+`, then digits, below 2^64. */
  function ParseUsize(s: string): Option<nat> {
    var digits := if s != [] && s[0] == '+' then s[1..] else s;
    if digits == [] || !AllDigits(digits) || DecValue(digits) >= U64_BOUND then None
    else Some(DecValue(digits))
  }

  lemma ParseUsizeOfDec(n: nat)
    ensures ParseUsize(Dec(n)) == if n < U64_BOUND then Some(n) else None
  {
    DecValueOfDec(n);
    assert IsDigit(Dec(n)[0]);
  }

  /** One plus sign in front makes no difference, and there must be a digit. */
  lemma PlusSign(s: string)
    ensures ParseUsize("+" + s) == if s != [] && s[0] == '+' then None else ParseUsize(s)
    ensures ParseUsize("") == None
  {
    assert ("+" + s)[1..] == s;
    assert s != [] && s[0] == '+' ==> !IsDigit(s[0]);
  }
}
