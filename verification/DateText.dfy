/** src/tsv.rs: the text of dates and times. Every field stands at a fixed place
    from the end of the text, so the text gives back what it was made from. */
module DateText {
  import opened Base
  import opened Digits
  import opened Calendar

  /** `{:0width$}`: at least `width` digits, zeros in front. */
  function Pad(n: nat, width: nat): (s: string)
    ensures AllDigits(s) && |s| >= width && |s| >= 1
  {
    Zeros(if |Dec(n)| < width then width - |Dec(n)| else 0) + Dec(n)
  }

  function Zeros(n: nat): (s: string)
    ensures |s| == n && forall i :: 0 <= i < n ==> s[i] == '0'
  {
    seq(n, _ => '0')
  }

  lemma {:induction false} DecValueZeros(n: nat, s: string)
    requires AllDigits(s)
    ensures AllDigits(Zeros(n) + s) && DecValue(Zeros(n) + s) == DecValue(s)
    decreases |s|
  {
    var t := Zeros(n) + s;
    if s == [] {
      ZerosValue(n);
      assert t == Zeros(n);
    } else {
      var front := s[..|s| - 1];
      DecValueZeros(n, front);
      assert t[..|t| - 1] == Zeros(n) + front;
    }
  }

  lemma {:induction false} ZerosValue(n: nat)
    ensures DecValue(Zeros(n)) == 0
  {
    if n > 0 {
      ZerosValue(n - 1);
      assert Zeros(n)[..n - 1] == Zeros(n - 1);
    }
  }

  lemma PadValue(n: nat, width: nat)
    ensures DecValue(Pad(n, width)) == n
  {
    DecValueOfDec(n);
    DecValueZeros(if |Dec(n)| < width then width - |Dec(n)| else 0, Dec(n));
  }

  lemma {:induction false} DecLength(n: nat, width: nat)
    requires width > 0 && n < Pow10(width)
    ensures |Dec(n)| <= width
    decreases width
  {
    if n >= 10 {
      DecLength(n / 10, width - 1);
    }
  }

  function Pow10(k: nat): (p: nat)
    ensures p > 0
  {
    if k == 0 then 1 else 10 * Pow10(k - 1)
  }

  lemma PadLength(n: nat, width: nat)
    requires width > 0 && n < Pow10(width)
    ensures |Pad(n, width)| == width
  {
    DecLength(n, width);
  }

  // ---- Dates -------------------------------------------------------------------------

  function Abs(y: int): nat {
    if y < 0 then -y else y
  }

  function IntText(n: int): string {
    (if n < 0 then "-" else "") + Dec(Abs(n))
  }

  function DateString(d: Date): string {
    (if d.year < 0 then "-" else "") + Pad(Abs(d.year), 4) + "-" + Pad(d.month, 2) + "-" + Pad(d.day, 2)
  }

  function WriteDate(days: int): Result<string> {
    var d :- CivilFromDays(days);
    Ok(DateString(d))
  }

  /** The date a text of this form stands for. */
  function ReadDate(t: string): Option<Date> {
    var n, neg := |t|, t != [] && t[0] == '-';
    var from := if neg then 1 else 0;
    if n < from + 7 then None
    else
      var y, m, d := t[from..n - 6], t[n - 5..n - 3], t[n - 2..];
      if !(AllDigits(y) && AllDigits(m) && AllDigits(d)) then None
      else Some(Date(if neg then -(DecValue(y) as int) else DecValue(y), DecValue(m), DecValue(d)))
  }

  lemma DateReads(d: Date)
    requires d.month < 100 && d.day < 100
    ensures ReadDate(DateString(d)) == Some(d)
  {
    hide Pad, DecValue, AllDigits;
    var y, m, dd := Pad(Abs(d.year), 4), Pad(d.month, 2), Pad(d.day, 2);
    Pow10Two();
    PadValue(Abs(d.year), 4);
    PadValue(d.month, 2);
    PadValue(d.day, 2);
    PadLength(d.month, 2);
    PadLength(d.day, 2);
    var t, n := DateString(d), |DateString(d)|;
    var from := if d.year < 0 then 1 else 0;
    assert t[from..n - 6] == y && t[n - 5..n - 3] == m && t[n - 2..] == dd;
    FirstChar(y, d.year, t);
  }

  /** The text of a day number names the day it was made from; every day has one
      but those past the calendar's range. */
  lemma WriteDateReads(days: int)
    ensures WriteDate(days).Ok? <==> days + 719468 <= I64_MAX
    ensures WriteDate(days).Ok? ==>
              var d := ReadDate(WriteDate(days).value); d.Some? && IsDate(d.value) && DayNumber(d.value) == days
  {
    hide DayNumber, IsDate, CivilFromDays, DateString, ReadDate;
    CivilFits(days);
    if WriteDate(days).Ok? {
      var d := CivilFromDays(days).value;
      CivilIsGregorian(days);
      DateFieldsFit(d);
      DateReads(d);
    }
  }

  lemma FirstChar(y: string, year: int, t: string)
    requires |t| > 1 && (year < 0 ==> t[0] == '-')
    requires y != [] && AllDigits(y) && y <= t[if year < 0 then 1 else 0..]
    ensures t[0] == '-' <==> year < 0
  {
  }

  lemma Pow10Two()
    ensures Pow10(2) == 100
  {
    assert Pow10(1) == 10;
  }

  // ---- Times --------------------------------------------------------------------------------

  datatype Clock = Clock(date: Date, hour: nat, minute: nat, second: nat)

  const DAY: int := 86400

  /** `write_datetime`: the fields of a second count. */
  function ClockOf(seconds: int): Result<Clock> {
    var days := seconds / DAY;
    var inDay := seconds % DAY;
    var d :- CivilFromDays(days);
    Ok(Clock(d, inDay / 3600, inDay % 3600 / 60, inDay % 60))
  }

  /** The fields are a clock reading and give back the seconds. */
  lemma ClockRecomposes(seconds: int, c: Clock)
    requires ClockOf(seconds) == Ok(c)
    ensures IsDate(c.date) && c.hour < 24 && c.minute < 60 && c.second < 60
    ensures DayNumber(c.date) * 86400 + c.hour * 3600 + c.minute * 60 + c.second == seconds
  {
    hide DayNumber, IsDate, CivilFromDays;
    CivilFits(seconds / DAY);
    CivilIsGregorian(seconds / DAY);
    assert seconds == seconds / DAY * DAY + seconds % DAY;
  }

  lemma CivilFits(days: int)
    ensures CivilFromDays(days).Ok? <==> days + 719468 <= I64_MAX
  {
  }

  function ClockString(c: Clock, fraction: nat, scale: nat): string {
    DateString(c.date) + " " + Pad(c.hour, 2) + ":" + Pad(c.minute, 2) + ":" + Pad(c.second, 2)
    + if scale > 0 then "." + Pad(fraction, scale) else ""
  }

  function WriteDateTime64(ticks: int, scale: nat): Result<string> {
    if Pow10(scale) > I64_MAX then Err(Panic)
    else
      var c :- ClockOf(ticks / Pow10(scale));
      Ok(ClockString(c, ticks % Pow10(scale), scale))
  }

  /** What the text of a time stands for. */
  function ReadTicks(t: string, scale: nat): Option<int> {
    var n := |t| - if scale > 0 then scale + 1 else 0;
    if n < 9 then None
    else
      var hour, minute, second := t[n - 8..n - 6], t[n - 5..n - 3], t[n - 2..n];
      var fraction := if scale > 0 then t[n + 1..] else [];
      var date := ReadDate(t[..n - 9]);
      if date.None? || !(AllDigits(hour) && AllDigits(minute) && AllDigits(second) && AllDigits(fraction)) then None
      else
        var seconds := DayNumber(date.value) * DAY + DecValue(hour) * 3600 + DecValue(minute) * 60 + DecValue(second);
        Some(seconds * Pow10(scale) + DecValue(fraction))
  }

  /** The text of every representable time denotes exactly the ticks it was made
      from; so no two times render alike. */
  lemma DateTimeReads(ticks: int, scale: nat, t: string)
    requires WriteDateTime64(ticks, scale) == Ok(t)
    ensures ReadTicks(t, scale) == Some(ticks)
  {
    hide Pad, DecValue, AllDigits, DateString, ReadDate, DayNumber, IsDate, ClockOf, Pow10;
    var p := Pow10(scale);
    var seconds, fraction := ticks / p, ticks % p;
    var c := ClockOf(seconds).value;
    ClockRecomposes(seconds, c);
    DateFieldsFit(c.date);
    DateReads(c.date);
    Pow10Two();
    PadValue(c.hour, 2); PadLength(c.hour, 2);
    PadValue(c.minute, 2); PadLength(c.minute, 2);
    PadValue(c.second, 2); PadLength(c.second, 2);
    if scale > 0 { PadValue(fraction, scale); PadLength(fraction, scale); }
    ClockPieces(c, fraction, scale);
    NoDigits();
    Pow10Zero();
    assert ticks == seconds * p + fraction;
  }

  lemma NoDigits()
    ensures AllDigits([]) && DecValue([]) == 0
  {
  }

  lemma Pow10Zero()
    ensures Pow10(0) == 1
  {
  }

  lemma DateFieldsFit(d: Date)
    requires IsDate(d)
    ensures d.month < 100 && d.day < 100
  {
  }

  lemma ClockPieces(c: Clock, fraction: nat, scale: nat)
    requires |Pad(c.hour, 2)| == 2 && |Pad(c.minute, 2)| == 2 && |Pad(c.second, 2)| == 2
    requires scale > 0 ==> |Pad(fraction, scale)| == scale
    ensures var t := ClockString(c, fraction, scale);
            var n := |t| - if scale > 0 then scale + 1 else 0;
            && n >= 9 && t[..n - 9] == DateString(c.date)
            && t[n - 8..n - 6] == Pad(c.hour, 2) && t[n - 5..n - 3] == Pad(c.minute, 2)
            && t[n - 2..n] == Pad(c.second, 2)
            && (scale > 0 ==> t[n + 1..] == Pad(fraction, scale))
  {
    hide Pad, DateString;
    var d, h, m, s := DateString(c.date), Pad(c.hour, 2), Pad(c.minute, 2), Pad(c.second, 2);
    var tail := if scale > 0 then "." + Pad(fraction, scale) else "";
    var t := ClockString(c, fraction, scale);
    var n := |d| + 9;
    assert t == d + " " + h + ":" + m + ":" + s + tail;
    assert t[..|d|] == d;
    assert t[n - 8..n - 6] == h && t[n - 5..n - 3] == m && t[n - 2..n] == s && t[n..] == tail;
    assert scale > 0 ==> tail[1..] == Pad(fraction, scale);
  }

  // ---- The form of the text -------------------------------------------------------------

  /** `YYYY-MM-DD`: ten characters for the years 0 to 9999, dashes between the
      fields, and one in front of a negative year. */
  lemma DateForm(d: Date)
    requires d.month < 100 && d.day < 100
    ensures var t := DateString(d);
            && |t| >= 10 && t[|t| - 3] == '-' && t[|t| - 6] == '-' && (t[0] == '-' <==> d.year < 0)
            && (0 <= d.year <= 9999 ==> |t| == 10)
            && AllDigits(t[|t| - 5..|t| - 3]) && DecValue(t[|t| - 5..|t| - 3]) == d.month
            && AllDigits(t[|t| - 2..]) && DecValue(t[|t| - 2..]) == d.day
  {
    hide Pad, AllDigits, DecValue;
    Pow10Two();
    PadLength(d.month, 2);
    PadLength(d.day, 2);
    PadValue(d.month, 2);
    PadValue(d.day, 2);
    FirstDigit(Pad(Abs(d.year), 4));
    if Abs(d.year) <= 9999 {
      Pow10Four();
      PadLength(Abs(d.year), 4);
    }
    var y, m, dd := Pad(Abs(d.year), 4), Pad(d.month, 2), Pad(d.day, 2);
    assert DateString(d) == (if d.year < 0 then "-" else "") + y + "-" + m + "-" + dd;
    var t, n := DateString(d), |DateString(d)|;
    assert t[n - 5..n - 3] == m && t[n - 2..] == dd;
  }

  lemma FirstDigit(s: string)
    requires s != [] && AllDigits(s)
    ensures s[0] != '-'
  {
  }

  lemma Pow10Four()
    ensures Pow10(4) == 10000
  {
    assert Pow10(2) == 100;
  }

  /** The clock fields stand in the order hour, minute, second. */
  lemma ClockFields(c: Clock, fraction: nat, scale: nat)
    requires c.hour < 100 && c.minute < 100 && c.second < 100 && (scale > 0 ==> fraction < Pow10(scale))
    ensures var t := ClockString(c, fraction, scale);
            var n := |t| - if scale > 0 then scale + 1 else 0;
            && n >= 9
            && AllDigits(t[n - 8..n - 6]) && AllDigits(t[n - 5..n - 3]) && AllDigits(t[n - 2..n])
            && DecValue(t[n - 8..n - 6]) == c.hour && DecValue(t[n - 5..n - 3]) == c.minute
            && DecValue(t[n - 2..n]) == c.second
  {
    hide Pad, Pow10, DateString, DecValue;
    Pow10Two();
    PadLength(c.hour, 2); PadValue(c.hour, 2);
    PadLength(c.minute, 2); PadValue(c.minute, 2);
    PadLength(c.second, 2); PadValue(c.second, 2);
    if scale > 0 { PadLength(fraction, scale); }
    ClockPieces(c, fraction, scale);
  }

  lemma {:induction false} Pow10Grows(a: nat, b: nat)
    requires a < b
    ensures 10 * Pow10(a) <= Pow10(b)
    decreases b
  {
    if a + 1 < b {
      Pow10Grows(a, b - 1);
    }
  }

  lemma Pow10Powers()
    ensures Pow10(9) == 1_000_000_000 && Pow10(18) == 1_000_000_000_000_000_000
  {
    assert Pow10(4) == 10000;
    assert Pow10(6) == 1_000_000;
    assert Pow10(8) == 100_000_000;
    assert Pow10(10) == 10_000_000_000;
    assert Pow10(12) == 1_000_000_000_000;
    assert Pow10(14) == 100_000_000_000_000;
    assert Pow10(16) == 10_000_000_000_000_000;
  }

  /** A time has a text up to scale 18, the last one whose ticks fit 64 bits, unless
      its day is past the calendar's range. */
  lemma TicksFit(ticks: int, scale: nat)
    ensures WriteDateTime64(ticks, scale).Ok?
       <==> scale <= 18 && ticks / Pow10(scale) / 86400 + 719468 <= 0x7FFF_FFFF_FFFF_FFFF
    ensures WriteDateTime64(ticks, scale).Err? ==> WriteDateTime64(ticks, scale) == Err(Panic)
  {
    hide Pow10, ClockString, CivilFromDays;
    Pow10Powers();
    if scale < 18 {
      Pow10Grows(scale, 18);
    } else if scale > 18 {
      Pow10Grows(18, scale);
    }
    if Pow10(scale) <= I64_MAX {
      DayFits(ticks / Pow10(scale) / DAY);
    }
  }

  lemma DayFits(days: int)
    ensures CivilFromDays(days) == Err(Panic) || (CivilFromDays(days).Ok? && days + 719468 <= I64_MAX)
    ensures CivilFromDays(days).Ok? <==> days + 719468 <= I64_MAX
  {
  }

  /** ` HH:MM:SS` after the date, then a point and as many digits as the scale. */
  lemma ClockForm(c: Clock, fraction: nat, scale: nat)
    requires c.hour < 100 && c.minute < 100 && c.second < 100 && (scale > 0 ==> fraction < Pow10(scale))
    ensures var t := ClockString(c, fraction, scale);
            var n := |t| - if scale > 0 then scale + 1 else 0;
            && n >= 9 && t[..n - 9] == DateString(c.date)
            && t[n - 9] == ' ' && t[n - 6] == ':' && t[n - 3] == ':' && (scale > 0 ==> t[n] == '.')
  {
    hide Pad, Pow10, DateString;
    Pow10Two();
    PadLength(c.hour, 2);
    PadLength(c.minute, 2);
    PadLength(c.second, 2);
    if scale > 0 { PadLength(fraction, scale); }
    ClockPieces(c, fraction, scale);
    Separators(DateString(c.date), Pad(c.hour, 2), Pad(c.minute, 2), Pad(c.second, 2),
      if scale > 0 then "." + Pad(fraction, scale) else "");
  }

  lemma Separators(d: string, h: string, m: string, s: string, tail: string)
    requires |h| == |m| == |s| == 2
    ensures var t := d + " " + h + ":" + m + ":" + s + tail;
            && |t| == |d| + 9 + |tail|
            && t[|d|] == ' ' && t[|d| + 3] == ':' && t[|d| + 6] == ':' && (tail != [] ==> t[|d| + 9] == tail[0])
  {
  }
}
