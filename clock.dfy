/** The `HH:MM:SS` text shown on the LCD for a number of remaining seconds:
    two `divmod` steps (by 3600, then by 60) and each field printed with the
    format `{:02}`, i.e. in decimal, left-padded with zeros to at least two
    digits. A parser reads the text back; the round trip is proved. */
module Clock {
  import opened Wrappers

  const SecondsPerHour := 3600
  const SecondsPerMinute := 60

  predicate IsDigit(c: char) {
    '0' <= c <= '9'
  }

  predicate AllDigits(s: string) {
    forall i :: 0 <= i < |s| ==> IsDigit(s[i])
  }

  function DigitValue(c: char): (d: nat)
    requires IsDigit(c)
    ensures d < 10
  {
    c as int - '0' as int
  }

  function DigitChar(d: nat): (c: char)
    requires d < 10
    ensures IsDigit(c) && DigitValue(c) == d
  {
    (d + '0' as int) as char
  }

  /** The number a string of decimal digits denotes, most significant digit
      first; the empty string denotes 0. */
  function Value(s: string): nat
    requires AllDigits(s)
  {
    if s == [] then 0 else Value(s[..|s| - 1]) * 10 + DigitValue(s[|s| - 1])
  }

  /** Python's `str(n)` for a natural number: the shortest decimal digits. */
  function Decimal(n: nat): string {
    if n < 10 then [DigitChar(n)] else Decimal(n / 10) + [DigitChar(n % 10)]
  }

  /** Python's `f"{n:02}"` for a natural number: zero-padded to at least two
      digits. */
  function Pad2(n: nat): (r: string)
    ensures |r| >= 2
  {
    if n < 10 then ['0', DigitChar(n)] else DecimalDigits(n); Decimal(n)
  }

  /** `Decimal` writes digits that read back as `n`, one digit below 10 and
      at most two below 100, with no leading zero. */
  lemma {:induction false} DecimalDigits(n: nat)
    decreases n
    ensures var r := Decimal(n);
      && AllDigits(r) && Value(r) == n
      && 1 <= |r|
      && (|r| == 1 <==> n < 10)
      && (|r| <= 2 <==> n < 100)
      && (n >= 10 ==> r[0] != '0')
  {
    var r := Decimal(n);
    if n < 10 {
      assert r[..0] == [];
    } else {
      var front := Decimal(n / 10);
      DecimalDigits(n / 10);
      assert r == front + [DigitChar(n % 10)];
      assert r[..|r| - 1] == front;
      assert r[0] == front[0];
      if n / 10 < 10 {
        assert DigitValue(front[0]) == n / 10;
      }
    }
  }

  /** `Pad2` writes at least two digits that read back as `n`, exactly two
      when `n` is below 100. */
  lemma Pad2Digits(n: nat)
    ensures var r := Pad2(n);
      && AllDigits(r) && Value(r) == n
      && |r| >= 2
      && (|r| == 2 <==> n < 100)
  {
    var r := Pad2(n);
    if n < 10 {
      assert r[..1] == ['0'] && r[..1][..0] == [];
      assert Value(r[..1]) == 0;
    } else {
      DecimalDigits(n);
    }
  }

  /** `hours, remainder = divmod(r, 3600); mins, secs = divmod(remainder, 60)`:
      the unique hours/minutes/seconds decomposition of `r`. */
  function Split(r: nat): (hms: (nat, nat, nat))
    ensures hms.0 * SecondsPerHour + hms.1 * SecondsPerMinute + hms.2 == r
    ensures hms.1 < 60 && hms.2 < 60
  {
    var hours := r / SecondsPerHour;
    var remainder := r % SecondsPerHour;
    (hours, remainder / SecondsPerMinute, remainder % SecondsPerMinute)
  }

  /** The decomposition is the only one with minutes and seconds below 60,
      so the display cannot show one duration in two ways. */
  lemma SplitUnique(r: nat, h: nat, m: nat, s: nat)
    requires m < 60 && s < 60
    requires h * SecondsPerHour + m * SecondsPerMinute + s == r
    ensures Split(r) == (h, m, s)
  {
    var (h', m', s') := Split(r);
    assert m * 60 + s < 3600 && m' * 60 + s' < 3600;
    assert h' == h;
  }

  /** The text shown on the LCD for `r` remaining seconds. */
  function Format(r: nat): (s: string)
    ensures |s| >= 8
  {
    var (hours, mins, secs) := Split(r);
    Pad2(hours) + ":" + Pad2(mins) + ":" + Pad2(secs)
  }

  /** Reads `H...H:MM:SS` (at least two hour digits, exactly two minute and
      two second digits, minutes and seconds below 60) back to a number of
      seconds; anything else is rejected. */
  function Parse(s: string): Option<nat> {
    if |s| < 8 then None
    else
      var n := |s|;
      var hh, mm, ss := s[..n - 6], s[n - 5..n - 3], s[n - 2..];
      if s[n - 6] == ':' && s[n - 3] == ':' && AllDigits(hh) && AllDigits(mm) && AllDigits(ss)
         && Value(mm) < 60 && Value(ss) < 60
      then Some(Value(hh) * SecondsPerHour + Value(mm) * SecondsPerMinute + Value(ss))
      else None
  }

  /** Reading the display back gives the remaining seconds it was made from,
      for every count, however many hour digits it needs. */
  lemma ParseFormat(r: nat)
    ensures Parse(Format(r)) == Some(r)
  {
    var (hours, mins, secs) := Split(r);
    var hh, mm, ss := Pad2(hours), Pad2(mins), Pad2(secs);
    Pad2Digits(hours);
    Pad2Digits(mins);
    Pad2Digits(secs);
    var s := hh + ":" + mm + ":" + ss;
    assert s == Format(r);
    var n := |s|;
    assert |mm| == 2 && |ss| == 2;
    assert s[..n - 6] == hh;
    assert s[n - 5..n - 3] == mm;
    assert s[n - 2..] == ss;
    assert s[n - 6] == ':' && s[n - 3] == ':';
  }

  /** Different counts are shown differently. */
  lemma FormatInjective(a: nat, b: nat)
    requires Format(a) == Format(b)
    ensures a == b
  {
    ParseFormat(a);
    ParseFormat(b);
  }

  /** Below 100 hours the display is exactly eight characters, `DD:DD:DD`;
      from 100 hours on the hour field grows beyond two digits. */
  lemma FormatShape(r: nat)
    ensures |Format(r)| >= 8
    ensures |Format(r)| == 8 <==> r < 100 * SecondsPerHour
    ensures r < 100 * SecondsPerHour ==>
      var s := Format(r);
      IsDigit(s[0]) && IsDigit(s[1]) && s[2] == ':' && IsDigit(s[3]) && IsDigit(s[4])
      && s[5] == ':' && IsDigit(s[6]) && IsDigit(s[7])
  {
    var (hours, mins, secs) := Split(r);
    var hh, mm, ss := Pad2(hours), Pad2(mins), Pad2(secs);
    Pad2Digits(hours);
    Pad2Digits(mins);
    Pad2Digits(secs);
    var s := hh + ":" + mm + ":" + ss;
    assert s == Format(r);
    assert |s| == |hh| + 6;
    assert hours < 100 <==> r < 100 * SecondsPerHour;
    if r < 100 * SecondsPerHour {
      assert s[0] == hh[0] && s[1] == hh[1] && s[3] == mm[0] && s[4] == mm[1];
      assert s[6] == ss[0] && s[7] == ss[1];
    }
  }

  /** Zero remaining seconds show as `00:00:00`, the reset text. */
  lemma FormatZero()
    ensures Format(0) == "00:00:00"
  {
  }
}
