/**
 The string operations of Python that the output-filename resolver relies on:
 `str.split` with a one-character separator, `str(n)` for integers and the
 format specification `{n:02}` (zero-filled to a minimum width of two,
 sign first). Each comes with an inverse that it round-trips with.
 */
module Text {

  /** Joins the parts with the separator between each two: `sep.join(parts)`. */
  function Join(parts: seq<string>, sep: char): string
    requires |parts| >= 1
  {
    if |parts| == 1 then parts[0] else parts[0] + [sep] + Join(parts[1..], sep)
  }

  /**
   `s.split(sep)`: the maximal separator-free pieces of `s`, in order. The
   empty string splits into one empty piece, and two adjacent separators
   leave an empty piece between them.
   */
  function Split(s: string, sep: char): (parts: seq<string>)
    ensures |parts| >= 1
    ensures forall i :: 0 <= i < |parts| ==> sep !in parts[i]
    ensures Join(parts, sep) == s
  {
    if s == [] then [[]]
    else
      var rest := Split(s[1..], sep);
      if s[0] == sep then
        assert ([[]] + rest)[1..] == rest;
        [[]] + rest
      else
        var parts := [[s[0]] + rest[0]] + rest[1..];
        assert parts[1..] == rest[1..];
        assert s == [s[0]] + s[1..];
        parts
  }

  predicate IsDigit(c: char) {
    '0' <= c <= '9'
  }

  predicate AllDigits(s: string) {
    forall i :: 0 <= i < |s| ==> IsDigit(s[i])
  }

  function DigitChar(d: nat): (c: char)
    requires d < 10
    ensures IsDigit(c)
  {
    ('0' as int + d) as char
  }

  function DigitValue(c: char): (d: nat)
    requires IsDigit(c)
    ensures d < 10 && DigitChar(d) == c
  {
    c as int - '0' as int
  }

  /** `str(n)` for a non-negative integer: its decimal digits, most significant first. */
  function Decimal(n: nat): (s: string)
    ensures |s| >= 1 && AllDigits(s)
    ensures |s| == 1 <==> n < 10
    ensures |s| > 1 ==> s[0] != '0'
  {
    if n < 10 then [DigitChar(n)] else Decimal(n / 10) + [DigitChar(n % 10)]
  }

  /** The number a string of decimal digits denotes; leading zeros are allowed. */
  function DecimalValue(s: string): nat
    requires AllDigits(s)
  {
    if s == [] then 0 else 10 * DecimalValue(s[..|s| - 1]) + DigitValue(s[|s| - 1])
  }

  /** Reading back what `str(n)` printed gives `n`. */
  lemma {:induction false} DecimalRoundTrip(n: nat)
    ensures DecimalValue(Decimal(n)) == n
  {
    if n >= 10 {
      var s := Decimal(n);
      assert s[..|s| - 1] == Decimal(n / 10);
      DecimalRoundTrip(n / 10);
    }
  }

  /** A leading zero does not change the value of a digit string. */
  lemma {:induction false} LeadingZero(s: string)
    requires AllDigits(s)
    ensures AllDigits(['0'] + s) && DecimalValue(['0'] + s) == DecimalValue(s)
  {
    if s != [] {
      var t := ['0'] + s;
      assert t[..|t| - 1] == ['0'] + s[..|s| - 1];
      LeadingZero(s[..|s| - 1]);
    }
  }

  /**
   Python's `format(n, "02")`, i.e. `f"{n:02}"`: the sign (only for negative
   numbers), then zeros up to a total width of two, then the digits of |n|.
   A negative number is at least two characters already and is never padded.
   */
  function Pad02(n: int): (s: string)
    ensures |s| >= 2
    ensures IsCounterText(s)
    ensures s[0] == '-' <==> n < 0
  {
    var sign := if n < 0 then "-" else "";
    var digits := Decimal(if n < 0 then -n else n);
    var fill := 2 - |sign| - |digits|;
    sign + (if fill > 0 then seq(fill, _ => '0') else []) + digits
  }

  /** The strings `Pad02` can produce the characters of: an optional minus sign, then digits. */
  predicate IsCounterText(s: string) {
    && |s| >= 1
    && (IsDigit(s[0]) || (s[0] == '-' && |s| >= 2))
    && forall i :: 1 <= i < |s| ==> IsDigit(s[i])
  }

  /** `int(s)` for a string of the shape `Pad02` produces. */
  function ParseCounter(s: string): int
    requires IsCounterText(s)
  {
    if s[0] == '-' then -(DecimalValue(s[1..]) as int) else DecimalValue(s)
  }

  /** `int(f"{n:02}") == n`: the padding loses nothing. */
  lemma PadRoundTrip(n: int)
    ensures ParseCounter(Pad02(n)) == n
  {
    var s := Pad02(n);
    if n < 0 {
      assert s[1..] == Decimal(-n);
      DecimalRoundTrip(-n);
    } else if n < 10 {
      assert s == ['0'] + Decimal(n);
      LeadingZero(Decimal(n));
      DecimalRoundTrip(n);
    } else {
      assert s == Decimal(n);
      DecimalRoundTrip(n);
    }
  }

  /** Distinct counters are printed differently. */
  lemma PadInjective(a: int, b: int)
    requires Pad02(a) == Pad02(b)
    ensures a == b
  {
    PadRoundTrip(a);
    PadRoundTrip(b);
  }

  /** Counters 0 to 9 get exactly one leading zero: `01` .. `09`. */
  lemma PadOneDigit(n: int)
    requires 0 <= n < 10
    ensures Pad02(n) == ['0', DigitChar(n)]
  {
  }

  /** From 10 on the counter is printed as `str(n)`, without padding, however many digits it has. */
  lemma PadManyDigits(n: int)
    requires n >= 10
    ensures Pad02(n) == Decimal(n)
    ensures |Pad02(n)| >= 2 && Pad02(n)[0] != '0'
  {
  }

  lemma PadExamples()
    ensures Pad02(1) == "01" && Pad02(9) == "09"
    ensures Pad02(10) == "10" && Pad02(100) == "100"
    ensures Pad02(0) == "00" && Pad02(-5) == "-5"
  {
  }
}
