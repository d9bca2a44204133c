/**
 * Sample naming: note `n` (row `n`, counted from 0) is played from the file
 * `keyNN.wav`, where NN is n + 1 written with at least two decimal digits.
 */
module Samples {
  import opened Wrappers
  import opened Layout

  predicate IsDigit(c: char)
  {
    '0' <= c <= '9'
  }

  function DigitChar(d: nat): (c: char)
    requires d < 10
    ensures IsDigit(c)
  {
    ('0' as int + d) as char
  }

  function DigitValue(c: char): (d: nat)
    requires IsDigit(c)
    ensures d < 10
  {
    c as int - '0' as int
  }

  /** The shortest decimal rendering of `n`, without leading zeros. */
  function Decimal(n: nat): (s: string)
    ensures 1 <= |s|
    ensures forall k :: 0 <= k < |s| ==> IsDigit(s[k])
    ensures n >= 10 ==> s[0] != '0'
    ensures n < 10 <==> |s| == 1
    ensures 10 <= n < 100 <==> |s| == 2
    decreases n
  {
    if n < 10 then [DigitChar(n)] else Decimal(n / 10) + [DigitChar(n % 10)]
  }

  /** The value of a string of decimal digits; the independent reading of Decimal. */
  function ParseDecimal(s: string): (n: nat)
    requires forall k :: 0 <= k < |s| ==> IsDigit(s[k])
    decreases |s|
  {
    if s == [] then 0 else ParseDecimal(s[..|s| - 1]) * 10 + DigitValue(s[|s| - 1])
  }

  /** Reading back a rendering gives the number. */
  lemma {:induction false} ParseDecimalRoundTrip(n: nat)
    ensures ParseDecimal(Decimal(n)) == n
    decreases n
  {
    var s := Decimal(n);
    if n >= 10 {
      ParseDecimalRoundTrip(n / 10);
      assert s[..|s| - 1] == Decimal(n / 10);
    }
  }

  /** .NET's `ToString("D2")` of a non-negative integer: decimal, left-padded with zeros to two digits. */
  function FormatD2(n: nat): (s: string)
    ensures 2 <= |s|
    ensures n < 100 ==> |s| == 2
    ensures forall k :: 0 <= k < |s| ==> IsDigit(s[k])
  {
    if n < 10 then "0" + Decimal(n) else Decimal(n)
  }

  lemma FormatD2RoundTrip(n: nat)
    ensures ParseDecimal(FormatD2(n)) == n
  {
    ParseDecimalRoundTrip(n);
    if n < 10 {
      var s := FormatD2(n);
      assert s[..1] == "0";
      assert ParseDecimal(s[..1]) == 0;
    }
  }

  const Prefix: string := "key"
  const Suffix: string := ".wav"

  /** The sample file played for `note`: "key" + (note + 1) in D2 format + ".wav". */
  function SampleName(note: nat): (name: string)
    ensures |name| >= 9
    ensures note < 99 ==> |name| == 9
  {
    Prefix + FormatD2(note + 1) + Suffix
  }

  /**
   * Recovers the note from a sample file name: the partner of SampleName.
   * Accepts "key", at least two digits denoting a positive number, then ".wav".
   */
  function NoteOfSample(name: string): (r: Option<nat>)
  {
    if |name| < 9 || name[..3] != Prefix || name[|name| - 4..] != Suffix then None
    else
      var digits := name[3..|name| - 4];
      if forall k :: 0 <= k < |digits| ==> IsDigit(digits[k]) then
        var v := ParseDecimal(digits);
        if v == 0 then None else Some(v - 1)
      else None
  }

  /** The file name of every note is read back as that note. */
  lemma SampleNameRoundTrip(note: nat)
    ensures NoteOfSample(SampleName(note)) == Some(note)
  {
    var d := FormatD2(note + 1);
    var name := SampleName(note);
    assert name[..3] == Prefix;
    assert name[|name| - 4..] == Suffix;
    assert name[3..|name| - 4] == d;
    FormatD2RoundTrip(note + 1);
  }

  /** Different notes are played from different files. */
  lemma SampleNameInjective(a: nat, b: nat)
    requires a != b
    ensures SampleName(a) != SampleName(b)
  {
    SampleNameRoundTrip(a);
    SampleNameRoundTrip(b);
  }

  /** The first and last rows of the roll use key01.wav and key24.wav. */
  lemma SampleNamesOfRange()
    ensures SampleName(0) == "key01.wav"
    ensures SampleName(Rows - 1) == "key24.wav"
  {
    assert Decimal(24) == Decimal(2) + [DigitChar(4)];
  }
}
