/**
 * The metrics panel (src/components/reader/ProgressMetrics.tsx): elapsed
 * seconds shown as `mm:ss`, and the progress bar's width and label.
 */
module ProgressMetrics {
  import Text
  import JsMath

  predicate IsDigit(c: char) {
    '0' <= c <= '9'
  }

  function DigitChar(d: nat): (c: char)
    requires d < 10
    ensures IsDigit(c)
  {
    "0123456789"[d]
  }

  function DigitValue(c: char): nat
    requires IsDigit(c)
  {
    (c as int) - ('0' as int)
  }

  /** The decimal digits of a non-negative integer, without leading zeros. */
  function Digits(n: nat): (r: string)
    ensures |r| >= 1
    ensures forall k :: 0 <= k < |r| ==> IsDigit(r[k])
    ensures n < 10 ==> |r| == 1
    ensures n < 100 ==> |r| <= 2
  {
    if n < 10 then [DigitChar(n)] else Digits(n / 10) + [DigitChar(n % 10)]
  }

  /** `n.toString()` for an integer: a minus sign before the digits of a negative one. */
  function NumberToString(n: int): (r: string)
    ensures |r| >= 1
    ensures n >= 0 ==> r == Digits(n)
    ensures n < 0 ==> r[0] == '-' && r[1..] == Digits(-n)
  {
    if n < 0 then "-" + Digits(-n) else Digits(n)
  }

  /** `s.padStart(2, '0')`. */
  function PadStart2(s: string): (r: string)
    ensures |r| == if |s| >= 2 then |s| else 2
    ensures r[|r| - |s|..] == s
    ensures forall k :: 0 <= k < |r| - |s| ==> r[k] == '0'
  {
    if |s| >= 2 then s else seq(2 - |s|, _ => '0') + s
  }

  /** `formatTime`: whole minutes and the remaining seconds, each padded to two digits. */
  function FormatTime(seconds: int): (r: string)
    ensures |r| >= 5
    // for a non-negative count the text ends in a colon and two digits of seconds
    ensures seconds >= 0 ==> r[|r| - 3] == ':' && IsDigit(r[|r| - 2]) && IsDigit(r[|r| - 1])
  {
    var mm := PadStart2(NumberToString(JsMath.FloorDiv(seconds, 60)));
    var ss := PadStart2(NumberToString(JsMath.JsRem(seconds, 60)));
    assert seconds >= 0 ==> |ss| == 2 by {
      if seconds >= 0 {
        PaddedLength(JsMath.JsRem(seconds, 60));
      }
    }
    mm + ":" + ss
  }

  /** Reading a string of digits as a decimal number. */
  function DecimalValue(s: string): nat
    requires forall k :: 0 <= k < |s| ==> IsDigit(s[k])
  {
    if s == [] then 0 else 10 * DecimalValue(s[..|s| - 1]) + DigitValue(s[|s| - 1])
  }

  lemma {:induction false} DecimalValueOfDigits(n: nat)
    ensures DecimalValue(Digits(n)) == n
  {
    if n >= 10 {
      DecimalValueOfDigits(n / 10);
      DigitsSplit(n);
    }
  }

  /** The digits of n >= 10 are the digits of n / 10 followed by the digit of n % 10. */
  lemma DigitsSplit(n: nat)
    requires n >= 10
    ensures Digits(n)[..|Digits(n)| - 1] == Digits(n / 10)
    ensures Digits(n)[|Digits(n)| - 1] == DigitChar(n % 10)
  {
  }

  /** Leading zeros do not change the value read. */
  lemma {:induction false} DecimalValueLeadingZero(s: string)
    requires forall k :: 0 <= k < |s| ==> IsDigit(s[k])
    ensures DecimalValue("0" + s) == DecimalValue(s)
  {
    if s != [] {
      var z := "0" + s;
      assert z[..|z| - 1] == "0" + s[..|s| - 1];
      DecimalValueLeadingZero(s[..|s| - 1]);
    }
  }

  lemma PaddedValue(n: nat)
    ensures forall k :: 0 <= k < |PadStart2(Digits(n))| ==> IsDigit(PadStart2(Digits(n))[k])
    ensures DecimalValue(PadStart2(Digits(n))) == n
  {
    var d := Digits(n);
    DecimalValueOfDigits(n);
    if |d| < 2 {
      assert PadStart2(d) == "0" + d;
      DecimalValueLeadingZero(d);
    }
  }

  /**
   * For a non-negative count of seconds the output is two digit groups around
   * one colon, and reading them back as 60·MM + SS gives the count.
   */
  lemma FormatTimeReadsBack(seconds: nat)
    ensures var parts := Text.SplitOn(FormatTime(seconds), ':');
      && |parts| == 2
      && (forall k :: 0 <= k < |parts[0]| ==> IsDigit(parts[0][k]))
      && (forall k :: 0 <= k < |parts[1]| ==> IsDigit(parts[1][k]))
      && 60 * DecimalValue(parts[0]) + DecimalValue(parts[1]) == seconds
  {
    var m, s := seconds / 60, seconds % 60;
    var mm, ss := PadStart2(Digits(m)), PadStart2(Digits(s));
    PaddedValue(m);
    PaddedValue(s);
    SplitAtColon(mm, ss);
    FormatTimeFields(seconds);
  }

  /** Two digit strings joined by a colon split back into the two. */
  lemma SplitAtColon(a: string, b: string)
    requires forall k :: 0 <= k < |a| ==> IsDigit(a[k])
    requires forall k :: 0 <= k < |b| ==> IsDigit(b[k])
    ensures Text.SplitOn(a + ":" + b, ':') == [a, b]
  {
    assert ':' !in a && ':' !in b;
    assert [a, b][1..] == [b];
    assert a + ":" + b == Text.JoinWith([a, b], ':');
    Text.SplitJoin([a, b], ':');
  }

  /** For a non-negative count the two fields are the ordinary quotient and remainder by 60. */
  lemma FormatTimeFields(seconds: nat)
    ensures FormatTime(seconds) == PadStart2(Digits(seconds / 60)) + ":" + PadStart2(Digits(seconds % 60))
  {
    assert JsMath.FloorDiv(seconds, 60) == seconds / 60;
    assert JsMath.JsRem(seconds, 60) == seconds % 60;
  }

  /** Under 100 minutes the output is exactly five characters, `MM:SS`. */
  lemma FormatTimeLength(seconds: nat)
    requires seconds < 6000
    ensures |FormatTime(seconds)| == 5 && FormatTime(seconds)[2] == ':'
  {
    var mm, ss := PadStart2(Digits(seconds / 60)), PadStart2(Digits(seconds % 60));
    PaddedLength(seconds / 60);
    PaddedLength(seconds % 60);
    ColonJoinShape(mm, ss);
    FormatTimeFields(seconds);
  }

  lemma ColonJoinShape(a: string, b: string)
    requires |a| == 2 && |b| == 2
    ensures |a + ":" + b| == 5 && (a + ":" + b)[2] == ':'
  {
  }

  lemma PaddedLength(n: nat)
    requires n < 100
    ensures |PadStart2(Digits(n))| == 2
  {
  }

  /** The seconds field lies in [0, 60) for a non-negative count. */
  lemma SecondsBelowSixty(seconds: nat)
    ensures 0 <= JsMath.JsRem(seconds, 60) < 60
    ensures 60 * JsMath.FloorDiv(seconds, 60) + JsMath.JsRem(seconds, 60) == seconds
  {
  }

  /** `Math.min(100, Math.max(0, progress))`: the bar's width in percent. */
  function ProgressWidth(progress: real): (r: real)
    ensures 0.0 <= r <= 100.0
    ensures 0.0 <= progress <= 100.0 ==> r == progress
    ensures progress < 0.0 ==> r == 0.0
    ensures progress > 100.0 ==> r == 100.0
  {
    if progress > 100.0 then 100.0 else if progress < 0.0 then 0.0 else progress
  }

  /** `Math.round(progress)`: the label, which is not clamped. */
  function ProgressLabel(progress: real): (r: int)
    ensures r as real - 0.5 <= progress < r as real + 0.5
  {
    (progress + 0.5).Floor
  }

  /** A progress above 100 is labelled above 100 while the bar stays full. */
  lemma LabelIsNotClamped()
    ensures ProgressLabel(150.0) == 150 && ProgressWidth(150.0) == 100.0
  {
  }
}
