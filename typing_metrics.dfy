/**
 * Words per minute, accuracy and progress (src/utils/typingMetrics.ts), on
 * exact integers instead of IEEE doubles, with `Math.round` written out.
 */
module TypingMetrics {
  import Text
  import opened JsMath

  /**
   * `text.trim().split(/\s+/).length`: the number of words. Blank text still
   * splits into one (empty) piece.
   */
  function WordCount(text: string): (r: nat)
    ensures r >= 1
  {
    |Text.SplitWs(Text.Trim(text))|
  }

  /** Blank text, the empty string included, counts as one word. */
  lemma BlankHasOneWord(text: string)
    requires Text.AllWhitespace(text)
    ensures WordCount(text) == 1
  {
    Text.TrimEmptyIffBlank(text);
  }

  /** `n` words free of white space, separated by single spaces, count as `n` words. */
  lemma WordCountOfJoined(words: seq<string>)
    requires |words| >= 1
    requires forall k :: 0 <= k < |words| ==> words[k] != [] && Text.NoWhitespace(words[k])
    ensures WordCount(Text.JoinWith(words, ' ')) == |words|
  {
    var joined := Text.JoinWith(words, ' ');
    Text.JoinWithStartsWith(words);
    Text.TrimOfTrimmed(joined);
    Text.SplitWsJoin(words);
  }

  /**
   * White space at either end, and runs of white space of any length between
   * words, do not change the count: it is the number of words.
   */
  lemma WordCountIgnoresSpacing(lead: string, words: seq<string>, gaps: seq<string>, trail: string)
    requires |words| >= 1 && |gaps| == |words| - 1
    requires forall k :: 0 <= k < |words| ==> words[k] != [] && Text.NoWhitespace(words[k])
    requires forall k :: 0 <= k < |gaps| ==> gaps[k] != [] && Text.AllWhitespace(gaps[k])
    requires Text.AllWhitespace(lead) && Text.AllWhitespace(trail)
    ensures WordCount(lead + Text.JoinWithGaps(words, gaps) + trail) == |words|
  {
    var j := Text.JoinWithGaps(words, gaps);
    Text.JoinWithGapsEnds(words, gaps);
    Text.TrimOfPadded(lead, j, trail);
    Text.SplitWsJoinGaps(words, gaps);
  }

  /**
   * `calculateWPM`: words over elapsed minutes, rounded to the nearest integer;
   * 0 when no time has elapsed. Elapsed time is `end - start - paused`
   * milliseconds, so `words / minutes == words * 60000 / elapsed`. What the
   * result means is stated by `CalculateWPMRounds`.
   */
  function CalculateWPM(textTyped: string, startTime: int, endTime: int, pausedTime: int): (r: int)
    ensures endTime - startTime - pausedTime == 0 ==> r == 0
    ensures endTime - startTime - pausedTime > 0 ==> r >= 0
  {
    var words := WordCount(textTyped);
    var elapsed := endTime - startTime - pausedTime;
    if elapsed == 0 then 0
    else
      NonNegativeRound(words * 60000, elapsed);
      RoundHalfUp(words * 60000, elapsed)
  }

  /**
   * The speed is 0 when no time has elapsed; over a positive elapsed time it is
   * the non-negative integer nearest to words per minute (halves rounded up);
   * a negative elapsed time cannot give a positive speed.
   */
  lemma CalculateWPMRounds(textTyped: string, startTime: int, endTime: int, pausedTime: int)
    ensures endTime - startTime - pausedTime == 0 ==> CalculateWPM(textTyped, startTime, endTime, pausedTime) == 0
    ensures var elapsed, r := endTime - startTime - pausedTime, CalculateWPM(textTyped, startTime, endTime, pausedTime);
      elapsed > 0 ==>
        (r >= 0 && 2 * elapsed * r - elapsed <= 2 * 60000 * WordCount(textTyped) < 2 * elapsed * r + elapsed)
    ensures endTime - startTime - pausedTime < 0 ==> CalculateWPM(textTyped, startTime, endTime, pausedTime) <= 0
  {
    var words, elapsed := WordCount(textTyped), endTime - startTime - pausedTime;
    if elapsed != 0 {
      var r := RoundHalfUp(words * 60000, elapsed);
      assert CalculateWPM(textTyped, startTime, endTime, pausedTime) == r;
      NonNegativeRound(words * 60000, elapsed);
      assert elapsed > 0 ==> 2 * elapsed * r - elapsed <= 2 * (words * 60000) < 2 * elapsed * r + elapsed;
    }
  }

  /** Rounding a non-negative quotient with a positive divisor gives a non-negative integer. */
  lemma NonNegativeRound(p: int, q: int)
    requires q != 0
    ensures p >= 0 && q > 0 ==> RoundHalfUp(p, q) >= 0
    ensures p >= 0 && q < 0 ==> RoundHalfUp(p, q) <= 0
  {
    if p >= 0 && q > 0 {
      RoundHalfUpMonotonic(0 * q, p, q);
      RoundExact(0, q);
    }
    if p >= 0 && q < 0 {
      var r := RoundHalfUp(p, q);
      // 2q·r − q >= 2p >= 0, so (−q)·(1 − 2r) >= 0 with −q > 0
      assert (-q) * (2 * r - 1) <= 0;
      SmallMultiple(-q, 2 * r - 1);
    }
  }

  /**
   * The accuracy in hundredths of a percent:
   * `Math.round((total - mistakes) / total * 100 * 100)`.
   */
  function AccuracyHundredths(totalKeystrokes: nat, mistakes: nat): (r: int)
    requires totalKeystrokes > 0
    ensures 2 * totalKeystrokes * r - totalKeystrokes
        <= 2 * 10000 * (totalKeystrokes - mistakes)
        < 2 * totalKeystrokes * r + totalKeystrokes
  {
    RoundHalfUp((totalKeystrokes - mistakes) * 10000, totalKeystrokes)
  }

  /**
   * `calculateAccuracy`: the percentage of keystrokes without a mistake,
   * rounded to two decimal places; 100 when nothing was typed.
   */
  function CalculateAccuracy(totalKeystrokes: nat, mistakes: nat): (r: real)
    ensures totalKeystrokes == 0 ==> r == 100.0
    ensures totalKeystrokes > 0 ==> r == AccuracyHundredths(totalKeystrokes, mistakes) as real / 100.0
    ensures mistakes <= totalKeystrokes ==> 0.0 <= r <= 100.0
    ensures mistakes == 0 ==> r == 100.0
    ensures (r * 100.0).Floor as real == r * 100.0
  {
    if totalKeystrokes == 0 then 100.0
    else
      AccuracyInRange(totalKeystrokes, mistakes);
      var h := AccuracyHundredths(totalKeystrokes, mistakes);
      assert h as real / 100.0 * 100.0 == h as real;
      h as real / 100.0
  }

  /** With at most as many mistakes as keystrokes the hundredths lie in [0, 10000], and no mistakes give 10000. */
  lemma AccuracyInRange(totalKeystrokes: nat, mistakes: nat)
    requires totalKeystrokes > 0
    ensures mistakes <= totalKeystrokes ==> 0 <= AccuracyHundredths(totalKeystrokes, mistakes) <= 10000
    ensures mistakes == 0 ==> AccuracyHundredths(totalKeystrokes, mistakes) == 10000
  {
    var t := totalKeystrokes;
    if mistakes <= t {
      RoundHalfUpMonotonic(0 * t, (t - mistakes) * 10000, t);
      RoundHalfUpMonotonic((t - mistakes) * 10000, 10000 * t, t);
      RoundExact(10000, t);
      RoundExact(0, t);
    }
    if mistakes == 0 {
      RoundExact(10000, t);
    }
  }

  /** An exact quotient rounds to itself. */
  lemma RoundExact(k: int, q: int)
    requires q > 0
    ensures RoundHalfUp(k * q, q) == k
  {
    var r := RoundHalfUp(k * q, q);
    // 2q·r − q <= 2q·k < 2q·r + q, hence r − 1/2 <= k < r + 1/2
    assert 2 * q * (r - k) <= q && 2 * q * (k - r) < q;
    SmallMultiple(2 * q, r - k);
    SmallMultiple(2 * q, k - r);
  }

  /** The accuracy reported for 3 keystrokes with 1 mistake is 66.67%. */
  lemma AccuracyExample()
    ensures CalculateAccuracy(3, 1) == 66.67
  {
    assert AccuracyHundredths(3, 1) == 6667;
  }

  /**
   * `getProgressPercentage`: the share of the text typed, as a whole
   * percentage; 0 for an empty text.
   */
  function GetProgressPercentage(currentPosition: int, totalLength: int): (r: int)
    ensures totalLength == 0 ==> r == 0
    ensures totalLength > 0 ==>
      2 * totalLength * r - totalLength <= 2 * 100 * currentPosition < 2 * totalLength * r + totalLength
    ensures 0 <= currentPosition <= totalLength && totalLength > 0 ==> 0 <= r <= 100
    ensures currentPosition == totalLength && totalLength > 0 ==> r == 100
  {
    if totalLength == 0 then 0
    else
      ProgressInRange(currentPosition, totalLength);
      RoundHalfUp(currentPosition * 100, totalLength)
  }

  lemma ProgressInRange(c: int, t: int)
    requires t != 0
    ensures 0 <= c <= t && t > 0 ==> 0 <= RoundHalfUp(c * 100, t) <= 100
    ensures c == t && t > 0 ==> RoundHalfUp(c * 100, t) == 100
  {
    if 0 <= c <= t && t > 0 {
      RoundHalfUpMonotonic(0 * t, c * 100, t);
      RoundHalfUpMonotonic(c * 100, 100 * t, t);
      RoundExact(100, t);
      RoundExact(0, t);
    }
  }

  /** Typing further never lowers the progress percentage. */
  lemma ProgressMonotonic(c1: int, c2: int, totalLength: int)
    requires totalLength > 0 && c1 <= c2
    ensures GetProgressPercentage(c1, totalLength) <= GetProgressPercentage(c2, totalLength)
  {
    RoundHalfUpMonotonic(c1 * 100, c2 * 100, totalLength);
  }
}
