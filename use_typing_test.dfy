/**
 * The typing-session engine (src/hooks/useTypingTest.ts).
 *
 * A session holds a `TypingState` that each key event replaces. The pure
 * functions below give the state after one event (`OnKeyDown` and the
 * per-kind steps it is built from) and the metrics snapshot; the class
 * `TypingSession` holds the same fields and updates them in place, and each of
 * its methods is proved to produce exactly the state the functions describe.
 *
 * The clock is passed in as `now`; the audio click is the returned `correct`
 * flag; the completion callback is the returned `completion` value.
 */
module TypingTest {
  import opened Types
  import opened Seqs
  import Text
  import JsMath
  import TypingMetrics

  const AltKey: string := "Alt"
  const BackspaceKey: string := "Backspace"

  datatype TypingState = TypingState(
    currentPosition: nat,
    mistakes: seq<nat>,
    startTime: Option<Timestamp>,
    endTime: Option<Timestamp>,
    isPaused: bool,
    pauseStartTime: Option<Timestamp>,
    totalPausedTime: int,
    highlights: seq<Highlight>)

  /** The state a session starts from, and that a reset returns to (but for highlights). */
  const InitialState := TypingState(0, [], None, None, false, None, 0, [])

  /** What the completion callback receives. */
  datatype CompletionStats = CompletionStats(wpm: int, accuracy: real, timeSpent: int, errorCount: nat)

  /**
   * The effect of one key event: the next state, whether a correct keystroke
   * should click, and the completion report when this event finished the text.
   */
  datatype KeyOutcome = KeyOutcome(state: TypingState, correct: bool, completion: Option<CompletionStats>)

  /** The position whose reaching ends the session: the text's length, or 1 for an empty text. */
  function Goal(content: string): (g: nat)
    ensures g >= 1 && g >= |content|
  {
    if |content| == 0 then 1 else |content|
  }

  /** `key === content[pos]`: past the end, `content[pos]` is `undefined` and matches nothing. */
  predicate MatchesAt(content: string, pos: nat, c: char) {
    pos < |content| && content[pos] == c
  }

  /** The filter test that keeps every offset except `p`. */
  function Except(p: int): nat -> bool {
    m => m != p
  }

  // ---------------------------------------------------------------------------
  // One event at a time

  /** Alt: pause, or resume and add the pause's length to the paused total. */
  function NextOnAlt(s: TypingState, now: Timestamp): (r: TypingState)
    ensures r.isPaused == !s.isPaused
    ensures r.(pauseStartTime := s.pauseStartTime, totalPausedTime := s.totalPausedTime, isPaused := s.isPaused) == s
    ensures !s.isPaused ==> r.pauseStartTime == Some(now) && r.totalPausedTime == s.totalPausedTime
    ensures s.isPaused && s.pauseStartTime.Some? ==>
      r.pauseStartTime.None? && r.totalPausedTime == s.totalPausedTime + (now - s.pauseStartTime.value)
    ensures s.isPaused && s.pauseStartTime.None? ==>
      r.pauseStartTime.None? && r.totalPausedTime == s.totalPausedTime
  {
    if s.isPaused then
      var additional := if s.pauseStartTime.Some? then now - s.pauseStartTime.value else 0;
      s.(isPaused := false, pauseStartTime := None, totalPausedTime := s.totalPausedTime + additional)
    else
      s.(isPaused := true, pauseStartTime := Some(now))
  }

  /** The first non-Alt key while running starts the clock. */
  function WithClockStarted(s: TypingState, now: Timestamp): (r: TypingState)
    ensures r.startTime.Some?
    ensures s.startTime.Some? ==> r == s
    ensures r.(startTime := s.startTime) == s
  {
    if s.startTime.None? then s.(startTime := Some(now)) else s
  }

  /** Backspace: step back one character and forget a mistake recorded there. */
  function NextOnBackspace(s: TypingState): (r: TypingState)
    ensures r.(currentPosition := s.currentPosition, mistakes := s.mistakes) == s
    ensures s.currentPosition == 0 ==> r == s
    ensures s.currentPosition > 0 ==>
      && r.currentPosition == s.currentPosition - 1
      && (forall m :: m in r.mistakes <==> m in s.mistakes && m != s.currentPosition - 1)
  {
    if s.currentPosition > 0 then
      s.(currentPosition := s.currentPosition - 1,
         mistakes := Filter(s.mistakes, Except(s.currentPosition - 1)))
    else s
  }

  /** The report handed to the completion callback when the text is finished at `now`. */
  function FinalStats(content: string, s: TypingState, mistakeCount: nat, now: Timestamp): (r: CompletionStats)
    ensures r.errorCount == mistakeCount
    ensures mistakeCount <= |content| ==> 0.0 <= r.accuracy <= 100.0
    // the time spent is the running time in milliseconds, to the nearest second
    ensures s.startTime.Some? ==>
      var ms := now - s.startTime.value - s.totalPausedTime;
      2000 * r.timeSpent - 1000 <= 2 * ms < 2000 * r.timeSpent + 1000
    ensures s.startTime.Some? ==>
      r.wpm == TypingMetrics.CalculateWPM(content, s.startTime.value, now, s.totalPausedTime)
  {
    var start := if s.startTime.Some? then s.startTime.value else 0;
    CompletionStats(
      TypingMetrics.CalculateWPM(content, start, now, s.totalPausedTime),
      TypingMetrics.CalculateAccuracy(|content|, mistakeCount),
      if s.startTime.Some? then JsMath.RoundHalfUp(now - s.startTime.value - s.totalPausedTime, 1000) else 0,
      mistakeCount)
  }

  /**
   * A printable key: the cursor advances whether or not the key matches, a
   * mismatch records the offset it was typed at, and reaching the end of the
   * text stops the clock and reports completion.
   */
  function NextOnPrintable(content: string, s: TypingState, c: char, now: Timestamp): (r: KeyOutcome)
    ensures r.state.currentPosition == s.currentPosition + 1
    ensures r.correct == MatchesAt(content, s.currentPosition, c)
    ensures r.state.mistakes == if r.correct then s.mistakes else s.mistakes + [s.currentPosition]
    ensures r.state.endTime == if s.currentPosition + 1 >= |content| then Some(now) else None
    ensures r.completion.Some? <==> s.endTime.None? && s.currentPosition + 1 >= |content|
    ensures r.completion.Some? ==> r.completion.value == FinalStats(content, s, |r.state.mistakes|, now)
    ensures r.state.(currentPosition := s.currentPosition, mistakes := s.mistakes, endTime := s.endTime) == s
  {
    var isCorrect := MatchesAt(content, s.currentPosition, c);
    var newPosition := s.currentPosition + 1;
    var newMistakes := if isCorrect then s.mistakes else s.mistakes + [s.currentPosition];
    var isComplete := newPosition >= |content|;
    var completion :=
      if isComplete && s.endTime.None? then Some(FinalStats(content, s, |newMistakes|, now)) else None;
    KeyOutcome(
      s.(currentPosition := newPosition, mistakes := newMistakes,
         endTime := if isComplete then Some(now) else None),
      isCorrect, completion)
  }

  /**
   * `handleKeyDown`: a finished session ignores every key; Alt toggles the
   * pause; while paused every other key is ignored; otherwise the clock starts
   * and Backspace or a one-character key is processed. Any other key only
   * starts the clock.
   */
  function OnKeyDown(content: string, s: TypingState, key: string, now: Timestamp): (r: KeyOutcome)
    // completion freezes the session
    ensures s.endTime.Some? ==> r == KeyOutcome(s, false, None)
    // a pause ignores everything but Alt
    ensures s.endTime.None? && key != AltKey && s.isPaused ==> r == KeyOutcome(s, false, None)
    ensures s.endTime.None? && key == AltKey ==> r == KeyOutcome(NextOnAlt(s, now), false, None)
    // any other key while running starts the clock, and touches neither the pause nor the highlights
    ensures s.endTime.None? && key != AltKey && !s.isPaused ==>
      && r.state.startTime == (if s.startTime.None? then Some(now) else s.startTime)
      && !r.state.isPaused && r.state.pauseStartTime == s.pauseStartTime
      && r.state.totalPausedTime == s.totalPausedTime
    ensures r.state.highlights == s.highlights
    // a printable key advances by one whether or not it matches
    ensures s.endTime.None? && !s.isPaused && |key| == 1 ==>
      && r.state.currentPosition == s.currentPosition + 1
      && r.correct == MatchesAt(content, s.currentPosition, key[0])
      && r.state.mistakes == (if r.correct then s.mistakes else s.mistakes + [s.currentPosition])
    // Backspace retracts the cursor and the mistake at the retracted offset
    ensures s.endTime.None? && !s.isPaused && key == BackspaceKey ==>
      && r.state.currentPosition == (if s.currentPosition > 0 then s.currentPosition - 1 else 0)
      && r.state.mistakes ==
           (if s.currentPosition > 0 then Filter(s.mistakes, Except(s.currentPosition - 1)) else s.mistakes)
    // other keys leave the cursor and the mistakes alone
    ensures |key| != 1 && key != BackspaceKey ==>
      r.state.currentPosition == s.currentPosition && r.state.mistakes == s.mistakes
    // only a correct printable key clicks
    ensures r.correct ==> |key| == 1 && MatchesAt(content, s.currentPosition, key[0])
    // completion is reported exactly when this event sets the end time
    ensures r.completion.Some? <==> s.endTime.None? && r.state.endTime.Some?
    ensures s.endTime.None? && r.state.endTime.Some? ==>
      && |key| == 1 && r.state.currentPosition >= |content| && r.state.endTime == Some(now)
      && r.completion.value.errorCount == |r.state.mistakes|
      && r.completion.value.accuracy == TypingMetrics.CalculateAccuracy(|content|, |r.state.mistakes|)
      && r.completion.value.wpm ==
           TypingMetrics.CalculateWPM(content, r.state.startTime.value, now, s.totalPausedTime)
      && r.completion.value.timeSpent ==
           JsMath.RoundHalfUp(now - r.state.startTime.value - s.totalPausedTime, 1000)
  {
    if s.endTime.Some? then KeyOutcome(s, false, None)
    else if key == AltKey then KeyOutcome(NextOnAlt(s, now), false, None)
    else if s.isPaused then KeyOutcome(s, false, None)
    else
      var started := WithClockStarted(s, now);
      if key == BackspaceKey then KeyOutcome(NextOnBackspace(started), false, None)
      else if |key| == 1 then NextOnPrintable(content, started, key[0], now)
      else KeyOutcome(started, false, None)
  }

  /** `resetTest`: back to the initial state, keeping the highlights. */
  function Reset(s: TypingState): (r: TypingState)
    ensures r.highlights == s.highlights
    ensures r.(highlights := []) == InitialState
  {
    InitialState.(highlights := s.highlights)
  }

  /** The append step of `addHighlight`: a non-empty selection becomes a new last highlight. */
  function WithHighlight(s: TypingState, text: string, position: int, id: string, dateCreated: string): (r: TypingState)
    ensures r.(highlights := s.highlights) == s
    ensures text == [] ==> r == s
    ensures text != [] ==> r.highlights == s.highlights + [Highlight(id, text, position, dateCreated)]
  {
    if text == [] then s
    else s.(highlights := s.highlights + [Highlight(id, text, position, dateCreated)])
  }

  // ---------------------------------------------------------------------------
  // The session invariant

  ghost predicate Increasing(ms: seq<nat>) {
    forall i, j :: 0 <= i < j < |ms| ==> ms[i] < ms[j]
  }

  ghost predicate AllBelow(ms: seq<nat>, n: int) {
    forall k :: 0 <= k < |ms| ==> ms[k] < n
  }

  /**
   * Every reachable state: mistakes are strictly increasing offsets behind the
   * cursor, the cursor stops at the goal exactly when the end time is set, a
   * pause has a start time, and a finished session is not paused.
   */
  ghost predicate Invariant(content: string, s: TypingState) {
    && Increasing(s.mistakes)
    && AllBelow(s.mistakes, s.currentPosition)
    && s.currentPosition <= Goal(content)
    && (s.endTime.Some? <==> s.currentPosition == Goal(content))
    && (s.isPaused <==> s.pauseStartTime.Some?)
    && (s.endTime.Some? ==> !s.isPaused)
  }

  lemma InitialStateValid(content: string)
    ensures Invariant(content, InitialState)
  {
  }

  /** A reset state satisfies the invariant whatever came before. */
  lemma ResetValid(content: string, s: TypingState)
    ensures Invariant(content, Reset(s))
  {
  }

  /** Forgetting the mistake at the retracted offset keeps the mistakes increasing and behind the cursor. */
  lemma {:induction false} RetractKeepsOrder(ms: seq<nat>, p: nat)
    requires Increasing(ms) && AllBelow(ms, p + 1)
    ensures Increasing(Filter(ms, Except(p))) && AllBelow(Filter(ms, Except(p)), p)
  {
    if ms != [] {
      var tail := ms[1..];
      IncreasingTail(ms);
      RetractKeepsOrder(tail, p);
      var rest := Filter(tail, Except(p));
      forall k | 0 <= k < |rest| ensures ms[0] < rest[k] {
        assert rest[k] in tail;
      }
      if ms[0] != p {
        assert Filter(ms, Except(p)) == [ms[0]] + rest;
        IncreasingCons(ms[0], rest);
      } else {
        assert Filter(ms, Except(p)) == rest;
      }
    }
  }

  /** The tail of an increasing list is increasing, and lies above the head. */
  lemma IncreasingTail(ms: seq<nat>)
    requires Increasing(ms) && ms != []
    ensures Increasing(ms[1..])
    ensures forall x :: x in ms[1..] ==> ms[0] < x
  {
    var tail := ms[1..];
    forall i, j | 0 <= i < j < |tail| ensures tail[i] < tail[j] {
      assert tail[i] == ms[i + 1] && tail[j] == ms[j + 1];
    }
    forall x | x in tail ensures ms[0] < x {
      var j :| 0 <= j < |tail| && tail[j] == x;
      assert ms[j + 1] == x;
    }
  }

  lemma IncreasingCons(m: nat, ms: seq<nat>)
    requires Increasing(ms) && forall k :: 0 <= k < |ms| ==> m < ms[k]
    ensures Increasing([m] + ms)
  {
    var r := [m] + ms;
    forall i, j | 0 <= i < j < |r| ensures r[i] < r[j] {
      assert r[j] == ms[j - 1];
      if i > 0 {
        assert r[i] == ms[i - 1];
      }
    }
  }

  /** A strictly increasing list of offsets below n has at most n entries. */
  lemma {:induction false} MistakesBounded(ms: seq<nat>, n: nat)
    requires Increasing(ms) && AllBelow(ms, n)
    ensures |ms| <= n
  {
    if ms != [] {
      var last := ms[|ms| - 1];
      MistakesBounded(ms[..|ms| - 1], last);
    }
  }

  /** Every key event preserves the invariant. */
  lemma KeyDownPreservesInvariant(content: string, s: TypingState, key: string, now: Timestamp)
    requires Invariant(content, s)
    ensures Invariant(content, OnKeyDown(content, s, key, now).state)
  {
    if s.endTime.None? {
      if key == AltKey {
        AltPreservesInvariant(content, s, now);
      } else if !s.isPaused {
        var started := WithClockStarted(s, now);
        assert Invariant(content, started);
        if key == BackspaceKey {
          BackspacePreservesInvariant(content, started);
        } else if |key| == 1 {
          PrintablePreservesInvariant(content, started, key[0], now);
        }
      }
    }
  }

  lemma AltPreservesInvariant(content: string, s: TypingState, now: Timestamp)
    requires Invariant(content, s) && s.endTime.None?
    ensures Invariant(content, NextOnAlt(s, now))
  {
  }

  lemma BackspacePreservesInvariant(content: string, s: TypingState)
    requires Invariant(content, s) && s.endTime.None? && !s.isPaused
    ensures Invariant(content, NextOnBackspace(s))
  {
    if s.currentPosition > 0 {
      RetractKeepsOrder(s.mistakes, s.currentPosition - 1);
    }
  }

  lemma PrintablePreservesInvariant(content: string, s: TypingState, c: char, now: Timestamp)
    requires Invariant(content, s) && s.endTime.None? && !s.isPaused
    ensures Invariant(content, NextOnPrintable(content, s, c, now).state)
  {
    var p := s.currentPosition;
    var ms := s.mistakes + [p];
    assert Increasing(ms) && AllBelow(ms, p + 1) by {
      assert forall k :: 0 <= k < |ms| - 1 ==> ms[k] == s.mistakes[k];
    }
  }

  /**
   * Backspace right after a printable key that did not finish the text
   * restores the cursor and the mistakes, whether or not the key matched.
   */
  lemma BackspaceUndoesPrintable(content: string, s: TypingState, key: string, t1: Timestamp, t2: Timestamp)
    requires Invariant(content, s) && s.endTime.None? && !s.isPaused && |key| == 1
    requires OnKeyDown(content, s, key, t1).state.endTime.None?
    ensures var typed := OnKeyDown(content, s, key, t1).state;
      var back := OnKeyDown(content, typed, BackspaceKey, t2).state;
      back.currentPosition == s.currentPosition && back.mistakes == s.mistakes
  {
    var p := s.currentPosition;
    assert p !in s.mistakes;
    FilterKeepsAll(s.mistakes, Except(p));
    FilterConcat(s.mistakes, [p], Except(p));
  }

  // ---------------------------------------------------------------------------
  // Runs of events

  datatype KeyEvent = KeyEvent(key: string, now: Timestamp)

  /** The final state and the completion reports of a run of key events, in order. */
  datatype RunResult = RunResult(state: TypingState, completions: seq<CompletionStats>)

  function Run(content: string, s: TypingState, events: seq<KeyEvent>): (r: RunResult)
    ensures r.state.highlights == s.highlights
    // the cursor moves by at most one place per event
    ensures r.state.currentPosition <= s.currentPosition + |events|
    ensures r.state.currentPosition + |events| >= s.currentPosition
    // an end time, once set, is never changed
    ensures s.endTime.Some? ==> r.state.endTime == s.endTime
    decreases |events|
  {
    if events == [] then RunResult(s, [])
    else
      var o := OnKeyDown(content, s, events[0].key, events[0].now);
      var rest := Run(content, o.state, events[1..]);
      RunResult(rest.state, (if o.completion.Some? then [o.completion.value] else []) + rest.completions)
  }

  /** A finished session ignores every further event. */
  lemma {:induction false} FinishedRunIsFrozen(content: string, s: TypingState, events: seq<KeyEvent>)
    requires s.endTime.Some?
    ensures Run(content, s, events) == RunResult(s, [])
    decreases |events|
  {
    if events != [] {
      FinishedRunIsFrozen(content, s, events[1..]);
    }
  }

  /**
   * Completion is reported at most once in any run, and exactly once when the
   * run takes an unfinished session to its end.
   */
  lemma {:induction false} CompletionReportedOnce(content: string, s: TypingState, events: seq<KeyEvent>)
    ensures |Run(content, s, events).completions| ==
      (if s.endTime.None? && Run(content, s, events).state.endTime.Some? then 1 else 0)
    decreases |events|
  {
    if events != [] {
      var o := OnKeyDown(content, s, events[0].key, events[0].now);
      if o.completion.Some? {
        FinishedRunIsFrozen(content, o.state, events[1..]);
      } else {
        CompletionReportedOnce(content, o.state, events[1..]);
      }
    }
  }

  /** Every run from a valid state ends in a valid state. */
  lemma {:induction false} RunPreservesInvariant(content: string, s: TypingState, events: seq<KeyEvent>)
    requires Invariant(content, s)
    ensures Invariant(content, Run(content, s, events).state)
    decreases |events|
  {
    if events != [] {
      KeyDownPreservesInvariant(content, s, events[0].key, events[0].now);
      RunPreservesInvariant(content, OnKeyDown(content, s, events[0].key, events[0].now).state, events[1..]);
    }
  }

  /** While paused, a run without Alt changes nothing and reports nothing. */
  lemma {:induction false} PausedRunIgnoresTyping(content: string, s: TypingState, events: seq<KeyEvent>)
    requires s.isPaused
    requires forall i :: 0 <= i < |events| ==> events[i].key != AltKey
    ensures Run(content, s, events) == RunResult(s, [])
    decreases |events|
  {
    if events != [] {
      PausedRunIgnoresTyping(content, s, events[1..]);
    }
  }

  /** Pausing at t1 and resuming at t2 adds exactly t2 - t1 to the paused total and nothing else. */
  lemma PauseResumeAccounting(content: string, s: TypingState, t1: Timestamp, t2: Timestamp)
    requires s.endTime.None? && !s.isPaused
    ensures Run(content, s, [KeyEvent(AltKey, t1), KeyEvent(AltKey, t2)])
      == RunResult(s.(totalPausedTime := s.totalPausedTime + (t2 - t1), pauseStartTime := None), [])
  {
    var events := [KeyEvent(AltKey, t1), KeyEvent(AltKey, t2)];
    var mid := OnKeyDown(content, s, AltKey, t1).state;
    var last := OnKeyDown(content, mid, AltKey, t2).state;
    assert events[1..] == [KeyEvent(AltKey, t2)] && events[1..][1..] == [];
    assert Run(content, mid, events[1..]) == Run(content, last, []);
    assert Run(content, s, events) == Run(content, mid, events[1..]);
  }

  /** A clock reading no earlier than the pause's start. */
  ghost predicate ClockNotBefore(s: TypingState, now: int) {
    s.pauseStartTime.Some? ==> s.pauseStartTime.value <= now
  }

  ghost predicate Chronological(events: seq<KeyEvent>) {
    forall i, j :: 0 <= i < j < |events| ==> events[i].now <= events[j].now
  }

  /** With a clock that never runs backwards, the paused total never decreases. */
  lemma {:induction false} PausedTimeNeverDecreases(content: string, s: TypingState, events: seq<KeyEvent>)
    requires Chronological(events)
    requires events != [] ==> ClockNotBefore(s, events[0].now)
    ensures Run(content, s, events).state.totalPausedTime >= s.totalPausedTime
    decreases |events|
  {
    if events != [] {
      var o := OnKeyDown(content, s, events[0].key, events[0].now);
      if |events| > 1 {
        assert events[0].now <= events[1].now;
      }
      PausedTimeNeverDecreases(content, o.state, events[1..]);
    }
  }

  /** The session of typing "cat" as 'c', 'x', 't': one mistake at offset 1, and 66.67% accuracy. */
  lemma CatExample()
    ensures var r := Run("cat", InitialState, [KeyEvent("c", 1000), KeyEvent("x", 1500), KeyEvent("t", 2000)]);
      && r.state.currentPosition == 3 && r.state.mistakes == [1]
      && r.state.startTime == Some(1000) && r.state.endTime == Some(2000)
      && |r.completions| == 1 && r.completions[0].errorCount == 1
      && r.completions[0].accuracy == 66.67 && r.completions[0].timeSpent == 1
  {
    CatKeystrokes();
    RunOfThree("cat", InitialState, KeyEvent("c", 1000), KeyEvent("x", 1500), KeyEvent("t", 2000));
  }

  /** A run of three events that reports only at the last one. */
  lemma RunOfThree(content: string, s: TypingState, e1: KeyEvent, e2: KeyEvent, e3: KeyEvent)
    ensures var o1 := OnKeyDown(content, s, e1.key, e1.now);
      var o2 := OnKeyDown(content, o1.state, e2.key, e2.now);
      var o3 := OnKeyDown(content, o2.state, e3.key, e3.now);
      o1.completion.None? && o2.completion.None? && o3.completion.Some? ==>
        Run(content, s, [e1, e2, e3]) == RunResult(o3.state, [o3.completion.value])
  {
    var events := [e1, e2, e3];
    var o1 := OnKeyDown(content, s, e1.key, e1.now);
    var o2 := OnKeyDown(content, o1.state, e2.key, e2.now);
    var o3 := OnKeyDown(content, o2.state, e3.key, e3.now);
    assert events[1..] == [e2, e3] && events[1..][1..] == [e3] && events[1..][1..][1..] == [];
    assert Run(content, o3.state, []) == RunResult(o3.state, []);
    assert Run(content, o2.state, [e3]) == RunResult(o3.state, (if o3.completion.Some? then [o3.completion.value] else []) + []);
    assert Run(content, o1.state, [e2, e3]) == RunResult(Run(content, o2.state, [e3]).state,
      (if o2.completion.Some? then [o2.completion.value] else []) + Run(content, o2.state, [e3]).completions);
  }

  /** The three keystrokes of the "cat" session, one at a time. */
  lemma CatKeystrokes()
    ensures var o1 := OnKeyDown("cat", InitialState, "c", 1000);
      var o2 := OnKeyDown("cat", o1.state, "x", 1500);
      var o3 := OnKeyDown("cat", o2.state, "t", 2000);
      && o1.completion.None? && o2.completion.None?
      && o3.state.currentPosition == 3 && o3.state.mistakes == [1]
      && o3.state.startTime == Some(1000) && o3.state.endTime == Some(2000)
      && o3.completion.Some? && o3.completion.value.errorCount == 1
      && o3.completion.value.accuracy == 66.67 && o3.completion.value.timeSpent == 1
  {
    var o1 := OnKeyDown("cat", InitialState, "c", 1000);
    assert o1.state.currentPosition == 1 && o1.state.mistakes == [] && o1.completion.None?;
    var o2 := OnKeyDown("cat", o1.state, "x", 1500);
    assert o2.state.currentPosition == 2 && o2.state.mistakes == [1] && o2.completion.None?;
    var o3 := OnKeyDown("cat", o2.state, "t", 2000);
    assert o3.state.currentPosition == 3 && o3.state.mistakes == [1] && o3.state.endTime == Some(2000);
    TypingMetrics.AccuracyExample();
    TypingMetrics.RoundExact(1, 1000);
  }

  /**
   * A pause taken before the first keystroke is still subtracted once the
   * clock starts: ten seconds of pause, then the key "a" one second after
   * resuming (the clock starts at that key), report -10 seconds spent.
   */
  lemma PauseBeforeStartIsSubtracted()
    ensures var r := Run("a", InitialState, [KeyEvent(AltKey, 1000), KeyEvent(AltKey, 11000), KeyEvent("a", 12000)]);
      && r.state.startTime == Some(12000) && r.state.totalPausedTime == 10000
      && |r.completions| == 1 && r.completions[0].timeSpent == -10
      && ElapsedTime(r.state, 12000) == -10000
  {
    var o1 := OnKeyDown("a", InitialState, AltKey, 1000);
    var o2 := OnKeyDown("a", o1.state, AltKey, 11000);
    var o3 := OnKeyDown("a", o2.state, "a", 12000);
    assert o2.state.totalPausedTime == 10000 && !o2.state.isPaused && o2.state.startTime.None?;
    assert o3.completion.value.timeSpent == JsMath.RoundHalfUp(-10000, 1000);
    TypingMetrics.RoundExact(-10, 1000);
    RunOfThree("a", InitialState, KeyEvent(AltKey, 1000), KeyEvent(AltKey, 11000), KeyEvent("a", 12000));
  }

  /** An empty text finishes on its first printable key, with the cursor one past its end. */
  lemma EmptyContentFinishesAtOne(s: TypingState, key: string, now: Timestamp)
    requires Invariant("", s) && s.endTime.None? && !s.isPaused && |key| == 1
    ensures var r := OnKeyDown("", s, key, now);
      r.state.currentPosition == 1 && r.state.endTime == Some(now) && r.completion.Some?
      && r.state.mistakes == [0]
  {
    assert s.currentPosition == 0;
    MistakesBounded(s.mistakes, 0);
    var started := WithClockStarted(s, now);
    assert OnKeyDown("", s, key, now) == NextOnPrintable("", started, key[0], now);
    assert !MatchesAt("", 0, key[0]);
  }

  // ---------------------------------------------------------------------------
  // Metrics

  datatype MetricsSnapshot = MetricsSnapshot(
    wpm: int,
    accuracy: real,
    progress: Option<real>,   // None where the source divides by an empty text's length
    elapsedSeconds: int,
    errorCount: nat,
    paused: bool)

  /** Running time in milliseconds: up to the end time, or to `now` while unfinished, less completed pauses. */
  function ElapsedTime(s: TypingState, now: Timestamp): (r: int)
    ensures s.startTime.None? ==> r == 0
    ensures s.startTime.Some? ==>
      s.startTime.value + r + s.totalPausedTime == (if s.endTime.Some? then s.endTime.value else now)
  {
    if s.startTime.Some? then
      (if s.endTime.Some? then s.endTime.value else now) - s.startTime.value - s.totalPausedTime
    else 0
  }

  /**
   * `getMetrics`: speed over the typed prefix, accuracy against at least one
   * keystroke, progress as a raw percentage, elapsed whole seconds, and the
   * number of outstanding mistakes.
   */
  function Metrics(content: string, s: TypingState, now: Timestamp): (r: MetricsSnapshot)
    ensures r.errorCount == |s.mistakes| && r.paused == s.isPaused
    ensures r.accuracy == ReportedAccuracy(s) && r.progress == ProgressShare(content, s.currentPosition)
    ensures s.startTime.None? ==> r.wpm == 0 && r.elapsedSeconds == 0
    ensures s.startTime.Some? ==>
      r.wpm == TypingMetrics.CalculateWPM(Text.Substring(content, 0, s.currentPosition), s.startTime.value,
        if s.endTime.Some? then s.endTime.value else now, s.totalPausedTime)
    ensures 1000 * r.elapsedSeconds <= ElapsedTime(s, now) < 1000 * r.elapsedSeconds + 1000
  {
    var end := if s.endTime.Some? then s.endTime.value else now;
    var wpm :=
      if s.startTime.Some? then
        TypingMetrics.CalculateWPM(Text.Substring(content, 0, s.currentPosition), s.startTime.value, end, s.totalPausedTime)
      else 0;
    MetricsSnapshot(wpm, ReportedAccuracy(s), ProgressShare(content, s.currentPosition),
      JsMath.FloorDiv(ElapsedTime(s, now), 1000), |s.mistakes|, s.isPaused)
  }

  /** Accuracy against the cursor position, counted as at least one keystroke. */
  function ReportedAccuracy(s: TypingState): real {
    TypingMetrics.CalculateAccuracy(if s.currentPosition > 1 then s.currentPosition else 1, |s.mistakes|)
  }

  /** `currentPosition / content.length * 100`, unrounded; None where the length is zero. */
  function ProgressShare(content: string, pos: nat): (r: Option<real>)
    ensures r.None? <==> |content| == 0
    ensures |content| > 0 && pos <= |content| ==> 0.0 <= r.value <= 100.0
    ensures |content| > 0 && pos == |content| ==> r.value == 100.0
    ensures |content| > 0 ==> r.value * |content| as real == pos as real * 100.0
  {
    if |content| == 0 then None
    else
      var len := |content| as real;
      assert len / len == 1.0;
      assert pos as real / len * len == pos as real;
      Some(pos as real / len * 100.0)
  }

  /** In every valid state the reported accuracy is a percentage and progress does not pass 100. */
  lemma MetricsInRange(content: string, s: TypingState, now: Timestamp)
    requires Invariant(content, s)
    ensures 0.0 <= Metrics(content, s, now).accuracy <= 100.0
    ensures |content| > 0 ==> 0.0 <= Metrics(content, s, now).progress.value <= 100.0
  {
    MistakeCountBounded(content, s);
  }

  lemma MistakeCountBounded(content: string, s: TypingState)
    ensures Invariant(content, s) ==> |s.mistakes| <= s.currentPosition
  {
    if Invariant(content, s) {
      MistakesBounded(s.mistakes, s.currentPosition);
    }
  }

  /** Once finished, the metrics no longer depend on the clock. */
  lemma FinishedMetricsAreStable(content: string, s: TypingState, t1: Timestamp, t2: Timestamp)
    requires s.endTime.Some?
    ensures Metrics(content, s, t1) == Metrics(content, s, t2)
  {
  }

  /** Until the session finishes, elapsed time follows the clock, even while paused. */
  lemma ElapsedFollowsClock(s: TypingState, t1: Timestamp, t2: Timestamp)
    requires s.endTime.None? && s.startTime.Some?
    ensures ElapsedTime(s, t2) - ElapsedTime(s, t1) == t2 - t1
  {
  }

  // ---------------------------------------------------------------------------
  // The session object

  /**
   * The hook's held state for one text. Each method is one `setState` updater
   * of `handleKeyDown`, `addHighlight` or `resetTest`, and is proved to leave
   * exactly the state the matching function above describes.
   */
  class TypingSession {
    const content: string
    var currentPosition: nat
    var mistakes: seq<nat>
    var startTime: Option<Timestamp>
    var endTime: Option<Timestamp>
    var isPaused: bool
    var pauseStartTime: Option<Timestamp>
    var totalPausedTime: int
    var highlights: seq<Highlight>

    function State(): TypingState
      reads this
    {
      TypingState(currentPosition, mistakes, startTime, endTime, isPaused, pauseStartTime, totalPausedTime, highlights)
    }

    ghost predicate Valid()
      reads this
    {
      Invariant(content, State())
    }

    constructor(content: string)
      ensures this.content == content && State() == InitialState && Valid()
    {
      this.content := content;
      currentPosition, mistakes := 0, [];
      startTime, endTime := None, None;
      isPaused, pauseStartTime, totalPausedTime := false, None, 0;
      highlights := [];
    }

    /** The Alt updater: pause, or resume and account for the pause. */
    method TogglePause(now: Timestamp)
      requires Valid() && endTime.None?
      modifies this
      ensures State() == NextOnAlt(old(State()), now)
      ensures Valid()
    {
      AltPreservesInvariant(content, State(), now);
      if isPaused {
        var additional := if pauseStartTime.Some? then now - pauseStartTime.value else 0;
        isPaused, pauseStartTime := false, None;
        totalPausedTime := totalPausedTime + additional;
      } else {
        isPaused, pauseStartTime := true, Some(now);
      }
    }

    /** The updater that stamps the first keystroke's time. */
    method StartClock(now: Timestamp)
      requires Valid()
      modifies this
      ensures State() == WithClockStarted(old(State()), now)
      ensures Valid()
    {
      if startTime.None? {
        startTime := Some(now);
      }
    }

    /** The Backspace updater. */
    method Backspace()
      requires Valid() && endTime.None? && !isPaused
      modifies this
      ensures State() == NextOnBackspace(old(State()))
      ensures Valid()
    {
      BackspacePreservesInvariant(content, State());
      if currentPosition > 0 {
        var retracted := currentPosition - 1;
        mistakes := Filter(mistakes, Except(retracted));
        currentPosition := retracted;
      }
    }

    /**
     * The printable-key updater: `setState(prev => ...)` with the updater
     * `NextOnPrintable`; returns the click flag and the completion report.
     */
    method TypeChar(c: char, now: Timestamp) returns (correct: bool, completion: Option<CompletionStats>)
      requires Valid() && endTime.None? && !isPaused
      modifies this
      ensures KeyOutcome(State(), correct, completion) == NextOnPrintable(content, old(State()), c, now)
      ensures Valid()
    {
      PrintablePreservesInvariant(content, State(), c, now);
      var next := NextOnPrintable(content, State(), c, now);
      currentPosition, mistakes, endTime := next.state.currentPosition, next.state.mistakes, next.state.endTime;
      correct, completion := next.correct, next.completion;
    }

    /** `handleKeyDown`: dispatches one key event to the updaters above. */
    method HandleKeyDown(key: string, now: Timestamp) returns (correct: bool, completion: Option<CompletionStats>)
      requires Valid()
      modifies this
      ensures KeyOutcome(State(), correct, completion) == OnKeyDown(content, old(State()), key, now)
      ensures Valid()
    {
      correct, completion := false, None;
      if endTime.Some? {
        return;
      }
      if key == AltKey {
        TogglePause(now);
        return;
      }
      if isPaused {
        return;
      }
      StartClock(now);
      if key == BackspaceKey {
        Backspace();
      } else if |key| == 1 {
        correct, completion := TypeChar(key[0], now);
      }
    }

    /** The append updater of `addHighlight`, with the selection and the clock taken as inputs. */
    method AddHighlight(text: string, position: int, id: string, dateCreated: string)
      requires Valid()
      modifies this
      ensures State() == WithHighlight(old(State()), text, position, id, dateCreated)
      ensures Valid()
    {
      if text != [] {
        highlights := highlights + [Highlight(id, text, position, dateCreated)];
      }
    }

    /** `resetTest`. */
    method ResetTest()
      modifies this
      ensures State() == Reset(old(State())) && Valid()
    {
      currentPosition, mistakes := 0, [];
      startTime, endTime := None, None;
      isPaused, pauseStartTime, totalPausedTime := false, None, 0;
    }
  }
}
