# read-and-write: the typing-session engine in Dafny

This project models the core of *read-and-write*, an "active reading" app. A user retypes an imported text character by character. The app tracks:

- the cursor and the mistakes behind it;
- pauses and the time spent paused;
- highlights the user marks;
- derived metrics: words per minute, accuracy, elapsed time and progress.

The model covers:

- **TypingTest** (`use_typing_test.dfy`) — the session engine of `src/hooks/useTypingTest.ts`.
  - Each key event is a pure next-state function. `OnKeyDown` is built from `NextOnAlt`, `WithClockStarted`, `NextOnBackspace` and `NextOnPrintable`.
  - `Reset`, `WithHighlight` and `Metrics` cover the rest of the hook.
  - The class `TypingSession` holds the same fields and updates them in place. Each method is proved to leave exactly the state the functions give.
  - The clock is a parameter. The audio click is the returned `correct` flag. The completion callback is the returned `completion` report.
  - `Run` folds a sequence of events. It is used to state what happens across runs: the invariant, that completion is reported at most once, that the paused total never decreases, and pause accounting.
- **TypingMetrics** (`typing_metrics.dfy`) — words per minute, accuracy and progress (`src/utils/typingMetrics.ts`). They use exact integer and rational arithmetic, with `Math.round` written out as rounding half up.
- **ContentExtraction** (`content_extraction.dfy`) — splitting pasted text into a title and content, and stripping a file's extension.
- **ContentContext** (`content_context.dfy`) — the article store's add, update and delete by id, and the audio-settings merge. The class `ContentStore` holds the lists and settings.
- **Library** (`library.dfy`) — filtering by completion, sorting a copy newest-first or by title, and the minutes/seconds split.
- **ProgressMetrics** (`progress_metrics.dfy`) — the `mm:ss` formatter, the progress-bar clamp and its label.
- **TypingInterface** (`typing_interface.dfy`) — drawing the typed and remaining text with mistake and highlight marks, and the context menu that adds a highlight.
- **Reader** and **Home** (`reader.dfy`, `home.dfy`) — the current-article lookup, the completion and highlight-deletion patches, and the record built for a new import.
- Shared helpers:
  - **Types** holds the records.
  - **Seqs** is `Array.prototype.filter`.
  - **Text** covers the JavaScript white-space set, `trim`, `split(/\s+/)`, `split`/`join` on one character, and `substring`.
  - **JsMath** covers `Math.floor` and `Math.round` of a quotient, and the truncating `%`.

Modelling choices:

- Timestamps are positive integers (`Types.Timestamp`), because `Date.now()` is never 0. This makes the source's truthiness tests on nullable times (`if (state.endTime)`, `prev.startTime || 0`) the same as `Some?`.
- One key event runs two updaters: the clock-starting updater first, then the key's own updater, with one clock reading for the event. Each event sees the latest state.
- Accuracy is a `real` with exactly two decimals. WPM and progress percentages are integers.
- `getMetrics` progress is `Option<real>`. It is `None` where the source divides by the length of an empty text.

Behaviours of the code that the model keeps:

- **Empty text.** The first printable key moves the cursor to 1 (past the end), sets the end time and reports completion (`TypingTest.EmptyContentFinishesAtOne`). The session's goal position is therefore `max(|content|, 1)` (`TypingTest.Goal`).
- **Word count.** The count is the number of pieces of `trim().split(/\s+/)`, so blank text counts as one word (`TypingMetrics.BlankHasOneWord`).
- **Pauses before the first key.** A pause taken before the first keystroke is still subtracted once the clock starts. Elapsed time and time spent can then be negative (`TypingTest.PauseBeforeStartIsSubtracted`). The library then shows such a time with a negative seconds part (`Library.NegativeTimeParts`).

## Model

| member | source | states |
|---|---|---|
| TypingTest.OnKeyDown | src/hooks/useTypingTest.ts:77-189 | A finished session ignores every key, Alt included. While paused, every non-Alt key changes nothing. Alt toggles the pause. Any other key starts the clock if it was not running, Backspace and non-printable keys included. A one-character key advances the cursor by one whether or not it matches, and records the old offset on a mismatch. Backspace retracts the cursor and forgets the mistake at the retracted offset, and does nothing at 0. Other keys leave cursor and mistakes alone. Only a matching key clicks. Completion is reported exactly when this event sets the end time, with error count, accuracy over the whole text, WPM over the whole text, and the running time less pauses rounded to whole seconds |
| TypingTest.NextOnAlt | src/hooks/useTypingTest.ts:83-104 | Pausing records the pause start. Resuming adds now minus that start (0 when it is missing) to the paused total and clears it. Nothing else changes |
| TypingTest.WithClockStarted | src/hooks/useTypingTest.ts:110-116 | The start time is set to now only when it was missing. Nothing else changes |
| TypingTest.NextOnBackspace | src/hooks/useTypingTest.ts:118-129 | At 0 nothing changes. Otherwise the cursor steps back one place and exactly the mistakes at other offsets remain. Only cursor and mistakes change |
| TypingTest.FinalStats | src/hooks/useTypingTest.ts:155-178 | The report carries the mistake count, an accuracy in [0, 100] when mistakes do not exceed the text length, the WPM of the whole text from the start time, and the running time less pauses to the nearest second |
| TypingTest.NextOnPrintable | src/hooks/useTypingTest.ts:133-187 | The cursor advances by one. The key is correct exactly when it equals the expected character, and a wrong key records the old offset. The end time is set to now exactly when the new cursor reaches the text length. A report, equal to the final statistics with the new mistake count, is produced exactly when the session was not already finished and this key reaches the end. Nothing else changes |
| TypingTest.Reset | src/hooks/useTypingTest.ts:268-279 | Every field is back at its initial value, except that the highlights are kept |
| TypingTest.WithHighlight | src/hooks/useTypingTest.ts:199-218 | A non-empty selection appends exactly one highlight at the end. An empty one changes nothing. Only the highlights change |
| TypingTest.InitialStateValid | src/hooks/useTypingTest.ts:25-35 | The initial state satisfies the session invariant |
| TypingTest.ResetValid | src/hooks/useTypingTest.ts:268-279 | A reset state satisfies the invariant, whatever came before |
| TypingTest.KeyDownPreservesInvariant | src/hooks/useTypingTest.ts:118-187 | Every key event keeps the invariant: mistakes strictly increasing and behind the cursor, the cursor at most the goal, end time set exactly at the goal, a pause has a start time, and a finished session is not paused |
| TypingTest.AltPreservesInvariant | src/hooks/useTypingTest.ts:83-104 | Pausing or resuming an unfinished session keeps the invariant |
| TypingTest.BackspacePreservesInvariant | src/hooks/useTypingTest.ts:118-129 | Backspace in a running session keeps the invariant |
| TypingTest.PrintablePreservesInvariant | src/hooks/useTypingTest.ts:133-187 | A printable key in a running session keeps the invariant: the new mistake is the largest and lies behind the new cursor, and the end time is set exactly when the cursor reaches the goal |
| TypingTest.RetractKeepsOrder | src/hooks/useTypingTest.ts:121-126 | Removing the retracted offset from the mistakes keeps them increasing and puts them all below the new cursor |
| TypingTest.MistakesBounded | src/hooks/useTypingTest.ts:146-148 | A strictly increasing list of offsets below n has at most n entries, so the mistakes never outnumber the cursor |
| TypingTest.BackspaceUndoesPrintable | src/hooks/useTypingTest.ts:118-148 | Backspace right after a printable key that did not finish the text restores the cursor and the mistakes, whether or not the key matched |
| TypingTest.FinishedRunIsFrozen | src/hooks/useTypingTest.ts:78 | After completion, any run of events changes nothing and reports nothing |
| TypingTest.CompletionReportedOnce | src/hooks/useTypingTest.ts:151-179 | In any run, completion is reported once if the run takes an unfinished session to its end, and never otherwise |
| TypingTest.RunPreservesInvariant | src/hooks/useTypingTest.ts:77-189 | Every run from a valid state ends in a valid state |
| TypingTest.PausedRunIgnoresTyping | src/hooks/useTypingTest.ts:108 | While paused, a run of non-Alt keys changes nothing: not the position, the mistakes or the start time |
| TypingTest.PauseResumeAccounting | src/hooks/useTypingTest.ts:84-103 | A pause at t1 followed by a resume at t2 adds exactly t2 - t1 to the paused total and leaves the rest of the state as it was |
| TypingTest.PausedTimeNeverDecreases | src/hooks/useTypingTest.ts:86-94 | With a clock that never runs backwards, the paused total never decreases over a run |
| TypingTest.CatExample | src/hooks/useTypingTest.ts:134-178 | Typing 'c', 'x', 't' against "cat" leaves one mistake at offset 1 and the cursor at 3. Completion is reported once with one error, 66.67% accuracy and 1 second spent |
| TypingTest.CatKeystrokes | src/hooks/useTypingTest.ts:134-178 | The three keystrokes of that session, one at a time |
| TypingTest.RunOfThree | src/hooks/useTypingTest.ts:77-189 | Three events of which only the last reports completion fold to that last state and one report |
| TypingTest.Run | src/hooks/useTypingTest.ts:77-189 | Folding events keeps the highlights, moves the cursor by at most one place per event in either direction, and never changes an end time once set |
| TypingTest.PauseBeforeStartIsSubtracted | src/hooks/useTypingTest.ts:84-116 | Ten seconds paused before the first key, then the key "a" one second after resuming (the clock starts at that key), reports -10 seconds spent |
| TypingTest.EmptyContentFinishesAtOne | src/hooks/useTypingTest.ts:145-152 | For an empty text, the first printable key moves the cursor to 1, records a mistake at 0 and completes the session |
| TypingTest.Metrics | src/hooks/useTypingTest.ts:234-262 | The error count is the number of mistakes and the pause flag is the session's. WPM and elapsed seconds are 0 before the clock starts. Once started, WPM is that of the typed prefix between the start and the end time (or now) less pauses. Elapsed seconds are the floor of the running time over 1000 |
| TypingTest.ElapsedTime | src/hooks/useTypingTest.ts:236-238 | 0 before the clock starts. Afterwards start + elapsed + paused total is the end time, or now while unfinished |
| TypingTest.ProgressShare | src/hooks/useTypingTest.ts:257 | Progress is absent exactly for an empty text. Otherwise progress × length equals cursor × 100; it lies in [0, 100] for a cursor within the text and is 100 at the end |
| TypingTest.MetricsInRange | src/hooks/useTypingTest.ts:249-257 | In every valid state the reported accuracy lies in [0, 100], and progress does too for a non-empty text |
| TypingTest.MistakeCountBounded | src/hooks/useTypingTest.ts:249-252 | In a valid state the mistake count is at most the cursor position |
| TypingTest.FinishedMetricsAreStable | src/hooks/useTypingTest.ts:236-247 | Once finished, the metrics do not depend on the clock |
| TypingTest.ElapsedFollowsClock | src/hooks/useTypingTest.ts:236-238 | Before completion, elapsed time grows exactly with the clock, paused or not |
| TypingTest.TypingSession.constructor | src/hooks/useTypingTest.ts:25-35 | A new session is in the initial state and valid |
| TypingTest.TypingSession.TogglePause | src/hooks/useTypingTest.ts:83-104 | The new state is NextOnAlt of the old; an unfinished valid session stays valid |
| TypingTest.TypingSession.StartClock | src/hooks/useTypingTest.ts:111-116 | The new state is WithClockStarted of the old; validity is kept |
| TypingTest.TypingSession.Backspace | src/hooks/useTypingTest.ts:120-129 | The new state is the Backspace step of the old; a running valid session stays valid |
| TypingTest.TypingSession.TypeChar | src/hooks/useTypingTest.ts:133-187 | The updater passed to `setState` is applied once: the new state, click flag and completion report are the printable-key step of the old state; a running valid session stays valid |
| TypingTest.TypingSession.HandleKeyDown | src/hooks/useTypingTest.ts:77-189 | The new state, click flag and report are OnKeyDown of the old state, and the invariant is kept |
| TypingTest.TypingSession.AddHighlight | src/hooks/useTypingTest.ts:199-218 | The new state is WithHighlight of the old; validity is kept |
| TypingTest.TypingSession.ResetTest | src/hooks/useTypingTest.ts:268-279 | The new state is Reset of the old, and it is valid |
| TypingMetrics.WordCount | src/utils/typingMetrics.ts:7 | The count of `trim().split(/\s+/)` is at least 1 |
| TypingMetrics.BlankHasOneWord | src/utils/typingMetrics.ts:7 | Blank text, the empty string included, counts as exactly one word |
| TypingMetrics.WordCountOfJoined | src/utils/typingMetrics.ts:7 | n non-empty words without white space, joined by single spaces, count as n words |
| TypingMetrics.WordCountIgnoresSpacing | src/utils/typingMetrics.ts:7 | White space at either end and runs of white space of any length between n words leave the count at n |
| TypingMetrics.CalculateWPM | src/utils/typingMetrics.ts:1-14 | `calculateWPM`: 0 when no time has elapsed, and non-negative for positive elapsed time; its value is stated by `CalculateWPMRounds` |
| TypingMetrics.CalculateWPMRounds | src/utils/typingMetrics.ts:1-14 | 0 when no time has elapsed. For positive elapsed time, the result is words × 60000 / elapsed rounded to the nearest integer, and is non-negative. For negative elapsed time it is not positive |
| TypingMetrics.NonNegativeRound | src/utils/typingMetrics.ts:13 | Rounding a non-negative quotient gives a result with the divisor's sign, or 0 |
| TypingMetrics.AccuracyHundredths | src/utils/typingMetrics.ts:21-22 | The accuracy in hundredths of a percent, rounded to the nearest integer |
| TypingMetrics.CalculateAccuracy | src/utils/typingMetrics.ts:16-23 | 100 for no keystrokes or no mistakes. Otherwise the rounded hundredths divided by 100. Within [0, 100] when mistakes do not exceed keystrokes. Exactly two decimals |
| TypingMetrics.AccuracyInRange | src/utils/typingMetrics.ts:21-22 | With mistakes at most the keystrokes, the hundredths lie in [0, 10000], and they are 10000 without mistakes |
| TypingMetrics.RoundExact | src/utils/typingMetrics.ts:13 | `Math.round` of an exact integer quotient is that integer |
| TypingMetrics.AccuracyExample | src/utils/typingMetrics.ts:20-22 | 3 keystrokes with 1 mistake give 66.67 |
| TypingMetrics.GetProgressPercentage | src/utils/typingMetrics.ts:25-31 | 0 for an empty text. Otherwise the integer nearest cursor × 100 / length, halves rounded up. Within [0, 100] for a cursor within the text. 100 at the end |
| TypingMetrics.ProgressInRange | src/utils/typingMetrics.ts:30 | The rounded share lies in [0, 100] and is 100 at the end |
| TypingMetrics.ProgressMonotonic | src/utils/typingMetrics.ts:30 | Typing further never lowers the percentage |
| ContentExtraction.ExtractContentFromText | src/utils/contentExtraction.ts:1-15 | The title never contains a line break and is either the placeholder or at most 100 characters. Text without a line break gives the placeholder and the text unchanged |
| ContentExtraction.ExtractAtFirstNewline | src/utils/contentExtraction.ts:3-12 | With the first line break at i: a trimmed first line of at most 100 characters becomes the title, possibly empty, and the trimmed rest after i the content. Otherwise the result is the placeholder and the whole text, untrimmed |
| ContentExtraction.ExtensionDot | src/utils/contentExtraction.ts:45 | The scan finds a dot that ends the name in an extension, or proves that there is none |
| ContentExtraction.StripExtension | src/utils/contentExtraction.ts:45 | The result is a prefix of the name. It drops exactly the text from the extension's dot when `/\.[^/.]+$/` matches, and otherwise leaves the name unchanged |
| ContentExtraction.ExtensionIsUnique | src/utils/contentExtraction.ts:45 | The regular expression can match at one offset at most |
| ContentExtraction.StripExtensionExample | src/utils/contentExtraction.ts:45 | "a.b.txt" becomes "a.b" |
| ContentContext.Patched | src/context/ContentContext.tsx:62 | A patch that supplies nothing leaves the article as it was. A patch without an id keeps the id |
| ContentContext.PatchIdempotent | src/context/ContentContext.tsx:62 | Applying the same partial update twice is applying it once |
| ContentContext.PatchesCompose | src/context/ContentContext.tsx:62 | Two partial updates in a row equal one merged update in which the later one's fields win |
| ContentContext.Appended | src/context/ContentContext.tsx:55-57 | The list grows by one: earlier entries are unchanged and in order, and the new one is last |
| ContentContext.Updated | src/context/ContentContext.tsx:59-65 | Length and order are kept. Entries under the id take the patch, and the others are unchanged |
| ContentContext.Deleted | src/context/ContentContext.tsx:67-69 | Exactly the entries under other ids remain, and none under the id |
| ContentContext.DeleteDistributes | src/context/ContentContext.tsx:67-69 | Deleting from a concatenation deletes from each part |
| ContentContext.DeleteRemovesOnlyId | src/context/ContentContext.tsx:67-69 | The kept entries and the removed ones add up to the list, and every removed entry is under the id |
| ContentContext.UpdateAbsent | src/context/ContentContext.tsx:59-65 | Updating an absent id changes nothing |
| ContentContext.DeleteAbsent | src/context/ContentContext.tsx:67-69 | Deleting an absent id changes nothing |
| ContentContext.DeleteIdempotent | src/context/ContentContext.tsx:67-69 | Deleting twice equals deleting once |
| ContentContext.DeleteUndoesAdd | src/context/ContentContext.tsx:55-69 | Deleting an article just added under a fresh id gives back the earlier list |
| ContentContext.DeleteAfterUpdate | src/context/ContentContext.tsx:59-69 | An update that keeps ids, followed by a delete of that id, equals the delete alone |
| ContentContext.MergedSettings | src/context/ContentContext.tsx:71-73 | An empty partial leaves the settings as they were |
| ContentContext.MergeIdempotent | src/context/ContentContext.tsx:71-73 | Merging the same partial settings twice is merging them once |
| ContentContext.FullMergeReplaces | src/context/ContentContext.tsx:71-73 | A partial that supplies every field replaces the settings outright |
| ContentContext.ContentStore.constructor | src/context/ContentContext.tsx:35-45 | The saved articles or an empty list; the saved settings or the defaults (enabled, volume 0.5, mechanical); no current article |
| ContentContext.ContentStore.AddArticle | src/context/ContentContext.tsx:55-57 | The list becomes Appended of the old list; the rest is unchanged |
| ContentContext.ContentStore.UpdateArticle | src/context/ContentContext.tsx:59-65 | The list becomes Updated of the old list; the rest is unchanged |
| ContentContext.ContentStore.DeleteArticle | src/context/ContentContext.tsx:67-69 | The list becomes Deleted of the old list; the rest is unchanged |
| ContentContext.ContentStore.SetCurrentArticleId | src/context/ContentContext.tsx:40 | Only the current id changes |
| ContentContext.ContentStore.UpdateAudioSettings | src/context/ContentContext.tsx:71-73 | The settings become the merge of the old settings and the partial; the rest is unchanged |
| Library.FilteredArticles | src/pages/Library.tsx:14-19 | Exactly the articles the chosen filter accepts |
| Library.FilterDistributes | src/pages/Library.tsx:14-19 | Filtering a concatenation filters each part |
| Library.ShownAndHiddenPartition | src/pages/Library.tsx:14-19 | The shown articles and the hidden ones add up to the list, and every hidden one fails the filter |
| Library.AllKeepsEverything | src/pages/Library.tsx:15 | 'all' keeps every article, in order |
| Library.CompletedAndInProgressPartition | src/pages/Library.tsx:16-17 | 'completed' holds only completed articles and 'inProgress' only the others. Together they hold every article exactly once |
| Library.Insert | src/pages/Library.tsx:21-27 | Insertion adds exactly the one element |
| Library.Sort | src/pages/Library.tsx:21 | Sorting a copy returns a permutation of its input |
| Library.InsertKeepsSorted | src/pages/Library.tsx:21-27 | Under a total preorder, inserting into an ordered list keeps it ordered |
| Library.SortSorts | src/pages/Library.tsx:21-27 | Under a total preorder, the sorted copy is ordered |
| Library.SortedArticles | src/pages/Library.tsx:21-27 | The view holds the filtered articles with their multiplicities: exactly the articles the filter accepts |
| Library.SortedViewIsOrderedPermutation | src/pages/Library.tsx:21-27 | The view is a permutation of the filtered list. 'dateAdded' order has non-increasing dates (newest first). 'title' order has non-decreasing titles under the comparator |
| Library.TimeParts | src/pages/Library.tsx:160 | For a non-negative time the seconds lie in [0, 60) and 60 × minutes + seconds gives the time back |
| Library.NegativeTimeParts | src/pages/Library.tsx:160 | -61 seconds shows as -2 minutes and -1 second |
| ProgressMetrics.Digits | src/components/reader/ProgressMetrics.tsx:20 | At least one decimal digit, and at most two below 100 |
| ProgressMetrics.NumberToString | src/components/reader/ProgressMetrics.tsx:20 | The digits of the number, after a minus sign when it is negative |
| ProgressMetrics.PadStart2 | src/components/reader/ProgressMetrics.tsx:20 | At least two characters: the input preceded by zeros only |
| ProgressMetrics.FormatTime | src/components/reader/ProgressMetrics.tsx:17-21 | At least five characters. For a non-negative count it ends with a colon and two digits of seconds |
| ProgressMetrics.DecimalValueOfDigits | src/components/reader/ProgressMetrics.tsx:20 | Reading the digits back gives the number |
| ProgressMetrics.DecimalValueLeadingZero | src/components/reader/ProgressMetrics.tsx:20 | A leading zero does not change the value read |
| ProgressMetrics.PaddedValue | src/components/reader/ProgressMetrics.tsx:20 | Padded digits are still digits and read back to the number |
| ProgressMetrics.FormatTimeReadsBack | src/components/reader/ProgressMetrics.tsx:17-21 | For a non-negative count the output is two digit groups around one colon, and 60·MM + SS reads back to the count |
| ProgressMetrics.FormatTimeLength | src/components/reader/ProgressMetrics.tsx:17-21 | Under 6000 seconds the output is exactly five characters with the colon in the middle |
| ProgressMetrics.SecondsBelowSixty | src/components/reader/ProgressMetrics.tsx:18-19 | For a non-negative count the seconds lie in [0, 60) and recombine with the minutes to the count |
| ProgressMetrics.ProgressWidth | src/components/reader/ProgressMetrics.tsx:67 | The width lies in [0, 100], is the identity on that range, and clamps outside it |
| ProgressMetrics.ProgressLabel | src/components/reader/ProgressMetrics.tsx:71 | The label is the integer nearest the progress, halves rounded up |
| ProgressMetrics.LabelIsNotClamped | src/components/reader/ProgressMetrics.tsx:67-71 | Progress 150 is labelled 150 while the bar stays at 100 |
| TypingInterface.TypedThenRemaining | src/components/reader/TypingInterface.tsx:93-96 | The typed part followed by the remaining part is the whole text, for any cursor. The typed part is as long as the clamped cursor |
| TypingInterface.AnyCovers | src/components/reader/TypingInterface.tsx:103-105 | True exactly when some highlight covers the index |
| TypingInterface.EmptyHighlightMarksNothing | src/components/reader/TypingInterface.tsx:104 | A highlight with empty text covers no index |
| TypingInterface.Chars | src/components/reader/TypingInterface.tsx:102-122 | The characters of the drawn glyphs, one per glyph |
| TypingInterface.RenderText | src/components/reader/TypingInterface.tsx:87-134 | The glyphs' characters followed by the remaining text are the whole text. Only indices below the cursor get glyphs. A glyph is red exactly when its index is a mistake, and shaded exactly when some article highlight covers it |
| TypingInterface.ContextMenu.constructor | src/components/reader/TypingInterface.tsx:29-30 | The menu starts hidden at (0, 0) with no captured selection |
| TypingInterface.ContextMenu.Open | src/components/reader/TypingInterface.tsx:44-51 | A non-empty selection is captured and opens the menu at the pointer. Otherwise nothing changes |
| TypingInterface.ContextMenu.Hide | src/components/reader/TypingInterface.tsx:65 | The menu is hidden at (0, 0). The captured selection stays |
| TypingInterface.ChosenSelection | src/components/reader/TypingInterface.tsx:54 | The captured selection when non-empty, else the window's selection, else empty |
| TypingInterface.HandleHighlightSelection | src/components/reader/TypingInterface.tsx:53-66 | The session gains one highlight at the cursor (not at the selection) exactly when the chosen selection is non-empty. The menu closes either way |
| TypingInterface.HandleCopyText | src/components/reader/TypingInterface.tsx:68-71 | The menu closes |
| TypingInterface.HighlightSelectionCount | src/components/reader/TypingInterface.tsx:55-63 | The highlight count grows by one for a non-empty selection and by none otherwise. The new highlight sits at the cursor. Cursor and mistakes are untouched |
| Reader.FirstWithId | src/pages/Reader.tsx:16 | The index of the first article under the id, or none exactly when no article has it |
| Reader.CurrentArticle | src/pages/Reader.tsx:16-26 | None when no id is set or no article has it, in which case nothing is rendered. Otherwise it is the first article of the list under that id |
| Reader.WithoutHighlight | src/pages/Reader.tsx:55-57 | Exactly the highlights under other ids remain |
| Reader.WithoutHighlightDistributes | src/pages/Reader.tsx:55-57 | Deleting from a concatenation of highlight lists deletes from each part |
| Reader.WithoutHighlightRemovesOnlyId | src/pages/Reader.tsx:55-57 | The kept highlights and the removed ones add up to the list, and every removed one is under the id |
| Reader.DeleteUndoesAddHighlight | src/pages/Reader.tsx:54-59 | Deleting a highlight just appended under a fresh id gives back the earlier list |
| Reader.DeleteUnknownHighlight | src/pages/Reader.tsx:54-59 | An unknown highlight id leaves the list unchanged |
| Reader.DeleteHighlightIdempotent | src/pages/Reader.tsx:54-59 | Deleting a highlight twice is deleting it once |
| Reader.CompletedArticle | src/pages/Reader.tsx:28-48 | About `CompletionPatch` (Reader.tsx:34-46): the completed article is marked completed at progress 100. The session's wpm, accuracy, time and errors are copied. Words typed is the article's word count. The total words and everything else are kept, and the open time is stamped |
| Reader.DeletedHighlightIsGone | src/pages/Reader.tsx:54-59 | About `DeleteHighlightPatch` (Reader.tsx:55-58): after deletion no highlight has the id, the other highlights remain, and nothing else about the article changed |
| Reader.HandleComplete | src/pages/Reader.tsx:28-48 | Every store entry under the current article's id takes the completion patch |
| Reader.HandleDeleteHighlight | src/pages/Reader.tsx:54-59 | Every store entry under the current article's id takes the highlight-deletion patch |
| Home.NewArticle | src/pages/Home.tsx:16-33 | Id, title, content, source and date are the inputs. The article is not completed, has progress 0, no highlights and no open time. Total words is the content's word count, at least 1. All other figures are 0 |
| Home.BlankArticleHasOneWord | src/pages/Home.tsx:27 | Content of spaces only still counts one word |
| Home.HandleImportComplete | src/pages/Home.tsx:13-36 | The new article is appended to the store and becomes the current article |
| Home.ImportedArticleIsOpened | src/pages/Home.tsx:35-36 | After an import under a fresh id, the reading page opens the new article. Under an id already in use, it opens the older article with that id |
| Seqs.Filter | src/context/ContentContext.tsx:68 | The result keeps exactly the elements that pass the test and is no longer than the input |
| Seqs.FilterConcat | src/context/ContentContext.tsx:68 | Filtering distributes over concatenation |
| Seqs.FilterKeepsAll | src/pages/Library.tsx:15 | A filter that rejects nothing returns its input |
| Seqs.FilterIdempotent | src/context/ContentContext.tsx:68 | Filtering twice by the same test is filtering once |
| Seqs.FilterPartition | src/pages/Library.tsx:16-17 | A test and its negation split the elements between them |
| Text.Trim | src/utils/typingMetrics.ts:7 | No longer than the input, and with no white space at either end |
| Text.TrimEmptyIffBlank | src/utils/typingMetrics.ts:7 | Trimming leaves nothing exactly when the input is blank |
| Text.TrimIsSlice | src/utils/typingMetrics.ts:7 | The trimmed text is one contiguous slice of the input, with white space only before and after it |
| Text.TrimOfPadded | src/utils/typingMetrics.ts:7 | White space around a text that starts and ends with a non-blank is exactly what trimming removes |
| Text.SplitWs | src/utils/typingMetrics.ts:7 | At least one piece, none containing white space |
| Text.SplitWsJoin | src/utils/typingMetrics.ts:7 | Words without white space joined by single spaces split back into the same words |
| Text.SplitWsJoinGaps | src/utils/typingMetrics.ts:7 | Words without white space, separated by non-empty runs of white space of any length, split back into the same words |
| Text.SplitOn | src/utils/contentExtraction.ts:3 | At least one piece, none containing the separator |
| Text.JoinSplit | src/utils/contentExtraction.ts:3-9 | Joining the split pieces with the separator gives back the text |
| Text.SplitJoin | src/components/reader/ProgressMetrics.tsx:20 | Pieces free of the separator, once joined, split back into the same pieces |
| Text.SplitOnFirst | src/utils/contentExtraction.ts:3-4 | The first piece is the text before the first separator. There is more than one piece exactly when the separator occurs |
| Text.Substring | src/components/reader/TypingInterface.tsx:93-96 | In-range bounds take the slice between them. The result is never longer than the text |
| JsMath.FloorDiv | src/hooks/useTypingTest.ts:258 | The greatest integer not above the quotient |
| JsMath.RoundHalfUp | src/utils/typingMetrics.ts:13 | The integer nearest the quotient, halves rounded up |
| JsMath.JsRem | src/pages/Library.tsx:160 | The remainder takes the dividend's sign, is smaller than the divisor in magnitude, and differs from the dividend by a multiple of the divisor |
| JsMath.RoundHalfUpMonotonic | src/utils/typingMetrics.ts:30 | Rounding never goes down as the numerator grows |

## Left out

- Audio: loading the sound files, volume and playback (src/hooks/useTypingTest.ts:40-75). Only the "correct keystroke" flag that triggers playback is modelled.
- The wall clock and id generation (`Date.now()`, `new Date().toISOString()`): times, ids and dates are parameters.
- DOM selection: the range walk in `addHighlight` that computes a highlight's offset (src/hooks/useTypingTest.ts:193-205, 221), and `window.getSelection()`. The selected text and offset are inputs.
- Event plumbing: the keydown listeners, the Ctrl+H shortcut in the typing screen (src/components/reader/TypingInterface.tsx:32-42) whose handler captures the first render's state, the synthetic Alt events of the pause buttons, and the clipboard write.
- React scheduling: state read from stale closures (src/hooks/useTypingTest.ts:78, 108, 111) is taken to be the latest state, and a key event's updaters run in order with one clock reading.
- The hook's `initialState` option (src/hooks/useTypingTest.ts:21, 34): sessions start from the default initial state.
- Text is counted in `char`s, which are Unicode scalar values, where JavaScript counts UTF-16 code units. TypingTest.OnKeyDown, TypingTest.Goal, TypingTest.MatchesAt, Text.Substring, TypingMetrics.GetProgressPercentage, ContentExtraction.ExtractContentFromText (whose 100-character title limit counts code units) and TypingInterface.RenderText (where `split('')` cuts a surrogate pair into two glyphs) therefore agree with the source only on text inside the Basic Multilingual Plane. For example, an emoji key has `e.key.length === 2` and the source ignores it, while the model treats it as one printable character; cursor positions and percentages also differ on content with such characters.
- IEEE floating point: WPM, accuracy and progress are exact. NaN and Infinity are not modelled. The empty-text progress is `None`, and what the bar and label show for it is not modelled.
- TypingMetrics.CalculateWPMRounds: for negative elapsed time the contract states only that the result is not positive, not its exact rounding.
- Library.SortedViewIsOrderedPermutation: does not state that ties keep their original order (the stability of `Array.prototype.sort`).
- `localeCompare` and `Date` parsing: the title order is a parameter assumed to be a total preorder, and `dateAdded` is already a millisecond timestamp.
- Aliasing in `handleHighlightSelection`: the source pushes onto the hook's highlight array in place (src/components/reader/TypingInterface.tsx:62) and passes that array to `onUpdateHighlights`. The model appends to the session's highlight field and does not model the shared array or the store update.
- `handleUpdateHighlights` (src/pages/Reader.tsx:50-52) and the effect that calls it (src/components/reader/TypingInterface.tsx:80-84): presentation glue that forwards the list to the store.
- Persistence: `localStorage` and JSON. Saved articles and settings are constructor inputs.
- Importers (URL, file, text forms), the mocked URL fetch, the `FileReader` part of `processFileContent`, theming, routing and the other presentation components.
