/**
 * The records shared by the reading and typing screens (src/types/index.ts),
 * plus the small Option wrapper used for the source's nullable fields.
 */
module Types {

  /** A value that may be absent (`T | null` or an optional property). */
  datatype Option<+T> = None | Some(value: T)

  /**
   * A wall-clock reading in milliseconds. `Date.now()` is always positive, so
   * the source's truthiness tests on nullable timestamps (`if (state.endTime)`,
   * `prev.startTime || 0`) coincide with `Some?` on an `Option<Timestamp>`.
   */
  type Timestamp = t: int | t > 0 witness 1

  /** A user-marked excerpt, anchored at a character offset of the article. */
  datatype Highlight = Highlight(id: string, text: string, position: int, dateCreated: string)

  datatype ArticleStatistics = ArticleStatistics(
    wordsTyped: int,
    totalWords: int,
    timeSpent: int,     // seconds
    wpm: int,
    accuracy: real,
    errorCount: int)

  /**
   * An imported article. `dateAdded` is kept as the millisecond timestamp that
   * the library parses its ISO string into.
   */
  datatype Article = Article(
    id: string,
    title: string,
    content: string,
    source: string,
    dateAdded: int,
    lastOpened: Option<string>,
    completed: bool,
    progress: int,
    highlights: seq<Highlight>,
    statistics: ArticleStatistics)

  datatype SoundType = Typewriter | Mechanical | Soft | NoSound

  datatype AudioSettings = AudioSettings(enabled: bool, volume: real, soundType: SoundType)
}
