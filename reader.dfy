/**
 * The reading page (src/pages/Reader.tsx): which article is open, what its
 * record becomes when the typing session completes, and how a highlight is
 * deleted from it. Each change is a patch handed to the article store.
 */
module Reader {
  import opened Types
  import opened Seqs
  import ContentContext
  import TypingMetrics
  import TypingTest

  /** The index of the first article filed under `id`, if any. */
  function FirstWithId(articles: seq<Article>, id: string): (r: Option<nat>)
    ensures r.Some? ==> r.value < |articles| && articles[r.value].id == id
    ensures r.Some? ==> forall j :: 0 <= j < r.value ==> articles[j].id != id
    ensures r.None? <==> !ContentContext.HasId(articles, id)
  {
    if articles == [] then None
    else if articles[0].id == id then Some(0)
    else
      var rest := FirstWithId(articles[1..], id);
      if rest.Some? then Some(rest.value + 1) else None
  }

  /**
   * `currentArticle`: the first article whose id equals the current id; none
   * when no id is set (a null id matches no article) or none matches, in which
   * case the page renders nothing.
   */
  function CurrentArticle(articles: seq<Article>, currentId: Option<string>): (r: Option<Article>)
    ensures currentId.None? ==> r.None?
    ensures currentId.Some? ==>
      (r.None? <==> !ContentContext.HasId(articles, currentId.value))
    ensures r.Some? ==> r.value in articles && r.value.id == currentId.value
    // `find` returns the first article under the id
    ensures r.Some? ==>
      exists i :: (0 <= i < |articles| && r.value == articles[i]
        && forall j :: 0 <= j < i ==> articles[j].id != currentId.value)
  {
    if currentId.None? then None
    else
      var i := FirstWithId(articles, currentId.value);
      if i.Some? then Some(articles[i.value]) else None
  }

  /** The filter test of `handleDeleteHighlight`. */
  function HighlightIdIsNot(id: string): Highlight -> bool {
    (h: Highlight) => h.id != id
  }

  /** The highlight list without any entry filed under `id`, in the same order. */
  function WithoutHighlight(highlights: seq<Highlight>, id: string): (r: seq<Highlight>)
    ensures forall h :: h in r <==> h in highlights && h.id != id
  {
    Filter(highlights, HighlightIdIsNot(id))
  }

  /** An unknown highlight id leaves the list as it was. */
  lemma DeleteUnknownHighlight(highlights: seq<Highlight>, id: string)
    requires forall k :: 0 <= k < |highlights| ==> highlights[k].id != id
    ensures WithoutHighlight(highlights, id) == highlights
  {
    FilterKeepsAll(highlights, HighlightIdIsNot(id));
  }

  /** Deleting a highlight twice is deleting it once. */
  lemma DeleteHighlightIdempotent(highlights: seq<Highlight>, id: string)
    ensures WithoutHighlight(WithoutHighlight(highlights, id), id) == WithoutHighlight(highlights, id)
  {
    FilterIdempotent(highlights, HighlightIdIsNot(id));
  }

  /** The complement of `HighlightIdIsNot`: the entries a deletion removes. */
  function HighlightIdIs(id: string): Highlight -> bool {
    (h: Highlight) => h.id == id
  }

  /** Deleting from a concatenation of highlight lists deletes from each part. */
  lemma WithoutHighlightDistributes(front: seq<Highlight>, back: seq<Highlight>, id: string)
    ensures WithoutHighlight(front + back, id) == WithoutHighlight(front, id) + WithoutHighlight(back, id)
  {
    FilterConcat(front, back, HighlightIdIsNot(id));
  }

  /** What the deletion keeps and what it removes add up to the list it was given; only entries under the id go. */
  lemma WithoutHighlightRemovesOnlyId(highlights: seq<Highlight>, id: string)
    ensures multiset(WithoutHighlight(highlights, id)) + multiset(Filter(highlights, HighlightIdIs(id)))
      == multiset(highlights)
    ensures forall h :: h in Filter(highlights, HighlightIdIs(id)) ==> h.id == id
  {
    FilterPartition(highlights, HighlightIdIsNot(id), HighlightIdIs(id));
  }

  /** Deleting a highlight just appended under a fresh id gives back the list before the append. */
  lemma DeleteUndoesAddHighlight(highlights: seq<Highlight>, h: Highlight)
    requires forall k :: 0 <= k < |highlights| ==> highlights[k].id != h.id
    ensures WithoutHighlight(highlights + [h], h.id) == highlights
  {
    WithoutHighlightDistributes(highlights, [h], h.id);
    DeleteUnknownHighlight(highlights, h.id);
  }

  /** `handleDeleteHighlight`'s patch: only the highlights change. */
  function DeleteHighlightPatch(article: Article, id: string): ContentContext.ArticlePatch {
    ContentContext.NoChanges.(highlights := Some(WithoutHighlight(article.highlights, id)))
  }

  /**
   * `handleComplete`'s patch: completed at 100%, the session's figures copied,
   * the words typed counted over the article's text, the total kept, and the
   * opening time stamped.
   */
  function CompletionPatch(article: Article, stats: TypingTest.CompletionStats, now: string)
    : ContentContext.ArticlePatch
  {
    ContentContext.NoChanges.(
      completed := Some(true),
      progress := Some(100),
      statistics := Some(article.statistics.(
        wpm := stats.wpm,
        accuracy := stats.accuracy,
        timeSpent := stats.timeSpent,
        errorCount := stats.errorCount,
        wordsTyped := TypingMetrics.WordCount(article.content))),
      lastOpened := Some(Some(now)))
  }

  /** What a completed article looks like once the completion patch is applied. */
  lemma CompletedArticle(article: Article, stats: TypingTest.CompletionStats, now: string)
    ensures var a := ContentContext.Patched(article, CompletionPatch(article, stats, now));
      && a.completed && a.progress == 100 && a.lastOpened == Some(now)
      && a.statistics.wpm == stats.wpm && a.statistics.accuracy == stats.accuracy
      && a.statistics.timeSpent == stats.timeSpent && a.statistics.errorCount == stats.errorCount
      && a.statistics.wordsTyped == TypingMetrics.WordCount(article.content) >= 1
      && a.statistics.totalWords == article.statistics.totalWords
      && a.(completed := article.completed, progress := article.progress,
            statistics := article.statistics, lastOpened := article.lastOpened) == article
  {
  }

  /** After a highlight deletion the article holds no highlight with that id, and nothing else changed. */
  lemma DeletedHighlightIsGone(article: Article, id: string)
    ensures var a := ContentContext.Patched(article, DeleteHighlightPatch(article, id));
      && (forall h :: h in a.highlights <==> h in article.highlights && h.id != id)
      && a.(highlights := article.highlights) == article
  {
  }

  /** `handleComplete` on the store: every entry filed under the article's id takes the patch. */
  method HandleComplete(store: ContentContext.ContentStore, current: Article, stats: TypingTest.CompletionStats, now: string)
    modifies store
    ensures store.articles == ContentContext.Updated(old(store.articles), current.id, CompletionPatch(current, stats, now))
    ensures store.currentArticleId == old(store.currentArticleId) && store.audioSettings == old(store.audioSettings)
  {
    store.UpdateArticle(current.id, CompletionPatch(current, stats, now));
  }

  /** `handleDeleteHighlight` on the store. */
  method HandleDeleteHighlight(store: ContentContext.ContentStore, current: Article, id: string)
    modifies store
    ensures store.articles == ContentContext.Updated(old(store.articles), current.id, DeleteHighlightPatch(current, id))
    ensures store.currentArticleId == old(store.currentArticleId) && store.audioSettings == old(store.audioSettings)
  {
    store.UpdateArticle(current.id, DeleteHighlightPatch(current, id));
  }
}
