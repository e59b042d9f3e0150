/**
 * The start page (src/pages/Home.tsx): an import becomes a fresh article that
 * is added to the store and opened. The id and the date come from the clock
 * and are taken as inputs.
 */
module Home {
  import opened Types
  import ContentContext
  import TypingMetrics
  import Reader

  /** The `newArticle` record of `handleImportComplete`. */
  function NewArticle(id: string, title: string, content: string, source: string, dateAdded: int): (r: Article)
    ensures r.id == id && r.title == title && r.content == content && r.source == source
    ensures r.dateAdded == dateAdded && r.lastOpened.None?
    ensures !r.completed && r.progress == 0 && r.highlights == []
    ensures r.statistics.totalWords == TypingMetrics.WordCount(content) >= 1
    ensures r.statistics == ArticleStatistics(0, r.statistics.totalWords, 0, 0, 0.0, 0)
  {
    Article(id, title, content, source, dateAdded, None, false, 0, [],
      ArticleStatistics(0, TypingMetrics.WordCount(content), 0, 0, 0.0, 0))
  }

  /** Blank content still counts one word. */
  lemma BlankArticleHasOneWord(id: string, title: string, content: string, source: string, dateAdded: int)
    requires forall k :: 0 <= k < |content| ==> content[k] == ' '
    ensures NewArticle(id, title, content, source, dateAdded).statistics.totalWords == 1
  {
    TypingMetrics.BlankHasOneWord(content);
  }

  /** `handleImportComplete`: add the new article and make it the current one. */
  method HandleImportComplete(
    store: ContentContext.ContentStore, id: string, title: string, content: string, source: string, dateAdded: int)
    modifies store
    ensures store.articles == ContentContext.Appended(old(store.articles), NewArticle(id, title, content, source, dateAdded))
    ensures store.currentArticleId == Some(id)
    ensures store.audioSettings == old(store.audioSettings)
  {
    store.AddArticle(NewArticle(id, title, content, source, dateAdded));
    store.SetCurrentArticleId(Some(id));
  }

  /**
   * After an import under a fresh id the reading page opens the new article;
   * under an id already in use it opens the older article with that id.
   */
  lemma ImportedArticleIsOpened(articles: seq<Article>, a: Article)
    ensures !ContentContext.HasId(articles, a.id) ==>
      Reader.CurrentArticle(ContentContext.Appended(articles, a), Some(a.id)) == Some(a)
    ensures ContentContext.HasId(articles, a.id) ==>
      Reader.CurrentArticle(ContentContext.Appended(articles, a), Some(a.id)) == Reader.CurrentArticle(articles, Some(a.id))
  {
    var xs := ContentContext.Appended(articles, a);
    var i := Reader.FirstWithId(xs, a.id);
    assert xs[|articles|] == a;
    var j := Reader.FirstWithId(articles, a.id);
    if j.Some? {
      assert xs[j.value] == articles[j.value];
      assert i.value <= j.value;
      assert xs[i.value] == articles[i.value];
    }
  }
}
