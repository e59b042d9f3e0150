/**
 * The article store and audio settings held by the content provider
 * (src/context/ContentContext.tsx). Each operation replaces the held list or
 * settings with a new value; the functions give that value and the class
 * `ContentStore` holds it. Persistence to local storage is not modelled.
 */
module ContentContext {
  import opened Types
  import opened Seqs

  /** The settings used when none were saved. */
  const DefaultAudioSettings := AudioSettings(true, 0.5, Mechanical)

  /**
   * A `Partial<Article>`: each field either supplied or not. `lastOpened` is
   * optional in the record, so supplying it means supplying an `Option`.
   */
  datatype ArticlePatch = ArticlePatch(
    id: Option<string>,
    title: Option<string>,
    content: Option<string>,
    source: Option<string>,
    dateAdded: Option<int>,
    lastOpened: Option<Option<string>>,
    completed: Option<bool>,
    progress: Option<int>,
    highlights: Option<seq<Highlight>>,
    statistics: Option<ArticleStatistics>)

  /** The patch that supplies nothing. */
  const NoChanges := ArticlePatch(None, None, None, None, None, None, None, None, None, None)

  function Pick<T>(supplied: Option<T>, current: T): T {
    if supplied.Some? then supplied.value else current
  }

  /** `{ ...article, ...updates }`: supplied fields replace, the others stay. */
  function Patched(a: Article, p: ArticlePatch): (r: Article)
    ensures p == NoChanges ==> r == a
    ensures p.id.None? ==> r.id == a.id
  {
    Article(
      Pick(p.id, a.id), Pick(p.title, a.title), Pick(p.content, a.content), Pick(p.source, a.source),
      Pick(p.dateAdded, a.dateAdded), Pick(p.lastOpened, a.lastOpened), Pick(p.completed, a.completed),
      Pick(p.progress, a.progress), Pick(p.highlights, a.highlights), Pick(p.statistics, a.statistics))
  }

  /** `{ ...p, ...q }` on patches: q's supplied fields win. */
  function Then(p: ArticlePatch, q: ArticlePatch): ArticlePatch {
    ArticlePatch(
      if q.id.Some? then q.id else p.id,
      if q.title.Some? then q.title else p.title,
      if q.content.Some? then q.content else p.content,
      if q.source.Some? then q.source else p.source,
      if q.dateAdded.Some? then q.dateAdded else p.dateAdded,
      if q.lastOpened.Some? then q.lastOpened else p.lastOpened,
      if q.completed.Some? then q.completed else p.completed,
      if q.progress.Some? then q.progress else p.progress,
      if q.highlights.Some? then q.highlights else p.highlights,
      if q.statistics.Some? then q.statistics else p.statistics)
  }

  /** Applying the same patch twice is applying it once. */
  lemma PatchIdempotent(a: Article, p: ArticlePatch)
    ensures Patched(Patched(a, p), p) == Patched(a, p)
  {
  }

  /** Two patches in a row are one merged patch. */
  lemma PatchesCompose(a: Article, p: ArticlePatch, q: ArticlePatch)
    ensures Patched(Patched(a, p), q) == Patched(a, Then(p, q))
  {
  }

  // ---------------------------------------------------------------------------
  // The article list

  /** `addArticle`: `[...prev, article]`. */
  function Appended(articles: seq<Article>, a: Article): (r: seq<Article>)
    ensures |r| == |articles| + 1 && r[..|articles|] == articles && r[|articles|] == a
  {
    articles + [a]
  }

  /**
   * `updateArticle`: every entry with the id takes the patch; the others, the
   * length and the order stay.
   */
  function Updated(articles: seq<Article>, id: string, p: ArticlePatch): (r: seq<Article>)
    ensures |r| == |articles|
    ensures forall i :: 0 <= i < |r| && articles[i].id != id ==> r[i] == articles[i]
    ensures forall i :: 0 <= i < |r| && articles[i].id == id ==> r[i] == Patched(articles[i], p)
  {
    if articles == [] then []
    else
      var head := if articles[0].id == id then Patched(articles[0], p) else articles[0];
      var rest := Updated(articles[1..], id, p);
      ConsShift(head, rest, articles);
      [head] + rest
  }

  lemma ConsShift<T>(head: T, rest: seq<T>, xs: seq<T>)
    requires xs != [] && |rest| == |xs| - 1
    ensures forall i :: 1 <= i < |xs| ==> ([head] + rest)[i] == rest[i - 1] && xs[i] == xs[1..][i - 1]
  {
  }

  /** The filter test of `deleteArticle`. */
  function IdIsNot(id: string): Article -> bool {
    (a: Article) => a.id != id
  }

  predicate HasId(articles: seq<Article>, id: string) {
    exists i :: 0 <= i < |articles| && articles[i].id == id
  }

  /** `deleteArticle`: every entry with the id goes, the rest keep their order. */
  function Deleted(articles: seq<Article>, id: string): (r: seq<Article>)
    ensures forall a :: a in r <==> a in articles && a.id != id
    ensures !HasId(r, id)
  {
    Filter(articles, IdIsNot(id))
  }

  /** The complement of `IdIsNot`: the entries a delete removes. */
  function IdIs(id: string): Article -> bool {
    (a: Article) => a.id == id
  }

  /** Deleting from a concatenation deletes from each part. */
  lemma DeleteDistributes(front: seq<Article>, back: seq<Article>, id: string)
    ensures Deleted(front + back, id) == Deleted(front, id) + Deleted(back, id)
  {
    FilterConcat(front, back, IdIsNot(id));
  }

  /** What a delete keeps and what it removes add up to the list it was given; only entries under the id go. */
  lemma DeleteRemovesOnlyId(articles: seq<Article>, id: string)
    ensures multiset(Deleted(articles, id)) + multiset(Filter(articles, IdIs(id))) == multiset(articles)
    ensures forall a :: a in Filter(articles, IdIs(id)) ==> a.id == id
  {
    FilterPartition(articles, IdIsNot(id), IdIs(id));
  }

  /** Updating an id the list does not hold changes nothing. */
  lemma UpdateAbsent(articles: seq<Article>, id: string, p: ArticlePatch)
    requires !HasId(articles, id)
    ensures Updated(articles, id, p) == articles
  {
  }

  /** Deleting an id the list does not hold changes nothing. */
  lemma DeleteAbsent(articles: seq<Article>, id: string)
    requires !HasId(articles, id)
    ensures Deleted(articles, id) == articles
  {
    FilterKeepsAll(articles, IdIsNot(id));
  }

  /** Deleting twice is deleting once. */
  lemma DeleteIdempotent(articles: seq<Article>, id: string)
    ensures Deleted(Deleted(articles, id), id) == Deleted(articles, id)
  {
    FilterIdempotent(articles, IdIsNot(id));
  }

  /** Deleting an article just added under a fresh id gives back the list before the add. */
  lemma DeleteUndoesAdd(articles: seq<Article>, a: Article)
    requires !HasId(articles, a.id)
    ensures Deleted(Appended(articles, a), a.id) == articles
  {
    FilterConcat(articles, [a], IdIsNot(a.id));
    DeleteAbsent(articles, a.id);
  }

  /** An update that keeps ids is forgotten by a later delete of the same id. */
  lemma {:induction false} DeleteAfterUpdate(articles: seq<Article>, id: string, p: ArticlePatch)
    requires p.id.None?
    ensures Deleted(Updated(articles, id, p), id) == Deleted(articles, id)
  {
    if articles != [] {
      DeleteAfterUpdate(articles[1..], id, p);
      var u := Updated(articles, id, p);
      assert u[1..] == Updated(articles[1..], id, p);
      assert u[0].id == articles[0].id;
      assert u[0].id != id ==> u[0] == articles[0];
    }
  }

  // ---------------------------------------------------------------------------
  // Audio settings

  /** A `Partial<AudioSettings>`. */
  datatype AudioSettingsPatch = AudioSettingsPatch(enabled: Option<bool>, volume: Option<real>, soundType: Option<SoundType>)

  /** `updateAudioSettings`: `{ ...prev, ...settings }`. */
  function MergedSettings(s: AudioSettings, p: AudioSettingsPatch): (r: AudioSettings)
    ensures p == AudioSettingsPatch(None, None, None) ==> r == s
  {
    AudioSettings(Pick(p.enabled, s.enabled), Pick(p.volume, s.volume), Pick(p.soundType, s.soundType))
  }

  /** Merging the same partial settings twice is merging them once. */
  lemma MergeIdempotent(s: AudioSettings, p: AudioSettingsPatch)
    ensures MergedSettings(MergedSettings(s, p), p) == MergedSettings(s, p)
  {
  }

  /** A merge that supplies every field replaces the settings outright. */
  lemma FullMergeReplaces(s: AudioSettings, t: AudioSettings)
    ensures MergedSettings(s, AudioSettingsPatch(Some(t.enabled), Some(t.volume), Some(t.soundType))) == t
  {
  }

  // ---------------------------------------------------------------------------
  // The provider's held state

  class ContentStore {
    var articles: seq<Article>
    var currentArticleId: Option<string>
    var audioSettings: AudioSettings

    /** The saved list, or none; the saved settings, or the defaults. */
    constructor(savedArticles: Option<seq<Article>>, savedSettings: Option<AudioSettings>)
      ensures articles == Pick(savedArticles, [])
      ensures audioSettings == Pick(savedSettings, DefaultAudioSettings)
      ensures currentArticleId.None?
    {
      articles := Pick(savedArticles, []);
      audioSettings := Pick(savedSettings, DefaultAudioSettings);
      currentArticleId := None;
    }

    method AddArticle(a: Article)
      modifies this
      ensures articles == Appended(old(articles), a)
      ensures currentArticleId == old(currentArticleId) && audioSettings == old(audioSettings)
    {
      articles := articles + [a];
    }

    method UpdateArticle(id: string, p: ArticlePatch)
      modifies this
      ensures articles == Updated(old(articles), id, p)
      ensures currentArticleId == old(currentArticleId) && audioSettings == old(audioSettings)
    {
      articles := Updated(articles, id, p);
    }

    method DeleteArticle(id: string)
      modifies this
      ensures articles == Deleted(old(articles), id)
      ensures currentArticleId == old(currentArticleId) && audioSettings == old(audioSettings)
    {
      articles := Filter(articles, IdIsNot(id));
    }

    method SetCurrentArticleId(id: Option<string>)
      modifies this
      ensures currentArticleId == id
      ensures articles == old(articles) && audioSettings == old(audioSettings)
    {
      currentArticleId := id;
    }

    method UpdateAudioSettings(p: AudioSettingsPatch)
      modifies this
      ensures audioSettings == MergedSettings(old(audioSettings), p)
      ensures articles == old(articles) && currentArticleId == old(currentArticleId)
    {
      audioSettings := MergedSettings(audioSettings, p);
    }
  }
}
