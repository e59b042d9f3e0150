/**
 * The library view (src/pages/Library.tsx): the article list filtered by
 * completion, then sorted on a fresh copy, newest first or by title; and the
 * minutes/seconds split of an article's time spent.
 *
 * Dates are the millisecond timestamps the view parses them into, and the
 * title order (`localeCompare`) is a parameter assumed to be a total preorder.
 */
module Library {
  import opened Types
  import opened Seqs
  import JsMath

  datatype FilterKind = All | Completed | InProgress

  datatype SortKey = DateAdded | Title

  /** The filter test for each choice. */
  function Keeps(kind: FilterKind): Article -> bool {
    match kind
    case All => (a: Article) => true
    case Completed => (a: Article) => a.completed
    case InProgress => (a: Article) => !a.completed
  }

  /** `filteredArticles`. */
  function FilteredArticles(articles: seq<Article>, kind: FilterKind): (r: seq<Article>)
    ensures forall a :: a in r <==> a in articles && Keeps(kind)(a)
  {
    Filter(articles, Keeps(kind))
  }

  /** The complement of `Keeps`: the articles a filter hides. */
  function Hides(kind: FilterKind): Article -> bool {
    (a: Article) => !Keeps(kind)(a)
  }

  /** Filtering a concatenation filters each part. */
  lemma FilterDistributes(front: seq<Article>, back: seq<Article>, kind: FilterKind)
    ensures FilteredArticles(front + back, kind) == FilteredArticles(front, kind) + FilteredArticles(back, kind)
  {
    FilterConcat(front, back, Keeps(kind));
  }

  /** What a filter shows and what it hides add up to the whole list. */
  lemma ShownAndHiddenPartition(articles: seq<Article>, kind: FilterKind)
    ensures multiset(FilteredArticles(articles, kind)) + multiset(Filter(articles, Hides(kind))) == multiset(articles)
    ensures forall a :: a in Filter(articles, Hides(kind)) ==> !Keeps(kind)(a)
  {
    FilterPartition(articles, Keeps(kind), Hides(kind));
  }

  /** 'all' shows every article, in store order. */
  lemma AllKeepsEverything(articles: seq<Article>)
    ensures FilteredArticles(articles, All) == articles
  {
    FilterKeepsAll(articles, Keeps(All));
  }

  /** 'completed' and 'inProgress' split the list between them: every article is in exactly one. */
  lemma CompletedAndInProgressPartition(articles: seq<Article>)
    ensures multiset(FilteredArticles(articles, Completed)) + multiset(FilteredArticles(articles, InProgress))
      == multiset(articles)
    ensures forall a :: a in FilteredArticles(articles, Completed) ==> a.completed
    ensures forall a :: a in FilteredArticles(articles, InProgress) ==> !a.completed
  {
    FilterPartition(articles, Keeps(Completed), Keeps(InProgress));
  }

  // ---------------------------------------------------------------------------
  // Sorting

  ghost predicate Total<T(!new)>(before: (T, T) -> bool) {
    forall x, y :: before(x, y) || before(y, x)
  }

  ghost predicate Transitive<T(!new)>(before: (T, T) -> bool) {
    forall x, y, z :: before(x, y) && before(y, z) ==> before(x, z)
  }

  ghost predicate SortedBy<T>(xs: seq<T>, before: (T, T) -> bool) {
    forall i, j :: 0 <= i < j < |xs| ==> before(xs[i], xs[j])
  }

  /** Places x in front of the first element it may precede. */
  function Insert<T>(x: T, xs: seq<T>, before: (T, T) -> bool): (r: seq<T>)
    ensures multiset(r) == multiset(xs) + multiset{x}
  {
    if xs == [] || before(x, xs[0]) then [x] + xs
    else
      assert xs == [xs[0]] + xs[1..];
      [xs[0]] + Insert(x, xs[1..], before)
  }

  /** `[...xs].sort(compare)`: a new sequence holding the same elements, in comparator order. */
  function Sort<T>(xs: seq<T>, before: (T, T) -> bool): (r: seq<T>)
    ensures multiset(r) == multiset(xs) && |r| == |xs|
  {
    if xs == [] then []
    else
      assert xs == [xs[0]] + xs[1..];
      Insert(xs[0], Sort(xs[1..], before), before)
  }

  lemma {:induction false} InsertKeepsSorted<T(!new)>(x: T, xs: seq<T>, before: (T, T) -> bool)
    requires Total(before) && Transitive(before) && SortedBy(xs, before)
    ensures SortedBy(Insert(x, xs, before), before)
  {
    if xs != [] && !before(x, xs[0]) {
      var tail := xs[1..];
      assert SortedBy(tail, before) by {
        forall i, j | 0 <= i < j < |tail| ensures before(tail[i], tail[j]) {
          assert tail[i] == xs[i + 1] && tail[j] == xs[j + 1];
        }
      }
      InsertKeepsSorted(x, tail, before);
      var rest := Insert(x, tail, before);
      forall k | 0 <= k < |rest| ensures before(xs[0], rest[k]) {
        assert rest[k] in multiset(rest);
        if rest[k] != x {
          assert rest[k] in multiset(tail);
          var j :| 0 <= j < |tail| && tail[j] == rest[k];
          assert xs[j + 1] == tail[j];
        }
      }
      var r := [xs[0]] + rest;
      forall i, j | 0 <= i < j < |r| ensures before(r[i], r[j]) {
        assert r[j] == rest[j - 1];
        if i > 0 {
          assert r[i] == rest[i - 1];
        }
      }
    }
  }

  /** Under a total preorder the result is ordered. */
  lemma {:induction false} SortSorts<T(!new)>(xs: seq<T>, before: (T, T) -> bool)
    requires Total(before) && Transitive(before)
    ensures SortedBy(Sort(xs, before), before)
  {
    if xs != [] {
      SortSorts(xs[1..], before);
      InsertKeepsSorted(xs[0], Sort(xs[1..], before), before);
    }
  }

  /** `new Date(b.dateAdded) - new Date(a.dateAdded)`: a goes first when it is no older. */
  function NewestFirst(): (Article, Article) -> bool {
    (a: Article, b: Article) => a.dateAdded >= b.dateAdded
  }

  /** `a.title.localeCompare(b.title) <= 0`, for a given title order. */
  function ByTitle(titleLe: (string, string) -> bool): (Article, Article) -> bool {
    (a: Article, b: Article) => titleLe(a.title, b.title)
  }

  function Comparator(key: SortKey, titleLe: (string, string) -> bool): (Article, Article) -> bool {
    if key == DateAdded then NewestFirst() else ByTitle(titleLe)
  }

  /** `sortedArticles`: the filtered list, sorted on a copy. */
  function SortedArticles(articles: seq<Article>, kind: FilterKind, key: SortKey, titleLe: (string, string) -> bool)
    : (r: seq<Article>)
    ensures multiset(r) == multiset(FilteredArticles(articles, kind))
    ensures forall a :: a in r <==> a in articles && Keeps(kind)(a)
  {
    var sorted := Sort(FilteredArticles(articles, kind), Comparator(key, titleLe));
    assert forall a :: a in sorted <==> a in multiset(sorted);
    sorted
  }

  /**
   * The view holds exactly the filtered articles, newest first or in title
   * order, while the store's own list keeps its order (it is an input here,
   * never rebuilt).
   */
  lemma SortedViewIsOrderedPermutation(
    articles: seq<Article>, kind: FilterKind, key: SortKey, titleLe: (string, string) -> bool)
    requires Total(titleLe) && Transitive(titleLe)
    ensures var r := SortedArticles(articles, kind, key, titleLe);
      && multiset(r) == multiset(FilteredArticles(articles, kind))
      && (key == DateAdded ==> forall i, j :: 0 <= i < j < |r| ==> r[i].dateAdded >= r[j].dateAdded)
      && (key == Title ==> forall i, j :: 0 <= i < j < |r| ==> titleLe(r[i].title, r[j].title))
  {
    var before := Comparator(key, titleLe);
    assert Total(before) && Transitive(before) by {
      if key == Title {
        forall a: Article, b: Article ensures before(a, b) || before(b, a) {
          assert titleLe(a.title, b.title) || titleLe(b.title, a.title);
        }
        forall a: Article, b: Article, c: Article | before(a, b) && before(b, c) ensures before(a, c) {
          assert titleLe(a.title, b.title) && titleLe(b.title, c.title);
        }
      }
    }
    SortSorts(FilteredArticles(articles, kind), before);
  }

  // ---------------------------------------------------------------------------
  // Time spent

  /** `Math.floor(t / 60)` minutes and `t % 60` seconds, as the card shows them. */
  function TimeParts(timeSpent: int): (r: (int, int))
    ensures timeSpent >= 0 ==> 0 <= r.1 < 60 && 60 * r.0 + r.1 == timeSpent
  {
    (JsMath.FloorDiv(timeSpent, 60), JsMath.JsRem(timeSpent, 60))
  }

  /** For a negative time the two parts no longer add up: -61 s shows as -2 m and -1 s. */
  lemma NegativeTimeParts()
    ensures TimeParts(-61) == (-2, -1)
  {
  }
}
