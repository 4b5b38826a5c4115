/**
 * The derived state of the knowledge-base listing: the articles that pass
 * the search box and the category facet, and the categories the facet offers.
 */
module KnowledgeBase {
  import opened Wrappers
  import opened Seqs
  import opened Text
  import opened Selection

  /** The fields of an article that the listing's logic reads. */
  datatype Article = Article(id: string, title: string, description: string, category: string, tags: seq<string>)

  /** `matchesSearch`: the lower-cased term occurs in the title, the description or some tag. */
  predicate MatchesSearch(article: Article, term: string) {
    MatchesText(article.title, term) || MatchesText(article.description, term) || AnyMatches(article.tags, term)
  }

  /** `matchesCategory`: no active selection, or exact equality with it. */
  predicate MatchesCategory(article: Article, selected: Option<string>) {
    !IsActive(selected) || article.category == selected.value
  }

  predicate Keep(article: Article, term: string, selected: Option<string>) {
    MatchesSearch(article, term) && MatchesCategory(article, selected)
  }

  /**
   * `filteredArticles`: an order-preserving subsequence of all articles that
   * holds an article exactly when it matches the search and the category.
   */
  function FilteredArticles(articles: seq<Article>, term: string, selected: Option<string>): (r: seq<Article>)
    ensures IsSubsequence(r, articles) && |r| <= |articles|
    ensures forall a :: a in r <==> a in articles && Keep(a, term, selected)
    ensures IsActive(selected) ==> forall a :: a in r ==> a.category == selected.value
    ensures forall a :: multiset(r)[a] == if Keep(a, term, selected) then multiset(articles)[a] else 0
  {
    var keep := a => Keep(a, term, selected);
    FilterIsSubsequence(articles, keep);
    SubsequenceBounds(Filter(articles, keep), articles);
    forall a ensures a in Filter(articles, keep) <==> a in articles && keep(a) {
      FilterMembership(articles, keep, a);
    }
    forall a ensures multiset(Filter(articles, keep))[a] == if keep(a) then multiset(articles)[a] else 0 {
      FilterCount(articles, keep, a);
    }
    Filter(articles, keep)
  }

  /**
   * Without an active category the listing is the search-only filter, and
   * with an empty search as well it is every article in order.
   */
  lemma NoCategoryIsSearchOnly(articles: seq<Article>, term: string, selected: Option<string>)
    requires !IsActive(selected)
    ensures FilteredArticles(articles, term, selected) == Filter(articles, a => MatchesSearch(a, term))
    ensures term == "" ==> FilteredArticles(articles, term, selected) == articles
  {
    FilterCongruent(articles, a => Keep(a, term, selected), a => MatchesSearch(a, term));
    if term == "" {
      forall a | a in articles ensures MatchesSearch(a, term) {
        EmptyTermMatches(a.title);
      }
      FilterKeepsAll(articles, a => MatchesSearch(a, term));
    }
  }

  /** Selecting a category only narrows: the result is a subsequence of the search-only one. */
  lemma CategoryNarrows(articles: seq<Article>, term: string, selected: Option<string>)
    ensures IsSubsequence(FilteredArticles(articles, term, selected), FilteredArticles(articles, term, None))
  {
    FilterMonotone(articles, a => Keep(a, term, selected), a => Keep(a, term, None));
  }

  /** `articles.map(article => article.category)`. */
  function CategoryList(articles: seq<Article>): (r: seq<string>)
    ensures |r| == |articles|
    ensures forall i :: 0 <= i < |articles| ==> r[i] == articles[i].category
    ensures forall c :: c in r <==> exists a :: a in articles && a.category == c
  {
    var r := seq(|articles|, i requires 0 <= i < |articles| => articles[i].category);
    assert forall c :: c in r <==> exists a :: a in articles && a.category == c by {
      forall c ensures c in r <==> exists a :: a in articles && a.category == c {
        if c in r { var i :| 0 <= i < |r| && r[i] == c; assert articles[i] in articles; }
        if exists a :: a in articles && a.category == c {
          var a :| a in articles && a.category == c;
          var i :| 0 <= i < |articles| && articles[i] == a;
          assert r[i] == c;
        }
      }
    }
    r
  }

  /**
   * `categories`: each category some article has, exactly once, ordered by
   * the first article that has it.
   */
  function Categories(articles: seq<Article>): (r: seq<string>)
    ensures NoDuplicates(r)
    ensures forall c :: c in r <==> exists a :: a in articles && a.category == c
    ensures forall c :: c in r ==> c in CategoryList(articles)
    ensures forall i, j :: 0 <= i < j < |r| ==>
      FirstIndex(CategoryList(articles), r[i]) < FirstIndex(CategoryList(articles), r[j])
  {
    var cats := CategoryList(articles);
    var d := Distinct(cats);
    DistinctFirstSeenOrder(cats);
    assert forall c :: c in d <==> c in cats by {
      forall c ensures c in d <==> c in cats {
        if c in d { var i :| 0 <= i < |d| && d[i] == c; }
        if c in cats { var i :| 0 <= i < |cats| && cats[i] == c; }
      }
    }
    d
  }

  /** A term that no article matches lists nothing, whatever the category. */
  lemma NoMatchListsNothing(articles: seq<Article>, term: string, selected: Option<string>)
    requires forall a :: a in articles ==> !MatchesSearch(a, term)
    ensures FilteredArticles(articles, term, selected) == []
  {
  }

  /** The category exactness example: only the article of the chosen category is listed. */
  lemma CategoryExample(backend: Article, frontend: Article)
    requires backend.category == "Backend" && frontend.category == "Frontend"
    ensures FilteredArticles([backend, frontend], "", Some("Backend")) == [backend]
  {
    EmptyTermMatches(backend.title);
    var keep := a => Keep(a, "", Some("Backend"));
    assert [backend, frontend][1..] == [frontend];
    assert Filter([frontend], keep) == [];
  }

  /** The search is case-insensitive: "api" finds "API Design". */
  lemma CaseInsensitiveExample(article: Article)
    requires article.title == "API Design"
    ensures FilteredArticles([article], "api", None) == [article]
  {
  }

  /** A term that occurs nowhere lists nothing. */
  lemma NoMatchExample(article: Article)
    requires article.title == "X" && article.description == "" && article.tags == []
    ensures FilteredArticles([article], "zzz-no-such-token", None) == []
  {
  }
}
