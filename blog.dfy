/**
 * The derived state of the blog listing: the posts that pass the search box
 * and the tag facet, and the list of tags offered by the facet.
 */
module Blog {
  import opened Wrappers
  import opened Seqs
  import opened Text
  import opened Selection

  /** The fields of a blog post that the listing's logic reads. */
  datatype Post = Post(id: string, title: string, content: string, tags: seq<string>)

  /** The lower-cased term occurs in the title, the content or some tag. */
  predicate MatchesSearch(post: Post, term: string) {
    MatchesText(post.title, term) || MatchesText(post.content, term) || AnyMatches(post.tags, term)
  }

  /** `!selectedTag || post.tags.includes(selectedTag)`: exact, case-sensitive membership. */
  predicate MatchesTag(post: Post, selected: Option<string>) {
    !IsActive(selected) || selected.value in post.tags
  }

  predicate Keep(post: Post, term: string, selected: Option<string>) {
    MatchesSearch(post, term) && MatchesTag(post, selected)
  }

  /**
   * `filteredPosts`: the posts that match both the search term and the
   * selected tag, as an order-preserving subsequence of all posts.
   */
  function FilteredPosts(posts: seq<Post>, term: string, selected: Option<string>): (r: seq<Post>)
    ensures IsSubsequence(r, posts) && |r| <= |posts|
    ensures forall p :: p in r <==> p in posts && Keep(p, term, selected)
    ensures IsActive(selected) ==> forall p :: p in r ==> selected.value in p.tags
    ensures forall p :: multiset(r)[p] == if Keep(p, term, selected) then multiset(posts)[p] else 0
  {
    var keep := p => Keep(p, term, selected);
    FilterIsSubsequence(posts, keep);
    SubsequenceBounds(Filter(posts, keep), posts);
    forall p ensures p in Filter(posts, keep) <==> p in posts && keep(p) {
      FilterMembership(posts, keep, p);
    }
    forall p ensures multiset(Filter(posts, keep))[p] == if keep(p) then multiset(posts)[p] else 0 {
      FilterCount(posts, keep, p);
    }
    Filter(posts, keep)
  }

  /** With an empty search and no selected tag every post is listed, in order. */
  lemma EmptyCriteriaListsAll(posts: seq<Post>, selected: Option<string>)
    requires !IsActive(selected)
    ensures FilteredPosts(posts, "", selected) == posts
  {
    forall p | p in posts ensures Keep(p, "", selected) {
      EmptyTermMatches(p.title);
    }
    FilterKeepsAll(posts, p => Keep(p, "", selected));
  }

  /**
   * Selecting a tag only narrows the listing: the result is the search-only
   * result filtered once more by the tag, hence a subsequence of it.
   */
  lemma TagNarrows(posts: seq<Post>, term: string, selected: Option<string>)
    ensures FilteredPosts(posts, term, selected)
      == Filter(FilteredPosts(posts, term, None), p => MatchesTag(p, selected))
    ensures IsSubsequence(FilteredPosts(posts, term, selected), FilteredPosts(posts, term, None))
  {
    var searchOnly := p => Keep(p, term, None);
    var keep := p => Keep(p, term, selected);
    var tag := p => MatchesTag(p, selected);
    FilterFilter(posts, searchOnly, tag, keep);
    FilterIsSubsequence(Filter(posts, searchOnly), tag);
  }

  /** `posts.flatMap(post => post.tags)`: every tag of every post, post by post. */
  function FlatTags(posts: seq<Post>): (r: seq<string>)
    ensures forall t :: t in r <==> exists p :: p in posts && t in p.tags
    decreases |posts|
  {
    if posts == [] then []
    else
      assert forall p :: p in posts <==> p == posts[0] || p in posts[1..];
      posts[0].tags + FlatTags(posts[1..])
  }

  /**
   * `allTags`: each tag that occurs in some post, exactly once, ordered by
   * its first occurrence in the post-by-post tag sequence.
   */
  function AllTags(posts: seq<Post>): (r: seq<string>)
    ensures NoDuplicates(r)
    ensures forall t :: t in r <==> exists p :: p in posts && t in p.tags
    ensures forall t :: t in r ==> t in FlatTags(posts)
    ensures forall i, j :: 0 <= i < j < |r| ==> FirstIndex(FlatTags(posts), r[i]) < FirstIndex(FlatTags(posts), r[j])
  {
    var flat := FlatTags(posts);
    var d := Distinct(flat);
    DistinctFirstSeenOrder(flat);
    assert forall t :: t in d <==> t in flat by {
      forall t ensures t in d <==> t in flat {
        if t in d { var i :| 0 <= i < |d| && d[i] == t; }
        if t in flat { var i :| 0 <= i < |flat| && flat[i] == t; }
      }
    }
    d
  }
}
