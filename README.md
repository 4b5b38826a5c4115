# Devhub list views and blog editor, modelled in Dafny

This project models the derived state behind three views of the Devhub web
front end.

- **Blog listing** (`src/pages/Blog.tsx`). The listing shows the posts that
  pass the search box and the tag facet. A post passes when the lower-cased
  search term occurs in its lower-cased title, its content or one of its tags,
  and, if a tag is selected, the post's tags contain that exact tag. The facet
  lists every tag of every post once, in first-seen order. A click on a tag
  toggles the selection.
- **Knowledge-base listing** (`src/pages/KnowledgeBase.tsx`). Articles pass on
  the same search test, over title, description and tags. A selected category
  must equal the article's category exactly. The facet lists the distinct
  categories in first-seen order, with the same toggle.
- **Blog editor** (`src/components/BlogEditor.tsx`). The form state is title,
  content, the tag list and the tag input. Enter on a non-blank input appends
  the trimmed tag and clears the input. The remove button deletes one tag by
  position. Save hands the untrimmed title and content, with the tags, to the
  `onSave` callback, but only when neither title nor content is blank.

Modules:

- `Wrappers` holds `Option`, which stands for TypeScript's `string | null`.
- `Seqs` holds the generic list operations: `Array.prototype.filter` as
  `Filter`, subsequences, `FirstIndex`, and `Distinct`, which is
  `Array.from(new Set(xs))`.
- `Text` holds `trim`, ASCII `toLowerCase`, `includes` and the case-insensitive
  search test.
- `Selection` holds the facet selection and its toggle.
- `Blog`, `KnowledgeBase` and `Editor` follow the three source files. The
  editor is a class, `Editor.BlogEditor`, whose fields are the component's
  state variables. Each handler is a method on it; all but `HandleSave` change those fields.

Behaviour of the code worth noting:

- Both views test the selection for truthiness (`!selectedTag`). A selected
  empty string therefore restricts nothing, the same as `null`
  (`Selection.IsActive`).
- Clicking the same facet entry twice restores the earlier state only when
  nothing, or that same entry, was selected before. When another entry was
  selected, two clicks leave nothing selected (`Selection.ToggleTwiceFromOther`).
- The remove handler filters by position. A position outside the list removes
  nothing. This never happens in the view, since each button carries its own
  index.

## Model

| member | source | states |
|---|---|---|
| Blog.MatchesSearch | src/pages/Blog.tsx:17-21 | defines the search test: the lower-cased term occurs in the lower-cased title, content or some tag |
| Blog.MatchesTag | src/pages/Blog.tsx:22 | defines the tag test: no truthy selection (`!selectedTag`), or `post.tags.includes(selectedTag)`, exact membership of the selected tag |
| Blog.FilteredPosts | src/pages/Blog.tsx:15-23 | the result is a subsequence of the posts, no longer than them; a post is in it iff it matches the search (title, content or some tag) and the tag selection; with an active tag every listed post carries that exact tag; each matching post appears as often as in the input, and no other post appears |
| Blog.EmptyCriteriaListsAll | src/pages/Blog.tsx:15-23 | an empty search with no active tag lists every post, unchanged and in order |
| Blog.TagNarrows | src/pages/Blog.tsx:22 | the listing with a tag selected is the search-only listing filtered by the tag, and so a subsequence of it |
| Blog.FlatTags | src/pages/Blog.tsx:12 | the flattened tag sequence holds exactly the tags that occur in some post |
| Blog.AllTags | src/pages/Blog.tsx:11-13 | the facet has no duplicates, holds exactly the tags of some post, and is ordered by first occurrence in the flattened tag sequence |
| Selection.IsActive | src/pages/Blog.tsx:22 | defines the truthiness test behind `!selectedTag`: a selection restricts only when it is a non-empty string |
| Selection.Toggle | src/pages/Blog.tsx:58-59 | defines the click handler `selectedTag === tag ? null : tag`, shared with KnowledgeBase.tsx:47; its cases are stated by the lemmas below |
| Selection.ToggleCases | src/pages/Blog.tsx:58-59 | clicking the selected entry clears the selection; any other click selects the clicked entry; the result is active iff the click was not on the selection and the entry is non-empty |
| Selection.ToggleTwice | src/pages/KnowledgeBase.tsx:47 | two clicks on the same entry restore the earlier selection when it was empty or that entry |
| Selection.ToggleTwiceFromOther | src/pages/Blog.tsx:58-59 | two clicks on an entry, while another entry is selected, clear the selection rather than restoring it |
| KnowledgeBase.MatchesSearch | src/pages/KnowledgeBase.tsx:14-16 | defines `matchesSearch`: the lower-cased term occurs in the lower-cased title, description or some tag |
| KnowledgeBase.MatchesCategory | src/pages/KnowledgeBase.tsx:17 | defines `matchesCategory`: no truthy selection, or exact equality of the category with it |
| KnowledgeBase.FilteredArticles | src/pages/KnowledgeBase.tsx:13-19 | the result is a subsequence of the articles, no longer than them; an article is in it iff matchesSearch and matchesCategory; with an active category every listed article has exactly that category; each matching article appears as often as in the input, and no other article appears |
| KnowledgeBase.NoCategoryIsSearchOnly | src/pages/KnowledgeBase.tsx:17-18 | without an active category the listing equals the search-only filter, and with an empty search it equals the whole list |
| KnowledgeBase.CategoryNarrows | src/pages/KnowledgeBase.tsx:13-19 | the listing with a category selected is a subsequence of the listing with none |
| KnowledgeBase.CategoryList | src/pages/KnowledgeBase.tsx:11 | the mapped list has one category per article, in article order, so it holds exactly the categories some article has |
| KnowledgeBase.Categories | src/pages/KnowledgeBase.tsx:11 | the facet has no duplicates, holds exactly the categories some article has, and is ordered by the first article having each |
| KnowledgeBase.CategoryExample | src/pages/KnowledgeBase.tsx:17 | of a Backend and a Frontend article, selecting "Backend" lists exactly the first |
| KnowledgeBase.CaseInsensitiveExample | src/pages/KnowledgeBase.tsx:14 | the term "api" finds the title "API Design" |
| KnowledgeBase.NoMatchListsNothing | src/pages/KnowledgeBase.tsx:13-19 | a term that no article matches lists nothing, whatever the category selection |
| KnowledgeBase.NoMatchExample | src/pages/KnowledgeBase.tsx:14-16 | the term "zzz-no-such-token" finds nothing in an article titled "X" with an empty description and no tags |
| Text.LowerChar | src/pages/Blog.tsx:17 | an upper-case ASCII letter becomes its lower-case partner (code point plus 32, so 'A' becomes 'a'); the result is never an upper-case ASCII letter; every other character is unchanged |
| Text.Lower | src/pages/Blog.tsx:17 | `toLowerCase` keeps the length, turns each upper-case ASCII letter into its lower-case partner (code point plus 32), leaves no upper-case ASCII letter, and keeps every other character in place |
| Text.MatchesText | src/pages/Blog.tsx:17-18 | defines the test `text.toLowerCase().includes(term.toLowerCase())` |
| Text.AnyMatches | src/pages/Blog.tsx:19-21 | defines `tags.some(tag => tag.toLowerCase().includes(term.toLowerCase()))` |
| Text.Includes | src/pages/Blog.tsx:17 | `includes` holds iff the needle occurs at some position of the string |
| Text.MatchesAtIff | src/pages/KnowledgeBase.tsx:14 | at a given position, the lowered term occurs in the lowered text iff it matches there letter by letter, ignoring ASCII case |
| Text.MatchesTextIff | src/pages/KnowledgeBase.tsx:14-16 | the lower-case-then-includes test holds iff the term matches some slice of the text letter by letter, ignoring ASCII case |
| Text.EmptyTermMatches | src/pages/Blog.tsx:17 | every text contains the empty search term |
| Text.IsWhitespaceIff | src/components/BlogEditor.tsx:15 | the whitespace predicate `trim` strips is exactly membership in the table of ECMAScript WhiteSpace and LineTerminator code points |
| Text.WhitespaceExamples | src/components/BlogEditor.tsx:15 | space, line feed and no-break space are stripped |
| Text.VisibleAsciiIsNotWhitespace | src/components/BlogEditor.tsx:15 | no visible ASCII character is stripped |
| Text.ZeroWidthSpaceIsNotWhitespace | src/components/BlogEditor.tsx:15 | the zero-width space U+200B is not stripped |
| Text.Trim | src/components/BlogEditor.tsx:15 | the trimmed string is empty iff the input is all whitespace, and otherwise starts and ends with a non-whitespace character |
| Text.TrimIsSlice | src/components/BlogEditor.tsx:17 | the trimmed string is a contiguous slice of the input with only whitespace cut on either side |
| Text.TrimIdempotent | src/components/BlogEditor.tsx:17 | trimming twice gives the same result as trimming once |
| Seqs.Filter | src/pages/Blog.tsx:15 | defines `Array.prototype.filter` (also KnowledgeBase.tsx:13): the elements satisfying the predicate, in their original order; its properties are the lemmas below |
| Seqs.Distinct | src/pages/Blog.tsx:11-13 | the de-duplicated list holds exactly the input's elements, each once |
| Seqs.DistinctFirstSeenOrder | src/pages/Blog.tsx:12 | `Array.from(new Set(xs))` lists the elements in the order of their first occurrence in `xs` |
| Seqs.FilterMembership | src/pages/KnowledgeBase.tsx:13-19 | an element is kept by the filter iff it is in the input and satisfies the predicate |
| Seqs.FilterCount | src/pages/KnowledgeBase.tsx:13-19 | the filter keeps every occurrence of an element that satisfies the predicate and none of one that does not |
| Seqs.FilterIsSubsequence | src/pages/Blog.tsx:15-23 | the filter's result is a subsequence of its input |
| Seqs.FilterMonotone | src/pages/KnowledgeBase.tsx:13-19 | a stronger predicate selects a subsequence of what a weaker one selects |
| Seqs.FilterFilter | src/pages/Blog.tsx:15-23 | filtering by one predicate and then another equals filtering once by their conjunction |
| Editor.WithoutIndex | src/components/BlogEditor.tsx:46 | dropping an in-range index gives the list without that element, one shorter, other elements in order; an out-of-range index changes nothing |
| Editor.TrimmedTagIsClean | src/components/BlogEditor.tsx:17 | a tag the Enter handler appends is non-empty and has no surrounding whitespace |
| Editor.RemovalKeepsClean | src/components/BlogEditor.tsx:46 | removing a tag from a list of clean tags leaves only clean tags |
| Editor.BlogEditor.constructor | src/components/BlogEditor.tsx:9-12 | the form starts with empty title, content, tag list and tag input |
| Editor.BlogEditor.SetTitle | src/components/BlogEditor.tsx:32 | the title becomes the typed value and nothing else changes |
| Editor.BlogEditor.SetNewTag | src/components/BlogEditor.tsx:57 | the tag input becomes the typed value and nothing else changes |
| Editor.BlogEditor.SetContent | src/components/BlogEditor.tsx:75 | the content becomes the typed value and nothing else changes |
| Editor.BlogEditor.HandleAddTag | src/components/BlogEditor.tsx:14-20 | on Enter with a non-blank input the trimmed input is appended (even if already present, so the list grows by one) and the input is cleared; otherwise tags and input are unchanged; title and content never change; every tag in the list stays clean |
| Editor.BlogEditor.RemoveTag | src/components/BlogEditor.tsx:46 | the tag list becomes the old list without the element at the index; the other fields are unchanged and every tag stays clean |
| Editor.BlogEditor.HandleSave | src/components/BlogEditor.tsx:22-25 | a draft is handed on iff neither the trimmed title nor the trimmed content is empty, and it carries the untrimmed title and content and the current tags in order |

## Left out

- JSX rendering, CSS classes, icons and router links: presentation only.
- The "no results" blocks of both listings: they render iff the filtered list is empty.
- `formatDistanceToNow` and the timestamps, views, likes, images and author fields of posts and articles: display only, and they depend on the wall clock and a library.
- The sample data module is not part of this model. The listings take an arbitrary sequence of posts or articles.
- Text.Lower: `toLowerCase` is modelled for the ASCII letters A-Z only. Other characters are left unchanged, so for non-ASCII letters the model's search is case-sensitive, and the length-changing Unicode mappings are not modelled.
- `trim` uses the ECMAScript whitespace and line-terminator code points, with the space separators of current Unicode.
- The `e.preventDefault()` call of the Enter handler: a browser side effect.
- The `onSave` callback is not called. `Editor.BlogEditor.HandleSave` returns the draft it would receive, or `None` when it would not be called.
- React's batching and re-rendering, and stale closures over `tags` between renders: each handler is modelled as one atomic state change.
- The image and link buttons of the editor: they have no handlers.
- `Navbar`, `ThemeToggle` and `PostCard`: an open/close flag, a theme hook outside this model with a timer, and pure presentation.
