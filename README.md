# Article tags and article search of farids_blog, in Dafny

The blog's article views do three things that have logic of their own.
This project models each of them and proves what they guarantee.

- **Tag resolver** (`get_tags`, used by the create and the update view). It splits the
  comma-separated tag field, skips empty fragments, and runs get-or-create on each
  remaining name against the tag table. `form_valid` then replaces the article's tags
  with the resolved ones. The update form is pre-filled with the article's tags,
  joined with commas.
- **Search query builder** (`ArticleSearchView.get_text_search_query`). It ORs up to six
  lookups into one query, starting from the empty `Q()`. The lookups are: title contains
  the text, body contains the text, a tag name equals the text, a comment's text contains
  the text, the author equals the author field, and a comment's author equals the author
  field. `form_valid` runs the query with `.distinct()`.
- **Index tag filter** (`IndexView.get_queryset`). With no search value it lists every
  article. Otherwise it lists the articles that have a tag whose name equals the value,
  ignoring case.

Modules:

- `Wrappers`: `Option`, and `Given`, the truthiness of an optional string (`if text:`).
- `Text`: ASCII lower-casing, the `icontains`/`iexact` lookups, Python's `str.split(',')`,
  the comma join, and Python's `str.strip()`.
- `Querysets`: `.distinct()`.
- `Tags`: the tag table and an article's tag relation as classes, plus the tag-related
  view methods.
- `Search`: articles, comments and query clauses as datatypes, the query builder,
  the search view and the index filter.

Three behaviours of the code worth stating:

- An empty `Q()` puts no restriction on `filter()`. So a search in which no scope applies
  lists every article; it does not list none. `Search.Selects` and
  `Search.NoScopeListsEverything` state this.
- `get_tags` returns a list, and repeats are kept. Repeats are harmless, because
  `tags.add` has set semantics. The view adds no retry of its own; `get_or_create`
  re-fetches the row when its create violates the uniqueness constraint, and this
  recovery is a concurrency matter that is not modelled.
- The `tag` field strips surrounding whitespace from the whole value, but `get_tags` does
  not strip each fragment. So typing "x, a" creates the tag " a", and that name can be
  lost when the update form is submitted unchanged. `Tags.PaddedNameIsLost` states this,
  and `Tags.SubmitUnchanged` gives the condition under which nothing is lost.

## Model

| member | source | states |
|---|---|---|
| `Wrappers.Given` | source/webapp/views/article_views.py:161-174 | Python truthiness of an optional string, as in `if text:` and `if author:` (and `if self.search_value:` at line 27): it holds exactly when the value is present and is not the empty string. |
| `Text.IContains` | source/webapp/views/article_views.py:164-173 | The `icontains` lookup: after ASCII lower-casing both sides, the value occurs in the field as a contiguous piece. |
| `Text.IExact` | source/webapp/views/article_views.py:170-180 | The `iexact` lookup: after ASCII lower-casing both sides, the field equals the value. |
| `Text.Split` | source/webapp/views/article_views.py:95 | `cur_tags.split(',')` (also line 132): always at least one fragment, and no fragment holds a comma. |
| `Text.JoinSplit` | source/webapp/views/article_views.py:95 | Joining the fragments of `s.split(',')` with commas gives `s` back. So the split loses nothing, and no fragment holds a comma. |
| `Text.SplitJoin` | source/webapp/views/article_views.py:132 | Splitting a comma join of at least one comma-free piece gives exactly those pieces back. |
| `Text.IContainsNotIExact` | source/webapp/views/article_views.py:170 | A case-insensitive substring match is not an exact match: "rustlang" contains "rust", ignoring case, but does not equal it. |
| `Text.JoinEnds` | source/webapp/views/article_views.py:116-118 | The comma join of non-empty names starts with the first name's first character and ends with the last name's last character. |
| `Text.JoinAvoids` | source/webapp/views/article_views.py:116-118 | A character other than the comma that no name holds does not occur in the comma join of the names. |
| `Text.TrimStart` | source/webapp/forms.py:7 | Leading whitespace is dropped: the result is a suffix of the input, every dropped character is whitespace, and the result does not start with whitespace. |
| `Text.TrimEnd` | source/webapp/forms.py:7 | Trailing whitespace is dropped: the result is a prefix of the input, every dropped character is whitespace, and the result does not end with whitespace. |
| `Text.Strip` | source/webapp/forms.py:7 | The cleaned `tag` value, `value.strip()`, neither starts nor ends with whitespace (whitespace as Python's `str.isspace` defines it) and is no longer than the input. |
| `Text.StripCutsWhitespace` | source/webapp/forms.py:7 | What `strip()` keeps is a contiguous piece of the input, and everything cut off before and after it is whitespace. |
| `Tags.NonEmpty` | source/webapp/views/article_views.py:97-98 | The kept fragments are never "" and all come from the input. |
| `Tags.Resolved` | source/webapp/views/article_views.py:94-101 | The list `get_tags` returns: every name in it is non-empty and is one of the fragments of `cur_tags.split(',')`. |
| `Tags.NonEmptyCounts` | source/webapp/views/article_views.py:97-100 | Counted with multiplicity, the kept fragments are exactly the input's fragments with every "" removed, so repeats are kept. |
| `Tags.ResolvedAreTagNames` | source/webapp/views/article_views.py:94-101 | Every name `get_tags` returns is non-empty and comma-free. |
| `Tags.ResolveJoined` | source/webapp/views/article_views.py:114-138 | Round trip: joining non-empty, comma-free names as the update form does, then resolving the result, gives back the same list in the same order. The empty list joins to "" and "" resolves to the empty list. |
| `Tags.TagTable.GetOrCreate` | source/webapp/views/article_views.py:99 | Afterwards the table holds the name and loses nothing. `created` is true exactly when the name was new. |
| `Tags.ArticleTags.Clear` | source/webapp/views/article_views.py:88 | The article is left with no tag. |
| `Tags.ArticleTags.Add` | source/webapp/views/article_views.py:89 | The article's tags become the old tags plus the given names, with set semantics. |
| `Tags.ArticleTags.All` | source/webapp/views/article_views.py:115 | Lists every attached tag exactly once and nothing else. |
| `Tags.GetTags` | source/webapp/views/article_views.py:94-101 | Returns exactly the non-empty fragments of the input, in input order, with repeats kept. The table gains exactly those names and loses none. The copy at lines 131-138 is identical. |
| `Tags.GetTagsTwice` | source/webapp/views/article_views.py:99-100 | Idempotence: a second run on the same input returns the same list and adds nothing to the table. |
| `Tags.JoinTagNames` | source/webapp/views/article_views.py:114-118 | The loop (each name plus `','`, then `[:-1]`) produces the comma join of the names. An empty list gives "". |
| `Tags.GetForm` | source/webapp/views/article_views.py:112-120 | The initial tag string is the comma join of an enumeration of the article's tags, each listed once. If the attached names are all proper tag names, resolving that string gives back exactly the attached set, with no repeats. |
| `Tags.FormValid` | source/webapp/views/article_views.py:85-90 | Assignment semantics: afterwards the article's tags are exactly the names resolved from the field, and no earlier tag survives unless it is in the new input. The table keeps every row and gains the resolved names. The copy at lines 122-127 is identical. |
| `Tags.StripJoined` | source/webapp/forms.py:7 | The comma join of non-empty, comma-free names without surrounding whitespace is left alone by the `tag` field's stripping. |
| `Tags.PaddedNameIsLost` | source/webapp/views/article_views.py:94-138 | Typing "x, a" is left as it is by the field's stripping and resolves to "x" and " a", so the tag " a" is created. Pre-filled as " a,x" and submitted unchanged, the value is stripped to "a,x" and resolves to "a" and "x", so the name " a" is not kept. |
| `Tags.CleanTag` | source/webapp/forms.py:7 | The cleaning of the `tag` field. The value is stripped, then rejected when it is longer than 500 characters or holds a null character. An accepted value is the stripped input, is unpadded, has at most 500 characters and holds no null character. |
| `Tags.SubmitUnchanged` | source/webapp/views/article_views.py:112-127 | Opening the update form and submitting it unchanged, when every attached name is non-empty, comma-free, without surrounding whitespace and without a null character. The pre-filled value is the comma join of the tags, each once. It is accepted exactly when it has at most 500 characters. Either way the article keeps its tags. If accepted, the table gains the article's tags; if not, the table is unchanged. |
| `Querysets.Distinct` | source/webapp/views/article_views.py:156 | `.distinct()`: the result has no duplicates, contains exactly the rows of its input, and is no longer than its input. |
| `Querysets.DistinctOfDistinct` | source/webapp/views/article_views.py:31 | On rows that are already pairwise distinct, `.distinct()` changes nothing, including the order. |
| `Search.TextClausesSpec` | source/webapp/views/article_views.py:161-173 | The clauses added under `if text:` are exactly the text-scope clauses whose flag is set, each carrying the text, in the view's order. |
| `Search.AuthorClausesSpec` | source/webapp/views/article_views.py:174-180 | The clauses added under `if author:` are exactly the author-scope clauses whose flag is set, each carrying the author, in the view's order. |
| `Search.Query` | source/webapp/views/article_views.py:159-181 | A clause is in the query exactly when its field (text or author) is given and non-empty and its flag is set, and it carries that field's value. The clauses are in the view's order, with no kind twice. The query is empty exactly when no scope applies. |
| `Search.QueryMeaning` | source/webapp/views/article_views.py:160-181 | An article satisfies the built query exactly when the search wants it. Title, body and comment text use a case-insensitive substring test. Tag name, article author and comment author use case-insensitive equality. Each test counts only if its field is given and its flag is set. |
| `Search.MatchedIsWanted` | source/webapp/views/article_views.py:164-180 | Only-if direction: an article that satisfies a built clause satisfies the corresponding test on its title, body, tags, author or comments. |
| `Search.WantedIsMatched` | source/webapp/views/article_views.py:164-180 | If direction: an article that passes any enabled test satisfies some clause of the built query. |
| `Search.GetTextSearchQuery` | source/webapp/views/article_views.py:159-181 | Reassigning the query step by step produces exactly the clause list characterised by `Search.Query`. |
| `Search.Holds` | source/webapp/views/article_views.py:164-180 | Each `Q(...)` lookup on one article: title, body or some comment's text contains the value, or some tag's name, the author or some comment's author equals it, ignoring case. |
| `Search.Matches` | source/webapp/views/article_views.py:160-181 | The OR of the `query \| Q(...)` chain: an article satisfies the query when it satisfies at least one of its lookups. |
| `Search.Selects` | source/webapp/views/article_views.py:156-160 | `filter(query)` keeps an article when the query is the empty `Q()` or when the article satisfies one of its ORed lookups. |
| `Search.Filter` | source/webapp/views/article_views.py:156 | `filter(query)` keeps exactly the table's articles that the query selects. An empty `Q()` selects every article. |
| `Search.SearchResults` | source/webapp/views/article_views.py:156 | `filter(query).distinct()` lists every selected article exactly once and nothing else. |
| `Search.FormValid` | source/webapp/views/article_views.py:151-157 | The search lists each article at most once. An article is listed exactly when it is in the table and either no scope applies or the search wants it. |
| `Search.IndexQueryset` | source/webapp/views/article_views.py:25-31 | Lists each article at most once. With no search value or an empty one, it lists every article, and an already distinct table comes back unchanged. Otherwise it lists exactly the articles that have a tag equal to the value, ignoring case. |
| `Search.NoScopeListsEverything` | source/webapp/views/article_views.py:160 | When no scope applies, the query stays `Q()` and the search lists every article in the table. |
| `Search.SearchOne` | source/webapp/views/article_views.py:156 | Over a one-article table, the search lists that article exactly once if the query selects it, and not at all otherwise. |
| `Search.TwoMatchingCommentsListedOnce` | source/webapp/views/article_views.py:171-173 | An article with two comments that both contain the text, in different cases, is listed exactly once. |
| `Search.TagSearchIsNotSubstring` | source/webapp/views/article_views.py:168-170 | Searching tags for "rust" does not find an article whose only tag is "rustlang". |
| `Search.CommentAuthorSearch` | source/webapp/views/article_views.py:178-180 | Searching comment authors for "Alice" finds an article commented on by "alice", exactly once. |

## Left out

- `IndexView.get_search_value` (source/webapp/views/article_views.py:44-50): whether the form is valid is decided by the framework, so the search value is a parameter of `Search.IndexQueryset`. `SimpleSearchForm` (source/webapp/forms.py:24-25) declares a field `search`, yet the view reads `cleaned_data['tag']`. That mismatch is not modelled.
- `FullSearchForm` is imported at source/webapp/views/article_views.py:7, but source/webapp/forms.py does not define it, so its fields and validation are not modelled. The search flags are plain booleans, with absent treated as false. `text` and `author` are optional strings.
- Tags.FormValid: `return super().form_valid(form)` (lines 91 and 128) is left out. The model assumes that `ArticleForm` has no `tags` model field, so that the saves at lines 87, 91, 124 and 128 store the article's other fields and leave the tag relation alone. webapp/models.py is not part of this model, so this cannot be confirmed.
- Tags.FormValid: its `curTags` is the field value after `ArticleForm`'s cleaning, which `Tags.CleanTag` models for the update round trip only. On create and update submits, the stripping, the length check and the null-character check happen before `form_valid` and are not repeated in it.
- `Tag.objects.get(name=i)` (lines 100, 137): the model assumes that tag names are unique, so the fetched row is modelled by its name. webapp/models.py is not part of this model, so this cannot be confirmed. Without uniqueness, `get` could raise `MultipleObjectsReturned`, which the model does not capture.
- The joins through `tags` and `comments`, which repeat an article once per matching related row, are not modelled. `Search.Filter` yields each table row once. `.distinct()` is modelled as `Querysets.Distinct`, whose guarantee holds whatever its input.
- Ordering by `-created_at`, pagination (lines 17-18, 66-73), templates, URL reversing, `urlencode` (line 38), the debug `print` (line 40) and `get_context_data`: presentation and framework code.
- `ArticleView` and `ArticleDeleteView`: pure framework delegation.
- Concurrency: two requests creating the same tag at once, and the store's uniqueness constraint, cannot be modelled here.
- Case-insensitive lookups are modelled with ASCII lower-casing only. Full Unicode case folding is not modelled.
- Tags.SubmitUnchanged: only the `tag` field of the update form is modelled. The form's other fields, and the error page shown when the value is rejected, are not. The 500-character limit is counted in Unicode code points, as Python's `len` counts them.
