/** The article search view (`ArticleSearchView`) and the tag filter of the
    index view (`IndexView.get_queryset`).

    A query is an explicit list of clauses joined by OR, in the order the
    view adds them. A query with no clause stands for Django's empty `Q()`,
    which puts no restriction on `filter()`: every article is selected. */
module Search {
  import opened Wrappers
  import opened Text
  import opened Querysets

  datatype Comment = Comment(author: string, text: string)

  /** One article row as a query sees it; `id` is its primary key, so two
      rows with the same content are still two rows. */
  datatype Article = Article(
    id: nat,
    title: string,
    text: string,
    author: string,
    tags: set<string>,
    comments: seq<Comment>)

  /** The boolean fields of the full search form. */
  datatype SearchFlags = SearchFlags(
    inTitle: bool,
    inText: bool,
    inTags: bool,
    inCommentText: bool,
    inArticles: bool,
    inComments: bool)

  /** One `Q(...)` lookup. */
  datatype Clause =
    | TitleContains(q: string)        // title__icontains
    | TextContains(q: string)         // text__icontains
    | TagNameIs(q: string)            // tags__name__iexact
    | CommentTextContains(q: string)  // comments__text__icontains
    | AuthorIs(q: string)             // author__iexact
    | CommentAuthorIs(q: string)      // comments__author__iexact
  {
    /** Position of the clause in the order the view adds clauses. */
    function Rank(): nat
    {
      match this
      case TitleContains(_) => 0
      case TextContains(_) => 1
      case TagNameIs(_) => 2
      case CommentTextContains(_) => 3
      case AuthorIs(_) => 4
      case CommentAuthorIs(_) => 5
    }

    /** The first four clauses search for the text field, the last two for
        the author field. */
    predicate OnText()
    {
      Rank() < 4
    }
  }

  /** The article satisfies the lookup. Lookups through `tags` and
      `comments` hold when some related row satisfies them. */
  predicate Holds(c: Clause, a: Article)
  {
    match c
    case TitleContains(q) => IContains(a.title, q)
    case TextContains(q) => IContains(a.text, q)
    case TagNameIs(q) => exists t :: t in a.tags && IExact(t, q)
    case CommentTextContains(q) => exists k :: 0 <= k < |a.comments| && IContains(a.comments[k].text, q)
    case AuthorIs(q) => IExact(a.author, q)
    case CommentAuthorIs(q) => exists k :: 0 <= k < |a.comments| && IExact(a.comments[k].author, q)
  }

  /** The article satisfies at least one clause of the query. */
  predicate Matches(a: Article, query: seq<Clause>)
  {
    exists c :: c in query && Holds(c, a)
  }

  /** `filter(query)` keeps the article: an empty query is `Q()`, which
      keeps every article, and otherwise the clauses are ORed. */
  predicate Selects(query: seq<Clause>, a: Article)
  {
    query == [] || Matches(a, query)
  }

  // ---------------------------------------------------------------------
  // The query builder
  // ---------------------------------------------------------------------

  /** No scope applies: neither a text with a text scope, nor an author
      with an author scope. */
  predicate NoScope(f: SearchFlags, text: Option<string>, author: Option<string>)
  {
    !(Given(text) && (f.inTitle || f.inText || f.inTags || f.inCommentText)) &&
    !(Given(author) && (f.inArticles || f.inComments))
  }

  /** What the search asks for, stated on the article directly: the text
      occurs in the title, occurs in the body, equals a tag name or occurs in
      a comment, or the author equals the article's author or a comment's
      author, each only where its field is given and its flag set. */
  predicate Wanted(a: Article, f: SearchFlags, text: Option<string>, author: Option<string>)
  {
    (Given(text) &&
      ((f.inTitle && IContains(a.title, text.value)) ||
       (f.inText && IContains(a.text, text.value)) ||
       (f.inTags && exists t :: t in a.tags && IExact(t, text.value)) ||
       (f.inCommentText && exists k :: 0 <= k < |a.comments| && IContains(a.comments[k].text, text.value)))) ||
    (Given(author) &&
      ((f.inArticles && IExact(a.author, author.value)) ||
       (f.inComments && exists k :: 0 <= k < |a.comments| && IExact(a.comments[k].author, author.value))))
  }

  /** The flag that enables the clause kind of rank `k`. */
  function Scope(f: SearchFlags, k: nat): bool
  {
    if k == 0 then f.inTitle
    else if k == 1 then f.inText
    else if k == 2 then f.inTags
    else if k == 3 then f.inCommentText
    else if k == 4 then f.inArticles
    else k == 5 && f.inComments
  }

  /** The clause belongs in the query: its field is given, it searches for
      that field's value, and its flag is set. */
  predicate Admitted(c: Clause, f: SearchFlags, text: Option<string>, author: Option<string>)
  {
    Scope(f, c.Rank()) &&
    if c.OnText() then Given(text) && c.q == text.value
    else Given(author) && c.q == author.value
  }

  /** Clause ranks strictly increase: the builder's order, no kind twice. */
  predicate InBuilderOrder(r: seq<Clause>)
  {
    forall i, j :: 0 <= i < j < |r| ==> r[i].Rank() < r[j].Rank()
  }

  /** The clauses added under `if text:`, in the view's order. */
  function TextClauses(f: SearchFlags, q: string): seq<Clause>
  {
    var r1 := if f.inTitle then [TitleContains(q)] else [];
    var r2 := if f.inText then r1 + [TextContains(q)] else r1;
    var r3 := if f.inTags then r2 + [TagNameIs(q)] else r2;
    if f.inCommentText then r3 + [CommentTextContains(q)] else r3
  }

  /** The clauses added under `if author:`, in the view's order. */
  function AuthorClauses(f: SearchFlags, q: string): seq<Clause>
  {
    var r1 := if f.inArticles then [AuthorIs(q)] else [];
    if f.inComments then r1 + [CommentAuthorIs(q)] else r1
  }

  lemma TextClausesSpec(f: SearchFlags, q: string)
    ensures InBuilderOrder(TextClauses(f, q))
    ensures forall c :: c in TextClauses(f, q) <==> c.OnText() && Scope(f, c.Rank()) && c.q == q
  {
  }

  lemma AuthorClausesSpec(f: SearchFlags, q: string)
    ensures InBuilderOrder(AuthorClauses(f, q))
    ensures forall c :: c in AuthorClauses(f, q) <==> !c.OnText() && Scope(f, c.Rank()) && c.q == q
  {
  }

  /** The clauses `get_text_search_query` ORs together: exactly the admitted
      ones, in the builder's order. No clause is admitted exactly when no
      scope applies. */
  function Query(f: SearchFlags, text: Option<string>, author: Option<string>): (r: seq<Clause>)
    ensures InBuilderOrder(r)
    ensures forall c :: c in r <==> Admitted(c, f, text, author)
    ensures r == [] <==> NoScope(f, text, author)
  {
    var onText := if Given(text) then TextClauses(f, text.value) else [];
    var onAuthor := if Given(author) then AuthorClauses(f, author.value) else [];
    TextClausesSpec(f, if text.Some? then text.value else "");
    AuthorClausesSpec(f, if author.Some? then author.value else "");
    ConcatInBuilderOrder(onText, onAuthor);
    onText + onAuthor
  }

  lemma QueryUnfolds(f: SearchFlags, text: Option<string>, author: Option<string>)
    ensures Query(f, text, author) ==
              (if Given(text) then TextClauses(f, text.value) else []) +
              (if Given(author) then AuthorClauses(f, author.value) else [])
  {
  }

  lemma ConcatInBuilderOrder(xs: seq<Clause>, ys: seq<Clause>)
    requires InBuilderOrder(xs) && InBuilderOrder(ys)
    requires forall c :: c in xs ==> c.OnText()
    requires forall c :: c in ys ==> !c.OnText()
    ensures InBuilderOrder(xs + ys)
  {
    forall i, j | 0 <= i < |xs| <= j < |xs + ys|
      ensures (xs + ys)[i].Rank() < (xs + ys)[j].Rank()
    {
      assert xs[i] in xs && ys[j - |xs|] in ys;
    }
  }

  /** An article satisfies the built query exactly when the search, read
      directly off the form, wants it. */
  lemma QueryMeaning(a: Article, f: SearchFlags, text: Option<string>, author: Option<string>)
    ensures Matches(a, Query(f, text, author)) <==> Wanted(a, f, text, author)
  {
    if Matches(a, Query(f, text, author)) {
      MatchedIsWanted(a, f, text, author);
    }
    if Wanted(a, f, text, author) {
      WantedIsMatched(a, f, text, author);
    }
  }

  lemma MatchedIsWanted(a: Article, f: SearchFlags, text: Option<string>, author: Option<string>)
    requires Matches(a, Query(f, text, author))
    ensures Wanted(a, f, text, author)
  {
    var c :| c in Query(f, text, author) && Holds(c, a);
    assert Admitted(c, f, text, author);
    match c
    case TitleContains(_) =>
    case TextContains(_) =>
    case TagNameIs(_) =>
    case CommentTextContains(_) =>
    case AuthorIs(_) =>
    case CommentAuthorIs(_) =>
  }

  lemma WantedIsMatched(a: Article, f: SearchFlags, text: Option<string>, author: Option<string>)
    requires Wanted(a, f, text, author)
    ensures Matches(a, Query(f, text, author))
  {
    var c: Clause;
    if Given(text) && f.inTitle && IContains(a.title, text.value) {
      c := TitleContains(text.value);
    } else if Given(text) && f.inText && IContains(a.text, text.value) {
      c := TextContains(text.value);
    } else if Given(text) && f.inTags && exists t :: t in a.tags && IExact(t, text.value) {
      c := TagNameIs(text.value);
    } else if Given(text) && f.inCommentText && exists k :: 0 <= k < |a.comments| && IContains(a.comments[k].text, text.value) {
      c := CommentTextContains(text.value);
    } else if Given(author) && f.inArticles && IExact(a.author, author.value) {
      c := AuthorIs(author.value);
    } else {
      c := CommentAuthorIs(author.value);
    }
    assert Admitted(c, f, text, author);
    assert c in Query(f, text, author) && Holds(c, a);
  }

  /** `get_text_search_query`: start from `Q()` and OR in one clause per
      scope whose field is given and whose flag is set. */
  method GetTextSearchQuery(f: SearchFlags, text: Option<string>, author: Option<string>)
    returns (query: seq<Clause>)
    ensures query == Query(f, text, author)
  {
    query := [];
    if Given(text) {
      if f.inTitle {
        query := query + [TitleContains(text.value)];
      }
      if f.inText {
        query := query + [TextContains(text.value)];
      }
      if f.inTags {
        query := query + [TagNameIs(text.value)];
      }
      if f.inCommentText {
        query := query + [CommentTextContains(text.value)];
      }
    }
    ghost var onText := if Given(text) then TextClauses(f, text.value) else [];
    assert query == onText;
    if Given(author) {
      ghost var q0 := query;
      if f.inArticles {
        query := query + [AuthorIs(author.value)];
      }
      ghost var r1 := if f.inArticles then q0 + [AuthorIs(author.value)] else q0;
      assert query == r1;
      if f.inComments {
        query := query + [CommentAuthorIs(author.value)];
      }
      AuthorStepsFrom(q0, f, author.value);
    }
    QueryUnfolds(f, text, author);
  }

  /** The author steps of the builder append `AuthorClauses` to whatever the
      text steps built. */
  lemma AuthorStepsFrom(q0: seq<Clause>, f: SearchFlags, q: string)
    ensures (var r1 := if f.inArticles then q0 + [AuthorIs(q)] else q0;
             if f.inComments then r1 + [CommentAuthorIs(q)] else r1)
            == q0 + AuthorClauses(f, q)
  {
    if f.inArticles && f.inComments {
      assert q0 + [AuthorIs(q)] + [CommentAuthorIs(q)] == q0 + ([] + [AuthorIs(q)] + [CommentAuthorIs(q)]);
    } else if f.inComments {
      assert q0 + [CommentAuthorIs(q)] == q0 + ([] + [CommentAuthorIs(q)]);
    }
  }

  // ---------------------------------------------------------------------
  // Running a query
  // ---------------------------------------------------------------------

  /** `Article.objects.filter(query)`: the table's articles the query selects. */
  function Filter(articles: seq<Article>, query: seq<Clause>): (r: seq<Article>)
    ensures forall i :: 0 <= i < |r| ==> r[i] in articles && Selects(query, r[i])
    ensures forall i :: 0 <= i < |articles| && Selects(query, articles[i]) ==> articles[i] in r
  {
    if articles == [] then []
    else
      var init, last := articles[..|articles| - 1], articles[|articles| - 1];
      assert articles == init + [last];
      Filter(init, query) + (if Selects(query, last) then [last] else [])
  }

  /** `filter(query).distinct()`: every selected article, each once, even
      when it satisfies several clauses or one clause through several tags
      or comments. */
  function SearchResults(articles: seq<Article>, query: seq<Clause>): (r: seq<Article>)
    ensures NoDuplicates(r)
    ensures forall a :: a in r <==> a in articles && Selects(query, a)
  {
    Distinct(Filter(articles, query))
  }

  /** `ArticleSearchView.form_valid`: build the query from the cleaned form
      and list the matching articles, each once. When no scope applies the
      query is `Q()` and every article is listed. */
  method FormValid(articles: seq<Article>, f: SearchFlags, text: Option<string>, author: Option<string>)
    returns (results: seq<Article>)
    ensures NoDuplicates(results)
    ensures forall a :: a in results <==> a in articles && (NoScope(f, text, author) || Wanted(a, f, text, author))
  {
    var query := GetTextSearchQuery(f, text, author);
    results := SearchResults(articles, query);
    forall a | a in articles
      ensures Selects(query, a) <==> NoScope(f, text, author) || Wanted(a, f, text, author)
    {
      QueryMeaning(a, f, text, author);
    }
  }

  /** `IndexView.get_queryset`: with no search value every article, each
      once (a table without repeats comes back as it is); otherwise the
      articles having a tag whose name equals the value case-insensitively,
      each once. */
  function IndexQueryset(articles: seq<Article>, searchValue: Option<string>): (r: seq<Article>)
    ensures NoDuplicates(r)
    ensures forall a :: a in r <==>
              a in articles && (!Given(searchValue) || exists t :: t in a.tags && IExact(t, searchValue.value))
    ensures !Given(searchValue) && NoDuplicates(articles) ==> r == articles
  {
    if Given(searchValue) then
      var query := [TagNameIs(searchValue.value)];
      assert forall a :: Selects(query, a) <==> Holds(query[0], a);
      SearchResults(articles, query)
    else
      DistinctOfDistinctIfAny(articles);
      Distinct(articles)
  }

  lemma DistinctOfDistinctIfAny(articles: seq<Article>)
    ensures NoDuplicates(articles) ==> Distinct(articles) == articles
  {
    if NoDuplicates(articles) {
      DistinctOfDistinct(articles);
    }
  }

  // ---------------------------------------------------------------------
  // Consequences and worked examples
  // ---------------------------------------------------------------------

  /** When no scope applies the view filters on `Q()` alone, and every
      article is listed. */
  lemma NoScopeListsEverything(articles: seq<Article>, f: SearchFlags, text: Option<string>, author: Option<string>)
    requires NoScope(f, text, author)
    ensures forall a :: a in SearchResults(articles, Query(f, text, author)) <==> a in articles
  {
  }

  /** Over a table of one article, the search lists it exactly once when the
      query selects it and not at all otherwise. */
  lemma SearchOne(a: Article, query: seq<Clause>)
    ensures SearchResults([a], query) == if Selects(query, a) then [a] else []
  {
    var r := SearchResults([a], query);
    if Selects(query, a) {
      assert a in r;
      assert r[0] == a;
    }
  }

  /** An article whose two comments both contain the text is listed once. */
  lemma TwoMatchingCommentsListedOnce()
    ensures
      var a := Article(7, "Notes", "", "bob", {}, [Comment("carol", "rust"), Comment("dave", "RUST")]);
      var f := SearchFlags(false, false, false, true, false, false);
      SearchResults([a], Query(f, Some("rust"), None)) == [a]
  {
    var a := Article(7, "Notes", "", "bob", {}, [Comment("carol", "rust"), Comment("dave", "RUST")]);
    var f := SearchFlags(false, false, false, true, false, false);
    var query := Query(f, Some("rust"), None);
    var c := CommentTextContains("rust");
    assert Admitted(c, f, Some("rust"), None);
    assert OccursAt(Lower("rust"), Lower("rust"), 0);
    assert IContains(a.comments[0].text, "rust");
    assert Holds(c, a);
    SearchOne(a, query);
  }

  /** The tag lookup is an exact match: the text "rust" does not find an
      article tagged only "rustlang". */
  lemma TagSearchIsNotSubstring()
    ensures
      var a := Article(8, "Notes", "", "bob", {"rustlang"}, []);
      var f := SearchFlags(false, false, true, false, false, false);
      SearchResults([a], Query(f, Some("rust"), None)) == []
  {
    var a := Article(8, "Notes", "", "bob", {"rustlang"}, []);
    var f := SearchFlags(false, false, true, false, false, false);
    var query := Query(f, Some("rust"), None);
    forall c | c in query ensures !Holds(c, a) {
      assert Admitted(c, f, Some("rust"), None);
      assert c == TagNameIs("rust");
      forall t | t in a.tags ensures !IExact(t, "rust") {
        assert |Lower(t)| != |Lower("rust")|;
      }
    }
    SearchOne(a, query);
  }

  /** The author search finds an article through its comment's author,
      whatever the case of the query. */
  lemma CommentAuthorSearch()
    ensures
      var a := Article(9, "Rust Basics", "", "erin", {"rust"}, [Comment("alice", "great read")]);
      var f := SearchFlags(false, false, false, false, false, true);
      SearchResults([a], Query(f, None, Some("Alice"))) == [a]
  {
    var a := Article(9, "Rust Basics", "", "erin", {"rust"}, [Comment("alice", "great read")]);
    var f := SearchFlags(false, false, false, false, false, true);
    var query := Query(f, None, Some("Alice"));
    var c := CommentAuthorIs("Alice");
    assert Admitted(c, f, None, Some("Alice"));
    assert Lower("alice") == Lower("Alice");
    assert IExact(a.comments[0].author, "Alice");
    assert Holds(c, a);
    SearchOne(a, query);
  }
}
