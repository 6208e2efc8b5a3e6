/** Tag handling of the article create and update views: the tag resolver
    `get_tags`, the tag string the update form is pre-filled with, and the
    tag assignment done by `form_valid`.

    Tag rows are identified by their (unique) name: after `get_or_create`,
    `Tag.objects.get(name=i)` yields the row named `i`, so a resolved tag is
    modelled by its name.

    The value `form_valid` reads is the field as `ArticleForm` cleaned it:
    the `tag` field is a `CharField` (webapp/forms.py:7), which strips
    surrounding whitespace and rejects a value longer than 500 characters
    or holding a null character. */
module Tags {
  import opened Wrappers
  import opened Text
  import opened Querysets

  /** A name that survives a split-and-resolve unchanged. */
  predicate TagName(t: string)
  {
    t != "" && ',' !in t
  }

  /** The names in a list of tags. */
  function Names(ts: seq<string>): set<string>
  {
    set t | t in ts
  }

  /** The fragments the resolver keeps: those that are not "", in input
      order, with repeats kept. */
  function NonEmpty(fs: seq<string>): (r: seq<string>)
    ensures forall k :: 0 <= k < |r| ==> r[k] != "" && r[k] in fs
  {
    if fs == [] then []
    else
      var init, last := fs[..|fs| - 1], fs[|fs| - 1];
      assert forall t :: t in init ==> t in fs;
      NonEmpty(init) + (if last == "" then [] else [last])
  }

  /** Counted with multiplicity, the kept fragments are the input's
      fragments with every "" removed. */
  lemma {:induction false} NonEmptyCounts(fs: seq<string>)
    ensures multiset(NonEmpty(fs)) == multiset(fs)["" := 0]
  {
    if fs != [] {
      var init, last := fs[..|fs| - 1], fs[|fs| - 1];
      NonEmptyCounts(init);
      assert fs == init + [last];
      assert multiset(fs) == multiset(init) + multiset{last};
    }
  }

  /** The list `get_tags` returns for the raw field value `curTags`. */
  function Resolved(curTags: string): (r: seq<string>)
    ensures forall k :: 0 <= k < |r| ==> r[k] != "" && r[k] in Split(curTags)
  {
    NonEmpty(Split(curTags))
  }

  /** `get_tags` never returns an empty name, nor one holding a comma. */
  lemma ResolvedAreTagNames(curTags: string)
    ensures forall k :: 0 <= k < |Resolved(curTags)| ==> TagName(Resolved(curTags)[k])
  {
    var fs := Split(curTags);
    forall k | 0 <= k < |NonEmpty(fs)| ensures TagName(NonEmpty(fs)[k]) {
      var t := NonEmpty(fs)[k];
      var j :| 0 <= j < |fs| && fs[j] == t;
    }
  }

  lemma {:induction false} NonEmptyKeepsTagNames(ts: seq<string>)
    requires forall k :: 0 <= k < |ts| ==> ts[k] != ""
    ensures NonEmpty(ts) == ts
  {
    if ts != [] {
      var init := ts[..|ts| - 1];
      assert forall k :: 0 <= k < |init| ==> init[k] == ts[k];
      NonEmptyKeepsTagNames(init);
      assert NonEmpty(ts) == NonEmpty(init) + [ts[|ts| - 1]];
      assert ts == init + [ts[|ts| - 1]];
    }
  }

  /** Round trip of the update form: a list of proper tag names, joined the
      way the form is pre-filled and resolved again on submit, comes back
      unchanged. The empty list joins to "" and "" resolves to []. */
  lemma ResolveJoined(ts: seq<string>)
    requires forall k :: 0 <= k < |ts| ==> TagName(ts[k])
    ensures Resolved(Join(ts)) == ts
  {
    if ts == [] {
      assert Split("") == [""];
    } else {
      SplitJoin(ts);
      NonEmptyKeepsTagNames(ts);
    }
  }

  /** A proper tag name without surrounding whitespace or null character
      survives the form's cleaning, the split and the resolver unchanged. */
  predicate CleanTagName(t: string)
  {
    TagName(t) && Unpadded(t) && '\0' !in t
  }

  /** Stripping the comma join of such names changes nothing. */
  lemma StripJoined(ts: seq<string>)
    requires forall k :: 0 <= k < |ts| ==> CleanTagName(ts[k])
    ensures Strip(Join(ts)) == Join(ts)
  {
    if ts != [] {
      JoinEnds(ts);
    }
    StripUnpadded(Join(ts));
  }

  /** A name with a leading space does not come back. Typing "x, a" is
      cleaned to "x, a" and creates the tag " a"; when the store lists it
      first, the form is pre-filled with " a,x", which the cleaning strips
      to "a,x", so the article ends up with "a" instead of " a". */
  lemma PaddedNameIsLost(a: string, x: string)
    requires CleanTagName(a) && CleanTagName(x)
    ensures Resolved(Strip(x + ", " + a)) == [x, " " + a]
    ensures Resolved(Strip(Join([" " + a, x]))) == [a, x]
  {
    PaddedNameTyped(a, x);
    PaddedNameStripped(a, x);
  }

  lemma PaddedNameTyped(a: string, x: string)
    requires CleanTagName(a) && CleanTagName(x)
    ensures Resolved(Strip(x + ", " + a)) == [x, " " + a]
  {
    assert x + ", " + a == x + "," + (" " + a);
    StripUnpadded(x + ", " + a);
    assert ',' !in " " + a by {
      assert forall k :: 1 <= k < |" " + a| ==> (" " + a)[k] == a[k - 1];
    }
    SplitTwo(x, " " + a);
    NonEmptyTwo(x, " " + a);
  }

  lemma PaddedNameStripped(a: string, x: string)
    requires CleanTagName(a) && CleanTagName(x)
    ensures Resolved(Strip(Join([" " + a, x]))) == [a, x]
  {
    assert Join([" " + a, x]) == " " + (a + "," + x) by {
      assert [" " + a, x][1..] == [x];
    }
    JoinEnds([a, x]);
    assert Join([a, x]) == a + "," + x by {
      assert [a, x][1..] == [x];
    }
    StripLeadingSpace(a + "," + x);
    SplitTwo(a, x);
    NonEmptyTwo(a, x);
  }

  lemma SplitTwo(t: string, u: string)
    requires ',' !in t && ',' !in u
    ensures Split(t + "," + u) == [t, u]
  {
    SplitJoin([t, u]);
    assert Join([t, u]) == t + "," + u;
  }

  lemma NonEmptyTwo(t: string, u: string)
    requires t != "" && u != ""
    ensures NonEmpty([t, u]) == [t, u]
  {
    NonEmptyKeepsTagNames([t, u]);
  }

  lemma StripLeadingSpace(s: string)
    requires Unpadded(s) && s != ""
    ensures Strip(" " + s) == s
  {
    assert (" " + s)[1..] == s;
    assert TrimStart(" " + s) == TrimStart(s);
    StripUnpadded(s);
  }

  lemma {:induction false} JoinSnoc(ts: seq<string>, t: string)
    requires ts != []
    ensures Join(ts + [t]) == Join(ts) + "," + t
  {
    if |ts| > 1 {
      JoinSnoc(ts[1..], t);
      assert (ts + [t])[1..] == ts[1..] + [t];
    }
  }

  // ---------------------------------------------------------------------
  // The tag table and an article's tag relation
  // ---------------------------------------------------------------------

  /** The rows of the tag table, by name. */
  class TagTable {
    var names: set<string>

    constructor (initial: set<string>)
      ensures names == initial
    {
      names := initial;
    }

    /** `Tag.objects.get_or_create(name=name)`: the row named `name` exists
        afterwards, and `created` says whether it had to be made. */
    method GetOrCreate(name: string) returns (created: bool)
      modifies this
      ensures names == old(names) + {name}
      ensures created <==> name !in old(names)
    {
      created := name !in names;
      if created {
        names := names + {name};
      }
    }
  }

  /** The many-to-many relation `article.tags` of one article. */
  class ArticleTags {
    var names: set<string>

    constructor ()
      ensures names == {}
    {
      names := {};
    }

    /** `tags.clear()`: the article keeps no tag. */
    method Clear()
      modifies this
      ensures names == {}
    {
      names := {};
    }

    /** `tags.add(*tags)`: attaching a tag already attached changes nothing. */
    method Add(tags: seq<string>)
      modifies this
      ensures names == old(names) + Names(tags)
    {
      names := names + Names(tags);
    }

    /** `list(tags.all())`: every attached tag once, in an order the store
        chooses. */
    method All() returns (tags: seq<string>)
      ensures NoDuplicates(tags)
      ensures Names(tags) == names
    {
      tags := [];
      var rest := names;
      while rest != {}
        invariant rest <= names
        invariant Names(tags) == names - rest
        invariant NoDuplicates(tags)
        decreases rest
      {
        var t :| t in rest;
        assert Names(tags + [t]) == Names(tags) + {t};
        tags := tags + [t];
        rest := rest - {t};
      }
    }
  }

  // ---------------------------------------------------------------------
  // The view code
  // ---------------------------------------------------------------------

  /** `get_tags` (identical in the create and the update view): split the
      field on commas, skip empty fragments, get-or-create each remaining
      name and collect it. */
  method GetTags(table: TagTable, curTags: string) returns (tags: seq<string>)
    modifies table
    ensures tags == Resolved(curTags)
    ensures table.names == old(table.names) + Names(tags)
  {
    var fragments := Split(curTags);
    tags := [];
    for k := 0 to |fragments|
      invariant tags == NonEmpty(fragments[..k])
      invariant table.names == old(table.names) + Names(tags)
    {
      var fragment := fragments[k];
      assert fragments[..k + 1][..k] == fragments[..k];
      assert NonEmpty(fragments[..k + 1]) ==
        NonEmpty(fragments[..k]) + (if fragment == "" then [] else [fragment]);
      if fragment != "" {
        var _ := table.GetOrCreate(fragment);
        assert Names(tags + [fragment]) == Names(tags) + {fragment};
        tags := tags + [fragment];
      }
    }
    assert fragments[..|fragments|] == fragments;
  }

  /** Running `get_tags` twice on the same input returns the same list twice
      and leaves the table as one run does. */
  method GetTagsTwice(table: TagTable, curTags: string) returns (first: seq<string>, second: seq<string>)
    modifies table
    ensures first == second == Resolved(curTags)
    ensures table.names == old(table.names) + Names(first)
  {
    first := GetTags(table, curTags);
    second := GetTags(table, curTags);
  }

  /** The loop of `get_form` that builds the initial tag string: each name
      followed by a comma, then the last character dropped (`[:-1]`, which
      leaves "" as it is). */
  method JoinTagNames(tags: seq<string>) returns (tagsList: string)
    ensures tagsList == Join(tags)
  {
    tagsList := "";
    for k := 0 to |tags|
      invariant k == 0 ==> tagsList == ""
      invariant k > 0 ==> tagsList == Join(tags[..k]) + ","
    {
      if k > 0 {
        JoinSnoc(tags[..k], tags[k]);
        assert tags[..k + 1] == tags[..k] + [tags[k]];
      } else {
        assert tags[..1] == [tags[0]];
      }
      tagsList := tagsList + tags[k] + ",";
    }
    assert tags[..|tags|] == tags;
    if |tagsList| > 0 {
      tagsList := tagsList[..|tagsList| - 1];
    }
  }

  /** `ArticleUpdateView.get_form`: the initial value of the tag field lists
      the article's tags, each once. When every attached name is a proper tag
      name, resolving that value gives back exactly the attached tags. */
  method GetForm(article: ArticleTags) returns (initial: string)
    ensures exists ts :: Names(ts) == article.names && NoDuplicates(ts) && initial == Join(ts)
    ensures (forall t :: t in article.names ==> TagName(t)) ==>
              Names(Resolved(initial)) == article.names && NoDuplicates(Resolved(initial))
  {
    var tags := article.All();
    initial := JoinTagNames(tags);
    if forall t :: t in article.names ==> TagName(t) {
      assert forall k :: 0 <= k < |tags| ==> tags[k] in Names(tags);
      ResolveJoined(tags);
    }
  }

  /** `form_valid` (identical in the create and the update view): resolve the
      field, clear the article's tags and attach the resolved ones. The
      article ends up with exactly the resolved tags, whatever it had before,
      and the table keeps every row it had. */
  method FormValid(article: ArticleTags, table: TagTable, curTags: string)
    modifies article, table
    ensures article.names == Names(Resolved(curTags))
    ensures table.names == old(table.names) + article.names
  {
    var tags := GetTags(table, curTags);
    article.Clear();
    article.Add(tags);
  }

  /** Maximum length of `ArticleForm`'s `tag` field. */
  const TagMaxLength := 500

  /** The cleaning of the `tag` field: surrounding whitespace stripped, then
      a value longer than `TagMaxLength` or holding a null character
      rejected. An accepted value is unpadded, short enough and free of null
      characters, and it is the stripped input. */
  function CleanTag(value: string): (r: Option<string>)
    ensures r.Some? ==> Unpadded(r.value) && |r.value| <= TagMaxLength && '\0' !in r.value
    ensures r.Some? ==> r.value == Strip(value)
    ensures r.None? ==> |Strip(value)| > TagMaxLength || '\0' in Strip(value)
  {
    var v := Strip(value);
    if |v| <= TagMaxLength && '\0' !in v then Some(v) else None
  }

  /** Opening the update form and submitting it unchanged. The pre-filled
      value goes through the form's cleaning; when it is accepted,
      `form_valid` runs and the article keeps its tags, and when it is too
      long the form is shown again and nothing changes. Either way the
      article keeps its tags, provided every attached name is a proper tag
      name without surrounding whitespace or null character. */
  method SubmitUnchanged(article: ArticleTags, table: TagTable) returns (initial: string, accepted: bool)
    requires forall t :: t in article.names ==> CleanTagName(t)
    modifies article, table
    ensures exists ts :: Names(ts) == old(article.names) && NoDuplicates(ts) && initial == Join(ts)
    ensures accepted <==> |initial| <= TagMaxLength
    ensures article.names == old(article.names)
    ensures accepted ==> table.names == old(table.names) + old(article.names)
    ensures !accepted ==> table.names == old(table.names)
  {
    initial := GetForm(article);
    ghost var ts :| Names(ts) == article.names && NoDuplicates(ts) && initial == Join(ts);
    assert forall k :: 0 <= k < |ts| ==> ts[k] in Names(ts);
    StripJoined(ts);
    JoinAvoids(ts, '\0');
    var cleaned := CleanTag(initial);
    accepted := cleaned.Some?;
    if accepted {
      FormValid(article, table, cleaned.value);
    }
  }
}
