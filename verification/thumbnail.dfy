/**
 * Thumbnail discovery (`discover_thumbnail_url` in bin/fetch_scholar.py and
 * bin/add_previews.py). The HTTP request and the HTML parser are outside
 * the model: a page is what the request produced, and a parsed page is the
 * list of its `<meta>` elements in document order.
 */
module Thumbnail {
  import opened Wrappers
  import opened Text

  /** One `<meta>` element: its `property`, `name` and `content`
   *  attributes, None where the attribute is absent. */
  datatype MetaTag = MetaTag(property: Option<string>, name: Option<string>, content: Option<string>)

  /** One lookup: `soup.find("meta", property=v)` or
   *  `soup.find("meta", attrs={"name": v})`. */
  datatype Query = ByProperty(value: string) | ByName(value: string)

  /** What fetching the page produced: an exception (time-out, connection
   *  error, ...) or a response with its status code and meta elements. */
  datatype PageFetch = Failed | Response(status: int, tags: seq<MetaTag>)

  /** The lookups of bin/fetch_scholar.py, in priority order. */
  const ScholarQueries: seq<Query> := [ByProperty("og:image"), ByProperty("twitter:image"), ByProperty("og:image:url")]

  /** The lookups of bin/add_previews.py: the same three, then two by name. */
  const PreviewQueries: seq<Query> := ScholarQueries + [ByName("twitter:image"), ByName("image")]

  predicate Matches(t: MetaTag, q: Query) {
    match q
    case ByProperty(v) => t.property == Some(v)
    case ByName(v) => t.name == Some(v)
  }

  /** `tag.get("content")` is truthy: present and not empty. */
  predicate HasContent(t: MetaTag) {
    t.content.Some? && t.content.value != ""
  }

  /** The index of the first element at or after `from` that the lookup
   *  matches, as `soup.find` returns the first match only. */
  function FirstMatch(tags: seq<MetaTag>, q: Query, from: nat): (r: Option<nat>)
    requires from <= |tags|
    ensures r.None? <==> forall i :: from <= i < |tags| ==> !Matches(tags[i], q)
    ensures r.Some? ==> from <= r.value < |tags| && Matches(tags[r.value], q)
    ensures r.Some? ==> forall k :: from <= k < r.value ==> !Matches(tags[k], q)
    decreases |tags| - from
  {
    if from == |tags| then None
    else if Matches(tags[from], q) then Some(from)
    else FirstMatch(tags, q, from + 1)
  }

  /** The lookup finds an element and that element has content. */
  predicate Hit(tags: seq<MetaTag>, q: Query) {
    var m := FirstMatch(tags, q, 0);
    m.Some? && HasContent(tags[m.value])
  }

  /** `tag["content"].strip()` for the element a hitting lookup found. */
  function HitContent(tags: seq<MetaTag>, q: Query): string
    requires Hit(tags, q)
  {
    Strip(tags[FirstMatch(tags, q, 0).value].content.value)
  }

  /** The lookups from index `from` on, tried in order; the first hit's
   *  stripped content, or None. */
  function SelectFrom(tags: seq<MetaTag>, queries: seq<Query>, from: nat): (r: Option<string>)
    requires from <= |queries|
    ensures r.Some? <==> exists q :: from <= q < |queries| && Hit(tags, queries[q])
    decreases |queries| - from
  {
    if from == |queries| then None
    else if Hit(tags, queries[from]) then Some(HitContent(tags, queries[from]))
    else SelectFrom(tags, queries, from + 1)
  }

  /** The lookup that decides is the first one that hits. */
  lemma {:induction false} SelectFromFirstHit(tags: seq<MetaTag>, queries: seq<Query>, from: nat, q: nat)
    requires from <= q < |queries| && Hit(tags, queries[q])
    requires forall p :: from <= p < q ==> !Hit(tags, queries[p])
    ensures SelectFrom(tags, queries, from) == Some(HitContent(tags, queries[q]))
    decreases q - from
  {
    if from < q {
      SelectFromFirstHit(tags, queries, from + 1, q);
    }
  }

  /** The loops over the lookup names in `discover_thumbnail_url`, once the
   *  page has been parsed. */
  function SelectThumbnail(tags: seq<MetaTag>, queries: seq<Query>): Option<string> {
    SelectFrom(tags, queries, 0)
  }

  /** `discover_thumbnail_url(page_url)`, given what fetching the page produced. */
  function DiscoverThumbnail(page: PageFetch, queries: seq<Query>): (r: Option<string>)
    ensures (page.Failed? || page.status != 200) ==> r.None?
    ensures page.Response? && page.status == 200 ==> r == SelectThumbnail(page.tags, queries)
  {
    if page.Failed? || page.status != 200 then None else SelectThumbnail(page.tags, queries)
  }

  /** With lookups `a + b`, the lookups of `b` are consulted only when none
   *  of `a` hits: the second script's discovery is the first script's,
   *  with the name lookups as a fallback. */
  lemma SelectAppend(tags: seq<MetaTag>, a: seq<Query>, b: seq<Query>)
    ensures SelectThumbnail(tags, a + b)
         == if SelectThumbnail(tags, a).Some? then SelectThumbnail(tags, a) else SelectThumbnail(tags, b)
  {
    if exists q :: 0 <= q < |a| && Hit(tags, a[q]) {
      var q := FirstHit(tags, a);
      SelectAppendHitInFirst(tags, a, b, q);
    } else if exists q :: 0 <= q < |b| && Hit(tags, b[q]) {
      var q := FirstHit(tags, b);
      SelectAppendHitInSecond(tags, a, b, q);
    } else {
      var ab := a + b;
      forall q | 0 <= q < |ab| ensures !Hit(tags, ab[q]) {
        if q < |a| { assert ab[q] == a[q]; } else { assert ab[q] == b[q - |a|]; }
      }
    }
  }

  /** The first hit among `a` decides for `a + b`. */
  lemma SelectAppendHitInFirst(tags: seq<MetaTag>, a: seq<Query>, b: seq<Query>, q: nat)
    requires q < |a| && Hit(tags, a[q])
    requires forall p :: 0 <= p < q ==> !Hit(tags, a[p])
    ensures SelectThumbnail(tags, a + b) == SelectThumbnail(tags, a)
  {
    var ab := a + b;
    assert ab[q] == a[q];
    assert forall p :: 0 <= p < q ==> ab[p] == a[p];
    SelectFromFirstHit(tags, a, 0, q);
    SelectFromFirstHit(tags, ab, 0, q);
  }

  /** When no lookup of `a` hits, the first hit among `b` decides. */
  lemma SelectAppendHitInSecond(tags: seq<MetaTag>, a: seq<Query>, b: seq<Query>, q: nat)
    requires forall p :: 0 <= p < |a| ==> !Hit(tags, a[p])
    requires q < |b| && Hit(tags, b[q])
    requires forall p :: 0 <= p < q ==> !Hit(tags, b[p])
    ensures SelectThumbnail(tags, a + b) == SelectThumbnail(tags, b)
  {
    var ab := a + b;
    assert ab[|a| + q] == b[q];
    assert forall p :: 0 <= p < |a| ==> ab[p] == a[p];
    assert forall p :: |a| <= p < |a| + q ==> ab[p] == b[p - |a|];
    SelectFromFirstHit(tags, b, 0, q);
    SelectFromFirstHit(tags, ab, 0, |a| + q);
  }

  /** The first lookup that hits, when one does. */
  lemma FirstHit(tags: seq<MetaTag>, queries: seq<Query>) returns (q: nat)
    requires exists q :: 0 <= q < |queries| && Hit(tags, queries[q])
    ensures q < |queries| && Hit(tags, queries[q])
    ensures forall p :: 0 <= p < q ==> !Hit(tags, queries[p])
  {
    var k :| 0 <= k < |queries| && Hit(tags, queries[k]);
    q := 0;
    while !Hit(tags, queries[q])
      invariant q <= k
      invariant forall p :: 0 <= p < q ==> !Hit(tags, queries[p])
      decreases k - q
    {
      q := q + 1;
    }
  }

  /** The second script's discovery falls back to the name lookups exactly
   *  when the first script's finds nothing. */
  lemma PreviewQueriesExtendScholarQueries(page: PageFetch)
    ensures DiscoverThumbnail(page, PreviewQueries)
         == if DiscoverThumbnail(page, ScholarQueries).Some? then DiscoverThumbnail(page, ScholarQueries)
            else DiscoverThumbnail(page, [ByName("twitter:image"), ByName("image")])
  {
    if page.Response? && page.status == 200 {
      SelectAppend(page.tags, ScholarQueries, [ByName("twitter:image"), ByName("image")]);
    }
  }

  /** Only the first element per lookup counts: when the first `og:image`
   *  element has no content, a later `og:image` element is never used,
   *  and the search moves on to the next lookup. */
  lemma OnlyFirstElementPerLookup(tags: seq<MetaTag>, queries: seq<Query>, i: nat)
    requires |queries| > 0 && i < |tags|
    requires FirstMatch(tags, queries[0], 0) == Some(i) && !HasContent(tags[i])
    ensures SelectThumbnail(tags, queries) == SelectFrom(tags, queries, 1)
  {
  }

  /** When the first hit's content is only white space, discovery returns
   *  the empty string: the search stops there, and both callers then treat
   *  the page as having no thumbnail. */
  lemma BlankContentStopsSearch(tags: seq<MetaTag>, queries: seq<Query>)
    requires |queries| > 0 && Hit(tags, queries[0])
    requires forall k :: 0 <= k < |tags[FirstMatch(tags, queries[0], 0).value].content.value| ==>
               IsSpace(tags[FirstMatch(tags, queries[0], 0).value].content.value[k])
    ensures SelectThumbnail(tags, queries) == Some("")
  {
    SelectFromFirstHit(tags, queries, 0, 0);
    StripOfSpaces(tags[FirstMatch(tags, queries[0], 0).value].content.value);
  }
}
