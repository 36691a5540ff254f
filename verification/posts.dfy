/** The post repository: the document written by `create_post`, lookups and
    updates by id, the soft delete, and the query predicates behind the
    published listings and the tag filters. Joins with the category and tag
    collections only decorate the results and are not modelled. */
module Posts {
  import opened Wrappers
  import opened Ids
  import opened Statuses
  import Slugs
  import Store

  /** Image and SEO fields, copied verbatim between entity, document and
      update. */
  datatype Media = Media(
    thumbnail: Option<string>,
    banner: Option<string>,
    metaTitle: Option<string>,
    metaDescription: Option<string>,
    metaKeywords: seq<string>,
    metaRobots: Option<string>,
    ogTitle: Option<string>,
    ogDescription: Option<string>,
    ogImage: Option<string>,
    ogType: Option<string>,
    twitterCard: Option<string>,
    twitterTitle: Option<string>,
    twitterDescription: Option<string>,
    twitterImage: Option<string>,
    canonicalUrl: Option<string>)

  const NoMedia := Media(None, None, None, None, [], None, None, None, None, None, None, None, None, None, None)

  /** `PostEntity`: the post as the services build it. */
  datatype PostEntity = PostEntity(
    id: ObjectId,
    slug: Slugs.Slug,
    title: string,
    content: string,
    excerpt: Option<string>,
    authorName: Option<string>,
    authorEmail: Option<string>,
    status: PostStatus,
    tagIds: seq<ObjectId>,
    tagNames: seq<string>,
    tagSlugs: seq<string>,
    categoryId: Option<ObjectId>,
    viewsCount: int,
    likesCount: int,
    media: Media,
    createdAt: int,
    updatedAt: int,
    publishedAt: Option<int>,
    deletedAt: Option<int>)

  /** A stored post document. Status and slug are plain strings here, and
      `category_id` holds the printed form of an ObjectId or whatever string
      an update wrote. */
  datatype PostDoc = PostDoc(
    id: ObjectId,
    slug: string,
    title: string,
    content: string,
    excerpt: Option<string>,
    authorName: Option<string>,
    authorEmail: Option<string>,
    status: string,
    tagIds: seq<ObjectId>,
    tagNames: seq<string>,
    tagSlugs: seq<string>,
    categoryId: Option<string>,
    viewsCount: int,
    likesCount: int,
    media: Media,
    createdAt: int,
    updatedAt: int,
    publishedAt: Option<int>,
    deletedAt: Option<int>)

  predicate IsLive(d: PostDoc) { d.deletedAt.None? }

  predicate IsPublished(d: PostDoc) { d.status == StatusValue(Published) }

  function WithId(id: ObjectId): PostDoc -> bool {
    (d: PostDoc) => d.id == id
  }

  function LiveWithId(id: ObjectId): PostDoc -> bool {
    (d: PostDoc) => d.id == id && IsLive(d)
  }

  function OptId(c: Option<ObjectId>): Option<string> {
    if c.Some? then Some(c.value) else None
  }

  // ---------------------------------------------------------------------
  // Writes
  // ---------------------------------------------------------------------

  /** The `$set` document of `create_post`: every entity field but
      `deleted_at`, with the slug and status as strings. */
  function ToDocument(e: PostEntity, deletedAt: Option<int>): (d: PostDoc)
    ensures d.id == e.id && d.slug == Slugs.ToString(e.slug) && d.status == StatusValue(e.status)
    ensures d.tagIds == e.tagIds && d.tagNames == e.tagNames && d.tagSlugs == e.tagSlugs
    ensures d.categoryId == OptId(e.categoryId) && d.deletedAt == deletedAt
    ensures d.title == e.title && d.content == e.content && d.excerpt == e.excerpt
    ensures d.authorName == e.authorName && d.authorEmail == e.authorEmail
    ensures d.viewsCount == e.viewsCount && d.likesCount == e.likesCount && d.media == e.media
    ensures d.createdAt == e.createdAt && d.updatedAt == e.updatedAt && d.publishedAt == e.publishedAt
  {
    PostDoc(e.id, e.slug.value, e.title, e.content, e.excerpt, e.authorName, e.authorEmail, StatusValue(e.status),
            e.tagIds, e.tagNames, e.tagSlugs, OptId(e.categoryId), e.viewsCount, e.likesCount, e.media,
            e.createdAt, e.updatedAt, e.publishedAt, deletedAt)
  }

  /** `create_post`: upsert keyed by id; an existing document keeps its
      deletion mark. The entity itself is returned. */
  function CreatePost(store: seq<PostDoc>, e: PostEntity): (r: (seq<PostDoc>, PostEntity))
    ensures r.1 == e
    ensures (forall i :: 0 <= i < |store| ==> store[i].id != e.id) ==> r.0 == store + [ToDocument(e, None)]
    ensures var k := Store.IndexOfFirst(store, WithId(e.id));
            k < |store| ==> r.0 == store[k := ToDocument(e, store[k].deletedAt)]
  {
    (Store.Upsert(store, WithId(e.id), (d: PostDoc) => ToDocument(e, d.deletedAt), ToDocument(e, None)), e)
  }

  /** `get_by_id`: the live post with that id. */
  function GetById(store: seq<PostDoc>, postId: string): (r: Result<Option<PostDoc>, Error>)
    ensures ParseObjectId(postId).Err? ==> r == Err(InvalidId(postId))
    ensures ParseObjectId(postId).Ok? ==> r.Ok?
    ensures r.Ok? && r.value.Some? ==> r.value.value in store && IsLive(r.value.value) && r.value.value.id == ParseObjectId(postId).value
    ensures r.Ok? && r.value.None? ==> forall i :: 0 <= i < |store| && store[i].id == ParseObjectId(postId).value ==> !IsLive(store[i])
  {
    var id :- ParseObjectId(postId);
    Ok(Store.FindFirst(store, LiveWithId(id)))
  }

  /** The optional fields of an update; `None` leaves a field alone. */
  datatype MediaSet = MediaSet(
    thumbnail: Option<string>,
    banner: Option<string>,
    metaTitle: Option<string>,
    metaDescription: Option<string>,
    metaKeywords: Option<seq<string>>,
    metaRobots: Option<string>,
    ogTitle: Option<string>,
    ogDescription: Option<string>,
    ogImage: Option<string>,
    ogType: Option<string>,
    twitterCard: Option<string>,
    twitterTitle: Option<string>,
    twitterDescription: Option<string>,
    twitterImage: Option<string>,
    canonicalUrl: Option<string>)

  const NoMediaSet := MediaSet(None, None, None, None, None, None, None, None, None, None, None, None, None, None, None)

  function Pick(v: Option<string>, prev: Option<string>): Option<string> {
    if v.Some? then v else prev
  }

  function ApplyMedia(m: Media, s: MediaSet): (r: Media)
    ensures s == NoMediaSet ==> r == m
    ensures r.metaKeywords == s.metaKeywords.GetOr(m.metaKeywords)
  {
    Media(Pick(s.thumbnail, m.thumbnail), Pick(s.banner, m.banner), Pick(s.metaTitle, m.metaTitle),
          Pick(s.metaDescription, m.metaDescription), s.metaKeywords.GetOr(m.metaKeywords),
          Pick(s.metaRobots, m.metaRobots), Pick(s.ogTitle, m.ogTitle), Pick(s.ogDescription, m.ogDescription),
          Pick(s.ogImage, m.ogImage), Pick(s.ogType, m.ogType), Pick(s.twitterCard, m.twitterCard),
          Pick(s.twitterTitle, m.twitterTitle), Pick(s.twitterDescription, m.twitterDescription),
          Pick(s.twitterImage, m.twitterImage), Pick(s.canonicalUrl, m.canonicalUrl))
  }

  /** The `$set` document of `update_post`. `published_at` may be set to
      null, hence the nested option. */
  datatype PostSet = PostSet(
    title: Option<string>,
    content: Option<string>,
    slug: Option<string>,
    excerpt: Option<string>,
    categoryId: Option<string>,
    media: MediaSet,
    status: Option<string>,
    publishedAt: Option<Option<int>>,
    updatedAt: int)

  function ApplySet(d: PostDoc, s: PostSet): (r: PostDoc)
    ensures r.id == d.id && r.tagIds == d.tagIds && r.tagNames == d.tagNames && r.tagSlugs == d.tagSlugs
    ensures r.authorName == d.authorName && r.authorEmail == d.authorEmail
    ensures r.viewsCount == d.viewsCount && r.likesCount == d.likesCount
    ensures r.createdAt == d.createdAt && r.deletedAt == d.deletedAt && r.updatedAt == s.updatedAt
    ensures r.title == s.title.GetOr(d.title) && r.content == s.content.GetOr(d.content) && r.slug == s.slug.GetOr(d.slug)
    ensures r.excerpt == Pick(s.excerpt, d.excerpt) && r.categoryId == Pick(s.categoryId, d.categoryId)
    ensures r.status == s.status.GetOr(d.status) && r.publishedAt == s.publishedAt.GetOr(d.publishedAt)
    ensures r.media == ApplyMedia(d.media, s.media)
  {
    d.(title := s.title.GetOr(d.title), content := s.content.GetOr(d.content), slug := s.slug.GetOr(d.slug),
       excerpt := Pick(s.excerpt, d.excerpt), categoryId := Pick(s.categoryId, d.categoryId),
       media := ApplyMedia(d.media, s.media), status := s.status.GetOr(d.status),
       publishedAt := s.publishedAt.GetOr(d.publishedAt), updatedAt := s.updatedAt)
  }

  /** `_id` is unique within a collection. */
  predicate UniqueIds(s: seq<PostDoc>) {
    forall i, j :: 0 <= i < |s| && 0 <= j < |s| && s[i].id == s[j].id ==> i == j
  }

  /** `update_post`: apply the `$set` by id, then read the post back; a
      soft-deleted post is written but reads back as absent. */
  function UpdatePost(store: seq<PostDoc>, id: ObjectId, s: PostSet): (r: (seq<PostDoc>, Option<PostDoc>))
    ensures var k := Store.IndexOfFirst(store, WithId(id));
            && |r.0| == |store|
            && (forall i :: 0 <= i < |store| ==> r.0[i] == if i == k then ApplySet(store[i], s) else store[i])
            && (UniqueIds(store) ==> (r.1.Some? <==> k < |store| && IsLive(store[k])))
            && (UniqueIds(store) && r.1.Some? ==> r.1.value == ApplySet(store[k], s))
  {
    var written := Store.UpdateFirst(store, WithId(id), (d: PostDoc) => ApplySet(d, s));
    ReadBack(store, written, id, s);
    (written, Store.FindFirst(written, LiveWithId(id)))
  }

  lemma ReadBack(store: seq<PostDoc>, written: seq<PostDoc>, id: ObjectId, s: PostSet)
    requires written == Store.UpdateFirst(store, WithId(id), (d: PostDoc) => ApplySet(d, s))
    ensures var k := Store.IndexOfFirst(store, WithId(id));
            var r := Store.FindFirst(written, LiveWithId(id));
            UniqueIds(store) ==> (r.Some? <==> k < |store| && IsLive(store[k])) && (r.Some? ==> r.value == ApplySet(store[k], s))
  {
    var k := Store.IndexOfFirst(store, WithId(id));
    if UniqueIds(store) {
      if k < |store| && IsLive(store[k]) {
        Store.FindFirstAt(written, LiveWithId(id), k);
      } else {
        assert forall i :: 0 <= i < |written| ==> !LiveWithId(id)(written[i]);
      }
    }
  }

  /** `delete`: a soft delete, reporting whether the document changed. */
  function Delete(store: seq<PostDoc>, postId: string, now: int): (r: Result<(seq<PostDoc>, bool), Error>)
    ensures ParseObjectId(postId).Err? ==> r == Err(InvalidId(postId))
    ensures ParseObjectId(postId).Ok? ==> r.Ok?
    ensures r.Ok? ==>
      var k := Store.IndexOfFirst(store, WithId(ParseObjectId(postId).value));
      && |r.value.0| == |store|
      && (r.value.1 <==> k < |store| && store[k].deletedAt != Some(now))
      && (forall i :: 0 <= i < |store| ==> r.value.0[i] == if i == k then store[i].(deletedAt := Some(now)) else store[i])
  {
    var id :- ParseObjectId(postId);
    var k := Store.IndexOfFirst(store, WithId(id));
    Ok((Store.UpdateFirst(store, WithId(id), (d: PostDoc) => d.(deletedAt := Some(now))), k < |store| && store[k].deletedAt != Some(now)))
  }

  // ---------------------------------------------------------------------
  // Ordering by publication time
  // ---------------------------------------------------------------------

  /** `.sort("published_at", -1)` puts later times first and posts with no
      publication time last. */
  predicate NotOlder(a: Option<int>, b: Option<int>) {
    b.None? || (a.Some? && a.value >= b.value)
  }

  predicate NewestFirst(s: seq<PostDoc>) {
    forall i, j :: 0 <= i < j < |s| ==> NotOlder(s[i].publishedAt, s[j].publishedAt)
  }

  /** Insert `d` before the first post that is not newer than it. */
  function InsertByTime(d: PostDoc, s: seq<PostDoc>): (r: seq<PostDoc>)
    ensures multiset(r) == multiset(s) + multiset{d}
  {
    if |s| == 0 then [d]
    else if !NotOlder(d.publishedAt, s[0].publishedAt) then
      assert s == [s[0]] + s[1..];
      [s[0]] + InsertByTime(d, s[1..])
    else [d] + s
  }

  lemma InsertMembers(d: PostDoc, s: seq<PostDoc>, x: PostDoc)
    requires x in InsertByTime(d, s)
    ensures x == d || x in s
  {
    assert x in multiset(InsertByTime(d, s));
  }

  lemma {:induction false} InsertSorted(d: PostDoc, s: seq<PostDoc>)
    requires NewestFirst(s)
    ensures NewestFirst(InsertByTime(d, s))
  {
    if |s| > 0 && !NotOlder(d.publishedAt, s[0].publishedAt) {
      var rest := InsertByTime(d, s[1..]);
      InsertSorted(d, s[1..]);
      forall k | 0 <= k < |rest| ensures NotOlder(s[0].publishedAt, rest[k].publishedAt) {
        InsertMembers(d, s[1..], rest[k]);
      }
      var r := [s[0]] + rest;
      forall i, j | 0 <= i < j < |r| ensures NotOlder(r[i].publishedAt, r[j].publishedAt) {
        if i > 0 { assert r[i] == rest[i - 1] && r[j] == rest[j - 1]; }
        else { assert r[j] == rest[j - 1]; }
      }
    }
  }

  function SortByTime(s: seq<PostDoc>): (r: seq<PostDoc>)
    ensures NewestFirst(r)
    ensures multiset(r) == multiset(s)
  {
    if |s| == 0 then []
    else
      assert s == [s[0]] + s[1..];
      var rest := SortByTime(s[1..]);
      InsertSorted(s[0], rest);
      InsertByTime(s[0], rest)
  }

  /** `find(filter).sort("published_at", -1).skip(skip).limit(limit)`. */
  function FindSorted(store: seq<PostDoc>, p: PostDoc -> bool, skip: nat, limit: nat): (r: seq<PostDoc>)
    ensures |r| <= limit
    ensures NewestFirst(r)
    ensures forall i :: 0 <= i < |r| ==> r[i] in store && p(r[i])
  {
    var matching := Store.Filter(store, p);
    var sorted := SortByTime(matching);
    var r := Store.Page(sorted, skip, limit);
    assert forall i :: 0 <= i < |r| ==> r[i] in multiset(matching);
    r
  }

  /** A page holds as many posts as remain after skipping, up to the
      limit, so the count of the same filter sizes every page. */
  lemma PageSize(store: seq<PostDoc>, p: PostDoc -> bool, skip: nat, limit: nat)
    ensures var n := Store.Count(store, p);
            |FindSorted(store, p, skip, limit)| == if skip >= n then 0 else if n - skip < limit then n - skip else limit
  {
    var matching := Store.Filter(store, p);
    assert |SortByTime(matching)| == |matching| by {
      assert |multiset(SortByTime(matching))| == |multiset(matching)|;
    }
  }

  /** Every page of one listing is a slice of the same newest-first
      ordering of the matching posts. */
  lemma PagesOfOneOrder(store: seq<PostDoc>, p: PostDoc -> bool)
    ensures exists s :: (NewestFirst(s) && multiset(s) == multiset(Store.Filter(store, p)) &&
      forall skip: nat, limit: nat :: FindSorted(store, p, skip, limit) == Store.Page(s, skip, limit))
  {
    var s := SortByTime(Store.Filter(store, p));
    assert forall skip: nat, limit: nat :: FindSorted(store, p, skip, limit) == Store.Page(s, skip, limit);
  }

  /** So consecutive pages join into the page spanning both, and together
      never hold a post more often than it is stored. */
  lemma ConsecutivePages(store: seq<PostDoc>, p: PostDoc -> bool, skip: nat, a: nat, b: nat)
    ensures FindSorted(store, p, skip, a) + FindSorted(store, p, skip + a, b) == FindSorted(store, p, skip, a + b)
    ensures multiset(FindSorted(store, p, skip, a) + FindSorted(store, p, skip + a, b)) <= multiset(Store.Filter(store, p))
  {
    var s := SortByTime(Store.Filter(store, p));
    assert FindSorted(store, p, skip, a) == Store.Page(s, skip, a);
    assert FindSorted(store, p, skip + a, b) == Store.Page(s, skip + a, b);
    assert FindSorted(store, p, skip, a + b) == Store.Page(s, skip, a + b);
    Store.PageSplit(s, skip, a, b);
    Store.PageWithin(s, skip, a + b);
    assert multiset(s) == multiset(Store.Filter(store, p));
  }
  /** No two different posts share a publication time. */
  predicate DistinctTimes(s: seq<PostDoc>) {
    forall x, y :: x in s && y in s && x.publishedAt == y.publishedAt ==> x == y
  }

  /** With distinct publication times a multiset of posts has only one
      newest-first order. */
  lemma {:induction false} SortedOrderUnique(a: seq<PostDoc>, b: seq<PostDoc>)
    requires NewestFirst(a) && NewestFirst(b) && multiset(a) == multiset(b)
    requires DistinctTimes(a)
    ensures a == b
    decreases |a|
  {
    if a == [] {
      assert |b| == |multiset(b)| == 0;
    } else {
      SortedHeadsAgree(a, b);
      Store.TailsSameMultiset(a, b);
      TailKeepsOrder(a);
      TailKeepsOrder(b);
      SortedOrderUnique(a[1..], b[1..]);
      assert a == [a[0]] + a[1..] && b == [b[0]] + b[1..];
    }
  }

  /** Dropping the head keeps the order and the distinct keys. */
  lemma TailKeepsOrder(a: seq<PostDoc>)
    requires a != [] && NewestFirst(a)
    ensures NewestFirst(a[1..])
    ensures DistinctTimes(a) ==> DistinctTimes(a[1..])
  {
    assert forall i :: 0 <= i < |a| - 1 ==> a[1..][i] == a[i + 1];
    assert forall x :: x in a[1..] ==> x in a;
  }

  /** Both orders start with the newest post. */
  lemma SortedHeadsAgree(a: seq<PostDoc>, b: seq<PostDoc>)
    requires NewestFirst(a) && NewestFirst(b) && multiset(a) == multiset(b)
    requires DistinctTimes(a) && a != []
    ensures b != [] && a[0] == b[0]
  {
    assert a[0] in multiset(b);
    assert b[0] in multiset(a);
    var j :| 0 <= j < |a| && a[j] == b[0];
    var k :| 0 <= k < |b| && b[k] == a[0];
    assert NotOlder(a[0].publishedAt, a[j].publishedAt) by { if j > 0 { assert 0 < j < |a|; } }
    assert NotOlder(b[0].publishedAt, b[k].publishedAt) by { if k > 0 { assert 0 < k < |b|; } }
    assert a[0].publishedAt == b[0].publishedAt;
    assert a[0] in a && a[j] in a;
  }

  /** Whatever order the server gives posts of equal time, when no two
      matching posts share one every page it can return is the model's. */
  lemma AnyOrderGivesPage(store: seq<PostDoc>, p: PostDoc -> bool, s: seq<PostDoc>, skip: nat, limit: nat)
    requires NewestFirst(s) && multiset(s) == multiset(Store.Filter(store, p))
    requires DistinctTimes(Store.Filter(store, p))
    ensures Store.Page(s, skip, limit) == FindSorted(store, p, skip, limit)
  {
    var matching := Store.Filter(store, p);
    var sorted := SortByTime(matching);
    assert forall x :: x in sorted ==> x in multiset(matching);
    SortedOrderUnique(sorted, s);
    assert FindSorted(store, p, skip, limit) == Store.Page(sorted, skip, limit);
  }


  /** When everything fits on the first page, the page holds each matching
      post exactly once. */
  lemma WholePage(store: seq<PostDoc>, p: PostDoc -> bool, limit: nat)
    requires Store.Count(store, p) <= limit
    ensures multiset(FindSorted(store, p, 0, limit)) == multiset(Store.Filter(store, p))
  {
    var matching := Store.Filter(store, p);
    var sorted := SortByTime(matching);
    assert |sorted| == |matching| by { assert |multiset(sorted)| == |multiset(matching)|; }
    assert Store.Page(sorted, 0, limit) == sorted;
  }

  // ---------------------------------------------------------------------
  // Published listings
  // ---------------------------------------------------------------------

  /** The category filter is applied only for a truthy argument that parses
      as an ObjectId; an invalid one is dropped. */
  function CategoryFilter(categoryId: Option<string>): (c: Option<ObjectId>)
    ensures c.Some? <==> categoryId.Some? && categoryId.value != "" && ParseObjectId(categoryId.value).Ok?
    ensures c.Some? ==> c.value == ParseObjectId(categoryId.value).value
  {
    if categoryId.Some? && categoryId.value != "" then
      match ParseObjectId(categoryId.value)
      case Ok(id) => Some(id)
      case Err(_) => None
    else None
  }

  /** Published, not deleted, and in the category when one is given. */
  function PublishedIn(c: Option<ObjectId>): PostDoc -> bool {
    (d: PostDoc) => IsPublished(d) && IsLive(d) && (c.None? || d.categoryId == Some(c.value))
  }

  /** `list_published_posts`. */
  function ListPublishedPosts(store: seq<PostDoc>, skip: nat, limit: nat, categoryId: Option<string>): (r: seq<PostDoc>)
    ensures |r| <= limit && NewestFirst(r)
    ensures forall i :: 0 <= i < |r| ==> r[i] in store && IsPublished(r[i]) && IsLive(r[i])
    ensures CategoryFilter(categoryId).Some? ==>
              forall i :: 0 <= i < |r| ==> r[i].categoryId == Some(CategoryFilter(categoryId).value)
  {
    FindSorted(store, PublishedIn(CategoryFilter(categoryId)), skip, limit)
  }

  /** `count_published_posts`. */
  function CountPublishedPosts(store: seq<PostDoc>, categoryId: Option<string>): (n: nat)
    ensures n <= |store|
    ensures n == 0 <==> forall i :: 0 <= i < |store| ==>
              !(IsPublished(store[i]) && IsLive(store[i]) && (CategoryFilter(categoryId).None? || store[i].categoryId == CategoryFilter(categoryId)))
  {
    Store.CountZero(store, PublishedIn(CategoryFilter(categoryId)));
    Store.Count(store, PublishedIn(CategoryFilter(categoryId)))
  }

  /** An unparsable category id gives the same listing and count as no
      category at all. */
  lemma InvalidCategoryIgnored(store: seq<PostDoc>, skip: nat, limit: nat, categoryId: string)
    requires ParseObjectId(categoryId).Err?
    ensures ListPublishedPosts(store, skip, limit, Some(categoryId)) == ListPublishedPosts(store, skip, limit, None)
    ensures CountPublishedPosts(store, Some(categoryId)) == CountPublishedPosts(store, None)
  {
  }

  /** The total reported with a listing sizes its pages. */
  lemma ListingMatchesCount(store: seq<PostDoc>, skip: nat, limit: nat, categoryId: Option<string>)
    ensures var n := CountPublishedPosts(store, categoryId);
            |ListPublishedPosts(store, skip, limit, categoryId)| == if skip >= n then 0 else if n - skip < limit then n - skip else limit
  {
    PageSize(store, PublishedIn(CategoryFilter(categoryId)), skip, limit);
  }

  /** `find_published`: status only, deleted posts included. */
  function FindPublished(store: seq<PostDoc>, skip: nat, limit: nat): (r: seq<PostDoc>)
    ensures |r| <= limit && NewestFirst(r)
    ensures forall i :: 0 <= i < |r| ==> r[i] in store && IsPublished(r[i])
  {
    FindSorted(store, IsPublished, skip, limit)
  }

  /** `count_published`: status only, deleted posts included. */
  function CountPublished(store: seq<PostDoc>): (n: nat)
    ensures n <= |store|
    ensures n == 0 <==> forall i :: 0 <= i < |store| ==> !IsPublished(store[i])
  {
    Store.CountZero(store, IsPublished);
    Store.Count(store, IsPublished)
  }

  function PublishedDeleted(d: PostDoc): bool {
    IsPublished(d) && !IsLive(d)
  }

  /** `count_published` exceeds the unfiltered `count_published_posts` by
      exactly the number of soft-deleted published posts. */
  lemma CountPublishedIncludesDeleted(store: seq<PostDoc>)
    ensures CountPublished(store) == CountPublishedPosts(store, None) + Store.Count(store, PublishedDeleted)
  {
    Store.CountSplit(store, IsPublished, IsLive, PublishedIn(None), PublishedDeleted);
  }

  // ---------------------------------------------------------------------
  // Tag filters
  // ---------------------------------------------------------------------

  /** Which denormalised tag list a query reads. */
  datatype TagField = ByIds | ByNames | BySlugs

  function TagValues(d: PostDoc, f: TagField): seq<string> {
    match f
    case ByIds => d.tagIds
    case ByNames => d.tagNames
    case BySlugs => d.tagSlugs
  }

  /** `{field: value}` on an array field: the value is one of its elements. */
  function PublishedWithTag(f: TagField, v: string): PostDoc -> bool {
    (d: PostDoc) => IsPublished(d) && v in TagValues(d, f) && IsLive(d)
  }

  /** `find_by_tag`, `find_by_tag_name`, `find_by_tag_slug` and
      `find_published_by_tag_slug`: one tag, published and live posts. */
  function FindByTag(store: seq<PostDoc>, f: TagField, v: string, skip: nat, limit: nat): (r: seq<PostDoc>)
    ensures |r| <= limit && NewestFirst(r)
    ensures forall i :: 0 <= i < |r| ==> r[i] in store && IsPublished(r[i]) && IsLive(r[i]) && v in TagValues(r[i], f)
  {
    FindSorted(store, PublishedWithTag(f, v), skip, limit)
  }

  /** `count_published_by_tag_slug`. */
  function CountByTag(store: seq<PostDoc>, f: TagField, v: string): (n: nat)
    ensures n <= |store|
    ensures n == 0 <==> forall i :: 0 <= i < |store| ==> !(IsPublished(store[i]) && IsLive(store[i]) && v in TagValues(store[i], f))
  {
    Store.CountZero(store, PublishedWithTag(f, v));
    Store.Count(store, PublishedWithTag(f, v))
  }

  /** `$all`: every requested value is present; an empty request matches
      nothing. */
  predicate HasAll(values: seq<string>, wanted: seq<string>) {
    |wanted| > 0 && forall k :: 0 <= k < |wanted| ==> wanted[k] in values
  }

  /** `$in`: at least one requested value is present. */
  predicate HasAny(values: seq<string>, wanted: seq<string>) {
    exists k :: 0 <= k < |wanted| && wanted[k] in values
  }

  /** The query of `find_by_tag_*` and `count_by_tag_*`: not deleted, in the
      status when a non-empty one is given, and the tag condition. */
  function TagQuery(f: TagField, wanted: seq<string>, matchAll: bool, status: Option<string>): PostDoc -> bool {
    (d: PostDoc) =>
      && IsLive(d)
      && (status.None? || status.value == "" || d.status == status.value)
      && (if matchAll then HasAll(TagValues(d, f), wanted) else HasAny(TagValues(d, f), wanted))
  }

  /** `find_by_tag_ids`, `find_by_tag_names`, `find_by_tag_slugs`. */
  function FindByTags(store: seq<PostDoc>, f: TagField, wanted: seq<string>, matchAll: bool, skip: nat, limit: nat, status: Option<string>)
    : (r: seq<PostDoc>)
    ensures |r| <= limit && NewestFirst(r)
    ensures forall i :: 0 <= i < |r| ==> r[i] in store && IsLive(r[i])
    ensures status.Some? && status.value != "" ==> forall i :: 0 <= i < |r| ==> r[i].status == status.value
    ensures matchAll ==> forall i, k :: 0 <= i < |r| && 0 <= k < |wanted| ==> wanted[k] in TagValues(r[i], f)
    ensures !matchAll ==> forall i :: 0 <= i < |r| ==> exists k :: 0 <= k < |wanted| && wanted[k] in TagValues(r[i], f)
  {
    var r := FindSorted(store, TagQuery(f, wanted, matchAll, status), skip, limit);
    assert forall i :: 0 <= i < |r| ==> TagQuery(f, wanted, matchAll, status)(r[i]);
    r
  }

  /** `count_by_tag_ids`, `count_by_tag_names`, `count_by_tag_slugs`. */
  function CountByTags(store: seq<PostDoc>, f: TagField, wanted: seq<string>, matchAll: bool, status: Option<string>): (n: nat)
    ensures n <= |store|
    ensures n == 0 <==> forall i :: 0 <= i < |store| ==> !TagQuery(f, wanted, matchAll, status)(store[i])
  {
    Store.CountZero(store, TagQuery(f, wanted, matchAll, status));
    Store.Count(store, TagQuery(f, wanted, matchAll, status))
  }

  /** Each count sizes the pages of the matching find. */
  lemma TagCountMatchesFind(store: seq<PostDoc>, f: TagField, wanted: seq<string>, matchAll: bool, skip: nat, limit: nat, status: Option<string>)
    ensures var n := CountByTags(store, f, wanted, matchAll, status);
            |FindByTags(store, f, wanted, matchAll, skip, limit, status)| == if skip >= n then 0 else if n - skip < limit then n - skip else limit
  {
    PageSize(store, TagQuery(f, wanted, matchAll, status), skip, limit);
  }

  /** A post with every requested tag has some requested tag, so the AND
      count never exceeds the OR count. */
  lemma AllCountsBelowAny(store: seq<PostDoc>, f: TagField, wanted: seq<string>, status: Option<string>)
    ensures CountByTags(store, f, wanted, true, status) <= CountByTags(store, f, wanted, false, status)
  {
    var all, any := TagQuery(f, wanted, true, status), TagQuery(f, wanted, false, status);
    forall i | 0 <= i < |store| && all(store[i]) ensures any(store[i]) {
      assert wanted[0] in TagValues(store[i], f);
    }
    Store.CountMonotone(store, all, any);
  }

  /** Asking for one tag with status "published" selects the same posts
      whether AND or OR is requested, and the same as the single-tag find. */
  lemma SingleTagQueries(store: seq<PostDoc>, f: TagField, v: string, skip: nat, limit: nat)
    ensures FindByTags(store, f, [v], true, skip, limit, Some("published")) == FindByTag(store, f, v, skip, limit)
    ensures FindByTags(store, f, [v], false, skip, limit, Some("published")) == FindByTag(store, f, v, skip, limit)
    ensures CountByTags(store, f, [v], true, Some("published")) == CountByTag(store, f, v)
    ensures CountByTags(store, f, [v], false, Some("published")) == CountByTag(store, f, v)
  {
    forall b: bool ensures Store.Filter(store, TagQuery(f, [v], b, Some("published"))) == Store.Filter(store, PublishedWithTag(f, v)) {
      forall i | 0 <= i < |store| ensures TagQuery(f, [v], b, Some("published"))(store[i]) == PublishedWithTag(f, v)(store[i]) {
        SingleRequest(TagValues(store[i], f), v);
      }
      Store.FilterCongruent(store, TagQuery(f, [v], b, Some("published")), PublishedWithTag(f, v));
    }
  }

  lemma SingleRequest(values: seq<string>, v: string)
    ensures HasAll(values, [v]) <==> v in values
    ensures HasAny(values, [v]) <==> v in values
  {
    assert [v][0] == v;
  }

  /** Without a request the OR query matches nothing, and so does AND. */
  lemma EmptyRequestMatchesNothing(store: seq<PostDoc>, f: TagField, matchAll: bool, status: Option<string>)
    ensures CountByTags(store, f, [], matchAll, status) == 0
  {
    assert forall i :: 0 <= i < |store| ==> !TagQuery(f, [], matchAll, status)(store[i]);
    assert Store.Filter(store, TagQuery(f, [], matchAll, status)) == [] by {
      EmptyFilter(store, TagQuery(f, [], matchAll, status));
    }
  }

  lemma EmptyFilter(s: seq<PostDoc>, p: PostDoc -> bool)
    requires forall i :: 0 <= i < |s| ==> !p(s[i])
    ensures Store.Filter(s, p) == []
  {
  }
}
