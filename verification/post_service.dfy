/** The post service: creating a draft, partial updates, and the publish and
    unpublish transitions over the post store. The author lookup is passed
    in as its result. */
module PostService {
  import opened Wrappers
  import opened Ids
  import opened Statuses
  import Slugs
  import Store
  import Users
  import opened Posts

  /** The author fields: the user's name and address, or "Unknown" for
      both when there is no such user. */
  function AuthorFields(author: Option<Users.User>): (r: (Option<string>, Option<string>))
    ensures author.None? ==> r == (Some("Unknown"), Some("Unknown"))
    ensures author.Some? ==> r == (Some(author.value.fullName), Some(author.value.email))
  {
    match author
    case None => (Some("Unknown"), Some("Unknown"))
    case Some(u) => (Some(u.fullName), Some(u.email))
  }

  /** The `category_id` field of the entity accepts no value or an ObjectId
      string. */
  function ValidateCategory(categoryId: Option<string>): (r: Result<Option<ObjectId>, Error>)
    ensures categoryId.None? ==> r == Ok(None)
    ensures categoryId.Some? && ParseObjectId(categoryId.value).Ok? ==> r == Ok(Some(ParseObjectId(categoryId.value).value))
    ensures categoryId.Some? && ParseObjectId(categoryId.value).Err? ==> r == Err(ValueError("Invalid ObjectId: " + categoryId.value))
  {
    match categoryId
    case None => Ok(None)
    case Some(c) =>
      match ParseObjectId(c)
      case Ok(id) => Ok(Some(id))
      case Err(_) => Err(ValueError("Invalid ObjectId: " + c))
  }

  /** `create_post`. The slug is validated first, then the category id; the
      post is always a draft with no tags, whatever `tags` holds, because
      the entity has no field of that name and drops it. */
  function CreatePost(store: seq<PostDoc>, freshId: ObjectId, now: int, title: string, content: string, slugStr: string,
                      excerpt: Option<string>, tags: seq<string>, categoryId: Option<string>, author: Option<Users.User>)
    : (r: (seq<PostDoc>, Result<PostEntity, Error>))
    ensures Slugs.NewSlug(slugStr).Err? ==> r == (store, Err(ValueError("Invalid slug: " + slugStr)))
    ensures Slugs.NewSlug(slugStr).Ok? && ValidateCategory(categoryId).Err? ==> r == (store, Err(ValidateCategory(categoryId).error))
    ensures r.1.Ok? <==> Slugs.NewSlug(slugStr).Ok? && ValidateCategory(categoryId).Ok?
    ensures r.1.Ok? ==>
              var e := r.1.value;
              && e.id == freshId && Slugs.ToString(e.slug) == slugStr && e.status == Draft
              && e.title == title && e.content == content && e.excerpt == excerpt
              && e.tagIds == [] && e.tagNames == [] && e.tagSlugs == []
              && e.categoryId == ValidateCategory(categoryId).value
              && (e.authorName, e.authorEmail) == AuthorFields(author)
              && e.viewsCount == 0 && e.likesCount == 0 && e.publishedAt.None? && e.deletedAt.None?
              && e.createdAt == now && e.updatedAt == now
              && r.0 == Posts.CreatePost(store, e).0
  {
    match Slugs.NewSlug(slugStr)
    case Err(e) => (store, Err(e))
    case Ok(slug) =>
      match ValidateCategory(categoryId)
      case Err(e) => (store, Err(e))
      case Ok(cat) =>
        var names := AuthorFields(author);
        var e := PostEntity(freshId, slug, title, content, excerpt, names.0, names.1, Draft, [], [], [], cat, 0, 0, NoMedia, now, now, None, None);
        var saved := Posts.CreatePost(store, e);
        (saved.0, Ok(saved.1))
  }

  /** A new post with a fresh id lands at the end of the store as a draft
      document that is not published anywhere. */
  lemma CreatedPostIsUnpublishedDraft(store: seq<PostDoc>, freshId: ObjectId, now: int, title: string, content: string, slugStr: string,
                                      excerpt: Option<string>, tags: seq<string>, categoryId: Option<string>, author: Option<Users.User>)
    requires forall i :: 0 <= i < |store| ==> store[i].id != freshId
    requires CreatePost(store, freshId, now, title, content, slugStr, excerpt, tags, categoryId, author).1.Ok?
    ensures var r := CreatePost(store, freshId, now, title, content, slugStr, excerpt, tags, categoryId, author);
            && |r.0| == |store| + 1 && r.0[..|store|] == store
            && r.0[|store|].status == "draft" && !IsPublished(r.0[|store|]) && IsLive(r.0[|store|])
            && r.0[|store|].tagIds == [] && r.0[|store|].tagNames == [] && r.0[|store|].tagSlugs == []
  {
  }

  /** The fields of an update request; `None` is a field left out. */
  datatype PostUpdate = PostUpdate(
    title: Option<string>,
    content: Option<string>,
    slug: Option<string>,
    excerpt: Option<string>,
    categoryId: Option<string>,
    media: MediaSet)

  /** `category_id` is converted only when present and non-empty; an empty
      string is written as it is. */
  function ConvertCategory(categoryId: Option<string>): (r: Result<Option<string>, Error>)
    ensures categoryId.None? ==> r == Ok(None)
    ensures categoryId == Some("") ==> r == Ok(Some(""))
    ensures categoryId.Some? && categoryId.value != "" ==>
              r == (if ParseObjectId(categoryId.value).Ok? then Ok(Some(ParseObjectId(categoryId.value).value)) else Err(InvalidId(categoryId.value)))
  {
    match categoryId
    case None => Ok(None)
    case Some(c) =>
      if c == "" then Ok(Some(""))
      else
        var id :- ParseObjectId(c);
        Ok(Some(id))
  }

  /** `update_post`: the given fields and the edit time, status and
      publication time untouched. The category id is converted before the
      post id is parsed. */
  function UpdatePost(store: seq<PostDoc>, postId: string, now: int, u: PostUpdate): (r: Result<(seq<PostDoc>, Option<PostDoc>), Error>)
    ensures ConvertCategory(u.categoryId).Err? ==> r == Err(ConvertCategory(u.categoryId).error)
    ensures ConvertCategory(u.categoryId).Ok? && ParseObjectId(postId).Err? ==> r == Err(InvalidId(postId))
    ensures r.Ok? <==> ConvertCategory(u.categoryId).Ok? && ParseObjectId(postId).Ok?
    ensures r.Ok? ==>
              var ps := PostSet(u.title, u.content, u.slug, u.excerpt, ConvertCategory(u.categoryId).value, u.media, None, None, now);
              && r.value == Posts.UpdatePost(store, ParseObjectId(postId).value, ps)
              && ps.status.None? && ps.publishedAt.None? && ps.updatedAt == now
  {
    var cat :- ConvertCategory(u.categoryId);
    var id :- ParseObjectId(postId);
    Ok(Posts.UpdatePost(store, id, PostSet(u.title, u.content, u.slug, u.excerpt, cat, u.media, None, None, now)))
  }

  /** An update never changes whether or when a post was published. */
  lemma UpdateKeepsPublication(store: seq<PostDoc>, postId: string, now: int, u: PostUpdate)
    requires UpdatePost(store, postId, now, u).Ok?
    ensures var s := UpdatePost(store, postId, now, u).value.0;
            |s| == |store| && forall i :: 0 <= i < |store| ==> s[i].status == store[i].status && s[i].publishedAt == store[i].publishedAt
  {
  }

  /** The `$set` of `publish_post`: the publication time is written only
      when the stored one is missing or null. */
  function PublishSet(post: PostDoc, now: int): (s: PostSet)
    ensures s.status == Some(StatusValue(Published)) && s.updatedAt == now
    ensures s.publishedAt == if post.publishedAt.None? then Some(Some(now)) else None
    ensures s.title.None? && s.content.None? && s.slug.None? && s.excerpt.None? && s.categoryId.None? && s.media == NoMediaSet
  {
    PostSet(None, None, None, None, None, NoMediaSet, Some(StatusValue(Published)),
            if post.publishedAt.None? then Some(Some(now)) else None, now)
  }

  /** `publish_post`: nothing happens for a missing or deleted post;
      otherwise the post becomes published, keeping its first publication
      time. Unlike the domain rule, an already published post is accepted. */
  function PublishPost(store: seq<PostDoc>, postId: string, now: int): (r: Result<(seq<PostDoc>, Option<PostDoc>), Error>)
    ensures ParseObjectId(postId).Err? ==> r == Err(InvalidId(postId))
    ensures ParseObjectId(postId).Ok? && GetById(store, postId).value.None? ==> r == Ok((store, None))
    ensures ParseObjectId(postId).Ok? && GetById(store, postId).value.Some? ==>
              var post := GetById(store, postId).value.value;
              r == Ok(Posts.UpdatePost(store, post.id, PublishSet(post, now)))
  {
    var found :- GetById(store, postId);
    match found
    case None => Ok((store, None))
    case Some(post) =>
      ParsePrintedId(post.id);
      Ok(Posts.UpdatePost(store, post.id, PublishSet(post, now)))
  }

  /** The `$set` of `unpublish_post`: back to draft with the publication
      time cleared. */
  const UnpublishSetFields := PostSet(None, None, None, None, None, NoMediaSet, Some(StatusValue(Draft)), Some(None), 0)

  /** `unpublish_post`: nothing happens for a missing or deleted post;
      otherwise the post becomes a draft and its publication time is set to
      null. */
  function UnpublishPost(store: seq<PostDoc>, postId: string, now: int): (r: Result<(seq<PostDoc>, Option<PostDoc>), Error>)
    ensures ParseObjectId(postId).Err? ==> r == Err(InvalidId(postId))
    ensures ParseObjectId(postId).Ok? && GetById(store, postId).value.None? ==> r == Ok((store, None))
    ensures ParseObjectId(postId).Ok? && GetById(store, postId).value.Some? ==>
              r == Ok(Posts.UpdatePost(store, GetById(store, postId).value.value.id, UnpublishSetFields.(updatedAt := now)))
  {
    var found :- GetById(store, postId);
    match found
    case None => Ok((store, None))
    case Some(post) => Ok(Posts.UpdatePost(store, post.id, UnpublishSetFields.(updatedAt := now)))
  }

  /** Publishing returns the post as published; its publication time is the
      one it already had, or now for a first publication. */
  lemma PublishKeepsFirstTime(store: seq<PostDoc>, postId: string, now: int)
    requires UniqueIds(store) && ParseObjectId(postId).Ok? && GetById(store, postId).value.Some?
    ensures var before := GetById(store, postId).value.value;
            var r := PublishPost(store, postId, now).value;
            && r.1.Some? && r.1.value.id == before.id
            && IsPublished(r.1.value)
            && r.1.value.publishedAt == (if before.publishedAt.Some? then before.publishedAt else Some(now))
  {
    var before := GetById(store, postId).value.value;
    var id := ParseObjectId(postId).value;
    var k := Store.IndexOfFirst(store, WithId(id));
    FirstLiveIsFirst(store, id);
  }

  /** Unpublishing returns the post as a draft with no publication time. */
  lemma UnpublishClearsTime(store: seq<PostDoc>, postId: string, now: int)
    requires UniqueIds(store) && ParseObjectId(postId).Ok? && GetById(store, postId).value.Some?
    ensures var r := UnpublishPost(store, postId, now).value;
            && r.1.Some? && r.1.value.status == "draft" && r.1.value.publishedAt.None? && r.1.value.updatedAt == now
  {
    FirstLiveIsFirst(store, ParseObjectId(postId).value);
  }

  /** With unique ids the live document found by id is the first with that
      id. */
  lemma FirstLiveIsFirst(store: seq<PostDoc>, id: ObjectId)
    requires UniqueIds(store) && Store.FindFirst(store, LiveWithId(id)).Some?
    ensures var k := Store.IndexOfFirst(store, WithId(id));
            k < |store| && IsLive(store[k]) && Store.FindFirst(store, LiveWithId(id)) == Some(store[k])
  {
    var k := Store.IndexOfFirst(store, WithId(id));
    var d := Store.FindFirst(store, LiveWithId(id)).value;
    var j :| 0 <= j < |store| && store[j] == d && LiveWithId(id)(store[j]);
    assert j == k;
  }

  /** Unpublishing and publishing again forgets the first publication time:
      the post is stamped with the time of the second publication. */
  lemma RepublishRestampsTime(store: seq<PostDoc>, postId: string, t1: int, t2: int)
    requires UniqueIds(store) && ParseObjectId(postId).Ok? && GetById(store, postId).value.Some?
    ensures var s1 := UnpublishPost(store, postId, t1).value.0;
            && UniqueIds(s1)
            && GetById(s1, postId).value.Some?
            && PublishPost(s1, postId, t2).value.1.value.publishedAt == Some(t2)
  {
    UnpublishKeepsPost(store, postId, t1);
    PublishKeepsFirstTime(UnpublishPost(store, postId, t1).value.0, postId, t2);
  }

  lemma UnpublishKeepsPost(store: seq<PostDoc>, postId: string, t1: int)
    requires UniqueIds(store) && ParseObjectId(postId).Ok? && GetById(store, postId).value.Some?
    ensures UnpublishPost(store, postId, t1).Ok?
    ensures var s1 := UnpublishPost(store, postId, t1).value.0;
            UniqueIds(s1) && GetById(s1, postId).value.Some?
  {
    var id := ParseObjectId(postId).value;
    FirstLiveIsFirst(store, id);
    var s1 := UnpublishPost(store, postId, t1).value.0;
    var k := Store.IndexOfFirst(store, WithId(id));
    assert forall i :: 0 <= i < |store| ==> s1[i].id == store[i].id;
    SameIdsUnique(store, s1);
    assert LiveWithId(id)(s1[k]);
    Store.FindFirstAt(s1, LiveWithId(id), k);
  }

  lemma SameIdsUnique(a: seq<PostDoc>, b: seq<PostDoc>)
    requires UniqueIds(a) && |a| == |b| && forall i :: 0 <= i < |a| ==> a[i].id == b[i].id
    ensures UniqueIds(b)
  {
  }
}
