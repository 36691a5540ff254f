/** The post aggregate of the blog domain and its business rules:
    publishing, the view and like counters, content edits, and identity by
    id. Each rule that mutates the object in place is a function from the
    old post to the new one; the clock reading is a parameter. */
module BlogPost {
  import opened Wrappers
  import opened Ids
  import opened Statuses

  datatype Post = Post(
    id: ObjectId,
    slug: string,
    title: string,
    content: string,
    excerpt: Option<string>,
    authorName: Option<string>,
    authorEmail: Option<string>,
    status: PostStatus,
    tags: seq<string>,
    category: Option<string>,
    viewsCount: int,
    likesCount: int,
    createdAt: int,
    updatedAt: int,
    publishedAt: Option<int>,
    deletedAt: Option<int>)

  /** `Post.publish`: refused when already published, from a draft or an
      archived post the status becomes published and the publication time
      is now. */
  function Publish(p: Post, now: int): (r: Result<Post, Error>)
    ensures r.Err? <==> p.status == Published
    ensures r.Err? ==> r.error == ValueError("Post is already published")
    ensures r.Ok? ==> r.value == p.(status := Published, publishedAt := Some(now))
  {
    if p.status == Published then Err(ValueError("Post is already published"))
    else Ok(p.(status := Published, publishedAt := Some(now)))
  }

  /** A post cannot be published twice in a row. */
  lemma PublishTwiceFails(p: Post, now: int, later: int)
    requires Publish(p, now).Ok?
    ensures Publish(Publish(p, now).value, later).Err?
    ensures Publish(Publish(p, now).value, later).error == ValueError("Post is already published")
  {
  }

  /** `record_view`. */
  function RecordView(p: Post): (r: Post)
    ensures r.viewsCount == p.viewsCount + 1
    ensures r.(viewsCount := p.viewsCount) == p
  {
    p.(viewsCount := p.viewsCount + 1)
  }

  /** `like`. */
  function Like(p: Post): (r: Post)
    ensures r.likesCount == p.likesCount + 1
    ensures r.(likesCount := p.likesCount) == p
  {
    p.(likesCount := p.likesCount + 1)
  }

  /** Python truthiness of an optional string: present and non-empty. */
  predicate Truthy(s: Option<string>) {
    s.Some? && s.value != ""
  }

  /** `update_content`: title and content always, the excerpt only when the
      new one is truthy, and the edit time; the status check in the source
      has no effect. */
  function UpdateContent(p: Post, title: string, content: string, excerpt: Option<string>, now: int): (r: Post)
    ensures r.title == title && r.content == content && r.updatedAt == now
    ensures r.excerpt == if Truthy(excerpt) then excerpt else p.excerpt
    ensures r.(title := p.title, content := p.content, excerpt := p.excerpt, updatedAt := p.updatedAt) == p
  {
    p.(title := title, content := content, excerpt := if Truthy(excerpt) then excerpt else p.excerpt, updatedAt := now)
  }

  /** `__eq__`: two posts are equal when their ids are. */
  predicate SamePost(a: Post, b: Post) {
    a.id == b.id
  }

  /** `__hash__`: the hash of the id, standing for an arbitrary function of
      it. */
  datatype PostHash = HashOfId(id: ObjectId)

  function Hash(p: Post): (h: PostHash)
    ensures h.id == p.id
  {
    HashOfId(p.id)
  }

  /** Equal posts hash alike, and the hash tells posts apart exactly as
      equality does. */
  lemma HashAgreesWithEquality(a: Post, b: Post)
    ensures SamePost(a, b) <==> Hash(a) == Hash(b)
  {
  }

  /** Every business rule keeps the post's identity. */
  lemma RulesKeepIdentity(p: Post, now: int, title: string, content: string, excerpt: Option<string>)
    ensures Publish(p, now).Ok? ==> SamePost(p, Publish(p, now).value)
    ensures SamePost(p, RecordView(p)) && SamePost(p, Like(p))
    ensures SamePost(p, UpdateContent(p, title, content, excerpt, now))
  {
  }

  /** Editing content never changes the publication state. */
  lemma UpdateContentKeepsStatus(p: Post, title: string, content: string, excerpt: Option<string>, now: int)
    ensures var r := UpdateContent(p, title, content, excerpt, now);
            r.status == p.status && r.publishedAt == p.publishedAt
  {
  }
}
