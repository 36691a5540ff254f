/** The tag repository: lookups that hide soft-deleted tags, a usage
    counter, and a listing ordered by usage. */
module Tags {
  import opened Wrappers
  import opened Ids
  import Text
  import Store

  datatype Tag = Tag(
    id: ObjectId,
    name: string,
    slug: string,
    description: Option<string>,
    usageCount: int,
    createdAt: int,
    updatedAt: int,
    deletedAt: Option<int>)

  predicate IsLive(t: Tag) { t.deletedAt.None? }

  predicate HasId(s: seq<Tag>, id: ObjectId) {
    exists i :: 0 <= i < |s| && s[i].id == id
  }

  function WithId(id: ObjectId): Tag -> bool {
    (t: Tag) => t.id == id
  }

  function LiveWithId(id: ObjectId): Tag -> bool {
    (t: Tag) => t.id == id && IsLive(t)
  }

  function LiveWithSlug(slug: string): Tag -> bool {
    (t: Tag) => t.slug == slug && IsLive(t)
  }

  /** `{"name": {"$regex": "^" + name + "$", "$options": "i"}}`, read as a
      whole-name comparison that ignores letter case. */
  function LiveNamed(name: string): Tag -> bool {
    (t: Tag) => Text.EqualsIgnoreCase(t.name, name) && IsLive(t)
  }

  /** `create_tag`: upsert by id of every field but `deleted_at`; an existing
      document keeps its deletion mark. Returns the store and the data
      written. */
  function CreateTag(store: seq<Tag>, tag: Tag): (r: (seq<Tag>, Tag))
    ensures r.1 == tag.(deletedAt := None)
    ensures !HasId(store, tag.id) ==> r.0 == store + [r.1]
    ensures HasId(store, tag.id) ==> |r.0| == |store|
    ensures forall i :: 0 <= i < |store| && store[i].id != tag.id ==> r.0[i] == store[i]
    ensures var k := Store.IndexOfFirst(store, WithId(tag.id));
            k < |store| ==> r.0[k] == tag.(deletedAt := store[k].deletedAt)
  {
    var data := tag.(deletedAt := None);
    (Store.Upsert(store, WithId(tag.id), (d: Tag) => tag.(deletedAt := d.deletedAt), data), data)
  }

  /** `get_by_id`. */
  function GetById(store: seq<Tag>, tagId: string): (r: Result<Option<Tag>, Error>)
    ensures ParseObjectId(tagId).Err? ==> r == Err(InvalidId(tagId))
    ensures ParseObjectId(tagId).Ok? ==> r.Ok?
    ensures r.Ok? && r.value.Some? ==> r.value.value in store && IsLive(r.value.value) && r.value.value.id == ParseObjectId(tagId).value
    ensures r.Ok? && r.value.None? ==> forall i :: 0 <= i < |store| && store[i].id == ParseObjectId(tagId).value ==> !IsLive(store[i])
  {
    var id :- ParseObjectId(tagId);
    Ok(Store.FindFirst(store, LiveWithId(id)))
  }

  /** `get_by_slug`. */
  function GetBySlug(store: seq<Tag>, slug: string): (r: Option<Tag>)
    ensures r.Some? ==> r.value in store && IsLive(r.value) && r.value.slug == slug
    ensures r.None? <==> forall i :: 0 <= i < |store| && store[i].slug == slug ==> !IsLive(store[i])
  {
    Store.FindFirst(store, LiveWithSlug(slug))
  }

  /** `get_by_name`: the first live tag whose name equals `name` up to letter
      case. */
  function GetByName(store: seq<Tag>, name: string): (r: Option<Tag>)
    ensures r.Some? ==> r.value in store && IsLive(r.value) && Text.EqualsIgnoreCase(r.value.name, name)
    ensures r.None? <==> forall i :: 0 <= i < |store| && Text.EqualsIgnoreCase(store[i].name, name) ==> !IsLive(store[i])
  {
    Store.FindFirst(store, LiveNamed(name))
  }

  /** `[ObjectId(tid) for tid in tag_ids]`: the first unparsable id raises. */
  function ParseAll(ids: seq<string>): (r: Result<seq<ObjectId>, Error>)
    ensures r.Ok? <==> forall i :: 0 <= i < |ids| ==> ParseObjectId(ids[i]).Ok?
    ensures r.Ok? ==> |r.value| == |ids| && forall i :: 0 <= i < |ids| ==> r.value[i] == ParseObjectId(ids[i]).value
    ensures r.Err? ==> exists i :: 0 <= i < |ids| && r.error == InvalidId(ids[i])
  {
    if |ids| == 0 then Ok([])
    else
      var first :- ParseObjectId(ids[0]);
      var rest :- ParseAll(ids[1..]);
      Ok([first] + rest)
  }

  function LiveIn(ids: seq<ObjectId>): Tag -> bool {
    (t: Tag) => t.id in ids && IsLive(t)
  }

  /** `get_by_ids`: an empty request returns nothing without a query;
      otherwise the live tags whose id was requested, in store order. */
  function GetByIds(store: seq<Tag>, tagIds: seq<string>): (r: Result<seq<Tag>, Error>)
    ensures tagIds == [] ==> r == Ok([])
    ensures r.Ok? <==> forall i :: 0 <= i < |tagIds| ==> ParseObjectId(tagIds[i]).Ok?
    ensures r.Ok? ==> forall k :: 0 <= k < |r.value| ==>
              r.value[k] in store && IsLive(r.value[k]) && exists i :: 0 <= i < |tagIds| && ParseObjectId(tagIds[i]).value == r.value[k].id
    ensures r.Ok? ==> forall j, i :: 0 <= j < |store| && 0 <= i < |tagIds| && IsLive(store[j]) && store[j].id == ParseObjectId(tagIds[i]).value ==>
              store[j] in r.value
  {
    if tagIds == [] then Ok([])
    else
      var ids :- ParseAll(tagIds);
      var r := Store.Filter(store, LiveIn(ids));
      assert forall k :: 0 <= k < |r| ==> r[k].id in ids;
      Ok(r)
  }

  /** The `$set` document of `update_tag`. */
  datatype TagPatch = TagPatch(name: Option<string>, description: Option<string>, slug: Option<string>, updatedAt: int)

  function ApplyPatch(t: Tag, p: TagPatch): (u: Tag)
    ensures u.id == t.id && u.usageCount == t.usageCount && u.createdAt == t.createdAt && u.deletedAt == t.deletedAt
    ensures u.name == p.name.GetOr(t.name) && u.slug == p.slug.GetOr(t.slug) && u.updatedAt == p.updatedAt
    ensures u.description == (if p.description.Some? then p.description else t.description)
  {
    t.(name := p.name.GetOr(t.name),
       description := if p.description.Some? then p.description else t.description,
       slug := p.slug.GetOr(t.slug),
       updatedAt := p.updatedAt)
  }

  /** `update_tag`: apply the patch, then read the tag back; a soft-deleted
      tag is updated but reads back as absent. */
  function UpdateTag(store: seq<Tag>, tagId: string, patch: TagPatch): (r: Result<(seq<Tag>, Option<Tag>), Error>)
    ensures ParseObjectId(tagId).Err? ==> r == Err(InvalidId(tagId))
    ensures ParseObjectId(tagId).Ok? ==> r.Ok?
    ensures r.Ok? ==>
      var id := ParseObjectId(tagId).value;
      var k := Store.IndexOfFirst(store, WithId(id));
      var s := r.value.0;
      && |s| == |store|
      && (forall i :: 0 <= i < |store| ==> s[i] == if i == k then ApplyPatch(store[i], patch) else store[i])
      && r.value.1 == Store.FindFirst(s, LiveWithId(id))
  {
    var id :- ParseObjectId(tagId);
    var s := Store.UpdateFirst(store, WithId(id), (t: Tag) => ApplyPatch(t, patch));
    Ok((s, Store.FindFirst(s, LiveWithId(id))))
  }

  /** `delete`: a soft delete, reporting whether the document changed. */
  function Delete(store: seq<Tag>, tagId: string, now: int): (r: Result<(seq<Tag>, bool), Error>)
    ensures ParseObjectId(tagId).Err? ==> r == Err(InvalidId(tagId))
    ensures ParseObjectId(tagId).Ok? ==> r.Ok?
    ensures r.Ok? ==>
      var k := Store.IndexOfFirst(store, WithId(ParseObjectId(tagId).value));
      && |r.value.0| == |store|
      && (r.value.1 <==> k < |store| && store[k].deletedAt != Some(now))
      && (forall i :: 0 <= i < |store| ==> r.value.0[i] == if i == k then store[i].(deletedAt := Some(now)) else store[i])
  {
    var id :- ParseObjectId(tagId);
    var k := Store.IndexOfFirst(store, WithId(id));
    Ok((Store.UpdateFirst(store, WithId(id), (t: Tag) => t.(deletedAt := Some(now))), k < |store| && store[k].deletedAt != Some(now)))
  }

  /** A deleted tag is invisible to every lookup by id. */
  lemma DeletedTagHidden(store: seq<Tag>, tagId: string, now: int)
    requires ParseObjectId(tagId).Ok?
    requires forall i, j :: 0 <= i < |store| && 0 <= j < |store| && store[i].id == store[j].id ==> i == j
    ensures GetById(Delete(store, tagId, now).value.0, tagId) == Ok(None)
  {
    var id := ParseObjectId(tagId).value;
    var s := Delete(store, tagId, now).value.0;
    var k := Store.IndexOfFirst(store, WithId(id));
    forall i | 0 <= i < |s| && s[i].id == id ensures !IsLive(s[i]) {
      assert store[i].id == id;
      assert i == k;
    }
  }

  /** `$inc` on `usage_count`, by id and regardless of deletion. */
  function AddUsage(store: seq<Tag>, tagId: string, delta: int): (r: Result<seq<Tag>, Error>)
    ensures ParseObjectId(tagId).Err? ==> r == Err(InvalidId(tagId))
    ensures ParseObjectId(tagId).Ok? ==> r.Ok?
    ensures r.Ok? ==>
      var k := Store.IndexOfFirst(store, WithId(ParseObjectId(tagId).value));
      && |r.value| == |store|
      && (forall i :: 0 <= i < |store| ==> r.value[i] == if i == k then store[i].(usageCount := store[i].usageCount + delta) else store[i])
  {
    var id :- ParseObjectId(tagId);
    Ok(Store.UpdateFirst(store, WithId(id), (t: Tag) => t.(usageCount := t.usageCount + delta)))
  }

  /** `increment_usage_count`. */
  function IncrementUsageCount(store: seq<Tag>, tagId: string): (r: Result<seq<Tag>, Error>)
    ensures r.Ok? <==> ParseObjectId(tagId).Ok?
    ensures r.Ok? ==> |r.value| == |store| && forall i :: 0 <= i < |store| ==>
              r.value[i].usageCount - store[i].usageCount in {0, 1} && r.value[i].(usageCount := 0) == store[i].(usageCount := 0)
    ensures r.Ok? ==>
      var k := Store.IndexOfFirst(store, WithId(ParseObjectId(tagId).value));
      forall i :: 0 <= i < |store| ==> r.value[i] == if i == k then store[i].(usageCount := store[i].usageCount + 1) else store[i]
  {
    AddUsage(store, tagId, 1)
  }

  /** `decrement_usage_count`: no lower bound, so the count can go negative. */
  function DecrementUsageCount(store: seq<Tag>, tagId: string): (r: Result<seq<Tag>, Error>)
    ensures r.Ok? <==> ParseObjectId(tagId).Ok?
    ensures r.Ok? ==> |r.value| == |store| && forall i :: 0 <= i < |store| ==>
              store[i].usageCount - r.value[i].usageCount in {0, 1} && r.value[i].(usageCount := 0) == store[i].(usageCount := 0)
    ensures r.Ok? ==>
      var k := Store.IndexOfFirst(store, WithId(ParseObjectId(tagId).value));
      forall i :: 0 <= i < |store| ==> r.value[i] == if i == k then store[i].(usageCount := store[i].usageCount - 1) else store[i]
  {
    AddUsage(store, tagId, -1)
  }

  /** Incrementing and then decrementing the same tag restores the store. */
  lemma IncrementThenDecrement(store: seq<Tag>, tagId: string)
    requires ParseObjectId(tagId).Ok?
    ensures DecrementUsageCount(IncrementUsageCount(store, tagId).value, tagId) == Ok(store)
  {
    var id := ParseObjectId(tagId).value;
    var s1 := IncrementUsageCount(store, tagId).value;
    var s2 := DecrementUsageCount(s1, tagId).value;
    var k := Store.IndexOfFirst(store, WithId(id));
    assert Store.IndexOfFirst(s1, WithId(id)) == k by {
      assert forall i :: 0 <= i < |store| ==> s1[i].id == store[i].id;
      IndexOfFirstSameIds(store, s1, id);
    }
    assert s2 == store;
  }

  lemma IndexOfFirstSameIds(a: seq<Tag>, b: seq<Tag>, id: ObjectId)
    requires |a| == |b| && forall i :: 0 <= i < |a| ==> a[i].id == b[i].id
    ensures Store.IndexOfFirst(a, WithId(id)) == Store.IndexOfFirst(b, WithId(id))
  {
    var ka := Store.IndexOfFirst(a, WithId(id));
    var kb := Store.IndexOfFirst(b, WithId(id));
  }

  // ---------------------------------------------------------------------
  // Listing by usage
  // ---------------------------------------------------------------------

  predicate SortedByUsage(s: seq<Tag>) {
    forall i, j :: 0 <= i < j < |s| ==> s[i].usageCount >= s[j].usageCount
  }

  /** Insert `t` before the first element used less often. */
  function InsertByUsage(t: Tag, s: seq<Tag>): (r: seq<Tag>)
    ensures multiset(r) == multiset(s) + multiset{t}
  {
    if |s| == 0 then [t]
    else if s[0].usageCount > t.usageCount then
      assert s == [s[0]] + s[1..];
      [s[0]] + InsertByUsage(t, s[1..])
    else [t] + s
  }

  /** Every element of an insertion is the inserted tag or one of `s`. */
  lemma InsertMembers(t: Tag, s: seq<Tag>, x: Tag)
    requires x in InsertByUsage(t, s)
    ensures x == t || x in s
  {
    assert x in multiset(InsertByUsage(t, s));
  }

  lemma {:induction false} InsertSorted(t: Tag, s: seq<Tag>)
    requires SortedByUsage(s)
    ensures SortedByUsage(InsertByUsage(t, s))
  {
    if |s| > 0 && s[0].usageCount > t.usageCount {
      var rest := InsertByUsage(t, s[1..]);
      InsertSorted(t, s[1..]);
      forall k | 0 <= k < |rest| ensures s[0].usageCount >= rest[k].usageCount {
        InsertMembers(t, s[1..], rest[k]);
      }
      var r := [s[0]] + rest;
      forall i, j | 0 <= i < j < |r| ensures r[i].usageCount >= r[j].usageCount {
        if i > 0 { assert r[i] == rest[i - 1] && r[j] == rest[j - 1]; }
        else { assert r[j] == rest[j - 1]; }
      }
    }
  }

  /** `.sort("usage_count", -1)`: ordered by usage, most used first. */
  function SortByUsage(s: seq<Tag>): (r: seq<Tag>)
    ensures SortedByUsage(r)
    ensures multiset(r) == multiset(s)
  {
    if |s| == 0 then []
    else
      assert s == [s[0]] + s[1..];
      var rest := SortByUsage(s[1..]);
      InsertSorted(s[0], rest);
      InsertByUsage(s[0], rest)
  }

  /** `list_tags`: one page of the live tags, most used first. */
  function ListTags(store: seq<Tag>, skip: nat, limit: nat): (r: seq<Tag>)
    ensures |r| <= limit
    ensures var n := Store.Count(store, IsLive);
      |r| == if skip >= n then 0 else if n - skip < limit then n - skip else limit
    ensures SortedByUsage(r)
    ensures forall i :: 0 <= i < |r| ==> r[i] in store && IsLive(r[i])
  {
    var live := Store.Filter(store, IsLive);
    var sorted := SortByUsage(live);
    var r := Store.Page(sorted, skip, limit);
    assert forall i :: 0 <= i < |r| ==> r[i] in multiset(live);
    assert |sorted| == |live| by { assert |multiset(sorted)| == |multiset(live)|; }
    r
  }

  /** Every page of the listing is a slice of the same usage-descending
      ordering of the live tags. */
  lemma PagesOfOneOrder(store: seq<Tag>)
    ensures exists s :: (SortedByUsage(s) && multiset(s) == multiset(Store.Filter(store, IsLive)) &&
      forall skip: nat, limit: nat :: ListTags(store, skip, limit) == Store.Page(s, skip, limit))
  {
    var s := SortByUsage(Store.Filter(store, IsLive));
    assert forall skip: nat, limit: nat :: ListTags(store, skip, limit) == Store.Page(s, skip, limit);
  }

  /** So consecutive pages join into the page spanning both, and together
      never hold a tag more often than it is stored. */
  lemma ConsecutivePages(store: seq<Tag>, skip: nat, a: nat, b: nat)
    ensures ListTags(store, skip, a) + ListTags(store, skip + a, b) == ListTags(store, skip, a + b)
    ensures multiset(ListTags(store, skip, a) + ListTags(store, skip + a, b)) <= multiset(Store.Filter(store, IsLive))
  {
    var s := SortByUsage(Store.Filter(store, IsLive));
    assert ListTags(store, skip, a) == Store.Page(s, skip, a);
    assert ListTags(store, skip + a, b) == Store.Page(s, skip + a, b);
    assert ListTags(store, skip, a + b) == Store.Page(s, skip, a + b);
    Store.PageSplit(s, skip, a, b);
    Store.PageWithin(s, skip, a + b);
    assert multiset(s) == multiset(Store.Filter(store, IsLive));
  }

  /** No two different tags share a usage count. */
  predicate DistinctUsage(s: seq<Tag>) {
    forall x, y :: x in s && y in s && x.usageCount == y.usageCount ==> x == y
  }

  /** With distinct usage counts a multiset of tags has only one
      usage-descending order. */
  lemma {:induction false} SortedOrderUnique(a: seq<Tag>, b: seq<Tag>)
    requires SortedByUsage(a) && SortedByUsage(b) && multiset(a) == multiset(b)
    requires DistinctUsage(a)
    ensures a == b
    decreases |a|
  {
    if a == [] {
      assert |b| == |multiset(b)| == 0;
    } else {
      SortedHeadsAgree(a, b);
      Store.TailsSameMultiset(a, b);
      TailKeepsOrder(a);
      TailKeepsOrder(b);
      SortedOrderUnique(a[1..], b[1..]);
      assert a == [a[0]] + a[1..] && b == [b[0]] + b[1..];
    }
  }

  /** Dropping the head keeps the order and the distinct keys. */
  lemma TailKeepsOrder(a: seq<Tag>)
    requires a != [] && SortedByUsage(a)
    ensures SortedByUsage(a[1..])
    ensures DistinctUsage(a) ==> DistinctUsage(a[1..])
  {
    assert forall i :: 0 <= i < |a| - 1 ==> a[1..][i] == a[i + 1];
    assert forall x :: x in a[1..] ==> x in a;
  }

  /** Both orders start with the tag of the highest count. */
  lemma SortedHeadsAgree(a: seq<Tag>, b: seq<Tag>)
    requires SortedByUsage(a) && SortedByUsage(b) && multiset(a) == multiset(b)
    requires DistinctUsage(a) && a != []
    ensures b != [] && a[0] == b[0]
  {
    assert a[0] in multiset(b);
    assert b[0] in multiset(a);
    var j :| 0 <= j < |a| && a[j] == b[0];
    var k :| 0 <= k < |b| && b[k] == a[0];
    assert a[0].usageCount >= a[j].usageCount by { if j > 0 { assert 0 < j < |a|; } }
    assert b[0].usageCount >= b[k].usageCount by { if k > 0 { assert 0 < k < |b|; } }
    assert a[0] in a && a[j] in a;
  }

  /** Whatever order the server gives tags of equal usage, when no two live
      tags share a count every page it can return is the model's page. */
  lemma AnyOrderGivesListing(store: seq<Tag>, s: seq<Tag>, skip: nat, limit: nat)
    requires SortedByUsage(s) && multiset(s) == multiset(Store.Filter(store, IsLive))
    requires DistinctUsage(Store.Filter(store, IsLive))
    ensures Store.Page(s, skip, limit) == ListTags(store, skip, limit)
  {
    var live := Store.Filter(store, IsLive);
    var sorted := SortByUsage(live);
    assert forall x :: x in sorted ==> x in multiset(live);
    SortedOrderUnique(sorted, s);
    assert ListTags(store, skip, limit) == Store.Page(sorted, skip, limit);
  }

  /** When every live tag fits on the first page, the page holds each of
      them exactly once. */
  lemma WholeListing(store: seq<Tag>, limit: nat)
    requires Store.Count(store, IsLive) <= limit
    ensures multiset(ListTags(store, 0, limit)) == multiset(Store.Filter(store, IsLive))
  {
    var live := Store.Filter(store, IsLive);
    var sorted := SortByUsage(live);
    assert |sorted| == |live| by { assert |multiset(sorted)| == |multiset(live)|; }
    assert Store.Page(sorted, 0, limit) == sorted;
  }

  /** `count_tags`: every live tag, so a listing as long as the count shows
      them all. */
  function CountTags(store: seq<Tag>): (n: nat)
    ensures n <= |store|
    ensures n == 0 <==> forall i :: 0 <= i < |store| ==> !IsLive(store[i])
  {
    Store.CountZero(store, IsLive);
    Store.Count(store, IsLive)
  }

  /** The count is the length of the listing that holds every live tag. */
  lemma CountIsWholeListing(store: seq<Tag>)
    ensures |ListTags(store, 0, CountTags(store))| == CountTags(store)
    ensures multiset(ListTags(store, 0, CountTags(store))) == multiset(Store.Filter(store, IsLive))
  {
    WholeListing(store, CountTags(store));
    assert |multiset(ListTags(store, 0, CountTags(store)))| == |multiset(Store.Filter(store, IsLive))|;
  }
}
