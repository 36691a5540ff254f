/** The category service: argument conversion in front of the repository. */
module CategoryService {
  import opened Wrappers
  import opened Ids
  import Slugs
  import Store
  import opened Categories

  /** `ObjectId(parent_id) if parent_id else None`: an absent or empty
      parent id makes a root. */
  function ParentRef(parentId: Option<string>): (r: Result<Option<ObjectId>, Error>)
    ensures parentId.None? || parentId.value == "" ==> r == Ok(None)
    ensures parentId.Some? && parentId.value != "" ==>
      match ParseObjectId(parentId.value)
      case Ok(id) => r == Ok(Some(id))
      case Err(e) => r == Err(e)
  {
    if parentId.None? || parentId.value == "" then Ok(None)
    else
      var id :- ParseObjectId(parentId.value);
      Ok(Some(id))
  }

  /** `Slug(slug_str)` where the argument may be left out: `re.match` on
      `None` raises `TypeError`. */
  function CheckedSlug(slugStr: Option<string>): (r: Result<string, Error>)
    ensures slugStr.None? ==> r == Err(TypeError)
    ensures slugStr.Some? ==> (r.Ok? <==> Slugs.IsValidSlug(slugStr.value))
    ensures slugStr.Some? && r.Ok? ==> r.value == slugStr.value
    ensures slugStr.Some? && r.Err? ==> r.error == ValueError("Invalid slug: " + slugStr.value)
  {
    if slugStr.None? then Err(TypeError)
    else
      var slug :- Slugs.NewSlug(slugStr.value);
      Ok(Slugs.ToString(slug))
  }

  /** `create_category`: the slug is validated first, then the parent id is
      converted, and only then is anything written. */
  function CreateCategory(store: seq<Category>, freshId: ObjectId, now: int, name: string, description: Option<string>,
                          slugStr: Option<string>, parentId: Option<string>): (r: Result<(seq<Category>, Category), Error>)
    ensures CheckedSlug(slugStr).Err? ==> r == Err(CheckedSlug(slugStr).error)
    ensures CheckedSlug(slugStr).Ok? && ParentRef(parentId).Err? ==> r == Err(ParentRef(parentId).error)
    ensures CheckedSlug(slugStr).Ok? && ParentRef(parentId).Ok? ==>
              r == CreateEntity(store, freshId, now, name, description, CheckedSlug(slugStr).value, ParentRef(parentId).value)
  {
    var slug :- CheckedSlug(slugStr);
    var parent :- ParentRef(parentId);
    CreateEntity(store, freshId, now, name, description, slug, parent)
  }

  /** The entity built from converted arguments receives a fresh id and the
      current time as both timestamps; the repository then computes its path
      and upserts it. */
  function CreateEntity(store: seq<Category>, freshId: ObjectId, now: int, name: string, description: Option<string>,
                        slug: string, parent: Option<ObjectId>): (r: Result<(seq<Category>, Category), Error>)
    ensures r.Ok? <==> BuildCategoryPath(store, parent).Ok? && !SlugTaken(store, slug, freshId)
    ensures r.Ok? ==>
      && r.value.1 == Category(freshId, name, description, slug, BuildCategoryPath(store, parent).value, parent, now, now, None)
      && r.value.0 == Upsert(store, r.value.1)
  {
    Categories.CreateCategory(store, Category(freshId, name, description, slug, "", parent, now, now, None))
  }

  /** `update_category`: each argument given is converted, in argument
      order, into the patch; `updated_at` is always set. */
  function UpdateCategory(store: seq<Category>, categoryId: string, now: int, name: Option<string>, description: Option<string>,
                          slugStr: Option<string>, parentId: Option<string>): (r: Result<(seq<Category>, Patch), Error>)
    ensures slugStr.Some? && !Slugs.IsValidSlug(slugStr.value) ==> r == Err(ValueError("Invalid slug: " + slugStr.value))
    ensures (slugStr.None? || Slugs.IsValidSlug(slugStr.value)) && parentId.Some? && ParseObjectId(parentId.value).Err? ==>
              r == Err(InvalidId(parentId.value))
    ensures r.Ok? ==>
      var p := r.value.1;
      && p.name == name && p.description == description && p.slug == slugStr && p.updatedAt == now
      && (p.parentId.Some? <==> parentId.Some?)
      && (p.parentId.Some? ==> ParseObjectId(parentId.value) == Ok(p.parentId.value))
    ensures r.Ok? ==> |r.value.0| == |store| && forall i :: 0 <= i < |store| ==> r.value.0[i].path == store[i].path
    ensures r.Ok? ==> r == Categories.UpdateCategory(store, categoryId, r.value.1)
    ensures r.Ok? ==> ParseObjectId(categoryId).Ok? && r.value.0 == UpdateById(store, ParseObjectId(categoryId).value, r.value.1).value
  {
    var slug :- if slugStr.Some? then (var s :- CheckedSlug(slugStr); Ok(Some(s))) else Ok(None);
    var parent :- if parentId.Some? then (var id :- ParseObjectId(parentId.value); Ok(Some(id))) else Ok(None);
    Categories.UpdateCategory(store, categoryId, Patch(name, description, slug, parent, now))
  }

  /** `get_category_by_id` hands the id straight to the repository, so a
      caller gets the live category with that id and, below it, every
      fetched descendant that names a node of the tree as its parent. */
  function GetCategoryById(store: seq<Category>, categoryId: string): (r: Result<Option<Tree>, Error>)
    ensures ParseObjectId(categoryId).Err? ==> r == Err(InvalidId(categoryId))
    ensures ParseObjectId(categoryId).Ok? ==>
      (r == Ok(None) <==> FindLive(store, ParseObjectId(categoryId).value).None?)
    ensures r.Err? ==> r.error == InvalidId(categoryId) || r.error == RecursionError
    ensures r.Ok? && r.value.Some? ==>
      var t := r.value.value;
      && t.category == FindLive(store, ParseObjectId(categoryId).value).value
      && Assembled(t, [t.category] + Descendants(store, t.category))
  {
    GetCategoryWithChildren(store, categoryId)
  }

  /** `get_all_categories`: one page of root trees, and as total the number of
      live categories of any depth. */
  function GetAllCategories(store: seq<Category>, skip: nat, limit: nat): (r: Result<(seq<Tree>, nat), Error>)
    ensures RootPage(store, skip, limit) == [] ==> r == Ok(([], |Store.Filter(store, IsLive)|))
    ensures r.Err? ==> r.error == RecursionError
    ensures r.Ok? ==>
      && Roots(r.value.0) == RootPage(store, skip, limit)
      && (forall i :: 0 <= i < |r.value.0| ==>
            IsLiveRoot(r.value.0[i].category) && Assembled(r.value.0[i], ListNodes(store, RootPage(store, skip, limit))))
      && r.value.1 == |Store.Filter(store, IsLive)|
  {
    var trees :- ListCategories(store, skip, limit);
    Ok((trees, CountCategories(store)))
  }

  /** The total is not the number of trees: one root with one child is a
      single tree but a total of two. */
  lemma TotalCountsDescendants()
    ensures
      var a := Sample(IdA, "a", "", None);
      var b := Sample(IdB, "b", "/" + IdA, Some(IdA));
      var r := GetAllCategories([a, b], 0, 10);
      && r.Ok? && |r.value.0| == 1 && r.value.1 == 2
  {
    var a := Sample(IdA, "a", "", None);
    var b := Sample(IdB, "b", "/" + IdA, Some(IdA));
    var s := [a, b];
    Store.FilterPair(a, b, IsLiveRoot);
    Store.FilterPair(a, b, IsLive);
    assert RootPage(s, 0, 10) == [a];
    MonotoneExample(a, b);
    ListSucceeds(s, 0, 10);
  }

  lemma MonotoneExample(a: Category, b: Category)
    requires a == Sample(IdA, "a", "", None) && b == Sample(IdB, "b", "/" + IdA, Some(IdA))
    ensures PathsMonotone([a, b])
  {
    assert IdA[0] != IdB[0];
  }
}
