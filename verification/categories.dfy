/** The category repository: materialised-path categories and the trees
    built from them.

    Each category stores `path`, the `/`-separated ids of its ancestors,
    computed once when it is created. A subtree is fetched with one prefix
    query on `path` and then assembled in memory by following `parent_id`. */
module Categories {
  import opened Wrappers
  import opened Ids
  import Text
  import Store

  datatype Category = Category(
    id: ObjectId,
    name: string,
    description: Option<string>,
    slug: string,
    path: string,
    parentId: Option<ObjectId>,
    createdAt: int,
    updatedAt: int,
    deletedAt: Option<int>)

  /** A category with the subtrees of its children, in the order they were
      fetched. */
  datatype Tree = Node(category: Category, children: seq<Tree>)

  predicate IsLive(c: Category) { c.deletedAt.None? }

  predicate HasId(s: seq<Category>, id: ObjectId) {
    exists i :: 0 <= i < |s| && s[i].id == id
  }

  function IdsOf(s: seq<Category>): set<ObjectId> {
    set i | 0 <= i < |s| :: s[i].id
  }

  /** `_id` is the primary key: no two documents share it. */
  predicate UniqueIds(s: seq<Category>) {
    forall i, j :: 0 <= i < |s| && 0 <= j < |s| && s[i].id == s[j].id ==> i == j
  }

  /** The path a child of a category with path `parentPath` and id
      `parentId` receives. */
  function ChildPath(parentPath: string, parentId: ObjectId): (p: string)
    ensures Text.StartsWith(p, parentPath)
    ensures p[|parentPath|..] == "/" + parentId
  {
    if parentPath != "" then parentPath + "/" + parentId else "/" + parentId
  }

  /** The two branches of the path rule are one rule: a root's children
      simply get an empty ancestor list in front. */
  lemma ChildPathUnified(parentPath: string, parentId: ObjectId)
    ensures ChildPath(parentPath, parentId) == parentPath + "/" + parentId
  {
  }

  /** `build_category_path`: the parent is looked up by id alone, so a
      soft-deleted parent is still accepted. */
  function BuildCategoryPath(store: seq<Category>, parentId: Option<ObjectId>): (r: Result<string, Error>)
    ensures parentId.None? ==> r == Ok("")
    ensures parentId.Some? ==> (r.Ok? <==> HasId(store, parentId.value))
    ensures parentId.Some? && r.Err? ==> r.error == ValueError("Parent category not found")
    ensures parentId.Some? && r.Ok? ==>
      exists i :: 0 <= i < |store| && store[i].id == parentId.value
                  && r.value == store[i].path + "/" + parentId.value
  {
    if parentId.None? then Ok("")
    else
      match Store.FindFirst(store, (c: Category) => c.id == parentId.value)
      case None => Err(ValueError("Parent category not found"))
      case Some(parent) => Ok(ChildPath(parent.path, parentId.value))
  }

  /** `update_one({"_id": id}, {"$set": data}, upsert=True)` where `data`
      carries every field but `deleted_at`: an existing document is rewritten
      in place and keeps its deletion mark; otherwise a new one is appended. */
  function Upsert(store: seq<Category>, c: Category): (r: seq<Category>)
    requires c.deletedAt.None?
    ensures HasId(store, c.id) ==> |r| == |store|
    ensures !HasId(store, c.id) ==> r == store + [c]
    ensures forall i :: 0 <= i < |store| && store[i].id != c.id ==> r[i] == store[i]
    ensures var k := Store.IndexOfFirst(store, WithId(c.id));
            k < |store| ==> r[k] == c.(deletedAt := store[k].deletedAt)
  {
    Store.Upsert(store, WithId(c.id), (d: Category) => c.(deletedAt := d.deletedAt), c)
  }

  /** The unique index on `slug`: another document already holds it. */
  predicate SlugTaken(store: seq<Category>, slug: string, id: ObjectId) {
    exists i :: 0 <= i < |store| && store[i].slug == slug && store[i].id != id
  }

  /** `create_category`: compute the path, then upsert. Returns the new store
      and the document written. */
  function CreateCategory(store: seq<Category>, category: Category): (r: Result<(seq<Category>, Category), Error>)
    ensures r.Ok? <==> BuildCategoryPath(store, category.parentId).Ok?
                       && !SlugTaken(store, category.slug, category.id)
    ensures BuildCategoryPath(store, category.parentId).Err? ==> r == Err(ValueError("Parent category not found"))
    ensures BuildCategoryPath(store, category.parentId).Ok? && SlugTaken(store, category.slug, category.id) ==>
              r == Err(DuplicateKey("slug"))
    ensures r.Ok? ==>
      var saved := r.value.1;
      && saved == category.(path := BuildCategoryPath(store, category.parentId).value, deletedAt := None)
      && r.value.0 == Upsert(store, saved)
  {
    var path :- BuildCategoryPath(store, category.parentId);
    var data := category.(path := path, deletedAt := None);
    if SlugTaken(store, data.slug, data.id) then Err(DuplicateKey("slug"))
    else Ok((Upsert(store, data), data))
  }

  /** `get_by_id`: the first non-deleted document with that id. */
  function GetById(store: seq<Category>, categoryId: string): (r: Result<Option<Category>, Error>)
    ensures r.Err? <==> ParseObjectId(categoryId).Err?
    ensures r.Err? ==> r.error == InvalidId(categoryId)
    ensures r.Ok? && r.value.Some? ==>
      var c := r.value.value;
      c.id == ParseObjectId(categoryId).value && IsLive(c) && c in store
    ensures r.Ok? && r.value.None? ==>
      forall i :: 0 <= i < |store| && store[i].id == ParseObjectId(categoryId).value ==> !IsLive(store[i])
  {
    var id :- ParseObjectId(categoryId);
    Ok(FindLive(store, id))
  }

  function FindLive(store: seq<Category>, id: ObjectId): Option<Category> {
    Store.FindFirst(store, LiveWithId(id))
  }

  // The filters the repository sends, as named selectors.

  function WithId(id: ObjectId): Category -> bool {
    (c: Category) => c.id == id
  }

  function LiveWithId(id: ObjectId): Category -> bool {
    (c: Category) => c.id == id && IsLive(c)
  }

  function ChildOf(id: ObjectId): Category -> bool {
    (c: Category) => c.parentId == Some(id)
  }

  /** `{"deleted_at": None, "path": {"$regex": "^" + prefix}}`. Paths consist
      of `/` and hexadecimal digits only, so the pattern is a plain prefix
      test. */
  function Under(prefix: string): Category -> bool {
    (c: Category) => IsLive(c) && Text.StartsWith(c.path, prefix)
  }

  // ---------------------------------------------------------------------
  // Assembling trees
  // ---------------------------------------------------------------------

  /** `children_map[str(id)]`: the fetched nodes naming `id` as parent, in
      fetch order. */
  function Kids(all: seq<Category>, id: ObjectId): seq<Category> {
    Store.Filter(all, ChildOf(id))
  }

  function Roots(ts: seq<Tree>): (r: seq<Category>)
    ensures |r| == |ts|
    ensures forall i :: 0 <= i < |ts| ==> r[i] == ts[i].category
  {
    seq(|ts|, i requires 0 <= i < |ts| => ts[i].category)
  }

  /** A tree assembled from `all`: every node was fetched, and every node's
      children are exactly the fetched nodes naming it as parent. */
  predicate Assembled(t: Tree, all: seq<Category>)
    decreases t
  {
    && t.category in all
    && Roots(t.children) == Kids(all, t.category.id)
    && forall i :: 0 <= i < |t.children| ==> Assembled(t.children[i], all)
  }

  predicate Contains(t: Tree, c: Category)
    decreases t
  {
    t.category == c || exists i :: 0 <= i < |t.children| && Contains(t.children[i], c)
  }

  /** The nested `build_tree`. Python recurses without end when a node is
      its own descendant and stops with `RecursionError`; the model carries
      the ids on the current branch and reports that error when a child
      repeats one. */
  function BuildTree(all: seq<Category>, node: Category, ancestors: set<ObjectId>): (r: Result<Tree, Error>)
    requires node in all && node.id !in ancestors
    ensures r.Ok? ==> r.value.category == node && Assembled(r.value, all)
    ensures r.Err? ==> r.error == RecursionError
    decreases IdsOf(all) - ancestors, 0
  {
    assert node.id in IdsOf(all);
    var cs :- BuildForest(all, Kids(all, node.id), ancestors + {node.id});
    Ok(Node(node, cs))
  }

  function BuildForest(all: seq<Category>, kids: seq<Category>, ancestors: set<ObjectId>): (r: Result<seq<Tree>, Error>)
    requires forall i :: 0 <= i < |kids| ==> kids[i] in all
    ensures r.Ok? ==> Roots(r.value) == kids && forall i :: 0 <= i < |r.value| ==> Assembled(r.value[i], all)
    ensures r.Err? ==> r.error == RecursionError
    decreases IdsOf(all) - ancestors, |kids| + 1
  {
    if |kids| == 0 then Ok([])
    else if kids[0].id in ancestors then Err(RecursionError)
    else
      var t :- BuildTree(all, kids[0], ancestors);
      var ts :- BuildForest(all, kids[1..], ancestors);
      ConsAssembled(t, ts, all);
      HeadTail(kids);
      Ok([t] + ts)
  }

  /** Putting an assembled tree in front of assembled trees. */
  lemma ConsAssembled(t: Tree, ts: seq<Tree>, all: seq<Category>)
    requires Assembled(t, all) && forall i :: 0 <= i < |ts| ==> Assembled(ts[i], all)
    ensures Roots([t] + ts) == [t.category] + Roots(ts)
    ensures forall i :: 0 <= i < |[t] + ts| ==> Assembled(([t] + ts)[i], all)
  {
    ConsRoots(t, ts);
    AllCons(t, ts, (u: Tree) => Assembled(u, all));
  }

  lemma AllCons<T>(x: T, xs: seq<T>, p: T -> bool)
    requires p(x) && forall i :: 0 <= i < |xs| ==> p(xs[i])
    ensures forall i :: 0 <= i < |[x] + xs| ==> p(([x] + xs)[i])
  {
    forall i | 0 <= i < |[x] + xs| ensures p(([x] + xs)[i]) {
      if i > 0 { assert ([x] + xs)[i] == xs[i - 1]; }
    }
  }

  lemma ConsRoots(t: Tree, ts: seq<Tree>)
    ensures Roots([t] + ts) == [t.category] + Roots(ts)
  {
    var r, q := Roots([t] + ts), [t.category] + Roots(ts);
    forall i | 0 <= i < |r| ensures r[i] == q[i] {
      if i > 0 { assert ([t] + ts)[i] == ts[i - 1]; }
    }
  }

  lemma HeadTail<T>(s: seq<T>)
    requires |s| > 0
    ensures s == [s[0]] + s[1..]
  {
  }

  /** Every node of an assembled tree was among the fetched documents. */
  lemma {:induction false} AssembledFromFetched(t: Tree, all: seq<Category>, c: Category)
    requires Assembled(t, all) && Contains(t, c)
    ensures c in all
    decreases t
  {
    if t.category != c {
      var i :| 0 <= i < |t.children| && Contains(t.children[i], c);
      AssembledFromFetched(t.children[i], all, c);
    }
  }

  /** Below the top, every node hangs under the node its `parent_id` names:
      a fetched node whose parent was not fetched never appears. */
  lemma {:induction false} AssembledLinked(t: Tree, all: seq<Category>, c: Category)
    requires Assembled(t, all) && Contains(t, c) && c != t.category
    ensures exists p :: Contains(t, p) && c.parentId == Some(p.id)
    decreases t
  {
    var i :| 0 <= i < |t.children| && Contains(t.children[i], c);
    var child := t.children[i];
    assert child.category in Kids(all, t.category.id) by {
      assert Roots(t.children)[i] == child.category;
    }
    if c == child.category {
      assert Contains(t, t.category);
    } else {
      AssembledLinked(child, all, c);
      var p :| Contains(child, p) && c.parentId == Some(p.id);
      assert Contains(t, p);
    }
  }

  // ---------------------------------------------------------------------
  // Reading subtrees
  // ---------------------------------------------------------------------

  /** `get_category_with_children`: the live category with that id, with
      every live document whose path extends its own assembled below it. */
  function GetCategoryWithChildren(store: seq<Category>, categoryId: string): (r: Result<Option<Tree>, Error>)
    ensures ParseObjectId(categoryId).Err? ==> r == Err(InvalidId(categoryId))
    ensures ParseObjectId(categoryId).Ok? ==>
      var id := ParseObjectId(categoryId).value;
      && (r == Ok(None) <==> FindLive(store, id).None?)
      && (r.Ok? && r.value.Some? ==> r.value.value.category == FindLive(store, id).value)
      && (r.Err? ==> r.error == RecursionError)
    ensures r.Ok? && r.value.Some? ==>
      var t := r.value.value;
      forall c :: Contains(t, c) && c != t.category ==>
        c in store && IsLive(c) && Text.StartsWith(c.path, ChildPath(t.category.path, t.category.id))
    ensures r.Ok? && r.value.Some? ==>
      Assembled(r.value.value, [r.value.value.category] + Descendants(store, r.value.value.category))
  {
    var id :- ParseObjectId(categoryId);
    match FindLive(store, id)
    case None => Ok(None)
    case Some(anchor) =>
      var all := [anchor] + Descendants(store, anchor);
      var t :- BuildTree(all, anchor, {});
      SubtreeMembers(store, anchor, t);
      Ok(Some(t))
  }

  /** The documents the prefix query on `path` returns for `anchor`. */
  function Descendants(store: seq<Category>, anchor: Category): seq<Category> {
    Store.Filter(store, Under(ChildPath(anchor.path, anchor.id)))
  }

  lemma SubtreeMembers(store: seq<Category>, anchor: Category, t: Tree)
    requires Assembled(t, [anchor] + Descendants(store, anchor)) && t.category == anchor
    ensures forall c :: Contains(t, c) && c != anchor ==>
              c in store && IsLive(c) && Text.StartsWith(c.path, ChildPath(anchor.path, anchor.id))
  {
    var all := [anchor] + Descendants(store, anchor);
    forall c | Contains(t, c) && c != anchor
      ensures c in store && IsLive(c) && Text.StartsWith(c.path, ChildPath(anchor.path, anchor.id))
    {
      AssembledFromFetched(t, all, c);
      var k :| 0 <= k < |all| && all[k] == c;
      assert Descendants(store, anchor)[k - 1] == c;
    }
  }

  /** A direct child of the anchor whose path was computed from the anchor
      is part of the subtree the query returns. */
  lemma DirectChildIncluded(store: seq<Category>, anchor: Category, c: Category)
    requires c in store && IsLive(c) && c.parentId == Some(anchor.id)
    requires c.path == ChildPath(anchor.path, anchor.id)
    ensures c in Kids([anchor] + Descendants(store, anchor), anchor.id)
  {
    var all := [anchor] + Descendants(store, anchor);
    assert c in Descendants(store, anchor);
    var k :| 0 <= k < |Descendants(store, anchor)| && Descendants(store, anchor)[k] == c;
    assert all[k + 1] == c;
  }

  /** The returned tree holds every live direct child of the category whose
      path was computed from it. */
  lemma DirectChildInTree(store: seq<Category>, categoryId: string, c: Category)
    requires GetCategoryWithChildren(store, categoryId).Ok? && GetCategoryWithChildren(store, categoryId).value.Some?
    requires var anchor := GetCategoryWithChildren(store, categoryId).value.value.category;
      c in store && IsLive(c) && c.parentId == Some(anchor.id) && c.path == ChildPath(anchor.path, anchor.id)
    ensures Contains(GetCategoryWithChildren(store, categoryId).value.value, c)
  {
    var t := GetCategoryWithChildren(store, categoryId).value.value;
    var anchor := t.category;
    DirectChildIncluded(store, anchor, c);
    var kids := Kids([anchor] + Descendants(store, anchor), anchor.id);
    var k :| 0 <= k < |kids| && kids[k] == c;
    assert Roots(t.children)[k] == c;
    assert Contains(t.children[k], c);
  }

  // ---------------------------------------------------------------------
  // Listing root trees
  // ---------------------------------------------------------------------

  predicate IsLiveRoot(c: Category) { c.parentId.None? && IsLive(c) }

  /** The `$or` of prefix conditions `^/<root id>`, one per root. */
  predicate UnderSomeRoot(c: Category, roots: seq<Category>) {
    exists k :: 0 <= k < |roots| && Text.StartsWith(c.path, ChildPath("", roots[k].id))
  }

  function BuildAll(all: seq<Category>, roots: seq<Category>): (r: Result<seq<Tree>, Error>)
    requires forall i :: 0 <= i < |roots| ==> roots[i] in all
    ensures r.Ok? ==> Roots(r.value) == roots && forall i :: 0 <= i < |r.value| ==> Assembled(r.value[i], all)
    ensures r.Err? ==> r.error == RecursionError
  {
    if |roots| == 0 then Ok([])
    else
      var t :- BuildTree(all, roots[0], {});
      var ts :- BuildAll(all, roots[1..]);
      ConsAssembled(t, ts, all);
      HeadTail(roots);
      Ok([t] + ts)
  }

  function RootPage(store: seq<Category>, skip: nat, limit: nat): seq<Category> {
    Store.Page(Store.Filter(store, IsLiveRoot), skip, limit)
  }

  function ListNodes(store: seq<Category>, roots: seq<Category>): seq<Category> {
    roots + Store.Filter(store, (c: Category) => IsLive(c) && UnderSomeRoot(c, roots))
  }

  /** `list_categories`: one page of live roots, each with its subtree. */
  function ListCategories(store: seq<Category>, skip: nat, limit: nat): (r: Result<seq<Tree>, Error>)
    ensures RootPage(store, skip, limit) == [] ==> r == Ok([])
    ensures r.Ok? ==> Roots(r.value) == RootPage(store, skip, limit)
    ensures r.Ok? ==> forall i :: 0 <= i < |r.value| ==>
              IsLiveRoot(r.value[i].category) && Assembled(r.value[i], ListNodes(store, RootPage(store, skip, limit)))
    ensures r.Err? ==> r.error == RecursionError
  {
    var roots := RootPage(store, skip, limit);
    if roots == [] then Ok([])
    else
      var all := ListNodes(store, roots);
      assert forall i :: 0 <= i < |roots| ==> all[i] == roots[i];
      var ts :- BuildAll(all, roots);
      RootsAreLiveRoots(store, skip, limit);
      assert forall i :: 0 <= i < |ts| ==> ts[i].category == Roots(ts)[i];
      Ok(ts)
  }

  lemma RootsAreLiveRoots(store: seq<Category>, skip: nat, limit: nat)
    ensures forall i :: 0 <= i < |RootPage(store, skip, limit)| ==> IsLiveRoot(RootPage(store, skip, limit)[i])
  {
    var f := Store.Filter(store, IsLiveRoot);
    assert forall i :: 0 <= i < |RootPage(store, skip, limit)| ==> RootPage(store, skip, limit)[i] == f[skip + i];
  }

  /** `count_categories`: every live category, roots or not. */
  function CountCategories(store: seq<Category>): (n: nat)
    ensures n == |Store.Filter(store, IsLive)|
    ensures n <= |store|
    ensures n == 0 <==> forall i :: 0 <= i < |store| ==> !IsLive(store[i])
  {
    Store.CountZero(store, IsLive);
    Store.Count(store, IsLive)
  }

  /** Creating a category under a new id adds one to the count. */
  lemma CreateCountsOne(store: seq<Category>, category: Category)
    requires CreateCategory(store, category).Ok? && !HasId(store, category.id)
    ensures CountCategories(CreateCategory(store, category).value.0) == CountCategories(store) + 1
  {
    var saved := CreateCategory(store, category).value.1;
    Store.FilterAppend(store, [saved], IsLive);
    Store.FilterCons(saved, [], IsLive);
  }

  /** Deleting takes one off the count exactly when the first document with
      the id was live, and leaves it alone otherwise. */
  lemma DeleteCountsOne(store: seq<Category>, categoryId: string, now: int)
    requires Delete(store, categoryId, now).Ok?
    ensures var k := Store.IndexOfFirst(store, WithId(ParseObjectId(categoryId).value));
      CountCategories(Delete(store, categoryId, now).value.0) ==
        CountCategories(store) - (if k < |store| && IsLive(store[k]) then 1 else 0)
  {
    var k := Store.IndexOfFirst(store, WithId(ParseObjectId(categoryId).value));
    var s := Delete(store, categoryId, now).value.0;
    if k < |store| {
      Store.CountReplace(store, s, k, IsLive);
    } else {
      assert s == store;
    }
  }

  // ---------------------------------------------------------------------
  // Writes
  // ---------------------------------------------------------------------

  /** The `$set` document of an update: absent fields are left alone, and
      `updated_at` is always written. `path` is never part of it. */
  datatype Patch = Patch(
    name: Option<string>,
    description: Option<string>,
    slug: Option<string>,
    parentId: Option<ObjectId>,
    updatedAt: int)

  function ApplyPatch(c: Category, p: Patch): (d: Category)
    ensures d.id == c.id && d.path == c.path && d.createdAt == c.createdAt && d.deletedAt == c.deletedAt
    ensures d.updatedAt == p.updatedAt
    ensures d.name == p.name.GetOr(c.name) && d.slug == p.slug.GetOr(c.slug)
    ensures d.description == (if p.description.Some? then p.description else c.description)
    ensures d.parentId == (if p.parentId.Some? then p.parentId else c.parentId)
  {
    c.(name := p.name.GetOr(c.name),
       description := if p.description.Some? then p.description else c.description,
       slug := p.slug.GetOr(c.slug),
       parentId := if p.parentId.Some? then p.parentId else c.parentId,
       updatedAt := p.updatedAt)
  }

  /** `update_category`: apply the patch to the document with that id and
      return the patch. The path is not recomputed, so moving a category
      leaves its own path and its descendants' paths describing the old
      position. */
  function UpdateCategory(store: seq<Category>, categoryId: string, patch: Patch): (r: Result<(seq<Category>, Patch), Error>)
    ensures ParseObjectId(categoryId).Err? ==> r == Err(InvalidId(categoryId))
    ensures ParseObjectId(categoryId).Ok? ==>
      match UpdateById(store, ParseObjectId(categoryId).value, patch)
      case Ok(s) => r == Ok((s, patch))
      case Err(e) => r == Err(e)
  {
    var id :- ParseObjectId(categoryId);
    var s :- UpdateById(store, id, patch);
    Ok((s, patch))
  }

  /** `update_one({"_id": id}, {"$set": patch})`. Only the first document
      with that id changes, and only in the fields the patch carries; the
      unique index on `slug` rejects a slug another document holds. */
  function UpdateById(store: seq<Category>, id: ObjectId, patch: Patch): (r: Result<seq<Category>, Error>)
    ensures r.Err? <==> HasId(store, id) && patch.slug.Some? && SlugTaken(store, patch.slug.value, id)
    ensures r.Err? ==> r.error == DuplicateKey("slug")
    ensures r.Ok? ==>
      var s := r.value;
      && |s| == |store|
      && (forall i :: 0 <= i < |store| ==> s[i].path == store[i].path && s[i].id == store[i].id)
      && (forall i :: 0 <= i < |store| && store[i].id != id ==> s[i] == store[i])
      && (forall i :: 0 <= i < |store| && store[i].id == id && (forall j :: 0 <= j < i ==> store[j].id != id) ==>
            s[i] == ApplyPatch(store[i], patch))
  {
    if HasId(store, id) && patch.slug.Some? && SlugTaken(store, patch.slug.value, id) then Err(DuplicateKey("slug"))
    else Ok(Store.UpdateFirst(store, WithId(id), (c: Category) => ApplyPatch(c, patch)))
  }

  /** `delete`: a soft delete stamping `deleted_at`. It reports whether a
      document was modified, which it is not when the stamp is already the
      same instant. */
  function Delete(store: seq<Category>, categoryId: string, now: int): (r: Result<(seq<Category>, bool), Error>)
    ensures ParseObjectId(categoryId).Err? ==> r == Err(InvalidId(categoryId))
    ensures ParseObjectId(categoryId).Ok? ==> r.Ok?
    ensures r.Ok? ==>
      var id := ParseObjectId(categoryId).value;
      var k := Store.IndexOfFirst(store, WithId(id));
      && |r.value.0| == |store|
      && (r.value.1 <==> k < |store| && store[k].deletedAt != Some(now))
      && (forall i :: 0 <= i < |store| ==> r.value.0[i] == if i == k then store[i].(deletedAt := Some(now)) else store[i])
  {
    var id :- ParseObjectId(categoryId);
    var k := Store.IndexOfFirst(store, WithId(id));
    var s := Store.UpdateFirst(store, WithId(id), (c: Category) => c.(deletedAt := Some(now)));
    Ok((s, k < |store| && store[k].deletedAt != Some(now)))
  }

  // ---------------------------------------------------------------------
  // Acyclicity
  // ---------------------------------------------------------------------

  /** Paths strictly lengthen from parent to child. Creation establishes
      this, since a child's path extends its parent's. */
  predicate PathsMonotone(s: seq<Category>) {
    forall i, j :: 0 <= i < |s| && 0 <= j < |s| && s[i].parentId == Some(s[j].id) ==> |s[j].path| < |s[i].path|
  }

  /** Every document whose id is on the current branch has a path shorter
      than `bound`. */
  predicate AncestorsBelow(all: seq<Category>, ancestors: set<ObjectId>, bound: int) {
    forall k :: 0 <= k < |all| && all[k].id in ancestors ==> |all[k].path| < bound
  }

  /** With monotone paths no branch can revisit an id, so assembly always
      succeeds. */
  lemma {:induction false} TreeTerminates(all: seq<Category>, node: Category, ancestors: set<ObjectId>)
    requires node in all && node.id !in ancestors
    requires PathsMonotone(all) && AncestorsBelow(all, ancestors, |node.path|)
    ensures BuildTree(all, node, ancestors).Ok?
    decreases IdsOf(all) - ancestors, 0
  {
    assert node.id in IdsOf(all);
    var kids := Kids(all, node.id);
    var anc := ancestors + {node.id};
    forall i | 0 <= i < |kids| ensures AncestorsBelow(all, anc, |kids[i].path|) {
      var j :| 0 <= j < |all| && all[j] == kids[i];
      var n :| 0 <= n < |all| && all[n] == node;
      assert |node.path| < |kids[i].path|;
      forall k | 0 <= k < |all| && all[k].id in anc ensures |all[k].path| < |kids[i].path| {
        if all[k].id == node.id {
          assert all[j].parentId == Some(all[k].id);
        }
      }
    }
    ForestTerminates(all, kids, anc);
  }

  lemma {:induction false} ForestTerminates(all: seq<Category>, kids: seq<Category>, ancestors: set<ObjectId>)
    requires forall i :: 0 <= i < |kids| ==> kids[i] in all && AncestorsBelow(all, ancestors, |kids[i].path|)
    requires PathsMonotone(all)
    ensures BuildForest(all, kids, ancestors).Ok?
    decreases IdsOf(all) - ancestors, |kids| + 1
  {
    if |kids| > 0 {
      var j :| 0 <= j < |all| && all[j] == kids[0];
      TreeTerminates(all, kids[0], ancestors);
      ForestTerminates(all, kids[1..], ancestors);
    }
  }

  lemma {:induction false} AllTerminate(all: seq<Category>, roots: seq<Category>)
    requires forall i :: 0 <= i < |roots| ==> roots[i] in all
    requires PathsMonotone(all)
    ensures BuildAll(all, roots).Ok?
  {
    if |roots| > 0 {
      TreeTerminates(all, roots[0], {});
      AllTerminate(all, roots[1..]);
    }
  }

  /** Monotonicity holds of any selection of documents from a monotone store. */
  lemma MonotoneSelection(store: seq<Category>, sel: seq<Category>)
    requires PathsMonotone(store)
    requires forall i :: 0 <= i < |sel| ==> sel[i] in store
    ensures PathsMonotone(sel)
  {
    forall i, j | 0 <= i < |sel| && 0 <= j < |sel| && sel[i].parentId == Some(sel[j].id)
      ensures |sel[j].path| < |sel[i].path|
    {
      var a :| 0 <= a < |store| && store[a] == sel[i];
      var b :| 0 <= b < |store| && store[b] == sel[j];
    }
  }

  /** Over a monotone store, reading a subtree never fails after the id
      parses. */
  lemma SubtreeReadSucceeds(store: seq<Category>, categoryId: string)
    requires PathsMonotone(store) && ParseObjectId(categoryId).Ok?
    ensures GetCategoryWithChildren(store, categoryId).Ok?
  {
    var id := ParseObjectId(categoryId).value;
    match FindLive(store, id)
    case None =>
    case Some(anchor) =>
      var all := [anchor] + Descendants(store, anchor);
      MonotoneSelection(store, all);
      TreeTerminates(all, anchor, {});
  }

  /** Over a monotone store, listing never fails. */
  lemma ListSucceeds(store: seq<Category>, skip: nat, limit: nat)
    requires PathsMonotone(store)
    ensures ListCategories(store, skip, limit).Ok?
  {
    var roots := RootPage(store, skip, limit);
    if roots != [] {
      var all := ListNodes(store, roots);
      var f := Store.Filter(store, IsLiveRoot);
      forall i | 0 <= i < |all| ensures all[i] in store {
        if i < |roots| { assert roots[i] == f[skip + i]; }
      }
      MonotoneSelection(store, all);
      assert forall i :: 0 <= i < |roots| ==> all[i] == roots[i];
      AllTerminate(all, roots);
    }
  }

  /** Creating a category under a fresh id keeps paths monotone. */
  lemma CreatePreservesMonotone(store: seq<Category>, category: Category)
    requires PathsMonotone(store) && UniqueIds(store)
    requires !HasId(store, category.id)
    requires forall i :: 0 <= i < |store| ==> store[i].parentId != Some(category.id)
    requires CreateCategory(store, category).Ok?
    ensures PathsMonotone(CreateCategory(store, category).value.0)
  {
    var saved := CreateCategory(store, category).value.1;
    var s := store + [saved];
    assert CreateCategory(store, category).value.0 == s;
    forall i, j | 0 <= i < |s| && 0 <= j < |s| && s[i].parentId == Some(s[j].id)
      ensures |s[j].path| < |s[i].path|
    {
      if i == |store| && j < |store| {
        var k :| 0 <= k < |store| && store[k].id == category.parentId.value
                 && saved.path == store[k].path + "/" + category.parentId.value;
        assert s[j].id == store[k].id;
        assert j == k;
      }
    }
  }

  /** Soft deletion changes no path and no parent. */
  lemma DeletePreservesMonotone(store: seq<Category>, categoryId: string, now: int)
    requires PathsMonotone(store)
    requires Delete(store, categoryId, now).Ok?
    ensures PathsMonotone(Delete(store, categoryId, now).value.0)
  {
    var s := Delete(store, categoryId, now).value.0;
    assert forall i :: 0 <= i < |s| ==> s[i].path == store[i].path && s[i].parentId == store[i].parentId && s[i].id == store[i].id;
  }

  // ---------------------------------------------------------------------
  // What moving a category does
  // ---------------------------------------------------------------------

  const IdA: ObjectId := "aaaaaaaaaaaaaaaaaaaaaaaa"
  const IdB: ObjectId := "bbbbbbbbbbbbbbbbbbbbbbbb"

  function Sample(id: ObjectId, slug: string, path: string, parent: Option<ObjectId>): Category {
    Category(id, slug, None, slug, path, parent, 0, 0, None)
  }

  /** A root A with one child B; then A is moved under B. The update is
      accepted, and reading A afterwards runs into the cycle. */
  lemma MoveUnderOwnChildCycles()
    ensures
      var a := Sample(IdA, "a", "", None);
      var b := Sample(IdB, "b", "/" + IdA, Some(IdA));
      var moved := UpdateCategory([a, b], IdA, Patch(None, None, None, Some(IdB), 1));
      && moved.Ok?
      && GetCategoryWithChildren(moved.value.0, IdA) == Err(RecursionError)
  {
    var a := Sample(IdA, "a", "", None);
    var b := Sample(IdB, "b", "/" + IdA, Some(IdA));
    var a' := a.(parentId := Some(IdB), updatedAt := 1);
    MoveOntoChild(a, b, a');
    CycleRead(a', b);
  }

  lemma CycleRead(a': Category, b: Category)
    requires a' == Sample(IdA, "a", "", Some(IdB)).(updatedAt := 1)
    requires b == Sample(IdB, "b", "/" + IdA, Some(IdA))
    ensures GetCategoryWithChildren([a', b], IdA) == Err(RecursionError)
  {
    ParsePrintedId(IdA);
    var s := [a', b];
    Store.FindFirstAt(s, LiveWithId(IdA), 0);
    Store.FilterPair(a', b, Under(ChildPath("", IdA)));
    assert Text.StartsWith(b.path, "/" + IdA);
    assert [a'] + Descendants(s, a') == s;
    CycleBuild(a', b);
  }

  lemma CycleBuild(a': Category, b: Category)
    requires a' == Sample(IdA, "a", "", Some(IdB)).(updatedAt := 1)
    requires b == Sample(IdB, "b", "/" + IdA, Some(IdA))
    ensures BuildTree([a', b], a', {}) == Err(RecursionError)
  {
    var s := [a', b];
    assert IdA[0] != IdB[0];
    Store.FilterPair(a', b, ChildOf(IdA));
    Store.FilterPair(a', b, ChildOf(IdB));
    assert Kids(s, IdA) == [b];
    assert Kids(s, IdB) == [a'];
    assert BuildForest(s, [a'], {IdA, IdB}) == Err(RecursionError);
    assert BuildTree(s, b, {IdA}) == Err(RecursionError);
    assert BuildForest(s, [b], {IdA}) == Err(RecursionError);
    var none: set<ObjectId> := {};
    assert none + {a'.id} == {IdA};
    assert {IdA} + {b.id} == {IdA, IdB};
  }

  lemma MoveOntoChild(a: Category, b: Category, a': Category)
    requires a == Sample(IdA, "a", "", None) && b == Sample(IdB, "b", "/" + IdA, Some(IdA))
    requires a' == a.(parentId := Some(IdB), updatedAt := 1)
    ensures UpdateCategory([a, b], IdA, Patch(None, None, None, Some(IdB), 1)) == Ok(([a', b], Patch(None, None, None, Some(IdB), 1)))
  {
    ParsePrintedId(IdA);
    var patch := Patch(None, None, None, Some(IdB), 1);
    var moved := UpdateCategory([a, b], IdA, patch);
    assert moved.Ok?;
    assert moved.value.0 == [a', b];
  }

  const IdC: ObjectId := "cccccccccccccccccccccccc"

  /** A child moved to another root keeps its old path, so it is neither
      under its new parent nor under its old one. */
  lemma MovedChildVanishes()
    ensures
      var a := Sample(IdA, "a", "", None);
      var b := Sample(IdB, "b", "", None);
      var c := Sample(IdC, "c", "/" + IdA, Some(IdA));
      var moved := UpdateCategory([a, b, c], IdC, Patch(None, None, None, Some(IdB), 1));
      && moved.Ok?
      && GetCategoryWithChildren(moved.value.0, IdA) == Ok(Some(Node(a, [])))
      && GetCategoryWithChildren(moved.value.0, IdB) == Ok(Some(Node(b, [])))
  {
    var a := Sample(IdA, "a", "", None);
    var b := Sample(IdB, "b", "", None);
    var c := Sample(IdC, "c", "/" + IdA, Some(IdA));
    var c' := c.(parentId := Some(IdB), updatedAt := 1);
    MoveToOtherRoot(a, b, c, c');
    OldParentLosesChild(a, b, c');
    NewParentMissesChild(a, b, c');
  }

  lemma MoveToOtherRoot(a: Category, b: Category, c: Category, c': Category)
    requires a == Sample(IdA, "a", "", None) && b == Sample(IdB, "b", "", None)
    requires c == Sample(IdC, "c", "/" + IdA, Some(IdA))
    requires c' == c.(parentId := Some(IdB), updatedAt := 1)
    ensures UpdateCategory([a, b, c], IdC, Patch(None, None, None, Some(IdB), 1)) == Ok(([a, b, c'], Patch(None, None, None, Some(IdB), 1)))
  {
    ParsePrintedId(IdC);
    var patch := Patch(None, None, None, Some(IdB), 1);
    var moved := UpdateCategory([a, b, c], IdC, patch);
    assert moved.Ok?;
    assert moved.value.0 == [a, b, c'];
  }

  lemma OldParentLosesChild(a: Category, b: Category, c': Category)
    requires a == Sample(IdA, "a", "", None) && b == Sample(IdB, "b", "", None)
    requires c' == Sample(IdC, "c", "/" + IdA, Some(IdB)).(updatedAt := 1)
    ensures GetCategoryWithChildren([a, b, c'], IdA) == Ok(Some(Node(a, [])))
  {
    ParsePrintedId(IdA);
    assert FindLive([a, b, c'], IdA) == Some(a);
    OldParentDescendants(a, b, c');
    assert [a] + [c'] == [a, c'];
    OldParentTree(a, c');
  }

  lemma OldParentDescendants(a: Category, b: Category, c': Category)
    requires a == Sample(IdA, "a", "", None) && b == Sample(IdB, "b", "", None)
    requires c' == Sample(IdC, "c", "/" + IdA, Some(IdB)).(updatedAt := 1)
    ensures Descendants([a, b, c'], a) == [c']
  {
    var p := Under(ChildPath("", IdA));
    Store.FilterTriple(a, b, c', p);
    Store.FilterPair(b, c', p);
    assert Text.StartsWith(c'.path, "/" + IdA);
  }

  lemma OldParentTree(a: Category, c': Category)
    requires a == Sample(IdA, "a", "", None)
    requires c' == Sample(IdC, "c", "/" + IdA, Some(IdB)).(updatedAt := 1)
    ensures BuildTree([a, c'], a, {}) == Ok(Node(a, []))
  {
    Store.FilterPair(a, c', ChildOf(IdA));
    assert Kids([a, c'], IdA) == [];
  }

  lemma NewParentMissesChild(a: Category, b: Category, c': Category)
    requires a == Sample(IdA, "a", "", None) && b == Sample(IdB, "b", "", None)
    requires c' == Sample(IdC, "c", "/" + IdA, Some(IdB)).(updatedAt := 1)
    ensures GetCategoryWithChildren([a, b, c'], IdB) == Ok(Some(Node(b, [])))
  {
    ParsePrintedId(IdB);
    NewParentFound(a, b, c');
    NewParentDescendants(a, b, c');
    assert [b] + [] == [b];
    NewParentTree(b);
  }

  lemma NewParentFound(a: Category, b: Category, c': Category)
    requires a == Sample(IdA, "a", "", None) && b == Sample(IdB, "b", "", None)
    requires c' == Sample(IdC, "c", "/" + IdA, Some(IdB)).(updatedAt := 1)
    ensures FindLive([a, b, c'], IdB) == Some(b)
  {
    assert IdA[0] != IdB[0] && IdC[0] != IdB[0];
    assert !LiveWithId(IdB)(a) && LiveWithId(IdB)(b) && !LiveWithId(IdB)(c');
    Store.FindFirstAt([a, b, c'], LiveWithId(IdB), 1);
  }

  lemma NewParentDescendants(a: Category, b: Category, c': Category)
    requires a == Sample(IdA, "a", "", None) && b == Sample(IdB, "b", "", None)
    requires c' == Sample(IdC, "c", "/" + IdA, Some(IdB)).(updatedAt := 1)
    ensures Descendants([a, b, c'], b) == []
  {
    var p := Under(ChildPath("", IdB));
    Store.FilterTriple(a, b, c', p);
    Store.FilterPair(b, c', p);
    assert !Text.StartsWith(c'.path, "/" + IdB) by { assert c'.path[1] != ("/" + IdB)[1]; }
  }

  lemma NewParentTree(b: Category)
    requires b == Sample(IdB, "b", "", None)
    ensures BuildTree([b], b, {}) == Ok(Node(b, []))
  {
    assert Store.Filter([b], ChildOf(IdB)) == [];
  }
}
