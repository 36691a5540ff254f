/** The older category repository. Its `build_category_path`,
    `create_category`, `update_category` and `list_categories` are the
    primary repository's code over an already-parsed id, so they are
    `Categories.BuildCategoryPath`, `Categories.CreateCategory`,
    `Categories.UpdateById` and `Categories.ListCategories`. What differs is
    reading and deleting. */
module LegacyCategories {
  import opened Wrappers
  import opened Ids
  import Store
  import opened Categories

  /** `get_by_id`: by id alone, so a soft-deleted category is returned. */
  function GetById(store: seq<Category>, id: ObjectId): (r: Option<Category>)
    ensures r.None? <==> !HasId(store, id)
    ensures r.Some? ==> r.value.id == id && r.value in store
  {
    Store.FindFirst(store, WithId(id))
  }

  /** Unlike the primary repository, a soft-deleted category is still found. */
  lemma FindsDeleted(store: seq<Category>, id: ObjectId, now: int)
    requires |store| > 0 && store[0].id == id
    ensures GetById(store[0 := store[0].(deletedAt := Some(now))], id).Some?
    ensures FindLive(store[0 := store[0].(deletedAt := Some(now))], id) != Some(store[0].(deletedAt := Some(now)))
  {
    var s := store[0 := store[0].(deletedAt := Some(now))];
    assert HasId(s, id) by { assert s[0].id == id; }
  }

  /** `delete`: a hard delete, reporting whether a document was removed. */
  function Delete(store: seq<Category>, id: ObjectId): (r: (seq<Category>, bool))
    ensures r.1 <==> HasId(store, id)
    ensures r.1 ==> |r.0| == |store| - 1
    ensures r.1 && UniqueIds(store) ==> !HasId(r.0, id)
    ensures !r.1 ==> r.0 == store
    ensures forall i :: 0 <= i < |r.0| ==> r.0[i] in store
  {
    var k := Store.IndexOfFirst(store, WithId(id));
    (Store.DeleteFirst(store, WithId(id)), k < |store|)
  }

  /** Removing documents cannot create a cycle. */
  lemma DeletePreservesMonotone(store: seq<Category>, id: ObjectId)
    requires PathsMonotone(store)
    ensures PathsMonotone(Delete(store, id).0)
  {
    MonotoneSelection(store, Delete(store, id).0);
  }

  /** Hard-deleting a root leaves its child pointing at nothing; the child is
      not a root, so no page of the listing shows it any more. */
  lemma DeletedRootHidesChild()
    ensures
      var a := Sample(IdA, "a", "", None);
      var b := Sample(IdB, "b", "/" + IdA, Some(IdA));
      var d := Delete([a, b], IdA);
      && d == ([b], true)
      && ListCategories(d.0, 0, 10) == Ok([])
  {
    var a := Sample(IdA, "a", "", None);
    var b := Sample(IdB, "b", "/" + IdA, Some(IdA));
    assert Store.IndexOfFirst([a, b], WithId(IdA)) == 0;
    assert Delete([a, b], IdA).0 == [b];
    assert HasId([a, b], IdA) by { assert [a, b][0].id == IdA; }
    Store.FilterCons(b, [], IsLiveRoot);
    assert [b] == [b] + [];
    assert RootPage([b], 0, 10) == [];
  }
}
