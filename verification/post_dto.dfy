/** Request and response shaping for posts: the tag input check and the
    response's pre-validation clean-up, which turns store-native ids into
    strings and hides the denormalised tag lists. Documents are loosely
    typed here, as in the source: a value is a string, an ObjectId, a slug
    object, null, some other scalar, a list, or a dict kept in insertion
    order. */
module PostDto {
  import opened Wrappers
  import opened Ids
  import Slugs

  datatype Value =
    | Str(s: string)
    | Oid(id: ObjectId)
    | SlugObj(slug: Slugs.Slug)
    | Null
    | Scalar(repr: string, truthy: bool)   // any other scalar: its printed form and truth value
    | List(items: seq<Value>)
    | Dict(fields: seq<Field>)

  /** One entry of a dict. */
  datatype Field = Field(key: string, val: Value)

  /** Python truthiness. */
  predicate Truthy(v: Value) {
    match v
    case Str(s) => s != ""
    case Oid(_) => true
    case SlugObj(_) => true
    case Null => false
    case Scalar(_, t) => t
    case List(items) => |items| > 0
    case Dict(fields) => |fields| > 0
  }

  /** `str(v)`; containers print their elements with `repr`. String
      escapes inside containers are not modelled. */
  function Show(v: Value): string
    decreases v, 1
  {
    match v
    case Str(s) => s
    case Oid(id) => id
    case SlugObj(slug) => slug.value
    case Null => "None"
    case Scalar(r, _) => r
    case List(items) => "[" + ReprItems(items) + "]"
    case Dict(fields) => "{" + ReprFields(fields) + "}"
  }

  function Repr(v: Value): string
    decreases v, 2
  {
    match v
    case Str(s) => "'" + s + "'"
    case Oid(id) => "ObjectId('" + id + "')"
    case SlugObj(slug) => "Slug(value='" + slug.value + "')"
    case _ => Show(v)
  }

  function ReprItems(items: seq<Value>): string
    decreases items
  {
    if |items| == 0 then ""
    else if |items| == 1 then Repr(items[0])
    else Repr(items[0]) + ", " + ReprItems(items[1..])
  }

  function ReprFields(fields: seq<Field>): string
    decreases fields
  {
    if |fields| == 0 then ""
    else
      var entry := "'" + fields[0].key + "': " + Repr(fields[0].val);
      if |fields| == 1 then entry else entry + ", " + ReprFields(fields[1..])
  }

  /** Printing a string gives the string itself. */
  lemma ShowStr(s: string)
    ensures Show(Str(s)) == s
  {
  }

  // ---------------------------------------------------------------------
  // Dict operations
  // ---------------------------------------------------------------------

  function IndexOf(fields: seq<Field>, k: string): (i: nat)
    ensures i <= |fields|
    ensures i < |fields| ==> fields[i].key == k
    ensures forall j :: 0 <= j < i ==> fields[j].key != k
  {
    if |fields| == 0 then 0 else if fields[0].key == k then 0 else 1 + IndexOf(fields[1..], k)
  }

  predicate Has(fields: seq<Field>, k: string) {
    exists j :: 0 <= j < |fields| && fields[j].key == k
  }

  /** `d.get(k)`. */
  function Get(fields: seq<Field>, k: string): (r: Option<Value>)
    ensures r.Some? <==> Has(fields, k)
  {
    var i := IndexOf(fields, k);
    if i < |fields| then Some(fields[i].val) else None
  }

  lemma GetCons(x: Field, rest: seq<Field>, k: string)
    ensures Get([x] + rest, k) == if x.key == k then Some(x.val) else Get(rest, k)
  {
    assert ([x] + rest)[1..] == rest;
  }

  lemma {:induction false} GetAppend(fields: seq<Field>, x: Field, k: string)
    ensures Get(fields + [x], k) == if Has(fields, k) then Get(fields, k) else if x.key == k then Some(x.val) else None
  {
    if |fields| == 0 {
      assert fields + [x] == [x] + [];
      GetCons(x, [], k);
    } else {
      assert fields + [x] == [fields[0]] + (fields[1..] + [x]);
      assert fields == [fields[0]] + fields[1..];
      GetCons(fields[0], fields[1..] + [x], k);
      GetCons(fields[0], fields[1..], k);
      GetAppend(fields[1..], x, k);
    }
  }

  lemma IndexOfSameKeys(a: seq<Field>, b: seq<Field>, k: string)
    requires |a| == |b| && forall j :: 0 <= j < |a| ==> a[j].key == b[j].key
    ensures IndexOf(a, k) == IndexOf(b, k)
  {
  }

  /** `d[k] = v`: in place for an existing key, appended otherwise. */
  function Put(fields: seq<Field>, k: string, v: Value): (r: seq<Field>)
    ensures Get(r, k) == Some(v)
    ensures forall k' :: k' != k ==> Get(r, k') == Get(fields, k')
    ensures Has(fields, k) ==> |r| == |fields|
  {
    PutFacts(fields, k, v);
    var i := IndexOf(fields, k);
    if i < |fields| then fields[i := Field(k, v)] else fields + [Field(k, v)]
  }

  lemma PutFacts(fields: seq<Field>, k: string, v: Value)
    ensures var i := IndexOf(fields, k);
            var r := if i < |fields| then fields[i := Field(k, v)] else fields + [Field(k, v)];
            Get(r, k) == Some(v) && forall k' :: k' != k ==> Get(r, k') == Get(fields, k')
  {
    var i := IndexOf(fields, k);
    if i < |fields| {
      var r := fields[i := Field(k, v)];
      forall k' ensures IndexOf(r, k') == IndexOf(fields, k') {
        IndexOfSameKeys(fields, r, k');
      }
    } else {
      forall k' ensures Get(fields + [Field(k, v)], k') == if Has(fields, k') then Get(fields, k') else if k == k' then Some(v) else None {
        GetAppend(fields, Field(k, v), k');
      }
    }
  }

  /** Writing back the value a key already holds changes nothing. */
  lemma PutSame(fields: seq<Field>, k: string, v: Value)
    requires Get(fields, k) == Some(v)
    ensures Put(fields, k, v) == fields
  {
    var i := IndexOf(fields, k);
    assert fields[i] == Field(k, v);
  }

  /** `d.pop(k, None)`: every entry with that key goes. */
  function Remove(fields: seq<Field>, k: string): (r: seq<Field>)
    ensures |r| <= |fields|
  {
    if |fields| == 0 then []
    else if fields[0].key == k then Remove(fields[1..], k)
    else [fields[0]] + Remove(fields[1..], k)
  }

  lemma {:induction false} RemoveFacts(fields: seq<Field>, k: string)
    ensures !Has(Remove(fields, k), k)
    ensures forall k' :: k' != k ==> Get(Remove(fields, k), k') == Get(fields, k')
    ensures !Has(fields, k) ==> Remove(fields, k) == fields
  {
    if |fields| > 0 {
      RemoveFacts(fields[1..], k);
      var rest := Remove(fields[1..], k);
      assert fields == [fields[0]] + fields[1..];
      forall k' ensures Get(fields, k') == if fields[0].key == k' then Some(fields[0].val) else Get(fields[1..], k') {
        GetCons(fields[0], fields[1..], k');
      }
      if fields[0].key != k {
        forall k' ensures Get([fields[0]] + rest, k') == if fields[0].key == k' then Some(fields[0].val) else Get(rest, k') {
          GetCons(fields[0], rest, k');
        }
        assert !Has([fields[0]] + rest, k) by {
          GetCons(fields[0], rest, k);
        }
        if !Has(fields, k) {
          assert forall j :: 0 <= j < |fields[1..]| ==> fields[1..][j] == fields[j + 1];
        }
      }
    }
  }

  // ---------------------------------------------------------------------
  // TagInput
  // ---------------------------------------------------------------------

  const TagInputMessage := "Either 'id' or 'name' must be provided for a tag"

  /** `values.get(k)`, with `None` for a missing key. */
  function Lookup(fields: seq<Field>, k: string): Value {
    Get(fields, k).GetOr(Null)
  }

  /** `TagInput.validate_tag_input`: a dict needs a truthy `id` or a truthy
      `name`; anything else passes through. */
  function ValidateTagInput(v: Value): (r: Result<Value, Error>)
    ensures r.Err? <==> v.Dict? && !Truthy(Lookup(v.fields, "id")) && !Truthy(Lookup(v.fields, "name"))
    ensures r.Err? ==> r.error == ValueError(TagInputMessage)
    ensures r.Ok? ==> r.value == v
  {
    if v.Dict? && !Truthy(Lookup(v.fields, "id")) && !Truthy(Lookup(v.fields, "name")) then Err(ValueError(TagInputMessage))
    else Ok(v)
  }

  /** Missing, null and empty values count alike as absent. */
  lemma TagInputRejections()
    ensures ValidateTagInput(Dict([])).Err?
    ensures ValidateTagInput(Dict([Field("id", Null), Field("name", Str(""))])).Err?
    ensures ValidateTagInput(Dict([Field("name", Str("go"))])).Ok?
    ensures ValidateTagInput(Str("go")) == Ok(Str("go"))
  {
    var both: seq<Field> := [Field("id", Null), Field("name", Str(""))];
    assert IndexOf(both, "id") == 0;
    assert IndexOf(both, "name") == 1 by { assert IndexOf(both[1..], "name") == 0; }
    var named: seq<Field> := [Field("name", Str("go"))];
    assert IndexOf(named, "name") == 0;
  }

  // ---------------------------------------------------------------------
  // PostResponse
  // ---------------------------------------------------------------------

  function Stringified(v: Value): Value {
    Str(Show(v))
  }

  /** Replace an ObjectId under `k` by its string form. */
  function IdToString(fields: seq<Field>, k: string): (r: seq<Field>)
    ensures Get(fields, k).Some? && Get(fields, k).value.Oid? ==> Get(r, k) == Some(Str(Get(fields, k).value.id))
    ensures !(Get(fields, k).Some? && Get(fields, k).value.Oid?) ==> r == fields
    ensures forall k' :: k' != k ==> Get(r, k') == Get(fields, k')
    ensures |r| == |fields|
  {
    var g := Get(fields, k);
    if g.Some? && g.value.Oid? then Put(fields, k, Str(g.value.id)) else fields
  }

  /** `sub` occurs in `s`, as Python's `sub in s` on strings. */
  predicate Occurs(sub: string, s: string)
    decreases |s|
  {
    |sub| <= |s| && (s[..|sub|] == sub || Occurs(sub, s[1..]))
  }

  /** `'_id' in cat and ... cat['_id']`, then the same for `parent_id`, on
      a category that is not a dict. A string holding "_id" (which
      "parent_id" also holds) or a list holding either key as an element
      is then indexed by a string; an ObjectId, a slug object or another
      scalar supports no `in` at all. Each raises TypeError. */
  predicate CategoryRaises(cat: Value) {
    match cat
    case Str(s) => Occurs("_id", s)
    case Oid(_) => true
    case SlugObj(_) => true
    case Scalar(_, _) => true
    case List(items) => Str("_id") in items || Str("parent_id") in items
    case _ => false
  }

  /** The category's `_id` and `parent_id`, when ObjectIds, become strings.
      A non-dict category is left as it is, unless the key tests raise. */
  function ConvertCategory(cat: Value): (r: Result<Value, Error>)
    ensures r.Err? <==> !cat.Dict? && CategoryRaises(cat)
    ensures r.Err? ==> r.error == TypeError
    ensures !cat.Dict? && r.Ok? ==> r.value == cat
    ensures cat.Dict? ==> r.Ok? && r.value.Dict? && |r.value.fields| == |cat.fields|
    ensures cat.Dict? ==> forall k :: k in {"_id", "parent_id"} && Get(r.value.fields, k).Some? ==> !Get(r.value.fields, k).value.Oid?
  {
    if cat.Dict? then Ok(Dict(IdToString(IdToString(cat.fields, "_id"), "parent_id")))
    else if CategoryRaises(cat) then Err(TypeError)
    else Ok(cat)
  }

  /** An occurrence at any offset counts. */
  lemma {:induction false} OccursAt(sub: string, s: string, i: nat)
    requires i + |sub| <= |s| && s[i..i + |sub|] == sub
    ensures Occurs(sub, s)
  {
    if i > 0 {
      assert s[1..][i - 1..i - 1 + |sub|] == s[i..i + |sub|];
      OccursAt(sub, s[1..], i - 1);
    } else {
      assert s[..|sub|] == s[i..i + |sub|];
    }
  }

  lemma NewsHasNoId()
    ensures !Occurs("_id", "news")
  {
    var n := "news";
    assert n[..3][0] == 'n';
    assert n[1..][..3][0] == 'e';
    assert |n[1..][1..]| < 3;
  }

  /** A category given as a name, or as a list of names, passes as it is. */
  lemma NamedCategoryPasses()
    ensures ConvertCategory(Str("news")) == Ok(Str("news"))
    ensures ConvertCategory(List([Str("news")])) == Ok(List([Str("news")]))
  {
    NewsHasNoId();
  }

  /** A string holding "_id", here "parent_id", is indexed by a string and
      raises. */
  lemma IdStringCategoryRaises()
    ensures ConvertCategory(Str("parent_id")) == Err(TypeError)
  {
    var p := "parent_id";
    assert p[6..9] == "_id" by {
      assert p[6..9][0] == '_' && p[6..9][1] == 'i' && p[6..9][2] == 'd';
    }
    OccursAt("_id", p, 6);
  }

  /** A truthy number and a list holding the key raise. */
  lemma ScalarAndKeyListCategoryRaise()
    ensures ConvertCategory(Scalar("3", true)) == Err(TypeError)
    ensures ConvertCategory(List([Str("_id")])) == Err(TypeError)
  {
  }



  /** A dict tag's ObjectId `_id` and non-string `slug` become strings. */
  function ConvertTag(t: Value): (r: Value)
    ensures !t.Dict? ==> r == t
    ensures t.Dict? ==> r.Dict?
    ensures t.Dict? && Get(r.fields, "_id").Some? ==> !Get(r.fields, "_id").value.Oid?
    ensures t.Dict? && Get(r.fields, "slug").Some? ==> Get(r.fields, "slug").value.Str?
  {
    if t.Dict? then
      var f := IdToString(t.fields, "_id");
      var g := Get(f, "slug");
      Dict(if g.Some? && !g.value.Str? then Put(f, "slug", Stringified(g.value)) else f)
    else t
  }

  function ConvertTags(tags: seq<Value>): (r: seq<Value>)
    ensures |r| == |tags|
    ensures forall i :: 0 <= i < |tags| ==> r[i] == ConvertTag(tags[i])
  {
    if |tags| == 0 then [] else [ConvertTag(tags[0])] + ConvertTags(tags[1..])
  }

  /** Steps of the clean-up on a dict, in source order; each touches one
      key only. */
  function StepId(f: seq<Field>): (r: seq<Field>)
    ensures Has(f, "_id") ==> Get(r, "_id") == Some(Stringified(Get(f, "_id").value))
    ensures !Has(f, "_id") ==> r == f
    ensures forall k :: k != "_id" ==> Get(r, k) == Get(f, k)
  {
    if Has(f, "_id") then Put(f, "_id", Stringified(Get(f, "_id").value)) else f
  }

  function StepSlug(f: seq<Field>): (r: seq<Field>)
    ensures Has(f, "slug") ==> Get(r, "slug") == Some(Str(Show(Get(f, "slug").value)))
    ensures forall k :: k != "slug" ==> Get(r, k) == Get(f, k)
  {
    if Has(f, "slug") && Get(f, "slug").value.Str? then ShowStr(Get(f, "slug").value.s); f
    else if Has(f, "slug") then Put(f, "slug", Stringified(Get(f, "slug").value))
    else f
  }

  /** The category step fails exactly when a truthy category's key tests
      raise. */
  predicate CategoryFails(f: seq<Field>) {
    Has(f, "category") && Truthy(Get(f, "category").value) && ConvertCategory(Get(f, "category").value).Err?
  }

  function StepCategory(f: seq<Field>): (r: Result<seq<Field>, Error>)
    ensures r.Err? <==> CategoryFails(f)
    ensures r.Err? ==> r.error == TypeError
    ensures Has(f, "category") && Truthy(Get(f, "category").value) && r.Ok? ==>
              Get(r.value, "category") == Some(ConvertCategory(Get(f, "category").value).value)
    ensures !(Has(f, "category") && Truthy(Get(f, "category").value)) ==> r == Ok(f)
    ensures r.Ok? ==> forall k :: k != "category" ==> Get(r.value, k) == Get(f, k)
  {
    if Has(f, "category") && Truthy(Get(f, "category").value) then
      var c :- ConvertCategory(Get(f, "category").value);
      Ok(Put(f, "category", c))
    else Ok(f)
  }

  function StepTags(f: seq<Field>): (r: seq<Field>)
    ensures Has(f, "tags") && Truthy(Get(f, "tags").value) && Get(f, "tags").value.List? ==>
              Get(r, "tags") == Some(List(ConvertTags(Get(f, "tags").value.items)))
    ensures !(Has(f, "tags") && Truthy(Get(f, "tags").value) && Get(f, "tags").value.List?) ==> r == f
    ensures forall k :: k != "tags" ==> Get(r, k) == Get(f, k)
  {
    if Has(f, "tags") && Truthy(Get(f, "tags").value) && Get(f, "tags").value.List? then
      Put(f, "tags", List(ConvertTags(Get(f, "tags").value.items)))
    else f
  }

  function DropDenormalised(f: seq<Field>): (r: seq<Field>)
    ensures !Has(r, "tag_ids") && !Has(r, "tag_names") && !Has(r, "tag_slugs")
    ensures forall k :: k !in {"tag_ids", "tag_names", "tag_slugs"} ==> Get(r, k) == Get(f, k)
  {
    var a := Remove(f, "tag_ids");
    RemoveFacts(f, "tag_ids");
    var b := Remove(a, "tag_names");
    RemoveFacts(a, "tag_names");
    RemoveFacts(b, "tag_slugs");
    var r := Remove(b, "tag_slugs");
    assert Get(r, "tag_ids") == Get(b, "tag_ids") == Get(a, "tag_ids") == None;
    assert Get(r, "tag_names") == Get(b, "tag_names") == None;
    r
  }

  /** The keys the clean-up looks at. */
  predicate Touched(k: string) {
    k in {"_id", "slug", "category", "tags", "tag_ids", "tag_names", "tag_slugs"}
  }

  /** `PostResponse.convert_objectid`. The TypeError of the category's key
      tests escapes the validator. */
  function ConvertResponse(v: Value): (r: Result<Value, Error>)
    ensures !v.Dict? ==> r == Ok(v)
    ensures v.Dict? ==> (r.Err? <==> CategoryFails(v.fields))
    ensures r.Err? ==> r.error == TypeError
    ensures v.Dict? && r.Ok? ==> r.value.Dict?
    ensures v.Dict? && r.Ok? ==> !Has(r.value.fields, "tag_ids") && !Has(r.value.fields, "tag_names") && !Has(r.value.fields, "tag_slugs")
    ensures v.Dict? && r.Ok? && Has(v.fields, "_id") ==> Get(r.value.fields, "_id") == Some(Stringified(Get(v.fields, "_id").value))
    ensures v.Dict? && r.Ok? && Has(v.fields, "slug") ==> Get(r.value.fields, "slug").Some? && Get(r.value.fields, "slug").value.Str?
    ensures v.Dict? && r.Ok? && Has(v.fields, "slug") ==> Get(r.value.fields, "slug").value.s == Show(Get(v.fields, "slug").value)
    ensures v.Dict? && r.Ok? ==> forall k :: !Touched(k) ==> Get(r.value.fields, k) == Get(v.fields, k)
  {
    if v.Dict? then
      var f := v.fields;
      var f2 := StepSlug(StepId(f));
      assert Get(f2, "category") == Get(f, "category");
      var f3 :- StepCategory(f2);
      Ok(Dict(DropDenormalised(StepTags(f3))))
    else Ok(v)
  }

  /** Every dict tag of the response has a string `_id`, if any, and a
      string slug, if any. */
  lemma ResponseTagsStringified(v: Value)
    requires v.Dict? && Has(v.fields, "tags") && Truthy(Get(v.fields, "tags").value) && Get(v.fields, "tags").value.List?
    requires ConvertResponse(v).Ok?
    ensures var t := Get(ConvertResponse(v).value.fields, "tags");
            && t == Some(List(ConvertTags(Get(v.fields, "tags").value.items)))
            && forall i :: 0 <= i < |t.value.items| && t.value.items[i].Dict? ==>
                 (Get(t.value.items[i].fields, "_id").Some? ==> !Get(t.value.items[i].fields, "_id").value.Oid?)
                 && (Get(t.value.items[i].fields, "slug").Some? ==> Get(t.value.items[i].fields, "slug").value.Str?)
  {
    var f := v.fields;
    assert Get(StepCategory(StepSlug(StepId(f))).value, "tags") == Get(f, "tags");
  }

  /** A truthy dict category comes out with no ObjectId `_id` or
      `parent_id`. */
  lemma ResponseCategoryStringified(v: Value)
    requires v.Dict? && Has(v.fields, "category") && Get(v.fields, "category").value.Dict? && Truthy(Get(v.fields, "category").value)
    ensures ConvertResponse(v).Ok?
    ensures var c := Get(ConvertResponse(v).value.fields, "category");
            && c == Some(ConvertCategory(Get(v.fields, "category").value).value)
            && forall k :: k in {"_id", "parent_id"} && Get(c.value.fields, k).Some? ==> !Get(c.value.fields, k).value.Oid?
  {
    var f := v.fields;
    assert Get(StepSlug(StepId(f)), "category") == Get(f, "category");
  }

  lemma ConvertCategoryIdempotent(c: Value)
    ensures ConvertCategory(c).Ok? ==> ConvertCategory(ConvertCategory(c).value) == ConvertCategory(c)
  {
  }

  lemma ConvertTagIdempotent(t: Value)
    ensures ConvertTag(ConvertTag(t)) == ConvertTag(t)
  {
    if t.Dict? {
      var r := ConvertTag(t);
      assert IdToString(r.fields, "_id") == r.fields;
    }
  }

  lemma ConvertTagsIdempotent(tags: seq<Value>)
    ensures ConvertTags(ConvertTags(tags)) == ConvertTags(tags)
  {
    forall i | 0 <= i < |tags| ensures ConvertTags(ConvertTags(tags))[i] == ConvertTags(tags)[i] {
      ConvertTagIdempotent(tags[i]);
    }
  }

  lemma StepIdIdle(g: seq<Field>)
    requires Has(g, "_id") ==> Get(g, "_id").value.Str?
    ensures StepId(g) == g
  {
    if Has(g, "_id") {
      var x := Get(g, "_id").value;
      ShowStr(x.s);
      PutSame(g, "_id", x);
    }
  }

  lemma StepCategoryIdle(g: seq<Field>)
    requires Has(g, "category") && Truthy(Get(g, "category").value) ==> ConvertCategory(Get(g, "category").value) == Ok(Get(g, "category").value)
    ensures StepCategory(g) == Ok(g)
  {
    if Has(g, "category") && Truthy(Get(g, "category").value) {
      PutSame(g, "category", Get(g, "category").value);
    }
  }

  lemma StepTagsIdle(g: seq<Field>)
    requires Has(g, "tags") && Truthy(Get(g, "tags").value) && Get(g, "tags").value.List? ==>
               ConvertTags(Get(g, "tags").value.items) == Get(g, "tags").value.items
    ensures StepTags(g) == g
  {
    if Has(g, "tags") && Truthy(Get(g, "tags").value) && Get(g, "tags").value.List? {
      PutSame(g, "tags", Get(g, "tags").value);
    }
  }

  /** A converted category or tag list is truthy again only if it was
      before, and converting it once more changes nothing. */
  lemma CategoryAfterStep(f2: seq<Field>)
    requires StepCategory(f2).Ok?
    ensures var c := Get(StepCategory(f2).value, "category");
            c.Some? && Truthy(c.value) ==> ConvertCategory(c.value) == Ok(c.value)
  {
    if Has(f2, "category") && Truthy(Get(f2, "category").value) {
      ConvertCategoryIdempotent(Get(f2, "category").value);
    }
  }

  lemma TagsAfterStep(f3: seq<Field>)
    ensures var t := Get(StepTags(f3), "tags");
            t.Some? && Truthy(t.value) && t.value.List? ==> ConvertTags(t.value.items) == t.value.items
  {
    if Has(f3, "tags") && Truthy(Get(f3, "tags").value) && Get(f3, "tags").value.List? {
      ConvertTagsIdempotent(Get(f3, "tags").value.items);
    }
  }

  /** The clean-up is idempotent: a cleaned document is left as it is. */
  lemma ConvertResponseIdempotent(v: Value)
    ensures ConvertResponse(v).Ok? ==> ConvertResponse(ConvertResponse(v).value) == ConvertResponse(v)
  {
    if v.Dict? && ConvertResponse(v).Ok? {
      ConvertedIsCleaned(v);
      CleanedIdle(ConvertResponse(v).value.fields);
    }
  }

  lemma ConvertedIsCleaned(v: Value)
    requires v.Dict? && ConvertResponse(v).Ok?
    ensures Cleaned(ConvertResponse(v).value.fields)
  {
    var f1 := StepId(v.fields);
    var f2 := StepSlug(f1);
    var f3 := StepCategory(f2).value;
    var f4 := StepTags(f3);
    var g := ConvertResponse(v).value.fields;
    assert g == DropDenormalised(f4);
    assert Get(g, "_id") == Get(f4, "_id") == Get(f3, "_id") == Get(f2, "_id") == Get(f1, "_id");
    ConvertedCategoryIdle(v);
    ConvertedTagsIdle(v);
  }

  lemma ConvertedCategoryIdle(v: Value)
    requires v.Dict? && ConvertResponse(v).Ok?
    ensures var g := ConvertResponse(v).value.fields;
            Has(g, "category") && Truthy(Get(g, "category").value) ==> ConvertCategory(Get(g, "category").value) == Ok(Get(g, "category").value)
  {
    var f2 := StepSlug(StepId(v.fields));
    var f3 := StepCategory(f2).value;
    var f4 := StepTags(f3);
    assert ConvertResponse(v).value.fields == DropDenormalised(f4);
    assert Get(f4, "category") == Get(f3, "category");
    CategoryAfterStep(f2);
  }

  lemma ConvertedTagsIdle(v: Value)
    requires v.Dict? && ConvertResponse(v).Ok?
    ensures var g := ConvertResponse(v).value.fields;
            Has(g, "tags") && Truthy(Get(g, "tags").value) && Get(g, "tags").value.List? ==>
              ConvertTags(Get(g, "tags").value.items) == Get(g, "tags").value.items
  {
    var f3 := StepCategory(StepSlug(StepId(v.fields))).value;
    var f4 := StepTags(f3);
    assert ConvertResponse(v).value.fields == DropDenormalised(f4);
    TagsAfterStep(f3);
  }

  /** A dict the clean-up has nothing left to do on. */
  predicate Cleaned(g: seq<Field>) {
    && (Has(g, "_id") ==> Get(g, "_id").value.Str?)
    && (Has(g, "slug") ==> Get(g, "slug").value.Str?)
    && (Has(g, "category") && Truthy(Get(g, "category").value) ==> ConvertCategory(Get(g, "category").value) == Ok(Get(g, "category").value))
    && (Has(g, "tags") && Truthy(Get(g, "tags").value) && Get(g, "tags").value.List? ==>
          ConvertTags(Get(g, "tags").value.items) == Get(g, "tags").value.items)
    && !Has(g, "tag_ids") && !Has(g, "tag_names") && !Has(g, "tag_slugs")
  }

  lemma CleanedIdle(g: seq<Field>)
    requires Cleaned(g)
    ensures ConvertResponse(Dict(g)) == Ok(Dict(g))
  {
    StepIdIdle(g);
    assert StepSlug(g) == g;
    StepCategoryIdle(g);
    StepTagsIdle(g);
    RemoveFacts(g, "tag_ids");
    RemoveFacts(g, "tag_names");
    RemoveFacts(g, "tag_slugs");
  }

  /** `PostResponse.validate_slug`: a string slug must be a valid slug and is
      wrapped; any other value passes. */
  function ValidateSlug(v: Value): (r: Result<Value, Error>)
    ensures v.Str? ==> (r.Ok? <==> Slugs.IsValidSlug(v.s))
    ensures v.Str? && r.Ok? ==> r.value.SlugObj? && Slugs.ToString(r.value.slug) == v.s
    ensures v.Str? && r.Err? ==> r.error == ValueError("Invalid slug: " + v.s)
    ensures !v.Str? ==> r == Ok(v)
  {
    if v.Str? then
      var slug :- Slugs.NewSlug(v.s);
      Ok(SlugObj(slug))
    else Ok(v)
  }

  /** The clean-up followed by the slug check. The remaining field checks of
      the response model are not modelled. */
  function PostResponse(v: Value): (r: Result<Value, Error>)
    ensures v.Dict? && CategoryFails(v.fields) ==> r == Err(TypeError)
    ensures v.Dict? && !CategoryFails(v.fields) && Has(v.fields, "slug") ==>
              (r.Ok? <==> Slugs.IsValidSlug(Show(Get(v.fields, "slug").value)))
    ensures r.Ok? && v.Dict? ==> r.value.Dict? && !Has(r.value.fields, "tag_ids") && !Has(r.value.fields, "tag_names") && !Has(r.value.fields, "tag_slugs")
  {
    var c :- ConvertResponse(v);
    if c.Dict? && Has(c.fields, "slug") then
      var slug :- ValidateSlug(Get(c.fields, "slug").value);
      PutKeepsTagListsHidden(c.fields, "slug", slug);
      Ok(Dict(Put(c.fields, "slug", slug)))
    else Ok(c)
  }

  /** Writing the slug back brings none of the hidden tag lists back. */
  lemma PutKeepsTagListsHidden(f: seq<Field>, k: string, x: Value)
    requires k !in {"tag_ids", "tag_names", "tag_slugs"}
    requires !Has(f, "tag_ids") && !Has(f, "tag_names") && !Has(f, "tag_slugs")
    ensures var r := Put(f, k, x); !Has(r, "tag_ids") && !Has(r, "tag_names") && !Has(r, "tag_slugs")
  {
    var r := Put(f, k, x);
    assert Get(r, "tag_ids") == Get(f, "tag_ids");
    assert Get(r, "tag_names") == Get(f, "tag_names");
    assert Get(r, "tag_slugs") == Get(f, "tag_slugs");
  }
}
