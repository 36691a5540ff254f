/** The tag service: slug derivation and the conflict checks in front of
    the tag repository. */
module TagService {
  import opened Wrappers
  import opened Ids
  import Text
  import Slugs
  import Store
  import opened Tags

  /** `name.lower().replace(" ", "-")`. */
  function DefaultSlug(name: string): (s: string)
    ensures |s| == |name|
    ensures forall i :: 0 <= i < |name| ==> s[i] == if name[i] == ' ' then '-' else Text.LowerChar(name[i])
  {
    Text.ReplaceChar(Text.Lower(name), ' ', '-')
  }

  function ConflictMessage(slug: string): string {
    "Tag with slug '" + slug + "' already exists"
  }

  /** `create_tag`: an absent or empty slug is derived from the name; a slug
      a live tag already holds is refused before the slug is validated; the
      new tag starts with no uses. */
  function CreateTag(store: seq<Tag>, freshId: ObjectId, now: int, name: string, description: Option<string>,
                     slugStr: Option<string>): (r: Result<(seq<Tag>, Tag), Error>)
    ensures var slug := if slugStr.None? || slugStr.value == "" then DefaultSlug(name) else slugStr.value;
      && (GetBySlug(store, slug).Some? ==> r == Err(ValueError(ConflictMessage(slug))))
      && (GetBySlug(store, slug).None? && !Slugs.IsValidSlug(slug) ==> r == Err(ValueError("Invalid slug: " + slug)))
      && (r.Ok? <==> GetBySlug(store, slug).None? && Slugs.IsValidSlug(slug))
      && (r.Ok? ==>
            && r.value.1 == Tag(freshId, name, slug, description, 0, now, now, None)
            && r.value.0 == Tags.CreateTag(store, r.value.1).0)
  {
    var slug := if slugStr.None? || slugStr.value == "" then DefaultSlug(name) else slugStr.value;
    if GetBySlug(store, slug).Some? then Err(ValueError(ConflictMessage(slug)))
    else
      var s :- Slugs.NewSlug(slug);
      var created := Tags.CreateTag(store, Tag(freshId, name, Slugs.ToString(s), description, 0, now, now, None));
      Ok(created)
  }

  /** The creation check sees live tags only: a soft-deleted tag's slug can
      be taken again. */
  lemma DeletedSlugReusable(store: seq<Tag>, freshId: ObjectId, now: int)
    requires forall i :: 0 <= i < |store| ==> !IsLive(store[i])
    ensures CreateTag(store, freshId, now, "go", None, None).Ok?
  {
    assert DefaultSlug("go") == "go";
    assert Slugs.SlugBody("go");
  }

  /** `update_tag`. A given slug is refused when a live tag holds it whose
      id, as a string, differs from `tagId`; it is then validated; the tag id
      is parsed last, by the repository. */
  function UpdateTag(store: seq<Tag>, tagId: string, now: int, name: Option<string>, description: Option<string>,
                     slugStr: Option<string>): (r: Result<(seq<Tag>, Option<Tag>), Error>)
    ensures slugStr.Some? && GetBySlug(store, slugStr.value).Some? && GetBySlug(store, slugStr.value).value.id != tagId ==>
              r == Err(ValueError(ConflictMessage(slugStr.value)))
    ensures slugStr.Some? && (GetBySlug(store, slugStr.value).None? || GetBySlug(store, slugStr.value).value.id == tagId)
            && !Slugs.IsValidSlug(slugStr.value) ==>
              r == Err(ValueError("Invalid slug: " + slugStr.value))
    ensures slugStr.None? || ((GetBySlug(store, slugStr.value).None? || GetBySlug(store, slugStr.value).value.id == tagId)
                              && Slugs.IsValidSlug(slugStr.value)) ==>
              r == Tags.UpdateTag(store, tagId, TagPatch(name, description, slugStr, now))
  {
    var slug :- if slugStr.None? then Ok(None) else
      var existing := GetBySlug(store, slugStr.value);
      if existing.Some? && existing.value.id != tagId then Err(ValueError(ConflictMessage(slugStr.value)))
      else
        var s :- Slugs.NewSlug(slugStr.value);
        Ok(Some(Slugs.ToString(s)));
    Tags.UpdateTag(store, tagId, TagPatch(name, description, slug, now))
  }

  /** A tag may be given its own slug again. */
  lemma OwnSlugAccepted(store: seq<Tag>, k: nat, now: int)
    requires k < |store| && IsLive(store[k]) && Slugs.IsValidSlug(store[k].slug)
    requires forall i :: 0 <= i < |store| && i != k ==> store[i].slug != store[k].slug
    ensures UpdateTag(store, store[k].id, now, None, None, Some(store[k].slug)).Ok?
  {
    var t := store[k];
    ParsePrintedId(t.id);
    Store.FindFirstAt(store, LiveWithSlug(t.slug), k);
  }

  /** The comparison is between strings, and stored ids print in lower case:
      a tag addressed by its id in upper case conflicts with its own slug,
      although the repository would parse that id to the same tag. */
  lemma UpperCaseIdConflictsWithItself()
    ensures ParseObjectId(UpperIdA) == Ok(TagIdA)
    ensures UpdateTag([GoTag], UpperIdA, 1, None, None, Some("go")) == Err(ValueError(ConflictMessage("go")))
  {
    UpperIdParses();
    Store.FindFirstAt([GoTag], LiveWithSlug("go"), 0);
    assert GetBySlug([GoTag], "go") == Some(GoTag);
    assert TagIdA[0] != UpperIdA[0];
  }

  const UpperIdA: string := "AAAAAAAAAAAAAAAAAAAAAAAA"
  const GoTag: Tag := Tag(TagIdA, "go", "go", None, 0, 0, 0, None)

  lemma UpperIdParses()
    ensures ParseObjectId(UpperIdA) == Ok(TagIdA)
  {
    assert forall i :: 0 <= i < |UpperIdA| ==> UpperIdA[i] == 'A';
    assert forall i :: 0 <= i < |TagIdA| ==> TagIdA[i] == 'a';
    assert Text.Lower(UpperIdA) == TagIdA;
  }

  /** The evidently intended conflict test: the slug's holder is another
      tag unless it is the tag the id parses to. */
  predicate HeldByOther(existing: Tag, tagId: string) {
    !(ParseObjectId(tagId).Ok? && existing.id == ParseObjectId(tagId).value)
  }

  /** `update_tag` with the holder compared as an id rather than as text. */
  function UpdateTagIntended(store: seq<Tag>, tagId: string, now: int, name: Option<string>, description: Option<string>,
                             slugStr: Option<string>): (r: Result<(seq<Tag>, Option<Tag>), Error>)
    ensures slugStr.Some? && GetBySlug(store, slugStr.value).Some? && HeldByOther(GetBySlug(store, slugStr.value).value, tagId) ==>
              r == Err(ValueError(ConflictMessage(slugStr.value)))
    ensures slugStr.None? || ((GetBySlug(store, slugStr.value).None? || !HeldByOther(GetBySlug(store, slugStr.value).value, tagId))
                              && Slugs.IsValidSlug(slugStr.value)) ==>
              r == Tags.UpdateTag(store, tagId, TagPatch(name, description, slugStr, now))
  {
    var slug :- if slugStr.None? then Ok(None) else
      var existing := GetBySlug(store, slugStr.value);
      if existing.Some? && HeldByOther(existing.value, tagId) then Err(ValueError(ConflictMessage(slugStr.value)))
      else
        var s :- Slugs.NewSlug(slugStr.value);
        Ok(Some(Slugs.ToString(s)));
    Tags.UpdateTag(store, tagId, TagPatch(name, description, slug, now))
  }

  /** Under the intended test a tag keeps its own slug however its id is
      spelled. */
  lemma OwnSlugAcceptedAnySpelling(store: seq<Tag>, k: nat, tagId: string, now: int)
    requires k < |store| && IsLive(store[k]) && Slugs.IsValidSlug(store[k].slug)
    requires forall i :: 0 <= i < |store| && i != k ==> store[i].slug != store[k].slug
    requires ParseObjectId(tagId) == Ok(store[k].id)
    ensures UpdateTagIntended(store, tagId, now, None, None, Some(store[k].slug)).Ok?
  {
    Store.FindFirstAt(store, LiveWithSlug(store[k].slug), k);
  }

  /** The upper-case spelling that the written test refuses is accepted. */
  lemma UpperCaseIdKeepsOwnSlug()
    ensures UpdateTagIntended([GoTag], UpperIdA, 1, None, None, Some("go")).Ok?
  {
    UpperIdParses();
    assert Slugs.IsValidSlug("go");
    OwnSlugAcceptedAnySpelling([GoTag], 0, UpperIdA, 1);
  }

  /** The intended test agrees with the written one whenever the id is
      given in the printed, lower-case form. */
  lemma IntendedAgreesOnPrintedIds(store: seq<Tag>, id: ObjectId, now: int, name: Option<string>,
                                   description: Option<string>, slugStr: Option<string>)
    ensures UpdateTagIntended(store, id, now, name, description, slugStr) == UpdateTag(store, id, now, name, description, slugStr)
  {
    ParsePrintedId(id);
  }

  // ---------------------------------------------------------------------
  // find_or_create_tags
  // ---------------------------------------------------------------------

  /** `not tag_name or not tag_name.strip()`. */
  predicate Skipped(name: Option<string>) {
    name.None? || Text.Strip(name.value) == ""
  }

  /** Non-empty, with no white space at either end. */
  predicate StrippedName(x: string) {
    x != [] && !Text.IsSpace(x[0]) && !Text.IsSpace(x[|x| - 1])
  }

  lemma StrippedIsName(s: string)
    requires Text.Strip(s) != ""
    ensures StrippedName(Text.Strip(s))
  {
  }

  /** The names the loop acts on: stripped, blanks dropped, order kept. */
  function Wanted(names: seq<Option<string>>): (w: seq<string>)
    ensures |w| <= |names|
    ensures (forall i :: 0 <= i < |names| ==> Skipped(names[i])) ==> w == []
  {
    if |names| == 0 then []
    else
      var rest := Wanted(names[1..]);
      assert forall i :: 1 <= i < |names| ==> names[i] == names[1..][i - 1];
      if Skipped(names[0]) then rest
      else [Text.Strip(names[0].value)] + rest
  }

  /** Every name acted on is stripped and not blank. */
  lemma {:induction false} WantedStripped(names: seq<Option<string>>)
    ensures forall k :: 0 <= k < |Wanted(names)| ==> StrippedName(Wanted(names)[k])
  {
    if |names| > 0 {
      WantedStripped(names[1..]);
      if !Skipped(names[0]) {
        StrippedIsName(names[0].value);
      }
    }
  }

  /** Every name that is not skipped is acted on, stripped. */
  lemma {:induction false} WantedKeepsEach(names: seq<Option<string>>)
    ensures forall i :: 0 <= i < |names| && !Skipped(names[i]) ==> Text.Strip(names[i].value) in Wanted(names)
  {
    if |names| > 0 {
      WantedKeepsEach(names[1..]);
      assert forall i :: 1 <= i < |names| ==> names[i] == names[1..][i - 1];
    }
  }

  /** One pass of the loop body for a name that is not skipped: the id of a
      live tag with that name, or a new tag with the derived slug. */
  function FindOrCreateOne(store: seq<Tag>, name: string, freshId: ObjectId, now: int): (r: (seq<Tag>, Result<ObjectId, Error>))
    ensures GetByName(store, name).Some? ==> r == (store, Ok(GetByName(store, name).value.id))
    ensures GetByName(store, name).None? && !Slugs.IsValidSlug(DefaultSlug(name)) ==>
              r == (store, Err(ValueError("Invalid slug: " + DefaultSlug(name))))
    ensures GetByName(store, name).None? && Slugs.IsValidSlug(DefaultSlug(name)) ==>
              r == (Tags.CreateTag(store, Tag(freshId, name, DefaultSlug(name), None, 0, now, now, None)).0, Ok(freshId))
  {
    match GetByName(store, name)
    case Some(existing) => (store, Ok(existing.id))
    case None =>
      match Slugs.NewSlug(DefaultSlug(name))
      case Err(e) => (store, Err(e))
      case Ok(slug) =>
        var created := Tags.CreateTag(store, Tag(freshId, name, Slugs.ToString(slug), None, 0, now, now, None));
        (created.0, Ok(created.1.id))
  }

  /** `find_or_create_tags`. `freshIds[i]` is the id a tag created for
      `names[i]` receives. An invalid derived slug stops the loop; the tags
      created before it stay written. */
  function FindOrCreateTags(store: seq<Tag>, names: seq<Option<string>>, freshIds: seq<ObjectId>, now: int): (r: (seq<Tag>, Result<seq<ObjectId>, Error>))
    requires |freshIds| == |names|
    decreases |names|
  {
    if |names| == 0 then (store, Ok([]))
    else if Skipped(names[0]) then FindOrCreateTags(store, names[1..], freshIds[1..], now)
    else
      var step := FindOrCreateOne(store, Text.Strip(names[0].value), freshIds[0], now);
      match step.1
      case Err(e) => (step.0, Err(e))
      case Ok(id) =>
        var rest := FindOrCreateTags(step.0, names[1..], freshIds[1..], now);
        (rest.0, if rest.1.Err? then rest.1 else Ok([id] + rest.1.value))
  }

  /** The ids the generator hands out are new and distinct. */
  predicate Fresh(store: seq<Tag>, ids: seq<ObjectId>) {
    && (forall i :: 0 <= i < |ids| ==> !HasId(store, ids[i]))
    && (forall i, j :: 0 <= i < j < |ids| ==> ids[i] != ids[j])
  }

  /** A live tag with this id whose name matches `name` up to case. */
  predicate Names(s: seq<Tag>, id: ObjectId, name: string) {
    exists j :: 0 <= j < |s| && s[j].id == id && IsLive(s[j]) && Text.EqualsIgnoreCase(s[j].name, name)
  }

  lemma StepAppends(store: seq<Tag>, name: string, id: ObjectId, now: int)
    requires !HasId(store, id)
    ensures var r := FindOrCreateOne(store, name, id, now);
            r.0 == store || r.0 == store + [Tag(id, name, DefaultSlug(name), None, 0, now, now, None)]
  {
  }

  lemma StepNames(store: seq<Tag>, name: string, id: ObjectId, now: int)
    requires !HasId(store, id)
    ensures var r := FindOrCreateOne(store, name, id, now);
            r.1.Ok? ==> Names(r.0, r.1.value, name)
  {
    var r := FindOrCreateOne(store, name, id, now);
    if r.1.Ok? {
      match GetByName(store, name)
      case Some(t) =>
        var j :| 0 <= j < |store| && store[j] == t;
      case None =>
        assert r.0[|store|].id == id;
    }
  }

  lemma FreshAfterStep(store: seq<Tag>, names: seq<Option<string>>, freshIds: seq<ObjectId>, now: int)
    requires |freshIds| == |names| > 0 && Fresh(store, freshIds) && !Skipped(names[0])
    ensures Fresh(FindOrCreateOne(store, Text.Strip(names[0].value), freshIds[0], now).0, freshIds[1..])
  {
    var s := FindOrCreateOne(store, Text.Strip(names[0].value), freshIds[0], now).0;
    StepAppends(store, Text.Strip(names[0].value), freshIds[0], now);
    forall i | 0 <= i < |freshIds[1..]| ensures !HasId(s, freshIds[1..][i]) {
      assert freshIds[1..][i] == freshIds[i + 1];
      if HasId(s, freshIds[i + 1]) {
        var j :| 0 <= j < |s| && s[j].id == freshIds[i + 1];
        if j < |store| { assert HasId(store, freshIds[i + 1]); }
      }
    }
  }

  /** With fresh ids the loop only appends: every tag present before is still
      there, unchanged and in place. */
  lemma {:induction false} FindOrCreateAppends(store: seq<Tag>, names: seq<Option<string>>, freshIds: seq<ObjectId>, now: int)
    requires |freshIds| == |names| && Fresh(store, freshIds)
    ensures var r := FindOrCreateTags(store, names, freshIds, now);
            |store| <= |r.0| && r.0[..|store|] == store
    decreases |names|, 1
  {
    if |names| > 0 {
      if Skipped(names[0]) {
        AppendsAfterSkip(store, names, freshIds, now);
      } else {
        AppendsAfterStep(store, names, freshIds, now);
      }
    }
  }

  lemma {:induction false} AppendsAfterSkip(store: seq<Tag>, names: seq<Option<string>>, freshIds: seq<ObjectId>, now: int)
    requires |freshIds| == |names| > 0 && Fresh(store, freshIds) && Skipped(names[0])
    ensures var r := FindOrCreateTags(store, names, freshIds, now);
            |store| <= |r.0| && r.0[..|store|] == store
    decreases |names|, 0
  {
    StepSkip(store, names, freshIds, now);
    assert Fresh(store, freshIds[1..]) by {
      assert forall i :: 0 <= i < |freshIds| - 1 ==> freshIds[1..][i] == freshIds[i + 1];
    }
    FindOrCreateAppends(store, names[1..], freshIds[1..], now);
  }

  lemma {:induction false} AppendsAfterStep(store: seq<Tag>, names: seq<Option<string>>, freshIds: seq<ObjectId>, now: int)
    requires |freshIds| == |names| > 0 && Fresh(store, freshIds) && !Skipped(names[0])
    ensures var r := FindOrCreateTags(store, names, freshIds, now);
            |store| <= |r.0| && r.0[..|store|] == store
    decreases |names|, 0
  {
    var step := FindOrCreateOne(store, Text.Strip(names[0].value), freshIds[0], now);
    StepUnfold(store, names, freshIds, now);
    StepAppends(store, Text.Strip(names[0].value), freshIds[0], now);
    assert |store| <= |step.0| && step.0[..|store|] == store;
    if step.1.Ok? {
      FreshAfterStep(store, names, freshIds, now);
      FindOrCreateAppends(step.0, names[1..], freshIds[1..], now);
      var r := FindOrCreateTags(step.0, names[1..], freshIds[1..], now);
      PrefixOfPrefix(store, step.0, r.0);
    }
  }

  lemma PrefixOfPrefix<T>(a: seq<T>, b: seq<T>, c: seq<T>)
    requires |a| <= |b| && b[..|a|] == a
    requires |b| <= |c| && c[..|b|] == b
    ensures |a| <= |c| && c[..|a|] == a
  {
    assert c[..|a|] == c[..|b|][..|a|];
  }

  lemma StepUnfold(store: seq<Tag>, names: seq<Option<string>>, freshIds: seq<ObjectId>, now: int)
    requires |freshIds| == |names| > 0 && !Skipped(names[0])
    ensures var step := FindOrCreateOne(store, Text.Strip(names[0].value), freshIds[0], now);
            var rest := FindOrCreateTags(step.0, names[1..], freshIds[1..], now);
            FindOrCreateTags(store, names, freshIds, now)
            == if step.1.Err? then (step.0, Err(step.1.error))
               else (rest.0, if rest.1.Err? then rest.1 else Ok([step.1.value] + rest.1.value))
  {
  }

  /** One id is returned per wanted name. */
  lemma {:induction false} FindOrCreateCount(store: seq<Tag>, names: seq<Option<string>>, freshIds: seq<ObjectId>, now: int)
    requires |freshIds| == |names|
    ensures var r := FindOrCreateTags(store, names, freshIds, now);
            r.1.Ok? ==> |r.1.value| == |Wanted(names)|
    decreases |names|
  {
    if |names| > 0 {
      if Skipped(names[0]) {
        StepSkip(store, names, freshIds, now);
        FindOrCreateCount(store, names[1..], freshIds[1..], now);
      } else {
        var step := FindOrCreateOne(store, Text.Strip(names[0].value), freshIds[0], now);
        StepUnfold(store, names, freshIds, now);
        FindOrCreateCount(step.0, names[1..], freshIds[1..], now);
        var rest := FindOrCreateTags(step.0, names[1..], freshIds[1..], now);
        assert |Wanted(names)| == 1 + |Wanted(names[1..])|;
        if step.1.Ok? && rest.1.Ok? {
          assert |[step.1.value] + rest.1.value| == 1 + |rest.1.value|;
        }
      }
    }
  }

  lemma StepSkip(store: seq<Tag>, names: seq<Option<string>>, freshIds: seq<ObjectId>, now: int)
    requires |freshIds| == |names| > 0 && Skipped(names[0])
    ensures FindOrCreateTags(store, names, freshIds, now) == FindOrCreateTags(store, names[1..], freshIds[1..], now)
    ensures Wanted(names) == Wanted(names[1..])
  {
  }

  lemma NamesCons(s1: seq<Tag>, end: seq<Tag>, id: ObjectId, rest: seq<ObjectId>, name: string, wanted: seq<string>)
    requires |s1| <= |end| && end[..|s1|] == s1
    requires Names(s1, id, name)
    requires |rest| == |wanted| && forall k :: 0 <= k < |rest| ==> Names(end, rest[k], wanted[k])
    ensures forall k :: 0 <= k < |rest| + 1 ==> Names(end, ([id] + rest)[k], ([name] + wanted)[k])
  {
    var j :| 0 <= j < |s1| && s1[j].id == id && IsLive(s1[j]) && Text.EqualsIgnoreCase(s1[j].name, name);
    assert end[j] == end[..|s1|][j];
    forall k | 0 <= k < |rest| + 1 ensures Names(end, ([id] + rest)[k], ([name] + wanted)[k]) {
      if k > 0 {
        assert ([id] + rest)[k] == rest[k - 1] && ([name] + wanted)[k] == wanted[k - 1];
      }
    }
  }

  /** With fresh ids, the k-th id returned names a live tag matching the k-th
      wanted name up to case. */
  lemma {:induction false} FindOrCreateNames(store: seq<Tag>, names: seq<Option<string>>, freshIds: seq<ObjectId>, now: int)
    requires |freshIds| == |names| && Fresh(store, freshIds)
    ensures var r := FindOrCreateTags(store, names, freshIds, now);
            r.1.Ok? ==> |r.1.value| == |Wanted(names)| && forall k :: 0 <= k < |r.1.value| ==> Names(r.0, r.1.value[k], Wanted(names)[k])
    decreases |names|
  {
    FindOrCreateCount(store, names, freshIds, now);
    if |names| > 0 {
      if Skipped(names[0]) {
        FindOrCreateNames(store, names[1..], freshIds[1..], now);
      } else {
        var name := Text.Strip(names[0].value);
        var step := FindOrCreateOne(store, name, freshIds[0], now);
        StepUnfold(store, names, freshIds, now);
        if step.1.Ok? {
          StepNames(store, name, freshIds[0], now);
          FreshAfterStep(store, names, freshIds, now);
          FindOrCreateNames(step.0, names[1..], freshIds[1..], now);
          FindOrCreateAppends(step.0, names[1..], freshIds[1..], now);
          var rest := FindOrCreateTags(step.0, names[1..], freshIds[1..], now);
          if rest.1.Ok? {
            NamesCons(step.0, rest.0, step.1.value, rest.1.value, name, Wanted(names[1..]));
          }
        }
      }
    }
  }

  /** Within one request a name repeated up to case is found again: the
      second lookup returns the id the first one produced and writes
      nothing. */
  lemma RepeatedNameReusesTag(store: seq<Tag>, first: string, again: string, id1: ObjectId, id2: ObjectId, now: int)
    requires !HasId(store, id1) && Text.EqualsIgnoreCase(first, again)
    requires FindOrCreateOne(store, first, id1, now).1.Ok?
    ensures var s1 := FindOrCreateOne(store, first, id1, now);
            FindOrCreateOne(s1.0, again, id2, now) == s1
  {
    var s1 := FindOrCreateOne(store, first, id1, now);
    match GetByName(store, first)
    case Some(t) =>
      var i :| 0 <= i < |store| && store[i] == t && LiveNamed(first)(store[i])
               && forall j :: 0 <= j < i ==> !LiveNamed(first)(store[j]);
      Store.FindFirstAt(store, LiveNamed(again), i);
    case None =>
      var tag := Tag(id1, first, DefaultSlug(first), None, 0, now, now, None);
      assert s1.0 == store + [tag];
      Store.FindFirstAt(s1.0, LiveNamed(again), |store|);
  }

  const TagIdA: ObjectId := "aaaaaaaaaaaaaaaaaaaaaaaa"
  const TagIdB: ObjectId := "bbbbbbbbbbbbbbbbbbbbbbbb"

  function NewTag(id: ObjectId, name: string, slug: string, now: int): Tag {
    Tag(id, name, slug, None, 0, now, now, None)
  }

  /** No slug check guards creation here: "a b" and "a-b" are different
      names with the same derived slug, and a second tag with slug "a-b" is
      created beside the first. */
  lemma SameSlugCreatedTwice(t: Tag)
    requires t == NewTag(TagIdA, "a b", "a-b", 0)
    ensures FindOrCreateOne([t], "a-b", TagIdB, 0) == ([t, NewTag(TagIdB, "a-b", "a-b", 0)], Ok(TagIdB))
  {
    NotNamed(t);
    HyphenSlug();
    assert TagIdA[0] != TagIdB[0];
    assert !HasId([t], TagIdB);
    assert [t] + [NewTag(TagIdB, "a-b", "a-b", 0)] == [t, NewTag(TagIdB, "a-b", "a-b", 0)];
  }

  lemma NotNamed(t: Tag)
    requires t == NewTag(TagIdA, "a b", "a-b", 0)
    ensures GetByName([t], "a-b") == None
  {
    assert Text.Lower("a b")[1] == ' ' && Text.Lower("a-b")[1] == '-';
    assert !LiveNamed("a-b")(t);
  }

  lemma HyphenSlug()
    ensures DefaultSlug("a-b") == "a-b" && Slugs.IsValidSlug("a-b")
  {
    var d := DefaultSlug("a-b");
    assert d[0] == 'a' && d[1] == '-' && d[2] == 'b';
    assert Slugs.SlugBody("a-b");
  }

  /** A name whose derived slug is invalid fails the step and writes
      nothing; the tag created for an earlier name stays. */
  lemma InvalidDerivedSlug(t: Tag)
    requires t == NewTag(TagIdA, "go", "go", 0)
    ensures FindOrCreateOne([t], "c++", TagIdB, 0) == ([t], Err(ValueError("Invalid slug: c++")))
  {
    assert Text.Lower("go")[0] == 'g' && Text.Lower("c++")[0] == 'c';
    assert !LiveNamed("c++")(t);
    assert GetByName([t], "c++") == None;
    assert DefaultSlug("c++") == "c++" by {
      var d := DefaultSlug("c++");
      assert d[0] == 'c' && d[1] == '+' && d[2] == '+';
    }
    assert !Slugs.SlugBody("c++") by { assert !Slugs.IsSlugChar("c++"[1]); }
    assert !Slugs.IsValidSlug("c++");
    assert "Invalid slug: " + "c++" == "Invalid slug: c++";
  }
}
