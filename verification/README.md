# Blog backend core, modelled in Dafny

This project models the domain logic of a FastAPI blog backend whose data live in MongoDB and whose sessions and rate-limit logs live in Redis. It covers the logic that sits between the HTTP routers and the database clients:

- the **category hierarchy**: materialised paths, and nested trees rebuilt from a flat document set. This covers the primary repository, its older twin and the category service;
- the **tag catalogue**: slug derivation, slug-conflict checks, find-or-create by case-insensitive name, soft deletion and the usage counter;
- the **session registry**: `session:<user> → token` and `token:<sha256(token)> → user`, with one live token per user;
- the **user account flow**: authenticate, register, login, update, lock and change password;
- the **post lifecycle**: draft and published transitions and counters, and the repository's listing and tag filters;
- the **value objects and parsers**: slug, email, the response clean-up of the post DTO and the comma-list settings;
- the **request-decision rules**: the sliding-window rate limiter, the bearer-token middleware, CORS header selection and the role checker.

Every store is a sequence of documents in natural order, so `find_one` returns the first match. Every operation is a pure function from the store (and the clock, the fresh id, the salt) to a new store and a result. Errors that the source raises are values of `Wrappers.Error`.

Cryptography is idealised as free datatype constructors, which makes it injective and deterministic:
- `Crypto.Bcrypt` for bcrypt;
- `Crypto.Sha256OfToken` for SHA-256 (FIPS 180-4);
- `Crypto.JwtEncode`/`Crypto.JwtDecode` for the JWT library.

ObjectIds are 24 lower-case hexadecimal digits (`Ids.ObjectId`). Parsing accepts 24 hexadecimal digits of either case and prints in lower case; the spellings `bson.ObjectId` also accepts with whitespace inside are refused (see "## Left out"). The fixed width is what makes the category path prefix test exact (`Ids.FixedWidthSegment`).

Modules, one per source component:

| module | file | models |
|---|---|---|
| `Wrappers`, `Text`, `Store`, `Ids`, `Crypto` | wrappers.dfy, text.dfy, store.dfy, ids.dfy, crypto.dfy | results and errors, Python string operations (`lower` on ASCII letters only), MongoDB `find`/`find_one`/`update_one`/`count_documents`/`skip`/`limit`, ObjectId parsing, idealised bcrypt/SHA-256/JWT |
| `Slugs`, `Emails`, `Statuses`, `Roles` | slug.dfy, email.dfy, statuses.dfy, roles.dfy | the slug and email value objects and the two enumerations |
| `Categories`, `LegacyCategories`, `CategoryService` | categories.dfy, legacy_categories.dfy, category_service.dfy | the category repositories and service |
| `Tags`, `TagService` | tags.dfy, tag_service.dfy | the tag repository and service |
| `Sessions`, `Users` | sessions.dfy, users.dfy | the session service and the user service |
| `BlogPost`, `Posts`, `PostService`, `PostDto` | post_entity.dfy, posts.dfy, post_service.dfy, post_dto.dfy | the post aggregate, repository, service and response DTO |
| `Settings`, `RateLimiter`, `AuthMiddleware`, `Cors`, `RoleChecker` | settings.dfy, rate_limiter.dfy, auth_middleware.dfy, cors.dfy, role_checker.dfy | configuration parsing and the request middleware |

Design decisions that shape the contracts:

- **Tree assembly.** `build_tree` recurses without a bound. The model carries the set of ids on the current branch and returns `RecursionError` when a child repeats one, since that is where Python's recursion limit stops the request. Termination is proved for stores whose paths are monotone: every child's path is longer than its parent's. Creation and deletion preserve that property (`Categories.CreatePreservesMonotone`). `update_category` does not, because it changes `parent_id` without recomputing `path`. `Categories.MoveUnderOwnChildCycles` shows such an update reaching the error.
- **Rate-limit log.** The sorted-set member `str(now)` is modelled by the integer `now`, because decimal printing is injective. A positive `EXPIRE` only drops entries that the next purge drops anyway, so it is modelled by its effect on a non-positive window only: the key is deleted.
- **Token expiry.** The clock is read in whole seconds. The JWT decoder is a parameter of the middleware. The library rejects expired tokens itself, so the middleware's own expiry branch is unreachable under such a decoder (`AuthMiddleware.ExpiryBranchShadowed`).
- **Behaviour the code fixes.** Several properties a reader might expect do not hold in the code, and the model follows the code:
  - the usage counter has no lower bound: `decrement_usage_count` is a bare `$inc` of -1 (src/infrastructure/mongo/tag_repository_impl.py:82-87);
  - `create_post` stores no tags: it passes `tags` to `PostEntity`, which declares only `tag_ids`, `tag_names` and `tag_slugs` and drops the unknown field (src/application/services/post_service.py:18-42, src/domain/posts/entity.py:9-21);
  - nothing counts failed logins or locks an account for a time: `MAX_FAILED_LOGIN_ATTEMPTS` and `ACCOUNT_LOCKOUT_DURATION_MINUTES` are declared (src/config/settings.py:89-90) and never read;
  - `find_or_create_tags` looks tags up by name only and creates with the derived slug unchecked, so two names can give two tags with one slug (src/application/services/tag_service.py:49-75);
  - children appear in the order the path query returns them, which is store order (src/infrastructure/mongo/category_repository_impl.py:75-100).
- **Unpublishing.** `unpublish_post` writes `published_at: None` (src/application/services/post_service.py:98). The comment at line 101 says the timestamp is kept. The model follows the code, and `PostService.RepublishRestampsTime` shows the consequence.

## Model

| member | source | states |
|---|---|---|
| Ids.ParseObjectId | src/utils/py_object_id.py:18-27 | an id string of 24 hexadecimal digits of either case is accepted and denotes its lower-case form; every other string is the invalid-id error, including the whitespace spellings of "## Left out" that the library accepts |
| Ids.ParsePrintedId | src/utils/py_object_id.py:18-27 | printing an id and parsing it back gives the same id |
| Ids.FixedWidthSegment | src/infrastructure/mongo/category_repository_impl.py:126-129 | a path extending "/" + a with a segment "/" + b means a == b: because ids have a fixed width, the prefix pattern without a trailing "/" cannot match a longer id |
| Crypto.CheckPw | src/application/services/user_service.py:28-32 | a bcrypt check succeeds exactly when the hash was made from the same input |
| Crypto.DecodeEncode | src/application/services/user_service.py:34-40 | decoding a token gives back the claims it was encoded from |
| Crypto.TokenDigestInjective | src/application/services/session_service.py:21-26 | two tokens have the same digest exactly when they are the same token |
| Roles.RoleValue | src/core/role.py:4-7 | no role value is the wildcard "*" |
| Roles.ParseRole | src/core/role.py:4-7 | a parsed role has the given value, and parsing fails only when no role has it |
| Roles.ParseRoleValue | src/core/role.py:4-7 | parsing a role value gives back that role, so role values are distinct |
| Statuses.StatusValue | src/core/value_objects/statuses.py:5-9 | every status value is non-empty |
| Statuses.ParseStatus | src/core/value_objects/statuses.py:5-9 | a parsed status has the given value, and parsing fails only when no status has it |
| Statuses.ParseStatusValue | src/core/value_objects/statuses.py:5-9 | parsing a status value gives back that status |
| Text.Lower | src/application/services/tag_service.py:19-20 | lower-casing keeps the length and lower-cases each ASCII letter in place |
| Text.ReplaceChar | src/application/services/tag_service.py:19-20 | replacing one character by another changes exactly the positions that held it |
| Text.Strip | src/config/settings.py:28 | the result is a contiguous slice of the input with only whitespace, in Python's sense of `str.isspace`, cut off at both ends, and it has no whitespace at either end |
| Text.StripEmptyIffBlank | src/config/settings.py:26-27 | a string strips to nothing exactly when it is all whitespace |
| Text.StripIdempotent | src/application/services/tag_service.py:56-59 | stripping an already stripped name changes nothing |
| Text.Split | src/config/settings.py:28 | the pieces contain no separator, there is at least one, and joining them with the separator gives back the input |
| Text.SplitJoin | src/config/settings.py:28 | splitting pieces that were joined with the separator gives back the pieces, when none contains the separator |
| Text.SplitWhitespace | src/infrastructure/middleware/auth_middleware.py:27 | each piece of a whitespace split is a non-empty run of non-whitespace characters, and there are none exactly when the input is all whitespace |
| Text.SplitWhitespaceCovers | src/infrastructure/middleware/auth_middleware.py:27 | the pieces, in order, with blank gaps between them that are non-empty inside and may be empty at the ends, give back the input: nothing but whitespace is dropped |
| Text.SplitWeave | src/infrastructure/middleware/auth_middleware.py:27 | conversely, words woven with such gaps split back into exactly those words |
| Text.SplitTwoWords | src/infrastructure/middleware/auth_middleware.py:27-28 | a header written as two words with one blank between splits into exactly those two words |
| Store.FindFirst | src/infrastructure/mongo/tag_repository_impl.py:33-35 | nothing is found exactly when no document matches; a found document is a matching document of the store |
| Store.Filter | src/infrastructure/mongo/post_repository_impl.py:308-332 | the selection holds matching documents of the store only, and every matching document of the store |
| Store.Page | src/infrastructure/mongo/category_repository_impl.py:115-122 | a page holds at most the limit, the documents after the skipped ones in order, and is empty past the end |
| Store.UpdateFirst | src/infrastructure/mongo/tag_repository_impl.py:56-59 | only the first matching document is rewritten; every other document is kept in place |
| Store.DeleteFirst | src/infrastructure/mongo/repositories/mongo_category_repo.py:53-55 | the first matching document is removed and the others keep their order |
| Store.FilterIdempotent | src/infrastructure/mongo/post_repository_impl.py:308-332 | filtering twice by the same filter selects the same documents as once |
| Store.CountZero | src/infrastructure/mongo/post_repository_impl.py:386-398 | a count is zero exactly when no document matches |
| Categories.ChildPath | src/infrastructure/mongo/category_repository_impl.py:21-25 | a child path starts with the parent path and ends with exactly one "/" + parent id segment |
| Categories.ChildPathUnified | src/infrastructure/mongo/category_repository_impl.py:21-25 | the root branch ("/" + id) and the nested branch (path + "/" + id) are the same rule, the root path being empty |
| Categories.BuildCategoryPath | src/infrastructure/mongo/category_repository_impl.py:14-25 | no parent gives the empty path; a parent id succeeds exactly when some document, deleted or not, has that id, and the path is then that parent's child path; otherwise "Parent category not found"; the legacy repository in mongo_category_repo.py follows the same rule |
| Categories.Upsert | src/infrastructure/mongo/category_repository_impl.py:39-43 | an existing id is rewritten in place with its deletion mark kept and every other document unchanged; a new id is appended |
| Categories.CreateCategory | src/infrastructure/mongo/category_repository_impl.py:27-44 | creation succeeds exactly when the parent path can be built and the slug is not held by another document, which the unique slug index created in database.py enforces; the stored document carries the computed path and the given parent, and is the one returned; the legacy repository creates the same way |
| Categories.GetById | src/infrastructure/mongo/category_repository_impl.py:46-48 | an unparsable id fails; otherwise the result is a live document with that id, or nothing when no live document has it |
| Categories.BuildTree | src/infrastructure/mongo/category_repository_impl.py:84-101 | a built tree is rooted at the given node and is assembled from the fetched documents (each node's children are exactly the fetched documents naming it as parent, in fetch order); a repeated id on a branch is the recursion error |
| Categories.BuildForest | src/infrastructure/mongo/category_repository_impl.py:95-101 | the built trees have exactly the given children as roots, in order, each assembled from the fetched documents |
| Categories.AssembledFromFetched | src/infrastructure/mongo/category_repository_impl.py:74-92 | every node of an assembled tree is one of the fetched documents |
| Categories.AssembledLinked | src/infrastructure/mongo/category_repository_impl.py:84-92 | every node below the top hangs under a node of the tree whose id its parent_id names, so a node whose parent was not fetched never appears |
| Categories.GetCategoryWithChildren | src/infrastructure/mongo/category_repository_impl.py:50-103 | an unparsable id fails; the result is nothing exactly when no live document has the id; otherwise the tree is rooted at that document and is assembled from it and every fetched descendant: each node's children are exactly the fetched documents naming it as parent, and every node other than the root is a live document whose path extends the root's child path |
| Categories.SubtreeMembers | src/infrastructure/mongo/category_repository_impl.py:61-81 | every node of the subtree other than the anchor is a live document of the store whose path starts with the anchor's child path |
| Categories.DirectChildIncluded | src/infrastructure/mongo/category_repository_impl.py:61-92 | a live direct child whose path was computed from the anchor is among the anchor's fetched children |
| Categories.DirectChildInTree | src/infrastructure/mongo/category_repository_impl.py:50-103 | the returned tree contains every live direct child of the category whose path was computed from it |
| Categories.BuildAll | src/infrastructure/mongo/category_repository_impl.py:154-161 | one tree per root, in root order, each assembled from the fetched documents |
| Categories.ListCategories | src/infrastructure/mongo/category_repository_impl.py:113-161 | an empty root page gives []; otherwise one tree per live root of the page, in page order, each assembled from the live documents under it; the legacy listing uses the same root page, prefix fetch and children map |
| Categories.RootsAreLiveRoots | src/infrastructure/mongo/category_repository_impl.py:115-122 | every root of a page has no parent and no deletion mark |
| Categories.CountCategories | src/infrastructure/mongo/category_repository_impl.py:162-164 | the count is the number of live documents of the store: at most the number of documents, and zero exactly when no category is live |
| Categories.CreateCountsOne | src/infrastructure/mongo/category_repository_impl.py:27-44 | a successful creation under an id no document holds adds exactly one to the count |
| Categories.DeleteCountsOne | src/infrastructure/mongo/category_repository_impl.py:109-111 | a delete takes one off the count exactly when the first document with the id was live, and otherwise leaves the count alone |
| Categories.UpdateCategory | src/infrastructure/mongo/category_repository_impl.py:105-107 | an unparsable id fails; otherwise the patch is applied by id and returned as given, not as stored |
| Categories.UpdateById | src/infrastructure/mongo/repositories/mongo_category_repo.py:49-51 | the update by an id that is already an ObjectId, which the legacy repository passes through as given and the primary one parses first: only the first document with that id changes, only in the patched fields, its path and id are kept, and a slug held by another document is refused |
| Categories.ApplyPatch | src/application/services/category_service.py:36-48 | the fields the patch carries are replaced, updated_at is set, and id, path, created_at and deleted_at are kept |
| Categories.Delete | src/infrastructure/mongo/category_repository_impl.py:109-111 | a soft delete stamping deleted_at on the first document with the id, reporting true exactly when that document changed |
| Categories.TreeTerminates | src/infrastructure/mongo/category_repository_impl.py:95-101 | when every child path is longer than its parent path, building a tree never hits the recursion error |
| Categories.ForestTerminates | src/infrastructure/mongo/category_repository_impl.py:95-101 | under monotone paths every child list builds without error |
| Categories.AllTerminate | src/infrastructure/mongo/category_repository_impl.py:154-161 | under monotone paths every root page builds without error |
| Categories.MonotoneSelection | src/infrastructure/mongo/category_repository_impl.py:74-78 | any selection of documents from a monotone store is again monotone |
| Categories.SubtreeReadSucceeds | src/infrastructure/mongo/category_repository_impl.py:50-103 | over a monotone store reading a subtree with a well-formed id never fails |
| Categories.ListSucceeds | src/infrastructure/mongo/category_repository_impl.py:113-161 | over a monotone store listing never fails |
| Categories.CreatePreservesMonotone | src/infrastructure/mongo/category_repository_impl.py:27-44 | creating a category under a fresh id keeps paths monotone |
| Categories.DeletePreservesMonotone | src/infrastructure/mongo/category_repository_impl.py:109-111 | a soft delete keeps paths monotone |
| Categories.MoveUnderOwnChildCycles | src/application/services/category_service.py:42-48 | moving a root under its own child is accepted, and reading the root afterwards ends in the recursion error |
| Categories.CycleRead | src/infrastructure/mongo/category_repository_impl.py:95-101 | after the move the subtree read of the root runs into the cycle |
| Categories.CycleBuild | src/infrastructure/mongo/category_repository_impl.py:95-101 | after the move building the root's tree runs into the cycle |
| Categories.MoveOntoChild | src/application/services/category_service.py:42-48 | the move writes parent_id and updated_at only; the path is not recomputed |
| Categories.MovedChildVanishes | src/application/services/category_service.py:42-48 | a child moved to another root keeps its old path and then appears under neither its new nor its old parent |
| Categories.MoveToOtherRoot | src/application/services/category_service.py:42-48 | moving a child to another root changes its parent_id and updated_at only |
| Categories.OldParentLosesChild | src/infrastructure/mongo/category_repository_impl.py:84-92 | the old parent still fetches the moved child by path, but no longer lists it, since its parent_id names another node |
| Categories.NewParentMissesChild | src/infrastructure/mongo/category_repository_impl.py:61-71 | the new parent does not fetch the moved child, whose path is not under it |
| LegacyCategories.GetById | src/infrastructure/mongo/repositories/mongo_category_repo.py:45-47 | by id alone: nothing exactly when no document has the id, otherwise a document of the store with that id, deleted or not |
| LegacyCategories.FindsDeleted | src/infrastructure/mongo/repositories/mongo_category_repo.py:45-47 | a soft-deleted category is still returned here, where the primary repository finds no live one |
| LegacyCategories.Delete | src/infrastructure/mongo/repositories/mongo_category_repo.py:53-55 | a hard delete reporting true exactly when a document had the id; then one document fewer and, with unique ids, none left with the id; otherwise the store is unchanged |
| LegacyCategories.DeletePreservesMonotone | src/infrastructure/mongo/repositories/mongo_category_repo.py:53-55 | removing documents keeps paths monotone |
| LegacyCategories.DeletedRootHidesChild | src/infrastructure/mongo/repositories/mongo_category_repo.py:57-66 | after a root is hard-deleted its child is not a root, so no page of the listing shows it |
| CategoryService.ParentRef | src/application/services/category_service.py:24 | no parent id or an empty one makes a root; any other must parse as an ObjectId |
| CategoryService.CheckedSlug | src/application/services/category_service.py:23 | the slug is accepted exactly when it is a valid slug; a missing slug is a TypeError and an invalid one the "Invalid slug" error |
| CategoryService.CreateCategory | src/application/services/category_service.py:16-28 | the slug is checked first and the parent id second, each failure returning before any write; then the entity is created through the repository |
| CategoryService.CreateEntity | src/application/services/category_service.py:16-28 | creation succeeds exactly when the parent path can be built and the slug is free; the stored category has the fresh id, the converted parent and the current time as both timestamps |
| CategoryService.UpdateCategory | src/application/services/category_service.py:33-49 | an invalid slug or an unparsable parent id fails before any write; otherwise the patch carries exactly the given fields, converted, and updated_at, and the result is the repository update of that patch on the category with the parsed id: only its first document changes, only in those fields, and no path changes |
| CategoryService.GetCategoryById | src/application/services/category_service.py:50-52 | an unparsable id fails; nothing exactly when no live category has the id; otherwise the live category with the id, with its fetched descendants assembled below it |
| CategoryService.GetAllCategories | src/application/services/category_service.py:11-14 | the trees are one per live root of the page, in page order, each assembled from the live documents under the page's roots; the total is the number of live categories of any depth; the only failure is the recursion error |
| CategoryService.TotalCountsDescendants | src/application/services/category_service.py:11-14 | one root with one child is listed as one tree but counted as two |
| CategoryService.MonotoneExample | src/infrastructure/mongo/category_repository_impl.py:21-25 | a root with one child built by the path rule is monotone |
| Tags.CreateTag | src/infrastructure/mongo/tag_repository_impl.py:15-31 | the data written is the tag without a deletion mark; a new id is appended, an existing id is rewritten in place keeping its deletion mark, and every other tag is unchanged |
| Tags.GetById | src/infrastructure/mongo/tag_repository_impl.py:33-35 | an unparsable id fails; otherwise the result is a live tag of the store with that id, or nothing when every tag with that id is deleted |
| Tags.GetBySlug | src/infrastructure/mongo/tag_repository_impl.py:37-40 | a found tag is a live tag of the store with that slug; nothing is found exactly when every tag with that slug is deleted |
| Tags.GetByName | src/infrastructure/mongo/tag_repository_impl.py:42-45 | a found tag is a live tag whose name equals the given one up to letter case; nothing is found exactly when every such tag is deleted |
| Tags.ParseAll | src/infrastructure/mongo/tag_repository_impl.py:51 | the conversion succeeds exactly when every id parses, keeping length and order; otherwise the error names one of the ids |
| Tags.GetByIds | src/infrastructure/mongo/tag_repository_impl.py:47-54 | an empty request gives [] without parsing; otherwise it succeeds exactly when every id parses, and returns precisely the live tags whose id was requested |
| Tags.ApplyPatch | src/infrastructure/mongo/tag_repository_impl.py:56-59 | the patched fields and updated_at are replaced; id, usage_count, created_at and deleted_at are kept |
| Tags.UpdateTag | src/infrastructure/mongo/tag_repository_impl.py:56-59 | an unparsable id fails; otherwise the patch is applied to the first tag with the id and the result is what reading it back as a live tag gives |
| Tags.Delete | src/infrastructure/mongo/tag_repository_impl.py:61-67 | a soft delete of the first tag with the id, reporting true exactly when its deletion mark changed; everything else is unchanged |
| Tags.DeletedTagHidden | src/infrastructure/mongo/tag_repository_impl.py:33-35 | after a deletion, looking the tag up by id finds nothing |
| Tags.AddUsage | src/infrastructure/mongo/tag_repository_impl.py:75-87 | an unparsable id fails; otherwise only the first tag with the id changes, and only its usage_count, by the given amount, deleted or not |
| Tags.IncrementUsageCount | src/infrastructure/mongo/tag_repository_impl.py:75-80 | the first tag with the id gains exactly one use and nothing else changes |
| Tags.DecrementUsageCount | src/infrastructure/mongo/tag_repository_impl.py:82-87 | the first tag with the id loses exactly one use, with no lower bound, and nothing else changes |
| Tags.IncrementThenDecrement | src/infrastructure/mongo/tag_repository_impl.py:75-87 | an increment followed by a decrement of the same tag restores the store |
| Tags.InsertByUsage | src/infrastructure/mongo/tag_repository_impl.py:71 | inserting adds exactly the given tag to the multiset |
| Tags.InsertSorted | src/infrastructure/mongo/tag_repository_impl.py:71 | inserting into a list ordered by usage descending keeps it ordered |
| Tags.SortByUsage | src/infrastructure/mongo/tag_repository_impl.py:71 | the result is ordered by usage descending and is a permutation of the input |
| Tags.ListTags | src/infrastructure/mongo/tag_repository_impl.py:69-73 | a page is ordered by usage descending, holds live tags of the store only, and is exactly as long as the live tags left after the skip, up to the limit |
| Tags.PagesOfOneOrder | src/infrastructure/mongo/tag_repository_impl.py:69-73 | the model's listing takes every page, for any skip and limit, as a slice of one usage-descending ordering of the live tags; of the server this holds when usage counts are distinct (see `Tags.AnyOrderGivesListing`) |
| Tags.ConsecutivePages | src/infrastructure/mongo/tag_repository_impl.py:69-73 | in the model, two consecutive pages join into the page spanning both, and together never hold a live tag more often than the store does; of the server this holds when usage counts are distinct |
| Tags.SortedOrderUnique | src/infrastructure/mongo/tag_repository_impl.py:71 | when no two tags share a usage count, two usage-descending orders of the same tags are equal |
| Tags.AnyOrderGivesListing | src/infrastructure/mongo/tag_repository_impl.py:69-73 | when no two live tags share a usage count, a page cut from any usage-descending order of the live tags, whatever the server does with ties, is the model's page |
| Tags.WholeListing | src/infrastructure/mongo/tag_repository_impl.py:69-73 | when every live tag fits on the first page, the page is a permutation of the live tags |
| Tags.CountTags | src/infrastructure/mongo/tag_repository_impl.py:89-91 | the count is at most the number of tags and is zero exactly when no tag is live |
| Tags.CountIsWholeListing | src/infrastructure/mongo/tag_repository_impl.py:69-91 | the count is the length of a listing that holds every live tag: the first page as long as the count holds that many tags, and they are a permutation of the live tags |
| TagService.DefaultSlug | src/application/services/tag_service.py:19-20 | the derived slug has the name's length, with each blank a hyphen and each other character lower-cased |
| TagService.CreateTag | src/application/services/tag_service.py:17-34 | an absent or empty slug is derived from the name; a slug held by a live tag is refused with "already exists" before validation and nothing is written; an invalid slug fails; otherwise a new tag is stored with a usage count of zero, the entity's default |
| TagService.DeletedSlugReusable | src/application/services/tag_service.py:23-25 | the creation check sees live tags only, so the slug of a deleted tag can be taken again |
| TagService.UpdateTag | src/application/services/tag_service.py:77-96 | a slug held by a live tag whose printed id differs from the given id is refused; otherwise an invalid slug fails; otherwise the given fields and updated_at are written and the tag is read back |
| TagService.OwnSlugAccepted | src/application/services/tag_service.py:85-90 | a tag may be given its own slug again when addressed by its printed id |
| TagService.UpperCaseIdConflictsWithItself | src/application/services/tag_service.py:88 | the upper-case spelling of a tag's id parses to that tag, yet updating the tag to its own slug under it is refused as a conflict |
| TagService.UpdateTagIntended | src/application/services/tag_service.py:85-90 | with the holder compared as an id, a slug held by a different tag is refused, and otherwise the update is the repository update of the patch |
| TagService.OwnSlugAcceptedAnySpelling | src/application/services/tag_service.py:85-90 | under the id comparison a tag keeps its own slug however its id is spelled |
| TagService.UpperCaseIdKeepsOwnSlug | src/application/services/tag_service.py:85-90 | the upper-case spelling that the written test refuses is accepted |
| TagService.IntendedAgreesOnPrintedIds | src/application/services/tag_service.py:85-90 | the two tests agree whenever the id is given in its printed lower-case form |
| TagService.Wanted | src/application/services/tag_service.py:55-59 | no more names are acted on than were given, and none when every name is skipped |
| TagService.WantedStripped | src/application/services/tag_service.py:56-59 | every name acted on is stripped and not blank |
| TagService.WantedKeepsEach | src/application/services/tag_service.py:55-59 | every name that is neither missing nor blank is acted on, in its stripped form |
| TagService.StrippedIsName | src/application/services/tag_service.py:56-59 | a name that does not strip to nothing strips to a non-blank stripped name |
| TagService.FindOrCreateOne | src/application/services/tag_service.py:61-73 | a live tag with the name up to case is reused and nothing is written; otherwise an invalid derived slug fails with nothing written, and a valid one creates a tag with that name and slug |
| TagService.StepAppends | src/application/services/tag_service.py:61-73 | with a fresh id one step only appends: every earlier tag stays, unchanged and in place |
| TagService.StepNames | src/application/services/tag_service.py:61-73 | with a fresh id the id a step returns names a live tag matching the name up to case |
| TagService.FreshAfterStep | src/application/services/tag_service.py:66-73 | the ids left for later names stay fresh after a step |
| TagService.FindOrCreateAppends | src/application/services/tag_service.py:54-75 | with fresh ids the whole loop only appends: every tag present before is still there, unchanged and in place |
| TagService.FindOrCreateCount | src/application/services/tag_service.py:54-75 | on success one id is returned per name acted on |
| TagService.FindOrCreateNames | src/application/services/tag_service.py:54-75 | with fresh ids, the k-th id returned names a live tag whose name matches the k-th wanted name up to case |
| TagService.RepeatedNameReusesTag | src/application/services/tag_service.py:55-73 | a name repeated up to case finds the tag the first occurrence produced and writes nothing |
| TagService.SameSlugCreatedTwice | src/application/services/tag_service.py:66-73 | "a b" and then "a-b" produce two tags with the same slug, since no slug check guards creation here |
| TagService.NotNamed | src/infrastructure/mongo/tag_repository_impl.py:42-45 | a tag named "a b" is not found under the name "a-b" |
| TagService.InvalidDerivedSlug | src/application/services/tag_service.py:67-70 | a name whose derived slug is invalid fails the step and writes nothing |
| Sessions.TokenKey | src/application/services/session_service.py:21-26 | the reverse key is the digest of the token, never the token itself |
| Sessions.TokenKeyInjective | src/application/services/session_service.py:21-26 | two tokens share a reverse key exactly when they are the same token |
| Sessions.StoreSession | src/application/services/session_service.py:28-61 | the write succeeds exactly when the time to live is positive; then the user's session holds the new token and the reverse entries are those left after dropping the previous token's, plus the new one naming the user; a refused time to live leaves the deletion done |
| Sessions.Cleared | src/application/services/session_service.py:41-47 | the reverse entry of the user's current token, if the user has a session, is the only one removed |
| Sessions.InvalidateSession | src/application/services/session_service.py:77-92 | with a session, exactly the user's session entry and its token's reverse entry go; without one nothing changes |
| Sessions.InvalidateToken | src/application/services/session_service.py:94-109 | when the token's reverse entry names a user, exactly that user's session entry and the reverse entry go; otherwise nothing changes |
| Sessions.GetUserIdFromToken | src/application/services/session_service.py:111-125 | a user is returned exactly when the token's reverse entry exists with a non-empty value, and it is that value |
| Sessions.TokenExpirationSeconds | src/application/services/session_service.py:127-148 | with a non-zero exp the seconds left until it, floored at zero; with no payload or no usable exp the configured minutes times sixty |
| Sessions.ExpirationNeverNegative | src/application/services/session_service.py:137-148 | the seconds left are never negative |
| Sessions.ValidIffHeld | src/application/services/session_service.py:63-75 | under the two-way invariant a token is valid exactly when some user's session holds it, and it then names that user |
| Sessions.EmptyConsistent | src/application/services/session_service.py:28-109 | the empty cache satisfies the two-way invariant |
| Sessions.StorePreservesConsistent | src/application/services/session_service.py:28-61 | storing a session keeps the invariant when no other user holds the token |
| Sessions.InvalidateSessionPreservesConsistent | src/application/services/session_service.py:77-92 | invalidating a session keeps the invariant |
| Sessions.InvalidateTokenPreservesConsistent | src/application/services/session_service.py:94-109 | invalidating a token keeps the invariant |
| Sessions.StoredTokenValid | src/application/services/session_service.py:49-61 | after storing, the token is valid and names the user (an empty user id reads as no user) |
| Sessions.PreviousTokenInvalidated | src/application/services/session_service.py:41-47 | storing a new token makes the user's previous token invalid, whether or not the write then succeeds |
| Sessions.SameTtl | src/application/services/session_service.py:50-61 | both entries of a stored session carry the same time to live |
| Sessions.InvalidatedSessionGone | src/application/services/session_service.py:84-92 | after invalidation the user has no session and the old token is invalid |
| Sessions.RefusedTtlBreaksConsistency | src/application/services/session_service.py:41-61 | a refused time to live leaves a session entry whose token has no reverse entry, breaking the invariant |
| Users.HashPassword | src/application/services/user_service.py:20-26 | the hash carries the fresh salt it was made with |
| Users.VerifyHashed | src/application/services/user_service.py:20-32 | a hash verifies exactly the password it was made from |
| Users.CreateAccessToken | src/application/services/user_service.py:34-40 | the token decodes to the given subject and role with an exp the configured minutes after now |
| Users.FreshTokenTtl | src/application/services/user_service.py:65-70 | a token just issued is stored with the full configured lifetime in seconds |
| Users.GetByEmail | src/infrastructure/mongo/user_repository_impl.py:12-14 | a found user has exactly that address; nothing is found exactly when no user, deleted or not, has it |
| Users.Authenticate | src/application/services/user_service.py:42-48 | a user is returned exactly when a user with that address exists and the password verifies against its hash |
| Users.CreateUser | src/infrastructure/mongo/user_repository_impl.py:16-33 | a user with a fresh id is appended unlocked and not deleted, since the upsert writes neither field; an existing id is rewritten in place keeping its own `locked` and `deleted_at`; the store never shrinks |
| Users.Instantiate | src/domain/users/repository.py:1-22 | a repository class instantiates exactly when it defines every abstract method of `UserRepository`; otherwise `TypeError` |
| Users.MongoRepositoryAbstract | src/infrastructure/mongo/user_repository_impl.py:7-46 | `MongoUserRepository` lacks `get_by_id`, so constructing it raises `TypeError` |
| Users.CompletedRepositoryInstantiates | src/domain/users/repository.py:8-10 | with `get_by_id` added, the repository instantiates with every abstract method defined |
| Users.Register | src/application/services/user_service.py:50-72 | a registered address fails with "Email already registered"; otherwise a missing date of birth is the parser's TypeError, a malformed one the parser's error, and a parsed one the entity's validation error for `date_of_birth`, which holds text; every branch leaves users and sessions unchanged |
| Users.RegistrationNeverSucceeds | src/application/services/user_service.py:54-63 | whatever the inputs, registration as written returns an error and writes no user and no session |
| Users.RegisterIntended | src/application/services/user_service.py:50-72 | the intended registration: the address check, then an optional date that must parse and is stored as given, then the user with the fresh id and role (GUEST by default) is created and a session stored for a token naming that id and role |
| Users.IntendedRegistrationLogsIn | src/application/services/user_service.py:63-72 | with a new address, an acceptable date, an unused id and a positive lifetime, the intended registration appends the user, returns a valid token that names the new id, and keeps the registry consistent |
| Users.StoreFor | src/application/services/user_service.py:65-70 | the issued token is stored as the user's session with its computed lifetime, and returned when the cache accepts it |
| Users.Login | src/application/services/user_service.py:74-104 | bad credentials give no token and leave the cache alone; a locked user with good credentials gets the locked error; otherwise the session is invalidated and a new token stored and returned |
| Users.LockCheckedAfterPassword | src/application/services/user_service.py:85-91 | a locked user with the right password is refused with an error, with a wrong password just gets no token |
| Users.LoginReplacesSession | src/application/services/user_service.py:93-104 | after a successful login the new token is valid and names the user, the user's earlier token is not, and the invariant holds |
| Users.ApplyPatch | src/application/services/user_service.py:121-129 | the given fields and updated_at change; id, password hash, lock, created_at and deleted_at are kept |
| Users.UpdateUser | src/application/services/user_service.py:118-132 | a patch with no field fails with "No fields to update" before the id is parsed; an unparsable id fails; otherwise the fields are written by id and returned with updated_at |
| Users.UpdateNeverReportsMissing | src/application/services/user_service.py:129-131 | the only failures are an empty patch and an unparsable id; an unknown id changes nothing and is not reported |
| Users.LockUser | src/application/services/user_service.py:134-144 | an unparsable id fails; otherwise only the lock flag and updated_at of the first user with the id change, and they are returned |
| Users.ChangePassword | src/application/services/user_service.py:146-183 | not found, then locked, then wrong old password are refused in that order with nothing changed; otherwise the new hash and updated_at are written and the user's session invalidated |
| Users.ChangedPasswordVerifies | src/application/services/user_service.py:167-183 | after a change the stored hash verifies the new password and no other, and the user has no session |
| Users.GetById | src/application/services/user_service.py:106-108 | a found user has that id; nothing is found exactly when no user has it |
| BlogPost.Publish | src/domain/blog/entities/post_entity.py:38-43 | publishing fails exactly when the post is already published; otherwise only the status becomes published and the publication time now |
| BlogPost.PublishTwiceFails | src/domain/blog/entities/post_entity.py:38-41 | a post just published cannot be published again |
| BlogPost.RecordView | src/domain/blog/entities/post_entity.py:53-55 | the view count grows by exactly one and nothing else changes |
| BlogPost.Like | src/domain/blog/entities/post_entity.py:57-59 | the like count grows by exactly one and nothing else changes |
| BlogPost.UpdateContent | src/domain/blog/entities/post_entity.py:61-70 | title, content and edit time are replaced, the excerpt only for a truthy new one, and nothing else changes |
| BlogPost.UpdateContentKeepsStatus | src/domain/blog/entities/post_entity.py:61-70 | editing content never changes the status or the publication time |
| BlogPost.Hash | src/domain/blog/entities/post_entity.py:34-35 | the hash is determined by the id |
| BlogPost.HashAgreesWithEquality | src/domain/blog/entities/post_entity.py:31-35 | equal posts hash alike, as both depend on the id alone; the converse holds of the model's hash only (see Left out) |
| BlogPost.RulesKeepIdentity | src/domain/blog/entities/post_entity.py:31-70 | every business rule keeps the post equal to what it was |
| PostService.AuthorFields | src/application/services/post_service.py:38-39 | without an author both fields are "Unknown"; otherwise they are the author's name and address |
| PostService.ValidateCategory | src/application/services/post_service.py:37 | no category is accepted, an ObjectId string becomes that id, anything else is refused with "Invalid ObjectId"; the model keeps this inner `ValueError`, which pydantic reports wrapped in its `ValidationError`, a subclass of `ValueError` |
| PostService.CreatePost | src/application/services/post_service.py:18-42 | an invalid slug fails first, an invalid category id second, both before any write; otherwise a draft with the author fields is stored and returned; the tags argument never reaches the stored post, so its tag lists stay empty |
| PostService.CreatedPostIsUnpublishedDraft | src/application/services/post_service.py:29-35 | a new post lands at the end of the store as a live, unpublished draft with empty tag lists |
| PostService.ConvertCategory | src/application/services/post_service.py:52-53 | a missing or empty category id is written as given; any other must parse as an ObjectId |
| PostService.UpdatePost | src/application/services/post_service.py:47-59 | the category id is converted before the post id is parsed; on success only the given fields and updated_at change, and the post is read back |
| PostService.UpdateKeepsPublication | src/application/services/post_service.py:47-59 | an update never changes a post's status or publication time |
| PostService.PublishSet | src/application/services/post_service.py:74-81 | the update sets the published status and updated_at, and the publication time only when none is stored |
| PostService.PublishPost | src/application/services/post_service.py:64-83 | an unparsable id fails; a missing or deleted post gives nothing with nothing written; otherwise the post becomes published keeping its first publication time, even when already published |
| PostService.UnpublishPost | src/application/services/post_service.py:85-103 | an unparsable id fails; a missing or deleted post gives nothing with nothing written; otherwise the post becomes a draft with no publication time |
| PostService.PublishKeepsFirstTime | src/application/services/post_service.py:79-83 | the published post keeps the publication time it had, or gets now on its first publication |
| PostService.UnpublishClearsTime | src/application/services/post_service.py:94-103 | the unpublished post is a draft with its publication time cleared, despite the comment at line 101 |
| PostService.RepublishRestampsTime | src/application/services/post_service.py:94-98 | unpublishing and publishing again replaces the first publication time by the time of the second publication |
| PostService.FirstLiveIsFirst | src/infrastructure/mongo/post_repository_impl.py:101 | with unique ids the live post found by id is the first document with that id |
| Posts.ToDocument | src/infrastructure/mongo/post_repository_impl.py:43-89 | the stored document carries the entity's fields, the slug and status as strings, and the tag lists exactly as given |
| Posts.CreatePost | src/infrastructure/mongo/post_repository_impl.py:41-95 | the entity itself is returned; a new id is appended as its document, an existing id is rewritten in place keeping its deletion mark |
| Posts.GetById | src/infrastructure/mongo/post_repository_impl.py:97-125 | an unparsable id fails; otherwise the result is a live post with that id, or nothing when every post with that id is deleted |
| Posts.ApplySet | src/infrastructure/mongo/post_repository_impl.py:439-442 | the fields of the update are replaced and every other field, tag lists and counters included, is kept |
| Posts.UpdatePost | src/infrastructure/mongo/post_repository_impl.py:439-442 | only the first post with the id is rewritten; with unique ids the read-back returns it exactly when it is live |
| Posts.ReadBack | src/infrastructure/mongo/post_repository_impl.py:439-442 | reading back after the write gives the updated first post with the id when it is live, and nothing otherwise |
| Posts.Delete | src/infrastructure/mongo/post_repository_impl.py:428-431 | a soft delete of the first post with the id, reporting true exactly when its deletion mark changed |
| Posts.InsertByTime | src/infrastructure/mongo/post_repository_impl.py:330 | inserting adds exactly the given post to the multiset |
| Posts.InsertSorted | src/infrastructure/mongo/post_repository_impl.py:330 | inserting into a newest-first list keeps it newest first |
| Posts.SortByTime | src/infrastructure/mongo/post_repository_impl.py:330 | the result is newest first and a permutation of the input |
| Posts.FindSorted | src/infrastructure/mongo/post_repository_impl.py:330-332 | a page holds at most the limit, is newest first, and holds matching posts of the store only |
| Posts.PagesOfOneOrder | src/infrastructure/mongo/post_repository_impl.py:330-332 | the model's find takes every page, for any skip and limit, as a slice of one newest-first ordering of the matching posts; of the server this holds when publication times are distinct (see `Posts.AnyOrderGivesPage`) |
| Posts.ConsecutivePages | src/infrastructure/mongo/post_repository_impl.py:330-332 | in the model, two consecutive pages join into the page spanning both, and together never hold a matching post more often than the store does; of the server this holds when publication times are distinct |
| Posts.SortedOrderUnique | src/infrastructure/mongo/post_repository_impl.py:330 | when no two posts share a publication time, two newest-first orders of the same posts are equal |
| Posts.AnyOrderGivesPage | src/infrastructure/mongo/post_repository_impl.py:330-332 | when no two matching posts share a publication time, a page cut from any newest-first order of them, whatever the server does with ties, is the model's page |
| Posts.PageSize | src/infrastructure/mongo/post_repository_impl.py:330-332 | each page is as long as the matching posts left after the skip, up to the limit |
| Posts.WholePage | src/infrastructure/mongo/post_repository_impl.py:330-332 | when everything fits, the first page is a permutation of the matching posts |
| Posts.CategoryFilter | src/infrastructure/mongo/post_repository_impl.py:180-185 | the category filter applies exactly for a non-empty id that parses, and is then that id |
| Posts.ListPublishedPosts | src/infrastructure/mongo/post_repository_impl.py:168-212 | a page of published live posts, newest first, at most the limit, restricted to the category when the filter applies |
| Posts.CountPublishedPosts | src/infrastructure/mongo/post_repository_impl.py:214-227 | the count of published live posts, in the category when the filter applies; zero exactly when none qualifies |
| Posts.InvalidCategoryIgnored | src/infrastructure/mongo/post_repository_impl.py:180-225 | an unparsable category id gives the same listing and the same count as none |
| Posts.ListingMatchesCount | src/infrastructure/mongo/post_repository_impl.py:168-227 | the count reported with a listing sizes its pages |
| Posts.FindPublished | src/infrastructure/mongo/post_repository_impl.py:272-279 | a page of published posts, deleted ones included, newest first |
| Posts.CountPublished | src/infrastructure/mongo/post_repository_impl.py:433-437 | the count of published posts, deleted ones included; zero exactly when none is published |
| Posts.CountPublishedIncludesDeleted | src/infrastructure/mongo/post_repository_impl.py:433-437 | this count exceeds the unfiltered published-live count by exactly the deleted published posts |
| Posts.FindByTag | src/infrastructure/mongo/post_repository_impl.py:229-306 | one tag, by id, name or slug: a page of published live posts carrying the value in the chosen tag list, newest first |
| Posts.CountByTag | src/infrastructure/mongo/post_repository_impl.py:264-270 | the count of published live posts carrying the slug; zero exactly when none does |
| Posts.FindByTags | src/infrastructure/mongo/post_repository_impl.py:308-384 | live posts only, with the status when one is given; with match_all every requested value is carried, otherwise at least one |
| Posts.CountByTags | src/infrastructure/mongo/post_repository_impl.py:386-426 | the count of posts matching the same query; zero exactly when none matches |
| Posts.TagCountMatchesFind | src/infrastructure/mongo/post_repository_impl.py:386-426 | each count sizes the pages of the matching find |
| Posts.AllCountsBelowAny | src/infrastructure/mongo/post_repository_impl.py:323-328 | the AND count never exceeds the OR count |
| Posts.SingleTagQueries | src/infrastructure/mongo/post_repository_impl.py:308-332 | one requested value with status "published" selects the same posts under AND and OR as the single-tag find |
| Posts.SingleRequest | src/infrastructure/mongo/post_repository_impl.py:323-328 | for one value, containing all and containing any both mean containing it |
| Posts.EmptyRequestMatchesNothing | src/infrastructure/mongo/post_repository_impl.py:323-328 | an empty request matches no post, under AND as under OR |
| PostDto.ValidateTagInput | src/application/dto/post_dto.py:20-27 | a dict is refused exactly when neither id nor name is truthy, with the stated message; everything else passes unchanged |
| PostDto.TagInputRejections | src/application/dto/post_dto.py:24-27 | missing, null and empty values count alike as absent, and a non-dict passes through |
| PostDto.Get | src/application/dto/post_dto.py:143-170 | a key is found exactly when the dict holds it |
| PostDto.Put | src/application/dto/post_dto.py:145-155 | after an assignment the key holds the new value, every other key is unchanged, and an existing key keeps its place |
| PostDto.PutSame | src/application/dto/post_dto.py:155 | writing back the value a key already holds changes nothing |
| PostDto.Remove | src/application/dto/post_dto.py:167-169 | popping never lengthens the dict |
| PostDto.RemoveFacts | src/application/dto/post_dto.py:167-169 | after a pop the key is gone, every other key is unchanged, and popping an absent key changes nothing |
| PostDto.IdToString | src/application/dto/post_dto.py:151-154 | an ObjectId under the key becomes its string form, any other value is left, and every other key is unchanged |
| PostDto.ConvertCategory | src/application/dto/post_dto.py:148-155 | a dict category keeps its keys and has no ObjectId under _id or parent_id afterwards; a non-dict is left as it is, except that the key tests raise TypeError exactly on a string holding "_id", a list holding either key, an ObjectId, a slug or another scalar |
| PostDto.NamedCategoryPasses | src/application/dto/post_dto.py:148-155 | a category given as a name, or a list of names, passes unchanged |
| PostDto.IdStringCategoryRaises | src/application/dto/post_dto.py:148-155 | the string "parent_id" as a category raises TypeError, since it holds "_id" |
| PostDto.ScalarAndKeyListCategoryRaise | src/application/dto/post_dto.py:148-155 | a truthy number and a list holding "_id" as a category raise TypeError |
| PostDto.ConvertTag | src/application/dto/post_dto.py:160-164 | a dict tag comes out with no ObjectId _id and with a string slug; a non-dict is left |
| PostDto.ConvertTags | src/application/dto/post_dto.py:157-164 | every tag of the list is converted in place and the length is kept |
| PostDto.StepId | src/application/dto/post_dto.py:144-145 | an _id present is stringified, nothing else changes |
| PostDto.StepSlug | src/application/dto/post_dto.py:146-147 | a slug present comes out as the string form of its value, nothing else changes |
| PostDto.StepCategory | src/application/dto/post_dto.py:148-155 | a truthy category is converted, nothing else changes; the step fails with TypeError exactly when the category's conversion does |
| PostDto.StepTags | src/application/dto/post_dto.py:157-164 | a truthy tag list is converted, nothing else changes |
| PostDto.DropDenormalised | src/application/dto/post_dto.py:167-169 | tag_ids, tag_names and tag_slugs are absent afterwards and every other key is unchanged |
| PostDto.ConvertResponse | src/application/dto/post_dto.py:141-170 | the validator raises TypeError exactly when the category step does; otherwise a dict comes out without the three tag lists, with _id stringified, the slug a string and every other key kept; a non-dict is left |
| PostDto.ResponseTagsStringified | src/application/dto/post_dto.py:157-164 | every dict tag of the response has a string _id, if any, and a string slug, if any |
| PostDto.ResponseCategoryStringified | src/application/dto/post_dto.py:148-155 | a truthy dict category never raises and comes out with no ObjectId _id or parent_id |
| PostDto.ConvertCategoryIdempotent | src/application/dto/post_dto.py:148-155 | converting a category that converts without error a second time is converting it once |
| PostDto.ConvertTagIdempotent | src/application/dto/post_dto.py:160-164 | converting a tag twice is converting it once |
| PostDto.ConvertTagsIdempotent | src/application/dto/post_dto.py:157-164 | converting a tag list twice is converting it once |
| PostDto.ConvertResponseIdempotent | src/application/dto/post_dto.py:141-170 | cleaning a response that was cleaned without error changes nothing |
| PostDto.ValidateSlug | src/application/dto/post_dto.py:171-175 | a string slug is accepted exactly when it is a valid slug and is wrapped as that slug; an invalid one is the "Invalid slug" error, kept as the inner `ValueError` that pydantic wraps in its `ValidationError`; any other value passes |
| PostDto.PostResponse | src/application/dto/post_dto.py:141-175 | a category whose key tests raise makes the response fail with TypeError; otherwise a dict with a slug is accepted exactly when the printed form of its slug is a valid slug, since the clean-up stringifies it before the check; an accepted response has none of the three tag lists |
| Slugs.ValidIffPattern | src/domain/blog/value_objects/slug.py:14-17 | a slug is accepted exactly when it matches one or more [a-z0-9] runs joined by single hyphens, optionally followed by one final newline |
| Slugs.SlugBodyIffPattern | src/domain/blog/value_objects/slug.py:16 | the character-level description of a slug body is equivalent to the runs-and-hyphens pattern |
| Slugs.TailAfterHyphen | src/domain/blog/value_objects/slug.py:16 | what follows a hyphen of a slug body is again a slug body, and the hyphen is neither first nor last |
| Slugs.SplitGivesRuns | src/domain/blog/value_objects/slug.py:16 | splitting a slug body at its hyphens gives non-empty runs |
| Slugs.JoinOfRunsIsBody | src/domain/blog/value_objects/slug.py:16 | joining runs with single hyphens gives a slug body |
| Slugs.CheckSlugBody | src/domain/blog/value_objects/slug.py:16-17 | a left-to-right scan decides exactly the slug body |
| Slugs.NewSlug | src/domain/blog/value_objects/slug.py:10-12 | construction succeeds exactly for a valid slug and keeps the value; otherwise the "Invalid slug" error |
| Slugs.RoundTrip | src/domain/blog/value_objects/slug.py:19-20 | building a valid slug and printing it gives back the string |
| Slugs.ValidSlugShape | src/domain/blog/value_objects/slug.py:16 | an accepted slug is non-empty, drawn from lower-case letters, digits and hyphens, with no leading, trailing or doubled hyphen, plus at most one final newline |
| Slugs.TrailingNewlineAccepted | src/domain/blog/value_objects/slug.py:16-17 | "abc" followed by one newline is accepted |
| Slugs.TwoNewlinesRejected | src/domain/blog/value_objects/slug.py:16-17 | "abc" followed by two newlines is refused |
| Emails.ValidIffPattern | src/domain/blog/value_objects/email.py:13-16 | an address is accepted exactly when it is local part, "@", domain, ".", and two or more letters, optionally followed by one final newline |
| Emails.EmailBodyIffPattern | src/domain/blog/value_objects/email.py:15 | the character-level description of an address is equivalent to the pattern's parts |
| Emails.OnlyAtInBody | src/domain/blog/value_objects/email.py:15 | in a well-formed address the first "@" is the only one |
| Emails.ExactlyOneAt | src/domain/blog/value_objects/email.py:15 | an accepted address has exactly one "@" |
| Emails.NoAtInDomainPart | src/domain/blog/value_objects/email.py:15 | the domain part contains no "@" |
| Emails.NewEmail | src/domain/blog/value_objects/email.py:9-11 | construction succeeds exactly for a valid address and keeps the value; otherwise the "Invalid email" error |
| Emails.RoundTrip | src/domain/blog/value_objects/email.py:18-19 | building a valid address and printing it gives back the string |
| Emails.TrailingNewlineAccepted | src/domain/blog/value_objects/email.py:15-16 | an address matching the pattern, followed by one newline, is accepted |
| Settings.CommaList | src/config/settings.py:28 | every value read from a comma list is non-empty and contains no comma |
| Settings.Kept | src/config/settings.py:28 | no more values are kept than pieces, and none is empty |
| Settings.CleanKept | src/config/settings.py:28 | every kept value is stripped, non-empty and comma-free |
| Settings.KeptClean | src/config/settings.py:28 | pieces that are already clean pass through untouched, in order |
| Settings.CommaListRoundTrip | src/config/settings.py:28 | writing clean values with commas and reading them back gives the same list |
| Settings.BlankPiecesDropped | src/config/settings.py:28 | blank pieces yield no values |
| Settings.ParseCommaSetting | src/config/settings.py:16-31 | nothing or a blank string gives the default, any other string its comma values, and a list passes through unchanged; the origins default is the three local development origins |
| Settings.ParsePublicRoutes | src/config/settings.py:33-46 | nothing gives [], a string its comma values (a blank string giving [] as well), and a list passes through |
| Settings.BlankGivesNothing | src/config/settings.py:41-43 | a blank string has no comma values, so its early return agrees with the split |
| Settings.SeparatorsOnly | src/config/settings.py:26-28 | a text made of blanks and commas only splits into blank pieces |
| Settings.CommasOnlyGiveNoOrigins | src/config/settings.py:26-28 | ",," is not blank, so it gives no origins rather than the defaults |
| Settings.CleanJoinNotBlank | src/config/settings.py:26-28 | configured clean values joined with commas never form a blank text |
| Settings.CommaSettingRoundTrip | src/config/settings.py:18-31 | a list of clean values written with commas reads back as that list, whatever the default |
| Settings.MimeAlias | src/config/settings.py:59-69 | the old key is always removed; the new key is present exactly when either was, keeps its own value when set, and otherwise takes the old one; every other key is untouched and none is added |
| Settings.MimeAliasIdempotent | src/config/settings.py:59-69 | applying the alias rule twice is applying it once |
| Settings.MimeTypesText | src/config/settings.py:57-69 | the setting reads the new key, else the old one, else the default text |
| Settings.AllowedMimeTypes | src/config/settings.py:71-76 | an empty or blank value gives the three image types; anything else exactly the set of its comma values |
| Settings.DefaultMimeTextGivesDefaultSet | src/config/settings.py:57 | the default text reads as the three image types |
| Settings.DefaultMimeTextIsJoin | src/config/settings.py:57 | the default text is the three image types written with commas |
| Settings.MimeTypesRoundTrip | src/config/settings.py:71-76 | clean values written with commas read back as exactly that set |
| RateLimiter.DefaultKey | src/infrastructure/middleware/rate_limiter.py:30-33 | the key is "rate_limit:" followed by the client host, or "unknown" without a client |
| RateLimiter.DefaultKeyInjective | src/infrastructure/middleware/rate_limiter.py:30-33 | two requests share a log exactly when their hosts agree, a missing client counting as "unknown" |
| RateLimiter.LogOf | src/infrastructure/middleware/rate_limiter.py:49-51 | an absent key reads as an empty log |
| RateLimiter.Purge | src/infrastructure/middleware/rate_limiter.py:49 | the purge drops exactly the entries scored in [0, window start] and keeps every other with its score |
| RateLimiter.Record | src/infrastructure/middleware/rate_limiter.py:43-58 | the count is the size of the purged log; a positive window leaves the purged log plus this second under the key; a non-positive one deletes the key; other keys are untouched |
| RateLimiter.FailOpen | src/infrastructure/middleware/rate_limiter.py:80-85 | the fallback leaves the cache alone and marks a response as unlimited; an application error escapes |
| RateLimiter.Dispatch | src/infrastructure/middleware/rate_limiter.py:35-85 | with the cache down the request falls back; otherwise it is refused with 429 naming limit and window exactly when the count before this request reaches the limit, and the log is recorded either way; a counted response comes from the first run |
| RateLimiter.RefusedStillLogged | src/infrastructure/middleware/rate_limiter.py:53-68 | a refused request is logged all the same |
| RateLimiter.WindowSlides | src/infrastructure/middleware/rate_limiter.py:43-53 | after a request the log holds this second and exactly the earlier entries scored after the window start |
| RateLimiter.RemainingAddsUp | src/infrastructure/middleware/rate_limiter.py:74-76 | for a passed request remaining, the earlier count and this request add up to the limit, remaining is never negative, and reset is now plus the window |
| RateLimiter.SameSecondIdempotent | src/infrastructure/middleware/rate_limiter.py:53 | logging the same second again leaves the cache as it was |
| RateLimiter.SameSecondCountsOnce | src/infrastructure/middleware/rate_limiter.py:53 | requests within one second count once: from the second one on they all see the same count, at most one above the first |
| RateLimiter.FailsOpen | src/infrastructure/middleware/rate_limiter.py:80-85 | an unreachable cache lets a request through once, marked disabled, with the cache unchanged |
| RateLimiter.FailingHandlerRunsTwice | src/infrastructure/middleware/rate_limiter.py:71-85 | an application error on a counted request enters the cache-error branch, which runs the application a second time |
| RateLimiter.DispatchIntended | src/infrastructure/middleware/rate_limiter.py:35-85 | the application runs at most once, and its error escapes or the request was refused |
| RateLimiter.IntendedAgreesWhenHandlerSucceeds | src/infrastructure/middleware/rate_limiter.py:35-78 | when the application does not raise, the intended and the written dispatch agree |
| RateLimiter.FirstRequestPasses | src/infrastructure/middleware/rate_limiter.py:61-76 | with a positive limit a client's first request passes with limit minus one remaining |
| RateLimiter.Max | src/infrastructure/middleware/rate_limiter.py:75 | the maximum is one of its arguments and no smaller than either |
| AuthMiddleware.CheckToken | src/infrastructure/middleware/auth_middleware.py:27-67 | a request is forwarded exactly when the scheme lower-cases to "bearer", the token decodes, names a subject and has not expired, and it then carries that subject and payload; otherwise, in order, a wrong scheme gives "Invalid authentication scheme", a decoding error "Invalid token: " and its text, a payload without a subject "Invalid token payload", and an expired one "Token has expired" |
| AuthMiddleware.DecodeErrorIsNotExpiry | src/infrastructure/middleware/auth_middleware.py:63-67 | a decoding error never reads as the expiry message |
| AuthMiddleware.Dispatch | src/infrastructure/middleware/auth_middleware.py:12-71 | a listed path is forwarded untouched exactly when it is public; a missing or empty header and a header that is not two words give their 401 details; a header of exactly two words on a protected path gets the token checks' decision on its scheme and token |
| AuthMiddleware.BearerAccepted | src/infrastructure/middleware/auth_middleware.py:27-61 | a decodable token with a subject and no passed expiry is accepted under any spelling of "Bearer" |
| AuthMiddleware.IssuedTokenAccepted | src/infrastructure/middleware/auth_middleware.py:40-71 | a token this service issued, presented before its expiry, authenticates its user |
| AuthMiddleware.ExpiryBranchShadowed | src/infrastructure/middleware/auth_middleware.py:52-57 | with a decoder that already refuses expired tokens the middleware's own expiry branch is never taken |
| AuthMiddleware.ForwardedIdentityDecoded | src/infrastructure/middleware/auth_middleware.py:59-61 | a forwarded identity is the subject of a payload the decoder produced, which has not expired |
| Cors.AddCorsHeaders | src/infrastructure/middleware/cors_utils.py:7-28 | a listed origin is echoed with credentials; else "*" is granted without credentials when listed; else an origin is echoed with credentials when nothing is configured; else no origin is granted; methods, headers, expose and max-age are always set |
| Cors.WildcardNotCredentialed | src/infrastructure/middleware/cors_utils.py:12-21 | "*" is never paired with credentials unless the caller itself sends "*" as its origin or credentials were already set |
| Cors.UnlistedOriginNotGranted | src/infrastructure/middleware/cors_utils.py:12-21 | with a configured list without "*", an unlisted origin is not granted |
| Cors.AddCorsHeadersIdempotent | src/infrastructure/middleware/cors_utils.py:7-28 | adding the headers twice is adding them once |
| Cors.DefaultOriginsEchoed | src/infrastructure/middleware/cors_utils.py:12-14 | with the origins setting unset, each of the three local development origins is echoed with credentials |
| RoleChecker.Check | src/application/dependencies/role_checker.py:10-26 | without an attached payload the lookup fails; "*" admits any payload; otherwise a payload passes exactly when its role is listed, a missing role is a KeyError and an unlisted one a 403; a passing payload is returned unchanged |
| RoleChecker.RoleValues | src/domain/categories/api.py:40 | a route's allowed list holds the role values in order |
| RoleChecker.IssuedRoleChecked | src/application/dependencies/role_checker.py:18-26 | a token issued for a role passes a route built from roles exactly when that role is listed |
| RoleChecker.EmptyListRefusesAll | src/application/dependencies/role_checker.py:19-25 | an empty list admits nobody |
| RoleChecker.WildcardAdmitsAll | src/application/dependencies/role_checker.py:19-20 | "*" admits every payload, with or without a role, unchanged |

## Left out

- MongoDB and Redis I/O. This covers connections, cursors, the `$lookup`/`$unwind` joins that attach `category` and `tags` to a post, index creation, and seeding. Stores are sequences of documents; the only unique index modelled is the category slug index (src/infrastructure/mongo/database.py:40).
- Time to live, as time passes. Cache entries carry their time to live, but nothing expires, so an entry stays until it is deleted.
- Clocks. Every clock is an integer parameter in whole seconds, and dates are opaque integers. `strptime` is the parameter `Users.DateParser`: its format check is not modelled, only that it returns a date or an error; on a missing date of birth it fails with `TypeError`.
- Cryptographic internals. bcrypt, SHA-256 and the JWT library are free constructors: deterministic, injective, and never failing on input this service produces. The salt and the fresh ObjectId are parameters. src/core/security.py is not part of this model.
- Concurrency. Each operation is atomic, so the races between a check and its write across `await`s are out of scope.
- Pydantic. Request-model validation, environment-variable decoding, and field checks of `PostResponse` other than the slug are out of scope. `PostDto.PostResponse` models only the clean-up and the slug validator.
- Routers, dependency wiring and the HTTP mapping of errors. They are not a faithful guide to the services: src/domain/auth/api.py logs in without `login_user`. `RoleChecker.RoleValues` covers only the allowed-list literal of one route.
- Post-repository operations that only join or read: `list_posts`, `get_by_slug`, `get_published_by_slug`, `count_posts`. The filters and orderings they share are modelled through `Posts.FindSorted` and `Store.Filter`.
- Service pass-throughs that add nothing to the repository call: `delete_category`, `delete_tag`, `get_all_tags`, `get_tag_by_id`, `get_tag_by_slug`, `get_tags_by_ids`, `get_all_posts`, `delete_post`, `list_users`, `UserService.get_by_email`.
- File, audit and upload services, and the older `src/application/blog/services` layer. They are foreign calls or plain CRUD.
- Failed-login counting and timed lockout. The settings at src/config/settings.py:89-90 are read by nothing shown; the only lock is the manual `locked` flag.
- Tag usage counters on post creation. Nothing shown keeps them in step with posts.
- Text.Lower: lower-cases ASCII letters only. This is `str.lower` on ASCII input; other characters are left unchanged.
- Tags.GetByName: matches the whole name up to ASCII case. The name goes into the regular expression unescaped, so a name with pattern metacharacters can match other names, and this is not modelled.
- Users.GetById: a lookup by printed id. The user repository shown does not define `get_by_id`, although its abstract base declares it (src/domain/users/repository.py:8-10). As written, `MongoUserRepository(db)` therefore raises `TypeError`, and no user operation runs (see "## Findings"). The Users model assumes a repository that implements `get_by_id` as this member does.
- Slugs: the services import `Slug` from `src.core.value_objects.slug`, which is not part of this model. It is taken to be identical to src/domain/blog/value_objects/slug.py, whose header src/core/value_objects/__init__.py:1 carries.
- PostService.CreatePost: the author is a parameter, the result of the user lookup.
- PostService.UpdatePost: the model does not write the request's `tags` field, which the source `$set`s as given (src/application/services/post_service.py:49). The update model carries the fields the post document stores.
- RateLimiter.Record: the sorted-set member `str(now)` is the integer `now`. A positive `EXPIRE` is not modelled, because it only removes entries the next purge removes.
- RateLimiter.Dispatch: header values are integers, not their decimal text, and the 429 body is only the limit and the window.
- RateLimiter.Dispatch: the cache is either reachable for the whole transaction or not reachable at all. A failure part-way through the pipeline is not modelled.
- AuthMiddleware.Dispatch: the clock is read in whole seconds. A token whose `exp` equals the current second therefore counts as not expired, where the source's fractional clock may call it expired.
- Ids.ParseObjectId: a 24-character string with ASCII whitespace between hexadecimal pairs, such as 22 digits followed by two spaces, is refused. `bson.ObjectId` checks only the length and decodes with `bytes.fromhex`, which skips that whitespace, so it accepts such a string as an id shorter than 12 bytes. Through `Posts.CategoryFilter`, the source then filters by that short id where the model drops the filter.
- AuthMiddleware.CheckToken: `datetime.fromtimestamp(exp)` is taken to be total. For a token that decodes with an `exp` outside the calendar (at or after 253402300800, year 10000, or before year 1) or with a non-numeric `exp`, the call raises `ValueError` or `OverflowError`. That error is not a `JWTError`, so the request fails where the model forwards it. Only a token signed with the service key but not made by `create_access_token` carries such an `exp`. Payload `exp` values are integers in the model.
- AuthMiddleware.Dispatch: inherits the `AuthMiddleware.CheckToken` line above: a decodable token with an `exp` outside the calendar is forwarded where the source's request fails.
- Sessions.TokenExpirationSeconds: for a decodable token with an `exp` outside the calendar, the model returns the seconds left, where `fromtimestamp` raises and the `except Exception` at src/application/services/session_service.py:146-148 returns `ACCESS_TOKEN_EXPIRE_MINUTES * 60`. Tokens this service issues always carry an `exp` inside the calendar.
- AuthMiddleware.Dispatch: the decoder is a parameter. Exceptions from the route handler after forwarding are not modelled.
- Posts.FindSorted: the model sorts with one fixed tie order, the same for every query. MongoDB does not promise that posts with the same publication time keep one order across queries with different skip and limit, so on the server such posts can appear on two pages or on none. `Posts.PagesOfOneOrder` and `Posts.ConsecutivePages` describe the server only when publication times are distinct, which `Posts.AnyOrderGivesPage` makes exact.
- Tags.SortByUsage: the model sorts with one fixed tie order, the same for every query. MongoDB does not promise that tags with the same usage count keep one order across queries, so on the server such tags can appear on two pages or on none. `Tags.PagesOfOneOrder` and `Tags.ConsecutivePages` describe the server only when usage counts are distinct, which `Tags.AnyOrderGivesListing` makes exact.
- Categories.BuildTree: an unbounded recursion ends in `RecursionError` as soon as a branch repeats an id. The model does not count Python's stack depth, so a very deep but acyclic tree succeeds here.
- BlogPost.Hash: the hash is an injective constructor over the id, not Python's `hash`, which may collide. The converse half of `BlogPost.HashAgreesWithEquality`, equal hashes giving equal posts, is a property of this model only.
- Store.Page: a limit of 0 gives the empty page, where MongoDB reads `limit(0)` as no limit. The one paging route shown bounds its page size below by 1 (src/presentation/routers/blog/category_router.py:22) and the services default to 10, so a limit of 0 does not arrive through that route.
- Settings.MimeAlias: modelled on a dictionary of raw values only. Non-dictionary input passes through untouched and is not modelled.

## Findings

| source | as written | input that shows it | evidently intended | confidence | as-written member | corrected member |
|---|---|---|---|---|---|---|
| src/infrastructure/middleware/rate_limiter.py:71,80-85 | the `try` block also covers `call_next`, so an application error enters the cache-error branch, which calls the application again | the cache is reachable, the count is below the limit, and the handler raises on its first run | the application runs once; only cache errors fall back to unlimited | high, not executed | RateLimiter.FailingHandlerRunsTwice | RateLimiter.DispatchIntended |
| src/application/services/tag_service.py:88 | the slug holder is compared with the given id as text, and stored ids print in lower case | a tag with id "aaaaaaaaaaaaaaaaaaaaaaaa" and slug "go", updated under id "AAAAAAAAAAAAAAAAAAAAAAAA" with slug "go" | the slug counts as taken only when another tag holds it, comparing ids as ObjectIds | medium, not executed | TagService.UpperCaseIdConflictsWithItself | TagService.UpdateTagIntended |
| src/application/services/user_service.py:61 | the date of birth goes through `strptime`, and the resulting `datetime` is passed to the entity's `date_of_birth`, which is declared `Optional[str]`; the default `None` makes `strptime` itself raise | any registration: with no date, `strptime(None, ...)` raises TypeError; with "1990-01-01", the entity refuses the `datetime` | the date of birth is optional and, when given, is checked and stored as text, and a new address registers and logs in | medium, not executed | Users.RegistrationNeverSucceeds | Users.RegisterIntended |
| src/infrastructure/mongo/user_repository_impl.py:7 | `MongoUserRepository` subclasses the abstract `UserRepository` but defines no `get_by_id`, so the class is abstract | `MongoUserRepository(db)`, as src/domain/auth/api.py:17 and src/domain/users/api.py:17 call it, raises TypeError ("Can't instantiate abstract class") | the repository defines `get_by_id`, a lookup by id, and the user operations run | high, not executed | Users.MongoRepositoryAbstract | Users.CompletedRepositoryInstantiates |
