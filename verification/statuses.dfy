/** The post status enumeration and its stored string values. */
module Statuses {
  import opened Wrappers

  datatype PostStatus = Draft | Published | Archived

  /** `PostStatus.value`. */
  function StatusValue(s: PostStatus): (v: string)
    ensures v != ""
  {
    match s
    case Draft => "draft"
    case Published => "published"
    case Archived => "archived"
  }

  /** `PostStatus(v)`: the member with that value, if any. */
  function ParseStatus(v: string): (r: Option<PostStatus>)
    ensures r.Some? ==> StatusValue(r.value) == v
    ensures r.None? ==> forall s: PostStatus :: StatusValue(s) != v
  {
    if v == "draft" then Some(Draft)
    else if v == "published" then Some(Published)
    else if v == "archived" then Some(Archived)
    else None
  }

  /** Values are distinct, so parsing a value gives back its member. */
  lemma ParseStatusValue(s: PostStatus)
    ensures ParseStatus(StatusValue(s)) == Some(s)
  {
  }
}
