/** The URL-safe slug value object: `^[a-z0-9]+(?:-[a-z0-9]+)*$` as Python's
    `re.match` applies it. */
module Slugs {
  import opened Wrappers
  import Text

  predicate IsSlugChar(c: char) {
    Text.IsLowerLetter(c) || Text.IsDigit(c)
  }

  /** One `[a-z0-9]+` run. */
  predicate IsRun(r: string) {
    |r| > 0 && forall i :: 0 <= i < |r| ==> IsSlugChar(r[i])
  }

  /** The regular expression read as a grammar: one or more runs joined by
      single hyphens. */
  ghost predicate MatchesPattern(s: string) {
    exists runs: seq<string> :: |runs| >= 1 && (forall k :: 0 <= k < |runs| ==> IsRun(runs[k])) && Text.Join(runs, '-') == s
  }

  /** The same language described character by character. */
  predicate SlugBody(s: string) {
    && |s| > 0
    && (forall i :: 0 <= i < |s| ==> IsSlugChar(s[i]) || s[i] == '-')
    && s[0] != '-'
    && s[|s| - 1] != '-'
    && (forall i :: 0 <= i < |s| - 1 ==> !(s[i] == '-' && s[i + 1] == '-'))
  }

  /** `Slug._is_valid_slug`: `$` also matches just before one final newline,
      so a slug followed by a single "\n" is accepted. */
  predicate IsValidSlug(s: string) {
    SlugBody(s) || (|s| > 0 && s[|s| - 1] == '\n' && SlugBody(s[..|s| - 1]))
  }

  /** A string is accepted exactly when it matches the pattern, or matches
      it before a single final newline. */
  lemma ValidIffPattern(s: string)
    ensures IsValidSlug(s) <==> MatchesPattern(s) || (|s| > 0 && s[|s| - 1] == '\n' && MatchesPattern(s[..|s| - 1]))
  {
    SlugBodyIffPattern(s);
    SlugBodyIffPatternBeforeLast(s);
  }

  lemma SlugBodyIffPattern(s: string)
    ensures SlugBody(s) <==> MatchesPattern(s)
  {
    if SlugBody(s) {
      SplitGivesRuns(s);
      var runs := Text.Split(s, '-');
      assert |runs| >= 1 && (forall k :: 0 <= k < |runs| ==> IsRun(runs[k])) && Text.Join(runs, '-') == s;
    }
    if MatchesPattern(s) {
      var runs: seq<string> :| |runs| >= 1 && (forall k :: 0 <= k < |runs| ==> IsRun(runs[k])) && Text.Join(runs, '-') == s;
      JoinOfRunsIsBody(runs);
    }
  }

  lemma SlugBodyIffPatternBeforeLast(s: string)
    ensures |s| > 0 ==> (SlugBody(s[..|s| - 1]) <==> MatchesPattern(s[..|s| - 1]))
  {
    if |s| > 0 { SlugBodyIffPattern(s[..|s| - 1]); }
  }

  /** What follows the first hyphen of a well-formed slug is again well formed. */
  lemma TailAfterHyphen(s: string, i: nat)
    requires SlugBody(s) && i < |s| && s[i] == '-'
    ensures 0 < i < |s| - 1 && SlugBody(s[i + 1..])
  {
    var tail := s[i + 1..];
    assert tail[0] == s[i + 1];
    forall j | 0 <= j < |tail| ensures IsSlugChar(tail[j]) || tail[j] == '-' {
      assert tail[j] == s[i + 1 + j];
    }
    forall j | 0 <= j < |tail| - 1 ensures !(tail[j] == '-' && tail[j + 1] == '-') {
      assert tail[j] == s[i + 1 + j] && tail[j + 1] == s[i + 2 + j];
    }
  }

  /** Splitting a well-formed slug at its hyphens yields runs. */
  lemma {:induction false} SplitGivesRuns(s: string)
    requires SlugBody(s)
    ensures forall k :: 0 <= k < |Text.Split(s, '-')| ==> IsRun(Text.Split(s, '-')[k])
  {
    if '-' in s {
      var i := Text.FirstIndex(s, '-');
      TailAfterHyphen(s, i);
      var tail := s[i + 1..];
      SplitGivesRuns(tail);
      var head := s[..i];
      assert Text.Split(s, '-') == [head] + Text.Split(tail, '-');
      forall j | 0 <= j < |head| ensures IsSlugChar(head[j]) {
        assert head[j] == s[j];
        assert head[j] != '-';
      }
    } else {
      assert Text.Split(s, '-') == [s];
    }
  }

  /** Joining runs with single hyphens yields a well-formed slug. */
  lemma {:induction false} JoinOfRunsIsBody(runs: seq<string>)
    requires |runs| >= 1
    requires forall k :: 0 <= k < |runs| ==> IsRun(runs[k])
    ensures SlugBody(Text.Join(runs, '-'))
  {
    if |runs| > 1 {
      JoinOfRunsIsBody(runs[1..]);
      var head := runs[0];
      var tail := Text.Join(runs[1..], '-');
      var s := head + "-" + tail;
      assert s == Text.Join(runs, '-');
      assert IsRun(head);
      forall i | 0 <= i < |s| ensures IsSlugChar(s[i]) || s[i] == '-' {
        if i < |head| { assert s[i] == head[i]; }
        else if i > |head| { assert s[i] == tail[i - |head| - 1]; }
      }
      forall i | 0 <= i < |s| - 1 ensures !(s[i] == '-' && s[i + 1] == '-') {
        if i + 1 < |head| { assert s[i] == head[i]; }
        else if i + 1 == |head| { assert s[i] == head[|head| - 1]; }
        else if i == |head| { assert s[i + 1] == tail[0]; }
        else { assert s[i] == tail[i - |head| - 1] && s[i + 1] == tail[i - |head|]; }
      }
      assert s[|s| - 1] == tail[|tail| - 1];
    }
  }

  /** `re.match` walks the input once; this scan decides the character-level
      description left to right. */
  method CheckSlugBody(s: string) returns (ok: bool)
    ensures ok == SlugBody(s)
  {
    if |s| == 0 || s[0] == '-' || s[|s| - 1] == '-' {
      return false;
    }
    var i := 0;
    while i < |s|
      invariant 0 <= i <= |s|
      invariant forall j :: 0 <= j < i ==> IsSlugChar(s[j]) || s[j] == '-'
      invariant forall j :: 0 <= j < i - 1 ==> !(s[j] == '-' && s[j + 1] == '-')
      invariant i > 0 ==> (s[i - 1] == '-' ==> i - 1 > 0 && s[i - 2] != '-')
    {
      var c := s[i];
      if !(IsSlugChar(c) || c == '-') {
        return false;
      }
      if c == '-' && i > 0 && s[i - 1] == '-' {
        return false;
      }
      i := i + 1;
    }
    return true;
  }

  datatype Slug = Slug(value: string)

  /** `Slug(value)`: construction raises on an invalid value. */
  function NewSlug(s: string): (r: Result<Slug, Error>)
    ensures r.Ok? <==> IsValidSlug(s)
    ensures r.Ok? ==> r.value.value == s
    ensures r.Err? ==> r.error == ValueError("Invalid slug: " + s)
  {
    if IsValidSlug(s) then Ok(Slug(s)) else Err(ValueError("Invalid slug: " + s))
  }

  /** `str(slug)` is the stored value. */
  function ToString(slug: Slug): string {
    slug.value
  }

  /** Building a slug and printing it back gives the original string. */
  lemma RoundTrip(s: string)
    requires IsValidSlug(s)
    ensures NewSlug(s).Ok? && ToString(NewSlug(s).value) == s
  {
  }

  /** An accepted slug is built from `[a-z0-9-]` (plus at most one final
      newline), is not empty, and has no leading, trailing or doubled hyphen:
      upper-case letters and spaces are rejected everywhere. */
  lemma {:induction false} ValidSlugShape(s: string)
    ensures IsValidSlug(s) ==>
      && s != []
      && s[0] != '-'
      && s[|s| - 1] != '-'
      && (forall i :: 0 <= i < |s| ==> IsSlugChar(s[i]) || s[i] == '-' || (i == |s| - 1 && s[i] == '\n'))
      && (forall i :: 0 <= i < |s| - 1 ==> !(s[i] == '-' && s[i + 1] == '-'))
  {
    if IsValidSlug(s) && !SlugBody(s) {
      var t := s[..|s| - 1];
      assert SlugBody(t);
      assert s[0] == t[0];
      forall i | 0 <= i < |s| ensures IsSlugChar(s[i]) || s[i] == '-' || (i == |s| - 1 && s[i] == '\n') {
        if i < |t| { assert s[i] == t[i]; }
      }
      forall i | 0 <= i < |s| - 1 ensures !(s[i] == '-' && s[i + 1] == '-') {
        assert s[i] == t[i];
        if i + 1 < |t| { assert s[i + 1] == t[i + 1]; }
      }
    }
  }

  /** One trailing newline is tolerated, as `$` allows. */
  lemma TrailingNewlineAccepted()
    ensures IsValidSlug("abc\n")
  {
    assert SlugBody("abc");
    assert "abc\n"[..3] == "abc";
  }

  /** Two trailing newlines are not. */
  lemma TwoNewlinesRejected()
    ensures !IsValidSlug("abc\n\n")
  {
    ValidSlugShape("abc\n\n");
    assert !IsSlugChar("abc\n\n"[3]);
  }
}
