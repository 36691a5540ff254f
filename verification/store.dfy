/** Generic queries over a collection held as a sequence of documents in the
    store's natural order: `find_one`, `find`, `count_documents`, and the
    cursor's `skip`/`limit`. */
module Store {
  import opened Wrappers

  /** `find_one`: the first document, in natural order, matching the filter. */
  function FindFirst<T>(s: seq<T>, p: T -> bool): (r: Option<T>)
    ensures r.None? <==> forall i :: 0 <= i < |s| ==> !p(s[i])
    ensures r.Some? ==> exists i :: 0 <= i < |s| && s[i] == r.value && p(s[i])
                                    && forall j :: 0 <= j < i ==> !p(s[j])
  {
    if |s| == 0 then None
    else if p(s[0]) then Some(s[0])
    else
      var r := FindFirst(s[1..], p);
      assert forall i :: 1 <= i < |s| ==> s[i] == s[1..][i - 1];
      r
  }

  /** `find`: the matching documents, in natural order. */
  function Filter<T>(s: seq<T>, p: T -> bool): (r: seq<T>)
    ensures |r| <= |s|
    ensures forall i :: 0 <= i < |r| ==> r[i] in s && p(r[i])
    ensures forall i :: 0 <= i < |s| && p(s[i]) ==> s[i] in r
  {
    if |s| == 0 then []
    else
      var rest := Filter(s[1..], p);
      assert forall i :: 1 <= i < |s| ==> s[i] == s[1..][i - 1];
      if p(s[0]) then [s[0]] + rest else rest
  }

  /** `count_documents`: how many documents match. */
  function Count<T>(s: seq<T>, p: T -> bool): nat {
    |Filter(s, p)|
  }

  /** Nothing is counted exactly when no document matches. */
  lemma CountZero<T>(s: seq<T>, p: T -> bool)
    ensures Count(s, p) == 0 <==> forall i :: 0 <= i < |s| ==> !p(s[i])
  {
    var f := Filter(s, p);
    if |f| > 0 { assert f[0] in s; }
  }

  /** `cursor.skip(skip).limit(limit)`: at most `limit` documents, starting
      after the first `skip`. */
  function Page<T>(s: seq<T>, skip: nat, limit: nat): (r: seq<T>)
    ensures |r| <= limit
    ensures skip <= |s| ==> |r| == if |s| - skip < limit then |s| - skip else limit
    ensures skip >= |s| ==> r == []
    ensures forall i :: 0 <= i < |r| ==> skip + i < |s| && r[i] == s[skip + i]
  {
    var rest := if skip <= |s| then s[skip..] else [];
    if |rest| <= limit then rest else rest[..limit]
  }

  /** Position of the first matching document, or `|s|` when none matches. */
  function IndexOfFirst<T>(s: seq<T>, p: T -> bool): (i: nat)
    ensures i <= |s|
    ensures i < |s| ==> p(s[i])
    ensures forall j :: 0 <= j < i ==> !p(s[j])
  {
    if |s| == 0 then 0 else if p(s[0]) then 0 else 1 + IndexOfFirst(s[1..], p)
  }

  /** `update_one`: the first matching document is rewritten by `f`; every
      other document is left as it was. */
  function UpdateFirst<T>(s: seq<T>, p: T -> bool, f: T -> T): (r: seq<T>)
    ensures |r| == |s|
    ensures forall i :: 0 <= i < |s| ==> r[i] == if i == IndexOfFirst(s, p) then f(s[i]) else s[i]
  {
    var i := IndexOfFirst(s, p);
    if i < |s| then s[i := f(s[i])] else s
  }

  /** `update_one(..., upsert=True)`: the first matching document is
      rewritten by `f`; when none matches, `x` is appended. */
  function Upsert<T>(s: seq<T>, p: T -> bool, f: T -> T, x: T): (r: seq<T>)
    ensures var i := IndexOfFirst(s, p);
            && (i < |s| ==> r == s[i := f(s[i])])
            && (i == |s| ==> r == s + [x])
  {
    var i := IndexOfFirst(s, p);
    if i < |s| then s[i := f(s[i])] else s + [x]
  }

  /** `delete_one`: the first matching document is removed. */
  function DeleteFirst<T>(s: seq<T>, p: T -> bool): (r: seq<T>)
    ensures var i := IndexOfFirst(s, p);
            && |r| == (if i < |s| then |s| - 1 else |s|)
            && forall j :: 0 <= j < |r| ==> r[j] == if j < i then s[j] else s[j + 1]
  {
    var i := IndexOfFirst(s, p);
    if i < |s| then s[..i] + s[i + 1..] else s
  }

  /** The document `find_one` returns is the first one matching. */
  lemma FindFirstAt<T>(s: seq<T>, p: T -> bool, i: nat)
    requires i < |s| && p(s[i]) && forall j :: 0 <= j < i ==> !p(s[j])
    ensures FindFirst(s, p) == Some(s[i])
  {
    var r := FindFirst(s, p);
    var k :| 0 <= k < |s| && s[k] == r.value && p(s[k]) && forall j :: 0 <= j < k ==> !p(s[j]);
    assert k == i by {
      if k < i {} else if k > i {}
    }
  }

  /** Filtering a short literal collection, one document at a time. */
  lemma FilterCons<T>(x: T, rest: seq<T>, p: T -> bool)
    ensures Filter([x] + rest, p) == (if p(x) then [x] else []) + Filter(rest, p)
  {
    assert ([x] + rest)[1..] == rest;
  }

  lemma FilterPair<T>(x: T, y: T, p: T -> bool)
    ensures Filter([x, y], p) == (if p(x) then [x] else []) + (if p(y) then [y] else [])
  {
    FilterCons(x, [y], p);
    FilterCons(y, [], p);
    assert [x, y] == [x] + [y];
  }

  lemma FilterTriple<T>(x: T, y: T, z: T, p: T -> bool)
    ensures Filter([x, y, z], p) == (if p(x) then [x] else []) + Filter([y, z], p)
  {
    FilterCons(x, [y, z], p);
    assert [x, y, z] == [x] + [y, z];
  }

  /** Filtering distributes over concatenation. */
  lemma {:induction false} FilterAppend<T>(a: seq<T>, b: seq<T>, p: T -> bool)
    ensures Filter(a + b, p) == Filter(a, p) + Filter(b, p)
  {
    if |a| == 0 {
      assert a + b == b;
    } else {
      assert (a + b)[1..] == a[1..] + b;
      FilterAppend(a[1..], b, p);
    }
  }

  /** Filtering twice by the same predicate changes nothing. */
  lemma {:induction false} FilterIdempotent<T>(s: seq<T>, p: T -> bool)
    ensures Filter(Filter(s, p), p) == Filter(s, p)
  {
    if |s| > 0 {
      FilterIdempotent(s[1..], p);
      if p(s[0]) {
        assert ([s[0]] + Filter(s[1..], p))[1..] == Filter(s[1..], p);
      }
    }
  }

  /** Two filters that agree on every document select the same documents. */
  lemma {:induction false} FilterCongruent<T>(s: seq<T>, p: T -> bool, q: T -> bool)
    requires forall i :: 0 <= i < |s| ==> p(s[i]) == q(s[i])
    ensures Filter(s, p) == Filter(s, q)
  {
    if |s| > 0 {
      assert forall i :: 1 <= i < |s| ==> s[i] == s[1..][i - 1];
      FilterCongruent(s[1..], p, q);
    }
  }

  /** Counting by `p` splits into the documents that also match `q` and
      those that do not. */
  lemma {:induction false} CountSplit<T>(s: seq<T>, p: T -> bool, q: T -> bool, both: T -> bool, only: T -> bool)
    requires forall i :: 0 <= i < |s| ==> both(s[i]) == (p(s[i]) && q(s[i]))
    requires forall i :: 0 <= i < |s| ==> only(s[i]) == (p(s[i]) && !q(s[i]))
    ensures Count(s, p) == Count(s, both) + Count(s, only)
  {
    if |s| > 0 {
      assert forall i :: 1 <= i < |s| ==> s[i] == s[1..][i - 1];
      CountSplit(s[1..], p, q, both, only);
    }
  }

  /** A filter implied by another counts at least as many documents. */
  lemma {:induction false} CountMonotone<T>(s: seq<T>, p: T -> bool, q: T -> bool)
    requires forall i :: 0 <= i < |s| && p(s[i]) ==> q(s[i])
    ensures Count(s, p) <= Count(s, q)
  {
    if |s| > 0 {
      assert forall i :: 1 <= i < |s| ==> s[i] == s[1..][i - 1];
      CountMonotone(s[1..], p, q);
    }
  }

  /** Replacing one document changes a count only by what that document
      contributes before and after. */
  lemma {:induction false} CountReplace<T>(s: seq<T>, t: seq<T>, k: nat, p: T -> bool)
    requires |s| == |t| && k < |s|
    requires forall i :: 0 <= i < |s| && i != k ==> t[i] == s[i]
    ensures Count(t, p) + (if p(s[k]) then 1 else 0) == Count(s, p) + (if p(t[k]) then 1 else 0)
  {
    assert s == [s[0]] + s[1..] && t == [t[0]] + t[1..];
    FilterCons(s[0], s[1..], p);
    FilterCons(t[0], t[1..], p);
    if k == 0 {
      assert s[1..] == t[1..];
    } else {
      CountReplace(s[1..], t[1..], k - 1, p);
    }
  }

  /** Two consecutive pages make up the page that spans both. */
  lemma PageSplit<T>(s: seq<T>, skip: nat, a: nat, b: nat)
    ensures Page(s, skip, a) + Page(s, skip + a, b) == Page(s, skip, a + b)
  {
    if skip + a <= |s| {
      var whole := Page(s, skip, a + b);
      assert Page(s, skip, a) == whole[..a];
      assert Page(s, skip + a, b) == whole[a..];
    } else {
      assert Page(s, skip + a, b) == [];
    }
  }

  /** A page holds no document more often than the collection does. */
  lemma PageWithin<T>(s: seq<T>, skip: nat, limit: nat)
    ensures multiset(Page(s, skip, limit)) <= multiset(s)
  {
    var r := Page(s, skip, limit);
    if skip <= |s| {
      var j := skip + |r|;
      assert r == s[skip..j];
      assert s == s[..skip] + s[skip..j] + s[j..];
    }
  }

  /** Equal multisets with equal heads have equal tails. */
  lemma TailsSameMultiset<T>(a: seq<T>, b: seq<T>)
    requires a != [] && b != [] && a[0] == b[0] && multiset(a) == multiset(b)
    ensures multiset(a[1..]) == multiset(b[1..])
  {
    assert a == [a[0]] + a[1..];
    assert b == [b[0]] + b[1..];
    assert multiset(a[1..]) == multiset(a) - multiset{a[0]};
    assert multiset(b[1..]) == multiset(b) - multiset{b[0]};
  }
}
