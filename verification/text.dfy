/** Models of the few Python `str` operations the services use: `strip`,
    `lower`, `replace`, `split(sep)`, `split()` and `startswith`. */
module Text {

  /** `str.isspace`, the whitespace `strip()` and `split()` remove: the
      characters of category Zs and of bidirectional class WS, B or S. */
  predicate IsSpace(c: char) {
    || c == ' ' || c == '\t' || c == '\n' || c == '\r' || c == '\U{000B}' || c == '\U{000C}'
    || ('\U{001C}' <= c <= '\U{001F}')
    || c == '\U{0085}' || c == '\U{00A0}' || c == '\U{1680}'
    || ('\U{2000}' <= c <= '\U{200A}')
    || c == '\U{2028}' || c == '\U{2029}' || c == '\U{202F}' || c == '\U{205F}' || c == '\U{3000}'
  }

  predicate IsBlank(s: string) {
    forall i :: 0 <= i < |s| ==> IsSpace(s[i])
  }

  predicate IsUpper(c: char) { 'A' <= c <= 'Z' }
  predicate IsLowerLetter(c: char) { 'a' <= c <= 'z' }
  predicate IsDigit(c: char) { '0' <= c <= '9' }
  predicate IsLetter(c: char) { IsUpper(c) || IsLowerLetter(c) }

  function LowerChar(c: char): (r: char)
    ensures IsUpper(c) ==> r as int == c as int + 32
    ensures !IsUpper(c) ==> r == c
    ensures !IsUpper(r)
  {
    if IsUpper(c) then (c as int + 32) as char else c
  }

  /** `str.lower` on ASCII letters. */
  function Lower(s: string): (r: string)
    ensures |r| == |s|
    ensures forall i :: 0 <= i < |s| ==> r[i] == LowerChar(s[i])
  {
    seq(|s|, i requires 0 <= i < |s| => LowerChar(s[i]))
  }

  /** Case-insensitive equality, as a regex with the `i` option compares letters. */
  predicate EqualsIgnoreCase(a: string, b: string) {
    Lower(a) == Lower(b)
  }

  /** `s.replace(a, b)` for single characters. */
  function ReplaceChar(s: string, a: char, b: char): (r: string)
    ensures |r| == |s|
    ensures forall i :: 0 <= i < |s| ==> r[i] == (if s[i] == a then b else s[i])
  {
    seq(|s|, i requires 0 <= i < |s| => if s[i] == a then b else s[i])
  }

  function TrimLeft(s: string): (r: string)
    ensures |r| <= |s| && r == s[|s| - |r|..]
    ensures r == [] || !IsSpace(r[0])
    ensures IsBlank(s[..|s| - |r|])
  {
    if |s| > 0 && IsSpace(s[0]) then TrimLeft(s[1..]) else s
  }

  function TrimRight(s: string): (r: string)
    ensures |r| <= |s| && r == s[..|r|]
    ensures r == [] || !IsSpace(r[|r| - 1])
    ensures IsBlank(s[|r|..])
  {
    if |s| > 0 && IsSpace(s[|s| - 1]) then
      var r := TrimRight(s[..|s| - 1]);
      assert s[|r|..] == s[..|s| - 1][|r|..] + [s[|s| - 1]];
      r
    else s
  }

  /** `str.strip()`: a contiguous slice of `s` with the surrounding whitespace removed. */
  function Strip(s: string): (r: string)
    ensures exists i, j :: 0 <= i <= j <= |s| && r == s[i..j] && IsBlank(s[..i]) && IsBlank(s[j..])
    ensures r == [] || (!IsSpace(r[0]) && !IsSpace(r[|r| - 1]))
  {
    var l := TrimLeft(s);
    var r := TrimRight(l);
    StripSlices(s, l, r);
    r
  }

  /** The trimmed middle is a slice of the original between two blank ends. */
  lemma StripSlices(s: string, l: string, r: string)
    requires |l| <= |s| && l == s[|s| - |l|..] && IsBlank(s[..|s| - |l|])
    requires |r| <= |l| && r == l[..|r|] && IsBlank(l[|r|..])
    ensures exists i, j :: 0 <= i <= j <= |s| && r == s[i..j] && IsBlank(s[..i]) && IsBlank(s[j..])
  {
    var i, j := |s| - |l|, |s| - |l| + |r|;
    assert r == s[i..j] by {
      forall k | 0 <= k < |r| ensures r[k] == s[i + k] {
        assert r[k] == l[k];
      }
    }
    assert s[j..] == l[|r|..] by {
      forall k | 0 <= k < |s| - j ensures s[j..][k] == l[|r|..][k] { }
    }
  }

  /** A string strips to nothing exactly when it is all whitespace. */
  lemma StripEmptyIffBlank(s: string)
    ensures Strip(s) == [] <==> IsBlank(s)
  {
    if Strip(s) == [] { EmptyStripIsBlank(s); }
    if IsBlank(s) { BlankStripsEmpty(s); }
  }

  lemma EmptyStripIsBlank(s: string)
    requires Strip(s) == []
    ensures IsBlank(s)
  {
    var i, j :| 0 <= i <= j <= |s| && [] == s[i..j] && IsBlank(s[..i]) && IsBlank(s[j..]);
    forall k | 0 <= k < |s| ensures IsSpace(s[k]) {
      if k < i { assert s[k] == s[..i][k]; } else { assert s[k] == s[j..][k - j]; }
    }
  }

  lemma BlankStripsEmpty(s: string)
    requires IsBlank(s)
    ensures Strip(s) == []
  {
  }

  /** A string without whitespace at either end strips to itself. */
  lemma StripUnchanged(s: string)
    requires s == [] || (!IsSpace(s[0]) && !IsSpace(s[|s| - 1]))
    ensures Strip(s) == s
  {
    assert TrimLeft(s) == s;
    assert TrimRight(s) == s;
  }

  /** Stripping is idempotent. */
  lemma StripIdempotent(s: string)
    ensures Strip(Strip(s)) == Strip(s)
  {
    var r := Strip(s);
    assert TrimLeft(r) == r;
    assert TrimRight(r) == r;
  }

  function Join(pieces: seq<string>, sep: char): string {
    if |pieces| == 0 then "" else if |pieces| == 1 then pieces[0]
    else pieces[0] + [sep] + Join(pieces[1..], sep)
  }

  /** `s.split(sep)`: never empty, no piece contains the separator, and the
      pieces joined by the separator give back `s`. */
  function Split(s: string, sep: char): (r: seq<string>)
    ensures |r| >= 1
    ensures forall k :: 0 <= k < |r| ==> sep !in r[k]
    ensures Join(r, sep) == s
  {
    if sep !in s then [s]
    else
      var i := FirstIndex(s, sep);
      var rest := Split(s[i + 1..], sep);
      assert sep !in s[..i];
      [s[..i]] + rest
  }

  /** Splitting what was joined gives back the pieces, when none contains
      the separator. */
  lemma {:induction false} SplitJoin(pieces: seq<string>, sep: char)
    requires |pieces| >= 1
    requires forall k :: 0 <= k < |pieces| ==> sep !in pieces[k]
    ensures Split(Join(pieces, sep), sep) == pieces
  {
    if |pieces| > 1 {
      SplitCons(pieces[0], sep, Join(pieces[1..], sep));
      SplitJoin(pieces[1..], sep);
      assert pieces == [pieces[0]] + pieces[1..];
    }
  }

  /** A separator-free piece before the first separator is split off whole. */
  lemma SplitCons(a: string, sep: char, rest: string)
    requires sep !in a
    ensures Split(a + [sep] + rest, sep) == [a] + Split(rest, sep)
  {
    var s := a + [sep] + rest;
    FirstIndexAfter(a, sep, rest);
    assert s[..|a|] == a;
    assert s[|a| + 1..] == rest;
  }

  function FirstIndex(s: string, c: char): (i: nat)
    requires c in s
    ensures i < |s| && s[i] == c && c !in s[..i]
  {
    if s[0] == c then 0 else 1 + FirstIndex(s[1..], c)
  }

  function LastIndex(s: string, c: char): (i: nat)
    requires c in s
    ensures i < |s| && s[i] == c && c !in s[i + 1..]
  {
    if s[|s| - 1] == c then |s| - 1
    else
      assert c in s[..|s| - 1] by { var k :| 0 <= k < |s| && s[k] == c; assert s[..|s| - 1][k] == c; }
      var i := LastIndex(s[..|s| - 1], c);
      assert s[i + 1..] == s[..|s| - 1][i + 1..] + [s[|s| - 1]];
      i
  }

  /** The first occurrence of `c` in `a + [c] + b`, when `a` has none, is right after `a`. */
  lemma FirstIndexAfter(a: string, c: char, b: string)
    requires c !in a
    ensures c in a + [c] + b && FirstIndex(a + [c] + b, c) == |a|
  {
    var s := a + [c] + b;
    assert s[|a|] == c;
  }

  /** The last occurrence of `c` in `a + [c] + b`, when `b` has none, is right after `a`. */
  lemma LastIndexBefore(a: string, c: char, b: string)
    requires c !in b
    ensures c in a + [c] + b && LastIndex(a + [c] + b, c) == |a|
  {
    var s := a + [c] + b;
    assert s[|a|] == c;
  }

  /** `s.split()` with no argument: the maximal runs of non-whitespace. */
  function SplitWhitespace(s: string): (r: seq<string>)
    ensures forall k :: 0 <= k < |r| ==> IsWord(r[k])
    ensures r == [] <==> IsBlank(s)
    decreases |s|
  {
    if s == [] then []
    else if IsSpace(s[0]) then
      var r := SplitWhitespace(s[1..]);
      assert IsBlank(s) <==> IsBlank(s[1..]) by {
        assert forall i :: 0 <= i < |s| - 1 ==> s[1..][i] == s[i + 1];
      }
      r
    else
      var n := NextWord(s);
      var w, rest := s[..n], SplitWhitespace(s[n..]);
      assert forall k :: 0 <= k < |rest| + 1 ==> IsWord(([w] + rest)[k]) by {
        forall k | 0 <= k < |rest| + 1 ensures IsWord(([w] + rest)[k]) {
          if k == 0 { assert ([w] + rest)[k] == w; } else { assert ([w] + rest)[k] == rest[k - 1]; }
        }
      }
      [w] + rest
  }

  /** The length of the word `t` starts with. */
  function NextWord(t: string): (n: nat)
    requires t != [] && !IsSpace(t[0])
    ensures 0 < n <= |t| && IsWord(t[..n])
    ensures n < |t| ==> IsSpace(t[n])
  {
    var n := WordLength(t);
    var w := t[..n];
    assert IsWord(w) by {
      forall j | 0 <= j < |w| ensures !IsSpace(w[j]) { assert w[j] == t[j]; }
    }
    n
  }

  function WordLength(s: string): (n: nat)
    ensures 0 < n <= |s| || (s == [] && n == 0) || (s != [] && IsSpace(s[0]) && n == 0)
    ensures forall j :: 0 <= j < n ==> !IsSpace(s[j])
    ensures n < |s| ==> IsSpace(s[n])
  {
    if s == [] || IsSpace(s[0]) then 0 else 1 + WordLength(s[1..])
  }

  /** The blank runs `gaps` woven between the words `ws`:
      `gaps[0] + ws[0] + gaps[1] + ... + ws[n-1] + gaps[n]`. */
  function Weave(gaps: seq<string>, ws: seq<string>): string
    requires |gaps| == |ws| + 1
    decreases |ws|
  {
    if ws == [] then gaps[0] else gaps[0] + ws[0] + Weave(gaps[1..], ws[1..])
  }

  /** Gaps of whitespace, those between two words non-empty. */
  predicate Separators(gaps: seq<string>) {
    && (forall i :: 0 <= i < |gaps| ==> IsBlank(gaps[i]))
    && (forall i :: 0 < i < |gaps| - 1 ==> gaps[i] != [])
  }

  /** The pieces of `split()` are the maximal non-space runs in order: woven
      with gaps of whitespace, non-empty between two pieces, they rebuild
      the input. */
  lemma {:induction false} SplitWhitespaceCovers(s: string) returns (gaps: seq<string>)
    ensures |gaps| == |SplitWhitespace(s)| + 1 && Separators(gaps)
    ensures Weave(gaps, SplitWhitespace(s)) == s
    decreases |s|, 1
  {
    if s == [] {
      gaps := [""];
    } else if IsSpace(s[0]) {
      gaps := CoversAfterSpace(s);
    } else {
      gaps := CoversAfterWord(s);
    }
  }

  lemma {:induction false} CoversAfterSpace(s: string) returns (gaps: seq<string>)
    requires s != [] && IsSpace(s[0])
    ensures |gaps| == |SplitWhitespace(s)| + 1 && Separators(gaps)
    ensures Weave(gaps, SplitWhitespace(s)) == s
    decreases |s|, 0
  {
    var g := SplitWhitespaceCovers(s[1..]);
    var r := SplitWhitespace(s[1..]);
    assert SplitWhitespace(s) == r;
    gaps := [[s[0]] + g[0]] + g[1..];
    WidenFirstGap(s[0], g, r);
    assert s == [s[0]] + s[1..];
  }

  /** Putting a whitespace character in front of the first gap. */
  lemma WidenFirstGap(c: char, g: seq<string>, r: seq<string>)
    requires IsSpace(c) && |g| == |r| + 1 && Separators(g)
    ensures Separators([[c] + g[0]] + g[1..])
    ensures Weave([[c] + g[0]] + g[1..], r) == [c] + Weave(g, r)
  {
    var gaps := [[c] + g[0]] + g[1..];
    assert gaps[1..] == g[1..];
    assert forall i :: 0 < i < |gaps| ==> gaps[i] == g[i];
    BlankCons(c, g[0]);
    if r != [] {
      assert Weave(gaps, r) == gaps[0] + r[0] + Weave(g[1..], r[1..]);
      assert Weave(g, r) == g[0] + r[0] + Weave(g[1..], r[1..]);
    }
  }

  lemma BlankCons(c: char, b: string)
    requires IsSpace(c) && IsBlank(b)
    ensures IsBlank([c] + b)
  {
    assert forall i :: 0 < i < |b| + 1 ==> ([c] + b)[i] == b[i - 1];
  }

  lemma {:induction false} CoversAfterWord(s: string) returns (gaps: seq<string>)
    requires s != [] && !IsSpace(s[0])
    ensures |gaps| == |SplitWhitespace(s)| + 1 && Separators(gaps)
    ensures Weave(gaps, SplitWhitespace(s)) == s
    decreases |s|, 0
  {
    var n := NextWord(s);
    var rest := SplitWhitespace(s[n..]);
    var g := SplitWhitespaceCovers(s[n..]);
    gaps := [""] + g;
    var r := SplitWhitespace(s);
    assert r == [s[..n]] + rest;
    if rest != [] {
      assert Weave(g, rest) == g[0] + rest[0] + Weave(g[1..], rest[1..]);
      assert IsSpace(s[n..][0]) && !IsSpace(rest[0][0]);
      assert g[0] != [];
    }
    PrependEmptyGap(s[..n], g, rest);
    assert s == s[..n] + s[n..];
  }

  /** A word in front of the woven rest, after an empty first gap. */
  lemma PrependEmptyGap(w: string, g: seq<string>, rest: seq<string>)
    requires |g| == |rest| + 1 && Separators(g)
    requires rest != [] ==> g[0] != []
    ensures Separators([""] + g)
    ensures Weave([""] + g, [w] + rest) == w + Weave(g, rest)
  {
    var gaps := [""] + g;
    var ws := [w] + rest;
    assert gaps[1..] == g && ws[1..] == rest;
    assert Weave(gaps, ws) == gaps[0] + ws[0] + Weave(gaps[1..], ws[1..]);
    assert gaps[0] + ws[0] == w;
    assert forall i :: 0 <= i < |gaps| ==> IsBlank(gaps[i]) by {
      forall i | 0 <= i < |gaps| ensures IsBlank(gaps[i]) {
        if i > 0 { assert gaps[i] == g[i - 1]; }
      }
    }
    assert forall i :: 0 < i < |gaps| - 1 ==> gaps[i] != [] by {
      forall i | 0 < i < |gaps| - 1 ensures gaps[i] != [] {
        assert gaps[i] == g[i - 1];
      }
    }
  }

  /** Splitting whitespace off the front changes nothing. */
  lemma {:induction false} SplitAfterBlank(b: string, t: string)
    requires IsBlank(b)
    ensures SplitWhitespace(b + t) == SplitWhitespace(t)
    decreases |b|
  {
    if b != [] {
      assert IsSpace(b[0]);
      assert (b + t)[0] == b[0];
      assert (b + t)[1..] == b[1..] + t;
      assert IsBlank(b[1..]) by {
        assert forall i :: 0 <= i < |b| - 1 ==> b[1..][i] == b[i + 1];
      }
      SplitAfterBlank(b[1..], t);
      assert SplitWhitespace(b + t) == SplitWhitespace((b + t)[1..]);
    } else {
      assert b + t == t;
    }
  }

  /** Conversely, words woven with such gaps split back into the words. */
  lemma {:induction false} SplitWeave(gaps: seq<string>, ws: seq<string>)
    requires |gaps| == |ws| + 1 && Separators(gaps)
    requires forall k :: 0 <= k < |ws| ==> IsWord(ws[k])
    ensures SplitWhitespace(Weave(gaps, ws)) == ws
    decreases |ws|
  {
    if ws == [] {
      SplitAfterBlank(gaps[0], []);
      assert gaps[0] + [] == gaps[0];
    } else {
      var tail := Weave(gaps[1..], ws[1..]);
      assert Separators(gaps[1..]) by {
        assert forall i :: 0 < i < |gaps| - 2 ==> gaps[1..][i] == gaps[i + 1];
      }
      SplitWeave(gaps[1..], ws[1..]);
      assert tail == [] || IsSpace(tail[0]) by {
        if ws[1..] == [] {
          assert tail == gaps[1];
        } else {
          assert tail == gaps[1] + ws[1..][0] + Weave(gaps[1..][1..], ws[1..][1..]);
          assert gaps[1] != [];
        }
      }
      assert gaps[0] + ws[0] + tail == gaps[0] + (ws[0] + tail);
      SplitAfterBlank(gaps[0], ws[0] + tail);
      SplitLeadingWord(ws[0], tail);
      assert ws == [ws[0]] + ws[1..];
    }
  }

  /** A non-empty run of non-whitespace characters. */
  predicate IsWord(w: string) {
    w != [] && forall j :: 0 <= j < |w| ==> !IsSpace(w[j])
  }

  lemma {:induction false} WordLengthOfWord(w: string, s: string)
    requires IsWord(w)
    requires s == [] || IsSpace(s[0])
    ensures WordLength(w + s) == |w|
  {
    assert (w + s)[1..] == w[1..] + s;
    if |w| > 1 {
      WordLengthOfWord(w[1..], s);
    }
  }

  /** A word followed by whitespace or nothing is the first piece of
      `split()`. */
  lemma SplitLeadingWord(w: string, s: string)
    requires IsWord(w)
    requires s == [] || IsSpace(s[0])
    ensures SplitWhitespace(w + s) == [w] + SplitWhitespace(s)
  {
    var t := w + s;
    assert t[0] == w[0];
    WordLengthOfWord(w, s);
    assert t[..|w|] == w && t[|w|..] == s;
  }

  /** A lone word after a blank splits to itself. */
  lemma SplitSpacedWord(b: string)
    requires IsWord(b)
    ensures SplitWhitespace(" " + b) == [b]
  {
    var t := " " + b;
    assert t[1..] == b;
    SplitLeadingWord(b, []);
    assert b + [] == b;
  }

  /** `"a b".split()` is `["a", "b"]` for words `a` and `b`. */
  lemma SplitTwoWords(a: string, b: string)
    requires IsWord(a) && IsWord(b)
    ensures SplitWhitespace(a + " " + b) == [a, b]
  {
    assert a + " " + b == a + (" " + b);
    SplitLeadingWord(a, " " + b);
    SplitSpacedWord(b);
  }

  predicate StartsWith(s: string, prefix: string) {
    |prefix| <= |s| && s[..|prefix|] == prefix
  }
}
