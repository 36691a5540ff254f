/** The e-mail value object: `^[a-zA-Z0-9._%+-]+@[a-zA-Z0-9.-]+\.[a-zA-Z]{2,}$`
    as Python's `re.match` applies it. */
module Emails {
  import opened Wrappers
  import Text

  predicate IsLocalChar(c: char) {
    Text.IsLetter(c) || Text.IsDigit(c) || c == '.' || c == '_' || c == '%' || c == '+' || c == '-'
  }

  predicate IsDomainChar(c: char) {
    Text.IsLetter(c) || Text.IsDigit(c) || c == '.' || c == '-'
  }

  predicate AllLocal(s: string) { forall i :: 0 <= i < |s| ==> IsLocalChar(s[i]) }
  predicate AllDomain(s: string) { forall i :: 0 <= i < |s| ==> IsDomainChar(s[i]) }
  predicate AllLetters(s: string) { forall i :: 0 <= i < |s| ==> Text.IsLetter(s[i]) }

  /** The three pieces of the regular expression: a non-empty local part, "@",
      a non-empty domain, ".", and a top-level label of two or more letters. */
  predicate PatternParts(s: string, local: string, domain: string, tld: string) {
    && s == local + "@" + domain + "." + tld
    && |local| >= 1 && AllLocal(local)
    && |domain| >= 1 && AllDomain(domain)
    && |tld| >= 2 && AllLetters(tld)
  }

  ghost predicate MatchesPattern(s: string) {
    exists local, domain, tld :: PatternParts(s, local, domain, tld)
  }

  /** The part after the "@": a non-empty domain up to the last ".", then
      two or more letters. */
  predicate DomainAt(rest: string, d: nat)
    requires d < |rest|
  {
    d >= 1 && AllDomain(rest[..d]) && |rest| - d - 1 >= 2 && AllLetters(rest[d + 1..])
  }

  predicate DomainPart(rest: string) {
    '.' in rest && DomainAt(rest, Text.LastIndex(rest, '.'))
  }

  predicate BodyAt(s: string, at: nat)
    requires at < |s|
  {
    at >= 1 && AllLocal(s[..at]) && DomainPart(s[at + 1..])
  }

  /** The same language decided deterministically: split at the first "@",
      then at the last "." of what follows. */
  predicate EmailBody(s: string) {
    '@' in s && BodyAt(s, Text.FirstIndex(s, '@'))
  }

  lemma EmailBodyIffPattern(s: string)
    ensures EmailBody(s) <==> MatchesPattern(s)
  {
    if EmailBody(s) { BodyGivesParts(s); }
    if MatchesPattern(s) {
      var local, domain, tld :| PatternParts(s, local, domain, tld);
      PartsGiveBody(s, local, domain, tld);
    }
  }

  lemma BodyGivesParts(s: string)
    requires EmailBody(s)
    ensures MatchesPattern(s)
  {
    var at := Text.FirstIndex(s, '@');
    var rest := s[at + 1..];
    PiecesMatch(s, at, rest, Text.LastIndex(rest, '.'));
  }

  /** The pieces found at the first "@" and the last "." after it. */
  lemma PiecesMatch(s: string, at: nat, rest: string, d: nat)
    requires at < |s| && s[at] == '@' && rest == s[at + 1..] && d < |rest| && rest[d] == '.'
    requires at >= 1 && AllLocal(s[..at]) && DomainAt(rest, d)
    ensures MatchesPattern(s)
  {
    var local, domain, tld := s[..at], rest[..d], rest[d + 1..];
    SplitAround(s, at);
    SplitAround(rest, d);
    Rejoin(s, local, rest, domain, tld);
    assert PatternParts(s, local, domain, tld);
  }

  lemma Rejoin(s: string, local: string, rest: string, domain: string, tld: string)
    requires s == local + ['@'] + rest && rest == domain + ['.'] + tld
    ensures s == local + "@" + domain + "." + tld
  {
    assert "@" == ['@'] && "." == ['.'];
  }

  lemma SplitAround(s: string, k: nat)
    requires k < |s|
    ensures s == s[..k] + [s[k]] + s[k + 1..]
  {
  }

  lemma NoAtInLocal(local: string)
    requires AllLocal(local)
    ensures '@' !in local
  {
  }

  lemma NoDotInLetters(tld: string)
    requires AllLetters(tld)
    ensures '.' !in tld
  {
  }

  lemma PartsGiveDomain(domain: string, tld: string)
    requires |domain| >= 1 && AllDomain(domain) && |tld| >= 2 && AllLetters(tld)
    ensures DomainPart(domain + "." + tld)
  {
    var rest := domain + ['.'] + tld;
    NoDotInLetters(tld);
    Text.LastIndexBefore(domain, '.', tld);
    assert rest[..|domain|] == domain;
    assert rest[|domain| + 1..] == tld;
  }

  lemma PartsGiveBody(s: string, local: string, domain: string, tld: string)
    requires PatternParts(s, local, domain, tld)
    ensures EmailBody(s)
  {
    NoAtInLocal(local);
    var rest := domain + "." + tld;
    assert s == local + ['@'] + rest;
    Text.FirstIndexAfter(local, '@', rest);
    assert s[|local| + 1..] == rest;
    assert s[..|local|] == local;
    PartsGiveDomain(domain, tld);
  }

  /** `Email._is_valid_email`, decided by `EmailBody`. */
  predicate IsValidEmail(s: string) {
    EmailBody(s) || (|s| > 0 && s[|s| - 1] == '\n' && EmailBody(s[..|s| - 1]))
  }

  /** An address is accepted exactly when it matches the pattern, or matches
      it before a single final newline, which `$` tolerates. */
  lemma ValidIffPattern(s: string)
    ensures IsValidEmail(s) <==> MatchesPattern(s) || (|s| > 0 && s[|s| - 1] == '\n' && MatchesPattern(s[..|s| - 1]))
  {
    EmailBodyIffPattern(s);
    EmailBodyIffPatternBeforeLast(s);
  }

  lemma EmailBodyIffPatternBeforeLast(s: string)
    ensures |s| > 0 ==> (EmailBody(s[..|s| - 1]) <==> MatchesPattern(s[..|s| - 1]))
  {
    if |s| > 0 { EmailBodyIffPattern(s[..|s| - 1]); }
  }

  /** The domain part never contains an "@". */
  lemma NoAtInDomainPart(rest: string)
    requires DomainPart(rest)
    ensures '@' !in rest
  {
    var d := Text.LastIndex(rest, '.');
    assert rest == rest[..d] + [rest[d]] + rest[d + 1..];
    assert '@' !in rest[..d];
    assert '@' !in rest[d + 1..];
  }

  /** In a well-formed address the first "@" is the only one. */
  lemma OnlyAtInBody(t: string)
    requires EmailBody(t)
    ensures forall k :: 0 <= k < |t| && t[k] == '@' ==> k == Text.FirstIndex(t, '@')
  {
    var at := Text.FirstIndex(t, '@');
    var rest := t[at + 1..];
    NoAtInDomainPart(rest);
    forall k | 0 <= k < at ensures t[k] != '@' {
      assert t[k] == t[..at][k];
    }
    forall k | at < k < |t| ensures t[k] != '@' {
      assert t[k] == rest[k - at - 1];
    }
  }

  /** Neither side of the "@" may contain another "@", so an accepted address
      has exactly one. */
  lemma ExactlyOneAt(s: string)
    requires IsValidEmail(s)
    ensures '@' in s
    ensures forall i, j :: 0 <= i < |s| && 0 <= j < |s| && s[i] == '@' && s[j] == '@' ==> i == j
  {
    var n := ValidPrefix(s);
    OneAtWithin(s, n);
  }

  /** An accepted address is a well-formed body, perhaps followed by a newline. */
  lemma ValidPrefix(s: string) returns (n: nat)
    requires IsValidEmail(s)
    ensures n <= |s| && EmailBody(s[..n])
    ensures forall k :: n <= k < |s| ==> s[k] != '@'
  {
    if EmailBody(s) {
      n := |s|;
      assert s[..n] == s;
    } else {
      n := |s| - 1;
    }
  }

  /** A well-formed prefix followed by no "@" leaves a single "@". */
  lemma OneAtWithin(s: string, n: nat)
    requires n <= |s| && EmailBody(s[..n])
    requires forall k :: n <= k < |s| ==> s[k] != '@'
    ensures '@' in s
    ensures forall i, j :: 0 <= i < |s| && 0 <= j < |s| && s[i] == '@' && s[j] == '@' ==> i == j
  {
    var t := s[..n];
    OnlyAtInBody(t);
    var at := Text.FirstIndex(t, '@');
    assert s[at] == '@';
    forall i | 0 <= i < |s| && s[i] == '@' ensures i == at {
      assert i < n;
      assert t[i] == s[i];
    }
  }

  datatype Email = Email(value: string)

  /** `Email(value)`: construction raises on an invalid value. */
  function NewEmail(s: string): (r: Result<Email, Error>)
    ensures r.Ok? <==> IsValidEmail(s)
    ensures r.Ok? ==> r.value.value == s
    ensures r.Err? ==> r.error == ValueError("Invalid email: " + s)
  {
    if IsValidEmail(s) then Ok(Email(s)) else Err(ValueError("Invalid email: " + s))
  }

  /** `str(email)` is the stored value. */
  function ToString(e: Email): string {
    e.value
  }

  lemma RoundTrip(s: string)
    requires IsValidEmail(s)
    ensures NewEmail(s).Ok? && ToString(NewEmail(s).value) == s
  {
  }

  /** A trailing newline after an address that matches the pattern is
      tolerated. */
  lemma TrailingNewlineAccepted(s: string)
    requires MatchesPattern(s)
    ensures IsValidEmail(s + "\n")
  {
    var t := s + "\n";
    assert t[..|s|] == s;
    ValidIffPattern(t);
  }

  /** For instance "a@b.io" followed by a newline. */
  lemma TrailingNewlineExample()
    ensures IsValidEmail("a@b.io" + "\n")
  {
    assert PatternParts("a@b.io", "a", "b", "io");
    TrailingNewlineAccepted("a@b.io");
  }
}
