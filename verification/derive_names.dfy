/**
 * Identity strings derived from a campus e-mail address
 * (src/lib/deriveNames.ts): first and last name, the display name,
 * a username suggestion, and normalisation of a user-chosen username.
 */
module DeriveNames {
  import opened Wrappers
  import opened Text
  import opened Seqs

  datatype Names = Names(firstName: Option<string>, lastName: Option<string>)

  /** `email.split("@")[0]`: everything before the first '@' (all of it when there is none). */
  function LocalPart(email: string): (r: string)
    ensures '@' !in r
  {
    var r := Split(email, '@')[0];
    assert NoneOf(r, {'@'});
    r
  }

  /** The separators of the name tokens, `/[._-]/`. */
  const NameSeparators: set<char> := {'.', '_', '-'}

  predicate NotDigit(c: char) { !IsDigit(c) }

  predicate NonEmpty(s: string) { s != "" }

  /**
   * `t.replace(/\d+/g, "").trim()`: every digit run removed, then trimmed.
   * A token without digits comes out as its trimmed self.
   */
  function CleanToken(t: string): (r: string)
    ensures forall i :: 0 <= i < |r| ==> !IsDigit(r[i]) && r[i] in t
    ensures r == [] || (!IsSpace(r[0]) && !IsSpace(r[|r| - 1]))
    ensures NoDigits(t) ==> r == Trim(t)
  {
    DigitFreeKept(t);
    Trim(Filter(t, NotDigit))
  }

  lemma DigitFreeKept(t: string)
    ensures NoDigits(t) ==> Filter(t, NotDigit) == t
  {
    if NoDigits(t) {
      FilterAll(t, NotDigit);
    }
  }

  /** A surviving token: non-empty, with no digit and no separator. */
  predicate NameToken(t: string) {
    t != "" && NoDigits(t) && NoneOf(t, NameSeparators)
  }

  /** The surviving name tokens of a local part, in order. */
  function NameTokens(local: string): seq<string> {
    Filter(Map(SplitBy(local, NameSeparators), CleanToken), NonEmpty)
  }

  lemma NameTokensWellFormed(local: string)
    ensures forall k :: 0 <= k < |NameTokens(local)| ==> NameToken(NameTokens(local)[k])
  {
    var parts := SplitBy(local, NameSeparators);
    var cleaned := Map(parts, CleanToken);
    forall k | 0 <= k < |cleaned| && cleaned[k] != ""
      ensures NameToken(cleaned[k])
    {
      assert NoneOf(parts[k], NameSeparators);
      assert cleaned[k] == CleanToken(parts[k]);
    }
  }

  /**
   * `s.charAt(0).toUpperCase() + s.slice(1).toLowerCase()`: the same letters
   * up to case, the first not lower-case and the others not upper-case.
   */
  function TitleCase(s: string): (r: string)
    ensures |r| == |s|
    ensures ToLower(r) == ToLower(s)
    ensures s != "" ==> !IsLower(r[0])
    ensures forall i :: 1 <= i < |r| ==> !IsUpper(r[i])
    ensures NoDigits(s) ==> NoDigits(r)
  {
    if s == "" then ""
    else
      var r := [UpperChar(s[0])] + ToLower(s[1..]);
      CaseFold(s[0]);
      assert forall i :: 1 <= i < |r| ==> r[i] == LowerChar(s[i]);
      forall i | 1 <= i < |r|
        ensures LowerChar(r[i]) == LowerChar(s[i]) && !IsUpper(r[i]) && (IsDigit(r[i]) ==> IsDigit(s[i]))
      {
        CaseFold(s[i]);
      }
      r
  }

  /** Case mapping of one character: folding to lower case forgets an earlier case mapping. */
  lemma CaseFold(c: char)
    ensures LowerChar(UpperChar(c)) == LowerChar(c) && !IsLower(UpperChar(c))
    ensures LowerChar(LowerChar(c)) == LowerChar(c) && !IsUpper(LowerChar(c))
    ensures IsDigit(UpperChar(c)) ==> IsDigit(c)
    ensures IsDigit(LowerChar(c)) ==> IsDigit(c)
  {
  }

  /** `deriveNamesFromEmail`. */
  function DeriveNamesFromEmail(email: string): (r: Names)
    ensures r.firstName.None? <==> NameTokens(LocalPart(email)) == []
    ensures r.lastName.Some? ==> r.firstName.Some?
    ensures r.lastName.Some? <==> |NameTokens(LocalPart(email))| >= 2
    ensures r.firstName.Some? ==> r.firstName.value != "" && NoDigits(r.firstName.value)
    ensures r.lastName.Some? ==> r.lastName.value != "" && NoDigits(r.lastName.value)
    ensures r.firstName.Some? ==> r.firstName.value == TitleCase(NameTokens(LocalPart(email))[0])
    ensures r.lastName.Some? ==> r.lastName.value == TitleCase(NameTokens(LocalPart(email))[1])
  {
    var tokens := NameTokens(LocalPart(email));
    NameTokensWellFormed(LocalPart(email));
    if |tokens| == 0 then Names(None, None)
    else
      assert NameToken(tokens[0]);
      var first := TitleCase(tokens[0]);
      if |tokens| >= 2 then
        assert NameToken(tokens[1]);
        Names(Some(first), Some(TitleCase(tokens[1])))
      else Names(Some(first), None)
  }

  predicate NoDigits(s: string) { forall i :: 0 <= i < |s| ==> !IsDigit(s[i]) }

  /**
   * Every digit run is removed from a token, wherever it stands, not only a
   * trailing one: "jo22e" cleans like "joe".
   */
  lemma DigitRunsRemoved(x: string, d: string, y: string)
    requires forall i :: 0 <= i < |d| ==> IsDigit(d[i])
    ensures CleanToken(x + d + y) == CleanToken(x + y)
  {
    FilterAppend(x + d, y, NotDigit);
    FilterAppend(x, d, NotDigit);
    FilterAppend(x, y, NotDigit);
    FilterNone(d, NotDigit);
    var f := Filter(x + d + y, NotDigit);
    assert f == Filter(x + y, NotDigit);
  }

  /** A local part made of digits only (e.g. "99999") yields no names. */
  lemma DigitsOnlyGivesNoNames(email: string)
    requires forall i :: 0 <= i < |LocalPart(email)| ==> IsDigit(LocalPart(email)[i])
    ensures DeriveNamesFromEmail(email) == Names(None, None)
  {
    var local := LocalPart(email);
    SplitByNone(local, NameSeparators);
    FilterNone(local, NotDigit);
    assert CleanToken(local) == "";
    var cleaned := Map([local], CleanToken);
    FilterNone(cleaned, NonEmpty);
  }

  /** A local part without separators ("john22") gives only a first name, its title-cased cleaned text. */
  lemma SingleToken(email: string)
    requires NoneOf(LocalPart(email), NameSeparators)
    requires CleanToken(LocalPart(email)) != ""
    ensures DeriveNamesFromEmail(email) == Names(Some(TitleCase(CleanToken(LocalPart(email)))), None)
  {
    var local := LocalPart(email);
    SplitByNone(local, NameSeparators);
    CleanedSingle(SplitBy(local, NameSeparators), local);
  }

  lemma CleanedSingle(parts: seq<string>, a: string)
    requires parts == [a]
    requires CleanToken(a) != ""
    ensures Filter(Map(parts, CleanToken), NonEmpty) == [CleanToken(a)]
  {
    var x := CleanToken(a);
    assert Map(parts, CleanToken) == [x];
    FilterAll([x], NonEmpty);
  }

  lemma TwoPartsSplit(local: string, a: string, sep: char, b: string)
    requires sep in NameSeparators
    requires local == a + [sep] + b
    requires NoneOf(a, NameSeparators) && NoneOf(b, NameSeparators)
    ensures SplitBy(local, NameSeparators) == [a, b]
  {
    SplitByConcat(a, sep, b, NameSeparators);
    SplitByNone(a, NameSeparators);
    SplitByNone(b, NameSeparators);
  }

  /**
   * "first.last" with surviving tokens gives the title-cased first token as
   * first name and the title-cased second as last name ("jane.doe22" gives
   * "Jane" and "Doe").
   */
  lemma FirstDotLast(email: string, a: string, sep: char, b: string)
    requires sep in NameSeparators
    requires LocalPart(email) == a + [sep] + b
    requires NoneOf(a, NameSeparators) && NoneOf(b, NameSeparators)
    requires CleanToken(a) != "" && CleanToken(b) != ""
    ensures DeriveNamesFromEmail(email)
         == Names(Some(TitleCase(CleanToken(a))), Some(TitleCase(CleanToken(b))))
  {
    TwoPartsSplit(LocalPart(email), a, sep, b);
    TwoPartsTokens(LocalPart(email), a, b);
  }

  lemma TwoPartsTokens(local: string, a: string, b: string)
    requires SplitBy(local, NameSeparators) == [a, b]
    requires CleanToken(a) != "" && CleanToken(b) != ""
    ensures NameTokens(local) == [CleanToken(a), CleanToken(b)]
  {
    CleanedPair(SplitBy(local, NameSeparators), a, b);
  }

  lemma CleanedPair(parts: seq<string>, a: string, b: string)
    requires parts == [a, b]
    requires CleanToken(a) != "" && CleanToken(b) != ""
    ensures Filter(Map(parts, CleanToken), NonEmpty) == [CleanToken(a), CleanToken(b)]
  {
    var x, y := CleanToken(a), CleanToken(b);
    MapPair(a, b, CleanToken);
    KeptPair(x, y);
  }

  lemma MapPair(a: string, b: string, f: string -> string)
    ensures Map([a, b], f) == [f(a), f(b)]
  {
  }

  lemma KeptPair(x: string, y: string)
    requires x != "" && y != ""
    ensures Filter([x, y], NonEmpty) == [x, y]
  {
    FilterAll([x, y], NonEmpty);
  }

  /** Only the first two tokens matter: later tokens are ignored. */
  lemma LaterTokensIgnored(email1: string, email2: string)
    requires |NameTokens(LocalPart(email1))| >= 2 && |NameTokens(LocalPart(email2))| >= 2
    requires NameTokens(LocalPart(email1))[..2] == NameTokens(LocalPart(email2))[..2]
    ensures DeriveNamesFromEmail(email1) == DeriveNamesFromEmail(email2)
  {
    assert NameTokens(LocalPart(email1))[0] == NameTokens(LocalPart(email1))[..2][0];
    assert NameTokens(LocalPart(email1))[1] == NameTokens(LocalPart(email1))[..2][1];
  }

  /** `name?.trim()`, a missing name read as the empty (falsy) string. */
  function TrimmedName(name: Option<string>): string {
    if name.Some? then Trim(name.value) else ""
  }

  /**
   * `computeDisplayName`: `@username` when a username is set, else
   * "First Last", else "First", else the local part, else "Student".
   */
  function ComputeDisplayName(firstName: Option<string>, lastName: Option<string>,
                              email: string, username: Option<string>): (r: string)
    ensures r != ""
    ensures username.Some? && username.value != "" ==> r == "@" + username.value
    ensures (username.None? || username.value == "")
         && TrimmedName(firstName) != "" && TrimmedName(lastName) != ""
         ==> r == TrimmedName(firstName) + " " + TrimmedName(lastName)
    ensures (username.None? || username.value == "")
         && TrimmedName(firstName) != "" && TrimmedName(lastName) == ""
         ==> r == TrimmedName(firstName)
  {
    if username.Some? && username.value != "" then "@" + username.value
    else
      var first := TrimmedName(firstName);
      var last := TrimmedName(lastName);
      if first != "" && last != "" then first + " " + last
      else if first != "" then first
      else
        var local := LocalPart(email);
        if local != "" then local else "Student"
  }

  /** A last name is never shown without a first name: it then has no influence at all. */
  lemma LastNameNeedsFirstName(firstName: Option<string>, last1: Option<string>, last2: Option<string>,
                               email: string, username: Option<string>)
    requires TrimmedName(firstName) == ""
    ensures ComputeDisplayName(firstName, last1, email, username)
         == ComputeDisplayName(firstName, last2, email, username)
    ensures (username.None? || username.value == "") ==>
      ComputeDisplayName(firstName, last1, email, username)
        == (if LocalPart(email) != "" then LocalPart(email) else "Student")
  {
  }

  /** The characters a username may contain: `[a-z0-9_]`. */
  predicate UsernameChar(c: char) { IsLower(c) || IsDigit(c) || c == '_' }

  predicate UsernameText(s: string) { forall i :: 0 <= i < |s| ==> UsernameChar(s[i]) }

  predicate NoDoubleUnderscore(s: string) {
    forall i :: 0 <= i < |s| - 1 ==> !(s[i] == '_' && s[i + 1] == '_')
  }

  predicate NotUnderscore(c: char) { c != '_' }

  predicate LowerOrDigit(c: char) { IsLower(c) || IsDigit(c) }

  /** Neither the first nor the last character is `_`. */
  predicate NoUnderscoreEnds(s: string) {
    s == [] || (s[0] != '_' && s[|s| - 1] != '_')
  }

  /** One step of `.replace(/[^a-z0-9_]/g, "_")`: a valid character is kept, any other becomes `_`. */
  function Sanitize(c: char): (r: char)
    ensures UsernameChar(r)
    ensures r == c || r == '_'
    ensures UsernameChar(c) ==> r == c
  {
    if UsernameChar(c) then c else '_'
  }

  /** `.replace(/_{2,}/g, "_")`: every run of underscores becomes one. */
  function CollapseUnderscores(s: string): (r: string)
    ensures |r| <= |s|
    ensures |s| > 0 ==> |r| > 0 && r[0] == s[0]
    ensures NoDoubleUnderscore(r)
    ensures forall i :: 0 <= i < |r| ==> r[i] in s
  {
    if |s| < 2 then s
    else if s[0] == '_' && s[1] == '_' then CollapseUnderscores(s[1..])
    else [s[0]] + CollapseUnderscores(s[1..])
  }

  /** `.replace(/^_+/, "")`: the longest suffix not starting with `_`, only underscores being dropped. */
  function StripLeadingUnderscores(s: string): (r: string)
    ensures |r| <= |s| && r == s[|s| - |r|..]
    ensures r == [] || r[0] != '_'
    ensures forall i :: 0 <= i < |s| - |r| ==> s[i] == '_'
  {
    if s != [] && s[0] == '_' then StripLeadingUnderscores(s[1..]) else s
  }

  /** `.replace(/_+$/, "")`: the longest prefix not ending with `_`, only underscores being dropped. */
  function StripTrailingUnderscores(s: string): (r: string)
    ensures |r| <= |s| && r == s[..|r|]
    ensures r == [] || r[|r| - 1] != '_'
    ensures forall i :: |r| <= i < |s| ==> s[i] == '_'
  {
    if s != [] && s[|s| - 1] == '_' then StripTrailingUnderscores(s[..|s| - 1]) else s
  }

  /** `.toLowerCase()` followed by `.replace(/[^a-z0-9_]/g, "_")`. */
  function Sanitized(local: string): (r: string)
    ensures |r| == |local| && UsernameText(r)
    ensures forall i :: 0 <= i < |local| && UsernameChar(LowerChar(local[i])) ==> r[i] == LowerChar(local[i])
    ensures forall i :: 0 <= i < |local| && !UsernameChar(LowerChar(local[i])) ==> r[i] == '_'
  {
    Map(ToLower(local), Sanitize)
  }

  /** Sanitising keeps exactly the letters and digits of the lower-cased text, in order. */
  lemma {:induction false} SanitizedLetters(local: string)
    ensures Filter(Sanitized(local), NotUnderscore) == Filter(ToLower(local), LowerOrDigit)
    decreases |local|
  {
    if local != [] {
      var init, c := local[..|local| - 1], local[|local| - 1];
      SanitizedLetters(init);
      assert local == init + [c];
      SanitizedSnoc(init, c);
      FilterSnoc(Sanitized(init), Sanitize(LowerChar(c)), NotUnderscore);
      FilterSnoc(ToLower(init), LowerChar(c), LowerOrDigit);
    }
  }

  lemma SanitizedSnoc(init: string, c: char)
    ensures Sanitized(init + [c]) == Sanitized(init) + [Sanitize(LowerChar(c))]
    ensures ToLower(init + [c]) == ToLower(init) + [LowerChar(c)]
  {
    assert ToLower(init + [c]) == ToLower(init) + [LowerChar(c)];
    assert Map(ToLower(init) + [LowerChar(c)], Sanitize) == Map(ToLower(init), Sanitize) + [Sanitize(LowerChar(c))];
  }

  /** A string without a run of two underscores is left as it is. */
  lemma {:induction false} CollapseNoRuns(s: string)
    requires NoDoubleUnderscore(s)
    ensures CollapseUnderscores(s) == s
    decreases |s|
  {
    if |s| >= 2 {
      CollapseNoRuns(s[1..]);
      assert [s[0]] + s[1..] == s;
    }
  }

  /** Dropping one underscore of a run of two or more does not change the result: each run becomes one `_`. */
  lemma {:induction false} CollapseRun(x: string, y: string)
    ensures CollapseUnderscores(x + "__" + y) == CollapseUnderscores(x + "_" + y)
    decreases |x|
  {
    var s, t := x + "__" + y, x + "_" + y;
    if x == [] {
      assert s[1..] == t;
    } else {
      assert s[1..] == x[1..] + "__" + y;
      assert t[1..] == x[1..] + "_" + y;
      assert s[0] == t[0] && s[1] == t[1];
      CollapseRun(x[1..], y);
    }
  }

  /** Collapsing keeps every character other than `_`, in order. */
  lemma {:induction false} CollapseKeepsOthers(s: string)
    ensures Filter(CollapseUnderscores(s), NotUnderscore) == Filter(s, NotUnderscore)
    decreases |s|
  {
    if |s| >= 2 {
      var rest := s[1..];
      CollapseKeepsOthers(rest);
      assert s == [s[0]] + rest;
      if s[0] == '_' && s[1] == '_' {
        FilterCons('_', rest, NotUnderscore);
      } else {
        KeepStep(s[0], CollapseUnderscores(rest), rest);
      }
    }
  }

  lemma KeepStep(c: char, x: string, y: string)
    requires Filter(x, NotUnderscore) == Filter(y, NotUnderscore)
    ensures Filter([c] + x, NotUnderscore) == Filter([c] + y, NotUnderscore)
  {
    FilterCons(c, x, NotUnderscore);
    FilterCons(c, y, NotUnderscore);
  }

  lemma FilterCons(c: char, s: string, p: char -> bool)
    ensures Filter([c] + s, p) == (if p(c) then [c] else []) + Filter(s, p)
  {
    FilterAppend([c], s, p);
    FilterSnoc([], c, p);
    assert [] + [c] == [c];
  }

  /** Collapsing underscore runs introduces no new character. */
  lemma CollapseKeepsText(s: string)
    requires UsernameText(s)
    ensures UsernameText(CollapseUnderscores(s))
  {
    var r := CollapseUnderscores(s);
    forall i | 0 <= i < |r| ensures UsernameChar(r[i]) {
      assert r[i] in s;
    }
  }

  /** `.replace(/^_+|_+$/g, "")`: underscores removed from both ends, and nothing else. */
  function StripUnderscores(s: string): (r: string)
    requires UsernameText(s) && NoDoubleUnderscore(s)
    ensures UsernameText(r) && NoDoubleUnderscore(r)
    ensures NoUnderscoreEnds(r)
    ensures Filter(r, NotUnderscore) == Filter(s, NotUnderscore)
  {
    StripFacts(s);
    StripTrailingUnderscores(StripLeadingUnderscores(s))
  }

  lemma StripFacts(s: string)
    requires UsernameText(s) && NoDoubleUnderscore(s)
    ensures var r := StripTrailingUnderscores(StripLeadingUnderscores(s));
      && UsernameText(r) && NoDoubleUnderscore(r)
      && NoUnderscoreEnds(r)
      && Filter(r, NotUnderscore) == Filter(s, NotUnderscore)
  {
    StripKeepsText(s);
    StripKeepsOthers(s);
  }

  lemma StripKeepsText(s: string)
    requires UsernameText(s) && NoDoubleUnderscore(s)
    ensures var r := StripTrailingUnderscores(StripLeadingUnderscores(s));
      UsernameText(r) && NoDoubleUnderscore(r) && (r == [] || r[0] != '_')
  {
    var t := StripLeadingUnderscores(s);
    var r := StripTrailingUnderscores(t);
    SliceKeepsText(s, |s| - |t|, |s|);
    SliceKeepsText(t, 0, |r|);
  }

  lemma StripKeepsOthers(s: string)
    ensures var r := StripTrailingUnderscores(StripLeadingUnderscores(s));
      Filter(r, NotUnderscore) == Filter(s, NotUnderscore)
  {
    LeadingKeepsOthers(s);
    TrailingKeepsOthers(StripLeadingUnderscores(s));
  }

  lemma SliceKeepsText(s: string, i: int, j: int)
    requires 0 <= i <= j <= |s|
    requires UsernameText(s) && NoDoubleUnderscore(s)
    ensures UsernameText(s[i..j]) && NoDoubleUnderscore(s[i..j])
  {
    assert forall k :: 0 <= k < j - i ==> s[i..j][k] == s[i + k];
  }

  lemma LeadingKeepsOthers(s: string)
    ensures Filter(StripLeadingUnderscores(s), NotUnderscore) == Filter(s, NotUnderscore)
  {
    var r := StripLeadingUnderscores(s);
    assert s == s[..|s| - |r|] + r;
    DropUnderscores(s[..|s| - |r|], r);
  }

  lemma TrailingKeepsOthers(s: string)
    ensures Filter(StripTrailingUnderscores(s), NotUnderscore) == Filter(s, NotUnderscore)
  {
    var r := StripTrailingUnderscores(s);
    var tail := s[|r|..];
    assert s == r + tail;
    FilterAppend(r, tail, NotUnderscore);
    FilterNone(tail, NotUnderscore);
    assert Filter(r, NotUnderscore) + [] == Filter(r, NotUnderscore);
  }

  /** Underscores in front of `b` are invisible to the filter. */
  lemma DropUnderscores(a: string, b: string)
    requires forall i :: 0 <= i < |a| ==> a[i] == '_'
    ensures Filter(a + b, NotUnderscore) == Filter(b, NotUnderscore)
  {
    FilterAppend(a, b, NotUnderscore);
    FilterNone(a, NotUnderscore);
  }

  /**
   * The local part after lower-casing, sanitising, collapsing and stripping:
   * all the letters and digits of the lower-cased local part, in order, with
   * single underscores between some of them.
   */
  function CleanedLocalPart(email: string): (r: string)
    ensures UsernameText(r) && NoDoubleUnderscore(r)
    ensures NoUnderscoreEnds(r)
    ensures Filter(r, NotUnderscore) == Filter(ToLower(LocalPart(email)), LowerOrDigit)
  {
    var sanitized := Sanitized(LocalPart(email));
    CollapseKeepsText(sanitized);
    CollapseKeepsOthers(sanitized);
    SanitizedLetters(LocalPart(email));
    StripUnderscores(CollapseUnderscores(sanitized))
  }

  /** A local part that is already a clean username (up to case) is kept as it is, lower-cased. */
  lemma CleanLocalUnchanged(email: string)
    requires UsernameText(ToLower(LocalPart(email))) && NoDoubleUnderscore(ToLower(LocalPart(email)))
    requires NoUnderscoreEnds(ToLower(LocalPart(email)))
    ensures CleanedLocalPart(email) == ToLower(LocalPart(email))
  {
    var l := ToLower(LocalPart(email));
    assert Sanitized(LocalPart(email)) == l;
    CollapseNoRuns(l);
  }

  /**
   * `deriveUsernameFromEmail`: the cleaned local part cut to 20 characters,
   * or nothing when it is shorter than 3.
   */
  function DeriveUsernameFromEmail(email: string): (r: Option<string>)
    ensures r.None? <==> |CleanedLocalPart(email)| < 3
    ensures r.Some? ==> 3 <= |r.value| <= 20 && UsernameText(r.value)
    ensures r.Some? ==> NoDoubleUnderscore(r.value) && r.value[0] != '_'
    ensures r.Some? ==> StartsWith(CleanedLocalPart(email), r.value)
    ensures r.Some? ==> |r.value| == if |CleanedLocalPart(email)| <= 20 then |CleanedLocalPart(email)| else 20
  {
    var cleaned := CleanedLocalPart(email);
    if |cleaned| < 3 then None
    else Some(if |cleaned| <= 20 then cleaned else cleaned[..20])
  }

  /** The local part of `local@domain` is `local` when `local` holds no '@'. */
  lemma LocalPartOf(local: string, domain: string)
    requires '@' !in local
    ensures LocalPart(local + "@" + domain) == local
  {
    assert local + "@" + domain == local + ['@'] + domain;
    SplitByConcat(local, '@', domain, {'@'});
    SplitByNone(local, {'@'});
  }

  /**
   * The cut to 20 characters comes after the underscores are stripped, so a
   * derived username can still end with `_`: nineteen letters, `_` and one
   * more letter ("aaaaaaaaaaaaaaaaaaa_b") give the nineteen letters and `_`.
   */
  lemma CutMayEndWithUnderscore(a: string, c: char, domain: string)
    requires |a| == 19 && forall i :: 0 <= i < |a| ==> IsLower(a[i])
    requires IsLower(c)
    ensures DeriveUsernameFromEmail(a + "_" + [c] + "@" + domain) == Some(a + "_")
  {
    var local := a + "_" + [c];
    var email := local + "@" + domain;
    assert forall i :: 0 <= i < |local| ==> local[i] == if i < 19 then a[i] else if i == 19 then '_' else c;
    assert '@' !in local;
    LocalPartOf(local, domain);
    assert ToLower(local) == local;
    CleanLocalUnchanged(email);
    assert local[..20] == a + "_";
  }

  /**
   * `normalizeUsername`: keep `[a-z0-9_]` after lower-casing; `None` (null)
   * exactly when what is kept is not 3..20 characters long.
   */
  function NormalizeUsername(input: string): (r: Option<string>)
    ensures r.None? <==> !(3 <= |Filter(ToLower(input), UsernameChar)| <= 20)
    ensures r.Some? ==> 3 <= |r.value| <= 20 && UsernameText(r.value)
  {
    var normalized := Filter(ToLower(input), UsernameChar);
    if |normalized| < 3 || |normalized| > 20 then None else Some(normalized)
  }

  /** A valid username of 3..20 characters is accepted as it is. */
  lemma NormalizeAccepts(s: string)
    requires UsernameText(s) && 3 <= |s| <= 20
    ensures NormalizeUsername(s) == Some(s)
  {
    assert ToLower(s) == s;
    FilterAll(s, UsernameChar);
  }

  /** A character that is not in `[a-z0-9_]` after lower-casing is dropped wherever it stands. */
  lemma NormalizeDropsInvalid(x: string, c: char, y: string)
    requires !UsernameChar(LowerChar(c))
    ensures NormalizeUsername(x + [c] + y) == NormalizeUsername(x + y)
  {
    assert ToLower(x + [c] + y) == ToLower(x) + [LowerChar(c)] + ToLower(y);
    assert ToLower(x + y) == ToLower(x) + ToLower(y);
    FilterAppend(ToLower(x) + [LowerChar(c)], ToLower(y), UsernameChar);
    FilterSnoc(ToLower(x), LowerChar(c), UsernameChar);
    FilterAppend(ToLower(x), ToLower(y), UsernameChar);
    assert Filter(ToLower(x + [c] + y), UsernameChar) == Filter(ToLower(x + y), UsernameChar);
  }

  /** Case does not matter: an upper-case letter counts as its lower-case form. */
  lemma NormalizeIgnoresCase(x: string, c: char, y: string)
    ensures NormalizeUsername(x + [c] + y) == NormalizeUsername(x + [LowerChar(c)] + y)
  {
    CaseFold(c);
    assert ToLower(x + [c] + y) == ToLower(x + [LowerChar(c)] + y);
  }

  /** Normalising an accepted username again returns it unchanged. */
  lemma NormalizeIdempotent(input: string)
    requires NormalizeUsername(input).Some?
    ensures NormalizeUsername(NormalizeUsername(input).value) == NormalizeUsername(input)
  {
    NormalizeAccepts(NormalizeUsername(input).value);
  }
}
