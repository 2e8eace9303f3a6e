/**
 * The email check of the signup widget (`Validation.email` in
 * work/mockit/js/application.js): one anchored regular expression,
 *
 *     /^[a-zA-Z0-9._-]+@[a-zA-Z0-9.-]+\.[a-zA-Z]{2,4}$/
 *
 * tested against the address. The pattern is stated declaratively
 * (MatchesEmailPattern: some split of the string fits it), the check itself
 * is a scanner (Parse: first `@`, then the last `.` after it), and the two
 * are proved to agree.
 */
module Validation {

  datatype Option<T> = None | Some(value: T)

  predicate IsLetter(c: char) { 'a' <= c <= 'z' || 'A' <= c <= 'Z' }

  predicate IsDigit(c: char) { '0' <= c <= '9' }

  /** The three character classes of the pattern. */
  datatype CharClass =
    | LocalClass   // [a-zA-Z0-9._-], before the `@`
    | DomainClass  // [a-zA-Z0-9.-], between the `@` and the last `.`
    | LetterClass  // [a-zA-Z], the top-level suffix

  predicate InClass(c: char, k: CharClass) {
    match k
    case LocalClass => IsLetter(c) || IsDigit(c) || c == '.' || c == '_' || c == '-'
    case DomainClass => IsLetter(c) || IsDigit(c) || c == '.' || c == '-'
    case LetterClass => IsLetter(c)
  }

  ghost predicate AllIn(s: string, k: CharClass) {
    forall i :: 0 <= i < |s| ==> InClass(s[i], k)
  }

  /**
   * The pattern matches `s` with its `@` at index `at` and its `\.` at
   * index `dot`; both anchors `^` and `$` are in force, so the three runs
   * cover the whole string.
   */
  ghost predicate MatchesAt(s: string, at: int, dot: int) {
    && 0 < at
    && at + 1 < dot < |s|
    && s[at] == '@'
    && s[dot] == '.'
    && 2 <= |s| - (dot + 1) <= 4
    && AllIn(s[..at], LocalClass)
    && AllIn(s[at + 1..dot], DomainClass)
    && AllIn(s[dot + 1..], LetterClass)
  }

  /** The regular expression accepts `s`: some placement of `@` and `\.` fits. */
  ghost predicate MatchesEmailPattern(s: string) {
    exists at, dot :: MatchesAt(s, at, dot)
  }

  /** An address cut into the three runs of the pattern. */
  datatype Address = Address(local: string, domain: string, suffix: string) {

    function Text(): string { local + "@" + domain + "." + suffix }

    /** Each run is non-empty, has the length the pattern allows, and stays in its class. */
    ghost predicate Valid() {
      && |local| > 0 && AllIn(local, LocalClass)
      && |domain| > 0 && AllIn(domain, DomainClass)
      && 2 <= |suffix| <= 4 && AllIn(suffix, LetterClass)
    }
  }

  /** Whether every character of `s` lies in class `k`. */
  function Conforms(s: string, k: CharClass): (b: bool)
    ensures b <==> AllIn(s, k)
  {
    if s == [] then true else InClass(s[0], k) && Conforms(s[1..], k)
  }

  /** The index of the first `c` in `s`, if any. */
  function FirstIndexOf(s: string, c: char): (r: Option<nat>)
    ensures r.None? <==> c !in s
    ensures r.Some? ==> r.value < |s| && s[r.value] == c && c !in s[..r.value]
  {
    if s == [] then None
    else if s[0] == c then Some(0)
    else match FirstIndexOf(s[1..], c)
      case None => None
      case Some(i) =>
        assert s[..i + 1] == [s[0]] + s[1..][..i];
        Some(i + 1)
  }

  /** The index of the last `c` in `s`, if any. */
  function LastIndexOf(s: string, c: char): (r: Option<nat>)
    ensures r.None? <==> c !in s
    ensures r.Some? ==> r.value < |s| && s[r.value] == c && c !in s[r.value + 1..]
  {
    if s == [] then None
    else if s[|s| - 1] == c then Some(|s| - 1)
    else
      var r := LastIndexOf(s[..|s| - 1], c);
      assert s == s[..|s| - 1] + [s[|s| - 1]];
      if r.Some? then
        assert s[r.value + 1..] == s[..|s| - 1][r.value + 1..] + [s[|s| - 1]];
        r
      else r
  }

  /**
   * The scanner: the local part ends at the first `@` (the local class has
   * no `@`), and the suffix starts after the last `.` that follows it (the
   * suffix class has no `.`); what lies between is the domain.
   */
  function Parse(s: string): (r: Option<Address>)
    ensures r.Some? ==> r.value.Valid() && r.value.Text() == s
  {
    match FirstIndexOf(s, '@')
    case None => None
    case Some(at) =>
      var rest := s[at + 1..];
      match LastIndexOf(rest, '.')
      case None => None
      case Some(dot) =>
        var a := Address(s[..at], rest[..dot], rest[dot + 1..]);
        CutText(s, at, dot);
        if Fits(a) then Some(a) else None
  }

  /** Whether each run has the length and the characters the pattern allows. */
  function Fits(a: Address): (b: bool)
    ensures b <==> a.Valid()
  {
    && 0 < |a.local| && Conforms(a.local, LocalClass)
    && 0 < |a.domain| && Conforms(a.domain, DomainClass)
    && 2 <= |a.suffix| <= 4 && Conforms(a.suffix, LetterClass)
  }

  /** Cutting `s` at an `@` and at a later `.` and joining the pieces gives `s` back. */
  lemma CutText(s: string, at: nat, dot: nat)
    requires at < |s| && s[at] == '@'
    requires dot < |s[at + 1..]| && s[at + 1..][dot] == '.'
    ensures Address(s[..at], s[at + 1..][..dot], s[at + 1..][dot + 1..]).Text() == s
  {
    var rest := s[at + 1..];
    assert rest == rest[..dot] + "." + rest[dot + 1..];
    assert s == s[..at] + "@" + rest;
  }

  /** Parse keeps the cut it found when the runs fit. */
  lemma ParseCuts(s: string, at: nat, dot: nat)
    requires FirstIndexOf(s, '@') == Some(at)
    requires LastIndexOf(s[at + 1..], '.') == Some(dot)
    ensures var a := Address(s[..at], s[at + 1..][..dot], s[at + 1..][dot + 1..]);
      Parse(s) == if Fits(a) then Some(a) else None
  {
  }

  /** The scanner's verdict on `address`. */
  predicate IsValidEmail(address: string) {
    Parse(address).Some?
  }

  lemma AllInNotIn(s: string, k: CharClass, c: char)
    requires AllIn(s, k) && !InClass(c, k)
    ensures c !in s
  {
  }

  /** Where each run of an address sits in its text. */
  lemma TextLayout(a: Address)
    ensures var s, at, dot := a.Text(), |a.local|, |a.local| + 1 + |a.domain|;
      && |s| == dot + 1 + |a.suffix|
      && s[..at] == a.local && s[at] == '@'
      && s[at + 1..dot] == a.domain && s[dot] == '.'
      && s[dot + 1..] == a.suffix
  {
  }

  /** The text of a well-formed address matches the pattern at the seams between its runs. */
  lemma ValidTextMatches(a: Address)
    requires a.Valid()
    ensures MatchesAt(a.Text(), |a.local|, |a.local| + 1 + |a.domain|)
  {
    TextLayout(a);
  }

  /** An occurrence of `c` with no `c` before it is the one FirstIndexOf finds. */
  lemma FirstIndexIs(s: string, c: char, i: nat)
    requires i < |s| && s[i] == c && c !in s[..i]
    ensures FirstIndexOf(s, c) == Some(i)
  {
    assert s[i] in s;
    var r := FirstIndexOf(s, c).value;
    assert forall j :: 0 <= j < i ==> s[..i][j] == s[j];
    assert forall j :: 0 <= j < r ==> s[..r][j] == s[j];
  }

  /** An occurrence of `c` with no `c` after it is the one LastIndexOf finds. */
  lemma LastIndexIs(s: string, c: char, i: nat)
    requires i < |s| && s[i] == c && c !in s[i + 1..]
    ensures LastIndexOf(s, c) == Some(i)
  {
    assert s[i] in s;
    var r := LastIndexOf(s, c).value;
    assert forall j :: i < j < |s| ==> s[i + 1..][j - i - 1] == s[j];
    assert forall j :: r < j < |s| ==> s[r + 1..][j - r - 1] == s[j];
  }

  /** Every address built from well-formed runs is accepted, and cut back into the same runs. */
  lemma ParseText(a: Address)
    requires a.Valid()
    ensures Parse(a.Text()) == Some(a)
  {
    var s := a.Text();
    var at := |a.local|;
    TextLayout(a);
    AllInNotIn(a.local, LocalClass, '@');
    FirstIndexIs(s, '@', at);
    var rest := s[at + 1..];
    var dot := |a.domain|;
    AllInNotIn(a.suffix, LetterClass, '.');
    assert rest[..dot] == a.domain && rest[dot] == '.' && rest[dot + 1..] == a.suffix;
    LastIndexIs(rest, '.', dot);
    ParseCuts(s, at, dot);
    assert a == Address(s[..at], rest[..dot], rest[dot + 1..]);
  }

  /** What the scanner accepts, the regular expression matches. */
  lemma ValidEmailMatches(s: string)
    requires IsValidEmail(s)
    ensures MatchesEmailPattern(s)
  {
    var a := Parse(s).value;
    ValidTextMatches(a);
  }

  /** What the regular expression matches, the scanner accepts. */
  lemma MatchesValidEmail(s: string)
    requires MatchesEmailPattern(s)
    ensures IsValidEmail(s)
  {
    var at, dot :| MatchesAt(s, at, dot);
    var a := Address(s[..at], s[at + 1..dot], s[dot + 1..]);
    assert a.Text() == s by {
      TextLayout(a);
    }
    ParseText(a);
  }

  /** The scanner accepts exactly the strings the regular expression matches. */
  lemma ValidEmailMatchesPattern(s: string)
    ensures IsValidEmail(s) <==> MatchesEmailPattern(s)
  {
    if IsValidEmail(s) {
      ValidEmailMatches(s);
    }
    if MatchesEmailPattern(s) {
      MatchesValidEmail(s);
    }
  }

  /** `Validation.email(address)`: whether the regular expression accepts `address`. */
  method Email(address: string) returns (ok: bool)
    ensures ok <==> MatchesEmailPattern(address)
  {
    ok := IsValidEmail(address);
    ValidEmailMatchesPattern(address);
  }

  /** The text of a well-formed address holds exactly one `@`. */
  lemma OneAt(a: Address)
    requires a.Valid()
    ensures multiset(a.Text())['@'] == 1
  {
    AllInNotIn(a.local, LocalClass, '@');
    AllInNotIn(a.domain, DomainClass, '@');
    AllInNotIn(a.suffix, LetterClass, '@');
    assert multiset(a.Text()) == multiset(a.local) + multiset{'@'} + multiset(a.domain) + multiset{'.'} + multiset(a.suffix);
  }

  /**
   * The text of a well-formed address is at least six characters long and
   * ends in a `.` followed by two to four letters.
   */
  lemma ValidTextShape(a: Address)
    requires a.Valid()
    ensures var s := a.Text();
      && |s| >= 6
      && exists d :: |s| - 5 <= d <= |s| - 3 && s[d] == '.' && forall j :: d < j < |s| ==> IsLetter(s[j])
  {
    var s := a.Text();
    var d := |a.local| + 1 + |a.domain|;
    TextLayout(a);
    assert forall j :: d < j < |s| ==> s[j] == a.suffix[j - d - 1];
  }

  /**
   * An accepted address holds exactly one `@`, is at least six characters
   * long, and ends in a `.` followed by two to four letters.
   */
  lemma AcceptedShape(s: string)
    requires IsValidEmail(s)
    ensures multiset(s)['@'] == 1
    ensures |s| >= 6
    ensures exists d :: |s| - 5 <= d <= |s| - 3 && s[d] == '.' && forall j :: d < j < |s| ==> IsLetter(s[j])
  {
    var a := Parse(s).value;
    OneAt(a);
    ValidTextShape(a);
  }

  /** The empty string and any string without `@` are rejected. */
  lemma RejectsWithoutAt(s: string)
    requires '@' !in s
    ensures !IsValidEmail(s)
  {
  }

  /** The domain run may be a lone `.`: `a@..co` is cut into `a`, `.` and `co`. */
  lemma DotDomainAccepted()
    ensures Parse("a@..co") == Some(Address("a", ".", "co"))
  {
    ParseText(Address("a", ".", "co"));
    assert Address("a", ".", "co").Text() == "a@..co";
  }

  /** The local run may end in a `.`. */
  lemma DotBeforeAtAccepted()
    ensures Parse("a.@b.co") == Some(Address("a.", "b", "co"))
  {
    assert Address("a.", "b", "co").Text() == "a.@b.co";
    ParseText(Address("a.", "b", "co"));
  }

  /** The domain run may be a lone `-`. */
  lemma HyphenDomainAccepted()
    ensures Parse("a@-.co") == Some(Address("a", "-", "co"))
  {
    ParseText(Address("a", "-", "co"));
    assert Address("a", "-", "co").Text() == "a@-.co";
  }

  /** Strings without an `@` are turned away, the empty one among them. */
  lemma NoAtRejected()
    ensures !IsValidEmail("")
    ensures !IsValidEmail("not-an-email")
  {
    RejectsWithoutAt("");
    RejectsWithoutAt("not-an-email");
  }

  /** Strings too short to hold all three runs are turned away. */
  lemma ShortRejected()
    ensures !IsValidEmail("a@b.c")
    ensures !IsValidEmail("@b.co")
    ensures !IsValidEmail("a@.co")
  {
    if IsValidEmail("a@b.c") { AcceptedShape("a@b.c"); }
    if IsValidEmail("@b.co") { AcceptedShape("@b.co"); }
    if IsValidEmail("a@.co") { AcceptedShape("a@.co"); }
  }

  /** A suffix longer than four letters is turned away. */
  lemma LongSuffixRejected()
    ensures !IsValidEmail("a@b.museum")
  {
    if IsValidEmail("a@b.museum") { AcceptedShape("a@b.museum"); }
  }

  /** A second `@` is turned away. */
  lemma TwoAtsRejected()
    ensures !IsValidEmail("a@b@c.co")
  {
    if IsValidEmail("a@b@c.co") { AcceptedShape("a@b@c.co"); }
  }
}
