/**
 * The address check of the adoption form, `/^[^\s@]+@[^\s@]+\.[^\s@]+$/`.
 * `RegexMatch` is the language of that pattern, written as the split points
 * of its five parts; `ValidEmail` is an executable check that reads the
 * address as "no whitespace, exactly one `@` after a non-empty local part,
 * and a `.` inside the domain that is neither its first nor its last
 * character". `ValidEmailIsRegex` proves the two agree on every string.
 */
module Email {
  import opened Text

  /** A member of the character class `[^\s@]`. */
  predicate WordChar(c: char) {
    !IsSpace(c) && c != '@'
  }

  /** `t` is matched by `[^\s@]+`. */
  ghost predicate Run(t: string) {
    |t| > 0 && forall k :: 0 <= k < |t| ==> WordChar(t[k])
  }

  /** The whole of `s` matches the pattern with the `@` at index `i` and the
      literal `.` at index `j`. */
  ghost predicate MatchesAt(s: string, i: int, j: int) {
    && 0 <= i < j < |s|
    && s[i] == '@' && s[j] == '.'
    && Run(s[..i]) && Run(s[i + 1..j]) && Run(s[j + 1..])
  }

  /** The language of `^[^\s@]+@[^\s@]+\.[^\s@]+$` (no multiline flag, so the
      anchors are the ends of the whole string). */
  ghost predicate RegexMatch(s: string) {
    exists i, j :: MatchesAt(s, i, j)
  }

  /** Index of the first `c` in `s`, or `|s|` when there is none. */
  function IndexOf(s: string, c: char): (i: nat)
    ensures i <= |s|
    ensures i < |s| ==> s[i] == c
    ensures forall k :: 0 <= k < i ==> s[k] != c
  {
    if s == [] || s[0] == c then 0 else 1 + IndexOf(s[1..], c)
  }

  /** Some `.` of `d` has a character on either side of it. */
  predicate HasInnerDot(d: string) {
    exists k | 0 < k < |d| - 1 :: d[k] == '.'
  }

  /** The address check, read as a description of its language. */
  predicate ValidEmail(s: string) {
    var at := IndexOf(s, '@');
    && NoSpace(s)
    && 0 < at < |s|
    && (forall k | at < k < |s| :: s[k] != '@')
    && HasInnerDot(s[at + 1..])
  }

  /** The executable check accepts exactly the strings the pattern matches. */
  lemma ValidEmailIsRegex(s: string)
    ensures ValidEmail(s) <==> RegexMatch(s)
  {
    if ValidEmail(s) {
      ValidEmailMatches(s);
    }
    if RegexMatch(s) {
      var i, j :| MatchesAt(s, i, j);
      MatchesAtValid(s, i, j);
    }
  }

  /** An address the check accepts splits as the pattern asks. */
  lemma ValidEmailMatches(s: string)
    requires ValidEmail(s)
    ensures MatchesAt(s, IndexOf(s, '@'), IndexOf(s, '@') + 1 + DotIn(s[IndexOf(s, '@') + 1..]))
  {
    var i := IndexOf(s, '@');
    var d := s[i + 1..];
    var j := i + 1 + DotIn(d);
    assert s[j] == d[j - i - 1];
    assert Run(s[..i]);
    assert Run(s[i + 1..j]);
    assert Run(s[j + 1..]);
  }

  /** An inner `.` of `d`, which `HasInnerDot` promises. */
  ghost function DotIn(d: string): (k: nat)
    requires HasInnerDot(d)
    ensures 0 < k < |d| - 1 && d[k] == '.'
  {
    var k :| 0 < k < |d| - 1 && d[k] == '.'; k
  }

  /** A split of the pattern's shape passes the executable check. */
  lemma MatchesAtValid(s: string, i: int, j: int)
    requires MatchesAt(s, i, j)
    ensures ValidEmail(s)
  {
    assert forall k :: 0 <= k < i ==> s[k] == s[..i][k];
    assert forall k :: i < k < j ==> s[k] == s[i + 1..j][k - i - 1];
    assert forall k :: j < k < |s| ==> s[k] == s[j + 1..][k - j - 1];
    assert IndexOf(s, '@') == i;
    assert NoSpace(s);
    assert s[i + 1..][j - i - 1] == '.';
  }

  /** An accepted address has no whitespace, so `trim()` leaves it as it is. */
  lemma ValidEmailIsTrimmed(s: string)
    requires ValidEmail(s)
    ensures Trim(s) == s
  {
    TrimNoSpace(s);
  }

  /** Three runs of `[^\s@]` joined by `@` and `.` form an accepted address. */
  lemma ValidEmailFromParts(local: string, host: string, tld: string)
    requires Run(local) && Run(host) && Run(tld)
    ensures ValidEmail(local + "@" + host + "." + tld)
  {
    var s := local + "@" + host + "." + tld;
    var i, j := |local|, |local| + 1 + |host|;
    assert s[..i] == local && s[i + 1..j] == host && s[j + 1..] == tld;
    assert MatchesAt(s, i, j);
    ValidEmailIsRegex(s);
  }

  /** A non-empty run of small ASCII letters matches `[^\s@]+`. */
  lemma LettersRun(t: string)
    requires t != [] && forall k :: 0 <= k < |t| ==> 'a' <= t[k] <= 'z'
    ensures Run(t)
  {
  }

  /** "ron@weasley.com" is accepted. */
  lemma SampleAccepted()
    ensures ValidEmail("ron@weasley.com")
  {
    LettersRun("ron");
    LettersRun("weasley");
    LettersRun("com");
    ValidEmailFromParts("ron", "weasley", "com");
    assert "ron" + "@" + "weasley" + "." + "com" == "ron@weasley.com";
  }

  /** An address without `@` is refused. */
  lemma NoAtRefused(s: string)
    requires '@' !in s
    ensures !ValidEmail(s)
  {
    assert IndexOf(s, '@') == |s|;
  }

  /** "not-an-email" has no `@` and is refused. */
  lemma SampleRefused()
    ensures !ValidEmail("not-an-email")
  {
    assert '@' !in "not-an-email";
    NoAtRefused("not-an-email");
  }
}
