/** The e-mail format check of the user service.

    The service matches the whole address against
        [a-zA-Z0-9._%+-]+ @ [a-zA-Z0-9.-]+ \. [a-zA-Z]{2,}
    (anchored at both ends).  `MatchesPattern` reads that expression
    directly as "there are split points giving the three parts";
    `ValidateEmail` decides it without search: no character class holds
    '@', so the only '@' separates local part and domain, and the suffix
    holds no '.', so the separating dot is the last '.' after the '@'.
    `ValidateEmailMatchesPattern` proves the two agree on every string.

    Every class is ASCII, so working on bytes rather than decoded runes
    changes nothing: a byte of a multi-byte character, or of a malformed
    sequence, lies in no class either way.
 */
module Email {
  import opened GoText
  import opened Results

  predicate IsLetter(c: Byte) {
    'a' <= c <= 'z' || 'A' <= c <= 'Z'
  }

  predicate IsDigit(c: Byte) {
    '0' <= c <= '9'
  }

  /** `[a-zA-Z0-9._%+-]` */
  predicate IsLocalChar(c: Byte) {
    IsLetter(c) || IsDigit(c) || c == '.' || c == '_' || c == '%' || c == '+' || c == '-'
  }

  /** `[a-zA-Z0-9.-]` */
  predicate IsDomainChar(c: Byte) {
    IsLetter(c) || IsDigit(c) || c == '.' || c == '-'
  }

  predicate AllLocal(s: GoString) {
    forall i | 0 <= i < |s| :: IsLocalChar(s[i])
  }

  predicate AllDomain(s: GoString) {
    forall i | 0 <= i < |s| :: IsDomainChar(s[i])
  }

  predicate AllLetters(s: GoString) {
    forall i | 0 <= i < |s| :: IsLetter(s[i])
  }

  /** `s` is local part `s[..at]`, '@', domain `s[at+1..dot]`, '.', and
      top-level suffix `s[dot+1..]`, each part as long as the pattern demands. */
  predicate SplitsAt(s: GoString, at: int, dot: int) {
    && 0 < at && at + 1 < dot && dot + 3 <= |s|
    && s[at] == '@' && s[dot] == '.'
    && AllLocal(s[..at]) && AllDomain(s[at + 1..dot]) && AllLetters(s[dot + 1..])
  }

  /** The regular expression, read as a statement about `s`. */
  ghost predicate MatchesPattern(s: GoString) {
    exists at, dot :: SplitsAt(s, at, dot)
  }

  /** The position of the first `c` in `s`, if any. */
  function FirstIndex(s: GoString, c: Byte): (r: Option<nat>)
    ensures r.None? ==> forall j | 0 <= j < |s| :: s[j] != c
    ensures r.Some? ==> r.value < |s| && s[r.value] == c
    ensures r.Some? ==> forall j | 0 <= j < r.value :: s[j] != c
  {
    if s == [] then None
    else if s[0] == c then Some(0)
    else match FirstIndex(s[1..], c)
      case None => None
      case Some(i) => Some(i + 1)
  }

  /** The position of the last `c` in `s`, if any. */
  function LastIndex(s: GoString, c: Byte): (r: Option<nat>)
    ensures r.None? ==> forall j | 0 <= j < |s| :: s[j] != c
    ensures r.Some? ==> r.value < |s| && s[r.value] == c
    ensures r.Some? ==> forall j | r.value < j < |s| :: s[j] != c
  {
    if s == [] then None
    else if s[|s| - 1] == c then Some(|s| - 1)
    else LastIndex(s[..|s| - 1], c)
  }

  /** `ValidateEmail`: whether the whole string has the shape above. */
  function ValidateEmail(s: GoString): (ok: bool)
    ensures ok ==> |s| >= 6
    ensures ok ==> forall i, j | 0 <= i < j < |s| :: !(s[i] == '@' && s[j] == '@')
  {
    match FirstIndex(s, '@')
    case None => false
    case Some(at) =>
      var rest := s[at + 1..];
      match LastIndex(rest, '.')
      case None => false
      case Some(k) =>
        var ok := at > 0 && AllLocal(s[..at]) && k > 0 && AllDomain(rest[..k])
          && k + 3 <= |rest| && AllLetters(rest[k + 1..]);
        assert ok ==> forall j | at < j < |s| :: s[j] != '@' by {
          if ok {
            forall j | at < j < |s| ensures s[j] != '@' {
              var m := j - at - 1;
              assert rest[m] == s[j];
              if m < k { assert IsDomainChar(rest[..k][m]); }
              else if m > k { assert IsLetter(rest[k + 1..][m - k - 1]); }
            }
          }
        }
        ok
  }

  /** Every string the check accepts has the pattern's shape. */
  lemma AcceptedMatchesPattern(s: GoString)
    requires ValidateEmail(s)
    ensures MatchesPattern(s)
  {
    var at := FirstIndex(s, '@').value;
    var rest := s[at + 1..];
    var k := LastIndex(rest, '.').value;
    var dot := at + 1 + k;
    assert s[at + 1..dot] == rest[..k];
    assert s[dot + 1..] == rest[k + 1..];
    assert SplitsAt(s, at, dot);
  }

  /** Every string of the pattern's shape is accepted: the split points are
      forced, the '@' being the first and the dot the last after it. */
  lemma PatternIsAccepted(s: GoString, at: int, dot: int)
    requires SplitsAt(s, at, dot)
    ensures ValidateEmail(s)
  {
    assert FirstIndex(s, '@') == Some(at) by {
      forall j | 0 <= j < at ensures s[j] != '@' {
        assert IsLocalChar(s[..at][j]);
      }
    }
    var rest := s[at + 1..];
    var k := dot - at - 1;
    assert LastIndex(rest, '.') == Some(k) by {
      assert rest[k] == '.';
      forall j | k < j < |rest| ensures rest[j] != '.' {
        assert IsLetter(s[dot + 1..][j - k - 1]);
      }
    }
    assert rest[..k] == s[at + 1..dot];
    assert rest[k + 1..] == s[dot + 1..];
  }

  /** The deterministic check and the regular expression accept the same strings. */
  lemma ValidateEmailMatchesPattern(s: GoString)
    ensures ValidateEmail(s) <==> MatchesPattern(s)
  {
    if ValidateEmail(s) {
      AcceptedMatchesPattern(s);
    }
    if MatchesPattern(s) {
      var at, dot :| SplitsAt(s, at, dot);
      PatternIsAccepted(s, at, dot);
    }
  }

  /** A string with no '@' is rejected. */
  lemma RejectsWithoutAt(s: GoString)
    requires '@' !in s
    ensures !ValidateEmail(s)
  {
    ValidateEmailMatchesPattern(s);
  }

  /** A string whose only '@' sits at `at`, with a byte outside the local
      class before it, is rejected. */
  lemma RejectsBadLocalPart(s: GoString, at: nat, bad: nat)
    requires at < |s| && s[at] == '@' && '@' !in s[..at] && '@' !in s[at + 1..]
    requires bad < at && !IsLocalChar(s[bad])
    ensures !ValidateEmail(s)
  {
    ValidateEmailMatchesPattern(s);
  }

  /** Gluing any local part, domain and suffix of the pattern's classes
      and lengths together gives an accepted address. */
  lemma AcceptsParts(local: GoString, domain: GoString, tld: GoString)
    requires local != [] && AllLocal(local)
    requires domain != [] && AllDomain(domain)
    requires |tld| >= 2 && AllLetters(tld)
    ensures ValidateEmail(local + "@" + domain + "." + tld)
  {
    var s := local + "@" + domain + "." + tld;
    var at, dot := |local|, |local| + 1 + |domain|;
    assert s[..at] == local;
    assert s[at + 1..dot] == domain;
    assert s[dot + 1..] == tld;
    PatternIsAccepted(s, at, dot);
  }

  /* The rows of the service tests' e-mail table, and the malformed address
     of the registration tests, one lemma per row. */

  lemma AcceptsPlain()
    ensures ValidateEmail("test@example.com")
  {
    var s: GoString := "test@example.com";
    assert s == "test" + "@" + "example" + "." + "com";
    AcceptsParts("test", "example", "com");
  }

  lemma AcceptsSubdomain()
    ensures ValidateEmail("test@sub.example.com")
  {
    var s: GoString := "test@sub.example.com";
    assert s == "test" + "@" + "sub.example" + "." + "com";
    AcceptsParts("test", "sub.example", "com");
  }

  lemma AcceptsPlus()
    ensures ValidateEmail("test+tag@example.com")
  {
    var s: GoString := "test+tag@example.com";
    assert s == "test+tag" + "@" + "example" + "." + "com";
    AcceptsParts("test+tag", "example", "com");
  }

  lemma AcceptsUnderscore()
    ensures ValidateEmail("test_user@example.com")
  {
    var s: GoString := "test_user@example.com";
    assert s == "test_user" + "@" + "example" + "." + "com";
    AcceptsParts("test_user", "example", "com");
  }

  lemma RejectsNoLocalPart()
    ensures !ValidateEmail("@example.com")
  {
    ValidateEmailMatchesPattern("@example.com");
  }

  lemma RejectsNoAt()
    ensures !ValidateEmail("testexample.com")
  {
    RejectsWithoutAt("testexample.com");
  }

  lemma RejectsMalformed()
    ensures !ValidateEmail("invalid-email")
  {
    RejectsWithoutAt("invalid-email");
  }

  lemma RejectsSpace()
    ensures !ValidateEmail("test @example.com")
  {
    RejectsBadLocalPart("test @example.com", 5, 4);
  }

  /** Every string shorter than the shortest address, "a@b.cd", is
      rejected, among them the table's "test@" and the empty string. */
  lemma RejectsTooShort(s: GoString)
    ensures |s| < 6 ==> !ValidateEmail(s)
    ensures !ValidateEmail("test@")
    ensures !ValidateEmail("")
  {
  }
}
