/** The email-format check of the guestbook.

    The source accepts an address when it matches the anchored pattern
    `^[a-zA-Z0-9._%+-]+@[a-zA-Z0-9.-]+\.[a-zA-Z]{2,}$`. This module gives
    three readings of that pattern and proves them the same:
      - `MatchesPattern`: the pattern read literally, as a split of the input
        into local part, `@`, host, `.`, top-level domain;
      - `WellFormedAddress`: the description in words: exactly one `@`, a
        non-empty local part, and a domain whose final `.` has at least one
        byte before it and at least two ASCII letters after it;
      - `IsValidEmail`: a decision procedure with no regular-expression engine,
        one run forward over the local part and one run backward over the
        top-level domain.
    Every class of the pattern is ASCII, so a byte outside ASCII (and therefore
    any multi-byte or malformed UTF-8 sequence) never matches: working on bytes
    decides exactly what the rune-based matcher decides. */
module Email {
  import opened Bytes

  /** `[a-zA-Z]` */
  predicate IsLetter(b: byte) {
    65 <= b <= 90 || 97 <= b <= 122
  }

  /** `[0-9]` */
  predicate IsDigit(b: byte) {
    48 <= b <= 57
  }

  /** `[a-zA-Z0-9._%+-]`, the class of the local part. */
  predicate IsLocalByte(b: byte) {
    IsLetter(b) || IsDigit(b) || b == DOT || b == UNDERSCORE || b == PERCENT || b == PLUS || b == HYPHEN
  }

  /** `[a-zA-Z0-9.-]`, the class of the domain. */
  predicate IsDomainByte(b: byte) {
    IsLetter(b) || IsDigit(b) || b == DOT || b == HYPHEN
  }

  predicate AllLocal(s: Bytes) {
    forall i | 0 <= i < |s| :: IsLocalByte(s[i])
  }

  predicate AllDomain(s: Bytes) {
    forall i | 0 <= i < |s| :: IsDomainByte(s[i])
  }

  predicate AllLetters(s: Bytes) {
    forall i | 0 <= i < |s| :: IsLetter(s[i])
  }

  /** `s` is `local @ host . tld` with the `@` at index `a` and the `.` at index `d`. */
  ghost predicate PatternSplit(s: Bytes, a: int, d: int) {
    && 0 < a && a + 1 < d && d + 2 < |s|
    && s[a] == AT && s[d] == DOT
    && AllLocal(s[..a])
    && AllDomain(s[a + 1..d])
    && AllLetters(s[d + 1..])
  }

  /** The anchored pattern, read literally. */
  ghost predicate MatchesPattern(s: Bytes) {
    exists a, d {:trigger PatternSplit(s, a, d)} :: PatternSplit(s, a, d)
  }

  /** A domain drawn from `[A-Za-z0-9.-]` whose final `.` has at least one byte
      before it and at least two ASCII letters after it. */
  ghost predicate WellFormedDomain(dom: Bytes) {
    && AllDomain(dom)
    && exists d | 1 <= d < |dom| ::
         && dom[d] == DOT
         && (forall j | d < j < |dom| :: dom[j] != DOT)
         && |dom| - (d + 1) >= 2
         && AllLetters(dom[d + 1..])
  }

  /** Exactly one `@`, a non-empty local part from the local class, and a
      well-formed domain after the `@`. */
  ghost predicate WellFormedAddress(s: Bytes) {
    && multiset(s)[AT] == 1
    && exists a | 0 < a < |s| :: s[a] == AT && AllLocal(s[..a]) && WellFormedDomain(s[a + 1..])
  }

  /** Length of the longest prefix of `s` drawn from the local class. */
  function LocalRun(s: Bytes): (n: nat)
    ensures n <= |s|
    ensures forall i | 0 <= i < n :: IsLocalByte(s[i])
    ensures n < |s| ==> !IsLocalByte(s[n])
  {
    if s == [] || !IsLocalByte(s[0]) then 0 else 1 + LocalRun(s[1..])
  }

  /** Length of the longest suffix of `s` made of ASCII letters. */
  function TrailingLetters(s: Bytes): (n: nat)
    ensures n <= |s|
    ensures forall i | |s| - n <= i < |s| :: IsLetter(s[i])
    ensures n < |s| ==> !IsLetter(s[|s| - n - 1])
  {
    if s == [] || !IsLetter(s[|s| - 1]) then 0 else 1 + TrailingLetters(s[..|s| - 1])
  }

  /** The decision procedure. No class of the pattern contains `@` and the
      top-level domain holds letters only, so a match can only split the input
      where the local run stops and where the trailing letter run starts. */
  function IsValidEmail(s: Bytes): bool {
    var a := LocalRun(s);
    var d := |s| - TrailingLetters(s) - 1;
    && 0 < a < |s| && s[a] == AT
    && a + 1 < d && d + 2 < |s| && s[d] == DOT
    && AllDomain(s[a + 1..d])
  }

  /** Any match splits the input at the two positions the decision procedure looks at. */
  lemma SplitIsForced(s: Bytes, a: int, d: int)
    requires PatternSplit(s, a, d)
    ensures a == LocalRun(s)
    ensures d == |s| - TrailingLetters(s) - 1
  {
    assert forall i | 0 <= i < a :: IsLocalByte(s[i]) by {
      forall i | 0 <= i < a ensures IsLocalByte(s[i]) {
        assert s[..a][i] == s[i];
      }
    }
    assert !IsLocalByte(s[a]);
    assert forall i | d < i < |s| :: IsLetter(s[i]) by {
      forall i | d < i < |s| ensures IsLetter(s[i]) {
        assert s[d + 1..][i - d - 1] == s[i];
      }
    }
    assert !IsLetter(s[d]);
  }

  /** The decision procedure accepts exactly the inputs the anchored pattern matches. */
  lemma IsValidEmailDecidesPattern(s: Bytes)
    ensures IsValidEmail(s) <==> MatchesPattern(s)
  {
    var a := LocalRun(s);
    var d := |s| - TrailingLetters(s) - 1;
    if IsValidEmail(s) {
      assert AllLocal(s[..a]);
      assert AllLetters(s[d + 1..]);
      assert PatternSplit(s, a, d);
    }
    if MatchesPattern(s) {
      var a', d' :| PatternSplit(s, a', d');
      SplitIsForced(s, a', d');
    }
  }

  lemma NoAtCounted(t: Bytes)
    requires forall i | 0 <= i < |t| :: t[i] != AT
    ensures multiset(t)[AT] == 0
  {
  }

  /** A literal match has exactly one `@` and a well-formed domain. */
  lemma MatchImpliesWellFormed(s: Bytes, a: int, d: int)
    requires PatternSplit(s, a, d)
    ensures WellFormedAddress(s)
  {
    var dom := s[a + 1..];
    var k := d - (a + 1);
    assert s == s[..a] + [AT] + dom;
    assert forall i | 0 <= i < a :: s[..a][i] != AT by {
      assert AllLocal(s[..a]);
    }
    NoAtCounted(s[..a]);
    DomainOfMatch(s, a, d);
    NoAtCounted(dom);
    assert multiset(s) == multiset(s[..a]) + multiset{AT} + multiset(dom);
  }

  /** The part after the `@` of a literal match is a well-formed domain without `@`. */
  lemma DomainOfMatch(s: Bytes, a: int, d: int)
    requires PatternSplit(s, a, d)
    ensures AT !in s[a + 1..]
    ensures WellFormedDomain(s[a + 1..])
  {
  }

  /** A well-formed domain splits into a host and a top-level domain. */
  lemma WellFormedDomainSplits(dom: Bytes) returns (k: int)
    requires WellFormedDomain(dom)
    ensures 1 <= k && k + 2 < |dom| && dom[k] == DOT
    ensures AllDomain(dom[..k]) && AllLetters(dom[k + 1..])
  {
    k :| 1 <= k < |dom| && dom[k] == DOT && |dom| - (k + 1) >= 2 && AllLetters(dom[k + 1..]);
    assert forall i | 0 <= i < k :: dom[..k][i] == dom[i];
  }

  /** A well-formed address splits as the pattern demands. */
  lemma WellFormedImpliesMatch(s: Bytes, a: int)
    requires 0 < a < |s| && s[a] == AT && AllLocal(s[..a]) && WellFormedDomain(s[a + 1..])
    ensures MatchesPattern(s)
  {
    var dom := s[a + 1..];
    var k := WellFormedDomainSplits(dom);
    var d := a + 1 + k;
    assert s[a + 1..d] == dom[..k];
    assert s[d + 1..] == dom[k + 1..];
    assert PatternSplit(s, a, d);
  }

  /** The literal reading of the pattern and the description in words agree. */
  lemma MatchesPatternIffWellFormed(s: Bytes)
    ensures MatchesPattern(s) <==> WellFormedAddress(s)
  {
    if MatchesPattern(s) {
      var a, d :| PatternSplit(s, a, d);
      MatchImpliesWellFormed(s, a, d);
    }
    if WellFormedAddress(s) {
      var a :| 0 < a < |s| && s[a] == AT && AllLocal(s[..a]) && WellFormedDomain(s[a + 1..]);
      WellFormedImpliesMatch(s, a);
    }
  }

  /** The decision procedure accepts exactly the well-formed addresses. */
  lemma IsValidEmailIffWellFormed(s: Bytes)
    ensures IsValidEmail(s) <==> WellFormedAddress(s)
  {
    IsValidEmailDecidesPattern(s);
    MatchesPatternIffWellFormed(s);
  }
}
