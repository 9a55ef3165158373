/** Sensitive-content detection: `containsSensitiveHealthInfo` of utils/chat.ts.

    Each of the fifteen regular expressions of the detection table has the form
    `\b<body>\b`, where the body is one of three shapes: the SSN shape
    `\d{3}-\d{2}-\d{4}`, the nine-digit run `\d{9}`, or a literal lower-case
    phrase matched case-insensitively (`/i`). None carries the `g` flag, so
    `RegExp.prototype.test` always scans from index 0 and keeps no state. */
module Detection {
  import opened Text

  datatype Pattern =
    | Ssn                    // \b\d{3}-\d{2}-\d{4}\b
    | NineDigits             // \b\d{9}\b
    | Phrase(text: string)   // \b<text>\b with the i flag

  /** Number of characters a match of the pattern's body spans. */
  function Width(p: Pattern): nat {
    match p
    case Ssn => 11
    case NineDigits => 9
    case Phrase(t) => |t|
  }

  predicate IsWordAt(s: string, j: int) {
    0 <= j < |s| && IsWordChar(s[j])
  }

  /** The assertion `\b` holds at position `k` (between `s[k-1]` and `s[k]`):
      exactly one side is a word character, outside the string counting as a
      non-word character. */
  predicate WordBoundary(s: string, k: int) {
    IsWordAt(s, k - 1) != IsWordAt(s, k)
  }

  /** `\d{n}` matches at `i`. */
  predicate DigitsAt(s: string, i: nat, n: nat)
    requires i + n <= |s|
    decreases n
  {
    n == 0 || (IsDigit(s[i]) && DigitsAt(s, i + 1, n - 1))
  }

  /** The characters `t[j..]` match case-insensitively from `s[i + j]` on. */
  predicate PhraseFrom(s: string, i: nat, t: string, j: nat)
    requires i + |t| <= |s| && j <= |t|
    decreases |t| - j
  {
    j == |t| || (Canonicalize(s[i + j]) == Canonicalize(t[j]) && PhraseFrom(s, i, t, j + 1))
  }

  /** The body of the pattern (everything between the two `\b`) matches at `i`. */
  predicate BodyAt(s: string, i: nat, p: Pattern)
    requires i + Width(p) <= |s|
  {
    match p
    case Ssn =>
      DigitsAt(s, i, 3) && s[i + 3] == '-' && DigitsAt(s, i + 4, 2) && s[i + 6] == '-' && DigitsAt(s, i + 7, 4)
    case NineDigits => DigitsAt(s, i, 9)
    case Phrase(t) => PhraseFrom(s, i, t, 0)
  }

  /** The whole regular expression `\b<body>\b` matches at index `i`. Every body
      has a fixed width, so at most one match starts at each index. */
  predicate MatchesAt(s: string, i: nat, p: Pattern) {
    i + Width(p) <= |s| && WordBoundary(s, i) && BodyAt(s, i, p) && WordBoundary(s, i + Width(p))
  }

  /** The pattern matches somewhere in `s`. */
  ghost predicate Occurs(s: string, p: Pattern) {
    exists i: nat :: MatchesAt(s, i, p)
  }

  /** `i` is the leftmost index at which the pattern matches. */
  ghost predicate Leftmost(s: string, i: nat, p: Pattern) {
    MatchesAt(s, i, p) && forall j: nat :: j < i ==> !MatchesAt(s, j, p)
  }

  /** The leftmost match at index `k` or later, scanning upwards as the
      regular-expression engine does. */
  function FirstMatchFrom(s: string, p: Pattern, k: nat): (r: Option<nat>)
    ensures r.Some? ==> k <= r.value && MatchesAt(s, r.value, p)
    ensures r.Some? ==> forall j: nat :: k <= j < r.value ==> !MatchesAt(s, j, p)
    ensures r.None? ==> forall j: nat :: k <= j ==> !MatchesAt(s, j, p)
    decreases |s| - k
  {
    if k + Width(p) > |s| then None
    else if MatchesAt(s, k, p) then Some(k)
    else FirstMatchFrom(s, p, k + 1)
  }

  /** The index of the leftmost match, as found by `RegExp.prototype.exec`
      with `lastIndex` 0. */
  function FirstMatch(s: string, p: Pattern): (r: Option<nat>)
    ensures r.Some? ==> Leftmost(s, r.value, p)
    ensures r.None? <==> !Occurs(s, p)
  {
    FirstMatchFrom(s, p, 0)
  }

  /** `RegExp.prototype.test` of a non-global regular expression. */
  function Test(p: Pattern, s: string): (r: bool)
    ensures r <==> Occurs(s, p)
  {
    FirstMatch(s, p).Some?
  }

  /** The detection table of utils/chat.ts, in source order. */
  const DetectionPatterns: seq<Pattern> := [
    Ssn,
    NineDigits,
    Phrase("patient id"),
    Phrase("phi"),
    Phrase("date of birth"),
    Phrase("phone number"),
    Phrase("email address"),
    Phrase("address"),
    Phrase("insurance"),
    Phrase("medical history"),
    Phrase("medication"),
    Phrase("family history"),
    Phrase("genetic disorder"),
    Phrase("clinical trial"),
    Phrase("research data")
  ]

  /** `Array.prototype.some` of `pattern.test(s)` over a pattern table. */
  function SomeTest(ps: seq<Pattern>, s: string): (r: bool)
    ensures r <==> exists k :: 0 <= k < |ps| && Occurs(s, ps[k])
  {
    if ps == [] then false
    else Test(ps[0], s) || SomeTest(ps[1..], s)
  }

  /** `containsSensitiveHealthInfo`: some pattern of the table matches the
      message with word boundaries on both sides. */
  function ContainsSensitiveHealthInfo(message: string): (r: bool)
    ensures r <==> exists k :: 0 <= k < |DetectionPatterns| && Occurs(message, DetectionPatterns[k])
  {
    SomeTest(DetectionPatterns, message)
  }

  // ---------------------------------------------------------------------
  // What a match means

  /** The body of the pattern starts and ends with characters that only match
      word characters. All fifteen patterns have this form. */
  predicate WordAnchored(p: Pattern) {
    match p
    case Ssn => true
    case NineDigits => true
    case Phrase(t) => |t| > 0 && IsWordChar(t[0]) && IsWordChar(t[|t| - 1])
  }

  lemma DetectionPatternsWordAnchored()
    ensures forall k :: 0 <= k < |DetectionPatterns| ==> WordAnchored(DetectionPatterns[k])
  {
  }

  lemma {:induction false} PhraseFromAt(s: string, i: nat, t: string, j: nat, m: nat)
    requires i + |t| <= |s| && j <= m < |t|
    requires PhraseFrom(s, i, t, j)
    ensures Canonicalize(s[i + m]) == Canonicalize(t[m])
    decreases m - j
  {
    if j < m {
      PhraseFromAt(s, i, t, j + 1, m);
    }
  }

  lemma {:induction false} PhraseFromAll(s: string, i: nat, t: string, j: nat)
    requires i + |t| <= |s| && j <= |t|
    requires forall m :: j <= m < |t| ==> Canonicalize(s[i + m]) == Canonicalize(t[m])
    ensures PhraseFrom(s, i, t, j)
    decreases |t| - j
  {
    if j < |t| {
      PhraseFromAll(s, i, t, j + 1);
    }
  }

  lemma {:induction false} DigitsAtAt(s: string, i: nat, n: nat, m: nat)
    requires i + n <= |s| && m < n
    requires DigitsAt(s, i, n)
    ensures IsDigit(s[i + m])
    decreases n
  {
    if m > 0 {
      DigitsAtAt(s, i + 1, n - 1, m - 1);
    }
  }

  lemma {:induction false} DigitsAtAll(s: string, i: nat, n: nat)
    requires i + n <= |s|
    requires forall k :: i <= k < i + n ==> IsDigit(s[k])
    ensures DigitsAt(s, i, n)
    decreases n
  {
    if n > 0 {
      DigitsAtAll(s, i + 1, n - 1);
    }
  }

  lemma {:induction false} DigitsLocal(s: string, i: nat, u: string, i': nat, w: nat, o: nat, n: nat)
    requires i + w <= |s| && i' + w <= |u| && o + n <= w && s[i..i + w] == u[i'..i' + w]
    ensures DigitsAt(s, i + o, n) == DigitsAt(u, i' + o, n)
    decreases n
  {
    if n > 0 {
      assert s[i + o] == s[i..i + w][o] == u[i' + o];
      DigitsLocal(s, i, u, i', w, o + 1, n - 1);
    }
  }

  /** Every phrase matches itself. */
  lemma {:induction false} PhraseFromSelf(t: string, j: nat)
    requires j <= |t|
    ensures PhraseFrom(t, 0, t, j)
    decreases |t| - j
  {
    if j < |t| {
      PhraseFromSelf(t, j + 1);
    }
  }

  lemma {:induction false} PhraseLocal(s: string, i: nat, u: string, i': nat, t: string, j: nat)
    requires i + |t| <= |s| && i' + |t| <= |u| && j <= |t| && s[i..i + |t|] == u[i'..i' + |t|]
    ensures PhraseFrom(s, i, t, j) == PhraseFrom(u, i', t, j)
    decreases |t| - j
  {
    if j < |t| {
      assert s[i + j] == s[i..i + |t|][j] == u[i' + j];
      PhraseLocal(s, i, u, i', t, j + 1);
    }
  }

  /** Whether the body of a pattern matches depends only on the characters it
      spans. */
  lemma BodyLocal(s: string, i: nat, u: string, i': nat, p: Pattern)
    requires i + Width(p) <= |s| && i' + Width(p) <= |u| && s[i..i + Width(p)] == u[i'..i' + Width(p)]
    ensures BodyAt(s, i, p) == BodyAt(u, i', p)
  {
    var w := Width(p);
    match p
    case Ssn =>
      assert s[i + 3] == s[i..i + w][3] == u[i' + 3];
      assert s[i + 6] == s[i..i + w][6] == u[i' + 6];
      DigitsLocal(s, i, u, i', w, 0, 3);
      DigitsLocal(s, i, u, i', w, 4, 2);
      DigitsLocal(s, i, u, i', w, 7, 4);
    case NineDigits =>
      DigitsLocal(s, i, u, i', w, 0, 9);
    case Phrase(t) =>
      PhraseLocal(s, i, u, i', t, 0);
  }

  /** Whether a pattern matches depends only on the span it would cover and
      the character on each side of it. */
  lemma MatchLocal(s: string, i: nat, u: string, i': nat, p: Pattern)
    requires i + Width(p) <= |s| && i' + Width(p) <= |u| && s[i..i + Width(p)] == u[i'..i' + Width(p)]
    requires IsWordAt(s, i - 1) == IsWordAt(u, i' - 1)
    requires IsWordAt(s, i + Width(p)) == IsWordAt(u, i' + Width(p))
    ensures MatchesAt(s, i, p) == MatchesAt(u, i', p)
  {
    var w := Width(p);
    BodyLocal(s, i, u, i', p);
    if w > 0 {
      assert s[i] == s[i..i + w][0] == u[i'];
      assert s[i + w - 1] == s[i..i + w][w - 1] == u[i' + w - 1];
    }
  }

  /** The first and last characters of a match of a word-anchored pattern are
      word characters. */
  lemma MatchEndsAreWordChars(s: string, i: nat, p: Pattern)
    requires WordAnchored(p) && i + Width(p) <= |s| && BodyAt(s, i, p)
    ensures Width(p) > 0 && IsWordChar(s[i]) && IsWordChar(s[i + Width(p) - 1])
  {
    match p
    case Ssn =>
      DigitsAtAt(s, i, 3, 0);
      DigitsAtAt(s, i + 7, 4, 3);
    case NineDigits =>
      DigitsAtAt(s, i, 9, 0);
      DigitsAtAt(s, i, 9, 8);
    case Phrase(t) =>
      PhraseFromAt(s, i, t, 0, 0);
      PhraseFromAt(s, i, t, 0, |t| - 1);
  }

  /** Word boundaries: a word-anchored pattern matches at `i` exactly when its
      body matches there and the characters just before and just after the
      match are absent or non-word characters. So "addresses" holds no match of
      `\baddress\b`, and a ten-digit run holds no match of `\b\d{9}\b`. */
  lemma MatchIsWholeWords(s: string, i: nat, p: Pattern)
    requires WordAnchored(p)
    ensures MatchesAt(s, i, p) <==>
      && i + Width(p) <= |s|
      && BodyAt(s, i, p)
      && (i == 0 || !IsWordChar(s[i - 1]))
      && (i + Width(p) == |s| || !IsWordChar(s[i + Width(p)]))
  {
    if i + Width(p) <= |s| && BodyAt(s, i, p) {
      MatchEndsAreWordChars(s, i, p);
    }
  }

  /** In a string made only of word characters a word-anchored pattern can
      only match the whole string. */
  lemma SingleWordMatch(s: string, i: nat, p: Pattern)
    requires WordAnchored(p)
    requires forall k :: 0 <= k < |s| ==> IsWordChar(s[k])
    requires MatchesAt(s, i, p)
    ensures i == 0 && Width(p) == |s|
  {
    MatchIsWholeWords(s, i, p);
  }

  /** A run made only of digits holds a match of `\b\d{9}\b` exactly when it is
      nine digits long. */
  lemma DigitRunIsMrnIffNine(s: string)
    requires forall k :: 0 <= k < |s| ==> IsDigit(s[k])
    ensures Occurs(s, NineDigits) <==> |s| == 9
  {
    if Occurs(s, NineDigits) {
      var i: nat :| MatchesAt(s, i, NineDigits);
      SingleWordMatch(s, i, NineDigits);
    }
    if |s| == 9 {
      DigitsAtAll(s, 0, 9);
      assert MatchesAt(s, 0, NineDigits);
    }
  }

  /** No character of the text is in the set. */
  predicate Avoids(s: string, cs: set<char>) {
    forall k :: 0 <= k < |s| ==> s[k] !in cs
  }

  /** No character of the first set is directly followed by one of the
      second set. */
  predicate AvoidsPair(s: string, first: set<char>, second: set<char>) {
    forall k :: 0 <= k < |s| - 1 ==> !(s[k] in first && s[k + 1] in second)
  }

  /** A character that matches `c` case-insensitively is `c` itself or, for a
      lower-case letter, its upper-case form. */
  lemma CanonicalizeMatches(d: char, c: char)
    requires !('A' <= c <= 'Z') && Canonicalize(d) == Canonicalize(c)
    ensures d == c || d == Canonicalize(c)
  {
  }

  /** A phrase occurs only where each of its characters occurs, up to case:
      if the message avoids, in both cases, some lower-case or non-letter
      character of the phrase, the phrase does not match anywhere. */
  lemma AbsentCharNoMatch(s: string, cs: set<char>, t: string, j: nat)
    requires Avoids(s, cs) && j < |t| && !('A' <= t[j] <= 'Z')
    requires t[j] in cs && Canonicalize(t[j]) in cs
    ensures !Occurs(s, Phrase(t))
  {
    if i: nat :| MatchesAt(s, i, Phrase(t)) {
      PhraseFromAt(s, i, t, 0, j);
      CanonicalizeMatches(s[i + j], t[j]);
    }
  }

  /** The same for two adjacent characters of the phrase: if the message
      never has the first directly followed by the second, in either case,
      the phrase does not match anywhere. */
  lemma AbsentPairNoMatch(s: string, first: set<char>, second: set<char>, t: string, j: nat)
    requires AvoidsPair(s, first, second) && j + 1 < |t|
    requires !('A' <= t[j] <= 'Z') && t[j] in first && Canonicalize(t[j]) in first
    requires !('A' <= t[j + 1] <= 'Z') && t[j + 1] in second && Canonicalize(t[j + 1]) in second
    ensures !Occurs(s, Phrase(t))
  {
    if i: nat :| MatchesAt(s, i, Phrase(t)) {
      PhraseFromAt(s, i, t, 0, j);
      PhraseFromAt(s, i, t, 0, j + 1);
      CanonicalizeMatches(s[i + j], t[j]);
      CanonicalizeMatches(s[i + j + 1], t[j + 1]);
    }
  }

  /** Both number shapes need a digit. */
  lemma NoDigitNoNumber(s: string)
    requires forall k :: 0 <= k < |s| ==> !IsDigit(s[k])
    ensures !Occurs(s, Ssn) && !Occurs(s, NineDigits)
  {
  }

  /** A match of a multi-word phrase begins with a match of its first word:
      the space after the first word is itself a word boundary. */
  lemma PhrasePrefixMatch(s: string, i: nat, t: string, w: nat)
    requires 0 < w < |t| && IsWordChar(t[w - 1]) && !IsWordChar(t[w])
    requires MatchesAt(s, i, Phrase(t))
    ensures MatchesAt(s, i, Phrase(t[..w]))
  {
    PhraseFromAt(s, i, t, 0, w - 1);
    PhraseFromAt(s, i, t, 0, w);
    forall m | 0 <= m < w ensures Canonicalize(s[i + m]) == Canonicalize(t[..w][m]) {
      PhraseFromAt(s, i, t, 0, m);
    }
    PhraseFromAll(s, i, t[..w], 0);
  }

  /** A phrase that starts and ends with a word character is the leftmost
      match in a text that begins with it and goes on with a non-word
      character, or ends. */
  lemma PhraseAtStart(t: string, rest: string)
    requires |t| > 0 && IsWordChar(t[0]) && IsWordChar(t[|t| - 1])
    requires rest == [] || !IsWordChar(rest[0])
    ensures Leftmost(t + rest, 0, Phrase(t))
  {
    var s := t + rest;
    PhraseFromSelf(t, 0);
    assert s[0..|t|] == t[0..|t|];
    PhraseLocal(t, 0, s, 0, t, 0);
    assert s[0] == t[0];
    if rest != [] {
      assert s[|t|] == rest[0];
    }
  }
}
