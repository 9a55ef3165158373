/** Re-sanitizing. The compliance notice that `sanitizeForHIPAA` appends
    holds no sensitive pattern, and it starts with a space and a bracket, so no
    match can run into it from the text in front. Whether a second pass
    changes a sanitized message is therefore decided by the substitution
    chain's output alone. */
module Resanitize {
  import opened Text
  import opened Detection
  import opened Sanitize
  import opened DetectionExamples

  // ---------------------------------------------------------------------
  // The notice on its own

  lemma AvoidsConcat(a: string, b: string, cs: set<char>)
    requires Avoids(a, cs) && Avoids(b, cs)
    ensures Avoids(a + b, cs)
  {
    forall k | 0 <= k < |a + b| ensures (a + b)[k] !in cs {
      if k >= |a| {
        assert (a + b)[k] == b[k - |a|];
      }
    }
  }

  lemma AvoidsPairConcat(a: string, b: string, first: set<char>, second: set<char>)
    requires AvoidsPair(a, first, second) && AvoidsPair(b, first, second)
    requires |a| > 0 && a[|a| - 1] !in first
    ensures AvoidsPair(a + b, first, second)
  {
    forall k | 0 <= k < |a + b| - 1 ensures !((a + b)[k] in first && (a + b)[k + 1] in second) {
      if k >= |a| {
        assert (a + b)[k] == b[k - |a|] && (a + b)[k + 1] == b[k + 1 - |a|];
      }
    }
  }

  /** A piece of text avoids the characters and pairs the notice avoids. */
  predicate NoticeLike(s: string) {
    && Avoids(s, {'b', 'B', 'u', 'U', 'y', 'Y', '0', '1', '2', '3', '4', '5', '6', '7', '8', '9'})
    && AvoidsPair(s, {'a', 'A'}, {'t', 'T'})
    && AvoidsPair(s, {'p', 'P'}, {'h', 'H'})
    && AvoidsPair(s, {'e', 'E'}, {'m', 'M', 'n', 'N'})
    && AvoidsPair(s, {'d', 'D'}, {'d', 'D', 'i', 'I'})
    && AvoidsPair(s, {'c', 'C'}, {'l', 'L'})
    && AvoidsPair(s, {'s', 'S'}, {'e', 'E'})
  }

  lemma NoticeLikeConcat(a: string, b: string)
    requires NoticeLike(a) && NoticeLike(b) && |a| > 0 && a[|a| - 1] == ' '
    ensures NoticeLike(a + b)
  {
    AvoidsConcat(a, b, {'b', 'B', 'u', 'U', 'y', 'Y', '0', '1', '2', '3', '4', '5', '6', '7', '8', '9'});
    AvoidsPairConcat(a, b, {'a', 'A'}, {'t', 'T'});
    AvoidsPairConcat(a, b, {'p', 'P'}, {'h', 'H'});
    AvoidsPairConcat(a, b, {'e', 'E'}, {'m', 'M', 'n', 'N'});
    AvoidsPairConcat(a, b, {'d', 'D'}, {'d', 'D', 'i', 'I'});
    AvoidsPairConcat(a, b, {'c', 'C'}, {'l', 'L'});
    AvoidsPairConcat(a, b, {'s', 'S'}, {'e', 'E'});
  }

  lemma NoticeStart(s: string)
    requires s == " [This message "
    ensures NoticeLike(s) && s[|s| - 1] == ' '
  {
  }

  lemma NoticeVerb(s: string)
    requires s == "was redacted "
    ensures NoticeLike(s) && s[|s| - 1] == ' '
  {
  }

  lemma NoticeFor(s: string)
    requires s == "for HIPAA "
    ensures NoticeLike(s) && s[|s| - 1] == ' '
  {
  }

  lemma NoticeEnd(s: string)
    requires s == "compliance.]"
    ensures NoticeLike(s)
  {
  }

  lemma NoticeLikeJoin(a: string, b: string, c: string, d: string)
    requires NoticeLike(a) && NoticeLike(b) && NoticeLike(c) && NoticeLike(d)
    requires |a| > 0 && a[|a| - 1] == ' ' && |b| > 0 && b[|b| - 1] == ' ' && |c| > 0 && c[|c| - 1] == ' '
    ensures NoticeLike(a + (b + (c + d)))
  {
    NoticeLikeConcat(c, d);
    NoticeLikeConcat(b, c + d);
    NoticeLikeConcat(a, b + (c + d));
  }

  lemma NoticeHalves(a: string, b: string, c: string, d: string)
    requires a == " [This message " && b == "was redacted " && c == "for HIPAA " && d == "compliance.]"
    ensures a + b == " [This message was redacted " && c + d == "for HIPAA compliance.]"
  {
  }

  lemma NoticePieces(n: string, a: string, b: string, c: string, d: string)
    requires n == Notice
    requires a == " [This message " && b == "was redacted " && c == "for HIPAA " && d == "compliance.]"
    ensures n == a + (b + (c + d))
  {
    NoticeHalves(a, b, c, d);
    assert n == " [This message was redacted " + "for HIPAA compliance.]";
  }

  /** The notice avoids every character and pair listed in `NoticeLike`. */
  lemma NoticeIsNoticeLike(n: string)
    requires n == Notice
    ensures NoticeLike(n)
  {
    var a, b, c, d := " [This message ", "was redacted ", "for HIPAA ", "compliance.]";
    NoticeStart(a);
    NoticeVerb(b);
    NoticeFor(c);
    NoticeEnd(d);
    NoticePieces(n, a, b, c, d);
    NoticeLikeJoin(a, b, c, d);
  }

  /** A text avoiding those characters and pairs holds neither number shape
      and none of the five phrases with a rare letter. */
  lemma NoticeLikeNoRareWord(s: string)
    requires NoticeLike(s)
    ensures !Occurs(s, Ssn) && !Occurs(s, NineDigits)
    ensures !Occurs(s, Phrase("date of birth")) && !Occurs(s, Phrase("phone number"))
    ensures !Occurs(s, Phrase("insurance")) && !Occurs(s, Phrase("medical history"))
    ensures !Occurs(s, Phrase("family history"))
  {
    var absent := {'b', 'B', 'u', 'U', 'y', 'Y', '0', '1', '2', '3', '4', '5', '6', '7', '8', '9'};
    forall k | 0 <= k < |s| ensures !IsDigit(s[k]) {
      assert s[k] !in absent;
    }
    NoDigitNoNumber(s);
    AbsentCharNoMatch(s, absent, "date of birth", 8);
    AbsentCharNoMatch(s, absent, "phone number", 7);
    AbsentCharNoMatch(s, absent, "insurance", 3);
    AbsentCharNoMatch(s, absent, "medical history", 14);
    AbsentCharNoMatch(s, absent, "family history", 5);
  }

  /** ... and none of the other eight phrases, each of which has two adjacent
      characters that never stand side by side in it. */
  lemma NoticeLikeNoPairWord(s: string)
    requires NoticeLike(s)
    ensures !Occurs(s, Phrase("patient id")) && !Occurs(s, Phrase("phi"))
    ensures !Occurs(s, Phrase("email address")) && !Occurs(s, Phrase("address"))
  {
    AbsentPairNoMatch(s, {'a', 'A'}, {'t', 'T'}, "patient id", 1);
    AbsentPairNoMatch(s, {'p', 'P'}, {'h', 'H'}, "phi", 0);
    AbsentPairNoMatch(s, {'e', 'E'}, {'m', 'M', 'n', 'N'}, "email address", 0);
    AbsentPairNoMatch(s, {'d', 'D'}, {'d', 'D', 'i', 'I'}, "address", 1);
  }

  lemma NoticeLikeNoOtherPairWord(s: string)
    requires NoticeLike(s)
    ensures !Occurs(s, Phrase("medication")) && !Occurs(s, Phrase("genetic disorder"))
    ensures !Occurs(s, Phrase("clinical trial")) && !Occurs(s, Phrase("research data"))
  {
    AbsentPairNoMatch(s, {'d', 'D'}, {'d', 'D', 'i', 'I'}, "medication", 2);
    AbsentPairNoMatch(s, {'e', 'E'}, {'m', 'M', 'n', 'N'}, "genetic disorder", 1);
    AbsentPairNoMatch(s, {'c', 'C'}, {'l', 'L'}, "clinical trial", 0);
    AbsentPairNoMatch(s, {'s', 'S'}, {'e', 'E'}, "research data", 2);
  }

  /** The compliance notice is not flagged. */
  lemma NoticeNotFlagged(n: string)
    requires n == Notice
    ensures !ContainsSensitiveHealthInfo(n)
  {
    NoticeIsNoticeLike(n);
    NoticeLikeNoRareWord(n);
    NoticeLikeNoPairWord(n);
    NoticeLikeNoOtherPairWord(n);
    NoPatternNotFlagged(n);
  }

  // ---------------------------------------------------------------------
  // Text in front of the notice

  /** No character of the pattern's body is an opening bracket. */
  predicate NoBracket(p: Pattern) {
    match p
    case Ssn => true
    case NineDigits => true
    case Phrase(t) => forall m :: 0 <= m < |t| ==> t[m] != '['
  }

  lemma DetectionPatternsNoBracket()
    ensures forall k :: 0 <= k < |DetectionPatterns| ==> NoBracket(DetectionPatterns[k])
  {
  }

  /** A bracket matches only a bracket, in either case. */
  lemma CanonicalizeBracket(c: char)
    requires Canonicalize(c) == Canonicalize('[')
    ensures c == '['
  {
  }

  /** A body without a bracket matches no bracket. */
  lemma BodyHasNoBracket(s: string, i: nat, p: Pattern, m: nat)
    requires NoBracket(p) && i + Width(p) <= |s| && BodyAt(s, i, p) && m < Width(p)
    ensures s[i + m] != '['
  {
    match p
    case Ssn =>
      if m < 3 {
        DigitsAtAt(s, i, 3, m);
      } else if 4 <= m < 6 {
        DigitsAtAt(s, i + 4, 2, m - 4);
      } else if 7 <= m {
        DigitsAtAt(s, i + 7, 4, m - 7);
      }
    case NineDigits =>
      DigitsAtAt(s, i, 9, m);
    case Phrase(t) =>
      PhraseFromAt(s, i, t, 0, m);
      if s[i + m] == '[' {
        CanonicalizeBracket(t[m]);
      }
  }

  /** A match in the text in front is still a match once the notice-like
      tail, which starts with a non-word character, is appended. */
  lemma MatchBeforeTail(r: string, n: string, i: nat, p: Pattern)
    requires |n| > 0 && !IsWordChar(n[0]) && MatchesAt(r, i, p)
    ensures MatchesAt(r + n, i, p)
  {
    var w := Width(p);
    assert (r + n)[i..i + w] == r[i..i + w];
    MatchLocal(r, i, r + n, i, p);
  }

  /** A match in the combined text that ends before the tail is a match of
      the text in front. */
  lemma MatchInFront(r: string, n: string, i: nat, p: Pattern)
    requires |n| > 0 && !IsWordChar(n[0]) && i + Width(p) <= |r| && MatchesAt(r + n, i, p)
    ensures MatchesAt(r, i, p)
  {
    var w := Width(p);
    assert (r + n)[i..i + w] == r[i..i + w];
    MatchLocal(r, i, r + n, i, p);
  }

  /** A match in the combined text that starts inside the tail is a match of
      the tail. */
  lemma MatchInTail(r: string, n: string, i: nat, p: Pattern)
    requires |r| < i && MatchesAt(r + n, i, p)
    ensures MatchesAt(n, i - |r|, p)
  {
    var w := Width(p);
    assert (r + n)[i..i + w] == n[i - |r|..i - |r| + w];
    MatchLocal(r + n, i, n, i - |r|, p);
  }

  /** No match of a word-anchored pattern without a bracket starts before a
      tail that begins with a non-word character and a bracket and ends inside
      it, and none starts where the tail starts. */
  lemma NoMatchAcross(r: string, n: string, i: nat, p: Pattern)
    requires WordAnchored(p) && NoBracket(p)
    requires |n| >= 2 && !IsWordChar(n[0]) && n[1] == '['
    requires i <= |r| < i + Width(p)
    ensures !MatchesAt(r + n, i, p)
  {
    var s, w := r + n, Width(p);
    if MatchesAt(s, i, p) {
      MatchEndsAreWordChars(s, i, p);
      assert s[|r|] == n[0];
      if |r| + 1 < i + w {
        BodyHasNoBracket(s, i, p, |r| + 1 - i);
      }
    }
  }

  /** Appending such a tail, in which the pattern does not occur, does not
      change whether the pattern occurs. */
  lemma OccursBeforeTail(r: string, n: string, p: Pattern)
    requires WordAnchored(p) && NoBracket(p)
    requires |n| >= 2 && !IsWordChar(n[0]) && n[1] == '[' && !Occurs(n, p)
    ensures Occurs(r + n, p) <==> Occurs(r, p)
  {
    if i: nat :| MatchesAt(r, i, p) {
      MatchBeforeTail(r, n, i, p);
    }
    if i: nat :| MatchesAt(r + n, i, p) {
      if i + Width(p) <= |r| {
        MatchInFront(r, n, i, p);
      } else if i <= |r| {
        NoMatchAcross(r, n, i, p);
      } else {
        MatchInTail(r, n, i, p);
      }
    }
  }

  /** Appending such a tail, which is not flagged, does not change whether a
      text is flagged. */
  lemma FlaggedWithTail(r: string, n: string)
    requires |n| >= 2 && !IsWordChar(n[0]) && n[1] == '[' && !ContainsSensitiveHealthInfo(n)
    ensures ContainsSensitiveHealthInfo(r + n) <==> ContainsSensitiveHealthInfo(r)
  {
    DetectionPatternsWordAnchored();
    DetectionPatternsNoBracket();
    forall k | 0 <= k < |DetectionPatterns|
      ensures Occurs(r + n, DetectionPatterns[k]) <==> Occurs(r, DetectionPatterns[k])
    {
      OccursBeforeTail(r, n, DetectionPatterns[k]);
    }
  }

  lemma NoticeOpening(n: string)
    requires n == Notice
    ensures |n| >= 2 && n[0] == ' ' && n[1] == '['
  {
    var a, b, c, d := " [This message ", "was redacted ", "for HIPAA ", "compliance.]";
    NoticePieces(n, a, b, c, d);
    assert n[0] == a[0] && n[1] == a[1];
  }

  /** Appending the compliance notice never changes whether a text is
      flagged. */
  lemma FlaggedWithNotice(r: string)
    ensures ContainsSensitiveHealthInfo(r + Notice) <==> ContainsSensitiveHealthInfo(r)
  {
    NoticeNotFlagged(Notice);
    NoticeOpening(Notice);
    FlaggedWithTail(r, Notice);
  }

  /** A second pass leaves a sanitized message unchanged exactly when the
      message was not flagged, or the substitution chain left nothing that
      is flagged. */
  lemma SanitizeTwiceIffChainClean(message: string)
    ensures SanitizeForHipaa(SanitizeForHipaa(message)) == SanitizeForHipaa(message)
      <==> !ContainsSensitiveHealthInfo(message) || !ContainsSensitiveHealthInfo(Redact(RedactionSteps, message))
  {
    SanitizeTwiceIff(message);
    if ContainsSensitiveHealthInfo(message) {
      FlaggedWithNotice(Redact(RedactionSteps, message));
    }
  }

  // ---------------------------------------------------------------------
  // Labels that are flagged again

  /** The address label holds "ADDRESS" as a whole word, so a chain output
      that keeps it is flagged again. */
  lemma AddressLabelFlagged(l: string)
    requires l == "[REDACTED ADDRESS]"
    ensures MatchesAt(l, 10, Phrase("address"))
    ensures ContainsSensitiveHealthInfo(l)
  {
    assert MatchesAt(l, 10, Phrase("address"));
    assert DetectionPatterns[7] == Phrase("address");
  }
}
