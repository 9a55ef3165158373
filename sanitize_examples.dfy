/** Worked examples of `sanitizeForHIPAA` on concrete messages. Each chain of
    thirteen substitutions is followed in short runs of steps; a step is
    skipped when its pattern cannot occur in the current text (a digit-free
    text has no SSN or MRN; a phrase cannot match a text that lacks one of
    its letters in either case). */
module SanitizeExamples {
  import opened Text
  import opened Detection
  import opened Sanitize
  import opened DetectionExamples

  // ---------------------------------------------------------------------
  // Stepping through the substitution chain

  /** A step whose pattern does not occur passes the text on unchanged. */
  lemma SkipStep(s: string, k: nat)
    requires k < |RedactionSteps| && !Occurs(s, RedactionSteps[k].pattern)
    ensures Redact(RedactionSteps[k..], s) == Redact(RedactionSteps[k + 1..], s)
  {
    RedactStep(RedactionSteps, k, s);
    ReplaceFirstSpec(s, RedactionSteps[k].pattern, RedactionSteps[k].token);
  }

  /** A phrase step whose phrase starts the text replaces it there. */
  lemma HitAtStart(steps: seq<Substitution>, k: nat, t: string, rest: string, s: string, token: string, r: string)
    requires k < |steps| && steps[k] == Substitution(Phrase(t), token)
    requires |t| > 0 && IsWordChar(t[0]) && IsWordChar(t[|t| - 1])
    requires rest == [] || !IsWordChar(rest[0])
    requires s == t + rest && r == token + rest
    ensures Redact(steps[k..], s) == Redact(steps[k + 1..], r)
  {
    PhraseAtStart(t, rest);
    assert s[..0] + token + s[|t|..] == r by {
      assert s[|t|..] == rest;
      assert s[..0] == [];
    }
    RedactStep(steps, k, s);
    ReplaceFirstSpec(s, Phrase(t), token);
  }

  /** Steps 1-2 (SSN, MRN). */
  lemma SkipNumbers(s: string)
    requires !Occurs(s, Ssn) && !Occurs(s, NineDigits)
    ensures Redact(RedactionSteps, s) == Redact(RedactionSteps[2..], s)
  {
    SkipStep(s, 0);
    SkipStep(s, 1);
    assert RedactionSteps[0..] == RedactionSteps;
  }

  /** Steps 4-5 (phone number, email address). */
  lemma SkipPhoneEmail(s: string)
    requires !Occurs(s, Phrase("phone number")) && !Occurs(s, Phrase("email address"))
    ensures Redact(RedactionSteps[3..], s) == Redact(RedactionSteps[5..], s)
  {
    SkipStep(s, 3);
    SkipStep(s, 4);
  }

  /** Steps 6-8 (address, insurance, medical history). */
  lemma SkipAddressToHistory(s: string)
    requires !Occurs(s, Phrase("address")) && !Occurs(s, Phrase("insurance"))
    requires !Occurs(s, Phrase("medical history"))
    ensures Redact(RedactionSteps[5..], s) == Redact(RedactionSteps[8..], s)
  {
    SkipStep(s, 5);
    SkipStep(s, 6);
    SkipStep(s, 7);
  }

  /** Steps 10-13 (family history to research data). */
  lemma SkipLastFour(s: string)
    requires !Occurs(s, Phrase("family history")) && !Occurs(s, Phrase("genetic disorder"))
    requires !Occurs(s, Phrase("clinical trial")) && !Occurs(s, Phrase("research data"))
    ensures Redact(RedactionSteps[9..], s) == s
  {
    SkipStep(s, 9);
    SkipStep(s, 10);
    SkipStep(s, 11);
    SkipStep(s, 12);
    assert RedactionSteps[13..] == [];
  }

  // ---------------------------------------------------------------------
  // "phi": redacted, and the label is flagged again

  lemma PhiFacts(m: string)
    requires m == "phi"
    ensures MatchesAt(m, 0, Phrase("phi"))
    ensures !Occurs(m, Ssn) && !Occurs(m, NineDigits)
  {
    NoDigitNoNumber(m);
  }

  lemma PhiHit(s: string, r: string)
    requires s == "phi" && r == "[REDACTED PHI]"
    ensures Redact(RedactionSteps[2..], s) == Redact(RedactionSteps[3..], r)
  {
    HitAtStart(RedactionSteps, 2, "phi", "", s, "[REDACTED PHI]", r);
  }

  lemma PhiLabelLetters(r: string)
    requires r == "[REDACTED PHI]"
    ensures Avoids(r, {'o', 'O', 'm', 'M', 's', 'S', 'n', 'N', 'f', 'F', 'g', 'G', 'l', 'L'})
  {
  }

  lemma PhiLabelMiddle(r: string)
    requires Avoids(r, {'o', 'O', 'm', 'M', 's', 'S', 'n', 'N', 'f', 'F', 'g', 'G', 'l', 'L'})
    ensures Redact(RedactionSteps[3..], r) == Redact(RedactionSteps[8..], r)
  {
    var cs := {'o', 'O', 'm', 'M', 's', 'S', 'n', 'N', 'f', 'F', 'g', 'G', 'l', 'L'};
    AbsentCharNoMatch(r, cs, "phone number", 2);
    AbsentCharNoMatch(r, cs, "email address", 1);
    AbsentCharNoMatch(r, cs, "address", 5);
    AbsentCharNoMatch(r, cs, "insurance", 1);
    AbsentCharNoMatch(r, cs, "medical history", 0);
    SkipPhoneEmail(r);
    SkipAddressToHistory(r);
  }

  lemma PhiLabelTail(r: string)
    requires Avoids(r, {'o', 'O', 'm', 'M', 's', 'S', 'n', 'N', 'f', 'F', 'g', 'G', 'l', 'L'})
    ensures Redact(RedactionSteps[8..], r) == r
  {
    var cs := {'o', 'O', 'm', 'M', 's', 'S', 'n', 'N', 'f', 'F', 'g', 'G', 'l', 'L'};
    AbsentCharNoMatch(r, cs, "medication", 0);
    AbsentCharNoMatch(r, cs, "family history", 0);
    AbsentCharNoMatch(r, cs, "genetic disorder", 0);
    AbsentCharNoMatch(r, cs, "clinical trial", 1);
    AbsentCharNoMatch(r, cs, "research data", 2);
    SkipStep(r, 8);
    SkipLastFour(r);
  }

  /** The chain turns "phi" into its label. */
  lemma PhiChain(m: string, r: string)
    requires m == "phi" && r == "[REDACTED PHI]"
    ensures Redact(RedactionSteps, m) == r
  {
    PhiFacts(m);
    SkipNumbers(m);
    PhiHit(m, r);
    PhiLabelLetters(r);
    PhiLabelMiddle(r);
    PhiLabelTail(r);
  }

  /** The sanitized output of "phi" is flagged: its label holds "PHI" as a
      whole word. */
  lemma PhiOutputFlagged(o: string)
    requires o == "[REDACTED PHI]" + Notice
    ensures ContainsSensitiveHealthInfo(o)
  {
    assert MatchesAt(o, 10, Phrase("phi"));
    assert DetectionPatterns[3] == Phrase("phi");
  }

  /** "phi" becomes its label plus the notice, and a second pass changes the
      output again: sanitizing is not idempotent. */
  lemma PhiIsRedactedAndRedetected(m: string)
    requires m == "phi"
    ensures SanitizeForHipaa(m) == "[REDACTED PHI]" + Notice
    ensures ContainsSensitiveHealthInfo(SanitizeForHipaa(m))
    ensures SanitizeForHipaa(SanitizeForHipaa(m)) != SanitizeForHipaa(m)
  {
    PhiFacts(m);
    assert DetectionPatterns[3] == Phrase("phi");
    PhiChain(m, "[REDACTED PHI]");
    PhiOutputFlagged(SanitizeForHipaa(m));
    SanitizeTwiceIff(m);
  }

  // ---------------------------------------------------------------------
  // "medication medication": only the first occurrence is replaced

  lemma MedicationMatch(m: string)
    requires m == "medication medication"
    ensures MatchesAt(m, 0, Phrase("medication"))
  {
    PhraseAtStart("medication", " medication");
    assert "medication" + " medication" == m;
  }

  lemma MedicationNoNumbers(m: string)
    requires m == "medication medication"
    ensures !Occurs(m, Ssn) && !Occurs(m, NineDigits)
  {
    NoDigitNoNumber(m);
  }

  lemma MedicationLetters(m: string)
    requires m == "medication medication"
    ensures Avoids(m, {'p', 'P', 'l', 'L', 'r', 'R', 'u', 'U', 'h', 'H'})
  {
  }

  lemma MedicationHead(m: string)
    requires !Occurs(m, Ssn) && !Occurs(m, NineDigits)
    requires Avoids(m, {'p', 'P', 'l', 'L', 'r', 'R', 'u', 'U', 'h', 'H'})
    ensures Redact(RedactionSteps, m) == Redact(RedactionSteps[8..], m)
  {
    var cs := {'p', 'P', 'l', 'L', 'r', 'R', 'u', 'U', 'h', 'H'};
    AbsentCharNoMatch(m, cs, "phi", 0);
    AbsentCharNoMatch(m, cs, "phone number", 0);
    AbsentCharNoMatch(m, cs, "email address", 4);
    AbsentCharNoMatch(m, cs, "address", 3);
    AbsentCharNoMatch(m, cs, "insurance", 3);
    AbsentCharNoMatch(m, cs, "medical history", 8);
    SkipNumbers(m);
    SkipStep(m, 2);
    SkipPhoneEmail(m);
    SkipAddressToHistory(m);
  }

  lemma MedicationHit(s: string, r: string)
    requires s == "medication medication" && r == "[REDACTED MEDICATION] medication"
    ensures Redact(RedactionSteps[8..], s) == Redact(RedactionSteps[9..], r)
  {
    HitAtStart(RedactionSteps, 8, "medication", " medication", s, "[REDACTED MEDICATION]", r);
  }

  lemma MedicationResultLetters(r: string)
    requires r == "[REDACTED MEDICATION] medication"
    ensures Avoids(r, {'f', 'F', 'g', 'G', 'l', 'L', 's', 'S'})
  {
  }

  lemma MedicationTail(r: string)
    requires Avoids(r, {'f', 'F', 'g', 'G', 'l', 'L', 's', 'S'})
    ensures Redact(RedactionSteps[9..], r) == r
  {
    var cs := {'f', 'F', 'g', 'G', 'l', 'L', 's', 'S'};
    AbsentCharNoMatch(r, cs, "family history", 0);
    AbsentCharNoMatch(r, cs, "genetic disorder", 0);
    AbsentCharNoMatch(r, cs, "clinical trial", 1);
    AbsentCharNoMatch(r, cs, "research data", 2);
    SkipLastFour(r);
  }

  lemma MedicationChain(m: string, r: string)
    requires m == "medication medication" && r == "[REDACTED MEDICATION] medication"
    ensures Redact(RedactionSteps, m) == r
  {
    MedicationNoNumbers(m);
    MedicationLetters(m);
    MedicationHead(m);
    MedicationHit(m, r);
    MedicationResultLetters(r);
    MedicationTail(r);
  }

  /** "medication medication" has its first "medication" redacted and its
      second one kept. */
  lemma RepeatedTermRedactedOnce(m: string)
    requires m == "medication medication"
    ensures SanitizeForHipaa(m) == "[REDACTED MEDICATION] medication" + Notice
  {
    MedicationMatch(m);
    assert DetectionPatterns[10] == Phrase("medication");
    MedicationChain(m, "[REDACTED MEDICATION] medication");
  }

  // ---------------------------------------------------------------------
  // "email address": the email step runs before the address step

  lemma EmailFacts(m: string)
    requires m == "email address"
    ensures MatchesAt(m, 0, Phrase("email address"))
    ensures MatchesAt(m, 6, Phrase("address"))
    ensures !Occurs(m, Ssn) && !Occurs(m, NineDigits)
    ensures Avoids(m, {'p', 'P'})
  {
    NoDigitNoNumber(m);
  }

  lemma EmailHead(m: string)
    requires !Occurs(m, Ssn) && !Occurs(m, NineDigits) && Avoids(m, {'p', 'P'})
    ensures Redact(RedactionSteps, m) == Redact(RedactionSteps[4..], m)
  {
    AbsentCharNoMatch(m, {'p', 'P'}, "phi", 0);
    AbsentCharNoMatch(m, {'p', 'P'}, "phone number", 0);
    SkipNumbers(m);
    SkipStep(m, 2);
    SkipStep(m, 3);
  }

  lemma EmailHit(s: string, r: string)
    requires s == "email address" && r == "[REDACTED EMAIL]"
    ensures Redact(RedactionSteps[4..], s) == Redact(RedactionSteps[5..], r)
  {
    HitAtStart(RedactionSteps, 4, "email address", "", s, "[REDACTED EMAIL]", r);
  }

  lemma EmailLabelLetters(r: string)
    requires r == "[REDACTED EMAIL]"
    ensures Avoids(r, {'s', 'S', 'n', 'N', 'h', 'H', 'o', 'O', 'f', 'F', 'g', 'G'})
  {
  }

  lemma EmailLabelMiddle(r: string)
    requires Avoids(r, {'s', 'S', 'n', 'N', 'h', 'H', 'o', 'O', 'f', 'F', 'g', 'G'})
    ensures Redact(RedactionSteps[5..], r) == Redact(RedactionSteps[9..], r)
  {
    var cs := {'s', 'S', 'n', 'N', 'h', 'H', 'o', 'O', 'f', 'F', 'g', 'G'};
    AbsentCharNoMatch(r, cs, "address", 5);
    AbsentCharNoMatch(r, cs, "insurance", 1);
    AbsentCharNoMatch(r, cs, "medical history", 8);
    AbsentCharNoMatch(r, cs, "medication", 8);
    SkipAddressToHistory(r);
    SkipStep(r, 8);
  }

  lemma EmailLabelTail(r: string)
    requires Avoids(r, {'s', 'S', 'n', 'N', 'h', 'H', 'o', 'O', 'f', 'F', 'g', 'G'})
    ensures Redact(RedactionSteps[9..], r) == r
  {
    var cs := {'s', 'S', 'n', 'N', 'h', 'H', 'o', 'O', 'f', 'F', 'g', 'G'};
    AbsentCharNoMatch(r, cs, "family history", 0);
    AbsentCharNoMatch(r, cs, "genetic disorder", 0);
    AbsentCharNoMatch(r, cs, "clinical trial", 3);
    AbsentCharNoMatch(r, cs, "research data", 2);
    SkipLastFour(r);
  }

  lemma EmailChain(m: string, r: string)
    requires m == "email address" && r == "[REDACTED EMAIL]"
    ensures Redact(RedactionSteps, m) == r
  {
    EmailFacts(m);
    EmailHead(m);
    EmailHit(m, r);
    EmailLabelLetters(r);
    EmailLabelMiddle(r);
    EmailLabelTail(r);
  }

  /** "email address" becomes the email label, not "email [REDACTED
      ADDRESS]", although the address pattern matches it too. */
  lemma EmailBeforeAddress(m: string)
    requires m == "email address"
    ensures MatchesAt(m, 6, Phrase("address"))
    ensures SanitizeForHipaa(m) == "[REDACTED EMAIL]" + Notice
  {
    EmailFacts(m);
    assert DetectionPatterns[6] == Phrase("email address");
    EmailChain(m, "[REDACTED EMAIL]");
  }

  // ---------------------------------------------------------------------
  // An SSN

  lemma SsnMatch(m: string)
    requires m == "123-45-6789"
    ensures MatchesAt(m, 0, Ssn)
  {
  }

  /** A text that is one SSN is replaced by the SSN label in the first step. */
  lemma SsnWhole(s: string, r: string)
    requires |s| == Width(Ssn) && MatchesAt(s, 0, Ssn) && r == "[REDACTED SSN]"
    ensures Redact(RedactionSteps, s) == Redact(RedactionSteps[1..], r)
  {
    ReplaceFirstSpec(s, Ssn, r);
    assert s[..0] + r + s[|s|..] == r;
  }

  lemma SsnHit(s: string, r: string)
    requires s == "123-45-6789" && r == "[REDACTED SSN]"
    ensures Redact(RedactionSteps, s) == Redact(RedactionSteps[1..], r)
  {
    SsnMatch(s);
    SsnWhole(s, r);
  }

  lemma SsnLabelNoMrn(r: string)
    requires r == "[REDACTED SSN]"
    ensures !Occurs(r, NineDigits)
  {
    NoDigitNoNumber(r);
  }

  /** The address phrase, whose letters all occur in the SSN label in upper
      case, still does not match it. */
  lemma SsnLabelNoAddress()
    ensures !Occurs("[REDACTED SSN]", Phrase("address"))
  {
    assert FirstMatch("[REDACTED SSN]", Phrase("address")) == None;
  }

  lemma SsnLabelLetters(r: string)
    requires r == "[REDACTED SSN]"
    ensures Avoids(r, {'p', 'P', 'm', 'M', 'i', 'I', 'f', 'F', 'g', 'G', 'l', 'L', 'h', 'H'})
  {
  }

  lemma SsnLabelMiddle(r: string)
    requires !Occurs(r, NineDigits) && !Occurs(r, Phrase("address"))
    requires Avoids(r, {'p', 'P', 'm', 'M', 'i', 'I', 'f', 'F', 'g', 'G', 'l', 'L', 'h', 'H'})
    ensures Redact(RedactionSteps[1..], r) == Redact(RedactionSteps[8..], r)
  {
    var cs := {'p', 'P', 'm', 'M', 'i', 'I', 'f', 'F', 'g', 'G', 'l', 'L', 'h', 'H'};
    AbsentCharNoMatch(r, cs, "phi", 0);
    AbsentCharNoMatch(r, cs, "phone number", 0);
    AbsentCharNoMatch(r, cs, "email address", 1);
    AbsentCharNoMatch(r, cs, "insurance", 0);
    AbsentCharNoMatch(r, cs, "medical history", 0);
    SkipStep(r, 1);
    SkipStep(r, 2);
    SkipPhoneEmail(r);
    SkipAddressToHistory(r);
  }

  lemma SsnLabelTail(r: string)
    requires Avoids(r, {'p', 'P', 'm', 'M', 'i', 'I', 'f', 'F', 'g', 'G', 'l', 'L', 'h', 'H'})
    ensures Redact(RedactionSteps[8..], r) == r
  {
    var cs := {'p', 'P', 'm', 'M', 'i', 'I', 'f', 'F', 'g', 'G', 'l', 'L', 'h', 'H'};
    AbsentCharNoMatch(r, cs, "medication", 0);
    AbsentCharNoMatch(r, cs, "family history", 0);
    AbsentCharNoMatch(r, cs, "genetic disorder", 0);
    AbsentCharNoMatch(r, cs, "clinical trial", 1);
    AbsentCharNoMatch(r, cs, "research data", 7);
    SkipStep(r, 8);
    SkipLastFour(r);
  }

  lemma SsnChain(m: string, r: string)
    requires m == "123-45-6789" && r == "[REDACTED SSN]"
    ensures Redact(RedactionSteps, m) == r
  {
    SsnHit(m, r);
    SsnLabelNoMrn(r);
    SsnLabelNoAddress();
    SsnLabelLetters(r);
    SsnLabelMiddle(r);
    SsnLabelTail(r);
  }

  /** An SSN is flagged and replaced by its label. */
  lemma SsnRedacted(m: string)
    requires m == "123-45-6789"
    ensures ContainsSensitiveHealthInfo(m)
    ensures SanitizeForHipaa(m) == "[REDACTED SSN]" + Notice
  {
    SsnMatch(m);
    assert DetectionPatterns[0] == Ssn;
    SsnChain(m, "[REDACTED SSN]");
  }

  // ---------------------------------------------------------------------
  // Detected but not redacted

  /** No substitution pattern occurs in a digit-free text lacking these
      letters. */
  lemma PatientIdHead(m: string)
    requires !Occurs(m, Ssn) && !Occurs(m, NineDigits)
    requires Avoids(m, {'h', 'H', 'm', 'M', 'r', 'R', 'u', 'U', 'f', 'F', 'g', 'G', 'l', 'L'})
    ensures Redact(RedactionSteps, m) == Redact(RedactionSteps[8..], m)
  {
    var cs := {'h', 'H', 'm', 'M', 'r', 'R', 'u', 'U', 'f', 'F', 'g', 'G', 'l', 'L'};
    AbsentCharNoMatch(m, cs, "phi", 1);
    AbsentCharNoMatch(m, cs, "phone number", 1);
    AbsentCharNoMatch(m, cs, "email address", 1);
    AbsentCharNoMatch(m, cs, "address", 3);
    AbsentCharNoMatch(m, cs, "insurance", 3);
    AbsentCharNoMatch(m, cs, "medical history", 0);
    SkipNumbers(m);
    SkipStep(m, 2);
    SkipPhoneEmail(m);
    SkipAddressToHistory(m);
  }

  lemma PatientIdTail(m: string)
    requires Avoids(m, {'h', 'H', 'm', 'M', 'r', 'R', 'u', 'U', 'f', 'F', 'g', 'G', 'l', 'L'})
    ensures Redact(RedactionSteps[8..], m) == m
  {
    var cs := {'h', 'H', 'm', 'M', 'r', 'R', 'u', 'U', 'f', 'F', 'g', 'G', 'l', 'L'};
    AbsentCharNoMatch(m, cs, "medication", 0);
    AbsentCharNoMatch(m, cs, "family history", 0);
    AbsentCharNoMatch(m, cs, "genetic disorder", 0);
    AbsentCharNoMatch(m, cs, "clinical trial", 1);
    AbsentCharNoMatch(m, cs, "research data", 0);
    SkipStep(m, 8);
    SkipLastFour(m);
  }

  lemma PatientIdFacts(m: string)
    requires m == "patient id"
    ensures MatchesAt(m, 0, Phrase("patient id"))
    ensures !Occurs(m, Ssn) && !Occurs(m, NineDigits)
  {
    NoDigitNoNumber(m);
  }

  lemma PatientIdLetters(m: string)
    requires m == "patient id"
    ensures Avoids(m, {'h', 'H', 'm', 'M', 'r', 'R', 'u', 'U', 'f', 'F', 'g', 'G', 'l', 'L'})
  {
  }

  /** "patient id" is flagged but has no substitution step: it comes back
      as it is, followed by the notice. */
  lemma PatientIdOnlyNoticed(m: string)
    requires m == "patient id"
    ensures ContainsSensitiveHealthInfo(m)
    ensures SanitizeForHipaa(m) == m + Notice
  {
    PatientIdFacts(m);
    PatientIdLetters(m);
    assert DetectionPatterns[2] == Phrase("patient id");
    PatientIdHead(m);
    PatientIdTail(m);
  }

  lemma BirthDateHead(m: string)
    requires !Occurs(m, Ssn) && !Occurs(m, NineDigits)
    requires Avoids(m, {'p', 'P', 'm', 'M', 's', 'S', 'n', 'N', 'g', 'G', 'c', 'C'})
    ensures Redact(RedactionSteps, m) == Redact(RedactionSteps[8..], m)
  {
    var cs := {'p', 'P', 'm', 'M', 's', 'S', 'n', 'N', 'g', 'G', 'c', 'C'};
    AbsentCharNoMatch(m, cs, "phi", 0);
    AbsentCharNoMatch(m, cs, "phone number", 0);
    AbsentCharNoMatch(m, cs, "email address", 1);
    AbsentCharNoMatch(m, cs, "address", 5);
    AbsentCharNoMatch(m, cs, "insurance", 1);
    AbsentCharNoMatch(m, cs, "medical history", 0);
    SkipNumbers(m);
    SkipStep(m, 2);
    SkipPhoneEmail(m);
    SkipAddressToHistory(m);
  }

  lemma BirthDateTail(m: string)
    requires Avoids(m, {'p', 'P', 'm', 'M', 's', 'S', 'n', 'N', 'g', 'G', 'c', 'C'})
    ensures Redact(RedactionSteps[8..], m) == m
  {
    var cs := {'p', 'P', 'm', 'M', 's', 'S', 'n', 'N', 'g', 'G', 'c', 'C'};
    AbsentCharNoMatch(m, cs, "medication", 0);
    AbsentCharNoMatch(m, cs, "family history", 2);
    AbsentCharNoMatch(m, cs, "genetic disorder", 0);
    AbsentCharNoMatch(m, cs, "clinical trial", 0);
    AbsentCharNoMatch(m, cs, "research data", 2);
    SkipStep(m, 8);
    SkipLastFour(m);
  }

  lemma BirthDateFacts(m: string)
    requires m == "date of birth"
    ensures MatchesAt(m, 0, Phrase("date of birth"))
    ensures !Occurs(m, Ssn) && !Occurs(m, NineDigits)
  {
    NoDigitNoNumber(m);
  }

  lemma BirthDateLetters(m: string)
    requires m == "date of birth"
    ensures Avoids(m, {'p', 'P', 'm', 'M', 's', 'S', 'n', 'N', 'g', 'G', 'c', 'C'})
  {
  }

  /** "date of birth" is flagged but has no substitution step either. */
  lemma BirthDateOnlyNoticed(m: string)
    requires m == "date of birth"
    ensures ContainsSensitiveHealthInfo(m)
    ensures SanitizeForHipaa(m) == m + Notice
  {
    BirthDateFacts(m);
    BirthDateLetters(m);
    assert DetectionPatterns[4] == Phrase("date of birth");
    BirthDateHead(m);
    BirthDateTail(m);
  }

  // ---------------------------------------------------------------------
  // A message with nothing to redact

  /** A message that detection does not flag is returned as it is, without
      the notice. */
  lemma CleanQuestionUnchanged(m: string)
    requires m == "What does this gene do?"
    ensures SanitizeForHipaa(m) == m
  {
    CleanQuestionNotFlagged(m);
  }
}
