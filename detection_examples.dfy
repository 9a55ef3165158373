/** Worked examples of `containsSensitiveHealthInfo` on concrete messages:
    word boundaries on both sides of every pattern, case-insensitive
    phrases, and digit runs that are too long. */
module DetectionExamples {
  import opened Text
  import opened Detection

  /** A message in which no pattern of the table occurs is not flagged. */
  lemma NoPatternNotFlagged(m: string)
    requires !Occurs(m, Ssn) && !Occurs(m, NineDigits)
    requires !Occurs(m, Phrase("patient id")) && !Occurs(m, Phrase("phi"))
    requires !Occurs(m, Phrase("date of birth")) && !Occurs(m, Phrase("phone number"))
    requires !Occurs(m, Phrase("email address")) && !Occurs(m, Phrase("address"))
    requires !Occurs(m, Phrase("insurance")) && !Occurs(m, Phrase("medical history"))
    requires !Occurs(m, Phrase("medication")) && !Occurs(m, Phrase("family history"))
    requires !Occurs(m, Phrase("genetic disorder")) && !Occurs(m, Phrase("clinical trial"))
    requires !Occurs(m, Phrase("research data"))
    ensures !ContainsSensitiveHealthInfo(m)
  {
    forall k | 0 <= k < |DetectionPatterns| ensures !Occurs(m, DetectionPatterns[k]) {
      if k < 8 {
        if k < 4 {
          assert k == 0 || k == 1 || k == 2 || k == 3;
        } else {
          assert k == 4 || k == 5 || k == 6 || k == 7;
        }
      } else {
        if k < 12 {
          assert k == 8 || k == 9 || k == 10 || k == 11;
        } else {
          assert k == 12 || k == 13 || k == 14;
        }
      }
    }
  }

  /** The letters and digits "What does this gene do?" lacks. */
  lemma CleanQuestionFacts(m: string)
    requires m == "What does this gene do?"
    ensures Avoids(m, {'p', 'P', 'b', 'B', 'm', 'M', 'r', 'R', 'u', 'U', 'f', 'F', 'c', 'C'})
    ensures forall k :: 0 <= k < |m| ==> !IsDigit(m[k])
  {
  }

  /** An ordinary question is not flagged. */
  lemma CleanQuestionNotFlagged(m: string)
    requires m == "What does this gene do?"
    ensures !ContainsSensitiveHealthInfo(m)
  {
    CleanQuestionFacts(m);
    var cs := {'p', 'P', 'b', 'B', 'm', 'M', 'r', 'R', 'u', 'U', 'f', 'F', 'c', 'C'};
    NoDigitNoNumber(m);
    AbsentCharNoMatch(m, cs, "patient id", 0);
    AbsentCharNoMatch(m, cs, "phi", 0);
    AbsentCharNoMatch(m, cs, "date of birth", 8);
    AbsentCharNoMatch(m, cs, "phone number", 0);
    AbsentCharNoMatch(m, cs, "email address", 1);
    AbsentCharNoMatch(m, cs, "address", 3);
    AbsentCharNoMatch(m, cs, "insurance", 3);
    AbsentCharNoMatch(m, cs, "medical history", 0);
    AbsentCharNoMatch(m, cs, "medication", 0);
    AbsentCharNoMatch(m, cs, "family history", 0);
    AbsentCharNoMatch(m, cs, "genetic disorder", 6);
    AbsentCharNoMatch(m, cs, "clinical trial", 0);
    AbsentCharNoMatch(m, cs, "research data", 0);
    NoPatternNotFlagged(m);
  }

  /** Upper case matches: "Home ADDRESS" holds the address pattern and is
      flagged. */
  lemma UpperCaseFlagged(m: string)
    requires m == "Home ADDRESS"
    ensures MatchesAt(m, 5, Phrase("address"))
    ensures ContainsSensitiveHealthInfo(m)
  {
    assert MatchesAt(m, 5, Phrase("address"));
    assert DetectionPatterns[7] == Phrase("address");
  }

  /** The trailing `\b` rejects a longer word: "addresses" contains the text
      "address" but not the pattern. */
  lemma PluralNotAddress(m: string)
    requires m == "addresses"
    ensures OccursAt(m, "address", 0)
    ensures !Occurs(m, Phrase("address"))
  {
    forall i: nat ensures !MatchesAt(m, i, Phrase("address")) {
      if i == 0 {
        assert IsWordAt(m, 7);
      } else if i <= 2 {
        assert IsWordAt(m, i - 1);
      }
    }
    assert m[0..7] == "address";
  }

  lemma AddressesFacts(m: string)
    requires m == "addresses"
    ensures Avoids(m, {'p', 'P', 't', 'T', 'm', 'M', 'i', 'I', 'f', 'F', 'g', 'G', 'c', 'C'})
    ensures forall k :: 0 <= k < |m| ==> !IsDigit(m[k])
  {
  }

  /** "addresses" on its own is not flagged: the address pattern does not
      match the longer word, and every other pattern lacks a letter of it. */
  lemma AddressesNotFlagged(m: string)
    requires m == "addresses"
    ensures !ContainsSensitiveHealthInfo(m)
  {
    AddressesFacts(m);
    PluralNotAddress(m);
    var cs := {'p', 'P', 't', 'T', 'm', 'M', 'i', 'I', 'f', 'F', 'g', 'G', 'c', 'C'};
    NoDigitNoNumber(m);
    AbsentCharNoMatch(m, cs, "patient id", 0);
    AbsentCharNoMatch(m, cs, "phi", 0);
    AbsentCharNoMatch(m, cs, "date of birth", 2);
    AbsentCharNoMatch(m, cs, "phone number", 0);
    AbsentCharNoMatch(m, cs, "email address", 1);
    AbsentCharNoMatch(m, cs, "insurance", 0);
    AbsentCharNoMatch(m, cs, "medical history", 0);
    AbsentCharNoMatch(m, cs, "medication", 0);
    AbsentCharNoMatch(m, cs, "family history", 0);
    AbsentCharNoMatch(m, cs, "genetic disorder", 0);
    AbsentCharNoMatch(m, cs, "clinical trial", 0);
    AbsentCharNoMatch(m, cs, "research data", 6);
    NoPatternNotFlagged(m);
  }

  /** The trailing `\b` rejects "medications" as well. */
  lemma PluralNotMedication(m: string)
    requires m == "medications"
    ensures OccursAt(m, "medication", 0)
    ensures !Occurs(m, Phrase("medication"))
  {
    forall i: nat ensures !MatchesAt(m, i, Phrase("medication")) {
      if i == 0 {
        assert IsWordAt(m, 10);
      } else if i == 1 {
        assert IsWordAt(m, 0);
      }
    }
    assert m[0..10] == "medication";
  }

  lemma MedicationsFacts(m: string)
    requires m == "medications"
    ensures Avoids(m, {'p', 'P', 'b', 'B', 'l', 'L', 'r', 'R', 'u', 'U', 'f', 'F', 'g', 'G'})
    ensures forall k :: 0 <= k < |m| ==> !IsDigit(m[k])
  {
  }

  /** "medications" on its own is not flagged. */
  lemma MedicationsNotFlagged(m: string)
    requires m == "medications"
    ensures !ContainsSensitiveHealthInfo(m)
  {
    MedicationsFacts(m);
    PluralNotMedication(m);
    var cs := {'p', 'P', 'b', 'B', 'l', 'L', 'r', 'R', 'u', 'U', 'f', 'F', 'g', 'G'};
    NoDigitNoNumber(m);
    AbsentCharNoMatch(m, cs, "patient id", 0);
    AbsentCharNoMatch(m, cs, "phi", 0);
    AbsentCharNoMatch(m, cs, "date of birth", 8);
    AbsentCharNoMatch(m, cs, "phone number", 0);
    AbsentCharNoMatch(m, cs, "email address", 4);
    AbsentCharNoMatch(m, cs, "address", 3);
    AbsentCharNoMatch(m, cs, "insurance", 3);
    AbsentCharNoMatch(m, cs, "medical history", 6);
    AbsentCharNoMatch(m, cs, "family history", 0);
    AbsentCharNoMatch(m, cs, "genetic disorder", 0);
    AbsentCharNoMatch(m, cs, "clinical trial", 1);
    AbsentCharNoMatch(m, cs, "research data", 0);
    NoPatternNotFlagged(m);
  }

  /** Ten digits in a row are not a medical record number: `\b\d{9}\b`
      needs the run to end after nine digits. */
  lemma TenDigitsNotRecordNumber(m: string)
    requires m == "1234567890"
    ensures !Occurs(m, NineDigits)
  {
    assert forall k :: 0 <= k < |m| ==> IsDigit(m[k]);
    DigitRunIsMrnIffNine(m);
  }
}
