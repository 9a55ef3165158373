/** Redaction: `sanitizeForHIPAA` of utils/chat.ts.

    When detection fires on the original message, thirteen `String.replace`
    calls run in a fixed order, each with a non-global regular expression and a
    fixed label, so each replaces only the leftmost match of its pattern in the
    string the previous call returned. The labels contain no `$`, so they are
    inserted literally. A fixed notice is then appended. */
module Sanitize {
  import opened Text
  import opened Detection

  datatype Substitution = Substitution(pattern: Pattern, token: string)

  /** The substitution chain of utils/chat.ts, in source order. */
  const RedactionSteps: seq<Substitution> := [
    Substitution(Ssn, "[REDACTED SSN]"),
    Substitution(NineDigits, "[REDACTED MRN]"),
    Substitution(Phrase("phi"), "[REDACTED PHI]"),
    Substitution(Phrase("phone number"), "[REDACTED PHONE]"),
    Substitution(Phrase("email address"), "[REDACTED EMAIL]"),
    Substitution(Phrase("address"), "[REDACTED ADDRESS]"),
    Substitution(Phrase("insurance"), "[REDACTED INSURANCE]"),
    Substitution(Phrase("medical history"), "[REDACTED MEDICAL HISTORY]"),
    Substitution(Phrase("medication"), "[REDACTED MEDICATION]"),
    Substitution(Phrase("family history"), "[REDACTED FAMILY HISTORY]"),
    Substitution(Phrase("genetic disorder"), "[REDACTED GENETIC DISORDER]"),
    Substitution(Phrase("clinical trial"), "[REDACTED CLINICAL TRIAL]"),
    Substitution(Phrase("research data"), "[REDACTED RESEARCH DATA]")
  ]

  const Notice := " [This message was redacted for HIPAA compliance.]"

  /** `s.replace(pattern, token)` for a non-global pattern: the leftmost match,
      if any, is replaced by the token and everything else is kept. */
  function ReplaceFirst(s: string, p: Pattern, token: string): string {
    match FirstMatch(s, p)
    case None => s
    case Some(i) => s[..i] + token + s[i + Width(p)..]
  }

  /** What `replace` does: with no match the string is returned as it is;
      otherwise the leftmost match, and only it, becomes the token, with the
      text before and after it kept. */
  lemma ReplaceFirstSpec(s: string, p: Pattern, token: string)
    ensures !Occurs(s, p) ==> ReplaceFirst(s, p, token) == s
    ensures forall i: nat :: Leftmost(s, i, p) ==> ReplaceFirst(s, p, token) == s[..i] + token + s[i + Width(p)..]
  {
  }

  /** The substitution chain as a left fold: the first step acts on the
      message, every later step on the previous step's output. */
  function Redact(steps: seq<Substitution>, s: string): string {
    if steps == [] then s
    else Redact(steps[1..], ReplaceFirst(s, steps[0].pattern, steps[0].token))
  }

  /** `sanitizeForHIPAA`. */
  function SanitizeForHipaa(message: string): string {
    if ContainsSensitiveHealthInfo(message) then
      Redact(RedactionSteps, message) + Notice
    else
      message
  }

  // ---------------------------------------------------------------------
  // The substitution steps

  /** The text after the leftmost match keeps every later match: only the
      first occurrence is replaced. */
  lemma ReplaceFirstKeepsLaterMatches(s: string, p: Pattern, token: string, i: nat, j: nat)
    requires WordAnchored(p)
    requires FirstMatch(s, p) == Some(i) && MatchesAt(s, j, p) && j >= i + Width(p)
    ensures j > i + Width(p)
    ensures MatchesAt(ReplaceFirst(s, p, token), j - Width(p) + |token|, p)
  {
    ReplaceFirstAt(s, p, token, i);
    SpliceKeepsLaterMatches(s, p, token, i, j, ReplaceFirst(s, p, token));
  }

  lemma SpliceKeepsLaterMatches(s: string, p: Pattern, token: string, i: nat, j: nat, r: string)
    requires WordAnchored(p)
    requires MatchesAt(s, i, p) && MatchesAt(s, j, p) && j >= i + Width(p)
    requires r == s[..i] + token + s[i + Width(p)..]
    ensures j > i + Width(p)
    ensures MatchesAt(r, j - Width(p) + |token|, p)
  {
    MatchesApart(s, p, i, j);
    ShiftedMatch(s, p, token, i, j, r);
  }

  /** Two matches of a word-anchored pattern cannot touch: a match ends and
      the next one starts with a word character, so no `\b` lies between. */
  lemma MatchesApart(s: string, p: Pattern, i: nat, j: nat)
    requires WordAnchored(p)
    requires MatchesAt(s, i, p) && MatchesAt(s, j, p) && j >= i + Width(p)
    ensures j > i + Width(p)
  {
    MatchEndsAreWordChars(s, i, p);
    MatchEndsAreWordChars(s, j, p);
    assert IsWordAt(s, i + Width(p) - 1) && IsWordAt(s, j);
  }

  /** A match lying wholly after the replaced span, with a character between
      them, is still a match once shifted by the change in length. */
  lemma ShiftedMatch(s: string, p: Pattern, token: string, i: nat, j: nat, r: string)
    requires i + Width(p) < j && MatchesAt(s, j, p)
    requires r == s[..i] + token + s[i + Width(p)..]
    ensures MatchesAt(r, j - Width(p) + |token|, p)
  {
    SpliceWindow(s, i, Width(p), token, j, r);
    MatchLocal(s, j, r, j - Width(p) + |token|, p);
  }

  /** A window of `w` characters at `j`, past the replaced span, reappears
      shifted in the output, and so do the characters on either side of it. */
  lemma SpliceWindow(s: string, i: nat, w: nat, token: string, j: nat, r: string)
    requires i + w < j && j + w <= |s|
    requires r == s[..i] + token + s[i + w..]
    ensures var j' := j - w + |token|;
      && j' + w <= |r| && r[j'..j' + w] == s[j..j + w]
      && IsWordAt(r, j' - 1) == IsWordAt(s, j - 1)
      && IsWordAt(r, j' + w) == IsWordAt(s, j + w)
  {
    SpliceTail(s, i, w, token, j, j + w);
    SpliceTail(s, i, w, token, j - 1, j - 1);
  }

  lemma ReplaceFirstAt(s: string, p: Pattern, token: string, i: nat)
    requires FirstMatch(s, p) == Some(i)
    ensures ReplaceFirst(s, p, token) == s[..i] + token + s[i + Width(p)..]
  {
  }

  /** Past the replaced span the output repeats the input, shifted by the
      difference in length. */
  lemma SpliceTail(s: string, i: nat, w: nat, token: string, lo: nat, hi: nat)
    requires i + w <= lo <= hi <= |s|
    ensures var r := s[..i] + token + s[i + w..];
      && |r| == |s| - w + |token|
      && r[lo - w + |token|..hi - w + |token|] == s[lo..hi]
      && (lo < |s| ==> r[lo - w + |token|] == s[lo])
      && (hi < |s| ==> r[hi - w + |token|] == s[hi])
  {
  }

  /** A step whose pattern does not occur leaves the string as it is. */
  lemma {:induction false} RedactWithoutOccurrence(steps: seq<Substitution>, s: string)
    requires forall k :: 0 <= k < |steps| ==> !Occurs(s, steps[k].pattern)
    ensures Redact(steps, s) == s
  {
    if steps != [] {
      ReplaceFirstSpec(s, steps[0].pattern, steps[0].token);
      assert forall k :: 0 <= k < |steps[1..]| ==> !Occurs(s, steps[1..][k].pattern) by {
        forall k | 0 <= k < |steps[1..]| ensures !Occurs(s, steps[1..][k].pattern) {
          assert steps[1..][k] == steps[k + 1];
        }
      }
      RedactWithoutOccurrence(steps[1..], s);
    }
  }

  /** Every token is longer than any text its pattern matches. */
  ghost predicate TokensLengthen(steps: seq<Substitution>) {
    forall k :: 0 <= k < |steps| ==> |steps[k].token| > Width(steps[k].pattern)
  }

  /** With lengthening tokens the chain never shortens the text, and it
      leaves the text unchanged only when no step found a match. */
  lemma {:induction false} RedactLengthens(steps: seq<Substitution>, s: string)
    requires TokensLengthen(steps)
    ensures |Redact(steps, s)| >= |s|
    ensures Redact(steps, s) == s ==> forall k :: 0 <= k < |steps| ==> ReplaceFirst(s, steps[k].pattern, steps[k].token) == s
  {
    if steps != [] {
      var st := steps[0];
      var s' := ReplaceFirst(s, st.pattern, st.token);
      ReplaceFirstSpec(s, st.pattern, st.token);
      if i :| Leftmost(s, i, st.pattern) {
        assert |s'| == |s| - Width(st.pattern) + |st.token| > |s|;
      }
      assert TokensLengthen(steps[1..]) by {
        forall k | 0 <= k < |steps[1..]| ensures |steps[1..][k].token| > Width(steps[1..][k].pattern) {
          assert steps[1..][k] == steps[k + 1];
        }
      }
      RedactLengthens(steps[1..], s');
      if Redact(steps, s) == s {
        assert s' == s;
        forall k | 0 <= k < |steps| ensures ReplaceFirst(s, steps[k].pattern, steps[k].token) == s {
          if k > 0 {
            assert steps[1..][k - 1] == steps[k];
          }
        }
      }
    }
  }

  lemma RedactionStepsLengthen()
    ensures TokensLengthen(RedactionSteps)
  {
  }

  /** Every pattern of the substitution chain is one of the detection
      patterns; "patient id" and "date of birth" are detected but have no
      substitution step. */
  lemma RedactionPatternsAreDetected()
    ensures forall k :: 0 <= k < |RedactionSteps| ==> RedactionSteps[k].pattern in DetectionPatterns
    ensures Phrase("patient id") in DetectionPatterns && Phrase("date of birth") in DetectionPatterns
    ensures forall k :: 0 <= k < |RedactionSteps| ==>
      RedactionSteps[k].pattern != Phrase("patient id") && RedactionSteps[k].pattern != Phrase("date of birth")
  {
    assert DetectionPatterns[2] == Phrase("patient id");
    assert DetectionPatterns[4] == Phrase("date of birth");
  }

  // ---------------------------------------------------------------------
  // sanitizeForHIPAA

  /** Redaction and detection agree: on a message detection does not flag,
      the substitution chain would change nothing anyway. */
  lemma RedactUndetectedIsIdentity(message: string)
    requires !ContainsSensitiveHealthInfo(message)
    ensures Redact(RedactionSteps, message) == message
  {
    RedactionPatternsAreDetected();
    forall k | 0 <= k < |RedactionSteps| ensures !Occurs(message, RedactionSteps[k].pattern) {
      var j :| 0 <= j < |DetectionPatterns| && DetectionPatterns[j] == RedactionSteps[k].pattern;
    }
    RedactWithoutOccurrence(RedactionSteps, message);
  }

  /** The shape of the result: a message detection does not flag comes back
      unchanged; a flagged one comes back longer, ending in exactly the notice,
      with the substituted text in front of it. */
  lemma SanitizeShape(message: string)
    ensures !ContainsSensitiveHealthInfo(message) ==> SanitizeForHipaa(message) == message
    ensures ContainsSensitiveHealthInfo(message) ==>
      var r := SanitizeForHipaa(message);
      && |r| >= |message| + |Notice|
      && r[|r| - |Notice|..] == Notice
      && r[..|r| - |Notice|] == Redact(RedactionSteps, message)
  {
    if ContainsSensitiveHealthInfo(message) {
      RedactionStepsLengthen();
      RedactLengthens(RedactionSteps, message);
      var body := Redact(RedactionSteps, message);
      assert (body + Notice)[|body|..] == Notice;
      assert (body + Notice)[..|body|] == body;
    }
  }

  /** The message comes back unchanged exactly when detection does not fire. */
  lemma SanitizeUnchangedIffUndetected(message: string)
    ensures SanitizeForHipaa(message) == message <==> !ContainsSensitiveHealthInfo(message)
  {
    SanitizeShape(message);
  }

  /** A second pass changes a sanitized message again exactly when the first
      pass left (or inserted) something detection flags: sanitizing is not
      idempotent in general. */
  lemma SanitizeTwiceIff(message: string)
    ensures SanitizeForHipaa(SanitizeForHipaa(message)) == SanitizeForHipaa(message)
      <==> !ContainsSensitiveHealthInfo(SanitizeForHipaa(message))
  {
    SanitizeUnchangedIffUndetected(SanitizeForHipaa(message));
  }

  /** Detection without redaction: a flagged message in which no substitution
      pattern occurs (its only sensitive text is "patient id" or "date of
      birth") comes back as itself followed by the notice. */
  lemma DetectedButNotRedacted(message: string)
    requires ContainsSensitiveHealthInfo(message)
    requires forall k :: 0 <= k < |RedactionSteps| ==> !Occurs(message, RedactionSteps[k].pattern)
    ensures SanitizeForHipaa(message) == message + Notice
  {
    RedactWithoutOccurrence(RedactionSteps, message);
  }

  lemma RedactStep(steps: seq<Substitution>, k: nat, t: string)
    requires k < |steps|
    ensures Redact(steps[k..], t) == Redact(steps[k + 1..], ReplaceFirst(t, steps[k].pattern, steps[k].token))
  {
    assert steps[k..][1..] == steps[k + 1..];
  }
}
