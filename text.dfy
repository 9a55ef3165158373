/** Character classes and string helpers shared by the chat utilities.

    Strings are sequences of Unicode scalar values. Every pattern and keyword
    the chat utilities look for is ASCII, so only ASCII letters take part in
    case conversion here. */
module Text {

  datatype Option<T> = None | Some(value: T)

  /** A character of the `\w` class of a JavaScript regular expression
      without the `u` flag: `[A-Za-z0-9_]`. */
  predicate IsWordChar(c: char) {
    'a' <= c <= 'z' || 'A' <= c <= 'Z' || '0' <= c <= '9' || c == '_'
  }

  /** A character of the `\d` class: `[0-9]`. */
  predicate IsDigit(c: char) {
    '0' <= c <= '9'
  }

  /** ASCII upper-casing. This is the `Canonicalize` step of a case-insensitive
      JavaScript regular expression without the `u` flag, as far as it concerns
      ASCII patterns: a non-ASCII character is never mapped onto an ASCII one. */
  function Canonicalize(c: char): (r: char)
    ensures 'a' <= c <= 'z' ==> 'A' <= r <= 'Z' && r as int == c as int - 32
    ensures !('a' <= c <= 'z') ==> r == c
    ensures IsWordChar(r) == IsWordChar(c)
  {
    if 'a' <= c <= 'z' then (c as int - 32) as char else c
  }

  /** ASCII lower-casing of one character. */
  function LowerChar(c: char): (r: char)
    ensures 'A' <= c <= 'Z' ==> 'a' <= r <= 'z' && r as int == c as int + 32
    ensures !('A' <= c <= 'Z') ==> r == c
  {
    if 'A' <= c <= 'Z' then (c as int + 32) as char else c
  }

  /** `String.prototype.toLowerCase`, restricted to ASCII letters. */
  function ToLowerCase(s: string): (r: string)
    ensures |r| == |s|
    ensures forall i :: 0 <= i < |s| ==> r[i] == LowerChar(s[i])
  {
    if s == [] then [] else [LowerChar(s[0])] + ToLowerCase(s[1..])
  }

  /** `t` appears in `s` starting at index `i`. */
  predicate OccursAt(s: string, t: string, i: int) {
    0 <= i && i + |t| <= |s| && s[i..i + |t|] == t
  }

  function IncludesFrom(s: string, t: string, k: nat): (r: bool)
    ensures r <==> exists i :: k <= i && OccursAt(s, t, i)
    decreases |s| - k
  {
    if k + |t| > |s| then
      false
    else
      OccursAt(s, t, k) || IncludesFrom(s, t, k + 1)
  }

  /** `String.prototype.includes`: `t` is a contiguous substring of `s`
      (the empty string is included in every string). */
  function Includes(s: string, t: string): (r: bool)
    ensures r <==> exists i :: OccursAt(s, t, i)
  {
    IncludesFrom(s, t, 0)
  }

  /** Substring inclusion is transitive. */
  lemma IncludesTransitive(s: string, u: string, t: string)
    requires Includes(s, u) && Includes(u, t)
    ensures Includes(s, t)
  {
    var i :| OccursAt(s, u, i);
    var j :| OccursAt(u, t, j);
    forall m | 0 <= m < |t| ensures s[i + j + m] == t[m] {
      assert u[j + m] == t[m];
      assert s[i + (j + m)] == u[j + m];
    }
    assert s[i + j..i + j + |t|] == t;
    assert OccursAt(s, t, i + j);
  }

  /** A string that lacks one of the characters of `t` does not include `t`. */
  lemma AbsentCharNotIncluded(s: string, t: string, j: nat)
    requires j < |t| && t[j] !in s
    ensures !Includes(s, t)
  {
    forall i | 0 <= i ensures !OccursAt(s, t, i) {
      if i + |t| <= |s| {
        assert s[i..i + |t|][j] == s[i + j];
      }
    }
  }

  /** Lower-casing yields a lower-case letter only from that letter or its
      upper-case form. */
  lemma LowerCaseAbsent(s: string, c: char)
    requires 'a' <= c <= 'z' && c !in s && Canonicalize(c) !in s
    ensures c !in ToLowerCase(s)
  {
    var l := ToLowerCase(s);
    forall k | 0 <= k < |l| ensures l[k] != c {
      assert s[k] != c && s[k] != Canonicalize(c);
    }
  }
}
