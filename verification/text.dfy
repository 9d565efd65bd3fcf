/**
  Character classes of the extraction patterns and the lower-casing applied
  to every raw `hostname.bind` string before it is matched.
 */
module Text {

  /** `[a-z]` */
  predicate IsLower(c: char) {
    'a' <= c <= 'z'
  }

  /** `\d` (ASCII digits only, as in a JavaScript regular expression without the `u` flag) */
  predicate IsDigit(c: char) {
    '0' <= c <= '9'
  }

  predicate IsUpper(c: char) {
    'A' <= c <= 'Z'
  }

  /** The characters a JavaScript `.` refuses to match. */
  predicate IsLineTerminator(c: char) {
    c == '\n' || c == '\r' || c == '\U{2028}' || c == '\U{2029}'
  }

  predicate AllLower(s: string) {
    forall i :: 0 <= i < |s| ==> IsLower(s[i])
  }

  predicate AllDigits(s: string) {
    forall i :: 0 <= i < |s| ==> IsDigit(s[i])
  }

  /** `.*` can consume `s` */
  predicate NoLineTerminator(s: string) {
    forall i :: 0 <= i < |s| ==> !IsLineTerminator(s[i])
  }

  /** Exactly `n` characters of `[a-z]`. */
  predicate LowerWord(s: string, n: nat) {
    |s| == n && AllLower(s)
  }

  predicate StartsWith(s: string, prefix: string) {
    |prefix| <= |s| && s[..|prefix|] == prefix
  }

  predicate EndsWith(s: string, suffix: string) {
    |suffix| <= |s| && s[|s| - |suffix|..] == suffix
  }

  function LowerChar(c: char): (r: char)
    ensures !IsUpper(r)
    ensures IsUpper(c) ==> r as int == c as int + 32
    ensures !IsUpper(c) ==> r == c
  {
    if IsUpper(c) then (c as int + 32) as char else c
  }

  /** The ASCII part of `String.prototype.toLowerCase`. */
  function ToLower(s: string): (r: string)
    ensures |r| == |s|
    ensures forall i :: 0 <= i < |s| ==> r[i] == LowerChar(s[i])
  {
    seq(|s|, i requires 0 <= i < |s| => LowerChar(s[i]))
  }

  /** `x` and `y` are the same character, or one is the upper-case form of the other. */
  predicate CaseVariant(x: char, y: char) {
    || x == y
    || (IsUpper(x) && y as int == x as int + 32)
    || (IsUpper(y) && x as int == y as int + 32)
  }

  /** Two strings that differ at most in the case of their ASCII letters. */
  predicate SameIgnoringCase(a: string, b: string) {
    |a| == |b| && forall i :: 0 <= i < |a| ==> CaseVariant(a[i], b[i])
  }

  /** Lower-casing identifies exactly the strings that differ only in case. */
  lemma ToLowerIdentifiesCase(a: string, b: string)
    ensures ToLower(a) == ToLower(b) <==> SameIgnoringCase(a, b)
  {
    if ToLower(a) == ToLower(b) {
      forall i | 0 <= i < |a|
        ensures CaseVariant(a[i], b[i])
      {
        assert ToLower(a)[i] == ToLower(b)[i];
      }
    }
    if SameIgnoringCase(a, b) {
      assert forall i :: 0 <= i < |a| ==> ToLower(a)[i] == ToLower(b)[i];
    }
  }

  /** Lower-casing is idempotent and leaves no upper-case letter behind. */
  lemma ToLowerIdempotent(s: string)
    ensures ToLower(ToLower(s)) == ToLower(s)
    ensures forall i :: 0 <= i < |s| ==> !IsUpper(ToLower(s)[i])
  {
  }
}
