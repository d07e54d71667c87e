/**
 * JavaScript whitespace and `String.prototype.trim`.
 *
 * The regular-expression class `\s` and `trim` both use the same set of
 * code points: the ECMAScript WhiteSpace and LineTerminator productions.
 * The form validator depends on both, so the set is defined once here.
 */
module Text {

  /** ECMAScript WhiteSpace (TAB, VT, FF, ZWNBSP and the Zs category) and LineTerminator (LF, CR, LS, PS). */
  predicate IsSpace(c: char) {
    || c == '\t' || c == '\n' || c == '\U{000B}' || c == '\U{000C}' || c == '\r'
    || c == ' ' || c == '\U{00A0}' || c == '\U{1680}'
    || ('\U{2000}' <= c <= '\U{200A}')
    || c == '\U{2028}' || c == '\U{2029}' || c == '\U{202F}' || c == '\U{205F}'
    || c == '\U{3000}' || c == '\U{FEFF}'
  }

  predicate AllSpace(s: string) {
    forall i :: 0 <= i < |s| ==> IsSpace(s[i])
  }

  predicate NoSpace(s: string) {
    forall i :: 0 <= i < |s| ==> !IsSpace(s[i])
  }

  /** `r` is `s` without its leading and trailing whitespace: a slice of `s`
      cut only through whitespace, that neither starts nor ends with whitespace. */
  ghost predicate IsTrimOf(s: string, r: string) {
    exists i, j ::
      && 0 <= i <= j <= |s|
      && r == s[i..j]
      && AllSpace(s[..i])
      && AllSpace(s[j..])
      && (r == [] || (!IsSpace(r[0]) && !IsSpace(r[|r| - 1])))
  }

  /** Number of whitespace characters at the start of `s`. */
  function LeadingSpaces(s: string): (n: nat)
    ensures n <= |s|
    ensures AllSpace(s[..n])
    ensures n < |s| ==> !IsSpace(s[n])
  {
    if |s| == 0 || !IsSpace(s[0]) then 0
    else
      var m := LeadingSpaces(s[1..]);
      assert s[..m + 1] == [s[0]] + s[1..][..m];
      m + 1
  }

  /** Number of whitespace characters at the end of `s`. */
  function TrailingSpaces(s: string): (n: nat)
    ensures n <= |s|
    ensures AllSpace(s[|s| - n..])
    ensures n < |s| ==> !IsSpace(s[|s| - n - 1])
  {
    if |s| == 0 || !IsSpace(s[|s| - 1]) then 0
    else
      var init := s[..|s| - 1];
      var m := TrailingSpaces(init);
      assert s[|s| - (m + 1)..] == init[|init| - m..] + [s[|s| - 1]];
      m + 1
  }

  /** `String.prototype.trim`. */
  function Trim(s: string): (r: string)
    ensures IsTrimOf(s, r)
  {
    var i := LeadingSpaces(s);
    var rest := s[i..];
    var j := TrailingSpaces(rest);
    var r := rest[..|rest| - j];
    assert r == s[i..i + |rest| - j];
    assert s[i + |rest| - j..] == rest[|rest| - j..];
    r
  }

  /** A trimmed value is empty exactly when the original was all whitespace. */
  lemma TrimEmptyIff(s: string, r: string)
    requires IsTrimOf(s, r)
    ensures r == [] <==> AllSpace(s)
  {
    var i, j :| && 0 <= i <= j <= |s|
                && r == s[i..j]
                && AllSpace(s[..i])
                && AllSpace(s[j..])
                && (r == [] || (!IsSpace(r[0]) && !IsSpace(r[|r| - 1])));
    if r == [] {
      forall k | 0 <= k < |s|
        ensures IsSpace(s[k])
      {
        if k < i {
          assert s[k] == s[..i][k];
        } else {
          assert s[k] == s[j..][k - j];
        }
      }
    } else {
      assert r[0] == s[i];
    }
  }

  /** A slice that starts with a non-space character, and before which all is space, starts at the first non-space. */
  lemma CutAtLeading(s: string, i: nat)
    requires i < |s| && AllSpace(s[..i]) && !IsSpace(s[i])
    ensures i == LeadingSpaces(s)
  {
  }

  /** A slice that ends with a non-space character, and after which all is space, ends after the last non-space. */
  lemma CutAtTrailing(s: string, j: nat)
    requires 0 < j <= |s| && AllSpace(s[j..]) && !IsSpace(s[j - 1])
    ensures j == |s| - TrailingSpaces(s)
  {
  }

  /** A non-empty trim is cut exactly at the first and after the last non-whitespace character. */
  lemma TrimCuts(s: string, r: string, i: nat, j: nat)
    requires i <= j <= |s| && r == s[i..j] && r != []
    requires AllSpace(s[..i]) && AllSpace(s[j..])
    requires !IsSpace(r[0]) && !IsSpace(r[|r| - 1])
    ensures i == LeadingSpaces(s)
    ensures j == |s| - TrailingSpaces(s)
  {
    assert r[0] == s[i];
    assert r[|r| - 1] == s[j - 1];
    CutAtLeading(s, i);
    CutAtTrailing(s, j);
  }

  /** There is only one trim of a string. */
  lemma TrimUnique(s: string, r1: string, r2: string)
    requires IsTrimOf(s, r1)
    requires IsTrimOf(s, r2)
    ensures r1 == r2
  {
    TrimEmptyIff(s, r1);
    TrimEmptyIff(s, r2);
    if r1 != [] {
      var i1, j1 :| && 0 <= i1 <= j1 <= |s| && r1 == s[i1..j1]
                    && AllSpace(s[..i1]) && AllSpace(s[j1..])
                    && (r1 == [] || (!IsSpace(r1[0]) && !IsSpace(r1[|r1| - 1])));
      var i2, j2 :| && 0 <= i2 <= j2 <= |s| && r2 == s[i2..j2]
                    && AllSpace(s[..i2]) && AllSpace(s[j2..])
                    && (r2 == [] || (!IsSpace(r2[0]) && !IsSpace(r2[|r2| - 1])));
      TrimCuts(s, r1, i1, j1);
      TrimCuts(s, r2, i2, j2);
    }
  }

  /** Trimming twice is trimming once. */
  lemma TrimIdempotent(s: string)
    ensures Trim(Trim(s)) == Trim(s)
  {
    var r := Trim(s);
    TrimEmptyIff(s, r);
    assert r[0..|r|] == r && r[..0] == [] && r[|r|..] == [];
    assert IsTrimOf(r, r);
    TrimUnique(r, Trim(r), r);
  }
}
