/**
 * The string operations the menu flattening relies on: joining the text
 * fragments of an element (Python's `''.join(...)`) and removing surrounding
 * whitespace (Python's `str.strip()` without arguments).
 */
module Text {

  /**
   * The code points for which Python's `str.isspace()` holds: the characters
   * that `strip()` removes.
   */
  const Whitespace: set<char> := {
    '\t', '\n', '\U{B}', '\U{C}', '\r', '\U{1C}', '\U{1D}', '\U{1E}', '\U{1F}', ' ',
    '\U{85}', '\U{A0}', '\U{1680}',
    '\U{2000}', '\U{2001}', '\U{2002}', '\U{2003}', '\U{2004}', '\U{2005}',
    '\U{2006}', '\U{2007}', '\U{2008}', '\U{2009}', '\U{200A}',
    '\U{2028}', '\U{2029}', '\U{202F}', '\U{205F}', '\U{3000}'
  }

  predicate IsSpace(c: char) {
    c in Whitespace
  }

  /** Python's `''.join(parts)`: the fragments one after the other. */
  function Concat(parts: seq<string>): string {
    if parts == [] then "" else Concat(parts[..|parts| - 1]) + parts[|parts| - 1]
  }

  /** Neither the first nor the last character (if any) is whitespace. */
  predicate NoOuterSpace(r: string) {
    r == [] || (!IsSpace(r[0]) && !IsSpace(r[|r| - 1]))
  }

  /**
   * `r` is what is left of `s` after removing the whitespace prefix `s[..i]`
   * and a whitespace suffix, and `r` itself does not start or end with whitespace.
   */
  predicate StrippedAt(r: string, s: string, i: nat) {
    && i + |r| <= |s| && r == s[i..i + |r|]
    && (forall k :: 0 <= k < i ==> IsSpace(s[k]))
    && (forall k :: i + |r| <= k < |s| ==> IsSpace(s[k]))
    && NoOuterSpace(r)
  }

  /** `r` is `s` with its surrounding whitespace removed. */
  ghost predicate IsStripOf(r: string, s: string) {
    exists i: nat :: StrippedAt(r, s, i)
  }

  /** Python's `s.lstrip()`. */
  function StripLeading(s: string): string {
    if s != [] && IsSpace(s[0]) then StripLeading(s[1..]) else s
  }

  /** Python's `s.rstrip()`. */
  function StripTrailing(s: string): string {
    if s != [] && IsSpace(s[|s| - 1]) then StripTrailing(s[..|s| - 1]) else s
  }

  /** Python's `s.strip()`: `rstrip` applied to the result of `lstrip`. */
  function Strip(s: string): string {
    StripTrailing(StripLeading(s))
  }

  /** `lstrip` removes a whitespace prefix and stops at the first non-space. */
  lemma {:induction false} StripLeadingSpec(s: string)
    ensures |StripLeading(s)| <= |s| && StripLeading(s) == s[|s| - |StripLeading(s)|..]
    ensures forall k :: 0 <= k < |s| - |StripLeading(s)| ==> IsSpace(s[k])
    ensures StripLeading(s) == [] || !IsSpace(StripLeading(s)[0])
    decreases |s|
  {
    if s != [] && IsSpace(s[0]) {
      StripLeadingSpec(s[1..]);
    }
  }

  /** `rstrip` removes a whitespace suffix and stops at the last non-space. */
  lemma {:induction false} StripTrailingSpec(s: string)
    ensures |StripTrailing(s)| <= |s| && StripTrailing(s) == s[..|StripTrailing(s)|]
    ensures forall k :: |StripTrailing(s)| <= k < |s| ==> IsSpace(s[k])
    ensures StripTrailing(s) == [] || !IsSpace(StripTrailing(s)[|StripTrailing(s)| - 1])
    decreases |s|
  {
    if s != [] && IsSpace(s[|s| - 1]) {
      StripTrailingSpec(s[..|s| - 1]);
    }
  }

  /** `strip` cuts `s` after its leading whitespace and before its trailing whitespace. */
  lemma StripSpec(s: string)
    ensures IsStripOf(Strip(s), s)
  {
    var t := StripLeading(s);
    StripLeadingSpec(s);
    StripTrailingSpec(t);
    TrimmedSuffix(s, t, StripTrailing(t), |s| - |t|);
  }

  /**
   * Cutting a whitespace prefix off `s` (leaving `t`, which starts with a
   * non-space) and then a whitespace suffix off `t` (leaving `u`, which ends
   * with a non-space) strips `s`.
   */
  lemma TrimmedSuffix(s: string, t: string, u: string, i: nat)
    requires i <= |s| && t == s[i..] && |u| <= |t| && u == t[..|u|]
    requires forall k :: 0 <= k < i ==> IsSpace(s[k])
    requires t == [] || !IsSpace(t[0])
    requires forall k :: |u| <= k < |t| ==> IsSpace(t[k])
    requires u == [] || !IsSpace(u[|u| - 1])
    ensures StrippedAt(u, s, i)
  {
    assert u != [] ==> u[0] == t[0];
    forall k | i + |u| <= k < |s|
      ensures IsSpace(s[k])
    {
      assert s[k] == t[k - i];
    }
  }

  /** Whitespace stripping has exactly one possible result: `IsStripOf` pins down `Strip`. */
  lemma {:induction false} StripUnique(s: string, r: string)
    requires IsStripOf(r, s)
    ensures r == Strip(s)
  {
    StripSpec(s);
    var r' := Strip(s);
    var i: nat :| StrippedAt(r, s, i);
    var i': nat :| StrippedAt(r', s, i');
    if r != [] && r' != [] {
      assert r[0] == s[i] && r'[0] == s[i'];
      assert i == i';
      assert r[|r| - 1] == s[i + |r| - 1] && r'[|r'| - 1] == s[i' + |r'| - 1];
      assert |r| == |r'|;
    }
  }
}
