/** Strings as sequences of characters, and the few Python string operations the rewriters use. */
module Strings {
  import opened Wrappers

  /** `p` occurs in `s` starting at position `i`. */
  predicate OccursAt(s: string, p: string, i: nat)
  {
    i + |p| <= |s| && s[i..i + |p|] == p
  }

  predicate StartsWith(s: string, p: string)
  {
    OccursAt(s, p, 0)
  }

  predicate EndsWith(s: string, p: string)
  {
    |p| <= |s| && OccursAt(s, p, |s| - |p|)
  }

  /** The leftmost occurrence of `p` in `s` at or after `i` (Python's `s.find(p, i)`). */
  function IndexFrom(s: string, p: string, i: nat): (r: Option<nat>)
    ensures r.Some? ==> i <= r.value && OccursAt(s, p, r.value)
    ensures r.Some? ==> forall j :: i <= j < r.value ==> !OccursAt(s, p, j)
    ensures r.None? ==> forall j :: i <= j ==> !OccursAt(s, p, j)
    decreases |s| - i
  {
    if i + |p| > |s| then None
    else if OccursAt(s, p, i) then Some(i)
    else IndexFrom(s, p, i + 1)
  }

  /** Python's substring test `p in s`. */
  predicate Contains(s: string, p: string)
  {
    IndexFrom(s, p, 0).Some?
  }

  lemma ContainsAt(s: string, p: string, i: nat)
    requires OccursAt(s, p, i)
    ensures Contains(s, p)
  {
  }

  /** The first position at or after `i` holding `c`. */
  function FindChar(s: string, c: char, i: nat): (r: Option<nat>)
    ensures r.Some? ==> i <= r.value < |s| && s[r.value] == c
    ensures r.Some? ==> forall j :: i <= j < r.value ==> s[j] != c
    ensures r.None? ==> forall j :: i <= j < |s| ==> s[j] != c
    decreases |s| - i
  {
    if i >= |s| then None else if s[i] == c then Some(i) else FindChar(s, c, i + 1)
  }

  /** Python's `s.replace(old, new)`: every non-overlapping occurrence, found left to right. */
  function Replace(s: string, pat: string, rep: string): string
  {
    if pat == [] then Interleave(s, rep) else ReplaceFrom(s, pat, rep, 0)
  }

  /** Python's replacement of the empty string: `rep` before, between and after the characters of `s`. */
  function Interleave(s: string, rep: string): (r: string)
    ensures |r| == |s| + (|s| + 1) * |rep|
  {
    if s == [] then rep else rep + [s[0]] + Interleave(s[1..], rep)
  }

  /** The replacement of the occurrences of `pat` found from position `i` on. */
  function ReplaceFrom(s: string, pat: string, rep: string, i: nat): string
    requires pat != [] && i <= |s|
    decreases |s| - i
  {
    match IndexFrom(s, pat, i)
    case None => s[i..]
    case Some(k) => s[i..k] + rep + ReplaceFrom(s, pat, rep, k + |pat|)
  }

  lemma ReplaceAbsent(s: string, pat: string, rep: string)
    requires !Contains(s, pat)
    ensures Replace(s, pat, rep) == s
  {
    assert OccursAt(s, pat, 0) ==> Contains(s, pat);
  }

  /** Replacing in a non-empty text by a non-empty text never yields the empty text. */
  lemma ReplaceNonEmpty(s: string, pat: string, rep: string)
    requires s != [] && rep != []
    ensures Replace(s, pat, rep) != []
  {
    if pat != [] {
      match IndexFrom(s, pat, 0)
      case None =>
      case Some(k) =>
        assert |ReplaceFrom(s, pat, rep, 0)| >= |rep|;
    }
  }

  /** Replacing a string by itself changes nothing. */
  lemma ReplaceSelf(s: string, x: string)
    ensures Replace(s, x, x) == s
  {
    if x == [] {
      InterleaveEmpty(s);
    } else {
      ReplaceFromSelf(s, x, 0);
    }
  }

  lemma {:induction false} InterleaveEmpty(s: string)
    ensures Interleave(s, []) == s
  {
    if s != [] {
      InterleaveEmpty(s[1..]);
      assert [] + [s[0]] + s[1..] == s;
    }
  }

  lemma {:induction false} ReplaceFromSelf(s: string, x: string, i: nat)
    requires x != [] && i <= |s|
    ensures ReplaceFrom(s, x, x, i) == s[i..]
    decreases |s| - i
  {
    match IndexFrom(s, x, i)
    case None =>
    case Some(k) =>
      ReplaceFromSelf(s, x, k + |x|);
      assert s[i..] == s[i..k] + s[k..k + |x|] + s[k + |x|..];
  }

  /** An occurrence in a suffix is an occurrence in the whole string. */
  lemma ContainsSuffix(s: string, i: nat, p: string)
    requires i <= |s| && Contains(s[i..], p)
    ensures Contains(s, p)
  {
    var k := IndexFrom(s[i..], p, 0).value;
    assert s[i..][k..k + |p|] == s[i + k..i + k + |p|];
    ContainsAt(s, p, i + k);
  }

  /** An occurrence inside a string `q` that starts `s` is an occurrence in `s`. */
  lemma ContainsPrefix(s: string, q: string, p: string)
    requires StartsWith(s, q) && Contains(q, p)
    ensures Contains(s, p)
  {
    var k := IndexFrom(q, p, 0).value;
    assert OccursAt(q, p, k);
    assert s[0..|q|] == q;
    assert forall j :: k <= j < k + |p| ==> s[j] == q[j];
    assert s[k..k + |p|] == q[k..k + |p|];
    ContainsAt(s, p, k);
  }

  predicate IsAsciiUpper(c: char) { 'A' <= c <= 'Z' }

  predicate IsAsciiAlnum(c: char) { 'A' <= c <= 'Z' || 'a' <= c <= 'z' || '0' <= c <= '9' }

  /** Lower-case letters A to Z; every other character is kept. */
  function AsciiLower(s: string): (r: string)
    ensures |r| == |s|
    ensures forall i :: 0 <= i < |s| ==> r[i] == (if IsAsciiUpper(s[i]) then (s[i] as int + 32) as char else s[i])
  {
    seq(|s|, i requires 0 <= i < |s| => if IsAsciiUpper(s[i]) then (s[i] as int + 32) as char else s[i])
  }

  /** The characters Python's `str.isspace` (and `\s` in a `str` regular expression) accept. */
  predicate IsPySpace(c: char)
  {
    '\t' <= c <= '\r' || '\U{1c}' <= c <= ' ' || c == '\U{85}' || c == '\U{a0}' || c == '\U{1680}'
    || '\U{2000}' <= c <= '\U{200a}' || c == '\U{2028}' || c == '\U{2029}' || c == '\U{202f}'
    || c == '\U{205f}' || c == '\U{3000}'
  }
}
