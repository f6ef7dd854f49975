/**
 * The string primitives the front end relies on: `toLowerCase`,
 * `indexOf` and `includes`. Lower-casing is ASCII-only here.
 */
module Strings {
  import opened Wrappers

  /** Lower-cases one ASCII letter; every other character is unchanged. */
  function LowerChar(c: char): char {
    if 'A' <= c <= 'Z' then (c as int + 32) as char else c
  }

  /** `s.toLowerCase()`, character by character. */
  function Lower(s: string): (r: string)
    ensures |r| == |s|
    ensures forall i :: 0 <= i < |s| ==> r[i] == LowerChar(s[i])
    ensures forall i :: 0 <= i < |r| ==> !('A' <= r[i] <= 'Z')
  {
    seq(|s|, i requires 0 <= i < |s| => LowerChar(s[i]))
  }

  /** Lower-casing twice is lower-casing once. */
  lemma LowerIdempotent(s: string)
    ensures Lower(Lower(s)) == Lower(s)
  {
  }

  /** `sub` occurs in `s` starting at index `i`. */
  predicate OccursAt(s: string, sub: string, i: nat) {
    i + |sub| <= |s| && s[i..i + |sub|] == sub
  }

  /** The first occurrence of `sub` in `s` at or after `from`, if any. */
  function IndexFrom(s: string, sub: string, from: nat): (r: Option<nat>)
    ensures r.Some? ==> from <= r.value && OccursAt(s, sub, r.value)
    ensures r.Some? ==> forall k :: from <= k < r.value ==> !OccursAt(s, sub, k)
    ensures r.None? ==> forall k :: from <= k ==> !OccursAt(s, sub, k)
    decreases |s| + 1 - from
  {
    if from + |sub| > |s| then None
    else if s[from..from + |sub|] == sub then Some(from)
    else IndexFrom(s, sub, from + 1)
  }

  /** `s.indexOf(sub)`, with `None` for the source's -1. */
  function IndexOf(s: string, sub: string): (r: Option<nat>)
    ensures r.Some? ==> OccursAt(s, sub, r.value)
    ensures r.Some? ==> forall k: nat :: k < r.value ==> !OccursAt(s, sub, k)
    ensures r.None? <==> forall k: nat :: !OccursAt(s, sub, k)
  {
    IndexFrom(s, sub, 0)
  }

  /** `s.includes(sub)`. */
  predicate Contains(s: string, sub: string) {
    IndexOf(s, sub).Some?
  }

  /** An occurrence of `small` inside an occurrence of `big` is an occurrence in `s`. */
  lemma OccursWithin(s: string, big: string, i: nat, small: string, j: nat)
    requires OccursAt(s, big, i) && OccursAt(big, small, j)
    ensures OccursAt(s, small, i + j)
  {
    forall t | 0 <= t < |small|
      ensures s[i + j + t] == small[t]
    {
      assert s[i..i + |big|][j + t] == big[j + t];
      assert big[j..j + |small|][t] == small[t];
    }
  }

  /** `includes` is transitive through a containing pattern. */
  lemma ContainsWithin(s: string, big: string, small: string)
    requires Contains(s, big) && Contains(big, small)
    ensures Contains(s, small)
  {
    var i := IndexOf(s, big).value;
    var j := IndexOf(big, small).value;
    OccursWithin(s, big, i, small, j);
  }

  /** An occurrence inside a prefix of `s` is an occurrence in `s`. */
  lemma OccursInPrefix(s: string, sub: string, n: nat, k: nat)
    requires n <= |s| && OccursAt(s[..n], sub, k)
    ensures OccursAt(s, sub, k)
  {
    assert s[..n][k..k + |sub|] == s[k..k + |sub|];
  }

  /** An occurrence inside a suffix of `s` is an occurrence in `s`, shifted. */
  lemma OccursInSuffix(s: string, sub: string, n: nat, k: nat)
    requires n <= |s| && OccursAt(s[n..], sub, k)
    ensures OccursAt(s, sub, n + k)
  {
    assert s[n..][k..k + |sub|] == s[n + k..n + k + |sub|];
  }

  /**
   * The position in `patterns` of the first pattern, in list order, that
   * occurs anywhere in `s`; later patterns are not consulted.
   */
  function FirstHit(s: string, patterns: seq<string>): (r: Option<nat>)
    ensures r.Some? ==> r.value < |patterns| && Contains(s, patterns[r.value])
    ensures r.Some? ==> forall k :: 0 <= k < r.value ==> !Contains(s, patterns[k])
    ensures r.None? <==> forall k :: 0 <= k < |patterns| ==> !Contains(s, patterns[k])
    decreases |patterns|
  {
    if patterns == [] then None
    else if Contains(s, patterns[0]) then Some(0)
    else
      match FirstHit(s, patterns[1..])
      case None => None
      case Some(j) => Some(j + 1)
  }

  /** A one-character pattern occurs at `i` exactly when that character is there. */
  lemma OccursChar(s: string, c: char, i: nat)
    requires i < |s|
    ensures OccursAt(s, [c], i) <==> s[i] == c
  {
    assert s[i..i + 1] == [s[i]];
  }
}
