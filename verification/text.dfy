/** The string operations the filter relies on: lower-casing (`toLowerCase`)
    and substring search (`indexOf`), with the properties the filter needs. */
module Text {

  /** ASCII lower-casing of one character; every other character is kept. */
  function LowerChar(c: char): (d: char)
    ensures !('A' <= d <= 'Z')
    ensures 'a' <= d <= 'z' <==> 'A' <= c <= 'Z' || 'a' <= c <= 'z'
    ensures 'A' <= c <= 'Z' ==> d as int - 'a' as int == c as int - 'A' as int
    ensures !('A' <= c <= 'Z') ==> d == c
  {
    if 'A' <= c <= 'Z' then (c as int - 'A' as int + 'a' as int) as char else c
  }

  /** `s.toLowerCase()`, restricted to the ASCII letters. */
  function Lower(s: string): (r: string)
    ensures |r| == |s|
    ensures forall i :: 0 <= i < |s| ==> r[i] == LowerChar(s[i])
  {
    seq(|s|, i requires 0 <= i < |s| => LowerChar(s[i]))
  }

  lemma LowerIdempotent(s: string)
    ensures Lower(Lower(s)) == Lower(s)
  {
    assert forall i :: 0 <= i < |s| ==> LowerChar(LowerChar(s[i])) == LowerChar(s[i]);
  }

  /** `needle` occurs in `hay` starting at position `k`. */
  predicate OccursAt(hay: string, needle: string, k: nat) {
    k + |needle| <= |hay| && hay[k..k + |needle|] == needle
  }

  /** `needle` is a substring of `hay`. */
  predicate Contains(hay: string, needle: string) {
    exists k: nat :: k <= |hay| && OccursAt(hay, needle, k)
  }

  /** The search `indexOf` performs from position `k` on: the first
      occurrence at or after `k`, or -1 when there is none. */
  function IndexFrom(hay: string, needle: string, k: nat): (r: int)
    requires k <= |hay| + 1
    ensures r == -1 || (k <= r && OccursAt(hay, needle, r))
    ensures r == -1 ==> forall j: nat :: k <= j ==> !OccursAt(hay, needle, j)
    ensures r != -1 ==> forall j: nat :: k <= j < r ==> !OccursAt(hay, needle, j)
    decreases |hay| + 1 - k
  {
    if k + |needle| > |hay| then -1
    else if hay[k..k + |needle|] == needle then k
    else IndexFrom(hay, needle, k + 1)
  }

  /** `hay.indexOf(needle)`: the least position where `needle` occurs, or -1. */
  function IndexOf(hay: string, needle: string): (r: int)
    ensures r != -1 <==> Contains(hay, needle)
    ensures r != -1 ==> 0 <= r && OccursAt(hay, needle, r) && forall j: nat :: j < r ==> !OccursAt(hay, needle, j)
  {
    IndexFrom(hay, needle, 0)
  }

  /** The empty string is found at position 0 of every string. */
  lemma IndexOfEmpty(hay: string)
    ensures IndexOf(hay, "") == 0
  {
    assert OccursAt(hay, "", 0);
  }

  /** Lower-casing a string lower-cases each of its slices. */
  lemma LowerSlice(s: string, i: nat, j: nat)
    requires i <= j <= |s|
    ensures Lower(s)[i..j] == Lower(s[i..j])
  {
  }

  /** An occurrence survives lower-casing of both sides. */
  lemma {:induction false} ContainsLower(hay: string, needle: string)
    requires Contains(hay, needle)
    ensures Contains(Lower(hay), Lower(needle))
  {
    var k: nat :| k <= |hay| && OccursAt(hay, needle, k);
    assert k + |needle| <= |hay|;
    LowerSlice(hay, k, k + |needle|);
    assert OccursAt(Lower(hay), Lower(needle), k);
  }
}
