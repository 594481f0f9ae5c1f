/** The two string operations the filter relies on: `toLowerCase` (restricted
    to ASCII letters) and `indexOf` with its -1 "not found" convention. */
module Strings {

  /** ASCII lower-casing of one character; every other character is kept. */
  function Lower(c: char): char
  {
    if 'A' <= c <= 'Z' then (c as int - 'A' as int + 'a' as int) as char else c
  }

  predicate IsUpper(c: char)
  {
    'A' <= c <= 'Z'
  }

  /** `s.toLowerCase()`: same length, every character lowered, no upper-case letter left. */
  function ToLower(s: string): (r: string)
    ensures |r| == |s|
    ensures forall i :: 0 <= i < |s| ==> r[i] == Lower(s[i])
    ensures forall i :: 0 <= i < |r| ==> !IsUpper(r[i])
  {
    if s == [] then [] else [Lower(s[0])] + ToLower(s[1..])
  }

  /** Lowering twice is lowering once. */
  lemma ToLowerIdempotent(s: string)
    ensures ToLower(ToLower(s)) == ToLower(s)
  {
    var once := ToLower(s);
    forall i | 0 <= i < |once|
      ensures ToLower(once)[i] == once[i]
    {
      assert !IsUpper(once[i]);
    }
  }

  /** `needle` occurs in `hay` starting at index `k`. */
  predicate OccursAt(hay: string, needle: string, k: int)
  {
    0 <= k && k + |needle| <= |hay| && hay[k..k + |needle|] == needle
  }

  /** `needle` is a substring of `hay`. */
  ghost predicate Contains(hay: string, needle: string)
  {
    exists k :: OccursAt(hay, needle, k)
  }

  /** The search behind `indexOf`, started at position `from`. */
  function IndexFrom(hay: string, needle: string, from: nat): (r: int)
    requires from <= |hay|
    ensures r == -1 || (from <= r && OccursAt(hay, needle, r))
    ensures forall k :: from <= k && (r == -1 || k < r) ==> !OccursAt(hay, needle, k)
    decreases |hay| - from
  {
    if from + |needle| > |hay| then -1
    else if hay[from..from + |needle|] == needle then from
    else IndexFrom(hay, needle, from + 1)
  }

  /** `hay.indexOf(needle)`: the first index where `needle` occurs, or -1 when
      it occurs nowhere. */
  function IndexOf(hay: string, needle: string): (r: int)
    ensures r == -1 || OccursAt(hay, needle, r)
    ensures forall k :: 0 <= k < r ==> !OccursAt(hay, needle, k)
    ensures r != -1 <==> Contains(hay, needle)
  {
    IndexFrom(hay, needle, 0)
  }

  /** The empty string is found at index 0 of every string. */
  lemma EmptyNeedleFoundAtStart(hay: string)
    ensures IndexOf(hay, "") == 0
  {
    assert OccursAt(hay, "", 0);
  }
}
