/**
 * The reference meaning shared by the three string matchers: where a pattern
 * occurs in a text, and which occurrence is reported first. Every matcher
 * returns the lowest start index of an occurrence, or -1 when there is none.
 */
module Occurrence {

  /** The pattern `p` occurs in the text `t` starting at index `i`. */
  predicate OccursAt(t: seq<char>, p: seq<char>, i: int) {
    0 <= i && i + |p| <= |t| && t[i..i + |p|] == p
  }

  /** What a matcher promises: `r` is the lowest occurrence, or -1 when there is none. */
  ghost predicate IsFirstMatch(t: seq<char>, p: seq<char>, r: int) {
    if r == -1 then forall j :: 0 <= j ==> !OccursAt(t, p, j)
    else OccursAt(t, p, r) && forall j :: 0 <= j < r ==> !OccursAt(t, p, j)
  }

  /** The lowest occurrence at or after `k`, or -1. */
  function FirstMatchFrom(t: seq<char>, p: seq<char>, k: nat): int
    decreases |t| - k
  {
    if k + |p| > |t| then -1
    else if t[k..k + |p|] == p then k
    else FirstMatchFrom(t, p, k + 1)
  }

  /** The reference answer every matcher is proved to return. */
  function FirstMatch(t: seq<char>, p: seq<char>): int {
    FirstMatchFrom(t, p, 0)
  }

  lemma {:induction false} FirstMatchFromIsFirst(t: seq<char>, p: seq<char>, k: nat)
    ensures var r := FirstMatchFrom(t, p, k);
      if r == -1 then forall j :: k <= j ==> !OccursAt(t, p, j)
      else k <= r && OccursAt(t, p, r) && forall j :: k <= j < r ==> !OccursAt(t, p, j)
    decreases |t| - k
  {
    if k + |p| <= |t| && t[k..k + |p|] != p {
      FirstMatchFromIsFirst(t, p, k + 1);
    }
  }

  /**
   * `FirstMatch` is the one value satisfying the first-occurrence law: a
   * result is a first match exactly when it equals `FirstMatch`.
   */
  lemma FirstMatchIsUnique(t: seq<char>, p: seq<char>, r: int)
    ensures IsFirstMatch(t, p, r) <==> r == FirstMatch(t, p)
  {
    FirstMatchFromIsFirst(t, p, 0);
  }

  /** The empty pattern occurs at 0 in every text, the empty one included. */
  lemma EmptyPatternAtZero(t: seq<char>)
    ensures FirstMatch(t, []) == 0
  {
  }

  /** A pattern longer than the text occurs nowhere. */
  lemma LongPatternNotFound(t: seq<char>, p: seq<char>)
    requires |t| < |p|
    ensures FirstMatch(t, p) == -1
  {
  }
}
