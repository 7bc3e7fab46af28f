/**
 * `boyer_moore` of task_3.py: the Horspool variant of Boyer-Moore. A
 * bad-character table built from every pattern position but the last gives
 * the shift; each window is compared right to left, and the shift is taken
 * from the text character under the pattern's LAST position.
 */
module BoyerMoore {
  import opened Occurrence

  /**
   * `table` is the Horspool skip table of `p`: its keys are the characters of
   * `p[..|p|-1]`, and the entry of `c` is `|p| - 1 - k` for the LAST index
   * `k < |p| - 1` holding `c`.
   */
  ghost predicate IsSkipTable(p: seq<char>, table: map<char, int>)
    requires |p| > 0
  {
    (forall c :: c in table <==> c in p[..|p| - 1]) &&
    forall c :: c in table ==>
      1 <= table[c] <= |p| - 1 &&
      p[|p| - 1 - table[c]] == c &&
      forall j :: |p| - 1 - table[c] < j < |p| - 1 ==> p[j] != c
  }

  /** Fills the table as the source does: later positions overwrite earlier ones. */
  method BuildSkipTable(pattern: seq<char>) returns (table: map<char, int>)
    requires |pattern| > 0
    ensures IsSkipTable(pattern, table)
  {
    var m := |pattern|;
    table := map[];
    for idx := 0 to m - 1
      invariant forall c :: c in table <==> c in pattern[..idx]
      invariant forall c :: c in table ==>
        m - idx <= table[c] <= m - 1 &&
        pattern[m - 1 - table[c]] == c &&
        forall j :: m - 1 - table[c] < j < idx ==> pattern[j] != c
    {
      table := table[pattern[idx] := m - idx - 1];
      assert pattern[..idx + 1] == pattern[..idx] + [pattern[idx]];
    }
  }

  /** `skip_table.get(c, pattern_length)`: a character not in the table shifts by the whole pattern. */
  function Shift(p: seq<char>, table: map<char, int>, c: char): (s: int)
    requires |p| > 0 && IsSkipTable(p, table)
    ensures 1 <= s <= |p|
    ensures s < |p| <==> c in p[..|p| - 1]
  {
    if c in table then table[c] else |p|
  }

  /**
   * Horspool's shift never skips an occurrence: when the window ends at text
   * index `i`, no occurrence starts strictly between the window's start and
   * the window's start plus the shift for `t[i]`.
   */
  lemma ShiftSkipsNoOccurrence(t: seq<char>, p: seq<char>, table: map<char, int>, i: int)
    requires |p| > 0 && IsSkipTable(p, table)
    requires |p| - 1 <= i < |t|
    ensures forall s :: i - |p| + 1 < s < i - |p| + 1 + Shift(p, table, t[i]) ==> !OccursAt(t, p, s)
  {
  }

  /**
   * Lines 20-21: the right-to-left compare matched the whole window ending at
   * `textIdx`, and nothing occurs earlier, so its start is the first occurrence.
   */
  lemma WindowFound(text: seq<char>, pattern: seq<char>, textIdx: int)
    requires 0 < |pattern| && |pattern| - 1 <= textIdx < |text|
    requires text[textIdx - |pattern| + 1..textIdx + 1] == pattern
    requires forall s :: 0 <= s < textIdx - |pattern| + 1 ==> !OccursAt(text, pattern, s)
    ensures textIdx - |pattern| + 1 == FirstMatch(text, pattern)
  {
    FirstMatchIsUnique(text, pattern, textIdx - |pattern| + 1);
  }

  /** Line 17: the compare stopped on a differing character, so the window is no occurrence. */
  lemma WindowMismatch(text: seq<char>, pattern: seq<char>, textIdx: int, patternIdx: int)
    requires 0 <= patternIdx < |pattern| && |pattern| - 1 <= textIdx < |text|
    requires text[textIdx - (|pattern| - 1 - patternIdx)] != pattern[patternIdx]
    ensures !OccursAt(text, pattern, textIdx - |pattern| + 1)
  {
  }

  /** `boyer_moore(text, pattern)`: the lowest occurrence of `pattern` in `text`, or -1. */
  method Search(text: seq<char>, pattern: seq<char>) returns (r: int)
    ensures r == FirstMatch(text, pattern)
  {
    var m := |pattern|;
    var n := |text|;
    if m == 0 {
      EmptyPatternAtZero(text);
      return 0;
    }
    var table := BuildSkipTable(pattern);
    var textIdx := m - 1;
    while textIdx < n
      invariant m - 1 <= textIdx
      invariant forall s :: 0 <= s < textIdx - m + 1 ==> !OccursAt(text, pattern, s)
      decreases n - textIdx
    {
      var patternIdx := m - 1;
      var scanIdx := textIdx;
      while patternIdx >= 0 && text[scanIdx] == pattern[patternIdx]
        invariant -1 <= patternIdx <= m - 1
        invariant scanIdx == textIdx - (m - 1 - patternIdx)
        invariant text[scanIdx + 1..textIdx + 1] == pattern[patternIdx + 1..]
      {
        scanIdx := scanIdx - 1;
        patternIdx := patternIdx - 1;
      }
      if patternIdx == -1 {
        WindowFound(text, pattern, textIdx);
        return scanIdx + 1;
      }
      WindowMismatch(text, pattern, textIdx, patternIdx);
      ShiftSkipsNoOccurrence(text, pattern, table, textIdx);
      textIdx := textIdx + Shift(pattern, table, text[textIdx]);
    }
    FirstMatchIsUnique(text, pattern, -1);
    r := -1;
  }
}
