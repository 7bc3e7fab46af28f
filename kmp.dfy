/**
 * `kmp_search` of task_3.py: Knuth-Morris-Pratt. The failure array (`lps`)
 * holds, for every prefix of the pattern, the length of its longest proper
 * prefix that is also a suffix (its longest border); the scan never moves
 * back in the text and falls back through that array on a mismatch.
 */
module Kmp {
  import opened Occurrence

  /** `s[..k]` is a proper prefix of `s` that is also a suffix of `s`. */
  ghost predicate IsBorder(s: seq<char>, k: int) {
    0 <= k < |s| && s[..k] == s[|s| - k..]
  }

  /** `k` is the length of the longest border of `s`. */
  ghost predicate IsLongestBorder(s: seq<char>, k: int) {
    IsBorder(s, k) && forall j :: k < j < |s| ==> !IsBorder(s, j)
  }

  /** Below a border `s[..k]`, the borders of `s` are the borders of `s[..k]`. */
  lemma BorderOfBorder(s: seq<char>, k: int, j: int)
    requires IsBorder(s, k) && 0 <= j < k
    ensures IsBorder(s, j) <==> IsBorder(s[..k], j)
  {
    assert s[..k][k - j..] == s[|s| - k..][k - j..];
    assert s[|s| - k..][k - j..] == s[|s| - j..];
    assert s[..k][..j] == s[..j];
  }

  /**
   * Appending `c` to `s`: when `b` (or -1) is the longest border of `s` that
   * `c` extends, `b + 1` is the longest border of `s + [c]`.
   */
  lemma LongestAfterAppend(s: seq<char>, c: char, b: int)
    requires -1 <= b < |s|
    requires b >= 0 ==> IsBorder(s, b) && s[b] == c
    requires forall k :: b < k < |s| && IsBorder(s, k) ==> s[k] != c
    ensures IsLongestBorder(s + [c], b + 1)
  {
    var t := s + [c];
    if b >= 0 {
      assert t[..b + 1] == s[..b] + [c];
      assert t[|t| - (b + 1)..] == s[|s| - b..] + [c];
    }
    forall j | b + 1 < j < |t|
      ensures !IsBorder(t, j)
    {
      if IsBorder(t, j) {
        var u := t[..j];
        assert u == s[..j - 1] + [s[j - 1]];
        assert u == s[|s| - (j - 1)..] + [c];
        assert u[..j - 1] == s[..j - 1] && u[..j - 1] == s[|s| - (j - 1)..];
        assert IsBorder(s, j - 1);
      }
    }
  }

  /**
   * The fallback `length = lps[length - 1]` keeps every candidate: the new
   * length is a shorter border of `s`, and no border strictly between the new
   * and the old length can be extended by `c`.
   */
  lemma FallbackKeepsCandidates(s: seq<char>, c: char, len: int, b: int)
    requires 0 < len < |s| && IsBorder(s, len) && s[len] != c
    requires IsLongestBorder(s[..len], b)
    requires forall k :: len < k < |s| && IsBorder(s, k) ==> s[k] != c
    ensures 0 <= b < len && IsBorder(s, b)
    ensures forall k :: b < k < |s| && IsBorder(s, k) ==> s[k] != c
  {
    BorderOfBorder(s, len, b);
    forall k | b < k < len
      ensures !IsBorder(s, k)
    {
      BorderOfBorder(s, len, k);
    }
  }

  /** `table` is a failure array for `pattern`: entry `i` is the longest border of `pattern[..i + 1]`. */
  ghost predicate IsLps(pattern: seq<char>, table: seq<int>, count: int) {
    0 <= count <= |pattern| == |table|
    && forall j :: 0 <= j < count ==> IsLongestBorder(pattern[..j + 1], table[j])
  }

  /**
   * What holds before every pass of the preprocessing loop: the first `i`
   * entries are final, `pattern[..length]` is a border of `pattern[..i]`, and
   * no longer border of `pattern[..i]` can be extended by `pattern[i]`.
   */
  ghost predicate LpsState(pattern: seq<char>, table: seq<int>, i: int, length: int) {
    1 <= i <= |pattern| && 0 <= length < i
    && IsLps(pattern, table, i)
    && IsBorder(pattern[..i], length)
    && (i < |pattern| ==> forall k :: length < k < i && IsBorder(pattern[..i], k) ==> pattern[k] != pattern[i])
  }

  /** The first entry is 0: a single character has no proper border. */
  lemma LpsStart(pattern: seq<char>, table: seq<int>)
    requires 0 < |pattern| == |table| && table[0] == 0
    ensures LpsState(pattern, table, 1, 0)
  {
    assert IsLongestBorder(pattern[..1], 0);
  }

  /** Lines 36-39: `pattern[i]` extends the border, so `lps[i] = length + 1`. */
  lemma LpsExtend(pattern: seq<char>, table: seq<int>, i: int, length: int)
    requires LpsState(pattern, table, i, length) && i < |pattern|
    requires pattern[i] == pattern[length]
    ensures LpsState(pattern, table[i := length + 1], i + 1, length + 1)
  {
    assert pattern[..i + 1] == pattern[..i] + [pattern[i]];
    LongestAfterAppend(pattern[..i], pattern[i], length);
    var table' := table[i := length + 1];
    assert forall j :: 0 <= j < i ==> table'[j] == table[j];
  }

  /** Lines 41-42: on a mismatch with `length > 0`, `length = lps[length - 1]` is shorter and loses no candidate. */
  lemma LpsFallback(pattern: seq<char>, table: seq<int>, i: int, length: int)
    requires LpsState(pattern, table, i, length) && i < |pattern|
    requires pattern[i] != pattern[length] && length != 0
    ensures table[length - 1] < length
    ensures LpsState(pattern, table, i, table[length - 1])
  {
    assert pattern[..i][..length] == pattern[..length];
    FallbackKeepsCandidates(pattern[..i], pattern[i], length, table[length - 1]);
  }

  /** Lines 43-45: on a mismatch with `length == 0`, `lps[i] = 0`. */
  lemma LpsReset(pattern: seq<char>, table: seq<int>, i: int)
    requires LpsState(pattern, table, i, 0) && i < |pattern|
    requires pattern[i] != pattern[0]
    ensures LpsState(pattern, table[i := 0], i + 1, 0)
  {
    assert pattern[..i + 1] == pattern[..i] + [pattern[i]];
    LongestAfterAppend(pattern[..i], pattern[i], -1);
    var table' := table[i := 0];
    assert forall j :: 0 <= j < i ==> table'[j] == table[j];
  }

  /** A complete failure array: every entry is the longest border, so it lies in `[0, i]`. */
  lemma LpsDone(pattern: seq<char>, table: seq<int>)
    requires IsLps(pattern, table, |pattern|)
    ensures forall i :: 0 <= i < |pattern| ==> 0 <= table[i] <= i
  {
    forall i | 0 <= i < |pattern|
      ensures 0 <= table[i] <= i
    {
      assert IsLongestBorder(pattern[..i + 1], table[i]);
    }
  }

  /** The preprocessing loop: `lps[i]` is the longest border of `pattern[..i + 1]`. */
  method ComputeLps(pattern: seq<char>) returns (lps: array<int>)
    requires |pattern| > 0
    ensures fresh(lps)
    ensures lps.Length == |pattern|
    ensures forall i :: 0 <= i < |pattern| ==> 0 <= lps[i] <= i
    ensures IsLps(pattern, lps[..], |pattern|)
  {
    var m := |pattern|;
    lps := new int[m](_ => 0);
    var length := 0;
    var i := 1;
    LpsStart(pattern, lps[..]);
    while i < m
      invariant lps.Length == m
      invariant LpsState(pattern, lps[..], i, length)
      decreases m - i, length
    {
      if pattern[i] == pattern[length] {
        LpsExtend(pattern, lps[..], i, length);
        length := length + 1;
        lps[i] := length;
        i := i + 1;
      } else {
        if length != 0 {
          LpsFallback(pattern, lps[..], i, length);
          length := lps[length - 1];
        } else {
          LpsReset(pattern, lps[..], i);
          lps[i] := 0;
          i := i + 1;
        }
      }
    }
    LpsDone(pattern, lps[..]);
  }

  /**
   * On a mismatch after `pi` matched characters, falling back to `b`, the
   * longest border of `pattern[..pi]`, skips no occurrence and keeps the
   * matched-prefix invariant.
   */
  lemma FallbackSkipsNoOccurrence(text: seq<char>, pattern: seq<char>, ti: int, pi: int, b: int)
    requires 0 < pi < |pattern| && pi <= ti < |text|
    requires text[ti - pi..ti] == pattern[..pi]
    requires text[ti] != pattern[pi]
    requires IsLongestBorder(pattern[..pi], b)
    ensures text[ti - b..ti] == pattern[..b]
    ensures forall s :: ti - pi <= s < ti - b ==> !OccursAt(text, pattern, s)
  {
    assert text[ti - b..ti] == text[ti - pi..ti][pi - b..];
    assert pattern[..pi][..b] == pattern[..b];
    forall s | ti - pi < s < ti - b
      ensures !OccursAt(text, pattern, s)
    {
      var k := ti - s;
      if OccursAt(text, pattern, s) {
        assert text[s..ti] == text[s..s + |pattern|][..k];
        assert text[s..ti] == text[ti - pi..ti][pi - k..];
        assert pattern[..pi][..k] == pattern[..k];
        assert IsBorder(pattern[..pi], k);
      }
    }
  }

  /**
   * What holds before every pass of the scan: `table` is the failure array,
   * the last `pi` characters read match `pattern[..pi]`, and nothing occurs
   * before the candidate start `ti - pi`.
   */
  ghost predicate ScanState(text: seq<char>, pattern: seq<char>, table: seq<int>, ti: int, pi: int) {
    IsLps(pattern, table, |pattern|)
    && 0 <= pi <= |pattern| && pi <= ti <= |text|
    && text[ti - pi..ti] == pattern[..pi]
    && forall s :: 0 <= s < ti - pi ==> !OccursAt(text, pattern, s)
  }

  /** Lines 50-52: a matching character extends the matched prefix. */
  lemma ScanMatch(text: seq<char>, pattern: seq<char>, table: seq<int>, ti: int, pi: int)
    requires ScanState(text, pattern, table, ti, pi) && pi < |pattern| && ti < |text|
    requires pattern[pi] == text[ti]
    ensures ScanState(text, pattern, table, ti + 1, pi + 1)
  {
    assert text[ti - pi..ti + 1] == text[ti - pi..ti] + [text[ti]];
    assert pattern[..pi + 1] == pattern[..pi] + [pattern[pi]];
  }

  /** Lines 53-54: once the whole pattern is matched, its start is the first occurrence. */
  lemma ScanFound(text: seq<char>, pattern: seq<char>, table: seq<int>, ti: int)
    requires ScanState(text, pattern, table, ti, |pattern|)
    ensures ti - |pattern| == FirstMatch(text, pattern)
  {
    assert pattern[..|pattern|] == pattern;
    FirstMatchIsUnique(text, pattern, ti - |pattern|);
  }

  /** Lines 55-57: on a mismatch, `pattern_idx = lps[pattern_idx - 1]` is shorter and skips no occurrence. */
  lemma ScanFallback(text: seq<char>, pattern: seq<char>, table: seq<int>, ti: int, pi: int)
    requires ScanState(text, pattern, table, ti, pi) && 0 < pi < |pattern| && ti < |text|
    requires pattern[pi] != text[ti]
    ensures table[pi - 1] < pi
    ensures ScanState(text, pattern, table, ti, table[pi - 1])
  {
    assert IsLongestBorder(pattern[..pi - 1 + 1], table[pi - 1]);
    FallbackSkipsNoOccurrence(text, pattern, ti, pi, table[pi - 1]);
  }

  /** Lines 58-59: a mismatch on the first pattern character moves on in the text. */
  lemma ScanAdvance(text: seq<char>, pattern: seq<char>, table: seq<int>, ti: int)
    requires ScanState(text, pattern, table, ti, 0) && 0 < |pattern| && ti < |text|
    requires pattern[0] != text[ti]
    ensures ScanState(text, pattern, table, ti + 1, 0)
  {
    assert !OccursAt(text, pattern, ti);
  }

  /** Line 60: the text is used up with fewer than `m` characters matched, so nothing occurs. */
  lemma ScanExhausted(text: seq<char>, pattern: seq<char>, table: seq<int>, pi: int)
    requires ScanState(text, pattern, table, |text|, pi) && pi < |pattern|
    ensures FirstMatch(text, pattern) == -1
  {
    FirstMatchIsUnique(text, pattern, -1);
  }

  /** `kmp_search(text, pattern)`: the lowest occurrence of `pattern` in `text`, or -1. */
  method Search(text: seq<char>, pattern: seq<char>) returns (r: int)
    ensures r == FirstMatch(text, pattern)
  {
    var n := |text|;
    var m := |pattern|;
    if m == 0 {
      EmptyPatternAtZero(text);
      return 0;
    }
    var lps := ComputeLps(pattern);
    ghost var table := lps[..];
    var textIdx := 0;
    var patternIdx := 0;
    while textIdx < n
      invariant lps[..] == table
      invariant patternIdx < m
      invariant ScanState(text, pattern, table, textIdx, patternIdx)
      decreases 2 * (n - textIdx) + patternIdx
    {
      if pattern[patternIdx] == text[textIdx] {
        ScanMatch(text, pattern, table, textIdx, patternIdx);
        textIdx := textIdx + 1;
        patternIdx := patternIdx + 1;
      }
      if patternIdx == m {
        ScanFound(text, pattern, table, textIdx);
        return textIdx - patternIdx;
      } else if textIdx < n && pattern[patternIdx] != text[textIdx] {
        if patternIdx != 0 {
          ScanFallback(text, pattern, table, textIdx, patternIdx);
          patternIdx := lps[patternIdx - 1];
        } else {
          ScanAdvance(text, pattern, table, textIdx);
          textIdx := textIdx + 1;
        }
      }
    }
    ScanExhausted(text, pattern, table, patternIdx);
    r := -1;
  }
}
