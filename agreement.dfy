/**
 * The three matchers of task_3.py side by side: they answer the same
 * question, so on every text and pattern they return the same index (the
 * Rabin-Karp routine as written only when it does not raise).
 */
module Agreement {
  import opened Wrappers
  import opened Occurrence
  import BoyerMoore
  import Kmp
  import RabinKarp

  /** Cross-algorithm agreement: all matchers return the lowest occurrence. */
  method SearchAll(text: seq<char>, pattern: seq<char>)
    returns (bm: int, kmp: int, rk: Result<int, RabinKarp.SearchError>, rkGuarded: int)
    ensures bm == kmp == rkGuarded == FirstMatch(text, pattern)
    ensures |pattern| <= |text| || |pattern| == 0 ==> rk == Success(bm)
    ensures 0 < |pattern| && |text| < |pattern| ==> rk == Failure(RabinKarp.IndexOutOfRange)
  {
    bm := BoyerMoore.Search(text, pattern);
    kmp := Kmp.Search(text, pattern);
    rk := RabinKarp.Search(text, pattern);
    rkGuarded := RabinKarp.SearchGuarded(text, pattern);
  }

  /** Concrete cases: a match after a false start, overlapping matches, the empty pattern, a long pattern. */
  lemma FirstMatchScenarios()
    ensures FirstMatch("ABAAABCD", "ABC") == 4
    ensures FirstMatch("aaaaaa", "aa") == 0
    ensures FirstMatch("hello", "") == 0
    ensures FirstMatch("short", "muchlongerpattern") == -1
  {
    var t := "ABAAABCD";
    assert t[0..3][2] != 'C' && t[1..4][0] != 'A' && t[2..5][1] != 'B' && t[3..6][1] != 'B';
    assert t[4..7] == "ABC";
    FirstMatchIsUnique(t, "ABC", 4);
    FirstMatchIsUnique("aaaaaa", "aa", 0);
    EmptyPatternAtZero("hello");
    LongPatternNotFound("short", "muchlongerpattern");
  }

  /** The long-pattern case on the Rabin-Karp routine as written: it raises instead of returning -1. */
  method LongPatternRaises() returns (rk: Result<int, RabinKarp.SearchError>, rkGuarded: int)
    ensures rk == Failure(RabinKarp.IndexOutOfRange)
    ensures rkGuarded == -1
  {
    FirstMatchScenarios();
    rk := RabinKarp.Search("short", "muchlongerpattern");
    rkGuarded := RabinKarp.SearchGuarded("short", "muchlongerpattern");
  }
}
