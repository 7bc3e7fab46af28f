# Substring search and upper-bound binary search, modelled in Dafny

This project models the algorithmic core of a small substring-search benchmarking toolkit:

- three exact matchers from `task_3.py`, each taking a text and a pattern and returning the first match index or -1:
  - `boyer_moore`, the Horspool variant: a bad-character skip table and a right-to-left window compare;
  - `kmp_search`, Knuth-Morris-Pratt: a failure (`lps`) array, then a linear scan with fallbacks;
  - `rabin_karp`: a rolling polynomial hash with base 256 and modulus 101, where every hash hit is confirmed by comparing the slice;
- `binary_search_upper_bound` from `task_2.py`: a closed-interval binary search that returns its pass count and the smallest element not less than the target.

Every matcher is a `method` with the source's own loops and variables. Each is proved against one reference answer, `Occurrence.FirstMatch`: the lowest index `i` with `text[i..i+|pattern|] == pattern`, or -1. `Occurrence.FirstMatchIsUnique` proves that this is the only value meeting the first-occurrence law. Boyer-Moore, KMP and the corrected Rabin-Karp (`RabinKarp.SearchGuarded`) therefore agree on every input; the Rabin-Karp routine as written agrees wherever it does not raise (`Agreement.SearchAll`).

How the source's types are modelled:

- Python `str` is `seq<char>`, and `ord(c)` is `c as int`.
- The Boyer-Moore skip table (a `dict`) is a `map<char, int>` filled in a loop, where later positions overwrite earlier ones.
- The KMP `lps` list is an `array<int>` written in place.
- The binary search's `float` elements are `real`, since the code compares them only with `<`. `None` is `Wrappers.None`.
- The `IndexError` that `rabin_karp` can raise is `Failure(IndexOutOfRange)` of a `Result`.

`search("ABAAABCD", "ABC")` is 4 (0-based; characters 4 to 6 are `A`, `B`, `C`). `Agreement.FirstMatchScenarios` pins the value 4.

## Model

| member | source | states |
|---|---|---|
| `Occurrence.FirstMatchFromIsFirst` | task_3.py:14-23 | from start index k, the reference scan returns an occurring index with no occurrence between k and it, or -1 when nothing occurs at or after k |
| `Occurrence.FirstMatchIsUnique` | task_3.py:20-23 | a result satisfies the first-occurrence law (the lowest occurrence, or -1 exactly when the pattern occurs nowhere) if and only if it equals `FirstMatch`; both directions |
| `Occurrence.EmptyPatternAtZero` | task_3.py:8-9 | the empty pattern is found at 0 in every text, the empty text included |
| `Occurrence.LongPatternNotFound` | task_3.py:13-14 | a pattern longer than the text occurs nowhere, so the answer is -1 |
| `BoyerMoore.BuildSkipTable` | task_3.py:10-12 | the table's keys are exactly the characters of `pattern[..m-1]`; the entry of `c` is `m-1-k` for the last index `k < m-1` holding `c`, so it lies in `[1, m-1]` |
| `BoyerMoore.Shift` | task_3.py:22 | `skip_table.get(c, m)` lies in `[1, m]`, and is below `m` exactly when `c` occurs in `pattern[..m-1]`; so `text_idx` strictly increases |
| `BoyerMoore.ShiftSkipsNoOccurrence` | task_3.py:22 | shifting by the entry for the text character under the pattern's last position skips no occurrence |
| `BoyerMoore.WindowMismatch` | task_3.py:17 | a mismatch at pattern position `pattern_idx` while comparing right to left rules out an occurrence at the window start `text_idx - m + 1` |
| `BoyerMoore.WindowFound` | task_3.py:20-21 | a window that matches completely, with no occurrence before it, starts at `FirstMatch(text, pattern)`, which is `scan_idx + 1` |
| `BoyerMoore.Search` | task_3.py:5-23 | `boyer_moore` returns `FirstMatch(text, pattern)`: 0 for the empty pattern, the lowest occurrence otherwise, and -1 when there is none (including `m > n`, where the outer loop never runs) |
| `Kmp.BorderOfBorder` | task_3.py:41-42 | below a border of length k, the borders of a string are exactly the borders of its prefix of length k |
| `Kmp.LongestAfterAppend` | task_3.py:36-39 | if `b` is the longest border that the next character extends (or -1 when none does), then `b + 1` is the longest border of the longer prefix |
| `Kmp.FallbackKeepsCandidates` | task_3.py:40-42 | `length = lps[length-1]` strictly decreases `length`. The new length is still a border of `pattern[..i]`, and no skipped border can be extended by `pattern[i]` |
| `Kmp.LpsStart` | task_3.py:31-33 | `lps[0] = 0` with `length = 0` and `i = 1` is a valid start: one character has no proper border |
| `Kmp.LpsExtend` | task_3.py:36-39 | when `pattern[i] == pattern[length]`, storing `length + 1` at `i` makes the first `i + 1` entries final and keeps the loop's border facts |
| `Kmp.LpsFallback` | task_3.py:41-42 | on a mismatch with `length > 0`, `lps[length-1]` is a shorter border of `pattern[..i]` and no border in between can be extended |
| `Kmp.LpsReset` | task_3.py:43-45 | on a mismatch with `length == 0`, `lps[i] = 0` is the longest border of `pattern[..i+1]` |
| `Kmp.LpsDone` | task_3.py:31-45 | every entry of a complete failure array lies in `[0, i]` |
| `Kmp.ComputeLps` | task_3.py:31-45 | after preprocessing, `lps[i]` is the length of the longest proper prefix of `pattern[..i+1]` that is also its suffix, with `0 <= lps[i] <= i` |
| `Kmp.ScanMatch` | task_3.py:50-52 | a matching character extends the matched prefix by one, and every occurrence is still at or after the candidate start |
| `Kmp.ScanFound` | task_3.py:53-54 | once `pattern_idx == m`, `text_idx - pattern_idx` is `FirstMatch(text, pattern)` |
| `Kmp.ScanFallback` | task_3.py:55-57 | on a mismatch, `pattern_idx = lps[pattern_idx-1]` strictly decreases `pattern_idx` and skips no occurrence |
| `Kmp.ScanAdvance` | task_3.py:58-59 | a mismatch on the first pattern character rules out an occurrence at `text_idx` |
| `Kmp.ScanExhausted` | task_3.py:49-60 | when the text is used up with fewer than `m` characters matched, no occurrence exists and -1 is `FirstMatch` |
| `Kmp.FallbackSkipsNoOccurrence` | task_3.py:55-57 | on a mismatch, `pattern_idx = lps[pattern_idx-1]` keeps `text[text_idx-pattern_idx..text_idx] == pattern[..pattern_idx]` and skips no occurrence |
| `Kmp.Search` | task_3.py:26-60 | `kmp_search` returns `FirstMatch(text, pattern)`. The scan keeps the matched prefix and ends because `2*text_idx - pattern_idx` increases |
| `RabinKarp.Hash` | task_3.py:68-69 | a window's hash is its base-256 value modulo 101, and lies in `[0, 101)` |
| `RabinKarp.HashAppend` | task_3.py:74-76 | one step of the init loop, `(d*hash + ord(c)) % q`, gives the hash of the prefix extended by `c` |
| `RabinKarp.HashPrefixStep` | task_3.py:74-76 | the same step on a string's prefixes: from the hash of `s[..i]` to the hash of `s[..i+1]` |
| `RabinKarp.WeightIsProduct` | task_3.py:70 | multiplying `x` by 256 `e` times gives `x * pow(256, e)` |
| `RabinKarp.WeightResidue` | task_3.py:83-84 | `ord(c) * h`, with `h = pow(d, m-1) % q`, is congruent modulo 101 to the character's weight `ord(c) * 256^(m-1)` |
| `RabinKarp.RollResidue` | task_3.py:83-84 | replacing the polynomial value and the leading weight by congruent values (the hash and `ord(c) * h`) leaves the roll's residue unchanged |
| `RabinKarp.PolyCons` | task_3.py:70 | a leading character contributes `ord(c) * 256^(length of the rest)` to the polynomial value |
| `RabinKarp.PolyRoll` | task_3.py:83-84 | the unreduced roll: dropping the leading character's weighted value, multiplying by 256 and adding the new character gives the next window's polynomial value |
| `RabinKarp.HashRoll` | task_3.py:82-86 | the roll with `h = pow(d, m-1) % q` turns the hash of `text[s..s+m]` into the hash of `text[s+1..s+m+1]` |
| `RabinKarp.SlideStart` | task_3.py:70-78 | after the init loop, the hashes are those of the pattern and of the first window `text[0..m]` |
| `RabinKarp.SlideHit` | task_3.py:79-81 | a window whose slice equals the pattern, reached with no earlier occurrence, is `FirstMatch` |
| `RabinKarp.SlideMiss` | task_3.py:79-81 | a window that is not reported is not an occurrence, because equal strings have equal hashes |
| `RabinKarp.SlideRoll` | task_3.py:82-86 | the rolled value is the hash of the next window, and the loop's facts move to `s + 1` |
| `RabinKarp.SlideLast` | task_3.py:78-82 | after the last window no roll is needed, and the loop's facts hold at `s = n - m + 1` |
| `RabinKarp.SlideEnd` | task_3.py:87 | when every window has been checked, the pattern occurs nowhere and -1 is `FirstMatch` |
| `RabinKarp.Search` | task_3.py:63-87 | as written: the empty pattern gives 0; a non-empty pattern longer than the text raises `IndexError`; otherwise the result is `FirstMatch`, because a hash hit is confirmed by comparing the slice and every true occurrence has equal hashes |
| `RabinKarp.SearchGuarded` | task_3.py:63-87 | the corrected routine returns -1 for a pattern longer than the text, and `FirstMatch(text, pattern)` on every input |
| `Agreement.SearchAll` | task_3.py:5-87 | Boyer-Moore, KMP and corrected Rabin-Karp return the same index, `FirstMatch(text, pattern)`; the as-written Rabin-Karp agrees whenever it does not raise |
| `Agreement.FirstMatchScenarios` | task_3.py:5-87 | `("ABAAABCD", "ABC")` gives 4, `("aaaaaa", "aa")` gives 0, `("hello", "")` gives 0, and `("short", "muchlongerpattern")` gives -1 |
| `Agreement.LongPatternRaises` | task_3.py:74-76 | on `("short", "muchlongerpattern")` the as-written Rabin-Karp raises `IndexError`, while the corrected one returns -1 |
| `UpperBound.BitsAbove` | task_2.py:11-13 | `n < 2^Bits(n)`: `Bits(n)` binary digits suffice for `n` |
| `UpperBound.BitsBelow` | task_2.py:11-13 | `2^(Bits(n)-1) <= n` for `n >= 1`, so with `BitsAbove`, `Bits(n)` is `floor(log2 n) + 1` |
| `UpperBound.HalvesShrink` | task_2.py:13-18 | either interval left after a pass at `mid = (left+right)//2` needs at least one binary digit fewer than `right-left+1` |
| `UpperBound.PassesBound` | task_2.py:11-18 | the interval `right-left+1` at least halves each pass, so the loop makes at most `Bits(right-left+1)` passes |
| `UpperBound.LeastAtLeastAt` | task_2.py:11-20 | if every element before index k is below the target and the element at k is not, then the first element not below the target is the one at k (or there is none, when k is the length) |
| `UpperBound.LeastAtLeastIsMinimal` | task_2.py:11-20 | on a sorted sequence, the answer is the smallest element that is at least the target, and `None` exactly when every element is below it |
| `UpperBound.BoundaryIsLeast` | task_2.py:14-20 | on a sorted sequence, an index `k` with the element before it below the target and the element at it not below is where the answer sits (`None` when `k` is the length) |
| `UpperBound.TargetPresentIsFound` | task_2.py:14-18 | on a sorted sequence that contains the target, the answer is the target itself, because equality falls to the narrowing-left branch |
| `UpperBound.PassStep` | task_2.py:11-18 | one pass keeps the loop's facts: the element just left of `left` is below the target, the element just right of `right` is not below it and is `upper_bound`, and the passes made plus those still to come are the total |
| `UpperBound.PassDone` | task_2.py:11-20 | at loop exit, the count is the total number of passes and at most `Bits(len)`; on a sorted sequence, `upper_bound` is the least element not below the target |
| `UpperBound.Search` | task_2.py:4-20 | `iterations` counts the loop's passes and is at most `floor(log2 len) + 1`; an empty array gives `(0, None)`; on a sorted array the value is the smallest element not below the target |
| `UpperBound.Example` | task_2.py:24-26 | `[1.1, 2.5, 3.3, 4.4, 5.5, 6.6]` with target 3.0 gives `(3, 3.3)` |

## Left out

- `measure_time` (task_3.py:90-92): wall-clock timing via `timeit`; it has no logical content.
- `main` (task_3.py:95-166): file reading with UTF-8 decoding, markdown report writing, and `min`/`sum` over float timings. These are I/O and floating point.
- The module-level example of task_2.py (lines 23-26) prints at import time. Only its values are kept, in `UpperBound.Example`.
- Float semantics of the binary search's elements (NaN, rounding): elements are reals compared with `<`. A NaN target or element, for which `<` is always false, is not modelled.
- Unicode details of `ord`: characters are opaque code points (`char`), with no normalisation or grapheme handling.
- Python's big integers in `pow(d, m - 1)` are modelled as Dafny's unbounded `int`. No overflow exists in either.
- `UpperBound.Search`: the smallest-element postcondition is stated only for sorted input. The code also runs on unsorted lists, and there the model states only the pass count.

## Findings

| source | as written | input that shows it | evidently intended | confidence | as-written member | corrected member |
|---|---|---|---|---|---|---|
| task_3.py:74-76 | the init loop reads `text[i]` for every `i < len(pattern)`, so a non-empty pattern longer than the text raises `IndexError` | `rabin_karp("short", "muchlongerpattern")` | return -1 (not found), as `boyer_moore` and `kmp_search` do | high (proved by the verifier; not executed) | `RabinKarp.Search` (and `Agreement.LongPatternRaises`) | `RabinKarp.SearchGuarded` |
