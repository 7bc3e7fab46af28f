/**
 * `rabin_karp` of task_3.py: a rolling polynomial hash with base 256 and
 * modulus 101. Every window whose hash equals the pattern's is confirmed by
 * comparing the slice itself, so a collision never reports a false match.
 */
module RabinKarp {
  import opened Wrappers
  import opened Occurrence

  /** `d` and `q` of the source. */
  const Base: int := 256
  const Modulus: int := 101

  /** The exception a call can raise. */
  datatype SearchError = IndexOutOfRange

  /** Python's `pow(b, e)` on non-negative integers. */
  function Pow(b: int, e: nat): int {
    if e == 0 then 1 else b * Pow(b, e - 1)
  }

  /** The base-256 value of `s`, most significant character first, by code point. */
  ghost function Poly(s: seq<char>): int {
    if |s| == 0 then 0 else Base * Poly(s[..|s| - 1]) + s[|s| - 1] as int
  }

  /** The hash of a window: its polynomial value reduced modulo 101. */
  ghost function Hash(s: seq<char>): (h: int)
    ensures 0 <= h < Modulus
  {
    Poly(s) % Modulus
  }

  /** Adding a multiple of the modulus leaves the residue unchanged. */
  lemma ModAddMultiple(y: int, k: int)
    ensures (y + Modulus * k) % Modulus == y % Modulus
  {
  }

  /** Congruent values differ by a multiple of the modulus. */
  lemma CongruentDiffer(a: int, A: int) returns (k: int)
    requires a % Modulus == A % Modulus
    ensures a == A + Modulus * k
  {
    k := a / Modulus - A / Modulus;
  }

  /** Multiplying congruent values by the same factor keeps them congruent. */
  lemma MulCongruent(x: int, b: int, B: int)
    requires b % Modulus == B % Modulus
    ensures (x * b) % Modulus == (x * B) % Modulus
  {
    var k := CongruentDiffer(b, B);
    var xk := x * k;
    assert x * b == x * B + Modulus * xk by {
      assert x * (B + Modulus * k) == x * B + x * (Modulus * k);
    }
    ModAddMultiple(x * B, xk);
  }

  /** Congruent operands give congruent results in `256 * (a - u) + y`. */
  lemma CongruentCombination(a: int, A: int, u: int, U: int, y: int)
    requires a % Modulus == A % Modulus && u % Modulus == U % Modulus
    ensures (Base * (a - u) + y) % Modulus == (Base * (A - U) + y) % Modulus
  {
    var ka := CongruentDiffer(a, A);
    var ku := CongruentDiffer(u, U);
    var k := Base * (ka - ku);
    assert Base * (a - u) + y == Base * (A - U) + y + Modulus * k;
    ModAddMultiple(Base * (A - U) + y, k);
  }

  /** One step of the init loop: `(d * hash + ord(c)) % q` is the hash of the longer prefix. */
  lemma HashAppend(s: seq<char>, c: char)
    ensures Hash(s + [c]) == (Base * Hash(s) + c as int) % Modulus
  {
    var t := s + [c];
    assert t[..|t| - 1] == s;
    CongruentCombination(Hash(s), Poly(s), 0, 0, c as int);
  }

  /** `x * 256^e`, built by multiplying by the base `e` times. */
  function Weight(x: int, e: nat): int {
    if e == 0 then x else Base * Weight(x, e - 1)
  }

  /** The weight is the product `x * pow(256, e)`. */
  lemma {:induction false} WeightIsProduct(x: int, e: nat)
    ensures Weight(x, e) == x * Pow(Base, e)
  {
    if e > 0 {
      WeightIsProduct(x, e - 1);
      assert x * (Base * Pow(Base, e - 1)) == Base * (x * Pow(Base, e - 1));
    }
  }

  /** Removing the leading character: `Poly([c] + r) == ord(c) * 256^|r| + Poly(r)`. */
  lemma {:induction false} PolyCons(c: char, r: seq<char>)
    ensures Poly([c] + r) == Weight(c as int, |r|) + Poly(r)
    decreases |r|
  {
    var s := [c] + r;
    if |r| > 0 {
      var r' := r[..|r| - 1];
      assert s[..|s| - 1] == [c] + r';
      PolyCons(c, r');
      assert Poly(s) == Base * (Weight(c as int, |r'|) + Poly(r')) + r[|r| - 1] as int;
    } else {
      assert s[..|s| - 1] == [];
    }
  }

  /** Sliding the window one place right, before reduction modulo 101. */
  lemma PolyRoll(w: seq<char>, c: char)
    requires |w| > 0
    ensures Poly(w[1..] + [c]) == Base * (Poly(w) - Weight(w[0] as int, |w| - 1)) + c as int
  {
    var rest := w[1..];
    assert [w[0]] + rest == w;
    PolyCons(w[0], rest);
    var next := rest + [c];
    assert next[..|next| - 1] == rest;
  }

  /** The hash is congruent to the polynomial value it reduces. */
  lemma HashCongruent(s: seq<char>)
    ensures Hash(s) % Modulus == Poly(s) % Modulus
  {
  }

  /** The residue arithmetic of one roll, on plain integers. */
  lemma RollResidue(next: int, poly: int, hash: int, weight: int, lead: int, c: int)
    requires next == Base * (poly - weight) + c
    requires hash % Modulus == poly % Modulus
    requires lead % Modulus == weight % Modulus
    ensures next % Modulus == (Base * (hash - lead) + c) % Modulus
  {
    CongruentCombination(hash, poly, lead, weight, c);
  }

  /** `x * h`, with `h` the reduced `pow(256, e)`, is congruent to the weight `x * 256^e`. */
  lemma WeightResidue(x: int, e: nat, h: int)
    requires h == Pow(Base, e) % Modulus
    ensures (x * h) % Modulus == Weight(x, e) % Modulus
  {
    WeightIsProduct(x, e);
    MulCongruent(x, h, Pow(Base, e));
  }

  /**
   * The roll at lines 83-84 turns the hash of the window `w` into the hash of
   * the window one to the right, `w[1..] + [c]`, when `h` is `256^(|w|-1) % 101`.
   */
  lemma HashRoll(w: seq<char>, c: char, h: int)
    requires |w| > 0
    requires h == Pow(Base, |w| - 1) % Modulus
    ensures Hash(w[1..] + [c]) == (Base * (Hash(w) - w[0] as int * h) + c as int) % Modulus
  {
    PolyRoll(w, c);
    HashCongruent(w);
    WeightResidue(w[0] as int, |w| - 1, h);
    RollResidue(Poly(w[1..] + [c]), Poly(w), Hash(w), Weight(w[0] as int, |w| - 1), w[0] as int * h, c as int);
  }

  /** One pass of the init loop on either string: the hash of the prefix one character longer. */
  lemma HashPrefixStep(s: seq<char>, i: int)
    requires 0 <= i < |s|
    ensures Hash(s[..i + 1]) == (Base * Hash(s[..i]) + s[i] as int) % Modulus
  {
    assert s[..i + 1] == s[..i] + [s[i]];
    HashAppend(s[..i], s[i]);
  }

  /**
   * What holds before the pass at window start `s` of the sliding loop: the
   * pattern is no longer than the text, `h` is `256^(m-1) % 101`, the window
   * hash is that of `text[s..s+m]` while such a window exists, and nothing
   * occurs before `s`.
   */
  ghost predicate SlideState(text: seq<char>, pattern: seq<char>, h: int, patternHash: int, windowHash: int, s: int) {
    0 < |pattern| <= |text| && 0 <= s <= |text| - |pattern| + 1
    && h == Pow(Base, |pattern| - 1) % Modulus
    && patternHash == Hash(pattern)
    && (s <= |text| - |pattern| ==> windowHash == Hash(text[s..s + |pattern|]))
    && forall j :: 0 <= j < s ==> !OccursAt(text, pattern, j)
  }

  /** After the init loop the first window is `text[..m]`. */
  lemma SlideStart(text: seq<char>, pattern: seq<char>, h: int, patternHash: int, windowHash: int)
    requires 0 < |pattern| <= |text| && h == Pow(Base, |pattern| - 1) % Modulus
    requires patternHash == Hash(pattern[..|pattern|]) && windowHash == Hash(text[..|pattern|])
    ensures SlideState(text, pattern, h, patternHash, windowHash, 0)
  {
    assert pattern[..|pattern|] == pattern;
    assert text[..|pattern|] == text[0..0 + |pattern|];
  }

  /** Lines 79-81: a window whose slice equals the pattern is the first occurrence. */
  lemma SlideHit(text: seq<char>, pattern: seq<char>, h: int, patternHash: int, windowHash: int, s: int)
    requires SlideState(text, pattern, h, patternHash, windowHash, s) && s <= |text| - |pattern|
    requires text[s..s + |pattern|] == pattern
    ensures s == FirstMatch(text, pattern)
  {
    FirstMatchIsUnique(text, pattern, s);
  }

  /**
   * A window that is not reported is not an occurrence: either its hash
   * differs, and equal strings have equal hashes, or its slice differs.
   */
  lemma SlideMiss(text: seq<char>, pattern: seq<char>, h: int, patternHash: int, windowHash: int, s: int)
    requires SlideState(text, pattern, h, patternHash, windowHash, s) && s <= |text| - |pattern|
    requires !(patternHash == windowHash && text[s..s + |pattern|] == pattern)
    ensures forall j :: 0 <= j <= s ==> !OccursAt(text, pattern, j)
  {
  }

  /** Lines 82-86: the roll gives the hash of the next window. */
  lemma SlideRoll(text: seq<char>, pattern: seq<char>, h: int, patternHash: int, windowHash: int, s: int)
    requires SlideState(text, pattern, h, patternHash, windowHash, s) && s < |text| - |pattern|
    requires forall j :: 0 <= j <= s ==> !OccursAt(text, pattern, j)
    ensures SlideState(text, pattern, h, patternHash,
      (Base * (windowHash - text[s] as int * h) + text[s + |pattern|] as int) % Modulus, s + 1)
  {
    var m := |pattern|;
    var window := text[s..s + m];
    assert text[s + 1..s + 1 + m] == window[1..] + [text[s + m]];
    HashRoll(window, text[s + m], h);
  }

  /** The last window was not an occurrence, so the loop ends with none found. */
  lemma SlideLast(text: seq<char>, pattern: seq<char>, h: int, patternHash: int, windowHash: int, s: int)
    requires SlideState(text, pattern, h, patternHash, windowHash, s) && s == |text| - |pattern|
    requires forall j :: 0 <= j <= s ==> !OccursAt(text, pattern, j)
    ensures SlideState(text, pattern, h, patternHash, windowHash, s + 1)
  {
  }

  /** Line 87: every window was checked, so the pattern occurs nowhere. */
  lemma SlideEnd(text: seq<char>, pattern: seq<char>, h: int, patternHash: int, windowHash: int)
    requires SlideState(text, pattern, h, patternHash, windowHash, |text| - |pattern| + 1)
    ensures FirstMatch(text, pattern) == -1
  {
    FirstMatchIsUnique(text, pattern, -1);
  }

  /**
   * `rabin_karp(text, pattern)` as written: a non-empty pattern longer than the
   * text makes the init loop index past the end of the text (`IndexError`).
   * Otherwise the result is the lowest occurrence, or -1.
   */
  method Search(text: seq<char>, pattern: seq<char>) returns (r: Result<int, SearchError>)
    ensures r.Failure? <==> 0 < |pattern| && |text| < |pattern|
    ensures r.Failure? ==> r.error == IndexOutOfRange
    ensures r.Success? ==> r.value == FirstMatch(text, pattern)
  {
    var n := |text|;
    var m := |pattern|;
    if m == 0 {
      EmptyPatternAtZero(text);
      return Success(0);
    }
    var h := Pow(Base, m - 1) % Modulus;
    var patternHash := 0;
    var windowHash := 0;
    for i := 0 to m
      invariant i <= n
      invariant patternHash == Hash(pattern[..i])
      invariant windowHash == Hash(text[..i])
    {
      HashPrefixStep(pattern, i);
      patternHash := (Base * patternHash + pattern[i] as int) % Modulus;
      if i >= n {
        return Failure(IndexOutOfRange);
      }
      HashPrefixStep(text, i);
      windowHash := (Base * windowHash + text[i] as int) % Modulus;
    }
    SlideStart(text, pattern, h, patternHash, windowHash);
    for s := 0 to n - m + 1
      invariant SlideState(text, pattern, h, patternHash, windowHash, s)
    {
      if patternHash == windowHash {
        if text[s..s + m] == pattern {
          SlideHit(text, pattern, h, patternHash, windowHash, s);
          return Success(s);
        }
      }
      SlideMiss(text, pattern, h, patternHash, windowHash, s);
      if s < n - m {
        SlideRoll(text, pattern, h, patternHash, windowHash, s);
        windowHash := (Base * (windowHash - text[s] as int * h) + text[s + m] as int) % Modulus;
        // Python's `%` with a positive modulus is never negative, so the correction never fires.
        assert 0 <= windowHash;
        if windowHash < 0 {
          windowHash := windowHash + Modulus;
        }
      } else {
        SlideLast(text, pattern, h, patternHash, windowHash, s);
      }
    }
    SlideEnd(text, pattern, h, patternHash, windowHash);
    r := Success(-1);
  }

  /** The intended behaviour: a pattern longer than the text is not found. */
  method SearchGuarded(text: seq<char>, pattern: seq<char>) returns (r: int)
    ensures r == FirstMatch(text, pattern)
  {
    if |pattern| > |text| {
      LongPatternNotFound(text, pattern);
      return -1;
    }
    var outcome := Search(text, pattern);
    r := outcome.value;
  }
}
