/**
 * `binary_search_upper_bound` of task_2.py: a closed-interval binary search
 * that counts its passes and returns the smallest element that is not less
 * than the target. Elements are compared only with `<`, so they are modelled
 * as reals.
 */
module UpperBound {
  import opened Wrappers

  ghost predicate Sorted(a: seq<real>) {
    forall i, j :: 0 <= i < j < |a| ==> a[i] <= a[j]
  }

  /** Reference answer: the first element that is not less than `target`, if any. */
  function LeastAtLeast(a: seq<real>, target: real): Option<real> {
    if |a| == 0 then None
    else if !(a[0] < target) then Some(a[0])
    else LeastAtLeast(a[1..], target)
  }

  /** The number of binary digits of `n`, that is floor(log2 n) + 1 for n >= 1. */
  function Bits(n: nat): nat {
    if n == 0 then 0 else 1 + Bits(n / 2)
  }

  function Pow2(e: nat): nat {
    if e == 0 then 1 else 2 * Pow2(e - 1)
  }

  /** How many passes the loop makes on the closed interval `[lo, hi]`. */
  ghost function Passes(a: seq<real>, target: real, lo: int, hi: int): nat
    requires 0 <= lo && hi < |a|
    decreases hi - lo + 1
  {
    if lo > hi then 0
    else
      var mid := (lo + hi) / 2;
      if a[mid] < target then 1 + Passes(a, target, mid + 1, hi)
      else 1 + Passes(a, target, lo, mid - 1)
  }

  /** `n < 2^Bits(n)`: `Bits(n)` binary digits suffice for `n`. */
  lemma {:induction false} BitsAbove(n: nat)
    ensures n < Pow2(Bits(n))
  {
    if n > 0 {
      var h := n / 2;
      BitsAbove(h);
      var p := Pow2(Bits(h));
      assert Pow2(Bits(n)) == 2 * p;
      assert n <= 2 * h + 1;
    }
  }

  /** `2^(Bits(n)-1) <= n` for `n >= 1`: fewer digits do not suffice. */
  lemma {:induction false} BitsBelow(n: nat)
    requires n >= 1
    ensures Pow2(Bits(n) - 1) <= n
  {
    if n >= 2 {
      var h := n / 2;
      BitsBelow(h);
      var e := Bits(h);
      assert Bits(n) - 1 == e;
      assert Pow2(Bits(n) - 1) == Pow2(e) == 2 * Pow2(e - 1);
      assert 2 * h <= n;
    } else {
      assert Bits(n) == 1;
    }
  }

  lemma {:induction false} BitsMonotone(x: nat, y: nat)
    requires x <= y
    ensures Bits(x) <= Bits(y)
  {
    if x > 0 {
      BitsMonotone(x / 2, y / 2);
    }
  }

  /** Either half left after a pass at `mid` has at most half of the `hi - lo + 1` places. */
  lemma HalvesShrink(lo: int, hi: int, mid: int)
    requires lo <= hi && mid == (lo + hi) / 2
    ensures Bits(hi - (mid + 1) + 1) + 1 <= Bits(hi - lo + 1)
    ensures Bits(mid - 1 - lo + 1) + 1 <= Bits(hi - lo + 1)
  {
    var size := hi - lo + 1;
    var right := hi - (mid + 1) + 1;
    var left := mid - 1 - lo + 1;
    assert right <= size / 2 && left <= size / 2;
    assert Bits(size) == 1 + Bits(size / 2);
    BitsMonotone(right, size / 2);
    BitsMonotone(left, size / 2);
  }

  /** A pass at `mid` counts one and continues on one of the two halves. */
  lemma PassesSplit(a: seq<real>, target: real, lo: int, hi: int, mid: int)
    requires 0 <= lo <= hi < |a| && mid == (lo + hi) / 2
    ensures Passes(a, target, lo, hi) == 1 + Passes(a, target, mid + 1, hi)
         || Passes(a, target, lo, hi) == 1 + Passes(a, target, lo, mid - 1)
  {
  }

  /** The interval at least halves each pass, so `[lo, hi]` takes at most `Bits(hi - lo + 1)` passes. */
  lemma {:induction false} PassesBound(a: seq<real>, target: real, lo: int, hi: int)
    requires 0 <= lo <= hi + 1 && hi < |a|
    ensures Passes(a, target, lo, hi) <= Bits(hi - lo + 1)
    decreases hi - lo + 1
  {
    if lo <= hi {
      var mid := (lo + hi) / 2;
      HalvesShrink(lo, hi, mid);
      // Both halves are bounded, so whichever one the pass keeps.
      PassesBound(a, target, mid + 1, hi);
      PassesBound(a, target, lo, mid - 1);
      PassesSplit(a, target, lo, hi, mid);
    }
  }

  /** When every element before `k` is below `target` and `a[k]` is not, `a[k]` is the answer. */
  lemma {:induction false} LeastAtLeastAt(a: seq<real>, target: real, k: int)
    requires 0 <= k <= |a|
    requires forall i :: 0 <= i < k ==> a[i] < target
    requires k < |a| ==> !(a[k] < target)
    ensures LeastAtLeast(a, target) == if k < |a| then Some(a[k]) else None
  {
    if |a| > 0 && k > 0 {
      LeastAtLeastAt(a[1..], target, k - 1);
    }
  }

  /**
   * On a sorted sequence the reference answer is the smallest element that is
   * at least `target`, and `None` exactly when every element is below it.
   */
  lemma {:induction false} LeastAtLeastIsMinimal(a: seq<real>, target: real)
    requires Sorted(a)
    ensures LeastAtLeast(a, target).None? <==> forall i :: 0 <= i < |a| ==> a[i] < target
    ensures LeastAtLeast(a, target).Some? ==>
      var v := LeastAtLeast(a, target).value;
      target <= v && v in a && forall i :: 0 <= i < |a| && target <= a[i] ==> v <= a[i]
  {
    if |a| > 0 && a[0] < target {
      LeastAtLeastIsMinimal(a[1..], target);
      assert forall i :: 1 <= i < |a| ==> a[i] == a[1..][i - 1];
    }
  }

  /** An element equal to the target is what the search reports. */
  lemma TargetPresentIsFound(a: seq<real>, target: real)
    requires Sorted(a) && target in a
    ensures LeastAtLeast(a, target) == Some(target)
  {
    LeastAtLeastIsMinimal(a, target);
    var i :| 0 <= i < |a| && a[i] == target;
  }

  /**
   * The boundary the loop ends on: on a sorted sequence, if the element before
   * index `k` is below `target` and the element at `k` is not, the answer is
   * the element at `k` (or `None` when `k` is the length).
   */
  lemma BoundaryIsLeast(a: seq<real>, target: real, k: int)
    requires Sorted(a) && 0 <= k <= |a|
    requires k > 0 ==> a[k - 1] < target
    requires k < |a| ==> !(a[k] < target)
    ensures LeastAtLeast(a, target) == if k < |a| then Some(a[k]) else None
  {
    assert forall i :: 0 <= i < k ==> a[i] <= a[k - 1];
    LeastAtLeastAt(a, target, k);
  }

  /**
   * What holds before every pass of the loop: `[left, right]` is what is left
   * to search, the element just left of it is below `target`, the element
   * just right of it is not and is the current `upper_bound`, and `iterations`
   * passes plus those still to come make up the total. That everything left
   * of `left` is below `target` holds only on sorted input (`BoundaryIsLeast`).
   */
  ghost predicate Pass(a: seq<real>, target: real, iterations: int, left: int, right: int, upperBound: Option<real>) {
    && 0 <= left <= right + 1 <= |a|
    && upperBound == (if right + 1 < |a| then Some(a[right + 1]) else None)
    && (left > 0 ==> a[left - 1] < target)
    && (right + 1 < |a| ==> !(a[right + 1] < target))
    && iterations + Passes(a, target, left, right) == Passes(a, target, 0, |a| - 1)
  }

  /** One pass of the loop keeps `Pass`. */
  lemma PassStep(a: seq<real>, target: real, iterations: int, left: int, right: int, upperBound: Option<real>)
    requires Pass(a, target, iterations, left, right, upperBound) && left <= right
    ensures var mid := (left + right) / 2;
      if a[mid] < target then Pass(a, target, iterations + 1, mid + 1, right, upperBound)
      else Pass(a, target, iterations + 1, left, mid - 1, Some(a[mid]))
  {
  }

  /** When the interval is empty, `Pass` gives the results the method promises. */
  lemma PassDone(a: seq<real>, target: real, iterations: int, left: int, right: int, upperBound: Option<real>)
    requires Pass(a, target, iterations, left, right, upperBound) && left > right
    ensures iterations == Passes(a, target, 0, |a| - 1)
    ensures iterations <= Bits(|a|)
    ensures |a| == 0 ==> iterations == 0 && upperBound == None
    ensures Sorted(a) ==> upperBound == LeastAtLeast(a, target)
  {
    PassesBound(a, target, 0, |a| - 1);
    if Sorted(a) {
      BoundaryIsLeast(a, target, left);
    }
  }

  /**
   * `binary_search_upper_bound(array, target)`: the pass count and, on a
   * sorted sequence, the smallest element not less than `target`.
   */
  method Search(a: seq<real>, target: real) returns (iterations: nat, upperBound: Option<real>)
    ensures iterations == Passes(a, target, 0, |a| - 1)
    ensures iterations <= Bits(|a|)
    ensures |a| == 0 ==> iterations == 0 && upperBound == None
    ensures Sorted(a) ==> upperBound == LeastAtLeast(a, target)
  {
    var left := 0;
    var right := |a| - 1;
    iterations := 0;
    upperBound := None;
    while left <= right
      invariant Pass(a, target, iterations, left, right, upperBound)
      decreases right - left
    {
      PassStep(a, target, iterations, left, right, upperBound);
      iterations := iterations + 1;
      var mid := (left + right) / 2;
      if a[mid] < target {
        left := mid + 1;
      } else {
        upperBound := Some(a[mid]);
        right := mid - 1;
      }
    }
    PassDone(a, target, iterations, left, right, upperBound);
  }

  /** The module-level example: `[1.1, 2.5, 3.3, 4.4, 5.5, 6.6]` with target 3.0 gives `(3, 3.3)`. */
  method Example() returns (iterations: nat, upperBound: Option<real>)
    ensures iterations == 3 && upperBound == Some(3.3)
  {
    // Written as two halves: the solver handles the concatenation more cheaply than one literal.
    var a := [1.1, 2.5, 3.3] + [4.4, 5.5, 6.6];
    assert Passes(a, 3.0, 2, 1) == 0;
    assert Passes(a, 3.0, 1, 1) == 1;
    assert Passes(a, 3.0, 0, 1) == 2;
    assert Passes(a, 3.0, 0, 5) == 3;
    LeastAtLeastAt(a, 3.0, 2);
    assert Sorted(a) by {
      forall i, j | 0 <= i < j < |a|
        ensures a[i] <= a[j]
      {
      }
    }
    iterations, upperBound := Search(a, 3.0);
  }
}
