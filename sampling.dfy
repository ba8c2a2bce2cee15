/**
 * Python's integer conversion, floor division and remainder, and the
 * "every Nth frame" selection
 * shared by the frame loops of background_subtraction.py and
 * benthic_activity_detection_v5.py: a frame is kept when its index modulo
 * the rate is 0.
 */
module Sampling {

  /**
   * The message of Python's ZeroDivisionError for //, and for % in older
   * CPython releases; newer releases say "integer modulo by zero" for %.
   * The model uses this one message for both operators.
   */
  const ZeroDivision := "integer division or modulo by zero"

  /** The message of Python's ZeroDivisionError for / with a float dividend. */
  const FloatDivision := "float division by zero"

  /** Python's int() on a float. */
  function Trunc(x: real): int
  {
    if x >= 0.0 then x.Floor else -((-x).Floor)
  }

  /** int() truncates toward zero: it rounds down from above zero and up from below. */
  lemma TruncTowardZero(x: real)
    ensures x >= 0.0 ==> Trunc(x) as real <= x < Trunc(x) as real + 1.0
    ensures x < 0.0 ==> Trunc(x) as real - 1.0 < x <= Trunc(x) as real
    ensures Trunc(-x) == -Trunc(x)
  {
  }

  /** Python's a // b, which rounds toward minus infinity. */
  function FloorDiv(a: int, b: int): (q: int)
    requires b != 0
    ensures b > 0 ==> b * q <= a < b * q + b
    ensures b < 0 ==> b * q + b < a <= b * q
  {
    if b > 0 then a / b else (-a) / (-b)
  }

  /** Python's a % b, which takes the sign of b. */
  function FloorMod(a: int, b: int): (m: int)
    requires b != 0
    ensures a == b * FloorDiv(a, b) + m
    ensures b > 0 ==> 0 <= m < b
    ensures b < 0 ==> b < m <= 0
  {
    a - b * FloorDiv(a, b)
  }

  /** For a positive divisor, Python's // and % agree with Dafny's. */
  lemma FloorDivPositive(a: int, b: int)
    requires b > 0
    ensures FloorDiv(a, b) == a / b && FloorMod(a, b) == a % b
  {
  }

  // ---------------------------------------------------------------------
  // Every Nth frame
  // ---------------------------------------------------------------------

  /** The raw frame indices below n that a rate selects, in read order. */
  function SampleIdx(n: nat, rate: int): (r: seq<nat>)
    requires rate != 0
    ensures forall k :: 0 <= k < |r| ==> r[k] < n
  {
    if n == 0 then []
    else SampleIdx(n - 1, rate) + (if FloorMod(n - 1, rate) == 0 then [n - 1] else [])
  }

  /** The selected indices are increasing, and are exactly the indices whose remainder is 0. */
  lemma {:induction false} SampleIdxSpec(n: nat, rate: int)
    requires rate != 0
    ensures forall i, j :: 0 <= i < j < |SampleIdx(n, rate)| ==> SampleIdx(n, rate)[i] < SampleIdx(n, rate)[j]
    ensures forall k :: 0 <= k < |SampleIdx(n, rate)| ==> FloorMod(SampleIdx(n, rate)[k], rate) == 0
    ensures forall i :: 0 <= i < n && FloorMod(i, rate) == 0 ==> i in SampleIdx(n, rate)
  {
    if n > 0 {
      SampleIdxSpec(n - 1, rate);
      var prev := SampleIdx(n - 1, rate);
      var r := SampleIdx(n, rate);
      forall i, j | 0 <= i < j < |r| ensures r[i] < r[j] {
        if j < |prev| {
          assert r[i] == prev[i] && r[j] == prev[j];
        } else {
          assert r[i] == prev[i] && r[j] == n - 1;
        }
      }
      forall k | 0 <= k < |r| ensures FloorMod(r[k], rate) == 0 {
        if k < |prev| {
          assert r[k] == prev[k];
        }
      }
      forall i | 0 <= i < n && FloorMod(i, rate) == 0 ensures i in r {
        if i < n - 1 {
          var k :| 0 <= k < |prev| && prev[k] == i;
          assert r[k] == i;
        } else {
          assert r[|r| - 1] == i;
        }
      }
    }
  }

  /** A shorter clip selects a prefix of the indices of a longer one. */
  lemma {:induction false} SampleIdxPrefix(m: nat, n: nat, rate: int)
    requires rate != 0 && m <= n
    ensures |SampleIdx(m, rate)| <= |SampleIdx(n, rate)|
    ensures SampleIdx(m, rate) == SampleIdx(n, rate)[..|SampleIdx(m, rate)|]
  {
    if m < n {
      SampleIdxPrefix(m, n - 1, rate);
      var prev := SampleIdx(n - 1, rate);
      assert SampleIdx(n, rate)[..|prev|] == prev;
    }
  }

  /** The frames at the given indices, in order. */
  function FramesAt<F>(video: seq<F>, idx: seq<nat>): (r: seq<F>)
    requires forall k :: 0 <= k < |idx| ==> idx[k] < |video|
    ensures |r| == |idx| && forall k :: 0 <= k < |idx| ==> r[k] == video[idx[k]]
  {
    seq(|idx|, k requires 0 <= k < |idx| => video[idx[k]])
  }
}
