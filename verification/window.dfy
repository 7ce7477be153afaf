/**
 * The sliding-window scan over one address's sorted failure times.
 *
 * For a candidate start index `i` the window is the closed interval
 * [ts[i], ts[i] + w]. The scan counts the contiguous run of timestamps from
 * `i` onwards that are at most `ts[i] + w`, stopping at the first one beyond
 * it, and reports the first start index whose count reaches the threshold.
 */
module Window {
  import opened Basics
  import opened Sorting

  /**
   * The length of the run of timestamps starting at index `i` that are all at
   * most `limit`: every counted one is within the limit, and the one after
   * the run, if any, is beyond it.
   */
  function RunLength(ts: seq<int>, i: nat, limit: int): (n: nat)
    requires i <= |ts|
    ensures i + n <= |ts|
    ensures forall j :: i <= j < i + n ==> ts[j] <= limit
    ensures i + n < |ts| ==> ts[i + n] > limit
    decreases |ts| - i
  {
    if i == |ts| || ts[i] > limit then 0
    else 1 + RunLength(ts, i + 1, limit)
  }

  /**
   * The run is determined by its characterization: a count `m` whose
   * elements are all within the limit and which stops before the first one
   * beyond it is the run length.
   */
  lemma {:induction false} RunLengthExact(ts: seq<int>, i: nat, limit: int, m: nat)
    requires i + m <= |ts|
    requires forall j :: i <= j < i + m ==> ts[j] <= limit
    requires i + m < |ts| ==> ts[i + m] > limit
    ensures RunLength(ts, i, limit) == m
    decreases m
  {
    if m > 0 {
      RunLengthExact(ts, i + 1, limit, m - 1);
    }
  }

  /** The number of timestamps counted for the window that starts at index `i`. */
  function WindowCount(ts: seq<int>, i: nat, w: int): nat
    requires i < |ts|
  {
    RunLength(ts, i, ts[i] + w)
  }

  /** The window starting at index `i` holds at least `threshold` timestamps. */
  predicate QualifiesAt(ts: seq<int>, i: nat, threshold: int, w: int)
    requires i < |ts|
  {
    WindowCount(ts, i, w) >= threshold
  }

  /** Some start index qualifies. */
  predicate AnyQualifies(ts: seq<int>, threshold: int, w: int) {
    exists i: nat :: i < |ts| && QualifiesAt(ts, i, threshold, w)
  }

  /** `i` is the first qualifying start index. */
  predicate IsEarliest(ts: seq<int>, i: nat, threshold: int, w: int) {
    && i < |ts|
    && QualifiesAt(ts, i, threshold, w)
    && forall k: nat :: k < i ==> !QualifiesAt(ts, k, threshold, w)
  }

  /**
   * The first qualifying start index at or after `from`, if there is one.
   */
  function FirstQualifyingFrom(ts: seq<int>, from: nat, threshold: int, w: int): (r: Option<nat>)
    requires from <= |ts|
    ensures r.Some? ==> from <= r.value < |ts| && QualifiesAt(ts, r.value, threshold, w)
    ensures r.Some? ==> forall k: nat :: from <= k < r.value ==> !QualifiesAt(ts, k, threshold, w)
    ensures r.None? ==> forall k: nat :: from <= k < |ts| ==> !QualifiesAt(ts, k, threshold, w)
    decreases |ts| - from
  {
    if from == |ts| then None
    else if QualifiesAt(ts, from, threshold, w) then Some(from)
    else FirstQualifyingFrom(ts, from + 1, threshold, w)
  }

  /** The first qualifying start index of the whole list. */
  function FirstQualifying(ts: seq<int>, threshold: int, w: int): (r: Option<nat>)
    ensures r.Some? <==> AnyQualifies(ts, threshold, w)
    ensures r.Some? ==> IsEarliest(ts, r.value, threshold, w)
  {
    FirstQualifyingFrom(ts, 0, threshold, w)
  }

  /** There is at most one earliest qualifying index. */
  lemma EarliestUnique(ts: seq<int>, i: nat, j: nat, threshold: int, w: int)
    requires IsEarliest(ts, i, threshold, w) && IsEarliest(ts, j, threshold, w)
    ensures i == j
  {
  }

  /**
   * With a non-negative window the start element always counts itself, so
   * the last counted element `ts[i + count - 1]` exists.
   */
  lemma StartCountsItself(ts: seq<int>, i: nat, w: int)
    requires i < |ts| && w >= 0
    ensures WindowCount(ts, i, w) >= 1
  {
  }

  /** A run never extends past the end of the list. */
  lemma WindowCountBound(ts: seq<int>, i: nat, w: int)
    requires i < |ts|
    ensures WindowCount(ts, i, w) <= |ts| - i
  {
  }

  /**
   * A list shorter than the threshold has no qualifying window, so skipping
   * such an address before scanning does not change the outcome.
   */
  lemma ShortListNeverQualifies(ts: seq<int>, threshold: int, w: int)
    requires |ts| < threshold
    ensures !AnyQualifies(ts, threshold, w)
  {
    forall i: nat | i < |ts|
      ensures !QualifiesAt(ts, i, threshold, w)
    {
      WindowCountBound(ts, i, w);
    }
  }

  /**
   * In a sorted list the counted run of the window at `i` spans at most `w`
   * seconds: the last counted element is within `w` of the first.
   */
  lemma WindowSpan(ts: seq<int>, i: nat, w: int)
    requires Sorted(ts) && i < |ts|
    requires WindowCount(ts, i, w) >= 1
    ensures ts[i] <= ts[i + WindowCount(ts, i, w) - 1] <= ts[i] + w
  {
  }

  /**
   * The nested loops of the source: for each start index in turn, count the
   * run of timestamps within the window, and stop at the first start index
   * whose count reaches the threshold.
   */
  method ScanWindows(ts: seq<int>, threshold: int, w: int) returns (found: bool, start: nat, count: nat)
    ensures found <==> AnyQualifies(ts, threshold, w)
    ensures found ==> IsEarliest(ts, start, threshold, w)
    ensures found ==> count == WindowCount(ts, start, w) && count >= threshold
    ensures found ==> FirstQualifying(ts, threshold, w) == Some(start)
  {
    var i: nat := 0;
    while i < |ts|
      invariant i <= |ts|
      invariant forall k: nat :: k < i ==> !QualifiesAt(ts, k, threshold, w)
    {
      var windowEnd := ts[i] + w;
      var c: nat := 0;
      while i + c < |ts| && ts[i + c] <= windowEnd
        invariant i + c <= |ts|
        invariant RunLength(ts, i, windowEnd) == c + RunLength(ts, i + c, windowEnd)
      {
        c := c + 1;
      }
      if c >= threshold {
        assert QualifiesAt(ts, i, threshold, w);
        EarliestUnique(ts, i, FirstQualifying(ts, threshold, w).value, threshold, w);
        return true, i, c;
      }
      i := i + 1;
    }
    return false, 0, 0;
  }
}
