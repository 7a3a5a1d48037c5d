/**
 * `sliding_window_approach` of DSA/slidingWindow.py, as written and as
 * evidently intended. As written, the window is shrunk with
 * `window_sum -= window_sum[i - (k - 1)]`, which subscripts an integer: the
 * first time the guard `i > k - 1` holds, Python raises TypeError.
 */
module SlidingWindow {
  import opened Outcomes
  import opened Seqs

  /** The module constant `k`, the window width. */
  const K: nat := 3

  /**
   * What the function as written does: a list of at most `K` numbers never
   * reaches the guard and gives 0; a longer one raises TypeError at index `K`.
   */
  function AsWritten(nums: seq<int>): Result<int>
  {
    if |nums| <= K then Ok(0) else Raise(TypeError)
  }

  /** `sliding_window_approach`, line by line. */
  method SlidingWindowApproach(nums: seq<int>) returns (r: Result<int>)
    ensures r == AsWritten(nums)
  {
    var windowSum := 0;
    var maxWindow := 0;
    for i := 0 to |nums|
      invariant i <= K
      invariant maxWindow == 0
    {
      windowSum := windowSum + nums[i];
      if i > K - 1 {
        maxWindow := Max(maxWindow, windowSum);
        // `window_sum[i - (k - 1)]`: an int is not subscriptable
        return Raise(TypeError);
      }
    }
    return Ok(maxWindow);
  }

  /** The module's own call on six numbers raises instead of returning a window maximum. */
  lemma ModuleCallRaises(nums: seq<int>)
    requires nums == [2, 1, 5, 1, 3, 2]
    ensures AsWritten(nums) == Raise(TypeError)
    ensures IsMaxWindow(nums, 9)
  {
    ExampleWindows(nums);
  }

  /**
   * A list too short to pass the guard returns 0, the initial `max_window`;
   * that is the window maximum exactly when there is no full window or the
   * one full window does not sum above 0.
   */
  lemma ShortListGivesZero(nums: seq<int>)
    requires |nums| <= K
    ensures AsWritten(nums) == Ok(0)
    ensures IsMaxWindow(nums, 0) <==> (|nums| < K || WindowSum(nums, 0, K) <= 0)
  {
    if |nums| == K && WindowSum(nums, 0, K) <= 0 {
      forall j | 0 <= j && j + K <= |nums|
        ensures WindowSum(nums, j, K) <= 0
      {
        assert j == 0;
      }
    }
  }

  /** The guard `i > k - 1` also skips the first full window: exactly `K` numbers give 0. */
  lemma FirstWindowSkipped(nums: seq<int>)
    requires nums == [1, 2, 3]
    ensures AsWritten(nums) == Ok(0)
    ensures IsMaxWindow(nums, 6)
  {
    WindowOfThree(nums, 0);
  }

  /**
   * `m` is the largest sum of `K` consecutive numbers, or 0 when that is
   * larger or there is no such window: the initial `max_window` is 0.
   */
  ghost predicate IsMaxWindow(nums: seq<int>, m: int)
  {
    m >= 0 &&
    (forall j :: 0 <= j && j + K <= |nums| ==> WindowSum(nums, j, K) <= m) &&
    (m == 0 || exists j :: 0 <= j && j + K <= |nums| && WindowSum(nums, j, K) == m)
  }

  /** At most one value is the window maximum. */
  lemma MaxWindowUnique(nums: seq<int>, m: int, n: int)
    requires IsMaxWindow(nums, m) && IsMaxWindow(nums, n)
    ensures m == n
  {
    if m != 0 {
      var j :| 0 <= j && j + K <= |nums| && WindowSum(nums, j, K) == m;
      assert m <= n;
    }
    if n != 0 {
      var j :| 0 <= j && j + K <= |nums| && WindowSum(nums, j, K) == n;
      assert n <= m;
    }
  }

  /**
   * The fixed-size window maximum the module describes: the guard is
   * `i >= k - 1`, so the first full window counts, and the element leaving
   * the window is `nums[i - (k - 1)]`.
   */
  method MaxWindowSum(nums: seq<int>) returns (maxWindow: int)
    ensures IsMaxWindow(nums, maxWindow)
  {
    var windowSum := 0;
    maxWindow := 0;
    ghost var best := 0;
    for i := 0 to |nums|
      invariant windowSum == Sum(nums[WindowStart(i, K)..i])
      invariant maxWindow >= 0
      invariant forall j :: 0 <= j && j + K <= i ==> WindowSum(nums, j, K) <= maxWindow
      invariant maxWindow == 0 || (0 <= best && best + K <= i && WindowSum(nums, best, K) == maxWindow)
    {
      SumSliceSnoc(nums, WindowStart(i, K), i);
      windowSum := windowSum + nums[i];
      if i >= K - 1 {
        var j := i - (K - 1);
        assert WindowStart(i, K) == j && nums[j..j + K] == nums[WindowStart(i, K)..i + 1];
        if windowSum > maxWindow {
          best := j;
        }
        maxWindow := Max(maxWindow, windowSum);
        SumCons(nums[j..i + 1]);
        assert nums[j..i + 1][1..] == nums[WindowStart(i + 1, K)..i + 1];
        windowSum := windowSum - nums[j];
      }
    }
  }

  /** The windows of the module's list sum to 8, 7, 9 and 6. */
  lemma ExampleWindows(nums: seq<int>)
    requires nums == [2, 1, 5, 1, 3, 2]
    ensures IsMaxWindow(nums, 9)
  {
    WindowOfThree(nums, 0);
    WindowOfThree(nums, 1);
    WindowOfThree(nums, 2);
    WindowOfThree(nums, 3);
  }

}
