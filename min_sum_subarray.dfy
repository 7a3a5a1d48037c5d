/**
 * `min_sum_subArray` of DSA/minium_Sum_SubArray.py, as written and as
 * evidently intended. As written, the loop runs over and adds up the
 * module-global list `num`, subtracts elements of its parameter `nums`,
 * computes `min_sum` without using it, and returns the running `window_sum`.
 */
module MinSumSubArray {
  import opened Outcomes
  import opened Seqs

  /** The local `k`, the window width. */
  const K: nat := 3

  /**
   * What the function as written returns, given the global `num` and the
   * argument `nums`: the sum of `num` less `nums[1]` up to `nums[len(num) - 3]`,
   * or IndexError when `nums` is too short for that.
   */
  function AsWritten(num: seq<int>, nums: seq<int>): Result<int>
  {
    if |num| <= K then Ok(Sum(num))
    else if |nums| < |num| - (K - 1) then Raise(IndexError)
    else Ok(Sum(num) - Sum(nums[1..|num| - (K - 1)]))
  }

  /** `min_sum_subArray(nums)` with the global `num` passed in. */
  method MinSumSubArray(num: seq<int>, nums: seq<int>) returns (r: Result<int>)
    ensures r == AsWritten(num, nums)
  {
    var k := K;
    var minSum := 0;
    var windowSum := 0;
    for i := 0 to |num|
      invariant i <= k ==> windowSum == Sum(num[..i])
      invariant i > k ==> i - (k - 1) <= |nums| && windowSum == Sum(num[..i]) - Sum(nums[1..i - (k - 1)])
    {
      SumSliceSnoc(num, 0, i);
      assert num[0..i] == num[..i] && num[0..i + 1] == num[..i + 1];
      windowSum := windowSum + num[i];
      if i > k - 1 {
        minSum := Min(minSum, windowSum);
        if i - (k - 1) >= |nums| {
          return Raise(IndexError);
        }
        if i > k {
          SumSliceSnoc(nums, 1, i - (k - 1));
        } else {
          assert nums[1..2] == [nums[1]];
          assert [nums[1]][..0] == [];
        }
        windowSum := windowSum - nums[i - (k - 1)];
      }
    }
    assert num[..|num|] == num;
    return Ok(windowSum);
  }

  /**
   * When the argument is the global list itself, as in the module's own call,
   * only the first and the last two numbers are left.
   */
  lemma SelfCall(num: seq<int>)
    requires |num| >= K
    ensures AsWritten(num, num) == Ok(num[0] + num[|num| - 2] + num[|num| - 1])
  {
    var n := |num|;
    if n == K {
      assert num == [num[0]] + [num[1], num[2]];
      SumAppend([num[0]], [num[1], num[2]]);
      assert [num[0]][..0] == [];
      assert [num[1], num[2]][..1] == [num[1]];
      assert [num[1]][..0] == [];
      return;
    }
    assert num == [num[0]] + num[1..n - 2] + [num[n - 2], num[n - 1]];
    SumAppend([num[0]] + num[1..n - 2], [num[n - 2], num[n - 1]]);
    SumAppend([num[0]], num[1..n - 2]);
    assert [num[0]][..0] == [];
    assert [num[n - 2], num[n - 1]][..1] == [num[n - 2]];
    assert [num[n - 2]][..0] == [];
  }

  /** The module's own call returns 7, while its smallest three-number window sums to 6. */
  lemma ModuleCall(num: seq<int>)
    requires num == [2, 1, 5, 1, 3, 2]
    ensures AsWritten(num, num) == Ok(7)
    ensures IsMinWindow(num, Some(6))
  {
    SelfCall(num);
    WindowOfThree(num, 0);
    WindowOfThree(num, 1);
    WindowOfThree(num, 2);
    WindowOfThree(num, 3);
  }

  /**
   * `m` is the smallest sum of `K` consecutive numbers of `nums`, or None when
   * `nums` is shorter than one window.
   */
  ghost predicate IsMinWindow(nums: seq<int>, m: Option<int>)
  {
    if |nums| < K then m == None
    else
      m.Some? &&
      (forall j :: 0 <= j && j + K <= |nums| ==> m.value <= WindowSum(nums, j, K)) &&
      (exists j :: 0 <= j && j + K <= |nums| && WindowSum(nums, j, K) == m.value)
  }

  /** At most one value is the window minimum. */
  lemma MinWindowUnique(nums: seq<int>, m: Option<int>, n: Option<int>)
    requires IsMinWindow(nums, m) && IsMinWindow(nums, n)
    ensures m == n
  {
    if |nums| >= K {
      var j :| 0 <= j && j + K <= |nums| && WindowSum(nums, j, K) == m.value;
      var j' :| 0 <= j' && j' + K <= |nums| && WindowSum(nums, j', K) == n.value;
      assert m.value <= WindowSum(nums, j', K) && n.value <= WindowSum(nums, j, K);
    }
  }

  /**
   * The minimum window sum the function's name promises: it reads only its
   * argument, counts the first full window, starts the minimum at that window
   * instead of 0, and returns the minimum.
   */
  method MinWindowSum(nums: seq<int>) returns (minSum: Option<int>)
    ensures IsMinWindow(nums, minSum)
  {
    var windowSum := 0;
    minSum := None;
    ghost var best := 0;
    for i := 0 to |nums|
      invariant windowSum == Sum(nums[WindowStart(i, K)..i])
      invariant minSum.None? <==> i < K
      invariant forall j :: 0 <= j && j + K <= i ==> minSum.Some? && minSum.value <= WindowSum(nums, j, K)
      invariant minSum.Some? ==> 0 <= best && best + K <= i && WindowSum(nums, best, K) == minSum.value
    {
      SumSliceSnoc(nums, WindowStart(i, K), i);
      windowSum := windowSum + nums[i];
      if i >= K - 1 {
        var j := i - (K - 1);
        assert WindowStart(i, K) == j && nums[j..j + K] == nums[WindowStart(i, K)..i + 1];
        if minSum.None? || windowSum < minSum.value {
          minSum := Some(windowSum);
          best := j;
        }
        SumCons(nums[j..i + 1]);
        assert nums[j..i + 1][1..] == nums[WindowStart(i + 1, K)..i + 1];
        windowSum := windowSum - nums[j];
      }
    }
  }
}
