/**
 * `find_duplicate` of DSA/FindDuplicate.py, as written and as evidently
 * intended. As written, the loop variable shadows the parameter, the loop
 * runs over the module-global `nums`, and each element is looked up in that
 * same list, so the first iteration always returns True.
 */
module FindDuplicate {
  import opened Outcomes

  /**
   * What the function as written returns, given the global `nums`: None
   * (the loop never runs) for an empty list, True otherwise; never False.
   */
  function AsWritten(nums: seq<int>): Option<bool>
  {
    if nums == [] then None else Some(true)
  }

  /** `find_duplicate(num)` with the global `nums` passed in; the argument is never read. */
  method FindDuplicate(nums: seq<int>, num: seq<int>) returns (r: Option<bool>)
    ensures r == AsWritten(nums)
  {
    var seen: set<int> := {};
    for i := 0 to |nums|
      invariant i == 0
    {
      var x := nums[i];
      var found := x in nums;
      if found {
        seen := seen + {x};
      }
      return Some(found);
    }
    return None;
  }

  /** Some value occurs at two different indices. */
  ghost predicate HasDuplicate(nums: seq<int>)
  {
    exists i, j :: 0 <= i < j < |nums| && nums[i] == nums[j]
  }

  /** A list without repeated values is reported as having one. */
  lemma DistinctReportedAsDuplicate(nums: seq<int>)
    requires nums == [1, 2, 3]
    ensures AsWritten(nums) == Some(true)
    ensures !HasDuplicate(nums)
  {
    forall i, j | 0 <= i < j < |nums|
      ensures nums[i] != nums[j]
    {
    }
  }

  /** The module's own list does repeat 6, so its call happens to give the right answer. */
  lemma ModuleCall(nums: seq<int>)
    requires nums == [1, 2, 4, 5, 6, 6, 10]
    ensures AsWritten(nums) == Some(true)
    ensures HasDuplicate(nums)
  {
    assert nums[4] == nums[5];
  }

  /** The check the comment at the top of the module asks for, with `seen` used as intended. */
  method ContainsDuplicate(nums: seq<int>) returns (r: bool)
    ensures r <==> HasDuplicate(nums)
  {
    var seen: set<int> := {};
    for i := 0 to |nums|
      invariant seen == set k | 0 <= k < i :: nums[k]
      invariant forall a, b :: 0 <= a < b < i ==> nums[a] != nums[b]
    {
      if nums[i] in seen {
        var k :| 0 <= k < i && nums[k] == nums[i];
        return true;
      }
      seen := seen + {nums[i]};
    }
    return false;
  }
}
