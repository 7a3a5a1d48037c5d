/**
 * `move_odd_to_end` of DSA/oddToEnd.py: one pass over the caller's list with
 * a `left` pointer; every even element met is swapped down to `left`, so the
 * evens gather at the front in their original order and the odds end up behind them.
 */
module OddToEnd {
  import opened Seqs

  /**
   * Python's `x % 2 == 0`. Python's `%` floors and Dafny's is Euclidean; for
   * the divisor 2 both give 0 or 1, so the two tests agree on negative numbers too.
   */
  predicate IsEven(x: int) { x % 2 == 0 }

  predicate IsOdd(x: int) { !IsEven(x) }

  /**
   * `r` is a permutation of `s` that holds the even elements of `s` first, in
   * their original order, and only odd elements after them.
   */
  ghost predicate EvensFirst(s: seq<int>, r: seq<int>)
  {
    var n := |Filter(s, IsEven)|;
    |r| == |s| && multiset(r) == multiset(s) &&
    n <= |r| && r[..n] == Filter(s, IsEven) &&
    forall k :: n <= k < |r| ==> IsOdd(r[k])
  }

  /** `move_odd_to_end`: rearranges `nums` in place and returns that same list. */
  method MoveOddToEnd(nums: array<int>) returns (r: array<int>)
    modifies nums
    ensures r == nums
    ensures EvensFirst(old(nums[..]), nums[..])
  {
    ghost var s := nums[..];
    ghost var cur := s;
    var left := 0;
    for right := 0 to nums.Length
      invariant nums[..] == cur
      invariant Partial(cur, s, left, right)
    {
      if nums[right] % 2 == 0 {
        PartialSwap(cur, s, left, right);
        Swap(nums, left, right);
        cur := cur[left := cur[right]][right := cur[left]];
        left := left + 1;
      } else {
        PartialSkip(cur, s, left, right);
      }
    }
    PartialDone(cur, s, left);
    r := nums;
  }

  /**
   * The loop invariant after `right` steps: the evens seen so far sit in
   * order below `left`, the odds seen so far fill `left..right`, and the rest
   * is untouched.
   */
  ghost predicate Partial(c: seq<int>, s: seq<int>, left: int, right: int)
  {
    |c| == |s| && 0 <= left <= right <= |s| &&
    c[..left] == Filter(s[..right], IsEven) &&
    (forall k :: left <= k < right ==> IsOdd(c[k])) &&
    c[right..] == s[right..] &&
    multiset(c) == multiset(s)
  }

  lemma PartialSwap(c: seq<int>, s: seq<int>, left: int, right: int)
    requires Partial(c, s, left, right) && right < |s| && IsEven(c[right])
    ensures Partial(c[left := c[right]][right := c[left]], s, left + 1, right + 1)
  {
    var d := c[left := c[right]][right := c[left]];
    assert c[right] == c[right..][0] == s[right];
    SwapPrefix(c, s, left, right);
    SwapOdds(c, d, left, right);
    SwapSuffix(c, s, left, right);
    SwapPermutes(c, left, right);
  }

  lemma SwapPrefix(c: seq<int>, s: seq<int>, left: int, right: int)
    requires 0 <= left <= right < |c| == |s| && c[right] == s[right] && IsEven(s[right])
    requires c[..left] == Filter(s[..right], IsEven)
    ensures c[left := c[right]][right := c[left]][..left + 1] == Filter(s[..right + 1], IsEven)
  {
    FilterSnoc(s, right, IsEven);
    FilterSingle(s[right], IsEven);
    assert c[left := c[right]][right := c[left]][..left + 1] == c[..left] + [s[right]];
  }

  lemma SwapOdds(c: seq<int>, d: seq<int>, left: int, right: int)
    requires 0 <= left <= right < |c| && d == c[left := c[right]][right := c[left]]
    requires forall k :: left <= k < right ==> IsOdd(c[k])
    ensures forall k :: left + 1 <= k < right + 1 ==> IsOdd(d[k])
  {
  }

  lemma SwapSuffix(c: seq<int>, s: seq<int>, left: int, right: int)
    requires 0 <= left <= right < |c| == |s|
    requires c[right..] == s[right..]
    ensures c[left := c[right]][right := c[left]][right + 1..] == s[right + 1..]
  {
    assert c[right + 1..] == c[right..][1..];
    assert s[right + 1..] == s[right..][1..];
  }

  lemma PartialSkip(c: seq<int>, s: seq<int>, left: int, right: int)
    requires Partial(c, s, left, right) && right < |s| && IsOdd(c[right])
    ensures Partial(c, s, left, right + 1)
  {
    assert c[right] == c[right..][0] == s[right];
    FilterSnoc(s, right, IsEven);
    FilterSingle(s[right], IsEven);
    assert Filter(s[..right], IsEven) + [] == Filter(s[..right], IsEven);
    assert c[right + 1..] == c[right..][1..];
    assert s[right + 1..] == s[right..][1..];
  }

  lemma PartialDone(c: seq<int>, s: seq<int>, left: int)
    requires Partial(c, s, left, |s|)
    ensures EvensFirst(s, c)
  {
    assert s[..|s|] == s;
  }

  /** Every element of a filter satisfies the filter's test. */
  lemma {:induction false} FilterKept<T>(s: seq<T>, keep: T -> bool, k: int)
    requires 0 <= k < |Filter(s, keep)|
    ensures keep(Filter(s, keep)[k])
    decreases |s|
  {
    var u := s[..|s| - 1];
    if keep(s[|s| - 1]) && k == |Filter(u, keep)| {
    } else {
      FilterKept(u, keep, k);
    }
  }

  /** In a rearranged list, an index holds an even value exactly when it lies below the number of evens. */
  lemma EvensFirstSplit(s: seq<int>, r: seq<int>, k: int)
    requires EvensFirst(s, r) && 0 <= k < |r|
    ensures IsEven(r[k]) <==> k < |Filter(s, IsEven)|
  {
    var n := |Filter(s, IsEven)|;
    if k < n {
      assert r[k] == r[..n][k];
      FilterKept(s, IsEven, k);
    }
  }

  /** The odd elements after the evens are exactly the odd elements of the input, counted with multiplicity. */
  lemma EvensFirstOdds(s: seq<int>, r: seq<int>)
    requires EvensFirst(s, r)
    ensures multiset(r[|Filter(s, IsEven)|..]) == multiset(Filter(s, IsOdd))
  {
    var n := |Filter(s, IsEven)|;
    assert r == r[..n] + r[n..];
    assert multiset(r) == multiset(r[..n]) + multiset(r[n..]);
    assert multiset(r[..n]) == multiset(Filter(s, IsEven));
    FilterSplitsMultiset(s);
    forall x
      ensures multiset(r[n..])[x] == multiset(Filter(s, IsOdd))[x]
    {
      assert multiset(r)[x] == multiset(r[..n])[x] + multiset(r[n..])[x];
    }
  }

  /** Splitting a list by parity loses and adds nothing. */
  lemma {:induction false} FilterSplitsMultiset(s: seq<int>)
    ensures multiset(s) == multiset(Filter(s, IsEven)) + multiset(Filter(s, IsOdd))
    decreases |s|
  {
    if s != [] {
      var u := s[..|s| - 1];
      FilterSplitsMultiset(u);
      assert s == u + [s[|s| - 1]];
    }
  }

  /** A list of evens only comes back unchanged. */
  lemma AllEvenUnchanged(s: seq<int>, r: seq<int>)
    requires EvensFirst(s, r)
    requires forall k :: 0 <= k < |s| ==> IsEven(s[k])
    ensures r == s
  {
    FilterAll(s, IsEven);
    assert r == r[..|s|];
  }

  /** The module's own call: `[1, 3, 12, 0, 0]` becomes `[12, 0, 0]` followed by the odds 1 and 3. */
  lemma ModuleExample(r: seq<int>)
    requires EvensFirst([1, 3, 12, 0, 0], r)
    ensures r[..3] == [12, 0, 0]
    ensures multiset(r[3..]) == multiset{1, 3}
  {
    var s := [1, 3, 12, 0, 0];
    ExampleEvens(s);
    assert multiset(s) == multiset{1, 3} + multiset{12, 0, 0};
    MultisetCancel(r, 3, multiset{1, 3});
  }

  /** What is left of `r` after its first `n` elements. */
  lemma MultisetCancel(r: seq<int>, n: nat, rest: multiset<int>)
    requires n <= |r| && multiset(r) == rest + multiset(r[..n])
    ensures multiset(r[n..]) == rest
  {
    assert r == r[..n] + r[n..];
    assert multiset(r) == multiset(r[..n]) + multiset(r[n..]);
    forall x
      ensures multiset(r[n..])[x] == rest[x]
    {
      assert multiset(r)[x] == rest[x] + multiset(r[..n])[x];
      assert multiset(r)[x] == multiset(r[..n])[x] + multiset(r[n..])[x];
    }
  }

  /** The even elements of the module's list, peeled one at a time from the back. */
  lemma ExampleEvens(s: seq<int>)
    requires s == [1, 3, 12, 0, 0]
    ensures Filter(s, IsEven) == [12, 0, 0]
  {
    var s1, s2, s3, s4 := s[..1], s[..2], s[..3], s[..4];
    assert s1[..0] == [] && s2[..1] == s1 && s3[..2] == s2 && s4[..3] == s3 && s[..4] == s4;
    assert Filter(s1, IsEven) == [];
    assert Filter(s2, IsEven) == [];
    assert Filter(s3, IsEven) == [12];
    assert Filter(s4, IsEven) == [12, 0];
  }
}
