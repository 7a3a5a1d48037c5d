/** Outcomes of a Python call: a value, `None`, or an exception that escapes it. */
module Outcomes {

  datatype Option<+T> = None | Some(value: T)

  /** The built-in Python exceptions that the modelled functions can raise. */
  datatype PyError = TypeError | IndexError | ValueError

  /** What a call does: it returns a value or raises an exception. */
  datatype Result<+T> = Ok(value: T) | Raise(error: PyError)

  /** A call that returns nothing useful, or raises. */
  datatype Outcome = Done | Fail(error: PyError)
}

/** Sequence vocabulary shared by the exercises: sums, filters, reversal, counts. */
module Seqs {

  /** Sum of a sequence of integers, peeled from the back so that it follows a left-to-right loop. */
  function Sum(s: seq<int>): int
  {
    if s == [] then 0 else Sum(s[..|s| - 1]) + s[|s| - 1]
  }

  lemma {:induction false} SumAppend(s: seq<int>, t: seq<int>)
    ensures Sum(s + t) == Sum(s) + Sum(t)
    decreases |t|
  {
    if t == [] {
      assert s + t == s;
    } else {
      var u := t[..|t| - 1];
      assert (s + t)[..|s + t| - 1] == s + u;
      SumAppend(s, u);
    }
  }

  /** Sum of a sequence, peeled from the front. */
  lemma SumCons(s: seq<int>)
    requires s != []
    ensures Sum(s) == s[0] + Sum(s[1..])
  {
    assert s == [s[0]] + s[1..];
    SumAppend([s[0]], s[1..]);
    assert [s[0]][..0] == [];
  }

  /** A slice one element longer on the right sums to one more term. */
  lemma SumSliceSnoc(s: seq<int>, lo: int, hi: int)
    requires 0 <= lo <= hi < |s|
    ensures Sum(s[lo..hi + 1]) == Sum(s[lo..hi]) + s[hi]
  {
    assert s[lo..hi + 1][..hi - lo] == s[lo..hi];
  }

  lemma SumThree(a: int, b: int, c: int)
    ensures Sum([a, b, c]) == a + b + c
  {
    assert [a][..0] == [];
    assert Sum([a]) == a;
    assert [a, b][..1] == [a];
    assert Sum([a, b]) == a + b;
    assert [a, b, c][..2] == [a, b];
  }

  /** A window of width three sums its three elements. */
  lemma WindowOfThree(s: seq<int>, j: int)
    requires 0 <= j && j + 3 <= |s|
    ensures WindowSum(s, j, 3) == s[j] + s[j + 1] + s[j + 2]
  {
    assert s[j..j + 3] == [s[j], s[j + 1], s[j + 2]];
    SumThree(s[j], s[j + 1], s[j + 2]);
  }

  /** Python's `max` of two integers. */
  function Max(a: int, b: int): (m: int)
    ensures m >= a && m >= b && (m == a || m == b)
  {
    if a >= b then a else b
  }

  /** Python's `min` of two integers. */
  function Min(a: int, b: int): (m: int)
    ensures m <= a && m <= b && (m == a || m == b)
  {
    if a <= b then a else b
  }

  /** Where a window of width `k` that ends just before index `i` starts, clipped at 0. */
  function WindowStart(i: int, k: nat): int
  {
    if i <= k - 1 then 0 else i - (k - 1)
  }

  /** The sum of the `k` consecutive elements of `s` starting at `j`. */
  function WindowSum(s: seq<int>, j: int, k: nat): int
    requires 0 <= j && j + k <= |s|
  {
    Sum(s[j..j + k])
  }

  /** The elements of `s` that satisfy `keep`, in their original order. */
  function Filter<T>(s: seq<T>, keep: T -> bool): seq<T>
  {
    if s == [] then []
    else if keep(s[|s| - 1]) then Filter(s[..|s| - 1], keep) + [s[|s| - 1]]
    else Filter(s[..|s| - 1], keep)
  }

  lemma {:induction false} FilterAppend<T>(s: seq<T>, t: seq<T>, keep: T -> bool)
    ensures Filter(s + t, keep) == Filter(s, keep) + Filter(t, keep)
    decreases |t|
  {
    if t == [] {
      assert s + t == s;
    } else {
      var u := t[..|t| - 1];
      assert (s + t)[..|s + t| - 1] == s + u;
      FilterAppend(s, u, keep);
    }
  }

  lemma FilterSingle<T>(x: T, keep: T -> bool)
    ensures Filter([x], keep) == if keep(x) then [x] else []
  {
    assert [x][..0] == [];
  }

  /** Extending a prefix by one element extends its filter by that element, if kept. */
  lemma FilterSnoc<T>(a: seq<T>, i: nat, keep: T -> bool)
    requires i < |a|
    ensures Filter(a[..i + 1], keep) == Filter(a[..i], keep) + Filter([a[i]], keep)
  {
    assert a[..i + 1] == a[..i] + [a[i]];
    FilterAppend(a[..i], [a[i]], keep);
  }

  /** Extending a suffix by one element at its front does the same at the filter's front. */
  lemma FilterCons<T>(a: seq<T>, i: nat, keep: T -> bool)
    requires i < |a|
    ensures Filter(a[i..], keep) == Filter([a[i]], keep) + Filter(a[i + 1..], keep)
  {
    assert a[i..] == [a[i]] + a[i + 1..];
    FilterAppend([a[i]], a[i + 1..], keep);
  }

  /** Filtering a sequence none of whose elements is dropped gives it back. */
  lemma {:induction false} FilterAll<T>(s: seq<T>, keep: T -> bool)
    requires forall i :: 0 <= i < |s| ==> keep(s[i])
    ensures Filter(s, keep) == s
    decreases |s|
  {
    if s != [] {
      FilterAll(s[..|s| - 1], keep);
    }
  }

  /** The elements of `s` in the opposite order. */
  function Reverse<T>(s: seq<T>): seq<T>
  {
    if s == [] then [] else [s[|s| - 1]] + Reverse(s[..|s| - 1])
  }

  lemma {:induction false} ReverseAppend<T>(s: seq<T>, t: seq<T>)
    ensures Reverse(s + t) == Reverse(t) + Reverse(s)
    decreases |t|
  {
    if t == [] {
      assert s + t == s;
    } else {
      var u := t[..|t| - 1];
      assert (s + t)[..|s + t| - 1] == s + u;
      ReverseAppend(s, u);
    }
  }

  lemma {:induction false} ReverseAt<T>(s: seq<T>, i: nat)
    requires i < |s|
    ensures |Reverse(s)| == |s| && Reverse(s)[i] == s[|s| - 1 - i]
    decreases |s|
  {
    ReverseLength(s[..|s| - 1]);
    if i > 0 {
      ReverseAt(s[..|s| - 1], i - 1);
    }
  }

  lemma {:induction false} ReverseLength<T>(s: seq<T>)
    ensures |Reverse(s)| == |s|
    decreases |s|
  {
    if s != [] {
      ReverseLength(s[..|s| - 1]);
    }
  }

  /** A sequence of at most one element is its own reverse. */
  lemma ReverseShort<T>(s: seq<T>)
    requires |s| <= 1
    ensures Reverse(s) == s
  {
    if |s| == 1 {
      assert s[..0] == [];
    }
  }

  lemma {:induction false} ReverseInvolution<T>(s: seq<T>)
    ensures Reverse(Reverse(s)) == s
    decreases |s|
  {
    if s != [] {
      var u := s[..|s| - 1];
      ReverseInvolution(u);
      ReverseAppend([s[|s| - 1]], Reverse(u));
      ReverseShort([s[|s| - 1]]);
      assert s == u + [s[|s| - 1]];
    }
  }

  /** Number of occurrences of `x` in `s`. */
  function Count<T(==)>(s: seq<T>, x: T): nat
  {
    multiset(s)[x]
  }

  lemma CountSnoc<T>(s: seq<T>, y: T, x: T)
    ensures Count(s + [y], x) == Count(s, x) + if x == y then 1 else 0
  {
    assert multiset(s + [y]) == multiset(s) + multiset{y};
  }

  lemma CountPrefixMonotone<T>(s: seq<T>, i: nat, j: nat, x: T)
    requires i <= j <= |s|
    ensures Count(s[..i], x) <= Count(s[..j], x)
  {
    assert s[..j] == s[..i] + s[i..j];
  }

  /** Counting over a prefix one element longer. */
  lemma CountPrefixSnoc<T>(s: seq<T>, i: nat, x: T)
    requires i < |s|
    ensures Count(s[..i + 1], x) == Count(s[..i], x) + if x == s[i] then 1 else 0
  {
    assert s[..i + 1] == s[..i] + [s[i]];
    CountSnoc(s[..i], s[i], x);
  }

  /** Exchanges two cells of an array, as Python's `a[i], a[j] = a[j], a[i]` does on a list. */
  method Swap<T>(a: array<T>, i: int, j: int)
    requires 0 <= i < a.Length && 0 <= j < a.Length
    modifies a
    ensures a[..] == old(a[..])[i := old(a[j])][j := old(a[i])]
  {
    a[i], a[j] := a[j], a[i];
  }

  /** Exchanging two entries leaves the multiset of elements unchanged. */
  lemma SwapPermutes<T>(c: seq<T>, i: int, j: int)
    requires 0 <= i < |c| && 0 <= j < |c|
    ensures multiset(c[i := c[j]][j := c[i]]) == multiset(c)
  {
    if i != j {
      assert multiset(c[i := c[j]]) == multiset(c) - multiset{c[i]} + multiset{c[j]};
      assert multiset(c[i := c[j]][j := c[i]]) == multiset(c[i := c[j]]) - multiset{c[j]} + multiset{c[i]};
    } else {
      assert c[i := c[j]][j := c[i]] == c;
    }
  }
}
