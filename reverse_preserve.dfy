/**
 * The two-pointer reversals of DSA/reverseStringAndPreserveSpace.py: the
 * string is copied into a character list, and two pointers walk towards each
 * other, skipping characters that stay in place and swapping the others.
 * `rev_keep_space` keeps spaces in place; `reverse_preserve_symbols` keeps
 * every non-alphabetic character in place.
 */
module ReversePreserve {
  import opened Seqs

  /**
   * `r` is `s` with the characters satisfying `moves` reversed among
   * themselves, and every other character left at its index.
   */
  ghost predicate ReversedAround(s: string, r: string, moves: char -> bool)
  {
    |r| == |s| &&
    (forall k :: 0 <= k < |s| ==> (moves(r[k]) <==> moves(s[k]))) &&
    (forall k :: 0 <= k < |s| && !moves(s[k]) ==> r[k] == s[k]) &&
    Filter(r, moves) == Reverse(Filter(s, moves))
  }

  /** The loop invariant, over the character list `c` and the two pointers. */
  ghost predicate Inv(c: string, s: string, left: int, right: int, moves: char -> bool)
  {
    Shape(c, s, left, right, moves) &&
    Filter(c[..left], moves) == Reverse(Filter(s[right + 1..], moves)) &&
    Filter(c[right + 1..], moves) == Reverse(Filter(s[..left], moves)) &&
    multiset(c) == multiset(s)
  }

  /**
   * The part of the invariant about single indices: the middle between the
   * pointers is untouched, and fixed characters never move.
   */
  ghost predicate Shape(c: string, s: string, left: int, right: int, moves: char -> bool)
  {
    |c| == |s| && 0 <= left <= right + 1 <= |s| &&
    (forall k :: left <= k <= right ==> c[k] == s[k]) &&
    (forall k :: 0 <= k < |s| ==> (moves(c[k]) <==> moves(s[k]))) &&
    (forall k :: 0 <= k < |s| && !moves(s[k]) ==> c[k] == s[k])
  }

  /**
   * The shared loop of both functions: reverse the characters satisfying
   * `moves`, keep every other character where it is.
   */
  method ReverseMovable(s: string, moves: char -> bool) returns (r: string)
    ensures ReversedAround(s, r, moves)
    ensures multiset(r) == multiset(s)
  {
    var ch := new char[|s|](i => if 0 <= i < |s| then s[i] else 0 as char);
    var left, right := 0, |s| - 1;
    ghost var cur := s;
    assert ch[..] == cur;
    InvInit(s, moves);
    while left < right
      invariant ch.Length == |s| && ch[..] == cur
      // compared with true so that the invariant is checked as one fact,
      // which the step lemmas establish whole
      invariant Inv(cur, s, left, right, moves) == true
      decreases right - left
    {
      var a, b := ch[left], ch[right];
      assert a == cur[left] && b == cur[right];
      if !moves(a) {
        SkipLeft(cur, s, left, right, moves);
        left := left + 1;
      } else if !moves(b) {
        SkipRight(cur, s, left, right, moves);
        right := right - 1;
      } else {
        SwapStep(cur, s, left, right, moves);
        Swap(ch, left, right);
        cur := cur[left := cur[right]][right := cur[left]];
        left := left + 1;
        right := right - 1;
      }
    }
    r := ch[..];
    InvFinish(r, s, left, right, moves);
  }

  predicate NotSpace(c: char) { c != ' ' }

  /** `rev_keep_space`: spaces stay at their indices, every other character is reversed. */
  method RevKeepSpace(s: string) returns (r: string)
    ensures ReversedAround(s, r, NotSpace)
    ensures multiset(r) == multiset(s)
  {
    r := ReverseMovable(s, NotSpace);
  }

  /**
   * `reverse_preserve_symbols`: letters are reversed, every other character
   * stays at its index. Python's `str.isalpha` is the parameter `isAlpha`.
   */
  method ReversePreserveSymbols(s: string, isAlpha: char -> bool) returns (r: string)
    ensures ReversedAround(s, r, isAlpha)
    ensures multiset(r) == multiset(s)
  {
    r := ReverseMovable(s, isAlpha);
  }

  lemma {:induction false} InvInit(s: string, moves: char -> bool)
    ensures Inv(s, s, 0, |s| - 1, moves)
  {
    assert s[..0] == [] && s[|s|..] == [];
  }

  lemma {:induction false} SkipLeft(c: string, s: string, left: int, right: int, moves: char -> bool)
    requires Inv(c, s, left, right, moves) && left < right && !moves(c[left])
    ensures Inv(c, s, left + 1, right, moves)
  {
    assert c[left] == s[left];
    FilterSnoc(c, left, moves);
    FilterSnoc(s, left, moves);
    FilterSingle(s[left], moves);
    assert Filter([s[left]], moves) == [];
    assert Filter(s[..left + 1], moves) == Filter(s[..left], moves);
    assert Filter(c[..left + 1], moves) == Filter(c[..left], moves);
  }

  lemma {:induction false} SkipRight(c: string, s: string, left: int, right: int, moves: char -> bool)
    requires Inv(c, s, left, right, moves) && left < right && !moves(c[right])
    ensures Inv(c, s, left, right - 1, moves)
  {
    assert c[right] == s[right];
    FilterCons(c, right, moves);
    FilterCons(s, right, moves);
    FilterSingle(s[right], moves);
    assert Filter([s[right]], moves) == [];
    assert Filter(s[right..], moves) == Filter(s[right + 1..], moves);
    assert Filter(c[right..], moves) == Filter(c[right + 1..], moves);
  }

  lemma {:induction false} SwapStep(c: string, s: string, left: int, right: int, moves: char -> bool)
    requires Inv(c, s, left, right, moves) && left < right
    requires moves(c[left]) && moves(c[right])
    ensures Inv(c[left := c[right]][right := c[left]], s, left + 1, right - 1, moves)
  {
    var d := c[left := c[right]][right := c[left]];
    assert c[left] == s[left] && c[right] == s[right];
    SwapShape(c, s, left, right, moves);
    assert d[..left] == c[..left];
    assert d[right + 1..] == c[right + 1..];
    SwapHalves(c, d, s, left, right, moves);
    SwapPermutes(c, left, right);
  }

  lemma {:induction false} SwapShape(c: string, s: string, left: int, right: int, moves: char -> bool)
    requires Shape(c, s, left, right, moves) && left < right
    requires moves(c[left]) && moves(c[right])
    ensures Shape(c[left := c[right]][right := c[left]], s, left + 1, right - 1, moves)
  {
  }

  /** Swapping the two moved characters at the pointers extends both reversed halves by one. */
  lemma {:induction false} SwapHalves(c: string, d: string, s: string, left: int, right: int, moves: char -> bool)
    requires |c| == |s| == |d| && 0 <= left < right < |s|
    requires d[..left] == c[..left] && d[right + 1..] == c[right + 1..]
    requires d[left] == s[right] && d[right] == s[left]
    requires moves(s[left]) && moves(s[right])
    requires Filter(c[..left], moves) == Reverse(Filter(s[right + 1..], moves))
    requires Filter(c[right + 1..], moves) == Reverse(Filter(s[..left], moves))
    ensures Filter(d[..left + 1], moves) == Reverse(Filter(s[right..], moves))
    ensures Filter(d[right..], moves) == Reverse(Filter(s[..left + 1], moves))
  {
    var x, y := s[left], s[right];
    var fl, fr := Filter(s[..left], moves), Filter(s[right + 1..], moves);
    calc {
      Filter(d[..left + 1], moves);
      { FilterSnoc(d, left, moves); FilterSingle(y, moves); }
      Filter(c[..left], moves) + [y];
      Reverse(fr) + [y];
      { ReverseAppend([y], fr); ReverseShort([y]); }
      Reverse([y] + fr);
      { FilterCons(s, right, moves); FilterSingle(y, moves); }
      Reverse(Filter(s[right..], moves));
    }
    calc {
      Filter(d[right..], moves);
      { FilterCons(d, right, moves); FilterSingle(x, moves); }
      [x] + Filter(c[right + 1..], moves);
      [x] + Reverse(fl);
      { ReverseAppend(fl, [x]); ReverseShort([x]); }
      Reverse(fl + [x]);
      { FilterSnoc(s, left, moves); FilterSingle(x, moves); }
      Reverse(Filter(s[..left + 1], moves));
    }
  }

  lemma {:induction false} FilterShort(m: string, moves: char -> bool)
    requires |m| <= 1
    ensures |Filter(m, moves)| <= 1
  {
    if |m| == 1 {
      assert m[..0] == [];
    }
  }

  lemma {:induction false} InvFinish(c: string, s: string, left: int, right: int, moves: char -> bool)
    requires Inv(c, s, left, right, moves) && left >= right
    ensures ReversedAround(s, c, moves)
  {
    assert c[left..right + 1] == s[left..right + 1];
    JoinHalves(c, s, left, right + 1, moves);
  }

  /** The two reversed halves and an unchanged middle of at most one character make the whole reversal. */
  lemma {:induction false} JoinHalves(c: string, s: string, i: int, j: int, moves: char -> bool)
    requires |c| == |s| && 0 <= i <= j <= |s| && j - i <= 1
    requires c[i..j] == s[i..j]
    requires Filter(c[..i], moves) == Reverse(Filter(s[j..], moves))
    requires Filter(c[j..], moves) == Reverse(Filter(s[..i], moves))
    ensures Filter(c, moves) == Reverse(Filter(s, moves))
  {
    var mid := s[i..j];
    var fl, fm, fr := Filter(s[..i], moves), Filter(mid, moves), Filter(s[j..], moves);
    FilterShort(mid, moves);
    ReverseShort(fm);
    calc {
      Filter(c, moves);
      { FilterThree(c, i, j, moves); }
      Reverse(fr) + fm + Reverse(fl);
      { ReverseAppend(fm, fr); }
      Reverse(fm + fr) + Reverse(fl);
      { ReverseAppend(fl, fm + fr); }
      Reverse(fl + (fm + fr));
      { assert fl + (fm + fr) == fl + fm + fr; FilterThree(s, i, j, moves); }
      Reverse(Filter(s, moves));
    }
  }

  lemma {:induction false} FilterThree(a: string, i: int, j: int, moves: char -> bool)
    requires 0 <= i <= j <= |a|
    ensures Filter(a, moves) == Filter(a[..i], moves) + Filter(a[i..j], moves) + Filter(a[j..], moves)
  {
    var x, y, z := a[..i], a[i..j], a[j..];
    assert a == x + y + z;
    FilterAppend(x + y, z, moves);
    FilterAppend(x, y, moves);
  }

  /**
   * Two strings of one length that keep the same characters at the same
   * fixed indices agree on every prefix whose moved characters agree.
   */
  lemma {:induction false} SameFixedSameMoved(a: string, b: string, n: nat, moves: char -> bool)
    requires |a| == |b| && n <= |a|
    requires forall k :: 0 <= k < |a| ==> (moves(a[k]) <==> moves(b[k]))
    requires forall k :: 0 <= k < |a| && !moves(a[k]) ==> a[k] == b[k]
    requires Filter(a[..n], moves) == Filter(b[..n], moves)
    ensures forall i :: 0 <= i < n ==> a[i] == b[i]
    decreases n
  {
    if n > 0 {
      var m := n - 1;
      FilterSnoc(a, m, moves);
      FilterSnoc(b, m, moves);
      FilterSingle(a[m], moves);
      FilterSingle(b[m], moves);
      var fa, fb := Filter(a[..m], moves), Filter(b[..m], moves);
      assert Filter(a[..n], moves) == fa + Filter([a[m]], moves);
      assert Filter(b[..n], moves) == fb + Filter([b[m]], moves);
      if moves(a[m]) {
        assert moves(b[m]);
        assert fa + [a[m]] == fb + [b[m]];
        SnocInjective(fa, fb, a[m], b[m]);
      } else {
        assert !moves(b[m]);
        assert fa + [] == fa && fb + [] == fb;
      }
      SameFixedSameMoved(a, b, m, moves);
    }
  }

  lemma SnocInjective(x: string, y: string, u: char, v: char)
    requires x + [u] == y + [v]
    ensures x == y && u == v
  {
    assert |x| == |y|;
    assert x == (x + [u])[..|x|] && y == (y + [v])[..|y|];
    assert u == (x + [u])[|x|] && v == (y + [v])[|y|];
  }

  /** The specification leaves no freedom: at most one string is the reversal of `s` around `moves`. */
  lemma ReversedAroundUnique(s: string, r1: string, r2: string, moves: char -> bool)
    requires ReversedAround(s, r1, moves) && ReversedAround(s, r2, moves)
    ensures r1 == r2
  {
    assert r1[..|r1|] == r1 && r2[..|r2|] == r2;
    SameFixedSameMoved(r1, r2, |r1|, moves);
  }

  /** Reversing around the same fixed characters twice gives the input back. */
  lemma ReversedAroundTwice(s: string, r: string, q: string, moves: char -> bool)
    requires ReversedAround(s, r, moves) && ReversedAround(r, q, moves)
    ensures q == s
  {
    ReverseInvolution(Filter(s, moves));
    assert ReversedAround(r, s, moves);
    ReversedAroundUnique(r, q, s, moves);
  }

  /** With no character to keep in place, the result is the plain reversal. */
  lemma NothingFixedIsReverse(s: string, r: string, moves: char -> bool)
    requires forall k :: 0 <= k < |s| ==> moves(s[k])
    requires ReversedAround(s, r, moves)
    ensures r == Reverse(s)
  {
    FilterAll(s, moves);
    FilterAll(r, moves);
  }

  /** The module's own example: `rev_keep_space("i am good")` is `"d oo gmai"`. */
  lemma {:induction false} RevKeepSpaceExample(r: string)
    requires ReversedAround("i am good", r, NotSpace)
    ensures r == "d oo gmai"
  {
    ExampleLetters();
    ExampleReversed();
    assert ReversedAround("i am good", "d oo gmai", NotSpace);
    ReversedAroundUnique("i am good", r, "d oo gmai", NotSpace);
  }

  lemma {:induction false} ExampleLetters()
    ensures Filter("i am good", NotSpace) == "iamgood"
    ensures Filter("d oo gmai", NotSpace) == "doogmai"
  {
    ThreeWords("i", "am", "good");
    ThreeWords("d", "oo", "gmai");
    assert "i am good" == ("i" + " ") + ("am" + " ") + "good";
    assert "d oo gmai" == ("d" + " ") + ("oo" + " ") + "gmai";
  }

  lemma {:induction false} ThreeWords(x: string, y: string, z: string)
    requires forall k :: 0 <= k < |x| ==> NotSpace(x[k])
    requires forall k :: 0 <= k < |y| ==> NotSpace(y[k])
    requires forall k :: 0 <= k < |z| ==> NotSpace(z[k])
    ensures Filter((x + " ") + (y + " ") + z, NotSpace) == x + y + z
  {
    WordThenSpace(x);
    WordThenSpace(y);
    FilterAll(z, NotSpace);
    FilterAppend((x + " ") + (y + " "), z, NotSpace);
    FilterAppend(x + " ", y + " ", NotSpace);
  }

  lemma {:induction false} WordThenSpace(x: string)
    requires forall k :: 0 <= k < |x| ==> NotSpace(x[k])
    ensures Filter(x + " ", NotSpace) == x
  {
    FilterAll(x, NotSpace);
    FilterAppend(x, " ", NotSpace);
    FilterSingle(' ', NotSpace);
    assert x + [] == x;
  }

  lemma {:induction false} ExampleReversed()
    ensures Reverse("iamgood") == "doogmai"
  {
    var x, y := "iamgood", "doogmai";
    ReverseLength(x);
    forall i | 0 <= i < |x| ensures Reverse(x)[i] == y[i] {
      ReverseAt(x, i);
    }
  }
}
