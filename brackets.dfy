/**
 * The balanced-bracket check of DSA/findPerfectBrackets.py: a stack of
 * opening brackets is pushed and popped while the string is scanned once.
 */
module Brackets {
  import opened Seqs

  predicate IsOpener(c: char) { c == '(' || c == '[' || c == '{' }

  predicate IsCloser(c: char) { c == ')' || c == ']' || c == '}' }

  predicate IsBracket(c: char) { IsOpener(c) || IsCloser(c) }

  /** The opening bracket that the source's `mapping` pairs with a closing one. */
  function Partner(c: char): (o: char)
    requires IsCloser(c)
    ensures IsOpener(o)
  {
    if c == ')' then '(' else if c == ']' then '[' else '{'
  }

  /**
   * Well-nested bracket strings, by their first pair: the empty string, or an
   * opener, a well-nested inside, the closer of that opener, and a well-nested rest.
   */
  ghost predicate WellNested(t: string)
    decreases |t|, 1
  {
    t == [] || exists i :: SplitsAt(t, i)
  }

  /** `t` opens with a bracket that index `i` closes, with well-nested strings inside and after. */
  ghost predicate SplitsAt(t: string, i: int)
    decreases |t|, 0
  {
    1 <= i < |t| && IsOpener(t[0]) && IsCloser(t[i]) && Partner(t[i]) == t[0] &&
    WellNested(t[1..i]) && WellNested(t[i + 1..])
  }

  /** The bracket characters of `s`, in order: the only ones the check looks at. */
  function BracketsOf(s: string): string
  {
    Filter(s, IsBracket)
  }

  /**
   * The rest of the scan from a given stack (top at the end): `false` at an
   * early return, otherwise whether the stack ends empty.
   */
  function Scan(stack: seq<char>, s: string): bool
    decreases |s|
  {
    if s == [] then stack == []
    else if IsOpener(s[0]) then Scan(stack + [s[0]], s[1..])
    else if IsCloser(s[0]) then
      if stack == [] || stack[|stack| - 1] != Partner(s[0]) then false
      else Scan(stack[..|stack| - 1], s[1..])
    else Scan(stack, s[1..])
  }

  /** `findPerfBraces`: true exactly when the brackets of `s` are well nested. */
  method FindPerfBraces(s: string) returns (ok: bool)
    ensures ok <==> WellNested(BracketsOf(s))
  {
    var stack: seq<char> := [];
    for i := 0 to |s|
      invariant forall j :: 0 <= j < |stack| ==> IsOpener(stack[j])
      invariant Scan(stack, s[i..]) == Scan([], s)
    {
      var ch := s[i];
      assert s[i..][1..] == s[i + 1..];
      if IsOpener(ch) {
        stack := stack + [ch];
      } else if IsCloser(ch) {
        if stack == [] {
          ScanCorrect(s);
          return false;
        }
        var top := stack[|stack| - 1];
        stack := stack[..|stack| - 1];
        if top != Partner(ch) {
          ScanCorrect(s);
          return false;
        }
      }
    }
    ok := stack == [];
    ScanCorrect(s);
  }

  /** The scan result is the well-nestedness of the bracket subsequence. */
  lemma ScanCorrect(s: string)
    ensures Scan([], s) <==> WellNested(BracketsOf(s))
  {
    var t := BracketsOf(s);
    ScanIgnoresOthers([], s);
    if Scan([], t) {
      BracketsOnlyOf(s);
      var _ := ScanSound([], t);
    }
    if WellNested(t) {
      NestedScan([], t, []);
      assert t + [] == t;
    }
  }

  /** Characters other than the six brackets never touch the stack. */
  lemma {:induction false} ScanIgnoresOthers(stack: seq<char>, s: string)
    ensures Scan(stack, s) == Scan(stack, BracketsOf(s))
    decreases |s|
  {
    if s != [] {
      var c, rest := s[0], s[1..];
      assert s == [c] + rest;
      FilterAppend([c], rest, IsBracket);
      FilterSingle(c, IsBracket);
      if IsOpener(c) {
        ScanIgnoresOthers(stack + [c], rest);
        assert ([c] + BracketsOf(rest))[1..] == BracketsOf(rest);
      } else if IsCloser(c) {
        if stack != [] {
          ScanIgnoresOthers(stack[..|stack| - 1], rest);
        }
        assert ([c] + BracketsOf(rest))[1..] == BracketsOf(rest);
      } else {
        ScanIgnoresOthers(stack, rest);
        assert [] + BracketsOf(rest) == BracketsOf(rest);
      }
    }
  }

  lemma {:induction false} BracketsOnlyOf(s: string)
    ensures BracketsOnly(BracketsOf(s))
    decreases |s|
  {
    if s != [] {
      BracketsOnlyOf(s[..|s| - 1]);
    }
  }

  /** A well-nested block is consumed by the scan with the stack back where it was. */
  lemma {:induction false} NestedScan(stack: seq<char>, t: string, rest: string)
    requires WellNested(t)
    ensures Scan(stack, t + rest) == Scan(stack, rest)
    decreases |t|
  {
    if t != [] {
      var i :| SplitsAt(t, i);
      var o, a, c, b := t[0], t[1..i], t[i], t[i + 1..];
      var after := [c] + (b + rest);
      assert t + rest == [o] + (a + after);
      calc {
        Scan(stack, t + rest);
        { assert (t + rest)[0] == o && (t + rest)[1..] == a + after; }
        Scan(stack + [o], a + after);
        { NestedScan(stack + [o], a, after); }
        Scan(stack + [o], after);
        { assert after[0] == c && after[1..] == b + rest; assert (stack + [o])[..|stack|] == stack; }
        Scan(stack, b + rest);
      }
      NestedScan(stack, b, rest);
    } else {
      assert t + rest == rest;
    }
  }

  /** Every character of `t` is one of the six brackets. */
  ghost predicate BracketsOnly(t: string)
  {
    forall j :: 0 <= j < |t| ==> IsBracket(t[j])
  }

  lemma BracketsOnlySlice(t: string, lo: int, hi: int)
    requires BracketsOnly(t) && 0 <= lo <= hi <= |t|
    ensures BracketsOnly(t[lo..hi])
  {
    assert forall j :: 0 <= j < hi - lo ==> t[lo..hi][j] == t[lo + j];
  }

  /**
   * A scan of brackets that succeeds from a non-empty stack closes its top
   * after a well-nested prefix; from the empty stack the whole string is well nested.
   */
  lemma {:induction false} ScanSound(stack: seq<char>, t: string) returns (i: nat)
    requires BracketsOnly(t)
    requires Scan(stack, t)
    ensures stack == [] ==> WellNested(t)
    ensures stack != [] ==> i < |t| && IsCloser(t[i]) && Partner(t[i]) == stack[|stack| - 1] &&
                            WellNested(t[..i]) && Scan(stack[..|stack| - 1], t[i + 1..])
    decreases |t|, 1
  {
    if t == [] {
      return 0;
    }
    if IsOpener(t[0]) {
      i := ScanSoundOpener(stack, t);
    } else {
      assert IsBracket(t[0]);
      if stack == [] {
        assert false;
      } else {
        i := 0;
        assert t[..0] == [];
      }
    }
  }

  /** The case of `ScanSound` where the string starts with an opener. */
  lemma {:induction false} ScanSoundOpener(stack: seq<char>, t: string) returns (i: nat)
    requires BracketsOnly(t) && t != [] && IsOpener(t[0])
    requires Scan(stack, t)
    ensures stack == [] ==> WellNested(t)
    ensures stack != [] ==> i < |t| && IsCloser(t[i]) && Partner(t[i]) == stack[|stack| - 1] &&
                            WellNested(t[..i]) && Scan(stack[..|stack| - 1], t[i + 1..])
    decreases |t|, 0
  {
    var rest := t[1..];
    BracketsOnlySlice(t, 1, |t|);
    var k := ScanSound(stack + [t[0]], rest);
    assert (stack + [t[0]])[..|stack|] == stack;
    var b := rest[k + 1..];
    BracketsOnlySlice(rest, k + 1, |rest|);
    var j := ScanSound(stack, b);
    if stack == [] {
      EncloseWhole(t, k);
      i := 0;
    } else {
      EnclosePrefix(t, k, j);
      i := k + 2 + j;
    }
  }

  /** The first opener of `t` is closed at index `k + 1`, with well-nested strings inside and after. */
  lemma EncloseWhole(t: string, k: nat)
    requires k + 1 < |t| && IsCloser(t[k + 1]) && Partner(t[k + 1]) == t[0]
    requires WellNested(t[1..][..k]) && WellNested(t[1..][k + 1..])
    ensures WellNested(t)
  {
    assert t[1..k + 1] == t[1..][..k];
    assert t[k + 2..] == t[1..][k + 1..];
    assert SplitsAt(t, k + 1);
  }

  /** The first opener of `t` is closed at index `k + 1` and a well-nested string of length `j` follows. */
  lemma EnclosePrefix(t: string, k: nat, j: nat)
    requires k + 2 + j < |t| && IsCloser(t[k + 1]) && Partner(t[k + 1]) == t[0]
    requires WellNested(t[1..][..k]) && WellNested(t[1..][k + 1..][..j])
    ensures WellNested(t[..k + 2 + j])
    ensures t[k + 2 + j] == t[1..][k + 1..][j]
    ensures t[k + 2 + j + 1..] == t[1..][k + 1..][j + 1..]
  {
    var u := t[..k + 2 + j];
    assert u[1..k + 1] == t[1..][..k];
    assert u[k + 2..] == t[1..][k + 1..][..j];
    assert SplitsAt(u, k + 1);
  }

  /** A string without brackets, the empty one included, passes the check. */
  lemma {:induction false} NoBracketsPass(s: string)
    requires forall j :: 0 <= j < |s| ==> !IsBracket(s[j])
    ensures WellNested(BracketsOf(s))
    decreases |s|
  {
    if s != [] {
      NoBracketsPass(s[..|s| - 1]);
    }
  }

  /**
   * A closing bracket met on an empty stack fails the check: the brackets
   * before it are well nested, so every opener among them has been popped.
   */
  lemma UnmatchedCloserFails(p: string, c: char, s: string)
    requires WellNested(BracketsOf(p)) && IsCloser(c)
    ensures !WellNested(BracketsOf(p + [c] + s))
  {
    var t := p + [c] + s;
    assert t == p + ([c] + s);
    FilterAppend(p, [c] + s, IsBracket);
    ScanIgnoresOthers([], t);
    NestedScan([], BracketsOf(p), BracketsOf([c] + s));
    ScanIgnoresOthers([], [c] + s);
    ScanCorrect(t);
  }

  /** The module's own example: interleaved pairs fail. */
  lemma InterleavedFails()
    ensures !WellNested(BracketsOf("([)]"))
  {
    var s := "([)]";
    assert s[1..][1..][1..] == "]";
    assert !Scan([], s);
    ScanCorrect(s);
  }

  /** A well-nested string has as many closers as openers, so an unclosed opener fails. */
  lemma {:induction false} WellNestedBalanced(t: string)
    requires WellNested(t)
    ensures |Filter(t, IsOpener)| == |Filter(t, IsCloser)|
    decreases |t|
  {
    if t != [] {
      var i :| SplitsAt(t, i);
      var o, a, c, b := t[0], t[1..i], t[i], t[i + 1..];
      WellNestedBalanced(a);
      WellNestedBalanced(b);
      assert t == [o] + a + [c] + b;
      FilterCount4(o, a, c, b, IsOpener);
      FilterCount4(o, a, c, b, IsCloser);
    }
  }

  lemma FilterCount4(o: char, a: string, c: char, b: string, keep: char -> bool)
    ensures |Filter([o] + a + [c] + b, keep)| ==
            |Filter([o], keep)| + |Filter(a, keep)| + |Filter([c], keep)| + |Filter(b, keep)|
  {
    FilterAppend([o] + a + [c], b, keep);
    FilterAppend([o] + a, [c], keep);
    FilterAppend([o], a, keep);
  }
}
