/**
 * `fin_most_repeated` of DSA/findMostRepetedWord.py: the text is split on
 * single spaces, a frequency dictionary is updated word by word, and the
 * word whose count first exceeds every earlier maximum is remembered.
 */
module MostRepeatedWord {
  import opened Seqs

  /**
   * Python's `s.split(" ")`: the pieces between single spaces, so two spaces
   * in a row give an empty word and the empty text gives one empty word.
   */
  function Split(s: string): (words: seq<string>)
    ensures |words| >= 1
    ensures forall i :: 0 <= i < |words| ==> NoSpace(words[i])
    decreases |s|
  {
    if s == [] then [""]
    else
      var rest := Split(s[1..]);
      if s[0] == ' ' then
        assert forall i :: 1 <= i < |rest| + 1 ==> ([""] + rest)[i] == rest[i - 1];
        [""] + rest
      else
        var w := [[s[0]] + rest[0]] + rest[1..];
        assert forall i :: 1 <= i < |w| ==> w[i] == rest[i];
        w
  }

  /** Python's `" ".join(words)`. */
  function Join(words: seq<string>): string
    decreases |words|
  {
    if words == [] then ""
    else if |words| == 1 then words[0]
    else words[0] + " " + Join(words[1..])
  }

  predicate NoSpace(w: string) { forall k :: 0 <= k < |w| ==> w[k] != ' ' }

  /** Joining the pieces with single spaces gives the text back. */
  lemma {:induction false} JoinSplit(s: string)
    ensures Join(Split(s)) == s
    decreases |s|
  {
    if s != [] {
      var rest := Split(s[1..]);
      JoinSplit(s[1..]);
      if s[0] == ' ' {
        assert Split(s) == [""] + rest;
        assert Split(s)[1..] == rest;
        assert s == "" + " " + s[1..];
      } else {
        var w := Split(s);
        assert w[0] == [s[0]] + rest[0] && w[1..] == rest[1..];
        if |rest| == 1 {
          assert s == [s[0]] + rest[0];
        } else {
          assert Join(rest) == rest[0] + " " + Join(rest[1..]);
          assert s == [s[0]] + s[1..];
        }
      }
    }
  }

  /** Words without spaces joined by single spaces split back into the same words. */
  lemma {:induction false} SplitJoin(words: seq<string>)
    requires |words| >= 1
    requires forall i :: 0 <= i < |words| ==> NoSpace(words[i])
    ensures Split(Join(words)) == words
    decreases |words|
  {
    if |words| == 1 {
      SplitWord(words[0], []);
      assert words[0] + [] == words[0];
      assert words == [words[0]] + [];
    } else {
      var rest := words[1..];
      var j := Join(rest);
      SplitJoin(rest);
      SplitWord(words[0], " " + j);
      assert (" " + j)[1..] == j;
      assert Split(" " + j) == [""] + rest;
      assert words[0] + "" == words[0];
      assert Join(words) == words[0] + (" " + j);
      assert words == [words[0]] + rest;
    }
  }

  /** A space-free word in front of the rest becomes the first piece, glued to the rest's first piece. */
  lemma {:induction false} SplitWord(w: string, t: string)
    requires NoSpace(w)
    ensures Split(w + t) == [w + Split(t)[0]] + Split(t)[1..]
    decreases |w|
  {
    if w != [] {
      var s := Split(t);
      SplitWord(w[1..], t);
      assert (w + t)[0] == w[0] && (w + t)[1..] == w[1..] + t;
      var r := Split(w[1..] + t);
      assert r[0] == w[1..] + s[0] && r[1..] == s[1..];
      assert [w[0]] + (w[1..] + s[0]) == w + s[0];
    } else {
      var s := Split(t);
      assert w + t == t && w + s[0] == s[0];
      assert s == [s[0]] + s[1..];
    }
  }

  /**
   * Word `w` is the answer for the first `n` words, first reaching its count
   * at index `j`: no word is more frequent, and before index `j` every word
   * was still below that count.
   */
  ghost predicate LeadsFrom(words: seq<string>, n: int, w: string, j: int)
  {
    0 <= j < n <= |words| && words[j] == w &&
    Count(words[..j + 1], w) == Count(words[..n], w) &&
    (forall u :: Count(words[..n], u) <= Count(words[..n], w)) &&
    (forall u :: Count(words[..j], u) < Count(words[..n], w))
  }

  /** `w` is a most frequent word, the first one to reach the highest count. */
  ghost predicate IsMostRepeated(words: seq<string>, w: string)
  {
    exists j :: LeadsFrom(words, |words|, w, j)
  }

  /** `freq.get(word, 0)`. */
  function Get(freq: map<string, nat>, word: string, default: nat): nat
  {
    if word in freq then freq[word] else default
  }

  /** `fin_most_repeated`. */
  method FinMostRepeated(s: string) returns (maxWord: string)
    ensures IsMostRepeated(Split(s), maxWord)
  {
    var words := Split(s);
    var freq: map<string, nat> := map[];
    maxWord := "";
    var maxCount := 0;
    ghost var lead := 0;
    for i := 0 to |words|
      invariant Counted(freq, words[..i])
      invariant Leader(words, i, maxWord, lead, maxCount)
    {
      var word := words[i];
      ghost var p, q := words[..i], words[..i + 1];
      CountStep(words, i, p, q, freq);
      freq := freq[word := Get(freq, word, 0) + 1];
      if freq[word] > maxCount {
        LeadNew(words, i, p, q, maxWord, lead, maxCount);
        maxCount := freq[word];
        maxWord := word;
        lead := i;
      } else {
        LeadKeep(words, i, p, q, maxWord, lead, maxCount);
      }
    }
    assert words[..|words|] == words;
  }

  /** `freq` maps each word to its number of occurrences in `p`, as `freq.get` reads it. */
  ghost predicate Counted(freq: map<string, nat>, p: seq<string>)
  {
    forall u :: Get(freq, u, 0) == Count(p, u)
  }

  /** The loop's `max_word` and `max_count` after `i` words, `j` being where the word took the lead. */
  ghost predicate Leader(words: seq<string>, i: int, w: string, j: int, m: int)
  {
    (i == 0 && m == 0) || (0 < i && LeadsFrom(words, i, w, j) && m == Count(words[..i], w))
  }

  /** Counting one more word, as `freq[word] = freq.get(word, 0) + 1` does. */
  lemma CountStep(words: seq<string>, i: int, p: seq<string>, q: seq<string>, freq: map<string, nat>)
    requires 0 <= i < |words| && p == words[..i] && q == words[..i + 1] && Counted(freq, p)
    ensures Counted(freq[words[i] := Get(freq, words[i], 0) + 1], q)
    ensures Get(freq, words[i], 0) + 1 == Count(q, words[i])
  {
    CountsAfter(words, i, p, q);
  }

  lemma CountsAfter(words: seq<string>, i: int, p: seq<string>, q: seq<string>)
    requires 0 <= i < |words| && p == words[..i] && q == words[..i + 1]
    ensures forall u :: Count(q, u) == Count(p, u) + if u == words[i] then 1 else 0
  {
    forall u
      ensures Count(q, u) == Count(p, u) + if u == words[i] then 1 else 0
    {
      CountPrefixSnoc(words, i, u);
    }
  }

  /** The word just counted overtakes the maximum `m` and becomes the answer. */
  lemma LeadNew(words: seq<string>, i: int, p: seq<string>, q: seq<string>, w: string, j: int, m: int)
    requires 0 <= i < |words| && p == words[..i] && q == words[..i + 1]
    requires Leader(words, i, w, j, m) && Count(q, words[i]) > m
    ensures Leader(words, i + 1, words[i], i, Count(q, words[i]))
  {
    CountsAfter(words, i, p, q);
    var c := Count(q, words[i]);
    forall u
      ensures Count(p, u) < c && Count(q, u) <= c
    {
      if i > 0 {
        assert Count(p, u) <= Count(p, w);
      }
    }
  }

  /** A word that does not overtake the maximum `m` leaves the answer where it was. */
  lemma LeadKeep(words: seq<string>, i: int, p: seq<string>, q: seq<string>, w: string, j: int, m: int)
    requires 0 <= i < |words| && p == words[..i] && q == words[..i + 1]
    requires Leader(words, i, w, j, m) && Count(q, words[i]) <= m
    ensures Leader(words, i + 1, w, j, m)
  {
    CountsAfter(words, i, p, q);
    assert 0 < i;
    assert w != words[i];
    forall u
      ensures Count(q, u) <= Count(q, w)
    {
    }
  }

  /** The answer is one of the words. */
  lemma MostRepeatedIsAWord(words: seq<string>, w: string)
    requires IsMostRepeated(words, w)
    ensures w in words
  {
  }

  /** On ties the word that reached the top count first wins, so the answer is determined. */
  lemma MostRepeatedUnique(words: seq<string>, w: string, v: string)
    requires IsMostRepeated(words, w) && IsMostRepeated(words, v)
    ensures w == v
  {
    var n := |words|;
    var j :| LeadsFrom(words, n, w, j);
    var k :| LeadsFrom(words, n, v, k);
    assert Count(words[..n], w) == Count(words[..n], v);
    if j < k {
      CountPrefixMonotone(words, j + 1, k, w);
      assert false;
    } else if k < j {
      CountPrefixMonotone(words, k + 1, j, v);
      assert false;
    }
  }

  /** An empty text splits into one empty word, and that word is the answer. */
  lemma EmptyTextGivesEmptyWord(w: string)
    requires IsMostRepeated(Split(""), w)
    ensures w == ""
  {
    MostRepeatedIsAWord(Split(""), w);
  }

  /** Two spaces in a row give an empty word between them. */
  lemma DoubleSpaceExample()
    ensures Split("a  b") == ["a", "", "b"]
  {
    var ws := ["a", "", "b"];
    forall i | 0 <= i < |ws|
      ensures NoSpace(ws[i])
    {
    }
    SplitJoin(ws);
    assert ws[1..] == ["", "b"] && ws[1..][1..] == ["b"];
    assert Join(ws) == "a  b";
  }

  /** The module's own call returns `"apple"`. */
  lemma ModuleExample(text: string, w: string)
    requires text == "apple banana apple orange banana apple"
    requires IsMostRepeated(Split(text), w)
    ensures w == "apple"
  {
    var ws := ExampleWords(text);
    ExampleLead(ws);
    MostRepeatedUnique(ws, w, "apple");
  }

  lemma ExampleWords(text: string) returns (ws: seq<string>)
    requires text == "apple banana apple orange banana apple"
    ensures ws == ["apple", "banana", "apple", "orange", "banana", "apple"]
    ensures Split(text) == ws
  {
    ExampleText(text);
    ws := ExamplePieces("apple", "banana", "orange");
  }

  /** The sample text, word by word. */
  lemma ExampleText(text: string)
    requires text == "apple banana apple orange banana apple"
    ensures text == "apple" + (" " + ("banana" + (" " + ("apple" + (" " + ("orange" + (" " + ("banana" + (" " + "apple")))))))))
  {
  }

  lemma ExamplePieces(a: string, b: string, o: string) returns (ws: seq<string>)
    requires NoSpace(a) && NoSpace(b) && NoSpace(o)
    ensures ws == [a, b, a, o, b, a]
    ensures Split(a + (" " + (b + (" " + (a + (" " + (o + (" " + (b + (" " + a)))))))))) == ws
  {
    ws := [a, b, a, o, b, a];
    var t4 := b + (" " + a);
    var t3 := o + (" " + t4);
    var t2 := a + (" " + t3);
    var t1 := b + (" " + t2);
    SplitOne(a);
    SplitCons(b, a);
    SplitCons(o, t4);
    SplitCons(a, t3);
    SplitCons(b, t2);
    SplitCons(a, t1);
  }

  /** A space-free word splits into itself. */
  lemma SplitOne(w: string)
    requires NoSpace(w)
    ensures Split(w) == [w]
  {
    SplitWord(w, "");
    assert w + "" == w;
  }

  /** A space-free word and a space in front of `t` add that word in front of `t`'s pieces. */
  lemma SplitCons(w: string, t: string)
    requires NoSpace(w)
    ensures Split(w + (" " + t)) == [w] + Split(t)
  {
    SplitWord(w, " " + t);
    assert (" " + t)[1..] == t;
    assert w + "" == w;
  }

  /** In the sample, "apple" reaches its count of 3 at index 5, when every word had at most 2. */
  lemma ExampleLead(ws: seq<string>)
    requires ws == ["apple", "banana", "apple", "orange", "banana", "apple"]
    ensures LeadsFrom(ws, 6, "apple", 5)
  {
    var p5 := ["apple", "banana", "apple", "orange", "banana"];
    assert ws[..5] == p5 && ws[..6] == ws == p5 + ["apple"];
    assert "apple"[0] != "banana"[0] && "apple"[0] != "orange"[0] && "banana"[0] != "orange"[0];
    ExampleCounts(p5, ws, "apple", "banana", "orange");
  }

  /** In the sample, "apple" is counted 3 times and every word at most twice before the last one. */
  lemma ExampleCounts(p5: seq<string>, ws: seq<string>, a: string, b: string, o: string)
    requires a != b && a != o && b != o
    requires p5 == [a, b, a, o, b] && ws == p5 + [a]
    ensures forall u :: Count(p5, u) < 3 && Count(ws, u) <= 3
    ensures Count(ws, a) == 3
  {
    forall u
      ensures Count(p5, u) < 3 && Count(ws, u) <= 3
    {
      CountFive(a, b, a, o, b, u);
      CountSnoc(p5, a, u);
    }
    CountFive(a, b, a, o, b, a);
    CountSnoc(p5, a, a);
  }


  /** How much one occurrence of `v` adds to the count of `u`. */
  function OneIfEqual<T(==)>(u: T, v: T): nat { if u == v then 1 else 0 }

  lemma CountFive<T>(a: T, b: T, c: T, d: T, e: T, u: T)
    ensures Count([a, b, c, d, e], u) == OneIfEqual(u, a) + OneIfEqual(u, b) + OneIfEqual(u, c) + OneIfEqual(u, d) + OneIfEqual(u, e)
  {
    var s3 := [a, b, c];
    var s4 := s3 + [d];
    assert s4 + [e] == [a, b, c, d, e] by {
      assert s4 == [a, b, c, d];
    }
    CountThree(a, b, c, u);
    CountSnoc(s3, d, u);
    CountSnoc(s4, e, u);
  }

  lemma CountThree<T>(a: T, b: T, c: T, u: T)
    ensures Count([a, b, c], u) == OneIfEqual(u, a) + OneIfEqual(u, b) + OneIfEqual(u, c)
  {
    assert [a] + [b] == [a, b];
    assert [a, b] + [c] == [a, b, c];
    CountSnoc([], a, u);
    CountSnoc([a], b, u);
    CountSnoc([a, b], c, u);
  }
}
