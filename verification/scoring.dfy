/** `compute_letter_scores`: for every letter 'a'..='z' that has not been used, the number
    of candidates containing it, highest count first. */
module Scoring {
  import opened Seqs
  import opened State

  /** A letter with its score, `(char, usize)` in the source. */
  type Entry = (char, nat)

  /** The `i`-th lower-case letter. */
  function Letter(i: int): char
    requires 0 <= i < 26
  {
    (97 + i) as char
  }

  /** The letters among the first `k` of `'a'..='z'` that are not in `used`, in alphabet
      order. */
  function UnusedUpTo(used: seq<char>, k: nat): (r: seq<char>)
    requires k <= 26
    ensures forall c :: c in r <==> 97 <= c as int < 97 + k && c !in used
    ensures NoDup(r)
  {
    if k == 0 then []
    else
      var rest := UnusedUpTo(used, k - 1);
      if Letter(k - 1) in used then rest else rest + [Letter(k - 1)]
  }

  /** The letters that may still be scored. */
  function Unused(used: seq<char>): seq<char> {
    UnusedUpTo(used, 26)
  }

  /** The number of words containing `c` at least once: a word with repeated letters counts
      once, because the source deduplicates each word's letters before counting. */
  function WordsContaining(words: seq<Word>, c: char): (n: nat)
    ensures n <= |words|
    decreases |words|
  {
    if |words| == 0 then 0
    else WordsContaining(words[..|words| - 1], c) + (if c in words[|words| - 1] then 1 else 0)
  }

  function EntryLetter(e: Entry): char {
    e.0
  }

  function Score(e: Entry): nat {
    e.1
  }

  function Letters(s: seq<Entry>): seq<char> {
    MapSeq(s, EntryLetter)
  }

  function Scores(s: seq<Entry>): seq<nat> {
    MapSeq(s, Score)
  }

  /** What the source promises of its result: the unused letters each exactly once, each
      with its count, sorted by count with the highest first. The order among equal counts
      is left open, as the source sorts a hash map's entries with an unstable sort. */
  ghost predicate IsLetterScores(r: seq<Entry>, words: seq<Word>, used: seq<char>) {
    && multiset(Letters(r)) == multiset(Unused(used))
    && (forall i :: 0 <= i < |r| ==> r[i].1 == WordsContaining(words, r[i].0))
    && NonIncreasing(Scores(r))
  }

  /** The distinct letters of a word (the source sorts then deduplicates; only the set of
      letters matters to the count, so first-occurrence order is kept here). */
  function Distinct(w: Word): (r: seq<char>)
    ensures NoDup(r)
    ensures forall c :: c in r <==> c in w
    decreases |w|
  {
    if |w| == 0 then []
    else
      var rest := Distinct(w[..|w| - 1]);
      assert w == w[..|w| - 1] + [w[|w| - 1]];
      if w[|w| - 1] in rest then rest else rest + [w[|w| - 1]]
  }

  /** Entries ordered by score, highest first. */
  ghost predicate SortedByScore(s: seq<Entry>) {
    forall i, j :: 0 <= i < j < |s| ==> s[i].1 >= s[j].1
  }

  lemma SortedScores(s: seq<Entry>)
    requires SortedByScore(s)
    ensures NonIncreasing(Scores(s))
  {
  }

  lemma SortedTail(s: seq<Entry>)
    requires SortedByScore(s) && |s| > 0
    ensures SortedByScore(s[1..])
    ensures forall y :: y in s[1..] ==> y.1 <= s[0].1
  {
  }

  /** Prepending an entry that scores at least as much as every other keeps the order. */
  lemma SortedCons(h: Entry, s: seq<Entry>)
    requires SortedByScore(s)
    requires forall y :: y in s ==> y.1 <= h.1
    ensures SortedByScore([h] + s)
  {
    var r := [h] + s;
    forall i, j | 0 <= i < j < |r| ensures r[i].1 >= r[j].1 {
      if i > 0 {
        assert r[i] == s[i - 1] && r[j] == s[j - 1];
      } else {
        assert r[j] == s[j - 1] && r[j] in s;
      }
    }
  }

  /** Inserts `x` after every entry scoring at least as much. */
  function InsertByScore(x: Entry, s: seq<Entry>): (r: seq<Entry>)
    requires SortedByScore(s)
    ensures SortedByScore(r)
    ensures multiset(r) == multiset(s) + multiset{x}
    decreases |s|
  {
    if |s| == 0 then
      [x]
    else if s[0].1 < x.1 then
      SortedTail(s);
      assert s == [s[0]] + s[1..];
      SortedCons(x, s);
      [x] + s
    else
      SortedTail(s);
      var rest := InsertByScore(x, s[1..]);
      assert forall y :: y in rest ==> y.1 <= s[0].1 by {
        forall y | y in rest ensures y.1 <= s[0].1 {
          assert y in multiset(rest);
        }
      }
      SortedCons(s[0], rest);
      assert s == [s[0]] + s[1..];
      [s[0]] + rest
  }

  /** Insertion sort by score, highest first. */
  function SortByScore(s: seq<Entry>): (r: seq<Entry>)
    ensures SortedByScore(r)
    ensures multiset(r) == multiset(s)
    decreases |s|
  {
    if |s| == 0 then []
    else
      assert s == [s[0]] + s[1..];
      InsertByScore(s[0], SortByScore(s[1..]))
  }

  /** The zero-initialised map of `compute_letter_scores`: one key per unused letter. */
  method InitCounts(used: seq<char>) returns (counts: map<char, nat>)
    ensures forall c :: c in counts <==> c in Unused(used)
    ensures forall c :: c in counts ==> counts[c] == 0
  {
    counts := map[];
    var k := 0;
    while k < 26
      invariant 0 <= k <= 26
      invariant forall c :: c in counts <==> c in UnusedUpTo(used, k)
      invariant forall c :: c in counts ==> counts[c] == 0
    {
      if Letter(k) !in used {
        counts := counts[Letter(k) := 0];
      }
      k := k + 1;
    }
  }

  /** One word's contribution: every distinct letter of `w` that is a key gains one. */
  method CountWord(counts: map<char, nat>, w: Word) returns (counts': map<char, nat>)
    ensures counts'.Keys == counts.Keys
    ensures forall c :: c in counts ==> counts'[c] == counts[c] + (if c in w then 1 else 0)
  {
    var unique := Distinct(w);
    counts' := counts;
    var m := 0;
    while m < |unique|
      invariant 0 <= m <= |unique|
      invariant counts'.Keys == counts.Keys
      invariant forall c :: c in counts ==> counts'[c] == counts[c] + (if c in unique[..m] then 1 else 0)
    {
      assert unique[..m + 1] == unique[..m] + [unique[m]];
      assert unique[m] !in unique[..m];
      if unique[m] in counts' {
        counts' := counts'[unique[m] := counts'[unique[m]] + 1];
      }
      m := m + 1;
    }
    assert unique[..m] == unique;
  }

  /** The map's entries; they are taken in alphabet order here, while the source's hash-map
      order is unspecified (the sort that follows makes only the scores' order matter). */
  method Entries(counts: map<char, nat>, used: seq<char>) returns (entries: seq<Entry>)
    requires forall c :: c in counts <==> c in Unused(used)
    ensures Letters(entries) == Unused(used)
    ensures forall i :: 0 <= i < |entries| ==> entries[i].0 in counts && entries[i].1 == counts[entries[i].0]
  {
    entries := [];
    var k := 0;
    while k < 26
      invariant 0 <= k <= 26
      invariant Letters(entries) == UnusedUpTo(used, k)
      invariant forall i :: 0 <= i < |entries| ==> entries[i].0 in counts && entries[i].1 == counts[entries[i].0]
    {
      var c := Letter(k);
      if c !in used {
        var e: Entry := (c, counts[c]);
        MapAppend(entries, [e], EntryLetter);
        entries := entries + [e];
      }
      k := k + 1;
    }
  }

  /** `compute_letter_scores(used)`: a map from every unused letter to zero, one increment per
      word and distinct letter of the word, then the entries sorted by count. */
  method ComputeLetterScores(words: seq<Word>, used: seq<char>) returns (r: seq<Entry>)
    ensures multiset(Letters(r)) == multiset(Unused(used))
    ensures forall i :: 0 <= i < |r| ==> r[i].1 == WordsContaining(words, r[i].0)
    ensures NonIncreasing(Scores(r))
  {
    var counts := InitCounts(used);
    var n := 0;
    while n < |words|
      invariant 0 <= n <= |words|
      invariant forall c :: c in counts <==> c in Unused(used)
      invariant forall c :: c in counts ==> counts[c] == WordsContaining(words[..n], c)
    {
      assert words[..n + 1][..n] == words[..n];
      counts := CountWord(counts, words[n]);
      n := n + 1;
    }
    assert words[..n] == words;
    var entries := Entries(counts, used);
    r := SortByScore(entries);
    SortedScores(r);
    MapPreservesPermutation(entries, r, EntryLetter);
    forall i | 0 <= i < |r| ensures r[i].1 == WordsContaining(words, r[i].0) {
      assert r[i] in multiset(entries);
    }
  }

  /** The score of a letter, as a function value. */
  function CountIn(words: seq<Word>): char -> nat {
    c => WordsContaining(words, c)
  }

  /** A valid result lists every unused lower-case letter exactly once, each with a score no
      larger than the number of candidates. */
  lemma LetterScoresCoverUnused(r: seq<Entry>, words: seq<Word>, used: seq<char>)
    requires IsLetterScores(r, words, used)
    ensures NoDup(Letters(r))
    ensures forall c :: c in Letters(r) <==> 'a' <= c <= 'z' && c !in used
    ensures forall i :: 0 <= i < |r| ==> r[i].1 <= |words|
  {
    NoDupMultiset(Unused(used));
    NoDupMultiset(Letters(r));
    forall c ensures c in Letters(r) <==> 'a' <= c <= 'z' && c !in used {
      assert c in Letters(r) <==> c in multiset(Letters(r));
      assert c in Unused(used) <==> c in multiset(Unused(used));
    }
  }

  /** The order among equal scores is open, but the column of scores is not: any two valid
      results carry the same scores at every position. */
  lemma LetterScoresDetermined(r1: seq<Entry>, r2: seq<Entry>, words: seq<Word>, used: seq<char>)
    requires IsLetterScores(r1, words, used) && IsLetterScores(r2, words, used)
    ensures Scores(r1) == Scores(r2)
  {
    assert Scores(r1) == MapSeq(Letters(r1), CountIn(words));
    assert Scores(r2) == MapSeq(Letters(r2), CountIn(words));
    MapPreservesPermutation(Letters(r1), Letters(r2), CountIn(words));
    NonIncreasingUnique(Scores(r1), Scores(r2));
  }

  /** Letters at or beyond position `k` that are all used add nothing. */
  lemma {:induction false} UnusedStopsAt(used: seq<char>, k: nat, n: nat)
    requires k <= n <= 26
    requires forall j :: k <= j < n ==> Letter(j) in used
    ensures UnusedUpTo(used, n) == UnusedUpTo(used, k)
    decreases n
  {
    if n > k {
      UnusedStopsAt(used, k, n - 1);
    }
  }

  lemma SwapMultiset(x: char, y: char)
    ensures multiset([x, y]) == multiset([y, x])
  {
    assert [x, y] == [x] + [y] && [y, x] == [y] + [x];
  }

  /** The letters 'c' to 'z'. */
  function AllButAB(): (used: seq<char>)
    ensures |used| == 24 && forall i :: 0 <= i < 24 ==> used[i] == Letter(i + 2)
  {
    seq(24, i requires 0 <= i < 24 => Letter(i + 2))
  }

  lemma UnusedAllButAB()
    ensures Unused(AllButAB()) == ['a', 'b']
  {
    var used := AllButAB();
    assert Letter(0) == 'a' && Letter(1) == 'b';
    assert 'a' !in used && 'b' !in used;
    assert UnusedUpTo(used, 1) == UnusedUpTo(used, 0) + ['a'];
    assert UnusedUpTo(used, 2) == ['a', 'b'];
    forall j | 2 <= j < 26 ensures Letter(j) in used {
      assert used[j - 2] == Letter(j);
    }
    UnusedStopsAt(used, 2, 26);
  }

  /** Two letters contained in equally many words, listed in the given order, with their
      counts: the letter column and a valid score column. */
  lemma TiedPairScores(x: char, y: char, words: seq<Word>, n: nat)
    requires WordsContaining(words, x) == n && WordsContaining(words, y) == n
    ensures var r: seq<Entry> := [(x, n), (y, n)];
            && Letters(r) == [x, y]
            && (forall i :: 0 <= i < |r| ==> r[i].1 == WordsContaining(words, r[i].0))
            && NonIncreasing(Scores(r))
  {
    var r: seq<Entry> := [(x, n), (y, n)];
    assert Letters(r) == [x, y];
    assert Scores(r) == [n, n];
  }

  /** Two unused letters contained in equally many words, listed in the given order. */
  lemma TiedPairValid(x: char, y: char, words: seq<Word>, used: seq<char>, n: nat)
    requires multiset([x, y]) == multiset(Unused(used))
    requires WordsContaining(words, x) == n && WordsContaining(words, y) == n
    ensures IsLetterScores([(x, n), (y, n)], words, used)
  {
    TiedPairScores(x, y, words, n);
  }

  /** Equal scores may come out in either order: with only 'a' and 'b' unused and the one
      candidate "ab", both letters score one and both orders are valid results. */
  lemma TieOrderOpen()
    ensures IsLetterScores([('a', 1), ('b', 1)], ["ab"], AllButAB())
    ensures IsLetterScores([('b', 1), ('a', 1)], ["ab"], AllButAB())
  {
    UnusedAllButAB();
    SwapMultiset('a', 'b');
    assert WordsContaining(["ab"], 'a') == 1 && WordsContaining(["ab"], 'b') == 1 by {
      assert ["ab"][..0] == [];
    }
    TiedPairValid('a', 'b', ["ab"], AllButAB(), 1);
    TiedPairValid('b', 'a', ["ab"], AllButAB(), 1);
  }
}
