/** `prune_words`: one `retain` pass over the candidates that drops every word
    contradicting the pattern or the excluded letters and, while it scans, collects for
    every unknown cell the letters seen there. */
module Prune {
  import opened Wrappers
  import opened Seqs
  import opened State

  /** The number of cells examined for `w`: the scan zips the word's characters with the
      pattern, so it stops at the shorter of the two. */
  function Cells(w: Word, guess: Pattern): nat {
    if |w| < |guess| then |w| else |guess|
  }

  /** Cell `i` of `w` passes both checks of the scan: its letter was not reported absent,
      and it equals the placed letter if the cell is placed. */
  predicate CellOk(w: Word, guess: Pattern, notPresent: seq<char>, i: nat)
    requires i < Cells(w, guess)
  {
    w[i] !in notPresent && (guess[i].Some? ==> guess[i].value == w[i])
  }

  /** Every cell in `[lo, hi)` passes. */
  predicate Passes(w: Word, guess: Pattern, notPresent: seq<char>, lo: nat, hi: nat)
    requires hi <= Cells(w, guess)
  {
    forall m :: lo <= m < hi ==> CellOk(w, guess, notPresent, m)
  }

  /** The word agrees with the pattern and the excluded letters on every examined cell. */
  predicate Consistent(w: Word, guess: Pattern, notPresent: seq<char>) {
    Passes(w, guess, notPresent, 0, Cells(w, guess))
  }

  /** `Consistent` as a filter predicate. */
  function Fits(guess: Pattern, notPresent: seq<char>): Word -> bool {
    w => Consistent(w, guess, notPresent)
  }

  /** The scan of `w` pushes `w[j]` into the list of cell `j`: cell `j` is unknown and every
      cell up to and including `j` passes. Whether `w` is kept does not matter. */
  predicate Reaches(w: Word, guess: Pattern, notPresent: seq<char>, j: nat) {
    j < Cells(w, guess) && guess[j].None? && Passes(w, guess, notPresent, 0, j + 1)
  }

  /** Some word of `words` pushes `c` into the list of cell `j`. */
  ghost predicate Contributes(words: seq<Word>, guess: Pattern, notPresent: seq<char>, j: nat, c: char) {
    exists k :: 0 <= k < |words| && Reaches(words[k], guess, notPresent, j) && words[k][j] == c
  }

  /** Appends `c` to a cell's list unless the list already holds it. */
  function Push(list: seq<char>, c: char): (r: seq<char>)
    ensures forall x :: x in r <==> x in list || x == c
    ensures NoDup(list) ==> NoDup(r)
  {
    if c in list then list else list + [c]
  }

  /** The body of the `retain` closure from cell `i` on: returns whether the word is kept and
      the lists after its letters were pushed. A rejected word keeps the letters it pushed
      before the cell that rejected it. */
  function ScanWord(w: Word, guess: Pattern, notPresent: seq<char>, lists: seq<seq<char>>, i: nat)
    : (r: (bool, seq<seq<char>>))
    requires |lists| == |guess|
    requires i <= Cells(w, guess)
    ensures |r.1| == |lists|
    ensures r.0 <==> Passes(w, guess, notPresent, i, Cells(w, guess))
    ensures forall j :: 0 <= j < |lists| ==>
              r.1[j] == if i <= j < Cells(w, guess) && guess[j].None? && Passes(w, guess, notPresent, i, j + 1)
                        then Push(lists[j], w[j]) else lists[j]
    decreases Cells(w, guess) - i
  {
    if i == Cells(w, guess) then (true, lists)
    else if w[i] in notPresent then
      assert !CellOk(w, guess, notPresent, i);
      (false, lists)
    else
      match guess[i]
      case Some(placed) =>
        if placed != w[i] then
          assert !CellOk(w, guess, notPresent, i);
          (false, lists)
        else ScanWord(w, guess, notPresent, lists, i + 1)
      case None =>
        ScanWord(w, guess, notPresent, lists[i := Push(lists[i], w[i])], i + 1)
  }

  lemma ContributesCons(words: seq<Word>, guess: Pattern, notPresent: seq<char>, j: nat, c: char)
    requires |words| > 0
    ensures Contributes(words, guess, notPresent, j, c) <==>
              (Reaches(words[0], guess, notPresent, j) && words[0][j] == c)
              || Contributes(words[1..], guess, notPresent, j, c)
  {
    if Contributes(words, guess, notPresent, j, c) {
      var k :| 0 <= k < |words| && Reaches(words[k], guess, notPresent, j) && words[k][j] == c;
      if k > 0 {
        assert words[1..][k - 1] == words[k];
      }
    }
    if Contributes(words[1..], guess, notPresent, j, c) {
      var k :| 0 <= k < |words[1..]| && Reaches(words[1..][k], guess, notPresent, j) && words[1..][k][j] == c;
      assert words[k + 1] == words[1..][k];
    }
  }

  /** The whole `retain` pass, word by word in list order, threading the lists through. */
  function Retain(words: seq<Word>, guess: Pattern, notPresent: seq<char>, lists: seq<seq<char>>)
    : (r: (seq<Word>, seq<seq<char>>))
    requires |lists| == |guess|
    ensures r.0 == Filter(words, Fits(guess, notPresent))
    ensures |r.1| == |lists|
    ensures forall j :: 0 <= j < |lists| && guess[j].Some? ==> r.1[j] == lists[j]
    ensures forall j :: 0 <= j < |lists| && NoDup(lists[j]) ==> NoDup(r.1[j])
    ensures forall j, c :: 0 <= j < |lists| && guess[j].None? ==>
              (c in r.1[j] <==> c in lists[j] || Contributes(words, guess, notPresent, j, c))
    decreases |words|
  {
    if |words| == 0 then ([], lists)
    else
      var scan := ScanWord(words[0], guess, notPresent, lists, 0);
      var rest := Retain(words[1..], guess, notPresent, scan.1);
      assert forall j, c :: 0 <= j < |lists| ==>
          (Contributes(words, guess, notPresent, j, c) <==>
             (Reaches(words[0], guess, notPresent, j) && words[0][j] == c)
             || Contributes(words[1..], guess, notPresent, j, c)) by {
        forall j, c | 0 <= j < |lists| {
          ContributesCons(words, guess, notPresent, j, c);
        }
      }
      (if scan.0 then [words[0]] + rest.0 else rest.0, rest.1)
  }

  /** `prune_words`: one empty list per cell, then the `retain` pass. */
  function PruneWords(g: Game): (r: (Game, seq<seq<char>>))
    ensures r.0.guess == g.guess && r.0.notPresent == g.notPresent
    ensures r.0.words == Filter(g.words, Fits(g.guess, g.notPresent))
    ensures |r.1| == |g.guess|
    ensures forall j :: 0 <= j < |g.guess| ==> NoDup(r.1[j])
    ensures forall j :: 0 <= j < |g.guess| && g.guess[j].Some? ==> r.1[j] == []
    ensures forall j, c :: 0 <= j < |g.guess| && g.guess[j].None? ==>
              (c in r.1[j] <==> Contributes(g.words, g.guess, g.notPresent, j, c))
  {
    var empty: seq<seq<char>> := seq(|g.guess|, _ => []);
    var res := Retain(g.words, g.guess, g.notPresent, empty);
    (g.(words := res.0), res.1)
  }
}

/** What the potential-letter lists of `prune_words` do and do not promise. */
module PruneFacts {
  import opened Wrappers
  import opened Seqs
  import opened State
  import opened Prune

  /** Every candidate is consistent with the pattern and the excluded letters. */
  ghost predicate AllConsistent(g: Game) {
    forall w :: w in g.words ==> Consistent(w, g.guess, g.notPresent)
  }

  /** Pruning leaves only consistent words, and the count never grows. */
  lemma PruneShrinks(g: Game)
    ensures AllConsistent(PruneWords(g).0)
    ensures |PruneWords(g).0.words| <= |g.words|
    ensures IsSubseq(PruneWords(g).0.words, g.words)
    ensures WellFormed(g) ==> WellFormed(PruneWords(g).0)
  {
  }

  /** Under well-formedness `Consistent` says what the pruning promises: no excluded letter
      anywhere in the word, and agreement with every placed cell. */
  lemma ConsistentMeans(w: Word, guess: Pattern, notPresent: seq<char>)
    requires |w| == |guess|
    ensures Consistent(w, guess, notPresent) <==>
              (forall i :: 0 <= i < |w| ==> w[i] !in notPresent)
              && (forall i :: 0 <= i < |guess| && guess[i].Some? ==> w[i] == guess[i].value)
  {
    assert Cells(w, guess) == |w|;
    if Consistent(w, guess, notPresent) {
      forall i | 0 <= i < |w|
        ensures w[i] !in notPresent && (guess[i].Some? ==> w[i] == guess[i].value)
      {
        assert CellOk(w, guess, notPresent, i);
      }
    }
  }

  /** A second pass with the same pattern and excluded letters keeps every word. */
  lemma PruneIdempotent(g: Game)
    ensures PruneWords(PruneWords(g).0).0 == PruneWords(g).0
  {
    var p := PruneWords(g).0;
    FilterKeepsAll(p.words, Fits(p.guess, p.notPresent));
  }

  /** A state whose candidates are all consistent is left as it is by pruning. */
  lemma PruneKeepsConsistent(g: Game)
    requires AllConsistent(g)
    ensures PruneWords(g).0 == g
  {
    FilterKeepsAll(g.words, Fits(g.guess, g.notPresent));
  }

  /** Every surviving word's letter at an unknown cell is in that cell's list. */
  lemma SurvivorsInLists(g: Game, w: Word, j: nat)
    requires w in g.words && Consistent(w, g.guess, g.notPresent)
    requires j < Cells(w, g.guess) && g.guess[j].None?
    ensures w in PruneWords(g).0.words
    ensures w[j] in PruneWords(g).1[j]
  {
    var k :| 0 <= k < |g.words| && g.words[k] == w;
    assert Reaches(g.words[k], g.guess, g.notPresent, j);
  }

  /** Every listed letter was seen at that cell in some word of the list before pruning,
      and is not an excluded letter. */
  lemma ListsFromWords(g: Game, j: nat)
    requires j < |g.guess|
    ensures forall c :: c in PruneWords(g).1[j] ==>
              c !in g.notPresent && exists w :: w in g.words && j < |w| && w[j] == c
  {
    var lists := PruneWords(g).1;
    forall c | c in lists[j]
      ensures c !in g.notPresent && exists w :: w in g.words && j < |w| && w[j] == c
    {
      assert g.guess[j].None?;
      assert Contributes(g.words, g.guess, g.notPresent, j, c);
      var k :| 0 <= k < |g.words| && Reaches(g.words[k], g.guess, g.notPresent, j) && g.words[k][j] == c;
      assert CellOk(g.words[k], g.guess, g.notPresent, j);
      assert g.words[k] in g.words;
    }
  }

  /** The lists over-approximate the survivors' letters: the word "ab" is rejected at its
      placed second cell, after it has already put 'a' into the list of the first cell. */
  lemma ListsOverApproximate()
    ensures var g := Game(["ab"], [None, Some('c')], []);
            PruneWords(g).0.words == [] && PruneWords(g).1[0] == ['a']
  {
    var g := Game(["ab"], [None, Some('c')], []);
    assert !CellOk("ab", g.guess, g.notPresent, 1);
  }
}
