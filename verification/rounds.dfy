/** What a round guarantees over the whole game: the candidates stay exactly the dictionary
    words that fit what is known, the hidden word is never pruned while the feedback is
    accurate, and placed and excluded letters stay apart. */
module Rounds {
  import opened Wrappers
  import opened Seqs
  import opened State
  import opened Prune
  import opened PruneFacts
  import opened Infer
  import opened Play

  /** The feedback is accurate for `target`: every reported cell holds `letter`, and an empty
      report means `letter` does not occur in `target`. */
  ghost predicate Accurate(target: Word, letter: char, positions: seq<nat>) {
    && (|positions| == 0 ==> letter !in target)
    && (forall k :: 0 <= k < |positions| ==> positions[k] < |target| && target[positions[k]] == letter)
  }

  /** Accurate feedback keeps the hidden word consistent with what has been recorded. */
  lemma MarkKeepsTarget(g: Game, target: Word, letter: char, positions: seq<nat>)
    requires forall k :: 0 <= k < |positions| ==> positions[k] < |g.guess|
    requires Consistent(target, g.guess, g.notPresent)
    requires Accurate(target, letter, positions)
    ensures var m := MarkResult(g, letter, positions); Consistent(target, m.guess, m.notPresent)
  {
    var m := MarkResult(g, letter, positions);
    forall i | 0 <= i < Cells(target, m.guess) ensures CellOk(target, m.guess, m.notPresent, i) {
      assert CellOk(target, g.guess, g.notPresent, i);
      if |positions| > 0 && i in positions {
        var k :| 0 <= k < |positions| && positions[k] == i;
      }
    }
  }

  /** While the feedback is accurate, the hidden word survives every round; so the round never
      ends with no words left, and a solved round names the hidden word. */
  lemma TargetSurvives(g: Game, target: Word, letter: char, positions: seq<nat>)
    requires forall k :: 0 <= k < |positions| ==> positions[k] < |g.guess|
    requires target in g.words && Consistent(target, g.guess, g.notPresent)
    requires Accurate(target, letter, positions)
    ensures var r := Round(g, letter, positions);
            target in r.0.words && Consistent(target, r.0.guess, r.0.notPresent)
    ensures Round(g, letter, positions).1 != NoWordsLeft
    ensures Round(g, letter, positions).1.Solved? ==> Round(g, letter, positions).1.word == target
  {
    var m := MarkResult(g, letter, positions);
    MarkKeepsTarget(g, target, letter, positions);
    assert target in PruneWords(m).0.words;
    PropagateSound(m);
  }

  /** No letter is both placed and excluded. */
  ghost predicate Disjoint(g: Game) {
    forall c :: Some(c) in g.guess ==> c !in g.notPresent
  }

  /** A round keeps placed and excluded letters apart, given that the letter was not used
      before (`read_guess` rejects a used letter). */
  lemma RoundKeepsDisjoint(g: Game, letter: char, positions: seq<nat>)
    requires forall k :: 0 <= k < |positions| ==> positions[k] < |g.guess|
    requires Disjoint(g)
    requires letter !in UsedLetters(g)
    ensures Disjoint(Round(g, letter, positions).0)
  {
    var m := MarkResult(g, letter, positions);
    assert Disjoint(m) by {
      forall c | Some(c) in m.guess ensures c !in m.notPresent {
        var i :| 0 <= i < |m.guess| && m.guess[i] == Some(c);
        if |positions| > 0 && i !in positions {
          assert Some(c) in g.guess;
        }
        if |positions| == 0 {
          assert Some(c) in g.guess;
        }
      }
    }
    var pruned := PruneWords(m);
    var r := Propagate(m);
    forall c | Some(c) in r.guess ensures c !in r.notPresent {
      var i :| 0 <= i < |r.guess| && r.guess[i] == Some(c);
      if r.guess[i] != m.guess[i] {
        assert c in pruned.1[i];
        ListsFromWords(m, i);
      } else {
        assert Some(c) in m.guess;
      }
    }
  }

  /** A round never adds words, keeps every word one letter per cell, and keeps every
      remaining word consistent with the extended knowledge. */
  lemma RoundShrinks(g: Game, letter: char, positions: seq<nat>)
    requires forall k :: 0 <= k < |positions| ==> positions[k] < |g.guess|
    requires WellFormed(g)
    ensures var r := Round(g, letter, positions).0;
            WellFormed(r) && AllConsistent(r) && IsSubseq(r.words, g.words)
  {
    var m := MarkResult(g, letter, positions);
    PruneShrinks(m);
    PropagateSound(m);
  }

  /** The candidates are exactly the words of `orig` that fit what is known. */
  ghost predicate Exact(orig: seq<Word>, g: Game) {
    g.words == Filter(orig, Fits(g.guess, g.notPresent))
  }

  /** Keeping every placed cell and every excluded letter can only rule out more words. */
  lemma ConsistentWeakens(w: Word, guess: Pattern, notPresent: seq<char>, guess': Pattern, notPresent': seq<char>)
    requires |guess'| == |guess|
    requires forall i :: 0 <= i < |guess| && guess[i].Some? ==> guess'[i] == guess[i]
    requires forall c :: c in notPresent ==> c in notPresent'
    requires Consistent(w, guess', notPresent')
    ensures Consistent(w, guess, notPresent)
  {
    forall m | 0 <= m < Cells(w, guess) ensures CellOk(w, guess, notPresent, m) {
      assert CellOk(w, guess', notPresent', m);
    }
  }

  /** A report on open cells only adds knowledge: placed cells and excluded letters stay. */
  lemma MarkExtends(g: Game, letter: char, positions: seq<nat>)
    requires forall k :: 0 <= k < |positions| ==> positions[k] < |g.guess| && g.guess[positions[k]].None?
    ensures var m := MarkResult(g, letter, positions);
            && |m.guess| == |g.guess|
            && (forall i :: 0 <= i < |g.guess| && g.guess[i].Some? ==> m.guess[i] == g.guess[i])
            && (forall c :: c in g.notPresent ==> c in m.notPresent)
  {
    var m := MarkResult(g, letter, positions);
    if |positions| > 0 {
      forall i | 0 <= i < |g.guess| && g.guess[i].Some? ensures m.guess[i] == g.guess[i] {
        var n: nat := i;
        assert n !in positions;
      }
    }
  }

  /** A new game holds exactly the dictionary words of the chosen length, and each of them
      fits the empty pattern. */
  lemma NewExact(letters: nat, dict: seq<Word>)
    ensures Exact(New(letters, dict).words, New(letters, dict))
  {
    var g := New(letters, dict);
    forall i | 0 <= i < |g.words| ensures Fits(g.guess, g.notPresent)(g.words[i]) {
      var w := g.words[i];
      assert w in g.words;
      forall m | 0 <= m < Cells(w, g.guess) ensures CellOk(w, g.guess, g.notPresent, m) {
      }
    }
    FilterKeepsAll(g.words, Fits(g.guess, g.notPresent));
  }

  /** When reports name open cells only, a round keeps the candidates exactly the words of
      `orig` that fit the extended knowledge: none is lost and none is kept wrongly. */
  lemma RoundKeepsExact(orig: seq<Word>, g: Game, letter: char, positions: seq<nat>)
    requires forall k :: 0 <= k < |positions| ==> positions[k] < |g.guess| && g.guess[positions[k]].None?
    requires Exact(orig, g)
    ensures Exact(orig, Round(g, letter, positions).0)
  {
    var m := MarkResult(g, letter, positions);
    var r := Round(g, letter, positions).0;
    assert r == Propagate(m);
    MarkExtends(g, letter, positions);
    PropagateSound(m);
    forall w | w in orig && Fits(m.guess, m.notPresent)(w) ensures Fits(g.guess, g.notPresent)(w) {
      ConsistentWeakens(w, g.guess, g.notPresent, m.guess, m.notPresent);
    }
    FilterNarrow(orig, Fits(g.guess, g.notPresent), Fits(m.guess, m.notPresent));
    assert r.words == Filter(orig, Fits(m.guess, m.notPresent));
    forall w | w in orig ensures Fits(m.guess, m.notPresent)(w) == Fits(r.guess, r.notPresent)(w) {
      if Consistent(w, r.guess, r.notPresent) {
        ConsistentWeakens(w, m.guess, m.notPresent, r.guess, r.notPresent);
      }
      if Consistent(w, m.guess, m.notPresent) {
        ConsistentWeakens(w, g.guess, g.notPresent, m.guess, m.notPresent);
        assert w in g.words;
        assert w in r.words;
      }
    }
    FilterCongruent(orig, Fits(m.guess, m.notPresent), Fits(r.guess, r.notPresent));
  }

  /** Starting from `Game::new`, every game reached by rounds that report open cells holds
      exactly the dictionary words of the chosen length that fit the pattern and the excluded
      letters. */
  lemma ExactMeans(letters: nat, dict: seq<Word>, g: Game)
    requires Exact(New(letters, dict).words, g)
    ensures forall w :: w in g.words <==> w in dict && |w| == letters && Consistent(w, g.guess, g.notPresent)
  {
  }

  /** Reporting a letter at an already placed cell overwrites it, and words that fitted the
      old letter are not brought back: after "a" at cell 1 the candidates of ab, bb, ac are
      ab and ac; "b" at cell 1 then leaves none, although "bb" fits the new pattern. */
  lemma OverwriteLosesWords()
    ensures var g := Game(["ab", "ac"], [Some('a'), None], []);
            && Round(g, 'b', [0]).0.guess == [Some('b'), None]
            && Round(g, 'b', [0]).0.words == []
            && Consistent("bb", [Some('b'), None], [])
  {
    var g := Game(["ab", "ac"], [Some('a'), None], []);
    var m := MarkResult(g, 'b', [0]);
    assert m.guess == [Some('b'), None];
    assert !CellOk("ab", m.guess, m.notPresent, 0);
    assert !CellOk("ac", m.guess, m.notPresent, 0);
    assert CellOk("bb", [Some('b'), None], [], 0) && CellOk("bb", [Some('b'), None], [], 1);
  }
}
