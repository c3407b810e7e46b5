/** `fill_certain_letters` and the propagation step of a turn (`prune_words` followed by
    `fill_certain_letters`). */
module Infer {
  import opened Wrappers
  import opened Seqs
  import opened State
  import opened Prune
  import opened PruneFacts

  /** `fill_certain_letters`: an unknown cell whose list holds exactly one letter receives it.
      The pattern and the lists are zipped, so cells beyond the last list are left alone. */
  function FillCertainLetters(guess: Pattern, lists: seq<seq<char>>): (r: Pattern)
    ensures |r| == |guess|
    ensures forall i :: 0 <= i < |guess| && guess[i].Some? ==> r[i] == guess[i]
    ensures forall i :: 0 <= i < |guess| && r[i] != guess[i] ==>
              guess[i].None? && i < |lists| && lists[i] == [r[i].value]
    ensures forall i :: 0 <= i < |guess| && guess[i].None? && i < |lists| && |lists[i]| == 1 ==>
              r[i] == Some(lists[i][0])
  {
    seq(|guess|, i requires 0 <= i < |guess| =>
      if guess[i].None? && i < |lists| && |lists[i]| == 1 then Some(lists[i][0]) else guess[i])
  }

  /** One consistency-propagation step: prune, then fill the forced cells. */
  function Propagate(g: Game): (r: Game)
    ensures r.notPresent == g.notPresent
    ensures |r.guess| == |g.guess|
    ensures r.words == PruneWords(g).0.words
  {
    var pruned := PruneWords(g);
    pruned.0.(guess := FillCertainLetters(pruned.0.guess, pruned.1))
  }

  /** Forced-letter inference is sound: every surviving word carries each filled letter in
      its cell, so the survivors stay consistent with the extended pattern. */
  lemma PropagateSound(g: Game)
    ensures AllConsistent(Propagate(g))
    ensures forall i :: 0 <= i < |g.guess| && g.guess[i].Some? ==> Propagate(g).guess[i] == g.guess[i]
  {
    var pruned := PruneWords(g);
    var r := Propagate(g);
    PruneShrinks(g);
    forall w | w in r.words ensures Consistent(w, r.guess, r.notPresent) {
      assert Consistent(w, g.guess, g.notPresent);
      forall m | 0 <= m < Cells(w, r.guess) ensures CellOk(w, r.guess, r.notPresent, m) {
        assert CellOk(w, g.guess, g.notPresent, m);
        if r.guess[m] != g.guess[m] {
          SurvivorsInLists(g, w, m);
        }
      }
    }
  }

  /** Once every word is consistent, a cell's list holds exactly the letters the candidates
      have in that cell. */
  lemma ContributesWhenConsistent(g: Game, j: nat, c: char)
    requires AllConsistent(g)
    requires j < |g.guess| && g.guess[j].None?
    ensures Contributes(g.words, g.guess, g.notPresent, j, c) <==>
              exists k :: 0 <= k < |g.words| && j < |g.words[k]| && g.words[k][j] == c
  {
    if exists k :: 0 <= k < |g.words| && j < |g.words[k]| && g.words[k][j] == c {
      var k :| 0 <= k < |g.words| && j < |g.words[k]| && g.words[k][j] == c;
      assert Consistent(g.words[k], g.guess, g.notPresent);
      assert Reaches(g.words[k], g.guess, g.notPresent, j);
    }
  }

  /** Propagation reaches a fixed point as soon as the candidates are consistent: a second
      step finds the same lists on the still-unknown cells, none of them a single letter. */
  lemma PropagateStable(g: Game)
    requires AllConsistent(g)
    ensures Propagate(Propagate(g)) == Propagate(g)
  {
    PruneKeepsConsistent(g);
    var lists := PruneWords(g).1;
    var p1 := Propagate(g);
    assert p1.words == g.words;
    PropagateSound(g);
    PruneKeepsConsistent(p1);
    var lists1 := PruneWords(p1).1;
    var f2 := FillCertainLetters(p1.guess, lists1);
    forall i | 0 <= i < |p1.guess| ensures f2[i] == p1.guess[i] {
      if p1.guess[i].None? {
        assert g.guess[i].None?;
        assert |lists[i]| != 1;
        forall c ensures c in lists1[i] <==> c in lists[i] {
          ContributesWhenConsistent(g, i, c);
          ContributesWhenConsistent(p1, i, c);
        }
        assert Elems(lists1[i]) == Elems(lists[i]);
        NoDupCard(lists[i]);
        NoDupCard(lists1[i]);
      }
    }
    assert f2 == p1.guess;
  }

  /** From the second step on, propagation changes nothing. */
  lemma PropagateSettles(g: Game)
    ensures Propagate(Propagate(Propagate(g))) == Propagate(Propagate(g))
  {
    PropagateSound(g);
    PropagateStable(Propagate(g));
  }

  /** The first step is not always a fixed point: "cd" is rejected at its placed second cell
      after putting 'c' into the first cell's list, so that cell is filled with 'a' only by
      the second step. */
  lemma PropagateNotIdempotent()
    ensures var g := Game(["ab", "cd"], [None, Some('b')], []);
            Propagate(g).guess == [None, Some('b')]
            && Propagate(Propagate(g)).guess == [Some('a'), Some('b')]
  {
    var g := Game(["ab", "cd"], [None, Some('b')], []);
    assert Consistent("ab", g.guess, g.notPresent);
    assert !CellOk("cd", g.guess, g.notPresent, 1);
  }
}
