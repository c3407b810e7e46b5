/** The solver's state (`struct Game` in src/main.rs) and the two updates that do not
    involve the candidate list: construction and recording a guess result. */
module State {
  import opened Wrappers
  import opened Seqs

  /** A dictionary word; the solver assumes ASCII lower-case words, so one `char` is one byte. */
  type Word = seq<char>

  /** One cell per letter of the hidden word: `None` while unknown, `Some(c)` once placed. */
  type Pattern = seq<Option<char>>

  /** `words` are the remaining candidates (`available_words`), `guess` the placed letters
      (`current_guess`) and `notPresent` the letters reported absent, in reporting order.
      The word length chosen on the command line is `|guess|`. */
  datatype Game = Game(words: seq<Word>, guess: Pattern, notPresent: seq<char>)

  /** Every candidate has exactly one letter per cell. */
  ghost predicate WellFormed(g: Game) {
    forall w :: w in g.words ==> |w| == |g.guess|
  }

  /** `Game::new`: keep the words of the chosen length, in input order, and start with an
      all-unknown pattern and no excluded letters. */
  function New(letters: nat, words: seq<Word>): (g: Game)
    ensures |g.guess| == letters
    ensures forall i :: 0 <= i < letters ==> g.guess[i] == None
    ensures g.notPresent == []
    ensures IsSubseq(g.words, words)
    ensures forall w :: w in g.words <==> w in words && |w| == letters
    ensures forall w :: |w| == letters ==> multiset(g.words)[w] == multiset(words)[w]
    ensures WellFormed(g)
  {
    Game(Filter(words, w => |w| == letters), seq(letters, _ => None), [])
  }

  /** The `for pos in positions` loop of `mark_result`: each listed cell receives `letter`. */
  function SetCells(guess: Pattern, positions: seq<nat>, letter: char): (r: Pattern)
    requires forall k :: 0 <= k < |positions| ==> positions[k] < |guess|
    ensures |r| == |guess|
    ensures forall i: nat :: i < |guess| ==> r[i] == if i in positions then Some(letter) else guess[i]
    decreases |positions|
  {
    if |positions| == 0 then guess
    else SetCells(guess[positions[0] := Some(letter)], positions[1..], letter)
  }

  /** `mark_result`: an empty position list records `letter` as absent; otherwise `letter`
      is written into every reported cell. Every position must be a valid cell index,
      as the indexing `current_guess[pos]` panics otherwise. */
  function MarkResult(g: Game, letter: char, positions: seq<nat>): (r: Game)
    requires forall k :: 0 <= k < |positions| ==> positions[k] < |g.guess|
    ensures r.words == g.words
    ensures |r.guess| == |g.guess|
    ensures |positions| == 0 ==> r.guess == g.guess && r.notPresent == g.notPresent + [letter]
    ensures |positions| > 0 ==> r.notPresent == g.notPresent
    ensures |positions| > 0 ==> forall i: nat :: i < |g.guess| ==>
              r.guess[i] == if i in positions then Some(letter) else g.guess[i]
  {
    if |positions| == 0 then g.(notPresent := g.notPresent + [letter])
    else g.(guess := SetCells(g.guess, positions, letter))
  }

  /** The letters placed in a pattern, one per filled cell, in cell order. */
  function PlacedLetters(guess: Pattern): (r: seq<char>)
    ensures |r| <= |guess|
    ensures forall c :: c in r <==> Some(c) in guess
    decreases |guess|
  {
    if |guess| == 0 then []
    else
      assert guess == [guess[0]] + guess[1..];
      match guess[0]
      case Some(c) => [c] + PlacedLetters(guess[1..])
      case None => PlacedLetters(guess[1..])
  }

  /** The used letters computed by `show_scores_or_guesses`: the placed letters followed by
      the excluded ones. */
  function UsedLetters(g: Game): (r: seq<char>)
    ensures forall c :: c in r <==> Some(c) in g.guess || c in g.notPresent
    ensures |r| <= |g.guess| + |g.notPresent|
    ensures |r| >= |g.notPresent| && r[|r| - |g.notPresent|..] == g.notPresent
  {
    PlacedLetters(g.guess) + g.notPresent
  }
}
