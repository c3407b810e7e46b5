/** One round of `Game::play`: the position check of `read_guess`, `mark_result`, the
    propagation step, and the check for one or zero remaining words. */
module Play {
  import opened Wrappers
  import opened State
  import opened Infer
  import opened Input

  /** The position check of `read_guess`: positions are typed 1-based; a position of 0 or
      beyond the word length rejects the whole line (the user is asked again), otherwise
      every position is shifted to a 0-based cell index. */
  function CheckPositions(typed: seq<nat>, letters: nat): (r: Option<seq<nat>>)
    ensures r.None? <==> exists k :: 0 <= k < |typed| && (typed[k] == 0 || typed[k] > letters)
    ensures r.Some? ==> |r.value| == |typed|
    ensures r.Some? ==> forall k :: 0 <= k < |typed| ==> r.value[k] < letters && r.value[k] + 1 == typed[k]
  {
    if exists k :: 0 <= k < |typed| && (typed[k] == 0 || typed[k] > letters) then None
    else Some(seq(|typed|, k requires 0 <= k < |typed| => typed[k] - 1))
  }

  /** The end-of-round match on the remaining words. */
  datatype Outcome = Solved(word: Word) | NoWordsLeft | Continue

  /** A single remaining word solves the game, no remaining word is an error, and anything
      else calls for another round. */
  function CheckEnd(words: seq<Word>): (r: Outcome)
    ensures r.Solved? <==> |words| == 1
    ensures r.Solved? ==> words == [r.word]
    ensures r.NoWordsLeft? <==> |words| == 0
  {
    if |words| == 1 then Solved(words[0])
    else if |words| == 0 then NoWordsLeft
    else Continue
  }

  /** One round after the guess was read: record it, propagate, check for the end. */
  function Round(g: Game, letter: char, positions: seq<nat>): (r: (Game, Outcome))
    requires forall k :: 0 <= k < |positions| ==> positions[k] < |g.guess|
    ensures r.1 == CheckEnd(r.0.words)
    ensures |r.0.words| <= |g.words|
    ensures |r.0.guess| == |g.guess|
  {
    var marked := MarkResult(g, letter, positions);
    var next := Propagate(marked);
    (next, CheckEnd(next.words))
  }

  /** A round fed from typed input: an out-of-range position gives `None` (the source asks
      again); accepted positions never index outside the pattern. */
  function TypedRound(g: Game, letter: char, typed: seq<nat>): (r: Option<(Game, Outcome)>)
    ensures r.None? <==> exists k :: 0 <= k < |typed| && (typed[k] == 0 || typed[k] > |g.guess|)
    ensures r.Some? ==> |r.value.0.words| <= |g.words|
  {
    match CheckPositions(typed, |g.guess|)
    case None => None
    case Some(positions) => Some(Round(g, letter, positions))
  }

  /** A round fed from group 2 of the guess line, read as evidently intended: no positions
      means the letter is absent. */
  function LineRound(g: Game, letter: char, group: string): (r: Option<(Game, Outcome)>)
    ensures Trim(group) == "" ==> r == Some(Round(g, letter, []))
  {
    match Positions(group)
    case None => None
    case Some(typed) => TypedRound(g, letter, typed)
  }

  /** Whatever positions are typed after the letter, the round sees exactly those, provided
      each fits in a `usize`; a larger one panics. */
  lemma LineRoundReads(g: Game, letter: char, typed: seq<nat>)
    ensures LineRound(g, letter, Typed(typed)) ==
            if InUsize(typed) then TypedRound(g, letter, typed) else None
  {
    PositionsRoundTrip(typed);
  }
}
