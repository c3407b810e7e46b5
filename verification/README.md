# Hangman solver: candidate tracking

A Dafny model of the candidate-tracking engine of the `Game` type in `src/main.rs` of the
hangman solver. The game holds the dictionary words that may still be the hidden word, the
current guess (one optional letter per cell) and the letters known to be absent. A round
reads a letter and the 1-based cells where it occurs, records the answer (`mark_result`),
drops every word that disagrees with what is known while collecting, per open cell, the
letters seen there (`prune_words`), fills each open cell whose list holds exactly one letter
(`fill_certain_letters`), and stops when one word or none is left. Between rounds the solver
ranks the unused letters by how many remaining words contain them (`compute_letter_scores`).

Files, one module each unless noted:

- `wrappers.dfy` (`Wrappers`): `Option`.
- `seqs.dfy` (`Seqs`): filtering, mapping, subsequences, duplicate-freedom, non-increasing
  sequences, with their lemmas.
- `state.dfy` (`State`): the `Game` record, `Game::new`, `mark_result`, the used letters.
- `prune.dfy` (`Prune`, `PruneFacts`): `prune_words` step by step, and what its result means.
- `infer.dfy` (`Infer`): `fill_certain_letters` and the prune-then-fill step of a round.
- `scoring.dfy` (`Scoring`): `compute_letter_scores`.
- `input.dfy` (`Input`): how the typed position list is split and parsed.
- `play.dfy` (`Play`): the position check, one round, and the end-of-game match.
- `rounds.dfy` (`Rounds`): properties of whole rounds: the candidates stay exactly the
  fitting dictionary words, and a hidden word is never lost.

Modelling choices:

- The number of letters is the length of the guess; `Game::new` creates the guess with that
  length and nothing changes it, and the potential-letter lists have the same length.
- `prune_words` zips each word with the guess, so only the first `min(|word|, |guess|)` cells
  of a word are examined. `State.WellFormed` (every word has the guess's length) holds after
  `Game::new` and after every round, so the truncation never matters there.
- The potential-letter lists are built while words are being examined, so a word that is
  rejected at a later cell has already added its letters at earlier open cells. The lists
  therefore over-approximate the letters of the surviving words. The model follows the code
  here, and the lemmas show the consequences: a cell may be filled only one round later than
  the surviving words would allow (`PruneFacts.ListsOverApproximate`,
  `Infer.PropagateNotIdempotent`). The lists are thus not limited to the letters of the
  surviving words.
- `compute_letter_scores` collects a hash map and sorts it with an unstable sort, so the
  order of letters with equal scores is not fixed. The model builds the entries in alphabet
  order and sorts them with an insertion sort; its contract states only what every run of
  the source satisfies (`Scoring.IsLetterScores`).
- Characters are Dafny `char`s; the words are assumed to be ASCII, so the byte length used by
  `Game::new` equals the number of characters.

## Model

| member | source | states |
|---|---|---|
| State.New | src/main.rs:47-60 | the guess has `letters` empty cells and no letter is excluded; the kept words are exactly the dictionary words of that length, in order and with their multiplicities, so every kept word has the guess's length |
| State.SetCells | src/main.rs:214-216 | every listed cell now holds the letter and every other cell is unchanged |
| State.MarkResult | src/main.rs:201-218 | an empty position list appends the letter to the excluded letters and leaves the guess alone; otherwise the excluded letters stay and exactly the listed cells take the letter; the words are untouched |
| State.PlacedLetters | src/main.rs:113-116 | a letter is listed exactly when some cell holds it, with at most one entry per cell |
| State.UsedLetters | src/main.rs:113-119 | a letter is used exactly when it is placed or excluded, and the excluded letters come last in their recorded order |
| Prune.Push | src/main.rs:237-239 | the list gains the letter and nothing else, and stays free of duplicates |
| Prune.ScanWord | src/main.rs:223-243 | the scan from a cell onwards accepts exactly when every remaining cell passes; each open cell's list gains the word's letter exactly when the scan reaches that cell, and placed cells' lists never change |
| Prune.Retain | src/main.rs:222-244 | the kept words are the consistent ones in their original order; an open cell's list holds a letter exactly when it held it before or some examined word reaches that cell with that letter |
| Prune.PruneWords | src/main.rs:220-246 | guess and excluded letters are unchanged; the words are filtered to the consistent ones; one duplicate-free list per cell, empty for placed cells, containing for an open cell exactly the letters some word puts there before it is rejected |
| PruneFacts.PruneShrinks | src/main.rs:222-244 | after pruning every word is consistent, the word list is a subsequence of the old one and no longer, and equal word lengths survive |
| PruneFacts.ConsistentMeans | src/main.rs:227-235 | a word of the right length survives exactly when none of its letters is excluded and it agrees with every placed cell |
| PruneFacts.PruneIdempotent | src/main.rs:222-244 | pruning a pruned word list changes nothing |
| PruneFacts.PruneKeepsConsistent | src/main.rs:222-244 | when every word is already consistent, pruning returns the same game |
| PruneFacts.SurvivorsInLists | src/main.rs:222-244 | a consistent word survives, and its letter at every open cell is in that cell's list |
| PruneFacts.ListsFromWords | src/main.rs:227-240 | a listed letter is never an excluded letter and occurs at that cell in some word that was examined |
| PruneFacts.ListsOverApproximate | src/main.rs:223-240 | a word rejected at a placed cell still leaves its letters in the lists of earlier open cells, so a list can name a letter no survivor has |
| Infer.FillCertainLetters | src/main.rs:248-256 | placed cells are kept; a cell only changes when it was open and its list is exactly one letter, which it then takes; every open cell with a one-letter list is filled |
| Infer.Propagate | src/main.rs:271-272 | the excluded letters and the pattern length are unchanged and the words are those pruning keeps |
| Infer.PropagateSound | src/main.rs:271-272 | after pruning and filling every remaining word still agrees with the guess, and placed cells keep their letters |
| Infer.ContributesWhenConsistent | src/main.rs:236-240 | when every word is consistent, a letter is put into an open cell's list exactly when some word has it there |
| Infer.PropagateStable | src/main.rs:248-256 | for consistent words, a second prune-and-fill changes nothing |
| Infer.PropagateSettles | src/main.rs:271-272 | from the second prune-and-fill on, the game no longer changes |
| Infer.PropagateNotIdempotent | src/main.rs:222-256 | a single prune-and-fill can leave a cell open that a second one fills, because a rejected word named a second letter for that cell |
| Scoring.UnusedUpTo | src/main.rs:92-95 | the letters among the first k of 'a'..='z' not in the used list, each once |
| Scoring.WordsContaining | src/main.rs:96-105 | a letter's score is at most the number of words |
| Scoring.Distinct | src/main.rs:97-99 | the distinct letters of a word: the same letters, each once |
| Scoring.InsertByScore | src/main.rs:107 | inserting into a list sorted by descending score keeps it sorted and adds exactly that entry |
| Scoring.SortByScore | src/main.rs:107 | the result is sorted by descending score and is a permutation of the input |
| Scoring.InitCounts | src/main.rs:92-95 | the map's keys are exactly the unused letters, all at zero |
| Scoring.CountWord | src/main.rs:97-104 | each key gains one when the word contains the letter, however often; no key is added |
| Scoring.Entries | src/main.rs:106 | one entry per unused letter carrying that letter's count |
| Scoring.ComputeLetterScores | src/main.rs:91-110 | the result lists the unused letters, each once, each with the number of words containing it, in non-increasing score order |
| Scoring.LetterScoresCoverUnused | src/main.rs:91-110 | a valid result names each unused lower-case letter exactly once and no score exceeds the number of words |
| Scoring.LetterScoresDetermined | src/main.rs:106-107 | any two valid results have the same column of scores |
| Scoring.TieOrderOpen | src/main.rs:106-107 | letters with equal non-zero scores may come out in either order: with only 'a' and 'b' unused and the one candidate "ab", both orders are valid results |
| Input.ParseNat | src/main.rs:181 | a piece parses exactly when it is non-empty, all digits, and its value fits in a 64-bit `usize`; the value read then fits |
| Input.ParseDecimal | src/main.rs:181 | parsing a number's decimal text gives the number back when it fits in a `usize`, and fails otherwise |
| Input.TrimStart | src/main.rs:179 | removes exactly the leading spaces |
| Input.TrimEnd | src/main.rs:179 | removes exactly the trailing spaces |
| Input.Trim | src/main.rs:179 | drops the spaces at both ends: the result is empty exactly when the text is all spaces, and otherwise starts and ends with a non-space |
| Input.Split | src/main.rs:180 | the pieces between spaces: at least one, none containing a space |
| Input.JoinSplit | src/main.rs:180 | joining the split pieces with single spaces gives the text back |
| Input.SplitJoin | src/main.rs:180 | splitting space-free pieces joined by single spaces gives the pieces back |
| Input.ParseAll | src/main.rs:181-182 | all pieces parse, in order, or the read fails |
| Input.PositionsAsWritten | src/main.rs:177-182 | trims group 2, splits it on single spaces and parses each piece, `None` standing for the `unwrap` panic; blank text never reads as a position list, and a successful read has at least one position |
| Input.Positions | src/main.rs:173-182 | as above, with blank group 2 read as no positions: the result is the empty list exactly when group 2 is blank, and otherwise what the source reads |
| Input.PositionsAsWrittenReads | src/main.rs:177-182 | for any non-empty list of digit pieces admitted by the guess pattern, the read is exactly the parse of those pieces in order |
| Input.TypedReads | src/main.rs:177-182 | a non-empty typed position list is read back when every position fits in a `usize`, and the read panics otherwise |
| Input.AbsentLetterPanics | src/main.rs:173-182 | a letter typed with no positions fails to parse |
| Input.PositionsAsWrittenRoundTrip | src/main.rs:173-182 | the typed positions are read back exactly when at least one was typed and all fit in a `usize` |
| Input.PositionsRoundTrip | src/main.rs:173-182 | read as intended, a typed position list is read back exactly when all positions fit in a `usize`, the empty list included; otherwise the read panics |
| Play.CheckPositions | src/main.rs:184-189 | the line is rejected exactly when some position is 0 or beyond the word length; otherwise each position becomes its 0-based cell, inside the guess |
| Play.CheckEnd | src/main.rs:275-283 | one word left solves the game with that word, none left is the error outcome, more continue |
| Play.Round | src/main.rs:268-283 | a round never adds words, keeps the pattern length and ends as the remaining words dictate |
| Play.TypedRound | src/main.rs:184-189 | a round fed with typed positions is refused exactly when a position is out of range, and never adds words |
| Play.LineRound | src/main.rs:173-182 | a guess with no positions is played as an absent letter |
| Play.LineRoundReads | src/main.rs:173-189 | whatever positions are typed after the letter, the round plays exactly those when they fit in a `usize`, and there is no round otherwise |
| Rounds.MarkKeepsTarget | src/main.rs:201-218 | truthful feedback keeps the hidden word consistent with what is recorded |
| Rounds.TargetSurvives | src/main.rs:268-283 | with truthful feedback the hidden word stays among the candidates, the game never runs out of words, and a solved game names the hidden word |
| Rounds.RoundKeepsDisjoint | src/main.rs:168-171 | when the guessed letter was unused, no letter is ever both placed and excluded |
| Rounds.RoundShrinks | src/main.rs:268-272 | a round keeps all words the guess's length and consistent, and only removes words |
| Rounds.ConsistentWeakens | src/main.rs:227-235 | a word that fits a pattern with more placed cells and more excluded letters also fits the smaller knowledge |
| Rounds.MarkExtends | src/main.rs:201-218 | a report on open cells keeps every placed cell and every excluded letter |
| Rounds.NewExact | src/main.rs:47-60 | a new game holds exactly the words of the chosen length that fit the empty pattern, namely all of them |
| Rounds.RoundKeepsExact | src/main.rs:268-272 | when the reported cells are open, a round keeps the candidates exactly the words of the original list that fit the new pattern and excluded letters: no fitting word is lost and no other word is kept |
| Rounds.ExactMeans | src/main.rs:47-60 | under that invariant the candidates are exactly the dictionary words of the chosen length that fit the pattern and the excluded letters |
| Rounds.OverwriteLosesWords | src/main.rs:191-195 | reporting a letter at a placed cell overwrites it, and a dictionary word that fits the new pattern is not restored |

## Left out

- `load_words` (lines 16-36): file and network I/O; the word list is a parameter.
- `print_stats` and all printing in `show_scores_or_guesses` and `mark_result`: output only.
  The display threshold and the number of suggestions only decide what is printed.
- `read_guess` apart from the position list: reading stdin, the help text, the letter
  pattern `[a-z]`, the retry loop, and the "already occupied" warning (lines 191-195), which
  changes nothing. The rejection of an already used letter (line 168) appears as the
  precondition of `Rounds.RoundKeepsDisjoint`.
- `Args` and `main`: command-line parsing; the range check on `letters` (at least 1) is not
  needed by any contract.
- Scoring.ComputeLetterScores: the order among equal scores is left open because the source
  takes it from hash-map iteration and an unstable sort.
- Scoring.Distinct: the source sorts the letters before deduplicating; only the set of
  distinct letters matters for the counts, so the model keeps first occurrences in order.
- Input.ParseNat: a leading `+` is not modelled, because the guess pattern only admits
  digit strings; `usize` is taken to be 64 bits wide.
- Rounds.RoundKeepsExact: holds only when every reported cell is open. Lines 191-195 only
  warn about an occupied cell and then overwrite it; `Rounds.OverwriteLosesWords` shows that
  a fitting word is then lost for good.
- Input.TrimStart: trims spaces only, since group 2 of the pattern holds only spaces and
  digits.
- Integer widths: counts and cell indices are unbounded; no count can exceed the number of
  words, and typed positions are bounded by the `usize` check of `Input.ParseNat`.
- Concurrency and floating point do not occur in the modelled code.

## Findings

| source | as written | input that shows it | evidently intended | confidence | as-written member | corrected member |
|---|---|---|---|---|---|---|
| src/main.rs:173-182 | group 2 of `^([a-z])(( [0-9]+)*)$` always takes part in a match, so `captures.get(2)` is never `None`; for a letter typed alone it is the empty text, which splits into one empty piece whose `parse().unwrap()` panics | the line `g` (reporting that g is absent) | a letter with no positions is absent and yields an empty position list, as the `else` branch returning `vec![]` says | high, not executed | Input.PositionsAsWritten (Input.AbsentLetterPanics, Input.PositionsAsWrittenRoundTrip) | Input.Positions (Input.PositionsRoundTrip), used by Play.LineRound |
