# Wordle solver: the candidate-filtering round

This project models the solving loop of `solve` in `src/main.rs`. The solver
keeps a vector of candidate words (`Vec<&String>`). On each row of the board it
does the following:

1. It picks one candidate at random and types it.
2. It reads back one `data-state` string per tile.
3. If every tile is `"correct"`, it returns the word (`Some(word)`).
4. Otherwise it removes the guessed entry from the vector (`words.remove`).
5. If every tile is `"absent"`, it keeps only the candidates that share no
   letter with the guess.
6. It runs one `retain` per guessed position, applying that position's rule:
   - correct: same letter here;
   - present: the letter occurs elsewhere, but not here;
   - absent: not this letter here.
7. It logs a masked line, with the guessed letter where the tile is correct and `_` elsewhere.

When the rows run out, `solve` returns `None`.

The Dafny modules are:

- `Sequences`: `Vec::remove` as `RemoveAt`, and the subsequence relation that
  states "only deletes, keeps the order".
- `Rules`: the pure part of the round.
  - The tile states are the datatype `Tile`; `ParseTile` classifies a
    `data-state` string.
  - The two `retain` closures are `SharesNoLetter` and `KeepAt`. `Rule` is the
    closure handed to `retain`, and `Retained` is `Vec::retain`.
  - The per-position passes are `PositionPass`, computed by the loop `RunPositionPasses`.
  - The whole elimination step is `Eliminate`, and the masked line is `Masked`,
    built by the loop `MaskLine`.
- `Scoring`: a reference definition of the feedback an honest Wordle page
  shows. It is the usual colouring: exact matches first, then the secret's
  leftover letters handed out left to right as present marks. The solver never
  computes it; it is used to state that the filtering rules are sound: a round
  fed honest feedback never removes the secret.
- `Solver`:
  - The class `CandidateSet` holds the candidate vector as a `seq<string>`
    field, which `Remove`, `Retain`, `RetainPositions`, `Round` and `Solve`
    update in place.
  - `Play` is the whole game as a value, and `Solve` is proved equal to it.
  - The random pick is the parameter `choose(row, n)`, an index below `n`.
  - The page is the parameter `observe(row, guess)`: the `data-state` strings of
    that row after typing `guess`.
- `Scenarios`: two worked five-letter rounds, computed from the rules.

## Model

| member | source | states |
|---|---|---|
| Sequences.RemoveAt | src/main.rs:211 | `words.remove(word_i)` deletes exactly the entry at the index: the vector is one shorter, entries before it keep their index, and entries after it shift down by one. |
| Sequences.RemoveAtCounts | src/main.rs:211 | Removing the entry takes away exactly one copy of the removed word and leaves every other count alone, so duplicates elsewhere stay. |
| Sequences.RemoveAtIsSubsequence | src/main.rs:211 | Removing an entry leaves a subsequence of the vector (order kept). |
| Sequences.SubsequenceMultiset | src/main.rs:211-233 | A subsequence holds each word at most as often as the vector it was cut from. `Solver.PlayKeepsCounts` uses it. |
| Rules.ParseTile | src/main.rs:196-199 | A `data-state` string is `Correct`, `Present` or `Absent` exactly when it equals `"correct"`, `"present"` or `"absent"`; any other string is kept verbatim as `Other`. |
| Rules.SpellingParse | src/main.rs:196 | Classifying a state string loses nothing: its spelling comes back unchanged. |
| Rules.ParseRow | src/main.rs:193-197 | The row of states has one entry per tile read, each the classification of that tile's string and spelling it back unchanged. |
| Rules.ParseRowClassifies | src/main.rs:196-199 | Each parsed tile is `Correct`, `Present` or `Absent` exactly when its string is that literal. The row is all `Correct` iff every string is `"correct"`, which is the check at line 199. It is all `Absent` iff every string is `"absent"`, which is the check at line 214. |
| Rules.SharesNoLetter | src/main.rs:215-222 | The all-absent closure keeps `x` exactly when no letter of the guess occurs anywhere in `x`. |
| Rules.KeepAt | src/main.rs:227-231 | The per-position closure keeps `x`: when correct, iff `x[i]` is the guessed letter; when present, iff the letter occurs in `x` and `x[i]` differs from it; when absent, iff `x[i]` differs from it. An unrecognised state keeps every `x`. |
| Rules.ConsistentUpToMeaning | src/main.rs:225-233 | Passing positions 0..k-1 one after another is the same as satisfying each of those positions' rules. |
| Rules.Retained | src/main.rs:215-222 | `retain` never grows the vector and only keeps words it held. |
| Rules.RetainedMembers | src/main.rs:215-222 | A word survives `retain` exactly when it was a candidate and the closure accepts it. |
| Rules.RetainedCounts | src/main.rs:226-232 | `retain` keeps every copy of an accepted word and no copy of a rejected one, so duplicates in the word list are kept or dropped together. |
| Rules.RetainedIsSubsequence | src/main.rs:215-222 | `retain` only deletes and keeps the relative order of what it keeps. |
| Rules.RetainedKeepsAll | src/main.rs:226-232 | A `retain` whose closure accepts every candidate leaves the vector unchanged. |
| Rules.RetainedIdempotent | src/main.rs:226-232 | A second `retain` with the same closure removes nothing more. |
| Rules.PositionPass | src/main.rs:225-233 | The passes for positions 0..k-1 never grow the vector and only keep words that were in it. |
| Rules.RunPositionPasses | src/main.rs:225-233 | The `for (i, c)` loop of one `retain` per guessed position leaves exactly the vector of the passes for every position of the guess, in order. |
| Rules.PositionPassMembers | src/main.rs:225-233 | A word survives the position passes exactly when it was a candidate and satisfies the rule of every guessed position. |
| Rules.PositionPassIsSubsequence | src/main.rs:226-232 | The position passes only delete, keeping order. |
| Rules.PositionPassKeepsConsistent | src/main.rs:226-232 | Candidates that already satisfy every position rule all survive, in place. |
| Rules.PositionPassIdempotent | src/main.rs:225-233 | Running the whole per-position filter a second time with the same guess and states gives the same vector as running it once. |
| Rules.Shortcut | src/main.rs:214-223 | After an all-absent row, exactly the candidates sharing no letter with the guess are kept. On any other row the vector is returned unchanged. |
| Rules.Eliminate | src/main.rs:210-233 | A round whose row is not all correct leaves strictly fewer candidates, each taken from the old vector. |
| Rules.EliminateMembers | src/main.rs:210-233 | A word survives a round exactly when all three hold: it is in the vector with the guessed entry removed; it shares no letter with the guess if the row is all absent; and it satisfies every position rule. |
| Rules.SurvivorsFitRow | src/main.rs:214-233 | Every survivor fits the row at each guessed position. Correct means the same letter; present means the letter occurs elsewhere but not here; absent means not this letter here. After an all-absent row, the survivor contains no letter of the guess at all. |
| Rules.ConsistentFitsRow | src/main.rs:227-231 | A word that passes every position rule fits the correct, present and absent meaning at each position. |
| Rules.UnknownStatesRemoveNothing | src/main.rs:227-231 | When no state is one of the three recognised strings, the position passes remove nothing and raise no error. |
| Rules.EliminateIsSubsequence | src/main.rs:210-233 | A whole round only deletes: what is left is the old vector with entries cut out, order kept. |
| Rules.Masked | src/main.rs:235-238 | The masked line has the guess's length, and character `i` is the guessed letter where the state is correct and `_` otherwise. |
| Rules.MaskLine | src/main.rs:235-238 | The loop that pushes one character per guessed position builds exactly the masked line. |
| Scoring.Colour | src/main.rs:193-197 | The reference feedback has one tile per letter. A tile is correct exactly where guess and secret agree, and no tile is unrecognised. |
| Scoring.ScoreTruthful | src/main.rs:193-197 | Honest feedback means what the rules assume. Correct iff the letters agree; present implies the letter is in the secret elsewhere; absent implies a mismatch here. An all-absent row means no guessed letter is in the secret. An all-correct row happens iff the guess is the secret. |
| Scoring.HonestRoundKeepsSecret | src/main.rs:210-233 | Given honest feedback for a wrong guess, the round never eliminates the secret. |
| Scoring.HonestMaskShowsMatches | src/main.rs:235-238 | Under honest feedback, the masked line shows exactly the letters guessed in the right place. |
| Solver.Play | src/main.rs:186-243 | The game from a row on keeps every candidate at the board width and only keeps earlier candidates. A returned answer is a candidate still in the vector. Running out of candidates leaves the vector empty. When the rows run out, every row used has removed at least one candidate. |
| Solver.PlayIsSubsequence | src/main.rs:186-243 | The vector left behind by the game is the starting vector with entries deleted, order kept. |
| Solver.PlayKeepsCounts | src/main.rs:186-243 | No word ends the game with more copies in the vector than it started with. |
| Solver.HonestRowsFit | src/main.rs:193-197 | An honest page shows one tile per letter. |
| Solver.HonestPlay | src/main.rs:186-243 | Against an honest page whose answer is a candidate, the game never runs out of candidates. Any answer it returns is the secret. If the rows run out, the secret is still in the vector. |
| Solver.EnoughRowsSolve | src/main.rs:186-243 | Against an honest page with at least as many rows left as candidates, the game always returns the secret. |
| Solver.CandidateSet.constructor | src/main.rs:298-299 | The vector starts as the dictionary, every word of the board's width. |
| Solver.CandidateSet.Remove | src/main.rs:211 | The vector becomes the old one with the entry at the index removed, and every word keeps the board width. |
| Solver.CandidateSet.Retain | src/main.rs:215-222 | The vector becomes the old one filtered by the closure. |
| Solver.CandidateSet.RetainPositions | src/main.rs:225-233 | The vector becomes the old one after one `retain` per guessed position, in order. |
| Solver.CandidateSet.Round | src/main.rs:188-239 | An all-correct row answers the picked word and leaves the vector unchanged. Any other row removes the picked entry, applies the shortcut and the position passes (the vector becomes `Eliminate` of the old one), and reports the masked line. |
| Solver.CandidateSet.Solve | src/main.rs:186-243 | The outcome and the final vector are those of `Play` from the first row. It stops at the first all-correct row and ends with `None` (`Exhausted`) when the rows run out. |
| Scenarios.BreaksPosition | src/main.rs:226-232 | A candidate that breaks the rule of one position does not survive the passes. |
| Scenarios.CraneRowLeavesNothing | src/main.rs:210-233 | Guess "crane" (index 0) against `["crane","trace","grape","place","stage"]` with the row present, absent, absent, correct, absent leaves no candidate. |
| Scenarios.AllAbsentTraceLeavesBlimp | src/main.rs:210-233 | Guess "trace" (index 0) against `["trace","crane","blimp","fjord"]` with an all-absent row leaves exactly `["blimp"]`. |

Facts about the code that the model records:

- A tile state outside `"correct"`, `"present"` and `"absent"` raises no error. None of the three disjuncts of the position closure fires, so that position's `retain` keeps every word. This is the last ensures of `Rules.KeepAt` together with `Rules.RetainedKeepsAll`, and `Rules.UnknownStatesRemoveNothing` states it for a whole row.
- The crane round leaves nothing. Position 3 is correct with `n`, and none of the other four words has `n` there.
- The trace round leaves `["blimp"]`. `"crane"` and `"fjord"` each contain a letter of `"trace"` (`fjord` has `r`), so the all-absent shortcut removes them.
- `main` hands the same vector to every call of `solve`, so eliminations from a failed game carry over to the next attempt.

## Left out

- `Browser` (src/main.rs:38-152): driving chromedriver through WebDriver, process spawning and polling. This is I/O against foreign libraries; the page is the `observe` parameter.
- `type_word` (src/main.rs:12-22), `sleep!` and the screenshot on success (src/main.rs:190-191, 200-208): UI clicks, delays and a file write, none of which affect the result.
- The random pick (src/main.rs:188): replaced by the `choose` parameter, which picks an index below the vector's length.
- The `unwrap` panics on interaction failures (src/main.rs:190, 193, 196): the model assumes each row's tile states are read back.
- Solver.Play, Solver.CandidateSet.Solve: `gen_range(0..0)` panics on an empty vector. The model reports this as the outcome `NoCandidates` instead of aborting.
- Solver.CandidateSet.Round, Solver.Play, Solver.CandidateSet.Solve: require as many tile states as the board's width (`Round` directly, `Play` and `Solve` through `RowsFit`). Two kinds of page are not modelled. With fewer tiles than letters, `states[i]` would panic. With more tiles than letters, the extra states only affect the whole-row checks at src/main.rs:199 and 214.
- Solver.CandidateSet.constructor: requires every dictionary word to have the board's width. The `split('\n')` of `words.txt` (src/main.rs:298) can yield a shorter last word, which would make `x.chars().nth(i).unwrap()` panic. The model does not cover that case.
- `IncludeFile` and `include_file!` (src/main.rs:249-279), `Args`, and the retry `loop` in `main` (src/main.rs:281-321): filesystem and command-line plumbing, and a loop that only ends when a game is solved.
- `logger/src/lib.rs`: the logging macros, console output only. The `log!` of the masked line is modelled as the line the round reports.
- Characters are Dafny `char`s, compared one by one. `x.chars().nth(i)` and `contains` on Rust strings agree with that for the ASCII word list; grapheme or byte-level differences are not modelled.
