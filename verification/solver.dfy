/**
  The solving loop: a candidate vector updated in place, one round per row of
  the board. The random pick is the parameter `choose(row, n)`, an index below
  `n`; the page is the parameter `observe(row, guess)`, the tile states read
  back after typing `guess` on that row.
 */
module Solver {
  import opened Sequences
  import opened Rules
  import opened Scoring

  /** What `solve` ends with. */
  datatype Outcome =
    | Solved(answer: string)  // `Some(word)`: a row came back all correct
    | Exhausted               // `None`: every row was used without a full match
    | NoCandidates            // `gen_range(0..0)` on an empty vector, where the source panics

  /** What one round reports. */
  datatype RoundResult =
    | Answer(word: string)    // the row was all correct
    | Eliminated(line: string) // the masked line that is logged after filtering

  /** The pick always lands inside a non-empty vector. */
  ghost predicate PicksInRange(choose: (nat, nat) -> nat) {
    forall row: nat, n: nat :: 0 < n ==> choose(row, n) < n
  }

  /** The page shows one tile per letter of a word of the board's width. */
  ghost predicate RowsFit(observe: (nat, string) -> seq<string>, width: nat) {
    forall row: nat, w: string :: |w| == width ==> |observe(row, w)| == width
  }

  /**
    The whole game from row `row` on, as a value: the outcome and the
    candidate vector left behind (the vector outlives the call in the source).
   */
  function Play(ws: seq<string>, width: nat, rows: nat, row: nat,
                choose: (nat, nat) -> nat, observe: (nat, string) -> seq<string>): (o: (Outcome, seq<string>))
    requires Uniform(ws, width) && row <= rows
    requires PicksInRange(choose) && RowsFit(observe, width)
    decreases rows - row
    ensures Uniform(o.1, width)
    ensures forall x :: x in o.1 ==> x in ws
    ensures o.0.Solved? ==> o.0.answer in o.1
    ensures o.0.NoCandidates? ==> o.1 == []
    ensures o.0.Exhausted? ==> |o.1| + (rows - row) <= |ws|
  {
    if row == rows then (Exhausted, ws)
    else if ws == [] then (NoCandidates, ws)
    else
      var i := choose(row, |ws|);
      var guess := ws[i];
      assert guess in ws;
      var states := ParseRow(observe(row, guess));
      if AllAre(states, Correct) then (Solved(guess), ws)
      else
        var next := Eliminate(ws, i, states);
        assert Uniform(next, width);
        Play(next, width, rows, row + 1, choose, observe)
  }

  /** The vector left behind is the starting vector with entries deleted, order kept. */
  lemma {:induction false} PlayIsSubsequence(ws: seq<string>, width: nat, rows: nat, row: nat,
                                            choose: (nat, nat) -> nat, observe: (nat, string) -> seq<string>)
    requires Uniform(ws, width) && row <= rows
    requires PicksInRange(choose) && RowsFit(observe, width)
    decreases rows - row
    ensures IsSubsequence(Play(ws, width, rows, row, choose, observe).1, ws)
  {
    if row == rows || ws == [] {
      SubsequenceReflexive(ws);
    } else {
      var i := choose(row, |ws|);
      var states := ParseRow(observe(row, ws[i]));
      if AllAre(states, Correct) {
        SubsequenceReflexive(ws);
      } else {
        var next := Eliminate(ws, i, states);
        PlayIsSubsequence(next, width, rows, row + 1, choose, observe);
        EliminateIsSubsequence(ws, i, states);
        SubsequenceTransitive(Play(next, width, rows, row + 1, choose, observe).1, next, ws);
      }
    }
  }

  /** No word ends the game with more copies in the vector than it started with. */
  lemma PlayKeepsCounts(ws: seq<string>, width: nat, rows: nat, row: nat,
                        choose: (nat, nat) -> nat, observe: (nat, string) -> seq<string>)
    requires Uniform(ws, width) && row <= rows
    requires PicksInRange(choose) && RowsFit(observe, width)
    ensures multiset(Play(ws, width, rows, row, choose, observe).1) <= multiset(ws)
  {
    PlayIsSubsequence(ws, width, rows, row, choose, observe);
    SubsequenceMultiset(Play(ws, width, rows, row, choose, observe).1, ws);
  }

  /** The page answers honestly for `secret` on every row. */
  ghost predicate Honest(observe: (nat, string) -> seq<string>, secret: string) {
    forall row: nat, w: string :: |w| == |secret| ==> ParseRow(observe(row, w)) == Score(secret, w)
  }

  /** An honest page always shows one tile per letter. */
  lemma HonestRowsFit(observe: (nat, string) -> seq<string>, secret: string)
    requires Honest(observe, secret)
    ensures RowsFit(observe, |secret|)
  {
    forall row: nat, w: string | |w| == |secret|
      ensures |observe(row, w)| == |secret|
    {
      ScoreTruthful(secret, w);
    }
  }

  /**
    Against an honest page whose answer is among the candidates, the solver
    never runs out of candidates, only ever answers the secret, and keeps the
    secret when the rows run out.
   */
  lemma {:induction false} HonestPlay(ws: seq<string>, secret: string, rows: nat, row: nat,
                                      choose: (nat, nat) -> nat, observe: (nat, string) -> seq<string>)
    requires Uniform(ws, |secret|) && secret in ws && row <= rows
    requires PicksInRange(choose) && Honest(observe, secret) && RowsFit(observe, |secret|)
    decreases rows - row
    ensures var o := Play(ws, |secret|, rows, row, choose, observe);
            && !o.0.NoCandidates?
            && (o.0.Solved? ==> o.0.answer == secret)
            && (o.0.Exhausted? ==> secret in o.1)
  {
    if row < rows {
      var i := choose(row, |ws|);
      var guess := ws[i];
      var states := ParseRow(observe(row, guess));
      assert states == Score(secret, guess);
      ScoreTruthful(secret, guess);
      if !AllAre(states, Correct) {
        var next := Eliminate(ws, i, states);
        HonestRoundKeepsSecret(ws, i, secret);
        HonestPlay(next, secret, rows, row + 1, choose, observe);
        assert Play(ws, |secret|, rows, row, choose, observe) == Play(next, |secret|, rows, row + 1, choose, observe);
      }
    }
  }

  /**
    Each wrong guess removes at least one candidate, so with at least as many
    rows left as candidates an honest page is always solved, with the secret.
   */
  lemma EnoughRowsSolve(ws: seq<string>, secret: string, rows: nat, row: nat,
                        choose: (nat, nat) -> nat, observe: (nat, string) -> seq<string>)
    requires Uniform(ws, |secret|) && secret in ws && row <= rows && |ws| <= rows - row
    requires PicksInRange(choose) && Honest(observe, secret)
    ensures RowsFit(observe, |secret|)
    ensures Play(ws, |secret|, rows, row, choose, observe).0 == Solved(secret)
  {
    HonestRowsFit(observe, secret);
    HonestPlay(ws, secret, rows, row, choose, observe);
  }

  /**
    The candidate vector of one game. `width` is the board's width; every
    candidate has it, so the position rules never index past a word's end.
   */
  class CandidateSet {
    const width: nat
    var words: seq<string>

    ghost predicate Valid()
      reads this
    {
      Uniform(words, width)
    }

    constructor (width: nat, dictionary: seq<string>)
      requires Uniform(dictionary, width)
      ensures Valid()
      ensures this.width == width && words == dictionary
    {
      this.width := width;
      words := dictionary;
    }

    /** `words.remove(i)`. */
    method Remove(i: nat)
      requires Valid() && i < |words|
      modifies this
      ensures Valid()
      ensures words == RemoveAt(old(words), i)
    {
      words := RemoveAt(words, i);
    }

    /** `words.retain(rule)`. */
    method Retain(rule: Rule)
      requires forall x :: x in words ==> Applies(rule, x)
      modifies this
      ensures words == Retained(rule, old(words))
    {
      words := Retained(rule, words);
    }

    /** One `retain` per guessed position, in order. */
    method RetainPositions(guess: string, states: seq<Tile>)
      requires Valid() && |guess| <= |states| && |guess| <= width
      modifies this
      ensures Valid()
      ensures words == PositionPass(old(words), guess, states, |guess|)
    {
      words := RunPositionPasses(words, guess, states);
    }

    /**
      One round with the entry at `wordIndex` as the guess and `states` as
      the row read back: an all-correct row answers the guess and leaves the
      vector alone; any other row removes that entry, applies the all-absent
      shortcut and the position passes, and reports the masked line.
     */
    method Round(wordIndex: nat, states: seq<Tile>) returns (result: RoundResult)
      requires Valid() && wordIndex < |words| && |states| == width
      modifies this
      ensures Valid()
      ensures AllAre(states, Correct) ==> result == Answer(old(words)[wordIndex]) && words == old(words)
      ensures !AllAre(states, Correct) ==>
        && result == Eliminated(Masked(old(words)[wordIndex], states))
        && words == Eliminate(old(words), wordIndex, states)
    {
      var word := words[wordIndex];
      if AllAre(states, Correct) {
        return Answer(word);
      }
      Remove(wordIndex);
      if AllAre(states, Absent) {
        Retain(NoLetterOf(word));
      }
      RetainPositions(word, states);
      var line := MaskLine(word, states);
      result := Eliminated(line);
    }

    /**
      `solve` over `rows` rows: pick, read the row, run the round; stop at
      the first all-correct row, or when the rows run out.
     */
    method Solve(rows: nat, choose: (nat, nat) -> nat, observe: (nat, string) -> seq<string>)
      returns (outcome: Outcome)
      requires Valid()
      requires PicksInRange(choose) && RowsFit(observe, width)
      modifies this
      ensures Valid()
      ensures (outcome, words) == Play(old(words), width, rows, 0, choose, observe)
    {
      var row := 0;
      while row < rows
        invariant row <= rows && Valid()
        invariant Play(old(words), width, rows, 0, choose, observe) == Play(words, width, rows, row, choose, observe)
        decreases rows - row
      {
        if |words| == 0 {
          return NoCandidates;
        }
        var i := choose(row, |words|);
        var states := ParseRow(observe(row, words[i]));
        var result := Round(i, states);
        if result.Answer? {
          return Solved(result.word);
        }
        row := row + 1;
      }
      return Exhausted;
    }
  }
}
