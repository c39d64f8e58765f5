/**
  What the game page reports for a guess, as a reference definition: the
  usual Wordle colouring, where exact matches are marked correct first and the
  remaining letters of the secret are then handed out left to right as
  present marks. The solver never computes this; it is the honest oracle
  against which the soundness of the filtering rules is stated.
 */
module Scoring {
  import opened Sequences
  import opened Rules

  /** The letters of `secret` that the guess does not match exactly, position by position. */
  function Unmatched(secret: string, guess: string): (pool: multiset<char>)
    requires |secret| == |guess|
    ensures forall c :: c in pool ==> c in secret
    ensures (forall j :: 0 <= j < |guess| ==> guess[j] != secret[j]) ==> pool == multiset(secret)
  {
    if secret == [] then multiset{}
    else
      assert secret == [secret[0]] + secret[1..];
      (if secret[0] != guess[0] then multiset{secret[0]} else multiset{}) + Unmatched(secret[1..], guess[1..])
  }

  /**
    The tile states for a guess against a secret of the same length, with
    `pool` the letters of the secret still free to be marked present.
   */
  function Colour(secret: string, guess: string, pool: multiset<char>): (states: seq<Tile>)
    requires |secret| == |guess|
    ensures |states| == |guess|
    ensures forall j :: 0 <= j < |states| ==> (states[j] == Correct <==> guess[j] == secret[j])
    ensures forall j :: 0 <= j < |states| ==> !states[j].Other?
  {
    if guess == [] then []
    else if guess[0] == secret[0] then [Correct] + Colour(secret[1..], guess[1..], pool)
    else if guess[0] in pool then [Present] + Colour(secret[1..], guess[1..], pool - multiset{guess[0]})
    else [Absent] + Colour(secret[1..], guess[1..], pool)
  }

  /**
    A present mark is only handed out for a letter still in the pool, and a
    row that comes back all absent holds no letter of the pool.
   */
  lemma {:induction false} ColourUsesPool(secret: string, guess: string, pool: multiset<char>)
    requires |secret| == |guess|
    ensures var states := Colour(secret, guess, pool);
            && (forall j :: 0 <= j < |states| && states[j] == Present ==> guess[j] in pool)
            && (AllAre(states, Absent) ==> forall j :: 0 <= j < |states| ==> guess[j] !in pool)
  {
    if guess != [] {
      var states := Colour(secret, guess, pool);
      if guess[0] == secret[0] {
        ColourUsesPool(secret[1..], guess[1..], pool);
        assert states[1..] == Colour(secret[1..], guess[1..], pool);
      } else if guess[0] in pool {
        ColourUsesPool(secret[1..], guess[1..], pool - multiset{guess[0]});
        assert states[1..] == Colour(secret[1..], guess[1..], pool - multiset{guess[0]});
      } else {
        ColourUsesPool(secret[1..], guess[1..], pool);
        assert states[1..] == Colour(secret[1..], guess[1..], pool);
        if AllAre(states, Absent) {
          assert AllAre(states[1..], Absent);
        }
      }
    }
  }

  /** The row of tile states the game shows for `guess` when the answer is `secret`. */
  function Score(secret: string, guess: string): seq<Tile>
    requires |secret| == |guess|
  {
    Colour(secret, guess, Unmatched(secret, guess))
  }

  /** What the honest feedback promises, position by position and for the whole row. */
  lemma ScoreTruthful(secret: string, guess: string)
    requires |secret| == |guess|
    ensures |Score(secret, guess)| == |guess|
    ensures forall i :: 0 <= i < |guess| ==> (Score(secret, guess)[i] == Correct <==> guess[i] == secret[i])
    ensures forall i :: 0 <= i < |guess| && Score(secret, guess)[i] == Present ==> guess[i] in secret && guess[i] != secret[i]
    ensures forall i :: 0 <= i < |guess| && Score(secret, guess)[i] == Absent ==> guess[i] != secret[i]
    ensures AllAre(Score(secret, guess), Absent) ==> forall i :: 0 <= i < |guess| ==> guess[i] !in secret
    ensures AllAre(Score(secret, guess), Correct) <==> guess == secret
  {
    var states := Score(secret, guess);
    ColourUsesPool(secret, guess, Unmatched(secret, guess));
    if AllAre(states, Absent) {
      assert forall i :: 0 <= i < |guess| ==> states[i] != Correct;
    }
    if AllAre(states, Correct) {
      assert forall i :: 0 <= i < |guess| ==> states[i] == Correct;
    }
  }

  /**
    The filtering rules are sound: a round fed the honest feedback for a wrong
    guess never eliminates the secret word.
   */
  lemma HonestRoundKeepsSecret(ws: seq<string>, i: nat, secret: string)
    requires i < |ws| && Uniform(ws, |secret|)
    requires secret in ws && ws[i] != secret
    ensures secret in Eliminate(ws, i, Score(secret, ws[i]))
  {
    var guess := ws[i];
    var states := Score(secret, guess);
    ScoreTruthful(secret, guess);
    EliminateMembers(ws, i, states);
    RemoveAtCounts(ws, i);
    assert multiset(RemoveAt(ws, i))[secret] == multiset(ws)[secret];
    forall j | 0 <= j < |guess|
      ensures KeepAt(secret, guess, states, j)
    {
    }
    ConsistentUpToMeaning(secret, guess, states, |guess|);
  }

  /** The masked line of an honest row shows exactly the letters the guess has in the right place. */
  lemma HonestMaskShowsMatches(secret: string, guess: string)
    requires |secret| == |guess|
    ensures var line := Masked(guess, Score(secret, guess));
            forall i :: 0 <= i < |guess| ==> line[i] == (if guess[i] == secret[i] then secret[i] else '_')
  {
    ScoreTruthful(secret, guess);
  }
}
