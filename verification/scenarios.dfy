/**
  Two worked rounds on a five-letter board, computed from the rules as the
  round applies them.
 */
module Scenarios {
  import opened Sequences
  import opened Rules

  /** The row of the first round: present, absent, absent, correct, absent. */
  const CraneRow: seq<Tile> := [Present, Absent, Absent, Correct, Absent]

  /** A row of five absent tiles. */
  const AbsentRow: seq<Tile> := seq(5, _ => Absent)

  /** A candidate that breaks the rule of position `k` fails the whole pass. */
  lemma BreaksPosition(x: string, guess: string, states: seq<Tile>, k: nat)
    requires k < |guess| <= |states| && |guess| <= |x|
    requires !KeepAt(x, guess, states, k)
    ensures !ConsistentUpTo(x, guess, states, |guess|)
  {
    ConsistentUpToMeaning(x, guess, states, |guess|);
  }

  /** Per-position passes that every candidate fails leave nothing. */
  lemma NoneSurvive(ws: seq<string>, guess: string, states: seq<Tile>)
    requires |guess| <= |states|
    requires forall x :: x in ws ==> |guess| <= |x| && !ConsistentUpTo(x, guess, states, |guess|)
    ensures PositionPass(ws, guess, states, |guess|) == []
  {
    var r := PositionPass(ws, guess, states, |guess|);
    PositionPassMembers(ws, guess, states, |guess|);
    if r != [] {
      HeadIsMember(r);
    }
  }

  /**
    A round on five words with the first as the guess and a row that is not
    all absent, where each of the other four fails some position: nothing is left.
   */
  lemma NothingLeft(g: string, a: string, b: string, c: string, d: string, states: seq<Tile>)
    requires !AllAre(states, Absent) && |g| <= |states|
    requires forall x :: x in [a, b, c, d] ==> |g| <= |x| && !ConsistentUpTo(x, g, states, |g|)
    ensures Eliminate([g, a, b, c, d], 0, states) == []
  {
    assert RemoveAt([g, a, b, c, d], 0) == [a, b, c, d];
    assert Shortcut([a, b, c, d], g, states) == [a, b, c, d];
    NoneSurvive([a, b, c, d], g, states);
  }

  /** Each of the other four candidates breaks one position rule of the crane row. */
  lemma CraneRowRejectsEach()
    ensures forall x :: x in ["trace", "grape", "place", "stage"] ==> 5 <= |x| && !ConsistentUpTo(x, "crane", CraneRow, 5)
  {
    BreaksPosition("trace", "crane", CraneRow, 1);  // 'r' is absent but sits at position 1
    BreaksPosition("grape", "crane", CraneRow, 1);  // likewise
    BreaksPosition("place", "crane", CraneRow, 3);  // 'n' is correct at position 3, which holds 'c'
    BreaksPosition("stage", "crane", CraneRow, 3);  // and here holds 'g'
  }

  /**
    Guess "crane" (index 0) with the row present, absent, absent, correct,
    absent: every other candidate breaks one position rule, so nothing is left.
   */
  lemma CraneRowLeavesNothing()
    ensures Eliminate(["crane", "trace", "grape", "place", "stage"], 0, CraneRow) == []
  {
    CraneRowRejectsEach();
    assert CraneRow[0] != Absent;
    NothingLeft("crane", "trace", "grape", "place", "stage", CraneRow);
  }

  /** The all-absent shortcut keeps, of three candidates, just the middle one. */
  lemma MiddleSurvivesShortcut(a: string, b: string, c: string, guess: string)
    requires !SharesNoLetter(a, guess) && SharesNoLetter(b, guess) && !SharesNoLetter(c, guess)
    ensures Retained(NoLetterOf(guess), [a, b, c]) == [b]
  {
    var rule := NoLetterOf(guess);
    assert [a, b, c][1..] == [b, c] && [b, c][1..] == [c] && [c][1..] == [];
    assert Retained(rule, [c]) == [];
  }

  /**
    An all-absent round on four same-length words with the first as the guess,
    where only the third shares no letter with it and passes every position.
   */
  lemma AllAbsentKeepsThird(g: string, a: string, b: string, c: string, states: seq<Tile>)
    requires AllAre(states, Absent) && |g| <= |states|
    requires |g| <= |a| && |g| <= |b| && |g| <= |c|
    requires !SharesNoLetter(a, g) && SharesNoLetter(b, g) && !SharesNoLetter(c, g)
    requires ConsistentUpTo(b, g, states, |g|)
    ensures Eliminate([g, a, b, c], 0, states) == [b]
  {
    assert RemoveAt([g, a, b, c], 0) == [a, b, c];
    MiddleSurvivesShortcut(a, b, c, g);
    assert Shortcut([a, b, c], g, states) == [b];
    SinglePasses(b, g, states);
  }

  /** A single candidate that passes every position is all that the passes leave. */
  lemma SinglePasses(b: string, g: string, states: seq<Tile>)
    requires |g| <= |states| && |g| <= |b|
    requires ConsistentUpTo(b, g, states, |g|)
    ensures PositionPass([b], g, states, |g|) == [b]
  {
    PositionPassKeepsConsistent([b], g, states, |g|);
  }

  /** Of "crane", "blimp" and "fjord", only "blimp" avoids every letter of "trace". */
  lemma TraceLetters()
    ensures !SharesNoLetter("crane", "trace") && !SharesNoLetter("fjord", "trace")
    ensures SharesNoLetter("blimp", "trace")
  {
    assert "trace"[1] == "crane"[1];
    assert "trace"[1] == "fjord"[3];
  }

  /** "blimp" differs from "trace" at every position. */
  lemma BlimpPassesAbsentRow()
    ensures ConsistentUpTo("blimp", "trace", AbsentRow, 5)
  {
    ConsistentUpToMeaning("blimp", "trace", AbsentRow, 5);
    assert forall i :: 0 <= i < 5 ==> KeepAt("blimp", "trace", AbsentRow, i);
  }

  /**
    Guess "trace" (index 0) with an all-absent row: the shortcut removes
    "crane" and "fjord" (which has an 'r'), and only "blimp" is left.
   */
  lemma AllAbsentTraceLeavesBlimp()
    ensures Eliminate(["trace", "crane", "blimp", "fjord"], 0, AbsentRow) == ["blimp"]
  {
    TraceLetters();
    BlimpPassesAbsentRow();
    AllAbsentKeepsThird("trace", "crane", "blimp", "fjord", AbsentRow);
  }
}
