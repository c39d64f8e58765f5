/**
  The candidate-filtering rules of one solving round: the tile states as the
  game page reports them, the keep-closures handed to `Vec::retain`, the order
  in which the round applies them, and the masked diagnostic line.
 */
module Rules {
  import opened Sequences

  /**
    A tile's state. The page reports it as the string in the tile's
    `data-state` attribute, which the round compares with three literals;
    any other string is kept as `Other` and matches none of the rules.
   */
  datatype Tile = Correct | Present | Absent | Other(raw: string)

  /** Which of the three compared literals a `data-state` string is, if any. */
  function ParseTile(s: string): (t: Tile)
    ensures t == Correct <==> s == "correct"
    ensures t == Present <==> s == "present"
    ensures t == Absent <==> s == "absent"
    ensures t.Other? ==> t.raw == s
  {
    if s == "correct" then Correct
    else if s == "present" then Present
    else if s == "absent" then Absent
    else Other(s)
  }

  /** The `data-state` string a tile state stands for. */
  function Spelling(t: Tile): string {
    match t
    case Correct => "correct"
    case Present => "present"
    case Absent => "absent"
    case Other(raw) => raw
  }

  /** Classifying a `data-state` string loses nothing: its spelling comes back unchanged. */
  lemma SpellingParse(s: string)
    ensures Spelling(ParseTile(s)) == s
  {
  }

  /** A row of `data-state` strings, classified tile by tile. */
  function ParseRow(raw: seq<string>): (row: seq<Tile>)
    ensures |row| == |raw|
    ensures forall i :: 0 <= i < |raw| ==> row[i] == ParseTile(raw[i])
    ensures forall i :: 0 <= i < |raw| ==> Spelling(row[i]) == raw[i]
  {
    seq(|raw|, i requires 0 <= i < |raw| => ParseTile(raw[i]))
  }

  /** `states.iter().all(|x| *x == tag)`; true for an empty row. */
  predicate AllAre(states: seq<Tile>, tag: Tile) {
    forall k :: 0 <= k < |states| ==> states[k] == tag
  }

  /**
    Each tile of a parsed row is classified: it is `Correct`, `Present` or
    `Absent` exactly when its string is that literal, so the two whole-row
    checks of the round agree with comparing every string with `"correct"`
    and with `"absent"`.
   */
  lemma ParseRowClassifies(raw: seq<string>)
    ensures var row := ParseRow(raw);
            forall i :: 0 <= i < |raw| ==>
              && (row[i] == Correct <==> raw[i] == "correct")
              && (row[i] == Present <==> raw[i] == "present")
              && (row[i] == Absent <==> raw[i] == "absent")
    ensures AllAre(ParseRow(raw), Correct) <==> forall k :: 0 <= k < |raw| ==> raw[k] == "correct"
    ensures AllAre(ParseRow(raw), Absent) <==> forall k :: 0 <= k < |raw| ==> raw[k] == "absent"
  {
    var row := ParseRow(raw);
    forall i | 0 <= i < |raw|
      ensures row[i] == Correct <==> raw[i] == "correct"
      ensures row[i] == Absent <==> raw[i] == "absent"
    {
      assert row[i] == ParseTile(raw[i]);
    }
  }

  /** Every word has the board's width. */
  predicate Uniform(ws: seq<string>, width: nat) {
    forall x :: x in ws ==> |x| == width
  }

  /**
    Keep-closure of the all-absent shortcut: walks the guess letter by letter
    and rejects `x` at the first letter of the guess that `x` contains.
   */
  function SharesNoLetter(x: string, guess: string): (keep: bool)
    ensures keep <==> forall j :: 0 <= j < |guess| ==> guess[j] !in x
  {
    if guess == [] then true
    else if guess[0] in x then false
    else SharesNoLetter(x, guess[1..])
  }

  /**
    Keep-closure of the per-position pass for position `i` of the guess.
    A state outside the three known ones removes nothing.
   */
  function KeepAt(x: string, guess: string, states: seq<Tile>, i: nat): (keep: bool)
    requires i < |guess| && i < |states| && i < |x|
    ensures states[i] == Correct ==> (keep <==> x[i] == guess[i])
    ensures states[i] == Present ==> (keep <==> guess[i] in x && x[i] != guess[i])
    ensures states[i] == Absent ==> (keep <==> x[i] != guess[i])
    ensures states[i].Other? ==> keep
  {
    var c := guess[i];
    !((states[i] == Correct && c != x[i]) ||
      (states[i] == Present && (c !in x || x[i] == c)) ||
      (states[i] == Absent && x[i] == c))
  }

  /** `x` passes the position rules for positions 0 .. k-1. */
  predicate ConsistentUpTo(x: string, guess: string, states: seq<Tile>, k: nat)
    requires k <= |guess| && k <= |states| && k <= |x|
  {
    k == 0 || (ConsistentUpTo(x, guess, states, k - 1) && KeepAt(x, guess, states, k - 1))
  }

  lemma {:induction false} ConsistentUpToMeaning(x: string, guess: string, states: seq<Tile>, k: nat)
    requires k <= |guess| && k <= |states| && k <= |x|
    ensures ConsistentUpTo(x, guess, states, k) <==> forall i :: 0 <= i < k ==> KeepAt(x, guess, states, i)
  {
    if k > 0 {
      ConsistentUpToMeaning(x, guess, states, k - 1);
    }
  }

  /** The two closures a round hands to `retain`: the all-absent shortcut and the rule for one position. */
  datatype Rule =
    | NoLetterOf(guess: string)
    | AtPosition(guess: string, states: seq<Tile>, i: nat)

  /** The closure can run on `x`: the position rule reads `x[i]`, where the source would panic past the end. */
  predicate Applies(rule: Rule, x: string) {
    match rule
    case NoLetterOf(_) => true
    case AtPosition(guess, states, i) => i < |guess| && i < |states| && i < |x|
  }

  function Accepts(rule: Rule, x: string): bool
    requires Applies(rule, x)
  {
    match rule
    case NoLetterOf(guess) => SharesNoLetter(x, guess)
    case AtPosition(guess, states, i) => KeepAt(x, guess, states, i)
  }

  /** `Vec::retain` with the closure `rule`: the candidates it accepts, in their original order. */
  function Retained(rule: Rule, ws: seq<string>): (r: seq<string>)
    requires forall x :: x in ws ==> Applies(rule, x)
    ensures |r| <= |ws|
    ensures forall x :: x in r ==> x in ws
  {
    if ws == [] then []
    else if Accepts(rule, ws[0]) then [ws[0]] + Retained(rule, ws[1..])
    else Retained(rule, ws[1..])
  }

  /** `retain` keeps exactly the candidates its closure accepts. */
  lemma {:induction false} RetainedMembers(rule: Rule, ws: seq<string>)
    requires forall x :: x in ws ==> Applies(rule, x)
    ensures forall x :: x in Retained(rule, ws) <==> x in ws && Accepts(rule, x)
  {
    if ws != [] {
      RetainedMembers(rule, ws[1..]);
    }
  }

  /** `retain` keeps every copy of an accepted word and no copy of a rejected one. */
  lemma {:induction false} RetainedCounts(rule: Rule, ws: seq<string>)
    requires forall x :: x in ws ==> Applies(rule, x)
    ensures forall x :: x in ws ==> multiset(Retained(rule, ws))[x] == (if Accepts(rule, x) then multiset(ws)[x] else 0)
  {
    if ws != [] {
      RetainedCounts(rule, ws[1..]);
      assert ws == [ws[0]] + ws[1..];
      forall x | x in ws
        ensures multiset(Retained(rule, ws))[x] == (if Accepts(rule, x) then multiset(ws)[x] else 0)
      {
        if x !in ws[1..] {
          assert x !in Retained(rule, ws[1..]);
        }
      }
    }
  }

  /** `retain` only deletes and keeps the order of what it keeps. */
  lemma {:induction false} RetainedIsSubsequence(rule: Rule, ws: seq<string>)
    requires forall x :: x in ws ==> Applies(rule, x)
    ensures IsSubsequence(Retained(rule, ws), ws)
  {
    if ws != [] {
      RetainedIsSubsequence(rule, ws[1..]);
      if Accepts(rule, ws[0]) {
        assert Retained(rule, ws)[1..] == Retained(rule, ws[1..]);
      }
    }
  }

  /** A `retain` whose closure accepts every candidate changes nothing. */
  lemma {:induction false} RetainedKeepsAll(rule: Rule, ws: seq<string>)
    requires forall x :: x in ws ==> Applies(rule, x) && Accepts(rule, x)
    ensures Retained(rule, ws) == ws
  {
    if ws != [] {
      RetainedKeepsAll(rule, ws[1..]);
      assert [ws[0]] + ws[1..] == ws;
    }
  }

  /** A second `retain` with the same closure removes nothing more. */
  lemma RetainedIdempotent(rule: Rule, ws: seq<string>)
    requires forall x :: x in ws ==> Applies(rule, x)
    ensures Retained(rule, Retained(rule, ws)) == Retained(rule, ws)
  {
    RetainedMembers(rule, ws);
    RetainedKeepsAll(rule, Retained(rule, ws));
  }

  /** The candidates left by the per-position `retain` passes for positions 0 .. k-1, run in that order. */
  function PositionPass(ws: seq<string>, guess: string, states: seq<Tile>, k: nat): (r: seq<string>)
    requires k <= |guess| && k <= |states|
    requires forall x :: x in ws ==> k <= |x|
    ensures |r| <= |ws|
    ensures forall x :: x in r ==> x in ws
  {
    if k == 0 then ws
    else Retained(AtPosition(guess, states, k - 1), PositionPass(ws, guess, states, k - 1))
  }

  /** The `for (i, c) in word.chars().enumerate()` loop: one `retain` per guessed position, in order. */
  method RunPositionPasses(ws: seq<string>, guess: string, states: seq<Tile>) returns (kept: seq<string>)
    requires |guess| <= |states|
    requires forall x :: x in ws ==> |guess| <= |x|
    ensures kept == PositionPass(ws, guess, states, |guess|)
  {
    kept := ws;
    for i := 0 to |guess|
      invariant kept == PositionPass(ws, guess, states, i)
    {
      kept := Retained(AtPosition(guess, states, i), kept);
    }
  }

  /** A candidate survives the passes for positions 0 .. k-1 exactly when it satisfies each of those positions' rules. */
  lemma {:induction false} PositionPassMembers(ws: seq<string>, guess: string, states: seq<Tile>, k: nat)
    requires k <= |guess| && k <= |states|
    requires forall x :: x in ws ==> k <= |x|
    ensures forall x :: x in PositionPass(ws, guess, states, k) <==> x in ws && ConsistentUpTo(x, guess, states, k)
  {
    if k > 0 {
      PositionPassMembers(ws, guess, states, k - 1);
      var before := PositionPass(ws, guess, states, k - 1);
      RetainedMembers(AtPosition(guess, states, k - 1), before);
      assert PositionPass(ws, guess, states, k) == Retained(AtPosition(guess, states, k - 1), before);
    }
  }

  lemma {:induction false} PositionPassIsSubsequence(ws: seq<string>, guess: string, states: seq<Tile>, k: nat)
    requires k <= |guess| && k <= |states|
    requires forall x :: x in ws ==> k <= |x|
    ensures IsSubsequence(PositionPass(ws, guess, states, k), ws)
  {
    if k == 0 {
      SubsequenceReflexive(ws);
    } else {
      var before := PositionPass(ws, guess, states, k - 1);
      var after := Retained(AtPosition(guess, states, k - 1), before);
      assert PositionPass(ws, guess, states, k) == after;
      PositionPassIsSubsequence(ws, guess, states, k - 1);
      RetainedIsSubsequence(AtPosition(guess, states, k - 1), before);
      SubsequenceTransitive(after, before, ws);
    }
  }

  /** Candidates that already pass every position rule survive the passes untouched. */
  lemma {:induction false} PositionPassKeepsConsistent(ws: seq<string>, guess: string, states: seq<Tile>, k: nat)
    requires k <= |guess| && k <= |states|
    requires forall x :: x in ws ==> k <= |x| && ConsistentUpTo(x, guess, states, k)
    ensures PositionPass(ws, guess, states, k) == ws
  {
    if k > 0 {
      PositionPassKeepsConsistent(ws, guess, states, k - 1);
      RetainedKeepsAll(AtPosition(guess, states, k - 1), ws);
    }
  }

  /** Running the whole per-position pass a second time with the same guess and states removes nothing. */
  lemma PositionPassIdempotent(ws: seq<string>, guess: string, states: seq<Tile>)
    requires |guess| <= |states|
    requires forall x :: x in ws ==> |guess| <= |x|
    ensures var once := PositionPass(ws, guess, states, |guess|);
            PositionPass(once, guess, states, |guess|) == once
  {
    PositionPassMembers(ws, guess, states, |guess|);
    PositionPassKeepsConsistent(PositionPass(ws, guess, states, |guess|), guess, states, |guess|);
  }

  /** The all-absent shortcut: a `retain` only when every tile of the row is absent. */
  function Shortcut(ws: seq<string>, guess: string, states: seq<Tile>): (r: seq<string>)
    ensures |r| <= |ws|
    ensures forall x :: x in r <==> x in ws && (AllAre(states, Absent) ==> SharesNoLetter(x, guess))
    ensures !AllAre(states, Absent) ==> r == ws
  {
    if AllAre(states, Absent) then RetainedMembers(NoLetterOf(guess), ws); Retained(NoLetterOf(guess), ws) else ws
  }

  /**
    The candidate vector after a round whose row is not all correct: the entry
    at index `i` (the guess) is removed, then the all-absent shortcut runs,
    then one `retain` per guessed position.
   */
  function Eliminate(ws: seq<string>, i: nat, states: seq<Tile>): (r: seq<string>)
    requires i < |ws| && |ws[i]| <= |states|
    requires forall x :: x in ws ==> |ws[i]| <= |x|
    ensures |r| < |ws|
    ensures forall x :: x in r ==> x in ws
  {
    var guess := ws[i];
    PositionPass(Shortcut(RemoveAt(ws, i), guess, states), guess, states, |guess|)
  }

  /**
    What survives a round: a candidate other than the consumed entry that,
    when every tile is absent, shares no letter with the guess, and that
    passes the rule of every guessed position.
   */
  lemma EliminateMembers(ws: seq<string>, i: nat, states: seq<Tile>)
    requires i < |ws| && |ws[i]| <= |states|
    requires forall x :: x in ws ==> |ws[i]| <= |x|
    ensures forall x :: x in Eliminate(ws, i, states) <==>
      && x in RemoveAt(ws, i)
      && (AllAre(states, Absent) ==> SharesNoLetter(x, ws[i]))
      && ConsistentUpTo(x, ws[i], states, |ws[i]|)
  {
    var guess := ws[i];
    PositionPassMembers(Shortcut(RemoveAt(ws, i), guess, states), guess, states, |guess|);
  }

  /**
    Every word left by a round fits the row, position by position: the guessed
    letter where the tile is correct, elsewhere but not here where it is
    present, not here where it is absent; and, after an all-absent row, no
    letter of the guess anywhere.
   */
  lemma SurvivorsFitRow(ws: seq<string>, i: nat, states: seq<Tile>, x: string)
    requires i < |ws| && |ws[i]| <= |states|
    requires forall y :: y in ws ==> |ws[i]| <= |y|
    requires x in Eliminate(ws, i, states)
    ensures x in ws && |ws[i]| <= |x|
    ensures forall j :: 0 <= j < |ws[i]| && states[j] == Correct ==> x[j] == ws[i][j]
    ensures forall j :: 0 <= j < |ws[i]| && states[j] == Present ==> ws[i][j] in x && x[j] != ws[i][j]
    ensures forall j :: 0 <= j < |ws[i]| && states[j] == Absent ==> x[j] != ws[i][j]
    ensures AllAre(states, Absent) ==> forall j :: 0 <= j < |ws[i]| ==> ws[i][j] !in x
  {
    EliminateMembers(ws, i, states);
    assert x in RemoveAt(ws, i) && ConsistentUpTo(x, ws[i], states, |ws[i]|);
    ConsistentFitsRow(x, ws[i], states);
  }

  /** A word that passes every position rule fits the row at every position. */
  lemma ConsistentFitsRow(x: string, guess: string, states: seq<Tile>)
    requires |guess| <= |states| && |guess| <= |x|
    requires ConsistentUpTo(x, guess, states, |guess|)
    ensures forall j :: 0 <= j < |guess| && states[j] == Correct ==> x[j] == guess[j]
    ensures forall j :: 0 <= j < |guess| && states[j] == Present ==> guess[j] in x && x[j] != guess[j]
    ensures forall j :: 0 <= j < |guess| && states[j] == Absent ==> x[j] != guess[j]
  {
    ConsistentUpToMeaning(x, guess, states, |guess|);
    forall j | 0 <= j < |guess|
      ensures states[j] == Correct ==> x[j] == guess[j]
      ensures states[j] == Present ==> guess[j] in x && x[j] != guess[j]
      ensures states[j] == Absent ==> x[j] != guess[j]
    {
      assert KeepAt(x, guess, states, j);
    }
  }

  /** A row whose tiles are all unrecognised states leaves the position passes nothing to remove. */
  lemma UnknownStatesRemoveNothing(ws: seq<string>, guess: string, states: seq<Tile>)
    requires |guess| <= |states|
    requires forall x :: x in ws ==> |guess| <= |x|
    requires forall j :: 0 <= j < |guess| ==> states[j].Other?
    ensures PositionPass(ws, guess, states, |guess|) == ws
  {
    forall x | x in ws
      ensures ConsistentUpTo(x, guess, states, |guess|)
    {
      ConsistentUpToMeaning(x, guess, states, |guess|);
    }
    PositionPassKeepsConsistent(ws, guess, states, |guess|);
  }

  /** A round only deletes: what is left is the old vector with some entries cut out, order kept. */
  lemma EliminateIsSubsequence(ws: seq<string>, i: nat, states: seq<Tile>)
    requires i < |ws| && |ws[i]| <= |states|
    requires forall x :: x in ws ==> |ws[i]| <= |x|
    ensures IsSubsequence(Eliminate(ws, i, states), ws)
  {
    var guess := ws[i];
    var rest := RemoveAt(ws, i);
    var shortcut := Shortcut(rest, guess, states);
    RemoveAtIsSubsequence(ws, i);
    if AllAre(states, Absent) {
      RetainedIsSubsequence(NoLetterOf(guess), rest);
      SubsequenceTransitive(shortcut, rest, ws);
    }
    PositionPassIsSubsequence(shortcut, guess, states, |guess|);
    SubsequenceTransitive(Eliminate(ws, i, states), shortcut, ws);
  }

  /** The masked line of a row: the guessed letter where the tile is correct, `_` elsewhere. */
  function Masked(guess: string, states: seq<Tile>): (line: string)
    requires |guess| <= |states|
    ensures |line| == |guess|
    ensures forall i :: 0 <= i < |guess| ==> line[i] == (if states[i] == Correct then guess[i] else '_')
  {
    seq(|guess|, i requires 0 <= i < |guess| => if states[i] == Correct then guess[i] else '_')
  }

  /** Builds the masked line by pushing one character per guessed position. */
  method MaskLine(guess: string, states: seq<Tile>) returns (line: string)
    requires |guess| <= |states|
    ensures line == Masked(guess, states)
  {
    line := "";
    for i := 0 to |guess|
      invariant |line| == i
      invariant forall j :: 0 <= j < i ==> line[j] == (if states[j] == Correct then guess[j] else '_')
    {
      line := line + [if states[i] == Correct then guess[i] else '_'];
    }
  }
}
