/**
  The greedy replacement rule of the placement loop (main.c lines 136-141),
  for one cell and the scores of the candidate tiles in the order they arrive.

  A cell starts at the sentinel -1 ("unfilled"). A candidate replaces the
  occupant when the cell is unfilled or the recorded score is strictly greater
  than the candidate's, so a tie keeps the earlier tile.
 */
module Placement {

  /** `(double) -1`: the score-table entry of a cell no tile has been placed in. */
  const Unfilled: int := -1

  /** The condition at line 136. */
  predicate Replaces(current: int, score: nat)
  {
    current == Unfilled || current > score
  }

  /** The recorded score after a candidate with `score` has been considered. */
  function Update(current: int, score: nat): (r: int)
    ensures r != Unfilled
    ensures r == score || r == current
    ensures current != Unfilled ==> r <= current
  {
    if Replaces(current, score) then score else current
  }

  /** The recorded score of a cell after candidates with scores `ss` have been considered in order. */
  function BestScore(ss: seq<nat>): int
  {
    if |ss| == 0 then Unfilled
    else Update(BestScore(ss[..|ss| - 1]), ss[|ss| - 1])
  }

  /** The index of the candidate whose tile the cell shows after candidates `ss`. */
  function Winner(ss: seq<nat>): (w: nat)
    requires |ss| > 0
    ensures w < |ss|
  {
    var prefix := ss[..|ss| - 1];
    if Replaces(BestScore(prefix), ss[|ss| - 1]) then |ss| - 1
    else Winner(prefix)
  }

  /**
    After at least one candidate the cell is filled, holds the minimum of the
    candidates' scores, and shows a candidate that has that score.
   */
  lemma {:induction false} BestScoreIsMinimum(ss: seq<nat>)
    requires |ss| > 0
    ensures BestScore(ss) != Unfilled
    ensures forall i :: 0 <= i < |ss| ==> BestScore(ss) <= ss[i]
    ensures ss[Winner(ss)] == BestScore(ss)
  {
    var prefix := ss[..|ss| - 1];
    if |prefix| > 0 {
      BestScoreIsMinimum(prefix);
      assert forall i :: 0 <= i < |prefix| ==> prefix[i] == ss[i];
    }
  }

  /** Ties keep the earlier tile: every candidate before the winner scored strictly worse. */
  lemma {:induction false} WinnerIsEarliest(ss: seq<nat>)
    requires |ss| > 0
    ensures forall i :: 0 <= i < Winner(ss) ==> ss[i] > BestScore(ss)
  {
    var prefix := ss[..|ss| - 1];
    if |prefix| > 0 {
      WinnerIsEarliest(prefix);
      BestScoreIsMinimum(prefix);
      assert forall i :: 0 <= i < |prefix| ==> prefix[i] == ss[i];
    }
  }

  /** One more candidate: the recorded score is updated, and the cell shows the newcomer exactly when it replaces. */
  lemma Appended(ss: seq<nat>, s: nat)
    ensures BestScore(ss + [s]) == Update(BestScore(ss), s)
    ensures Replaces(BestScore(ss), s) ==> Winner(ss + [s]) == |ss|
    ensures !Replaces(BestScore(ss), s) ==> |ss| > 0 && Winner(ss + [s]) == Winner(ss)
  {
    assert (ss + [s])[..|ss|] == ss;
  }

  /** Once a cell is filled, its score never increases. */
  lemma BestScoreNeverIncreases(ss: seq<nat>, s: nat)
    requires |ss| > 0
    ensures BestScore(ss + [s]) <= BestScore(ss)
  {
    assert (ss + [s])[..|ss|] == ss;
    BestScoreIsMinimum(ss);
  }

  /** A later candidate whose score only equals the best does not displace the shown tile. */
  lemma TieKeepsWinner(ss: seq<nat>, s: nat)
    requires |ss| > 0 && s >= BestScore(ss)
    ensures BestScore(ss + [s]) == BestScore(ss)
    ensures Winner(ss + [s]) == Winner(ss)
  {
    assert (ss + [s])[..|ss|] == ss;
    BestScoreIsMinimum(ss);
  }

  /** An example: two candidates that both score 75 leave the first one in place. */
  lemma TieExampleWinner()
    ensures BestScore([75, 75]) == 75 && Winner([75, 75]) == 0
  {
    assert [75, 75][..1] == [75];
    assert [75][..0] == [];
  }
}
