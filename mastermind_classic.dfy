/**
 * The first desktop Mastermind program (mastermind.py): no settings screen,
 * four pegs, ten rows and the six basic colours. Its `Guess` and `play_row`
 * are those of mastermind_cip.py with the number of pegs fixed at four.
 */
module MastermindClassic {
  import opened Common
  import opened Feedback
  import opened MastermindSetup
  import opened MastermindRow
  import MastermindCip

  const NUM_CIRCLES: nat := 4
  const MAX_GUESSES: nat := 10

  /** The fixed configuration is the easy level of the later programs, with two rows fewer. */
  lemma ClassicConfig()
    ensures NUM_CIRCLES == Configure(1).numPegs && COLORS == Configure(1).colors
    ensures MAX_GUESSES == Configure(1).maxGuesses - 2
    ensures NUM_CIRCLES <= |COLORS| && Distinct(COLORS)
  {
    PaletteDistinct(1);
  }

  /**
   * `main`: draws a code of four different colours, creates the ten rows and
   * plays them until one is correct or none is left. `firstId` is the canvas
   * id the first code peg receives.
   */
  method PlayGame(firstId: int, clicks: seq<seq<Target>>)
    returns (truth: seq<string>, rows: seq<MastermindCip.Guess>, rowsPlayed: nat, isWinner: bool, waiting: bool,
             ghost starts: seq<nat>, ghost played: seq<Row>)
    requires SwatchesFrom(clicks, COLORS)
    ensures |rows| == MAX_GUESSES && |truth| == NUM_CIRCLES && Distinct(truth)
    ensures forall i :: 0 <= i < |truth| ==> truth[i] in COLORS
    ensures forall j :: 0 <= j < |rows| ==>
      rows[j].Valid() && rows[j].numPegs == NUM_CIRCLES
      && |rows[j].codes| == NUM_CIRCLES && rows[j].codes == RowIds(firstId, NUM_CIRCLES, j)
    ensures forall j, k :: 0 <= j < k < |rows| ==> Apart(rows[j].codes, rows[k].codes)
    ensures Turns(Desktop, MastermindCip.CodesOf(rows), truth, clicks, starts, played) && rowsPlayed == |played|
    ensures played == Session(Desktop, MastermindCip.CodesOf(rows), truth, clicks)
    ensures MastermindCip.Shows(rows, played) && MastermindCip.Untouched(rows, rowsPlayed, truth)
    ensures waiting <==> rowsPlayed > 0 && !played[rowsPlayed - 1].done
    ensures isWinner <==> rowsPlayed > 0 && played[rowsPlayed - 1].done && played[rowsPlayed - 1].scored == truth
    ensures !waiting && !isWinner ==> rowsPlayed == MAX_GUESSES
    ensures forall j :: 0 <= j < rowsPlayed - 1 ==> played[j].done && played[j].scored != truth
    ensures forall j :: 0 <= j < rowsPlayed && played[j].done ==>
      |played[j].scored| == NUM_CIRCLES && rows[j].keys == Keys(played[j].scored, truth)
  {
    ClassicConfig();
    truth := DrawSecret(COLORS, NUM_CIRCLES, false);
    rows := MastermindCip.CreateRows(NUM_CIRCLES, MAX_GUESSES, firstId);
    rowsPlayed, isWinner, waiting, starts, played := MastermindCip.PlayRows(rows, COLORS, truth, clicks);
  }
}
