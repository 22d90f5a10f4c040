/**
 * The mobile-friendly Mastermind program: a row of `numPegs` slots filled by
 * picking a palette colour and then a code peg, scored by its Check button once
 * no slot is blank, inside a game of at most `maxGuesses` rows.
 */
module MastermindMobile {
  import opened Common
  import opened Feedback
  import opened MastermindSetup
  import opened MastermindRow

  /** One row of the board (`Guess`). */
  class Guess {
    const numPegs: nat
    /** The colour of each slot; `BLANK` until one is chosen. */
    var guesses: seq<string>
    /** The canvas ids of the slots' code pegs, filled by `render`. */
    var codes: seq<int>
    /** Whether the Check button's shapes are on the canvas (`button` non-empty). */
    var buttonShown: bool
    /** The key-peg colours drawn by `check`; empty before the row is scored. */
    var keys: seq<string>

    predicate Valid()
      reads this
    {
      |guesses| == numPegs && (codes == [] || |codes| == numPegs) && Distinct(codes)
    }

    constructor (numPegs: nat)
      ensures Valid() && this.numPegs == numPegs
      ensures guesses == Repeat(BLANK, numPegs) && codes == [] && !buttonShown && keys == []
    {
      this.numPegs := numPegs;
      guesses := Repeat(BLANK, numPegs);
      codes := [];
      buttonShown := false;
      keys := [];
    }

    /** Draws the code pegs, taking the canvas ids `firstId`, `firstId + 1`, ... */
    method Render(firstId: int) returns (nextId: int)
      requires Valid() && codes == []
      modifies this
      ensures Valid() && codes == Ids(firstId, numPegs) && nextId == firstId + numPegs
      ensures guesses == old(guesses) && buttonShown == old(buttonShown) && keys == old(keys)
    {
      var i := 0;
      while i < numPegs
        invariant 0 <= i <= numPegs
        invariant codes == Ids(firstId, i)
        invariant guesses == old(guesses) && buttonShown == old(buttonShown) && keys == old(keys)
      {
        codes := codes + [firstId + i];
        i := i + 1;
      }
      nextId := firstId + numPegs;
    }

    /** `show_button`: (re)draws the Check button. */
    method ShowButton()
      modifies this
      ensures buttonShown
      ensures guesses == old(guesses) && codes == old(codes) && keys == old(keys)
    {
      buttonShown := true;
    }

    /**
     * `set_guess`: colours the slot of the code peg `code`; once no slot is
     * blank the Check button is drawn again in its enabled look.
     */
    method SetGuess(code: int, color: string)
      requires Valid()
      modifies this
      ensures Valid() && codes == old(codes) && keys == old(keys)
      ensures guesses == SetSlots(old(guesses), codes, code, color)
      ensures buttonShown == (old(buttonShown) || !HasBlank(guesses))
    {
      for i := 0 to |codes|
        invariant Valid() && codes == old(codes) && keys == old(keys) && buttonShown == old(buttonShown)
        invariant forall j :: 0 <= j < |guesses| ==>
          guesses[j] == (if j < i && codes[j] == code then color else old(guesses[j]))
      {
        if code == codes[i] {
          guesses := guesses[i := color];
        }
      }
      var blanks := HasBlanks();
      if !blanks {
        buttonShown := true;
      }
    }

    /** `has_blanks`: whether some slot is still blank. */
    method HasBlanks() returns (b: bool)
      ensures b <==> HasBlank(guesses)
    {
      for i := 0 to |guesses|
        invariant BLANK !in guesses[..i]
      {
        if guesses[i] == BLANK {
          return true;
        }
        assert guesses[..i + 1] == guesses[..i] + [guesses[i]];
      }
      assert guesses[..|guesses|] == guesses;
      return false;
    }

    /** `check`: scores the row, removes the Check button and draws the key pegs. */
    method Check(truth: seq<string>) returns (correct: bool)
      requires Valid() && |truth| == numPegs
      modifies this
      ensures Valid() && guesses == old(guesses) && codes == old(codes)
      ensures keys == Keys(guesses, truth) && !buttonShown
      ensures correct <==> guesses == truth
    {
      var pegColors;
      pegColors, correct := Feedback.Check(guesses, truth);
      buttonShown := false;
      keys := pegColors;
    }
  }

  // ---------------------------------------------------------------------
  // `play_row`
  // ---------------------------------------------------------------------

  function Current(g: Guess, selected: Option<string>, done: bool, correct: bool, scored: seq<string>): Row
    reads g
  {
    Row(g.guesses, g.buttonShown, g.keys, selected, done, correct, scored)
  }

  /** A row state about to be played: nothing selected, not done. */
  function Fresh(g: Guess): Row
    reads g
  {
    Current(g, None, false, false, [])
  }

  /** One object under the mouse: the body of the inner loop of `play_row`. */
  method HandleTarget(g: Guess, truth: seq<string>, t: Target, selected: Option<string>, isDone: bool, isCorrect: bool, ghost scored: seq<string>)
    returns (selected': Option<string>, isDone': bool, isCorrect': bool, ghost scored': seq<string>)
    requires g.Valid() && |truth| == g.numPegs
    modifies g
    ensures g.Valid() && g.codes == old(g.codes)
    ensures Current(g, selected', isDone', isCorrect', scored')
      == Step(Mobile, old(Current(g, selected, isDone, isCorrect, scored)), g.codes, truth, t)
  {
    selected', isDone', isCorrect', scored' := selected, isDone, isCorrect, scored;
    if t.CheckButton? && g.buttonShown {
      var blanks := g.HasBlanks();
      if !blanks {
        scored' := g.guesses;
        isCorrect' := g.Check(truth);
        isDone' := true;
      }
      selected' := None;
    } else if t.Swatch? && selected.None? {
      selected' := Some(t.color);
    } else if t.Swatch? && Truthy(selected) {
      selected' := Some(t.color);
    } else if t.CodePeg? && Truthy(selected) && t.id in g.codes {
      g.SetGuess(t.id, selected.value);
      selected' := None;
    }
  }

  /** One click: every object under the mouse, handled in turn (the `for overlapping` loop). */
  method HandleClick(g: Guess, truth: seq<string>, click: seq<Target>, selected: Option<string>, isDone: bool, isCorrect: bool, ghost scored: seq<string>)
    returns (selected': Option<string>, isDone': bool, isCorrect': bool, ghost scored': seq<string>)
    requires g.Valid() && |truth| == g.numPegs
    modifies g
    ensures g.Valid() && g.codes == old(g.codes)
    ensures Current(g, selected', isDone', isCorrect', scored')
      == StepClick(Mobile, old(Current(g, selected, isDone, isCorrect, scored)), g.codes, truth, click)
  {
    selected', isDone', isCorrect', scored' := selected, isDone, isCorrect, scored;
    ghost var before := Current(g, selected, isDone, isCorrect, scored);
    for j := 0 to |click|
      invariant g.Valid() && g.codes == old(g.codes)
      invariant Current(g, selected', isDone', isCorrect', scored') == StepClick(Mobile, before, g.codes, truth, click[..j])
    {
      assert click[..j + 1][..j] == click[..j];
      selected', isDone', isCorrect', scored' := HandleTarget(g, truth, click[j], selected', isDone', isCorrect', scored');
    }
    assert click[..|click|] == click;
  }

  /** The `while not is_done` loop: one click per pass until the row is scored or the clicks run out. */
  method ReadClicks(g: Guess, truth: seq<string>, clicks: seq<seq<Target>>)
    returns (isCorrect: bool, isDone: bool, used: nat, selected: Option<string>, ghost scored: seq<string>)
    requires g.Valid() && |truth| == g.numPegs
    modifies g
    ensures g.Valid() && g.codes == old(g.codes)
    ensures used <= |clicks| && (isDone || used == |clicks|)
    ensures Current(g, selected, isDone, isCorrect, scored) == RunClicks(Mobile, old(Fresh(g)), g.codes, truth, clicks[..used])
    ensures isDone ==> 0 < used && !RunClicks(Mobile, old(Fresh(g)), g.codes, truth, clicks[..used - 1]).done
  {
    ghost var start := Fresh(g);
    selected := None;
    isCorrect, isDone, used := false, false, 0;
    scored := [];
    while !isDone && used < |clicks|
      invariant used <= |clicks|
      invariant g.Valid() && g.codes == old(g.codes) && g.numPegs == |truth|
      invariant Current(g, selected, isDone, isCorrect, scored) == RunClicks(Mobile, start, g.codes, truth, clicks[..used])
      invariant isDone ==> 0 < used && !RunClicks(Mobile, start, g.codes, truth, clicks[..used - 1]).done
      decreases |clicks| - used, !isDone
    {
      ghost var before := Current(g, selected, isDone, isCorrect, scored);
      assert !before.done && before == RunClicks(Mobile, start, g.codes, truth, clicks[..used]);
      assert clicks[..used + 1][..used] == clicks[..used];
      assert RunClicks(Mobile, start, g.codes, truth, clicks[..used + 1]) == StepClick(Mobile, before, g.codes, truth, clicks[used]);
      selected, isDone, isCorrect, scored := HandleClick(g, truth, clicks[used], selected, isDone, isCorrect, scored);
      used := used + 1;
    }
  }

  /**
   * `play_row`: reads clicks until the row is scored. It returns `is_correct`,
   * whether the row was scored (`false` when the clicks ran out first), and how
   * many clicks it read.
   */
  method PlayRow(g: Guess, colors: seq<string>, truth: seq<string>, clicks: seq<seq<Target>>)
    returns (isCorrect: bool, isDone: bool, used: nat, ghost scored: seq<string>)
    requires g.Valid() && |truth| == g.numPegs
    requires RowInv(Mobile, Fresh(g), truth, colors) && SwatchesFrom(clicks, colors)
    modifies g
    ensures g.Valid() && g.codes == old(g.codes)
    ensures var r := RunClicks(Mobile, old(Fresh(g)), g.codes, truth, clicks);
      g.guesses == r.guesses && g.buttonShown == r.buttonShown && g.keys == r.keys
      && isDone == r.done && isCorrect == r.correct && scored == r.scored
    ensures used <= |clicks| && (isDone || used == |clicks|)
    ensures RunClicks(Mobile, old(Fresh(g)), g.codes, truth, clicks[..used]) == RunClicks(Mobile, old(Fresh(g)), g.codes, truth, clicks)
    ensures isDone ==> 0 < used && !RunClicks(Mobile, old(Fresh(g)), g.codes, truth, clicks[..used - 1]).done
    ensures isDone ==> var r := RunClicks(Mobile, old(Fresh(g)), g.codes, truth, clicks);
      |r.scored| == |truth| && !HasBlank(r.scored) && forall i :: 0 <= i < |r.scored| ==> r.scored[i] in colors
    ensures isDone ==> g.keys == Keys(scored, truth) && (isCorrect <==> scored == truth)
    ensures isDone ==> (isCorrect <==> g.keys == Repeat(KEY_EXACT_COLOR, |truth|))
    ensures !isDone ==> g.keys == old(g.keys)
  {
    ghost var start := Fresh(g);
    var selected: Option<string>;
    isCorrect, isDone, used, selected, scored := ReadClicks(g, truth, clicks);
    if isDone {
      RunClicksStable(Mobile, start, g.codes, truth, clicks, used);
    } else {
      assert clicks[..used] == clicks;
    }
    RowOutcome(Mobile, start, g.codes, truth, colors, clicks);
  }


  // ---------------------------------------------------------------------
  // `play_mastermind`
  // ---------------------------------------------------------------------

  /** The board: `maxGuesses` new rows of `numPegs` blank slots, each drawn on the canvas. */
  method CreateRows(numPegs: nat, maxGuesses: nat, firstId: int) returns (rows: seq<Guess>)
    ensures |rows| == maxGuesses
    ensures forall j :: 0 <= j < |rows| ==>
      fresh(rows[j]) && rows[j].Valid() && rows[j].numPegs == numPegs
      && rows[j].guesses == Repeat(BLANK, numPegs) && rows[j].keys == []
      && rows[j].codes == RowIds(firstId, numPegs, j)
    ensures forall j, k :: 0 <= j < k < |rows| ==> rows[j] != rows[k] && Apart(rows[j].codes, rows[k].codes)
  {
    rows := [];
    var nextId := firstId;
    for i := 0 to maxGuesses
      invariant |rows| == i && nextId == firstId + i * numPegs
      invariant forall j :: 0 <= j < i ==>
        fresh(rows[j]) && rows[j].Valid() && rows[j].numPegs == numPegs
        && rows[j].guesses == Repeat(BLANK, numPegs) && rows[j].keys == []
        && rows[j].codes == RowIds(firstId, numPegs, j)
      invariant forall j, k :: 0 <= j < k < i ==> rows[j] != rows[k] && Apart(rows[j].codes, rows[k].codes)
    {
      var g := new Guess(numPegs);
      nextId := g.Render(nextId);
      forall j | 0 <= j < i
        ensures Apart(rows[j].codes, g.codes)
      {
        RowIdsApart(firstId, numPegs, j, i);
      }
      rows := rows + [g];
    }
  }

  /** One turn of the play loop: show the row's Check button and play the row. */
  method PlayTurn(g: Guess, colors: seq<string>, truth: seq<string>, clicks: seq<seq<Target>>)
    returns (correct: bool, done: bool, used: nat, ghost scored: seq<string>)
    requires g.Valid() && g.numPegs == |truth| && g.guesses == Repeat(BLANK, |truth|) && g.keys == []
    requires SwatchesFrom(clicks, colors)
    modifies g
    ensures g.Valid() && g.numPegs == |truth| && g.codes == old(g.codes) && used <= |clicks|
    ensures var r := RunClicks(Mobile, ActiveRow(|truth|), g.codes, truth, clicks);
      g.guesses == r.guesses && g.keys == r.keys && done == r.done && correct == r.correct && scored == r.scored
    ensures RunClicks(Mobile, ActiveRow(|truth|), g.codes, truth, clicks[..used]) == RunClicks(Mobile, ActiveRow(|truth|), g.codes, truth, clicks)
    ensures done ==> TurnReads(Mobile, g.codes, truth, clicks[..used])
    ensures !done ==> used == |clicks|
    ensures done ==> |scored| == |truth| && g.keys == Keys(scored, truth) && (correct <==> scored == truth)
    ensures done ==> (correct <==> g.keys == Repeat(KEY_EXACT_COLOR, |truth|))
    ensures !done ==> g.keys == []
  {
    g.ShowButton();
    correct, done, used, scored := PlayRow(g, colors, truth, clicks);
    if done {
      assert clicks[..used][..used - 1] == clicks[..used - 1];
    }
  }

  /**
   * One pass of the loop of `play_mastermind`: row `i` is played on the
   * clicks it reads, and the other rows are left as they were.
   */
  method PlayRowAt(rows: seq<Guess>, i: nat, colors: seq<string>, truth: seq<string>, clicks: seq<seq<Target>>)
    returns (correct: bool, done: bool, used: nat, ghost scored: seq<string>)
    requires i < |rows| && forall j, k :: 0 <= j < k < |rows| ==> rows[j] != rows[k]
    requires forall j :: 0 <= j < |rows| ==> rows[j].Valid() && rows[j].numPegs == |truth|
    requires rows[i].guesses == Repeat(BLANK, |truth|) && rows[i].keys == []
    requires SwatchesFrom(clicks, colors)
    modifies rows[i]
    ensures used <= |clicks| && SwatchesFrom(clicks[used..], colors)
    ensures forall j :: 0 <= j < |rows| ==> rows[j].Valid() && rows[j].numPegs == |truth|
    ensures forall j :: 0 <= j < |rows| && j != i ==>
      rows[j].keys == old(rows[j].keys) && rows[j].guesses == old(rows[j].guesses) && rows[j].codes == old(rows[j].codes)
    ensures |rows[i].codes| <= |truth|
    ensures rows[i].guesses == RunClicks(Mobile, ActiveRow(|truth|), rows[i].codes, truth, clicks[..used]).guesses
    ensures rows[i].keys == RunClicks(Mobile, ActiveRow(|truth|), rows[i].codes, truth, clicks[..used]).keys
    ensures done == RunClicks(Mobile, ActiveRow(|truth|), rows[i].codes, truth, clicks[..used]).done
    ensures scored == RunClicks(Mobile, ActiveRow(|truth|), rows[i].codes, truth, clicks[..used]).scored
    ensures done ==> TurnReads(Mobile, rows[i].codes, truth, clicks[..used])
    ensures !done ==> used == |clicks|
    ensures done ==> |scored| == |truth| && rows[i].keys == Keys(scored, truth) && (correct <==> scored == truth)
    ensures rows[i].codes == old(rows[i].codes)
    ensures correct == RunClicks(Mobile, ActiveRow(|truth|), rows[i].codes, truth, clicks[..used]).correct
  {
    correct, done, used, scored := PlayTurn(rows[i], colors, truth, clicks);
    SwatchesFromSuffix(clicks, colors, used);
  }

  /**
   * The board during play: distinct rows of `|truth|` slots whose code pegs
   * are `codes`.
   */
  predicate Board(rows: seq<Guess>, truth: seq<string>, codes: seq<seq<int>>)
    reads rows
  {
    |codes| == |rows| && (forall j, k :: 0 <= j < k < |rows| ==> rows[j] != rows[k])
    && forall j :: 0 <= j < |rows| ==>
      rows[j].Valid() && rows[j].numPegs == |truth| && rows[j].codes == codes[j] && |codes[j]| <= |truth|
  }

  /** The first `|played|` rows show the slots and key pegs of the states `played`. */
  predicate Shows(rows: seq<Guess>, played: seq<Row>)
    reads rows
  {
    |played| <= |rows|
    && forall j :: 0 <= j < |played| ==> rows[j].guesses == played[j].guesses && rows[j].keys == played[j].keys
  }

  /** The rows from `from` on are still empty. */
  predicate Untouched(rows: seq<Guess>, from: nat, truth: seq<string>)
    reads rows
  {
    forall j :: from <= j < |rows| ==> rows[j].keys == [] && rows[j].guesses == Repeat(BLANK, |truth|)
  }

  /**
   * A pass of the loop of `play_mastermind` seen from the session: row `i`
   * is played on the clicks left after the rows before it, `remaining`, and
   * the turns so far grow by the state `row` it ends in.
   */
  method PlayNextRow(rows: seq<Guess>, i: nat, colors: seq<string>, truth: seq<string>, remaining: seq<seq<Target>>,
                     ghost codes: seq<seq<int>>, ghost clicks: seq<seq<Target>>, ghost starts: seq<nat>, ghost played: seq<Row>)
    returns (correct: bool, done: bool, used: nat, ghost row: Row)
    requires i < |rows| && |played| == i
    requires Board(rows, truth, codes) && Shows(rows, played) && Untouched(rows, i, truth)
    requires Turns(Mobile, codes, truth, clicks, starts, played) && remaining == clicks[starts[i]..]
    requires i > 0 ==> played[i - 1].done && !played[i - 1].correct
    requires SwatchesFrom(remaining, colors)
    modifies rows[i]
    ensures used <= |remaining| && SwatchesFrom(remaining[used..], colors)
    ensures Board(rows, truth, codes) && Shows(rows, played + [row]) && Untouched(rows, i + 1, truth)
    ensures Turns(Mobile, codes, truth, clicks, starts + [starts[i] + used], played + [row])
    ensures done == row.done && correct == row.correct
  {
    ghost var scored;
    correct, done, used, scored := PlayRowAt(rows, i, colors, truth, remaining);
    row := RunClicks(Mobile, ActiveRow(|truth|), codes[i], truth, remaining[..used]);
    TurnsExtend(Mobile, codes, truth, clicks, starts, played, used, row);
  }

  /** The code-peg ids of each row, in order. */
  function CodesOf(rows: seq<Guess>): (codes: seq<seq<int>>)
    reads rows
    ensures |codes| == |rows| && forall j :: 0 <= j < |rows| ==> codes[j] == rows[j].codes
  {
    if rows == [] then [] else [rows[0].codes] + CodesOf(rows[1..])
  }

  /**
   * The loop of `play_mastermind`: each row is played, in order, on the
   * clicks that follow those of the row before, and play stops after a row
   * that equals the code or that the clicks ran out in. `played` is the state
   * each row played ends in and `starts` where its clicks begin: the rows are
   * the turns `Turns` describes, so `TurnsAreSession` makes them `Session` of
   * the clicks.
   */
  method PlayTurns(rows: seq<Guess>, colors: seq<string>, truth: seq<string>, clicks: seq<seq<Target>>, ghost codes: seq<seq<int>>)
    returns (rowsPlayed: nat, isWinner: bool, waiting: bool, ghost starts: seq<nat>, ghost played: seq<Row>)
    requires Board(rows, truth, codes) && Untouched(rows, 0, truth) && SwatchesFrom(clicks, colors)
    modifies rows
    ensures Board(rows, truth, codes) && Turns(Mobile, codes, truth, clicks, starts, played) && rowsPlayed == |played|
    ensures Shows(rows, played) && Untouched(rows, rowsPlayed, truth)
    ensures waiting <==> rowsPlayed > 0 && !played[rowsPlayed - 1].done
    ensures isWinner <==> rowsPlayed > 0 && played[rowsPlayed - 1].done && played[rowsPlayed - 1].correct
    ensures !waiting && !isWinner ==> rowsPlayed == |rows|
  {
    starts := [0];
    var remaining := clicks;
    var i := 0;
    rowsPlayed, isWinner, waiting := 0, false, false;
    played := [];
    TurnsStart(Mobile, codes, truth, clicks);
    while i < |rows|
      invariant 0 <= i <= |rows| && rowsPlayed == i && !isWinner && !waiting
      invariant SwatchesFrom(remaining, colors)
      invariant |played| == i && (i > 0 ==> played[i - 1].done && !played[i - 1].correct)
      invariant Board(rows, truth, codes) && Shows(rows, played) && Untouched(rows, i, truth)
      invariant Turns(Mobile, codes, truth, clicks, starts, played) && remaining == clicks[starts[i]..]
    {
      var correct, done, used;
      ghost var r;
      correct, done, used, r := PlayNextRow(rows, i, colors, truth, remaining, codes, clicks, starts, played);
      assert remaining[used..] == clicks[starts[i] + used..];
      starts := starts + [starts[i] + used];
      played := played + [r];
      remaining := remaining[used..];
      rowsPlayed := i + 1;
      if !done { waiting := true; break; }
      isWinner := correct;
      if isWinner { break; }
      i := i + 1;
    }
  }

  /**
   * The play loop of `play_mastermind` on fresh rows: the rows in order, each
   * with its Check button shown, until one is correct or none is left.
   * `waiting` is true when the clicks ran out inside a row: the program would
   * still be polling the mouse there. Every row before the last was scored
   * and is not the code; a scored row shows the key pegs of the guess it
   * scored; the session is won exactly when the last row was scored and its
   * guess is the code.
   */
  method PlayRows(rows: seq<Guess>, colors: seq<string>, truth: seq<string>, clicks: seq<seq<Target>>)
    returns (rowsPlayed: nat, isWinner: bool, waiting: bool, ghost starts: seq<nat>, ghost played: seq<Row>)
    requires forall j :: 0 <= j < |rows| ==>
      rows[j].Valid() && rows[j].numPegs == |truth|
      && rows[j].guesses == Repeat(BLANK, |truth|) && rows[j].keys == []
    requires forall j, k :: 0 <= j < k < |rows| ==> rows[j] != rows[k]
    requires SwatchesFrom(clicks, colors)
    modifies rows
    ensures forall j :: 0 <= j < |rows| ==>
      rows[j].Valid() && rows[j].numPegs == |truth| && |rows[j].codes| <= |truth| && rows[j].codes == old(rows[j].codes)
    ensures Turns(Mobile, CodesOf(rows), truth, clicks, starts, played) && rowsPlayed == |played|
    ensures played == Session(Mobile, CodesOf(rows), truth, clicks)
    ensures Shows(rows, played) && Untouched(rows, rowsPlayed, truth)
    ensures waiting <==> rowsPlayed > 0 && !played[rowsPlayed - 1].done
    ensures isWinner <==> rowsPlayed > 0 && played[rowsPlayed - 1].done && played[rowsPlayed - 1].scored == truth
    ensures !waiting && !isWinner ==> rowsPlayed == |rows|
    ensures forall j :: 0 <= j < rowsPlayed - 1 ==> played[j].done && played[j].scored != truth
    ensures forall j :: 0 <= j < rowsPlayed && played[j].done ==>
      |played[j].scored| == |truth| && rows[j].keys == Keys(played[j].scored, truth)
  {
    ghost var codes := CodesOf(rows);
    rowsPlayed, isWinner, waiting, starts, played := PlayTurns(rows, colors, truth, clicks, codes);
    assert CodesOf(rows) == codes;
    TurnsOutcome(Mobile, codes, truth, colors, clicks, starts, played);
    TurnsEndInSession(Mobile, codes, truth, clicks, starts, played);
  }

  /**
   * `play_mastermind`: configures the game from the settings, draws the code,
   * creates the rows and plays them. `firstId` is the canvas id the first
   * code peg receives, which depends on what the canvas drew before.
   */
  method PlayMastermind(difficulty: int, hasDuplicates: bool, firstId: int, clicks: seq<seq<Target>>)
    returns (truth: seq<string>, rows: seq<Guess>, rowsPlayed: nat, isWinner: bool, waiting: bool,
             ghost starts: seq<nat>, ghost played: seq<Row>)
    requires SwatchesFrom(clicks, Configure(difficulty).colors)
    ensures |rows| == Configure(difficulty).maxGuesses
    ensures |truth| == Configure(difficulty).numPegs
    ensures forall i :: 0 <= i < |truth| ==> truth[i] in Configure(difficulty).colors
    ensures !hasDuplicates ==> Distinct(truth)
    ensures forall j :: 0 <= j < |rows| ==>
      rows[j].Valid() && rows[j].numPegs == |truth| && |rows[j].codes| == |truth| && rows[j].codes == RowIds(firstId, |truth|, j)
    ensures forall j, k :: 0 <= j < k < |rows| ==> Apart(rows[j].codes, rows[k].codes)
    ensures Turns(Mobile, CodesOf(rows), truth, clicks, starts, played) && rowsPlayed == |played|
    ensures played == Session(Mobile, CodesOf(rows), truth, clicks)
    ensures Shows(rows, played) && Untouched(rows, rowsPlayed, truth)
    ensures waiting <==> rowsPlayed > 0 && !played[rowsPlayed - 1].done
    ensures isWinner <==> rowsPlayed > 0 && played[rowsPlayed - 1].done && played[rowsPlayed - 1].scored == truth
    ensures !waiting && !isWinner ==> rowsPlayed == |rows|
    ensures forall j :: 0 <= j < rowsPlayed - 1 ==> played[j].done && played[j].scored != truth
    ensures forall j :: 0 <= j < rowsPlayed && played[j].done ==>
      |played[j].scored| == |truth| && rows[j].keys == Keys(played[j].scored, truth)
  {
    var config := Configure(difficulty);
    PaletteDistinct(difficulty);
    truth := DrawSecret(config.colors, config.numPegs, hasDuplicates);
    rows := CreateRows(config.numPegs, config.maxGuesses, firstId);
    rowsPlayed, isWinner, waiting, starts, played := PlayRows(rows, config.colors, truth, clicks);
  }
}
