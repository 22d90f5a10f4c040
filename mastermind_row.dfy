/**
 * `play_row` as a state machine over the clicks it reads. The mobile program
 * and the two desktop programs differ in three branches, chosen by `Variant`.
 */
module MastermindRow {
  import opened Common
  import opened Feedback
  import opened MastermindSetup

  /**
   * `Mobile` is mastermind-mobile.py: Check is refused while a slot is blank,
   * a swatch click switches the selected colour, and filling the last blank
   * slot draws the Check button again. `Desktop` is mastermind_cip.py and
   * mastermind.py: Check scores any row, a swatch click while holding a
   * colour is ignored, and the colour dragger is skipped.
   */
  datatype Variant = Mobile | Desktop

  /**
   * The state of a row while `play_row` runs: the row's slots, whether its
   * Check button is drawn, its key pegs, the selected colour, `is_done`,
   * `is_correct`, and the slots as they stood when the row was scored.
   */
  datatype Row = Row(guesses: seq<string>, buttonShown: bool, keys: seq<string>,
                     selected: Option<string>, done: bool, correct: bool, scored: seq<string>)

  // ---------------------------------------------------------------------
  // Specification of `play_row`
  // ---------------------------------------------------------------------

  predicate Fits(r: Row, codes: seq<int>, truth: seq<string>)
  {
    |r.guesses| == |truth| && |codes| <= |r.guesses|
  }

  /**
   * One object under the mouse, handled by the first branch of `play_row`
   * whose test it passes.
   */
  function Step(v: Variant, r: Row, codes: seq<int>, truth: seq<string>, t: Target): (r': Row)
    requires Fits(r, codes, truth)
    ensures Fits(r', codes, truth)
  {
    if t.CheckButton? && r.buttonShown then
      if v.Mobile? && HasBlank(r.guesses) then r.(selected := None)
      else r.(keys := Keys(r.guesses, truth), buttonShown := false, done := true,
              correct := r.guesses == truth, scored := r.guesses, selected := None)
    else if t.Swatch? && r.selected.None? then r.(selected := Some(t.color))
    else if v.Mobile? && t.Swatch? && Truthy(r.selected) then r.(selected := Some(t.color))
    else if v.Desktop? && t.Dragger? then r
    else if t.CodePeg? && Truthy(r.selected) && t.id in codes then
      var g := SetSlots(r.guesses, codes, t.id, r.selected.value);
      r.(guesses := g, buttonShown := r.buttonShown || (v.Mobile? && !HasBlank(g)), selected := None)
    else r
  }

  /** All objects under one click, in the order `find_overlapping` lists them. */
  function StepClick(v: Variant, r: Row, codes: seq<int>, truth: seq<string>, click: seq<Target>): (r': Row)
    requires Fits(r, codes, truth)
    ensures Fits(r', codes, truth)
    decreases |click|
  {
    if click == [] then r
    else Step(v, StepClick(v, r, codes, truth, click[..|click| - 1]), codes, truth, click[|click| - 1])
  }

  /** The clicks `play_row` reads: none after the click that ends the row. */
  function RunClicks(v: Variant, r: Row, codes: seq<int>, truth: seq<string>, clicks: seq<seq<Target>>): (r': Row)
    requires Fits(r, codes, truth)
    ensures Fits(r', codes, truth)
    decreases |clicks|
  {
    if clicks == [] then r
    else
      var p := RunClicks(v, r, codes, truth, clicks[..|clicks| - 1]);
      if p.done then p else StepClick(v, p, codes, truth, clicks[|clicks| - 1])
  }

  /** The row a turn starts from: every slot blank, the Check button shown, nothing held, nothing scored. */
  function ActiveRow(n: nat): Row
  {
    Row(Repeat(BLANK, n), true, [], None, false, false, [])
  }

  /**
   * `segment` is exactly the run of clicks one turn reads: the active row
   * with code pegs `codes` is scored on the last of them and not before.
   */
  predicate TurnReads(v: Variant, codes: seq<int>, truth: seq<string>, segment: seq<seq<Target>>)
    requires |codes| <= |truth|
  {
    |segment| > 0 && RunClicks(v, ActiveRow(|truth|), codes, truth, segment).done
    && !RunClicks(v, ActiveRow(|truth|), codes, truth, segment[..|segment| - 1]).done
  }

  /**
   * The number of clicks a turn reads from `clicks`, counting from the
   * `k`-th: up to and including the one that scores the row, or all of them
   * when none does.
   */
  function ReadFrom(v: Variant, codes: seq<int>, truth: seq<string>, clicks: seq<seq<Target>>, k: nat): (n: nat)
    requires |codes| <= |truth| && k <= |clicks|
    ensures k <= n <= |clicks|
    decreases |clicks| - k
  {
    if k == |clicks| || RunClicks(v, ActiveRow(|truth|), codes, truth, clicks[..k]).done then k
    else ReadFrom(v, codes, truth, clicks, k + 1)
  }

  /** The number of clicks one turn of `play_mastermind` reads. */
  function Consumed(v: Variant, codes: seq<int>, truth: seq<string>, clicks: seq<seq<Target>>): nat
    requires |codes| <= |truth|
  {
    ReadFrom(v, codes, truth, clicks, 0)
  }

  /**
   * The loop of `play_mastermind` as a value: the state each row played ends
   * in, in order. Each row reads the clicks its turn takes, and play stops
   * after a row that is correct or one the clicks ran out in.
   */
  function Session(v: Variant, codes: seq<seq<int>>, truth: seq<string>, clicks: seq<seq<Target>>): (s: seq<Row>)
    requires forall j :: 0 <= j < |codes| ==> |codes[j]| <= |truth|
    ensures |s| <= |codes| && (codes != [] ==> s != [])
    decreases |codes|
  {
    if codes == [] then []
    else
      var n := Consumed(v, codes[0], truth, clicks);
      var r := RunClicks(v, ActiveRow(|truth|), codes[0], truth, clicks[..n]);
      if !r.done || r.correct then [r] else [r] + Session(v, codes[1..], truth, clicks[n..])
  }

  // ---------------------------------------------------------------------
  // Properties of `play_row`
  // ---------------------------------------------------------------------

  /**
   * Mobile: clicking Check while a slot is blank neither scores nor ends the
   * row; it drops the selected colour.
   */
  lemma CheckWithBlanksIgnored(r: Row, codes: seq<int>, truth: seq<string>)
    requires Fits(r, codes, truth) && r.buttonShown && HasBlank(r.guesses)
    ensures Step(Mobile, r, codes, truth, CheckButton) == r.(selected := None)
  {
  }

  /**
   * Desktop: clicking the Check button scores the row whatever it holds, ends
   * the row and removes the button.
   */
  lemma CheckScoresAnyRow(r: Row, codes: seq<int>, truth: seq<string>)
    requires Fits(r, codes, truth) && r.buttonShown
    ensures var r' := Step(Desktop, r, codes, truth, CheckButton);
      r'.done && !r'.buttonShown && r'.selected == None && r'.scored == r.guesses
      && r'.keys == Keys(r.guesses, truth) && (r'.correct <==> r.guesses == truth)
  {
  }

  /** Clicking a code peg while a colour is selected sets that slot, only that slot, and drops the colour. */
  lemma CodePegSetsSlot(v: Variant, r: Row, codes: seq<int>, truth: seq<string>, i: nat)
    requires Fits(r, codes, truth) && Distinct(codes) && i < |codes|
    requires Truthy(r.selected)
    ensures Step(v, r, codes, truth, CodePeg(codes[i])).guesses == r.guesses[i := r.selected.value]
    ensures Step(v, r, codes, truth, CodePeg(codes[i])).selected == None
    ensures !Step(v, r, codes, truth, CodePeg(codes[i])).done || r.done
  {
    SetSlotsOnlyClicked(r.guesses, codes, codes[i], r.selected.value);
  }

  /** Mobile: a swatch always takes the selection, whether or not a colour was already selected. */
  lemma SwatchSwitchesColour(r: Row, codes: seq<int>, truth: seq<string>, c: string)
    requires Fits(r, codes, truth) && r.selected != Some("")
    ensures Step(Mobile, r, codes, truth, Swatch(c)) == r.(selected := Some(c))
  {
  }

  /** Desktop: while a colour is held, swatches and the dragger are ignored. */
  lemma SwatchIgnoredWhileHolding(r: Row, codes: seq<int>, truth: seq<string>, t: Target)
    requires Fits(r, codes, truth) && r.selected.Some? && (t.Swatch? || t.Dragger?)
    ensures Step(Desktop, r, codes, truth, t) == r
  {
  }

  /**
   * What holds of a row throughout `play_row`, given a palette: the selected
   * colour and every filled slot come from the palette; a scored row's key
   * pegs are its score and `is_correct` says it equals the code; and on mobile
   * a scored row had no blank slot.
   */
  predicate RowInv(v: Variant, r: Row, truth: seq<string>, colors: seq<string>)
  {
    (r.selected.Some? ==> r.selected.value in colors)
    && (forall i :: 0 <= i < |r.guesses| ==> r.guesses[i] == BLANK || r.guesses[i] in colors)
    && (r.done ==>
          |r.scored| == |truth| && (forall i :: 0 <= i < |r.scored| ==> r.scored[i] == BLANK || r.scored[i] in colors)
          && r.keys == Keys(r.scored, truth) && (r.correct <==> r.scored == truth)
          && (v.Mobile? ==> !HasBlank(r.scored)))
  }

  lemma StepInv(v: Variant, r: Row, codes: seq<int>, truth: seq<string>, colors: seq<string>, t: Target)
    requires Fits(r, codes, truth) && RowInv(v, r, truth, colors)
    requires t.Swatch? ==> t.color in colors
    ensures RowInv(v, Step(v, r, codes, truth, t), truth, colors)
  {

  }

  lemma {:induction false} StepClickInv(v: Variant, r: Row, codes: seq<int>, truth: seq<string>, colors: seq<string>, click: seq<Target>)
    requires Fits(r, codes, truth) && RowInv(v, r, truth, colors)
    requires forall j :: 0 <= j < |click| && click[j].Swatch? ==> click[j].color in colors
    ensures RowInv(v, StepClick(v, r, codes, truth, click), truth, colors)
    decreases |click|
  {
    if click != [] {
      StepClickInv(v, r, codes, truth, colors, click[..|click| - 1]);
      StepInv(v, StepClick(v, r, codes, truth, click[..|click| - 1]), codes, truth, colors, click[|click| - 1]);
    }
  }

  /** Playing any clicks keeps `RowInv`: a mobile row is only ever scored complete. */
  lemma {:induction false} RunClicksInv(v: Variant, r: Row, codes: seq<int>, truth: seq<string>, colors: seq<string>, clicks: seq<seq<Target>>)
    requires Fits(r, codes, truth) && RowInv(v, r, truth, colors) && SwatchesFrom(clicks, colors)
    ensures RowInv(v, RunClicks(v, r, codes, truth, clicks), truth, colors)
    decreases |clicks|
  {
    if clicks != [] {
      var n := |clicks| - 1;
      assert SwatchesFrom(clicks[..n], colors) by {
        forall k, j | 0 <= k < n && 0 <= j < |clicks[..n][k]| && clicks[..n][k][j].Swatch?
          ensures clicks[..n][k][j].color in colors
        {
          assert clicks[..n][k] == clicks[k];
        }
      }
      RunClicksInv(v, r, codes, truth, colors, clicks[..n]);
      var p := RunClicks(v, r, codes, truth, clicks[..n]);
      if !p.done {
        StepClickInv(v, p, codes, truth, colors, clicks[n]);
      }
    }
  }

  /** Once a row is done, later clicks are never read. */
  lemma {:induction false} RunClicksStable(v: Variant, r: Row, codes: seq<int>, truth: seq<string>, clicks: seq<seq<Target>>, k: nat)
    requires Fits(r, codes, truth) && k <= |clicks|
    requires RunClicks(v, r, codes, truth, clicks[..k]).done
    ensures RunClicks(v, r, codes, truth, clicks) == RunClicks(v, r, codes, truth, clicks[..k])
    decreases |clicks| - k
  {
    if k < |clicks| {
      assert clicks[..k + 1][..k] == clicks[..k];
      assert RunClicks(v, r, codes, truth, clicks[..k + 1]) == RunClicks(v, r, codes, truth, clicks[..k]);
      RunClicksStable(v, r, codes, truth, clicks, k + 1);
    } else {
      assert clicks[..k] == clicks;
    }
  }

  /** A row done after the first `m` clicks is still done, unchanged, after the first `n >= m`. */
  lemma DoneStaysDone(v: Variant, r: Row, codes: seq<int>, truth: seq<string>, clicks: seq<seq<Target>>, m: nat, n: nat)
    requires Fits(r, codes, truth) && m <= n <= |clicks|
    requires RunClicks(v, r, codes, truth, clicks[..m]).done
    ensures RunClicks(v, r, codes, truth, clicks[..n]) == RunClicks(v, r, codes, truth, clicks[..m])
  {
    assert clicks[..n][..m] == clicks[..m];
    RunClicksStable(v, r, codes, truth, clicks[..n], m);
  }

  /**
   * A turn reads a determined number of clicks: of the prefixes of one input,
   * at most one is exactly the run a turn reads.
   */
  lemma TurnReadsUnique(v: Variant, codes: seq<int>, truth: seq<string>, clicks: seq<seq<Target>>, a: nat, b: nat)
    requires |codes| <= |truth| && a <= |clicks| && b <= |clicks|
    requires TurnReads(v, codes, truth, clicks[..a]) && TurnReads(v, codes, truth, clicks[..b])
    ensures a == b
  {
    var row := ActiveRow(|truth|);
    if a < b {
      assert clicks[..b][..b - 1] == clicks[..b - 1];
      DoneStaysDone(v, row, codes, truth, clicks, a, b - 1);
    } else if b < a {
      assert clicks[..a][..a - 1] == clicks[..a - 1];
      DoneStaysDone(v, row, codes, truth, clicks, b, a - 1);
    }
  }

  /**
   * Counting from a click before which the row is not yet done, the turn
   * reads a prefix that leaves the row as all the clicks would, and every
   * click when the row never gets scored.
   */
  lemma {:induction false} ReadFromSpec(v: Variant, codes: seq<int>, truth: seq<string>, clicks: seq<seq<Target>>, k: nat)
    requires |codes| <= |truth| && k <= |clicks|
    ensures RunClicks(v, ActiveRow(|truth|), codes, truth, clicks[..ReadFrom(v, codes, truth, clicks, k)])
      == RunClicks(v, ActiveRow(|truth|), codes, truth, clicks)
    ensures !RunClicks(v, ActiveRow(|truth|), codes, truth, clicks).done ==> ReadFrom(v, codes, truth, clicks, k) == |clicks|
    decreases |clicks| - k
  {
    var a := ActiveRow(|truth|);
    if k == |clicks| {
      assert clicks[..k] == clicks;
    } else if RunClicks(v, a, codes, truth, clicks[..k]).done {
      RunClicksStable(v, a, codes, truth, clicks, k);
    } else {
      ReadFromSpec(v, codes, truth, clicks, k + 1);
    }
  }

  /**
   * Counting from a click before which the row is not yet done, when the
   * row gets scored the prefix the turn reads is exactly the run `TurnReads`
   * describes.
   */
  lemma {:induction false} ReadFromReads(v: Variant, codes: seq<int>, truth: seq<string>, clicks: seq<seq<Target>>, k: nat)
    requires |codes| <= |truth| && k <= |clicks|
    requires k == 0 || !RunClicks(v, ActiveRow(|truth|), codes, truth, clicks[..k - 1]).done
    requires RunClicks(v, ActiveRow(|truth|), codes, truth, clicks).done
    ensures TurnReads(v, codes, truth, clicks[..ReadFrom(v, codes, truth, clicks, k)])
    decreases |clicks| - k
  {
    var a := ActiveRow(|truth|);
    assert clicks[..0] == [];
    if k == |clicks| || RunClicks(v, a, codes, truth, clicks[..k]).done {
      if k == |clicks| {
        assert clicks[..k] == clicks;
      }
      assert k > 0 && clicks[..k][..k - 1] == clicks[..k - 1];
    } else {
      ReadFromReads(v, codes, truth, clicks, k + 1);
    }
  }

  /** `Consumed` is the run of clicks a turn reads, as `TurnReads` defines it, or all of them. */
  lemma ConsumedSpec(v: Variant, codes: seq<int>, truth: seq<string>, clicks: seq<seq<Target>>)
    requires |codes| <= |truth|
    ensures Consumed(v, codes, truth, clicks) <= |clicks|
    ensures RunClicks(v, ActiveRow(|truth|), codes, truth, clicks[..Consumed(v, codes, truth, clicks)])
      == RunClicks(v, ActiveRow(|truth|), codes, truth, clicks)
    ensures RunClicks(v, ActiveRow(|truth|), codes, truth, clicks).done ==>
      TurnReads(v, codes, truth, clicks[..Consumed(v, codes, truth, clicks)])
    ensures !RunClicks(v, ActiveRow(|truth|), codes, truth, clicks).done ==> Consumed(v, codes, truth, clicks) == |clicks|
  {
    ReadFromSpec(v, codes, truth, clicks, 0);
    if RunClicks(v, ActiveRow(|truth|), codes, truth, clicks).done {
      ReadFromReads(v, codes, truth, clicks, 0);
    }
  }

  /**
   * A session unfolds by one turn: the first row is played on the clicks
   * its turn reads and, when it was scored and is not the code, the rest of
   * the rows are played on the clicks after them.
   */
  lemma SessionStep(v: Variant, codes: seq<seq<int>>, truth: seq<string>, clicks: seq<seq<Target>>, used: nat)
    requires codes != [] && forall j :: 0 <= j < |codes| ==> |codes[j]| <= |truth|
    requires used <= |clicks|
    requires RunClicks(v, ActiveRow(|truth|), codes[0], truth, clicks[..used]).done ==> TurnReads(v, codes[0], truth, clicks[..used])
    requires !RunClicks(v, ActiveRow(|truth|), codes[0], truth, clicks[..used]).done ==> used == |clicks|
    ensures Session(v, codes, truth, clicks) == [RunClicks(v, ActiveRow(|truth|), codes[0], truth, clicks[..used])]
      + (if RunClicks(v, ActiveRow(|truth|), codes[0], truth, clicks[..used]).done
         && !RunClicks(v, ActiveRow(|truth|), codes[0], truth, clicks[..used]).correct
         then Session(v, codes[1..], truth, clicks[used..]) else [])
  {
    ConsumedSpec(v, codes[0], truth, clicks);
    var n := Consumed(v, codes[0], truth, clicks);
    if RunClicks(v, ActiveRow(|truth|), codes[0], truth, clicks[..used]).done {
      RunClicksStable(v, ActiveRow(|truth|), codes[0], truth, clicks, used);
      TurnReadsUnique(v, codes[0], truth, clicks, used, n);
    } else {
      assert clicks[..used] == clicks;
    }
  }

  /**
   * The turns played so far: every row `j` of `played` is a `RowTurn`, and
   * the rows were read one after the other from the first click on.
   */
  predicate Turns(v: Variant, codes: seq<seq<int>>, truth: seq<string>, clicks: seq<seq<Target>>, starts: seq<nat>, played: seq<Row>)
  {
    |played| <= |codes| && |starts| == |played| + 1 && starts[0] == 0 && starts[|played|] <= |clicks|
    && forall j :: 0 <= j < |played| ==> RowTurn(v, codes, truth, clicks, starts, played, j)
  }

  /**
   * Row `j` was played on the clicks from `starts[j]` up to `starts[j + 1]`
   * (up to the click that scored it, or every click that was left), and
   * unless it is the last row played it was scored and is not the code.
   */
  predicate RowTurn(v: Variant, codes: seq<seq<int>>, truth: seq<string>, clicks: seq<seq<Target>>, starts: seq<nat>, played: seq<Row>, j: nat)
  {
    j < |played| && j < |codes| && |starts| == |played| + 1
    && starts[j] <= starts[j + 1] <= |clicks|
    && Played(v, codes[j], truth, clicks[starts[j]..starts[j + 1]], played[j])
    && (!played[j].done ==> starts[j + 1] == |clicks|)
    && (j < |played| - 1 ==> played[j].done && !played[j].correct)
  }

  /** A turn on the row with code pegs `codes` that read `segment` ended in `r`. */
  predicate Played(v: Variant, codes: seq<int>, truth: seq<string>, segment: seq<seq<Target>>, r: Row)
  {
    |codes| <= |truth| && r == RunClicks(v, ActiveRow(|truth|), codes, truth, segment)
    && (r.done ==> TurnReads(v, codes, truth, segment))
  }

  /** A session that has played no row yet. */
  lemma TurnsStart(v: Variant, codes: seq<seq<int>>, truth: seq<string>, clicks: seq<seq<Target>>)
    ensures Turns(v, codes, truth, clicks, [0], [])
  {
  }

  /**
   * One more turn: after a row that was scored and is not the code, the
   * next row read the `used` clicks that follow and ended in `r`.
   */
  lemma TurnsExtend(v: Variant, codes: seq<seq<int>>, truth: seq<string>, clicks: seq<seq<Target>>,
                    starts: seq<nat>, played: seq<Row>, used: nat, r: Row)
    requires Turns(v, codes, truth, clicks, starts, played) && |played| < |codes|
    requires |played| > 0 ==> played[|played| - 1].done && !played[|played| - 1].correct
    requires used <= |clicks| - starts[|played|]
    requires Played(v, codes[|played|], truth, clicks[starts[|played|]..][..used], r)
    requires !r.done ==> used == |clicks| - starts[|played|]
    ensures Turns(v, codes, truth, clicks, starts + [starts[|played|] + used], played + [r])
  {
    var i := |played|;
    var starts', played' := starts + [starts[i] + used], played + [r];
    assert clicks[starts[i]..][..used] == clicks[starts'[i]..starts'[i + 1]];
    assert RowTurn(v, codes, truth, clicks, starts', played', i);
    forall j | 0 <= j < i ensures RowTurn(v, codes, truth, clicks, starts', played', j) {
      TurnsKeepRow(v, codes, truth, clicks, starts, played, starts[i] + used, r, j);
    }
    assert |starts'| == |played'| + 1 && starts'[0] == 0 && starts'[|played'|] == starts[i] + used <= |clicks|;
  }

  /** A row scored wrong keeps its turn when one more row is played after the last. */
  lemma TurnsKeepRow(v: Variant, codes: seq<seq<int>>, truth: seq<string>, clicks: seq<seq<Target>>,
                     starts: seq<nat>, played: seq<Row>, next: nat, r: Row, j: nat)
    requires Turns(v, codes, truth, clicks, starts, played) && |played| < |codes| && j < |played|
    requires |played| > 0 ==> played[|played| - 1].done && !played[|played| - 1].correct
    requires starts[|played|] <= next <= |clicks|
    ensures RowTurn(v, codes, truth, clicks, starts + [next], played + [r], j)
  {
    assert RowTurn(v, codes, truth, clicks, starts, played, j);
    var starts', played' := starts + [next], played + [r];
    assert starts'[j] == starts[j] && starts'[j + 1] == starts[j + 1] && played'[j] == played[j];
  }

  /**
   * The turns, once play has stopped (every row played, or the last row
   * unfinished or correct), are the session: counted from row `k`, the rows
   * played are `Session` of the clicks from `starts[k]` on.
   */
  lemma {:induction false} TurnsAreSession(v: Variant, codes: seq<seq<int>>, truth: seq<string>, clicks: seq<seq<Target>>,
                                           starts: seq<nat>, played: seq<Row>, k: nat)
    requires Turns(v, codes, truth, clicks, starts, played) && k <= |played|
    requires 0 < k ==> played[k - 1].done && !played[k - 1].correct
    requires |played| == |codes| || (|played| > 0 && (!played[|played| - 1].done || played[|played| - 1].correct))
    requires forall j :: 0 <= j < |codes| ==> |codes[j]| <= |truth|
    ensures starts[k] <= |clicks|
    ensures played[k..] == Session(v, codes[k..], truth, clicks[starts[k]..])
    decreases |played| - k
  {
    if k == |played| {
      assert |played| == |codes|;
      assert codes[k..] == [];
    } else {
      TurnsHead(v, codes, truth, clicks, starts, played, k);
      if played[k].done && !played[k].correct {
        TurnsAreSession(v, codes, truth, clicks, starts, played, k + 1);
        DropCons(played, k);
      } else {
        assert RowTurn(v, codes, truth, clicks, starts, played, k);
        DropCons(played, k);
      }
    }
  }

  /**
   * Turns that stopped where `play_mastermind` stops (every row played, or
   * the last row unfinished or correct) are exactly the session of the clicks.
   */
  lemma TurnsEndInSession(v: Variant, codes: seq<seq<int>>, truth: seq<string>, clicks: seq<seq<Target>>,
                          starts: seq<nat>, played: seq<Row>)
    requires Turns(v, codes, truth, clicks, starts, played)
    requires |played| == |codes| || (|played| > 0 && (!played[|played| - 1].done || played[|played| - 1].correct))
    requires forall j :: 0 <= j < |codes| ==> |codes[j]| <= |truth|
    ensures played == Session(v, codes, truth, clicks)
  {
    TurnsAreSession(v, codes, truth, clicks, starts, played, 0);
    assert played[0..] == played && codes[0..] == codes && clicks[starts[0]..] == clicks;
  }

  /** Dropping `k` elements leaves element `k` in front of the rest. */
  lemma DropCons<T>(s: seq<T>, k: nat)
    requires k < |s|
    ensures s[k..] == [s[k]] + s[k + 1..]
    ensures k == |s| - 1 ==> s[k..] == [s[k]]
  {
  }

  /** The session from row `k` on begins with the turn played on row `k`. */
  lemma TurnsHead(v: Variant, codes: seq<seq<int>>, truth: seq<string>, clicks: seq<seq<Target>>,
                  starts: seq<nat>, played: seq<Row>, k: nat)
    requires Turns(v, codes, truth, clicks, starts, played) && k < |played|
    requires forall j :: 0 <= j < |codes| ==> |codes[j]| <= |truth|
    ensures starts[k] <= starts[k + 1] <= |clicks|
    ensures Session(v, codes[k..], truth, clicks[starts[k]..]) == [played[k]]
      + (if played[k].done && !played[k].correct then Session(v, codes[k + 1..], truth, clicks[starts[k + 1]..]) else [])
  {
    assert RowTurn(v, codes, truth, clicks, starts, played, k);
    var c, used := clicks[starts[k]..], starts[k + 1] - starts[k];
    assert c[..used] == clicks[starts[k]..starts[k + 1]];
    assert c[used..] == clicks[starts[k + 1]..];
    assert codes[k..][0] == codes[k] && codes[k..][1..] == codes[k + 1..];
    SessionStep(v, codes[k..], truth, c, used);
  }

  /**
   * How every row of the turns ends: each row before the last was scored and
   * is not the code; a scored row shows the key pegs of the guess it scored
   * and is correct exactly when that guess is the code; a row left
   * unfinished has no key pegs.
   */
  lemma TurnsOutcome(v: Variant, codes: seq<seq<int>>, truth: seq<string>, colors: seq<string>, clicks: seq<seq<Target>>,
                     starts: seq<nat>, played: seq<Row>)
    requires Turns(v, codes, truth, clicks, starts, played) && SwatchesFrom(clicks, colors)
    ensures forall j :: 0 <= j < |played| - 1 ==> played[j].done && !played[j].correct
    ensures forall j :: 0 <= j < |played| && played[j].done ==>
      |played[j].scored| == |truth| && played[j].keys == Keys(played[j].scored, truth) && (played[j].correct <==> played[j].scored == truth)
    ensures forall j :: 0 <= j < |played| && !played[j].done ==> played[j].keys == []
  {
    forall j | 0 <= j < |played|
      ensures j < |played| - 1 ==> played[j].done && !played[j].correct
      ensures played[j].done ==>
        |played[j].scored| == |truth| && played[j].keys == Keys(played[j].scored, truth) && (played[j].correct <==> played[j].scored == truth)
      ensures !played[j].done ==> played[j].keys == []
    {
      RowTurnOutcome(v, codes, truth, colors, clicks, starts, played, j);
    }
  }

  /** `TurnsOutcome` for one row `j`. */
  lemma RowTurnOutcome(v: Variant, codes: seq<seq<int>>, truth: seq<string>, colors: seq<string>, clicks: seq<seq<Target>>,
                       starts: seq<nat>, played: seq<Row>, j: nat)
    requires Turns(v, codes, truth, clicks, starts, played) && SwatchesFrom(clicks, colors) && j < |played|
    ensures j < |played| - 1 ==> played[j].done && !played[j].correct
    ensures played[j].done ==>
      |played[j].scored| == |truth| && played[j].keys == Keys(played[j].scored, truth) && (played[j].correct <==> played[j].scored == truth)
    ensures !played[j].done ==> played[j].keys == []
  {
    assert RowTurn(v, codes, truth, clicks, starts, played, j);
    var d := starts[j + 1] - starts[j];
    SwatchesFromSuffix(clicks, colors, starts[j]);
    SwatchesFromPrefix(clicks[starts[j]..], colors, d);
    assert clicks[starts[j]..][..d] == clicks[starts[j]..starts[j + 1]];
    RowOutcome(v, ActiveRow(|truth|), codes[j], truth, colors, clicks[starts[j]..starts[j + 1]]);
  }

  /**
   * How a row ends: a scored row shows the key pegs of the guess it scored
   * and is correct exactly when that guess is the code; a row left
   * unfinished has no key pegs.
   */
  predicate Ends(r: Row, truth: seq<string>)
  {
    (r.done ==> |r.scored| == |truth| && r.keys == Keys(r.scored, truth) && (r.correct <==> r.scored == truth))
    && (!r.done ==> r.keys == [])
  }

  /** Every turn, played from the active row on clicks of swatches of the palette, ends as `Ends` says. */
  lemma TurnEnds(v: Variant, codes: seq<int>, truth: seq<string>, colors: seq<string>, segment: seq<seq<Target>>)
    requires |codes| <= |truth| && SwatchesFrom(segment, colors)
    ensures Ends(RunClicks(v, ActiveRow(|truth|), codes, truth, segment), truth)
  {
    RowOutcome(v, ActiveRow(|truth|), codes, truth, colors, segment);
  }

  /**
   * The first turn of a session: it ends as `Ends` says, and the session is
   * that row followed, when it was scored and is not the code, by the session
   * of the other rows on the clicks after its turn.
   */
  lemma SessionHead(v: Variant, codes: seq<seq<int>>, truth: seq<string>, colors: seq<string>, clicks: seq<seq<Target>>)
    requires codes != [] && forall j :: 0 <= j < |codes| ==> |codes[j]| <= |truth|
    requires SwatchesFrom(clicks, colors)
    ensures var n := Consumed(v, codes[0], truth, clicks);
      var s := Session(v, codes, truth, clicks);
      n <= |clicks| && SwatchesFrom(clicks[n..], colors) && Ends(s[0], truth)
      && s == [s[0]] + (if s[0].done && !s[0].correct then Session(v, codes[1..], truth, clicks[n..]) else [])
  {
    var n := Consumed(v, codes[0], truth, clicks);
    SwatchesFromPrefix(clicks, colors, n);
    SwatchesFromSuffix(clicks, colors, n);
    TurnEnds(v, codes[0], truth, colors, clicks[..n]);
  }

  /**
   * How the rows of a session end: each row before the last was scored and
   * is not the code, and every row ends as `Ends` says.
   */
  predicate Ended(s: seq<Row>, truth: seq<string>)
  {
    (forall j :: 0 <= j < |s| - 1 ==> s[j].done && !s[j].correct) && (forall j :: 0 <= j < |s| ==> Ends(s[j], truth))
  }

  /** A row that ends as `Ends` says, and was scored wrong if play goes on, extends rows that `Ended`. */
  lemma EndedCons(r: Row, tail: seq<Row>, truth: seq<string>)
    requires Ends(r, truth) && Ended(tail, truth) && (tail != [] ==> r.done && !r.correct)
    ensures Ended([r] + tail, truth)
  {
    var s := [r] + tail;
    assert forall j :: 1 <= j < |s| ==> s[j] == tail[j - 1];
  }

  /** Every session, played on clicks of swatches of the palette, has `Ended`. */
  lemma {:induction false} SessionOutcome(v: Variant, codes: seq<seq<int>>, truth: seq<string>, colors: seq<string>, clicks: seq<seq<Target>>)
    requires forall j :: 0 <= j < |codes| ==> |codes[j]| <= |truth|
    requires SwatchesFrom(clicks, colors)
    ensures Ended(Session(v, codes, truth, clicks), truth)
    decreases |codes|
  {
    if codes != [] {
      SessionHead(v, codes, truth, colors, clicks);
      var n := Consumed(v, codes[0], truth, clicks);
      var s := Session(v, codes, truth, clicks);
      var more := s[0].done && !s[0].correct;
      var tail := if more then Session(v, codes[1..], truth, clicks[n..]) else [];
      if more {
        SessionOutcome(v, codes[1..], truth, colors, clicks[n..]);
      }
      EndedCons(s[0], tail, truth);
    }
  }

  /** Play stops before the last row only at a row that is unfinished or correct. */
  lemma {:induction false} SessionStops(v: Variant, codes: seq<seq<int>>, truth: seq<string>, colors: seq<string>, clicks: seq<seq<Target>>)
    requires forall j :: 0 <= j < |codes| ==> |codes[j]| <= |truth|
    requires SwatchesFrom(clicks, colors)
    ensures var s := Session(v, codes, truth, clicks);
      0 < |s| < |codes| ==> !s[|s| - 1].done || s[|s| - 1].correct
    decreases |codes|
  {
    if codes != [] {
      SessionHead(v, codes, truth, colors, clicks);
      var n := Consumed(v, codes[0], truth, clicks);
      var s := Session(v, codes, truth, clicks);
      if s[0].done && !s[0].correct && |codes| > 1 {
        var rest := Session(v, codes[1..], truth, clicks[n..]);
        SessionStops(v, codes[1..], truth, colors, clicks[n..]);
        assert |s| == 1 + |rest| && s[|s| - 1] == rest[|rest| - 1];
      }
    }
  }

  /** Key pegs are only drawn by scoring: a row not done still has the key pegs it started with. */
  lemma {:induction false} RunClicksKeysUntilDone(v: Variant, r: Row, codes: seq<int>, truth: seq<string>, clicks: seq<seq<Target>>)
    requires Fits(r, codes, truth) && !r.done
    ensures !RunClicks(v, r, codes, truth, clicks).done ==> RunClicks(v, r, codes, truth, clicks).keys == r.keys
    decreases |clicks|
  {
    if clicks != [] {
      RunClicksKeysUntilDone(v, r, codes, truth, clicks[..|clicks| - 1]);
      var p := RunClicks(v, r, codes, truth, clicks[..|clicks| - 1]);
      if !p.done {
        StepClickKeysUntilDone(v, p, codes, truth, clicks[|clicks| - 1]);
      }
    }
  }

  lemma {:induction false} StepClickKeysUntilDone(v: Variant, r: Row, codes: seq<int>, truth: seq<string>, click: seq<Target>)
    requires Fits(r, codes, truth) && !r.done
    ensures !StepClick(v, r, codes, truth, click).done ==> StepClick(v, r, codes, truth, click).keys == r.keys
    decreases |click|
  {
    if click != [] {
      StepClickKeysUntilDone(v, r, codes, truth, click[..|click| - 1]);
      var p := StepClick(v, r, codes, truth, click[..|click| - 1]);
      if p.done {
        StepKeepsDone(v, p, codes, truth, click[|click| - 1]);
      }
    }
  }

  /**
   * How a row played from a state that keeps `RowInv` ends: either scored,
   * with every slot blank or from the palette (on mobile: from the palette)
   * and all key pegs red exactly when it is correct; or still open with its
   * key pegs untouched.
   */
  lemma RowOutcome(v: Variant, r: Row, codes: seq<int>, truth: seq<string>, colors: seq<string>, clicks: seq<seq<Target>>)
    requires Fits(r, codes, truth) && !r.done && RowInv(v, r, truth, colors) && SwatchesFrom(clicks, colors)
    ensures var r' := RunClicks(v, r, codes, truth, clicks);
      (r'.done ==>
         |r'.scored| == |truth|
         && (forall i :: 0 <= i < |r'.scored| ==> r'.scored[i] == BLANK || r'.scored[i] in colors)
         && (v.Mobile? ==> !HasBlank(r'.scored) && forall i :: 0 <= i < |r'.scored| ==> r'.scored[i] in colors)
         && r'.keys == Keys(r'.scored, truth) && (r'.correct <==> r'.scored == truth)
         && (r'.correct <==> r'.keys == Repeat(KEY_EXACT_COLOR, |truth|)))
      && (!r'.done ==> r'.keys == r.keys)
  {
    RunClicksInv(v, r, codes, truth, colors, clicks);
    var r' := RunClicks(v, r, codes, truth, clicks);
    if r'.done {
      AllRedIffCorrect(r'.scored, truth);
      if v.Mobile? {
        forall i | 0 <= i < |r'.scored| ensures r'.scored[i] in colors {
          assert r'.scored[i] in r'.scored;
        }
      }
    } else {
      RunClicksKeysUntilDone(v, r, codes, truth, clicks);
    }
  }

  /** `is_done` is never reset. */
  lemma StepKeepsDone(v: Variant, r: Row, codes: seq<int>, truth: seq<string>, t: Target)
    requires Fits(r, codes, truth) && r.done
    ensures Step(v, r, codes, truth, t).done
  {
  }
}
