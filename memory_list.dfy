/**
 * The text memory game (memory_list_game.py): eight hidden values shown as
 * `'*'`, two typed indices per turn, and a validator `get_valid_index` that
 * accepts a typed index only when it is a number naming a hidden slot.
 *
 * The program as written has three faults, modelled here next to the
 * behaviour they evidently stand in for: the bound check lets the index
 * `len(display)` through to an out-of-range read, every match runs into the
 * stray name `pytho`, and the same-card check compares the typed text, so
 * `1` and `01` pass as two cards.
 */
module MemoryList {
  import opened Common
  import opened MemoryDeck

  const NUM_PAIRS: nat := 4

  /** A slot of `display`: the `'*'` of a hidden card or the revealed value. */
  datatype Slot = Star | Value(v: int)

  // ---------------------------------------------------------------------
  // Reading an index
  // ---------------------------------------------------------------------

  /** What `get_valid_index` can do: reject, accept, or fail reading `display[index]`. */
  datatype Check = Invalid | Valid | IndexFault

  /**
   * `get_valid_index` as written: the bound check `index > len(display)`
   * lets `index == len(display)` through to the read `display[index]`.
   */
  function GetValidIndexAsWritten(display: seq<Slot>, index: string): Check
  {
    if !IsNumeric(index) then Invalid
    else
      var i := ParseNat(index);
      if i < 0 || i > |display| then Invalid
      else if i == |display| then IndexFault
      else if display[i] != Star then Invalid
      else Valid
  }

  /**
   * `get_valid_index` with the bound `index >= len(display)`: a typed index is
   * accepted exactly when it is a number naming a slot that is still `'*'`.
   */
  function GetValidIndex(display: seq<Slot>, index: string): (ok: bool)
    ensures ok <==> IsNumeric(index) && ParseNat(index) < |display| && display[ParseNat(index)] == Star
  {
    if !IsNumeric(index) then false
    else
      var i := ParseNat(index);
      if i < 0 || i >= |display| then false
      else if display[i] != Star then false
      else true
  }

  /**
   * The two validators agree except on the index `len(display)`, where the
   * one as written fails and the corrected one rejects.
   */
  lemma ValidatorsAgree(display: seq<Slot>, index: string)
    ensures GetValidIndexAsWritten(display, index) == Valid <==> GetValidIndex(display, index)
    ensures GetValidIndexAsWritten(display, index) == IndexFault <==> IsNumeric(index) && ParseNat(index) == |display|
  {
  }

  /** Typing `8` on the eight-card board reads past the end of `display`. */
  lemma BoundCheckLetsLengthThrough()
    ensures GetValidIndexAsWritten(Repeat(Star, 2 * NUM_PAIRS), "8") == IndexFault
    ensures !GetValidIndex(Repeat(Star, 2 * NUM_PAIRS), "8")
  {
    assert ParseNat("8") == 8 by { assert "8"[..0] == ""; }
  }

  /** A revealed slot is refused however its index is typed. */
  lemma RevealedRefused(display: seq<Slot>, index: string)
    requires IsNumeric(index) && ParseNat(index) < |display| && display[ParseNat(index)] != Star
    ensures !GetValidIndex(display, index) && GetValidIndexAsWritten(display, index) == Invalid
  {
  }

  // ---------------------------------------------------------------------
  // A turn
  // ---------------------------------------------------------------------

  /**
   * How a turn ends as written: the same text typed twice, an index refused,
   * the out-of-range read, two values that differ, or the `NameError` at the
   * stray `pytho` on the way to revealing a pair.
   */
  datatype TurnAsWritten = SameText | IndexRefused | ReadFault | ValuesDiffer | NameFault(i: nat, j: nat)

  /**
   * The body of the game loop of `main` as written. `and` stops at the
   * first index refused, so the second is validated only after the first
   * passed.
   */
  function PlayTurnAsWritten(truth: seq<int>, display: seq<Slot>, first: string, second: string): TurnAsWritten
    requires |truth| == |display|
  {
    if first == second then SameText
    else
      var c1 := GetValidIndexAsWritten(display, first);
      if c1 == IndexFault then ReadFault
      else if c1 == Invalid then IndexRefused
      else
        var c2 := GetValidIndexAsWritten(display, second);
        if c2 == IndexFault then ReadFault
        else if c2 == Invalid then IndexRefused
        else
          var i := ParseNat(first);
          var j := ParseNat(second);
          if truth[i] == truth[j] then NameFault(i, j) else ValuesDiffer
  }

  /** As written, the game can never reveal a pair: every equal pair of values runs into the stray name. */
  lemma EveryMatchFaults(truth: seq<int>, display: seq<Slot>, first: string, second: string)
    requires |truth| == |display| && first != second
    requires GetValidIndex(display, first) && GetValidIndex(display, second)
    requires truth[ParseNat(first)] == truth[ParseNat(second)]
    ensures PlayTurnAsWritten(truth, display, first, second) == NameFault(ParseNat(first), ParseNat(second))
  {
    ValidatorsAgree(display, first);
    ValidatorsAgree(display, second);
  }

  /** Typing `0` then `1` on a fresh board whose first two values are equal stops at the stray name. */
  lemma FirstMatchFaults()
    ensures PlayTurnAsWritten(PairedDeck(NUM_PAIRS), Repeat(Star, 2 * NUM_PAIRS), "0", "1") == NameFault(0, 1)
  {
    assert ParseNat("0") == 0 by { assert "0"[..0] == ""; }
    assert ParseNat("1") == 1 by { assert "1"[..0] == ""; }
  }

  /**
   * `1` and `01` are different strings naming the same card, so, as written,
   * the same-card check lets them through to the match branch.
   */
  lemma LeadingZeroPassesSameCardCheck()
    ensures PlayTurnAsWritten(PairedDeck(NUM_PAIRS), Repeat(Star, 2 * NUM_PAIRS), "1", "01") == NameFault(1, 1)
  {
    assert ParseNat("1") == 1 by { assert "1"[..0] == ""; }
    ParseLeadingZero("1");
  }

  /** How a turn ends in the corrected game. */
  datatype Outcome = SameCard | Refused | Differ | Match(i: nat, j: nat)

  /**
   * The loop body with the three faults removed: the bound check refuses
   * `len(display)`, the same-card check compares the indices, and a match
   * reveals both cards.
   */
  function PlayTurn(truth: seq<int>, display: seq<Slot>, first: string, second: string): (o: Outcome)
    requires |truth| == |display|
    ensures o.Match? <==>
      GetValidIndex(display, first) && GetValidIndex(display, second)
      && ParseNat(first) != ParseNat(second) && truth[ParseNat(first)] == truth[ParseNat(second)]
    ensures o.Match? ==> o.i == ParseNat(first) && o.j == ParseNat(second)
    ensures o == SameCard <==> first == second || (IsNumeric(first) && IsNumeric(second) && ParseNat(first) == ParseNat(second) && GetValidIndex(display, first))
  {
    if first == second then SameCard
    else if !GetValidIndex(display, first) || !GetValidIndex(display, second) then Refused
    else
      var i := ParseNat(first);
      var j := ParseNat(second);
      if i == j then SameCard
      else if truth[i] == truth[j] then Match(i, j)
      else Differ
  }

  /**
   * Where the program as written does not fail, the corrected turn ends the
   * same way, except that a second spelling of the same index is now caught.
   */
  lemma TurnsAgree(truth: seq<int>, display: seq<Slot>, first: string, second: string)
    requires |truth| == |display|
    ensures var w := PlayTurnAsWritten(truth, display, first, second);
      var o := PlayTurn(truth, display, first, second);
      (w == SameText ==> o == SameCard)
      && (w == IndexRefused ==> o == Refused)
      && (w == ValuesDiffer ==> o == Differ)
      && (w.NameFault? ==> (if w.i == w.j then o == SameCard else o == Match(w.i, w.j)))
  {
    ValidatorsAgree(display, first);
    ValidatorsAgree(display, second);
  }

  // ---------------------------------------------------------------------
  // The game
  // ---------------------------------------------------------------------

  /** Which slots are revealed. */
  function Revealed(display: seq<Slot>): (r: seq<bool>)
    ensures |r| == |display|
  {
    seq(|display|, i requires 0 <= i < |display| => display[i] != Star)
  }

  /** Every revealed slot shows its card's value. */
  predicate Faithful(truth: seq<int>, display: seq<Slot>)
  {
    |display| == |truth| && forall i :: 0 <= i < |display| && display[i] != Star ==> display[i] == Value(truth[i])
  }

  /** How far the game loop gets: the display, `matches`, the unread input and whether it waits for input. */
  datatype Game = Game(display: seq<Slot>, matches: nat, next: nat, waiting: bool)

  /** `while matches != NUM_PAIRS` on the corrected turn, two inputs read per pass. */
  function Play(truth: seq<int>, display: seq<Slot>, matches: nat, inputs: seq<string>, k: nat): (g: Game)
    requires |truth| == |display| && k <= |inputs|
    ensures |g.display| == |display| && g.next <= |inputs|
    ensures !g.waiting ==> g.matches == NUM_PAIRS
    decreases |inputs| - k
  {
    if matches == NUM_PAIRS then Game(display, matches, k, false)
    else if k + 2 > |inputs| then Game(display, matches, k, true)
    else
      match PlayTurn(truth, display, inputs[k], inputs[k + 1])
      case Match(i, j) => Play(truth, display[i := Value(truth[i])][j := Value(truth[j])], matches + 1, inputs, k + 2)
      case _ => Play(truth, display, matches, inputs, k + 2)
  }

  /** A match reveals two hidden cards of equal value and nothing else. */
  lemma RevealKeepsPairs(truth: seq<int>, display: seq<Slot>, i: nat, j: nat)
    requires Paired(truth, NUM_PAIRS) && Faithful(truth, display) && Twinned(truth, Revealed(display))
    requires i < |truth| && j < |truth| && i != j && truth[i] == truth[j] && display[i] == Star
    ensures var d := display[i := Value(truth[i])][j := Value(truth[j])];
      Faithful(truth, d) && Twinned(truth, Revealed(d))
      && Revealed(d) == Revealed(display)[i := true][j := true]
      && CountTrue(Revealed(d)) == CountTrue(Revealed(display)) + 2
  {
    var d := display[i := Value(truth[i])][j := Value(truth[j])];
    assert Revealed(d) == Revealed(display)[i := true][j := true];
    MatchKeepsTwinned(truth, Revealed(display), NUM_PAIRS, i, j);
  }

  /** The bookkeeping of the loop: revealed slots show their values, twins are revealed together, and twice `matches` cards are revealed. */
  predicate Bookkept(truth: seq<int>, display: seq<Slot>, matches: nat)
  {
    Faithful(truth, display) && Twinned(truth, Revealed(display)) && CountTrue(Revealed(display)) == 2 * matches
  }

  /** A matching turn keeps the bookkeeping of the loop. */
  lemma TurnKeepsPairs(truth: seq<int>, display: seq<Slot>, matches: nat, first: string, second: string)
    requires Paired(truth, NUM_PAIRS) && Bookkept(truth, display, matches)
    ensures var o := PlayTurn(truth, display, first, second);
      o.Match? ==> Bookkept(truth, display[o.i := Value(truth[o.i])][o.j := Value(truth[o.j])], matches + 1)
  {
    var o := PlayTurn(truth, display, first, second);
    if o.Match? {
      RevealKeepsPairs(truth, display, o.i, o.j);
    }
  }

  /** A revealed card stays revealed, showing the same value. */
  lemma {:induction false} PlayKeepsShown(truth: seq<int>, display: seq<Slot>, matches: nat, inputs: seq<string>, k: nat)
    requires |truth| == |display| && k <= |inputs|
    ensures var g := Play(truth, display, matches, inputs, k);
      forall i :: 0 <= i < |display| && display[i] != Star ==> g.display[i] == display[i]
    decreases |inputs| - k
  {
    if matches != NUM_PAIRS && k + 2 <= |inputs| {
      var o := PlayTurn(truth, display, inputs[k], inputs[k + 1]);
      if o.Match? {
        var d := display[o.i := Value(truth[o.i])][o.j := Value(truth[o.j])];
        assert Play(truth, display, matches, inputs, k) == Play(truth, d, matches + 1, inputs, k + 2);
        PlayKeepsShown(truth, d, matches + 1, inputs, k + 2);
        forall x | 0 <= x < |display| && display[x] != Star ensures d[x] == display[x] {
          assert x != o.i && x != o.j;
        }
      } else {
        assert Play(truth, display, matches, inputs, k) == Play(truth, display, matches, inputs, k + 2);
        PlayKeepsShown(truth, display, matches, inputs, k + 2);
      }
    }
  }

  /** The loop keeps its bookkeeping. */
  lemma {:induction false} PlayKeepsPairs(truth: seq<int>, display: seq<Slot>, matches: nat, inputs: seq<string>, k: nat)
    requires Paired(truth, NUM_PAIRS) && Bookkept(truth, display, matches) && k <= |inputs|
    ensures var g := Play(truth, display, matches, inputs, k);
      Bookkept(truth, g.display, g.matches)
    decreases |inputs| - k
  {
    if matches != NUM_PAIRS && k + 2 <= |inputs| {
      var o := PlayTurn(truth, display, inputs[k], inputs[k + 1]);
      if o.Match? {
        var d := display[o.i := Value(truth[o.i])][o.j := Value(truth[o.j])];
        assert Play(truth, display, matches, inputs, k) == Play(truth, d, matches + 1, inputs, k + 2);
        TurnKeepsPairs(truth, display, matches, inputs[k], inputs[k + 1]);
        PlayKeepsPairs(truth, d, matches + 1, inputs, k + 2);
      } else {
        assert Play(truth, display, matches, inputs, k) == Play(truth, display, matches, inputs, k + 2);
        PlayKeepsPairs(truth, display, matches, inputs, k + 2);
      }
    }
  }

  /** When the loop ends every card is revealed, showing its value. */
  lemma PlayRevealsAll(truth: seq<int>, display: seq<Slot>, matches: nat, inputs: seq<string>, k: nat)
    requires Paired(truth, NUM_PAIRS) && Bookkept(truth, display, matches) && k <= |inputs|
    ensures var g := Play(truth, display, matches, inputs, k);
      !g.waiting ==> forall i :: 0 <= i < |truth| ==> g.display[i] == Value(truth[i])
  {
    var g := Play(truth, display, matches, inputs, k);
    PlayKeepsPairs(truth, display, matches, inputs, k);
    if !g.waiting {
      AllMatched(Revealed(g.display), g.matches, NUM_PAIRS);
      forall i | 0 <= i < |truth| ensures g.display[i] == Value(truth[i]) { assert Revealed(g.display)[i]; }
    }
  }

  /**
   * The game loop of `main`, with the corrected turn, on the display list in
   * place. It reads two inputs per pass and waits when fewer than two remain.
   */
  method PlayGame(truth: seq<int>, display: array<Slot>, inputs: seq<string>) returns (matches: nat, waiting: bool)
    requires Paired(truth, NUM_PAIRS) && display.Length == |truth|
    requires forall i :: 0 <= i < display.Length ==> display[i] == Star
    modifies display
    ensures var g := Play(truth, old(display[..]), 0, inputs, 0);
      display[..] == g.display && matches == g.matches && waiting == g.waiting
    ensures Faithful(truth, display[..]) && CountTrue(Revealed(display[..])) == 2 * matches
    ensures !waiting ==> forall i :: 0 <= i < display.Length ==> display[i] == Value(truth[i])
  {
    ghost var g0 := Play(truth, display[..], 0, inputs, 0);
    ghost var start := display[..];
    matches, waiting := 0, false;
    var k := 0;
    while matches != NUM_PAIRS
      invariant k <= |inputs| && Play(truth, display[..], matches, inputs, k) == g0
      decreases |inputs| - k
    {
      if k + 2 > |inputs| {
        waiting := true;
        break;
      }
      var first, second := inputs[k], inputs[k + 1];
      var outcome := PlayTurn(truth, display[..], first, second);
      if outcome.Match? {
        var i, j := outcome.i, outcome.j;
        display[i] := Value(truth[i]);
        display[j] := Value(truth[j]);
        matches := matches + 1;
      }
      k := k + 2;
    }
    assert start == Repeat(Star, |truth|);
    assert Revealed(start) == Repeat(false, |truth|);
    NoneMatched(NUM_PAIRS, truth);
    PlayKeepsPairs(truth, start, 0, inputs, 0);
    PlayRevealsAll(truth, start, 0, inputs, 0);
  }

  /** The start of `main`: the truth list, shuffled, and a display of `'*'` only. */
  method NewGame() returns (truth: seq<int>, display: array<Slot>)
    ensures Paired(truth, NUM_PAIRS) && fresh(display) && display.Length == |truth|
    ensures forall i :: 0 <= i < display.Length ==> display[i] == Star
  {
    var ordered := BuildTruth(NUM_PAIRS);
    truth := Shuffle(ordered);
    ShuffleKeepsPaired(ordered, truth, NUM_PAIRS);
    display := new Slot[2 * NUM_PAIRS](_ => Star);
  }

  /** `main`: a new game played to the end, or until the input runs out. */
  method RunGame(inputs: seq<string>) returns (truth: seq<int>, display: array<Slot>, matches: nat, waiting: bool)
    ensures Paired(truth, NUM_PAIRS) && display.Length == |truth|
    ensures var g := Play(truth, Repeat(Star, |truth|), 0, inputs, 0);
      display[..] == g.display && matches == g.matches && waiting == g.waiting
    ensures !waiting ==> matches == NUM_PAIRS && forall i :: 0 <= i < display.Length ==> display[i] == Value(truth[i])
  {
    truth, display := NewGame();
    assert display[..] == Repeat(Star, |truth|);
    matches, waiting := PlayGame(truth, display, inputs);
  }
}
