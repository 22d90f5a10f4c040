/**
 * The first graphical memory game (memory_game_cip_v1.py): eight blank cards
 * in one row over a shuffled list of four pairs. The game keeps parallel
 * lists: `truth` holds the values, `display` the shape drawn for each card
 * (created the first time the card is shown), `matched` the matched flags,
 * and `lookup` maps the canvas id of each blank card to its position.
 */
module MemoryShapesV1 {
  import opened Common
  import opened MemoryDeck
  import opened MemoryTurns

  const NUM_PAIRS: nat := 4
  const NUM_ROW: nat := 1
  const NUM_COLS: nat := 8
  const CARD_SIZE: int := 100

  /** The shape `create_shape` draws. */
  datatype ShapeKind = Circle | Square | Diamond | Triangle

  /** `create_shape`: 0 a circle, 1 a square, 2 a diamond, anything else a triangle. */
  function CreateShape(value: int): (k: ShapeKind)
    ensures k == Triangle <==> value !in {0, 1, 2}
  {
    if value == 0 then Circle
    else if value == 1 then Square
    else if value == 2 then Diamond
    else Triangle
  }

  /** The four dealt values get four different shapes. */
  lemma CreateShapeTellsValuesApart(a: int, b: int)
    requires 0 <= a < NUM_PAIRS && 0 <= b < NUM_PAIRS
    ensures CreateShape(a) == CreateShape(b) <==> a == b
  {
  }

  // ---------------------------------------------------------------------
  // The board
  // ---------------------------------------------------------------------

  /** The canvas id of the blank card at position `p`, the ids counted from `firstId`. */
  function CardId(firstId: nat, p: nat): nat
  {
    firstId + p
  }

  /** The lookup after `n` blank cards are drawn, ids counted from `firstId`: `lookup[id] = cols`. */
  function LookupFrom(firstId: nat, n: nat): map<nat, nat>
  {
    if n == 0 then map[] else LookupFrom(firstId, n - 1)[CardId(firstId, n - 1) := (n - 1) % NUM_COLS]
  }

  /** The render loop of `main`: `draw_card` gives each blank card the next canvas id. */
  method RenderCards(firstId: nat) returns (lookup: map<nat, nat>, nextId: nat)
    ensures nextId == firstId + NUM_ROW * NUM_COLS
    ensures lookup == LookupFrom(firstId, NUM_ROW * NUM_COLS)
  {
    lookup := map[];
    nextId := firstId;
    for row := 0 to NUM_ROW
      invariant nextId == firstId + row * NUM_COLS
      invariant lookup == LookupFrom(firstId, row * NUM_COLS)
    {
      for cols := 0 to NUM_COLS
        invariant nextId == firstId + row * NUM_COLS + cols
        invariant lookup == LookupFrom(firstId, row * NUM_COLS + cols)
      {
        assert (row * NUM_COLS + cols) % NUM_COLS == cols;
        lookup := lookup[nextId := cols];
        nextId := nextId + 1;
      }
    }
  }

  /** The lookup of a rendered board. */
  function Lookup(firstId: nat): map<nat, nat>
  {
    LookupFrom(firstId, NUM_ROW * NUM_COLS)
  }

  /** The ids of `n` drawn cards are `firstId .. firstId + n - 1`, each mapped to its column. */
  lemma {:induction false} LookupFromShape(firstId: nat, n: nat)
    ensures forall id :: id in LookupFrom(firstId, n) <==> firstId <= id < firstId + n
    ensures forall id :: id in LookupFrom(firstId, n) ==> LookupFrom(firstId, n)[id] == (id - firstId) % NUM_COLS
  {
    if n > 0 {
      LookupFromShape(firstId, n - 1);
    }
  }

  /** Different cards have different ids. */
  predicate Injective(lookup: map<nat, nat>)
  {
    forall a, b :: a in lookup && b in lookup && lookup[a] == lookup[b] ==> a == b
  }

  /**
   * With a single row the lookup is a one-to-one correspondence between the
   * card ids and the eight positions of `truth`.
   */
  lemma LookupIsOneToOne(firstId: nat)
    ensures Injective(Lookup(firstId))
    ensures forall id :: id in Lookup(firstId) ==> Lookup(firstId)[id] < NUM_PAIRS * 2
    ensures forall p :: 0 <= p < NUM_PAIRS * 2 ==> CardId(firstId, p) in Lookup(firstId) && Lookup(firstId)[CardId(firstId, p)] == p
  {
    LookupFromShape(firstId, NUM_ROW * NUM_COLS);
  }

  /**
   * `pick_card` returns the id under the click when it is a blank card's,
   * and `while not first_card` then also skips a card whose id is 0, which
   * Python reads as false.
   */
  predicate Accepted(pick: Option<nat>, lookup: map<nat, nat>)
  {
    pick.Some? && pick.value in lookup && pick.value != 0
  }

  /** The clicks as positions in `truth`: the ones the re-pick loop keeps, mapped through `lookup`. */
  function Positions(picks: seq<Option<nat>>, lookup: map<nat, nat>): (r: seq<Option<nat>>)
    ensures |r| == |picks|
    ensures forall i :: 0 <= i < |picks| ==> (r[i].Some? <==> Accepted(picks[i], lookup))
  {
    seq(|picks|, i requires 0 <= i < |picks| =>
      if Accepted(picks[i], lookup) then Some(lookup[picks[i].value]) else None)
  }

  /** Every click the game keeps names one of its eight cards. */
  lemma PositionsFit(picks: seq<Option<nat>>, firstId: nat)
    ensures PicksFit(Positions(picks, Lookup(firstId)), NUM_PAIRS * 2)
  {
    LookupIsOneToOne(firstId);
  }

  /**
   * When the canvas numbers its objects from 0, the first card can never be
   * picked; numbered from 1 on, a click on any card picks it.
   */
  lemma FirstCardNeedsTruthyId(firstId: nat, picks: seq<Option<nat>>)
    ensures firstId == 0 ==> forall i :: 0 <= i < |picks| ==> Positions(picks, Lookup(firstId))[i] != Some(0)
    ensures firstId > 0 ==> forall p :: 0 <= p < NUM_PAIRS * 2 ==> Accepted(Some(CardId(firstId, p)), Lookup(firstId))
  {
    LookupIsOneToOne(firstId);
  }

  /** A card's shape is on the canvas and not hidden. */
  predicate Visible(display: array<Option<ShapeKind>>, hidden: array<bool>, i: nat)
    requires i < display.Length == hidden.Length
    reads display, hidden
  {
    display[i].Some? && !hidden[i]
  }

  /** Every shape drawn so far is the shape of its card's value. */
  predicate Cached(display: array<Option<ShapeKind>>, truth: seq<int>)
    reads display
  {
    display.Length == |truth| && forall i :: 0 <= i < |truth| && display[i].Some? ==> display[i] == Some(CreateShape(truth[i]))
  }

  /**
   * `show_card`: the shape of card `index` is drawn the first time and only
   * unhidden afterwards; either way it is then visible and is the shape of
   * the card's value. No other card changes.
   */
  method ShowCard(display: array<Option<ShapeKind>>, hidden: array<bool>, truth: seq<int>, index: nat)
    requires index < display.Length == hidden.Length && Cached(display, truth)
    modifies display, hidden
    ensures display[index] == (if old(display[index]).Some? then old(display[index]) else Some(CreateShape(truth[index])))
    ensures display[index] == Some(CreateShape(truth[index])) && Visible(display, hidden, index) && Cached(display, truth)
    ensures forall i :: 0 <= i < display.Length && i != index ==> display[i] == old(display[i]) && hidden[i] == old(hidden[i])
  {
    if display[index].Some? {
      hidden[index] := false;
    } else {
      display[index] := Some(CreateShape(truth[index]));
      hidden[index] := false;
    }
  }

  /** `hide_card(canvas, display[index])`. */
  method HideCard(display: array<Option<ShapeKind>>, hidden: array<bool>, index: nat)
    requires index < display.Length == hidden.Length
    modifies hidden
    ensures !Visible(display, hidden, index)
    ensures forall i :: 0 <= i < hidden.Length && i != index ==> hidden[i] == old(hidden[i])
  {
    hidden[index] := true;
  }

  // ---------------------------------------------------------------------
  // Turns
  // ---------------------------------------------------------------------

  /** The re-pick loop of `main` on the raw clicks. */
  method Repick(picks: seq<Option<nat>>, lookup: map<nat, nat>, k: nat) returns (j: nat)
    requires k <= |picks|
    ensures j == NextPick(Positions(picks, lookup), k)
  {
    j := k;
    while j < |picks| && !Accepted(picks[j], lookup)
      invariant k <= j <= |picks| && NextPick(Positions(picks, lookup), j) == NextPick(Positions(picks, lookup), k)
      decreases |picks| - j
    {
      j := j + 1;
    }
  }

  /** The arrays of one game: all of one length, `hidden` and `matched` two different lists. */
  predicate Board(truth: seq<int>, display: array<Option<ShapeKind>>, hidden: array<bool>, matched: array<bool>)
    reads display
  {
    display.Length == hidden.Length == matched.Length == |truth| && hidden != matched && Cached(display, truth)
  }

  /**
   * The rest of a pass once the first card `a` is visible and the second
   * card `b` is picked: the same-card and already-matched checks, then the
   * comparison of the two values.
   */
  method Resolve(truth: seq<int>, display: array<Option<ShapeKind>>, hidden: array<bool>, matched: array<bool>, a: nat, b: nat)
    returns (outcome: Outcome)
    requires Board(truth, display, hidden, matched) && a < |truth| && b < |truth|
    requires !matched[a] && Visible(display, hidden, a)
    modifies display, hidden, matched
    ensures outcome == Judge(old(matched[..]), truth, a, b)
    ensures matched[..] == AfterTurn(old(matched[..]), Turn(outcome, a, b, 0))
    ensures Board(truth, display, hidden, matched)
    ensures outcome == Match ==> Visible(display, hidden, a) && Visible(display, hidden, b)
    ensures outcome in {NoMatch, SameCard, SecondMatched} ==> !Visible(display, hidden, a)
    ensures outcome == NoMatch ==> !Visible(display, hidden, b)
    ensures forall i :: 0 <= i < |truth| && i != a && (i != b || outcome == SecondMatched) ==>
      display[i] == old(display[i]) && hidden[i] == old(hidden[i])
  {
    if a == b {
      HideCard(display, hidden, a);
      return SameCard;
    } else if matched[b] {
      HideCard(display, hidden, a);
      return SecondMatched;
    }
    ShowCard(display, hidden, truth, b);
    if truth[a] == truth[b] {
      matched[a] := true;
      matched[b] := true;
      outcome := Match;
    } else {
      HideCard(display, hidden, a);
      HideCard(display, hidden, b);
      outcome := NoMatch;
    }
  }

  /**
   * One pass of the game loop of `main`, after `tries += 1`, on positions
   * given by the raw clicks and `lookup`. It behaves as `TurnSpec` says and
   * changes no card outside the ones the pass flips.
   */
  method PlayTurn(truth: seq<int>, display: array<Option<ShapeKind>>, hidden: array<bool>, matched: array<bool>,
                  lookup: map<nat, nat>, picks: seq<Option<nat>>, k: nat)
    returns (outcome: Outcome, first: nat, second: nat, next: nat)
    requires Board(truth, display, hidden, matched) && Injective(lookup)
    requires PicksFit(Positions(picks, lookup), |truth|) && k <= |picks|
    modifies display, hidden, matched
    ensures Turn(outcome, first, second, next) == TurnSpec(old(matched[..]), truth, Positions(picks, lookup), k)
    ensures matched[..] == AfterTurn(old(matched[..]), Turn(outcome, first, second, next))
    ensures Board(truth, display, hidden, matched)
    ensures outcome in {Match, NoSecond} ==> Visible(display, hidden, first)
    ensures outcome == Match ==> Visible(display, hidden, second)
    ensures outcome in {NoMatch, SameCard, SecondMatched} ==> !Visible(display, hidden, first)
    ensures outcome == NoMatch ==> !Visible(display, hidden, second)
    ensures forall i :: 0 <= i < |truth| && i !in Flipped(Turn(outcome, first, second, next)) ==>
      display[i] == old(display[i]) && hidden[i] == old(hidden[i])
  {
    ghost var ps := Positions(picks, lookup);
    var f := Repick(picks, lookup, k);
    if f == |picks| {
      return NoFirst, 0, 0, f;
    }
    var firstCard := picks[f].value;
    first := lookup[firstCard];
    if matched[first] {
      return FirstMatched, first, first, f + 1;
    }
    ghost var flags := matched[..];
    ShowCard(display, hidden, truth, first);
    assert matched[..] == flags;
    var s := Repick(picks, lookup, f + 1);
    if s == |picks| {
      return NoSecond, first, first, s;
    }
    var secondCard := picks[s].value;
    second := lookup[secondCard];
    assert firstCard == secondCard <==> first == second;
    next := s + 1;
    outcome := Resolve(truth, display, hidden, matched, first, second);
  }

  /** Matched cards show their shapes and every other shape is hidden, as between two passes. */
  predicate Settled(display: array<Option<ShapeKind>>, hidden: array<bool>, matched: array<bool>)
    requires display.Length == hidden.Length == matched.Length
    reads display, hidden, matched
  {
    forall i :: 0 <= i < display.Length ==> (matched[i] <==> Visible(display, hidden, i))
  }

  /** Matched cards show their shapes. */
  predicate MatchedShown(display: array<Option<ShapeKind>>, hidden: array<bool>, matched: array<bool>)
    requires display.Length == hidden.Length == matched.Length
    reads display, hidden, matched
  {
    forall i :: 0 <= i < display.Length && matched[i] ==> Visible(display, hidden, i)
  }

  /** A pass between two settled states; a pass cut short still shows every matched card. */
  method SettledPass(truth: seq<int>, display: array<Option<ShapeKind>>, hidden: array<bool>, matched: array<bool>,
                     lookup: map<nat, nat>, picks: seq<Option<nat>>, k: nat)
    returns (outcome: Outcome, next: nat)
    requires Board(truth, display, hidden, matched) && Injective(lookup) && Settled(display, hidden, matched)
    requires PicksFit(Positions(picks, lookup), |truth|) && k <= |picks|
    modifies display, hidden, matched
    ensures var t := TurnSpec(old(matched[..]), truth, Positions(picks, lookup), k);
      outcome == t.outcome && next == t.next && matched[..] == AfterTurn(old(matched[..]), t)
    ensures Board(truth, display, hidden, matched) && MatchedShown(display, hidden, matched)
    ensures !CutShort(outcome) ==> Settled(display, hidden, matched)
  {
    var first, second;
    outcome, first, second, next := PlayTurn(truth, display, hidden, matched, lookup, picks, k);
    ghost var t := Turn(outcome, first, second, next);
    forall i | 0 <= i < display.Length
      ensures matched[i] ==> Visible(display, hidden, i)
      ensures !CutShort(outcome) ==> (Visible(display, hidden, i) ==> matched[i])
    {
      assert matched[..][i] == matched[i];
      assert old(matched[..])[i] == old(matched[i]);
    }
  }

  /**
   * The game loop of `main`. It stops once every pair is found, or waits for
   * a click when the input runs out; between passes a card shows its shape
   * exactly when it is matched.
   */
  method PlayGame(truth: seq<int>, display: array<Option<ShapeKind>>, hidden: array<bool>, matched: array<bool>,
                  lookup: map<nat, nat>, picks: seq<Option<nat>>)
    returns (matches: nat, tries: nat, waiting: bool)
    requires Board(truth, display, hidden, matched) && Injective(lookup) && Settled(display, hidden, matched)
    requires Paired(truth, NUM_PAIRS) && PicksFit(Positions(picks, lookup), |truth|)
    requires forall i :: 0 <= i < matched.Length ==> !matched[i]
    modifies display, hidden, matched
    ensures var g := Play(NUM_PAIRS, truth, old(matched[..]), 0, 0, Positions(picks, lookup), 0);
      matched[..] == g.flags && matches == g.matches && tries == g.tries && waiting == g.waiting
    ensures !waiting ==> matches == NUM_PAIRS && forall i :: 0 <= i < matched.Length ==> matched[i] && Visible(display, hidden, i)
    ensures 2 * matches == CountTrue(matched[..]) && Twinned(truth, matched[..])
    ensures Board(truth, display, hidden, matched) && MatchedShown(display, hidden, matched)
  {
    ghost var ps := Positions(picks, lookup);
    ghost var start := matched[..];
    ghost var g0 := Play(NUM_PAIRS, truth, start, 0, 0, ps, 0);
    matches, tries, waiting := 0, 0, false;
    var k := 0;
    while matches != NUM_PAIRS
      invariant k <= |picks| && Play(NUM_PAIRS, truth, matched[..], matches, tries, ps, k) == g0
      invariant Board(truth, display, hidden, matched) && Settled(display, hidden, matched)
      decreases |picks| - k
    {
      tries := tries + 1;
      var outcome, next := SettledPass(truth, display, hidden, matched, lookup, picks, k);
      if outcome == NoFirst || outcome == NoSecond {
        waiting := true;
        k := next;
        break;
      }
      if outcome == Match {
        matches := matches + 1;
      }
      k := next;
    }
    assert start == Repeat(false, |truth|);
    NoneMatched(NUM_PAIRS, truth);
    PlayKeepsPairs(NUM_PAIRS, truth, start, 0, 0, ps, 0);
    if !waiting {
      forall i | 0 <= i < matched.Length ensures matched[i] && Visible(display, hidden, i) {
        assert matched[..][i];
      }
    }
  }

  /**
   * The start of `main`: the truth list, shuffled, and the lists `display`
   * and `matched`, with no shape drawn and no card matched.
   */
  method NewBoard() returns (truth: seq<int>, display: array<Option<ShapeKind>>, hidden: array<bool>, matched: array<bool>)
    ensures Paired(truth, NUM_PAIRS) && Board(truth, display, hidden, matched) && Settled(display, hidden, matched)
    ensures fresh(display) && fresh(hidden) && fresh(matched)
    ensures forall i :: 0 <= i < |truth| ==> display[i] == None && !matched[i]
  {
    var ordered := BuildTruth(NUM_PAIRS);
    truth := Shuffle(ordered);
    ShuffleKeepsPaired(ordered, truth, NUM_PAIRS);
    display := new Option<ShapeKind>[NUM_PAIRS * 2](_ => None);
    matched := new bool[NUM_PAIRS * 2](_ => false);
    hidden := new bool[NUM_PAIRS * 2](_ => false);
  }

  /**
   * `main`: the truth list, its shuffle, the empty `display` and `matched`
   * lists, the rendered blank cards, then the game. Unless it is left waiting
   * for a click, the game ends with every card matched and showing the shape
   * of its value.
   */
  method RunGame(firstId: nat, picks: seq<Option<nat>>)
    returns (truth: seq<int>, display: array<Option<ShapeKind>>, matched: array<bool>, lookup: map<nat, nat>,
             matches: nat, tries: nat, waiting: bool)
    ensures Paired(truth, NUM_PAIRS) && lookup == Lookup(firstId)
    ensures display.Length == matched.Length == |truth| && Cached(display, truth)
    ensures PicksFit(Positions(picks, lookup), |truth|)
    ensures var g := Play(NUM_PAIRS, truth, Repeat(false, |truth|), 0, 0, Positions(picks, lookup), 0);
      matched[..] == g.flags && matches == g.matches && tries == g.tries && waiting == g.waiting
    ensures !waiting ==> forall i :: 0 <= i < |truth| ==> matched[i] && display[i] == Some(CreateShape(truth[i]))
    ensures 2 * matches == CountTrue(matched[..])
  {
    var hidden;
    truth, display, hidden, matched := NewBoard();
    var nextId;
    lookup, nextId := RenderCards(firstId);
    LookupIsOneToOne(firstId);
    PositionsFit(picks, firstId);
    assert matched[..] == Repeat(false, |truth|);
    matches, tries, waiting := PlayGame(truth, display, hidden, matched, lookup, picks);
    if !waiting {
      forall i | 0 <= i < |truth| ensures matched[i] && display[i] == Some(CreateShape(truth[i])) {
        assert Visible(display, hidden, i);
      }
    }
  }
}
