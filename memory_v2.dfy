/**
 * The graphical memory game with `Card` objects (memory_game_cip_v2.py): six
 * pairs of cards on a 3 x 4 grid, each card showing its back until it is
 * picked; two picked cards of equal value stay face up as a match.
 */
module MemoryCardsV2 {
  import opened Common
  import opened MemoryDeck
  import opened MemoryTurns

  const NUM_PAIRS: nat := 6
  const NUM_ROW: nat := 3
  const NUM_COLS: nat := 4
  const CARD_SIZE: int := 100

  /** The picture `create_card` draws on a card's front. */
  datatype Shape = Circle | Hexagon | Triangle | Square | Pentagon | Rectangle | Diamond

  /** The branch in `create_card`: 1 to 6 have their own shapes, any other value a diamond. */
  function CardShape(value: int): Shape
  {
    if value == 1 then Circle
    else if value == 2 then Hexagon
    else if value == 3 then Triangle
    else if value == 4 then Square
    else if value == 5 then Pentagon
    else if value == 6 then Rectangle
    else Diamond
  }

  /**
   * The dealt values `0 .. NUM_PAIRS - 1` get pairwise different pictures: two
   * cards look alike exactly when they have the same value. Value 0 is the
   * diamond and the rectangle is never dealt.
   */
  lemma CardShapesTellValuesApart(a: int, b: int)
    requires 0 <= a < NUM_PAIRS && 0 <= b < NUM_PAIRS
    ensures CardShape(a) == CardShape(b) <==> a == b
    ensures CardShape(a) != Rectangle && (CardShape(a) == Diamond <==> a == 0)
  {
  }

  class Card {
    const value: int
    var isMatched: bool
    var x: int
    var y: int
    /** The picture; `None` until the card is drawn. */
    var image: Option<Shape>
    var frontHidden: bool
    var imageHidden: bool
    var backHidden: bool

    constructor (value: int)
      ensures this.value == value && !isMatched && image == None && x == 0 && y == 0
    {
      this.value := value;
      isMatched := false;
      x, y := 0, 0;
      image := None;
      frontHidden, imageHidden, backHidden := false, false, false;
    }

    /** The front and the picture are visible, the back is hidden. */
    predicate FaceUp()
      reads this
    {
      !frontHidden && !imageHidden && backHidden
    }

    /** The back is visible, the front and the picture are hidden. */
    predicate FaceDown()
      reads this
    {
      frontHidden && imageHidden && !backHidden
    }

    /** `create_card`: draws the card at (x, y) with the picture of its value, face down. */
    method CreateCard(x: int, y: int)
      modifies this
      ensures this.x == x && this.y == y && image == Some(CardShape(value)) && FaceDown()
      ensures isMatched == old(isMatched)
    {
      this.x, this.y := x, y;
      image := Some(CardShape(value));
      HideCard();
    }

    /** `show_card`. */
    method ShowCard()
      modifies this
      ensures FaceUp()
      ensures isMatched == old(isMatched) && x == old(x) && y == old(y) && image == old(image)
    {
      frontHidden := false;
      imageHidden := false;
      backHidden := true;
    }

    /** `hide_card`. */
    method HideCard()
      modifies this
      ensures FaceDown()
      ensures isMatched == old(isMatched) && x == old(x) && y == old(y) && image == old(image)
    {
      frontHidden := true;
      imageHidden := true;
      backHidden := false;
    }
  }

  /** Showing and hiding undo each other. */
  lemma FaceUpNotDown(c: Card)
    ensures !(c.FaceUp() && c.FaceDown())
  {
  }

  function Values(cards: seq<Card>): (r: seq<int>)
    ensures |r| == |cards|
  {
    seq(|cards|, i requires 0 <= i < |cards| => cards[i].value)
  }

  function Flags(cards: seq<Card>): (r: seq<bool>)
    reads cards
    ensures |r| == |cards|
  {
    seq(|cards|, i requires 0 <= i < |cards| reads cards => cards[i].isMatched)
  }

  /** The values of two lists of cards put together. */
  lemma ValuesAppend(a: seq<Card>, b: seq<Card>)
    ensures Values(a + b) == Values(a) + Values(b)
  {
  }

  /** Taking one card out of a list takes it out of the multiset of cards once. */
  lemma RemoveAt(t: seq<Card>, k: nat)
    requires k < |t|
    ensures multiset(t[..k] + t[k + 1..]) == multiset(t) - multiset{t[k]}
  {
    assert t == t[..k] + [t[k]] + t[k + 1..];
  }

  /** Rearranging the cards rearranges their values. */
  lemma {:induction false} ShuffledValues(s: seq<Card>, t: seq<Card>)
    requires multiset(t) == multiset(s)
    ensures multiset(Values(t)) == multiset(Values(s))
    decreases |s|
  {
    if s == [] {
      assert |t| == |multiset(t)| == 0;
    } else {
      var x := s[0];
      assert x in multiset(t);
      var k :| 0 <= k < |t| && t[k] == x;
      var t' := t[..k] + t[k + 1..];
      assert t == t[..k] + ([x] + t[k + 1..]);
      assert s == [x] + s[1..];
      RemoveAt(t, k);
      assert multiset(s) == multiset{x} + multiset(s[1..]);
      ShuffledValues(s[1..], t');
      ValuesAppend(t[..k], [x] + t[k + 1..]);
      ValuesAppend([x], t[k + 1..]);
      ValuesAppend(t[..k], t[k + 1..]);
      ValuesAppend([x], s[1..]);
    }
  }

  // ---------------------------------------------------------------------
  // The deck
  // ---------------------------------------------------------------------

  /** The cards of a game: all different objects, their values paired. */
  predicate Deck(cards: seq<Card>)
  {
    Distinct(cards) && Paired(Values(cards), NUM_PAIRS)
  }

  /** The creation loop of `main`: two new cards for each value, in order. */
  method BuildDeck() returns (cards: seq<Card>)
    ensures Values(cards) == PairedDeck(NUM_PAIRS) && Deck(cards)
    ensures |cards| == NUM_ROW * NUM_COLS
    ensures forall i :: 0 <= i < |cards| ==> fresh(cards[i]) && !cards[i].isMatched
  {
    cards := [];
    for i := 0 to NUM_PAIRS
      invariant Values(cards) == PairedDeck(i) && Distinct(cards)
      invariant forall j :: 0 <= j < |cards| ==> fresh(cards[j]) && !cards[j].isMatched
    {
      var a := new Card(i);
      var b := new Card(i);
      cards := cards + [a] + [b];
      assert Values(cards) == PairedDeck(i + 1) by {
        forall k | 0 <= k < 2 * (i + 1) ensures Values(cards)[k] == k / 2 {
          if k < 2 * i { assert Values(cards)[k] == PairedDeck(i)[k]; }
        }
      }
    }
    PairedDeckIsPaired(NUM_PAIRS);
  }

  /** `random.shuffle(cards)`: the same cards in any order. */
  method ShuffleDeck(cards: seq<Card>) returns (shuffled: seq<Card>)
    requires Deck(cards)
    ensures multiset(shuffled) == multiset(cards) && Deck(shuffled)
    ensures forall i :: 0 <= i < |shuffled| ==> shuffled[i] in cards
  {
    shuffled := Shuffle(cards);
    forall i | 0 <= i < |shuffled| ensures shuffled[i] in cards {
      assert shuffled[i] in multiset(shuffled);
    }
    ShuffleKeepsDistinct(cards, shuffled);
    ShuffledValues(cards, shuffled);
    ShuffleKeepsPaired(Values(cards), Values(shuffled), NUM_PAIRS);
  }

  /** The render loop of `main`: card `index` goes to row `index / NUM_COLS`, column `index % NUM_COLS`. */
  method RenderDeck(cards: seq<Card>)
    requires Distinct(cards) && |cards| == NUM_ROW * NUM_COLS
    modifies cards
    ensures forall i :: 0 <= i < |cards| ==>
      cards[i].FaceDown() && cards[i].image == Some(CardShape(cards[i].value))
      && cards[i].x == (i % NUM_COLS) * CARD_SIZE && cards[i].y == (i / NUM_COLS) * CARD_SIZE
    ensures Flags(cards) == old(Flags(cards))
  {
    var index := 0;
    for row := 0 to NUM_ROW
      invariant index == row * NUM_COLS
      invariant forall i :: 0 <= i < index ==>
        cards[i].FaceDown() && cards[i].image == Some(CardShape(cards[i].value))
        && cards[i].x == (i % NUM_COLS) * CARD_SIZE && cards[i].y == (i / NUM_COLS) * CARD_SIZE
      invariant forall i :: 0 <= i < |cards| ==> cards[i].isMatched == old(cards[i].isMatched)
    {
      for cols := 0 to NUM_COLS
        invariant index == row * NUM_COLS + cols
        invariant forall i :: 0 <= i < index ==>
          cards[i].FaceDown() && cards[i].image == Some(CardShape(cards[i].value))
          && cards[i].x == (i % NUM_COLS) * CARD_SIZE && cards[i].y == (i / NUM_COLS) * CARD_SIZE
        invariant forall i :: 0 <= i < |cards| ==> cards[i].isMatched == old(cards[i].isMatched)
      {
        cards[index].CreateCard(cols * CARD_SIZE, row * CARD_SIZE);
        index := index + 1;
      }
    }
  }

  // ---------------------------------------------------------------------
  // Turns
  // ---------------------------------------------------------------------

  /** The re-pick loop of `main`, on the input from position `k`. */
  method Repick(picks: seq<Option<nat>>, k: nat) returns (j: nat)
    requires k <= |picks|
    ensures j == NextPick(picks, k)
  {
    j := k;
    while j < |picks| && picks[j].None?
      invariant k <= j <= |picks| && NextPick(picks, j) == NextPick(picks, k)
      decreases |picks| - j
    {
      j := j + 1;
    }
  }

  /**
   * The rest of a pass once the first card `a` is face up and the second card
   * `b` is picked: the same-card and already-matched checks, then the
   * comparison of the two values.
   */
  method Resolve(cards: seq<Card>, a: nat, b: nat) returns (outcome: Outcome)
    requires Distinct(cards) && a < |cards| && b < |cards|
    requires !cards[a].isMatched && cards[a].FaceUp()
    modifies cards[a], cards[b]
    ensures outcome == Judge(old(Flags(cards)), Values(cards), a, b)
    ensures Flags(cards) == AfterTurn(old(Flags(cards)), Turn(outcome, a, b, 0))
    ensures outcome == Match ==> cards[a].FaceUp() && cards[b].FaceUp()
    ensures outcome in {NoMatch, SameCard, SecondMatched} ==> cards[a].FaceDown()
    ensures outcome == NoMatch ==> cards[b].FaceDown()
    ensures outcome in {SameCard, SecondMatched} ==> unchanged(cards[b]) || a == b
    ensures forall i :: 0 <= i < |cards| ==>
      cards[i].x == old(cards[i].x) && cards[i].y == old(cards[i].y) && cards[i].image == old(cards[i].image)
  {
    ghost var flags := Flags(cards);
    if a == b {
      cards[a].HideCard();
      return SameCard;
    } else if cards[b].isMatched {
      cards[a].HideCard();
      assert Flags(cards) == flags;
      return SecondMatched;
    }
    cards[b].ShowCard();
    assert Flags(cards) == flags;
    if cards[a].value == cards[b].value {
      cards[a].isMatched := true;
      cards[b].isMatched := true;
      outcome := Match;
      assert Flags(cards) == flags[a := true][b := true];
    } else {
      cards[a].HideCard();
      cards[b].HideCard();
      outcome := NoMatch;
      assert Flags(cards) == flags;
    }
  }

  /**
   * The second half of a pass, once the first card `a` is picked and found
   * unmatched: show it, the re-pick loop for the second card, then the
   * second-card branches.
   */
  method SecondPick(cards: seq<Card>, picks: seq<Option<nat>>, a: nat, f: nat) returns (outcome: Outcome, second: nat, next: nat)
    requires Distinct(cards) && PicksFit(picks, |cards|) && f <= |picks| && a < |cards|
    requires !cards[a].isMatched
    modifies cards
    ensures Turn(outcome, a, second, next) == SecondSpec(old(Flags(cards)), Values(cards), picks, a, f)
    ensures Flags(cards) == AfterTurn(old(Flags(cards)), Turn(outcome, a, second, next))
    ensures outcome in {Match, NoSecond} ==> cards[a].FaceUp()
    ensures outcome == Match ==> cards[second].FaceUp()
    ensures outcome in {NoMatch, SameCard, SecondMatched} ==> cards[a].FaceDown()
    ensures outcome == NoMatch ==> cards[second].FaceDown()
    ensures forall i :: 0 <= i < |cards| && i !in Flipped(Turn(outcome, a, second, next)) ==> unchanged(cards[i])
    ensures forall i :: 0 <= i < |cards| ==>
      cards[i].x == old(cards[i].x) && cards[i].y == old(cards[i].y) && cards[i].image == old(cards[i].image)
  {
    ghost var flags := Flags(cards);
    cards[a].ShowCard();
    assert Flags(cards) == flags;
    var s := Repick(picks, f);
    if s == |picks| {
      return NoSecond, a, s;
    }
    second := picks[s].value;
    next := s + 1;
    outcome := Resolve(cards, a, second);
  }

  /**
   * One pass of the game loop, after `tries += 1`. It flips only the cards
   * it names: after a match both stay face up and are flagged, after a
   * mismatch both are face down again, a rejected second pick turns the
   * first card back, and no other card and no other flag changes.
   */
  method PlayTurn(cards: seq<Card>, picks: seq<Option<nat>>, k: nat) returns (outcome: Outcome, first: nat, second: nat, next: nat)
    requires Distinct(cards) && PicksFit(picks, |cards|) && k <= |picks|
    modifies cards
    ensures Turn(outcome, first, second, next) == TurnSpec(old(Flags(cards)), Values(cards), picks, k)
    ensures outcome != NoFirst ==> first < |cards| && second < |cards|
    ensures Flags(cards) == AfterTurn(old(Flags(cards)), Turn(outcome, first, second, next))
    ensures outcome in {Match, NoSecond} ==> cards[first].FaceUp()
    ensures outcome == Match ==> cards[second].FaceUp()
    ensures outcome in {NoMatch, SameCard, SecondMatched} ==> cards[first].FaceDown()
    ensures outcome == NoMatch ==> cards[second].FaceDown()
    ensures forall i :: 0 <= i < |cards| && i !in Flipped(Turn(outcome, first, second, next)) ==> unchanged(cards[i])
    ensures forall i :: 0 <= i < |cards| ==>
      cards[i].x == old(cards[i].x) && cards[i].y == old(cards[i].y) && cards[i].image == old(cards[i].image)
  {
    var f := Repick(picks, k);
    if f == |picks| {
      return NoFirst, 0, 0, f;
    }
    first := picks[f].value;
    if cards[first].isMatched {
      return FirstMatched, first, first, f + 1;
    }
    outcome, second, next := SecondPick(cards, picks, first, f + 1);
  }

  // ---------------------------------------------------------------------
  // The game loop
  // ---------------------------------------------------------------------

  /** Matched cards are face up and unmatched cards face down, as between two passes. */
  predicate Settled(cards: seq<Card>)
    reads cards
  {
    forall i :: 0 <= i < |cards| ==> (cards[i].isMatched ==> cards[i].FaceUp()) && (!cards[i].isMatched ==> cards[i].FaceDown())
  }

  /** Matched cards are face up. */
  predicate MatchedShown(cards: seq<Card>)
    reads cards
  {
    forall i :: 0 <= i < |cards| && cards[i].isMatched ==> cards[i].FaceUp()
  }

  /**
   * A pass between two settled states: a complete pass leaves the cards
   * settled again, and a pass cut short still shows every matched card.
   */
  method SettledPass(cards: seq<Card>, picks: seq<Option<nat>>, k: nat) returns (outcome: Outcome, next: nat)
    requires Distinct(cards) && PicksFit(picks, |cards|) && k <= |picks| && Settled(cards)
    modifies cards
    ensures var t := TurnSpec(old(Flags(cards)), Values(cards), picks, k);
      outcome == t.outcome && next == t.next && Flags(cards) == AfterTurn(old(Flags(cards)), t)
    ensures !CutShort(outcome) ==> Settled(cards)
    ensures MatchedShown(cards)
  {
    var first, second;
    outcome, first, second, next := PlayTurn(cards, picks, k);
    ghost var t := Turn(outcome, first, second, next);
    forall i | 0 <= i < |cards|
      ensures cards[i].isMatched ==> cards[i].FaceUp()
      ensures !CutShort(outcome) ==> !cards[i].isMatched ==> cards[i].FaceDown()
    {
      if i !in Flipped(t) {
        assert unchanged(cards[i]);
      } else {
        assert Flags(cards)[i] == cards[i].isMatched;
        assert old(Flags(cards))[i] == old(cards[i].isMatched);
      }
    }
  }

  /**
   * The game loop of `main` on a rendered deck. It stops once every pair is
   * found, or waits for a click when the input runs out. Between passes every
   * matched card is face up and every other card face down.
   */
  method PlayGame(cards: seq<Card>, picks: seq<Option<nat>>) returns (matches: nat, tries: nat, waiting: bool)
    requires Deck(cards) && PicksFit(picks, |cards|) && Settled(cards)
    requires forall i :: 0 <= i < |cards| ==> !cards[i].isMatched
    modifies cards
    ensures var g := Play(NUM_PAIRS, Values(cards), old(Flags(cards)), 0, 0, picks, 0);
      Flags(cards) == g.flags && matches == g.matches && tries == g.tries && waiting == g.waiting
    ensures !waiting ==> matches == NUM_PAIRS && forall i :: 0 <= i < |cards| ==> cards[i].isMatched && cards[i].FaceUp()
    ensures 2 * matches == CountTrue(Flags(cards)) && Twinned(Values(cards), Flags(cards))
    ensures MatchedShown(cards)
  {
    ghost var values := Values(cards);
    ghost var start := Flags(cards);
    ghost var g0 := Play(NUM_PAIRS, values, start, 0, 0, picks, 0);
    matches, tries, waiting := 0, 0, false;
    var k := 0;
    while matches != NUM_PAIRS
      invariant k <= |picks| && Play(NUM_PAIRS, values, Flags(cards), matches, tries, picks, k) == g0
      invariant Settled(cards)
      decreases |picks| - k
    {
      tries := tries + 1;
      var outcome, next := SettledPass(cards, picks, k);
      if outcome == NoFirst || outcome == NoSecond {
        waiting := true;
        k := next;
        break;
      }
      if outcome == Match {
        matches := matches + 1;
      }
      k := next;
    }
    assert start == Repeat(false, |cards|);
    NoneMatched(NUM_PAIRS, values);
    PlayKeepsPairs(NUM_PAIRS, values, start, 0, 0, picks, 0);
    if !waiting {
      forall i | 0 <= i < |cards| ensures cards[i].isMatched && cards[i].FaceUp() {
        assert Flags(cards)[i];
      }
    }
  }

  /**
   * `main`: build, shuffle and render the deck, then play. The game ends
   * with every card matched and face up, unless it is left waiting for a click.
   */
  method RunGame(picks: seq<Option<nat>>) returns (cards: seq<Card>, matches: nat, tries: nat, waiting: bool)
    requires PicksFit(picks, NUM_ROW * NUM_COLS)
    ensures Deck(cards) && |cards| == NUM_ROW * NUM_COLS
    ensures var g := Play(NUM_PAIRS, Values(cards), Repeat(false, |cards|), 0, 0, picks, 0);
      Flags(cards) == g.flags && matches == g.matches && tries == g.tries && waiting == g.waiting
    ensures !waiting ==> matches == NUM_PAIRS && forall i :: 0 <= i < |cards| ==> cards[i].isMatched && cards[i].FaceUp()
    ensures 2 * matches == CountTrue(Flags(cards)) && MatchedShown(cards)
  {
    cards := BuildDeck();
    cards := ShuffleDeck(cards);
    assert forall i :: 0 <= i < |cards| ==> fresh(cards[i]) && !cards[i].isMatched;
    ghost var before := Flags(cards);
    assert before == Repeat(false, |cards|);
    RenderDeck(cards);
    forall i | 0 <= i < |cards| ensures !cards[i].isMatched && cards[i].FaceDown() {
      assert !Flags(cards)[i];
    }
    matches, tries, waiting := PlayGame(cards, picks);
  }
}
