/**
 * The turn rules the two graphical memory games share. A pass of the game
 * loop reads picks until one names a card, rejects a matched first card,
 * shows the first card, reads a second pick, rejects the same card or a
 * matched second card, and matches two cards of equal value. The game loop
 * repeats passes until every pair is found, counting each pass as a try.
 */
module MemoryTurns {
  import opened Common
  import opened MemoryDeck

  /**
   * The clicks of a game, each given as the position in the deck of the card
   * it picked, or `None` when `pick_card` came back empty.
   */
  predicate PicksFit(picks: seq<Option<nat>>, n: nat)
  {
    forall i :: 0 <= i < |picks| && picks[i].Some? ==> picks[i].value < n
  }

  /** `while not card: card = pick_card(...)`: the first pick from `k` on that hit a card, or `|picks|` when the input runs out. */
  function NextPick(picks: seq<Option<nat>>, k: nat): (j: nat)
    requires k <= |picks|
    ensures k <= j <= |picks| && (j < |picks| ==> picks[j].Some?)
    ensures forall i :: k <= i < j ==> picks[i].None?
    decreases |picks| - k
  {
    if k == |picks| || picks[k].Some? then k else NextPick(picks, k + 1)
  }

  /**
   * How a pass of the game loop ends: no card picked before the input ran out
   * (`NoFirst`), the first card already matched, the first card shown and the
   * input ran out (`NoSecond`), the same card twice, the second card already
   * matched, a match, or two different values.
   */
  datatype Outcome = NoFirst | FirstMatched | NoSecond | SameCard | SecondMatched | Match | NoMatch

  /** A pass of the loop: its outcome, the two cards picked and where the unread input starts. */
  datatype Turn = Turn(outcome: Outcome, first: nat, second: nat, next: nat)

  /** The cards a pass flips: none, the first one, or both. */
  function Flipped(t: Turn): set<nat>
  {
    match t.outcome
    case NoFirst => {}
    case FirstMatched => {}
    case NoSecond => {t.first}
    case SameCard => {t.first}
    case SecondMatched => {t.first}
    case Match => {t.first, t.second}
    case NoMatch => {t.first, t.second}
  }

  /** Whether the input ran out during the pass, before the first or the second pick. */
  predicate CutShort(o: Outcome)
  {
    o == NoFirst || o == NoSecond
  }

  /** Whether both picks of the pass were read. */
  predicate BothPicked(t: Turn)
  {
    t.outcome in {SameCard, SecondMatched, Match, NoMatch}
  }

  /** The checks on the second card, once the first card is shown: same card, already matched, then the values. */
  function Judge(flags: seq<bool>, values: seq<int>, a: nat, b: nat): Outcome
    requires a < |flags| == |values| && b < |values|
  {
    if a == b then SameCard
    else if flags[b] then SecondMatched
    else if values[a] == values[b] then Match
    else NoMatch
  }

  /** The decisions of one pass of the game loop, given the matched flags and the values. */
  function TurnSpec(flags: seq<bool>, values: seq<int>, picks: seq<Option<nat>>, k: nat): (t: Turn)
    requires |flags| == |values| && PicksFit(picks, |values|) && k <= |picks|
    ensures k <= t.next <= |picks| && (t.outcome != NoFirst ==> k < t.next)
    ensures t.outcome == NoFirst <==> NextPick(picks, k) == |picks|
    ensures t.outcome != NoFirst ==> t.first < |values| && picks[NextPick(picks, k)] == Some(t.first)
    ensures t.outcome == FirstMatched <==> t.outcome != NoFirst && flags[t.first]
    ensures BothPicked(t) ==> t.second < |values| && !flags[t.first]
    ensures BothPicked(t) ==>
      (t.outcome == Match <==>
        t.first != t.second && !flags[t.second] && values[t.first] == values[t.second])
    ensures t.outcome == SameCard ==> t.first == t.second
    ensures t.outcome == SecondMatched ==> t.first != t.second && flags[t.second]
    ensures t.outcome == NoMatch ==> t.first != t.second && !flags[t.second] && values[t.first] != values[t.second]
  {
    var f := NextPick(picks, k);
    if f == |picks| then Turn(NoFirst, 0, 0, f)
    else
      var a := picks[f].value;
      if flags[a] then Turn(FirstMatched, a, a, f + 1)
      else SecondSpec(flags, values, picks, a, f + 1)
  }

  /** The rest of a pass once the first card `a` is shown: the pick of the second card from `f` on, then the checks on it. */
  function SecondSpec(flags: seq<bool>, values: seq<int>, picks: seq<Option<nat>>, a: nat, f: nat): (t: Turn)
    requires |flags| == |values| && PicksFit(picks, |values|) && a < |values| && f <= |picks|
    ensures t.first == a && t.second < |values| && f <= t.next <= |picks|
    ensures t.outcome == NoSecond <==> NextPick(picks, f) == |picks|
    ensures t.outcome != NoSecond ==>
      picks[NextPick(picks, f)] == Some(t.second) && t.next == NextPick(picks, f) + 1 && t.outcome == Judge(flags, values, a, t.second)
  {
    var s := NextPick(picks, f);
    if s == |picks| then Turn(NoSecond, a, a, s)
    else
      var b := picks[s].value;
      Turn(Judge(flags, values, a, b), a, b, s + 1)
  }

  /** The matched flags after a pass: only a match sets flags, both of its cards. */
  function AfterTurn(flags: seq<bool>, t: Turn): (r: seq<bool>)
    requires t.outcome == Match ==> t.first < |flags| && t.second < |flags|
    ensures |r| == |flags|
    ensures forall i :: 0 <= i < |flags| && flags[i] ==> r[i]
    ensures forall i :: 0 <= i < |flags| && r[i] != flags[i] ==> t.outcome == Match && (i == t.first || i == t.second)
  {
    if t.outcome == Match then flags[t.first := true][t.second := true] else flags
  }

  /** How far the game loop gets: flags, counters, the unread input, and whether it is left waiting for a click. */
  datatype Game = Game(flags: seq<bool>, matches: nat, tries: nat, next: nat, waiting: bool)

  /** `while matches != numPairs`, each pass counted in `tries`, each match in `matches`. */
  function Play(numPairs: nat, values: seq<int>, flags: seq<bool>, matches: nat, tries: nat, picks: seq<Option<nat>>, k: nat): (g: Game)
    requires |flags| == |values| && PicksFit(picks, |values|) && k <= |picks|
    ensures |g.flags| == |flags| && g.next <= |picks|
    ensures !g.waiting ==> g.matches == numPairs
    decreases |picks| - k
  {
    if matches == numPairs then Game(flags, matches, tries, k, false)
    else
      var t := TurnSpec(flags, values, picks, k);
      if CutShort(t.outcome) then Game(flags, matches, tries + 1, t.next, true)
      else Play(numPairs, values, AfterTurn(flags, t), if t.outcome == Match then matches + 1 else matches, tries + 1, picks, t.next)
  }

  /** The passes the game loop makes, in order, the last one possibly cut short by the end of the input. */
  function Passes(numPairs: nat, values: seq<int>, flags: seq<bool>, matches: nat, picks: seq<Option<nat>>, k: nat): seq<Turn>
    requires |flags| == |values| && PicksFit(picks, |values|) && k <= |picks|
    decreases |picks| - k
  {
    if matches == numPairs then []
    else
      var t := TurnSpec(flags, values, picks, k);
      if CutShort(t.outcome) then [t]
      else [t] + Passes(numPairs, values, AfterTurn(flags, t), if t.outcome == Match then matches + 1 else matches, picks, t.next)
  }

  /** The number of matches among a list of passes. */
  function CountMatches(ts: seq<Turn>): nat
  {
    if ts == [] then 0 else (if ts[0].outcome == Match then 1 else 0) + CountMatches(ts[1..])
  }

  /**
   * `tries` counts every pass of the loop, rejected ones included, and
   * `matches` counts the passes that found a pair.
   */
  lemma {:induction false} PlayCounts(numPairs: nat, values: seq<int>, flags: seq<bool>, matches: nat, tries: nat, picks: seq<Option<nat>>, k: nat)
    requires |flags| == |values| && PicksFit(picks, |values|) && k <= |picks|
    ensures var g := Play(numPairs, values, flags, matches, tries, picks, k);
      var ps := Passes(numPairs, values, flags, matches, picks, k);
      g.tries == tries + |ps| && g.matches == matches + CountMatches(ps)
    decreases |picks| - k
  {
    if matches != numPairs {
      var t := TurnSpec(flags, values, picks, k);
      if !CutShort(t.outcome) {
        var m := if t.outcome == Match then matches + 1 else matches;
        PlayCounts(numPairs, values, AfterTurn(flags, t), m, tries + 1, picks, t.next);
        var ps := Passes(numPairs, values, AfterTurn(flags, t), m, picks, t.next);
        assert ([t] + ps)[1..] == ps;
      }
    }
  }

  /** Every pass but the last gets past both picks; only the last may be cut short. */
  lemma {:induction false} PassesCutLast(numPairs: nat, values: seq<int>, flags: seq<bool>, matches: nat, picks: seq<Option<nat>>, k: nat)
    requires |flags| == |values| && PicksFit(picks, |values|) && k <= |picks|
    ensures var ps := Passes(numPairs, values, flags, matches, picks, k);
      forall i :: 0 <= i < |ps| - 1 ==> !CutShort(ps[i].outcome)
    decreases |picks| - k
  {
    if matches != numPairs {
      var t := TurnSpec(flags, values, picks, k);
      if !CutShort(t.outcome) {
        var m := if t.outcome == Match then matches + 1 else matches;
        var ps := Passes(numPairs, values, AfterTurn(flags, t), m, picks, t.next);
        assert Passes(numPairs, values, flags, matches, picks, k) == [t] + ps;
        PassesCutLast(numPairs, values, AfterTurn(flags, t), m, picks, t.next);
        assert var ps' := Passes(numPairs, values, AfterTurn(flags, t), m, picks, t.next); forall j :: 0 <= j < |ps'| - 1 ==> !CutShort(ps'[j].outcome);
        assert forall j :: 0 <= j < |ps| - 1 ==> !CutShort(ps[j].outcome);
        var all := [t] + ps;
        forall i | 0 <= i < |all| - 1 ensures !CutShort(all[i].outcome) {
          if i > 0 {
            assert all[i] == ps[i - 1];
            assert !CutShort(ps[i - 1].outcome);
          } else {
            assert all[i] == t;
          }
        }
      }
    }
  }

  /** The game is left waiting for input exactly when its last pass was cut short. */
  lemma {:induction false} PassesWait(numPairs: nat, values: seq<int>, flags: seq<bool>, matches: nat, tries: nat, picks: seq<Option<nat>>, k: nat)
    requires |flags| == |values| && PicksFit(picks, |values|) && k <= |picks|
    ensures var ps := Passes(numPairs, values, flags, matches, picks, k);
      Play(numPairs, values, flags, matches, tries, picks, k).waiting <==> ps != [] && CutShort(ps[|ps| - 1].outcome)
    decreases |picks| - k
  {
    if matches != numPairs {
      var t := TurnSpec(flags, values, picks, k);
      if !CutShort(t.outcome) {
        var m := if t.outcome == Match then matches + 1 else matches;
        var ps := Passes(numPairs, values, AfterTurn(flags, t), m, picks, t.next);
        assert Passes(numPairs, values, flags, matches, picks, k) == [t] + ps;
        assert Play(numPairs, values, flags, matches, tries, picks, k) == Play(numPairs, values, AfterTurn(flags, t), m, tries + 1, picks, t.next);
        PassesWait(numPairs, values, AfterTurn(flags, t), m, tries + 1, picks, t.next);
        var all := [t] + ps;
        if ps != [] {
          assert all[|all| - 1] == ps[|ps| - 1];
        } else {
          assert all[|all| - 1] == t;
        }
      }
    }
  }

  /**
   * The loop keeps its bookkeeping: matched cards come in pairs of equal
   * value, `matches` is half the number of matched cards, a flag once set
   * stays set, and when the loop ends every card is matched.
   */
  lemma {:induction false} PlayKeepsPairs(numPairs: nat, values: seq<int>, flags: seq<bool>, matches: nat, tries: nat, picks: seq<Option<nat>>, k: nat)
    requires Paired(values, numPairs) && Twinned(values, flags) && CountTrue(flags) == 2 * matches
    requires PicksFit(picks, |values|) && k <= |picks|
    ensures var g := Play(numPairs, values, flags, matches, tries, picks, k);
      Twinned(values, g.flags) && CountTrue(g.flags) == 2 * g.matches
      && (forall i :: 0 <= i < |flags| && flags[i] ==> g.flags[i])
      && (!g.waiting ==> forall i :: 0 <= i < |g.flags| ==> g.flags[i])
    decreases |picks| - k
  {
    var g := Play(numPairs, values, flags, matches, tries, picks, k);
    if matches == numPairs {
      AllMatched(flags, matches, numPairs);
    } else {
      var t := TurnSpec(flags, values, picks, k);
      if !CutShort(t.outcome) {
        var m := if t.outcome == Match then matches + 1 else matches;
        if t.outcome == Match {
          MatchKeepsTwinned(values, flags, numPairs, t.first, t.second);
        }
        assert g == Play(numPairs, values, AfterTurn(flags, t), m, tries + 1, picks, t.next);
        PlayKeepsPairs(numPairs, values, AfterTurn(flags, t), m, tries + 1, picks, t.next);
      }
    }
  }
}
