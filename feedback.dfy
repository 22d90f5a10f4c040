/**
 * The key-peg scoring of a Mastermind row (`Guess.check`), which is the same
 * code in all three Mastermind programs. A row of code pegs is compared with
 * the hidden code ("truth") in two passes: first the exact matches, then, among
 * the positions that did not match exactly, the colours that occur elsewhere in
 * the unmatched part of the code, each code peg backing at most one key.
 */
module Feedback {
  import opened Common

  const KEY_EXACT_COLOR: string := "red"
  const KEY_PARTIAL_COLOR: string := "grey"
  const EMPTY_FILL_COLOR: string := "white"

  /** The blank slot of a row that has not been given a colour yet. */
  const BLANK: string := ""

  predicate HasBlank(row: seq<string>)
  {
    BLANK in row
  }

  // ---------------------------------------------------------------------
  // Specification of the exact pass
  // ---------------------------------------------------------------------

  /** The number of positions below `i` where guess and truth agree. */
  function ExactUpTo(g: seq<string>, t: seq<string>, i: nat): (r: nat)
    requires i <= |g| && i <= |t|
    ensures r <= i
  {
    if i == 0 then 0 else ExactUpTo(g, t, i - 1) + (if g[i - 1] == t[i - 1] then 1 else 0)
  }

  /** The positions below `i` where guess and truth differ, in increasing order. */
  function UnmatchedIndices(g: seq<string>, t: seq<string>, i: nat): (r: seq<nat>)
    requires i <= |g| && i <= |t|
    ensures |r| + ExactUpTo(g, t, i) == i
    ensures forall k :: 0 <= k < |r| ==> r[k] < i
  {
    if i == 0 then []
    else UnmatchedIndices(g, t, i - 1) + (if g[i - 1] == t[i - 1] then [] else [i - 1])
  }

  /** The entries of `s` at the indices `ix`, in that order. */
  function Pick(s: seq<string>, ix: seq<nat>): (r: seq<string>)
    requires forall k :: 0 <= k < |ix| ==> ix[k] < |s|
    ensures |r| == |ix|
    ensures forall k :: 0 <= k < |ix| ==> r[k] == s[ix[k]]
  {
    seq(|ix|, k requires 0 <= k < |ix| => s[ix[k]])
  }

  /** The number of exact matches (red keys). */
  function Exact(g: seq<string>, t: seq<string>): (r: nat)
    requires |g| == |t|
    ensures r <= |g|
  {
    ExactUpTo(g, t, |g|)
  }

  /** The code pegs that were not matched exactly: `unmatched_truth` after the exact pass. */
  function UnmatchedTruth(g: seq<string>, t: seq<string>): seq<string>
    requires |g| == |t|
  {
    Pick(t, UnmatchedIndices(g, t, |g|))
  }

  /** The guess pegs at the positions that were not matched exactly. */
  function UnmatchedGuess(g: seq<string>, t: seq<string>): seq<string>
    requires |g| == |t|
  {
    Pick(g, UnmatchedIndices(g, t, |g|))
  }

  // ---------------------------------------------------------------------
  // Specification of the partial pass
  // ---------------------------------------------------------------------

  /** Python's `list.remove(x)`: drop the first occurrence of `x`. */
  function RemoveFirst(s: seq<string>, x: string): (r: seq<string>)
    requires x in s
    ensures |r| == |s| - 1
  {
    if s[0] == x then s[1..] else [s[0]] + RemoveFirst(s[1..], x)
  }

  /** `list.remove(x)` takes away exactly one `x`. */
  lemma {:induction false} RemoveFirstMultiset(s: seq<string>, x: string)
    requires x in s
    ensures multiset(RemoveFirst(s, x)) == multiset(s) - multiset{x}
  {
    assert s == [s[0]] + s[1..];
    if s[0] != x {
      RemoveFirstMultiset(s[1..], x);
    }
  }

  /**
   * The partial pass as the source runs it: walk the unmatched guess pegs in
   * order; each one found in the pool of unmatched code pegs is a partial key
   * and removes one occurrence from the pool.
   */
  function PartialPass(ug: seq<string>, pool: seq<string>): (r: nat)
    ensures r <= |ug| && r <= |pool|
  {
    if ug == [] then 0
    else if ug[0] in pool then 1 + PartialPass(ug[1..], RemoveFirst(pool, ug[0]))
    else PartialPass(ug[1..], pool)
  }

  /** The number of partial matches (grey keys). */
  function Partial(g: seq<string>, t: seq<string>): nat
    requires |g| == |t|
  {
    PartialPass(UnmatchedGuess(g, t), UnmatchedTruth(g, t))
  }

  /** The key-peg colours of a scored row: red keys, then grey keys, then white. */
  function KeyPegs(exact: nat, partial: nat, n: nat): (r: seq<string>)
    requires exact + partial <= n
    ensures |r| == n
    ensures forall i :: 0 <= i < exact ==> r[i] == KEY_EXACT_COLOR
    ensures forall i :: exact <= i < exact + partial ==> r[i] == KEY_PARTIAL_COLOR
    ensures forall i :: exact + partial <= i < n ==> r[i] == EMPTY_FILL_COLOR
  {
    Repeat(KEY_EXACT_COLOR, exact) + Repeat(KEY_PARTIAL_COLOR, partial)
      + Repeat(EMPTY_FILL_COLOR, n - exact - partial)
  }

  // ---------------------------------------------------------------------
  // Properties of the scoring
  // ---------------------------------------------------------------------

  /** The exact pass sends every non-exact position's code peg to `unmatched_truth`. */
  lemma ExactPlusUnmatched(g: seq<string>, t: seq<string>)
    requires |g| == |t|
    ensures Exact(g, t) + |UnmatchedTruth(g, t)| == |g|
    ensures |UnmatchedGuess(g, t)| == |UnmatchedTruth(g, t)|
  {
  }

  /** Red plus grey keys never exceed the number of pegs, so `peg_colors[i]` stays in range. */
  lemma ScoreBound(g: seq<string>, t: seq<string>)
    requires |g| == |t|
    ensures Exact(g, t) + Partial(g, t) <= |g|
  {
    ExactPlusUnmatched(g, t);
  }

  /** Removing one occurrence of a present element shrinks the multiset by exactly that element. */
  lemma IntersectionStep(x: string, r: multiset<string>, p: multiset<string>)
    ensures x in p ==> (multiset{x} + r) * p == multiset{x} + r * (p - multiset{x})
    ensures x !in p ==> (multiset{x} + r) * p == r * p
  {
    if x in p {
      var lhs := (multiset{x} + r) * p;
      var rhs := multiset{x} + r * (p - multiset{x});
      forall y ensures lhs[y] == rhs[y] {
        if y == x {
          assert lhs[y] == if r[y] + 1 <= p[y] then r[y] + 1 else p[y];
          assert rhs[y] == 1 + (if r[y] <= p[y] - 1 then r[y] else p[y] - 1);
        }
      }
      assert lhs == rhs;
    } else {
      var lhs := (multiset{x} + r) * p;
      forall y ensures lhs[y] == (r * p)[y] {
        if y == x { assert p[y] == 0; }
      }
      assert lhs == r * p;
    }
  }

  /**
   * The partial pass counts the common part of the two multisets of unmatched
   * pegs: the number of grey keys is the size of their multiset intersection.
   */
  lemma {:induction false} PartialPassIsIntersection(ug: seq<string>, pool: seq<string>)
    ensures PartialPass(ug, pool) == |multiset(ug) * multiset(pool)|
  {
    if ug != [] {
      var x := ug[0];
      assert ug == [x] + ug[1..];
      assert multiset(ug) == multiset{x} + multiset(ug[1..]);
      IntersectionStep(x, multiset(ug[1..]), multiset(pool));
      if x in pool {
        RemoveFirstMultiset(pool, x);
        PartialPassIsIntersection(ug[1..], RemoveFirst(pool, x));
        calc {
          |multiset(ug) * multiset(pool)|;
          |multiset{x} + multiset(ug[1..]) * (multiset(pool) - multiset{x})|;
          1 + |multiset(ug[1..]) * multiset(RemoveFirst(pool, x))|;
        }
      } else {
        PartialPassIsIntersection(ug[1..], pool);
      }
    }
  }

  /** The order in which partial matches are discovered does not change their number. */
  lemma PartialOrderIndependent(ug: seq<string>, ug': seq<string>, pool: seq<string>, pool': seq<string>)
    requires multiset(ug) == multiset(ug') && multiset(pool) == multiset(pool')
    ensures PartialPass(ug, pool) == PartialPass(ug', pool')
  {
    PartialPassIsIntersection(ug, pool);
    PartialPassIsIntersection(ug', pool');
  }

  /** The number of positions below `i` that match exactly equals `i` only if all of them do. */
  lemma {:induction false} ExactUpToAll(g: seq<string>, t: seq<string>, i: nat)
    requires i <= |g| && i <= |t|
    ensures ExactUpTo(g, t, i) == i <==> g[..i] == t[..i]
  {
    if i > 0 {
      ExactUpToAll(g, t, i - 1);
      assert g[..i] == g[..i - 1] + [g[i - 1]];
      assert t[..i] == t[..i - 1] + [t[i - 1]];
      if g[..i] == t[..i] {
        assert g[..i - 1] == g[..i][..i - 1];
        assert t[..i - 1] == t[..i][..i - 1];
        assert g[i - 1] == g[..i][i - 1];
      }
    }
  }

  /** `check` returns true exactly when every key is red. */
  lemma CorrectIffAllExact(g: seq<string>, t: seq<string>)
    requires |g| == |t|
    ensures g == t <==> Exact(g, t) == |g|
  {
    ExactUpToAll(g, t, |g|);
    assert g[..|g|] == g;
    assert t[..|t|] == t;
  }

  /** Every index the exact pass leaves unmatched is a position where guess and code differ. */
  lemma {:induction false} UnmatchedIndicesDiffer(g: seq<string>, t: seq<string>, i: nat)
    requires i <= |g| && i <= |t|
    ensures forall k :: 0 <= k < |UnmatchedIndices(g, t, i)| ==>
      g[UnmatchedIndices(g, t, i)[k]] != t[UnmatchedIndices(g, t, i)[k]]
  {
    if i > 0 {
      UnmatchedIndicesDiffer(g, t, i - 1);
      var prev := UnmatchedIndices(g, t, i - 1);
      var ext: seq<nat> := if g[i - 1] == t[i - 1] then [] else [i - 1];
      var ix := UnmatchedIndices(g, t, i);
      assert ix == prev + ext;
      forall k | 0 <= k < |ix|
        ensures g[ix[k]] != t[ix[k]]
      {
        if k < |prev| {
          assert ix[k] == prev[k] && g[prev[k]] != t[prev[k]];
        } else {
          assert ix[k] == ext[k - |prev|];
        }
      }
    }
  }

  /** Every position unmatched: the unmatched lists are empty when the row equals the code. */
  lemma {:induction false} UnmatchedEmptyWhenEqual(s: seq<string>, i: nat)
    requires i <= |s|
    ensures UnmatchedIndices(s, s, i) == []
  {
    if i > 0 { UnmatchedEmptyWhenEqual(s, i - 1); }
  }

  /** A row identical to the code scores all red and no grey. */
  lemma SelfScore(s: seq<string>)
    ensures Exact(s, s) == |s| && Partial(s, s) == 0
  {
    CorrectIffAllExact(s, s);
    UnmatchedEmptyWhenEqual(s, |s|);
  }

  /** The number of non-blank entries of a row. */
  function NonBlank(s: seq<string>): (r: nat)
    ensures r <= |s|
  {
    if s == [] then 0 else (if s[0] == BLANK then 0 else 1) + NonBlank(s[1..])
  }

  /** With no blank in the pool, a blank guess peg never earns a grey key. */
  lemma {:induction false} PartialIgnoresBlanks(ug: seq<string>, pool: seq<string>)
    requires BLANK !in pool
    ensures PartialPass(ug, pool) <= NonBlank(ug)
  {
    if ug != [] {
      if ug[0] in pool {
        var pool' := RemoveFirst(pool, ug[0]);
        RemoveFirstMultiset(pool, ug[0]);
        assert multiset(pool)[BLANK] == 0;
        assert multiset(pool')[BLANK] == 0;
        PartialIgnoresBlanks(ug[1..], pool');
      } else {
        PartialIgnoresBlanks(ug[1..], pool);
      }
    }
  }

  /** Non-blank count of a guess split into its exact positions and its unmatched positions. */
  lemma {:induction false} NonBlankSplit(g: seq<string>, t: seq<string>, i: nat)
    requires i <= |g| == |t|
    requires BLANK !in t
    ensures ExactUpTo(g, t, i) + NonBlank(Pick(g, UnmatchedIndices(g, t, i))) == NonBlank(g[..i])
  {
    if i > 0 {
      NonBlankSplit(g, t, i - 1);
      var ix := UnmatchedIndices(g, t, i - 1);
      var ix' := UnmatchedIndices(g, t, i);
      NonBlankAppend(g[..i - 1], g[i - 1]);
      assert g[..i] == g[..i - 1] + [g[i - 1]];
      if g[i - 1] == t[i - 1] {
        assert ix' == ix;
        assert g[i - 1] != BLANK by { assert t[i - 1] in t; }
      } else {
        assert ix' == ix + [i - 1];
        assert Pick(g, ix') == Pick(g, ix) + [g[i - 1]];
        NonBlankAppend(Pick(g, ix), g[i - 1]);
      }
    }
  }

  lemma {:induction false} NonBlankAppend(s: seq<string>, x: string)
    ensures NonBlank(s + [x]) == NonBlank(s) + (if x == BLANK then 0 else 1)
  {
    if s != [] {
      assert (s + [x])[1..] == s[1..] + [x];
      NonBlankAppend(s[1..], x);
    } else {
      assert [x][1..] == [];
    }
  }

  /**
   * A row scored while it still has blanks (the desktop programs allow this):
   * blank slots earn neither a red nor a grey key, as long as the code itself
   * has no blank peg.
   */
  lemma BlanksScoreNothing(g: seq<string>, t: seq<string>)
    requires |g| == |t| && BLANK !in t
    ensures Exact(g, t) + Partial(g, t) <= NonBlank(g)
  {
    assert BLANK !in UnmatchedTruth(g, t);
    PartialIgnoresBlanks(UnmatchedGuess(g, t), UnmatchedTruth(g, t));
    NonBlankSplit(g, t, |g|);
    assert g[..|g|] == g;
  }

  /**
   * Duplicate colours, guess first and code second, for any four distinct
   * colours R, G, B, Y: against the code R-R-G-B, the guess R-G-G-G matches
   * exactly at positions 0 and 2 and earns no grey key.
   */
  lemma DuplicateExactExample(R: string, G: string, B: string)
    requires R != G && R != B && G != B
    ensures Exact([R, G, G, G], [R, R, G, B]) == 2
    ensures Partial([R, G, G, G], [R, R, G, B]) == 0
  {
    var t := [R, R, G, B];
    var g := [R, G, G, G];
    assert UnmatchedIndices(g, t, 2) == [1];
    assert UnmatchedIndices(g, t, 4) == [1, 3];
    assert UnmatchedGuess(g, t) == [G, G];
    assert UnmatchedTruth(g, t) == [R, B];
    assert [G, G][1..] == [G];
    assert PartialPass([G], [R, B]) == PartialPass([], [R, B]) == 0;
  }

  /**
   * Against the same code, the guess G-G-R-Y earns two grey keys: its second G
   * finds no G left in the pool, because the first one consumed it.
   */
  lemma DuplicatePartialExample(R: string, G: string, B: string, Y: string)
    requires R != G && R != B && R != Y && G != B && G != Y && B != Y
    ensures Exact([G, G, R, Y], [R, R, G, B]) == 0
    ensures Partial([G, G, R, Y], [R, R, G, B]) == 2
  {
    var t := [R, R, G, B];
    var g := [G, G, R, Y];
    assert UnmatchedIndices(g, t, 2) == [0, 1];
    assert UnmatchedIndices(g, t, 4) == [0, 1, 2, 3];
    assert UnmatchedGuess(g, t) == g;
    assert UnmatchedTruth(g, t) == t;
    DuplicatePartialPass(R, G, B, Y);
  }

  lemma DuplicatePartialPass(R: string, G: string, B: string, Y: string)
    requires R != G && R != B && R != Y && G != B && G != Y && B != Y
    ensures PartialPass([G, G, R, Y], [R, R, G, B]) == 2
  {
    var pool := RemoveFirst([R, R, G, B], G);
    RemovalSteps(R, G, B);
    assert pool == [R, R, B];
    assert RemoveFirst(pool, R) == [R, B];
    assert [Y][1..] == [];
    assert PartialPass([Y], [R, B]) == 0;
    assert [R, Y][1..] == [Y];
    assert PartialPass([R, Y], pool) == 1;
    assert [G, R, Y][1..] == [R, Y];
    assert PartialPass([G, R, Y], pool) == 1;
    assert [G, G, R, Y][1..] == [G, R, Y];
  }

  lemma RemovalSteps(R: string, G: string, B: string)
    requires R != G && R != B && G != B
    ensures RemoveFirst([R, R, G, B], G) == [R, R, B]
  {
    assert [R, R, G, B][1..] == [R, G, B];
    assert [R, G, B][1..] == [G, B];
    assert RemoveFirst([G, B], G) == [B];
    assert RemoveFirst([R, G, B], G) == [R, B];
  }

  /** Two swapped colours (the code R-O-Y-G, the guess R-Y-O-G): two red keys and two grey keys. */
  lemma SwappedPairExample(R: string, O: string, Y: string, G: string)
    requires R != O && R != Y && R != G && O != Y && O != G && Y != G
    ensures Exact([R, Y, O, G], [R, O, Y, G]) == 2
    ensures Partial([R, Y, O, G], [R, O, Y, G]) == 2
  {
    var t := [R, O, Y, G];
    var g := [R, Y, O, G];
    assert UnmatchedIndices(g, t, 3) == [1, 2];
    assert UnmatchedIndices(g, t, 4) == [1, 2];
    assert UnmatchedGuess(g, t) == [Y, O];
    assert UnmatchedTruth(g, t) == [O, Y];
    assert [O, Y][1..] == [Y];
    assert RemoveFirst([O, Y], Y) == [O];
    assert [O][1..] == [];
    assert PartialPass([O], [O]) == 1 + PartialPass([], []);
    assert [Y, O][1..] == [O];
    assert PartialPass([Y, O], [O, Y]) == 2;
  }

  // ---------------------------------------------------------------------
  // The scoring loop of `Guess.check`
  // ---------------------------------------------------------------------

  /** The exact pass: a red key per agreeing position, and the other positions with their code colours. */
  method MatchExact(guesses: seq<string>, truth: seq<string>)
    returns (keyMatches: seq<string>, unmatchedIndices: seq<nat>, unmatchedTruth: seq<string>)
    requires |guesses| == |truth|
    ensures keyMatches == Repeat(KEY_EXACT_COLOR, Exact(guesses, truth))
    ensures unmatchedIndices == UnmatchedIndices(guesses, truth, |guesses|)
    ensures unmatchedTruth == UnmatchedTruth(guesses, truth)
  {
    keyMatches, unmatchedIndices, unmatchedTruth := [], [], [];
    for i := 0 to |guesses|
      invariant keyMatches == Repeat(KEY_EXACT_COLOR, ExactUpTo(guesses, truth, i))
      invariant unmatchedIndices == UnmatchedIndices(guesses, truth, i)
      invariant unmatchedTruth == Pick(truth, unmatchedIndices)
    {
      if guesses[i] == truth[i] {
        keyMatches := keyMatches + [KEY_EXACT_COLOR];
      } else {
        assert Pick(truth, unmatchedIndices + [i]) == Pick(truth, unmatchedIndices) + [truth[i]];
        unmatchedIndices := unmatchedIndices + [i];
        unmatchedTruth := unmatchedTruth + [truth[i]];
      }
    }
  }

  /**
   * The partial pass: a grey key for each unmatched guess peg still in the
   * pool of unmatched code colours, which then loses one occurrence of it.
   */
  method MatchPartial(guesses: seq<string>, unmatchedIndices: seq<nat>, unmatchedTruth: seq<string>, keyMatches: seq<string>)
    returns (keyMatches': seq<string>)
    requires forall k :: 0 <= k < |unmatchedIndices| ==> unmatchedIndices[k] < |guesses|
    ensures keyMatches' == keyMatches + Repeat(KEY_PARTIAL_COLOR, PartialPass(Pick(guesses, unmatchedIndices), unmatchedTruth))
  {
    ghost var ug := Pick(guesses, unmatchedIndices);
    ghost var partial := 0;
    var pool := unmatchedTruth;
    keyMatches' := keyMatches;
    for k := 0 to |unmatchedIndices|
      invariant keyMatches' == keyMatches + Repeat(KEY_PARTIAL_COLOR, partial)
      invariant partial + PartialPass(ug[k..], pool) == PartialPass(ug, unmatchedTruth)
    {
      var i := unmatchedIndices[k];
      assert ug[k..][1..] == ug[k + 1..];
      if guesses[i] in pool {
        keyMatches' := keyMatches' + [KEY_PARTIAL_COLOR];
        pool := RemoveFirst(pool, guesses[i]);
        partial := partial + 1;
      }
    }
  }

  /** `peg_colors`: the keys earned, in order, then white up to one per code peg. */
  method FillPegs(keyMatches: seq<string>, n: nat) returns (pegColors: seq<string>)
    requires |keyMatches| <= n
    ensures |pegColors| == n
    ensures forall j :: 0 <= j < |keyMatches| ==> pegColors[j] == keyMatches[j]
    ensures forall j :: |keyMatches| <= j < n ==> pegColors[j] == EMPTY_FILL_COLOR
  {
    pegColors := Repeat(EMPTY_FILL_COLOR, n);
    for i := 0 to |keyMatches|
      invariant |pegColors| == n
      invariant forall j :: 0 <= j < i ==> pegColors[j] == keyMatches[j]
      invariant forall j :: i <= j < n ==> pegColors[j] == EMPTY_FILL_COLOR
    {
      pegColors := pegColors[i := keyMatches[i]];
    }
  }

  /**
   * The body of `Guess.check` without its drawing: the exact pass, the partial
   * pass with one removal per grey key, and the filling of `peg_colors`.
   * Returns the key-peg colours and whether the row equals the code.
   */
  method Check(guesses: seq<string>, truth: seq<string>) returns (pegColors: seq<string>, correct: bool)
    requires |guesses| == |truth|
    ensures Exact(guesses, truth) + Partial(guesses, truth) <= |guesses|
    ensures pegColors == KeyPegs(Exact(guesses, truth), Partial(guesses, truth), |guesses|)
    ensures correct <==> Exact(guesses, truth) == |guesses|
    ensures correct <==> guesses == truth
  {
    var keyMatches, unmatchedIndices, unmatchedTruth := MatchExact(guesses, truth);
    keyMatches := MatchPartial(guesses, unmatchedIndices, unmatchedTruth, keyMatches);
    ScoreBound(guesses, truth);
    pegColors := FillPegs(keyMatches, |guesses|);
    assert pegColors == KeyPegs(Exact(guesses, truth), Partial(guesses, truth), |guesses|);
    correct := guesses == truth;
    CorrectIffAllExact(guesses, truth);
  }
}
