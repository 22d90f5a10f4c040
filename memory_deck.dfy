/**
 * What the three memory games share: a deck holding every value
 * `0 .. numPairs - 1` exactly twice, its shuffle, and the bookkeeping of
 * matched cards, where a successful turn flags two unmatched cards of equal
 * value and adds one to `matches`.
 */
module MemoryDeck {
  import opened Common

  /** The deck the games build: `0, 0, 1, 1, ..., numPairs - 1, numPairs - 1`. */
  function PairedDeck(numPairs: nat): (r: seq<int>)
    ensures |r| == 2 * numPairs && forall k :: 0 <= k < |r| ==> 0 <= r[k] < numPairs
  {
    seq(2 * numPairs, k => k / 2)
  }

  /** Every value below `numPairs` occurs exactly twice and no other value occurs. */
  predicate Paired(values: seq<int>, numPairs: nat)
  {
    |values| == 2 * numPairs
    && (forall i :: 0 <= i < |values| ==> 0 <= values[i] < numPairs)
    && (forall v :: 0 <= v < numPairs ==> multiset(values)[v] == 2)
  }

  /** The loop `for i in range(NUM_PAIRS): truth.append(i); truth.append(i)`. */
  method BuildTruth(numPairs: nat) returns (truth: seq<int>)
    ensures truth == PairedDeck(numPairs) && Paired(truth, numPairs)
  {
    truth := [];
    for i := 0 to numPairs
      invariant truth == PairedDeck(i)
    {
      truth := truth + [i] + [i];
      assert truth == PairedDeck(i + 1) by {
        forall k | 0 <= k < 2 * (i + 1) ensures truth[k] == k / 2 {
          if k < 2 * i { assert truth[k] == PairedDeck(i)[k]; }
        }
      }
    }
    PairedDeckIsPaired(numPairs);
  }

  lemma {:induction false} PairedDeckIsPaired(numPairs: nat)
    ensures Paired(PairedDeck(numPairs), numPairs)
  {
    if numPairs > 0 {
      var n := numPairs - 1;
      PairedDeckIsPaired(n);
      var d := PairedDeck(numPairs);
      assert d == PairedDeck(n) + [n, n];
      assert multiset(d) == multiset(PairedDeck(n)) + multiset{n, n};
      forall v | 0 <= v < numPairs ensures multiset(d)[v] == 2 {
        if v < n {
          assert multiset(d)[v] == multiset(PairedDeck(n))[v];
        } else {
          assert v !in PairedDeck(n);
          assert multiset(PairedDeck(n))[v] == 0;
        }
      }
    }
  }

  /** `random.shuffle`: any rearrangement of the deck may come out. */
  method Shuffle<T(==)>(s: seq<T>) returns (t: seq<T>)
    ensures multiset(t) == multiset(s) && |t| == |s|
  {
    t :| multiset(t) == multiset(s);
    assert |t| == |multiset(t)| == |multiset(s)| == |s|;
  }

  /** A sequence without repeats holds each element at most once. */
  lemma {:induction false} DistinctAtMostOnce<T>(s: seq<T>, x: T)
    requires Distinct(s)
    ensures multiset(s)[x] <= 1
  {
    if s != [] {
      assert s == [s[0]] + s[1..];
      assert Distinct(s[1..]) by {
        forall i, j | 0 <= i < j < |s[1..]| ensures s[1..][i] != s[1..][j] {
          assert s[1..][i] == s[i + 1] && s[1..][j] == s[j + 1];
        }
      }
      DistinctAtMostOnce(s[1..], x);
      if x == s[0] {
        assert x !in s[1..] by {
          forall i | 0 <= i < |s[1..]| ensures s[1..][i] != x { assert s[1..][i] == s[i + 1]; }
        }
      }
    }
  }

  /** A rearrangement of a sequence without repeats has no repeats. */
  lemma ShuffleKeepsDistinct<T>(s: seq<T>, t: seq<T>)
    requires Distinct(s) && multiset(t) == multiset(s)
    ensures Distinct(t)
  {
    forall i, j | 0 <= i < j < |t| ensures t[i] != t[j] {
      if t[i] == t[j] {
        assert t == t[..j] + t[j..];
        assert t[..j] == t[..i] + t[i..j];
        assert multiset(t[i..j])[t[i]] >= 1 by { assert t[i..j][0] in multiset(t[i..j]); }
        assert multiset(t[j..])[t[i]] >= 1 by { assert t[j..][0] in multiset(t[j..]); }
        DistinctAtMostOnce(s, t[i]);
        assert false;
      }
    }
  }

  /** Shuffling keeps the deck paired. */
  lemma ShuffleKeepsPaired(s: seq<int>, t: seq<int>, numPairs: nat)
    requires Paired(s, numPairs) && multiset(t) == multiset(s) && |t| == |s|
    ensures Paired(t, numPairs)
  {
    forall i | 0 <= i < |t| ensures 0 <= t[i] < numPairs {
      assert t[i] in multiset(t);
      var k :| 0 <= k < |s| && s[k] == t[i];
    }
  }

  // ---------------------------------------------------------------------
  // Matched cards
  // ---------------------------------------------------------------------

  /** A card is matched exactly when its twin, the other card of its value, is. */
  predicate Twinned(values: seq<int>, flags: seq<bool>)
  {
    |flags| == |values|
    && forall i, j :: 0 <= i < |values| && 0 <= j < |values| && values[i] == values[j] ==> flags[i] == flags[j]
  }

  /** Three different positions holding the same value make it occur at least three times. */
  lemma {:induction false} ThreeOccurrences(s: seq<int>, i: nat, j: nat, k: nat)
    requires i < j < k < |s| && s[i] == s[j] == s[k]
    ensures multiset(s)[s[i]] >= 3
  {
    var v := s[i];
    assert s == s[..j] + s[j..];
    assert s[..j] == s[..i] + s[i..j];
    assert s[j..] == s[j..k] + s[k..];
    assert s[i..j][0] == v && s[j..k][0] == v && s[k..][0] == v;
    assert multiset(s[i..j])[v] >= 1 by { assert s[i..j][0] in multiset(s[i..j]); }
    assert multiset(s[j..k])[v] >= 1 by { assert s[j..k][0] in multiset(s[j..k]); }
    assert multiset(s[k..])[v] >= 1 by { assert s[k..][0] in multiset(s[k..]); }
  }

  /**
   * A successful turn: flagging two different unmatched cards of the same
   * value keeps the twins together and flags exactly two more cards.
   */
  lemma MatchKeepsTwinned(values: seq<int>, flags: seq<bool>, numPairs: nat, i: nat, j: nat)
    requires Paired(values, numPairs) && Twinned(values, flags)
    requires i < |values| && j < |values| && i != j && values[i] == values[j] && !flags[i]
    ensures Twinned(values, flags[i := true][j := true])
    ensures CountTrue(flags[i := true][j := true]) == CountTrue(flags) + 2
  {
    var f := flags[i := true][j := true];
    forall a, b | 0 <= a < |values| && 0 <= b < |values| && values[a] == values[b]
      ensures f[a] == f[b]
    {
      if (a == i || a == j) && b != i && b != j {
        OnlyTwo(values, numPairs, i, j, b);
      } else if (b == i || b == j) && a != i && a != j {
        OnlyTwo(values, numPairs, i, j, a);
      }
    }
    assert !flags[j];
    CountTrueSet(flags, i);
    CountTrueSet(flags[i := true], j);
  }

  /** In a paired deck, two positions of one value leave no third. */
  lemma OnlyTwo(values: seq<int>, numPairs: nat, i: nat, j: nat, k: nat)
    requires Paired(values, numPairs)
    requires i < |values| && j < |values| && k < |values| && i != j && k != i && k != j
    requires values[i] == values[j]
    ensures values[k] != values[i]
  {
    if values[k] == values[i] {
      var a, b, c := i, j, k;
      if a > b { a, b := b, a; }
      if b > c { b, c := c, b; }
      if a > b { a, b := b, a; }
      ThreeOccurrences(values, a, b, c);
      assert false;
    }
  }

  /** Once `matches` reaches the number of pairs, every card is matched. */
  lemma AllMatched(flags: seq<bool>, matches: nat, numPairs: nat)
    requires |flags| == 2 * numPairs && CountTrue(flags) == 2 * matches && matches == numPairs
    ensures forall i :: 0 <= i < |flags| ==> flags[i]
  {
    CountTrueFull(flags);
  }

  /** No card is matched at the start. */
  lemma NoneMatched(numPairs: nat, values: seq<int>)
    requires |values| == 2 * numPairs
    ensures Twinned(values, Repeat(false, 2 * numPairs)) && CountTrue(Repeat(false, 2 * numPairs)) == 0
  {
    CountTrueNone(2 * numPairs);
  }
}
