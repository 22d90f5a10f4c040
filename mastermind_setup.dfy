/**
 * What the mobile and the desktop Mastermind programs share before a row is
 * played: the difficulty table, the mode label, the draw of the hidden code and
 * the kinds of canvas objects a click can land on.
 */
module MastermindSetup {
  import opened Common
  import opened Feedback

  const NUM_CIRCLES: nat := 4
  const MAX_GUESSES: nat := 12

  const COLORS: seq<string> := ["red", "orange", "#FEF250", "green", "blue", "purple"]
  const MEDIUM_COLORS: seq<string> := ["salmon"]
  const HARD_COLORS: seq<string> := ["salmon", "brown", "black"]

  /** The settings a game is played with: pegs per row, palette and number of rows. */
  datatype Config = Config(numPegs: nat, colors: seq<string>, maxGuesses: nat)

  /**
   * The branch at the top of `play_mastermind`: 2 is medium, 3 is hard, 4 is
   * expert and every other value keeps the easy defaults.
   */
  function Configure(difficulty: int): (c: Config)
    ensures 1 <= c.numPegs <= |c.colors|
    ensures 1 <= c.maxGuesses <= MAX_GUESSES
    ensures |c.colors| >= |COLORS| && c.colors[..|COLORS|] == COLORS
    ensures c.numPegs != NUM_CIRCLES ==> difficulty == 4
  {
    if difficulty == 2 then Config(NUM_CIRCLES, COLORS + MEDIUM_COLORS, MAX_GUESSES - 2)
    else if difficulty == 3 then Config(NUM_CIRCLES, COLORS + HARD_COLORS, MAX_GUESSES - 4)
    else if difficulty == 4 then Config(6, COLORS + HARD_COLORS, MAX_GUESSES)
    else Config(NUM_CIRCLES, COLORS, MAX_GUESSES)
  }

  /** The four rows of the table, as the header comment of `play_mastermind` lists them (except expert's rows). */
  lemma ConfigureTable()
    ensures Configure(1) == Config(4, COLORS, 12)
    ensures Configure(2).numPegs == 4 && |Configure(2).colors| == 7 && Configure(2).maxGuesses == 10
    ensures Configure(3).numPegs == 4 && |Configure(3).colors| == 9 && Configure(3).maxGuesses == 8
    ensures Configure(4).numPegs == 6 && |Configure(4).colors| == 9 && Configure(4).maxGuesses == 12
    ensures forall d :: d !in {2, 3, 4} ==> Configure(d) == Configure(1)
  {
  }

  /** The label drawn by `display_difficulty`. */
  function DisplayDifficulty(difficulty: int): (text: string)
    ensures |text| > 6 && text[..6] == "mode: "
  {
    "mode: " + (if difficulty == 2 then "MEDIUM"
                else if difficulty == 3 then "HARD"
                else if difficulty == 4 then "EXPERT"
                else "EASY")
  }

  /** The label and the configuration make the same case split: equal labels, equal settings. */
  lemma LabelMatchesConfig(d: int, e: int)
    ensures DisplayDifficulty(d) == DisplayDifficulty(e) <==> Configure(d) == Configure(e)
  {
    var M, H, X, E := "MEDIUM", "HARD", "EXPERT", "EASY";
    assert M[0] != H[0] && M[0] != X[0] && M[0] != E[0];
    assert H[0] != X[0];
    assert H[0] != E[0];
    assert X[1] != E[1];
    if DisplayDifficulty(d) == DisplayDifficulty(e) {
      assert DisplayDifficulty(d)[6..] == DisplayDifficulty(e)[6..];
    }
  }

  /** No palette offers a colour twice, so a code drawn without duplicates has distinct pegs. */
  lemma PaletteDistinct(d: int)
    ensures Distinct(Configure(d).colors)
  {
    var c := COLORS + HARD_COLORS;
    assert c[0][0] == 'r' && c[1][0] == 'o' && c[2][0] == '#' && c[3][0] == 'g' && c[4][0] == 'b';
    assert c[5][0] == 'p' && c[6][0] == 's' && c[7][0] == 'b' && c[8][0] == 'b';
    assert c[4][1] == 'l' && c[7][1] == 'r' && c[8][1] == 'l' && |c[4]| != |c[8]|;
    assert Distinct(c);
    assert COLORS + MEDIUM_COLORS == c[..7];
    assert COLORS == c[..6];
  }

  /** Every palette colour is a real colour name: none is the blank slot. */
  lemma PaletteHasNoBlank(d: int)
    ensures BLANK !in Configure(d).colors
  {
    var c := Configure(d).colors;
    forall i | 0 <= i < |c| ensures c[i] != BLANK {
      assert |c[i]| > 0;
    }
  }

  /**
   * The hidden code. With duplicates allowed every peg is a `random.choice`
   * from the palette; otherwise `random.sample` draws `numPegs` different
   * positions of the palette. The generator is not modelled: any draw the
   * library could make may come out.
   */
  method DrawSecret(colors: seq<string>, numPegs: nat, hasDuplicates: bool) returns (truth: seq<string>)
    requires hasDuplicates && numPegs > 0 ==> |colors| > 0
    requires !hasDuplicates ==> numPegs <= |colors|
    ensures |truth| == numPegs
    ensures forall i :: 0 <= i < numPegs ==> truth[i] in colors
    ensures !hasDuplicates && Distinct(colors) ==> Distinct(truth)
  {
    if hasDuplicates {
      var w: seq<nat> := Repeat(0, numPegs);
      assert forall k :: 0 <= k < numPegs ==> w[k] < |colors|;
      var ix: seq<nat> :| |ix| == numPegs && forall k :: 0 <= k < numPegs ==> ix[k] < |colors|;
      truth := Pick(colors, ix);
    } else {
      assert Distinct(seq(numPegs, k => k));
      var ix: seq<nat> :| |ix| == numPegs && Distinct(ix) && forall k :: 0 <= k < numPegs ==> ix[k] < |colors|;
      truth := Pick(colors, ix);
      if Distinct(colors) {
        forall i, j | 0 <= i < j < numPegs ensures truth[i] != truth[j] {
          assert Distinct(ix);
          assert ix[i] != ix[j];
        }
      }
    }
  }

  // ---------------------------------------------------------------------
  // A row of code pegs
  // ---------------------------------------------------------------------

  /** `n` consecutive canvas ids starting at `first`: the code pegs `render` creates. */
  function Ids(first: int, n: nat): (r: seq<int>)
    ensures |r| == n && Distinct(r)
    ensures forall i :: 0 <= i < n ==> first <= r[i] < first + n
  {
    seq(n, i => first + i)
  }

  /** Two rows of code pegs that share no canvas id. */
  predicate Apart(a: seq<int>, b: seq<int>)
  {
    forall x, y :: 0 <= x < |a| && 0 <= y < |b| ==> a[x] != b[y]
  }

  /**
   * The ids of row `j` when rows of `n` pegs are drawn one after another
   * from the canvas id `first` on.
   */
  function RowIds(first: int, n: nat, j: nat): (r: seq<int>)
    ensures |r| == n && Distinct(r)
  {
    Ids(first + j * n, n)
  }

  /** Rows drawn one after another never share a code peg. */
  lemma RowIdsApart(first: int, n: nat, j: nat, k: nat)
    requires j < k
    ensures Apart(RowIds(first, n, j), RowIds(first, n, k))
  {
    assert j * n + n <= k * n by {
      assert k * n == j * n + n + (k - j - 1) * n;
    }
  }

  /** `set_guess`'s loop: every slot whose code peg is `code` takes `color`. */
  function SetSlots(guesses: seq<string>, codes: seq<int>, code: int, color: string): seq<string>
    requires |codes| <= |guesses|
  {
    seq(|guesses|, i requires 0 <= i < |guesses| =>
      if i < |codes| && codes[i] == code then color else guesses[i])
  }

  /** With distinct code pegs, `set_guess` writes exactly the slot clicked and no other. */
  lemma SetSlotsOnlyClicked(guesses: seq<string>, codes: seq<int>, code: int, color: string)
    requires |codes| <= |guesses| && Distinct(codes)
    ensures |SetSlots(guesses, codes, code, color)| == |guesses|
    ensures forall i :: 0 <= i < |codes| && codes[i] == code ==>
      SetSlots(guesses, codes, code, color) == guesses[i := color]
    ensures code !in codes ==> SetSlots(guesses, codes, code, color) == guesses
  {
    var r := SetSlots(guesses, codes, code, color);
    forall i | 0 <= i < |codes| && codes[i] == code
      ensures r == guesses[i := color]
    {
      forall j | 0 <= j < |guesses| ensures r[j] == guesses[i := color][j] {
        if j != i && j < |codes| {
          assert codes[j] != codes[i];
        }
      }
    }
  }

  /** A new row is all blank, so it has blanks as soon as it has a slot. */
  lemma NewRowHasBlanks(n: nat)
    ensures HasBlank(Repeat(BLANK, n)) <==> n > 0
  {
    if n > 0 { assert Repeat(BLANK, n)[0] == BLANK; }
  }

  /** The key pegs `check` draws for the row `g` against the code `t`. */
  function Keys(g: seq<string>, t: seq<string>): (r: seq<string>)
    requires |g| == |t|
    ensures |r| == |g|
  {
    ScoreBound(g, t);
    KeyPegs(Exact(g, t), Partial(g, t), |g|)
  }

  /** All key pegs are red exactly when the row equals the code: the pegs show the win. */
  lemma AllRedIffCorrect(g: seq<string>, t: seq<string>)
    requires |g| == |t|
    ensures Keys(g, t) == Repeat(KEY_EXACT_COLOR, |g|) <==> g == t
  {
    CorrectIffAllExact(g, t);
    ScoreBound(g, t);
    var e := Exact(g, t);
    var k := Keys(g, t);
    if e < |g| {
      assert KEY_PARTIAL_COLOR[0] != KEY_EXACT_COLOR[0];
      assert KEY_EXACT_COLOR != EMPTY_FILL_COLOR by { assert KEY_EXACT_COLOR[0] != EMPTY_FILL_COLOR[0]; }
      assert k[e] != KEY_EXACT_COLOR;
    } else {
      assert k == Repeat(KEY_EXACT_COLOR, |g|);
    }
  }

  // ---------------------------------------------------------------------
  // Clicks
  // ---------------------------------------------------------------------

  /**
   * What a canvas object under the mouse can be: the active row's Check
   * button (its rectangle on desktop, any of its four items on mobile), a
   * palette swatch (by its colour), a code peg (by its canvas id), the
   * desktop programs' colour dragger, or anything else.
   */
  datatype Target = CheckButton | Swatch(color: string) | CodePeg(id: int) | Dragger | Other

  /** Python truthiness of `selected_color`: set and not the empty string. */
  predicate Truthy(selected: Option<string>)
  {
    selected.Some? && selected.value != ""
  }

  /** Every swatch under the mouse shows a colour of the palette. */
  predicate SwatchesFrom(clicks: seq<seq<Target>>, colors: seq<string>)
  {
    forall k, j :: 0 <= k < |clicks| && 0 <= j < |clicks[k]| && clicks[k][j].Swatch? ==>
      clicks[k][j].color in colors
  }

  lemma SwatchesFromSuffix(clicks: seq<seq<Target>>, colors: seq<string>, k: nat)
    requires SwatchesFrom(clicks, colors) && k <= |clicks|
    ensures SwatchesFrom(clicks[k..], colors)
  {
    forall a, j | 0 <= a < |clicks| - k && 0 <= j < |clicks[k..][a]| && clicks[k..][a][j].Swatch?
      ensures clicks[k..][a][j].color in colors
    {
      assert clicks[k..][a] == clicks[k + a];
    }
  }

  lemma SwatchesFromPrefix(clicks: seq<seq<Target>>, colors: seq<string>, k: nat)
    requires SwatchesFrom(clicks, colors) && k <= |clicks|
    ensures SwatchesFrom(clicks[..k], colors)
  {
    forall a, j | 0 <= a < k && 0 <= j < |clicks[..k][a]| && clicks[..k][a][j].Swatch?
      ensures clicks[..k][a][j].color in colors
    {
      assert clicks[..k][a] == clicks[a];
    }
  }
}
