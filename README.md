# Mastermind, memory and two-player snake, modelled in Dafny

This project models the game logic of three small Python games written for a
graphics canvas.

**Mastermind.** There are three programs:
- `mastermind.py`, the first desktop version;
- `mastermind_cip.py`, the desktop version with difficulty levels;
- `mastermind-mobile.py`, the mobile version.

The project models:
- how a guess is scored with red "exact" and grey "partial" key pegs;
- how a row reacts to clicks on the palette, the code pegs and the Check button;
- how the difficulty level chooses the number of pegs, the palette and the number of rows, and how the secret code is drawn;
- a whole session of rows.

**Memory.** There are three versions of the pair-matching game:
- the text game `memory_list_game.py`;
- `memory_game_cip_v1.py`, which keeps plain lists of values, shapes and matched flags;
- `memory_game_cip_v2.py`, which keeps a list of `Card` objects.

**Snake.** The two-player game `snake_2player_cip.py` is modelled: its
movement, its steering with reversal rejected, its collisions, the winner
rule and the score keeping.

The Python programs poll a canvas for clicks and key presses. Here that input
is a finite sequence:
- a row reads a sequence of clicks, where each click is the list of canvas objects under the mouse;
- a memory game reads a sequence of picks;
- a snake game reads a sequence of ticks.

When the input runs out before the game ends, the model stops and reports
`waiting`. The Python program would instead wait for more input.

Each game loop is an imperative method proved against a pure specification
function:
- the click loop of a Mastermind row against `RunClicks`, and the loop over the rows against `Session`, which plays each row on the clicks the rows before it left;
- the memory game loops against `Play`;
- the snake animation loop against `Run`, which applies `Steer` once per tick.

Lemmas then prove the properties the programs rely on for those functions:
- the score is the size of a multiset intersection, whatever the order of the pegs;
- all-red keys mean the guess is the code;
- matched cards come in pairs of equal value;
- a finished memory game has every card matched;
- a snake never reverses into itself.

Both desktop Mastermind programs score on one shared code path. The spec
function is `MastermindRow.Step` with `Variant = Desktop`. Each program has
its own classes and loops: `MastermindCip`, and `MastermindClassic`, which
reuses the cip `Guess` class because the two are identical apart from the
fixed peg count.

Two notes on the scoring and the levels:
- `Feedback.DuplicateExactExample`: code R R G B against guess R G G G scores two exact pegs and no partial peg, because the second G matches in place.
- The docstring of `play_mastermind` (`mastermind_cip.py`, line 753, and `mastermind-mobile.py`, line 883) says expert has 10 tries, while the level table keeps `MAX_GUESSES`, which is 12 (`MastermindSetup.ConfigureTable`).

## Model

| member | source | states |
|---|---|---|
| Feedback.ExactUpTo | mastermind/mastermind_cip.py:534-539 | the number of exact matches among the first `i` pegs is at most `i` |
| Feedback.Exact | mastermind/mastermind_cip.py:533-539 | `num_exact`, the count of the exact pass; it never exceeds the number of pegs |
| Feedback.UnmatchedIndices | mastermind/mastermind_cip.py:534-539 | the indices the exact pass leaves unmatched, listed in order and below `i`; together with the exact count they cover every peg |
| Feedback.UnmatchedIndicesDiffer | mastermind/mastermind_cip.py:534-539 | every index the exact pass leaves unmatched is a position where guess and code differ |
| Feedback.Pick | mastermind/mastermind_cip.py:538-539 | `unmatched_truth` / the unmatched guesses: the elements of a list at the given indices, in order |
| Feedback.RemoveFirst | mastermind/mastermind_cip.py:545 | `list.remove` of a present colour removes exactly one element |
| Feedback.RemoveFirstMultiset | mastermind/mastermind_cip.py:545 | removing a present colour takes exactly one occurrence of it out of the multiset of colours |
| Feedback.Partial | mastermind/mastermind_cip.py:541-545 | `num_partial`: the partial pass run on what the exact pass left over; `PartialPassIsIntersection` and `ScoreBound` state its size |
| Feedback.HasBlank | mastermind/mastermind-mobile.py:622-631 | some slot of the row still holds the empty value `''`; `Guess.HasBlanks` is proved to compute it |
| Feedback.PartialPass | mastermind/mastermind_cip.py:541-545 | the partial pass never counts more pegs than there are unmatched guesses or unmatched code colours |
| Feedback.KeyPegs | mastermind/mastermind_cip.py:553-556 | the key pegs are red for each exact match, then grey for each partial match, then empty; there is always one per code peg |
| Feedback.ExactPlusUnmatched | mastermind/mastermind_cip.py:533-539 | every peg is either an exact match or left for the partial pass, and the two unmatched lists have the same length |
| Feedback.ScoreBound | mastermind/mastermind_cip.py:528-556 | exact plus partial never exceeds the number of pegs, so the key pegs always fit |
| Feedback.PartialPassIsIntersection | mastermind/mastermind_cip.py:541-545 | the partial count is the size of the multiset intersection of the unmatched guesses and the unmatched code colours |
| Feedback.PartialOrderIndependent | mastermind/mastermind_cip.py:541-545 | the partial count depends only on which colours are left over, not on their order |
| Feedback.ExactUpToAll | mastermind/mastermind_cip.py:533-539 | all of the first `i` pegs match exactly exactly when the first `i` guesses equal the first `i` code colours |
| Feedback.CorrectIffAllExact | mastermind/mastermind_cip.py:559 | `self.guesses == truth` holds exactly when every peg is an exact match |
| Feedback.UnmatchedEmptyWhenEqual | mastermind/mastermind_cip.py:533-539 | the correct guess leaves nothing for the partial pass |
| Feedback.SelfScore | mastermind/mastermind_cip.py:528-559 | the correct guess scores all exact and no partial pegs |
| Feedback.PartialIgnoresBlanks | mastermind/mastermind_cip.py:541-545 | an empty slot never earns a partial peg: the partial count is at most the number of filled unmatched slots |
| Feedback.BlanksScoreNothing | mastermind/mastermind_cip.py:528-556 | a row with empty slots earns at most one key peg per filled slot |
| Feedback.DuplicateExactExample | mastermind/mastermind_cip.py:533-545 | code R R G B against guess R G G G scores two exact and no partial pegs |
| Feedback.DuplicatePartialExample | mastermind/mastermind_cip.py:533-545 | code R R G B against guess G G R Y scores no exact and two partial pegs: each colour is credited once per occurrence in the code |
| Feedback.DuplicatePartialPass | mastermind/mastermind_cip.py:541-545 | the partial pass run on G G R Y against R R G B counts two |
| Feedback.RemovalSteps | mastermind/mastermind_cip.py:545 | `remove` takes out the first occurrence only |
| Feedback.SwappedPairExample | mastermind/mastermind_cip.py:533-545 | two swapped pegs score two exact and two partial |
| Feedback.MatchExact | mastermind/mastermind_cip.py:534-539 | the exact pass adds one red peg per exact match and leaves the other positions, in order, with the code colours at them for the partial pass |
| Feedback.MatchPartial | mastermind/mastermind_cip.py:541-545 | the partial pass adds one grey peg per unmatched guess colour still left among the unmatched code colours, each code colour used at most once |
| Feedback.FillPegs | mastermind/mastermind_cip.py:553-556 | `peg_colors` has one entry per peg: the earned pegs first, in order, then empty ones |
| Feedback.Check | mastermind/mastermind_cip.py:521-559 | `Guess.check`, the two loops: the key pegs are the red/grey/empty sequence of the exact and partial counts, and the result is true exactly when the guess is the code |
| MastermindSetup.Configure | mastermind/mastermind_cip.py:755-771 | every level has at least one peg, no more pegs than colours, at most `MAX_GUESSES` rows, a palette that extends the base palette; only expert changes the peg count |
| MastermindSetup.ConfigureTable | mastermind/mastermind-mobile.py:886-904 | the level table: easy 4 pegs/6 colours/12 rows, medium 4/7/10, hard 4/9/8, expert 6/9/12; any other value is easy |
| MastermindSetup.DisplayDifficulty | mastermind/mastermind_cip.py:682-697 | the mode label starts with `"mode: "` followed by a level name |
| MastermindSetup.LabelMatchesConfig | mastermind/mastermind-mobile.py:806-821 | two levels show the same label exactly when they get the same configuration |
| MastermindSetup.PaletteDistinct | mastermind/mastermind_cip.py:39-41 | no colour appears twice in any level's palette, so `random.sample` draws distinct colours |
| MastermindSetup.PaletteHasNoBlank | mastermind/mastermind_cip.py:39-41 | the empty slot value `''` is never a palette colour |
| MastermindSetup.DrawSecret | mastermind/mastermind_cip.py:774-777 | the secret has one colour per peg, all from the palette, and with duplicates off no colour repeats |
| MastermindSetup.Ids | mastermind/mastermind_cip.py:441-502 | the code pegs a row draws get distinct consecutive canvas ids |
| MastermindSetup.RowIds | mastermind/mastermind_cip.py:781-789 | row `j`'s pegs, drawn after `j` earlier rows of `n` pegs each: `n` distinct ids |
| MastermindSetup.RowIdsApart | mastermind/mastermind_cip.py:781-789 | two different rows never share a code-peg id, so a click on a peg belongs to one row only |
| MastermindSetup.SetSlots | mastermind/mastermind_cip.py:510-516 | the loop of `set_guess` as a value: every slot whose code peg is the clicked one takes the colour; `SetSlotsOnlyClicked` states that this is exactly one slot |
| MastermindSetup.Truthy | mastermind/mastermind_cip.py:654 | the test `if selected_color`: a colour is held and it is not the empty string |
| MastermindSetup.SetSlotsOnlyClicked | mastermind/mastermind_cip.py:510-516 | `set_guess` colours exactly the slot whose peg was clicked, and a click on no peg of the row changes nothing |
| MastermindSetup.NewRowHasBlanks | mastermind/mastermind_cip.py:435 | a fresh row has a blank slot exactly when it has any pegs |
| MastermindSetup.Keys | mastermind/mastermind_cip.py:553-556 | the key pegs a row shows have one entry per code peg |
| MastermindSetup.AllRedIffCorrect | mastermind/mastermind_cip.py:553-559 | all key pegs are red exactly when the guess equals the code |
| MastermindRow.Step | mastermind/mastermind_cip.py:639-658 | handling one object under the mouse keeps the row's shape: slots, key pegs and scored copy stay one per code peg |
| MastermindRow.StepClick | mastermind/mastermind_cip.py:637-658 | the objects of one click are handled in turn, keeping the row's shape |
| MastermindRow.RunClicks | mastermind/mastermind_cip.py:630-661 | the `while not is_done` loop over the clicks keeps the row's shape |
| MastermindRow.CheckWithBlanksIgnored | mastermind/mastermind-mobile.py:752-760 | on mobile, Check on a row with an empty slot only drops the selected colour |
| MastermindRow.CheckScoresAnyRow | mastermind/mastermind_cip.py:639-644 | on desktop, Check ends the row, hides the button, drops the colour, scores the row as it stands, and reports correct exactly when the row is the code |
| MastermindRow.CodePegSetsSlot | mastermind/mastermind_cip.py:654-658 | clicking a code peg while holding a colour puts that colour into that slot only and drops the colour, and a click never finishes the row by itself |
| MastermindRow.SwatchSwitchesColour | mastermind/mastermind-mobile.py:762-770 | on mobile, a swatch click selects that colour, also while another is held |
| MastermindRow.SwatchIgnoredWhileHolding | mastermind/mastermind_cip.py:646-653 | on desktop, swatch and dragger clicks change nothing while a colour is held |
| MastermindRow.StepInv | mastermind/mastermind_cip.py:639-658 | one handled object keeps the row invariant: slots are blank or palette colours, a held colour is a palette colour, a scored row has the keys of what was scored, and on mobile no scored slot is blank |
| MastermindRow.StepClickInv | mastermind/mastermind_cip.py:637-658 | one click keeps the row invariant |
| MastermindRow.RunClicksInv | mastermind/mastermind_cip.py:630-661 | the whole click loop keeps the row invariant |
| MastermindRow.RunClicksStable | mastermind/mastermind_cip.py:630 | once the row is done, further clicks are never read |
| MastermindRow.RunClicksKeysUntilDone | mastermind/mastermind_cip.py:630-661 | the key pegs stay as they were until the row is scored |
| MastermindRow.StepClickKeysUntilDone | mastermind/mastermind_cip.py:637-658 | within a click, the key pegs stay as they were until the row is scored |
| MastermindRow.RowOutcome | mastermind/mastermind_cip.py:619-663 | a finished row scored a full row of blanks or palette colours (on mobile, no blanks), and it is correct exactly when all its keys are red; an unfinished row has its old keys |
| MastermindRow.StepKeepsDone | mastermind/mastermind_cip.py:630 | a done row stays done |
| MastermindRow.ReadFrom | mastermind/mastermind_cip.py:630-661 | the number of clicks a turn reads counting from click `k`: never fewer than `k` and never more than there are |
| MastermindRow.DoneStaysDone | mastermind/mastermind_cip.py:630-661 | a row done after the first `m` clicks is the same row after any longer prefix of the clicks |
| MastermindRow.TurnReadsUnique | mastermind/mastermind_cip.py:630-661 | of the prefixes of one input, at most one is exactly the run of clicks a turn reads, ending at the click that scores the row |
| MastermindRow.ReadFromSpec | mastermind/mastermind_cip.py:630-661 | the clicks a turn reads leave the row as all the clicks would, and a row never scored reads every click |
| MastermindRow.ReadFromReads | mastermind/mastermind_cip.py:630-661 | when the row gets scored, the clicks a turn reads are exactly the run that scores it on its last click and not before |
| MastermindRow.ConsumedSpec | mastermind/mastermind_cip.py:630-661 | the clicks one turn reads: a prefix of the input that ends the row as all of it would; exactly the scoring run when the row is scored, and all of it otherwise |
| MastermindRow.Session | mastermind/mastermind_cip.py:798-806 | the rows `play_mastermind` plays, as a value: at most one per row, and at least one when there is a row |
| MastermindRow.SessionStep | mastermind/mastermind_cip.py:798-806 | a session is its first row, played on the clicks its turn reads, followed, when that row was scored and is not the code, by the session of the other rows on the clicks after them |
| MastermindRow.TurnsStart | mastermind/mastermind_cip.py:798 | before the loop, no row played and no click read make valid turns |
| MastermindRow.TurnsExtend | mastermind/mastermind_cip.py:798-806 | after a row scored wrong, playing the next row on the clicks that follow extends the turns by that row and the clicks it read |
| MastermindRow.TurnsKeepRow | mastermind/mastermind_cip.py:798-806 | a row scored wrong keeps its turn when another row is played after it |
| MastermindRow.TurnsAreSession | mastermind/mastermind_cip.py:798-806 | turns that stopped where the loop stops are, from any row `k` on, the session of the clicks from row `k`'s first click |
| MastermindRow.TurnsEndInSession | mastermind/mastermind_cip.py:798-806 | turns that stopped where the loop stops (all rows played, or the last unfinished or correct) are exactly the session of all the clicks |
| MastermindRow.TurnsHead | mastermind/mastermind_cip.py:798-806 | from row `k` on, the session starts with row `k` and goes on after its clicks only when it was scored and is not the code |
| MastermindRow.TurnsOutcome | mastermind/mastermind_cip.py:798-806 | every turn before the last was scored and is not the code; a scored row shows the keys of the guess it scored and is correct exactly when that guess is the code; an unfinished row has no keys |
| MastermindRow.RowTurnOutcome | mastermind/mastermind_cip.py:800-802 | `TurnsOutcome` for one row of the turns |
| MastermindRow.TurnEnds | mastermind/mastermind_cip.py:800-802 | a turn on the active row ends as `Ends` says: scored rows show their keys and are correct exactly at the code, unfinished rows have no keys |
| MastermindRow.SessionHead | mastermind/mastermind_cip.py:798-806 | the first row of a session ends as `Ends` says and the session continues only after a row scored wrong, on the clicks after it |
| MastermindRow.EndedCons | mastermind/mastermind_cip.py:804-805 | a row that ends as `Ends` says, scored wrong if play goes on, extends rows that have `Ended` |
| MastermindRow.SessionOutcome | mastermind/mastermind_cip.py:798-806 | in every session each row before the last was scored and is not the code, and every row ends as `Ends` says |
| MastermindRow.SessionStops | mastermind/mastermind_cip.py:804-805 | a session stops before the last row only at a row that is unfinished or correct |
| MastermindMobile.Guess.constructor | mastermind/mastermind-mobile.py:478-484 | a new row has one empty slot per peg, no pegs drawn, no button and no keys |
| MastermindMobile.Guess.Render | mastermind/mastermind-mobile.py:486-500 | drawing the row gives its code pegs consecutive fresh ids and changes nothing else |
| MastermindMobile.Guess.ShowButton | mastermind/mastermind-mobile.py:598-602 | the Check button is shown; slots, pegs and keys are unchanged |
| MastermindMobile.Guess.SetGuess | mastermind/mastermind-mobile.py:604-620 | the clicked slot takes the colour, and the button appears as soon as no slot is blank |
| MastermindMobile.Guess.HasBlanks | mastermind/mastermind-mobile.py:622-631 | the loop reports true exactly when some slot is empty |
| MastermindMobile.Guess.Check | mastermind/mastermind-mobile.py:633-673 | the row's keys become the score of its slots against the code, the button is removed, and the result is true exactly when the row is the code |
| MastermindMobile.HandleTarget | mastermind/mastermind-mobile.py:750-777 | one object under the mouse updates the row object exactly as `Step(Mobile, …)` says |
| MastermindMobile.HandleClick | mastermind/mastermind-mobile.py:750-777 | one click, over every object under the mouse, updates the row exactly as `StepClick(Mobile, …)` says, and leaves the secret alone |
| MastermindMobile.ReadClicks | mastermind/mastermind-mobile.py:747-777 | the click loop ends as `RunClicks(Mobile, …)` on the clicks it read; it reads on to the end unless the row is done, and then stops at the click that finished it |
| MastermindMobile.PlayRow | mastermind/mastermind-mobile.py:736-779 | the row object ends as `RunClicks(Mobile, …)` says; it reads clicks only until the row is done; a done row scored a full row of palette colours and is correct exactly when all keys are red |
| MastermindMobile.CreateRows | mastermind/mastermind-mobile.py:915-919 | `max_guesses` distinct fresh rows, each empty with the level's peg count; row `j`'s code pegs are drawn with the ids `RowIds(firstId, numPegs, j)`, and no two rows share a peg id |
| MastermindMobile.PlayTurn | mastermind/mastermind-mobile.py:929-931 | one active row: button shown and played as `RunClicks` says; a done row has the keys of the guess it scored, and is correct exactly when that guess is the code, which is exactly when all its keys are red; an unfinished row has no keys |
| MastermindMobile.PlayRowAt | mastermind/mastermind-mobile.py:928-931 | one pass of the loop plays row `i` only: row `i` ends as `RunClicks(Mobile, …)` of the clicks it read, which are exactly the run that scores it or all of them; every other row keeps its slots and keys |
| MastermindMobile.PlayNextRow | mastermind/mastermind-mobile.py:928-931 | one pass of the loop seen from the session: row `i` is played on the clicks left after the rows before it, and the turns grow by the state it ends in and the clicks it read |
| MastermindMobile.PlayTurns | mastermind/mastermind-mobile.py:928-934 | the loop: the rows played are turns on consecutive runs of the clicks; it waits exactly when the last row is unfinished, wins exactly when the last row is correct, and otherwise plays every row; rows not reached stay empty |
| MastermindMobile.PlayRows | mastermind/mastermind-mobile.py:928-934 | the rows keep their code pegs; the rows played are exactly `Session(Mobile, …)` of the clicks, shown row by row; a win is exactly a last row scored equal to the code; every earlier row was scored and is not the code; a scored row shows the keys of its guess; a loss has played every row; rows not reached stay empty |
| MastermindMobile.PlayMastermind | mastermind/mastermind-mobile.py:877-937 | a session at a level: the level's row count, a secret of the level's size from its palette (distinct without duplicates), rows whose code pegs are drawn with the level's peg count and ids `RowIds(firstId, …)` shared by no two rows, and rows played exactly as `Session(Mobile, …)` of the clicks, with the outcome of `PlayRows` |
| MastermindCip.Guess.constructor | mastermind/mastermind_cip.py:432-439 | a new row has one empty slot per peg, no pegs drawn, no button and no keys |
| MastermindCip.Guess.Render | mastermind/mastermind_cip.py:441-502 | drawing the row gives its code pegs consecutive fresh ids and changes nothing else |
| MastermindCip.Guess.ShowButton | mastermind/mastermind_cip.py:504-508 | the Check button is shown; slots, pegs and keys are unchanged |
| MastermindCip.Guess.SetGuess | mastermind/mastermind_cip.py:510-519 | the clicked slot takes the colour; the button and keys are unchanged |
| MastermindCip.Guess.Check | mastermind/mastermind_cip.py:521-559 | the row's keys become the score of its slots against the code, the button is removed, and the result is true exactly when the row is the code |
| MastermindCip.HandleTarget | mastermind/mastermind_cip.py:638-658 | one object under the mouse updates the row object exactly as `Step(Desktop, …)` says |
| MastermindCip.HandleClick | mastermind/mastermind_cip.py:638-658 | one click, over every object under the mouse, updates the row exactly as `StepClick(Desktop, …)` says, and leaves the secret alone |
| MastermindCip.ReadClicks | mastermind/mastermind_cip.py:630-661 | the click loop ends as `RunClicks(Desktop, …)` on the clicks it read; it reads on to the end unless the row is done, and then stops at the click that finished it |
| MastermindCip.PlayRow | mastermind/mastermind_cip.py:619-663 | the row object ends as `RunClicks(Desktop, …)` says; it reads clicks only until the row is done; a done row is correct exactly when all keys are red |
| MastermindCip.CreateRows | mastermind/mastermind_cip.py:781-789 | `max_guesses` distinct fresh rows, each empty with the level's peg count; row `j`'s code pegs are drawn with the ids `RowIds(firstId, numPegs, j)`, and no two rows share a peg id |
| MastermindCip.PlayTurn | mastermind/mastermind_cip.py:800-802 | one active row: button shown and played as `RunClicks` says; a done row has the keys of the guess it scored, and is correct exactly when that guess is the code, which is exactly when all its keys are red; an unfinished row has no keys |
| MastermindCip.PlayRowAt | mastermind/mastermind_cip.py:798-802 | one pass of the loop plays row `i` only: row `i` ends as `RunClicks(Desktop, …)` of the clicks it read, which are exactly the run that scores it or all of them; every other row keeps its slots and keys |
| MastermindCip.PlayNextRow | mastermind/mastermind_cip.py:798-802 | one pass of the loop seen from the session: row `i` is played on the clicks left after the rows before it, and the turns grow by the state it ends in and the clicks it read |
| MastermindCip.PlayTurns | mastermind/mastermind_cip.py:798-806 | the loop: the rows played are turns on consecutive runs of the clicks; it waits exactly when the last row is unfinished, wins exactly when the last row is correct, and otherwise plays every row; rows not reached stay empty |
| MastermindCip.PlayRows | mastermind/mastermind_cip.py:798-806 | the rows keep their code pegs; the rows played are exactly `Session(Desktop, …)` of the clicks, shown row by row; a win is exactly a last row scored equal to the code; every earlier row was scored and is not the code; a scored row shows the keys of its guess; a loss has played every row; rows not reached stay empty |
| MastermindCip.PlayMastermind | mastermind/mastermind_cip.py:747-809 | a session at a level: the level's row count, a secret of the level's size from its palette (distinct without duplicates), rows whose code pegs are drawn with the level's peg count and ids `RowIds(firstId, …)` shared by no two rows, and rows played exactly as `Session(Desktop, …)` of the clicks, with the outcome of `PlayRows` |
| MastermindClassic.ClassicConfig | mastermind/mastermind.py:5-18 | four pegs and the six base colours as at the easy level, with ten rows instead of twelve; the palette has no repeats |
| MastermindClassic.PlayGame | mastermind/mastermind.py:398-436 | ten rows of four code pegs drawn with ids `RowIds(firstId, 4, j)` shared by no two rows, a secret of four different base colours, and rows played exactly as `Session(Desktop, …)` of the clicks: won exactly when the last row scored is the secret, every earlier row scored wrong, each scored row showing its keys; a loss has played all ten rows |
| MemoryDeck.PairedDeck | memory_game/memory_game_cip_v1.py:175-177 | the unshuffled value list: `2*NUM_PAIRS` entries, each a value below `NUM_PAIRS` |
| MemoryDeck.Paired | memory_game/memory_game_cip_v1.py:175-177 | the shape every deck keeps: each value `0 … NUM_PAIRS-1` occurs exactly twice and no other value occurs; `PairedDeckIsPaired` and `ShuffleKeepsPaired` prove it of the built and shuffled decks |
| MemoryDeck.BuildTruth | memory_game/memory_game_cip_v1.py:175-177 | the value list holds each value `0 … NUM_PAIRS-1` twice |
| MemoryDeck.PairedDeckIsPaired | memory_game/memory_game_cip_v1.py:175-177 | the value list has length `2*NUM_PAIRS`, and each value occurs exactly twice |
| MemoryDeck.Shuffle | memory_game/memory_game_cip_v1.py:180 | `random.shuffle` gives a permutation |
| MemoryDeck.DistinctAtMostOnce | memory_game/memory_game_cip_v2.py:213-218 | in a list without repeats every element occurs at most once |
| MemoryDeck.ShuffleKeepsDistinct | memory_game/memory_game_cip_v2.py:218 | shuffling distinct `Card` objects keeps them distinct |
| MemoryDeck.ShuffleKeepsPaired | memory_game/memory_game_cip_v1.py:180 | shuffling keeps every value occurring exactly twice |
| MemoryDeck.ThreeOccurrences | memory_game/memory_game_cip_v1.py:175-177 | three equal entries make a value occur at least three times |
| MemoryDeck.MatchKeepsTwinned | memory_game/memory_game_cip_v1.py:231-236 | matching two unmatched cards of equal value keeps both cards of every value matched or unmatched together, and adds two to the matched count |
| MemoryDeck.OnlyTwo | memory_game/memory_game_cip_v1.py:175-177 | a third card never has the value of a pair |
| MemoryDeck.AllMatched | memory_game/memory_game_cip_v1.py:196 | when `matches == NUM_PAIRS`, every card is matched |
| MemoryDeck.NoneMatched | memory_game/memory_game_cip_v1.py:185 | the all-false starting flags are paired-consistent and count zero |
| MemoryTurns.NextPick | memory_game/memory_game_cip_v2.py:234-236 | `while not first_card`: the next pick that hit a card, skipping misses; it is past the end only if none is left |
| MemoryTurns.Judge | memory_game/memory_game_cip_v2.py:250-267 | the checks on the second card, in the program's order: same card, second card already matched, equal values, otherwise no match; `TurnSpec` and `AfterTurn` build on it |
| MemoryTurns.TurnSpec | memory_game/memory_game_cip_v2.py:231-273 | one pass of the game loop, both versions: an already-matched first card is refused; same card, already-matched second card, match and no match are told apart exactly as the branches say |
| MemoryTurns.SecondSpec | memory_game/memory_game_cip_v2.py:245-273 | the second half of a pass: it waits when no further pick hits a card, and otherwise judges the first card against the next card picked |
| MemoryTurns.AfterTurn | memory_game/memory_game_cip_v2.py:262-267 | a pass never unmatches a card, and it changes flags only on a match and only for the two cards picked |
| MemoryTurns.Play | memory_game/memory_game_cip_v2.py:230-273 | `while matches != NUM_PAIRS`: the game ends only with all pairs found |
| MemoryTurns.PlayCounts | memory_game/memory_game_cip_v2.py:230-267 | `tries` counts every pass, refused ones included, and `matches` counts the passes ending in a match |
| MemoryTurns.PassesWait | memory_game/memory_game_cip_v2.py:234-247 | the game is left waiting for a click exactly when its last pass was cut short by the input running out |
| MemoryTurns.PassesCutLast | memory_game/memory_game_cip_v2.py:234-247 | every pass but the last reads both of its picks: only the last can be cut short |
| MemoryTurns.PlayKeepsPairs | memory_game/memory_game_cip_v2.py:230-273 | the game keeps both cards of each value matched together and twice `matches` matched cards; it never unmatches a card; a finished game has every card matched |
| MemoryCardsV2.CardShape | memory_game/memory_game_cip_v2.py:65-78 | the shape branch of `create_card`; `CardShapesTellValuesApart` states that the six dealt values get six different shapes |
| MemoryCardsV2.CardShapesTellValuesApart | memory_game/memory_game_cip_v2.py:65-78 | the six values get six different shapes; value 0 gets the diamond of the `else` branch and no card gets the rectangle |
| MemoryCardsV2.Card.constructor | memory_game/memory_game_cip_v2.py:27-35 | a new card has its value, is unmatched, and has no image and position yet |
| MemoryCardsV2.Card.CreateCard | memory_game/memory_game_cip_v2.py:37-65 | the card gets its position and the shape of its value, and ends face down |
| MemoryCardsV2.Card.ShowCard | memory_game/memory_game_cip_v2.py:81-84 | the card is face up; nothing else about it changes |
| MemoryCardsV2.Card.HideCard | memory_game/memory_game_cip_v2.py:87-90 | the card is face down; nothing else about it changes |
| MemoryCardsV2.FaceUpNotDown | memory_game/memory_game_cip_v2.py:81-90 | a card is never face up and face down at once |
| MemoryCardsV2.ShuffledValues | memory_game/memory_game_cip_v2.py:218 | shuffling the cards permutes their values |
| MemoryCardsV2.BuildDeck | memory_game/memory_game_cip_v2.py:213-215 | twelve fresh unmatched distinct cards carrying each value twice, in order |
| MemoryCardsV2.ShuffleDeck | memory_game/memory_game_cip_v2.py:218 | the same cards in some order, still with each value twice |
| MemoryCardsV2.RenderDeck | memory_game/memory_game_cip_v2.py:221-227 | every card is face down with its value's shape, at the column and row of its position in the list; no card's matched flag changes |
| MemoryCardsV2.Repick | memory_game/memory_game_cip_v2.py:245-247 | the `while not second_card` loop stops at the next pick that hit a card |
| MemoryCardsV2.Resolve | memory_game/memory_game_cip_v2.py:250-273 | the second-card branches: the outcome is the one the branches choose, flags change only on a match, and the cards end face up or down as each branch leaves them |
| MemoryCardsV2.SecondPick | memory_game/memory_game_cip_v2.py:242-273 | showing an unmatched first card and reading the second pick follow `SecondSpec`; flags change as `AfterTurn` says and only the cards the pass names are touched |
| MemoryCardsV2.PlayTurn | memory_game/memory_game_cip_v2.py:231-273 | one pass over the card objects is `TurnSpec`: flags become `AfterTurn`; the picked cards end face up or down by outcome; every other card is unchanged |
| MemoryCardsV2.SettledPass | memory_game/memory_game_cip_v2.py:231-273 | a pass starting with exactly the matched cards face up ends the same way unless input ran out mid-pass, and matched cards stay face up |
| MemoryCardsV2.PlayGame | memory_game/memory_game_cip_v2.py:230-273 | the game loop over the cards computes `Play`; a finished game has every card matched and face up; matched cards are face up and paired throughout |
| MemoryCardsV2.RunGame | memory_game/memory_game_cip_v2.py:205-276 | `main`: a shuffled deck with each value twice, played as `Play` says from no matches; a finished game has all six pairs found and every card face up |
| MemoryShapesV1.CreateShape | memory_game/memory_game_cip_v1.py:82-94 | values other than 0, 1 and 2 get the triangle |
| MemoryShapesV1.CreateShapeTellsValuesApart | memory_game/memory_game_cip_v1.py:82-94 | the four values get four different shapes |
| MemoryShapesV1.RenderCards | memory_game/memory_game_cip_v1.py:189-193 | the nested loop maps the ids of the eight blank cards it draws to their columns |
| MemoryShapesV1.LookupFrom | memory_game/memory_game_cip_v1.py:189-193 | the `lookup` dictionary after `n` cards are drawn; `LookupFromShape` and `LookupIsOneToOne` state its keys and values |
| MemoryShapesV1.LookupFromShape | memory_game/memory_game_cip_v1.py:189-193 | the lookup's keys are exactly the drawn card ids, each mapped to its column |
| MemoryShapesV1.LookupIsOneToOne | memory_game/memory_game_cip_v1.py:189-193 | the lookup is one-to-one onto the positions `0 … 7` |
| MemoryShapesV1.Accepted | memory_game/memory_game_cip_v1.py:112-130 | a pick is kept when `pick_card` returns a card id in the lookup and `while not first_card` reads that id as true, that is, not 0 |
| MemoryShapesV1.Positions | memory_game/memory_game_cip_v1.py:112-130 | `pick_card` returns a card exactly when the object under the mouse is a drawn card with a truthy id |
| MemoryShapesV1.PositionsFit | memory_game/memory_game_cip_v1.py:112-130 | every accepted pick is at a position within the deck |
| MemoryShapesV1.FirstCardNeedsTruthyId | memory_game/memory_game_cip_v1.py:202-203 | `while not first_card` compares the canvas id itself: a card whose id is 0 can never be picked; with ids from 1 every card can |
| MemoryShapesV1.ShowCard | memory_game/memory_game_cip_v1.py:96-110 | the shape of a card is created on its first showing and reused after; the card becomes visible and no other card changes |
| MemoryShapesV1.HideCard | memory_game/memory_game_cip_v1.py:155-159 | the card's shape is hidden and no other card changes |
| MemoryShapesV1.Repick | memory_game/memory_game_cip_v1.py:212-214 | the `while not second_card` loop stops at the next accepted pick |
| MemoryShapesV1.Resolve | memory_game/memory_game_cip_v1.py:217-242 | the second-card branches on the lists: the outcome the branches choose, matched flags change only on a match, and shapes end visible or hidden by branch |
| MemoryShapesV1.PlayTurn | memory_game/memory_game_cip_v1.py:196-242 | one pass over the lists is `TurnSpec` of the picked positions; `matched` becomes `AfterTurn`; other cards are unchanged |
| MemoryShapesV1.SettledPass | memory_game/memory_game_cip_v1.py:196-242 | a pass starting with exactly the matched cards visible ends the same way unless input ran out mid-pass |
| MemoryShapesV1.PlayGame | memory_game/memory_game_cip_v1.py:196-242 | the game loop computes `Play`; a finished game has every card matched and visible; matched cards are paired and visible throughout |
| MemoryShapesV1.NewBoard | memory_game/memory_game_cip_v1.py:175-185 | a shuffled paired value list with no shapes created and no card matched |
| MemoryShapesV1.RunGame | memory_game/memory_game_cip_v1.py:162-244 | `main`: the game on a shuffled paired list; a finished game has every card matched and showing its value's shape |
| MemoryList.GetValidIndex | memory_game/memory_list_game.py:51-67 | corrected: an input is accepted exactly when it is a number naming a position of the board that still shows `*` |
| MemoryList.GetValidIndexAsWritten | memory_game/memory_list_game.py:51-67 | as written: the bound check `index > len(display)` lets the length through to `display[index]` |
| MemoryList.ValidatorsAgree | memory_game/memory_list_game.py:59-65 | the written check accepts exactly what the corrected one accepts, and faults exactly on the number equal to the length |
| MemoryList.BoundCheckLetsLengthThrough | memory_game/memory_list_game.py:59 | on the starting board, input "8" passes the bound check and faults, where the corrected check refuses it |
| MemoryList.RevealedRefused | memory_game/memory_list_game.py:63-65 | a position already matched is refused by both checks |
| MemoryList.EveryMatchFaults | memory_game/memory_list_game.py:38-39 | as written: every pair of different valid inputs with equal values reaches the stray name on line 39 |
| MemoryList.FirstMatchFaults | memory_game/memory_list_game.py:39 | on the unshuffled deck, inputs "0" and "1" reach the stray name |
| MemoryList.LeadingZeroPassesSameCardCheck | memory_game/memory_list_game.py:31 | "1" and "01" name the same card but pass the same-input check |
| MemoryList.PlayTurn | memory_game/memory_list_game.py:27-46 | corrected turn: it is a match exactly when both inputs are valid, name different positions and show equal values; it is "same card" exactly when both name the same position |
| MemoryList.PlayTurnAsWritten | memory_game/memory_list_game.py:31-46 | the written turn: equal input texts are refused first, then each input is validated in turn with the written bound check, and a match reaches the stray name; `TurnsAgree` and `EveryMatchFaults` state how it relates to the corrected turn |
| MemoryList.TurnsAgree | memory_game/memory_list_game.py:31-46 | the corrected turn agrees with the written one wherever the written one does not fault |
| MemoryList.Revealed | memory_game/memory_list_game.py:41-42 | the flags of the positions no longer showing `*` |
| MemoryList.Play | memory_game/memory_list_game.py:26-46 | the game loop ends only with all pairs found |
| MemoryList.RevealKeepsPairs | memory_game/memory_list_game.py:41-43 | revealing a matching pair shows their true values, keeps pairs revealed together, and adds two to the revealed count |
| MemoryList.TurnKeepsPairs | memory_game/memory_list_game.py:37-43 | a matching turn keeps the board faithful to the values, its pairs revealed together and twice `matches` cards revealed |
| MemoryList.PlayKeepsPairs | memory_game/memory_list_game.py:26-46 | the board only ever shows true values, in pairs, twice `matches` of them |
| MemoryList.PlayKeepsShown | memory_game/memory_list_game.py:26-46 | a position once revealed keeps showing the same value |
| MemoryList.PlayRevealsAll | memory_game/memory_list_game.py:26-46 | a finished game shows every true value |
| MemoryList.PlayGame | memory_game/memory_list_game.py:25-46 | the loop over the board array computes `Play`; a finished game shows every value |
| MemoryList.NewGame | memory_game/memory_list_game.py:11-21 | a shuffled paired value list and a board of `*` |
| MemoryList.RunGame | memory_game/memory_list_game.py:5-48 | `main`: the game on a fresh board, as `Play` says; a finished game has found every pair |
| Snake2Player.KeyMapsSteerOnly | snake_game/snake_2player_cip.py:24-44 | the key maps only ever name the four directions, and the two players share no key |
| Snake2Player.NewLocation | snake_game/snake_2player_cip.py:90-103 | `_get_new_location`: the new head differs from the old in at most one coordinate; `NewLocationSteps` states the step of each direction |
| Snake2Player.Opposite | snake_game/snake_2player_cip.py:117-124 | the direction that would move a snake back onto its second segment: always one of the four directions and never the direction itself |
| Snake2Player.NewLocationSteps | snake_game/snake_2player_cip.py:90-103 | each direction moves the head one cell that way; an unknown direction leaves it in place |
| Snake2Player.OppositeUndoes | snake_game/snake_2player_cip.py:90-103 | a step and the opposite step return to the head, and different directions lead to different cells |
| Snake2Player.HitsWall | snake_game/snake_2player_cip.py:149-157 | the two bound tests of `check_for_collisions`; `WallsBoundTheGrid` states which cells they let through |
| Snake2Player.WallsBoundTheGrid | snake_game/snake_2player_cip.py:149-157 | a grid-aligned head is clear of the walls exactly when it lies on the 30 by 30 grid, and every move stays grid-aligned |
| Snake2Player.StartCell | snake_game/snake_2player_cip.py:65-72 | the start square `render` computes from the two random draws; `StartInside` states where it lies |
| Snake2Player.StartInside | snake_game/snake_2player_cip.py:61-73 | every start square the random draws can give is on the grid; player 1 starts in the left half, player 2 in the right |
| Snake2Player.LastMapped | snake_game/snake_2player_cip.py:113-114 | the last key press the player's map knows, if any |
| Snake2Player.Steer | snake_game/snake_2player_cip.py:105-137 | the direction and new head `move_and_grow` chooses from the keys; `SteerFollowsDirection`, `SteerUsesLastKey` and `ReversalRejected` state its properties |
| Snake2Player.SteerFollowsDirection | snake_game/snake_2player_cip.py:105-141 | the new head is one step from the old head in the direction the snake ends with, which is one of the four directions |
| Snake2Player.SteerUsesLastKey | snake_game/snake_2player_cip.py:112-129 | only the last known key counts; with none the snake goes straight on |
| Snake2Player.ReversalRejected | snake_game/snake_2player_cip.py:117-129 | a snake longer than one cell takes the asked direction exactly when it is not the reverse, and keeps its direction on a reversal; a one-cell snake takes any direction |
| Snake2Player.Run | snake_game/snake_2player_cip.py:437-442 | a snake after `n` ticks, each steered by that tick's keys: one new segment per tick, the starting segments kept in front |
| Snake2Player.RunKeepsLaid | snake_game/snake_2player_cip.py:437-442 | the segments laid by the first `k` ticks are never changed by later ticks |
| Snake2Player.RunSteps | snake_game/snake_2player_cip.py:437-442 | a snake whose key map names only the four directions keeps one of the four directions, and each segment it lays is one step from the one before |
| Snake2Player.Snake.constructor | snake_game/snake_2player_cip.py:53-59 | a new snake has its direction and key map and no segments |
| Snake2Player.Snake.Render | snake_game/snake_2player_cip.py:61-81 | the snake gets its one start square, clear of the walls |
| Snake2Player.Snake.MoveAndGrow | snake_game/snake_2player_cip.py:105-141 | the snake grows by one segment at the head, keeps its body, and its direction and new head are `Steer` of the keys |
| Snake2Player.Snake.Collides | snake_game/snake_2player_cip.py:143-175 | a head outside the walls always collides; otherwise it collides exactly when something else is under it |
| Snake2Player.Crashed | snake_game/snake_2player_cip.py:149-173 | `check_for_collisions` on a head: it is outside the walls or something other than the background and the own head is under it |
| Snake2Player.Decide | snake_game/snake_2player_cip.py:446-457 | the game is over exactly when some snake collided, and the winner is none, player 1 or player 2 |
| Snake2Player.LoserNeverScores | snake_game/snake_2player_cip.py:446-457 | the game is over exactly when a snake collides; a colliding player never scores; the other scores exactly when only one collided; a running game changes no score |
| Snake2Player.GameOverLabel | snake_game/snake_2player_cip.py:387-390 | the text of `display_game_over`; `GameOverLabels` states the three messages |
| Snake2Player.GameOverLabels | snake_game/snake_2player_cip.py:387-390 | the message is "DRAW!", "PLAYER 1 WINS!" or "PLAYER 2 WINS!", and the three differ |
| Snake2Player.SurviveTick | snake_game/snake_2player_cip.py:443-457 | one more head on each snake keeps the earlier ticks crash-free, and the new tick too when neither new head crashed |
| Snake2Player.Advance | snake_game/snake_2player_cip.py:441-442 | `move_and_grow` on tick `n` takes the snake from `Run` of `n` ticks to `Run` of `n + 1`, laying one new head |
| Snake2Player.PlayTick | snake_game/snake_2player_cip.py:437-457 | one pass of the animation loop: both snakes become `Run` of one more tick, and the game is over, with its winner, exactly as `Decide` says of the two new heads |
| Snake2Player.PlaySnake | snake_game/snake_2player_cip.py:436-460 | each snake ends as `Run` of the ticks played; no head crashed on any tick before the last; the game ends on the first tick with a crash, with the winner `Decide` gives for that tick; it waits only when the ticks run out |
| Snake2Player.NewGame | snake_game/snake_2player_cip.py:428-434 | player 1 heads right with the WASD map, player 2 heads left with the arrow map, each on its start square |
| Snake2Player.Tally | snake_game/snake_2player_cip.py:487-490 | one game's update of the two counters: no score goes down, and together they gain at most one point |
| Snake2Player.TallyScores | snake_game/snake_2player_cip.py:486-490 | each score is the number of games that player won; draws count for neither |
| Common.Count | snake_game/snake_2player_cip.py:486-490 | the number of occurrences of a value is its multiplicity in the multiset of the list |
| Common.Digits | snake_game/snake_2player_cip.py:390 | `str(n)` is a non-empty string of digits |
| Common.IsNumeric | memory_game/memory_list_game.py:53 | `str.isnumeric` on decimal digits: a non-empty string of digits |
| Common.ParseNat | memory_game/memory_list_game.py:57 | `int` of a string of digits, leading zeros allowed; `ParseDigits` and `ParseLeadingZero` state its round trip with `str` and its reading of "01" |
| Common.ParseDigits | memory_game/memory_list_game.py:34-35 | `int(str(n)) == n` |
| Common.ParseLeadingZero | memory_game/memory_list_game.py:57 | `int` ignores a leading zero, so "01" and "1" name the same position |
| Common.CountTrue | memory_game/memory_game_cip_v1.py:233-236 | the number of matched flags, which `matches` tracks; it never exceeds the number of cards |
| Common.CountTrueSet | memory_game/memory_game_cip_v1.py:233-234 | marking an unmatched card adds exactly one to the matched count |
| Common.CountTrueFull | memory_game/memory_game_cip_v1.py:196 | when every card is counted as matched, every card is matched |

## Left out

- Drawing on the canvas is left out: colours, fonts, coordinates of drawn shapes, animation of the colour dragger, fading of snakes, the intro, header, info and footer texts. The model keeps the state that decides the game: which slots hold which colour, whether a button or a card face is shown, what was matched, where snake heads are.
- Mouse and keyboard polling (`get_last_click`, `wait_for_click`, `get_new_key_presses`) and `time.sleep` become the finite input sequences described above. The delays are left out.
- Hit testing (`find_overlapping`, `get_overlapping`) is an input. A Mastermind click is the list of objects under the mouse, a memory pick is the object hit or nothing, and a snake tick says whether something other than the background or the own head is under each head.
- Randomness (`random.choice`, `random.sample`, `random.shuffle`, `random.randint`) is a nondeterministic choice constrained by what the library guarantees: palette membership, distinctness, permutation and the range of `randint`.
- The settings screen of `mastermind_cip.py` and `mastermind-mobile.py` (`GameSettings`) is left out, because it is only drawing and click polling. The model takes its outcome, a difficulty and a duplicates flag, as parameters. `ColorPicker` is reduced to the map from swatch to colour.
- `game_over` (it draws the secret and a message) and the final "Congratulations" and "No match" prints are left out, because they are output only.
- `snake_cip.py`, the one-player snake, is not part of this model.
- `flip_card` in `memory_game_cip_v1.py` is never called and is left out.
- `clear_terminal` and the `print(truth)`/`print(display)` calls of `memory_list_game.py` are left out, because they are output only.
- The `while True` loop of the snake `main` is modelled as `TallyScores` over a finite list of game results.
- Canvas object ids are consecutive numbers from a starting id. The id of the first Mastermind code peg depends on everything the canvas drew before the rows, so `PlayMastermind` and `PlayGame` take it as the parameter `firstId`; the rows are drawn one after another with nothing between them, so row `j` gets `RowIds(firstId, n, j)`. In `memory_game_cip_v1.py` a card whose id is 0 is falsy and can never be picked; `MemoryShapesV1.FirstCardNeedsTruthyId` states this.
- `mastermind_cip.py`, `memory_game_cip_v1.py` and `memory_game_cip_v2.py` call `time.sleep` but do not import `time`. The model describes the evident intent, in which the call only waits.
- `str.isnumeric` is modelled for ASCII digits only. Other Unicode numerals are left out.
- Python raises on a wrong-length guess. `Guess.check` is specified for a code with one colour per slot, which every caller passes.
- `MemoryTurns.PlayCounts`: `tries` counts every pass of the loop, refused passes included. Line 172 of `memory_game_cip_v1.py` calls it the number of unsuccessful matches; the model follows the code.
- `Snake2Player.Snake.MoveAndGrow`: the `if not new_x` test also recomputes the move when the new x is 0. The model performs that recomputation; it gives the same cell, so the contract does not mention it.
- `Snake2Player.PlaySnake`: the body overlap reported by `find_overlapping` is an input per tick, not computed from the segments of both snakes.

## Findings

| source | as written | input that shows it | evidently intended | confidence | as-written member | corrected member |
|---|---|---|---|---|---|---|
| memory_game/memory_list_game.py:59 | `index > len(display)` lets `index == len(display)` through to `display[index]`, which raises `IndexError` | "8" on the starting board of eight cards | `index >= len(display)` refuses every position past the end | high (not executed) | MemoryList.BoundCheckLetsLengthThrough | MemoryList.GetValidIndex |
| memory_game/memory_list_game.py:39 | a stray name `pytho` on the match branch raises `NameError` on every match | "0" then "1" on the unshuffled deck | the line is deleted and the match is recorded | high (not executed) | MemoryList.FirstMatchFaults | MemoryList.PlayTurn |
| memory_game/memory_list_game.py:31 | the "same index twice" check compares the input strings, so "1" and "01" name one card twice and pass | "1" then "01" | compare the parsed positions | high (not executed) | MemoryList.LeadingZeroPassesSameCardCheck | MemoryList.PlayTurn |
