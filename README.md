# Bob's Bracket Helper: the bracket propagation engine in Dafny

This project models the core of a single-elimination tournament picker that runs in a web page.
Every match is a `<select>` element. Option 0 is the sentinel `NONE` and the other options are the
teams that might reach that match. When the user picks a winner, the pick moves forward: each later
match rebuilds its options from the teams its prior matches may still send on. The chosen team is
also filled backwards into earlier rounds. A controller builds the matches as a binary tree stored
in an array, counts the undecided matches, and enables the submit button when none is left.

Two source files are modelled.

- `bracketHelperGame.js` (`bracketHelper.Game`): module `BracketGame` in `bracket_game.dfy`,
  with its properties in module `GameProperties` in `game_properties.dfy`.
  - The games live in an arena, the class `Arena`. Slot 0 is the unused null placeholder and
    `nextGame == 0` means "this is the final".
  - `Arena.games` holds each game's links and frozen pool (`Game(allOptions, priorGames, nextGame)`).
  - `Arena.selects` holds each game's select (`Select(options, selectedIndex)`).
  - `Arena.dispatched` records which game fired `TOURNAMENT_UPDATED`, one entry per event.
  - Every method that changes the arena is proved equal to a pure function of the old state,
    for example `NameSelected`, `OptionsUpdated`, `NextGameUpdated` and `WinnerFilledBackwards`.
    The properties are lemmas about those functions.
- `bracketHelper.js` (`bracketHelper.SelectUpdater`): module `BracketHelper` in
  `bracket_helper.dfy`, with its properties in module `HelperProperties` in
  `helper_properties.dfy`.
  - The class `SelectUpdater` owns an `Arena`, a `submitEnabled` flag and the style class of
    every game.
  - The page's select elements are a sequence of `Element(name, options)` passed to the
    constructor.
  - JavaScript's `<` on strings is written out as `NameBefore`.
  - The library sort is replaced by an insertion sort proved sorted and a permutation.

A user edit is modelled as `SelectIndex` (the browser changes `selectedIndex`) followed by the
select's `onchange` handler, `winnerSelectedByUser`. In the controller, the
`TOURNAMENT_UPDATED` listener runs at the moment the final dispatches. That is the last step of
`updateNextGame`, before `fillWinnerBackwards` runs (`SelectUpdater.OnUserSelection`).

Teams are assumed not to be called `NONE`. `SelectOk` requires `NONE` at position 0 and nowhere
else. `setOptionsWithNames` is modelled as also putting `selectedIndex` back to 0, the DOM's
behaviour when `options.length = 0` empties the select and option 0 is then added, so the index
is 0 whichever of its three callers (`resetGame`, `updateOptions`, `fillWinnerBackwards`) runs it.

## Model

| member | source | states |
|---|---|---|
| BracketGame.IndexOf | bracketHelperGame.js:118-123 | the search of updateElementWithName: the result is the first position holding the name, or the length when the name is absent (both directions) |
| BracketGame.Winner | bracketHelperGame.js:253-256 | getSelectedWinner: the winner is one of the listed options, and it is NONE iff the index is 0 |
| BracketGame.WhoMightAdvance | bracketHelperGame.js:152-166 | never NONE, and only listed options; GameProperties.WhoMightAdvanceElection gives the election rule |
| BracketGame.MightAdvance | bracketHelperGame.js:177-182 | the names the priors send on, last prior first, never include NONE |
| BracketGame.NameSelected | bracketHelperGame.js:114-146 | updateElementWithName changes only game i's selected index, never its options, and keeps every select well formed |
| BracketGame.OptionsRecomputed | bracketHelperGame.js:176-186 | rebuilding game i's options from its priors touches no other game and keeps every select well formed |
| BracketGame.NextGameUpdated | bracketHelperGame.js:204-212 | the walk towards the final keeps every select well formed |
| BracketGame.OptionsUpdated | bracketHelperGame.js:173-189 | updateOptions keeps every select well formed |
| BracketGame.ChainRoot | bracketHelperGame.js:204-212 | the game where the walk from game i ends is game i or an earlier slot, and it has no next game |
| BracketGame.WinnerFilledBackwards | bracketHelperGame.js:217-238 | the backward fill keeps every select well formed and never changes the options of a first-round game |
| BracketGame.PriorsFilled | bracketHelperGame.js:223-227 | filling the first k priors in order keeps every select well formed and the first-round options |
| BracketGame.WinnerSelected | bracketHelperGame.js:194-198 | winnerSelectedByUser keeps every select well formed |
| BracketGame.Arena.constructor | bracketHelper.js:47 | the arena starts with only the null placeholder in slot 0 |
| BracketGame.Arena.NewGame | bracketHelperGame.js:17-71 | the new game takes the next slot; its pool is the initial options without entry 0, in order; it shows those options with NONE selected; it is appended to the priors of its next game |
| BracketGame.Arena.AddChild | bracketHelperGame.js:76-78 | the prior game is appended to the game's priors and nothing else changes |
| BracketGame.Arena.SetOptionsWithNames | bracketHelperGame.js:95-103 | the select becomes NONE followed by the names, with NONE selected, including for an empty list; no other game changes |
| BracketGame.Arena.ResetGame | bracketHelperGame.js:85-88 | the select becomes NONE followed by the game's original pool with NONE selected, whatever it held before |
| BracketGame.Arena.SelectIndex | bracketHelperGame.js:67 | the user's pick sets only that select's index |
| BracketGame.Arena.UpdateElementWithName | bracketHelperGame.js:114-146 | the search loop and both guards give exactly NameSelected |
| BracketGame.CollectMightAdvance | bracketHelperGame.js:177-182 | the reverse loop over the priors collects exactly MightAdvance, last prior first |
| BracketGame.Arena.UpdateOptions | bracketHelperGame.js:173-189 | the new selects are OptionsUpdated; exactly one TOURNAMENT_UPDATED is fired, by the final the walk reaches |
| BracketGame.Arena.UpdateNextGame | bracketHelperGame.js:204-212 | the new selects are NextGameUpdated; exactly one TOURNAMENT_UPDATED is fired, and only by a final |
| BracketGame.Arena.FillWinnerBackwards | bracketHelperGame.js:217-238 | the recursive fill gives exactly WinnerFilledBackwards and fires no event |
| BracketGame.Arena.WinnerSelectedByUser | bracketHelperGame.js:194-198 | updateNextGame and then fillWinnerBackwards of the selected winner give exactly WinnerSelected; one event, from the final |
| BracketGame.GameAddedWired | bracketHelperGame.js:68-71 | adding a game keeps the links consistent both ways: the new game names its next game, and the next game lists it as its last prior |
| GameProperties.WhoMightAdvanceElection | bracketHelperGame.js:152-166 | the winner is NONE iff the index is 0; undecided, every listed team may advance, in order; decided, only the winner |
| GameProperties.MightAdvanceHas | bracketHelperGame.js:179-182 | every name that any prior may send on is among the rebuilt options |
| GameProperties.MightAdvanceFrame | bracketHelperGame.js:179-182 | the rebuilt options depend only on the priors' selects |
| GameProperties.NameSelectedSpec | bracketHelperGame.js:114-146 | options unchanged; when the name is listed and the game has no priors, or a prior's winner is the name, its first position is selected; otherwise NONE; NONE itself gives index 0 |
| GameProperties.NameSelectedStable | bracketHelperGame.js:114-146 | selecting by name the winner just selected changes nothing |
| GameProperties.PriorWinnerOkFrame | bracketHelperGame.js:133-144 | the prior-round guard depends only on the priors' selects |
| GameProperties.OptionsRecomputedSpec | bracketHelperGame.js:173-186 | the options become NONE followed by the priors' names, last prior first; the old winner stays selected iff it is still listed and passes the prior-round guard, otherwise NONE |
| GameProperties.OptionsRecomputedLocal | bracketHelperGame.js:173-186 | the recompute of game i depends only on game i and its priors |
| GameProperties.OptionsRecomputedIdempotent | bracketHelperGame.js:173-186 | rebuilding a game's options twice with no edit in between gives the same state |
| GameProperties.NextGameUpdatedFrame | bracketHelperGame.js:204-212 | propagation from game i changes only the games after i on the way to the final |
| GameProperties.NextGameUpdatedKeeps | bracketHelperGame.js:204-212 | propagation from game i leaves game i and every later slot as they were |
| GameProperties.RecomputedSettled | bracketHelperGame.js:173-186 | a game already settled stays settled when only earlier slots differ |
| GameProperties.NextGameUpdatedIdempotent | bracketHelperGame.js:204-212 | propagating twice from the same game with no edit in between gives the same state |
| GameProperties.OptionsUpdatedIdempotent | bracketHelperGame.js:173-189 | calling updateOptions twice with no edit in between gives the same state |
| GameProperties.ChainRootIsFinal | bracketHelperGame.js:204-212 | the walk from game i ends at a final on its path, and it takes fewer than i steps |
| GameProperties.FillWithoutNameIsNoop | bracketHelperGame.js:219-221 | the fill of a name the game never listed changes nothing |
| GameProperties.FillFrame | bracketHelperGame.js:217-238 | the fill changes only games it reaches through pools that list the name |
| GameProperties.PriorsFillFrame | bracketHelperGame.js:223-227 | filling the priors changes only games reached through pools that list the name |
| GameProperties.FillStaysInSubtree | bracketHelperGame.js:217-238 | the fill never changes a game outside the subtree of the game it starts at |
| GameProperties.FillSkipsSubtreesWithout | bracketHelperGame.js:219-221 | a subtree whose root never listed the name is left as it was |
| GameProperties.FillSelectsOnFreshLeaf | bracketHelperGame.js:217-238 | on a first-round game still showing its whole pool, the filled name ends up selected |
| GameProperties.SelectAfterPriorWon | bracketHelperGame.js:229-237 | once a prior's winner is the name, rebuilding the options and selecting the name picks it |
| GameProperties.PriorWinsAfterFill | bracketHelperGame.js:223-227 | in a bracket where every game has zero or two priors and every pool is covered by its priors' pools, filling both priors leaves one of them with the name as winner |
| GameProperties.FilledWinnerIsSelected | bracketHelperGame.js:217-238 | in such a bracket with untouched first-round pools, a name in the game's pool ends up selected in that game after the fill |
| GameProperties.TestBracketReady | bracketHelperGame_test.js:10-43 | the three-game bracket of the unit tests is well formed and every game has zero or two priors |
| GameProperties.ScenarioOneElimination | bracketHelperGame_test.js:126-135 | after game 3 picks team2, the final offers NONE, team2, team1, team4 |
| GameProperties.TestRootUpdated | bracketHelperGame.js:204-212 | on the final, updateOptions is the final's own recompute |
| GameProperties.TestRootRecomputed | bracketHelperGame.js:173-186 | the final's options and index after one recompute, in terms of its priors' names |
| GameProperties.ScenarioChangeToLoseWinner | bracketHelperGame_test.js:169-200 | the kept test of changing an early pick: the final goes to 4, then 3 options, selects team3 at index 1, and falls back to NONE with NONE, team2, team1 |
| GameProperties.ScenarioUpdateElementWithName | bracketHelperGame.js:133-145 | asking the fresh final for team2, which no prior has picked, selects NONE; so do an unlisted name and NONE itself |
| BracketHelper.NameBeforeIrreflexive | bracketHelper.js:115 | no name comes before itself |
| BracketHelper.NameBeforeTrichotomy | bracketHelper.js:115-117 | of two different names exactly one comes first; equal names neither |
| BracketHelper.NameBeforeTransitive | bracketHelper.js:115-117 | the name order is transitive |
| BracketHelper.CompareSelectElements | bracketHelper.js:114-122 | the result is -1, 0 or 1; BracketHelper.CompareSelectElementsOrder gives its order properties |
| BracketHelper.CompareSelectElementsOrder | bracketHelper.js:114-122 | compare(a, b) == -compare(b, a); 0 iff the names are equal; compare(a, a) == 0; 1 iff a's name is smaller; a total preorder, descending by name |
| BracketHelper.InsertByName | bracketHelper.js:42 | insertion adds exactly one copy of the element |
| BracketHelper.InsertByNameSorted | bracketHelper.js:42 | insertion into a list sorted by the comparator keeps it sorted |
| BracketHelper.SortByName | bracketHelper.js:42 | the sorted elements are a permutation of the page's elements, ordered by descending name |
| BracketHelper.SortByNameOk | bracketHelper.js:42 | sorting keeps every element well formed |
| BracketHelper.HeapPriorsStep | bracketHelper.js:51-53 | adding game n extends only the priors of game n / 2 |
| BracketHelper.RemainingNones | bracketHelper.js:103-111 | the count over slots 1..n is at most n; BracketHelper.CountNonesAll and BracketHelper.CountNonesZero give when it is n and when it is 0 |
| BracketHelper.ClassOf | bracketHelper.js:127-133 | a well-formed game is classed game-none iff its winner is NONE |
| BracketHelper.CountNones | bracketHelper.js:103-111 | the undecided count never exceeds the number of games |
| BracketHelper.SelectUpdater.constructor | bracketHelper.js:38-53 | one game per element, in sorted order; slot 0 is the placeholder and game 1 the final; the next game of game i is game i / 2; all undecided, count n, submit disabled, every game game-none |
| BracketHelper.SelectUpdater.CountRemainingNones | bracketHelper.js:103-111 | the accumulator loop returns the number of games in slots 1..n with index 0 |
| BracketHelper.SelectUpdater.UpdateSelectElementClass | bracketHelper.js:125-135 | each game is classed game-none iff its index is 0, game-completed otherwise |
| BracketHelper.SelectUpdater.OnTournamentUpdated | bracketHelper.js:85-94 | submit is enabled iff the remaining count is 0, and every game is reclassified |
| BracketHelper.SelectUpdater.ResetBracket | bracketHelper.js:77-82 | every game is reset without propagation and classed game-none; the submit flag is left as it was |
| BracketHelper.SelectUpdater.ResetBracketAndSubmit | bracketHelper.js:77-94 | the reset, with the submit button disabled as the remaining count now requires |
| BracketHelper.SelectUpdater.ResetAllGames | bracketHelper.js:78-80 | the reset loop leaves every game showing NONE and its pool with index 0, and the remaining count is n |
| BracketHelper.SelectUpdater.OnUserSelection | bracketHelper.js:85-94 | a user pick of a different option as the page runs it: the selects become winnerSelectedByUser's; submit and every game's class reflect the selects at the final's dispatch, before the backward fill |
| BracketHelper.SelectUpdater.OnUserSelectionSettled | bracketHelper.js:85-94 | a user pick of a different option with the listener run after the fill: submit is enabled iff no game is undecided in the final state, and every game's class follows its final select |
| BracketHelper.BuildGames | bracketHelper.js:43-53 | the insert loop builds the array-stored tree: game i's next game is i / 2 and its priors are 2i and 2i + 1 where present; count n |
| BracketHelper.HeapShapedStep | bracketHelper.js:51-53 | appending game n with next game n / 2 keeps the tree shape and every pool |
| BracketHelper.AllResetUndecided | bracketHelper.js:77-82 | after the reset every game shows NONE and its pool with index 0, and the count is n |
| BracketHelper.CountNonesAll | bracketHelper.js:103-111 | the count equals the number of games iff every game is undecided |
| BracketHelper.CountNonesZero | bracketHelper.js:103-111 | the count is 0 iff every game is decided |
| BracketHelper.HeapChainRoot | bracketHelper.js:48-53 | in the controller's tree, propagation from any game ends at the final, game 1, so the listener on the final hears every update |
| HelperProperties.HeapChildren | bracketHelper.js:51-53 | game k's priors are [2k, 2k + 1] when both exist, [2k] when 2k is the last game, and none otherwise |
| HelperProperties.HeapBinaryIffOdd | bracketHelper.js:51-53 | every game has zero or two priors iff the number of games is odd |
| HelperProperties.HeapDepth | bracketHelper.js:45-53 | game i is Log2(i) rounds before the final |
| HelperProperties.HeapFullBracket | bracketHelper.js:51-53 | a bracket of 2^r - 1 games has zero or two priors at every game, as updateElementWithName assumes |
| HelperProperties.ScenarioSortTestElements | bracketHelper.js:42 | the unit tests' elements entry125, entry126, entry127 sort as entry127, entry126, entry125 |
| HelperProperties.TestBracketHeapShaped | bracketHelper.js:48-53 | the unit tests' bracket has the controller's tree shape and both first-round games propagate to the final |
| HelperProperties.ScenarioFirstPick | bracketHelperGame_test.js:203-211 | game 3 picking team2 through winnerSelectedByUser narrows the final to NONE, team2, team1, team4, and nothing else changes |
| HelperProperties.ScenarioSecondPickPriors | bracketHelperGame.js:223-227 | team1 picked in the final is filled into game 2; game 3 keeps team2 |
| HelperProperties.ScenarioSecondPick | bracketHelperGame.js:194-198 | then picking team1 in the final decides every game: the final offers NONE, team2, team1 with team1 selected |
| HelperProperties.StaleSubmitAfterBackfill | bracketHelper.js:85-94 | in that pick the listener counts one undecided game, but once the fill has run none is left, and game 2 is decided while classed game-none |
| HelperProperties.SettledSubmitMeansDecided | bracketHelper.js:85-94 | a count taken on the settled state is 0 iff every game is decided |
| HelperProperties.StaleSubmitAfterReset | bracketHelper.js:77-82 | from a state with no game undecided, the reset makes the count n, which is not 0 |
| HelperProperties.StaleSubmitAfterResetScenario | bracketHelper.js:77-82 | the decided scenario bracket counts 0 before the reset and 3 after it |

## Left out

- DOM discovery (`goog.dom.getElementsByTagNameAndClass`, `getElement`): the constructor takes the page's select elements as a sequence of name and options.
- `goog.array.sort` is replaced by a stable insertion sort. The library's treatment of equal names is not modelled.
- The Closure UI buttons, tooltips and the tooltip text ("N games still need to be selected"): only the submit button's enabled flag is kept. The button's own action listener does nothing and is not modelled.
- Event plumbing (`goog.events.EventTarget`, `goog.bind` onchange wiring, listener registration): the event becomes the `dispatched` record and the user edit becomes an explicit method call.
- `console.log` diagnostics and `toString` print only and are not modelled.
- `goog.dom.classes.set` becomes the `classes` field (`GameNone` / `GameCompleted`). The CSS class strings themselves are not modelled.
- `window.onload` and the getters `getSelectElement`, `getNextGame` and `getPriorGames` are not modelled; the model reads the fields directly.
- SelectUpdater.OnUserSelection, SelectUpdater.OnUserSelectionSettled: require the picked option to differ from the selected one. Re-picking the selected option fires no `change` event, so `winnerSelectedByUser` does not run.
- Option values and option texts are taken to be the same string. The pool is read from `value`; every other read uses `text`.
- Characters are compared as Dafny `char`s. JavaScript compares UTF-16 code units, and the two orders differ only outside the Basic Multilingual Plane.
- BracketGame.NameSelected: requires that game i does not have exactly one prior. The source reads the second prior and throws when there is none, except when the first prior's winner already equals the name, in which case it does not throw. The propagation members (BracketGame.NextGameUpdated, BracketGame.OptionsUpdated, BracketGame.WinnerFilledBackwards, BracketGame.PriorsFilled, BracketGame.WinnerSelected, the methods Arena.UpdateOptions, Arena.UpdateNextGame, Arena.FillWinnerBackwards, Arena.WinnerSelectedByUser, and SelectUpdater.OnUserSelection / OnUserSelectionSettled) require `NoSinglePrior` of the whole bracket, which is stronger than the source needs: the source only fails when a game it actually visits has exactly one prior and the second-prior lookup is reached. For example, in a 4-game bracket a pick in game 3 runs cleanly in the source but is outside what the model covers. HelperProperties.HeapBinaryIffOdd shows that the controller's tree meets this exactly when the number of games is odd.
- BracketHelper.SelectUpdater.constructor: requires at least one select element. With none, the source still builds a final `Game`, but its element is undefined, so the game's `init_` is skipped, and the controller's closing `updateSelectElementClass` (bracketHelper.js:96) then fails reading `options` of that undefined element.
- BracketGame.Arena.NewGame, BracketHelper.SelectUpdater.constructor: `init_` (bracketHelperGame.js:60-71) never sets `selectedIndex`. The model's "NONE selected" for a new game, and so the count n of a fresh tree, assume the page's markup marks no option as `selected`.
- The unit test at bracketHelperGame_test.js:89-90 expects the fresh final to select team2 by name. The code's prior-round guard selects NONE there, and the model follows the code (GameProperties.ScenarioUpdateElementWithName).
- The first of the two `testUpdateOptionsChangeToLoseWinner` definitions (bracketHelperGame_test.js:137-167) is replaced by the second and is not modelled.

## Findings

| source | as written | input that shows it | evidently intended | confidence | as-written member | corrected member |
|---|---|---|---|---|---|---|
| bracketHelper.js:77-82 | the Clear Bracket action resets every game and reclassifies, but leaves the submit button untouched | decide every game, so submit is enabled; then clear the bracket: all games are NONE again and submit is still enabled | clearing the bracket also disables submit, because undecided games remain | not executed; medium | BracketHelper.SelectUpdater.ResetBracket, HelperProperties.StaleSubmitAfterReset | BracketHelper.SelectUpdater.ResetBracketAndSubmit |
| bracketHelper.js:85-94 | the count and classification run when the final dispatches at the end of updateNextGame, before fillWinnerBackwards fills earlier rounds | in the unit tests' bracket pick team2 in game 3, then team1 in the final: the fill decides game 2, every game is decided, but the listener counted 1, so submit stays disabled and game 2 stays game-none | the count and classification reflect the state after the whole edit, so submit is enabled once every game is decided | not executed; medium | BracketHelper.SelectUpdater.OnUserSelection, HelperProperties.StaleSubmitAfterBackfill | BracketHelper.SelectUpdater.OnUserSelectionSettled, HelperProperties.SettledSubmitMeansDecided |
