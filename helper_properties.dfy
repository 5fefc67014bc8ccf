/** Properties of the controller: the shape of the tree it builds, and two places where
    the submit button falls out of step with the games. */
module HelperProperties {
  import opened BracketGame
  import opened GameProperties
  import opened BracketHelper

  // ---------------------------------------------------------------------------
  // The tree init_ builds
  // ---------------------------------------------------------------------------

  /** Whole-number base-2 logarithm. */
  function Log2(i: nat): nat
    requires i >= 1
  {
    if i == 1 then 0 else 1 + Log2(i / 2)
  }

  /** Game k has priors 2k and 2k + 1 when both exist, only 2k when that is the last game,
      and none beyond the middle. */
  lemma HeapChildren(gs: seq<Game>, k: nat)
    requires HeapShaped(gs) && 1 <= k < |gs|
    ensures 2 * k + 1 < |gs| ==> gs[k].priorGames == [2 * k, 2 * k + 1]
    ensures 2 * k + 1 == |gs| ==> gs[k].priorGames == [2 * k]
    ensures 2 * k >= |gs| ==> gs[k].priorGames == []
  {
  }

  /** Every game has none or two prior games exactly when the number of games is odd;
      with an even number the last game is the only prior of its next game. */
  lemma HeapBinaryIffOdd(gs: seq<Game>)
    requires HeapShaped(gs)
    ensures NoSinglePrior(gs) <==> (|gs| - 1) % 2 == 1
    ensures Binary(gs) <==> (|gs| - 1) % 2 == 1
  {
    var n := |gs| - 1;
    if n % 2 == 0 {
      HeapChildren(gs, n / 2);
      assert |gs[n / 2].priorGames| == 1;
    } else {
      forall k | 0 <= k < |gs|
        ensures |gs[k].priorGames| == 0 || |gs[k].priorGames| == 2
      {
        if k > 0 {
          HeapChildren(gs, k);
        }
      }
    }
  }

  /** Game i sits Log2(i) rounds before the final. */
  lemma {:induction false} HeapDepth(gs: seq<Game>, i: nat)
    requires Wired(gs) && HeapShaped(gs) && 1 <= i < |gs|
    ensures Depth(gs, i) == Log2(i)
    decreases i
  {
    if i > 1 {
      HeapDepth(gs, i / 2);
    }
  }

  /** A bracket of 2^r - 1 games is a full tree: every game has two priors or none. */
  lemma HeapFullBracket(gs: seq<Game>, r: nat)
    requires HeapShaped(gs) && |gs| == Pow2(r) && r >= 1
    ensures Binary(gs) && NoSinglePrior(gs)
  {
    Pow2Even(r);
    HeapBinaryIffOdd(gs);
  }

  function Pow2(r: nat): nat {
    if r == 0 then 1 else 2 * Pow2(r - 1)
  }

  lemma Pow2Even(r: nat)
    requires r >= 1
    ensures Pow2(r) % 2 == 0 && Pow2(r) >= 2
  {
  }

  // ---------------------------------------------------------------------------
  // The bracket of the game tests, built by the controller
  // ---------------------------------------------------------------------------

  /** The three select elements of the game tests, in page order. */
  function TestElements(): seq<Element> {
    [Element("entry125", [NONE, Team1, Team4]), Element("entry126", [NONE, Team2, Team3]),
     Element("entry127", [NONE, Team1, Team2, Team3, Team4])]
  }

  /** entry125 < entry126 < entry127 in the string order. */
  lemma TestNamesOrdered()
    ensures NameBefore("entry125", "entry126") && NameBefore("entry126", "entry127")
    ensures NameBefore("entry125", "entry127")
  {
    NameBeforeSamePrefix("entry", "125", "126");
    NameBeforeSamePrefix("entry", "126", "127");
    NameBeforeSamePrefix("entry", "125", "127");
    assert "entry125" == "entry" + "125" && "entry126" == "entry" + "126" && "entry127" == "entry" + "127";
  }

  /** A common prefix does not change the order. */
  lemma {:induction false} NameBeforeSamePrefix(p: string, a: string, b: string)
    ensures NameBefore(p + a, p + b) == NameBefore(a, b)
    decreases |p|
  {
    if |p| == 0 {
      assert p + a == a && p + b == b;
    } else {
      assert (p + a)[0] == (p + b)[0];
      assert (p + a)[1..] == p[1..] + a && (p + b)[1..] == p[1..] + b;
      NameBeforeSamePrefix(p[1..], a, b);
    }
  }

  /** Sorted by descending name, entry127 becomes the final and entry126, entry125 its priors. */
  lemma ScenarioSortTestElements()
    ensures SortByName(TestElements()) == [TestElements()[2], TestElements()[1], TestElements()[0]]
  {
    var es := TestElements();
    TestNamesOrdered();
    assert es == [es[0], es[1], es[2]];
    SortThreeAscending(es[0], es[1], es[2]);
  }

  /** Three elements whose names ascend come out in reverse order. */
  lemma SortThreeAscending(x: Element, y: Element, z: Element)
    requires NameBefore(x.name, y.name) && NameBefore(y.name, z.name) && NameBefore(x.name, z.name)
    ensures SortByName([x, y, z]) == [z, y, x]
  {
    assert [x, y, z][1..] == [y, z];
    SortTwoAscending(y, z);
    InsertSmallest(x, z, y);
  }

  lemma SortTwoAscending(y: Element, z: Element)
    requires NameBefore(y.name, z.name)
    ensures SortByName([y, z]) == [z, y]
  {
    assert [y, z][1..] == [z] && [z][1..] == [];
    assert CompareSelectElements(y, z) == 1;
    assert SortByName([z]) == [z];
    assert InsertByName(y, [z]) == [z] + InsertByName(y, []);
  }

  lemma InsertSmallest(x: Element, z: Element, y: Element)
    requires NameBefore(x.name, y.name) && NameBefore(x.name, z.name)
    ensures InsertByName(x, [z, y]) == [z, y, x]
  {
    assert CompareSelectElements(x, z) == 1 && CompareSelectElements(x, y) == 1;
    assert [z, y][1..] == [y] && [y][1..] == [];
    assert InsertByName(x, [y]) == [y, x];
  }

  /** The test bracket has the controller's tree shape. */
  lemma TestBracketHeapShaped()
    ensures HeapShaped(TestGames()) && Wired(TestGames())
    ensures ChainRoot(TestGames(), 2) == 1 && ChainRoot(TestGames(), 3) == 1
  {
    TestBracketReady();
    HeapChainRoot(TestGames(), 2);
    HeapChainRoot(TestGames(), 3);
  }

  /** The selects once team2 has won game 3 (and nothing else is decided). */
  function AfterFirstPick(): seq<Select> {
    [NullSelect, Select([NONE, Team2, Team1, Team4], 0),
     Select([NONE, Team1, Team4], 0), Select([NONE, Team2, Team3], 1)]
  }

  /** The selects once team1 is then picked as the champion. */
  function AfterSecondPick(): seq<Select> {
    [NullSelect, Select([NONE, Team2, Team1], 2),
     Select([NONE, Team1, Team4], 1), Select([NONE, Team2, Team3], 1)]
  }

  /** The fresh bracket with team2 picked in game 3. */
  function FirstPicked(): seq<Select> {
    TestSelects()[3 := Select([NONE, Team2, Team3], 1)]
  }

  /** The scenario bracket with team1 (option 2) picked in the final. */
  function SecondPicked(): seq<Select> {
    AfterFirstPick()[1 := Select([NONE, Team2, Team1, Team4], 2)]
  }

  /** The selects of the scenario are sound for the test bracket. */
  lemma ScenarioReady()
    ensures Ready(TestGames(), FirstPicked()) && Ready(TestGames(), AfterFirstPick())
    ensures Ready(TestGames(), SecondPicked()) && Ready(TestGames(), AfterSecondPick())
    ensures NoSinglePrior(TestGames()) && GameWired(TestGames(), 1)
    ensures GameWired(TestGames(), 2) && GameWired(TestGames(), 3)
  {
    TestBracketReady();
    var gs := TestGames();
    assert GameWired(gs, 1) && GameWired(gs, 2) && GameWired(gs, 3);
  }

  /** Propagating game 3's pick rebuilds the final from team2 and the teams of game 2. */
  lemma FirstPickForward()
    ensures Ready(TestGames(), FirstPicked()) && NoSinglePrior(TestGames())
    ensures NextGameUpdated(TestGames(), FirstPicked(), 3) == AfterFirstPick()
  {
    ScenarioReady();
    TeamsDistinct();
    var gs, picked := TestGames(), FirstPicked();
    assert WhoMightAdvance(picked[3]) + WhoMightAdvance(picked[2]) == [Team2, Team1, Team4];
    TestRootRecomputed(picked, [Team2, Team1, Team4]);
    assert [NONE] + [Team2, Team1, Team4] == [NONE, Team2, Team1, Team4];
    assert Winner(picked[1]) == NONE;
    assert IndexOf([NONE, Team2, Team1, Team4], NONE) == 0;
    assert OptionsUpdated(gs, picked, 1) == AfterFirstPick();
  }

  /** Filling team2 back into game 3, a first-round game, keeps it selected. */
  lemma FirstPickFill()
    ensures Ready(TestGames(), AfterFirstPick()) && NoSinglePrior(TestGames())
    ensures WinnerFilledBackwards(TestGames(), AfterFirstPick(), 3, Team2) == AfterFirstPick()
  {
    ScenarioReady();
    TeamsDistinct();
    var gs, ss1 := TestGames(), AfterFirstPick();
    assert IndexOf(ss1[3].options, Team2) == 1;
    TestLeafSelected(ss1, 3, Team2, 1);
    assert PriorsFilled(gs, ss1, 3, 0, Team2) == ss1;
  }

  /** Picking team2 in game 3 of the fresh bracket (testWinnerSelectedByUser) narrows the final
      to team2 and the teams of game 2 and fills nothing else. */
  lemma ScenarioFirstPick()
    ensures Ready(TestGames(), FirstPicked()) && NoSinglePrior(TestGames())
    ensures FirstPicked() == TestSelects()[3 := TestSelects()[3].(selectedIndex := 1)]
    ensures WinnerSelected(TestGames(), FirstPicked(), 3) == AfterFirstPick()
    ensures AfterFirstPick()[1].options == [NONE, Team2, Team1, Team4]
  {
    FirstPickForward();
    FirstPickFill();
    assert Winner(AfterFirstPick()[3]) == Team2;
  }

  /** The selects once team1 has been filled into game 2. */
  function FilledPriors(): seq<Select> {
    SecondPicked()[2 := Select([NONE, Team1, Team4], 1)]
  }

  /** The fill of the final's priors after the second pick: game 2 takes team1, game 3 keeps team2. */
  lemma ScenarioSecondPickPriors()
    ensures Ready(TestGames(), SecondPicked()) && NoSinglePrior(TestGames())
    ensures PriorsFilled(TestGames(), SecondPicked(), 1, 2, Team1) == FilledPriors()
    ensures Ready(TestGames(), FilledPriors())
  {
    ScenarioReady();
    TeamsDistinct();
    var gs, picked := TestGames(), SecondPicked();
    var a := FilledPriors();
    assert Ready(gs, a);
    assert PriorsFilled(gs, picked, 2, 0, Team1) == picked;
    assert IndexOf(picked[2].options, Team1) == 1;
    TestLeafSelected(picked, 2, Team1, 1);
    assert WinnerFilledBackwards(gs, picked, 2, Team1) == a;
    assert PriorsFilled(gs, picked, 1, 1, Team1) == a;
    assert Team1 !in gs[3].allOptions;
    assert WinnerFilledBackwards(gs, a, 3, Team1) == a;
  }

  /** After the fill, the final's priors send on team2 (game 3) and team1 (game 2). */
  lemma SecondPickMightAdvance()
    ensures Ready(TestGames(), FilledPriors())
    ensures MightAdvance(FilledPriors(), TestGames()[1].priorGames) == [Team2, Team1]
  {
    ScenarioSecondPickPriors();
    var gs, a := TestGames(), FilledPriors();
    assert gs[1].priorGames == [2, 3];
    MightAdvancePair(a, 2, 3);
    assert a[2] == Select([NONE, Team1, Team4], 1);
    assert a[3] == Select([NONE, Team2, Team3], 1);
    assert WhoMightAdvance(a[3]) == [Team2];
    assert WhoMightAdvance(a[2]) == [Team1];
  }

  /** The names two priors send on: the second prior's first. */
  lemma MightAdvancePair(ss: seq<Select>, p: nat, q: nat)
    requires AllOk(ss) && p < |ss| && q < |ss|
    ensures MightAdvance(ss, [p, q]) == WhoMightAdvance(ss[q]) + WhoMightAdvance(ss[p])
  {
    var w, v := WhoMightAdvance(ss[q]), WhoMightAdvance(ss[p]);
    assert [p, q][..1] == [p];
    assert MightAdvance(ss, [p, q]) == w + MightAdvance(ss, [p]);
    assert [p][..0] == [];
    assert MightAdvance(ss, [p]) == v + [];
    assert v + [] == v;
  }

  /** The final rebuilt from its filled priors offers team2 and team1 and selects team1. */
  lemma SecondPickRoot()
    ensures Ready(TestGames(), FilledPriors()) && NoSinglePrior(TestGames())
    ensures MightAdvance(FilledPriors(), TestGames()[1].priorGames) == [Team2, Team1]
    ensures var b := FilledPriors()[1 := FreshSelect([Team2, Team1])];
      Ready(TestGames(), b) && NameSelected(TestGames(), b, 1, Team1) == AfterSecondPick()
  {
    ScenarioReady();
    SecondPickMightAdvance();
    TeamsDistinct();
    var gs := TestGames();
    var b := FilledPriors()[1 := Select([NONE, Team2, Team1], 0)];
    assert FreshSelect([Team2, Team1]) == Select([NONE, Team2, Team1], 0);
    assert Ready(gs, b);
    assert IndexOf(b[1].options, Team1) == 2;
    assert GameWired(gs, 1);
    assert Winner(b[2]) == Team1;
    assert PriorWinnerOk(gs, b, 1, Team1);
  }

  /** The backward fill of team1 from the final. */
  lemma SecondPickFill()
    ensures Ready(TestGames(), SecondPicked()) && NoSinglePrior(TestGames())
    ensures WinnerFilledBackwards(TestGames(), SecondPicked(), 1, Team1) == AfterSecondPick()
  {
    ScenarioReady();
    ScenarioSecondPickPriors();
    SecondPickRoot();
    var gs := TestGames();
    assert GameWired(gs, 1) && gs[1].priorGames == [2, 3];
    assert Team1 in gs[1].allOptions;
  }

  /** Then picking team1 in the final fills game 2 backwards and decides every game. */
  lemma ScenarioSecondPick()
    ensures Ready(TestGames(), SecondPicked()) && NoSinglePrior(TestGames())
    ensures SecondPicked() == AfterFirstPick()[1 := AfterFirstPick()[1].(selectedIndex := 2)]
    ensures NextGameUpdated(TestGames(), SecondPicked(), 1) == SecondPicked()
    ensures WinnerSelected(TestGames(), SecondPicked(), 1) == AfterSecondPick()
  {
    ScenarioReady();
    SecondPickFill();
    var gs, picked := TestGames(), SecondPicked();
    assert NextGameUpdated(gs, picked, 1) == picked;
    assert Winner(picked[1]) == Team1;
  }

  // ---------------------------------------------------------------------------
  // Finding: the submit button is judged before the backward fill
  // ---------------------------------------------------------------------------

  /** The last pick of the scenario decides every game, yet the listener, which runs when the
      final dispatches at the end of updateNextGame, still sees game 2 undecided: as written,
      OnUserSelection leaves submit disabled and game 2 styled game-none. */
  lemma StaleSubmitAfterBackfill()
    ensures var picked := SecondPicked();
      Ready(TestGames(), picked) && NoSinglePrior(TestGames()) &&
      RemainingNones(NextGameUpdated(TestGames(), picked, 1)) == 1 &&
      RemainingNones(WinnerSelected(TestGames(), picked, 1)) == 0 &&
      ClassOf(NextGameUpdated(TestGames(), picked, 1)[2]) == GameNone &&
      ClassOf(WinnerSelected(TestGames(), picked, 1)[2]) == GameCompleted
  {
    ScenarioSecondPick();
    CountNonesByHand(SecondPicked()[1..]);
    CountNonesByHand(AfterSecondPick()[1..]);
  }

  lemma CountNonesByHand(ss: seq<Select>)
    requires |ss| == 3
    ensures CountNones(ss) ==
      (if ss[0].selectedIndex == 0 then 1 else 0) + (if ss[1].selectedIndex == 0 then 1 else 0) +
      (if ss[2].selectedIndex == 0 then 1 else 0)
  {
    assert ss[..2][..1] == ss[..1];
    assert ss[..1][..0] == [];
  }

  /** With the listener run after the fill, the submit button follows the settled games:
      it is enabled exactly when every game is decided. */
  lemma SettledSubmitMeansDecided(ss: seq<Select>)
    requires |ss| >= 1
    ensures RemainingNones(ss) == 0 <==> forall j :: 1 <= j < |ss| ==> ss[j].selectedIndex != 0
  {
    CountNonesZero(ss[1..]);
    assert forall j :: 1 <= j < |ss| ==> ss[j] == ss[1..][j - 1];
  }

  // ---------------------------------------------------------------------------
  // Finding: the reset action leaves the submit button as it was
  // ---------------------------------------------------------------------------

  /** When submit was enabled (no game undecided), the reset makes every game undecided again,
      so the unchanged submit flag of ResetBracket no longer agrees with the count. */
  lemma StaleSubmitAfterReset(gs: seq<Game>, ss: seq<Select>)
    requires |ss| == |gs| >= 2 && RemainingNones(ss) == 0
    ensures RemainingNones(AllReset(gs, ss)) == |gs| - 1 && RemainingNones(AllReset(gs, ss)) != 0
  {
    AllResetUndecided(gs, ss);
  }

  /** The decided scenario bracket is such a state. */
  lemma StaleSubmitAfterResetScenario()
    ensures RemainingNones(AfterSecondPick()) == 0
    ensures RemainingNones(AllReset(TestGames(), AfterSecondPick())) == 3
  {
    CountNonesByHand(AfterSecondPick()[1..]);
    AllResetUndecided(TestGames(), AfterSecondPick());
  }
}
