/** What bracketHelperGame.js promises about one game and about propagation through the bracket. */
module GameProperties {
  import opened BracketGame

  // ---------------------------------------------------------------------------
  // Tree vocabulary
  // ---------------------------------------------------------------------------

  /** Game j lies in the subtree rooted at game k: walking next games from j reaches k. */
  ghost predicate InSubtree(gs: seq<Game>, j: nat, k: nat)
    decreases j
  {
    1 <= j < |gs| && GameWired(gs, j) &&
    (j == k || InSubtree(gs, gs[j].nextGame, k))
  }

  /** Game j lies in the subtree of game i and every game on the way from j up to i
      has name in its pool: the games that fillWinnerBackwards(name) on i can visit. */
  ghost predicate Reached(gs: seq<Game>, j: nat, i: nat, name: string)
    decreases j
  {
    1 <= j < |gs| && GameWired(gs, j) && name in gs[j].allOptions &&
    (j == i || Reached(gs, gs[j].nextGame, i, name))
  }

  /** The number of next-game links from game i up to the final. */
  ghost function Depth(gs: seq<Game>, i: nat): nat
    requires Wired(gs) && 1 <= i < |gs|
    decreases i
  {
    assert GameWired(gs, i);
    if gs[i].nextGame == NULL then 0 else 1 + Depth(gs, gs[i].nextGame)
  }

  lemma {:induction false} InSubtreeBelow(gs: seq<Game>, j: nat, k: nat)
    requires InSubtree(gs, j, k)
    ensures 1 <= k <= j
    decreases j
  {
    if j != k {
      InSubtreeBelow(gs, gs[j].nextGame, k);
    }
  }

  lemma {:induction false} ReachedInSubtree(gs: seq<Game>, j: nat, i: nat, name: string)
    requires Reached(gs, j, i, name)
    ensures InSubtree(gs, j, i) && i <= j
    decreases j
  {
    if j != i {
      ReachedInSubtree(gs, gs[j].nextGame, i, name);
    }
  }

  /** A game reached from a prior p of game i is reached from i, when i's pool has the name. */
  lemma {:induction false} ReachedLift(gs: seq<Game>, j: nat, p: nat, i: nat, name: string)
    requires Wired(gs) && 1 <= i < |gs| && name in gs[i].allOptions
    requires 1 <= p < |gs| && gs[p].nextGame == i
    requires Reached(gs, j, p, name)
    ensures Reached(gs, j, i, name)
    decreases j
  {
    assert GameWired(gs, i);
    if j == p {
      assert Reached(gs, i, i, name);
    } else {
      ReachedLift(gs, gs[j].nextGame, p, i, name);
    }
  }

  /** A game reached from i that lies below game k (itself below i) is reached through k,
      so k's pool has the name. */
  lemma {:induction false} ReachedThrough(gs: seq<Game>, j: nat, k: nat, i: nat, name: string)
    requires Reached(gs, j, i, name) && InSubtree(gs, j, k) && InSubtree(gs, k, i)
    ensures name in gs[k].allOptions
    decreases j
  {
    if j != k {
      if j == i {
        InSubtreeBelow(gs, j, k);
        InSubtreeBelow(gs, k, i);
      } else {
        ReachedThrough(gs, gs[j].nextGame, k, i, name);
      }
    }
  }

  // ---------------------------------------------------------------------------
  // One game: the election rule and select-by-name
  // ---------------------------------------------------------------------------

  /** whoMightAdvance: an undecided game sends on all its entrants, in order; a decided one
      exactly its winner. The winner is NONE exactly when option 0 is selected. */
  lemma WhoMightAdvanceElection(s: Select)
    requires SelectOk(s)
    ensures Winner(s) == NONE <==> s.selectedIndex == 0
    ensures Winner(s) == NONE ==> WhoMightAdvance(s) == s.options[1..]
    ensures Winner(s) != NONE ==> WhoMightAdvance(s) == [Winner(s)]
    ensures forall x :: x in WhoMightAdvance(s) ==> x in s.options[1..]
  {
    if s.selectedIndex != 0 {
      assert s.options[s.selectedIndex] == s.options[1..][s.selectedIndex - 1];
    }
  }

  /** Every name game ps[a] might send on is among the names collected from ps. */
  lemma {:induction false} MightAdvanceHas(ss: seq<Select>, ps: seq<nat>, a: nat)
    requires AllOk(ss) && forall b :: 0 <= b < |ps| ==> ps[b] < |ss|
    requires a < |ps|
    ensures forall x :: x in WhoMightAdvance(ss[ps[a]]) ==> x in MightAdvance(ss, ps)
    decreases |ps|
  {
    if a < |ps| - 1 {
      MightAdvanceHas(ss, ps[..|ps| - 1], a);
    }
  }

  /** The names collected from ps depend on the selects of ps only. */
  lemma {:induction false} MightAdvanceFrame(ss: seq<Select>, tt: seq<Select>, ps: seq<nat>)
    requires AllOk(ss) && AllOk(tt) && |ss| == |tt|
    requires forall b :: 0 <= b < |ps| ==> ps[b] < |ss|
    requires forall j :: 0 <= j < |ss| && j in ps ==> ss[j] == tt[j]
    ensures MightAdvance(ss, ps) == MightAdvance(tt, ps)
    decreases |ps|
  {
    if ps != [] {
      assert ps[|ps| - 1] in ps;
      MightAdvanceFrame(ss, tt, ps[..|ps| - 1]);
    }
  }

  /** updateElementWithName(name) never changes the options. It selects the first position of
      name when name is listed and is allowed by the prior-round guard, and option 0 otherwise;
      asking for NONE, or for an unlisted name, gives option 0. */
  lemma NameSelectedSpec(gs: seq<Game>, ss: seq<Select>, i: nat, name: string)
    requires Ready(gs, ss) && 1 <= i < |gs| && |gs[i].priorGames| != 1
    ensures var r := NameSelected(gs, ss, i, name);
      r[i].options == ss[i].options &&
      (name in ss[i].options && PriorWinnerOk(gs, ss, i, name) ==>
         Winner(r[i]) == name && name !in ss[i].options[..r[i].selectedIndex]) &&
      (!(name in ss[i].options && PriorWinnerOk(gs, ss, i, name)) ==> r[i].selectedIndex == 0) &&
      (name == NONE ==> r[i].selectedIndex == 0)
  {
    var opts := ss[i].options;
    var k := IndexOf(opts, name);
    if name == NONE {
      assert opts[0] == name;
      assert k == 0;
    }
  }

  /** Asking again for the name that updateElementWithName ended up selecting changes nothing. */
  lemma NameSelectedStable(gs: seq<Game>, ss: seq<Select>, i: nat, name: string)
    requires Ready(gs, ss) && 1 <= i < |gs| && |gs[i].priorGames| != 1
    ensures var r := NameSelected(gs, ss, i, name);
      NameSelected(gs, ss, i, Winner(r[i])) == r
  {
    var r := NameSelected(gs, ss, i, name);
    NameSelectedSpec(gs, ss, i, name);
    var w := Winner(r[i]);
    if !(name in ss[i].options && PriorWinnerOk(gs, ss, i, name)) {
      assert w == NONE;
      NameSelectedSpec(gs, ss, i, w);
    }
  }

  /** The prior-round guard reads the priors' selects only. */
  lemma PriorWinnerOkFrame(gs: seq<Game>, ss: seq<Select>, tt: seq<Select>, i: nat, name: string)
    requires Ready(gs, ss) && Ready(gs, tt) && 1 <= i < |gs| && |gs[i].priorGames| != 1
    requires forall j :: 0 <= j < |ss| && j in gs[i].priorGames ==> ss[j] == tt[j]
    ensures PriorWinnerOk(gs, ss, i, name) == PriorWinnerOk(gs, tt, i, name)
  {
    assert GameWired(gs, i);
    var ps := gs[i].priorGames;
    if |ps| > 0 {
      assert ps[0] in ps && ps[1] in ps;
    }
  }

  // ---------------------------------------------------------------------------
  // Forward recompute (updateOptions)
  // ---------------------------------------------------------------------------

  /** updateOptions on game i rebuilds its options as NONE followed by what its priors might
      send on, last prior first; the previous winner stays selected when it is still listed
      and won a prior game, and otherwise the selection falls back to NONE. No other game changes. */
  lemma OptionsRecomputedSpec(gs: seq<Game>, ss: seq<Select>, i: nat)
    requires Ready(gs, ss) && 1 <= i < |gs| && |gs[i].priorGames| != 1
    ensures var r := OptionsRecomputed(gs, ss, i);
      var w := Winner(ss[i]);
      (assert GameWired(gs, i); r[i].options == [NONE] + MightAdvance(ss, gs[i].priorGames)) &&
      Winner(r[i]) == (if w in r[i].options && PriorWinnerOk(gs, ss, i, w) then w else NONE) &&
      (w !in r[i].options ==> r[i].selectedIndex == 0) &&
      (forall j :: 0 <= j < |ss| && j != i ==> r[j] == ss[j])
  {
    assert GameWired(gs, i);
    var w := Winner(ss[i]);
    var ss1 := ss[i := FreshSelect(MightAdvance(ss, gs[i].priorGames))];
    var r := NameSelected(gs, ss1, i, w);
    assert r == OptionsRecomputed(gs, ss, i);
    assert Ready(gs, ss1);
    assert forall j :: 0 <= j < |ss| && j in gs[i].priorGames ==> ss[j] == ss1[j];
    PriorWinnerOkFrame(gs, ss, ss1, i, w);
    NameSelectedSpec(gs, ss1, i, w);
    assert r[i].options == ss1[i].options;
    if w in r[i].options && PriorWinnerOk(gs, ss1, i, w) {
      assert Winner(r[i]) == w;
    } else {
      assert r[i].selectedIndex == 0;
      assert r[i].options[0] == NONE;
    }
  }

  /** The recomputed game depends only on its own select and its priors' selects. */
  lemma OptionsRecomputedLocal(gs: seq<Game>, ss: seq<Select>, tt: seq<Select>, i: nat)
    requires Ready(gs, ss) && Ready(gs, tt) && 1 <= i < |gs| && |gs[i].priorGames| != 1
    requires ss[i] == tt[i]
    requires forall j :: 0 <= j < |ss| && j in gs[i].priorGames ==> ss[j] == tt[j]
    ensures OptionsRecomputed(gs, ss, i)[i] == OptionsRecomputed(gs, tt, i)[i]
  {
    assert GameWired(gs, i);
    var ps := gs[i].priorGames;
    MightAdvanceFrame(ss, tt, ps);
    var ss1 := ss[i := FreshSelect(MightAdvance(ss, ps))];
    var tt1 := tt[i := FreshSelect(MightAdvance(tt, ps))];
    assert forall j :: 0 <= j < |ss1| && j in ps ==> ss1[j] == tt1[j];
    PriorWinnerOkFrame(gs, ss1, tt1, i, Winner(ss[i]));
  }

  /** Recomputing a game twice in a row gives the same selects as recomputing it once. */
  lemma OptionsRecomputedIdempotent(gs: seq<Game>, ss: seq<Select>, i: nat)
    requires Ready(gs, ss) && 1 <= i < |gs| && |gs[i].priorGames| != 1
    ensures var r := OptionsRecomputed(gs, ss, i); OptionsRecomputed(gs, r, i) == r
  {
    assert GameWired(gs, i);
    var ps := gs[i].priorGames;
    var w := Winner(ss[i]);
    var ss1 := ss[i := FreshSelect(MightAdvance(ss, ps))];
    var r := NameSelected(gs, ss1, i, w);
    assert forall j :: 0 <= j < |ss| && j in ps ==> r[j] == ss[j];
    MightAdvanceFrame(r, ss, ps);
    assert r[i := FreshSelect(MightAdvance(r, ps))] == ss1;
    NameSelectedStable(gs, ss1, i, w);
  }

  // ---------------------------------------------------------------------------
  // Propagation towards the final (updateNextGame)
  // ---------------------------------------------------------------------------

  /** updateNextGame on game i changes only the games strictly above i on its way to the final. */
  lemma {:induction false} NextGameUpdatedFrame(gs: seq<Game>, ss: seq<Select>, i: nat, j: nat)
    requires Ready(gs, ss) && NoSinglePrior(gs) && 1 <= i < |gs| && j < |gs|
    requires !(InSubtree(gs, i, j) && j != i)
    ensures NextGameUpdated(gs, ss, i)[j] == ss[j]
    decreases i
  {
    assert GameWired(gs, i);
    var n := gs[i].nextGame;
    if n != NULL {
      assert GameWired(gs, n);
      assert InSubtree(gs, n, n);
      assert j != n;
      if InSubtree(gs, n, j) {
        InSubtreeBelow(gs, n, j);
      }
      NextGameUpdatedFrame(gs, OptionsRecomputed(gs, ss, n), n, j);
    }
  }

  /** Game i itself and every game below it are left as they were by updateNextGame on i. */
  lemma NextGameUpdatedKeeps(gs: seq<Game>, ss: seq<Select>, i: nat, j: nat)
    requires Ready(gs, ss) && NoSinglePrior(gs) && 1 <= i <= j < |gs|
    ensures NextGameUpdated(gs, ss, i)[j] == ss[j]
  {
    if InSubtree(gs, i, j) {
      InSubtreeBelow(gs, i, j);
    }
    NextGameUpdatedFrame(gs, ss, i, j);
  }

  /** The recompute of game k is already settled in selects that came out of it, as long as
      k and its priors were not touched since. */
  lemma RecomputedSettled(gs: seq<Game>, z: seq<Select>, x: seq<Select>, k: nat)
    requires Ready(gs, z) && Ready(gs, x) && 1 <= k < |gs| && |gs[k].priorGames| != 1
    requires OptionsRecomputed(gs, z, k) == z
    requires forall j :: k <= j < |gs| ==> x[j] == z[j]
    ensures OptionsRecomputed(gs, x, k) == x
  {
    assert GameWired(gs, k);
    assert forall j :: 0 <= j < |x| && j in gs[k].priorGames ==> x[j] == z[j];
    OptionsRecomputedLocal(gs, x, z, k);
    ghost var r := OptionsRecomputed(gs, x, k);
    assert forall j :: 0 <= j < |x| ==> r[j] == x[j];
  }

  /** Running updateNextGame from i a second time changes nothing. */
  lemma {:induction false} NextGameUpdatedIdempotent(gs: seq<Game>, ss: seq<Select>, i: nat)
    requires Ready(gs, ss) && NoSinglePrior(gs) && 1 <= i < |gs|
    ensures var x := NextGameUpdated(gs, ss, i); NextGameUpdated(gs, x, i) == x
    decreases i
  {
    assert GameWired(gs, i);
    var n := gs[i].nextGame;
    if n != NULL {
      var z := OptionsRecomputed(gs, ss, n);
      var x := NextGameUpdated(gs, z, n);
      OptionsRecomputedIdempotent(gs, ss, n);
      forall j | n <= j < |gs| ensures x[j] == z[j] {
        NextGameUpdatedKeeps(gs, z, n, j);
      }
      RecomputedSettled(gs, z, x, n);
      NextGameUpdatedIdempotent(gs, z, n);
    }
  }

  /** updateOptions is idempotent: calling it twice on game i with no edit in between gives the
      same selects as calling it once. */
  lemma OptionsUpdatedIdempotent(gs: seq<Game>, ss: seq<Select>, i: nat)
    requires Ready(gs, ss) && NoSinglePrior(gs) && 1 <= i < |gs|
    ensures var x := OptionsUpdated(gs, ss, i); OptionsUpdated(gs, x, i) == x
  {
    var r := OptionsRecomputed(gs, ss, i);
    var x := NextGameUpdated(gs, r, i);
    OptionsRecomputedIdempotent(gs, ss, i);
    forall j | i <= j < |gs| ensures x[j] == r[j] {
      NextGameUpdatedKeeps(gs, r, i, j);
    }
    RecomputedSettled(gs, r, x, i);
    NextGameUpdatedIdempotent(gs, r, i);
  }

  /** The game that fires TOURNAMENT_UPDATED is the final above i, reached after Depth(i) links,
      and the number of links is less than i. */
  lemma {:induction false} ChainRootIsFinal(gs: seq<Game>, i: nat)
    requires Wired(gs) && 1 <= i < |gs|
    ensures InSubtree(gs, i, ChainRoot(gs, i))
    ensures gs[ChainRoot(gs, i)].nextGame == NULL
    ensures Depth(gs, i) < i
    decreases i
  {
    assert GameWired(gs, i);
    if gs[i].nextGame != NULL {
      ChainRootIsFinal(gs, gs[i].nextGame);
    }
  }

  // ---------------------------------------------------------------------------
  // Backward fill (fillWinnerBackwards)
  // ---------------------------------------------------------------------------

  /** fillWinnerBackwards(name) is a no-op when name was never in the game's pool. */
  lemma FillWithoutNameIsNoop(gs: seq<Game>, ss: seq<Select>, i: nat, name: string)
    requires Ready(gs, ss) && NoSinglePrior(gs) && 1 <= i < |gs|
    requires name !in gs[i].allOptions
    ensures WinnerFilledBackwards(gs, ss, i, name) == ss
  {
  }

  /** fillWinnerBackwards(name) on i changes only games it reaches through pools holding name. */
  lemma {:induction false} FillFrame(gs: seq<Game>, ss: seq<Select>, i: nat, name: string, j: nat)
    requires Ready(gs, ss) && NoSinglePrior(gs) && 1 <= i < |gs| && j < |gs|
    requires !Reached(gs, j, i, name)
    ensures WinnerFilledBackwards(gs, ss, i, name)[j] == ss[j]
    decreases |gs| - i, 1
  {
    if name in gs[i].allOptions {
      assert GameWired(gs, i);
      assert Reached(gs, i, i, name);
      var ps := gs[i].priorGames;
      PriorsFillFrame(gs, ss, i, |ps|, name, j);
    }
  }

  lemma {:induction false} PriorsFillFrame(gs: seq<Game>, ss: seq<Select>, i: nat, k: nat, name: string, j: nat)
    requires Ready(gs, ss) && NoSinglePrior(gs) && 1 <= i < |gs| && k <= |gs[i].priorGames| && j < |gs|
    requires name in gs[i].allOptions && !Reached(gs, j, i, name)
    ensures PriorsFilled(gs, ss, i, k, name)[j] == ss[j]
    decreases |gs| - i, 0, k
  {
    assert GameWired(gs, i);
    if k > 0 {
      var p := gs[i].priorGames[k - 1];
      PriorsFillFrame(gs, ss, i, k - 1, name, j);
      if Reached(gs, j, p, name) {
        ReachedLift(gs, j, p, i, name);
      }
      FillFrame(gs, PriorsFilled(gs, ss, i, k - 1, name), p, name, j);
    }
  }

  /** fillWinnerBackwards on i never touches a game outside i's subtree. */
  lemma FillStaysInSubtree(gs: seq<Game>, ss: seq<Select>, i: nat, name: string)
    requires Ready(gs, ss) && NoSinglePrior(gs) && 1 <= i < |gs|
    ensures forall j :: 0 <= j < |gs| && !InSubtree(gs, j, i) ==>
      WinnerFilledBackwards(gs, ss, i, name)[j] == ss[j]
  {
    forall j | 0 <= j < |gs| && !InSubtree(gs, j, i)
      ensures WinnerFilledBackwards(gs, ss, i, name)[j] == ss[j]
    {
      if Reached(gs, j, i, name) {
        ReachedInSubtree(gs, j, i, name);
      }
      FillFrame(gs, ss, i, name, j);
    }
  }

  /** fillWinnerBackwards(name) on i never modifies a subtree (within i's) whose root's pool lacks name. */
  lemma FillSkipsSubtreesWithout(gs: seq<Game>, ss: seq<Select>, i: nat, name: string, k: nat)
    requires Ready(gs, ss) && NoSinglePrior(gs) && 1 <= i < |gs|
    requires InSubtree(gs, k, i) && name !in gs[k].allOptions
    ensures forall j :: 0 <= j < |gs| && InSubtree(gs, j, k) ==>
      WinnerFilledBackwards(gs, ss, i, name)[j] == ss[j]
  {
    forall j | 0 <= j < |gs| && InSubtree(gs, j, k)
      ensures WinnerFilledBackwards(gs, ss, i, name)[j] == ss[j]
    {
      if Reached(gs, j, i, name) {
        ReachedThrough(gs, j, k, i, name);
      }
      FillFrame(gs, ss, i, name, j);
    }
  }

  /** A game without priors whose options are still its whole pool ends with name selected. */
  lemma FillSelectsOnFreshLeaf(gs: seq<Game>, ss: seq<Select>, i: nat, name: string)
    requires Ready(gs, ss) && NoSinglePrior(gs) && 1 <= i < |gs|
    requires gs[i].priorGames == [] && ss[i].options == [NONE] + gs[i].allOptions
    requires name in gs[i].allOptions
    ensures Winner(WinnerFilledBackwards(gs, ss, i, name)[i]) == name
  {
    assert PriorsFilled(gs, ss, i, 0, name) == ss;
    NameSelectedSpec(gs, ss, i, name);
  }

  /** Each game's pool is covered by its two priors' pools (a proper bracket). */
  ghost predicate PoolsCovered(gs: seq<Game>) {
    forall j, x :: 1 <= j < |gs| && |gs[j].priorGames| == 2 && x in gs[j].allOptions ==>
      (gs[j].priorGames[0] < |gs| && x in gs[gs[j].priorGames[0]].allOptions) ||
      (gs[j].priorGames[1] < |gs| && x in gs[gs[j].priorGames[1]].allOptions)
  }

  /** Every first-round game still offers its whole pool. */
  ghost predicate FreshLeaves(gs: seq<Game>, ss: seq<Select>)
    requires |ss| == |gs|
  {
    forall j :: 1 <= j < |gs| && gs[j].priorGames == [] ==> ss[j].options == [NONE] + gs[j].allOptions
  }

  /** Once one of the two priors of game i has name as its winner, rebuilding i's options
      from its priors and selecting name leaves name selected. */
  lemma SelectAfterPriorWon(gs: seq<Game>, b: seq<Select>, i: nat, name: string, at: nat)
    requires Ready(gs, b) && 1 <= i < |gs| && |gs[i].priorGames| == 2 && at < 2 && name != NONE
    requires (assert GameWired(gs, i); Winner(b[gs[i].priorGames[at]]) == name)
    ensures (assert GameWired(gs, i);
      var ss2 := b[i := FreshSelect(MightAdvance(b, gs[i].priorGames))];
      Winner(NameSelected(gs, ss2, i, name)[i]) == name)
  {
    assert GameWired(gs, i);
    var ps := gs[i].priorGames;
    var p := ps[at];
    WhoMightAdvanceElection(b[p]);
    MightAdvanceHas(b, ps, at);
    var ss2 := b[i := FreshSelect(MightAdvance(b, ps))];
    assert name in ss2[i].options;
    assert ss2[ps[0]] == b[ps[0]] && ss2[ps[1]] == b[ps[1]];
    assert PriorWinnerOk(gs, ss2, i, name);
    NameSelectedSpec(gs, ss2, i, name);
  }

  /** After fillWinnerBackwards(name) has run on both priors of game i, one of them has name
      as its winner. */
  lemma {:induction false} PriorWinsAfterFill(gs: seq<Game>, ss: seq<Select>, i: nat, name: string)
      returns (at: nat)
    requires Ready(gs, ss) && Binary(gs) && PoolsCovered(gs) && FreshLeaves(gs, ss)
    requires 1 <= i < |gs| && |gs[i].priorGames| == 2 && name in gs[i].allOptions
    ensures NoSinglePrior(gs) && at < 2
    ensures (assert GameWired(gs, i);
      Winner(PriorsFilled(gs, ss, i, 2, name)[gs[i].priorGames[at]]) == name)
    decreases |gs| - i, 0
  {
    assert NoSinglePrior(gs);
    assert GameWired(gs, i);
    var ps := gs[i].priorGames;
    var p0, p1 := ps[0], ps[1];
    var a := WinnerFilledBackwards(gs, ss, p0, name);
    assert PriorsFilled(gs, ss, i, 1, name) == a;
    var b := WinnerFilledBackwards(gs, a, p1, name);
    assert PriorsFilled(gs, ss, i, 2, name) == b;
    if name in gs[p0].allOptions {
      FilledWinnerIsSelected(gs, ss, p0, name);
      if Reached(gs, p0, p1, name) {
        ReachedInSubtree(gs, p0, p1, name);
      }
      FillFrame(gs, a, p1, name, p0);
      at := 0;
    } else {
      assert name in gs[p1].allOptions;
      assert FreshLeaves(gs, a);
      FilledWinnerIsSelected(gs, a, p1, name);
      at := 1;
    }
  }

  /** In a proper bracket whose first-round games still offer their whole pools,
      fillWinnerBackwards(name) on a game whose pool holds name leaves name selected there:
      the name is filled in along the path of earlier games it must have won. */
  lemma {:induction false} FilledWinnerIsSelected(gs: seq<Game>, ss: seq<Select>, i: nat, name: string)
    requires Ready(gs, ss) && Binary(gs) && PoolsCovered(gs) && FreshLeaves(gs, ss)
    requires 1 <= i < |gs| && name in gs[i].allOptions
    ensures NoSinglePrior(gs) && Winner(WinnerFilledBackwards(gs, ss, i, name)[i]) == name
    decreases |gs| - i, 1
  {
    assert NoSinglePrior(gs);
    assert GameWired(gs, i);
    var ps := gs[i].priorGames;
    if |ps| == 0 {
      FillSelectsOnFreshLeaf(gs, ss, i, name);
    } else {
      var at := PriorWinsAfterFill(gs, ss, i, name);
      var b := PriorsFilled(gs, ss, i, 2, name);
      SelectAfterPriorWon(gs, b, i, name, at);
    }
  }

  // ---------------------------------------------------------------------------
  // The four-team bracket of the unit tests
  // ---------------------------------------------------------------------------

  const Team1: string := "team1"
  const Team2: string := "team2"
  const Team3: string := "team3"
  const Team4: string := "team4"

  /** setUp: a final over team1..team4 fed by game 2 (team1, team4) and game 3 (team2, team3). */
  function TestGames(): seq<Game> {
    [NullGame, Game([Team1, Team2, Team3, Team4], [2, 3], NULL),
     Game([Team1, Team4], [], 1), Game([Team2, Team3], [], 1)]
  }

  function TestSelects(): seq<Select> {
    [NullSelect, Select([NONE, Team1, Team2, Team3, Team4], 0),
     Select([NONE, Team1, Team4], 0), Select([NONE, Team2, Team3], 0)]
  }

  lemma TestBracketReady()
    ensures Ready(TestGames(), TestSelects()) && Binary(TestGames())
  {
    TestGamesWired();
  }

  lemma TestGamesWired()
    ensures Wired(TestGames()) && Binary(TestGames())
  {
    var gs := TestGames();
    assert GameWired(gs, 1) && GameWired(gs, 2) && GameWired(gs, 3);
  }

  /** testUpdateOptionsOneElimination: after game 3 picks team2, the final offers team2 first
      (last prior first), then team1 and team4; team3 is gone. */
  lemma ScenarioOneElimination()
    ensures Ready(TestGames(), TestSelects()) && NoSinglePrior(TestGames())
    ensures var ss := NameSelected(TestGames(), TestSelects(), 3, Team2);
      OptionsUpdated(TestGames(), ss, 1)[1].options == [NONE, Team2, Team1, Team4]
  {
    TestBracketReady();
    var gs, ss0 := TestGames(), TestSelects();
    var ss := NameSelected(gs, ss0, 3, Team2);
    assert IndexOf(ss0[3].options, Team2) == 1;
    assert ss[3] == Select([NONE, Team2, Team3], 1);
    var r := OptionsRecomputed(gs, ss, 1);
    OptionsRecomputedSpec(gs, ss, 1);
    assert MightAdvance(ss, [2, 3]) == WhoMightAdvance(ss[3]) + MightAdvance(ss, [2]);
    assert MightAdvance(ss, [2]) == WhoMightAdvance(ss[2]) + MightAdvance(ss, []);
    assert OptionsUpdated(gs, ss, 1) == r;
  }

  /** On the final, updateOptions is the recompute of the final alone. */
  lemma TestRootUpdated(ss: seq<Select>)
    requires Ready(TestGames(), ss)
    ensures NoSinglePrior(TestGames())
    ensures OptionsUpdated(TestGames(), ss, 1) == OptionsRecomputed(TestGames(), ss, 1)
  {
    TestBracketReady();
    var gs := TestGames();
    assert GameWired(gs, 1);
    assert NextGameUpdated(gs, OptionsRecomputed(gs, ss, 1), 1) == OptionsRecomputed(gs, ss, 1);
  }

  /** One recompute of the final of the test bracket, with the names its priors may send on. */
  lemma TestRootRecomputed(ss: seq<Select>, names: seq<string>)
    requires Ready(TestGames(), ss)
    requires WhoMightAdvance(ss[3]) + WhoMightAdvance(ss[2]) == names
    ensures NoSinglePrior(TestGames())
    ensures OptionsUpdated(TestGames(), ss, 1) ==
      ss[1 := Select([NONE] + names, OptionsUpdated(TestGames(), ss, 1)[1].selectedIndex)]
    ensures var k := IndexOf([NONE] + names, Winner(ss[1]));
      OptionsUpdated(TestGames(), ss, 1)[1].selectedIndex ==
        if k < |names| + 1 && PriorWinnerOk(TestGames(), ss[1 := FreshSelect(names)], 1, Winner(ss[1])) then k else 0
  {
    TestRootUpdated(ss);
    var gs := TestGames();
    assert GameWired(gs, 1);
    assert MightAdvance(ss, [2, 3]) == WhoMightAdvance(ss[3]) + MightAdvance(ss, [2]);
    assert MightAdvance(ss, [2]) == WhoMightAdvance(ss[2]) + MightAdvance(ss, []);
    assert WhoMightAdvance(ss[2]) + [] == WhoMightAdvance(ss[2]);
  }

  /** The team names of the tests and NONE are pairwise different. */
  lemma TeamsDistinct()
    ensures NONE != Team1 && NONE != Team2 && NONE != Team3 && NONE != Team4
    ensures Team1 != Team2 && Team1 != Team3 && Team1 != Team4
    ensures Team2 != Team3 && Team2 != Team4 && Team3 != Team4
  {
    assert Team1[4] != Team2[4] && Team1[4] != Team3[4] && Team1[4] != Team4[4];
    assert Team2[4] != Team3[4] && Team2[4] != Team4[4] && Team3[4] != Team4[4];
    assert |NONE| == 4 && |Team1| == 5;
  }

  /** In a first-round game of the test bracket, selecting a listed name selects its first position. */
  lemma TestLeafSelected(ss: seq<Select>, j: nat, name: string, k: nat)
    requires Ready(TestGames(), ss) && (j == 2 || j == 3)
    requires k < |ss[j].options| && IndexOf(ss[j].options, name) == k
    ensures NoSinglePrior(TestGames())
    ensures NameSelected(TestGames(), ss, j, name) == ss[j := ss[j].(selectedIndex := k)]
  {
    TestBracketReady();
    assert GameWired(TestGames(), j);
  }

  /** The selects of testUpdateOptionsChangeToLoseWinner after each of its steps. */
  function LoseWinner(step: nat): seq<Select>
    decreases step
  {
    if step == 0 then TestSelects()
    else if step == 1 then LoseWinner(0)[2 := Select([NONE, Team1, Team4], 1)]
    else if step == 2 then LoseWinner(1)[1 := Select([NONE, Team2, Team3, Team1], 0)]
    else if step == 3 then LoseWinner(2)[3 := Select([NONE, Team2, Team3], 2)]
    else if step == 4 then LoseWinner(3)[1 := Select([NONE, Team3, Team1], 0)]
    else if step == 5 then LoseWinner(4)[1 := Select([NONE, Team3, Team1], 1)]
    else LoseWinner(5)[3 := Select([NONE, Team2, Team3], 1)]
  }

  lemma LoseWinnerReady(step: nat)
    requires step <= 6
    ensures Ready(TestGames(), LoseWinner(step))
  {
    TestBracketReady();
  }

  /** Game 2 picks team1, then the final is recomputed. */
  lemma LoseWinnerSteps12()
    ensures Ready(TestGames(), LoseWinner(0)) && NoSinglePrior(TestGames())
    ensures NameSelected(TestGames(), LoseWinner(0), 2, Team1) == LoseWinner(1)
    ensures OptionsUpdated(TestGames(), LoseWinner(1), 1) == LoseWinner(2)
    ensures Ready(TestGames(), LoseWinner(1)) && Ready(TestGames(), LoseWinner(2))
    ensures LoseWinner(2)[1].options == [NONE, Team2, Team3, Team1]
  {
    LoseWinnerReady(0);
    LoseWinnerReady(1);
    TeamsDistinct();
    var ss0, ss1 := LoseWinner(0), LoseWinner(1);
    assert IndexOf(ss0[2].options, Team1) == 1;
    TestLeafSelected(ss0, 2, Team1, 1);
    assert WhoMightAdvance(ss1[3]) + WhoMightAdvance(ss1[2]) == [Team2, Team3, Team1];
    TestRootRecomputed(ss1, [Team2, Team3, Team1]);
    assert [NONE] + [Team2, Team3, Team1] == [NONE, Team2, Team3, Team1];
    assert Winner(ss1[1]) == NONE;
    assert IndexOf([NONE, Team2, Team3, Team1], NONE) == 0;
  }

  /** Game 3 picks team3, then the final is recomputed. */
  lemma LoseWinnerSteps34()
    ensures Ready(TestGames(), LoseWinner(2)) && NoSinglePrior(TestGames())
    ensures NameSelected(TestGames(), LoseWinner(2), 3, Team3) == LoseWinner(3)
    ensures OptionsUpdated(TestGames(), LoseWinner(3), 1) == LoseWinner(4)
    ensures Ready(TestGames(), LoseWinner(3)) && Ready(TestGames(), LoseWinner(4))
    ensures LoseWinner(4)[1].options == [NONE, Team3, Team1]
  {
    LoseWinnerReady(2);
    LoseWinnerReady(3);
    TeamsDistinct();
    var ss2, ss3 := LoseWinner(2), LoseWinner(3);
    assert IndexOf(ss2[3].options, Team3) == 2;
    TestLeafSelected(ss2, 3, Team3, 2);
    assert WhoMightAdvance(ss3[3]) + WhoMightAdvance(ss3[2]) == [Team3, Team1];
    TestRootRecomputed(ss3, [Team3, Team1]);
    assert [NONE] + [Team3, Team1] == [NONE, Team3, Team1];
    assert Winner(ss3[1]) == NONE;
    assert IndexOf([NONE, Team3, Team1], NONE) == 0;
  }

  /** The final picks team3, which won game 3. */
  lemma LoseWinnerStep5()
    ensures Ready(TestGames(), LoseWinner(4)) && NoSinglePrior(TestGames())
    ensures NameSelected(TestGames(), LoseWinner(4), 1, Team3) == LoseWinner(5)
    ensures Ready(TestGames(), LoseWinner(5)) && LoseWinner(5)[1].selectedIndex == 1
  {
    LoseWinnerReady(4);
    TestBracketReady();
    TeamsDistinct();
    var gs, ss4 := TestGames(), LoseWinner(4);
    assert GameWired(gs, 1);
    assert IndexOf(ss4[1].options, Team3) == 1;
    assert PriorWinnerOk(gs, ss4, 1, Team3);
  }

  /** Game 3 switches back to team2. */
  lemma LoseWinnerStep6()
    ensures Ready(TestGames(), LoseWinner(5)) && NoSinglePrior(TestGames())
    ensures NameSelected(TestGames(), LoseWinner(5), 3, Team2) == LoseWinner(6)
    ensures Ready(TestGames(), LoseWinner(6))
  {
    LoseWinnerReady(5);
    LoseWinnerReady(6);
    TeamsDistinct();
    var ss5 := LoseWinner(5);
    assert IndexOf(ss5[3].options, Team2) == 1;
    TestLeafSelected(ss5, 3, Team2, 1);
  }

  /** The final's team3 is gone, so the final falls back to NONE. */
  lemma LoseWinnerStep7()
    ensures Ready(TestGames(), LoseWinner(6)) && NoSinglePrior(TestGames())
    ensures OptionsUpdated(TestGames(), LoseWinner(6), 1)[1] == Select([NONE, Team2, Team1], 0)
  {
    LoseWinnerReady(6);
    TeamsDistinct();
    var ss6 := LoseWinner(6);
    assert WhoMightAdvance(ss6[3]) + WhoMightAdvance(ss6[2]) == [Team2, Team1];
    TestRootRecomputed(ss6, [Team2, Team1]);
    assert [NONE] + [Team2, Team1] == [NONE, Team2, Team1];
    assert Winner(ss6[1]) == Team3;
    assert IndexOf([NONE, Team2, Team1], Team3) == 3;
  }

  /** testUpdateOptionsChangeToLoseWinner (the definition the test file keeps, at lines 169-200):
      game 2 picks team1 and game 3 team3, the final picks team3, then game 3
      switches back to team2 and the final falls back to NONE. */
  lemma ScenarioChangeToLoseWinner()
    ensures NoSinglePrior(TestGames())
    ensures Ready(TestGames(), LoseWinner(0)) && Ready(TestGames(), LoseWinner(1))
    ensures Ready(TestGames(), LoseWinner(2)) && Ready(TestGames(), LoseWinner(3))
    ensures Ready(TestGames(), LoseWinner(4)) && Ready(TestGames(), LoseWinner(5))
    ensures Ready(TestGames(), LoseWinner(6))
    ensures NameSelected(TestGames(), LoseWinner(0), 2, Team1) == LoseWinner(1)
    ensures OptionsUpdated(TestGames(), LoseWinner(1), 1) == LoseWinner(2)
    ensures LoseWinner(2)[1].options == [NONE, Team2, Team3, Team1]
    ensures NameSelected(TestGames(), LoseWinner(2), 3, Team3) == LoseWinner(3)
    ensures OptionsUpdated(TestGames(), LoseWinner(3), 1) == LoseWinner(4)
    ensures LoseWinner(4)[1].options == [NONE, Team3, Team1]
    ensures NameSelected(TestGames(), LoseWinner(4), 1, Team3) == LoseWinner(5)
    ensures LoseWinner(5)[1].selectedIndex == 1
    ensures NameSelected(TestGames(), LoseWinner(5), 3, Team2) == LoseWinner(6)
    ensures OptionsUpdated(TestGames(), LoseWinner(6), 1)[1] == Select([NONE, Team2, Team1], 0)
  {
    LoseWinnerSteps12();
    LoseWinnerSteps34();
    LoseWinnerStep5();
    LoseWinnerStep6();
    LoseWinnerStep7();
  }

  /** testUpdateElementWithName, first step: asking the fresh final for team2, which no prior has
      picked, leaves NONE selected (the test expects option 2 here; the prior-round guard of
      updateElementWithName decides otherwise). A name not listed, or NONE itself, selects NONE. */
  lemma ScenarioUpdateElementWithName()
    ensures Ready(TestGames(), TestSelects())
    ensures NameSelected(TestGames(), TestSelects(), 1, Team2)[1].selectedIndex == 0
    ensures NameSelected(TestGames(), TestSelects(), 1, "someNameThatIsNotInTheList")[1].selectedIndex == 0
    ensures NameSelected(TestGames(), TestSelects(), 1, NONE)[1].selectedIndex == 0
  {
    TestBracketReady();
    var gs, ss := TestGames(), TestSelects();
    assert GameWired(gs, 1);
    assert !PriorWinnerOk(gs, ss, 1, Team2);
    assert IndexOf(ss[1].options, NONE) == 0;
    assert "someNameThatIsNotInTheList" !in ss[1].options;
  }
}
