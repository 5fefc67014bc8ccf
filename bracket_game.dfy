/** One match slot of the bracket (bracketHelperGame.js).
    The games live in an arena: slot 0 stands for `null`, games occupy slots 1..n,
    and links between games are slot numbers. A game's own fields (its frozen pool
    of names, its prior games, its next game) are a `Game`; the `<select>` element
    it drives (option texts and selected index) is a `Select`. */
module BracketGame {

  /** The sentinel option text, always option 0 of a select. */
  const NONE: string := "NONE"

  /** The arena slot that stands for `null`: the next game of the final. */
  const NULL: nat := 0

  /** The fields of `bracketHelper.Game` other than its select element. */
  datatype Game = Game(
    allOptions: seq<string>,  // the initial option texts without entry 0; never changed afterwards
    priorGames: seq<nat>,     // slots of the games that feed this one, in the order they were linked
    nextGame: nat             // slot of the game the winner moves on to, NULL for the final
  )

  /** A `<select>` element: its option texts and its selectedIndex. */
  datatype Select = Select(options: seq<string>, selectedIndex: nat)

  /** The arena's slot 0 (`games_[0] = null`). */
  const NullGame: Game := Game([], [], NULL)
  const NullSelect: Select := Select([NONE], 0)

  /** Layout of a select: option 0 is NONE, no other option is NONE, the index is in range. */
  predicate SelectOk(s: Select) {
    |s.options| >= 1 && s.options[0] == NONE && NONE !in s.options[1..] &&
    s.selectedIndex < |s.options|
  }

  predicate AllOk(ss: seq<Select>) {
    forall j :: 0 <= j < |ss| ==> SelectOk(ss[j])
  }

  /** The links of game i are consistent: its pool has no NONE, its next game is an earlier
      slot that lists i among its priors, and its priors are later slots, in increasing
      order, that each name i as their next game. */
  predicate GameWired(gs: seq<Game>, i: nat)
    requires 1 <= i < |gs|
  {
    var g := gs[i];
    NONE !in g.allOptions &&
    g.nextGame < i &&
    (g.nextGame != NULL ==> i in gs[g.nextGame].priorGames) &&
    (forall a :: 0 <= a < |g.priorGames| ==>
       i < g.priorGames[a] < |gs| && gs[g.priorGames[a]].nextGame == i) &&
    (forall a, b :: 0 <= a < b < |g.priorGames| ==> g.priorGames[a] < g.priorGames[b])
  }

  predicate Wired(gs: seq<Game>) {
    |gs| >= 1 && forall i :: 1 <= i < |gs| ==> GameWired(gs, i)
  }

  /** The selects fit the games: one per slot, each well laid out. */
  predicate Ready(gs: seq<Game>, ss: seq<Select>) {
    Wired(gs) && |ss| == |gs| && AllOk(ss)
  }

  /** `updateElementWithName` reads `priorGames_[1]` whenever the game has a prior game,
      so a game with exactly one prior game is outside what the source handles. */
  predicate NoSinglePrior(gs: seq<Game>) {
    forall i :: 0 <= i < |gs| ==> |gs[i].priorGames| != 1
  }

  /** Every game has no prior games or exactly two (a proper single-elimination bracket). */
  predicate Binary(gs: seq<Game>) {
    forall i :: 0 <= i < |gs| ==> |gs[i].priorGames| == 0 || |gs[i].priorGames| == 2
  }

  // ---------------------------------------------------------------------------
  // Queries on one select (getSelectedWinner, whoMightAdvance)
  // ---------------------------------------------------------------------------

  /** getSelectedWinner: the text of the selected option. */
  function Winner(s: Select): (r: string)
    requires SelectOk(s)
    ensures r in s.options && (r == NONE <==> s.selectedIndex == 0)
  {
    assert s.selectedIndex > 0 ==> s.options[s.selectedIndex] == s.options[1..][s.selectedIndex - 1];
    s.options[s.selectedIndex]
  }

  /** whoMightAdvance: everyone still listed when undecided, only the winner otherwise. */
  function WhoMightAdvance(s: Select): (r: seq<string>)
    requires SelectOk(s)
    ensures NONE !in r
    ensures forall n :: n in r ==> n in s.options
  {
    if s.selectedIndex == 0 then s.options[1..]
    else
      assert s.options[s.selectedIndex] == s.options[1..][s.selectedIndex - 1];
      [s.options[s.selectedIndex]]
  }

  /** The select left by setOptionsWithNames(names): NONE followed by the names, option 0 selected. */
  function FreshSelect(names: seq<string>): Select {
    Select([NONE] + names, 0)
  }

  /** The select left by resetGame: the game's original pool, NONE selected. */
  function ResetSelect(g: Game): Select {
    FreshSelect(g.allOptions)
  }

  /** The first position of x in s, or |s| when x does not occur. */
  function IndexOf(s: seq<string>, x: string): (k: nat)
    ensures k <= |s|
    ensures k < |s| ==> s[k] == x
    ensures forall j :: 0 <= j < k ==> s[j] != x
    ensures k == |s| <==> x !in s
  {
    if s == [] then 0
    else if s[0] == x then 0
    else 1 + IndexOf(s[1..], x)
  }

  /** The names the priors ps may send on: whoMightAdvance of each prior, last prior first
      (the loop at bracketHelperGame.js:179 and :231 runs from the last prior down). */
  function MightAdvance(ss: seq<Select>, ps: seq<nat>): (r: seq<string>)
    requires AllOk(ss)
    requires forall a :: 0 <= a < |ps| ==> ps[a] < |ss|
    ensures NONE !in r
    decreases |ps|
  {
    if ps == [] then []
    else WhoMightAdvance(ss[ps[|ps| - 1]]) + MightAdvance(ss, ps[..|ps| - 1])
  }

  // ---------------------------------------------------------------------------
  // Operations on the arena, as functions of the state
  // ---------------------------------------------------------------------------

  /** The prior-round guard of updateElementWithName: the game has no priors, or one of
      its first two priors has name as its selected winner. */
  predicate PriorWinnerOk(gs: seq<Game>, ss: seq<Select>, i: nat, name: string)
    requires Ready(gs, ss) && 1 <= i < |gs| && |gs[i].priorGames| != 1
  {
    assert GameWired(gs, i);
    var ps := gs[i].priorGames;
    |ps| == 0 || Winner(ss[ps[0]]) == name || Winner(ss[ps[1]]) == name
  }

  /** updateElementWithName(name): select the first option equal to name, or option 0 when
      there is none, and option 0 as well when name did not win a prior game. */
  function NameSelected(gs: seq<Game>, ss: seq<Select>, i: nat, name: string): (r: seq<Select>)
    requires Ready(gs, ss) && 1 <= i < |gs| && |gs[i].priorGames| != 1
    ensures |r| == |ss| && AllOk(r)
    ensures forall j :: 0 <= j < |ss| && j != i ==> r[j] == ss[j]
    ensures r[i].options == ss[i].options
  {
    var opts := ss[i].options;
    var found := IndexOf(opts, name);
    var k := if found == |opts| then 0 else found;
    var k' := if PriorWinnerOk(gs, ss, i, name) then k else 0;
    ss[i := ss[i].(selectedIndex := k')]
  }

  /** The part of updateOptions that touches game i only: options rebuilt from the priors,
      then the previous winner selected again by name. */
  function OptionsRecomputed(gs: seq<Game>, ss: seq<Select>, i: nat): (r: seq<Select>)
    requires Ready(gs, ss) && 1 <= i < |gs| && |gs[i].priorGames| != 1
    ensures |r| == |ss| && AllOk(r)
    ensures forall j :: 0 <= j < |ss| && j != i ==> r[j] == ss[j]
  {
    assert GameWired(gs, i);
    var winner := Winner(ss[i]);
    var ss1 := ss[i := FreshSelect(MightAdvance(ss, gs[i].priorGames))];
    NameSelected(gs, ss1, i, winner)
  }

  /** updateNextGame: the selects after propagating from game i towards the final. */
  function NextGameUpdated(gs: seq<Game>, ss: seq<Select>, i: nat): (r: seq<Select>)
    requires Ready(gs, ss) && NoSinglePrior(gs) && 1 <= i < |gs|
    ensures |r| == |ss| && AllOk(r)
    decreases i, 0
  {
    assert GameWired(gs, i);
    var n := gs[i].nextGame;
    if n == NULL then ss else OptionsUpdated(gs, ss, n)
  }

  /** updateOptions: recompute game i, then carry on towards the final. */
  function OptionsUpdated(gs: seq<Game>, ss: seq<Select>, i: nat): (r: seq<Select>)
    requires Ready(gs, ss) && NoSinglePrior(gs) && 1 <= i < |gs|
    ensures |r| == |ss| && AllOk(r)
    decreases i, 1
  {
    NextGameUpdated(gs, OptionsRecomputed(gs, ss, i), i)
  }

  /** The game whose updateNextGame fires TOURNAMENT_UPDATED when propagation starts at i. */
  function ChainRoot(gs: seq<Game>, i: nat): (r: nat)
    requires Wired(gs) && 1 <= i < |gs|
    ensures 1 <= r <= i && gs[r].nextGame == NULL
    decreases i
  {
    assert GameWired(gs, i);
    if gs[i].nextGame == NULL then i else ChainRoot(gs, gs[i].nextGame)
  }

  /** fillWinnerBackwards(name) on game i. */
  function WinnerFilledBackwards(gs: seq<Game>, ss: seq<Select>, i: nat, name: string): (r: seq<Select>)
    requires Ready(gs, ss) && NoSinglePrior(gs) && 1 <= i < |gs|
    ensures |r| == |ss| && AllOk(r)
    ensures forall j :: 0 <= j < |gs| && gs[j].priorGames == [] ==> r[j].options == ss[j].options
    decreases |gs| - i, 1
  {
    if name !in gs[i].allOptions then ss
    else
      assert GameWired(gs, i);
      var ps := gs[i].priorGames;
      var ss1 := PriorsFilled(gs, ss, i, |ps|, name);
      var ss2 := if |ps| > 0 then ss1[i := FreshSelect(MightAdvance(ss1, ps))] else ss1;
      NameSelected(gs, ss2, i, name)
  }

  /** The selects after fillWinnerBackwards(name) has run on the first k priors of game i, in order. */
  function PriorsFilled(gs: seq<Game>, ss: seq<Select>, i: nat, k: nat, name: string): (r: seq<Select>)
    requires Ready(gs, ss) && NoSinglePrior(gs) && 1 <= i < |gs| && k <= |gs[i].priorGames|
    ensures |r| == |ss| && AllOk(r)
    ensures forall j :: 0 <= j < |gs| && gs[j].priorGames == [] ==> r[j].options == ss[j].options
    decreases |gs| - i, 0, k
  {
    assert GameWired(gs, i);
    if k == 0 then ss
    else WinnerFilledBackwards(gs, PriorsFilled(gs, ss, i, k - 1, name), gs[i].priorGames[k - 1], name)
  }

  /** winnerSelectedByUser on game i: propagate forward, then fill the winner backwards. */
  function WinnerSelected(gs: seq<Game>, ss: seq<Select>, i: nat): (r: seq<Select>)
    requires Ready(gs, ss) && NoSinglePrior(gs) && 1 <= i < |gs|
    ensures |r| == |ss| && AllOk(r)
  {
    var ss1 := NextGameUpdated(gs, ss, i);
    WinnerFilledBackwards(gs, ss1, i, Winner(ss1[i]))
  }

  /** The games after constructing a game over initialOptions whose next game is next:
      the new game takes the next free slot and is appended to the priors of next. */
  function GameAdded(gs: seq<Game>, pool: seq<string>, next: nat): (r: seq<Game>)
    requires next < |gs|
  {
    var id := |gs|;
    var gs1 := if next == NULL then gs
               else gs[next := gs[next].(priorGames := gs[next].priorGames + [id])];
    gs1 + [Game(pool, [], next)]
  }

  /** The loop of updateOptions and fillWinnerBackwards that concatenates whoMightAdvance
      of the priors ps, last prior first. */
  method CollectMightAdvance(ss: seq<Select>, ps: seq<nat>) returns (mightAdvance: seq<string>)
    requires AllOk(ss) && forall a :: 0 <= a < |ps| ==> ps[a] < |ss|
    ensures mightAdvance == MightAdvance(ss, ps)
  {
    mightAdvance := [];
    var k := |ps|;
    assert ps[..k] == ps;
    while k > 0
      invariant 0 <= k <= |ps|
      invariant mightAdvance + MightAdvance(ss, ps[..k]) == MightAdvance(ss, ps)
    {
      var names := WhoMightAdvance(ss[ps[k - 1]]);
      CollectStep(ss, ps, k, mightAdvance);
      mightAdvance := mightAdvance + names;
      k := k - 1;
    }
  }

  // ---------------------------------------------------------------------------
  // The games as objects updated in place
  // ---------------------------------------------------------------------------

  /** The heap of `bracketHelper.Game` objects and their select elements. */
  class Arena {
    var games: seq<Game>
    var selects: seq<Select>
    /** The games that have fired TOURNAMENT_UPDATED, in firing order. */
    var dispatched: seq<nat>

    ghost predicate Valid()
      reads this
    {
      Ready(games, selects)
    }

    constructor ()
      ensures Valid()
      ensures games == [NullGame] && selects == [NullSelect] && dispatched == []
    {
      games := [NullGame];
      selects := [NullSelect];
      dispatched := [];
    }

    /** `new bracketHelper.Game(element, nextGame)` with init_: freeze the pool, then link to
        the next game. Returns the slot of the new game. */
    method NewGame(initialOptions: seq<string>, next: nat) returns (id: nat)
      requires Valid()
      requires |initialOptions| >= 1 && initialOptions[0] == NONE && NONE !in initialOptions[1..]
      requires next < |games|
      modifies this
      ensures Valid()
      ensures id == |old(games)| && id >= 1
      ensures games == GameAdded(old(games), initialOptions[1..], next)
      ensures selects == old(selects) + [Select(initialOptions, 0)]
      ensures dispatched == old(dispatched)
    {
      var pool := [];
      var k := 1;
      while k < |initialOptions|
        invariant 1 <= k <= |initialOptions|
        invariant pool == initialOptions[1..k]
      {
        pool := pool + [initialOptions[k]];
        k := k + 1;
      }
      assert pool == initialOptions[1..];
      id := |games|;
      ghost var before := games;
      games := games + [Game(pool, [], next)];
      selects := selects + [Select(initialOptions, 0)];
      if next != NULL {
        AddChild(next, id);
      }
      assert games == GameAdded(before, pool, next);
      GameAddedWired(before, pool, next);
    }

    /** addChild: append a prior game to game g. */
    method AddChild(g: nat, priorGame: nat)
      requires 1 <= g < |games|
      modifies this
      ensures games == old(games)[g := old(games)[g].(priorGames := old(games)[g].priorGames + [priorGame])]
      ensures selects == old(selects) && dispatched == old(dispatched)
    {
      games := games[g := games[g].(priorGames := games[g].priorGames + [priorGame])];
    }

    /** setOptionsWithNames(names): NONE followed by names; the select falls back to option 0. */
    method SetOptionsWithNames(i: nat, names: seq<string>)
      requires Valid() && 1 <= i < |games| && NONE !in names
      modifies this
      ensures Valid() && games == old(games) && dispatched == old(dispatched)
      ensures selects == old(selects)[i := FreshSelect(names)]
    {
      var opts := [NONE];
      var k := 0;
      while k < |names|
        invariant 0 <= k <= |names|
        invariant opts == [NONE] + names[..k]
      {
        opts := opts + [names[k]];
        k := k + 1;
      }
      assert names[..k] == names;
      selects := selects[i := Select(opts, 0)];
    }

    /** resetGame: back to the original pool with NONE selected. */
    method ResetGame(i: nat)
      requires Valid() && 1 <= i < |games|
      modifies this
      ensures Valid() && games == old(games) && dispatched == old(dispatched)
      ensures selects == old(selects)[i := ResetSelect(games[i])]
    {
      assert GameWired(games, i);
      SetOptionsWithNames(i, games[i].allOptions);
    }

    /** The user picks option k of game i's select (the browser's own update of selectedIndex). */
    method SelectIndex(i: nat, k: nat)
      requires Valid() && 1 <= i < |games| && k < |selects[i].options|
      modifies this
      ensures Valid() && games == old(games) && dispatched == old(dispatched)
      ensures selects == old(selects)[i := old(selects)[i].(selectedIndex := k)]
    {
      selects := selects[i := selects[i].(selectedIndex := k)];
    }

    /** updateElementWithName(name) on game i. */
    method UpdateElementWithName(i: nat, name: string)
      requires Valid() && 1 <= i < |games| && |games[i].priorGames| != 1
      modifies this
      ensures Valid() && games == old(games) && dispatched == old(dispatched)
      ensures selects == NameSelected(games, old(selects), i, name)
    {
      var opts := selects[i].options;
      var indexOfName := 0;
      while indexOfName < |opts| && opts[indexOfName] != name
        invariant 0 <= indexOfName <= |opts|
        invariant forall j :: 0 <= j < indexOfName ==> opts[j] != name
      {
        indexOfName := indexOfName + 1;
      }
      assert indexOfName == IndexOf(opts, name);
      if indexOfName == |opts| {
        indexOfName := 0;
      }
      assert GameWired(games, i);
      var ps := games[i].priorGames;
      if |ps| > 0 {
        if Winner(selects[ps[0]]) != name && Winner(selects[ps[1]]) != name {
          indexOfName := 0;
        }
      }
      selects := selects[i := selects[i].(selectedIndex := indexOfName)];
    }

    /** updateOptions on game i. */
    method UpdateOptions(i: nat)
      requires Valid() && NoSinglePrior(games) && 1 <= i < |games|
      modifies this
      ensures Valid() && games == old(games)
      ensures selects == OptionsUpdated(games, old(selects), i)
      ensures dispatched == old(dispatched) + [ChainRoot(games, i)]
      decreases i, 1
    {
      var winnerName := Winner(selects[i]);
      assert GameWired(games, i);
      var mightAdvance := CollectMightAdvance(selects, games[i].priorGames);
      SetOptionsWithNames(i, mightAdvance);
      UpdateElementWithName(i, winnerName);
      UpdateNextGame(i);
    }

    /** updateNextGame on game i: update the next game, or fire TOURNAMENT_UPDATED on the final. */
    method UpdateNextGame(i: nat)
      requires Valid() && NoSinglePrior(games) && 1 <= i < |games|
      modifies this
      ensures Valid() && games == old(games)
      ensures selects == NextGameUpdated(games, old(selects), i)
      ensures dispatched == old(dispatched) + [ChainRoot(games, i)]
      decreases i, 0
    {
      assert GameWired(games, i);
      var next := games[i].nextGame;
      if next != NULL {
        UpdateOptions(next);
      } else {
        dispatched := dispatched + [i];
      }
    }

    /** fillWinnerBackwards(name) on game i. */
    method FillWinnerBackwards(i: nat, name: string)
      requires Valid() && NoSinglePrior(games) && 1 <= i < |games|
      modifies this
      ensures Valid() && games == old(games) && dispatched == old(dispatched)
      ensures selects == WinnerFilledBackwards(games, old(selects), i, name)
      decreases |games| - i
    {
      if name !in games[i].allOptions {
        return;
      }
      assert GameWired(games, i);
      var ps := games[i].priorGames;
      ghost var ss0 := selects;
      if |ps| > 0 {
        var k := 0;
        while k < |ps|
          invariant 0 <= k <= |ps|
          invariant Valid() && games == old(games) && dispatched == old(dispatched)
          invariant selects == PriorsFilled(games, ss0, i, k, name)
        {
          FillWinnerBackwards(ps[k], name);
          k := k + 1;
        }
        ghost var ss1 := selects;
        var mightAdvance := CollectMightAdvance(selects, ps);
        SetOptionsWithNames(i, mightAdvance);
        assert selects == ss1[i := FreshSelect(MightAdvance(ss1, ps))];
      } else {
        assert selects == PriorsFilled(games, ss0, i, |ps|, name);
      }
      ghost var ss2 := selects;
      UpdateElementWithName(i, name);
      assert selects == NameSelected(games, ss2, i, name);
    }

    /** winnerSelectedByUser on game i. */
    method WinnerSelectedByUser(i: nat)
      requires Valid() && NoSinglePrior(games) && 1 <= i < |games|
      modifies this
      ensures Valid() && games == old(games)
      ensures selects == WinnerSelected(games, old(selects), i)
      ensures dispatched == old(dispatched) + [ChainRoot(games, i)]
    {
      UpdateNextGame(i);
      FillWinnerBackwards(i, Winner(selects[i]));
    }
  }

  /** One step of the reverse loop of CollectMightAdvance: the names of prior k - 1 go before
      those of the first k - 1 priors. */
  lemma CollectStep(ss: seq<Select>, ps: seq<nat>, k: nat, acc: seq<string>)
    requires AllOk(ss) && forall a :: 0 <= a < |ps| ==> ps[a] < |ss|
    requires 1 <= k <= |ps|
    ensures (acc + WhoMightAdvance(ss[ps[k - 1]])) + MightAdvance(ss, ps[..k - 1]) == acc + MightAdvance(ss, ps[..k])
  {
    var q := ps[..k];
    assert q[..|q| - 1] == ps[..k - 1];
    assert q[|q| - 1] == ps[k - 1];
    AppendAssociative(acc, WhoMightAdvance(ss[ps[k - 1]]), MightAdvance(ss, ps[..k - 1]));
  }

  /** Concatenation is associative. */
  lemma AppendAssociative(a: seq<string>, b: seq<string>, c: seq<string>)
    ensures (a + b) + c == a + (b + c)
  {
  }

  /** Adding a game keeps the links consistent; the new game and its next game point at each other. */
  lemma GameAddedWired(gs: seq<Game>, pool: seq<string>, next: nat)
    requires Wired(gs) && next < |gs| && NONE !in pool
    ensures Wired(GameAdded(gs, pool, next))
    ensures var r := GameAdded(gs, pool, next);
      |r| == |gs| + 1 && r[|gs|].nextGame == next &&
      (next != NULL ==> r[next].priorGames == gs[next].priorGames + [|gs|])
  {
    var r := GameAdded(gs, pool, next);
    var id := |gs|;
    forall i | 1 <= i < |r|
      ensures GameWired(r, i)
    {
      if i < id {
        assert GameWired(gs, i);
        var ps := r[i].priorGames;
        assert forall a :: 0 <= a < |gs[i].priorGames| ==> ps[a] == gs[i].priorGames[a];
        assert forall a :: 0 <= a < |gs[i].priorGames| ==> r[ps[a]].nextGame == gs[ps[a]].nextGame;
        if i == next {
          assert ps == gs[i].priorGames + [id];
        }
        var n := r[i].nextGame;
        if n != NULL {
          assert n < i;
          assert i in gs[n].priorGames;
          assert gs[n].priorGames <= r[n].priorGames;
        }
      }
    }
  }
}
