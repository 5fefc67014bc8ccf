/** The controller of all games (bracketHelper.js, `bracketHelper.SelectUpdater`):
    builds the games as a binary tree stored in an array, counts undecided games,
    resets the bracket and keeps the submit button and the games' style classes up to date. */
module BracketHelper {
  import opened BracketGame

  /** A `<select>` element found on the page: its name attribute and its option texts. */
  datatype Element = Element(name: string, options: seq<string>)

  /** The style class a game's select gets: `game-none` or `game-completed`;
      `Unstyled` before the first classification (and for the unused slot 0). */
  datatype GameClass = Unstyled | GameNone | GameCompleted

  // ---------------------------------------------------------------------------
  // Ordering the select elements (compareSelectElements)
  // ---------------------------------------------------------------------------

  /** JavaScript's `a < b` on strings: character by character, and a proper prefix comes first. */
  predicate NameBefore(a: string, b: string)
    decreases |a|
  {
    if |a| == 0 then |b| > 0
    else if |b| == 0 then false
    else if a[0] != b[0] then a[0] < b[0]
    else NameBefore(a[1..], b[1..])
  }

  /** compareSelectElements: 1 when the first name is smaller, -1 when it is larger, 0 otherwise. */
  function CompareSelectElements(e1: Element, e2: Element): (r: int)
    ensures -1 <= r <= 1
  {
    if NameBefore(e1.name, e2.name) then 1
    else if NameBefore(e2.name, e1.name) then -1
    else 0
  }

  lemma {:induction false} NameBeforeIrreflexive(a: string)
    ensures !NameBefore(a, a)
    decreases |a|
  {
    if |a| > 0 {
      NameBeforeIrreflexive(a[1..]);
    }
  }

  /** The string order is a strict total order: for two names exactly one of
      a < b, a == b, b < a holds. */
  lemma {:induction false} NameBeforeTrichotomy(a: string, b: string)
    ensures a == b ==> !NameBefore(a, b) && !NameBefore(b, a)
    ensures a != b ==> (NameBefore(a, b) <==> !NameBefore(b, a))
    decreases |a|
  {
    if a == b {
      NameBeforeIrreflexive(a);
    } else if |a| > 0 && |b| > 0 && a[0] == b[0] {
      NameBeforeTrichotomy(a[1..], b[1..]);
      assert a == [a[0]] + a[1..] && b == [b[0]] + b[1..];
    }
  }

  lemma {:induction false} NameBeforeTransitive(a: string, b: string, c: string)
    requires NameBefore(a, b) && NameBefore(b, c)
    ensures NameBefore(a, c)
    decreases |a|
  {
    if |a| > 0 && a[0] == b[0] && b[0] == c[0] {
      NameBeforeTransitive(a[1..], b[1..], c[1..]);
    }
  }

  /** compareSelectElements is antisymmetric, is 0 exactly on equal names, and sorts by
      descending name: it is a total preorder on elements. */
  lemma CompareSelectElementsOrder(e1: Element, e2: Element, e3: Element)
    ensures CompareSelectElements(e1, e2) == -CompareSelectElements(e2, e1)
    ensures CompareSelectElements(e1, e2) == 0 <==> e1.name == e2.name
    ensures CompareSelectElements(e1, e1) == 0
    ensures CompareSelectElements(e1, e2) == 1 <==> NameBefore(e1.name, e2.name)
    ensures CompareSelectElements(e1, e2) <= 0 && CompareSelectElements(e2, e3) <= 0 ==>
      CompareSelectElements(e1, e3) <= 0
  {
    NameBeforeTrichotomy(e1.name, e2.name);
    NameBeforeTrichotomy(e2.name, e3.name);
    NameBeforeTrichotomy(e1.name, e3.name);
    NameBeforeIrreflexive(e1.name);
    if NameBefore(e1.name, e3.name) && !NameBefore(e1.name, e2.name) && !NameBefore(e2.name, e3.name) {
      if e1.name != e2.name && e2.name != e3.name {
        NameBeforeTransitive(e3.name, e2.name, e1.name);
      }
    }
  }

  /** The order goog.array.sort establishes with compareSelectElements: names descending. */
  predicate SortedByName(es: seq<Element>) {
    forall a, b :: 0 <= a < b < |es| ==> CompareSelectElements(es[a], es[b]) <= 0
  }

  function InsertByName(e: Element, es: seq<Element>): (r: seq<Element>)
    ensures multiset(r) == multiset(es) + multiset{e} && |r| == |es| + 1
  {
    if es == [] then [e]
    else if CompareSelectElements(e, es[0]) <= 0 then [e] + es
    else
      assert es == [es[0]] + es[1..];
      [es[0]] + InsertByName(e, es[1..])
  }

  /** Inserting into a sorted sequence keeps it sorted. */
  lemma {:induction false} InsertByNameSorted(e: Element, es: seq<Element>)
    requires SortedByName(es)
    ensures SortedByName(InsertByName(e, es))
  {
    if es == [] {
    } else if CompareSelectElements(e, es[0]) <= 0 {
      forall b | 0 <= b < |es|
        ensures CompareSelectElements(e, es[b]) <= 0
      {
        CompareSelectElementsOrder(e, es[0], es[b]);
      }
      SortedCons(e, es);
    } else {
      var rest := InsertByName(e, es[1..]);
      InsertByNameSorted(e, es[1..]);
      CompareSelectElementsOrder(es[0], e, es[0]);
      forall b | 0 <= b < |rest|
        ensures CompareSelectElements(es[0], rest[b]) <= 0
      {
        MemberOfInsert(e, es[1..], rest[b]);
      }
      SortedCons(es[0], rest);
    }
  }

  lemma MemberOfInsert(e: Element, es: seq<Element>, x: Element)
    requires x in InsertByName(e, es)
    ensures x == e || x in es
  {
    assert x in multiset(InsertByName(e, es));
  }

  /** A head that comes before every element of a sorted tail gives a sorted sequence. */
  lemma SortedCons(h: Element, es: seq<Element>)
    requires SortedByName(es)
    requires forall b :: 0 <= b < |es| ==> CompareSelectElements(h, es[b]) <= 0
    ensures SortedByName([h] + es)
  {
    var r := [h] + es;
    forall a, b | 0 <= a < b < |r|
      ensures CompareSelectElements(r[a], r[b]) <= 0
    {
      if a > 0 {
        assert r[a] == es[a - 1] && r[b] == es[b - 1];
      } else {
        assert r[b] == es[b - 1];
      }
    }
  }

  /** The select elements in the order the controller builds the tree from: the stand-in
      for goog.array.sort with compareSelectElements (here an insertion sort, which is stable). */
  function SortByName(es: seq<Element>): (r: seq<Element>)
    ensures SortedByName(r) && multiset(r) == multiset(es) && |r| == |es|
  {
    if es == [] then []
    else
      assert es == [es[0]] + es[1..];
      var rest := SortByName(es[1..]);
      InsertByNameSorted(es[0], rest);
      InsertByName(es[0], rest)
  }

  /** The elements are in the form the page gives them: NONE first and nowhere else. */
  predicate ElementOk(e: Element) {
    |e.options| >= 1 && e.options[0] == NONE && NONE !in e.options[1..]
  }

  /** Sorting keeps every element well formed. */
  lemma SortByNameOk(es: seq<Element>)
    requires forall e :: e in es ==> ElementOk(e)
    ensures forall k :: 0 <= k < |SortByName(es)| ==> ElementOk(SortByName(es)[k])
  {
    var r := SortByName(es);
    forall k | 0 <= k < |r|
      ensures ElementOk(r[k])
    {
      assert r[k] in multiset(r);
    }
  }

  // ---------------------------------------------------------------------------
  // The tree in an array, counting and classifying
  // ---------------------------------------------------------------------------

  /** The prior games of slot k in an array-stored binary tree of n games: 2k and 2k+1, where present. */
  function HeapPriors(k: nat, n: nat): seq<nat> {
    (if 2 * k <= n then [2 * k] else []) + (if 2 * k + 1 <= n then [2 * k + 1] else [])
  }

  /** The games form the tree init_ builds: slot 0 is the null placeholder, game 1 is the final,
      game i's next game is i / 2 and its priors are 2i and 2i + 1 when those games exist. */
  ghost predicate HeapShaped(gs: seq<Game>) {
    |gs| >= 2 && gs[0] == NullGame &&
    forall k :: 1 <= k < |gs| ==> gs[k].nextGame == k / 2 && gs[k].priorGames == HeapPriors(k, |gs| - 1)
  }

  /** Adding game n to a tree of n - 1 games extends the priors of game n / 2 only. */
  lemma HeapPriorsStep(k: nat, n: nat)
    requires 1 <= k < n
    ensures HeapPriors(k, n) == if k == n / 2 then HeapPriors(k, n - 1) + [n] else HeapPriors(k, n - 1)
  {
  }

  /** The number of undecided selects (selectedIndex 0) in ss. */
  function CountNones(ss: seq<Select>): (r: nat)
    ensures r <= |ss|
  {
    if ss == [] then 0
    else CountNones(ss[..|ss| - 1]) + (if ss[|ss| - 1].selectedIndex == 0 then 1 else 0)
  }

  /** countRemainingNones: the undecided games among slots 1..n. */
  function RemainingNones(ss: seq<Select>): (r: nat)
    requires |ss| >= 1
    ensures r <= |ss| - 1
  {
    CountNones(ss[1..])
  }

  /** The style class of a game: game-none exactly when no winner is selected. */
  function ClassOf(s: Select): (r: GameClass)
    ensures SelectOk(s) ==> (r == GameNone <==> Winner(s) == NONE)
  {
    if s.selectedIndex == 0 then GameNone else GameCompleted
  }

  /** The selects after the reset action: every game back to its pool with NONE selected. */
  function AllReset(gs: seq<Game>, ss: seq<Select>): (r: seq<Select>)
    requires |ss| == |gs| >= 1
  {
    [ss[0]] + seq(|gs| - 1, k requires 0 <= k < |gs| - 1 => ResetSelect(gs[k + 1]))
  }

  // ---------------------------------------------------------------------------
  // The controller object
  // ---------------------------------------------------------------------------

  class SelectUpdater {
    /** The games (`games_`), with their select elements. */
    const arena: Arena
    /** Whether the submit button is enabled. */
    var submitEnabled: bool
    /** The style class of each game's select, by slot. */
    var classes: seq<GameClass>

    ghost predicate Valid()
      reads this, arena
    {
      arena.Valid() && HeapShaped(arena.games) && |classes| == |arena.games|
    }

    /** `new bracketHelper.SelectUpdater()` with init_: build the games from the sorted
        elements, disable submit and classify every game. */
    constructor (elements: seq<Element>)
      requires |elements| >= 1
      requires forall e :: e in elements ==> ElementOk(e)
      ensures Valid() && fresh(arena)
      ensures |arena.games| == |elements| + 1
      ensures forall k :: 1 <= k < |arena.games| ==>
        arena.selects[k] == Select(SortByName(elements)[k - 1].options, 0) &&
        arena.games[k].allOptions == arena.selects[k].options[1..]
      ensures arena.dispatched == [] && !submitEnabled && RemainingNones(arena.selects) == |elements|
      ensures classes[0] == Unstyled && forall k :: 1 <= k < |classes| ==> classes[k] == GameNone
    {
      var sorted := SortByName(elements);
      SortByNameOk(elements);
      var a := BuildGames(sorted);
      arena := a;
      submitEnabled := false;
      classes := seq(|a.games|, k => Unstyled);
      new;
      UpdateSelectElementClass();
    }

    /** countRemainingNones */
    method CountRemainingNones() returns (nonesRemaining: nat)
      requires arena.Valid()
      ensures nonesRemaining == RemainingNones(arena.selects)
    {
      var ss := arena.selects;
      nonesRemaining := 0;
      var i := 1;
      while i < |ss|
        invariant 1 <= i <= |ss|
        invariant nonesRemaining == CountNones(ss[1..i])
      {
        assert ss[1..i + 1][..i - 1] == ss[1..i];
        if ss[i].selectedIndex == 0 {
          nonesRemaining := nonesRemaining + 1;
        }
        i := i + 1;
      }
      assert ss[1..i] == ss[1..];
    }

    /** updateSelectElementClass: every game is classed by whether it is still undecided. */
    method UpdateSelectElementClass()
      requires arena.Valid() && |classes| == |arena.games|
      modifies this
      ensures submitEnabled == old(submitEnabled)
      ensures |classes| == |arena.games| && classes[0] == old(classes)[0]
      ensures forall k :: 1 <= k < |classes| ==> classes[k] == ClassOf(arena.selects[k])
    {
      var i := 1;
      while i < |arena.games|
        invariant 1 <= i <= |arena.games| && |classes| == |arena.games|
        invariant submitEnabled == old(submitEnabled) && classes[0] == old(classes)[0]
        invariant forall k :: 1 <= k < i ==> classes[k] == ClassOf(arena.selects[k])
      {
        classes := classes[i := ClassOf(arena.selects[i])];
        i := i + 1;
      }
    }

    /** The TOURNAMENT_UPDATED listener: submit is enabled iff no game is undecided; reclassify. */
    method OnTournamentUpdated()
      requires Valid()
      modifies this
      ensures Valid() && classes[0] == old(classes)[0]
      ensures submitEnabled == (RemainingNones(arena.selects) == 0)
      ensures forall k :: 1 <= k < |classes| ==> classes[k] == ClassOf(arena.selects[k])
    {
      var remainingGames := CountRemainingNones();
      submitEnabled := false;
      if remainingGames == 0 {
        submitEnabled := true;
      }
      UpdateSelectElementClass();
    }

    /** The reset button's action listener, as written: reset every game (no propagation) and
        reclassify. The submit button is left as it was. */
    method ResetBracket()
      requires Valid()
      modifies this, arena
      ensures Valid() && arena.games == old(arena.games) && arena.dispatched == old(arena.dispatched)
      ensures arena.selects == AllReset(arena.games, old(arena.selects))
      ensures submitEnabled == old(submitEnabled)
      ensures classes[0] == old(classes)[0] && forall k :: 1 <= k < |classes| ==> classes[k] == GameNone
    {
      ResetAllGames();
      UpdateSelectElementClass();
    }

    /** The reset action with the submit button brought up to date as well. */
    method ResetBracketAndSubmit()
      requires Valid()
      modifies this, arena
      ensures Valid() && arena.games == old(arena.games) && arena.dispatched == old(arena.dispatched)
      ensures arena.selects == AllReset(arena.games, old(arena.selects))
      ensures submitEnabled == (RemainingNones(arena.selects) == 0) && !submitEnabled
      ensures classes[0] == old(classes)[0] && forall k :: 1 <= k < |classes| ==> classes[k] == GameNone
    {
      ResetAllGames();
      OnTournamentUpdated();
    }

    /** The loop of the reset action: resetGame on games 1..n. */
    method ResetAllGames()
      requires Valid()
      modifies arena
      ensures Valid() && arena.games == old(arena.games) && arena.dispatched == old(arena.dispatched)
      ensures arena.selects == AllReset(arena.games, old(arena.selects))
      ensures RemainingNones(arena.selects) == |arena.games| - 1
      ensures forall k :: 1 <= k < |arena.selects| ==> ClassOf(arena.selects[k]) == GameNone
    {
      ghost var gs, ss := arena.games, arena.selects;
      var i := 1;
      while i < |arena.games|
        invariant 1 <= i <= |gs| && arena.Valid()
        invariant arena.games == gs && arena.dispatched == old(arena.dispatched)
        invariant |arena.selects| == |ss|
        invariant forall k :: 0 <= k < |ss| ==>
          arena.selects[k] == if 1 <= k < i then ResetSelect(gs[k]) else ss[k]
      {
        arena.ResetGame(i);
        i := i + 1;
      }
      AllResetPointwise(gs, ss, arena.selects);
      AllResetUndecided(gs, ss);
    }

    /** A user edit as written: the user picks option k of game i (a different option, or the
        browser fires no change event), the select's onchange runs
        winnerSelectedByUser, and the final's TOURNAMENT_UPDATED reaches the listener at the end of
        updateNextGame, which is before fillWinnerBackwards runs. */
    method OnUserSelection(i: nat, k: nat)
      requires Valid() && NoSinglePrior(arena.games) && 1 <= i < |arena.games|
      requires k < |arena.selects[i].options| && k != arena.selects[i].selectedIndex
      modifies this, arena
      ensures Valid() && arena.games == old(arena.games)
      ensures var picked := old(arena.selects)[i := old(arena.selects)[i].(selectedIndex := k)];
        arena.selects == WinnerSelected(arena.games, picked, i) &&
        submitEnabled == (RemainingNones(NextGameUpdated(arena.games, picked, i)) == 0)
      ensures var picked := old(arena.selects)[i := old(arena.selects)[i].(selectedIndex := k)];
        classes[0] == old(classes)[0] &&
        forall j :: 1 <= j < |classes| ==> classes[j] == ClassOf(NextGameUpdated(arena.games, picked, i)[j])
      ensures arena.dispatched == old(arena.dispatched) + [1]
    {
      arena.SelectIndex(i, k);
      ghost var picked := arena.selects;
      arena.UpdateNextGame(i);
      HeapChainRoot(arena.games, i);
      OnTournamentUpdated();
      arena.FillWinnerBackwards(i, Winner(arena.selects[i]));
    }

    /** A user edit with the listener run once the whole edit has settled. */
    method OnUserSelectionSettled(i: nat, k: nat)
      requires Valid() && NoSinglePrior(arena.games) && 1 <= i < |arena.games|
      requires k < |arena.selects[i].options| && k != arena.selects[i].selectedIndex
      modifies this, arena
      ensures Valid() && arena.games == old(arena.games)
      ensures var picked := old(arena.selects)[i := old(arena.selects)[i].(selectedIndex := k)];
        arena.selects == WinnerSelected(arena.games, picked, i)
      ensures submitEnabled == (RemainingNones(arena.selects) == 0)
      ensures classes[0] == old(classes)[0]
      ensures forall j :: 1 <= j < |classes| ==> classes[j] == ClassOf(arena.selects[j])
      ensures arena.dispatched == old(arena.dispatched) + [1]
    {
      arena.SelectIndex(i, k);
      arena.WinnerSelectedByUser(i);
      HeapChainRoot(arena.games, i);
      OnTournamentUpdated();
    }
  }

  /** The loop of init_: the first element becomes the final, element i (counting from 1)
      becomes game i with next game i / 2. */
  method BuildGames(sorted: seq<Element>) returns (a: Arena)
    requires |sorted| >= 1 && forall k :: 0 <= k < |sorted| ==> ElementOk(sorted[k])
    ensures fresh(a) && a.Valid() && HeapShaped(a.games) && |a.games| == |sorted| + 1
    ensures forall k :: 1 <= k < |a.games| ==>
      a.selects[k] == Select(sorted[k - 1].options, 0) && a.games[k].allOptions == sorted[k - 1].options[1..]
    ensures a.dispatched == [] && RemainingNones(a.selects) == |sorted|
  {
    a := new Arena();
    var finalGame := a.NewGame(sorted[0].options, NULL);
    var i := 2;
    while i <= |sorted|
      invariant 2 <= i <= |sorted| + 1
      invariant fresh(a) && a.Valid() && HeapShaped(a.games) && |a.games| == i
      invariant forall k :: 1 <= k < i ==>
        a.selects[k] == Select(sorted[k - 1].options, 0) && a.games[k].allOptions == sorted[k - 1].options[1..]
      invariant a.dispatched == []
    {
      ghost var before := a.games;
      var game := a.NewGame(sorted[i - 1].options, i / 2);
      HeapShapedStep(before, sorted[i - 1].options[1..]);
      i := i + 1;
    }
    CountNonesAll(a.selects[1..]);
  }

  /** Adding the next game with next game |gs| / 2 keeps the tree shape and every pool. */
  lemma HeapShapedStep(gs: seq<Game>, pool: seq<string>)
    requires HeapShaped(gs)
    ensures var r := GameAdded(gs, pool, |gs| / 2);
      HeapShaped(r) && r[|gs|].allOptions == pool &&
      forall k :: 0 <= k < |gs| ==> r[k].allOptions == gs[k].allOptions
  {
    var n, p := |gs|, |gs| / 2;
    var r := GameAdded(gs, pool, p);
    assert |r| == n + 1 && r[n] == Game(pool, [], p);
    assert r[p].priorGames == gs[p].priorGames + [n];
    assert forall k :: 0 <= k < n && k != p ==> r[k] == gs[k];
    forall k | 1 <= k < |r|
      ensures r[k].nextGame == k / 2 && r[k].priorGames == HeapPriors(k, |r| - 1)
    {
      if k < n {
        HeapPriorsStep(k, n);
      }
    }
  }

  /** A sequence of selects that agrees with the reset state at every slot is the reset state. */
  lemma AllResetPointwise(gs: seq<Game>, ss: seq<Select>, r: seq<Select>)
    requires |ss| == |gs| >= 1 && |r| == |ss|
    requires forall k :: 0 <= k < |ss| ==> r[k] == if 1 <= k < |gs| then ResetSelect(gs[k]) else ss[k]
    ensures r == AllReset(gs, ss)
  {
  }

  /** After the reset every game is undecided, so the remaining count is the number of games. */
  lemma AllResetUndecided(gs: seq<Game>, ss: seq<Select>)
    requires |ss| == |gs| >= 1
    ensures var r := AllReset(gs, ss);
      RemainingNones(r) == |gs| - 1 &&
      forall k :: 1 <= k < |r| ==> r[k].selectedIndex == 0 && r[k].options == [NONE] + gs[k].allOptions
  {
    var r := AllReset(gs, ss);
    var rest := r[1..];
    forall j | 0 <= j < |rest|
      ensures rest[j].selectedIndex == 0
    {
      AllResetAt(gs, ss, j + 1);
    }
    CountNonesAll(rest);
    forall k | 1 <= k < |r|
      ensures r[k].selectedIndex == 0 && r[k].options == [NONE] + gs[k].allOptions
    {
      AllResetAt(gs, ss, k);
    }
  }

  lemma AllResetAt(gs: seq<Game>, ss: seq<Select>, k: nat)
    requires |ss| == |gs| >= 1 && 1 <= k < |gs|
    ensures |AllReset(gs, ss)| == |gs| && AllReset(gs, ss)[k] == ResetSelect(gs[k])
  {
  }

  /** The count is the length exactly when every select is undecided. */
  lemma {:induction false} CountNonesAll(ss: seq<Select>)
    ensures CountNones(ss) == |ss| <==> forall j :: 0 <= j < |ss| ==> ss[j].selectedIndex == 0
  {
    if ss != [] {
      CountNonesAll(ss[..|ss| - 1]);
      if CountNones(ss) == |ss| {
        assert ss[|ss| - 1].selectedIndex == 0;
      }
    }
  }

  /** The count is zero exactly when every select is decided. */
  lemma {:induction false} CountNonesZero(ss: seq<Select>)
    ensures CountNones(ss) == 0 <==> forall j :: 0 <= j < |ss| ==> ss[j].selectedIndex != 0
  {
    if ss != [] {
      CountNonesZero(ss[..|ss| - 1]);
    }
  }

  /** In the controller's tree the final, game 1, is the one game that fires TOURNAMENT_UPDATED,
      whichever game propagation starts from. */
  lemma {:induction false} HeapChainRoot(gs: seq<Game>, i: nat)
    requires Wired(gs) && HeapShaped(gs) && 1 <= i < |gs|
    ensures ChainRoot(gs, i) == 1
    decreases i
  {
    if i > 1 {
      HeapChainRoot(gs, i / 2);
    }
  }
}
