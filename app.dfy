/**
 * The state of the Lotomania component: the history of generated bets, the
 * per-bet hit counters (`acertos`) and the set of number cells the user has
 * marked as hits (cells carrying the `bg-green-500` class).
 *
 * Each handler is one atomic transition. The two transitions are given as
 * functions on a `Snapshot` (`Appended`, `Toggled`), the lemmas below are about
 * those functions, and the class `App` runs them on its fields.
 */
module AppState {
  import opened Wrappers
  import Sampler

  /** A bet as the component stores it: a plain array of numbers. */
  type Bet = seq<int>

  /**
   * A value of the `acertos` dictionary as read at one key: `Some(c)` for a
   * number, `None` for `undefined` (key never written) or `NaN` (the result of
   * `undefined - 1` or `undefined + 1`). Both absorb further increments and
   * both are shown as 0.
   */
  type Counter = Option<int>

  datatype Snapshot = Snapshot(history: seq<Bet>, hits: map<int, Counter>, marked: set<(int, int)>)

  /**
   * `document.getElementById("numero-<i>-<n>")` finds a cell: one is rendered
   * for every number of every bet of the history, and for nothing else.
   */
  predicate HasCell(history: seq<Bet>, i: int, n: int) {
    0 <= i < |history| && n in history[i]
  }

  /** The counter of bet `i` as JavaScript reads it; a missing key is `undefined`. */
  function Lookup(hits: map<int, Counter>, i: int): Counter {
    if i in hits then hits[i] else None
  }

  /** `c + delta` on a counter: a number moves, `undefined` and `NaN` give `NaN`. */
  function Moved(c: Counter, delta: int): Counter {
    match c
    case Some(v) => Some(v + delta)
    case None => None
  }

  /** The numbers of bet `i` whose cells are marked. */
  function Marks(marked: set<(int, int)>, i: int): set<int> {
    set p | p in marked && p.0 == i :: p.1
  }

  /**
   * The consistency the component relies on: only rendered cells are marked,
   * and every counter that holds a number equals the number of marks of its bet.
   */
  ghost predicate CountsAgree(s: Snapshot) {
    (forall p :: p in s.marked ==> HasCell(s.history, p.0, p.1)) &&
    (forall i :: i in s.hits && s.hits[i].Some? ==>
       0 <= i < |s.history| && s.hits[i].value == |Marks(s.marked, i)|)
  }

  /**
   * What the heading of bet `i` shows: `acertos[index] || 0`, the counter when
   * it is a number (0 included) and 0 for `undefined` and `NaN`.
   */
  function Shown(hits: map<int, Counter>, i: int): int {
    match Lookup(hits, i)
    case Some(v) => v
    case None => 0
  }

  /**
   * Generating `bet`: the new history is the old one with `bet` at the end, the
   * counter of the new index is seeded to 0, the marks are untouched.
   */
  function Appended(s: Snapshot, bet: Bet): (t: Snapshot)
    ensures |t.history| == |s.history| + 1 && t.history[|s.history|] == bet
    ensures forall k :: 0 <= k < |s.history| ==> t.history[k] == s.history[k]
    ensures Lookup(t.hits, |s.history|) == Some(0)
    ensures forall j :: j != |s.history| ==> Lookup(t.hits, j) == Lookup(s.hits, j)
    ensures t.marked == s.marked
  {
    Snapshot(s.history + [bet], s.hits[|s.history| := Some(0)], s.marked)
  }

  /**
   * Generating `bet` when writing the new history to storage throws: the bet is
   * already shown and appended, but the seeding that follows the write never
   * runs, so every counter and every mark is as before.
   */
  function Pushed(s: Snapshot, bet: Bet): (t: Snapshot)
    ensures |t.history| == |s.history| + 1 && t.history[|s.history|] == bet
    ensures forall k :: 0 <= k < |s.history| ==> t.history[k] == s.history[k]
    ensures t.hits == s.hits && t.marked == s.marked
  {
    Snapshot(s.history + [bet], s.hits, s.marked)
  }

  /**
   * Clicking number `n` of bet `i`: when its cell exists, its mark flips and the
   * counter of bet `i` moves down by one if it was marked, up by one if not;
   * when it does not exist, nothing happens.
   */
  function Toggled(s: Snapshot, i: int, n: int): (t: Snapshot)
    ensures t.history == s.history
    ensures ((i, n) in t.marked <==> (i, n) in s.marked) <==> !HasCell(s.history, i, n)
    ensures forall p :: p != (i, n) ==> (p in t.marked <==> p in s.marked)
    ensures forall j :: j != i ==> Lookup(t.hits, j) == Lookup(s.hits, j)
    ensures HasCell(s.history, i, n) ==>
      Lookup(t.hits, i) == Moved(Lookup(s.hits, i), if (i, n) in s.marked then -1 else 1)
    ensures !HasCell(s.history, i, n) ==> t == s
  {
    if !HasCell(s.history, i, n) then s
    else if (i, n) in s.marked then
      Snapshot(s.history, s.hits[i := Moved(Lookup(s.hits, i), -1)], s.marked - {(i, n)})
    else
      Snapshot(s.history, s.hits[i := Moved(Lookup(s.hits, i), 1)], s.marked + {(i, n)})
  }

  /** Adding or removing the mark of (i, n) adds or removes `n` among the marks of bet `i` only. */
  lemma MarksAfterFlip(marked: set<(int, int)>, i: int, n: int)
    ensures (i, n) !in marked ==> Marks(marked + {(i, n)}, i) == Marks(marked, i) + {n}
    ensures (i, n) in marked ==> Marks(marked - {(i, n)}, i) == Marks(marked, i) - {n}
    ensures n in Marks(marked, i) <==> (i, n) in marked
    ensures forall j :: j != i ==> Marks(marked + {(i, n)}, j) == Marks(marked, j)
    ensures forall j :: j != i ==> Marks(marked - {(i, n)}, j) == Marks(marked, j)
  {
  }

  /** Generating a bet keeps every numeric counter equal to its bet's marks. */
  lemma AppendedKeepsCounts(s: Snapshot, bet: Bet)
    requires CountsAgree(s)
    ensures CountsAgree(Appended(s, bet))
  {
  }

  /**
   * An append whose seeding was skipped keeps the counters consistent, and the
   * new bet's counter reads `undefined`, as for a bet read from storage.
   */
  lemma PushedKeepsCounts(s: Snapshot, bet: Bet)
    requires CountsAgree(s)
    ensures CountsAgree(Pushed(s, bet))
    ensures Lookup(Pushed(s, bet).hits, |s.history|) == None
  {
    var t := Pushed(s, bet);
    forall j | j in t.hits && t.hits[j].Some?
      ensures 0 <= j < |t.history| && t.hits[j].value == |Marks(t.marked, j)|
    {
      assert j in s.hits && s.hits[j].Some?;
    }
    if |s.history| in s.hits {
      assert s.hits[|s.history|].None?;
    }
  }

  /** Clicking a cell keeps every numeric counter equal to its bet's marks. */
  lemma ToggledKeepsCounts(s: Snapshot, i: int, n: int)
    requires CountsAgree(s)
    ensures CountsAgree(Toggled(s, i, n))
  {
    if HasCell(s.history, i, n) {
      var t := Toggled(s, i, n);
      MarksAfterFlip(s.marked, i, n);
      forall j | j in t.hits && t.hits[j].Some?
        ensures 0 <= j < |t.history| && t.hits[j].value == |Marks(t.marked, j)|
      {
        if j != i {
          assert Lookup(t.hits, j) == Lookup(s.hits, j);
          assert j in s.hits;
        } else {
          assert Lookup(s.hits, i).Some?;
        }
      }
    }
  }

  /**
   * A click never changes which counters hold a number: a number moves by one,
   * and `undefined` or `NaN` stays not-a-number.
   */
  lemma ToggledKeepsKinds(s: Snapshot, i: int, n: int)
    ensures forall j :: Lookup(Toggled(s, i, n).hits, j).Some? <==> Lookup(s.hits, j).Some?
    ensures HasCell(s.history, i, n) && Lookup(s.hits, i).Some? ==>
      Lookup(Toggled(s, i, n).hits, i).value - Lookup(s.hits, i).value ==
        (if (i, n) in s.marked then -1 else 1)
  {
  }

  /**
   * Clicking the same cell twice restores the marks, and restores the counter
   * whenever bet `i` had a key in `acertos`; a bet without one is left with
   * `NaN` at its key.
   */
  lemma ToggleTwice(s: Snapshot, i: int, n: int)
    ensures Toggled(Toggled(s, i, n), i, n).history == s.history
    ensures Toggled(Toggled(s, i, n), i, n).marked == s.marked
    ensures Toggled(Toggled(s, i, n), i, n).hits ==
      if HasCell(s.history, i, n) && i !in s.hits then s.hits[i := None] else s.hits
  {
  }

  /** With consistent counters, a numeric counter never exceeds the size of its bet. */
  lemma MarksWithinBet(s: Snapshot, i: int)
    requires CountsAgree(s) && 0 <= i < |s.history|
    ensures Marks(s.marked, i) <= Sampler.Elements(s.history[i])
    ensures |Marks(s.marked, i)| <= |s.history[i]|
  {
    forall x | x in Marks(s.marked, i) ensures x in Sampler.Elements(s.history[i]) {
      var p :| p in s.marked && p.0 == i && p.1 == x;
      assert HasCell(s.history, p.0, p.1);
    }
    Sampler.SubsetCount(Marks(s.marked, i), Sampler.Elements(s.history[i]));
    Sampler.ElementsCount(s.history[i]);
  }

  /**
   * On a bet whose counter reads 0 and which has no marks, three distinct
   * numbers clicked and then one of them clicked again leave the other two
   * marked and a counter of 2.
   */
  lemma ClickThreeUndoOne(s: Snapshot, x: int, y: int, z: int)
    requires Lookup(s.hits, 1) == Some(0)
    requires (1, x) !in s.marked && (1, y) !in s.marked && (1, z) !in s.marked
    requires HasCell(s.history, 1, x) && HasCell(s.history, 1, y) && HasCell(s.history, 1, z)
    requires x != y && y != z && x != z
    ensures
      var t := Toggled(Toggled(Toggled(Toggled(s, 1, x), 1, y), 1, z), 1, y);
      Shown(t.hits, 1) == 2 && (1, x) in t.marked && (1, y) !in t.marked && (1, z) in t.marked
  {
    var t1 := Toggled(s, 1, x);
    assert Lookup(t1.hits, 1) == Some(1) && (1, x) in t1.marked && (1, y) !in t1.marked;
    var t2 := Toggled(t1, 1, y);
    assert Lookup(t2.hits, 1) == Some(2) && (1, y) in t2.marked && (1, z) !in t2.marked;
    var t3 := Toggled(t2, 1, z);
    assert Lookup(t3.hits, 1) == Some(3) && (1, x) in t3.marked && (1, z) in t3.marked;
    var t4 := Toggled(t3, 1, y);
    assert Lookup(t4.hits, 1) == Some(2) && (1, y) !in t4.marked;
  }

  /**
   * Three bets generated from an empty history, three distinct numbers of the
   * second bet clicked, then one of them clicked again: the heading of that bet
   * shows 2, which is its number of marked cells.
   */
  lemma ClickScenario(b0: Bet, b1: Bet, b2: Bet, x: int, y: int, z: int)
    requires x in b1 && y in b1 && z in b1
    requires x != y && y != z && x != z
    ensures
      var s := Appended(Appended(Appended(Snapshot([], map[], {}), b0), b1), b2);
      var t := Toggled(Toggled(Toggled(Toggled(s, 1, x), 1, y), 1, z), 1, y);
      Shown(t.hits, 1) == 2 && |Marks(t.marked, 1)| == 2
  {
    var s0 := Snapshot([], map[], {});
    var s1 := Appended(s0, b0);
    var s2 := Appended(s1, b1);
    var s := Appended(s2, b2);
    AppendedKeepsCounts(s0, b0);
    AppendedKeepsCounts(s1, b1);
    AppendedKeepsCounts(s2, b2);
    assert s.history[1] == b1;
    ClickThreeUndoOne(s, x, y, z);
    var t1 := Toggled(s, 1, x);
    var t2 := Toggled(t1, 1, y);
    var t3 := Toggled(t2, 1, z);
    var t4 := Toggled(t3, 1, y);
    ToggledKeepsCounts(s, 1, x);
    ToggledKeepsCounts(t1, 1, y);
    ToggledKeepsCounts(t2, 1, z);
    ToggledKeepsCounts(t3, 1, y);
    assert 1 in t4.hits && t4.hits[1] == Some(2);
  }

  /**
   * The component: the latest bet (`aposta`), the history (`historicoApostas`),
   * the counters (`acertos`), the marked cells and the stored snapshot under the
   * key "lotomania_apostas". `loaded` is the number of bets read from storage at
   * start; their counters were never seeded. `unseeded` holds the indices of the
   * bets of this session whose counter was not seeded because the storage write
   * before the seeding threw.
   */
  class App {
    var latest: Bet
    var history: seq<Bet>
    var hits: map<int, Counter>
    var marked: set<(int, int)>
    var saved: seq<Bet>
    const loaded: nat
    ghost var unseeded: set<int>

    function State(): Snapshot
      reads this
    {
      Snapshot(history, hits, marked)
    }

    ghost predicate Valid()
      reads this
    {
      CountsAgree(State()) &&
      loaded <= |history| &&
      |saved| <= |history| && saved == history[..|saved|] &&
      (forall k :: loaded <= k < |history| ==>
         Sampler.IsBet(history[k]) && (Lookup(hits, k).Some? <==> k !in unseeded)) &&
      (forall k :: 0 <= k < loaded ==> Lookup(hits, k).None?) &&
      (forall k :: k in unseeded ==> loaded <= k < |history|)
    }

    /** Start-up: the history is whatever storage held (empty when the key is absent). */
    constructor (stored: seq<Bet>)
      ensures Valid()
      ensures history == stored && saved == stored && loaded == |stored|
      ensures latest == [] && hits == map[] && marked == {} && unseeded == {}
    {
      latest := [];
      history := stored;
      hits := map[];
      marked := {};
      saved := stored;
      loaded := |stored|;
      unseeded := {};
    }

    /**
     * The "Gerar Números" handler with the draws of one run; `written` says
     * whether the storage write succeeds. The run succeeds exactly when the
     * draws hold 50 distinct values; it then shows the new bet and appends it
     * to the history. When the write succeeds the stored snapshot becomes the
     * new history and the bet's counter is seeded to 0; when it throws, the
     * stored snapshot stays as it was and the counter is never seeded.
     */
    method Generate(draws: seq<int>, written: bool) returns (done: bool)
      requires Valid() && Sampler.AllDrawable(draws)
      modifies this
      ensures Valid()
      ensures done <==> |Sampler.Elements(draws)| >= Sampler.BetSize
      ensures done ==> Sampler.IsBet(latest) && multiset(latest) == multiset(Sampler.Gathered(draws))
      ensures done && written ==> State() == Appended(old(State()), latest) && saved == history
      ensures done && written ==> unseeded == old(unseeded)
      ensures done && !written ==> State() == Pushed(old(State()), latest) && saved == old(saved)
      ensures done && !written ==> unseeded == old(unseeded) + {old(|history|)}
      ensures !done ==> State() == old(State()) && latest == old(latest) && saved == old(saved)
      ensures !done ==> unseeded == old(unseeded)
    {
      var bet := Sampler.GenerateNumbers(draws);
      done := |bet| == Sampler.BetSize;
      if done {
        latest := bet;
        ghost var s := State();
        if written {
          AppendedKeepsCounts(s, bet);
          hits := hits[|history| := Some(0)];
          history := history + [bet];
          saved := history;
          assert State() == Appended(s, bet);
        } else {
          PushedKeepsCounts(s, bet);
          unseeded := unseeded + {|history|};
          history := history + [bet];
          assert State() == Pushed(s, bet);
        }
      }
    }

    /** The click handler of the cell of number `n` in bet `i`. */
    method Toggle(i: int, n: int)
      requires Valid()
      modifies this
      ensures Valid()
      ensures State() == Toggled(old(State()), i, n)
      ensures latest == old(latest) && saved == old(saved) && unseeded == old(unseeded)
    {
      ToggledKeepsCounts(State(), i, n);
      ToggledKeepsKinds(State(), i, n);
      if HasCell(history, i, n) {
        if (i, n) in marked {
          marked := marked - {(i, n)};
          hits := hits[i := Moved(Lookup(hits, i), -1)];
        } else {
          marked := marked + {(i, n)};
          hits := hits[i := Moved(Lookup(hits, i), 1)];
        }
      }
    }

    /**
     * The hit count in the heading of bet `i`: the number of its marked cells
     * for a bet generated in this session whose counter was seeded, and 0 for a
     * bet read from storage or one whose seeding was skipped, however many of
     * its cells are marked.
     */
    function HitCount(i: int): (c: int)
      reads this
      requires Valid()
      ensures loaded <= i < |history| && i !in unseeded ==>
        c == |Marks(marked, i)| && 0 <= c <= Sampler.BetSize
      ensures 0 <= i < loaded || (loaded <= i < |history| && i in unseeded) ==> c == 0
    {
      var c := Shown(hits, i);
      if loaded <= i < |history| && Lookup(hits, i).Some? then
        MarksWithinBet(State(), i);
        c
      else
        c
    }
  }
}
