/**
 The sliding-window token limiter of scripts/assistant-eval/quota.ts.

 `QuotaWindow` is the object, its clock any that never runs backwards. `Turn`s are what a caller
 makes of it: a `pace` and then an `add`. The main result bounds the tokens of every run of turns
 in every 60-second window.
 */
module Quota {
  import opened Integers
  import opened Wrappers

  const WINDOW := 60000

  datatype Entry = Entry(at: int, tokens: int)

  // ---- the window ------------------------------------------------------------------

  /** What is left once the oldest entries, more than a window old, are shifted out. */
  function Pruned(spent: seq<Entry>, now: int): seq<Entry> {
    if spent != [] && now - spent[0].at > WINDOW then Pruned(spent[1..], now) else spent
  }

  function Used(spent: seq<Entry>): int {
    if spent == [] then 0 else spent[0].tokens + Used(spent[1..])
  }

  /** Whether `pace` lets the caller through with this window. */
  predicate Admits(budget: int, spent: seq<Entry>) {
    Used(spent) < budget || spent == []
  }

  lemma {:induction false} PrunedIsShorter(spent: seq<Entry>, now: int)
    ensures |Pruned(spent, now)| <= |spent|
  {
    if spent != [] && now - spent[0].at > WINDOW {
      PrunedIsShorter(spent[1..], now);
    } else {
    }
  }

  lemma {:induction false} PrunedTwice(spent: seq<Entry>, a: int, b: int)
    requires a <= b
    ensures Pruned(Pruned(spent, a), b) == Pruned(spent, b)
    ensures |Pruned(spent, b)| <= |Pruned(spent, a)|
  {
    if spent != [] && a - spent[0].at > WINDOW {
      PrunedTwice(spent[1..], a, b);
    } else {
      PrunedIsShorter(spent, b);
    }
  }

  // ---- turns, and the window they leave --------------------------------------------

  /** One turn of a caller: when `pace` let it through, when it added, and how much. */
  datatype Turn = Turn(pacedAt: int, addedAt: int, tokens: int)

  function Front(turns: seq<Turn>): seq<Turn>
    requires turns != []
  {
    turns[..|turns| - 1]
  }

  function Last(turns: seq<Turn>): Turn
    requires turns != []
  {
    turns[|turns| - 1]
  }

  function SpentAfter(turns: seq<Turn>): seq<Entry> {
    if turns == [] then []
    else Pruned(SpentAfter(Front(turns)), Last(turns).pacedAt) + [Entry(Last(turns).addedAt, Last(turns).tokens)]
  }

  /** Turns one caller can make one after the other under a budget. */
  ghost predicate IsRun(turns: seq<Turn>, budget: int) {
    turns == [] ||
    ( && IsRun(Front(turns), budget)
      && Last(turns).pacedAt <= Last(turns).addedAt
      && (|turns| > 1 ==> Last(Front(turns)).addedAt <= Last(turns).pacedAt)
      && Admits(budget, Pruned(SpentAfter(Front(turns)), Last(turns).pacedAt)))
  }

  ghost predicate TokensWithin(turns: seq<Turn>, most: int) {
    forall k :: 0 <= k < |turns| ==> 0 <= turns[k].tokens <= most
  }

  /** The tokens added between `lo` and `hi`, both included. */
  function AddedBetween(turns: seq<Turn>, lo: int, hi: int): int {
    if turns == [] then 0
    else
      AddedBetween(Front(turns), lo, hi)
      + if lo <= Last(turns).addedAt <= hi then Last(turns).tokens else 0
  }

  /** The tokens added in the 60-second window that starts at `lo`. */
  function AddedInWindow(turns: seq<Turn>, lo: int): int {
    AddedBetween(turns, lo, lo + WINDOW)
  }

  // ---- the window is in order ------------------------------------------------------

  ghost predicate IsOrdered(spent: seq<Entry>, latest: int) {
    && (forall j, k :: 0 <= j < k < |spent| ==> spent[j].at <= spent[k].at)
    && (forall k :: 0 <= k < |spent| ==> spent[k].at <= latest)
  }

  lemma {:induction false} PrunedIsRecent(spent: seq<Entry>, latest: int, now: int)
    requires IsOrdered(spent, latest)
    ensures IsOrdered(Pruned(spent, now), latest)
    ensures forall e :: e in Pruned(spent, now) ==> now - e.at <= WINDOW
  {
    if spent != [] && now - spent[0].at > WINDOW {
      PrunedIsRecent(spent[1..], latest, now);
    } else {
    }
  }

  lemma {:induction false} SpentIsOrdered(turns: seq<Turn>, budget: int)
    requires IsRun(turns, budget) && turns != []
    ensures IsOrdered(SpentAfter(turns), Last(turns).addedAt)
    decreases |turns|
  {
    var front, last := Front(turns), Last(turns);
    if front == [] {
    } else {
      SpentIsOrdered(front, budget);
      PrunedIsRecent(SpentAfter(front), Last(front).addedAt, last.pacedAt);
    }
  }

  /** What pruning leaves is, all of it, at most a window old. */
  lemma OnlyRecentIsLeft(turns: seq<Turn>, budget: int, now: int)
    requires IsRun(turns, budget)
    ensures forall e :: e in Pruned(SpentAfter(turns), now) ==> now - e.at <= WINDOW
  {
    if turns != [] {
      SpentIsOrdered(turns, budget);
      PrunedIsRecent(SpentAfter(turns), Last(turns).addedAt, now);
    }
  }

  // ---- the rate bound --------------------------------------------------------------

  lemma {:induction false} PrunedSnoc(spent: seq<Entry>, e: Entry, now: int)
    ensures Pruned(spent + [e], now) ==
            if Pruned(spent, now) != [] then Pruned(spent, now) + [e] else Pruned([e], now)
  {
    if spent == [] {
      assert spent + [e] == [e];
    } else if now - spent[0].at > WINDOW {
      PrunedSnoc(spent[1..], e, now);
      assert (spent + [e])[1..] == spent[1..] + [e];
    }
  }

  lemma {:induction false} UsedSnoc(spent: seq<Entry>, e: Entry)
    ensures Used(spent + [e]) == Used(spent) + e.tokens
  {
    if spent == [] {
      assert spent + [e] == [e];
    } else {
      UsedSnoc(spent[1..], e);
      assert (spent + [e])[1..] == spent[1..] + [e];
    }
  }

  /** A turn recent enough at `now` stays in the window with whatever of the others does. */
  lemma KeptWithLast(turns: seq<Turn>, now: int)
    requires turns != [] && Last(turns).pacedAt <= now
    ensures var before := Pruned(SpentAfter(Front(turns)), now);
            var kept := Used(Pruned(SpentAfter(turns), now));
            && (now - Last(turns).addedAt <= WINDOW ==> kept == Used(before) + Last(turns).tokens)
            && (now - Last(turns).addedAt > WINDOW ==> kept == Used(before) + Last(turns).tokens || kept == 0)
  {
    var e := Entry(Last(turns).addedAt, Last(turns).tokens);
    var earlier := Pruned(SpentAfter(Front(turns)), Last(turns).pacedAt);
    PrunedTwice(SpentAfter(Front(turns)), Last(turns).pacedAt, now);
    PrunedSnoc(earlier, e, now);
    UsedSnoc(Pruned(earlier, now), e);
    assert [e][1..] == [];
  }

  lemma {:induction false} UsedIsNatural(turns: seq<Turn>, budget: int, most: int, now: int)
    requires IsRun(turns, budget) && TokensWithin(turns, most)
    requires turns != [] ==> Last(turns).addedAt <= now
    ensures Used(Pruned(SpentAfter(turns), now)) >= 0
    decreases |turns|
  {
    if turns == [] {
    } else {
      UsedIsNatural(Front(turns), budget, most, now);
      KeptWithLast(turns, now);
    }
  }

  lemma {:induction false} NothingAddedSince(turns: seq<Turn>, budget: int, lo: int, hi: int)
    requires IsRun(turns, budget) && (turns != [] ==> Last(turns).addedAt < lo)
    ensures AddedBetween(turns, lo, hi) == 0
    decreases |turns|
  {
    if turns == [] {
    } else {
      NothingAddedSince(Front(turns), budget, lo, hi);
    }
  }

  /** What was added since `lo`, at most a window ago, is still in the window at `now`. */
  lemma {:induction false} RecentIsKept(turns: seq<Turn>, budget: int, most: int, lo: int, hi: int, now: int)
    requires IsRun(turns, budget) && TokensWithin(turns, most)
    requires (turns != [] ==> Last(turns).addedAt <= now) && now - lo <= WINDOW
    ensures AddedBetween(turns, lo, hi) <= Used(Pruned(SpentAfter(turns), now))
    decreases |turns|
  {
    if turns == [] {
    } else if Last(turns).addedAt < lo {
      NothingAddedSince(turns, budget, lo, hi);
      UsedIsNatural(turns, budget, most, now);
    } else {
      RecentIsKept(Front(turns), budget, most, lo, hi, now);
      KeptWithLast(turns, now);
    }
  }

  /**
   In every run, with each add between 0 and `most` tokens, the tokens added in any 60-second
   window total at most `budget - 1 + most`; a budget below 1 counts as 1.
   */
  lemma {:induction false} RateBound(turns: seq<Turn>, budget: int, most: int, lo: int)
    requires IsRun(turns, budget) && TokensWithin(turns, most) && most >= 0
    ensures AddedInWindow(turns, lo) <= Max(budget - 1, 0) + most
    decreases |turns|
  {
    if turns == [] {
    } else {
      var front, last := Front(turns), Last(turns);
      if lo <= last.addedAt <= lo + WINDOW {
        RecentIsKept(front, budget, most, lo, lo + WINDOW, last.pacedAt);
      } else {
        RateBound(front, budget, most, lo);
      }
    }
  }

  /** Turns of one token each, all at once. */
  function Ones(n: nat): seq<Turn> {
    seq(n, _ => Turn(0, 0, 1))
  }

  lemma {:induction false} OnesAreARun(n: nat, budget: int)
    requires n < budget
    ensures IsRun(Ones(n), budget)
    ensures |SpentAfter(Ones(n))| == AddedInWindow(Ones(n), 0) == Used(SpentAfter(Ones(n))) == n
    ensures forall e :: e in SpentAfter(Ones(n)) ==> e.at == 0
  {
    if n == 0 {
    } else {
      OnesAreARun(n - 1, budget);
      assert Front(Ones(n)) == Ones(n - 1);
      UsedSnoc(SpentAfter(Ones(n - 1)), Entry(0, 1));
    }
  }

  /** The bound is attained: a run may fill the window to one token short of the budget, and then add the most. */
  lemma RateBoundIsAttained(budget: int, most: int)
    requires budget >= 1 && most >= 0 && (most == 0 ==> budget == 1)
    ensures exists turns ::
              IsRun(turns, budget) && TokensWithin(turns, most) && AddedInWindow(turns, 0) == budget - 1 + most
  {
    var ones, last := Ones(budget - 1), Turn(0, 0, most);
    var turns := ones + [last];
    OnesAreARun(budget - 1, budget);
    assert Front(turns) == ones;
    assert IsRun(turns, budget);
    assert TokensWithin(turns, most);
  }

  // ---- the objects -----------------------------------------------------------------

  /** A clock that never runs backwards; a wait lasts at least its length. */
  class Clock {
    var now: int

    method Read() returns (t: int)
      modifies this
      ensures t == now && old(now) <= now
    {
      var elapsed: nat :| elapsed >= 0;
      now := now + elapsed;
      t := now;
    }

    method Wait(ms: int)
      requires ms >= 0
      modifies this
      ensures old(now) + ms <= now
    {
      var late: nat :| late >= 0;
      now := now + ms + late;
    }
  }

  lemma PruningCommutes(paced: Option<int>, was: seq<Entry>, turns: seq<Turn>, now: int)
    requires match paced
      case None => was == SpentAfter(turns)
      case Some(p) => p <= now && was == Pruned(SpentAfter(turns), p)
    ensures Pruned(was, now) == Pruned(SpentAfter(turns), now)
  {
    if paced.Some? {
      PrunedTwice(SpentAfter(turns), paced.value, now);
    }
  }

  class QuotaWindow {
    const budget: int
    var spent: seq<Entry>

    /** The turns taken so far, and when a turn under way was let through. */
    ghost var turns: seq<Turn>
    ghost var pacedAt: Option<int>

    ghost predicate Valid(now: int)
      reads this
    {
      && IsRun(turns, budget)
      && (turns != [] ==> Last(turns).addedAt <= now)
      && match pacedAt
         case None => spent == SpentAfter(turns)
         case Some(p) =>
           && p <= now && (turns != [] ==> Last(turns).addedAt <= p)
           && spent == Pruned(SpentAfter(turns), p) && Admits(budget, spent)
    }

    constructor (tpmBudget: int)
      ensures budget == tpmBudget && spent == [] && turns == [] && pacedAt == None
      ensures forall now :: Valid(now)
    {
      budget := tpmBudget;
      spent := [];
      turns := [];
      pacedAt := None;
    }

    /** Waits until the window admits the caller; it ends because every wait outlasts the oldest entry. */
    method Pace(clock: Clock)
      requires Valid(clock.now)
      modifies this, clock
      ensures Valid(clock.now) && old(clock.now) <= clock.now
      ensures spent == Pruned(old(spent), clock.now) && Admits(budget, spent)
      ensures forall e :: e in spent ==> clock.now - e.at <= WINDOW
      ensures turns == old(turns) && pacedAt == Some(clock.now)
    {
      while true
        invariant old(clock.now) <= clock.now
        invariant turns == old(turns) && pacedAt == old(pacedAt)
        invariant forall t :: clock.now <= t ==> Pruned(spent, t) == Pruned(old(spent), t)
        decreases |Pruned(spent, clock.now)|
      {
        ghost var before := clock.now;
        ghost var atStart := spent;
        var now := clock.Read();
        assert Pruned(spent, now) == Pruned(old(spent), now);
        while spent != [] && now - spent[0].at > WINDOW
          invariant clock.now == now
          invariant Pruned(spent, now) == Pruned(atStart, now)
          invariant turns == old(turns) && pacedAt == old(pacedAt)
          decreases |spent|
        {
          spent := spent[1..];
        }
        assert spent == Pruned(atStart, now) == Pruned(old(spent), now);
        var used := Used(spent);
        if used < budget || spent == [] {
          PruningCommutes(old(pacedAt), old(spent), turns, now);
          OnlyRecentIsLeft(turns, budget, now);
          pacedAt := Some(now);
          return;
        }
        var wait := Max(1000, WINDOW - (now - spent[0].at) + 500);
        forall t | now <= t ensures Pruned(spent, t) == Pruned(old(spent), t) {
          PrunedTwice(old(spent), now, t);
        }
        clock.Wait(wait);
        assert clock.now - spent[0].at > WINDOW;
        PrunedTwice(atStart, before, now);
        PrunedIsShorter(spent[1..], clock.now);
      }
    }

    /** Records the tokens of a turn that `Pace` let through. */
    method Add(clock: Clock, tokens: int)
      requires Valid(clock.now) && pacedAt.Some?
      modifies this, clock
      ensures Valid(clock.now) && old(clock.now) <= clock.now
      ensures spent == old(spent) + [Entry(clock.now, tokens)]
      ensures turns == old(turns) + [Turn(old(pacedAt).value, clock.now, tokens)] && pacedAt == None
    {
      var now := clock.Read();
      spent := spent + [Entry(now, tokens)];
      ghost var more := turns + [Turn(pacedAt.value, now, tokens)];
      assert Front(more) == turns;
      turns, pacedAt := more, None;
    }
  }
}
