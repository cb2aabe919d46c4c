/** The `command_not_found` hook of cli/src/hooks/command_not_found.ts: which command it suggests. */
module CommandSuggestion {
  import opened Wrappers
  import opened EditDistance

  function Threshold(input: string): nat {
    if |input| / 2 > 3 then |input| / 2 else 3
  }

  /** `k` is the earliest of the commands at minimal distance from `input`. */
  ghost predicate IsBest(input: string, commands: seq<string>, k: int) {
    && 0 <= k < |commands|
    && (forall j :: 0 <= j < |commands| ==> Distance(input, commands[k]) <= Distance(input, commands[j]))
    && (forall j :: 0 <= j < k ==> Distance(input, commands[k]) < Distance(input, commands[j]))
  }

  /** The id the hook's message names, if any: an empty id is falsy and so is never named. */
  ghost predicate IsSuggestion(input: string, commands: seq<string>, suggestion: Option<string>) {
    match suggestion
    case Some(c) =>
      exists k :: IsBest(input, commands, k) && commands[k] == c && c != "" && Distance(input, c) <= Threshold(input)
    case None =>
      forall k :: IsBest(input, commands, k) ==> commands[k] == "" || Distance(input, commands[k]) > Threshold(input)
  }

  /** The empty id, at distance `|input|`, comes first among the nearest. */
  ghost predicate EmptyIdWins(input: string, commands: seq<string>) {
    exists k: nat ::
      && k < |commands| && commands[k] == ""
      && (forall j :: 0 <= j < |commands| ==> |input| <= Distance(input, commands[j]))
      && (forall j :: 0 <= j < k ==> |input| < Distance(input, commands[j]))
  }

  function Spaced(id: string): string {
    seq(|id|, i requires 0 <= i < |id| => if id[i] == ':' then ' ' else id[i])
  }

  function Message(input: string, suggestion: Option<string>): string {
    "Command \"flui " + Spaced(input) + "\" not found. " +
    match suggestion
    case Some(best) => "Did you mean \"flui " + Spaced(best) + "\"?\n"
    case None => "Run \"flui --help\" to see available commands.\n"
  }

  /** Scans the commands for the earliest nearest one; no score yet stands for infinity. */
  method FindBest(input: string, commands: seq<string>) returns (best: Option<string>, bestScore: Option<nat>)
    ensures best.Some? == bestScore.Some? == (|commands| > 0)
    ensures best.Some? ==> exists k :: IsBest(input, commands, k) && commands[k] == best.value
    ensures best.Some? ==> IsLeastEditCount(input, best.value, bestScore.value)
  {
    best, bestScore := None, None;
    ghost var at := 0;
    for n := 0 to |commands|
      invariant best.Some? == bestScore.Some? == (n > 0)
      invariant n > 0 ==> 0 <= at < n && commands[at] == best.value && bestScore.value == Distance(input, best.value)
      invariant n > 0 ==> IsLeastEditCount(input, best.value, bestScore.value)
      invariant n > 0 ==> forall j :: 0 <= j < n ==> bestScore.value <= Distance(input, commands[j])
      invariant n > 0 ==> forall j :: 0 <= j < at ==> bestScore.value < Distance(input, commands[j])
    {
      var score := Levenshtein(input, commands[n]);
      if bestScore.None? || score < bestScore.value {
        bestScore := Some(score);
        best := Some(commands[n]);
        at := n;
      }
    }
    if |commands| > 0 {
      assert IsBest(input, commands, at);
    }
  }

  lemma LeastEditCountIsDistance(a: string, b: string, n: nat)
    requires IsLeastEditCount(a, b, n)
    ensures n == Distance(a, b)
  {
    DistanceIsLeastEditCount(a, b);
  }

  lemma BestIsUnique(input: string, commands: seq<string>)
    ensures forall k, m :: IsBest(input, commands, k) && IsBest(input, commands, m) ==> k == m
  {
    forall k, m | IsBest(input, commands, k) && IsBest(input, commands, m) ensures k == m {
      assert Distance(input, commands[m]) <= Distance(input, commands[k]) <= Distance(input, commands[m]);
    }
  }

  /** The whole hook: what it prints for an unknown command. */
  method CommandNotFound(id: Option<string>, commands: seq<string>) returns (message: string)
    ensures var input := if id.Some? then id.value else "";
            exists suggestion :: IsSuggestion(input, commands, suggestion) && message == Message(input, suggestion)
  {
    var input := if id.Some? then id.value else "";
    var best, bestScore := FindBest(input, commands);
    if best.Some? {
      LeastEditCountIsDistance(input, best.value, bestScore.value);
    }
    if best.Some? && best.value != "" && bestScore.value <= Threshold(input) {
      assert IsSuggestion(input, commands, best);
      message := Message(input, best);
    } else {
      BestIsUnique(input, commands);
      assert IsSuggestion(input, commands, None);
      message := Message(input, None);
    }
  }

  lemma {:induction false} BestExists(input: string, commands: seq<string>) returns (k: int)
    requires |commands| > 0
    ensures IsBest(input, commands, k)
  {
    if |commands| == 1 {
      k := 0;
    } else {
      var front := commands[..|commands| - 1];
      k := BestExists(input, front);
      assert forall j :: 0 <= j < |front| ==> commands[j] == front[j];
      if Distance(input, commands[|front|]) < Distance(input, commands[k]) {
        k := |front|;
      }
    }
  }

  /** The message never depends on anything but the input and the ordered list of ids. */
  lemma SuggestionIsUnique(input: string, commands: seq<string>, s: Option<string>, t: Option<string>)
    requires IsSuggestion(input, commands, s) && IsSuggestion(input, commands, t)
    ensures s == t
  {
    BestIsUnique(input, commands);
  }

  /**
   A typo within `k` edits of a registered id, `k` within the threshold, is always met by a
   suggestion at most `k` edits away -- exactly when the empty id does not come first, and so
   whenever no empty id is registered.
   */
  lemma TypoGetsSuggestion(input: string, commands: seq<string>, suggestion: Option<string>, meant: string, k: nat)
    requires IsSuggestion(input, commands, suggestion)
    requires meant in commands && Distance(input, meant) <= k <= Threshold(input)
    ensures (suggestion.Some? && Distance(input, suggestion.value) <= k) <==> !EmptyIdWins(input, commands)
    ensures "" !in commands ==> suggestion.Some? && Distance(input, suggestion.value) <= k
    ensures suggestion.Some? ==> suggestion.value in commands
  {
    var best := BestExists(input, commands);
    BestIsUnique(input, commands);
    assert Distance(input, "") == |input| by {
      if input == "" {
        DistanceToSelf("");
      }
    }
    var m :| 0 <= m < |commands| && commands[m] == meant;
    assert Distance(input, commands[best]) <= Distance(input, commands[m]);
    if commands[best] == "" {
      assert EmptyIdWins(input, commands);
    }
    if EmptyIdWins(input, commands) {
      var e: nat :| e < |commands| && commands[e] == ""
        && (forall j :: 0 <= j < |commands| ==> |input| <= Distance(input, commands[j]))
        && (forall j :: 0 <= j < e ==> |input| < Distance(input, commands[j]));
      assert IsBest(input, commands, e);
    }
  }

  /** The empty id does stand in the way: `x` is one edit from `y`, and nothing is suggested. */
  lemma EmptyIdHidesNearCommand()
    ensures EmptyIdWins("x", ["", "y"])
    ensures Distance("x", "y") == 1 <= Threshold("x")
    ensures IsSuggestion("x", ["", "y"], None)
  {
    var commands := ["", "y"];
    assert Distance("x", "") == 1 && Distance("", "y") == 1;
    assert Init("x") == "" && Init("y") == "";
    assert Distance("x", "y") == 1;
    assert commands[0] == "" && IsBest("x", commands, 0);
    BestIsUnique("x", commands);
  }
}
