/**
 The recorder of scripts/assistant-eval/record.ts: one question is run, and run again after a
 silent provider error or a rate limit, until its row is recorded. It is the caller that alternates
 `pace` and `add`, so the rate bound holds of everything it records.
 */
module Recording {
  import opened Integers
  import opened Wrappers
  import opened Quota

  /** What one run of a question and the usage around it come to. */
  datatype Attempt = Attempt(
    content: string,
    steps: nat,
    pending: nat,
    prompt: int,
    completion: int,
    estimated: int,
    rateLimited: bool,
    retryAfter: Option<int>)

  /** A recorded row, as far as the loop decides it. */
  datatype Row = Row(key: string, attempt: Attempt, quotaRetries: nat, silentProviderError: bool)

  /** What the runs of a question would answer, in order; `None` where running it throws. */
  type Runs = r: seq<Option<Attempt>> | |r| >= 8 witness [None, None, None, None, None, None, None, None]

  predicate IsSilent(a: Attempt) {
    a.content == "" && a.steps == 0 && a.pending == 0 && a.estimated > 0 && a.completion == 0
  }

  /** A silent provider error or a rate limit. */
  predicate IsWorthRetrying(outcome: Option<Attempt>) {
    outcome.Some? && (IsSilent(outcome.value) || outcome.value.rateLimited)
  }

  function TokensOf(a: Attempt): int {
    a.prompt + a.completion
  }

  const MAX_QUOTA_RETRIES := 4
  const MAX_RATE_RETRIES := 3

  /** What one run decides: to stop with an error, to record it, or to try again with one more retry. */
  datatype TurnResult = Failed | Settled(attempt: Attempt) | Retry(quotaRetries: nat, rateRetries: nat)

  function ResultOf(outcome: Option<Attempt>, quotaRetries: nat, rateRetries: nat): TurnResult {
    match outcome
    case None => Failed
    case Some(a) =>
      if IsSilent(a) && quotaRetries < MAX_QUOTA_RETRIES then Retry(quotaRetries + 1, rateRetries)
      else if a.rateLimited && rateRetries < MAX_RATE_RETRIES then Retry(quotaRetries, rateRetries + 1)
      else Settled(a)
  }

  /** How long a run and what it decides wait: for the usage to settle, and before another try. */
  function LeastTimeOf(outcome: Option<Attempt>, quotaRetries: nat, rateRetries: nat): nat {
    match outcome
    case None => 0
    case Some(a) =>
      800 +
      if IsSilent(a) && quotaRetries < MAX_QUOTA_RETRIES then 65000
      else if a.rateLimited && rateRetries < MAX_RATE_RETRIES then
        Max(10, if a.retryAfter.Some? then a.retryAfter.value else 20) * 1000
      else 0
  }

  /** How the loop leaves off: at the attempt it records, or at the one that throws. */
  datatype Ending = Recorded(last: nat, quotaRetries: nat) | Threw(last: nat)

  /** Where the loop ends, from attempt `n` on, after so many retries of each kind. */
  function EndingFrom(runs: Runs, n: nat, quotaRetries: nat, rateRetries: nat): Ending
    requires quotaRetries <= MAX_QUOTA_RETRIES && rateRetries <= MAX_RATE_RETRIES && n == quotaRetries + rateRetries
    decreases MAX_QUOTA_RETRIES + MAX_RATE_RETRIES - quotaRetries - rateRetries
  {
    match ResultOf(runs[n], quotaRetries, rateRetries)
    case Failed => Threw(n)
    case Settled(_) => Recorded(n, quotaRetries)
    case Retry(q, r) => EndingFrom(runs, n + 1, q, r)
  }

  function EndingOf(runs: Runs): Ending {
    EndingFrom(runs, 0, 0, 0)
  }

  /** The least time the loop takes from attempt `n` on, the runs themselves aside. */
  function LeastTimeFrom(runs: Runs, n: nat, quotaRetries: nat, rateRetries: nat): nat
    requires quotaRetries <= MAX_QUOTA_RETRIES && rateRetries <= MAX_RATE_RETRIES && n == quotaRetries + rateRetries
    decreases MAX_QUOTA_RETRIES + MAX_RATE_RETRIES - quotaRetries - rateRetries
  {
    LeastTimeOf(runs[n], quotaRetries, rateRetries) +
    match ResultOf(runs[n], quotaRetries, rateRetries)
    case Retry(q, r) => LeastTimeFrom(runs, n + 1, q, r)
    case _ => 0
  }

  function LeastTime(runs: Runs): nat {
    LeastTimeFrom(runs, 0, 0, 0)
  }

  lemma {:induction false} TimeOfRetries(runs: Runs, n: nat, quotaRetries: nat, rateRetries: nat)
    requires quotaRetries <= MAX_QUOTA_RETRIES && rateRetries <= MAX_RATE_RETRIES && n == quotaRetries + rateRetries
    ensures var e := EndingFrom(runs, n, quotaRetries, rateRetries);
            e.Recorded? ==>
              var q := e.quotaRetries - quotaRetries; var r := e.last - e.quotaRetries - rateRetries;
              q >= 0 && r >= 0 && LeastTimeFrom(runs, n, quotaRetries, rateRetries) >= 800 + 65800 * q + 10800 * r
    decreases MAX_QUOTA_RETRIES + MAX_RATE_RETRIES - quotaRetries - rateRetries
  {
    match ResultOf(runs[n], quotaRetries, rateRetries)
    case Retry(q, r) => TimeOfRetries(runs, n + 1, q, r);
    case _ =>
  }

  /** A recorded row took 800 ms for each run, 65 s more for each quota retry and 10 s for each other. */
  lemma RetriesWait(runs: Runs)
    ensures var e := EndingOf(runs);
            e.Recorded? ==>
              LeastTime(runs) >= 800 * (e.last + 1) + 65000 * e.quotaRetries + 10000 * (e.last - e.quotaRetries)
  {
    TimeOfRetries(runs, 0, 0, 0);
  }

  lemma {:induction false} EndingIsBounded(runs: Runs, n: nat, quotaRetries: nat, rateRetries: nat)
    requires quotaRetries <= MAX_QUOTA_RETRIES && rateRetries <= MAX_RATE_RETRIES && n == quotaRetries + rateRetries
    ensures var e := EndingFrom(runs, n, quotaRetries, rateRetries);
            && n <= e.last <= MAX_QUOTA_RETRIES + MAX_RATE_RETRIES < |runs|
            && (forall k: nat :: n <= k < e.last ==> IsWorthRetrying(runs[k]))
            && match e
               case Threw(last) => runs[last] == None
               case Recorded(last, q) =>
                 && runs[last].Some? && q <= MAX_QUOTA_RETRIES && q <= last <= q + MAX_RATE_RETRIES
                 && (IsSilent(runs[last].value) ==> q == MAX_QUOTA_RETRIES)
                 && (runs[last].value.rateLimited ==> last - q == MAX_RATE_RETRIES)
    decreases MAX_QUOTA_RETRIES + MAX_RATE_RETRIES - quotaRetries - rateRetries
  {
    match runs[n]
    case None =>
    case Some(a) =>
      if IsSilent(a) && quotaRetries < MAX_QUOTA_RETRIES {
        EndingIsBounded(runs, n + 1, quotaRetries + 1, rateRetries);
      } else if a.rateLimited && rateRetries < MAX_RATE_RETRIES {
        EndingIsBounded(runs, n + 1, quotaRetries, rateRetries + 1);
      }
  }

  /**
   A question is run at most 8 times, again only after a silent error or a rate limit; a row that
   still shows a silent error has used up its 4 quota retries, one still rate limited its 3 others.
   */
  lemma AtMostEightRuns(runs: Runs)
    ensures var e := EndingOf(runs);
            && e.last + 1 <= 8
            && (forall k: nat :: k < e.last ==> IsWorthRetrying(runs[k]))
            && (e.Threw? ==> runs[e.last] == None)
            && (e.Recorded? ==>
                 && runs[e.last].Some?
                 && (IsSilent(runs[e.last].value) ==> e.quotaRetries == 4)
                 && (runs[e.last].value.rateLimited ==> e.last - e.quotaRetries == 3))
  {
    EndingIsBounded(runs, 0, 0, 0);
  }

  /** What is left of the loop, after so many retries and so much time, ends it as the whole loop does. */
  ghost predicate OnTrack(runs: Runs, quotaRetries: nat, rateRetries: nat, elapsed: int)
    requires quotaRetries <= MAX_QUOTA_RETRIES && rateRetries <= MAX_RATE_RETRIES
  {
    && EndingOf(runs) == EndingFrom(runs, quotaRetries + rateRetries, quotaRetries, rateRetries)
    && LeastTime(runs) <= elapsed + LeastTimeFrom(runs, quotaRetries + rateRetries, quotaRetries, rateRetries)
  }

  lemma TurnKeepsTrack(runs: Runs, quotaRetries: nat, rateRetries: nat, before: int, after: int, turn: TurnResult)
    requires quotaRetries <= MAX_QUOTA_RETRIES && rateRetries <= MAX_RATE_RETRIES
    requires OnTrack(runs, quotaRetries, rateRetries, before)
    requires var n := quotaRetries + rateRetries;
             && turn == ResultOf(runs[n], quotaRetries, rateRetries)
             && before + LeastTimeOf(runs[n], quotaRetries, rateRetries) <= after
    ensures match turn
      case Failed => EndingOf(runs) == Threw(quotaRetries + rateRetries) && LeastTime(runs) <= after
      case Settled(_) =>
        EndingOf(runs) == Recorded(quotaRetries + rateRetries, quotaRetries) && LeastTime(runs) <= after
      case Retry(q, r) => q <= MAX_QUOTA_RETRIES && r <= MAX_RATE_RETRIES && OnTrack(runs, q, r, after)
  {
  }

  function Key(id: string, model: string, path: string): string {
    id + "|" + model + "|" + path
  }

  /** The turns added since `was`, as tokens: those of the first attempts of `runs`. */
  ghost predicate AddsRuns(was: seq<Turn>, turns: seq<Turn>, runs: Runs, n: nat) {
    && n <= |runs| && |turns| == |was| + n && turns[..|was|] == was
    && forall k: nat :: k < n ==> runs[k].Some? && turns[|was| + k].tokens == TokensOf(runs[k].value)
  }

  class Recorder {
    var results: seq<Row>
    const done: set<string>
    const quota: QuotaWindow
    const pauseMs: nat

    constructor (saved: seq<Row>, quota: QuotaWindow, pauseMs: nat)
      ensures results == saved && this.quota == quota && this.pauseMs == pauseMs
      ensures done == set k | 0 <= k < |saved| :: saved[k].key
    {
      results := saved;
      done := set k | 0 <= k < |saved| :: saved[k].key;
      this.quota := quota;
      this.pauseMs := pauseMs;
    }

    /** A wait leaves the window as it is, whatever time passes. */
    method WaitPaced(clock: Clock, ms: int)
      requires ms >= 0 && quota.Valid(clock.now)
      modifies clock
      ensures quota.Valid(clock.now) && old(clock.now) + ms <= clock.now
    {
      clock.Wait(ms);
    }

    /** Lets the window pace one run, and adds its tokens unless it throws. */
    method RunPaced(clock: Clock, runs: Runs, n: nat, ghost was: seq<Turn>) returns (outcome: Option<Attempt>)
      requires n < |runs| && quota.Valid(clock.now) && AddsRuns(was, quota.turns, runs, n)
      modifies quota, clock
      ensures quota.Valid(clock.now) && old(clock.now) + (if outcome.Some? then 800 else 0) <= clock.now
      ensures outcome == runs[n]
      ensures AddsRuns(was, quota.turns, runs, if outcome.Some? then n + 1 else n)
    {
      quota.Pace(clock);
      outcome := runs[n];
      if outcome.Some? {
        WaitPaced(clock, 800);
        ghost var before := quota.turns;
        quota.Add(clock, TokensOf(outcome.value));
        assert quota.turns[..|was|] == before[..|was|];
      }
    }

    /** One turn of the retry loop: a paced run, and the wait before another if there is to be one. */
    method TakeTurn(clock: Clock, runs: Runs, quotaRetries: nat, attempt: nat, ghost was: seq<Turn>)
      returns (turn: TurnResult)
      requires quotaRetries <= MAX_QUOTA_RETRIES && attempt <= MAX_RATE_RETRIES
      requires quota.Valid(clock.now) && AddsRuns(was, quota.turns, runs, quotaRetries + attempt)
      modifies quota, clock
      ensures quota.Valid(clock.now)
      ensures old(clock.now) + LeastTimeOf(runs[quotaRetries + attempt], quotaRetries, attempt) <= clock.now
      ensures var n := quotaRetries + attempt;
              turn == ResultOf(runs[n], quotaRetries, attempt)
              && AddsRuns(was, quota.turns, runs, if turn.Failed? then n else n + 1)
    {
      var outcome := RunPaced(clock, runs, quotaRetries + attempt, was);
      turn := ResultOf(outcome, quotaRetries, attempt);
      if turn.Retry? {
        var a := outcome.value;
        var silent := turn.quotaRetries > quotaRetries;
        WaitPaced(clock,
          if silent then 65000 else Max(10, if a.retryAfter.Some? then a.retryAfter.value else 20) * 1000);
      }
    }

    /** The retry loop: the row to record, or nothing if a run throws. */
    method RunUntilSettled(clock: Clock, key: string, runs: Runs) returns (row: Option<Row>)
      requires quota.Valid(clock.now)
      modifies quota, clock
      ensures quota.Valid(clock.now) && old(clock.now) + LeastTime(runs) <= clock.now
      ensures match EndingOf(runs)
        case Threw(last) => row == None && AddsRuns(old(quota.turns), quota.turns, runs, last)
        case Recorded(last, quotaRetries) =>
          && AddsRuns(old(quota.turns), quota.turns, runs, last + 1) && runs[last].Some?
          && row == Some(Row(key, runs[last].value, quotaRetries, IsSilent(runs[last].value)))
    {
      var attempt: nat, quotaRetries: nat := 0, 0;
      while true
        invariant quotaRetries <= MAX_QUOTA_RETRIES && attempt <= MAX_RATE_RETRIES
        invariant quota.Valid(clock.now)
        invariant OnTrack(runs, quotaRetries, attempt, clock.now - old(clock.now))
        invariant AddsRuns(old(quota.turns), quota.turns, runs, quotaRetries + attempt)
        decreases MAX_QUOTA_RETRIES + MAX_RATE_RETRIES - quotaRetries - attempt
      {
        ghost var before := clock.now - old(clock.now);
        var turn := TakeTurn(clock, runs, quotaRetries, attempt, old(quota.turns));
        TurnKeepsTrack(runs, quotaRetries, attempt, before, clock.now - old(clock.now), turn);
        match turn
        case Failed => return None;
        case Settled(a) => return Some(Row(key, a, quotaRetries, IsSilent(a)));
        case Retry(q, r) => quotaRetries, attempt := q, r;
      }
    }

    /**
     Runs one question until its row is recorded. Exactly one row is appended, the last attempt's;
     none if the key was saved before this recorder was made, or if a run throws.
     */
    method RecordTurn(clock: Clock, key: string, runs: Runs) returns (threw: bool)
      requires quota.Valid(clock.now)
      modifies this, quota, clock
      ensures quota.Valid(clock.now) && old(clock.now) <= clock.now
      ensures key !in done ==> old(clock.now) + LeastTime(runs) + (if threw then 0 else pauseMs) <= clock.now
      ensures key in done ==> !threw && results == old(results) && quota.turns == old(quota.turns)
      ensures key !in done ==>
        match EndingOf(runs)
        case Threw(last) => threw && results == old(results) && AddsRuns(old(quota.turns), quota.turns, runs, last)
        case Recorded(last, quotaRetries) =>
          && !threw && AddsRuns(old(quota.turns), quota.turns, runs, last + 1)
          && runs[last].Some?
          && results == old(results) + [Row(key, runs[last].value, quotaRetries, IsSilent(runs[last].value))]
    {
      threw := false;
      if key in done {
        return;
      }
      var row := RunUntilSettled(clock, key, runs);
      if row.None? {
        threw := true;
        return;
      }
      results := results + [row.value];
      WaitPaced(clock, pauseMs);
    }
  }

  /** Whatever a recorder adds, no 60-second window holds more than the budget allows. */
  method RecordAll(recorder: Recorder, clock: Clock, questions: seq<(string, Runs)>, ghost most: int)
    requires recorder.quota.Valid(clock.now) && recorder.quota.turns == [] && most >= 0
    requires forall q, n: nat ::
      q in questions && n < |q.1| && q.1[n].Some? ==> 0 <= TokensOf(q.1[n].value) <= most
    modifies recorder, recorder.quota, clock
    ensures recorder.quota.Valid(clock.now)
    ensures forall lo :: AddedInWindow(recorder.quota.turns, lo) <= Max(recorder.quota.budget - 1, 0) + most
    ensures |old(recorder.results)| <= |recorder.results| <= |old(recorder.results)| + |questions|
    ensures recorder.results[..|old(recorder.results)|] == old(recorder.results)
  {
    for i := 0 to |questions|
      invariant recorder.quota.Valid(clock.now) && TokensWithin(recorder.quota.turns, most)
      invariant |old(recorder.results)| <= |recorder.results| <= |old(recorder.results)| + i
      invariant recorder.results[..|old(recorder.results)|] == old(recorder.results)
    {
      var (key, runs) := questions[i];
      ghost var was := recorder.quota.turns;
      assert questions[i] in questions;
      var threw := recorder.RecordTurn(clock, key, runs);
      forall k | 0 <= k < |recorder.quota.turns| ensures 0 <= recorder.quota.turns[k].tokens <= most {
        if k < |was| {
          assert recorder.quota.turns[..|was|][k] == was[k];
        } else if key !in recorder.done {
          assert recorder.quota.turns[|was| + (k - |was|)].tokens == TokensOf(runs[k - |was|].value);
        }
      }
      if threw {
        break;
      }
    }
    forall lo
      ensures AddedInWindow(recorder.quota.turns, lo) <= Max(recorder.quota.budget - 1, 0) + most
    {
      RateBound(recorder.quota.turns, recorder.quota.budget, most, lo);
    }
  }
}
