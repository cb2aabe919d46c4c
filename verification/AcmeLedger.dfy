/**
 The certificate issuance ledger of a profile, cli/src/lib/config-storage.ts lines 635-661. Every
 access drops entries of 168 hours and older; counting on what is left is counting on all there ever was.
 */
module AcmeLedger {

  const WINDOW := 168 * 3600 * 1000

  datatype Server = Production | Staging

  datatype Issuance = Issuance(domains: string, server: Server, issuedAt: int)

  predicate IsYoung(i: Issuance, now: int) {
    now - i.issuedAt < WINDOW
  }

  /** The entries younger than the window, in order. */
  function Young(entries: seq<Issuance>, now: int): seq<Issuance> {
    if entries == [] then []
    else (if IsYoung(entries[0], now) then [entries[0]] else []) + Young(entries[1..], now)
  }

  function Matching(entries: seq<Issuance>, domains: string, server: Server): nat {
    if entries == [] then 0
    else
      Matching(entries[1..], domains, server)
      + if entries[0].domains == domains && entries[0].server == server then 1 else 0
  }

  // ---- pruning forgets nothing that counts -----------------------------------------

  lemma {:induction false} YoungConcat(a: seq<Issuance>, b: seq<Issuance>, now: int)
    ensures Young(a + b, now) == Young(a, now) + Young(b, now)
  {
    if a == [] {
      assert a + b == b;
    } else {
      var first := if IsYoung(a[0], now) then [a[0]] else [];
      YoungConcat(a[1..], b, now);
      assert (a + b)[1..] == a[1..] + b;
      assert first + (Young(a[1..], now) + Young(b, now)) == first + Young(a[1..], now) + Young(b, now);
    }
  }

  lemma {:induction false} YoungTwice(entries: seq<Issuance>, earlier: int, later: int)
    requires earlier <= later
    ensures Young(Young(entries, earlier), later) == Young(entries, later)
  {
    if entries == [] {
    } else {
      var first := if IsYoung(entries[0], earlier) then [entries[0]] else [];
      YoungTwice(entries[1..], earlier, later);
      YoungConcat(first, Young(entries[1..], earlier), later);
      assert entries[0..1][1..] == [];
    }
  }

  /** Whether, from `now` on, `stored` counts as the whole history does. */
  ghost predicate Stands(stored: seq<Issuance>, history: seq<Issuance>, now: int) {
    forall later :: now <= later ==> Young(stored, later) == Young(history, later)
  }

  lemma PruningStands(stored: seq<Issuance>, history: seq<Issuance>, before: int, now: int)
    requires Stands(stored, history, before) && before <= now
    ensures Stands(Young(stored, now), history, now)
  {
    forall later | now <= later ensures Young(Young(stored, now), later) == Young(history, later) {
      YoungTwice(stored, now, later);
    }
  }

  lemma RecordingStands(stored: seq<Issuance>, history: seq<Issuance>, now: int, i: Issuance)
    requires Stands(stored, history, now)
    ensures Stands(stored + [i], history + [i], now)
  {
    forall later | now <= later ensures Young(stored + [i], later) == Young(history + [i], later) {
      YoungConcat(stored, [i], later);
      YoungConcat(history, [i], later);
    }
  }

  // ---- whole runs ------------------------------------------------------------------

  /** One access, with the clock readings it makes: a filter reads the clock once, a record once more. */
  datatype Access =
    | ReadAll(at: int)
    | Record(at: int, stampedAt: int, domains: string, server: Server)
    | Count(at: int, domains: string, server: Server)

  function EndOf(a: Access): int {
    if a.Record? then a.stampedAt else a.at
  }

  /** The clock never runs backwards, within an access or from one to the next. */
  predicate ClockFollows(start: int, run: seq<Access>)
    decreases |run|
  {
    run == [] ||
    (start <= run[0].at && run[0].at <= EndOf(run[0]) && ClockFollows(EndOf(run[0]), run[1..]))
  }

  function Stored(stored: seq<Issuance>, a: Access): seq<Issuance> {
    if a.Record? then Young(stored, a.at) + [Issuance(a.domains, a.server, a.stampedAt)] else Young(stored, a.at)
  }

  function Recorded(history: seq<Issuance>, a: Access): seq<Issuance> {
    if a.Record? then history + [Issuance(a.domains, a.server, a.stampedAt)] else history
  }

  function StoredAfter(stored: seq<Issuance>, run: seq<Access>): seq<Issuance>
    decreases |run|
  {
    if run == [] then stored else StoredAfter(Stored(stored, run[0]), run[1..])
  }

  function HistoryAfter(history: seq<Issuance>, run: seq<Access>): seq<Issuance>
    decreases |run|
  {
    if run == [] then history else HistoryAfter(Recorded(history, run[0]), run[1..])
  }

  lemma {:induction false} ClockReaches(start: int, run: seq<Access>)
    requires ClockFollows(start, run) && run != []
    ensures start <= EndOf(run[|run| - 1])
    decreases |run|
  {
    if |run| > 1 {
      ClockReaches(EndOf(run[0]), run[1..]);
    } else {
    }
  }

  lemma AccessStands(start: int, stored: seq<Issuance>, history: seq<Issuance>, a: Access)
    requires Stands(stored, history, start) && start <= a.at <= EndOf(a)
    ensures Stands(Stored(stored, a), Recorded(history, a), EndOf(a))
  {
    PruningStands(stored, history, start, a.at);
    if a.Record? {
      RecordingStands(Young(stored, a.at), history, a.stampedAt, Issuance(a.domains, a.server, a.stampedAt));
    }
  }

  lemma {:induction false} RunStands(
      start: int, stored: seq<Issuance>, history: seq<Issuance>, run: seq<Access>, now: int)
    requires Stands(stored, history, start) && ClockFollows(start, run)
    requires start <= now && (run != [] ==> EndOf(run[|run| - 1]) <= now)
    ensures Stands(StoredAfter(stored, run), HistoryAfter(history, run), now)
    decreases |run|
  {
    if run == [] {
    } else {
      var a := run[0];
      AccessStands(start, stored, history, a);
      if |run| > 1 {
        assert run[1..][|run| - 2] == run[|run| - 1];
        ClockReaches(EndOf(a), run[1..]);
      }
      RunStands(EndOf(a), Stored(stored, a), Recorded(history, a), run[1..], now);
    }
  }

  /**
   After any run of reads, records and counts, a count taken at `now` is the number of matching
   issuances younger than 168 hours among all that were ever recorded.
   */
  lemma CountIsOverFullHistory(
      start: int, initial: seq<Issuance>, run: seq<Access>, now: int, domains: string, server: Server)
    requires ClockFollows(start, run)
    requires start <= now && (run != [] ==> EndOf(run[|run| - 1]) <= now)
    ensures Matching(Young(StoredAfter(initial, run), now), domains, server)
         == Matching(Young(HistoryAfter(initial, run), now), domains, server)
  {
    RunStands(start, initial, initial, run, now);
  }

  // ---- the object ------------------------------------------------------------------

  class Ledger {
    /** The `acmeIssuances` preference as stored. */
    var acmeIssuances: seq<Issuance>
    /** All that was ever recorded, and the latest clock reading. */
    ghost var history: seq<Issuance>
    ghost var seen: int

    ghost predicate Valid()
      reads this
    {
      Stands(acmeIssuances, history, seen)
    }

    constructor (stored: seq<Issuance>, now: int)
      ensures Valid() && acmeIssuances == stored && history == stored && seen == now
    {
      acmeIssuances, history, seen := stored, stored, now;
    }

    /** The entries younger than the window, which are also all that stays stored. */
    method GetAcmeIssuances(now: int) returns (all: seq<Issuance>)
      requires Valid() && seen <= now
      modifies this
      ensures Valid() && seen == now && history == old(history)
      ensures all == acmeIssuances == Young(history, now)
    {
      all := Young(acmeIssuances, now);
      PruningStands(acmeIssuances, history, seen, now);
      acmeIssuances, seen := all, now;
    }

    method RecordAcmeIssuance(domains: string, server: Server, now: int, stampedAt: int)
      requires Valid() && seen <= now <= stampedAt
      modifies this
      ensures Valid() && seen == stampedAt
      ensures history == old(history) + [Issuance(domains, server, stampedAt)]
      ensures acmeIssuances == Young(old(history), now) + [Issuance(domains, server, stampedAt)]
    {
      var all := GetAcmeIssuances(now);
      var i := Issuance(domains, server, stampedAt);
      RecordingStands(acmeIssuances, history, stampedAt, i);
      acmeIssuances, history, seen := all + [i], history + [i], stampedAt;
    }

    /** How many matching issuances of the whole history are younger than the window. */
    method CountAcmeIssuances(domains: string, server: Server, now: int) returns (n: nat)
      requires Valid() && seen <= now
      modifies this
      ensures Valid() && seen == now && history == old(history)
      ensures n == Matching(Young(history, now), domains, server)
    {
      var all := GetAcmeIssuances(now);
      n := Matching(all, domains, server);
    }
  }
}
