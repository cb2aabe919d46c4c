/**
 The repair of billed lifetimes, src/migrations/1790000000013-CloseDeletedClusterIntervals.ts.

 Tables are maps from row id to row, each UPDATE a function from a table to a table. The open
 lifetimes of one node become consecutive, then those of deleted clusters are closed. From its
 first start to its final end each node is then billed exactly once at every instant.
 */
module IntervalRepair {
  import opened Integers
  import opened Sets
  import opened Wrappers

  /** A lifetime of a node, or of a volume, on a cluster. */
  datatype Interval = Interval(owner: int, cluster: int, startedAt: int, endedAt: Option<int>)

  type Table = map<int, Interval>

  datatype Cluster = Cluster(deleted: bool, deletedAt: Option<int>, updatedAt: int)

  // ---- the updates -----------------------------------------------------------------

  predicate IsOpen(t: Table, id: int) {
    id in t && t[id].endedAt == None
  }

  /** The open lifetimes of one owner. */
  function OpenOf(t: Table, owner: int): set<int> {
    set id | id in t && t[id].endedAt == None && t[id].owner == owner
  }

  /** The order of the window: by start, then by id. */
  predicate Precedes(t: Table, a: int, b: int)
    requires a in t && b in t
  {
    t[a].startedAt < t[b].startedAt || (t[a].startedAt == t[b].startedAt && a < b)
  }

  function Later(t: Table, id: int): set<int>
    requires id in t
  {
    set j | j in OpenOf(t, t[id].owner) && Precedes(t, id, j)
  }

  function Starts(t: Table, ids: set<int>): set<int>
    requires ids <= t.Keys
  {
    set id | id in ids :: t[id].startedAt
  }

  lemma {:induction false} LeastOf(s: set<int>) returns (least: int)
    requires s != {}
    ensures least in s && forall x :: x in s ==> least <= x
    decreases s
  {
    SomeElement(s);
    var x :| x in s;
    var others := s - {x};
    assert forall y :: y in s ==> y == x || y in others;
    least := x;
    if others != {} {
      var m := LeastOf(others);
      least := if x < m then x else m;
    }
  }

  lemma MinExists(s: set<int>)
    requires s != {}
    ensures exists m :: m in s && forall x :: x in s ==> m <= x
  {
    var least := LeastOf(s);
  }

  function Min(s: set<int>): (m: int)
    requires s != {}
    ensures m in s && forall x :: x in s ==> m <= x
  {
    MinExists(s);
    var m :| m in s && forall x :: x in s ==> m <= x;
    m
  }

  /** `LEAD("startedAt")` over the open lifetimes of the same node. */
  function NextStart(t: Table, id: int): Option<int>
    requires id in t
  {
    if Later(t, id) == {} then None
    else
      var j :| j in Later(t, id);
      assert t[j].startedAt in Starts(t, Later(t, id));
      Some(Min(Starts(t, Later(t, id))))
  }

  function ChainedRow(t: Table, id: int): Interval
    requires id in t
  {
    if t[id].endedAt == None && NextStart(t, id).Some? then t[id].(endedAt := NextStart(t, id)) else t[id]
  }

  /** First UPDATE: an open row that `LEAD` finds a later start for takes it as its end. */
  function Chained(t: Table): Table {
    map id | id in t :: ChainedRow(t, id)
  }

  predicate IsGone(clusters: map<int, Cluster>, c: int) {
    c in clusters && (clusters[c].deleted || clusters[c].deletedAt.Some?)
  }

  function GoneAt(c: Cluster): int {
    if c.deletedAt.Some? then c.deletedAt.value else c.updatedAt
  }

  function ClosedRow(r: Interval, clusters: map<int, Cluster>): Interval {
    if r.endedAt == None && IsGone(clusters, r.cluster)
    then r.(endedAt := Some(Max(r.startedAt, GoneAt(clusters[r.cluster]))))
    else r
  }

  /** Second UPDATE: what is still open on a deleted cluster ends when the cluster was deleted. */
  function Closed(t: Table, clusters: map<int, Cluster>): Table {
    map id | id in t :: ClosedRow(t[id], clusters)
  }

  function Repaired(t: Table, clusters: map<int, Cluster>): Table {
    Closed(Chained(t), clusters)
  }

  /** What the unique index demands: at most one open row for each owner. */
  predicate OneOpenEach(t: Table) {
    forall a, b :: a in t && b in t && a != b && IsOpen(t, a) && IsOpen(t, b) ==> t[a].owner != t[b].owner
  }

  // ---- one row after another -------------------------------------------------------

  /** `LEAD` is the start of the very next open row: none stands between. */
  lemma NextStartIsNext(t: Table, id: int) returns (next: int)
    requires id in t && NextStart(t, id).Some?
    ensures next in Later(t, id) && Some(t[next].startedAt) == NextStart(t, id)
    ensures forall j :: j in Later(t, id) ==> t[next].startedAt <= t[j].startedAt
  {
    var starts := Starts(t, Later(t, id));
    next :| next in Later(t, id) && t[next].startedAt == Min(starts);
    forall j | j in Later(t, id) ensures t[next].startedAt <= t[j].startedAt {
      assert t[j].startedAt in starts;
    }
  }

  /** The last of some rows, in the order of the window. */
  lemma {:induction false} LastOf(t: Table, ids: set<int>) returns (last: int)
    requires ids != {} && ids <= t.Keys
    ensures last in ids && forall j :: j in ids && j != last ==> Precedes(t, j, last)
    decreases ids
  {
    SomeElement(ids);
    var id :| id in ids;
    var others := ids - {id};
    last := id;
    if others != {} {
      var other := LastOf(t, others);
      if Precedes(t, id, other) {
        last := other;
      }
    }
    forall j | j in ids && j != last ensures Precedes(t, j, last) {
      assert j == id || j in others;
    }
  }

  lemma EndsNeverPrecedeStarts(t: Table, clusters: map<int, Cluster>, id: int)
    requires IsOpen(t, id)
    ensures var r := Repaired(t, clusters)[id]; r.endedAt.Some? ==> t[id].startedAt <= r.endedAt.value
  {
    if NextStart(t, id).Some? {
      var next := NextStartIsNext(t, id);
    }
  }

  /** Closed rows are untouched; open ones only gain an end. */
  lemma OnlyOpenRowsAreEnded(t: Table, clusters: map<int, Cluster>, id: int)
    requires id in t
    ensures id in Repaired(t, clusters)
    ensures !IsOpen(t, id) ==> Repaired(t, clusters)[id] == t[id]
    ensures Repaired(t, clusters)[id].(endedAt := None) == t[id].(endedAt := None)
  {
  }

  /** A row stays open exactly if it is the last open one of its node and its cluster is not gone. */
  lemma StaysOpenIfLast(t: Table, clusters: map<int, Cluster>, id: int)
    requires id in t
    ensures IsOpen(Repaired(t, clusters), id) <==>
            IsOpen(t, id) && Later(t, id) == {} && !IsGone(clusters, t[id].cluster)
  {
  }

  lemma OneIsLater(t: Table, a: int, b: int)
    requires IsOpen(t, a) && IsOpen(t, b)
    ensures a != b && t[a].owner == t[b].owner ==> b in Later(t, a) || a in Later(t, b)
  {
  }

  lemma AtMostOneStaysOpen(t: Table, clusters: map<int, Cluster>)
    ensures OneOpenEach(Repaired(t, clusters))
  {
    var r := Repaired(t, clusters);
    forall a, b | a in r && b in r && a != b && IsOpen(r, a) && IsOpen(r, b) ensures r[a].owner != r[b].owner {
      StaysOpenIfLast(t, clusters, a);
      StaysOpenIfLast(t, clusters, b);
      OnlyOpenRowsAreEnded(t, clusters, a);
      OnlyOpenRowsAreEnded(t, clusters, b);
      OneIsLater(t, a, b);
    }
  }

  lemma NoneOpenOnGoneCluster(t: Table, clusters: map<int, Cluster>, id: int)
    requires IsOpen(Closed(t, clusters), id)
    ensures !IsGone(clusters, Closed(t, clusters)[id].cluster)
  {
  }

  /** A second run changes nothing. */
  lemma SecondRunChangesNothing(t: Table, clusters: map<int, Cluster>)
    ensures Repaired(Repaired(t, clusters), clusters) == Repaired(t, clusters)
    ensures Closed(Closed(t, clusters), clusters) == Closed(t, clusters)
  {
    var r := Repaired(t, clusters);
    AtMostOneStaysOpen(t, clusters);
    forall id | id in r ensures Repaired(r, clusters)[id] == r[id] {
      if IsOpen(r, id) {
        NoneOpenOnGoneCluster(Chained(t), clusters, id);
        if Later(r, id) != {} {
          var j :| j in Later(r, id);
          assert IsOpen(r, j) && r[j].owner == r[id].owner;
        }
      }
    }
  }

  // ---- every instant billed once ---------------------------------------------------

  predicate Bills(r: Interval, at: int) {
    r.startedAt <= at && (r.endedAt == None || at < r.endedAt.value)
  }

  /** The formerly open rows of an owner that bill it at an instant, in a later state of the table. */
  function BilledBy(t: Table, later: Table, owner: int, at: int): set<int>
    requires t.Keys == later.Keys
  {
    set id | id in OpenOf(t, owner) && Bills(later[id], at)
  }

  /** The end of the last open row of an owner, once repaired: where its billing ends, if it does. */
  ghost predicate IsFinalEnd(t: Table, clusters: map<int, Cluster>, owner: int, end: Option<int>) {
    exists last :: last in OpenOf(t, owner) && Later(t, last) == {} && end == ClosedRow(t[last], clusters).endedAt
  }

  /** A row with a successor bills from its start up to the next start. */
  lemma BillsUpToNext(t: Table, clusters: map<int, Cluster>, id: int, at: int)
    requires IsOpen(t, id) && Later(t, id) != {}
    ensures Bills(Repaired(t, clusters)[id], at) <==>
            t[id].startedAt <= at && forall j :: j in Later(t, id) ==> at < t[j].startedAt
  {
    var next := NextStartIsNext(t, id);
  }

  /** The last row that has started by `at` is the only one that can bill then. */
  lemma OnlyCurrentRowBills(t: Table, clusters: map<int, Cluster>, owner: int, at: int, current: int)
    requires current in OpenOf(t, owner) && t[current].startedAt <= at
    requires forall j :: j in OpenOf(t, owner) && t[j].startedAt <= at && j != current ==> Precedes(t, j, current)
    ensures Repaired(t, clusters).Keys == t.Keys
    ensures BilledBy(t, Repaired(t, clusters), owner, at) ==
            if Later(t, current) != {} || Bills(ClosedRow(t[current], clusters), at) then {current} else {}
  {
    var r := Repaired(t, clusters);
    forall id | id in OpenOf(t, owner) && id != current ensures !Bills(r[id], at) {
      if t[id].startedAt <= at {
        assert current in Later(t, id);
        BillsUpToNext(t, clusters, id, at);
      }
    }
    if Later(t, current) != {} {
      BillsUpToNext(t, clusters, current, at);
    }
  }

  /** At an instant by which some lifetime has started, the last started one is the current. */
  lemma BilledOnceStarted(t: Table, clusters: map<int, Cluster>, owner: int, at: int, first: int, end: Option<int>)
    requires first in OpenOf(t, owner) && t[first].startedAt <= at && IsFinalEnd(t, clusters, owner, end)
    ensures Repaired(t, clusters).Keys == t.Keys
    ensures |BilledBy(t, Repaired(t, clusters), owner, at)| == if end == None || at < end.value then 1 else 0
  {
    var started := set j | j in OpenOf(t, owner) && t[j].startedAt <= at;
    assert first in started;
    var current := LastOf(t, started);
    OnlyCurrentRowBills(t, clusters, owner, at, current);
    var last :| last in OpenOf(t, owner) && Later(t, last) == {} && end == ClosedRow(t[last], clusters).endedAt;
    if last == current {
      assert Bills(ClosedRow(t[last], clusters), at) <==> end == None || at < end.value;
    } else {
      assert Precedes(t, current, last) && current !in Later(t, last);
      assert last in Later(t, current) && last !in started;
    }
  }

  /**
   After the repair, the formerly open lifetimes of a node bill it exactly once at every instant
   from their earliest start to the node's final end -- for ever, if it stays open -- and never else.
   */
  lemma EveryInstantIsBilledOnce(t: Table, clusters: map<int, Cluster>, owner: int, at: int, end: Option<int>)
    requires OpenOf(t, owner) != {} && IsFinalEnd(t, clusters, owner, end)
    ensures Repaired(t, clusters).Keys == t.Keys
    ensures |BilledBy(t, Repaired(t, clusters), owner, at)| ==
            if (exists id :: id in OpenOf(t, owner) && t[id].startedAt <= at) && (end == None || at < end.value)
            then 1 else 0
  {
    if first :| first in OpenOf(t, owner) && t[first].startedAt <= at {
      BilledOnceStarted(t, clusters, owner, at, first, end);
    } else {
      forall id | id in OpenOf(t, owner) ensures !Bills(Repaired(t, clusters)[id], at) {
        OnlyOpenRowsAreEnded(t, clusters, id);
      }
      assert BilledBy(t, Repaired(t, clusters), owner, at) == {};
    }
  }

  /** There is one final end for each node with an open lifetime. */
  lemma FinalEndExists(t: Table, clusters: map<int, Cluster>, owner: int) returns (end: Option<int>)
    requires OpenOf(t, owner) != {}
    ensures IsFinalEnd(t, clusters, owner, end)
    ensures forall other :: IsFinalEnd(t, clusters, owner, other) ==> other == end
  {
    var last := LastOf(t, OpenOf(t, owner));
    end := ClosedRow(t[last], clusters).endedAt;
    assert Later(t, last) == {};
    forall other | IsFinalEnd(t, clusters, owner, other) ensures other == end {
      var l :| l in OpenOf(t, owner) && Later(t, l) == {} && other == ClosedRow(t[l], clusters).endedAt;
      OneIsLater(t, l, last);
    }
  }

  /** Chaining alone neither adds nor loses a billed instant. */
  lemma ChainingConservesBilledTime(t: Table, owner: int, at: int)
    ensures Chained(t).Keys == t.Keys
    ensures BilledBy(t, Chained(t), owner, at) == {} <==> BilledBy(t, t, owner, at) == {}
  {
    assert Closed(Chained(t), map[]) == Chained(t);
    if first :| first in OpenOf(t, owner) && t[first].startedAt <= at {
      assert first in BilledBy(t, t, owner, at);
      var end := FinalEndExists(t, map[], owner);
      BilledOnceStarted(t, map[], owner, at, first, end);
    } else {
      forall id | id in OpenOf(t, owner) ensures !Bills(Chained(t)[id], at) && !Bills(t[id], at) {
      }
    }
  }

  // ---- the migration ---------------------------------------------------------------

  /** The stored tables and whether the unique index exists. */
  class Database {
    var nodes: Table
    var volumes: Table
    const clusters: map<int, Cluster>
    var hasOpenNodeIndex: bool

    constructor (nodes: Table, volumes: Table, clusters: map<int, Cluster>, hasOpenNodeIndex: bool)
      ensures this.nodes == nodes && this.volumes == volumes && this.clusters == clusters
      ensures this.hasOpenNodeIndex == hasOpenNodeIndex
    {
      this.nodes, this.volumes, this.clusters, this.hasOpenNodeIndex := nodes, volumes, clusters, hasOpenNodeIndex;
    }

    /** `CREATE UNIQUE INDEX IF NOT EXISTS`: fails on a table with duplicates. */
    method CreateOpenNodeIndex() returns (ok: bool)
      modifies this`hasOpenNodeIndex
      ensures ok <==> old(hasOpenNodeIndex) || OneOpenEach(nodes)
      ensures hasOpenNodeIndex == ok
    {
      if !hasOpenNodeIndex {
        hasOpenNodeIndex := OneOpenEach(nodes);
      }
      ok := hasOpenNodeIndex;
    }

    /** The migration: it always gets to its index, and leaves at most one open lifetime for each node. */
    method Up() returns (ok: bool)
      modifies this
      ensures ok && hasOpenNodeIndex && OneOpenEach(nodes)
      ensures nodes == Repaired(old(nodes), clusters)
      ensures volumes == Closed(old(volumes), clusters)
    {
      ghost var before := nodes;
      nodes := Chained(nodes);
      nodes := Closed(nodes, clusters);
      volumes := Closed(volumes, clusters);
      AtMostOneStaysOpen(before, clusters);
      ok := CreateOpenNodeIndex();
    }
  }
}
