/**
 The peer migration, src/migrations/1790000000041-ControlPeerPerNode.ts: the oldest live control
 row becomes primary, a member reservation of its master is revoked, and it takes the master's node.

 The two unique indexes are on live rows by node (src/migrations/1788800000000-WireGuardPeers.ts)
 and on live primary rows. Where the database may pick any of several rows, so may the model.
 */
module PeerRepair {
  import opened Sets
  import opened Wrappers

  datatype Role = Control | Member

  datatype Status = Pending | Active | Stale | Revoked

  datatype Peer = Peer(
    node: Option<int>,
    cluster: int,
    role: Role,
    status: Status,
    createdAt: int,
    revokedAt: Option<int>,
    isPrimary: bool)

  type Peers = map<int, Peer>

  /** A cluster node; `usable` when it is neither being deleted nor failed. */
  datatype Node = Node(cluster: int, isMaster: bool, usable: bool, createdAt: int)

  type Nodes = map<int, Node>

  predicate IsLive(peers: Peers, id: int) {
    id in peers && peers[id].revokedAt == None
  }

  // ---- the indexes -----------------------------------------------------------------

  /** At most one live row for each node. */
  predicate OneLivePerNode(peers: Peers) {
    forall a, b :: a in peers && b in peers && a != b && IsLive(peers, a) && IsLive(peers, b) && peers[a].node.Some?
      ==> peers[a].node != peers[b].node
  }

  predicate OneLivePrimary(peers: Peers) {
    forall a, b :: a in peers && b in peers && a != b && IsLive(peers, a) && IsLive(peers, b)
      ==> !(peers[a].isPrimary && peers[b].isPrimary)
  }

  // ---- the choices of the database -------------------------------------------------

  predicate IsLiveControl(peers: Peers, id: int) {
    IsLive(peers, id) && peers[id].role == Control
  }

  predicate IsOldestOf(peers: Peers, chosen: int, ids: set<int>) {
    chosen in peers && forall id :: id in ids ==> id in peers && peers[chosen].createdAt <= peers[id].createdAt
  }

  /** `ORDER BY "createdAt" ASC LIMIT 1` over the live control rows. */
  ghost predicate IsOldestControl(peers: Peers, chosen: Option<int>) {
    match chosen
    case None => forall id :: id in peers ==> !IsLiveControl(peers, id)
    case Some(c) =>
      && IsLiveControl(peers, c)
      && forall id :: id in peers && IsLiveControl(peers, id) ==> peers[c].createdAt <= peers[id].createdAt
  }

  predicate IsMasterOf(nodes: Nodes, cluster: int, id: int) {
    id in nodes && nodes[id].isMaster && nodes[id].usable && nodes[id].cluster == cluster
  }

  ghost predicate IsNewestMaster(nodes: Nodes, cluster: int, id: int) {
    && IsMasterOf(nodes, cluster, id)
    && forall other ::
         other in nodes && IsMasterOf(nodes, cluster, other) ==> nodes[other].createdAt <= nodes[id].createdAt
  }

  /** `DISTINCT ON ("clusterId") ... "createdAt" DESC`: a newest usable master for each cluster that has one. */
  ghost predicate AreNewestMasters(nodes: Nodes, masters: map<int, int>) {
    && (forall c :: c in masters ==> IsNewestMaster(nodes, c, masters[c]))
    && (forall id :: id in nodes && IsMasterOf(nodes, nodes[id].cluster, id) ==> nodes[id].cluster in masters)
  }

  ghost predicate DistinctMasterTimes(nodes: Nodes) {
    forall cluster, a, b :: a != b && IsMasterOf(nodes, cluster, a) && IsMasterOf(nodes, cluster, b)
      ==> nodes[a].createdAt != nodes[b].createdAt
  }

  /** What the database picks: a row to mark, and masters once for the revocation and once for the assignment. */
  datatype Choices = Choices(primary: Option<int>, masters: map<int, int>, mastersAgain: map<int, int>)

  ghost predicate CanChoose(columned: Peers, nodes: Nodes, choices: Choices) {
    && IsOldestControl(columned, choices.primary)
    && AreNewestMasters(nodes, choices.masters) && AreNewestMasters(nodes, choices.mastersAgain)
  }

  // ---- the updates -----------------------------------------------------------------

  /** `ADD COLUMN IF NOT EXISTS "isPrimary" ... DEFAULT false`. */
  function WithColumn(peers: Peers, hasColumn: bool): Peers {
    if hasColumn then peers else map id | id in peers :: peers[id].(isPrimary := false)
  }

  function Marked(peers: Peers, chosen: Option<int>): Peers {
    if chosen.Some? && IsLiveControl(peers, chosen.value)
    then peers[chosen.value := peers[chosen.value].(isPrimary := true)]
    else peers
  }

  /** A live primary row that has no node yet. */
  predicate AwaitsNode(peers: Peers, id: int) {
    IsLive(peers, id) && peers[id].isPrimary && peers[id].node == None
  }

  predicate SomeAwaitsIn(peers: Peers, cluster: int) {
    exists id :: id in peers && AwaitsNode(peers, id) && peers[id].cluster == cluster
  }

  /** Whether a row is a live member on the master of a cluster whose primary awaits its node. */
  predicate IsSuperseded(peers: Peers, masters: map<int, int>, id: int) {
    && IsLive(peers, id) && peers[id].role == Member
    && exists c :: c in masters && SomeAwaitsIn(peers, c) && peers[id].node == Some(masters[c])
  }

  function MembersRevoked(peers: Peers, masters: map<int, int>, now: int): Peers {
    map id | id in peers ::
      if IsSuperseded(peers, masters, id) then peers[id].(status := Revoked, revokedAt := Some(now)) else peers[id]
  }

  function NodesAssigned(peers: Peers, masters: map<int, int>): Peers {
    map id | id in peers ::
      if AwaitsNode(peers, id) && peers[id].cluster in masters
      then peers[id].(node := Some(masters[peers[id].cluster]))
      else peers[id]
  }

  /** Adding the column and marking the chosen row. */
  function MarkedPeers(peers: Peers, hasColumn: bool, choices: Choices): Peers {
    Marked(WithColumn(peers, hasColumn), choices.primary)
  }

  /** All updates; the third and the fourth each find their masters anew. */
  function Migrated(peers: Peers, hasColumn: bool, choices: Choices, now: int): Peers {
    NodesAssigned(MembersRevoked(MarkedPeers(peers, hasColumn, choices), choices.masters, now), choices.mastersAgain)
  }

  datatype Outcome = Done | NodeIndexViolated | PrimaryIndexViolated

  /** The primary index is checked by the marking if it is there already, else when it is created. */
  function OutcomeOf(peers: Peers, hasColumn: bool, hasPrimaryIndex: bool, choices: Choices, now: int): Outcome {
    if hasPrimaryIndex && !OneLivePrimary(MarkedPeers(peers, hasColumn, choices)) then PrimaryIndexViolated
    else if !OneLivePerNode(Migrated(peers, hasColumn, choices, now)) then NodeIndexViolated
    else if !OneLivePrimary(Migrated(peers, hasColumn, choices, now)) then PrimaryIndexViolated
    else Done
  }

  // ---- when it succeeds ------------------------------------------------------------

  /** No other newest master of the cluster than `m`. */
  ghost predicate IsOnlyNewest(nodes: Nodes, cluster: int, m: int) {
    forall other :: IsNewestMaster(nodes, cluster, other) ==> other == m
  }

  /** A row on a newest master of the primary's cluster is in the way unless it is sure to be revoked. */
  ghost predicate IsInTheWay(peers: Peers, nodes: Nodes, primary: int, id: int, m: int)
    requires primary in peers
  {
    && IsLive(peers, id) && id != primary && peers[id].node == Some(m)
    && IsNewestMaster(nodes, peers[primary].cluster, m)
    && !(peers[id].role == Member && IsOnlyNewest(nodes, peers[primary].cluster, m))
  }

  ghost predicate NodeIsFree(peers: Peers, nodes: Nodes, primary: int)
    requires primary in peers
  {
    forall id, m :: !IsInTheWay(peers, nodes, primary, id, m)
  }

  /** What marked rows have to be like: one live primary, and the node it awaits free for it. */
  ghost predicate AreSafe(marked: Peers, nodes: Nodes) {
    OneLivePrimary(marked) && forall p :: p in marked && AwaitsNode(marked, p) ==> NodeIsFree(marked, nodes, p)
  }

  /** Whichever of the oldest control rows is marked, the rows are then safe. */
  ghost predicate IsReady(peers: Peers, hasColumn: bool, nodes: Nodes) {
    var columned := WithColumn(peers, hasColumn);
    forall chosen :: IsOldestControl(columned, chosen) ==> AreSafe(Marked(columned, chosen), nodes)
  }

  // ---- the primary index -----------------------------------------------------------

  /** Only control rows are live primaries, as nothing else is ever marked. */
  ghost predicate OnlyControlsArePrimary(peers: Peers) {
    forall id :: id in peers && IsLive(peers, id) && peers[id].isPrimary ==> peers[id].role == Control
  }

  /** Live rows stay live but for revoked members, and no update but the first touches the mark. */
  lemma OnlyMarkingMarks(marked: Peers, choices: Choices, now: int)
    ensures var after := NodesAssigned(MembersRevoked(marked, choices.masters, now), choices.mastersAgain);
            && (OneLivePrimary(marked) ==> OneLivePrimary(after))
            && (OnlyControlsArePrimary(marked) && OneLivePrimary(after) ==> OneLivePrimary(marked))
  {
    var revoked := MembersRevoked(marked, choices.masters, now);
    var after := NodesAssigned(revoked, choices.mastersAgain);
    assert forall id :: id in marked ==>
        after[id].isPrimary == marked[id].isPrimary && after[id].revokedAt == revoked[id].revokedAt;
    if OnlyControlsArePrimary(marked) && OneLivePrimary(after) {
      forall a, b | a in marked && b in marked && a != b && IsLive(marked, a) && IsLive(marked, b)
        ensures !(marked[a].isPrimary && marked[b].isPrimary)
      {
        assert marked[a].isPrimary ==> IsLive(after, a);
        assert marked[b].isPrimary ==> IsLive(after, b);
      }
    }
  }

  /** With the column just added, at most the chosen row is a live primary. */
  lemma NewColumnHasOnePrimary(peers: Peers, choices: Choices, now: int)
    ensures OneLivePrimary(MarkedPeers(peers, false, choices)) && OneLivePrimary(Migrated(peers, false, choices, now))
  {
    var marked := MarkedPeers(peers, false, choices);
    assert forall id :: id in marked && marked[id].isPrimary ==> choices.primary == Some(id);
    OnlyMarkingMarks(marked, choices, now);
  }

  /** With the column there before, marking leaves one live primary exactly if no other row was one already. */
  lemma MarkingKeepsOnePrimary(peers: Peers, chosen: int)
    requires IsLiveControl(peers, chosen)
    ensures OneLivePrimary(Marked(peers, Some(chosen))) <==>
            forall id :: id in peers && IsLive(peers, id) && id != chosen ==> !peers[id].isPrimary
  {
    var marked := Marked(peers, Some(chosen));
    if OneLivePrimary(marked) {
      forall id | id in peers && IsLive(peers, id) && id != chosen ensures !peers[id].isPrimary {
        assert IsLive(marked, id) && IsLive(marked, chosen) && marked[chosen].isPrimary;
      }
    }
  }

  // ---- the node index --------------------------------------------------------------

  lemma SameRowsKeepOnePerNode(before: Peers, after: Peers)
    requires OneLivePerNode(before) && before.Keys == after.Keys
    requires forall id :: id in before ==> after[id].node == before[id].node
    requires forall id :: id in before && IsLive(after, id) ==> IsLive(before, id)
    ensures OneLivePerNode(after)
  {
    forall a, b | a in after && b in after && a != b && IsLive(after, a) && IsLive(after, b) && after[a].node.Some?
      ensures after[a].node != after[b].node
    {
      assert IsLive(before, a) && IsLive(before, b) && before[a].node.Some?;
    }
  }

  /** Adding the column, marking and revoking keep at most one live row for each node. */
  lemma EarlierStepsKeepOnePerNode(peers: Peers, hasColumn: bool, chosen: Option<int>, masters: map<int, int>, now: int)
    requires OneLivePerNode(peers)
    ensures OneLivePerNode(WithColumn(peers, hasColumn))
    ensures OneLivePerNode(Marked(WithColumn(peers, hasColumn), chosen))
    ensures OneLivePerNode(MembersRevoked(Marked(WithColumn(peers, hasColumn), chosen), masters, now))
  {
    var columned := WithColumn(peers, hasColumn);
    SameRowsKeepOnePerNode(peers, columned);
    var marked := Marked(columned, chosen);
    SameRowsKeepOnePerNode(columned, marked);
    SameRowsKeepOnePerNode(marked, MembersRevoked(marked, masters, now));
  }

  /** A row awaits its node, and its cluster has a master to give it. */
  ghost predicate TakesNode(peers: Peers, primary: int, masters: map<int, int>) {
    AwaitsNode(peers, primary) && peers[primary].cluster in masters
  }

  /** Assigning the node keeps the index exactly if no other live row holds it. */
  lemma AssigningKeepsOnePerNode(peers: Peers, primary: int, masters: map<int, int>)
    requires OneLivePerNode(peers) && OneLivePrimary(peers) && TakesNode(peers, primary, masters)
    ensures OneLivePerNode(NodesAssigned(peers, masters)) <==>
            var m := masters[peers[primary].cluster];
            forall id :: id in peers && IsLive(peers, id) && id != primary ==> peers[id].node != Some(m)
  {
    var after := NodesAssigned(peers, masters);
    var m := masters[peers[primary].cluster];
    forall id | id in peers && id != primary ensures after[id] == peers[id] {
      assert IsLive(peers, primary) && (AwaitsNode(peers, id) ==> IsLive(peers, id));
    }
    assert after[primary] == peers[primary].(node := Some(m));
    if OneLivePerNode(after) {
      forall id | id in peers && IsLive(peers, id) && id != primary ensures peers[id].node != Some(m) {
        assert IsLive(after, primary) && IsLive(after, id) && after[primary].node.Some?;
      }
    } else {
      var a, b :| a in after && b in after && a != b && IsLive(after, a) && IsLive(after, b) && after[a].node.Some?
        && after[a].node == after[b].node;
      assert a != primary && b != primary ==> after[a] == peers[a] && after[b] == peers[b];
      assert IsLive(peers, if a == primary then b else a);
    }
  }

  /** A live row is revoked exactly if it is a member on the master of the one cluster whose primary awaits. */
  lemma WhoIsRevoked(peers: Peers, primary: int, masters: map<int, int>, now: int, id: int)
    requires OneLivePrimary(peers) && AwaitsNode(peers, primary) && IsLive(peers, id)
    ensures var c := peers[primary].cluster;
            IsLive(MembersRevoked(peers, masters, now), id) <==>
            !(peers[id].role == Member && c in masters && peers[id].node == Some(masters[c]))
  {
    var c := peers[primary].cluster;
    assert SomeAwaitsIn(peers, c);
    forall d | d in masters && SomeAwaitsIn(peers, d) ensures d == c {
      var other :| other in peers && AwaitsNode(peers, other) && peers[other].cluster == d;
      assert IsLive(peers, other) && IsLive(peers, primary);
    }
  }

  /** With given masters, every other live row on the assigned node must be a member the revocation looked at. */
  lemma NodeIndexByMasters(
      peers: Peers, primary: int, masters: map<int, int>, mastersAgain: map<int, int>, now: int)
    requires OneLivePerNode(peers) && OneLivePrimary(peers) && TakesNode(peers, primary, mastersAgain)
    ensures var c := peers[primary].cluster;
            OneLivePerNode(NodesAssigned(MembersRevoked(peers, masters, now), mastersAgain)) <==>
            forall id :: id in peers && IsLive(peers, id) && id != primary && peers[id].node == Some(mastersAgain[c])
              ==> peers[id].role == Member && c in masters && masters[c] == mastersAgain[c]
  {
    var c := peers[primary].cluster;
    var revoked := MembersRevoked(peers, masters, now);
    SameRowsKeepOnePerNode(peers, revoked);
    assert OneLivePrimary(revoked);
    WhoIsRevoked(peers, primary, masters, now, primary);
    AssigningKeepsOnePerNode(revoked, primary, mastersAgain);
    forall id | id in peers && IsLive(peers, id)
      ensures IsLive(revoked, id) <==> !(peers[id].role == Member && c in masters && peers[id].node == Some(masters[c]))
    {
      WhoIsRevoked(peers, primary, masters, now, id);
    }
    assert forall id :: id in peers ==> revoked[id].node == peers[id].node;
    assert forall id :: id in peers && IsLive(revoked, id) ==> IsLive(peers, id);
  }

  // ---- every choice ----------------------------------------------------------------

  /** Whatever masters the two queries find, no node gets two live rows. */
  ghost predicate KeepsNodeIndex(peers: Peers, nodes: Nodes, now: int) {
    forall masters, mastersAgain :: AreNewestMasters(nodes, masters) && AreNewestMasters(nodes, mastersAgain)
      ==> OneLivePerNode(NodesAssigned(MembersRevoked(peers, masters, now), mastersAgain))
  }

  lemma {:induction false} NewestIn(nodes: Nodes, cluster: int, ids: set<int>) returns (newest: int)
    requires ids != {} && forall id :: id in ids ==> IsMasterOf(nodes, cluster, id)
    ensures newest in ids && newest in nodes
    ensures forall id :: id in ids ==> id in nodes && nodes[id].createdAt <= nodes[newest].createdAt
    decreases ids
  {
    SomeElement(ids);
    newest :| newest in ids;
    var others := ids - {newest};
    if others == {} {
      assert ids == {newest};
    } else {
      var other := NewestIn(nodes, cluster, others);
      assert forall id :: id in ids ==> id == newest || id in others;
      if nodes[newest].createdAt < nodes[other].createdAt {
        newest := other;
      }
    }
  }

  /** Each query has masters to find. */
  lemma NewestMastersExist(nodes: Nodes) returns (masters: map<int, int>)
    ensures AreNewestMasters(nodes, masters)
  {
    var clusters := set id | id in nodes && IsMasterOf(nodes, nodes[id].cluster, id) :: nodes[id].cluster;
    forall c | c in clusters ensures exists m :: IsNewestMaster(nodes, c, m) {
      var ids := set id | id in nodes && IsMasterOf(nodes, c, id);
      var id :| id in nodes && IsMasterOf(nodes, c, id);
      assert id in ids;
      var newest := NewestIn(nodes, c, ids);
      assert IsNewestMaster(nodes, c, newest);
    }
    masters := map c | c in clusters :: var m :| IsNewestMaster(nodes, c, m); m;
  }

  lemma OtherMasterFound(nodes: Nodes, masters: map<int, int>, cluster: int, m: int)
    requires AreNewestMasters(nodes, masters) && IsNewestMaster(nodes, cluster, m)
    ensures AreNewestMasters(nodes, masters[cluster := m])
  {
  }

  /** A row in the way breaks the node index for some choice of masters. */
  lemma RowInTheWayBreaks(peers: Peers, nodes: Nodes, primary: int, id: int, m: int, now: int)
    requires OneLivePerNode(peers) && OneLivePrimary(peers) && AwaitsNode(peers, primary)
    requires IsInTheWay(peers, nodes, primary, id, m)
    ensures !KeepsNodeIndex(peers, nodes, now)
  {
    var c := peers[primary].cluster;
    var some := NewestMastersExist(nodes);
    var other :| IsNewestMaster(nodes, c, other) && (peers[id].role == Member ==> other != m);
    OtherMasterFound(nodes, some, c, m);
    OtherMasterFound(nodes, some, c, other);
    NodeIndexByMasters(peers, primary, some[c := other], some[c := m], now);
  }

  /** Without a master in the one cluster whose primary awaits it, the node index is as before. */
  lemma NothingTaken(peers: Peers, primary: int, masters: map<int, int>, mastersAgain: map<int, int>, now: int)
    requires OneLivePerNode(peers) && OneLivePrimary(peers)
    requires AwaitsNode(peers, primary) ==> peers[primary].cluster !in mastersAgain
    requires forall id :: id in peers && AwaitsNode(peers, id) ==> id == primary
    ensures OneLivePerNode(NodesAssigned(MembersRevoked(peers, masters, now), mastersAgain))
  {
    var revoked := MembersRevoked(peers, masters, now);
    SameRowsKeepOnePerNode(peers, revoked);
  }

  /** With its node free, the primary takes it whatever masters are found. */
  lemma FreeNodeIsTaken(
      peers: Peers, nodes: Nodes, primary: int, masters: map<int, int>, mastersAgain: map<int, int>, now: int)
    requires OneLivePerNode(peers) && OneLivePrimary(peers) && AwaitsNode(peers, primary)
    requires NodeIsFree(peers, nodes, primary)
    requires AreNewestMasters(nodes, masters) && AreNewestMasters(nodes, mastersAgain)
    ensures OneLivePerNode(NodesAssigned(MembersRevoked(peers, masters, now), mastersAgain))
  {
    var c := peers[primary].cluster;
    if c in mastersAgain {
      var m := mastersAgain[c];
      assert IsNewestMaster(nodes, c, m) && nodes[m].cluster == c && IsNewestMaster(nodes, c, masters[c]);
      NodeIndexByMasters(peers, primary, masters, mastersAgain, now);
      forall id | id in peers && IsLive(peers, id) && id != primary && peers[id].node == Some(m)
        ensures peers[id].role == Member && masters[c] == m
      {
        assert !IsInTheWay(peers, nodes, primary, id, m);
      }
    } else {
      NothingTaken(peers, primary, masters, mastersAgain, now);
    }
  }

  /**
   With one live primary that awaits its node, every choice the database may make keeps the node
   index, exactly if each other live row on a newest master of its cluster is a member row and that
   master is the only newest one.
   */
  lemma NodeIndexHoldsExactly(peers: Peers, nodes: Nodes, primary: int, now: int)
    requires OneLivePerNode(peers) && OneLivePrimary(peers) && AwaitsNode(peers, primary)
    ensures KeepsNodeIndex(peers, nodes, now) <==> NodeIsFree(peers, nodes, primary)
  {
    if id, m :| IsInTheWay(peers, nodes, primary, id, m) {
      RowInTheWayBreaks(peers, nodes, primary, id, m, now);
    } else {
      forall masters, mastersAgain | AreNewestMasters(nodes, masters) && AreNewestMasters(nodes, mastersAgain)
        ensures OneLivePerNode(NodesAssigned(MembersRevoked(peers, masters, now), mastersAgain))
      {
        FreeNodeIsTaken(peers, nodes, primary, masters, mastersAgain, now);
      }
    }
  }

  /** Safe rows keep both indexes to the end. */
  lemma SafeRowsSucceed(marked: Peers, nodes: Nodes, choices: Choices, now: int)
    requires OneLivePerNode(marked) && AreSafe(marked, nodes)
    requires AreNewestMasters(nodes, choices.masters) && AreNewestMasters(nodes, choices.mastersAgain)
    ensures var after := NodesAssigned(MembersRevoked(marked, choices.masters, now), choices.mastersAgain);
            OneLivePerNode(after) && OneLivePrimary(after)
  {
    OnlyMarkingMarks(marked, choices, now);
    if primary :| primary in marked && AwaitsNode(marked, primary) {
      FreeNodeIsTaken(marked, nodes, primary, choices.masters, choices.mastersAgain, now);
    } else {
      var revoked := MembersRevoked(marked, choices.masters, now);
      SameRowsKeepOnePerNode(marked, revoked);
    }
  }

  lemma ReadySucceeds(peers: Peers, hasColumn: bool, hasIndex: bool, nodes: Nodes, choices: Choices, now: int)
    requires OneLivePerNode(peers) && CanChoose(WithColumn(peers, hasColumn), nodes, choices)
    ensures IsReady(peers, hasColumn, nodes) ==> OutcomeOf(peers, hasColumn, hasIndex, choices, now) == Done
  {
    if IsReady(peers, hasColumn, nodes) {
      EarlierStepsKeepOnePerNode(peers, hasColumn, choices.primary, choices.masters, now);
      SafeRowsSucceed(MarkedPeers(peers, hasColumn, choices), nodes, choices, now);
    }
  }

  /** Rows that are not safe once marked make some choice of masters fail. */
  lemma UnsafeRowsFail(marked: Peers, nodes: Nodes, now: int) returns (choices: Choices)
    requires OneLivePerNode(marked) && OnlyControlsArePrimary(marked) && !AreSafe(marked, nodes)
    ensures AreNewestMasters(nodes, choices.masters) && AreNewestMasters(nodes, choices.mastersAgain)
    ensures var after := NodesAssigned(MembersRevoked(marked, choices.masters, now), choices.mastersAgain);
            !(OneLivePerNode(after) && OneLivePrimary(after))
  {
    if OneLivePrimary(marked) {
      var p :| p in marked && AwaitsNode(marked, p) && !NodeIsFree(marked, nodes, p);
      NodeIndexHoldsExactly(marked, nodes, p, now);
      var masters, mastersAgain :| AreNewestMasters(nodes, masters) && AreNewestMasters(nodes, mastersAgain)
        && !OneLivePerNode(NodesAssigned(MembersRevoked(marked, masters, now), mastersAgain));
      choices := Choices(None, masters, mastersAgain);
    } else {
      var some := NewestMastersExist(nodes);
      choices := Choices(None, some, some);
      OnlyMarkingMarks(marked, choices, now);
    }
  }

  /**
   The migration succeeds whatever the database picks, exactly if the rows are ready for it: a
   condition on the tables alone.
   */
  lemma SucceedsExactlyIfReady(peers: Peers, hasColumn: bool, hasIndex: bool, nodes: Nodes, now: int)
    requires OneLivePerNode(peers) && OnlyControlsArePrimary(WithColumn(peers, hasColumn))
    ensures IsReady(peers, hasColumn, nodes) <==>
            forall choices :: CanChoose(WithColumn(peers, hasColumn), nodes, choices)
              ==> OutcomeOf(peers, hasColumn, hasIndex, choices, now) == Done
  {
    var columned := WithColumn(peers, hasColumn);
    forall choices | CanChoose(columned, nodes, choices)
      ensures IsReady(peers, hasColumn, nodes) ==> OutcomeOf(peers, hasColumn, hasIndex, choices, now) == Done
    {
      ReadySucceeds(peers, hasColumn, hasIndex, nodes, choices, now);
    }
    if chosen :| IsOldestControl(columned, chosen) && !AreSafe(Marked(columned, chosen), nodes) {
      EarlierStepsKeepOnePerNode(peers, hasColumn, chosen, map[], now);
      var found := UnsafeRowsFail(Marked(columned, chosen), nodes, now);
      var choices := found.(primary := chosen);
      assert CanChoose(columned, nodes, choices);
      assert OutcomeOf(peers, hasColumn, hasIndex, choices, now) != Done;
    }
  }

  /** No live row is primary but the one that the migration marks. */
  ghost predicate OnlyOldestIsPrimary(peers: Peers) {
    forall chosen, id :: IsOldestControl(peers, Some(chosen)) && IsLive(peers, id) && peers[id].isPrimary
      ==> id == chosen
  }

  /** The marked row is then the only live primary. */
  lemma OldestOrNone(peers: Peers, hasColumn: bool, chosen: Option<int>)
    requires IsOldestControl(WithColumn(peers, hasColumn), chosen)
    requires hasColumn ==> OnlyControlsArePrimary(peers) && OnlyOldestIsPrimary(peers)
    ensures OneLivePrimary(Marked(WithColumn(peers, hasColumn), chosen))
  {
    var columned := WithColumn(peers, hasColumn);
    match chosen
    case Some(c) => MarkingKeepsOnePrimary(columned, c);
    case None =>
      forall id | id in columned && IsLive(columned, id) ensures !columned[id].isPrimary {
        assert !IsLiveControl(columned, id);
      }
  }

  lemma OnlyMembersHaveNodes(peers: Peers, hasColumn: bool, chosen: Option<int>, id: int)
    requires forall k :: k in peers && IsLiveControl(peers, k) ==> peers[k].node == None
    ensures var marked := Marked(WithColumn(peers, hasColumn), chosen);
            IsLive(marked, id) && marked[id].node.Some? ==> marked[id].role == Member
  {
    assert id in peers ==> IsLiveControl(peers, id) == IsLiveControl(Marked(WithColumn(peers, hasColumn), chosen), id);
  }

  /** Masters created at distinct times leave one newest for each cluster. */
  lemma OneNewestMaster(nodes: Nodes, cluster: int, m: int)
    requires DistinctMasterTimes(nodes)
    ensures IsNewestMaster(nodes, cluster, m) ==> IsOnlyNewest(nodes, cluster, m)
  {
  }

  /**
   What the migration was written for makes the rows ready: distinct creation times, live control
   rows without a node, and no live primary besides the row that is marked.
   */
  lemma BothIndexesHold(peers: Peers, hasColumn: bool, nodes: Nodes)
    requires DistinctMasterTimes(nodes)
    requires forall id :: id in peers && IsLiveControl(peers, id) ==> peers[id].node == None
    requires hasColumn ==> OnlyControlsArePrimary(peers) && OnlyOldestIsPrimary(peers)
    ensures IsReady(peers, hasColumn, nodes)
  {
    var columned := WithColumn(peers, hasColumn);
    forall chosen | IsOldestControl(columned, chosen) ensures AreSafe(Marked(columned, chosen), nodes) {
      var marked := Marked(columned, chosen);
      OldestOrNone(peers, hasColumn, chosen);
      forall p | p in marked && AwaitsNode(marked, p) ensures NodeIsFree(marked, nodes, p) {
        forall id, m ensures !IsInTheWay(marked, nodes, p, id, m) {
          OnlyMembersHaveNodes(peers, hasColumn, chosen, id);
          OneNewestMaster(nodes, marked[p].cluster, m);
        }
      }
    }
  }

  /** Masters created at distinct times are found again. */
  lemma DistinctTimesAgree(nodes: Nodes, masters: map<int, int>, mastersAgain: map<int, int>)
    requires DistinctMasterTimes(nodes) && AreNewestMasters(nodes, masters) && AreNewestMasters(nodes, mastersAgain)
    ensures masters == mastersAgain
  {
    forall c ensures c in masters <==> c in mastersAgain {
    }
    forall c | c in masters ensures masters[c] == mastersAgain[c] {
      OneNewestMaster(nodes, c, masters[c]);
      assert IsNewestMaster(nodes, c, masters[c]) && IsNewestMaster(nodes, c, mastersAgain[c]);
    }
  }

  // ---- two masters created together ------------------------------------------------

  /** A control row without a node, and a member row on one of two masters created together. */
  const TIED_PEERS: Peers := map[1 := Peer(None, 0, Control, Active, 0, None, false),
                                 2 := Peer(Some(7), 0, Member, Active, 0, None, false)]
  const TIED_NODES: Nodes := map[7 := Node(0, true, true, 5), 8 := Node(0, true, true, 5)]

  /**
   Either tied master may be found, by the revocation one and by the assignment the other; the
   member row on the second is then in the way, and the rows are not ready for the migration.
   */
  lemma TiedMastersCanBreakTheIndex()
    ensures OneLivePerNode(TIED_PEERS) && !IsReady(TIED_PEERS, false, TIED_NODES)
    ensures forall id :: id in TIED_PEERS && IsLiveControl(TIED_PEERS, id) ==> TIED_PEERS[id].node == None
  {
    var columned := WithColumn(TIED_PEERS, false);
    var marked := Marked(columned, Some(1));
    assert IsNewestMaster(TIED_NODES, 0, 7) && IsNewestMaster(TIED_NODES, 0, 8);
    assert IsOldestControl(columned, Some(1));
    assert AwaitsNode(marked, 1) && marked[1].cluster == 0;
    assert IsInTheWay(marked, TIED_NODES, 1, 2, 7);
  }

  // ---- the outcome -----------------------------------------------------------------

  /** Some choice among ties gives this outcome and, if it is a success, these rows. */
  ghost predicate SomeChoiceGives(
    peers: Peers, hasColumn: bool, hasPrimaryIndex: bool, nodes: Nodes, now: int, outcome: Outcome, after: Peers)
  {
    exists choices ::
      && CanChoose(WithColumn(peers, hasColumn), nodes, choices)
      && outcome == OutcomeOf(peers, hasColumn, hasPrimaryIndex, choices, now)
      && (outcome == Done ==> after == Migrated(peers, hasColumn, choices, now))
  }

  /** What the steps find of the rows they lead to decides the outcome, with an index that was there before or not. */
  lemma OutcomeFollows(
      was: Peers, had: bool, indexed: bool, nodes: Nodes, choices: Choices, marked: Peers, after: Peers, now: int)
    requires OneLivePerNode(was) && CanChoose(WithColumn(was, had), nodes, choices)
    requires marked == Marked(WithColumn(was, had), choices.primary)
    requires after == NodesAssigned(MembersRevoked(marked, choices.masters, now), choices.mastersAgain)
    ensures var outcome :=
              if indexed && !OneLivePrimary(marked) then PrimaryIndexViolated
              else if !OneLivePerNode(after) then NodeIndexViolated
              else if OneLivePrimary(after) then Done else PrimaryIndexViolated;
            && (IsReady(was, had, nodes) ==> outcome == Done)
            && (forall rows :: rows == after || outcome != Done ==>
                  SomeChoiceGives(was, had, indexed, nodes, now, outcome, rows))
    ensures OneLivePrimary(marked) ==> OneLivePrimary(after)
  {
    ReadySucceeds(was, had, indexed, nodes, choices, now);
    OnlyMarkingMarks(marked, choices, now);
  }

  // ---- the object ------------------------------------------------------------------

  class Database {
    var peers: Peers
    const nodes: Nodes
    var hasColumn: bool
    var hasPrimaryIndex: bool

    constructor (peers: Peers, nodes: Nodes, hasColumn: bool, hasPrimaryIndex: bool)
      ensures this.peers == peers && this.nodes == nodes
      ensures this.hasColumn == hasColumn && this.hasPrimaryIndex == hasPrimaryIndex
    {
      this.peers, this.nodes, this.hasColumn, this.hasPrimaryIndex := peers, nodes, hasColumn, hasPrimaryIndex;
    }

    /** Each index that exists holds. */
    predicate Valid()
      reads this
    {
      OneLivePerNode(peers) && (hasPrimaryIndex ==> hasColumn && OneLivePrimary(peers))
    }

    /** The first live control row by creation; any of those created together. */
    method OldestControl() returns (chosen: Option<int>)
      ensures IsOldestControl(peers, chosen)
    {
      var left := set id | id in peers && IsLiveControl(peers, id);
      ghost var all := left;
      chosen := None;
      while left != {}
        invariant left <= all
        invariant chosen == None ==> left == all
        invariant chosen.Some? ==> chosen.value in all
        invariant chosen.Some? ==> IsOldestOf(peers, chosen.value, all - left)
        decreases |left|
      {
        ghost var before := left;
        SomeElement(left);
        var id :| id in left;
        left := left - {id};
        assert forall x :: x in all - left ==> x == id || x in all - before;
        if chosen == None || peers[id].createdAt < peers[chosen.value].createdAt {
          chosen := Some(id);
        }
      }
      assert all - left == all;
      if chosen == None {
        assert forall id :: id in peers && IsLiveControl(peers, id) ==> id in all;
      }
    }

    /** A newest usable master for each cluster; any of those created together. */
    method NewestMasters() returns (masters: map<int, int>)
      ensures AreNewestMasters(nodes, masters)
    {
      var all := set id | id in nodes && nodes[id].isMaster && nodes[id].usable;
      var left := all;
      masters := map[];
      while left != {}
        invariant left <= all
        invariant forall c :: c in masters ==> masters[c] in all - left && nodes[masters[c]].cluster == c
        invariant forall id :: id in all - left ==>
          nodes[id].cluster in masters && nodes[id].createdAt <= nodes[masters[nodes[id].cluster]].createdAt
        decreases |left|
      {
        ghost var before := left;
        SomeElement(left);
        var id :| id in left;
        left := left - {id};
        assert forall x :: x in all - left <==> x == id || x in all - before;
        var c := nodes[id].cluster;
        if c !in masters || nodes[masters[c]].createdAt < nodes[id].createdAt {
          masters := masters[c := id];
        }
      }
      assert all - left == all;
    }

    /** `CREATE UNIQUE INDEX IF NOT EXISTS` on the live primary rows. */
    method CreatePrimaryIndex() returns (ok: bool)
      modifies this`hasPrimaryIndex
      ensures ok <==> old(hasPrimaryIndex) || OneLivePrimary(peers)
      ensures hasPrimaryIndex == ok
    {
      if !hasPrimaryIndex {
        hasPrimaryIndex := OneLivePrimary(peers);
      }
      ok := hasPrimaryIndex;
    }

    /**
     The migration, whichever rows the database picks among ties: it fails where a state its updates
     lead to breaks an index, and never if the rows are ready for it.
     */
    method Up(now: int) returns (outcome: Outcome)
      requires Valid()
      modifies this
      ensures SomeChoiceGives(old(peers), old(hasColumn), old(hasPrimaryIndex), nodes, now, outcome, peers)
      ensures outcome == Done ==> Valid() && hasPrimaryIndex
      ensures old(IsReady(peers, hasColumn, nodes)) ==> outcome == Done
    {
      ghost var was, had, indexed := peers, hasColumn, hasPrimaryIndex;
      peers := WithColumn(peers, hasColumn);
      hasColumn := true;
      var chosen := OldestControl();
      var marked := Marked(peers, chosen);
      var masters := NewestMasters();
      var revoked := MembersRevoked(marked, masters, now);
      var mastersAgain := NewestMasters();
      var after := NodesAssigned(revoked, mastersAgain);
      OutcomeFollows(was, had, indexed, nodes, Choices(chosen, masters, mastersAgain), marked, after, now);
      if hasPrimaryIndex && !OneLivePrimary(marked) {
        return PrimaryIndexViolated;
      }
      peers := revoked;
      if !OneLivePerNode(after) {
        return NodeIndexViolated;
      }
      peers := after;
      var ok := CreatePrimaryIndex();
      outcome := if ok then Done else PrimaryIndexViolated;
    }
  }
}
