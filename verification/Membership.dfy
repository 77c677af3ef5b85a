/** Who counts as a copy holder, and which membership events wake reconciliation
    (reconcile.rs membership_snapshot, manifest_data_unavailable and the event arm of run). */
module Membership {
  import opened Common
  import opened Holders

  datatype NodeState = Alive | Suspect | Leaving | Left | Dead

  /** A pool as its node's manifest shows it: both fields are open strings on the wire. */
  datatype Pool = Pool(role: string, status: string)

  /** A member: its state and, if its manifest is known, its pools. */
  datatype Member = Member(state: NodeState, manifest: Option<seq<Pool>>)

  predicate Gone(m: Member) { m.state.Dead? || m.state.Left? || m.state.Leaving? }

  /** The pools that hold data. */
  function DataPools(pools: seq<Pool>): (r: seq<Pool>)
    ensures forall p :: p in r <==> p in pools && p.role == "data"
  {
    if pools == [] then []
    else if pools[0].role == "data" then [pools[0]] + DataPools(pools[1..])
    else DataPools(pools[1..])
  }

  /** The manifest lists data pools and none is healthy. */
  predicate NoHealthyPool(m: Member) {
    && m.manifest.Some? && DataPools(m.manifest.value) != []
    && forall p | p in DataPools(m.manifest.value) :: p.status != "healthy"
  }

  predicate AllPoolsDead(m: Member) {
    && m.manifest.Some? && DataPools(m.manifest.value) != []
    && forall p | p in DataPools(m.manifest.value) :: p.status == "dead"
  }

  /** A faithful holder of copies. */
  predicate Counts(m: Member) { !Gone(m) && !NoHealthyPool(m) }

  /** An event showing this member wakes its segments. */
  predicate Wakes(m: Member) { Gone(m) || AllPoolsDead(m) }

  /** The manifest lists a data pool in neither of the two states the code names: a degraded or
      draining pool, or one with a status this version does not know. */
  ghost predicate InBetween(m: Member) {
    m.manifest.Some? && exists p :: p in m.manifest.value && p.role == "data" && p.status != "healthy" && p.status != "dead"
  }

  /** The manifest is known and lists a data pool. */
  ghost predicate ListsData(m: Member) {
    m.manifest.Some? && exists p :: p in m.manifest.value && p.role == "data"
  }

  /** A member counts exactly if it is alive or suspect and, as far as its manifest lists data pools,
      one of them is healthy. */
  lemma CountsExactly(m: Member)
    ensures Counts(m) <==>
      && (m.state == Alive || m.state == Suspect)
      && (ListsData(m) ==> exists p :: p in m.manifest.value && p.role == "data" && p.status == "healthy")
  {
    if ListsData(m) {
      var p :| p in m.manifest.value && p.role == "data";
      assert p in DataPools(m.manifest.value);
    } else if m.manifest.Some? && DataPools(m.manifest.value) != [] {
      assert DataPools(m.manifest.value)[0] in DataPools(m.manifest.value);
    }
  }

  /** An event wakes a node's segments exactly if it shows the node dead, left or leaving, or its data
      pools, of which there is one, all dead. */
  lemma WakesExactly(m: Member)
    ensures Wakes(m) <==>
      || m.state == Dead || m.state == Left || m.state == Leaving
      || (ListsData(m) && forall p | p in m.manifest.value && p.role == "data" :: p.status == "dead")
  {
    if ListsData(m) {
      var p :| p in m.manifest.value && p.role == "data";
      assert p in DataPools(m.manifest.value);
    } else if m.manifest.Some? && DataPools(m.manifest.value) != [] {
      assert DataPools(m.manifest.value)[0] in DataPools(m.manifest.value);
    }
  }

  /** Every member that wakes its segments no longer counts. A member stops counting without waking
      anything exactly when it is still present, no data pool of its manifest is healthy, and at
      least one is not dead either; the drift scan alone finds what it held. */
  lemma WakeGapExactly(m: Member)
    ensures Wakes(m) ==> !Counts(m)
    ensures !Counts(m) && !Wakes(m)
       <==> && (m.state == Alive || m.state == Suspect) && InBetween(m)
            && forall p | p in m.manifest.value && p.role == "data" :: p.status != "healthy"
  {
    if AllPoolsDead(m) {
      var p := DataPools(m.manifest.value)[0];
      assert p in DataPools(m.manifest.value) && p.status == "dead";
    }
    if InBetween(m) {
      var p :| p in m.manifest.value && p.role == "data" && p.status != "healthy" && p.status != "dead";
      assert p in DataPools(m.manifest.value);
    }
  }

  /** The node is among the first k. */
  ghost predicate Listed(nodes: seq<(NodeId, Member)>, k: nat, n: NodeId) {
    exists i :: 0 <= i < k && i < |nodes| && nodes[i].0 == n
  }

  /** Sorts the members into present and unavailable: a listed node counts as a live holder exactly
      when its member entry does, and no other node does. */
  method TakeSnapshot(nodes: seq<(NodeId, Member)>) returns (alive: set<NodeId>, unavailable: set<NodeId>)
    requires forall i, j | 0 <= i < j < |nodes| :: nodes[i].0 != nodes[j].0
    ensures forall i | 0 <= i < |nodes| :: Live(nodes[i].0, alive, unavailable) <==> Counts(nodes[i].1)
    ensures forall n | Live(n, alive, unavailable) :: Listed(nodes, |nodes|, n)
  {
    alive, unavailable := {}, {};
    for k := 0 to |nodes|
      invariant forall i | 0 <= i < k :: Live(nodes[i].0, alive, unavailable) <==> Counts(nodes[i].1)
      invariant forall n | n in alive :: Listed(nodes, k, n)
      invariant forall n | n in unavailable :: Listed(nodes, k, n)
    {
      var (n, m) := nodes[k];
      assert !Listed(nodes, k, n);
      assert Listed(nodes, k + 1, n) by { assert nodes[k].0 == n; }
      assert forall o | Listed(nodes, k, o) :: Listed(nodes, k + 1, o);
      if m.state.Alive? || m.state.Suspect? {
        alive := alive + {n};
        if NoHealthyPool(m) {
          unavailable := unavailable + {n};
        }
      } else {
        unavailable := unavailable + {n};
      }
      forall i | 0 <= i < k ensures nodes[i].0 != n {
        assert Listed(nodes, k, nodes[i].0);
      }
    }
  }
}
