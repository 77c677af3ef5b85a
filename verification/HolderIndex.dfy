/** The reverse index from a node to the segments it holds, and the live-copy count
    (reconcile.rs HolderIndex, live_copy_count). */
module Holders {
  import opened Common

  type NodeId = string
  type SegmentId = nat

  ghost function Members(locations: seq<NodeId>): set<NodeId> {
    set n | n in locations
  }

  // ---- the live-copy count ----

  /** The holders that are alive and available, counted along the list. */
  function LiveCopyCount(locations: seq<NodeId>, alive: set<NodeId>, unavailable: set<NodeId>): nat {
    if locations == [] then 0 else
      var last := locations[|locations| - 1];
      LiveCopyCount(locations[..|locations| - 1], alive, unavailable) + if Live(last, alive, unavailable) then 1 else 0
  }

  predicate Live(n: NodeId, alive: set<NodeId>, unavailable: set<NodeId>) {
    n in alive && n !in unavailable
  }

  ghost function LiveHolders(locations: seq<NodeId>, alive: set<NodeId>, unavailable: set<NodeId>): set<NodeId> {
    set n | n in locations && Live(n, alive, unavailable)
  }

  /** No live holder is listed twice. */
  ghost predicate LiveOnce(locations: seq<NodeId>, alive: set<NodeId>, unavailable: set<NodeId>) {
    forall i, j | 0 <= i < j < |locations| && Live(locations[i], alive, unavailable) :: locations[i] != locations[j]
  }

  /** The count is never below the number of live holders, and equals it exactly when no live
      holder is listed twice. */
  lemma {:induction false} CountIsCardinality(locations: seq<NodeId>, alive: set<NodeId>, unavailable: set<NodeId>)
    ensures |LiveHolders(locations, alive, unavailable)| <= LiveCopyCount(locations, alive, unavailable)
    ensures LiveCopyCount(locations, alive, unavailable) == |LiveHolders(locations, alive, unavailable)|
       <==> LiveOnce(locations, alive, unavailable)
  {
    var all := LiveHolders(locations, alive, unavailable);
    if locations == [] {
      assert all == {};
    } else {
      var rest, last := locations[..|locations| - 1], locations[|locations| - 1];
      CountIsCardinality(rest, alive, unavailable);
      assert locations == rest + [last];
      var fewer := LiveHolders(rest, alive, unavailable);
      assert all == if Live(last, alive, unavailable) then fewer + {last} else fewer;
      if last in fewer {
        var i :| 0 <= i < |rest| && rest[i] == last;
        assert locations[i] == locations[|locations| - 1];
      }
    }
  }

  // ---- the index ----

  class HolderIndex {
    var inner: map<NodeId, set<SegmentId>>
    var segmentHolders: map<SegmentId, seq<NodeId>>

    /** Both maps say the same, and no bucket is empty. */
    ghost predicate Valid()
      reads this
    {
      Consistent(inner, segmentHolders)
    }

    /** The index as a specification: each segment's last recorded holders. */
    ghost function Recorded(): map<SegmentId, set<NodeId>>
      reads this
    {
      map s | s in segmentHolders :: Members(segmentHolders[s])
    }

    constructor ()
      ensures Valid() && Recorded() == map[]
    {
      inner, segmentHolders := map[], map[];
    }

    /** Takes a segment out of its previous buckets, dropping those that become empty. */
    method Forget(segment: SegmentId, prev: seq<NodeId>)
      requires NoEmptyBucket(inner)
      modifies this`inner
      ensures NoEmptyBucket(inner)
      ensures forall n, s: SegmentId :: Bucket(inner, n, s) <==> Bucket(old(inner), n, s) && !(s == segment && n in prev)
    {
      for i := 0 to |prev|
        invariant NoEmptyBucket(inner)
        invariant forall n, s: SegmentId ::
          Bucket(inner, n, s) <==> Bucket(old(inner), n, s) && !(s == segment && n in prev[..i])
      {
        assert prev[..i + 1] == prev[..i] + [prev[i]];
        if prev[i] in inner {
          var bucket := inner[prev[i]] - {segment};
          ghost var before := inner;
          assert forall s: SegmentId :: s in bucket <==> Bucket(before, prev[i], s) && s != segment;
          if bucket == {} {
            inner := inner - {prev[i]};
          } else {
            inner := inner[prev[i] := bucket];
          }
          assert forall n, s: SegmentId :: Bucket(inner, n, s) <==> Bucket(before, n, s) && !(s == segment && n == prev[i]);
        }
      }
      assert prev[..|prev|] == prev;
    }

    /** Adds a segment to the bucket of each location, listing each location once. */
    method Add(segment: SegmentId, locations: seq<NodeId>) returns (listed: seq<NodeId>)
      requires NoEmptyBucket(inner)
      modifies this`inner
      ensures NoEmptyBucket(inner)
      ensures forall n, s: SegmentId :: Bucket(inner, n, s) <==> Bucket(old(inner), n, s) || (s == segment && n in locations)
      ensures Distinct(listed) && Members(listed) == Members(locations)
    {
      listed := [];
      for i := 0 to |locations|
        invariant NoEmptyBucket(inner)
        invariant forall n, s: SegmentId ::
          Bucket(inner, n, s) <==> Bucket(old(inner), n, s) || (s == segment && n in locations[..i])
        invariant Distinct(listed) && Members(listed) == Members(locations[..i])
      {
        var loc := locations[i];
        assert locations[..i + 1] == locations[..i] + [loc];
        ghost var before := inner;
        inner := inner[loc := (if loc in inner then inner[loc] else {}) + {segment}];
        assert forall n, s: SegmentId :: Bucket(inner, n, s) <==> Bucket(before, n, s) || (s == segment && n == loc);
        assert loc in listed <==> loc in Members(locations[..i]);
        assert Members(locations[..i + 1]) == Members(locations[..i]) + {loc};
        if loc !in listed {
          assert Members(listed + [loc]) == Members(listed) + {loc};
          listed := listed + [loc];
        }
      }
      assert locations[..|locations|] == locations;
    }

    /** Replaces a segment's holders: out of its previous buckets, then into the new ones. */
    method Record(segment: SegmentId, locations: seq<NodeId>)
      requires Valid()
      modifies this
      ensures Valid() && Recorded() == old(Recorded())[segment := Members(locations)]
      ensures segment in segmentHolders && Distinct(segmentHolders[segment])
    {
      if segment in segmentHolders {
        Forget(segment, segmentHolders[segment]);
      }
      assert forall n :: !Bucket(inner, n, segment);
      var listed := Add(segment, locations);
      assert forall n :: n in listed <==> n in Members(listed);
      segmentHolders := segmentHolders[segment := listed];
    }

    /** The segments held by a node: exactly those whose last recorded holders include it. */
    method SegmentsHeldBy(n: NodeId) returns (held: set<SegmentId>)
      requires Valid()
      ensures forall s :: s in held <==> s in Recorded() && n in Recorded()[s]
    {
      held := if n in inner then inner[n] else {};
      assert forall s :: s in held <==> Bucket(inner, n, s);
    }
  }

  ghost predicate Bucket(inner: map<NodeId, set<SegmentId>>, n: NodeId, s: SegmentId) {
    n in inner && s in inner[n]
  }

  ghost predicate NoEmptyBucket(inner: map<NodeId, set<SegmentId>>) {
    forall n | n in inner :: inner[n] != {}
  }

  ghost predicate Consistent(inner: map<NodeId, set<SegmentId>>, segmentHolders: map<SegmentId, seq<NodeId>>) {
    && NoEmptyBucket(inner)
    && forall n, s: SegmentId :: Bucket(inner, n, s) <==> s in segmentHolders && n in segmentHolders[s]
  }

  // ---- any sequence of records ----

  datatype Call = Call(segment: SegmentId, locations: seq<NodeId>)

  /** The last locations recorded for a segment. */
  ghost function LastLocations(calls: seq<Call>, s: SegmentId): set<NodeId> {
    if calls == [] then {}
    else if calls[|calls| - 1].segment == s then Members(calls[|calls| - 1].locations)
    else LastLocations(calls[..|calls| - 1], s)
  }

  /** After any calls, a node's bucket is exactly the segments whose last locations name it. */
  method RecordAll(calls: seq<Call>, n: NodeId) returns (held: set<SegmentId>)
    ensures forall s :: s in held <==> n in LastLocations(calls, s)
  {
    var index := new HolderIndex();
    for i := 0 to |calls|
      invariant index.Valid()
      invariant forall s :: s in index.Recorded() ==> index.Recorded()[s] == LastLocations(calls[..i], s)
      invariant forall s :: s !in index.Recorded() ==> LastLocations(calls[..i], s) == {}
    {
      assert calls[..i + 1][..i] == calls[..i];
      index.Record(calls[i].segment, calls[i].locations);
    }
    assert calls[..|calls|] == calls;
    held := index.SegmentsHeldBy(n);
  }
}
