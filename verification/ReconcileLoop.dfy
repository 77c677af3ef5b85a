/** The reconciliation loop as an object: its queue, its batches, its drift scan and its wake on a
    lost node (reconcile.rs ReconciliationLoop). */
module ReconcileLoop {
  import opened Common
  import opened ReconcileQueue
  import opened Holders
  import opened Membership

  /** The live count queued for a segment the registry does not know. */
  const UNKNOWN: nat := 0xFFFF_FFFF_FFFF_FFFF

  /** What the registry and the membership show when a pass begins. */
  datatype Snapshot = Snapshot(registry: map<ReconcileQueue.SegmentId, seq<NodeId>>, alive: set<NodeId>, unavailable: set<NodeId>)

  function LiveIn(v: Snapshot, id: ReconcileQueue.SegmentId): Option<nat> {
    if id in v.registry then Some(LiveCopyCount(v.registry[id], v.alive, v.unavailable)) else None
  }

  /** Nothing more to do: the segment vanished or has enough live copies. */
  predicate Settled(c: Config, v: Snapshot, id: ReconcileQueue.SegmentId) {
    id !in v.registry || LiveCopyCount(v.registry[id], v.alive, v.unavailable) >= c.rf
  }

  function UnderReplicated(c: Config, v: Snapshot): set<ReconcileQueue.SegmentId> {
    set id | id in v.registry && LiveCopyCount(v.registry[id], v.alive, v.unavailable) < c.rf
  }

  // ---- a batch as steps ----

  /** Decides every popped item. */
  function DecideAll(c: Config, s: State, v: Snapshot): (t: State)
    requires s.tick > 0
    ensures t.tick == s.tick
    decreases |s.batch|
  {
    if s.batch == [] then s else DecideAll(c, DecideStep(c, s, LiveIn(v, s.batch[0].id)), v)
  }

  /** Sends every decided repair. */
  function DispatchAll(s: State): State
    requires s.tick > 0
    decreases |s.dispatch|
  {
    if s.dispatch == [] then s else DispatchAll(DispatchStep(s))
  }

  lemma {:induction false} DecideAllKeepsInv(c: Config, s: State, v: Snapshot)
    requires s.tick > 0 && Inv(c, s)
    ensures Inv(c, DecideAll(c, s, v)) && DecideAll(c, s, v).batch == [] && DecideAll(c, s, v).tick == s.tick
    decreases |s.batch|
  {
    if s.batch != [] {
      StepKeepsInv(c, s, Decide(LiveIn(v, s.batch[0].id)));
      DecideAllKeepsInv(c, DecideStep(c, s, LiveIn(v, s.batch[0].id)), v);
    }
  }

  lemma {:induction false} DispatchAllKeepsInv(c: Config, s: State)
    requires s.tick > 0 && s.batch == [] && Inv(c, s)
    ensures Inv(c, DispatchAll(s)) && DispatchAll(s).batch == [] && DispatchAll(s).dispatch == []
    decreases |s.dispatch|
  {
    if s.dispatch != [] {
      StepKeepsInv(c, s, Dispatch);
      DispatchAllKeepsInv(c, DispatchStep(s));
    }
  }

  // Deciding takes exactly the settled items out of the queue.
  lemma {:induction false} DecideAllRemoves(c: Config, s: State, v: Snapshot, id: ReconcileQueue.SegmentId)
    requires s.tick > 0
    ensures id in DecideAll(c, s, v).inQueue <==> id in s.inQueue && !(Settled(c, v, id) && exists x :: x in s.batch && x.id == id)
    decreases |s.batch|
  {
    if s.batch != [] {
      var first := s.batch[0];
      DecideAllRemoves(c, DecideStep(c, s, LiveIn(v, first.id)), v, id);
      assert s.batch == [first] + s.batch[1..];
    }
  }

  // Deciding sends nothing yet, and only for items that are not settled.
  lemma {:induction false} DecideAllSends(c: Config, s: State, v: Snapshot)
    requires s.tick > 0
    requires forall x | x in s.dispatch :: !Settled(c, v, x.id)
    ensures forall x | x in DecideAll(c, s, v).dispatch :: !Settled(c, v, x.id)
    ensures |DecideAll(c, s, v).dispatch| <= |s.dispatch| + |s.batch|
    ensures DecideAll(c, s, v).requests == s.requests && DecideAll(c, s, v).overflow == s.overflow
    decreases |s.batch|
  {
    if s.batch != [] {
      DecideAllSends(c, DecideStep(c, s, LiveIn(v, s.batch[0].id)), v);
    }
  }

  // What is decided stays decided while the rest of the batch is.
  lemma {:induction false} DecideAllKeepsDecided(c: Config, s: State, v: Snapshot, x: Item)
    requires s.tick > 0 && x in s.dispatch
    ensures x in DecideAll(c, s, v).dispatch
    decreases |s.batch|
  {
    if s.batch != [] {
      DecideAllKeepsDecided(c, DecideStep(c, s, LiveIn(v, s.batch[0].id)), v, x);
    }
  }

  /** The last attempt, if any, is old enough for another. */
  ghost predicate Due(c: Config, s: State, id: ReconcileQueue.SegmentId)
    requires s.tick > 0
  {
    id in s.last ==> s.last[id] + c.retryAfterTicks <= Now(s)
  }

  // A popped item that is short of copies and due is decided for repair.
  lemma {:induction false} DecideAllTakesDue(c: Config, s: State, v: Snapshot, x: Item)
    requires s.tick > 0 && Inv(c, s) && x in s.batch && !Settled(c, v, x.id) && Due(c, s, x.id)
    ensures Item(x.id, LiveCopyCount(v.registry[x.id], v.alive, v.unavailable)) in DecideAll(c, s, v).dispatch
    decreases |s.batch|
  {
    var first := s.batch[0];
    var t := DecideStep(c, s, LiveIn(v, first.id));
    if x == first {
      var y := Item(x.id, LiveCopyCount(v.registry[x.id], v.alive, v.unavailable));
      assert t.dispatch == s.dispatch + [y];
      DecideAllKeepsDecided(c, t, v, y);
    } else {
      assert s.batch == [first] + s.batch[1..];
      OthersDiffer(c, s, x);
      StepKeepsInv(c, s, Decide(LiveIn(v, first.id)));
      DecideAllTakesDue(c, t, v, x);
    }
  }

  // Within a batch every request goes to a segment that is short of copies.
  lemma {:induction false} DispatchAllSends(s: State)
    requires s.tick > 0
    ensures |DispatchAll(s).requests| == |s.requests| + |s.dispatch|
    ensures DispatchAll(s).requests[..|s.requests|] == s.requests
    ensures forall i | 0 <= i < |s.dispatch| ::
      DispatchAll(s).requests[|s.requests| + i] == Request(s.dispatch[i].id, Now(s), s.dispatch[i].live)
    decreases |s.dispatch|
  {
    if s.dispatch != [] {
      var t := DispatchStep(s);
      DispatchAllSends(t);
      assert t.requests[..|s.requests|] == s.requests;
      assert DispatchAll(s).requests[..|s.requests|] == DispatchAll(t).requests[..|t.requests|][..|s.requests|];
      forall i | 0 <= i < |s.dispatch|
        ensures DispatchAll(s).requests[|s.requests| + i] == Request(s.dispatch[i].id, Now(s), s.dispatch[i].live)
      {
        if i == 0 {
          assert DispatchAll(t).requests[|s.requests|] == DispatchAll(t).requests[..|t.requests|][|s.requests|];
        } else {
          assert s.dispatch[i] == t.dispatch[i - 1];
          assert DispatchAll(t).requests[|t.requests| + (i - 1)] == Request(t.dispatch[i - 1].id, Now(t), t.dispatch[i - 1].live);
        }
      }
    }
  }

  /** A batch in progress: what will have been popped, and what stays, after n more. */
  ghost function Popping(batch: seq<Item>, heap: seq<Item>, n: nat): (seq<Item>, seq<Item>) {
    (batch + Pop(heap, n).0, Pop(heap, n).1)
  }

  lemma PopOne(batch: seq<Item>, heap: seq<Item>, n: nat)
    requires n > 0 && heap != []
    ensures Popping(batch, heap, n) == Popping(batch + [heap[MaxIndex(heap)]], Without(heap, MaxIndex(heap)), n - 1)
  {
    var i := MaxIndex(heap);
    Reassociate(batch, heap[i], Pop(Without(heap, i), n - 1).0);
  }

  lemma Reassociate(a: seq<Item>, x: Item, b: seq<Item>)
    ensures a + ([x] + b) == (a + [x]) + b
  {
  }

  lemma PopNone(batch: seq<Item>, heap: seq<Item>, n: nat)
    requires n == 0 || heap == []
    ensures Popping(batch, heap, n) == (batch, heap)
  {
    assert batch + [] == batch;
  }

  /** A whole tick. */
  function Batch(c: Config, s: State, v: Snapshot): State {
    DispatchAll(DecideAll(c, BeginStep(c, s), v))
  }

  /** A tick keeps the invariant. */
  lemma BatchKeepsInv(c: Config, s: State, v: Snapshot)
    requires Inv(c, s) && s.batch == [] && s.dispatch == []
    ensures Inv(c, Batch(c, s, v)) && Batch(c, s, v).batch == [] && Batch(c, s, v).dispatch == []
  {
    StepKeepsInv(c, s, Begin);
    DecideAllKeepsInv(c, BeginStep(c, s), v);
    DispatchAllKeepsInv(c, DecideAll(c, BeginStep(c, s), v));
  }

  /** The queue loses exactly the popped segments that vanished or are healthy again; the requests
      sent are new, at most a batch, each for a segment short of copies. */
  lemma BatchGuarantees(c: Config, s: State, v: Snapshot)
    requires s.batch == [] && s.dispatch == []
    ensures Batch(c, s, v).inQueue == s.inQueue - (set x | x in BeginStep(c, s).batch && Settled(c, v, x.id) :: x.id)
    ensures s.requests <= Batch(c, s, v).requests
    ensures |Batch(c, s, v).requests| - |s.requests| <= c.maxBatchPerTick
    ensures forall i | |s.requests| <= i < |Batch(c, s, v).requests| ::
      Batch(c, s, v).requests[i].tick == s.tick && !Settled(c, v, Batch(c, s, v).requests[i].id)
    ensures Batch(c, s, v).tick == s.tick + 1
  {
    var s1 := BeginStep(c, s);
    DispatchAllKeepsQueue(DecideAll(c, s1, v));
    BatchRemoves(c, s1, v);
    BatchSends(c, s1, v);
  }

  /** No request for the segment was issued in the last `retryAfterTicks` ticks. */
  ghost predicate Unasked(c: Config, s: State, id: ReconcileQueue.SegmentId) {
    forall i | 0 <= i < |s.requests| && s.requests[i].id == id :: s.requests[i].tick + c.retryAfterTicks <= s.tick
  }

  /** A tick requests the repair of a popped segment exactly if the segment is short of copies and no
      request for it was issued in the last `retryAfterTicks` ticks. */
  lemma BatchRequestsExactly(c: Config, s: State, v: Snapshot, x: Item)
    requires Inv(c, s) && s.batch == [] && s.dispatch == [] && x in Pop(s.heap, c.maxBatchPerTick).0
    ensures Requested(Batch(c, s, v), x.id, s.tick) <==> !Settled(c, v, x.id) && Unasked(c, s, x.id)
  {
    if !Settled(c, v, x.id) && Unasked(c, s, x.id) {
      BatchRequestsDue(c, s, v, x);
    }
    if Requested(Batch(c, s, v), x.id, s.tick) {
      BatchRequestsOnlyDue(c, s, v, x);
    }
  }

  lemma BatchRequestsDue(c: Config, s: State, v: Snapshot, x: Item)
    requires Inv(c, s) && s.batch == [] && s.dispatch == [] && x in Pop(s.heap, c.maxBatchPerTick).0
    requires !Settled(c, v, x.id) && Unasked(c, s, x.id)
    ensures Requested(Batch(c, s, v), x.id, s.tick)
  {
    var s1 := BeginStep(c, s);
    var t, y := DecideAll(c, s1, v), Item(x.id, LiveCopyCount(v.registry[x.id], v.alive, v.unavailable));
    StepKeepsInv(c, s, Begin);
    assert x.id in s.last ==> Requested(s, x.id, s.last[x.id]);
    DecideAllTakesDue(c, s1, v, x);
    DispatchAllSends(t);
    var i :| 0 <= i < |t.dispatch| && t.dispatch[i] == y;
    assert DispatchAll(t).requests[|t.requests| + i] == Request(x.id, s.tick, y.live);
  }

  lemma BatchRequestsOnlyDue(c: Config, s: State, v: Snapshot, x: Item)
    requires Inv(c, s) && s.batch == [] && s.dispatch == [] && Requested(Batch(c, s, v), x.id, s.tick)
    ensures !Settled(c, v, x.id) && Unasked(c, s, x.id)
  {
    var t := Batch(c, s, v);
    var j :| 0 <= j < |t.requests| && t.requests[j].id == x.id && t.requests[j].tick == s.tick;
    BatchGuarantees(c, s, v);
    RequestsLieBack(c, s);
    assert j >= |s.requests|;
    BatchKeepsInv(c, s, v);
    RequestsArePaced(c, t, j);
    assert forall i | 0 <= i < |s.requests| :: t.requests[i] == s.requests[i];
  }

  lemma RequestsLieBack(c: Config, s: State)
    requires Inv(c, s)
    ensures forall i | 0 <= i < |s.requests| :: s.requests[i].tick < s.tick
  {
  }

  lemma RequestsArePaced(c: Config, s: State, j: nat)
    requires Inv(c, s) && j < |s.requests|
    ensures forall i | 0 <= i < j && s.requests[i].id == s.requests[j].id ::
      s.requests[i].tick + c.retryAfterTicks <= s.requests[j].tick
  {
  }

  lemma {:induction false} DispatchAllKeepsQueue(s: State)
    requires s.tick > 0
    ensures DispatchAll(s).inQueue == s.inQueue && DispatchAll(s).tick == s.tick
    decreases |s.dispatch|
  {
    if s.dispatch != [] {
      DispatchAllKeepsQueue(DispatchStep(s));
    }
  }

  lemma BatchRemoves(c: Config, s: State, v: Snapshot)
    requires s.tick > 0
    ensures DecideAll(c, s, v).inQueue == s.inQueue - (set x | x in s.batch && Settled(c, v, x.id) :: x.id)
  {
    forall id ensures id in DecideAll(c, s, v).inQueue <==> id in s.inQueue && !(Settled(c, v, id) && exists x :: x in s.batch && x.id == id) {
      DecideAllRemoves(c, s, v, id);
    }
  }

  lemma BatchSends(c: Config, s: State, v: Snapshot)
    requires s.tick > 0 && s.dispatch == []
    ensures DecideAll(c, s, v).tick == s.tick && s.requests <= DispatchAll(DecideAll(c, s, v)).requests
    ensures |DispatchAll(DecideAll(c, s, v)).requests| - |s.requests| <= |s.batch|
    ensures forall i | |s.requests| <= i < |DispatchAll(DecideAll(c, s, v)).requests| ::
      var r := DispatchAll(DecideAll(c, s, v)).requests[i];
      r.tick == Now(s) && !Settled(c, v, r.id)
  {
    var t := DecideAll(c, s, v);
    DecideAllSends(c, s, v);
    DispatchAllSends(t);
    forall i | |s.requests| <= i < |DispatchAll(t).requests|
      ensures DispatchAll(t).requests[i].tick == Now(s) && !Settled(c, v, DispatchAll(t).requests[i].id)
    {
      var k := i - |s.requests|;
      assert t.dispatch[k] in t.dispatch;
      assert DispatchAll(t).requests[|t.requests| + k] == Request(t.dispatch[k].id, Now(t), t.dispatch[k].live);
    }
  }

  // ---- a scan as steps ----

  /** The sequence lists the set, each member once. */
  ghost predicate Lists(order: seq<ReconcileQueue.SegmentId>, ids: set<ReconcileQueue.SegmentId>) {
    if order == [] then ids == {}
    else
      var id := order[|order| - 1];
      id in ids && Lists(order[..|order| - 1], ids - {id})
  }

  method ListOf(ids: set<ReconcileQueue.SegmentId>) returns (order: seq<ReconcileQueue.SegmentId>)
    ensures Lists(order, ids)
  {
    order := [];
    var todo := ids;
    while todo != {}
      invariant todo <= ids && Lists(order, ids - todo)
    {
      var id :| id in todo;
      assert (order + [id])[..|order|] == order;
      assert ids - (todo - {id}) - {id} == ids - todo;
      order, todo := order + [id], todo - {id};
    }
    assert ids - todo == ids;
  }

  /** The live count queued for a segment. */
  function LiveOr(v: Snapshot, id: ReconcileQueue.SegmentId): nat {
    var live := LiveIn(v, id);
    if live.Some? then live.value else UNKNOWN
  }

  /** Enqueues some segments in order. */
  function EnqueueAll(c: Config, s: State, v: Snapshot, ids: seq<ReconcileQueue.SegmentId>): State {
    if ids == [] then s
    else
      var id := ids[|ids| - 1];
      EnqueueStep(c, EnqueueAll(c, s, v, ids[..|ids| - 1]), Item(id, LiveOr(v, id)))
  }

  /** Those of some segments that are short of copies. */
  function Short(c: Config, v: Snapshot, ids: seq<ReconcileQueue.SegmentId>): seq<ReconcileQueue.SegmentId> {
    if ids == [] then []
    else
      var rest := Short(c, v, ids[..|ids| - 1]);
      if Settled(c, v, ids[|ids| - 1]) then rest else rest + [ids[|ids| - 1]]
  }

  lemma {:induction false} ShortLists(c: Config, v: Snapshot, ids: seq<ReconcileQueue.SegmentId>, all: set<ReconcileQueue.SegmentId>)
    requires Lists(ids, all)
    ensures Lists(Short(c, v, ids), set id | id in all && !Settled(c, v, id))
  {
    var short := set id | id in all && !Settled(c, v, id);
    if ids != [] {
      var rest, id := Short(c, v, ids[..|ids| - 1]), ids[|ids| - 1];
      ShortLists(c, v, ids[..|ids| - 1], all - {id});
      assert (set x | x in all - {id} && !Settled(c, v, x)) == short - {id};
      assert (rest + [id])[..|rest|] == rest;
      assert Settled(c, v, id) ==> short - {id} == short;
    } else {
      assert short == {};
    }
  }

  lemma {:induction false} EnqueueAllKeepsInv(c: Config, s: State, v: Snapshot, ids: seq<ReconcileQueue.SegmentId>)
    requires Inv(c, s)
    ensures Inv(c, EnqueueAll(c, s, v, ids))
  {
    if ids != [] {
      var rest, id := ids[..|ids| - 1], ids[|ids| - 1];
      EnqueueAllKeepsInv(c, s, v, rest);
      StepKeepsInv(c, EnqueueAll(c, s, v, rest), Enqueue(Item(id, LiveOr(v, id))));
    }
  }

  /** The item queued for a segment: its live copies, or the largest count if the registry does not
      know the segment. */
  ghost predicate Queued(v: Snapshot, x: Item) {
    x.live == if x.id in v.registry then LiveCopyCount(v.registry[x.id], v.alive, v.unavailable) else 0xFFFF_FFFF_FFFF_FFFF
  }

  /** The heap after some segments were queued: what was there, and behind it the new ones. */
  ghost predicate HeapGrown(v: Snapshot, before: seq<Item>, after: seq<Item>, queue: set<ReconcileQueue.SegmentId>) {
    && before <= after
    && forall i | |before| <= i < |after| :: Queued(v, after[i]) && after[i].id !in queue
  }

  lemma {:induction false} EnqueueAllGrows(c: Config, s: State, v: Snapshot, ids: seq<ReconcileQueue.SegmentId>)
    ensures HeapGrown(v, s.heap, EnqueueAll(c, s, v, ids).heap, s.inQueue) && s.inQueue <= EnqueueAll(c, s, v, ids).inQueue
  {
    if ids != [] {
      EnqueueAllGrows(c, s, v, ids[..|ids| - 1]);
    }
  }

  lemma MissedGrows(ids: set<ReconcileQueue.SegmentId>, queue: set<ReconcileQueue.SegmentId>, id: ReconcileQueue.SegmentId)
    requires id !in ids
    ensures |ids + {id} - (queue + {id})| == |ids - queue|
    ensures id in queue ==> |ids + {id} - queue| == |ids - queue|
    ensures id !in queue ==> |ids + {id} - queue| == |ids - queue| + 1
  {
    assert ids + {id} - (queue + {id}) == ids - queue;
    assert ids + {id} - queue == (ids - queue) + if id in queue then {} else {id};
  }

  lemma EnqueueAccounts(c: Config, t: State, item: Item, ids: set<ReconcileQueue.SegmentId>)
    requires item.id !in ids && |t.inQueue| <= c.maxQueueDepth
    ensures |EnqueueStep(c, t, item).inQueue| <= c.maxQueueDepth
    ensures EnqueueStep(c, t, item).overflow - t.overflow
         == |ids + {item.id} - EnqueueStep(c, t, item).inQueue| - |ids - t.inQueue|
    ensures EnqueueStep(c, t, item).overflow > t.overflow ==> |t.inQueue| == c.maxQueueDepth
  {
    MissedGrows(ids, t.inQueue, item.id);
  }

  /** Every segment of a scan ends in the queue or is counted as overflow, nothing else enters or
      leaves the queue, and only a full queue overflows. */
  lemma {:induction false} EnqueueAllAccounts(c: Config, s: State, v: Snapshot, ids: seq<ReconcileQueue.SegmentId>, all: set<ReconcileQueue.SegmentId>)
    requires Lists(ids, all) && |s.inQueue| <= c.maxQueueDepth
    ensures s.inQueue <= EnqueueAll(c, s, v, ids).inQueue <= s.inQueue + all
    ensures |EnqueueAll(c, s, v, ids).inQueue| <= c.maxQueueDepth
    ensures EnqueueAll(c, s, v, ids).overflow == s.overflow + |all - EnqueueAll(c, s, v, ids).inQueue|
    ensures EnqueueAll(c, s, v, ids).overflow > s.overflow ==> |EnqueueAll(c, s, v, ids).inQueue| == c.maxQueueDepth
  {
    if ids != [] {
      var rest, id := ids[..|ids| - 1], ids[|ids| - 1];
      EnqueueAllAccounts(c, s, v, rest, all - {id});
      EnqueueAccounts(c, EnqueueAll(c, s, v, rest), Item(id, LiveOr(v, id)), all - {id});
      assert all - {id} + {id} == all;
    } else {
      assert all == {};
    }
  }

  // ---- the loop's state ----

  /** What the queue gets back for the repairs sent: each segment as if it had no live copy. */
  ghost function PutBack(dispatch: seq<Item>): seq<Item> {
    if dispatch == [] then []
    else PutBack(dispatch[..|dispatch| - 1]) + [Item(dispatch[|dispatch| - 1].id, 0)]
  }

  /** The requests of a tick. */
  ghost function Sent(dispatch: seq<Item>, now: nat): seq<Request> {
    if dispatch == [] then []
    else
      var last := dispatch[|dispatch| - 1];
      Sent(dispatch[..|dispatch| - 1], now) + [Request(last.id, now, last.live)]
  }

  class ReconciliationLoop {
    const config: Config
    var heap: seq<Item>
    var inQueue: set<ReconcileQueue.SegmentId>
    var last: map<ReconcileQueue.SegmentId, nat>
    var tick: nat
    var overflow: nat
    ghost var requests: seq<Request>
    ghost var accepted: nat
    ghost var removed: nat

    /** The state with a batch in progress. */
    ghost function During(batch: seq<Item>, dispatch: seq<Item>): State
      reads this
    {
      State(heap, batch, dispatch, inQueue, last, tick, overflow, requests, accepted, removed)
    }

    ghost function View(): State
      reads this
    {
      During([], [])
    }

    constructor (c: Config)
      ensures config == c && View() == START
    {
      config := c;
      heap, inQueue, last, tick, overflow := [], {}, map[], 0, 0;
      requests, accepted, removed := [], 0, 0;
    }

    /** Queues a segment once, unless that would exceed the bound. */
    method EnqueueWithLive(id: ReconcileQueue.SegmentId, live: nat) returns (queued: bool)
      modifies this`heap, this`inQueue, this`overflow, this`accepted
      ensures View() == EnqueueStep(config, old(View()), Item(id, live))
      ensures queued <==> id !in old(inQueue) && |old(inQueue)| < config.maxQueueDepth
      ensures queued ==> inQueue == old(inQueue) + {id} && heap == old(heap) + [Item(id, live)] && overflow == old(overflow)
      ensures !queued ==> inQueue == old(inQueue) && heap == old(heap)
      ensures !queued ==> overflow == old(overflow) + if id in inQueue then 0 else 1
    {
      if id in inQueue {
        return false;
      }
      inQueue := inQueue + {id};
      if |inQueue| > config.maxQueueDepth {
        inQueue := inQueue - {id};
        assert inQueue == old(inQueue);
        overflow := overflow + 1;
        return false;
      }
      heap, accepted := heap + [Item(id, live)], accepted + 1;
      queued := true;
    }

    /** Pops a bounded batch, most urgent first. */
    method PopBatch() returns (batch: seq<Item>)
      modifies this`heap
      ensures batch == Pop(old(heap), config.maxBatchPerTick).0 && heap == Pop(old(heap), config.maxBatchPerTick).1
    {
      batch := [];
      var n := config.maxBatchPerTick;
      ghost var all := Popping(batch, heap, n);
      assert all == Pop(heap, n) by { assert [] + Pop(heap, n).0 == Pop(heap, n).0; }
      while n > 0 && heap != []
        invariant Popping(batch, heap, n) == all
      {
        PopOne(batch, heap, n);
        var i := MaxIndex(heap);
        batch, heap, n := batch + [heap[i]], Without(heap, i), n - 1;
      }
      PopNone(batch, heap, n);
    }

    /** The last attempt on the segment is less than `retryAfterTicks` before the tick in progress. */
    ghost predicate TooSoon(attempts: map<ReconcileQueue.SegmentId, nat>, id: ReconcileQueue.SegmentId)
      reads this
    {
      id in attempts && (if attempts[id] < tick then tick - 1 - attempts[id] else 0) < config.retryAfterTicks
    }

    /** Decides one popped item: gone or healthy, too soon, or to be repaired now. */
    method DecideOne(item: Item, v: Snapshot, dispatch: seq<Item>, ghost rest: seq<Item>) returns (more: seq<Item>)
      requires tick > 0
      modifies this`heap, this`inQueue, this`last, this`removed
      ensures During(rest, more) == DecideStep(config, old(During([item] + rest, dispatch)), LiveIn(v, item.id))
      ensures inQueue == if Settled(config, v, item.id) then old(inQueue) - {item.id} else old(inQueue)
      ensures Settled(config, v, item.id) ==> more == dispatch && last == old(last) && heap == old(heap)
      ensures !Settled(config, v, item.id) && TooSoon(old(last), item.id) ==>
        more == dispatch && last == old(last) && heap == old(heap) + [item]
      ensures !Settled(config, v, item.id) && !TooSoon(old(last), item.id) ==>
        && more == dispatch + [Item(item.id, LiveCopyCount(v.registry[item.id], v.alive, v.unavailable))]
        && last == old(last)[item.id := tick - 1] && heap == old(heap)
    {
      assert ([item] + rest)[1..] == rest;
      more := dispatch;
      var live := LiveIn(v, item.id);
      if live.None? || live.value >= config.rf {
        inQueue, removed := inQueue - {item.id}, removed + 1;
      } else if item.id in last && SaturatingSub(tick - 1, last[item.id]) < config.retryAfterTicks {
        heap := heap + [item];
      } else {
        last, more := last[item.id := tick - 1], dispatch + [Item(item.id, live.value)];
      }
    }

    /** Decides every popped item. */
    method DecideBatch(batch: seq<Item>, v: Snapshot) returns (dispatch: seq<Item>)
      requires tick > 0
      modifies this`heap, this`inQueue, this`last, this`removed
      ensures During([], dispatch) == DecideAll(config, old(During(batch, [])), v)
    {
      dispatch := [];
      ghost var goal := DecideAll(config, During(batch, []), v);
      for i := 0 to |batch|
        invariant DecideAll(config, During(batch[i..], dispatch), v) == goal
      {
        assert batch[i..] == [batch[i]] + batch[i + 1..];
        dispatch := DecideOne(batch[i], v, dispatch, batch[i + 1..]);
      }
      assert batch[|batch|..] == [];
    }

    /** Sends each repair and puts its segment back for a later check. */
    method DispatchBatch(dispatch: seq<Item>)
      requires tick > 0
      modifies this`heap, this`requests
      ensures View() == DispatchAll(old(During([], dispatch)))
      ensures heap == old(heap) + PutBack(dispatch) && requests == old(requests) + Sent(dispatch, tick - 1)
    {
      ghost var goal := DispatchAll(During([], dispatch));
      for i := 0 to |dispatch|
        invariant DispatchAll(During([], dispatch[i..])) == goal
        invariant heap == old(heap) + PutBack(dispatch[..i]) && requests == old(requests) + Sent(dispatch[..i], tick - 1)
      {
        ghost var s := During([], dispatch[i..]);
        assert dispatch[i..][1..] == dispatch[i + 1..];
        assert dispatch[..i + 1][..i] == dispatch[..i];
        requests := requests + [Request(dispatch[i].id, tick - 1, dispatch[i].live)];
        heap := heap + [Item(dispatch[i].id, 0)];
        assert During([], dispatch[i + 1..]) == DispatchStep(s);
      }
      assert dispatch[|dispatch|..] == [] && dispatch[..|dispatch|] == dispatch;
    }

    /** One tick, when nothing else runs meanwhile. */
    method ProcessBatch(v: Snapshot)
      modifies this
      ensures View() == Batch(config, old(View()), v) && tick == old(tick) + 1
    {
      tick := tick + 1;
      var batch := PopBatch();
      if batch == [] {
        return;
      }
      var dispatch := DecideBatch(batch, v);
      DispatchBatch(dispatch);
    }

    /** Enqueues the segments of a list that are short of copies, as the drift scan does. */
    method EnqueueShort(order: seq<ReconcileQueue.SegmentId>, v: Snapshot)
      modifies this
      ensures View() == EnqueueAll(config, old(View()), v, Short(config, v, order))
    {
      for i := 0 to |order|
        invariant View() == EnqueueAll(config, old(View()), v, Short(config, v, order[..i]))
      {
        assert order[..i + 1][..i] == order[..i];
        var id, live := order[i], LiveIn(v, order[i]);
        ghost var before := Short(config, v, order[..i]);
        assert (before + [id])[..|before|] == before;
        if live.Some? && live.value < config.rf {
          var _ := EnqueueWithLive(id, live.value);
        }
      }
      assert order[..|order|] == order;
    }

    /** Enqueues a list of segments. */
    method EnqueueEach(order: seq<ReconcileQueue.SegmentId>, v: Snapshot)
      modifies this
      ensures View() == EnqueueAll(config, old(View()), v, order)
    {
      for i := 0 to |order|
        invariant View() == EnqueueAll(config, old(View()), v, order[..i])
      {
        assert order[..i + 1][..i] == order[..i];
        var _ := EnqueueWithLive(order[i], LiveOr(v, order[i]));
      }
      assert order[..|order|] == order;
    }

    /** The completeness pass: every under-replicated segment ends in the queue or is counted as
        overflow, nothing else enters or leaves, and only a full queue overflows. */
    method DriftScan(v: Snapshot)
      requires |inQueue| <= config.maxQueueDepth
      modifies this
      ensures old(inQueue) <= inQueue <= old(inQueue) + UnderReplicated(config, v)
      ensures overflow == old(overflow) + |UnderReplicated(config, v) - inQueue|
      ensures overflow > old(overflow) ==> |inQueue| == config.maxQueueDepth
      ensures HeapGrown(v, old(heap), heap, old(inQueue))
      ensures exists ids :: View() == EnqueueAll(config, old(View()), v, ids)
    {
      var order := ListOf(v.registry.Keys);
      EnqueueShort(order, v);
      ShortLists(config, v, order, v.registry.Keys);
      assert UnderReplicated(config, v) == set id | id in v.registry.Keys && !Settled(config, v, id);
      EnqueueAllGrows(config, old(View()), v, Short(config, v, order));
      EnqueueAllAccounts(config, old(View()), v, Short(config, v, order), UnderReplicated(config, v));
    }

    /** A membership event: if it says that a node's data is gone, exactly the segments the index
        lists for it are woken, each queued or counted as overflow; otherwise nothing happens. */
    method OnEvent(index: HolderIndex, node: NodeId, shown: Member, v: Snapshot) returns (affected: set<ReconcileQueue.SegmentId>)
      requires index.Valid() && |inQueue| <= config.maxQueueDepth
      modifies this
      ensures forall id :: id in affected <==> Wakes(shown) && id in index.Recorded() && node in index.Recorded()[id]
      ensures old(inQueue) <= inQueue <= old(inQueue) + affected
      ensures overflow == old(overflow) + |affected - inQueue|
      ensures overflow > old(overflow) ==> |inQueue| == config.maxQueueDepth
      ensures HeapGrown(v, old(heap), heap, old(inQueue))
      ensures exists ids :: View() == EnqueueAll(config, old(View()), v, ids)
    {
      if Wakes(shown) {
        affected := index.SegmentsHeldBy(node);
      } else {
        affected := {};
      }
      var order := ListOf(affected);
      EnqueueEach(order, v);
      EnqueueAllAccounts(config, old(View()), v, order, affected);
      EnqueueAllGrows(config, old(View()), v, order);
    }
  }

  /** Rebuilds the index: every registered segment's holders are then the registry's, and segments
      the registry no longer has keep what was recorded. */
  method BuildIndex(index: HolderIndex, registry: map<ReconcileQueue.SegmentId, seq<NodeId>>)
    requires index.Valid()
    modifies index
    ensures index.Valid()
    ensures index.Recorded() == old(index.Recorded()) + map id | id in registry :: Members(registry[id])
  {
    var todo := registry.Keys;
    while todo != {}
      invariant index.Valid() && todo <= registry.Keys
      invariant index.Recorded() == old(index.Recorded()) + map id | id in registry.Keys - todo :: Members(registry[id])
    {
      var id :| id in todo;
      index.Record(id, registry[id]);
      todo := todo - {id};
    }
    assert registry.Keys - {} == registry.Keys;
  }
}
