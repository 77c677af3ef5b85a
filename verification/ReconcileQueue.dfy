/** The reconciliation work queue: bounded, without duplicates, ordered by risk, with paced
    retries (reconcile.rs). Each step is one stretch of code under its locks; enqueues from
    other tasks may fall between any two steps of a batch. */
module ReconcileQueue {
  import opened Common

  type SegmentId = nat

  datatype Config = Config(rf: nat, retryAfterTicks: nat, maxBatchPerTick: nat, maxQueueDepth: nat)

  datatype Item = Item(id: SegmentId, live: nat)

  /** Fewer live copies come first; among equals the larger id. */
  predicate Outranks(a: Item, b: Item) {
    a.live < b.live || (a.live == b.live && a.id > b.id)
  }

  /** A repair request: the segment, the tick it was issued in and the live count seen then. */
  datatype Request = Request(id: SegmentId, tick: nat, live: nat)

  /** `batch` and `dispatch` are the items popped but not yet decided and those decided but not
      yet sent. `requests`, `accepted` and `removed` record the past. */
  datatype State = State(
    heap: seq<Item>, batch: seq<Item>, dispatch: seq<Item>, inQueue: set<SegmentId>,
    last: map<SegmentId, nat>, tick: nat, overflow: nat,
    requests: seq<Request>, accepted: nat, removed: nat)

  const START: State := State([], [], [], {}, map[], 0, 0, [], 0, 0)

  // ---- the heap ----

  function MaxIndex(heap: seq<Item>): (i: nat)
    requires heap != []
    ensures i < |heap|
    ensures forall j | 0 <= j < |heap| :: !Outranks(heap[j], heap[i])
  {
    if |heap| == 1 then 0
    else
      var rest := MaxIndex(heap[..|heap| - 1]);
      if Outranks(heap[|heap| - 1], heap[rest]) then |heap| - 1 else rest
  }

  function Without(heap: seq<Item>, i: nat): seq<Item>
    requires i < |heap|
  {
    heap[..i] + heap[i + 1..]
  }

  /** Pops up to n items, most urgent first: what is popped and what stays. */
  function Pop(heap: seq<Item>, n: nat): (r: (seq<Item>, seq<Item>))
    ensures |r.0| + |r.1| == |heap|
    ensures |r.0| == if n < |heap| then n else |heap|
    decreases n
  {
    if n == 0 || heap == [] then ([], heap)
    else
      var i := MaxIndex(heap);
      var r := Pop(Without(heap, i), n - 1);
      ([heap[i]] + r.0, r.1)
  }

  /** How often an id occurs among some items. */
  function Count(items: seq<Item>, id: SegmentId): nat {
    if items == [] then 0 else Count(items[..|items| - 1], id) + if items[|items| - 1].id == id then 1 else 0
  }

  lemma {:induction false} CountConcat(a: seq<Item>, b: seq<Item>, id: SegmentId)
    ensures Count(a + b, id) == Count(a, id) + Count(b, id)
  {
    if b == [] {
      assert a + b == a;
    } else {
      CountConcat(a, b[..|b| - 1], id);
      assert (a + b)[..|a + b| - 1] == a + b[..|b| - 1];
    }
  }

  lemma CountTail(items: seq<Item>, id: SegmentId)
    requires items != []
    ensures Count(items, id) == (if items[0].id == id then 1 else 0) + Count(items[1..], id)
  {
    assert items == [items[0]] + items[1..];
    CountConcat([items[0]], items[1..], id);
  }

  lemma CountPush(items: seq<Item>, item: Item, id: SegmentId)
    ensures Count(items + [item], id) == Count(items, id) + if item.id == id then 1 else 0
  {
    assert (items + [item])[..|items|] == items;
  }

  lemma CountWithout(heap: seq<Item>, i: nat, id: SegmentId)
    requires i < |heap|
    ensures Count(heap, id) == (if heap[i].id == id then 1 else 0) + Count(Without(heap, i), id)
  {
    assert heap == heap[..i] + heap[i..];
    CountConcat(heap[..i], heap[i..], id);
    CountTail(heap[i..], id);
    assert heap[i..][1..] == heap[i + 1..];
    CountConcat(heap[..i], heap[i + 1..], id);
  }

  // Popping loses and invents nothing.
  lemma {:induction false} PopKeepsItems(heap: seq<Item>, n: nat)
    ensures forall x :: x in heap <==> x in Pop(heap, n).0 || x in Pop(heap, n).1
    decreases n
  {
    if n > 0 && heap != [] {
      var i := MaxIndex(heap);
      PopKeepsItems(Without(heap, i), n - 1);
      assert heap == heap[..i] + [heap[i]] + heap[i + 1..];
    }
  }

  lemma {:induction false} PopKeepsCount(heap: seq<Item>, n: nat, id: SegmentId)
    ensures Count(Pop(heap, n).0, id) + Count(Pop(heap, n).1, id) == Count(heap, id)
    decreases n
  {
    if n > 0 && heap != [] {
      var i := MaxIndex(heap);
      var r := Pop(Without(heap, i), n - 1);
      PopKeepsCount(Without(heap, i), n - 1, id);
      CountWithout(heap, i, id);
      CountTail([heap[i]] + r.0, id);
      assert ([heap[i]] + r.0)[1..] == r.0;
    }
  }

  // What is popped first has the fewest live copies, and among those the largest id.
  lemma MaxIsMostUrgent(heap: seq<Item>, b: Item)
    requires heap != [] && b in heap
    ensures var a := heap[MaxIndex(heap)]; a.live <= b.live && (a.live == b.live ==> a.id >= b.id)
  {
    assert !Outranks(b, heap[MaxIndex(heap)]);
  }

  /** Nothing left behind has fewer live copies than anything taken, or as many and a larger id. */
  lemma {:induction false} PopTakesMostUrgent(heap: seq<Item>, n: nat)
    ensures forall a, b | a in Pop(heap, n).0 && b in Pop(heap, n).1 ::
      a.live <= b.live && (a.live == b.live ==> a.id >= b.id)
    decreases n
  {
    if n > 0 && heap != [] {
      var i := MaxIndex(heap);
      var rest := Without(heap, i);
      PopTakesMostUrgent(rest, n - 1);
      PopKeepsItems(rest, n - 1);
      forall b | b in Pop(rest, n - 1).1 ensures heap[i].live <= b.live && (heap[i].live == b.live ==> heap[i].id >= b.id) {
        assert b in rest;
        MaxIsMostUrgent(heap, b);
      }
    }
  }

  /** What is taken comes in that order. */
  lemma {:induction false} PopInOrder(heap: seq<Item>, n: nat, i: nat, j: nat)
    requires i < j < |Pop(heap, n).0|
    ensures var a, b := Pop(heap, n).0[i], Pop(heap, n).0[j];
      a.live <= b.live && (a.live == b.live ==> a.id >= b.id)
    decreases n
  {
    var rest := Without(heap, MaxIndex(heap));
    if i > 0 {
      PopInOrder(rest, n - 1, i - 1, j - 1);
    } else {
      var b := Pop(rest, n - 1).0[j - 1];
      PopKeepsItems(rest, n - 1);
      assert b in rest;
      MaxIsMostUrgent(heap, b);
    }
  }

  // ---- the steps ----

  function EnqueueStep(c: Config, s: State, item: Item): State {
    if item.id in s.inQueue then s
    else if |s.inQueue + {item.id}| > c.maxQueueDepth then s.(overflow := s.overflow + 1)
    else s.(inQueue := s.inQueue + {item.id}, heap := s.heap + [item], accepted := s.accepted + 1)
  }

  /** A new tick: the counter advances and a batch is popped. */
  function BeginStep(c: Config, s: State): State {
    var r := Pop(s.heap, c.maxBatchPerTick);
    s.(batch := r.0, heap := r.1, tick := s.tick + 1)
  }

  /** The tick of the batch in progress. */
  function Now(s: State): nat
    requires s.tick > 0
  {
    s.tick - 1
  }

  /** Decides the next popped item from what the registry shows for it now. */
  function DecideStep(c: Config, s: State, live: Option<nat>): State
    requires s.batch != [] && s.tick > 0
  {
    var item := s.batch[0];
    var t := s.(batch := s.batch[1..]);
    if live.None? || live.value >= c.rf then t.(inQueue := s.inQueue - {item.id}, removed := s.removed + 1)
    else if item.id in s.last && SaturatingSub(Now(s), s.last[item.id]) < c.retryAfterTicks then t.(heap := s.heap + [item])
    else t.(last := s.last[item.id := Now(s)], dispatch := s.dispatch + [Item(item.id, live.value)])
  }

  /** Sends the next decided repair; the segment goes back into the queue as most urgent. */
  function DispatchStep(s: State): State
    requires s.dispatch != [] && s.tick > 0
  {
    var item := s.dispatch[0];
    s.(dispatch := s.dispatch[1..], heap := s.heap + [Item(item.id, 0)],
       requests := s.requests + [Request(item.id, Now(s), item.live)])
  }

  datatype Step = Enqueue(item: Item) | Begin | Decide(live: Option<nat>) | Dispatch

  /** One batch at a time: all its items are decided before any is sent. */
  ghost predicate Enabled(s: State, step: Step) {
    match step
    case Enqueue(_) => true
    case Begin => s.batch == [] && s.dispatch == []
    case Decide(_) => s.batch != [] && s.tick > 0
    case Dispatch => s.batch == [] && s.dispatch != [] && s.tick > 0
  }

  function Apply(c: Config, s: State, step: Step): State
    requires Enabled(s, step)
  {
    match step
    case Enqueue(item) => EnqueueStep(c, s, item)
    case Begin => BeginStep(c, s)
    case Decide(live) => DecideStep(c, s, live)
    case Dispatch => DispatchStep(s)
  }

  /** The states a sequence of steps goes through. */
  ghost predicate IsRun(c: Config, run: seq<State>, steps: seq<Step>) {
    && |run| == |steps| + 1 && run[0] == START
    && forall i | 0 <= i < |steps| :: Enabled(run[i], steps[i]) && run[i + 1] == Apply(c, run[i], steps[i])
  }

  // ---- what is pending ----

  /** How often an id is in the heap or in flight. */
  function Pending(s: State, id: SegmentId): nat {
    Count(s.heap, id) + Count(s.batch, id) + Count(s.dispatch, id)
  }

  /** The queue's membership set is exactly what is pending, each segment once; it never exceeds
      its bound; and it accounts for everything accepted and not yet removed. */
  ghost predicate QueueInv(c: Config, s: State) {
    && (forall id :: Pending(s, id) == if id in s.inQueue then 1 else 0)
    && |s.inQueue| <= c.maxQueueDepth
    && |s.inQueue| + s.removed == s.accepted
  }

  lemma EnqueueKeepsPending(c: Config, s: State, item: Item, id: SegmentId)
    requires Pending(s, id) == if id in s.inQueue then 1 else 0
    ensures Pending(EnqueueStep(c, s, item), id) == if id in EnqueueStep(c, s, item).inQueue then 1 else 0
  {
    CountPush(s.heap, item, id);
  }

  lemma DecideKeepsPending(c: Config, s: State, live: Option<nat>, id: SegmentId)
    requires s.batch != [] && s.tick > 0
    requires Pending(s, id) == if id in s.inQueue then 1 else 0
    ensures Pending(DecideStep(c, s, live), id) == if id in DecideStep(c, s, live).inQueue then 1 else 0
  {
    var t, item := DecideStep(c, s, live), s.batch[0];
    CountTail(s.batch, id);
    if t.dispatch != s.dispatch {
      CountPush(s.dispatch, Item(item.id, live.value), id);
    } else if t.heap != s.heap {
      CountPush(s.heap, item, id);
    } else {
      assert t.inQueue == s.inQueue - {item.id};
    }
  }

  lemma StepKeepsPending(c: Config, s: State, step: Step, id: SegmentId)
    requires Enabled(s, step)
    requires Pending(s, id) == if id in s.inQueue then 1 else 0
    ensures Pending(Apply(c, s, step), id) == if id in Apply(c, s, step).inQueue then 1 else 0
  {
    match step
    case Enqueue(item) => EnqueueKeepsPending(c, s, item, id);
    case Begin => PopKeepsCount(s.heap, c.maxBatchPerTick, id);
    case Decide(live) => DecideKeepsPending(c, s, live, id);
    case Dispatch =>
      CountTail(s.dispatch, id);
      CountPush(s.heap, Item(s.dispatch[0].id, 0), id);
  }

  lemma StepKeepsQueue(c: Config, s: State, step: Step)
    requires QueueInv(c, s) && Enabled(s, step)
    ensures QueueInv(c, Apply(c, s, step))
  {
    forall id ensures Pending(Apply(c, s, step), id) == if id in Apply(c, s, step).inQueue then 1 else 0 {
      StepKeepsPending(c, s, step, id);
    }
    if step.Decide? {
      CountTail(s.batch, s.batch[0].id);
      assert Pending(s, s.batch[0].id) >= 1;
    }
  }

  // ---- pacing ----

  /** Ticks that must lie between two requests for one segment. */
  function Gap(c: Config): nat {
    if c.retryAfterTicks == 0 then 1 else c.retryAfterTicks
  }

  /** How many requests were issued in a tick. */
  function Issued(requests: seq<Request>, t: nat): nat {
    if requests == [] then 0
    else Issued(requests[..|requests| - 1], t) + if requests[|requests| - 1].tick == t then 1 else 0
  }

  ghost predicate History(c: Config, s: State) {
    && (forall id | id in s.last :: s.last[id] < s.tick)
    && (forall i | 0 <= i < |s.requests| ::
          var r := s.requests[i];
          r.tick < s.tick && r.live < c.rf && r.id in s.last && r.tick <= s.last[r.id])
    && (forall i, j | 0 <= i < j < |s.requests| && s.requests[i].id == s.requests[j].id ::
          s.requests[i].tick + Gap(c) <= s.requests[j].tick)
  }

  ghost predicate InFlight(c: Config, s: State) {
    && (s.batch != [] || s.dispatch != [] ==> s.tick > 0)
    && (forall x | x in s.batch :: x.id in s.last ==> s.last[x.id] < Now(s))
    && (forall x | x in s.dispatch :: x.live < c.rf && x.id in s.last && s.last[x.id] == Now(s))
    && (forall x, i | x in s.dispatch && 0 <= i < |s.requests| && s.requests[i].id == x.id ::
          s.requests[i].tick + Gap(c) <= Now(s))
  }

  ghost predicate Rate(c: Config, s: State) {
    && (forall t :: Issued(s.requests, t) <= c.maxBatchPerTick)
    && (s.tick > 0 ==> Issued(s.requests, Now(s)) + |s.dispatch| + |s.batch| <= c.maxBatchPerTick)
  }

  /** A request for the segment was issued in that tick. */
  ghost predicate Requested(s: State, id: SegmentId, t: nat) {
    exists i :: 0 <= i < |s.requests| && s.requests[i].id == id && s.requests[i].tick == t
  }

  /** It was, or is about to be. */
  ghost predicate Backed(s: State, id: SegmentId, t: nat) {
    Requested(s, id, t) || (s.tick == t + 1 && exists x :: x in s.dispatch && x.id == id)
  }

  /** Every attempt on record stands for a request. */
  ghost predicate Recorded(s: State) {
    forall id | id in s.last :: Backed(s, id, s.last[id])
  }

  ghost predicate Inv(c: Config, s: State) {
    QueueInv(c, s) && History(c, s) && InFlight(c, s) && Rate(c, s) && Recorded(s)
  }

  lemma {:induction false} CountMember(items: seq<Item>, x: Item)
    requires x in items
    ensures Count(items, x.id) >= 1
  {
    if x != items[|items| - 1] {
      assert x in items[..|items| - 1];
      CountMember(items[..|items| - 1], x);
    }
  }

  // No segment is in flight twice.
  lemma OthersDiffer(c: Config, s: State, x: Item)
    requires QueueInv(c, s)
    ensures s.batch != [] && x in s.batch[1..] ==> x.id != s.batch[0].id
    ensures s.batch != [] && x in s.dispatch ==> x.id != s.batch[0].id
    ensures s.dispatch != [] && x in s.dispatch[1..] ==> x.id != s.dispatch[0].id
  {
    assert Pending(s, x.id) <= 1;
    if s.batch != [] {
      CountTail(s.batch, x.id);
      if x in s.batch[1..] {
        CountMember(s.batch[1..], x);
      }
      if x in s.dispatch {
        CountMember(s.dispatch, x);
      }
    }
    if s.dispatch != [] {
      CountTail(s.dispatch, x.id);
      if x in s.dispatch[1..] {
        CountMember(s.dispatch[1..], x);
      }
    }
  }

  lemma {:induction false} NoneIssuedYet(requests: seq<Request>, t: nat)
    requires forall i | 0 <= i < |requests| :: requests[i].tick < t
    ensures Issued(requests, t) == 0
  {
    if requests != [] {
      NoneIssuedYet(requests[..|requests| - 1], t);
    }
  }

  // A decision that sends nothing leaves the past and what is in flight as they were.
  lemma DropKeepsPace(c: Config, s: State, live: Option<nat>)
    requires Inv(c, s) && s.batch != [] && s.tick > 0
    requires DecideStep(c, s, live).dispatch == s.dispatch
    ensures History(c, DecideStep(c, s, live)) && InFlight(c, DecideStep(c, s, live)) && Rate(c, DecideStep(c, s, live))
  {
    assert forall x | x in s.batch[1..] :: x in s.batch;
  }

  /** The state after sending is decided for the next popped item. */
  function Marked(s: State, live: nat): State
    requires s.batch != [] && s.tick > 0
  {
    var id := s.batch[0].id;
    s.(batch := s.batch[1..], last := s.last[id := Now(s)], dispatch := s.dispatch + [Item(id, live)])
  }

  lemma MarkKeepsHistory(c: Config, s: State, live: nat)
    requires s.batch != [] && s.tick > 0 && History(c, s)
    ensures History(c, Marked(s, live))
  {
  }

  lemma MarkKeepsInFlight(c: Config, s: State, live: nat)
    requires s.batch != [] && s.tick > 0 && live < c.rf && QueueInv(c, s) && History(c, s) && InFlight(c, s)
    requires s.batch[0].id in s.last ==> s.last[s.batch[0].id] + Gap(c) <= Now(s)
    ensures InFlight(c, Marked(s, live))
  {
    var t, id := Marked(s, live), s.batch[0].id;
    forall x | x in t.batch ensures x.id in t.last ==> t.last[x.id] < Now(t) {
      OthersDiffer(c, s, x);
      assert x in s.batch;
    }
    forall x | x in t.dispatch
      ensures x.live < c.rf && x.id in t.last && t.last[x.id] == Now(t)
      ensures forall i | 0 <= i < |t.requests| && t.requests[i].id == x.id :: t.requests[i].tick + Gap(c) <= Now(t)
    {
      if x in s.dispatch {
        OthersDiffer(c, s, x);
      } else {
        assert x == Item(id, live);
      }
    }
  }

  lemma DecideKeepsPace(c: Config, s: State, live: Option<nat>)
    requires Inv(c, s) && s.batch != [] && s.tick > 0
    ensures History(c, DecideStep(c, s, live)) && InFlight(c, DecideStep(c, s, live)) && Rate(c, DecideStep(c, s, live))
  {
    if DecideStep(c, s, live).dispatch == s.dispatch {
      DropKeepsPace(c, s, live);
    } else {
      assert s.batch[0] in s.batch;
      MarkKeepsHistory(c, s, live.value);
      MarkKeepsInFlight(c, s, live.value);
      assert DecideStep(c, s, live) == Marked(s, live.value);
    }
  }

  lemma DispatchKeepsPace(c: Config, s: State)
    requires Inv(c, s) && s.batch == [] && s.dispatch != [] && s.tick > 0
    ensures History(c, DispatchStep(s)) && InFlight(c, DispatchStep(s)) && Rate(c, DispatchStep(s))
  {
    var t, item := DispatchStep(s), s.dispatch[0];
    assert item in s.dispatch;
    forall x ensures x in t.dispatch ==> x in s.dispatch && x.id != item.id {
      OthersDiffer(c, s, x);
    }
    DispatchKeepsRate(c, s);
  }

  lemma DispatchKeepsRate(c: Config, s: State)
    requires Rate(c, s) && s.batch == [] && s.dispatch != [] && s.tick > 0
    ensures Rate(c, DispatchStep(s))
  {
    var t := DispatchStep(s);
    assert t.requests[..|s.requests|] == s.requests;
    forall u ensures Issued(t.requests, u) == Issued(s.requests, u) + if u == Now(s) then 1 else 0 {
    }
  }

  lemma BeginKeepsPace(c: Config, s: State)
    requires Inv(c, s) && s.batch == [] && s.dispatch == []
    ensures History(c, BeginStep(c, s)) && InFlight(c, BeginStep(c, s)) && Rate(c, BeginStep(c, s))
  {
    NoneIssuedYet(s.requests, s.tick);
  }

  lemma EnqueueKeepsPace(c: Config, s: State, item: Item)
    requires History(c, s) && InFlight(c, s) && Rate(c, s)
    ensures History(c, EnqueueStep(c, s, item)) && InFlight(c, EnqueueStep(c, s, item)) && Rate(c, EnqueueStep(c, s, item))
  {
  }

  lemma StepKeepsPace(c: Config, s: State, step: Step)
    requires Inv(c, s) && Enabled(s, step)
    ensures History(c, Apply(c, s, step)) && InFlight(c, Apply(c, s, step)) && Rate(c, Apply(c, s, step))
  {
    match step
    case Enqueue(item) => EnqueueKeepsPace(c, s, item);
    case Begin => BeginKeepsPace(c, s);
    case Decide(live) => DecideKeepsPace(c, s, live);
    case Dispatch => DispatchKeepsPace(c, s);
  }

  // A repair that is sent or decided stays so, until it is sent.
  lemma StepKeepsBacked(c: Config, s: State, step: Step, id: SegmentId, t: nat)
    requires Enabled(s, step) && Backed(s, id, t)
    ensures Backed(Apply(c, s, step), id, t)
  {
    var u := Apply(c, s, step);
    if Requested(s, id, t) {
      var i :| 0 <= i < |s.requests| && s.requests[i].id == id && s.requests[i].tick == t;
      assert u.requests[i] == s.requests[i];
    } else if step.Dispatch? && s.dispatch[0].id == id {
      assert u.requests[|s.requests|] == Request(id, t, s.dispatch[0].live);
    } else {
      var x :| x in s.dispatch && x.id == id;
      assert x in u.dispatch;
    }
  }

  lemma StepKeepsRecorded(c: Config, s: State, step: Step)
    requires Enabled(s, step) && Recorded(s)
    ensures Recorded(Apply(c, s, step))
  {
    var u := Apply(c, s, step);
    forall id | id in u.last ensures Backed(u, id, u.last[id]) {
      if id in s.last && u.last[id] == s.last[id] {
        StepKeepsBacked(c, s, step, id, s.last[id]);
      } else {
        assert u.dispatch[|s.dispatch|].id == id;
      }
    }
  }

  /** Every step, from any task, keeps the invariant. */
  lemma StepKeepsInv(c: Config, s: State, step: Step)
    requires Inv(c, s) && Enabled(s, step)
    ensures Inv(c, Apply(c, s, step))
  {
    StepKeepsQueue(c, s, step);
    StepKeepsPace(c, s, step);
    StepKeepsRecorded(c, s, step);
  }

  lemma {:induction false} RunsKeepInv(c: Config, run: seq<State>, steps: seq<Step>, i: nat)
    requires IsRun(c, run, steps) && i < |run|
    ensures Inv(c, run[i])
  {
    if i > 0 {
      RunsKeepInv(c, run, steps, i - 1);
      StepKeepsInv(c, run[i - 1], steps[i - 1]);
    } else {
      assert forall id :: Pending(START, id) == 0;
    }
  }

  /** In every run: the queue holds each pending segment once, within its bound; and repair
      requests are paced, justified and rate-limited. */
  lemma QueueGuarantees(c: Config, run: seq<State>, steps: seq<Step>, i: nat)
    requires IsRun(c, run, steps) && i < |run|
    ensures forall id :: Pending(run[i], id) == if id in run[i].inQueue then 1 else 0
    ensures |run[i].inQueue| <= c.maxQueueDepth
    ensures forall a, b | 0 <= a < b < |run[i].requests| && run[i].requests[a].id == run[i].requests[b].id ::
      && run[i].requests[a].tick < run[i].requests[b].tick
      && run[i].requests[a].tick + c.retryAfterTicks <= run[i].requests[b].tick
    ensures forall a | 0 <= a < |run[i].requests| :: run[i].requests[a].live < c.rf
    ensures forall t :: Issued(run[i].requests, t) <= c.maxBatchPerTick
  {
    RunsKeepInv(c, run, steps, i);
  }

  // Deciding an item that is short of copies leaves it with an attempt on record that is not overdue.
  lemma ShortIsOnRecord(c: Config, s: State, live: nat)
    requires Inv(c, s) && s.batch != [] && s.tick > 0 && live < c.rf
    ensures var t, id := DecideStep(c, s, Some(live)), s.batch[0].id;
      && id in t.last && Backed(t, id, t.last[id])
      && t.last[id] < s.tick && s.tick <= t.last[id] + (if c.retryAfterTicks == 0 then 1 else c.retryAfterTicks)
  {
    StepKeepsRecorded(c, s, Decide(Some(live)));
  }

  lemma {:induction false} RunKeepsBacked(c: Config, run: seq<State>, steps: seq<Step>, p: nat, q: nat, id: SegmentId, t: nat)
    requires IsRun(c, run, steps) && p <= q < |run| && Backed(run[p], id, t)
    ensures Backed(run[q], id, t)
  {
    if p < q {
      RunKeepsBacked(c, run, steps, p, q - 1, id, t);
      StepKeepsBacked(c, run[q - 1], steps[q - 1], id, t);
    }
  }

  /** In every run, a segment that was popped in a tick and found short of copies has, once that tick's
      repairs are sent, a request of that tick or of one of the ticks within which none may be repeated. */
  lemma ShortIsRequested(c: Config, run: seq<State>, steps: seq<Step>, p: nat, q: nat)
    requires IsRun(c, run, steps) && p < |steps| && p < q < |run|
    requires steps[p].Decide? && steps[p].live.Some? && steps[p].live.value < c.rf
    requires run[q].dispatch == [] || run[q].tick > run[p].tick
    ensures run[p].batch != []
    ensures exists i ::
      && 0 <= i < |run[q].requests| && run[q].requests[i].id == run[p].batch[0].id
      && run[q].requests[i].tick < run[p].tick
      && run[p].tick <= run[q].requests[i].tick + (if c.retryAfterTicks == 0 then 1 else c.retryAfterTicks)
  {
    var s, id := run[p], run[p].batch[0].id;
    RunsKeepInv(c, run, steps, p);
    ShortIsOnRecord(c, s, steps[p].live.value);
    var t := run[p + 1].last[id];
    RunKeepsBacked(c, run, steps, p + 1, q, id, t);
    assert Requested(run[q], id, t);
  }

  /** Conservation: between any two moments of a run the queue has grown by what was accepted and
      shrunk by exactly the vanished and healthy segments. */
  lemma QueueConserves(c: Config, run: seq<State>, steps: seq<Step>, i: nat, j: nat)
    requires IsRun(c, run, steps) && i <= j < |run|
    ensures |run[j].inQueue| - |run[i].inQueue| == (run[j].accepted - run[i].accepted) - (run[j].removed - run[i].removed)
  {
    RunsKeepInv(c, run, steps, i);
    RunsKeepInv(c, run, steps, j);
  }
}
