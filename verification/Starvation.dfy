/** Who waits while repairs keep failing: a segment put back for a later check is queued as if it had
    no live copy and goes before all others (reconcile.rs process_batch, WorkItem). */
module Starvation {
  import opened Common
  import opened ReconcileQueue

  /** How many items are queued with no live copy. */
  function Zeros(items: seq<Item>): nat {
    if items == [] then 0 else Zeros(items[..|items| - 1]) + if items[|items| - 1].live == 0 then 1 else 0
  }

  lemma {:induction false} ZerosConcat(a: seq<Item>, b: seq<Item>)
    ensures Zeros(a + b) == Zeros(a) + Zeros(b)
  {
    if b == [] {
      assert a + b == a;
    } else {
      ZerosConcat(a, b[..|b| - 1]);
      assert (a + b)[..|a + b| - 1] == a + b[..|b| - 1];
    }
  }

  lemma ZerosWithout(heap: seq<Item>, i: nat)
    requires i < |heap|
    ensures Zeros(heap) == Zeros(Without(heap, i)) + if heap[i].live == 0 then 1 else 0
  {
    assert heap == heap[..i] + heap[i..];
    ZerosConcat(heap[..i], heap[i..]);
    ZerosTail(heap[i..]);
    assert heap[i..][1..] == heap[i + 1..];
    ZerosConcat(heap[..i], heap[i + 1..]);
  }

  lemma ZerosTail(items: seq<Item>)
    requires items != []
    ensures Zeros(items) == Zeros(items[1..]) + if items[0].live == 0 then 1 else 0
  {
    assert items == [items[0]] + items[1..];
    ZerosConcat([items[0]], items[1..]);
  }

  lemma {:induction false} SomeZero(items: seq<Item>) returns (i: nat)
    requires Zeros(items) > 0
    ensures i < |items| && items[i].live == 0
  {
    if items[|items| - 1].live == 0 {
      i := |items| - 1;
    } else {
      i := SomeZero(items[..|items| - 1]);
    }
  }

  /** With at least n such items queued, the next n popped are all of that kind. */
  lemma {:induction false} PopTakesZeros(heap: seq<Item>, n: nat)
    requires n <= Zeros(heap)
    ensures |Pop(heap, n).0| == n && forall x | x in Pop(heap, n).0 :: x.live == 0
    ensures Zeros(Pop(heap, n).1) + n == Zeros(heap)
    decreases n
  {
    if n > 0 {
      var z := SomeZero(heap);
      var i := MaxIndex(heap);
      assert !Outranks(heap[z], heap[i]);
      ZerosWithout(heap, i);
      PopTakesZeros(Without(heap, i), n - 1);
    }
  }

  /** A batch's worth of such items is queued or in flight, and nothing else has been popped. */
  ghost predicate Crowded(c: Config, s: State) {
    && Zeros(s.heap) + |s.batch| + |s.dispatch| >= c.maxBatchPerTick
    && forall x | x in s.batch :: x.live == 0
  }

  /** The registry still shows the item too few live copies. */
  predicate StaysShort(c: Config, step: Step) {
    step.Decide? ==> step.live.Some? && step.live.value < c.rf
  }

  lemma BeginKeepsCrowded(c: Config, s: State)
    requires s.batch == [] && s.dispatch == [] && Crowded(c, s)
    ensures Crowded(c, BeginStep(c, s))
  {
    PopTakesZeros(s.heap, c.maxBatchPerTick);
  }

  lemma DecideKeepsCrowded(c: Config, s: State, live: nat)
    requires s.batch != [] && s.tick > 0 && live < c.rf && Crowded(c, s)
    ensures Crowded(c, DecideStep(c, s, Some(live)))
  {
    assert s.batch[0] in s.batch;
    assert forall x | x in s.batch[1..] :: x in s.batch;
    ZerosPush(s.heap, s.batch[0]);
  }

  lemma ZerosPush(items: seq<Item>, x: Item)
    ensures Zeros(items + [x]) == Zeros(items) + if x.live == 0 then 1 else 0
  {
    assert (items + [x])[..|items|] == items;
  }

  lemma StepKeepsCrowded(c: Config, s: State, step: Step)
    requires Enabled(s, step) && StaysShort(c, step) && Crowded(c, s)
    ensures Crowded(c, Apply(c, s, step))
  {
    match step
    case Enqueue(item) => ZerosPush(s.heap, item);
    case Begin => BeginKeepsCrowded(c, s);
    case Decide(live) => DecideKeepsCrowded(c, s, live.value);
    case Dispatch => ZerosPush(s.heap, Item(s.dispatch[0].id, 0));
  }

  // What is queued with a live copy stays queued.
  lemma StepKeepsWaiting(c: Config, s: State, step: Step, x: Item)
    requires Enabled(s, step) && StaysShort(c, step) && Crowded(c, s)
    requires x in s.heap && x.live > 0
    ensures x in Apply(c, s, step).heap
  {
    if step.Begin? {
      PopTakesZeros(s.heap, c.maxBatchPerTick);
      PopKeepsItems(s.heap, c.maxBatchPerTick);
    }
  }

  // A queued segment is not among those about to be sent.
  lemma WaitingNotSent(c: Config, s: State, x: Item)
    requires QueueInv(c, s) && x in s.heap && s.dispatch != []
    ensures s.dispatch[0].id != x.id
  {
    CountMember(s.heap, x);
    assert Pending(s, x.id) <= 1;
    CountTail(s.dispatch, x.id);
  }

  /** The segment is still queued, and no request since `past` was for it. */
  ghost predicate Waits(c: Config, s: State, x: Item, past: seq<Request>) {
    && Crowded(c, s) && x in s.heap && past <= s.requests
    && forall t | |past| <= t < |s.requests| :: s.requests[t].id != x.id
  }

  lemma StepKeepsWaits(c: Config, s: State, step: Step, x: Item, past: seq<Request>)
    requires QueueInv(c, s) && Enabled(s, step) && StaysShort(c, step)
    requires Waits(c, s, x, past) && x.live > 0
    ensures Waits(c, Apply(c, s, step), x, past)
  {
    StepKeepsCrowded(c, s, step);
    StepKeepsWaiting(c, s, step, x);
    if step.Dispatch? {
      WaitingNotSent(c, s, x);
    }
  }

  ghost predicate ShortBetween(c: Config, steps: seq<Step>, i: nat, j: nat) {
    j <= |steps| && forall t | i <= t < j :: StaysShort(c, steps[t])
  }

  /** In every run: once as many segments as a batch holds have been put back, and while the segments
      checked stay short of copies, no segment queued with a live copy is popped or repaired. */
  lemma {:induction false} Starves(c: Config, run: seq<State>, steps: seq<Step>, i: nat, j: nat, x: Item)
    requires IsRun(c, run, steps) && i <= j < |run| && ShortBetween(c, steps, i, j)
    requires Waits(c, run[i], x, run[i].requests) && x.live > 0
    ensures Waits(c, run[j], x, run[i].requests)
  {
    if j > i {
      Starves(c, run, steps, i, j - 1, x);
      RunKeepsWaits(c, run, steps, j, x, run[i].requests);
    }
  }

  // Between ticks it is enough that a batch's worth of segments has been put back.
  lemma WaitsFrom(c: Config, s: State, x: Item)
    requires s.batch == [] && Zeros(s.heap) >= c.maxBatchPerTick && x in s.heap
    ensures Waits(c, s, x, s.requests)
  {
  }

  lemma RunKeepsWaits(c: Config, run: seq<State>, steps: seq<Step>, j: nat, x: Item, past: seq<Request>)
    requires IsRun(c, run, steps) && 0 < j < |run| && StaysShort(c, steps[j - 1])
    requires Waits(c, run[j - 1], x, past) && x.live > 0
    ensures Waits(c, run[j], x, past)
  {
    RunsKeepInv(c, run, steps, j - 1);
    StepKeepsWaits(c, run[j - 1], steps[j - 1], x, past);
  }
}
