/** Every node's clock under any interleaving of its threads' loads and exchanges, with
    timestamps travelling between the nodes. */
module ClockCluster {
  import opened HybridClock

  type NodeId = nat
  type ThreadId = nat

  datatype Source = FromEvent(index: nat) | FromOutside

  datatype Call = Now | Update(received: Hlc, source: Source)

  /** Where a thread is inside `now` or `update`. */
  datatype Thread =
    | Idle
    | Called(call: Call, physical: u64)
    | Loaded(call: Call, physical: u64, cur: nat)

  /** A call that returned: `stamp` is its result and `full` says the clock had run out. */
  datatype Event = Event(node: NodeId, thread: ThreadId, call: Call, physical: u64, stamp: Hlc, full: bool)

  datatype State = State(words: map<NodeId, nat>, threads: map<(NodeId, ThreadId), Thread>, log: seq<Event>)

  function At(s: State, n: NodeId, t: ThreadId): Thread {
    if (n, t) in s.threads then s.threads[(n, t)] else Idle
  }

  function Rule(call: Call, cur: Hlc, physical: u64): Hlc {
    match call
    case Now => NowRule(cur, physical)
    case Update(received, _) => UpdateRule(cur, received, physical)
  }

  ghost predicate Full(call: Call, cur: Hlc) {
    match call
    case Now => cur.wall == MAX64 && cur.logical == MAX32
    case Update(received, _) => UpdateSaturates(cur, received)
  }

  ghost predicate Init(s: State) {
    && (forall n | n in s.words :: Word(s.words[n]))
    && s.threads == map[]
    && s.log == []
  }

  /** A thread enters a call and reads the physical clock, which may show anything. */
  ghost predicate Begin(s: State, s': State, n: NodeId, t: ThreadId, call: Call, physical: u64) {
    && n in s.words && At(s, n, t).Idle?
    && (call.Update? && call.source.FromEvent? ==>
          call.source.index < |s.log| && call.received == s.log[call.source.index].stamp)
    && s' == s.(threads := s.threads[(n, t) := Called(call, physical)])
  }

  ghost predicate Load(s: State, s': State, n: NodeId, t: ThreadId) {
    && n in s.words && At(s, n, t).Called?
    && s' == s.(threads := s.threads[(n, t) := Loaded(At(s, n, t).call, At(s, n, t).physical, s.words[n])])
  }

  /** The exchange fails, because the word moved or for no reason; the loop goes round. */
  ghost predicate Fail(s: State, s': State, n: NodeId, t: ThreadId) {
    && n in s.words && At(s, n, t).Loaded?
    && s' == s.(threads := s.threads[(n, t) := Called(At(s, n, t).call, At(s, n, t).physical)])
  }

  /** The exchange succeeds and the call returns. */
  ghost predicate Commit(s: State, s': State, n: NodeId, t: ThreadId) {
    && n in s.words && At(s, n, t).Loaded?
    && var Loaded(call, physical, cur) := At(s, n, t);
    && s.words[n] == cur && Word(cur)
    && var stamp := Rule(call, Unpack(cur), physical);
    && s' == State(s.words[n := Pack(stamp)], s.threads[(n, t) := Idle],
                   s.log + [Event(n, t, call, physical, stamp, Full(call, Unpack(cur)))])
  }

  datatype Step =
    | BeginStep(n: NodeId, t: ThreadId, call: Call, physical: u64)
    | LoadStep(n: NodeId, t: ThreadId)
    | FailStep(n: NodeId, t: ThreadId)
    | CommitStep(n: NodeId, t: ThreadId)

  ghost predicate Takes(s: State, s': State, step: Step) {
    match step
    case BeginStep(n, t, call, physical) => Begin(s, s', n, t, call, physical)
    case LoadStep(n, t) => Load(s, s', n, t)
    case FailStep(n, t) => Fail(s, s', n, t)
    case CommitStep(n, t) => Commit(s, s', n, t)
  }

  ghost predicate Next(s: State, s': State) {
    exists step :: Takes(s, s', step)
  }

  ghost predicate IsRun(run: seq<State>) {
    |run| > 0 && Init(run[0]) && forall i | 0 < i < |run| :: Next(run[i - 1], run[i])
  }

  /** No call found the clock at its end. */
  ghost predicate NeverFull(log: seq<Event>) {
    forall i | 0 <= i < |log| :: !log[i].full
  }

  /** No wall time in the log has reached the last one. */
  ghost predicate WallsLeft(log: seq<Event>) {
    forall i | 0 <= i < |log| :: log[i].stamp.wall < MAX64
  }

  // ---- what every step keeps ----

  ghost predicate Sound(s: State) {
    && (forall n | n in s.words :: Word(s.words[n]))
    && (forall i | 0 <= i < |s.log| :: s.log[i].node in s.words)
    && (forall n: NodeId, t: ThreadId | At(s, n, t) != Idle :: Received(s.log, |s.log|, At(s, n, t).call))
    && (forall i | 0 <= i < |s.log| :: Received(s.log, i, s.log[i].call))
    && (forall i | 0 <= i < |s.log| && s.log[i].full :: s.log[i].stamp.wall == MAX64)
  }

  /** A received timestamp said to come from an event is that event's, and the event is earlier. */
  ghost predicate Received(log: seq<Event>, before: nat, call: Call)
    requires before <= |log|
  {
    call.Update? && call.source.FromEvent? ==>
      call.source.index < before && call.received == log[call.source.index].stamp
  }

  /** One node's stamps grow, follow the physical clock and exceed what was received. */
  ghost predicate Ordered(log: seq<Event>) {
    && (forall i, j | 0 <= i < j < |log| && log[i].node == log[j].node :: Less(log[i].stamp, log[j].stamp))
    && (forall i | 0 <= i < |log| :: log[i].physical <= log[i].stamp.wall)
    && (forall i | 0 <= i < |log| && log[i].call.Update? :: Less(log[i].call.received, log[i].stamp))
  }

  /** No stamp is ahead of its node's word. */
  ghost predicate WordsAhead(s: State) {
    forall i | 0 <= i < |s.log| :: s.log[i].node in s.words && Pack(s.log[i].stamp) <= s.words[s.log[i].node]
  }

  ghost predicate Inv(s: State) {
    Sound(s) && (NeverFull(s.log) ==> Ordered(s.log) && WordsAhead(s))
  }

  lemma CommitKeepsSound(s: State, s': State, n: NodeId, t: ThreadId)
    requires Sound(s) && Commit(s, s', n, t)
    ensures Sound(s')
  {
    var Loaded(call, physical, cur) := At(s, n, t);
    var stamp := Rule(call, Unpack(cur), physical);
    PackingIsOrder(stamp, stamp);
    if stamp.wall < MAX64 {
      BelowLastWall(call, Unpack(cur), physical);
    }
    forall m: NodeId, u: ThreadId | At(s', m, u) != Idle ensures Received(s'.log, |s'.log|, At(s', m, u).call) {
      assert At(s', m, u) == At(s, m, u);
    }
    forall i | 0 <= i < |s'.log| ensures Received(s'.log, i, s'.log[i].call) {
      if i < |s.log| {
        assert Received(s.log, i, s.log[i].call);
      } else {
        assert Received(s.log, |s.log|, At(s, n, t).call);
      }
    }
  }

  lemma RuleAdvances(call: Call, cur: Hlc, physical: u64)
    requires !Full(call, cur)
    ensures Less(cur, Rule(call, cur, physical)) && physical <= Rule(call, cur, physical).wall
    ensures call.Update? ==> Less(call.received, Rule(call, cur, physical))
  {
    match call
    case Now => NowAdvances(cur, physical);
    case Update(received, _) => UpdateAdvances(cur, received, physical);
  }

  // A stamp not ahead of the word is before what the word is advanced to.
  lemma StampBefore(stamp: Hlc, word: nat, next: Hlc)
    requires Word(word) && Pack(stamp) <= word && Less(Unpack(word), next)
    ensures Less(stamp, next) && Pack(stamp) <= Pack(next)
  {
    PackingIsOrder(Unpack(word), next);
    PackingIsOrder(stamp, next);
  }

  lemma AppendKeepsOrder(log: seq<Event>, e: Event)
    requires Ordered(log) && e.physical <= e.stamp.wall && (e.call.Update? ==> Less(e.call.received, e.stamp))
    requires forall i | 0 <= i < |log| && log[i].node == e.node :: Less(log[i].stamp, e.stamp)
    ensures Ordered(log + [e])
  {
  }

  lemma CommitKeepsOrder(s: State, s': State, n: NodeId, t: ThreadId)
    requires Commit(s, s', n, t) && NeverFull(s'.log) && Ordered(s.log) && WordsAhead(s)
    ensures Ordered(s'.log) && WordsAhead(s')
  {
    var Loaded(call, physical, cur) := At(s, n, t);
    var e := s'.log[|s.log|];
    assert !e.full;
    RuleAdvances(call, Unpack(cur), physical);
    forall i | 0 <= i < |s.log| && s.log[i].node == n ensures Less(s.log[i].stamp, e.stamp) && Pack(s.log[i].stamp) <= Pack(e.stamp) {
      StampBefore(s.log[i].stamp, cur, e.stamp);
    }
    AppendKeepsOrder(s.log, e);
  }

  lemma StepKeepsInv(s: State, s': State)
    requires Inv(s) && Next(s, s')
    ensures Inv(s')
  {
    var step :| Takes(s, s', step);
    var n, t := step.n, step.t;
    if step.CommitStep? {
      CommitKeepsSound(s, s', n, t);
      if NeverFull(s'.log) {
        assert forall i | 0 <= i < |s.log| :: s.log[i] == s'.log[i];
        CommitKeepsOrder(s, s', n, t);
      }
    } else {
      assert s'.log == s.log && s'.words == s.words;
      forall m: NodeId, u: ThreadId | At(s', m, u) != Idle ensures Received(s'.log, |s'.log|, At(s', m, u).call) {
        if (m, u) != (n, t) {
          assert At(s', m, u) == At(s, m, u);
        }
      }
    }
  }

  lemma {:induction false} RunsKeepInv(run: seq<State>, i: nat)
    requires IsRun(run) && i < |run|
    ensures Inv(run[i])
  {
    if i > 0 {
      RunsKeepInv(run, i - 1);
      StepKeepsInv(run[i - 1], run[i]);
    }
  }

  // ---- the guarantees over whole runs ----

  /** Calls on one node are ordered by their commits; a receive follows the event it received. */
  ghost predicate Precedes(log: seq<Event>, i: nat, j: nat)
    requires i < |log| && j < |log|
  {
    i < j && (log[i].node == log[j].node || (log[j].call.Update? && log[j].call.source == FromEvent(i)))
  }

  /** Happens-before: any chain of such steps. */
  ghost predicate HappensBefore(log: seq<Event>, chain: seq<nat>) {
    && |chain| >= 2
    && (forall c | 0 <= c < |chain| :: chain[c] < |log|)
    && forall c | 0 < c < |chain| :: Precedes(log, chain[c - 1], chain[c])
  }

  lemma {:induction false} ChainIncreases(s: State, chain: seq<nat>, c: nat)
    requires Inv(s) && NeverFull(s.log) && HappensBefore(s.log, chain)
    requires 0 < c < |chain|
    ensures Less(s.log[chain[0]].stamp, s.log[chain[c]].stamp)
  {
    var i, j := chain[c - 1], chain[c];
    assert Precedes(s.log, i, j);
    assert Received(s.log, j, s.log[j].call);
    assert Less(s.log[i].stamp, s.log[j].stamp);
    if c > 1 {
      ChainIncreases(s, chain, c - 1);
      LessIsStrictTotalOrder(s.log[chain[0]].stamp, s.log[i].stamp, s.log[j].stamp);
    }
  }

  /** Until a call finds the clock at its end, the later event of every chain has the larger
      timestamp. */
  lemma CausalityUntilFull(run: seq<State>, chain: seq<nat>)
    requires IsRun(run)
    requires NeverFull(run[|run| - 1].log) && HappensBefore(run[|run| - 1].log, chain)
    ensures Less(run[|run| - 1].log[chain[0]].stamp, run[|run| - 1].log[chain[|chain| - 1]].stamp)
  {
    RunsKeepInv(run, |run| - 1);
    ChainIncreases(run[|run| - 1], chain, |chain| - 1);
  }

  /** Causality: in every run in which no wall time reaches the last one, whatever the physical
      clocks show, happens-before implies a smaller timestamp. */
  lemma Causality(run: seq<State>, chain: seq<nat>)
    requires IsRun(run)
    requires WallsLeft(run[|run| - 1].log) && HappensBefore(run[|run| - 1].log, chain)
    ensures Less(run[|run| - 1].log[chain[0]].stamp, run[|run| - 1].log[chain[|chain| - 1]].stamp)
  {
    RunsKeepInv(run, |run| - 1);
    CausalityUntilFull(run, chain);
  }

  /** On one node, in every interleaving in which no wall time reaches the last one, results grow
      strictly in commit order, follow the physical clock, and an update's result exceeds what it
      received. */
  lemma ClockResults(run: seq<State>)
    requires IsRun(run) && WallsLeft(run[|run| - 1].log)
    ensures var log := run[|run| - 1].log;
      && (forall i, j | 0 <= i < j < |log| && log[i].node == log[j].node ::
            Less(log[i].stamp, log[j].stamp) && log[i].stamp != log[j].stamp)
      && (forall i | 0 <= i < |log| :: log[i].physical <= log[i].stamp.wall)
      && (forall i | 0 <= i < |log| && log[i].call.Update? :: Less(log[i].call.received, log[i].stamp))
  {
    RunsKeepInv(run, |run| - 1);
  }

  // A timestamp below the last wall time shows that the clock was not full.
  lemma BelowLastWall(call: Call, cur: Hlc, physical: u64)
    requires Rule(call, cur, physical).wall < MAX64
    ensures !Full(call, cur)
  {
  }

  // ---- where wall times come from ----

  /** No counter has overflowed: an overflow leaves a counter of zero. */
  ghost predicate NoOverflow(log: seq<Event>) {
    forall i | 0 <= i < |log| :: log[i].stamp.logical > 0
  }

  /** The wall is the node's first one, or a call on the node read it or received it. */
  ghost predicate Sourced(first: State, log: seq<Event>, n: NodeId, wall: u64)
    requires n in first.words && Word(first.words[n])
  {
    || wall == Unpack(first.words[n]).wall
    || exists i :: 0 <= i < |log| && log[i].node == n
                   && (log[i].physical == wall || (log[i].call.Update? && log[i].call.received.wall == wall))
  }

  ghost predicate AllSourced(first: State, s: State) {
    && first.words.Keys == s.words.Keys
    && (forall n | n in s.words :: Word(first.words[n]) && Word(s.words[n]) && Sourced(first, s.log, n, Unpack(s.words[n]).wall))
    && (forall i | 0 <= i < |s.log| :: s.log[i].node in s.words && Sourced(first, s.log, s.log[i].node, s.log[i].stamp.wall))
  }

  // Without an overflow the new wall is one of those it was computed from.
  lemma RuleKeepsWalls(call: Call, cur: Hlc, physical: u64)
    requires Rule(call, cur, physical).logical > 0
    ensures var wall := Rule(call, cur, physical).wall;
      wall == cur.wall || wall == physical || (call.Update? && wall == call.received.wall)
  {
  }

  lemma MoreSources(first: State, log: seq<Event>, e: Event, n: NodeId, wall: u64)
    requires n in first.words && Word(first.words[n]) && Sourced(first, log, n, wall)
    ensures Sourced(first, log + [e], n, wall)
  {
    if i :| 0 <= i < |log| && log[i].node == n && (log[i].physical == wall || (log[i].call.Update? && log[i].call.received.wall == wall)) {
      assert (log + [e])[i] == log[i];
    }
  }

  lemma CommitKeepsSourced(first: State, s: State, s': State, n: NodeId, t: ThreadId)
    requires AllSourced(first, s) && Commit(s, s', n, t) && NoOverflow(s'.log)
    ensures AllSourced(first, s')
  {
    var Loaded(call, physical, cur) := At(s, n, t);
    var e := s'.log[|s.log|];
    RuleKeepsWalls(call, Unpack(cur), physical);
    PackingIsOrder(e.stamp, e.stamp);
    assert Sourced(first, s'.log, n, e.stamp.wall) by {
      if e.stamp.wall == Unpack(cur).wall {
        MoreSources(first, s.log, e, n, e.stamp.wall);
      } else {
        assert s'.log[|s.log|].node == n;
      }
    }
    forall m | m in s'.words ensures Sourced(first, s'.log, m, Unpack(s'.words[m]).wall) {
      if m != n {
        MoreSources(first, s.log, e, m, Unpack(s.words[m]).wall);
      }
    }
    forall i | 0 <= i < |s'.log| ensures Sourced(first, s'.log, s'.log[i].node, s'.log[i].stamp.wall) {
      if i < |s.log| {
        MoreSources(first, s.log, e, s.log[i].node, s.log[i].stamp.wall);
      }
    }
  }

  /** In every run without a counter overflow, every stamp's wall time is its node's first one, or was
      read from the physical clock or received by a call on the node: no wall time is made up. */
  lemma {:induction false} WallsAreSourced(run: seq<State>, i: nat)
    requires IsRun(run) && i < |run| && NoOverflow(run[i].log)
    ensures AllSourced(run[0], run[i])
  {
    if i > 0 {
      var s, s' := run[i - 1], run[i];
      var step :| Takes(s, s', step);
      assert forall j | 0 <= j < |s.log| :: s.log[j] == s'.log[j];
      WallsAreSourced(run, i - 1);
      if step.CommitStep? {
        CommitKeepsSourced(run[0], s, s', step.n, step.t);
      }
    }
  }
}
