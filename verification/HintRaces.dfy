/** Deliveries of hints for one key that overlap: each reads the row, reads the tombstone and writes
    in separate steps, and the write checks nothing (healing_service.rs apply_hint_object and
    apply_hint_delete; store.rs put_object_in_bucket and delete_object). */
module HintRaces {
  import opened Common
  import opened HybridClock
  import opened Hints

  datatype Phase = Waiting | RowSeen | Checked | Done

  /** The key and how far each delivery has come. */
  datatype State = State(key: KeyState, phases: seq<Phase>)

  function Start(key: KeyState, ops: seq<Op>): State {
    State(key, seq(|ops|, _ => Waiting))
  }

  predicate Fits(ops: seq<Op>, s: State) { |s.phases| == |ops| }

  /** A newer row discards either kind of operation. */
  predicate RowDiscards(key: KeyState, op: Op) {
    key.row.Some? && Less(op.hlc, key.row.value.hlc)
  }

  predicate TombstoneDiscards(key: KeyState, op: Op) {
    key.tombstone.Some? && if op.Put? then Less(op.hlc, key.tombstone.value) else !Less(key.tombstone.value, op.hlc)
  }

  /** The next step of one delivery. */
  function Step(ops: seq<Op>, s: State, i: nat): State
    requires Fits(ops, s)
  {
    if i >= |ops| then s
    else
      match s.phases[i]
      case Waiting => s.(phases := s.phases[i := if RowDiscards(s.key, ops[i]) then Done else RowSeen])
      case RowSeen => s.(phases := s.phases[i := if TombstoneDiscards(s.key, ops[i]) then Done else Checked])
      case Checked => State(Stored(ops[i]), s.phases[i := Done])
      case Done => s
  }

  function Run(key: KeyState, ops: seq<Op>, moves: seq<nat>): (s: State)
    ensures Fits(ops, s)
  {
    if moves == [] then Start(key, ops) else Step(ops, Run(key, ops, moves[..|moves| - 1]), moves[|moves| - 1])
  }

  predicate Ended(s: State) { forall i | 0 <= i < |s.phases| :: s.phases[i] == Done }

  // ---- one after another is one of the ways ----

  ghost predicate Reachable(key: KeyState, ops: seq<Op>, s: State) {
    exists moves :: Run(key, ops, moves) == s
  }

  lemma Reach(key: KeyState, ops: seq<Op>, s: State, i: nat)
    requires Fits(ops, s) && Reachable(key, ops, s)
    ensures Reachable(key, ops, Step(ops, s, i))
  {
    var moves :| Run(key, ops, moves) == s;
    assert (moves + [i])[..|moves|] == moves;
    assert Run(key, ops, moves + [i]) == Step(ops, s, i);
  }

  // A delivery that nothing overlaps does what Deliver says.
  lemma Alone(key: KeyState, ops: seq<Op>, s: State, i: nat)
    requires Fits(ops, s) && Reachable(key, ops, s) && i < |ops| && s.phases[i] == Waiting
    ensures Reachable(key, ops, State(Deliver(s.key, ops[i]), s.phases[i := Done]))
  {
    var t := Step(ops, s, i);
    var u := Step(ops, t, i);
    var v := Step(ops, u, i);
    Reach(key, ops, s, i);
    Reach(key, ops, t, i);
    Reach(key, ops, u, i);
    assert v.phases == s.phases[i := Done];
    assert v == State(Deliver(s.key, ops[i]), s.phases[i := Done]);
  }

  /** Deliveries one after another are among the runs. */
  lemma {:induction false} InTurnIsRun(key: KeyState, ops: seq<Op>, n: nat) returns (s: State)
    requires n <= |ops|
    ensures Fits(ops, s) && Reachable(key, ops, s) && s.key == Replay(key, ops[..n])
    ensures forall i | 0 <= i < |ops| :: s.phases[i] == if i < n then Done else Waiting
  {
    if n == 0 {
      s := Start(key, ops);
      assert Run(key, ops, []) == s;
    } else {
      s := InTurnIsRun(key, ops, n - 1);
      Alone(key, ops, s, n - 1);
      assert ops[..n][..n - 1] == ops[..n - 1];
      s := State(Deliver(s.key, ops[n - 1]), s.phases[n - 1 := Done]);
    }
  }

  // ---- exactly when all runs agree ----

  /** All ended runs leave the same visible row. */
  ghost predicate Converges(ops: seq<Op>) {
    forall a, b | Ended(Run(EMPTY, ops, a)) && Ended(Run(EMPTY, ops, b)) ::
      Run(EMPTY, ops, a).key.row == Run(EMPTY, ops, b).key.row
  }

  /** All deliveries have the same visible effect: they are one put, or all deletes. */
  ghost predicate OneEffect(ops: seq<Op>) {
    forall i, j | 0 <= i < |ops| && 0 <= j < |ops| :: Effect(ops[i]) == Effect(ops[j])
  }

  /** With overlapping deliveries, all runs agree if and only if all deliveries have the same visible
      effect: a strictly newest operation is not enough, since an older one may have passed its
      checks before the newest wrote. */
  lemma ConvergesExactly(ops: seq<Op>)
    ensures Converges(ops) <==> OneEffect(ops)
  {
    if OneEffect(ops) {
      forall a, b | Ended(Run(EMPTY, ops, a)) && Ended(Run(EMPTY, ops, b))
        ensures Run(EMPTY, ops, a).key.row == Run(EMPTY, ops, b).key.row
      {
        OneEffectStays(ops, a);
        OneEffectStays(ops, b);
      }
    } else {
      var i, j :| 0 <= i < |ops| && 0 <= j < |ops| && Effect(ops[i]) != Effect(ops[j]);
      var s := LastToWrite(ops, i);
      var t := LastToWrite(ops, j);
      var a :| Run(EMPTY, ops, a) == s;
      var b :| Run(EMPTY, ops, b) == t;
    }
  }

  // With one effect, the row is that effect as soon as one delivery is done.
  lemma {:induction false} OneEffectStays(ops: seq<Op>, moves: seq<nat>)
    requires OneEffect(ops)
    ensures var s := Run(EMPTY, ops, moves);
      && (s.key.row.None? || (ops != [] && s.key.row == Effect(ops[0])))
      && (ops != [] && ops[0].Put? ==> s.key.tombstone.None?)
      && forall i | 0 <= i < |ops| && s.phases[i] == Done :: s.key.row == Effect(ops[i])
  {
    if moves != [] {
      var s, m := Run(EMPTY, ops, moves[..|moves| - 1]), moves[|moves| - 1];
      OneEffectStays(ops, moves[..|moves| - 1]);
      if m < |ops| {
        assert Effect(ops[m]) == Effect(ops[0]);
      }
    }
  }

  // All deliveries check an empty key before any of them writes.
  lemma {:induction false} AllCheck(ops: seq<Op>, n: nat) returns (s: State)
    requires n <= |ops|
    ensures Fits(ops, s) && Reachable(EMPTY, ops, s) && s.key == EMPTY
    ensures forall i | 0 <= i < |ops| :: s.phases[i] == if i < n then Checked else Waiting
  {
    if n == 0 {
      s := Start(EMPTY, ops);
      assert Run(EMPTY, ops, []) == s;
    } else {
      s := AllCheck(ops, n - 1);
      Reach(EMPTY, ops, s, n - 1);
      Reach(EMPTY, ops, Step(ops, s, n - 1), n - 1);
      s := Step(ops, Step(ops, s, n - 1), n - 1);
    }
  }

  lemma {:induction false} OthersWrite(ops: seq<Op>, last: nat, n: nat) returns (s: State)
    requires n <= |ops| && last < |ops|
    ensures Fits(ops, s) && Reachable(EMPTY, ops, s)
    ensures forall i | 0 <= i < |ops| :: s.phases[i] == if i < n && i != last then Done else Checked
  {
    if n == 0 {
      s := AllCheck(ops, |ops|);
    } else {
      s := OthersWrite(ops, last, n - 1);
      if n - 1 != last {
        Reach(EMPTY, ops, s, n - 1);
        s := Step(ops, s, n - 1);
      }
    }
  }

  // Whichever delivery writes last decides.
  lemma LastToWrite(ops: seq<Op>, last: nat) returns (s: State)
    requires last < |ops|
    ensures Reachable(EMPTY, ops, s) && Ended(s) && s.key.row == Effect(ops[last])
  {
    s := OthersWrite(ops, last, |ops|);
    Reach(EMPTY, ops, s, last);
    s := Step(ops, s, last);
  }

  // ---- when the newest operation decides ----

  ghost predicate NewestOf(ops: seq<Op>, top: Op) {
    forall o | o in ops :: Less(o.hlc, top.hlc) || o == top
  }

  /** No delivery of another operation is between its first read and its write. */
  ghost predicate Quiet(ops: seq<Op>, s: State, top: Op)
    requires Fits(ops, s)
  {
    forall i | 0 <= i < |ops| && ops[i] != top :: s.phases[i] == Waiting || s.phases[i] == Done
  }

  ghost predicate Writes(ops: seq<Op>, s: State, i: nat, top: Op)
    requires Fits(ops, s)
  {
    i < |ops| && ops[i] == top && s.phases[i] == Checked
  }

  /** The newest operation is in place, and no other delivery has passed what would stop it. */
  ghost predicate Settled(ops: seq<Op>, s: State, top: Op)
    requires Fits(ops, s)
  {
    && s.key == Stored(top)
    && forall i | 0 <= i < |ops| && ops[i] != top :: s.phases[i] != Checked && (s.phases[i] == RowSeen ==> top.Delete?)
  }

  lemma StepKeepsSettled(ops: seq<Op>, s: State, i: nat, top: Op)
    requires Fits(ops, s) && NewestOf(ops, top) && Settled(ops, s, top)
    ensures Settled(ops, Step(ops, s, i), top)
  {
    if i < |ops| {
      assert ops[i] in ops;
    }
  }

  /** In every run, from the moment a delivery of the newest operation writes while no delivery of
      another is between its check and its write, the visible row is the newest operation's effect. */
  lemma {:induction false} NewestDecides(key: KeyState, ops: seq<Op>, moves: seq<nat>, top: Op, i: nat, j: nat)
    requires NewestOf(ops, top) && i < j <= |moves|
    requires Writes(ops, Run(key, ops, moves[..i]), moves[i], top) && Quiet(ops, Run(key, ops, moves[..i]), top)
    ensures Settled(ops, Run(key, ops, moves[..j]), top) && Run(key, ops, moves[..j]).key.row == Effect(top)
  {
    assert moves[..j][..j - 1] == moves[..j - 1];
    if j == i + 1 {
      assert moves[..j][..i] == moves[..i];
    } else {
      NewestDecides(key, ops, moves, top, i, j - 1);
      StepKeepsSettled(ops, Run(key, ops, moves[..j - 1]), moves[j - 1], top);
    }
  }

  /** Everything the key holds is older, and no delivery of the newest operation is done. */
  ghost predicate Unwritten(ops: seq<Op>, s: State, top: Op)
    requires Fits(ops, s)
  {
    Older(s.key, top.hlc) && forall i | 0 <= i < |ops| && ops[i] == top :: s.phases[i] != Done
  }

  lemma StepKeepsUnwritten(ops: seq<Op>, s: State, i: nat, top: Op)
    requires Fits(ops, s) && NewestOf(ops, top) && Unwritten(ops, s, top) && !Writes(ops, s, i, top)
    ensures Unwritten(ops, Step(ops, s, i), top)
  {
    if i < |ops| {
      assert ops[i] in ops;
    }
  }

  lemma {:induction false} UnwrittenUntilWrites(key: KeyState, ops: seq<Op>, moves: seq<nat>, top: Op, n: nat)
    requires NewestOf(ops, top) && Older(key, top.hlc) && n <= |moves|
    requires forall i | 0 <= i < |moves| :: !Writes(ops, Run(key, ops, moves[..i]), moves[i], top)
    ensures Unwritten(ops, Run(key, ops, moves[..n]), top)
  {
    if n > 0 {
      UnwrittenUntilWrites(key, ops, moves, top, n - 1);
      assert moves[..n][..n - 1] == moves[..n - 1];
      StepKeepsUnwritten(ops, Run(key, ops, moves[..n - 1]), moves[n - 1], top);
    }
  }

  // In every ended run that delivers the newest operation, a delivery of it writes.
  lemma NewestWrites(key: KeyState, ops: seq<Op>, moves: seq<nat>, top: Op)
    requires NewestOf(ops, top) && top in ops && Older(key, top.hlc)
    requires Ended(Run(key, ops, moves))
    ensures exists i :: 0 <= i < |moves| && Writes(ops, Run(key, ops, moves[..i]), moves[i], top)
  {
    assert moves[..|moves|] == moves;
    var i :| 0 <= i < |ops| && ops[i] == top;
    assert !Unwritten(ops, Run(key, ops, moves), top);
    if !exists i :: 0 <= i < |moves| && Writes(ops, Run(key, ops, moves[..i]), moves[i], top) {
      UnwrittenUntilWrites(key, ops, moves, top, |moves|);
    }
  }

  /** In every ended run in which no delivery of another operation is between its check and its write
      whenever the newest operation is written, the newest operation decides the visible row. */
  lemma NewestWins(key: KeyState, ops: seq<Op>, moves: seq<nat>, top: Op)
    requires NewestOf(ops, top) && top in ops && Older(key, top.hlc) && Ended(Run(key, ops, moves))
    requires forall i | 0 <= i < |moves| && Writes(ops, Run(key, ops, moves[..i]), moves[i], top) ::
      Quiet(ops, Run(key, ops, moves[..i]), top)
    ensures Run(key, ops, moves).key.row == Effect(top)
  {
    NewestWrites(key, ops, moves, top);
    var i :| 0 <= i < |moves| && Writes(ops, Run(key, ops, moves[..i]), moves[i], top);
    NewestDecides(key, ops, moves, top, i, |moves|);
    assert moves[..|moves|] == moves;
  }
}
