/** The batched hinted-handoff receiver: which hints of a batch count as accepted and which
    are sent back for retry (healing_service.rs hinted_handoff). Stores, the relay buffer,
    the network and task failures appear as outcomes. */
module Handoff {
  import opened Common

  datatype Kind = Inline | SegmentRef | Delete | Missing

  /** One hint: what it carries, whether this node is its target, and whether the local apply
      or the relay buffering it leads to succeeds. */
  datatype Hint = Hint(kind: Kind, local: bool, succeeds: bool)

  datatype Verdict = Accepted | Retried | Deferred

  /** The first pass over the batch. `reachable`: an origin address and a fetcher are present. */
  function FirstPass(h: Hint, reachable: bool): Verdict {
    match h.kind
    case Inline => if h.succeeds then Accepted else Retried
    case SegmentRef =>
      if h.local then (if reachable then Deferred else Retried)
      else if h.succeeds then Accepted else Retried
    case Delete => if h.local && h.succeeds then Accepted else Retried
    case Missing => Retried
  }

  /** How a deferred fetch ends. A panic loses the index of its hint. */
  datatype Fetch = Fetched(applied: bool) | Absent | Failed | Panicked

  datatype Join = Join(index: nat, fetch: Fetch)

  predicate Resolves(f: Fetch) {
    f == Fetched(true) || f == Absent
  }

  /** A segment reference for this node whose object can be fetched from its origin. */
  ghost predicate IsDeferred(hints: seq<Hint>, reachable: bool, i: nat) {
    i < |hints| && hints[i].kind == SegmentRef && hints[i].local && reachable
  }

  /** The tasks finish in any order, each once. */
  ghost predicate Completes(joins: seq<Join>, hints: seq<Hint>, reachable: bool) {
    && (forall a, b | 0 <= a < b < |joins| :: joins[a].index != joins[b].index)
    && (forall a | 0 <= a < |joins| :: IsDeferred(hints, reachable, joins[a].index))
    && (forall i | IsDeferred(hints, reachable, i) :: exists a :: 0 <= a < |joins| && joins[a].index == i)
  }

  /** The hint's own effect succeeded, and it may take effect here: an inline hint is applied or
      buffered, a segment reference for another node is buffered, a delete for this node is applied. */
  ghost predicate TookEffect(h: Hint) {
    h.succeeds && (h.kind == Inline || (h.kind == SegmentRef && !h.local) || (h.kind == Delete && h.local))
  }

  /** The hint took effect, or its object was fetched and applied, or found to be gone. */
  ghost predicate Settled(hints: seq<Hint>, joins: seq<Join>, i: nat)
    requires i < |hints|
  {
    || TookEffect(hints[i])
    || exists a :: 0 <= a < |joins| && joins[a].index == i && (joins[a].fetch == Fetched(true) || joins[a].fetch == Absent)
  }

  lemma AcceptedTookEffect(h: Hint, reachable: bool)
    ensures FirstPass(h, reachable) == Accepted <==> TookEffect(h)
    ensures FirstPass(h, reachable) == Deferred <==> h.kind == SegmentRef && h.local && reachable
  {
  }

  ghost function Panics(joins: seq<Join>): nat {
    if joins == [] then 0
    else Panics(joins[..|joins| - 1]) + if joins[|joins| - 1].fetch.Panicked? then 1 else 0
  }

  // ---- counting settled hints ----

  ghost function SettledSet(hints: seq<Hint>, joins: seq<Join>): set<nat> {
    set i | 0 <= i < |hints| && Settled(hints, joins, i)
  }

  // Each join settles at most one more hint, its own.
  lemma SettledStep(hints: seq<Hint>, reachable: bool, joins: seq<Join>, j: nat)
    requires Completes(joins, hints, reachable) && j < |joins|
    ensures joins[j].index !in SettledSet(hints, joins[..j])
    ensures SettledSet(hints, joins[..j + 1])
         == SettledSet(hints, joins[..j]) + if Resolves(joins[j].fetch) then {joins[j].index} else {}
  {
    var a, b := joins[..j], joins[..j + 1];
    assert forall t | 0 <= t < j :: a[t] == joins[t] == b[t];
    assert b[j] == joins[j];
    forall i | 0 <= i < |hints|
      ensures Settled(hints, b, i) <==>
        Settled(hints, a, i) || (i == joins[j].index && Resolves(joins[j].fetch))
    {
      if t :| 0 <= t < |b| && b[t].index == i && Resolves(b[t].fetch) {
        assert t < j ==> a[t].index == i;
      }
      if t :| 0 <= t < |a| && a[t].index == i && Resolves(a[t].fetch) {
        assert b[t].index == i;
      }
    }
  }

  ghost function Below(n: nat): set<nat> {
    if n == 0 then {} else Below(n - 1) + {n - 1}
  }

  lemma {:induction false} BelowCount(n: nat)
    ensures |Below(n)| == n
    ensures forall i: nat :: i in Below(n) <==> i < n
  {
    if n > 0 {
      BelowCount(n - 1);
    }
  }

  lemma AllOrLess(s: set<nat>, n: nat)
    requires s <= Below(n)
    ensures |s| <= n && (|s| == n <==> s == Below(n))
  {
    BelowCount(n);
    assert |Below(n) - s| == n - |s|;
  }

  lemma {:induction false} SomePanic(joins: seq<Join>)
    requires Panics(joins) > 0
    ensures exists a :: 0 <= a < |joins| && joins[a].fetch.Panicked?
  {
    var rest, last := joins[..|joins| - 1], joins[|joins| - 1];
    if last.fetch.Panicked? {
      assert joins[|joins| - 1].fetch.Panicked?;
    } else {
      SomePanic(rest);
      var a :| 0 <= a < |rest| && rest[a].fetch.Panicked?;
      assert joins[a].fetch.Panicked?;
    }
  }

  // ---- the handler ----

  datatype Response = Response(accepted: bool, acceptedCount: nat, retryIndices: seq<nat>)

  ghost predicate Has(hints: seq<Hint>, reachable: bool, i: nat, t: nat, v: Verdict)
    requires i <= |hints|
  {
    t < i && FirstPass(hints[t], reachable) == v
  }

  /** How many of the first i hints have this verdict. */
  ghost function Tally(hints: seq<Hint>, reachable: bool, i: nat, v: Verdict): nat
    requires i <= |hints|
  {
    if i == 0 then 0 else Tally(hints, reachable, i - 1, v) + if FirstPass(hints[i - 1], reachable) == v then 1 else 0
  }

  ghost function Having(hints: seq<Hint>, reachable: bool, i: nat, v: Verdict): set<nat>
    requires i <= |hints|
  {
    if i == 0 then {}
    else if FirstPass(hints[i - 1], reachable) == v then Having(hints, reachable, i - 1, v) + {i - 1}
    else Having(hints, reachable, i - 1, v)
  }

  lemma {:induction false} HavingIs(hints: seq<Hint>, reachable: bool, i: nat, v: Verdict, t: nat)
    requires i <= |hints|
    ensures t in Having(hints, reachable, i, v) <==> Has(hints, reachable, i, t, v)
  {
    if i > 0 {
      HavingIs(hints, reachable, i - 1, v, t);
    }
  }

  lemma {:induction false} TallyIsCount(hints: seq<Hint>, reachable: bool, i: nat, v: Verdict)
    requires i <= |hints|
    ensures Tally(hints, reachable, i, v) == |Having(hints, reachable, i, v)|
  {
    if i > 0 {
      TallyIsCount(hints, reachable, i - 1, v);
      HavingIs(hints, reachable, i - 1, v, i - 1);
    }
  }

  /** The list holds exactly the first i hints with this verdict, each once. */
  ghost predicate ListsVerdict(s: seq<nat>, hints: seq<Hint>, reachable: bool, i: nat, v: Verdict)
    requires i <= |hints|
  {
    && Distinct(s) && |s| == Tally(hints, reachable, i, v)
    && forall t: nat :: t in s <==> Has(hints, reachable, i, t, v)
  }

  /** The first pass: accept, report for retry, or defer. */
  method Pass(hints: seq<Hint>, reachable: bool) returns (count: nat, retry: seq<nat>, pending: seq<nat>)
    ensures count == Tally(hints, reachable, |hints|, Accepted)
    ensures ListsVerdict(retry, hints, reachable, |hints|, Retried)
    ensures ListsVerdict(pending, hints, reachable, |hints|, Deferred)
    ensures count + |retry| + |pending| == |hints|
    ensures forall t: nat :: t in pending <==> IsDeferred(hints, reachable, t)
    ensures forall t: nat :: t in retry <==> t < |hints| && !TookEffect(hints[t]) && !IsDeferred(hints, reachable, t)
  {
    count, retry, pending := 0, [], [];
    for i := 0 to |hints|
      invariant count == Tally(hints, reachable, i, Accepted)
      invariant ListsVerdict(retry, hints, reachable, i, Retried)
      invariant ListsVerdict(pending, hints, reachable, i, Deferred)
      invariant count + |retry| + |pending| == i
    {
      ListsStep(retry, hints, reachable, i, Retried);
      ListsStep(pending, hints, reachable, i, Deferred);
      match FirstPass(hints[i], reachable) {
        case Accepted => count := count + 1;
        case Retried => retry := retry + [i];
        case Deferred => pending := pending + [i];
      }
    }
    PassedByFields(hints, reachable, retry, pending);
  }

  lemma PassedByFields(hints: seq<Hint>, reachable: bool, retry: seq<nat>, pending: seq<nat>)
    requires ListsVerdict(retry, hints, reachable, |hints|, Retried)
    requires ListsVerdict(pending, hints, reachable, |hints|, Deferred)
    ensures forall t: nat :: t in pending <==> IsDeferred(hints, reachable, t)
    ensures forall t: nat :: t in retry <==> t < |hints| && !TookEffect(hints[t]) && !IsDeferred(hints, reachable, t)
  {
    forall t: nat
      ensures t in pending <==> IsDeferred(hints, reachable, t)
      ensures t in retry <==> t < |hints| && !TookEffect(hints[t]) && !IsDeferred(hints, reachable, t)
    {
      assert t in pending <==> Has(hints, reachable, |hints|, t, Deferred);
      assert t in retry <==> Has(hints, reachable, |hints|, t, Retried);
      if t < |hints| {
        AcceptedTookEffect(hints[t], reachable);
      }
    }
  }

  lemma ListsStep(s: seq<nat>, hints: seq<Hint>, reachable: bool, i: nat, v: Verdict)
    requires i < |hints| && ListsVerdict(s, hints, reachable, i, v)
    ensures ListsVerdict(if FirstPass(hints[i], reachable) == v then s + [i] else s, hints, reachable, i + 1, v)
  {
    assert i !in s by { assert !Has(hints, reachable, i, i, v); }
    forall t: nat
      ensures Has(hints, reachable, i + 1, t, v) <==> Has(hints, reachable, i, t, v) || (t == i && FirstPass(hints[i], reachable) == v)
    {
    }
  }

  /** What the retry list holds after the first j joins. */
  ghost predicate Reported(hints: seq<Hint>, reachable: bool, joins: seq<Join>, j: nat, retry: seq<nat>)
    requires j <= |joins|
  {
    && (forall t | t in retry :: t < |hints|)
    && (forall t | 0 <= t < |hints| && FirstPass(hints[t], reachable) == Retried :: t in retry)
    && (forall a | 0 <= a < j && !Resolves(joins[a].fetch) :: joins[a].index in retry)
  }

  /** Without a panic, nothing else and nothing twice. */
  ghost predicate ReportedOnce(hints: seq<Hint>, reachable: bool, joins: seq<Join>, j: nat, retry: seq<nat>)
    requires j <= |joins|
  {
    && Distinct(retry)
    && forall t | t in retry :: t < |hints| &&
         (FirstPass(hints[t], reachable) == Retried
         || exists a :: 0 <= a < j && joins[a].index == t && !Resolves(joins[a].fetch))
  }

  lemma ReportedStart(hints: seq<Hint>, reachable: bool, joins: seq<Join>, retry: seq<nat>)
    requires ListsVerdict(retry, hints, reachable, |hints|, Retried)
    ensures Reported(hints, reachable, joins, 0, retry) && ReportedOnce(hints, reachable, joins, 0, retry)
    ensures Tally(hints, reachable, |hints|, Accepted) == |SettledSet(hints, joins[..0])|
  {
    forall t | t in retry ensures t < |hints| && FirstPass(hints[t], reachable) == Retried {
      assert Has(hints, reachable, |hints|, t, Retried);
    }
    forall t | 0 <= t < |hints| && FirstPass(hints[t], reachable) == Retried ensures t in retry {
      assert Has(hints, reachable, |hints|, t, Retried);
    }
    TallyIsCount(hints, reachable, |hints|, Accepted);
    forall t: nat ensures t in SettledSet(hints, joins[..0]) <==> t in Having(hints, reachable, |hints|, Accepted) {
      HavingIs(hints, reachable, |hints|, Accepted, t);
    }
    assert SettledSet(hints, joins[..0]) == Having(hints, reachable, |hints|, Accepted);
  }

  /** The second pass: fetched hints are applied as their tasks finish. */
  method JoinAll(hints: seq<Hint>, reachable: bool, joins: seq<Join>, count0: nat, retry0: seq<nat>, pending: seq<nat>)
    returns (count: nat, retry: seq<nat>)
    requires Completes(joins, hints, reachable)
    requires ListsVerdict(pending, hints, reachable, |hints|, Deferred)
    requires count0 == |SettledSet(hints, joins[..0])|
    requires Reported(hints, reachable, joins, 0, retry0) && ReportedOnce(hints, reachable, joins, 0, retry0)
    ensures count == |SettledSet(hints, joins)|
    ensures Reported(hints, reachable, joins, |joins|, retry)
    ensures Panics(joins) == 0 ==> ReportedOnce(hints, reachable, joins, |joins|, retry)
    ensures count + |retry| == count0 + |retry0| + |joins| + Panics(joins) * (|pending| - 1)
  {
    count, retry := count0, retry0;
    for j := 0 to |joins|
      invariant count == |SettledSet(hints, joins[..j])|
      invariant Reported(hints, reachable, joins, j, retry)
      invariant Panics(joins[..j]) == 0 ==> ReportedOnce(hints, reachable, joins, j, retry)
      invariant count + |retry| == count0 + |retry0| + j + Panics(joins[..j]) * (|pending| - 1)
    {
      SettledStep(hints, reachable, joins, j);
      PanicsStep(joins, j, |pending| - 1);
      if Resolves(joins[j].fetch) {
        count := count + 1;
      } else if joins[j].fetch.Panicked? {
        PendingHasAll(hints, reachable, joins, pending);
        retry := retry + pending;
      } else {
        ReportOne(hints, reachable, joins, j, retry);
        retry := retry + [joins[j].index];
      }
    }
    assert joins[..|joins|] == joins;
  }

  lemma PanicsStep(joins: seq<Join>, j: nat, d: int)
    requires j < |joins|
    ensures Panics(joins[..j + 1]) == Panics(joins[..j]) + if joins[j].fetch.Panicked? then 1 else 0
    ensures Panics(joins[..j + 1]) * d == Panics(joins[..j]) * d + if joins[j].fetch.Panicked? then d else 0
  {
    assert joins[..j + 1][..j] == joins[..j];
  }

  lemma PendingHasAll(hints: seq<Hint>, reachable: bool, joins: seq<Join>, pending: seq<nat>)
    requires Completes(joins, hints, reachable)
    requires ListsVerdict(pending, hints, reachable, |hints|, Deferred)
    ensures forall a | 0 <= a < |joins| :: joins[a].index in pending
    ensures forall t | t in pending :: t < |hints|
  {
    forall a | 0 <= a < |joins| ensures joins[a].index in pending {
      assert Has(hints, reachable, |hints|, joins[a].index, Deferred);
    }
    forall t | t in pending ensures t < |hints| {
      assert Has(hints, reachable, |hints|, t, Deferred);
    }
  }

  lemma ReportOne(hints: seq<Hint>, reachable: bool, joins: seq<Join>, j: nat, retry: seq<nat>)
    requires Completes(joins, hints, reachable) && j < |joins| && !Resolves(joins[j].fetch)
    requires Reported(hints, reachable, joins, j, retry)
    ensures Reported(hints, reachable, joins, j + 1, retry + [joins[j].index])
    ensures ReportedOnce(hints, reachable, joins, j, retry) ==>
      ReportedOnce(hints, reachable, joins, j + 1, retry + [joins[j].index])
  {
    var more := retry + [joins[j].index];
    if ReportedOnce(hints, reachable, joins, j, retry) {
      assert IsDeferred(hints, reachable, joins[j].index);
      assert joins[j].index !in retry;
      forall t | t in more
        ensures t < |hints| && (FirstPass(hints[t], reachable) == Retried
          || exists a :: 0 <= a < j + 1 && joins[a].index == t && !Resolves(joins[a].fetch))
      {
        if t !in retry {
          assert joins[j].index == t;
        }
      }
    }
  }

  /** The whole handler. Every hint is settled or sent back; the two counts add up to the batch
      size plus, for every panic, one less than the number of deferred hints; and the batch is
      acknowledged exactly when every hint is settled. */
  method HintedHandoff(hints: seq<Hint>, hasOrigin: bool, hasFetcher: bool, joins: seq<Join>) returns (response: Response)
    requires Completes(joins, hints, hasOrigin && hasFetcher)
    ensures forall i | 0 <= i < |hints| ::
      Settled(hints, joins, i) || i in response.retryIndices
    ensures forall i | i in response.retryIndices :: i < |hints|
    ensures response.acceptedCount == |SettledSet(hints, joins)|
    ensures response.acceptedCount + |response.retryIndices| == |hints| + Panics(joins) * (|joins| - 1)
    ensures Panics(joins) == 0 ==> Distinct(response.retryIndices)
    ensures Panics(joins) == 0 ==> forall i | 0 <= i < |hints| :: i in response.retryIndices <==> !Settled(hints, joins, i)
    ensures response.accepted <==> response.retryIndices == []
    ensures response.accepted <==> response.acceptedCount == |hints|
  {
    var reachable := hasOrigin && hasFetcher;
    var count, retry, pending := Pass(hints, reachable);
    ReportedStart(hints, reachable, joins, retry);
    PendingHasAll(hints, reachable, joins, pending);
    SameLength(hints, reachable, joins, pending);
    assert pending != [] ==> Has(hints, reachable, |hints|, pending[0], Deferred);
    if pending != [] {
      if !hasOrigin || !hasFetcher {
        // the early return that reports every deferred hint is never taken
        assert false;
      }
      count, retry := JoinAll(hints, reachable, joins, count, retry, pending);
    } else {
      assert joins == [] && joins[..0] == joins;
    }
    UnreportedIsSettled(hints, reachable, joins, retry);
    Acknowledged(hints, reachable, joins, retry, count);
    response := Response(retry == [], count, retry);
  }

  lemma SameLength(hints: seq<Hint>, reachable: bool, joins: seq<Join>, pending: seq<nat>)
    requires Completes(joins, hints, reachable)
    requires ListsVerdict(pending, hints, reachable, |hints|, Deferred)
    ensures |joins| == |pending|
  {
    var indices := seq(|joins|, a requires 0 <= a < |joins| => joins[a].index);
    forall t ensures t in indices <==> t in pending {
      if t in indices {
        var a :| 0 <= a < |indices| && indices[a] == t;
        assert Has(hints, reachable, |hints|, joins[a].index, Deferred);
      }
      if t in pending {
        assert Has(hints, reachable, |hints|, t, Deferred);
        assert IsDeferred(hints, reachable, t);
        var a :| 0 <= a < |joins| && joins[a].index == t;
        assert indices[a] == t;
      }
    }
    DistinctCount(indices);
    DistinctCount(pending);
    assert ToSet(indices) == ToSet(pending);
  }

  ghost function ToSet(s: seq<nat>): set<nat> {
    set t | t in s
  }

  lemma {:induction false} DistinctCount(s: seq<nat>)
    requires Distinct(s)
    ensures |ToSet(s)| == |s|
  {
    if s != [] {
      var rest, last := s[..|s| - 1], s[|s| - 1];
      DistinctCount(rest);
      assert s == rest + [last] && last !in rest;
      assert ToSet(s) == ToSet(rest) + {last};
    }
  }

  lemma UnreportedIsSettled(hints: seq<Hint>, reachable: bool, joins: seq<Join>, retry: seq<nat>)
    requires Completes(joins, hints, reachable) && Reported(hints, reachable, joins, |joins|, retry)
    ensures forall i | 0 <= i < |hints| :: Settled(hints, joins, i) || i in retry
    ensures ReportedOnce(hints, reachable, joins, |joins|, retry) ==>
      forall i | i in retry :: !Settled(hints, joins, i)
  {
    forall i | 0 <= i < |hints| ensures Settled(hints, joins, i) || i in retry {
      if FirstPass(hints[i], reachable) == Deferred {
        assert IsDeferred(hints, reachable, i);
        var a :| 0 <= a < |joins| && joins[a].index == i;
        if !Resolves(joins[a].fetch) {
          assert joins[a].index in retry;
        }
      }
    }
  }

  lemma Acknowledged(hints: seq<Hint>, reachable: bool, joins: seq<Join>, retry: seq<nat>, count: nat)
    requires Completes(joins, hints, reachable)
    requires forall i | 0 <= i < |hints| :: Settled(hints, joins, i) || i in retry
    requires count == |SettledSet(hints, joins)|
    requires count + |retry| == |hints| + Panics(joins) * (|joins| - 1)
    ensures retry == [] <==> count == |hints|
  {
    var done := SettledSet(hints, joins);
    BelowCount(|hints|);
    AllOrLess(done, |hints|);
    if retry == [] {
      assert done == Below(|hints|);
    }
    if Panics(joins) > 0 {
      var i := PanicUnsettled(hints, reachable, joins);
      assert i in Below(|hints|) && i !in done;
    }
  }

  lemma PanicUnsettled(hints: seq<Hint>, reachable: bool, joins: seq<Join>) returns (i: nat)
    requires Completes(joins, hints, reachable) && Panics(joins) > 0
    ensures i < |hints| && !Settled(hints, joins, i)
  {
    SomePanic(joins);
    var a :| 0 <= a < |joins| && joins[a].fetch.Panicked?;
    i := joins[a].index;
    assert IsDeferred(hints, reachable, i);
  }
}
