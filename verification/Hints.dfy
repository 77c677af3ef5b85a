/** Hinted writes and deletes applied with last-write-wins (healing_service.rs
    apply_hint_object, apply_hint_delete), and what is left of a key when deliveries
    are made one after another. */
module Hints {
  import opened Common
  import opened HybridClock

  /** Bucket and object key. */
  type Key = (string, string)
  type Value = seq<bv8>

  datatype Row = Row(hlc: Hlc, value: Value)

  /** What the metadata store holds for one key. */
  datatype KeyState = KeyState(row: Option<Row>, tombstone: Option<Hlc>)

  datatype Op = Put(hlc: Hlc, value: Value) | Delete(hlc: Hlc)

  /** A newer row or a newer tombstone discards a write. */
  predicate DiscardsPut(s: KeyState, hlc: Hlc) {
    || (s.row.Some? && Less(hlc, s.row.value.hlc))
    || (s.tombstone.Some? && Less(hlc, s.tombstone.value))
  }

  /** What the store's own write leaves, whatever was there: a row without its stale tombstone, or a
      tombstone without a row. The store makes no check of its own. */
  function Stored(op: Op): KeyState {
    match op
    case Put(hlc, value) => KeyState(Some(Row(hlc, value)), None)
    case Delete(hlc) => KeyState(None, Some(hlc))
  }

  /** What the writes of other deliveries leave. */
  function After(s: KeyState, writes: seq<Op>): KeyState {
    if writes == [] then s else Stored(writes[|writes| - 1])
  }

  /** A newer row or a tombstone at least as new discards a delete. */
  predicate DiscardsDelete(s: KeyState, hlc: Hlc) {
    || (s.row.Some? && Less(hlc, s.row.value.hlc))
    || (s.tombstone.Some? && !Less(s.tombstone.value, hlc))
  }

  predicate Discards(s: KeyState, op: Op) {
    if op.Put? then DiscardsPut(s, op.hlc) else DiscardsDelete(s, op.hlc)
  }

  /** A delivery that nothing overlaps: checked, and then written. */
  function Deliver(s: KeyState, op: Op): KeyState {
    if Discards(s, op) then s else Stored(op)
  }

  /** The key's state after deliveries made one after another. */
  function Replay(s: KeyState, ops: seq<Op>): KeyState {
    if ops == [] then s else Deliver(Replay(s, ops[..|ops| - 1]), ops[|ops| - 1])
  }

  /** What a reader sees if this operation alone had happened. */
  function Effect(op: Op): Option<Row> {
    if op.Put? then Some(Row(op.hlc, op.value)) else None
  }

  const EMPTY: KeyState := KeyState(None, None)

  // ---- the largest timestamp wins ----

  /** Everything the key holds is older than h. */
  ghost predicate Older(s: KeyState, h: Hlc) {
    && (s.row.Some? ==> Less(s.row.value.hlc, h))
    && (s.tombstone.Some? ==> Less(s.tombstone.value, h))
  }

  /** The key holds the effect of this operation and nothing newer. */
  ghost predicate Holds(s: KeyState, op: Op) {
    && s.row == Effect(op)
    && if op.Put? then s.tombstone.Some? ==> Less(s.tombstone.value, op.hlc) else s.tombstone == Some(op.hlc)
  }

  ghost predicate Top(ops: seq<Op>, top: Op) {
    top in ops && forall o | o in ops :: Less(o.hlc, top.hlc) || o == top
  }

  lemma DeliverKeepsTop(s: KeyState, o: Op, top: Op)
    requires Less(o.hlc, top.hlc) || o == top
    ensures Holds(s, top) ==> Holds(Deliver(s, o), top)
    ensures Older(s, top.hlc) ==> if o == top then Holds(Deliver(s, o), top) else Older(Deliver(s, o), top.hlc)
  {
  }

  lemma {:induction false} ReplayHoldsTop(s: KeyState, ops: seq<Op>, top: Op)
    requires Older(s, top.hlc)
    requires forall o | o in ops :: Less(o.hlc, top.hlc) || o == top
    ensures if top in ops then Holds(Replay(s, ops), top) else Older(Replay(s, ops), top.hlc)
  {
    if ops != [] {
      var rest, last := ops[..|ops| - 1], ops[|ops| - 1];
      assert ops == rest + [last];
      ReplayHoldsTop(s, rest, top);
      DeliverKeepsTop(Replay(s, rest), last, top);
    }
  }

  /** One delivery at a time, in whatever order and however often each operation comes, the visible
      row is the effect of the operation with the largest timestamp. */
  lemma InTurnLargestWins(s: KeyState, ops: seq<Op>, top: Op)
    requires Older(s, top.hlc) && Top(ops, top)
    ensures Replay(s, ops).row == Effect(top)
  {
    ReplayHoldsTop(s, ops, top);
  }

  // ---- exactly when every order agrees ----

  ghost function Elements(ops: seq<Op>): set<Op> {
    set o | o in ops
  }

  /** Every order of exactly these operations, one at a time, ends with the same visible row. */
  ghost predicate ConvergesInTurn(ops: set<Op>) {
    forall a, b | Elements(a) == ops && Elements(b) == ops :: Replay(EMPTY, a).row == Replay(EMPTY, b).row
  }

  /** One operation is newer than all the others. */
  ghost predicate Newest(ops: set<Op>, top: Op) {
    top in ops && forall o | o in ops :: Less(o.hlc, top.hlc) || o == top
  }

  // Nothing the key holds is newer than h, and it never holds both a row and a tombstone.
  ghost predicate NotNewer(s: KeyState, h: Hlc) {
    && (s.row.Some? ==> !Less(h, s.row.value.hlc))
    && (s.tombstone.Some? ==> !Less(h, s.tombstone.value))
    && (s.row.None? || s.tombstone.None?)
  }

  lemma {:induction false} ReplayNotNewer(ops: seq<Op>, h: Hlc)
    requires forall o | o in ops :: !Less(h, o.hlc)
    ensures NotNewer(Replay(EMPTY, ops), h)
  {
    if ops != [] {
      var rest, last := ops[..|ops| - 1], ops[|ops| - 1];
      assert ops == rest + [last];
      ReplayNotNewer(rest, h);
    }
  }

  // Among operations with the largest timestamp, the last one delivered is what stays.
  lemma LastOfLargestStays(ops: seq<Op>, last: Op)
    requires forall o | o in ops :: !Less(last.hlc, o.hlc)
    ensures Replay(EMPTY, ops + [last]).row == Effect(last)
  {
    ReplayNotNewer(ops, last.hlc);
    assert (ops + [last])[..|ops|] == ops;
  }

  lemma {:induction false} SomeLargest(ops: set<Op>) returns (m: Op)
    requires ops != {}
    ensures m in ops && forall o | o in ops :: !Less(m.hlc, o.hlc)
    decreases ops
  {
    var x :| x in ops;
    m := x;
    if ops != {x} {
      var y := SomeLargest(ops - {x});
      if Less(x.hlc, y.hlc) {
        m := y;
      }
    }
  }

  lemma {:induction false} SomeSchedule(ops: set<Op>) returns (s: seq<Op>)
    ensures Elements(s) == ops
    decreases ops
  {
    s := [];
    if ops != {} {
      var x :| x in ops;
      var rest := SomeSchedule(ops - {x});
      s := rest + [x];
      assert Elements(s) == Elements(rest) + {x};
    }
  }

  /** All orders agree if and only if one operation is newer than all the others: a tie for
      the largest timestamp is decided by the order of delivery. */
  lemma InTurnConvergesExactly(ops: set<Op>)
    requires ops != {}
    ensures ConvergesInTurn(ops) <==> exists top :: Newest(ops, top)
  {
    if top :| Newest(ops, top) {
      NewestConverges(ops, top);
    } else {
      var m := SomeLargest(ops);
      assert !Newest(ops, m);
      var m' :| m' in ops && !Less(m'.hlc, m.hlc) && m' != m;
      InTurnTieDiverges(ops, m, m');
    }
  }

  lemma NewestConverges(ops: set<Op>, top: Op)
    requires Newest(ops, top)
    ensures ConvergesInTurn(ops)
  {
    forall a | Elements(a) == ops ensures Replay(EMPTY, a).row == Effect(top) {
      assert forall o :: o in a <==> o in Elements(a);
      InTurnLargestWins(EMPTY, a, top);
    }
  }

  lemma InTurnTieDiverges(ops: set<Op>, m: Op, m': Op)
    requires m in ops && m' in ops && m != m' && !Less(m'.hlc, m.hlc)
    requires forall o | o in ops :: !Less(m.hlc, o.hlc)
    ensures !ConvergesInTurn(ops)
  {
    assert m.hlc == m'.hlc;
    var base := SomeSchedule(ops);
    assert forall o :: o in base <==> o in Elements(base);
    var a, b := base + [m], base + [m'];
    LastOfLargestStays(base, m);
    LastOfLargestStays(base, m');
    assert Elements(a) == ops && Elements(b) == ops;
    assert Effect(m) != Effect(m');
  }

  // ---- the store ----

  class MetadataStore {
    var rows: map<Key, Row>
    var tombstones: map<Key, Hlc>

    constructor ()
      ensures rows == map[] && tombstones == map[]
    {
      rows, tombstones := map[], map[];
    }

    function View(k: Key): KeyState
      reads this
    {
      KeyState(if k in rows then Some(rows[k]) else None,
               if k in tombstones then Some(tombstones[k]) else None)
    }

    /** What other deliveries write to a key while one is between its check and its write. */
    method Meanwhile(k: Key, writes: seq<Op>)
      modifies this
      ensures View(k) == After(old(View(k)), writes)
      ensures rows - {k} == old(rows - {k}) && tombstones - {k} == old(tombstones - {k})
    {
      if writes != [] {
        Write(k, writes[|writes| - 1]);
      }
    }

    /** The store's own write. */
    method Write(k: Key, op: Op)
      modifies this
      ensures View(k) == Stored(op)
      ensures rows - {k} == old(rows - {k}) && tombstones - {k} == old(tombstones - {k})
    {
      match op
      case Put(hlc, value) =>
        rows := rows[k := Row(hlc, value)];
        tombstones := tombstones - {k};
      case Delete(hlc) =>
        rows := rows - {k};
        tombstones := tombstones[k := hlc];
    }

    /** Applies a delayed write: checked first, stored after whatever others have written since. The
        result is false only when the store's own write failed: a discarded hint counts as applied. */
    method ApplyHintObject(k: Key, hlc: Hlc, value: Value, others: seq<Op>, writes: bool) returns (applied: bool)
      modifies this
      ensures DiscardsPut(old(View(k)), hlc) ==> applied && View(k) == old(View(k))
      ensures !DiscardsPut(old(View(k)), hlc) ==>
        applied == writes && View(k) == if writes then Stored(Put(hlc, value)) else After(old(View(k)), others)
      ensures rows - {k} == old(rows - {k}) && tombstones - {k} == old(tombstones - {k})
    {
      if k in rows && Less(hlc, rows[k].hlc) {
        return true;
      }
      if k in tombstones && Less(hlc, tombstones[k]) {
        return true;
      }
      Meanwhile(k, others);
      applied := writes;
      if writes {
        Write(k, Put(hlc, value));
      }
    }

    /** Applies a delayed delete, likewise. */
    method ApplyHintDelete(k: Key, hlc: Hlc, others: seq<Op>, writes: bool) returns (applied: bool)
      modifies this
      ensures DiscardsDelete(old(View(k)), hlc) ==> applied && View(k) == old(View(k))
      ensures !DiscardsDelete(old(View(k)), hlc) ==>
        applied == writes && View(k) == if writes then Stored(Delete(hlc)) else After(old(View(k)), others)
      ensures rows - {k} == old(rows - {k}) && tombstones - {k} == old(tombstones - {k})
    {
      if k in rows && Less(hlc, rows[k].hlc) {
        return true;
      }
      if k in tombstones && !Less(tombstones[k], hlc) {
        return true;
      }
      Meanwhile(k, others);
      applied := writes;
      if writes {
        Write(k, Delete(hlc));
      }
    }

    /** Delivers operations on one key, one after another, to a store whose writes succeed. */
    method DeliverInTurn(k: Key, ops: seq<Op>)
      modifies this
      ensures View(k) == Replay(old(View(k)), ops)
      ensures rows - {k} == old(rows - {k}) && tombstones - {k} == old(tombstones - {k})
    {
      for i := 0 to |ops|
        invariant View(k) == Replay(old(View(k)), ops[..i])
        invariant rows - {k} == old(rows - {k}) && tombstones - {k} == old(tombstones - {k})
      {
        assert ops[..i + 1][..i] == ops[..i];
        if ops[i].Put? {
          var applied := ApplyHintObject(k, ops[i].hlc, ops[i].value, [], true);
        } else {
          var applied := ApplyHintDelete(k, ops[i].hlc, [], true);
        }
      }
      assert ops[..|ops|] == ops;
    }
  }
}
