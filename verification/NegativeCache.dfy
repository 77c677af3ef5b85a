/** The negative cache: per-bucket Bloom filters of absent keys, and a bounded overlay of keys
    written since (l3_negative.rs NegativeCache). */
module NegativeCache {
  import opened Bloom

  type Bucket = string
  type Key = string

  /** `hash` is any hash of bucket and key; a bound of 0 leaves the overlay unbounded. */
  datatype Config = Config(enabled: bool, sizeBytes: nat, hashCount: nat, maxRecentWrites: nat, hash: (Bucket, Key) -> Hashes)

  ghost predicate Sensible(c: Config) { c.sizeBytes > 0 && c.hashCount > 0 }

  ghost function ProbesOf(c: Config, b: Bucket, k: Key): set<nat>
    requires Sensible(c)
  {
    Probes(c.hash(b, k), c.hashCount, 8 * c.sizeBytes)
  }

  // ---- one bucket, as values ----

  datatype Op = Insert(key: Key) | Invalidate(key: Key)

  /** A bucket's set bits and overlay; `inserted` records the keys inserted since the last reset. */
  datatype State = State(bits: set<nat>, recent: set<Key>, inserted: set<Key>)

  const EMPTY: State := State({}, {}, {})

  predicate Overflows(c: Config, s: State, op: Op) {
    c.enabled && op.Invalidate? && c.maxRecentWrites > 0 && |s.recent + {op.key}| > c.maxRecentWrites
  }

  ghost function Apply(c: Config, b: Bucket, s: State, op: Op): State
    requires Sensible(c)
  {
    if !c.enabled then s
    else if Overflows(c, s, op) then EMPTY
    else match op
      case Insert(k) => State(s.bits + ProbesOf(c, b, k), s.recent - {k}, s.inserted + {k})
      case Invalidate(k) => s.(recent := s.recent + {k})
  }

  ghost function Run(c: Config, b: Bucket, s: State, ops: seq<Op>): State
    requires Sensible(c)
  {
    if ops == [] then s else Apply(c, b, Run(c, b, s, ops[..|ops| - 1]), ops[|ops| - 1])
  }

  /** The answer "known absent". */
  ghost predicate Reported(c: Config, b: Bucket, s: State, k: Key)
    requires Sensible(c)
  {
    c.enabled && k !in s.recent && ProbesOf(c, b, k) <= s.bits
  }

  // ---- what the set bits are ----

  /** The bits are exactly those some key inserted since the last reset probes. */
  ghost predicate BitsExplained(c: Config, b: Bucket, s: State)
    requires Sensible(c)
  {
    forall p: nat :: p in s.bits <==> exists k :: k in s.inserted && p in ProbesOf(c, b, k)
  }

  lemma StepKeepsBits(c: Config, b: Bucket, s: State, op: Op)
    requires Sensible(c) && BitsExplained(c, b, s)
    ensures BitsExplained(c, b, Apply(c, b, s, op))
  {
    var t := Apply(c, b, s, op);
    if c.enabled && op.Insert? {
      forall p: nat ensures p in t.bits <==> exists k :: k in t.inserted && p in ProbesOf(c, b, k) {
        if p in s.bits {
          var k :| k in s.inserted && p in ProbesOf(c, b, k);
          assert k in t.inserted;
        } else if p in t.bits {
          assert op.key in t.inserted && p in ProbesOf(c, b, op.key);
        }
      }
    }
  }

  /** In every run: "known absent" is answered exactly when every bit the key probes is probed by a
      key inserted since the last reset, and the key is not in the overlay; and a nonzero bound
      bounds the overlay. */
  lemma {:induction false} AnswersExplained(c: Config, b: Bucket, ops: seq<Op>, k: Key)
    requires Sensible(c)
    ensures BitsExplained(c, b, Run(c, b, EMPTY, ops))
    ensures var s := Run(c, b, EMPTY, ops);
      Reported(c, b, s, k) <==>
        && c.enabled && k !in s.recent
        && forall p: nat | p in ProbesOf(c, b, k) :: exists j :: j in s.inserted && p in ProbesOf(c, b, j)
    ensures c.maxRecentWrites > 0 ==> |Run(c, b, EMPTY, ops).recent| <= c.maxRecentWrites
  {
    if ops != [] {
      var s, op := Run(c, b, EMPTY, ops[..|ops| - 1]), ops[|ops| - 1];
      AnswersExplained(c, b, ops[..|ops| - 1], k);
      StepKeepsBits(c, b, s, op);
      if op.Insert? {
        ShrinkCard(s.recent, op.key);
      }
    }
  }

  lemma ShrinkCard(s: set<Key>, k: Key)
    ensures |s - {k}| <= |s|
  {
    if k in s {
      assert s == (s - {k}) + {k};
    } else {
      assert s - {k} == s;
    }
  }

  // ---- how long an answer lasts ----

  /** No operation of the sequence overflows the overlay. */
  ghost predicate Quiet(c: Config, b: Bucket, s: State, ops: seq<Op>)
    requires Sensible(c)
  {
    forall i | 0 <= i < |ops| :: !Overflows(c, Run(c, b, s, ops[..i]), ops[i])
  }

  lemma QuietPrefix(c: Config, b: Bucket, s: State, ops: seq<Op>)
    requires Sensible(c) && ops != []
    ensures Quiet(c, b, s, ops)
       <==> Quiet(c, b, s, ops[..|ops| - 1]) && !Overflows(c, Run(c, b, s, ops[..|ops| - 1]), ops[|ops| - 1])
  {
    var rest := ops[..|ops| - 1];
    assert forall i | 0 <= i < |rest| :: rest[..i] == ops[..i];
    if Quiet(c, b, s, ops) {
      assert !Overflows(c, Run(c, b, s, ops[..|ops| - 1]), ops[|ops| - 1]);
      forall i | 0 <= i < |rest| ensures !Overflows(c, Run(c, b, s, rest[..i]), rest[i]) {
        assert !Overflows(c, Run(c, b, s, ops[..i]), ops[i]);
      }
    } else {
      var i :| 0 <= i < |ops| && Overflows(c, Run(c, b, s, ops[..i]), ops[i]);
      if i < |rest| {
        assert Overflows(c, Run(c, b, s, rest[..i]), rest[i]);
      }
    }
  }

  // ---- when the overlay overflows ----

  /** The keys a sequence of operations invalidates. */
  ghost function Written(ops: seq<Op>): set<Key> {
    if ops == [] then {}
    else Written(ops[..|ops| - 1]) + if ops[|ops| - 1].Invalidate? then {ops[|ops| - 1].key} else {}
  }

  lemma {:induction false} OverlayWithin(c: Config, b: Bucket, ops: seq<Op>)
    requires Sensible(c)
    ensures Run(c, b, EMPTY, ops).recent <= Written(ops)
  {
    if ops != [] {
      OverlayWithin(c, b, ops[..|ops| - 1]);
    }
  }

  lemma SubsetCard(a: set<Key>, d: set<Key>)
    requires a <= d
    ensures |a| <= |d|
  {
    assert d == a + (d - a);
  }

  /** An overlay without a bound never overflows, nor one that could hold all keys invalidated. */
  lemma {:induction false} QuietWithin(c: Config, b: Bucket, ops: seq<Op>)
    requires Sensible(c) && (c.maxRecentWrites == 0 || |Written(ops)| <= c.maxRecentWrites)
    ensures Quiet(c, b, EMPTY, ops)
  {
    if ops != [] {
      var rest, op := ops[..|ops| - 1], ops[|ops| - 1];
      SubsetCard(Written(rest), Written(ops));
      QuietWithin(c, b, rest);
      OverlayWithin(c, b, rest);
      QuietPrefix(c, b, EMPTY, ops);
      if op.Invalidate? {
        SubsetCard(Run(c, b, EMPTY, rest).recent + {op.key}, Written(ops));
      }
    }
  }

  lemma {:induction false} QuietKeepsAll(c: Config, b: Bucket, ops: seq<Op>)
    requires Sensible(c) && c.enabled && Quiet(c, b, EMPTY, ops)
    requires forall i | 0 <= i < |ops| :: ops[i].Invalidate?
    ensures Run(c, b, EMPTY, ops).recent == Written(ops)
  {
    if ops != [] {
      QuietPrefix(c, b, EMPTY, ops);
      QuietKeepsAll(c, b, ops[..|ops| - 1]);
    }
  }

  /** Invalidations alone overflow the overlay exactly when they are for more keys than it holds. */
  lemma OverflowsExactly(c: Config, b: Bucket, ops: seq<Op>)
    requires Sensible(c) && c.enabled && forall i | 0 <= i < |ops| :: ops[i].Invalidate?
    ensures Quiet(c, b, EMPTY, ops) <==> c.maxRecentWrites == 0 || |Written(ops)| <= c.maxRecentWrites
  {
    if c.maxRecentWrites == 0 || |Written(ops)| <= c.maxRecentWrites {
      QuietWithin(c, b, ops);
    } else if Quiet(c, b, EMPTY, ops) {
      QuietKeepsAll(c, b, ops);
      AnswersExplained(c, b, ops, "");
      assert false;
    }
  }

  /** The key was inserted at that point, and no operation since has overflowed the overlay. */
  ghost predicate InsertedAt(c: Config, b: Bucket, ops: seq<Op>, k: Key, i: nat)
    requires Sensible(c)
  {
    && i < |ops| && ops[i] == Insert(k)
    && forall j | i < j < |ops| :: !Overflows(c, Run(c, b, EMPTY, ops[..j]), ops[j])
  }

  /** The keys on record as inserted are those inserted since the last overflow. */
  lemma {:induction false} InsertedExactly(c: Config, b: Bucket, ops: seq<Op>, k: Key)
    requires Sensible(c) && c.enabled
    ensures k in Run(c, b, EMPTY, ops).inserted <==> exists i: nat :: InsertedAt(c, b, ops, k, i)
  {
    if ops != [] {
      var rest, op := ops[..|ops| - 1], ops[|ops| - 1];
      InsertedExactly(c, b, rest, k);
      InsertedGrows(c, b, ops, k);
      if op == Insert(k) {
        assert InsertedAt(c, b, ops, k, |rest|);
      }
    }
  }

  lemma InsertedGrows(c: Config, b: Bucket, ops: seq<Op>, k: Key)
    requires Sensible(c) && ops != []
    ensures var rest, op := ops[..|ops| - 1], ops[|ops| - 1];
      forall i: nat | i < |rest| ::
        InsertedAt(c, b, ops, k, i) <==> InsertedAt(c, b, rest, k, i) && !Overflows(c, Run(c, b, EMPTY, rest), op)
  {
    var rest, op := ops[..|ops| - 1], ops[|ops| - 1];
    forall i: nat | i < |rest|
      ensures InsertedAt(c, b, ops, k, i) <==> InsertedAt(c, b, rest, k, i) && !Overflows(c, Run(c, b, EMPTY, rest), op)
    {
      assert forall j | 0 <= j < |rest| :: rest[..j] == ops[..j] && rest[j] == ops[j];
      if InsertedAt(c, b, ops, k, i) {
        assert !Overflows(c, Run(c, b, EMPTY, ops[..|rest|]), ops[|rest|]);
        forall j | i < j < |rest| ensures !Overflows(c, Run(c, b, EMPTY, rest[..j]), rest[j]) {
          assert !Overflows(c, Run(c, b, EMPTY, ops[..j]), ops[j]);
        }
      } else if InsertedAt(c, b, rest, k, i) && !Overflows(c, Run(c, b, EMPTY, rest), op) {
        forall j | i < j < |ops| ensures !Overflows(c, Run(c, b, EMPTY, ops[..j]), ops[j]) {
          if j < |rest| {
            assert !Overflows(c, Run(c, b, EMPTY, rest[..j]), rest[j]);
          }
        }
        assert false;
      }
    }
  }

  /** A reported key stays reported until it is invalidated or the overlay overflows. */
  lemma {:induction false} ReportedLasts(c: Config, b: Bucket, s: State, k: Key, ops: seq<Op>)
    requires Sensible(c) && Reported(c, b, s, k)
    requires Invalidate(k) !in ops && Quiet(c, b, s, ops)
    ensures Reported(c, b, Run(c, b, s, ops), k)
  {
    if ops != [] {
      QuietPrefix(c, b, s, ops);
      assert ops[|ops| - 1] in ops;
      ReportedLasts(c, b, s, k, ops[..|ops| - 1]);
    }
  }

  /** An inserted key is reported, and stays so until it is invalidated or the overlay overflows. */
  lemma InsertedIsReported(c: Config, b: Bucket, s: State, k: Key, ops: seq<Op>)
    requires Sensible(c) && c.enabled
    requires Invalidate(k) !in ops && Quiet(c, b, Apply(c, b, s, Insert(k)), ops)
    ensures Reported(c, b, Run(c, b, Apply(c, b, s, Insert(k)), ops), k)
  {
    ReportedLasts(c, b, Apply(c, b, s, Insert(k)), k, ops);
  }

  lemma {:induction false} OverlayLasts(c: Config, b: Bucket, s: State, k: Key, ops: seq<Op>)
    requires Sensible(c) && c.enabled && k in s.recent
    requires Insert(k) !in ops && Invalidate(k) !in ops
    ensures k in Run(c, b, s, ops).recent <==> Quiet(c, b, s, ops)
  {
    if ops != [] {
      QuietPrefix(c, b, s, ops);
      assert ops[|ops| - 1] in ops;
      OverlayLasts(c, b, s, k, ops[..|ops| - 1]);
    }
  }

  /** A key invalidated and not inserted again is reported exactly when the overlay has overflowed
      since and other keys inserted after the last overflow cover every bit it probes. */
  lemma InvalidatedReportedExactly(c: Config, b: Bucket, before: seq<Op>, k: Key, ops: seq<Op>)
    requires Sensible(c) && c.enabled
    requires Insert(k) !in ops && Invalidate(k) !in ops
    ensures var s := Run(c, b, EMPTY, before + [Invalidate(k)] + ops);
      Reported(c, b, s, k) <==>
        && !Quiet(c, b, Run(c, b, EMPTY, before), [Invalidate(k)] + ops)
        && forall p: nat | p in ProbesOf(c, b, k) :: exists j :: j in s.inserted && p in ProbesOf(c, b, j)
  {
    var all := before + [Invalidate(k)] + ops;
    var s0 := Run(c, b, EMPTY, before);
    var s1 := Apply(c, b, s0, Invalidate(k));
    AnswersExplained(c, b, all, k);
    RunConcat(c, b, EMPTY, before, [Invalidate(k)] + ops);
    assert all == before + ([Invalidate(k)] + ops);
    RunCons(c, b, s0, Invalidate(k), ops);
    if Overflows(c, s0, Invalidate(k)) {
      NotInOverlay(c, b, s1, k, ops);
      assert ([Invalidate(k)] + ops)[..0] == [];
      assert Overflows(c, Run(c, b, s0, ([Invalidate(k)] + ops)[..0]), ([Invalidate(k)] + ops)[0]);
    } else {
      QuietCons(c, b, s0, Invalidate(k), ops);
      OverlayLasts(c, b, s1, k, ops);
    }
  }

  lemma {:induction false} NotInOverlay(c: Config, b: Bucket, s: State, k: Key, ops: seq<Op>)
    requires Sensible(c) && k !in s.recent && Invalidate(k) !in ops
    ensures k !in Run(c, b, s, ops).recent
  {
    if ops != [] {
      assert ops[|ops| - 1] in ops;
      NotInOverlay(c, b, s, k, ops[..|ops| - 1]);
    }
  }

  lemma {:induction false} RunConcat(c: Config, b: Bucket, s: State, a: seq<Op>, d: seq<Op>)
    requires Sensible(c)
    ensures Run(c, b, s, a + d) == Run(c, b, Run(c, b, s, a), d)
  {
    if d == [] {
      assert a + d == a;
    } else {
      RunConcat(c, b, s, a, d[..|d| - 1]);
      assert (a + d)[..|a + d| - 1] == a + d[..|d| - 1];
    }
  }

  // Starting with one operation: the state it leads to,
  lemma RunCons(c: Config, b: Bucket, s: State, op: Op, ops: seq<Op>)
    requires Sensible(c)
    ensures Run(c, b, s, [op] + ops) == Run(c, b, Apply(c, b, s, op), ops)
  {
    RunConcat(c, b, s, [op], ops);
    assert Run(c, b, s, [op]) == Apply(c, b, s, op) by {
      assert [op][..0] == [];
    }
  }

  // and, if it does not overflow, whether all is quiet.
  lemma QuietCons(c: Config, b: Bucket, s: State, op: Op, ops: seq<Op>)
    requires Sensible(c) && !Overflows(c, s, op)
    ensures Quiet(c, b, s, [op] + ops) <==> Quiet(c, b, Apply(c, b, s, op), ops)
  {
    var all, t := [op] + ops, Apply(c, b, s, op);
    assert all[..0] == [];
    forall i | 0 <= i < |ops| ensures Run(c, b, s, all[..i + 1]) == Run(c, b, t, ops[..i]) && all[i + 1] == ops[i] {
      assert all[..i + 1] == [op] + ops[..i];
      RunCons(c, b, s, op, ops[..i]);
    }
    if Quiet(c, b, t, ops) {
      forall i | 0 <= i < |all| ensures !Overflows(c, Run(c, b, s, all[..i]), all[i]) {
        if i > 0 {
          assert !Overflows(c, Run(c, b, t, ops[..i - 1]), ops[i - 1]);
        }
      }
    } else {
      var i :| 0 <= i < |ops| && Overflows(c, Run(c, b, t, ops[..i]), ops[i]);
      assert Overflows(c, Run(c, b, s, all[..i + 1]), all[i + 1]);
    }
  }

  /** The documented promise that a written key is never answered "absent" fails: after an overflow,
      inserting a key that covers the written key's bits is enough. */
  lemma StaleAnswer(c: Config, b: Bucket, k: Key, j: Key)
    requires Sensible(c) && c.enabled && c.maxRecentWrites == 1
    requires k != j && ProbesOf(c, b, k) <= ProbesOf(c, b, j)
    ensures Reported(c, b, Run(c, b, EMPTY, [Invalidate(k), Invalidate(j), Insert(j)]), k)
  {
    var ops := [Invalidate(k), Invalidate(j), Insert(j)];
    var s1, s2 := State({}, {k}, {}), Run(c, b, EMPTY, ops[..2]);
    assert Run(c, b, EMPTY, ops[..1]) == s1 by {
      assert ops[..1][..0] == [] && {} + {k} == {k};
    }
    assert s2 == EMPTY by {
      assert ops[..2][..1] == ops[..1] && |{k} + {j}| == 2;
    }
    assert ops[..3] == ops;
  }

  // ---- the cache ----

  ghost function BitsOf(f: BloomFilter): set<nat>
    reads f.bits
  {
    set p: nat | p < f.BitCount() && f.IsSet(p)
  }

  method InsertBits(f: BloomFilter, h: Hashes)
    requires f.Valid()
    modifies f.bits
    ensures BitsOf(f) == old(BitsOf(f)) + Probes(h, f.hashCount, f.BitCount())
  {
    f.Insert(h);
  }

  class Cache {
    const config: Config
    var buckets: map<Bucket, BloomFilter>
    var recent: map<Bucket, set<Key>>
    ghost var inserted: map<Bucket, set<Key>>

    ghost function Arrays(): set<array<bv8>>
      reads this
    {
      set b | b in buckets :: buckets[b].bits
    }

    /** Every bucket has a filter of its own, of the configured size. */
    ghost predicate Valid()
      reads this
    {
      && Sensible(config)
      && (forall b | b in buckets :: buckets[b].bits.Length == config.sizeBytes && buckets[b].hashCount == config.hashCount)
      && (forall b, o | b in buckets && o in buckets && b != o :: buckets[b].bits != buckets[o].bits)
    }

    ghost function View(b: Bucket): State
      reads this, Arrays()
    {
      State(if b in buckets then BitsOf(buckets[b]) else {}, RecentOf(b), if b in inserted then inserted[b] else {})
    }

    function RecentOf(b: Bucket): set<Key>
      reads this
    {
      if b in recent then recent[b] else {}
    }

    constructor (c: Config)
      requires Sensible(c)
      ensures Valid() && fresh(Arrays()) && config == c && forall b :: View(b) == EMPTY
    {
      config := c;
      buckets, recent, inserted := map[], map[], map[];
    }

    /** Creates a bucket's filter on first use. */
    method FilterOf(b: Bucket) returns (f: BloomFilter)
      requires Valid()
      modifies this`buckets
      ensures Valid() && b in buckets && f == buckets[b]
      ensures fresh(Arrays() - old(Arrays()))
      ensures forall o :: View(o) == old(View(o))
    {
      if b !in buckets {
        f := new BloomFilter(config.sizeBytes, config.hashCount);
        assert BitsOf(f) == {};
        buckets := buckets[b := f];
      }
      f := buckets[b];
    }

    /** Whether the key is known to be absent. */
    method Contains(b: Bucket, k: Key) returns (absent: bool)
      requires Valid()
      modifies this`buckets
      ensures Valid() && fresh(Arrays() - old(Arrays()))
      ensures absent <==> Reported(config, b, old(View(b)), k)
      ensures forall o :: View(o) == old(View(o))
    {
      if !config.enabled {
        return false;
      }
      if k in RecentOf(b) {
        return false;
      }
      var f := FilterOf(b);
      absent := f.Contains(config.hash(b, k));
      assert forall p: nat | p in ProbesOf(config, b, k) :: f.IsSet(p) <==> p in BitsOf(f);
    }

    /** Sets a key's bits in its bucket's filter. */
    method SetBits(b: Bucket, h: Hashes)
      requires Valid()
      modifies this`buckets, Arrays()
      ensures Valid() && fresh(Arrays() - old(Arrays()))
      ensures View(b) == old(View(b)).(bits := old(View(b)).bits + Probes(h, config.hashCount, 8 * config.sizeBytes))
      ensures forall o | o != b :: View(o) == old(View(o))
    {
      var f := FilterOf(b);
      assert BitsOf(f) == View(b).bits;
      assert forall o | o in buckets && o != b :: buckets[o].bits != f.bits;
      InsertBits(f, h);
    }

    /** Takes an absent key out of the overlay. */
    method Forget(b: Bucket, k: Key)
      modifies this`recent, this`inserted
      ensures View(b) == old(View(b)).(recent := old(View(b)).recent - {k}, inserted := old(View(b)).inserted + {k})
      ensures forall o | o != b :: View(o) == old(View(o))
    {
      if b in recent {
        recent := recent[b := recent[b] - {k}];
      }
      inserted := inserted[b := (if b in inserted then inserted[b] else {}) + {k}];
    }

    /** Records that a key is absent. */
    method Insert(b: Bucket, k: Key)
      requires Valid()
      modifies this, Arrays()
      ensures Valid() && fresh(Arrays() - old(Arrays()))
      ensures View(b) == Apply(config, b, old(View(b)), Op.Insert(k))
      ensures forall o | o != b :: View(o) == old(View(o))
    {
      if !config.enabled {
        return;
      }
      SetBits(b, config.hash(b, k));
      Forget(b, k);
    }

    /** Gives a bucket a fresh filter, if it has one. */
    method Reset(b: Bucket)
      requires Valid()
      modifies this`buckets
      ensures Valid() && fresh(Arrays() - old(Arrays()))
      ensures View(b) == old(View(b)).(bits := {})
      ensures forall o | o != b :: View(o) == old(View(o))
    {
      if b in buckets {
        var f := new BloomFilter(config.sizeBytes, config.hashCount);
        assert BitsOf(f) == {};
        buckets := buckets[b := f];
      }
    }

    /** Records that a key was written; a full overlay resets the bucket. */
    method Invalidate(b: Bucket, k: Key)
      requires Valid()
      modifies this
      ensures Valid() && fresh(Arrays() - old(Arrays()))
      ensures View(b) == Apply(config, b, old(View(b)), Op.Invalidate(k))
      ensures forall o | o != b :: View(o) == old(View(o))
    {
      if !config.enabled {
        return;
      }
      recent := recent[b := RecentOf(b) + {k}];
      if config.maxRecentWrites > 0 && |recent[b]| > config.maxRecentWrites {
        recent := recent[b := {}];
        inserted := inserted[b := {}];
        Reset(b);
      }
    }
  }

  /** The operations of one bucket. */
  ghost function OpsOf(b: Bucket, calls: seq<(Bucket, Op)>): seq<Op> {
    if calls == [] then []
    else
      var rest, call := OpsOf(b, calls[..|calls| - 1]), calls[|calls| - 1];
      if call.0 == b then rest + [call.1] else rest
  }

  /** After any calls on any buckets, the answer for a key is that of its own bucket's operations. */
  method Answer(c: Config, calls: seq<(Bucket, Op)>, b: Bucket, k: Key) returns (absent: bool)
    requires Sensible(c)
    ensures absent <==> Reported(c, b, Run(c, b, EMPTY, OpsOf(b, calls)), k)
  {
    var cache := new Cache(c);
    for i := 0 to |calls|
      invariant cache.Valid() && fresh(cache) && fresh(cache.Arrays()) && cache.config == c
      invariant forall o :: cache.View(o) == Run(c, o, EMPTY, OpsOf(o, calls[..i]))
    {
      assert calls[..i + 1][..i] == calls[..i];
      match calls[i].1
      case Insert(key) => cache.Insert(calls[i].0, key);
      case Invalidate(key) => cache.Invalidate(calls[i].0, key);
      forall o ensures cache.View(o) == Run(c, o, EMPTY, OpsOf(o, calls[..i + 1])) {
        var rest := OpsOf(o, calls[..i]);
        assert (rest + [calls[i].1])[..|rest|] == rest;
      }
    }
    assert calls[..|calls|] == calls;
    absent := cache.Contains(b, k);
  }
}
