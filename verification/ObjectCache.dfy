/** The object data cache: nested maps of blobs with size and count gauges, eviction across buckets,
    expiry and invalidation (l1_object.rs; Gauge in metrics.rs). */
module ObjectCache {
  import opened Common

  type Bucket = string
  type Key = string
  type Bytes = seq<bv8>

  datatype Entry = Entry(data: Bytes, insertedAt: nat)

  type Entries = map<Key, Entry>

  datatype Config = Config(enabled: bool, maxSizeBytes: nat, ttl: nat, maxBlobSize: nat)

  // ---- sums ----

  /** The sum of the weights of a map's values. */
  ghost function Sum<K(!new), V(!new)>(m: map<K, V>, weight: V -> nat): nat
    decreases |m|
  {
    if m == map[] then 0
    else
      var k :| k in m;
      assert |m - {k}| < |m| by { assert m.Keys == (m - {k}).Keys + {k}; }
      weight(m[k]) + Sum(m - {k}, weight)
  }

  // The sum does not depend on the order of the keys.
  lemma {:induction false} SumRemove<K(!new), V(!new)>(m: map<K, V>, k: K, weight: V -> nat)
    requires k in m
    ensures Sum(m, weight) == weight(m[k]) + Sum(m - {k}, weight)
    decreases |m|
  {
    var j :| j in m && Sum(m, weight) == weight(m[j]) + Sum(m - {j}, weight);
    if j != k {
      assert m.Keys == (m - {j}).Keys + {j};
      assert m.Keys == (m - {k}).Keys + {k};
      SumRemove(m - {j}, k, weight);
      SumRemove(m - {k}, j, weight);
      assert m - {j} - {k} == m - {k} - {j};
    }
  }

  lemma SumUpdate<K(!new), V(!new)>(m: map<K, V>, k: K, v: V, weight: V -> nat)
    ensures Sum(m[k := v], weight) == weight(v) + Sum(m, weight) - if k in m then weight(m[k]) else 0
  {
    SumRemove(m[k := v], k, weight);
    assert m[k := v] - {k} == m - {k};
    if k in m {
      SumRemove(m, k, weight);
    } else {
      assert m - {k} == m;
    }
  }

  function Length(e: Entry): nat { |e.data| }

  ghost function BytesIn(entries: Entries): nat { Sum(entries, Length) }

  function CountIn(entries: Entries): nat { |entries| }

  /** All bytes stored, and the number of entries. */
  ghost function TotalBytes(buckets: map<Bucket, Entries>): nat { Sum(buckets, BytesIn) }

  ghost function TotalCount(buckets: map<Bucket, Entries>): nat { Sum(buckets, CountIn) }

  /** Adds up the lengths in a bucket. */
  method AddLengths(entries: Entries) returns (total: nat)
    ensures total == BytesIn(entries)
  {
    total := 0;
    var rest := entries;
    while rest.Keys != {}
      invariant total + Sum(rest, Length) == Sum(entries, Length)
      decreases |rest.Keys|
    {
      var k :| k in rest.Keys;
      SumRemove(rest, k, Length);
      total := total + |rest[k].data|;
      rest := rest - {k};
    }
  }

  function EntryAt(buckets: map<Bucket, Entries>, b: Bucket, k: Key): Option<Entry> {
    if b in buckets && k in buckets[b] then Some(buckets[b][k]) else None
  }

  function Size(e: Option<Entry>): nat { if e.Some? then |e.value.data| else 0 }

  // Storing an entry changes both totals by the difference to what was there.
  lemma PutTotals(buckets: map<Bucket, Entries>, b: Bucket, k: Key, e: Entry)
    requires b in buckets
    ensures TotalBytes(buckets[b := buckets[b][k := e]]) == TotalBytes(buckets) + |e.data| - Size(EntryAt(buckets, b, k))
    ensures TotalCount(buckets[b := buckets[b][k := e]]) == TotalCount(buckets) + if k in buckets[b] then 0 else 1
  {
    var entries := buckets[b][k := e];
    SumUpdate(buckets, b, entries, BytesIn);
    SumUpdate(buckets, b, entries, CountIn);
    SumUpdate(buckets[b], k, e, Length);
    assert entries.Keys == buckets[b].Keys + {k};
  }

  lemma DropTotals(buckets: map<Bucket, Entries>, b: Bucket, k: Key)
    requires b in buckets && k in buckets[b]
    ensures TotalBytes(buckets[b := buckets[b] - {k}]) + |buckets[b][k].data| == TotalBytes(buckets)
    ensures TotalCount(buckets[b := buckets[b] - {k}]) + 1 == TotalCount(buckets)
  {
    var entries := buckets[b] - {k};
    SumUpdate(buckets, b, entries, BytesIn);
    SumUpdate(buckets, b, entries, CountIn);
    SumRemove(buckets[b], k, Length);
    assert buckets[b].Keys == entries.Keys + {k};
  }

  /** A blob the cache takes. */
  predicate Takes(c: Config, data: Bytes) { c.enabled && |data| <= c.maxBlobSize }

  predicate Expired(c: Config, e: Entry, now: nat) {
    c.ttl > 0 && SaturatingSub(now, e.insertedAt) > c.ttl
  }

  /** What is left of a bucket once some victims are removed. */
  ghost function Kept(entries: Entries, b: Bucket, victims: seq<(Bucket, Key)>): Entries {
    map k | k in entries && (b, k) !in victims :: entries[k]
  }

  /** The bucket can take that many more bytes. */
  ghost predicate HasRoom(c: Config, entries: Entries, needed: nat) { BytesIn(entries) + needed <= c.maxSizeBytes }

  /** The victims are gone and everything else is as it was. */
  ghost predicate Removed(before: map<Bucket, Entries>, after: map<Bucket, Entries>, victims: seq<(Bucket, Key)>) {
    forall o, j :: EntryAt(after, o, j) == if (o, j) in victims then None else EntryAt(before, o, j)
  }

  lemma RemovedOneMore(before: map<Bucket, Entries>, mid: map<Bucket, Entries>, after: map<Bucket, Entries>,
                       victims: seq<(Bucket, Key)>, v: (Bucket, Key))
    requires Removed(before, mid, victims) && EntryAt(after, v.0, v.1).None?
    requires forall o, j | (o, j) != v :: EntryAt(after, o, j) == EntryAt(mid, o, j)
    ensures Removed(before, after, victims + [v])
  {
  }

  /** The bucket had no room before each of the first n victims was removed. */
  ghost predicate Lacking(c: Config, entries: Entries, b: Bucket, needed: nat, victims: seq<(Bucket, Key)>, n: nat) {
    forall i | 0 <= i < n && i <= |victims| :: !HasRoom(c, Kept(entries, b, victims[..i]), needed)
  }

  /** How many victims are removed to make room: before each of them the bucket had none, and after
      them it has, or the victims or the hundred tries are used up. */
  ghost predicate Evicts(c: Config, entries: Entries, b: Bucket, needed: nat, victims: seq<(Bucket, Key)>, n: nat) {
    && n <= |victims| && n <= 100 && Lacking(c, entries, b, needed, victims, n)
    && (n == |victims| || n == 100 || HasRoom(c, Kept(entries, b, victims[..n]), needed))
  }

  ghost function EntriesOf(buckets: map<Bucket, Entries>, b: Bucket): Entries {
    if b in buckets then buckets[b] else map[]
  }

  class Cache {
    const config: Config
    var buckets: map<Bucket, Entries>
    var sizeBytes: nat
    var entryCount: nat

    /** The gauges are exact. */
    ghost predicate Valid()
      reads this
    {
      sizeBytes == TotalBytes(buckets) && entryCount == TotalCount(buckets)
    }

    function Lookup(b: Bucket, k: Key): Option<Entry>
      reads this
    {
      EntryAt(buckets, b, k)
    }

    constructor (c: Config)
      ensures Valid() && config == c && buckets == map[]
    {
      config := c;
      buckets, sizeBytes, entryCount := map[], 0, 0;
    }

    /** Removes an entry if it is there and keeps the gauges in step; the subtractions never
        saturate. */
    method Drop(b: Bucket, k: Key)
      requires Valid()
      modifies this
      ensures Valid() && Lookup(b, k).None?
      ensures forall o, j | (o, j) != (b, k) :: Lookup(o, j) == old(Lookup(o, j))
      ensures sizeBytes + Size(old(Lookup(b, k))) == old(sizeBytes)
      ensures buckets.Keys == old(buckets.Keys)
    {
      if b in buckets && k in buckets[b] {
        DropTotals(buckets, b, k);
        var length := |buckets[b][k].data|;
        buckets := buckets[b := buckets[b] - {k}];
        sizeBytes, entryCount := SaturatingSub(sizeBytes, length), SaturatingSub(entryCount, 1);
      }
    }

    /** Returns what is stored unless it has expired; an expired entry is removed. */
    method Get(b: Bucket, k: Key, now: nat) returns (r: Option<Bytes>)
      requires Valid()
      modifies this
      ensures Valid()
      ensures r.Some? <==>
        && config.enabled && old(Lookup(b, k)).Some?
        && (config.ttl > 0 ==> now <= old(Lookup(b, k)).value.insertedAt + config.ttl)
      ensures r.Some? ==> r.value == old(Lookup(b, k)).value.data
      ensures Lookup(b, k) == if r.Some? || !config.enabled then old(Lookup(b, k)) else None
      ensures forall o, j | (o, j) != (b, k) :: Lookup(o, j) == old(Lookup(o, j))
    {
      if !config.enabled || Lookup(b, k).None? {
        return None;
      }
      var e := Lookup(b, k).value;
      if Expired(config, e, now) {
        Drop(b, k);
        return None;
      }
      return Some(e.data);
    }

    method Invalidate(b: Bucket, k: Key)
      requires Valid()
      modifies this
      ensures Valid() && Lookup(b, k).None?
      ensures forall o, j | (o, j) != (b, k) :: Lookup(o, j) == old(Lookup(o, j))
    {
      Drop(b, k);
    }

    method ClearBucket(b: Bucket)
      requires Valid()
      modifies this
      ensures Valid() && b !in buckets
      ensures forall o, j | o != b :: Lookup(o, j) == old(Lookup(o, j))
    {
      if b in buckets {
        SumRemove(buckets, b, BytesIn);
        SumRemove(buckets, b, CountIn);
        var removed := AddLengths(buckets[b]);
        var count := |buckets[b]|;
        buckets := buckets - {b};
        entryCount, sizeBytes := SaturatingSub(entryCount, count), SaturatingSub(sizeBytes, removed);
      }
    }

    /** Removes victims the policy names, from any bucket, until the target bucket has room, the
        policy names none, or a hundred were tried. Everything else stays. */
    method EvictForSpace(b: Bucket, needed: nat, victims: seq<(Bucket, Key)>) returns (tried: nat)
      requires Valid() && b in buckets
      modifies this
      ensures Valid() && buckets.Keys == old(buckets.Keys)
      ensures Evicts(config, old(buckets)[b], b, needed, victims, tried) && Removed(old(buckets), buckets, victims[..tried])
    {
      tried := 0;
      while tried < 100 && tried < |victims|
        invariant Valid() && buckets.Keys == old(buckets.Keys)
        invariant tried <= |victims| && tried <= 100
        invariant Removed(old(buckets), buckets, victims[..tried])
        invariant Lacking(config, old(buckets)[b], b, needed, victims, tried)
      {
        KeptIs(old(buckets), buckets, b, victims[..tried]);
        var current := AddLengths(buckets[b]);
        if current + needed <= config.maxSizeBytes {
          break;
        }
        DropVictim(victims[tried], old(buckets), victims[..tried]);
        assert victims[..tried + 1] == victims[..tried] + [victims[tried]];
        tried := tried + 1;
      }
    }

    /** Removes one more victim. */
    method DropVictim(v: (Bucket, Key), ghost before: map<Bucket, Entries>, ghost victims: seq<(Bucket, Key)>)
      requires Valid() && Removed(before, buckets, victims)
      modifies this
      ensures Valid() && buckets.Keys == old(buckets.Keys) && Removed(before, buckets, victims + [v])
    {
      ghost var mid := buckets;
      Drop(v.0, v.1);
      forall o, j | (o, j) != v ensures EntryAt(buckets, o, j) == EntryAt(mid, o, j) {
        assert Lookup(o, j) == old(Lookup(o, j));
      }
      RemovedOneMore(before, mid, buckets, victims, v);
    }

    /** Stores a blob it takes, possibly evicting others; a blob it does not take changes nothing. */
    method Put(b: Bucket, k: Key, data: Bytes, now: nat, victims: seq<(Bucket, Key)>) returns (ghost tried: nat)
      requires Valid()
      modifies this
      ensures Valid()
      ensures Lookup(b, k) ==
        if !config.enabled || |data| > config.maxBlobSize then old(Lookup(b, k))
        else if old(Lookup(b, k)).Some? then Some(Entry(data, old(Lookup(b, k)).value.insertedAt))
        else Some(Entry(data, now))
      ensures if config.enabled && |data| <= config.maxBlobSize && old(Lookup(b, k)).None?
        then Evicts(config, EntriesOf(old(buckets), b), b, |data|, victims, tried) else tried == 0
      ensures tried <= |victims| && forall o, j | (o, j) != (b, k) ::
        Lookup(o, j) == if (o, j) in victims[..tried] then None else old(Lookup(o, j))
    {
      tried := 0;
      Open(b);
      if !config.enabled || |data| > config.maxBlobSize {
        return;
      }
      if k in buckets[b] {
        Replace(b, k, data);
        return;
      }
      assert Lookup(b, k).None?;
      tried := EvictForSpace(b, |data|, victims);
      assert Lookup(b, k).None?;
      Store(b, k, Entry(data, now));
    }

    /** Creates a bucket on first use. */
    method Open(b: Bucket)
      requires Valid()
      modifies this`buckets
      ensures Valid() && b in buckets && forall o, j :: Lookup(o, j) == old(Lookup(o, j))
      ensures buckets[b] == EntriesOf(old(buckets), b)
    {
      if b !in buckets {
        SumUpdate(buckets, b, map[], BytesIn);
        SumUpdate(buckets, b, map[], CountIn);
        buckets := buckets[b := map[]];
      }
    }

    /** Stores a new entry. */
    method Store(b: Bucket, k: Key, e: Entry)
      requires Valid() && b in buckets && k !in buckets[b]
      modifies this
      ensures Valid() && Lookup(b, k) == Some(e)
      ensures forall o, j | (o, j) != (b, k) :: Lookup(o, j) == old(Lookup(o, j))
    {
      PutTotals(buckets, b, k, e);
      buckets := buckets[b := buckets[b][k := e]];
      sizeBytes, entryCount := sizeBytes + |e.data|, entryCount + 1;
    }

    /** Replaces a stored blob, keeping its age. */
    method Replace(b: Bucket, k: Key, data: Bytes)
      requires Valid() && b in buckets && k in buckets[b]
      modifies this
      ensures Valid() && Lookup(b, k) == Some(old(Lookup(b, k)).value.(data := data))
      ensures forall o, j | (o, j) != (b, k) :: Lookup(o, j) == old(Lookup(o, j))
    {
      var e := buckets[b][k];
      var delta := |data| - |e.data|;
      PutTotals(buckets, b, k, e.(data := data));
      buckets := buckets[b := buckets[b][k := e.(data := data)]];
      if delta > 0 {
        sizeBytes := sizeBytes + delta;
      } else if delta < 0 {
        sizeBytes := SaturatingSub(sizeBytes, -delta);
      }
    }
  }

  lemma KeptIs(before: map<Bucket, Entries>, after: map<Bucket, Entries>, b: Bucket, victims: seq<(Bucket, Key)>)
    requires b in before && b in after
    requires Removed(before, after, victims)
    ensures after[b] == Kept(before[b], b, victims)
  {
    forall k ensures k in after[b] <==> k in Kept(before[b], b, victims) {
      assert EntryAt(after, b, k) == if (b, k) in victims then None else EntryAt(before, b, k);
    }
    forall k | k in after[b] ensures after[b][k] == Kept(before[b], b, victims)[k] {
      assert EntryAt(after, b, k) == EntryAt(before, b, k);
    }
  }

  // ---- every sequence of calls ----

  datatype Call =
    | GetCall(bucket: Bucket, key: Key, now: nat)
    | PutCall(bucket: Bucket, key: Key, data: Bytes, now: nat, victims: seq<(Bucket, Key)>)
    | InvalidateCall(bucket: Bucket, key: Key)
    | ClearCall(bucket: Bucket)

  /** Whether a call removes a key on purpose. */
  predicate Removes(call: Call, b: Bucket, k: Key) {
    match call
    case InvalidateCall(o, j) => o == b && j == k
    case ClearCall(o) => o == b
    case _ => false
  }

  /** The last blob put for a key since it was invalidated or its bucket cleared. */
  function LastPut(calls: seq<Call>, b: Bucket, k: Key): Option<Bytes> {
    if calls == [] then None
    else
      var call := calls[|calls| - 1];
      if Removes(call, b, k) then None
      else if call.PutCall? && call.bucket == b && call.key == k then Some(call.data)
      else LastPut(calls[..|calls| - 1], b, k)
  }

  /** The same, of the blobs the cache took. */
  function LastTaken(c: Config, calls: seq<Call>, b: Bucket, k: Key): Option<Bytes> {
    if calls == [] then None
    else
      var call := calls[|calls| - 1];
      if Removes(call, b, k) then None
      else if call.PutCall? && call.bucket == b && call.key == k && Takes(c, call.data) then Some(call.data)
      else LastTaken(c, calls[..|calls| - 1], b, k)
  }

  /** They agree exactly when the last blob put was one the cache takes. */
  lemma {:induction false} TakenExactly(c: Config, calls: seq<Call>, b: Bucket, k: Key)
    ensures LastTaken(c, calls, b, k) == LastPut(calls, b, k)
       <==> LastPut(calls, b, k).None? || Takes(c, LastPut(calls, b, k).value)
    ensures LastTaken(c, calls, b, k).Some? ==> Takes(c, LastTaken(c, calls, b, k).value) && LastPut(calls, b, k).Some?
  {
    if calls != [] {
      TakenExactly(c, calls[..|calls| - 1], b, k);
    }
  }

  /** After any calls, a hit is the last blob the cache took for the key since it was last
      invalidated or its bucket cleared; it is the last blob put unless that one was refused. */
  method Serve(c: Config, calls: seq<Call>, b: Bucket, k: Key, now: nat) returns (r: Option<Bytes>)
    ensures r.Some? ==> r == LastTaken(c, calls, b, k)
    ensures r.Some? ==> LastPut(calls, b, k).Some? && (r == LastPut(calls, b, k) <==> Takes(c, LastPut(calls, b, k).value))
  {
    var cache := new Cache(c);
    for i := 0 to |calls|
      invariant cache.Valid() && cache.config == c
      invariant forall o, j :: cache.Lookup(o, j).Some? ==> LastTaken(c, calls[..i], o, j) == Some(cache.Lookup(o, j).value.data)
    {
      assert calls[..i + 1][..i] == calls[..i];
      match calls[i]
      case GetCall(o, j, t) => var _ := cache.Get(o, j, t);
      case PutCall(o, j, data, t, victims) => var _ := cache.Put(o, j, data, t, victims);
      case InvalidateCall(o, j) => cache.Invalidate(o, j);
      case ClearCall(o) => cache.ClearBucket(o);
    }
    assert calls[..|calls|] == calls;
    TakenExactly(c, calls, b, k);
    r := cache.Get(b, k, now);
  }

  /** A refused blob does not displace the one stored before: it is still served. */
  method ServesOlder(c: Config, b: Bucket, k: Key, stored: Bytes, refused: Bytes) returns (r: Option<Bytes>)
    requires Takes(c, stored) && !Takes(c, refused)
    ensures r == Some(stored)
  {
    var cache := new Cache(c);
    var _ := cache.Put(b, k, stored, 0, []);
    var _ := cache.Put(b, k, refused, 0, []);
    r := cache.Get(b, k, 0);
  }
}
