/** Pulling a lost copy onto this node: one attempt, and its retries (repair.rs). */
module Repair {
  import opened Common
  import opened Holders
  import opened Transfer

  type Root = nat

  datatype Shape = Shape(tier: nat, k: nat, m: nat)

  datatype Request = Request(segment: SegmentId, holders: seq<NodeId>, root: Option<Root>, shape: Shape)

  datatype Entry = Reserved(shape: Shape) | Sealed(shape: Shape, root: Root, locations: seq<NodeId>)

  /** The fetched bytes may be stored: there are some, and they match the root if one is given. */
  predicate Accepts(hash: Bytes -> Root, request: Request, data: Bytes) {
    data != [] && (request.root.Some? ==> hash(data) == request.root.value)
  }

  /** Which durable effects of an attempt succeed; a failed write may still have `landed`. */
  datatype Outcomes = Outcomes(reserve: bool, write: bool, landed: bool, cleanup: bool, seal: bool, stamp: bool)

  /** What one attempt meets; `queued` says whether a retry after it finds room in the queue. */
  datatype Env = Env(finished: seq<Attempt>, outcomes: Outcomes, queued: bool)

  /** The bytes an attempt may store. */
  function Verified(hash: Bytes -> Root, request: Request, finished: seq<Attempt>): Option<Bytes> {
    var data := Served(finished);
    if data.Some? && Accepts(hash, request, data.value) then data else None
  }

  predicate Succeeds(o: Outcomes) { o.reserve && o.write && o.seal && o.stamp }

  /** Failing, and yet the segment stays registered. */
  predicate LeavesEntry(o: Outcomes) {
    o.reserve && if o.write then !(o.seal && o.stamp) else !o.cleanup
  }

  ghost predicate Completes(hash: Bytes -> Root, request: Request, e: Env) {
    Verified(hash, request, e.finished).Some? && Succeeds(e.outcomes)
  }

  ghost predicate Blocks(hash: Bytes -> Root, request: Request, e: Env) {
    Verified(hash, request, e.finished).Some? && LeavesEntry(e.outcomes)
  }

  class RepairTarget {
    const self: NodeId
    const hash: Bytes -> Root
    var registry: map<SegmentId, Entry>
    var store: map<SegmentId, Bytes>

    constructor (self: NodeId, hash: Bytes -> Root)
      ensures this.self == self && this.hash == hash && registry == map[] && store == map[]
    {
      this.self, this.hash := self, hash;
      registry, store := map[], map[];
    }

    /** The copy is sealed under the hash of its bytes, in the requested shape, and stamped with
        the request's holders and this node, each once. */
    ghost predicate Complete(request: Request)
      reads this
    {
      && request.segment in registry && request.segment in store
      && var entry := registry[request.segment];
      && entry.Sealed? && entry.shape == request.shape && entry.root == hash(store[request.segment])
      && Distinct(entry.locations) && Members(entry.locations) == Members(request.holders) + {self}
    }

    /** Fetches from the holders and checks against the root. */
    method Acquire(request: Request, finished: seq<Attempt>) returns (data: Option<Bytes>)
      requires Finishes(finished, request.holders, self)
      ensures data == Verified(hash, request, finished)
    {
      data := FetchFromHolders(request.holders, self, finished);
      ServedByOne(finished);
      if data.Some? && request.root.Some? && hash(data.value) != request.root.value {
        data := None;
      }
    }

    /** Reserves, writes, seals and stamps verified bytes; each failure leaves exactly this state. */
    method Install(request: Request, data: Bytes, o: Outcomes) returns (ok: bool)
      requires request.segment !in registry
      modifies this
      ensures registry - {request.segment} == old(registry)
      ensures store == if o.reserve && (o.write || o.landed) then old(store)[request.segment := data] else old(store)
      ensures ok <==> Succeeds(o)
      ensures ok ==> Complete(request)
      ensures !ok ==> (request.segment in registry <==> LeavesEntry(o))
      ensures LeavesEntry(o) && o.write && o.seal ==> registry[request.segment] == Sealed(request.shape, hash(data), [])
      ensures LeavesEntry(o) && !(o.write && o.seal) ==> registry[request.segment] == Reserved(request.shape)
    {
      var id := request.segment;
      ok := false;
      if o.reserve {
        registry := registry[id := Reserved(request.shape)];
        if o.write {
          store := store[id := data];
          if o.seal {
            registry := registry[id := Sealed(request.shape, hash(data), [])];
            if o.stamp {
              var locations := StampLocations(request.holders, self);
              registry := registry[id := Sealed(request.shape, hash(data), locations)];
              ok := true;
            }
          }
        } else {
          if o.landed {
            store := store[id := data];
          }
          if o.cleanup {
            registry := registry - {id};
          }
        }
      }
    }

    /** One attempt. Registered already: success, and nothing changes. Otherwise nothing is stored
        unless the bytes a holder served passed the root check and were reserved for, and the attempt
        succeeds exactly when it leaves a complete copy of those bytes. */
    method ExecuteRepair(request: Request, e: Env) returns (ok: bool)
      requires Finishes(e.finished, request.holders, self)
      modifies this
      ensures registry - {request.segment} == old(registry) - {request.segment}
      ensures request.segment in old(registry) ==> ok && registry == old(registry) && store == old(store)
      ensures store != old(store) ==>
        && request.segment !in old(registry) && e.outcomes.reserve
        && Verified(hash, request, e.finished).Some?
        && store == old(store)[request.segment := Verified(hash, request, e.finished).value]
      ensures request.segment !in old(registry) ==> (ok <==> Completes(hash, request, e))
      ensures ok && request.segment !in old(registry) ==>
        request.segment in store && Some(store[request.segment]) == Verified(hash, request, e.finished)
      ensures request.segment !in old(registry) ==> (ok <==> Complete(request))
      ensures request.segment !in old(registry) ==> (request.segment in registry <==> ok || Blocks(hash, request, e))
    {
      if request.segment in registry {
        return true;
      }
      var data := Acquire(request, e.finished);
      if data.None? {
        return false;
      }
      ok := Install(request, data.value, e.outcomes);
      assert self !in Members([]);
    }

    /** An attempt whose holders all send the segment d, each up to some point: a success stores a
        nonempty run of d's first chunks, and d itself when the root is d's and no shorter run of
        chunks has the same hash. */
    method RepairFromCopies(request: Request, e: Env, ghost d: Bytes, ghost chunks: seq<Bytes>) returns (ok: bool)
      requires Finishes(e.finished, request.holders, self)
      requires ChunksOf(chunks, d, CHUNK_SIZE) && forall a | a in e.finished :: Transfers(a, chunks)
      modifies this
      ensures ok && request.segment !in old(registry) ==> Complete(request) && PrefixOf(store[request.segment], chunks)
      ensures ok && request.segment !in old(registry) && request.root == Some(hash(d)) && Recognised(hash, chunks) ==>
        store[request.segment] == d
    {
      ServedIsPrefix(e.finished, chunks);
      ok := ExecuteRepair(request, e);
      if ok && request.segment !in old(registry) {
        ghost var p: nat :| 0 < p <= |chunks| && store[request.segment] == Joined(chunks[..p]);
        if p == |chunks| {
          assert chunks[..p] == chunks;
        }
      }
    }

    // What a retry needs to know of a run.
    method RunOnce(request: Request, e: Env) returns (ok: bool)
      requires Finishes(e.finished, request.holders, self)
      modifies this
      ensures request.segment in old(registry) ==> ok && Complete(request) == old(Complete(request))
      ensures request.segment !in old(registry) ==> (ok <==> Completes(hash, request, e)) && (ok <==> Complete(request))
      ensures request.segment !in old(registry) ==> (request.segment in registry <==> ok || Blocks(hash, request, e))
    {
      ok := ExecuteRepair(request, e);
    }

    /** A request with its retries runs at most `limit - retryCount + 1` times. Starting unregistered,
        it leaves a complete copy exactly when one of those runs completes and every run before fails
        without leaving a registration and finds room in the queue. It also reports success when a
        run leaves a registration and is queued again: the next run then does nothing. */
    method ProcessRequest(request: Request, retryCount: nat, limit: nat, env: nat -> Env) returns (ok: bool, runs: nat)
      requires forall n :: Finishes(env(n).finished, request.holders, self)
      modifies this
      ensures 1 <= runs <= 1 + SaturatingSub(limit, retryCount)
      ensures request.segment !in old(registry) ==>
        (Complete(request) <==> CompletesWithin(hash, request, env, SaturatingSub(limit, retryCount)))
      ensures request.segment !in old(registry) ==>
        (ok <==> Complete(request) || StallsWithin(hash, request, env, SaturatingSub(limit, retryCount)))
    {
      ghost var most := SaturatingSub(limit, retryCount);
      ok := RunOnce(request, env(0));
      FirstRun(hash, request, env, most);
      runs := 1;
      var count := retryCount;
      while !ok && count < limit
        invariant retryCount <= count && runs == 1 + count - retryCount <= 1 + most
        invariant request.segment !in old(registry) && ok ==> Ends(hash, request, env, most, Complete(request))
        invariant request.segment !in old(registry) && !ok ==>
          && Passes(hash, request, env, runs - 1) && !Completes(hash, request, env(runs - 1)) && !Complete(request)
          && (request.segment in registry <==> Blocks(hash, request, env(runs - 1)))
      {
        if !env(runs - 1).queued {
          break;
        }
        if request.segment !in old(registry) {
          NextRun(hash, request, env, most, runs - 1);
        }
        ok := RunOnce(request, env(runs));
        count, runs := count + 1, runs + 1;
      }
      if request.segment !in old(registry) && !ok {
        Exhausted(hash, request, env, most, runs - 1);
      }
    }
  }

  /** No shorter run of the chunks has the hash of them all. */
  ghost predicate Recognised(hash: Bytes -> Root, chunks: seq<Bytes>) {
    forall p | 0 < p < |chunks| :: hash(Joined(chunks[..p])) != hash(Joined(chunks))
  }

  // ---- retries, seen from their outcomes alone ----

  /** The first n runs fail, leave no registration, and are queued again. */
  ghost predicate Passes(hash: Bytes -> Root, request: Request, env: nat -> Env, n: nat) {
    forall i: nat | i < n :: !Completes(hash, request, env(i)) && !Blocks(hash, request, env(i)) && env(i).queued
  }

  ghost predicate CompletesWithin(hash: Bytes -> Root, request: Request, env: nat -> Env, most: nat) {
    exists n: nat :: n <= most && Passes(hash, request, env, n) && Completes(hash, request, env(n))
  }

  ghost predicate StallsWithin(hash: Bytes -> Root, request: Request, env: nat -> Env, most: nat) {
    exists n: nat :: n < most && Passes(hash, request, env, n) && Blocks(hash, request, env(n)) && env(n).queued
  }

  /** Success: with a complete copy, or finding what the run before left. */
  ghost predicate Ends(hash: Bytes -> Root, request: Request, env: nat -> Env, most: nat, complete: bool) {
    && (complete <==> CompletesWithin(hash, request, env, most))
    && (complete || StallsWithin(hash, request, env, most))
  }

  lemma FirstRun(hash: Bytes -> Root, request: Request, env: nat -> Env, most: nat)
    ensures Passes(hash, request, env, 0)
    ensures Completes(hash, request, env(0)) ==> CompletesWithin(hash, request, env, most)
  {
    assert Passes(hash, request, env, 0);
  }

  // A failed run that is queued again: the next one finds its registration, or starts afresh.
  lemma NextRun(hash: Bytes -> Root, request: Request, env: nat -> Env, most: nat, n: nat)
    requires Passes(hash, request, env, n) && !Completes(hash, request, env(n)) && env(n).queued && n < most
    ensures Blocks(hash, request, env(n)) ==> StallsWithin(hash, request, env, most) && !CompletesWithin(hash, request, env, most)
    ensures !Blocks(hash, request, env(n)) ==> Passes(hash, request, env, n + 1)
    ensures !Blocks(hash, request, env(n)) && Completes(hash, request, env(n + 1)) ==> CompletesWithin(hash, request, env, most)
  {
    if Blocks(hash, request, env(n)) {
      forall c: nat | c <= most && Passes(hash, request, env, c) ensures !Completes(hash, request, env(c)) {
        assert c <= n;
      }
    } else {
      assert Passes(hash, request, env, n + 1);
    }
  }

  // A last run that fails, unqueued or at the limit, leaves neither.
  lemma Exhausted(hash: Bytes -> Root, request: Request, env: nat -> Env, most: nat, n: nat)
    requires Passes(hash, request, env, n) && !Completes(hash, request, env(n)) && n <= most
    requires n == most || !env(n).queued
    ensures !CompletesWithin(hash, request, env, most) && !StallsWithin(hash, request, env, most)
  {
    forall c: nat | c <= most && Passes(hash, request, env, c)
      ensures !Completes(hash, request, env(c)) && !(c < most && Blocks(hash, request, env(c)) && env(c).queued)
    {
      assert c <= n;
    }
  }
}
