/** Several repair attempts for one segment running at once (repair.rs process_request spawns each
    request; lifecycle.rs reserve, seal, delete and refresh are their shared steps). A step is what
    an attempt does between two suspension points. */
module RepairRaces {
  import opened Common
  import opened Holders
  import opened Transfer
  import opened Repair

  /** How an attempt ends: already registered; its own seal and stamp; sealed by another first;
      failed after deleting the registration; failed otherwise. */
  datatype End = Skipped | Stored | Late | Cleaned | Failed

  datatype Phase = Starting | Fetching | Ready | Writing | Cleaning | Sealing | Stamping | Finished(end: End)

  /** An attempt; `data` is what it fetched and verified, empty before. */
  datatype Worker = Worker(phase: Phase, data: Bytes)

  /** The segment's registration, its stored bytes and the attempts; `writer` and `sealer` record
      who wrote last and who last set the root. */
  datatype State = State(entry: Option<Entry>, store: Option<Bytes>, workers: seq<Worker>, writer: nat, sealer: nat)

  /** A step of one attempt: the bytes it fetches, whether its durable effect succeeds, and whether
      a write reaches the disk. */
  datatype Move = Move(who: nat, data: Bytes, durable: bool, landed: bool)

  datatype Setting = Setting(hash: Bytes -> Root, self: NodeId, requests: seq<Request>)

  function Start(x: Setting): State {
    State(None, None, seq(|x.requests|, _ => Worker(Starting, [])), 0, 0)
  }

  predicate Fits(x: Setting, s: State) { |s.workers| == |x.requests| }

  predicate IsSealed(s: State) { s.entry.Some? && s.entry.value.Sealed? }

  function Goes(s: State, who: nat, phase: Phase): State
    requires who < |s.workers|
  {
    s.(workers := s.workers[who := s.workers[who].(phase := phase)])
  }

  /** The next step of an attempt. */
  function Step(x: Setting, s: State, m: Move): State
    requires Fits(x, s)
  {
    if m.who >= |s.workers| then s else
      var w, r := s.workers[m.who], x.requests[m.who];
      match w.phase
      case Starting => Goes(s, m.who, if s.entry.Some? then Finished(Skipped) else Fetching)
      case Fetching =>
        if Accepts(x.hash, r, m.data) then s.(workers := s.workers[m.who := Worker(Ready, m.data)])
        else Goes(s, m.who, Finished(Failed))
      case Ready =>
        if m.durable && !IsSealed(s)
        then Goes(s.(entry := if s.entry.None? then Some(Reserved(r.shape)) else s.entry), m.who, Writing)
        else Goes(s, m.who, Finished(Failed))
      case Writing =>
        if m.landed && s.entry.Some?
        then Goes(s.(store := Some(w.data), writer := m.who), m.who, if m.durable then Sealing else Cleaning)
        else Goes(s, m.who, Cleaning)
      case Cleaning =>
        if m.durable then Goes(s.(entry := None), m.who, Finished(Cleaned)) else Goes(s, m.who, Finished(Failed))
      case Sealing =>
        if IsSealed(s) then Goes(s, m.who, Finished(Late))
        else if m.durable && s.entry.Some?
        then Goes(s.(entry := Some(Sealed(r.shape, x.hash(w.data), [])), sealer := m.who), m.who, Stamping)
        else Goes(s, m.who, Finished(Failed))
      case Stamping =>
        if m.durable && IsSealed(s)
        then Goes(s.(entry := Some(Sealed(s.entry.value.shape, x.hash(w.data), Once(r.holders + [x.self]))), sealer := m.who),
                  m.who, Finished(Stored))
        else Goes(s, m.who, Finished(Failed))
      case Finished(_) => s
  }

  function Run(x: Setting, moves: seq<Move>): (s: State)
    ensures Fits(x, s)
  {
    if moves == [] then Start(x) else Step(x, Run(x, moves[..|moves| - 1]), moves[|moves| - 1])
  }

  // ---- what every run keeps ----

  predicate BeforeFetch(p: Phase) { p.Starting? || p.Fetching? || p == Finished(Skipped) }

  predicate PastFetch(p: Phase) { !BeforeFetch(p) && p != Finished(Failed) }

  /** Past the fetch, an attempt has verified bytes. */
  ghost predicate WorkersVerified(x: Setting, s: State) {
    && Fits(x, s)
    && forall i | 0 <= i < |s.workers| ::
         && (s.workers[i].data != [] ==> Accepts(x.hash, x.requests[i], s.workers[i].data))
         && (PastFetch(s.workers[i].phase) ==> s.workers[i].data != [])
         && (BeforeFetch(s.workers[i].phase) ==> s.workers[i].data == [])
  }

  /** The stored bytes are some attempt's verified bytes. */
  ghost predicate StoreTraced(s: State) {
    && (s.store.Some? ==> s.writer < |s.workers| && s.store.value != [] && s.workers[s.writer].data == s.store.value)
    && forall i | 0 <= i < |s.workers| :: s.workers[i].phase.Sealing? || s.workers[i].phase.Stamping? ==> s.store.Some?
  }

  /** The root is the hash of some attempt's verified bytes, and something is stored. */
  ghost predicate RootTraced(x: Setting, s: State) {
    IsSealed(s) ==>
      && s.store.Some? && s.sealer < |s.workers| && s.workers[s.sealer].data != []
      && s.entry.value.root == x.hash(s.workers[s.sealer].data)
  }

  /** An attempt that sealed, or found the segment sealed, stands unless another cleaned up. */
  ghost predicate StandsOrCleaned(s: State) {
    forall i | 0 <= i < |s.workers| ::
      (s.workers[i].phase.Stamping? || s.workers[i].phase == Finished(Stored) || s.workers[i].phase == Finished(Late)) && !IsSealed(s)
      ==> exists j :: 0 <= j < |s.workers| && s.workers[j].phase == Finished(Cleaned)
  }

  lemma StepKeepsVerified(x: Setting, s: State, m: Move)
    requires WorkersVerified(x, s)
    ensures WorkersVerified(x, Step(x, s, m))
  {
  }

  lemma StepKeepsData(x: Setting, s: State, m: Move)
    requires WorkersVerified(x, s)
    ensures forall i | 0 <= i < |s.workers| && s.workers[i].data != [] :: Step(x, s, m).workers[i].data == s.workers[i].data
  {
  }

  lemma StepKeepsStore(x: Setting, s: State, m: Move)
    requires WorkersVerified(x, s) && StoreTraced(s)
    ensures StoreTraced(Step(x, s, m)) && (s.store.Some? ==> Step(x, s, m).store.Some?)
  {
    StepKeepsData(x, s, m);
    if m.who < |s.workers| {
      assert PastFetch(s.workers[m.who].phase) ==> s.workers[m.who].data != [];
    }
  }

  lemma StepKeepsRoot(x: Setting, s: State, m: Move)
    requires WorkersVerified(x, s) && StoreTraced(s) && RootTraced(x, s)
    ensures RootTraced(x, Step(x, s, m))
  {
    StepKeepsData(x, s, m);
    StepKeepsStore(x, s, m);
    if m.who < |s.workers| {
      assert PastFetch(s.workers[m.who].phase) ==> s.workers[m.who].data != [];
    }
  }

  lemma StepKeepsStanding(x: Setting, s: State, m: Move)
    requires Fits(x, s) && StandsOrCleaned(s)
    ensures StandsOrCleaned(Step(x, s, m))
  {
    var t := Step(x, s, m);
    if j :| 0 <= j < |s.workers| && s.workers[j].phase == Finished(Cleaned) {
      assert t.workers[j].phase == Finished(Cleaned);
    } else if m.who < |s.workers| && t.workers[m.who].phase == Finished(Cleaned) {
    }
  }

  lemma {:induction false} RunKeeps(x: Setting, moves: seq<Move>)
    ensures WorkersVerified(x, Run(x, moves)) && StandsOrCleaned(Run(x, moves))
    ensures StoreTraced(Run(x, moves)) && RootTraced(x, Run(x, moves))
  {
    if moves != [] {
      var s, m := Run(x, moves[..|moves| - 1]), moves[|moves| - 1];
      RunKeeps(x, moves[..|moves| - 1]);
      StepKeepsVerified(x, s, m);
      StepKeepsStore(x, s, m);
      StepKeepsRoot(x, s, m);
      StepKeepsStanding(x, s, m);
    }
  }

  /** In every run, whatever is stored was accepted by one of the requests. */
  lemma OnlyVerifiedStored(x: Setting, moves: seq<Move>)
    ensures Run(x, moves).store.Some? ==>
      exists i :: 0 <= i < |x.requests| && Accepts(x.hash, x.requests[i], Run(x, moves).store.value)
  {
    RunKeeps(x, moves);
  }

  /** The location list of a sealed segment is empty until it is stamped; then it holds the stamping
      request's holders and this node, each once. */
  ghost predicate Located(x: Setting, s: State) {
    IsSealed(s) ==>
      || s.entry.value.locations == []
      || (&& s.sealer < |x.requests| && Distinct(s.entry.value.locations)
          && Members(s.entry.value.locations) == Members(x.requests[s.sealer].holders) + {x.self})
  }

  lemma {:induction false} RunLocated(x: Setting, moves: seq<Move>)
    ensures Located(x, Run(x, moves))
  {
    if moves != [] {
      var s, m := Run(x, moves[..|moves| - 1]), moves[|moves| - 1];
      RunLocated(x, moves[..|moves| - 1]);
      if m.who < |s.workers| && s.workers[m.who].phase.Stamping? {
        OnceKeepsMembers(x.requests[m.who].holders + [x.self]);
        assert Members(x.requests[m.who].holders + [x.self]) == Members(x.requests[m.who].holders) + {x.self};
      }
    }
  }

  ghost predicate SomeCleaned(s: State) {
    exists j :: 0 <= j < |s.workers| && s.workers[j].phase == Finished(Cleaned)
  }

  /** In every run, only a clean-up unseals a segment, and no attempt takes up writing while it is
      sealed. */
  lemma {:induction false} SealLasts(x: Setting, moves: seq<Move>, p: nat)
    requires p <= |moves| && IsSealed(Run(x, moves[..p]))
    ensures IsSealed(Run(x, moves)) || SomeCleaned(Run(x, moves))
    ensures forall i | 0 <= i < |x.requests| && Run(x, moves).workers[i].phase.Writing? ::
      Run(x, moves[..p]).workers[i].phase.Writing? || SomeCleaned(Run(x, moves))
  {
    if p < |moves| {
      var rest := moves[..|moves| - 1];
      var s, t := Run(x, rest), Run(x, moves);
      assert rest[..p] == moves[..p];
      SealLasts(x, rest, p);
      if j :| 0 <= j < |s.workers| && s.workers[j].phase == Finished(Cleaned) {
        assert t.workers[j].phase == Finished(Cleaned);
      } else if !IsSealed(t) {
        assert t.workers[moves[|moves| - 1].who].phase == Finished(Cleaned);
      }
    } else {
      assert moves[..p] == moves;
    }
  }

  // ---- does a sealed copy match its root? ----

  ghost predicate Consistent(x: Setting, s: State) {
    IsSealed(s) ==> s.store.Some? && x.hash(s.store.value) == s.entry.value.root
  }

  /** No two requests accept bytes with different hashes. */
  ghost predicate Agree(x: Setting) {
    forall i, j, d, e | 0 <= i < |x.requests| && 0 <= j < |x.requests| && i != j
                        && Accepts(x.hash, x.requests[i], d) && Accepts(x.hash, x.requests[j], e) ::
      x.hash(d) == x.hash(e)
  }

  /** A sealed copy matches its root in every run exactly when no two of the requests accept bytes
      with different hashes. */
  lemma ConsistentExactly(x: Setting)
    ensures (forall moves :: Consistent(x, Run(x, moves))) <==> Agree(x)
  {
    if Agree(x) {
      forall moves ensures Consistent(x, Run(x, moves)) {
        RunKeeps(x, moves);
        var s := Run(x, moves);
        if IsSealed(s) {
          assert Accepts(x.hash, x.requests[s.writer], s.workers[s.writer].data);
          assert Accepts(x.hash, x.requests[s.sealer], s.workers[s.sealer].data);
        }
      }
    } else {
      var i, j, d, e :| 0 <= i < |x.requests| && 0 <= j < |x.requests| && i != j
        && Accepts(x.hash, x.requests[i], d) && Accepts(x.hash, x.requests[j], e) && x.hash(d) != x.hash(e);
      var s := RaceToSeal(x, i, j, d, e);
      Overwrites(x, s, i, j);
    }
  }

  /** The hash tells some nonempty bytes apart, and every given root is the hash of something. */
  ghost predicate Telling(x: Setting) {
    && (exists d, e :: d != [] && e != [] && x.hash(d) != x.hash(e))
    && forall i | 0 <= i < |x.requests| && x.requests[i].root.Some? :: Acceptable(x, i)
  }

  ghost predicate OneRoot(x: Setting) {
    forall i, j | 0 <= i < |x.requests| && 0 <= j < |x.requests| ::
      x.requests[i].root.Some? && x.requests[i].root == x.requests[j].root
  }

  /** What a caller can check: the requests agree exactly when there is at most one, or all carry
      the same root. */
  lemma RootsDecide(x: Setting)
    requires Telling(x)
    ensures Agree(x) <==> |x.requests| <= 1 || OneRoot(x)
  {
    if OneRoot(x) {
      OneRootAgrees(x);
    } else if |x.requests| > 1 {
      if i :| 0 <= i < |x.requests| && x.requests[i].root.None? {
        MissingRootDisagrees(x, i, if i == 0 then 1 else 0);
      } else {
        var i, j :| 0 <= i < |x.requests| && 0 <= j < |x.requests| && x.requests[i].root != x.requests[j].root;
        DifferentRootsDisagree(x, i, j);
      }
    }
  }

  lemma OneRootAgrees(x: Setting)
    requires OneRoot(x)
    ensures Agree(x)
  {
    forall i, j, d, e | 0 <= i < |x.requests| && 0 <= j < |x.requests| && i != j
                        && Accepts(x.hash, x.requests[i], d) && Accepts(x.hash, x.requests[j], e)
      ensures x.hash(d) == x.hash(e)
    {
      assert x.requests[i].root.Some? && x.requests[i].root == x.requests[j].root;
    }
  }

  lemma DifferentRootsDisagree(x: Setting, i: nat, j: nat)
    requires Telling(x) && i < |x.requests| && j < |x.requests|
    requires x.requests[i].root.Some? && x.requests[j].root.Some? && x.requests[i].root != x.requests[j].root
    ensures !Agree(x)
  {
    assert Acceptable(x, i) && Acceptable(x, j);
    var d :| Accepts(x.hash, x.requests[i], d);
    var e :| Accepts(x.hash, x.requests[j], e);
    assert x.hash(d) != x.hash(e);
  }

  // Whatever another request accepts, a request without a root accepts something with another hash.
  lemma MissingRootDisagrees(x: Setting, i: nat, j: nat)
    requires Telling(x) && i < |x.requests| && j < |x.requests| && i != j && x.requests[i].root.None?
    ensures !Agree(x)
  {
    var a, b :| a != [] && b != [] && x.hash(a) != x.hash(b);
    if x.requests[j].root.None? {
      assert Accepts(x.hash, x.requests[i], a) && Accepts(x.hash, x.requests[j], b);
    } else {
      assert Acceptable(x, j);
      var e :| Accepts(x.hash, x.requests[j], e);
      assert Accepts(x.hash, x.requests[i], a) && Accepts(x.hash, x.requests[i], b);
      assert x.hash(a) != x.hash(e) || x.hash(b) != x.hash(e);
    }
  }

  // ---- does a reported success last? ----

  /** Attempts that stored the segment, or found it sealed, are right to report success. */
  ghost predicate Stands(s: State) {
    forall i | 0 <= i < |s.workers| :: s.workers[i].phase == Finished(Stored) || s.workers[i].phase == Finished(Late) ==> IsSealed(s)
  }

  ghost predicate Acceptable(x: Setting, i: nat) {
    i < |x.requests| && exists d :: Accepts(x.hash, x.requests[i], d)
  }

  /** The success of attempts that stored the segment or found it sealed lasts in every run exactly
      when no two requests can both be served: one attempt's clean-up after a failed write deletes
      the copy another has sealed. */
  lemma StoredStandsExactly(x: Setting)
    ensures (forall moves :: Stands(Run(x, moves))) <==> !exists i: nat, j: nat :: i != j && Acceptable(x, i) && Acceptable(x, j)
  {
    if i: nat, j: nat :| i != j && Acceptable(x, i) && Acceptable(x, j) {
      var d :| Accepts(x.hash, x.requests[i], d);
      var e :| Accepts(x.hash, x.requests[j], e);
      var s := RaceToSeal(x, i, j, d, e);
      Deletes(x, s, i, j);
    } else {
      forall moves ensures Stands(Run(x, moves)) {
        AloneStands(x, moves);
      }
    }
  }

  lemma AloneStands(x: Setting, moves: seq<Move>)
    requires !exists i: nat, j: nat :: i != j && Acceptable(x, i) && Acceptable(x, j)
    ensures Stands(Run(x, moves))
  {
    RunKeeps(x, moves);
    var s := Run(x, moves);
    forall i | 0 <= i < |s.workers| && (s.workers[i].phase == Finished(Stored) || s.workers[i].phase == Finished(Late))
      ensures IsSealed(s)
    {
      if !IsSealed(s) {
        var j :| 0 <= j < |s.workers| && s.workers[j].phase == Finished(Cleaned);
        assert Acceptable(x, i) && Acceptable(x, j);
      }
    }
  }

  ghost predicate Ended(s: State) {
    forall i | 0 <= i < |s.workers| :: s.workers[i].phase.Finished?
  }

  predicate Succeeded(p: Phase) { p == Finished(Skipped) || p == Finished(Stored) || p == Finished(Late) }

  /** When all attempts have ended and any reports success, the segment is sealed. */
  ghost predicate Delivers(s: State) {
    Ended(s) && (exists i :: 0 <= i < |s.workers| && Succeeded(s.workers[i].phase)) ==> IsSealed(s)
  }

  /** A reported success, whichever it is, means a sealed segment at the end of every run exactly
      when no request that can be served has another request beside it: an attempt that finds a bare
      reservation reports success too, and the reservation may be cleaned up afterwards. */
  lemma DeliversExactly(x: Setting)
    ensures (forall moves :: Delivers(Run(x, moves))) <==> |x.requests| <= 1 || !exists i: nat :: Acceptable(x, i)
  {
    if |x.requests| > 1 && exists i: nat :: Acceptable(x, i) {
      var i: nat :| Acceptable(x, i);
      var d :| Accepts(x.hash, x.requests[i], d);
      SkippedInVain(x, i, if i == 0 then 1 else 0, d);
    } else {
      forall moves ensures Delivers(Run(x, moves)) {
        LonelyDelivers(x, moves);
      }
    }
  }

  /** What a caller can check: with a hash that tells bytes apart and roots that are someone's, both
      hold exactly when there is at most one request. */
  lemma SuccessNeedsOneRequest(x: Setting)
    requires Telling(x)
    ensures (forall moves :: Stands(Run(x, moves))) <==> |x.requests| <= 1
    ensures (forall moves :: Delivers(Run(x, moves))) <==> |x.requests| <= 1
  {
    StoredStandsExactly(x);
    DeliversExactly(x);
    if |x.requests| > 1 {
      ServableWhenTelling(x, 0);
      ServableWhenTelling(x, 1);
    }
  }

  lemma ServableWhenTelling(x: Setting, i: nat)
    requires Telling(x) && i < |x.requests|
    ensures Acceptable(x, i)
  {
    var d, e :| d != [] && e != [] && x.hash(d) != x.hash(e);
    if x.requests[i].root.None? {
      assert Accepts(x.hash, x.requests[i], d);
    }
  }

  // ---- why an attempt finds the segment registered ----

  ghost predicate SomeFetched(s: State) {
    exists i :: 0 <= i < |s.workers| && s.workers[i].data != []
  }

  /** A registration, and an attempt that found one, go back to an attempt that fetched. */
  ghost predicate Explained(s: State) {
    && (s.entry.Some? ==> SomeFetched(s))
    && forall i | 0 <= i < |s.workers| :: s.workers[i].phase == Finished(Skipped) ==> SomeFetched(s)
  }

  lemma StepKeepsExplained(x: Setting, s: State, m: Move)
    requires WorkersVerified(x, s) && Explained(s)
    ensures Explained(Step(x, s, m))
  {
    StepKeepsData(x, s, m);
    var t := Step(x, s, m);
    if i :| 0 <= i < |s.workers| && s.workers[i].data != [] {
      assert t.workers[i].data != [];
    } else if m.who < |s.workers| {
      assert !PastFetch(s.workers[m.who].phase);
    }
  }

  lemma {:induction false} RunExplained(x: Setting, moves: seq<Move>)
    ensures Explained(Run(x, moves))
  {
    if moves != [] {
      RunExplained(x, moves[..|moves| - 1]);
      RunKeeps(x, moves[..|moves| - 1]);
      StepKeepsExplained(x, Run(x, moves[..|moves| - 1]), moves[|moves| - 1]);
    }
  }

  // Behind every success that does not last there is another attempt that fetched.
  lemma FailureHasCause(x: Setting, moves: seq<Move>, i: nat) returns (j: nat)
    requires i < |x.requests| && Succeeded(Run(x, moves).workers[i].phase) && !IsSealed(Run(x, moves))
    ensures j != i && Acceptable(x, j)
  {
    RunKeeps(x, moves);
    RunExplained(x, moves);
    var s := Run(x, moves);
    if s.workers[i].phase == Finished(Skipped) {
      var c :| 0 <= c < |s.workers| && s.workers[c].data != [];
      j := c;
    } else {
      var c :| 0 <= c < |s.workers| && s.workers[c].phase == Finished(Cleaned);
      j := c;
    }
    assert Accepts(x.hash, x.requests[j], s.workers[j].data);
  }

  lemma LonelyDelivers(x: Setting, moves: seq<Move>)
    requires |x.requests| <= 1 || !exists i: nat :: Acceptable(x, i)
    ensures Delivers(Run(x, moves))
  {
    var s := Run(x, moves);
    if i :| 0 <= i < |s.workers| && Succeeded(s.workers[i].phase) && !IsSealed(s) {
      var j := FailureHasCause(x, moves, i);
    }
  }

  // ---- the race ----

  ghost predicate Reachable(x: Setting, s: State) {
    exists moves :: Run(x, moves) == s
  }

  lemma Reach(x: Setting, s: State, m: Move)
    requires Fits(x, s) && Reachable(x, s)
    ensures Reachable(x, Step(x, s, m))
  {
    var moves :| Run(x, moves) == s;
    assert (moves + [m])[..|moves|] == moves;
    assert Run(x, moves + [m]) == Step(x, s, m);
  }

  function With(s: State, i: nat, w: Worker): State
    requires i < |s.workers|
  {
    s.(workers := s.workers[i := w])
  }

  // A worker that starts while nothing is registered fetches bytes it accepts.
  lemma StartAndFetch(x: Setting, s: State, i: nat, d: Bytes)
    requires Fits(x, s) && Reachable(x, s) && i < |s.workers|
    requires s.entry.None? && s.workers[i].phase.Starting? && Accepts(x.hash, x.requests[i], d)
    ensures Reachable(x, With(s, i, Worker(Ready, d)))
  {
    var m := Move(i, d, true, true);
    var t := Step(x, s, m);
    Reach(x, s, m);
    Reach(x, t, m);
    assert Step(x, t, m).workers == s.workers[i := Worker(Ready, d)];
  }

  // A ready worker reserves.
  lemma Reserve(x: Setting, s: State, i: nat) returns (t: State)
    requires Fits(x, s) && Reachable(x, s) && i < |s.workers| && s.workers[i].phase.Ready? && !IsSealed(s)
    ensures Reachable(x, t) && t.entry.Some? && t.entry.value.Reserved?
    ensures t.workers == s.workers[i := Worker(Writing, s.workers[i].data)] && t.store == s.store
  {
    Reach(x, s, Move(i, [], true, true));
    t := Step(x, s, Move(i, [], true, true));
  }

  // A reserved worker writes and seals.
  lemma WriteAndSeal(x: Setting, s: State, i: nat) returns (t: State)
    requires Fits(x, s) && Reachable(x, s) && i < |s.workers| && s.workers[i].phase.Writing?
    requires s.entry.Some? && s.entry.value.Reserved?
    ensures Reachable(x, t) && IsSealed(t) && t.entry.value.root == x.hash(s.workers[i].data)
    ensures t.workers == s.workers[i := Worker(Stamping, s.workers[i].data)]
  {
    var m := Move(i, [], true, true);
    var u := Step(x, s, m);
    Reach(x, s, m);
    Reach(x, u, m);
    t := Step(x, u, m);
  }

  // Two attempts both reserve; the first then writes and seals while the second is about to write.
  lemma RaceToSeal(x: Setting, i: nat, j: nat, d: Bytes, e: Bytes) returns (s: State)
    requires i < |x.requests| && j < |x.requests| && i != j
    requires Accepts(x.hash, x.requests[i], d) && Accepts(x.hash, x.requests[j], e)
    ensures Fits(x, s) && Reachable(x, s) && IsSealed(s) && s.entry.value.root == x.hash(d)
    ensures s.workers[i] == Worker(Stamping, d) && s.workers[j] == Worker(Writing, e)
  {
    s := Start(x);
    assert Run(x, []) == s;
    StartAndFetch(x, s, i, d);
    s := With(s, i, Worker(Ready, d));
    StartAndFetch(x, s, j, e);
    s := With(s, j, Worker(Ready, e));
    s := Reserve(x, s, i);
    s := Reserve(x, s, j);
    s := WriteAndSeal(x, s, i);
  }

  // The second attempt now overwrites the sealed copy with its own bytes.
  lemma Overwrites(x: Setting, s: State, i: nat, j: nat)
    requires Fits(x, s) && Reachable(x, s) && IsSealed(s) && j < |s.workers| && s.workers[j].phase.Writing?
    requires x.hash(s.workers[j].data) != s.entry.value.root
    ensures exists moves :: !Consistent(x, Run(x, moves))
  {
    Reach(x, s, Move(j, [], true, true));
    var t := Step(x, s, Move(j, [], true, true));
    assert !Consistent(x, t);
  }

  // The second attempt's write fails and its clean-up deletes what the first has sealed and stamped.
  lemma Deletes(x: Setting, s: State, i: nat, j: nat)
    requires Fits(x, s) && Reachable(x, s) && IsSealed(s) && i < |s.workers| && j < |s.workers|
    requires s.workers[i].phase.Stamping? && s.workers[j].phase.Writing?
    ensures exists moves :: !Stands(Run(x, moves))
  {
    var stamp, write, clean := Move(i, [], true, true), Move(j, [], false, false), Move(j, [], true, true);
    Reach(x, s, stamp);
    var t := Step(x, s, stamp);
    Reach(x, t, write);
    var u := Step(x, t, write);
    Reach(x, u, clean);
    var v := Step(x, u, clean);
    assert v.workers[i].phase == Finished(Stored) && !IsSealed(v);
    assert !Stands(v);
  }

  // A worker that starts while nothing is registered and fetches nothing fails.
  lemma FailsEmpty(x: Setting, s: State, i: nat)
    requires Fits(x, s) && Reachable(x, s) && i < |s.workers|
    requires s.entry.None? && s.workers[i] == Worker(Starting, [])
    ensures Reachable(x, With(s, i, Worker(Finished(Failed), [])))
  {
    var m := Move(i, [], true, true);
    var t := Step(x, s, m);
    Reach(x, s, m);
    Reach(x, t, m);
    assert Step(x, t, m).workers == s.workers[i := Worker(Finished(Failed), [])];
  }

  // All but two attempts fail before anything is registered.
  lemma {:induction false} OthersFail(x: Setting, i: nat, j: nat, n: nat) returns (s: State)
    requires i < |x.requests| && j < |x.requests| && i != j && n <= |x.requests|
    ensures Fits(x, s) && Reachable(x, s) && s.entry.None?
    ensures forall k | 0 <= k < |s.workers| ::
      s.workers[k] == Worker(if k < n && k != i && k != j then Finished(Failed) else Starting, [])
  {
    if n == 0 {
      s := Start(x);
      assert Run(x, []) == s;
    } else {
      s := OthersFail(x, i, j, n - 1);
      if n - 1 != i && n - 1 != j {
        FailsEmpty(x, s, n - 1);
        s := With(s, n - 1, Worker(Finished(Failed), []));
      }
    }
  }

  // One attempt reserves, another finds the reservation, then the first fails and cleans up.
  lemma SkippedInVain(x: Setting, i: nat, j: nat, d: Bytes)
    requires i < |x.requests| && j < |x.requests| && i != j && Accepts(x.hash, x.requests[i], d)
    ensures exists moves :: !Delivers(Run(x, moves))
  {
    var s := OthersFail(x, i, j, |x.requests|);
    StartAndFetch(x, s, i, d);
    s := With(s, i, Worker(Ready, d));
    s := Reserve(x, s, i);
    s := Skips(x, s, j);
    s := WriteFails(x, s, i);
    assert s.workers[j].phase == Finished(Skipped) && Succeeded(s.workers[j].phase);
    assert forall k | 0 <= k < |s.workers| && k != i && k != j :: s.workers[k].phase == Finished(Failed);
    assert !Delivers(s);
  }

  lemma Skips(x: Setting, s: State, j: nat) returns (t: State)
    requires Fits(x, s) && Reachable(x, s) && j < |s.workers| && s.workers[j].phase.Starting? && s.entry.Some?
    ensures Fits(x, t) && Reachable(x, t) && t.entry == s.entry
    ensures t.workers == s.workers[j := Worker(Finished(Skipped), s.workers[j].data)]
  {
    Reach(x, s, Move(j, [], true, true));
    t := Step(x, s, Move(j, [], true, true));
  }

  lemma WriteFails(x: Setting, s: State, i: nat) returns (t: State)
    requires Fits(x, s) && Reachable(x, s) && i < |s.workers| && s.workers[i].phase.Writing?
    ensures Fits(x, t) && Reachable(x, t) && t.entry.None?
    ensures t.workers == s.workers[i := Worker(Finished(Cleaned), s.workers[i].data)]
  {
    var write, clean := Move(i, [], false, false), Move(i, [], true, true);
    var u := Step(x, s, write);
    Reach(x, s, write);
    Reach(x, u, clean);
    t := Step(x, u, clean);
    assert t.workers == s.workers[i := Worker(Finished(Cleaned), s.workers[i].data)];
  }
}
