/** Moving a segment between nodes: cut into chunks by the holder, reassembled by the puller
    (healing_service.rs fetch_shard, repair.rs fetch_segment_from_holders). */
module Transfer {
  import opened Common
  import opened Holders

  type Bytes = seq<bv8>

  const CHUNK_SIZE: nat := 65536

  // ---- chunks ----

  function Joined(chunks: seq<Bytes>): Bytes {
    if chunks == [] then [] else Joined(chunks[..|chunks| - 1]) + chunks[|chunks| - 1]
  }

  lemma {:induction false} JoinedPrefix(chunks: seq<Bytes>, p: nat)
    requires p <= |chunks|
    ensures Joined(chunks[..p]) <= Joined(chunks)
    ensures p < |chunks| && (forall i | p <= i < |chunks| :: chunks[i] != []) ==> Joined(chunks[..p]) < Joined(chunks)
    decreases |chunks| - p
  {
    if p < |chunks| {
      JoinedPrefix(chunks, p + 1);
      assert chunks[..p + 1][..p] == chunks[..p];
    } else {
      assert chunks[..p] == chunks;
    }
  }

  /** Chunks of some data: none empty, none over n, all but the last full, and joined again they are
      the data. */
  ghost predicate ChunksOf(chunks: seq<Bytes>, data: Bytes, n: nat) {
    && Joined(chunks) == data
    && (forall i | 0 <= i < |chunks| :: 0 < |chunks[i]| <= n)
    && (forall i | 0 <= i < |chunks| - 1 :: |chunks[i]| == n)
  }

  method CutIntoChunks(data: Bytes, n: nat) returns (chunks: seq<Bytes>)
    requires n > 0
    ensures ChunksOf(chunks, data, n)
  {
    chunks := [];
    var off := 0;
    while off < |data|
      invariant off <= |data| && Joined(chunks) == data[..off]
      invariant forall i | 0 <= i < |chunks| :: 0 < |chunks[i]| <= n
      invariant off < |data| ==> forall i | 0 <= i < |chunks| :: |chunks[i]| == n
      invariant forall i | 0 <= i < |chunks| - 1 :: |chunks[i]| == n
    {
      var end := if off + n < |data| then off + n else |data|;
      assert (chunks + [data[off..end]])[..|chunks|] == chunks;
      assert data[..off] + data[off..end] == data[..end];
      chunks, off := chunks + [data[off..end]], end;
    }
    assert data[..off] == data;
  }

  // ---- the stream ----

  /** A stream message; after the last one the stream has ended. */
  datatype Message = Chunk(data: Bytes) | Broken

  /** How many leading messages carry bytes. */
  function Carried(stream: seq<Message>): (p: nat)
    ensures p <= |stream|
    ensures forall i | 0 <= i < p :: stream[i].Chunk? && stream[i].data != []
    ensures p < |stream| ==> stream[p].Broken? || stream[p].data == []
  {
    if stream == [] || stream[0].Broken? || stream[0].data == [] then 0 else 1 + Carried(stream[1..])
  }

  function Payloads(stream: seq<Message>): seq<Bytes>
    requires forall i | 0 <= i < |stream| :: stream[i].Chunk?
  {
    seq(|stream|, i requires 0 <= i < |stream| => stream[i].data)
  }

  /** What a stream yields: the bytes before its end, unless it broke first or there are none. */
  function Received(stream: seq<Message>): Option<Bytes> {
    var p := Carried(stream);
    var bytes := Joined(Payloads(stream[..p]));
    if (p < |stream| && stream[p].Broken?) || bytes == [] then None else Some(bytes)
  }

  method Reassemble(stream: seq<Message>) returns (r: Option<Bytes>)
    ensures r == Received(stream)
  {
    var buf, ok, i := [], true, 0;
    while i < |stream|
      invariant i <= Carried(stream) && ok
      invariant buf == Joined(Payloads(stream[..i]))
    {
      if stream[i].Broken? {
        ok := false;
        break;
      }
      if stream[i].data == [] {
        break;
      }
      assert Payloads(stream[..i + 1])[..i] == Payloads(stream[..i]);
      buf, i := buf + stream[i].data, i + 1;
    }
    r := if ok && buf != [] then Some(buf) else None;
  }

  function Sent(chunks: seq<Bytes>): seq<Message> {
    seq(|chunks|, i requires 0 <= i < |chunks| => Chunk(chunks[i]))
  }

  /** A transfer of chunks that stops after p of them, by breaking or by ending. */
  function Cut(chunks: seq<Bytes>, p: nat, broken: bool): seq<Message>
    requires p <= |chunks|
  {
    Sent(chunks[..p]) + if broken then [Broken] else []
  }

  lemma {:induction false} CarriedIs(stream: seq<Message>, p: nat)
    requires p <= |stream|
    requires forall i | 0 <= i < p :: stream[i].Chunk? && stream[i].data != []
    requires p < |stream| ==> stream[p].Broken? || stream[p].data == []
    ensures Carried(stream) == p
  {
    if p > 0 {
      CarriedIs(stream[1..], p - 1);
    }
  }

  lemma StreamYields(chunks: seq<Bytes>, broken: bool)
    requires forall i | 0 <= i < |chunks| :: chunks[i] != []
    ensures Received(Sent(chunks) + if broken then [Broken] else [])
         == if broken || chunks == [] then None else Some(Joined(chunks))
  {
    var stream := Sent(chunks) + if broken then [Broken] else [];
    CarriedIs(stream, |chunks|);
    assert stream[..|chunks|] == Sent(chunks);
    PayloadsOfSent(chunks);
    if chunks != [] {
      assert chunks[|chunks| - 1] != [] && |Joined(chunks)| >= |chunks[|chunks| - 1]|;
    }
  }

  lemma PayloadsOfSent(chunks: seq<Bytes>)
    ensures Payloads(Sent(chunks)) == chunks
  {
  }

  /** A transfer cut off after p chunks, cleanly or not: it yields the whole segment exactly when
      nothing was cut off; a break yields nothing; a clean early end yields a shorter prefix. */
  lemma TransferYields(chunks: seq<Bytes>, p: nat, broken: bool)
    requires p <= |chunks| && forall i | 0 <= i < |chunks| :: chunks[i] != []
    ensures var r := Received(Cut(chunks, p, broken));
      && (r == Some(Joined(chunks)) <==> p == |chunks| > 0 && !broken)
      && (broken || p == 0 ==> r == None)
      && (!broken && 0 < p < |chunks| ==> r.Some? && r.value < Joined(chunks))
      && (r.Some? ==> 0 < p && r.value == Joined(chunks[..p]))
  {
    StreamYields(chunks[..p], broken);
    JoinedPrefix(chunks, p);
    if p == |chunks| {
      assert chunks[..p] == chunks;
    }
    if p > 0 {
      assert chunks[..p][p - 1] != [];
    }
  }

  /** Chunking and reassembly undo each other, for every chunk size. */
  method SendAndReceive(data: Bytes, n: nat) returns (r: Option<Bytes>)
    requires n > 0
    ensures r == if data == [] then None else Some(data)
  {
    var chunks := CutIntoChunks(data, n);
    TransferYields(chunks, |chunks|, false);
    r := Reassemble(Cut(chunks, |chunks|, false));
  }

  // ---- the first holder to serve it ----

  /** The holders asked: all but this node. */
  function Candidates(holders: seq<NodeId>, self: NodeId): (c: seq<NodeId>)
    ensures forall h :: h in c <==> h in holders && h != self
  {
    if holders == [] then []
    else
      var rest := Candidates(holders[..|holders| - 1], self);
      if holders[|holders| - 1] == self then rest else rest + [holders[|holders| - 1]]
  }

  /** A finished attempt on a holder: its stream, or None when the holder was not reached. */
  datatype Attempt = Attempt(holder: NodeId, stream: Option<seq<Message>>)

  function Asked(finished: seq<Attempt>): (r: seq<NodeId>)
    ensures |r| == |finished| && forall i | 0 <= i < |r| :: r[i] == finished[i].holder
  {
    seq(|finished|, i requires 0 <= i < |finished| => finished[i].holder)
  }

  /** Every candidate's attempt finishes once, in any order. */
  ghost predicate Finishes(finished: seq<Attempt>, holders: seq<NodeId>, self: NodeId) {
    multiset(Asked(finished)) == multiset(Candidates(holders, self))
  }

  function Yield(a: Attempt): Option<Bytes> {
    if a.stream.Some? then Received(a.stream.value) else None
  }

  /** What the first attempt that yields bytes yields, in the order attempts finish. */
  function Served(finished: seq<Attempt>): Option<Bytes> {
    if finished == [] then None
    else if Yield(finished[0]).Some? then Yield(finished[0])
    else Served(finished[1..])
  }

  /** Bytes are served exactly when some attempt yields any, and they are what the first such attempt
      yields. */
  lemma {:induction false} ServedByOne(finished: seq<Attempt>)
    ensures Served(finished).Some? <==> exists i :: 0 <= i < |finished| && Yield(finished[i]).Some?
    ensures Served(finished).Some? ==>
      Served(finished).value != [] && exists i :: IsFirst(finished, i) && Yield(finished[i]) == Served(finished)
  {
    if finished != [] {
      var rest := finished[1..];
      ServedByOne(rest);
      assert forall i | 0 < i < |finished| :: finished[i] == rest[i - 1];
      if Yield(finished[0]).Some? {
        assert IsFirst(finished, 0);
      } else if Served(rest).Some? {
        var i :| IsFirst(rest, i) && Yield(rest[i]) == Served(rest);
        assert IsFirst(finished, i + 1);
      }
    }
  }

  /** The first attempt that yields bytes. */
  ghost predicate IsFirst(finished: seq<Attempt>, i: int) {
    0 <= i < |finished| && Yield(finished[i]).Some? && forall j | 0 <= j < i :: Yield(finished[j]).None?
  }

  /** Asks the candidates: with none the fetch fails, else the first to yield bytes wins. */
  method FetchFromHolders(holders: seq<NodeId>, self: NodeId, finished: seq<Attempt>) returns (r: Option<Bytes>)
    requires Finishes(finished, holders, self)
    ensures r == Served(finished)
    ensures r.Some? ==> exists i ::
      IsFirst(finished, i) && finished[i].holder in holders && finished[i].holder != self && Yield(finished[i]) == r
    ensures r.None? ==> forall i | 0 <= i < |finished| :: Yield(finished[i]).None?
  {
    FromCandidates(finished, holders, self);
    ServedByOne(finished);
    for i := 0 to |finished|
      invariant Served(finished[i..]) == Served(finished)
    {
      assert finished[i..][1..] == finished[i + 1..];
      if finished[i].stream.Some? {
        r := Reassemble(finished[i].stream.value);
        if r.Some? {
          return;
        }
      }
    }
    r := None;
  }

  lemma FromCandidates(finished: seq<Attempt>, holders: seq<NodeId>, self: NodeId)
    requires Finishes(finished, holders, self)
    ensures forall i | 0 <= i < |finished| :: finished[i].holder in holders && finished[i].holder != self
  {
    forall i | 0 <= i < |finished| ensures finished[i].holder in Candidates(holders, self) {
      assert Asked(finished)[i] in Asked(finished);
      assert finished[i].holder in multiset(Candidates(holders, self));
    }
  }

  /** The attempt, if it reached its holder, got these chunks up to some point. */
  ghost predicate Transfers(a: Attempt, chunks: seq<Bytes>) {
    a.stream.Some? ==> exists p: nat, broken :: p <= |chunks| && a.stream.value == Cut(chunks, p, broken)
  }

  ghost predicate PrefixOf(bytes: Bytes, chunks: seq<Bytes>) {
    exists p: nat :: 0 < p <= |chunks| && bytes == Joined(chunks[..p])
  }

  /** If every holder sends the same segment, what is served is a nonempty run of its first chunks. */
  lemma {:induction false} ServedIsPrefix(finished: seq<Attempt>, chunks: seq<Bytes>)
    requires forall i | 0 <= i < |chunks| :: chunks[i] != []
    requires forall a | a in finished :: Transfers(a, chunks)
    ensures Served(finished).Some? ==> PrefixOf(Served(finished).value, chunks)
  {
    if finished != [] {
      ServedIsPrefix(finished[1..], chunks);
      assert finished[0] in finished;
      if finished[0].stream.Some? {
        var p: nat, broken :| p <= |chunks| && finished[0].stream.value == Cut(chunks, p, broken);
        TransferYields(chunks, p, broken);
      }
    }
  }

  // ---- the holder stamp ----

  /** A list without its repetitions, first occurrences kept. */
  function Once(nodes: seq<NodeId>): seq<NodeId> {
    if nodes == [] then []
    else
      var rest := Once(nodes[..|nodes| - 1]);
      if nodes[|nodes| - 1] in rest then rest else rest + [nodes[|nodes| - 1]]
  }

  lemma {:induction false} OnceKeepsMembers(nodes: seq<NodeId>)
    ensures Distinct(Once(nodes)) && Members(Once(nodes)) == Members(nodes)
  {
    if nodes != [] {
      var last := nodes[|nodes| - 1];
      OnceKeepsMembers(nodes[..|nodes| - 1]);
      var rest := Once(nodes[..|nodes| - 1]);
      assert nodes == nodes[..|nodes| - 1] + [last];
      assert Members(nodes) == Members(nodes[..|nodes| - 1]) + {last};
      assert last in rest <==> last in Members(rest);
      assert Members(rest + [last]) == Members(rest) + {last};
    }
  }

  /** The new holder list: the request's holders, each once, and this node. */
  method StampLocations(holders: seq<NodeId>, self: NodeId) returns (locations: seq<NodeId>)
    ensures locations == Once(holders + [self])
    ensures Distinct(locations) && Members(locations) == Members(holders) + {self}
    ensures forall alive, unavailable ::
      LiveCopyCount(locations, alive, unavailable) == |LiveHolders(holders + [self], alive, unavailable)|
  {
    locations := [];
    for i := 0 to |holders|
      invariant locations == Once(holders[..i])
    {
      assert holders[..i + 1][..i] == holders[..i];
      if holders[i] !in locations {
        locations := locations + [holders[i]];
      }
    }
    assert holders[..|holders|] == holders;
    assert (holders + [self])[..|holders|] == holders;
    if self !in locations {
      locations := locations + [self];
    }
    StampKeeps(holders, self);
  }

  lemma StampKeeps(holders: seq<NodeId>, self: NodeId)
    ensures Distinct(Once(holders + [self])) && Members(Once(holders + [self])) == Members(holders) + {self}
    ensures forall alive, unavailable ::
      LiveCopyCount(Once(holders + [self]), alive, unavailable) == |LiveHolders(holders + [self], alive, unavailable)|
  {
    OnceKeepsMembers(holders + [self]);
    assert Members(holders + [self]) == Members(holders) + {self};
    StampCounts(holders, self, Once(holders + [self]));
  }

  /** With such a list the live-copy count is the number of distinct live holders. */
  lemma StampCounts(holders: seq<NodeId>, self: NodeId, locations: seq<NodeId>)
    requires Distinct(locations) && Members(locations) == Members(holders) + {self}
    ensures forall alive, unavailable ::
      LiveCopyCount(locations, alive, unavailable) == |LiveHolders(holders + [self], alive, unavailable)|
  {
    forall alive, unavailable
      ensures LiveCopyCount(locations, alive, unavailable) == |LiveHolders(holders + [self], alive, unavailable)|
    {
      CountIsCardinality(locations, alive, unavailable);
      forall n ensures n in locations <==> n in holders + [self] {
        assert n in locations <==> n in Members(locations);
        assert n in holders <==> n in Members(holders);
      }
      assert LiveHolders(locations, alive, unavailable) == LiveHolders(holders + [self], alive, unavailable);
    }
  }
}
