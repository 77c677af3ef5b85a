/** The receiver's side of a compaction remap: chunk references into the compacted segment are
    rewritten through the repacked chunk table, then the stale replica is deleted
    (healing_service.rs repoint_objects, announce_remap). */
module Remap {
  import opened Common

  type SegmentId = nat
  type NodeId = string
  type Bytes = seq<bv8>

  datatype Key = Key(bucket: string, name: string)

  datatype ChunkRef = ChunkRef(segment: SegmentId, offset: nat, length: nat, compressed: bool, logicalLength: nat)

  /** An object row; `attributes` stands for the fields the remap never touches. */
  datatype Object = Object(chunks: seq<ChunkRef>, attributes: string)

  datatype RemappedChunk = RemappedChunk(oldOffset: nat, length: nat, newOffset: nat)

  // ---- rewriting references ----

  type Table = map<(nat, nat), nat>

  /** The lookup (old offset, length) to new offset; a later entry for the same chunk wins. */
  function TableOf(entries: seq<RemappedChunk>): Table {
    if entries == [] then map[]
    else
      var last := entries[|entries| - 1];
      TableOf(entries[..|entries| - 1])[(last.oldOffset, last.length) := last.newOffset]
  }

  lemma {:induction false} TableFromEntry(entries: seq<RemappedChunk>, at: (nat, nat)) returns (e: RemappedChunk)
    requires at in TableOf(entries)
    ensures e in entries && e == RemappedChunk(at.0, at.1, TableOf(entries)[at])
  {
    var last := entries[|entries| - 1];
    if at == (last.oldOffset, last.length) {
      e := last;
    } else {
      e := TableFromEntry(entries[..|entries| - 1], at);
    }
  }

  // ---- what the table says of the entries ----

  /** An entry names this chunk of the old segment. */
  ghost predicate Names(e: RemappedChunk, c: ChunkRef) {
    e.oldOffset == c.offset && e.length == c.length
  }

  ghost predicate Announced(entries: seq<RemappedChunk>, oldId: SegmentId, c: ChunkRef) {
    c.segment == oldId && exists i :: 0 <= i < |entries| && Names(entries[i], c)
  }

  /** A chunk rewritten by the entries: one that is announced points to the new segment at the offset
      of the last entry that names it, with everything else kept; any other is unchanged. */
  ghost predicate Rewritten(entries: seq<RemappedChunk>, oldId: SegmentId, newId: SegmentId, c: ChunkRef, c': ChunkRef) {
    if Announced(entries, oldId, c)
    then exists i :: 0 <= i < |entries| && Names(entries[i], c) && (forall j | i < j < |entries| :: !Names(entries[j], c))
                     && c' == ChunkRef(newId, entries[i].newOffset, c.length, c.compressed, c.logicalLength)
    else c' == c
  }

  // The table holds every entry, the last one for a chunk winning, and nothing else.
  lemma {:induction false} TableHolds(entries: seq<RemappedChunk>, c: ChunkRef)
    ensures (c.offset, c.length) in TableOf(entries) <==> exists i :: 0 <= i < |entries| && Names(entries[i], c)
    ensures (c.offset, c.length) in TableOf(entries) ==>
      exists i :: 0 <= i < |entries| && Names(entries[i], c) && (forall j | i < j < |entries| :: !Names(entries[j], c))
                  && entries[i].newOffset == TableOf(entries)[(c.offset, c.length)]
  {
    if entries != [] {
      var rest, last := entries[..|entries| - 1], entries[|entries| - 1];
      TableHolds(rest, c);
      assert entries == rest + [last];
      if Names(last, c) {
        assert Names(entries[|entries| - 1], c);
      } else if (c.offset, c.length) in TableOf(rest) {
        var i :| 0 <= i < |rest| && Names(rest[i], c) && (forall j | i < j < |rest| :: !Names(rest[j], c))
          && rest[i].newOffset == TableOf(rest)[(c.offset, c.length)];
        assert entries[i] == rest[i];
        assert forall j | i < j < |entries| :: !Names(entries[j], c);
      } else {
        assert forall i | 0 <= i < |entries| :: !Names(entries[i], c);
      }
    }
  }

  predicate Moves(table: Table, oldId: SegmentId, c: ChunkRef) {
    c.segment == oldId && (c.offset, c.length) in table
  }

  function MoveChunk(table: Table, oldId: SegmentId, newId: SegmentId, c: ChunkRef): ChunkRef {
    if Moves(table, oldId, c) then c.(segment := newId, offset := table[(c.offset, c.length)]) else c
  }

  function MoveChunks(table: Table, oldId: SegmentId, newId: SegmentId, chunks: seq<ChunkRef>): (moved: seq<ChunkRef>)
    ensures |moved| == |chunks|
  {
    seq(|chunks|, i requires 0 <= i < |chunks| => MoveChunk(table, oldId, newId, chunks[i]))
  }

  lemma MovesAnnounced(entries: seq<RemappedChunk>, oldId: SegmentId, newId: SegmentId, c: ChunkRef)
    ensures Moves(TableOf(entries), oldId, c) <==> Announced(entries, oldId, c)
    ensures Rewritten(entries, oldId, newId, c, MoveChunk(TableOf(entries), oldId, newId, c))
  {
    TableHolds(entries, c);
  }

  /** The rows after the remap: announced rows are rewritten, all others stay. */
  function Repointed(rows: map<Key, Object>, table: Table, oldId: SegmentId, newId: SegmentId, keys: seq<Key>): map<Key, Object> {
    map k | k in rows ::
      if k in keys then rows[k].(chunks := MoveChunks(table, oldId, newId, rows[k].chunks)) else rows[k]
  }

  // ---- reading ----

  /** The stored bytes of a chunk, with what a reader needs to expand them. */
  datatype Piece = Piece(raw: Bytes, compressed: bool, logicalLength: nat)

  function ReadChunk(segments: map<SegmentId, Bytes>, c: ChunkRef): Option<Piece> {
    if c.segment in segments && c.offset + c.length <= |segments[c.segment]|
    then Some(Piece(segments[c.segment][c.offset..c.offset + c.length], c.compressed, c.logicalLength))
    else None
  }

  /** Reading an object chunk by chunk; any unreadable chunk fails the read. */
  function Read(segments: map<SegmentId, Bytes>, chunks: seq<ChunkRef>): Option<seq<Piece>> {
    if forall i | 0 <= i < |chunks| :: ReadChunk(segments, chunks[i]).Some?
    then Some(seq(|chunks|, i requires 0 <= i < |chunks| => ReadChunk(segments, chunks[i]).value))
    else None
  }

  /** Each entry names a stretch of the old segment that the new segment holds unchanged. */
  ghost predicate Faithful(segments: map<SegmentId, Bytes>, entries: seq<RemappedChunk>, oldId: SegmentId, newId: SegmentId) {
    && oldId in segments && newId in segments
    && forall e | e in entries ::
         && e.oldOffset + e.length <= |segments[oldId]| && e.newOffset + e.length <= |segments[newId]|
         && segments[oldId][e.oldOffset..e.oldOffset + e.length] == segments[newId][e.newOffset..e.newOffset + e.length]
  }

  ghost predicate DependsOn(chunks: seq<ChunkRef>, s: SegmentId) {
    exists i :: 0 <= i < |chunks| && chunks[i].segment == s
  }

  // ---- the remap keeps every object's bytes ----

  lemma MoveKeepsChunk(segments: map<SegmentId, Bytes>, entries: seq<RemappedChunk>, oldId: SegmentId, newId: SegmentId, c: ChunkRef)
    requires Faithful(segments, entries, oldId, newId)
    ensures ReadChunk(segments, MoveChunk(TableOf(entries), oldId, newId, c)) == ReadChunk(segments, c)
  {
    if Moves(TableOf(entries), oldId, c) {
      var e := TableFromEntry(entries, (c.offset, c.length));
    }
  }

  lemma MoveKeepsBytes(segments: map<SegmentId, Bytes>, entries: seq<RemappedChunk>, oldId: SegmentId, newId: SegmentId, chunks: seq<ChunkRef>)
    requires Faithful(segments, entries, oldId, newId)
    ensures Read(segments, MoveChunks(TableOf(entries), oldId, newId, chunks)) == Read(segments, chunks)
  {
    var moved := MoveChunks(TableOf(entries), oldId, newId, chunks);
    forall i | 0 <= i < |chunks| ensures ReadChunk(segments, moved[i]) == ReadChunk(segments, chunks[i]) {
      MoveKeepsChunk(segments, entries, oldId, newId, chunks[i]);
    }
    if Read(segments, chunks).Some? {
      assert Read(segments, moved).value == Read(segments, chunks).value;
    } else {
      var i :| 0 <= i < |chunks| && ReadChunk(segments, chunks[i]).None?;
      assert ReadChunk(segments, moved[i]).None?;
    }
  }

  // Deleting a segment leaves exactly the objects that do not refer to it.
  lemma DeletionKeepsIndependent(segments: map<SegmentId, Bytes>, s: SegmentId, chunks: seq<ChunkRef>)
    requires Read(segments, chunks).Some?
    ensures Read(segments - {s}, chunks) == Read(segments, chunks) <==> !DependsOn(chunks, s)
  {
    if DependsOn(chunks, s) {
      var i :| 0 <= i < |chunks| && chunks[i].segment == s;
      assert ReadChunk(segments - {s}, chunks[i]).None?;
    } else {
      forall i | 0 <= i < |chunks| ensures ReadChunk(segments - {s}, chunks[i]) == ReadChunk(segments, chunks[i]) {
        assert chunks[i].segment != s;
      }
      assert Read(segments - {s}, chunks).value == Read(segments, chunks).value;
    }
  }

  /** What still refers to the old segment after the rewrite. */
  lemma MoveDependsExactly(table: Table, oldId: SegmentId, newId: SegmentId, chunks: seq<ChunkRef>)
    ensures DependsOn(MoveChunks(table, oldId, newId, chunks), oldId) <==>
      if oldId == newId then DependsOn(chunks, oldId)
      else exists i :: 0 <= i < |chunks| && chunks[i].segment == oldId && !Moves(table, oldId, chunks[i])
  {
    var moved := MoveChunks(table, oldId, newId, chunks);
    if i :| 0 <= i < |chunks| && moved[i].segment == oldId {
      assert chunks[i].segment == oldId || oldId == newId;
    }
    if i :| 0 <= i < |chunks| && chunks[i].segment == oldId && (oldId == newId || !Moves(table, oldId, chunks[i])) {
      assert moved[i].segment == oldId;
    }
  }

  /** The row will still be readable after the old segment is gone. */
  ghost predicate Safe(rows: map<Key, Object>, entries: seq<RemappedChunk>, oldId: SegmentId, newId: SegmentId, keys: seq<Key>, k: Key)
    requires k in rows
  {
    if k in keys && oldId != newId
    then forall i | 0 <= i < |rows[k].chunks| && rows[k].chunks[i].segment == oldId :: Announced(entries, oldId, rows[k].chunks[i])
    else !DependsOn(rows[k].chunks, oldId)
  }

  /** The rows with the keys' rows rewritten by the entries and all others kept. */
  ghost predicate RowsRewritten(before: map<Key, Object>, after: map<Key, Object>, entries: seq<RemappedChunk>,
                                oldId: SegmentId, newId: SegmentId, keys: seq<Key>) {
    && after.Keys == before.Keys
    && forall k | k in before :: RowRewritten(before[k], after[k], entries, oldId, newId, k in keys)
  }

  ghost predicate RowRewritten(before: Object, after: Object, entries: seq<RemappedChunk>, oldId: SegmentId, newId: SegmentId, announced: bool) {
    if announced
    then
      && after.attributes == before.attributes && |after.chunks| == |before.chunks|
      && forall i | 0 <= i < |before.chunks| :: Rewritten(entries, oldId, newId, before.chunks[i], after.chunks[i])
    else after == before
  }

  lemma RepointedIsRewritten(rows: map<Key, Object>, entries: seq<RemappedChunk>, oldId: SegmentId, newId: SegmentId, keys: seq<Key>)
    ensures RowsRewritten(rows, Repointed(rows, TableOf(entries), oldId, newId, keys), entries, oldId, newId, keys)
  {
    var after := Repointed(rows, TableOf(entries), oldId, newId, keys);
    forall k | k in rows ensures RowRewritten(rows[k], after[k], entries, oldId, newId, k in keys) {
      if k in keys {
        forall i | 0 <= i < |rows[k].chunks| ensures Rewritten(entries, oldId, newId, rows[k].chunks[i], after[k].chunks[i]) {
          MovesAnnounced(entries, oldId, newId, rows[k].chunks[i]);
        }
      }
    }
  }

  /** The whole remap with the deletion of the old segment: a readable row reads the same bytes
      afterwards if and only if it was announced with all its old chunks in the table, or never
      referred to the old segment. */
  lemma RemapKeepsReads(segments: map<SegmentId, Bytes>, rows: map<Key, Object>, entries: seq<RemappedChunk>,
                        oldId: SegmentId, newId: SegmentId, keys: seq<Key>, k: Key)
    requires Faithful(segments, entries, oldId, newId)
    requires k in rows && Read(segments, rows[k].chunks).Some?
    ensures var after := Repointed(rows, TableOf(entries), oldId, newId, keys);
      && Read(segments, after[k].chunks) == Read(segments, rows[k].chunks)
      && (Read(segments - {oldId}, after[k].chunks) == Read(segments, rows[k].chunks)
          <==> Safe(rows, entries, oldId, newId, keys, k))
  {
    var table, chunks := TableOf(entries), rows[k].chunks;
    forall i | 0 <= i < |chunks| ensures Moves(table, oldId, chunks[i]) <==> Announced(entries, oldId, chunks[i]) {
      MovesAnnounced(entries, oldId, newId, chunks[i]);
    }
    MoveKeepsBytes(segments, entries, oldId, newId, chunks);
    DeletionKeepsIndependent(segments, oldId, Repointed(rows, table, oldId, newId, keys)[k].chunks);
    MoveDependsExactly(table, oldId, newId, chunks);
  }

  // ---- reapplying ----

  ghost predicate Idempotent(oldId: SegmentId, newId: SegmentId) {
    forall table, chunks ::
      MoveChunks(table, oldId, newId, MoveChunks(table, oldId, newId, chunks)) == MoveChunks(table, oldId, newId, chunks)
  }

  /** Applying a remap twice is applying it once, exactly when the segment ids differ: within one
      segment a moved chunk may be moved again. */
  lemma IdempotentExactly(oldId: SegmentId, newId: SegmentId)
    ensures Idempotent(oldId, newId) <==> oldId != newId
  {
    if oldId == newId {
      var table: Table := map[(0, 1) := 1, (1, 1) := 2];
      var chunks := [ChunkRef(oldId, 0, 1, false, 1)];
      var once := MoveChunks(table, oldId, newId, chunks);
      assert once[0].offset == 1;
      assert MoveChunks(table, oldId, newId, once)[0].offset == 2;
    }
  }

  // ---- the receiver ----

  class Receiver {
    var rows: map<Key, Object>
    var segments: map<SegmentId, Bytes>
    var holders: map<SegmentId, seq<NodeId>>
    var aliases: map<SegmentId, (SegmentId, seq<RemappedChunk>)>

    /** One row's references: rewritten through the table, and whether any changed. */
    static method RewriteChunks(table: Table, oldId: SegmentId, newId: SegmentId, chunks: seq<ChunkRef>)
      returns (moved: seq<ChunkRef>, changed: bool)
      ensures moved == MoveChunks(table, oldId, newId, chunks)
      ensures changed <==> Affected(table, oldId, chunks)
    {
      moved, changed := [], false;
      for i := 0 to |chunks|
        invariant |moved| == i
        invariant forall j | 0 <= j < i :: moved[j] == MoveChunk(table, oldId, newId, chunks[j])
        invariant changed <==> exists j :: 0 <= j < i && Moves(table, oldId, chunks[j])
      {
        var c := chunks[i];
        if c.segment == oldId && (c.offset, c.length) in table {
          moved := moved + [ChunkRef(newId, table[(c.offset, c.length)], c.length, c.compressed, c.logicalLength)];
          changed := true;
        } else {
          moved := moved + [c];
        }
      }
    }

    static method BuildTable(entries: seq<RemappedChunk>) returns (table: Table)
      ensures table == TableOf(entries)
    {
      table := map[];
      for i := 0 to |entries|
        invariant table == TableOf(entries[..i])
      {
        assert entries[..i + 1][..i] == entries[..i];
        table := table[(entries[i].oldOffset, entries[i].length) := entries[i].newOffset];
      }
      assert entries[..|entries|] == entries;
    }

    /** Collects the rewritten rows of the announced keys this node holds and can read. */
    method CollectWrites(table: Table, oldId: SegmentId, newId: SegmentId, keys: seq<Key>, unreadable: set<Key>)
      returns (ops: seq<(Key, Object)>)
      ensures forall i | 0 <= i < |ops| :: IsWrite(rows, table, oldId, newId, Readable(keys, unreadable), ops[i])
      ensures forall k | k in Readable(keys, unreadable) && k in rows && Affected(table, oldId, rows[k].chunks) ::
        exists i :: 0 <= i < |ops| && ops[i].0 == k
    {
      ops := [];
      for n := 0 to |keys|
        invariant forall i | 0 <= i < |ops| :: IsWrite(rows, table, oldId, newId, Readable(keys, unreadable), ops[i])
        invariant forall m | 0 <= m < n && keys[m] !in unreadable && keys[m] in rows && Affected(table, oldId, rows[keys[m]].chunks) ::
          exists i :: 0 <= i < |ops| && ops[i].0 == keys[m]
      {
        var k := keys[n];
        if k !in unreadable && k in rows {
          var moved, changed := RewriteChunks(table, oldId, newId, rows[k].chunks);
          if changed {
            var before := ops;
            ops := ops + [(k, rows[k].(chunks := moved))];
            assert forall i | 0 <= i < |before| :: ops[i] == before[i];
            assert ops[|before|].0 == k;
          }
        }
      }
    }

    /** Rewrites the announced rows by one batch write, which may fail as a whole; a row whose read
        fails is passed over like one that is not there. */
    method RepointObjects(oldId: SegmentId, newId: SegmentId, entries: seq<RemappedChunk>, announced: seq<Key>, unreadable: set<Key>,
                          writes: bool) returns (ok: bool)
      modifies this`rows
      ensures rows == if ok then Repointed(old(rows), TableOf(entries), oldId, newId, Readable(announced, unreadable)) else old(rows)
      ensures ok ==> RowsRewritten(old(rows), rows, entries, oldId, newId, Readable(announced, unreadable))
      ensures ok <==> writes || !AnyAnnounced(old(rows), entries, oldId, Readable(announced, unreadable))
    {
      var table := BuildTable(entries);
      RepointedIsRewritten(rows, entries, oldId, newId, Readable(announced, unreadable));
      AffectedIsAnnounced(rows, entries, oldId, newId, Readable(announced, unreadable));
      ghost var keys := Readable(announced, unreadable);
      if table == map[] || announced == [] {
        forall k | k in rows ensures rows[k] == Repointed(rows, table, oldId, newId, keys)[k] {
          if k in keys {
            UnaffectedStays(table, oldId, newId, rows[k].chunks);
          }
        }
        assert rows == Repointed(rows, table, oldId, newId, keys);
        return true;
      }
      var ops := CollectWrites(table, oldId, newId, announced, unreadable);
      assert ops != [] ==> IsWrite(rows, table, oldId, newId, keys, ops[0]);
      ok := ops == [] || writes;
      if ok {
        WriteRows(ops, table, oldId, newId, keys);
      }
    }

    /** One batch of rewritten rows. */
    method WriteRows(ops: seq<(Key, Object)>, ghost table: Table, ghost oldId: SegmentId, ghost newId: SegmentId, ghost keys: seq<Key>)
      requires forall i | 0 <= i < |ops| :: IsWrite(rows, table, oldId, newId, keys, ops[i])
      requires forall k | k in keys && k in rows && Affected(table, oldId, rows[k].chunks) ::
        exists i :: 0 <= i < |ops| && ops[i].0 == k
      modifies this`rows
      ensures rows == Repointed(old(rows), table, oldId, newId, keys)
    {
      ghost var before := rows;
      for i := 0 to |ops|
        invariant rows.Keys == before.Keys
        invariant forall k | k in before :: rows[k] == before[k] || (k in keys && rows[k] == Repointed(before, table, oldId, newId, keys)[k])
        invariant forall j | 0 <= j < i :: rows[ops[j].0] == Repointed(before, table, oldId, newId, keys)[ops[j].0]
      {
        rows := rows[ops[i].0 := ops[i].1];
      }
      forall k | k in before ensures rows[k] == Repointed(before, table, oldId, newId, keys)[k] {
        if !Affected(table, oldId, before[k].chunks) {
          UnaffectedStays(table, oldId, newId, before[k].chunks);
        }
      }
    }

    /** The handler: a remap is believed only from a holder of a segment this node holds; the alias
        is recorded where one is wired, the rows rewritten, and only then the old segment deleted. */
    method AnnounceRemap(origin: NodeId, oldId: SegmentId, newId: SegmentId, entries: seq<RemappedChunk>, announced: seq<Key>,
                         wired: bool, unreadable: set<Key>, writes: bool, deletes: bool, unlinks: bool) returns (applied: bool)
      modifies this
      ensures var verified, keys := oldId in old(holders) && origin in old(holders)[oldId], Readable(announced, unreadable);
        && (!verified ==> !applied && rows == old(rows) && segments == old(segments) && holders == old(holders) && aliases == old(aliases))
        && (verified ==> aliases == if wired then old(aliases)[oldId := (newId, entries)] else old(aliases))
        && (applied <==> verified && (writes || !AnyAnnounced(old(rows), entries, oldId, keys)))
        && (applied ==> RowsRewritten(old(rows), rows, entries, oldId, newId, keys))
      ensures !applied ==> rows == old(rows)
      ensures holders == if applied && deletes then old(holders) - {oldId} else old(holders)
      ensures segments == if applied && deletes && unlinks then old(segments) - {oldId} else old(segments)
      ensures Faithful(old(segments), entries, oldId, newId) ==>
        forall k | k in old(rows) && Read(old(segments), old(rows)[k].chunks).Some? ::
          && k in rows
          && (Read(segments, rows[k].chunks) == Read(old(segments), old(rows)[k].chunks)
              <==> segments == old(segments) || Safe(old(rows), entries, oldId, newId, Readable(announced, unreadable), k))
    {
      applied := false;
      if oldId !in holders || origin !in holders[oldId] {
        return;
      }
      if wired {
        aliases := aliases[oldId := (newId, entries)];
      }
      ghost var keys := Readable(announced, unreadable);
      var ok := RepointObjects(oldId, newId, entries, announced, unreadable, writes);
      if !ok {
        return;
      }
      if deletes {
        holders := holders - {oldId};
        if unlinks {
          segments := segments - {oldId};
        }
      }
      applied := true;
      if Faithful(old(segments), entries, oldId, newId) {
        forall k | k in old(rows) && Read(old(segments), old(rows)[k].chunks).Some?
          ensures Read(segments, rows[k].chunks) == Read(old(segments), old(rows)[k].chunks)
             <==> segments == old(segments) || Safe(old(rows), entries, oldId, newId, keys, k)
        {
          RemapKeepsReads(old(segments), old(rows), entries, oldId, newId, keys, k);
        }
      }
    }
  }

  /** The announced keys whose rows can be read. */
  function Readable(keys: seq<Key>, unreadable: set<Key>): (r: seq<Key>)
    ensures forall k :: k in r <==> k in keys && k !in unreadable
  {
    if keys == [] then []
    else
      var rest := Readable(keys[..|keys| - 1], unreadable);
      if keys[|keys| - 1] in unreadable then rest else rest + [keys[|keys| - 1]]
  }

  ghost predicate Affected(table: Table, oldId: SegmentId, chunks: seq<ChunkRef>) {
    exists i :: 0 <= i < |chunks| && Moves(table, oldId, chunks[i])
  }

  ghost predicate AnyAffected(rows: map<Key, Object>, table: Table, oldId: SegmentId, keys: seq<Key>) {
    exists k :: k in keys && k in rows && Affected(table, oldId, rows[k].chunks)
  }

  /** Some row of the keys refers to an announced chunk. */
  ghost predicate AnyAnnounced(rows: map<Key, Object>, entries: seq<RemappedChunk>, oldId: SegmentId, keys: seq<Key>) {
    exists k, i :: k in keys && k in rows && 0 <= i < |rows[k].chunks| && Announced(entries, oldId, rows[k].chunks[i])
  }

  lemma AffectedIsAnnounced(rows: map<Key, Object>, entries: seq<RemappedChunk>, oldId: SegmentId, newId: SegmentId, keys: seq<Key>)
    ensures AnyAffected(rows, TableOf(entries), oldId, keys) <==> AnyAnnounced(rows, entries, oldId, keys)
  {
    forall k, i | k in rows && 0 <= i < |rows[k].chunks|
      ensures Moves(TableOf(entries), oldId, rows[k].chunks[i]) <==> Announced(entries, oldId, rows[k].chunks[i])
    {
      MovesAnnounced(entries, oldId, newId, rows[k].chunks[i]);
    }
    if AnyAffected(rows, TableOf(entries), oldId, keys) {
      var k :| k in keys && k in rows && Affected(TableOf(entries), oldId, rows[k].chunks);
      var i :| 0 <= i < |rows[k].chunks| && Moves(TableOf(entries), oldId, rows[k].chunks[i]);
      assert Announced(entries, oldId, rows[k].chunks[i]);
    }
    if AnyAnnounced(rows, entries, oldId, keys) {
      var k, i :| k in keys && k in rows && 0 <= i < |rows[k].chunks| && Announced(entries, oldId, rows[k].chunks[i]);
      assert Affected(TableOf(entries), oldId, rows[k].chunks);
    }
  }

  ghost predicate IsWrite(rows: map<Key, Object>, table: Table, oldId: SegmentId, newId: SegmentId, keys: seq<Key>, op: (Key, Object)) {
    && op.0 in keys && op.0 in rows && Affected(table, oldId, rows[op.0].chunks)
    && op.1 == rows[op.0].(chunks := MoveChunks(table, oldId, newId, rows[op.0].chunks))
  }

  lemma UnaffectedStays(table: Table, oldId: SegmentId, newId: SegmentId, chunks: seq<ChunkRef>)
    requires !Affected(table, oldId, chunks)
    ensures MoveChunks(table, oldId, newId, chunks) == chunks
  {
  }
}
