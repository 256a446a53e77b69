/**
  The table of batch metadata that is kept beside Laravel's batch table: rows are added for
  batches that have none, and rows whose batch is gone are removed, both in chunks of ids in
  ascending order.
*/
module BatchMetadata {
  import opened Collections
  import opened Options

  /** A batch id stands for its rank in the order of the database; rank 0 is the empty id. */
  type Id = nat

  /** What a batch's own options say about its queue and connection. */
  datatype Stated = Stated(queue: Option<string>, connection: Option<string>, queueIsExplicit: bool, connectionIsExplicit: bool)

  datatype Row = Row(queue: string, connection: Option<string>, queueIsExplicit: bool, connectionIsExplicit: bool)

  /** The configured default connection, and the default queue of each connection. */
  datatype Config = Config(defaultConnection: Option<string>, queues: string -> Option<string>)

  const CHUNK_SIZE := 500

  /** An empty text counts as none. */
  function Nullable(text: Option<string>): Option<string> {
    if text == Some("") then None else text
  }

  function ConnectionOf(c: Config, s: Stated): Option<string> {
    if s.connection.Some? then s.connection else Nullable(c.defaultConnection)
  }

  function DefaultQueue(c: Config, connection: Option<string>): Option<string> {
    if connection.None? then None else Nullable(c.queues(connection.value))
  }

  /** The row of a batch: what it states, then what is configured, then the queue "default". */
  function Resolved(c: Config, s: Stated): Row {
    var connection := ConnectionOf(c, s);
    var configured := DefaultQueue(c, connection);
    Row(if s.queue.Some? then s.queue.value else if configured.Some? then configured.value else "default",
        connection, s.queueIsExplicit, s.connectionIsExplicit)
  }

  /** What the row of a batch has to say, field by field: a text that is configured empty is as good as none. */
  ghost predicate Says(c: Config, s: Stated, r: Row) {
    && r.queueIsExplicit == s.queueIsExplicit && r.connectionIsExplicit == s.connectionIsExplicit
    && (s.connection.Some? ==> r.connection == s.connection)
    && (s.connection.None? && c.defaultConnection.Some? && c.defaultConnection.value != "" ==> r.connection == c.defaultConnection)
    && (s.connection.None? && (c.defaultConnection.None? || c.defaultConnection.value == "") ==> r.connection == None)
    && (s.queue.Some? ==> r.queue == s.queue.value)
    && (s.queue.None? ==> r.queue == "default" || (r.connection.Some? && c.queues(r.connection.value) == Some(r.queue) && r.queue != ""))
    && (s.queue.None? && r.connection.Some? && c.queues(r.connection.value).Some? && c.queues(r.connection.value).value != "" ==>
          c.queues(r.connection.value) == Some(r.queue))
  }

  /** The resolved row says so, and is the only one that does. */
  lemma ResolvedSays(c: Config, s: Stated, r: Row)
    ensures Says(c, s, r) <==> r == Resolved(c, s)
  {
  }

  /** The first ids of a query that is ordered by id and limited. */
  ghost predicate IsChunk(ids: set<Id>, chunk: seq<Id>) {
    && Ascending(chunk)
    && Elements(chunk) <= ids && |chunk| <= 500
    && (forall id :: id in ids && id !in chunk ==> |chunk| == 500 && forall i :: 0 <= i < |chunk| ==> chunk[i] < id)
  }

  method FirstIds(ids: set<Id>) returns (chunk: seq<Id>)
    ensures IsChunk(ids, chunk)
  {
    chunk := [];
    var rest := ids;
    while rest != {} && |chunk| < CHUNK_SIZE
      invariant |chunk| <= CHUNK_SIZE && rest <= ids && forall id :: id in ids <==> id in chunk || id in rest
      invariant forall i, j :: 0 <= i < j < |chunk| ==> chunk[i] < chunk[j]
      invariant forall i, id :: 0 <= i < |chunk| && id in rest ==> chunk[i] < id
      decreases rest
    {
      var id := Smallest(rest);
      chunk := chunk + [id];
      rest := rest - {id};
    }
  }

  ghost predicate Memory(c: Config, resolved: bool, connection: Option<string>, queues: map<string, Option<string>>) {
    && (resolved ==> connection == Nullable(c.defaultConnection))
    && forall name :: name in queues ==> queues[name] == Nullable(c.queues(name))
  }

  class Synchronizer {
    const config: Config
    const supported: bool
    const source: map<Id, Stated>
    var metadata: map<Id, Row>
    var synchronized: bool
    var defaultConnectionResolved: bool
    var defaultConnection: Option<string>
    var configuredQueues: map<string, Option<string>>

    constructor (config: Config, supported: bool, source: map<Id, Stated>, metadata: map<Id, Row>)
      ensures this.config == config && this.supported == supported && this.source == source && this.metadata == metadata
      ensures Remembers() && !synchronized
    {
      this.config, this.supported, this.source, this.metadata := config, supported, source, metadata;
      this.synchronized, this.defaultConnectionResolved, this.defaultConnection, this.configuredQueues := false, false, None, map[];
    }

    /** What has been memorized is what the configuration says. */
    ghost predicate Remembers()
      reads `defaultConnectionResolved, `defaultConnection, `configuredQueues
    {
      Memory(config, defaultConnectionResolved, defaultConnection, configuredQueues)
    }

    method ConfiguredDefaultConnection() returns (r: Option<string>)
      requires Remembers()
      modifies `defaultConnectionResolved, `defaultConnection
      ensures Remembers() && r == Nullable(config.defaultConnection)
    {
      if !defaultConnectionResolved {
        defaultConnection := Nullable(config.defaultConnection);
        defaultConnectionResolved := true;
      }
      r := defaultConnection;
    }

    method ConfiguredQueue(connection: Option<string>) returns (r: Option<string>)
      requires Remembers()
      modifies `configuredQueues
      ensures Remembers() && r == DefaultQueue(config, connection)
    {
      if connection.None? {
        return None;
      }
      if connection.value !in configuredQueues {
        configuredQueues := configuredQueues[connection.value := Nullable(config.queues(connection.value))];
      }
      r := configuredQueues[connection.value];
    }

    method ResolvedMetadata(s: Stated) returns (r: Row)
      requires Remembers()
      modifies `defaultConnectionResolved, `defaultConnection, `configuredQueues
      ensures Remembers() && r == Resolved(config, s) && Says(config, s, r)
    {
      ResolvedSays(config, s, Resolved(config, s));
      hide Says;
      var connection := s.connection;
      if connection.None? {
        connection := ConfiguredDefaultConnection();
      }
      var queue := s.queue;
      if queue.None? {
        queue := ConfiguredQueue(connection);
      }
      r := Row(if queue.Some? then queue.value else "default", connection, s.queueIsExplicit, s.connectionIsExplicit);
    }

    /** The rows of a chunk of batches, added where there is none yet. */
    method InsertOrIgnore(chunk: seq<Id>) returns (inserted: nat)
      requires Remembers() && Elements(chunk) <= source.Keys
      requires Ascending(chunk)
      requires forall id :: id in chunk ==> id !in metadata
      modifies `metadata, `defaultConnectionResolved, `defaultConnection, `configuredQueues
      ensures Remembers() && inserted == |chunk|
      ensures metadata == old(metadata) + Rows(config, source, Elements(chunk))
    {
      inserted := 0;
      ghost var before := metadata;
      NoRows(config, source, metadata);
      for i := 0 to |chunk|
        invariant Remembers() && inserted == i && metadata == before + Rows(config, source, Elements(chunk[..i]))
        invariant forall k :: i <= k < |chunk| ==> chunk[k] !in metadata
      {
        assert Elements(chunk[..i + 1]) == Elements(chunk[..i]) + {chunk[i]};
        assert chunk[i] in Elements(chunk);
        OneRow(config, source, before, Elements(chunk[..i]), chunk[i]);
        var row := ResolvedMetadata(source[chunk[i]]);
        if chunk[i] !in metadata {
          metadata := metadata[chunk[i] := row];
          inserted := inserted + 1;
        }
      }
      assert chunk[..|chunk|] == chunk;
    }

    /** Adds a row for every batch that has none. */
    method InsertMissing() returns (inserted: nat)
      requires Remembers()
      modifies `metadata, `defaultConnectionResolved, `defaultConnection, `configuredQueues
      ensures Remembers() && inserted == |source.Keys - old(metadata.Keys)|
      ensures metadata == old(metadata) + Rows(config, source, source.Keys - old(metadata.Keys))
    {
      hide IsChunk, Filled, Counted, Rows, Memory;
      ghost var before := metadata;
      ghost var done: set<Id> := {};
      var lastId: Option<Id>, more := None, true;
      inserted := 0;
      FilledNothing(config, source, before);
      while more
        invariant Remembers() && Counted(inserted, done) && Filled(config, source, before, metadata, lastId, done)
        invariant !more ==> done == source.Keys - before.Keys
        decreases more, source.Keys - done
      {
        var query := set id | id in source && id !in metadata && (lastId.None? || id > lastId.value);
        QueryIs(config, source, before, metadata, lastId, done, query);
        var chunk := FirstIds(query);
        ChunkFacts(query, chunk);
        if chunk == [] {
          more := false;
        } else {
          FilledMore(config, source, before, metadata, lastId, done, query, chunk);
          var added := InsertOrIgnore(chunk);
          var total := inserted + added;
          CountedMore(inserted, done, chunk, total);
          inserted := total;
          done := done + Elements(chunk);
          lastId := Some(chunk[|chunk| - 1]);
          more := |chunk| == CHUNK_SIZE;
        }
      }
      FilledAll(config, source, before, metadata, lastId, done);
      CountedAll(inserted, done);
    }

    /** Removes rows without a batch, chunk by chunk, and stops at the first chunk that is not full of non-empty ids. */
    method RemoveStaleMetadata()
      modifies `metadata
      ensures forall id :: id in metadata ==> id in old(metadata) && metadata[id] == old(metadata)[id]
      ensures forall id :: id in old(metadata) && (id in source || id == 0) ==> id in metadata
      ensures 0 in source || 0 !in old(metadata) ==> metadata == Kept(old(metadata), source.Keys)
      ensures 0 !in source && 0 in old(metadata) ==> OneChunkRemoved(old(metadata), source.Keys, metadata)
    {
      hide IsChunk, Elements, OneChunkRemoved;
      ghost var before := metadata;
      var more := true;
      while more
        invariant forall id :: id in metadata ==> id in before && metadata[id] == before[id]
        invariant forall id :: id in before && (id in source || id == 0) ==> id in metadata
        invariant !more && (0 in source || 0 !in before) ==> metadata.Keys <= source.Keys
        invariant 0 !in source && 0 in before ==> if more then metadata == before else OneChunkRemoved(before, source.Keys, metadata)
        decreases more, metadata.Keys
      {
        var query := metadata.Keys - source.Keys;
        var fetched := FirstIds(query);
        ChunkFacts(query, fetched);
        var staleIds := NonEmpty(fetched);
        NonEmptyFacts(fetched);
        if 0 !in source && 0 in before {
          EmptyIdEndsRemoval(metadata, source.Keys, fetched);
        }
        if staleIds == [] {
          StaleLeft(metadata.Keys, source.Keys, fetched);
          assert 0 in metadata.Keys ==> 0 in before;
          more := false;
        } else {
          StaleChunk(metadata, source.Keys, fetched);
          assert 0 in metadata ==> 0 in before;
          metadata := metadata - Elements(staleIds);
          more := |staleIds| == CHUNK_SIZE;
        }
      }
    }

    /**
      One synchronization: every batch gets its row, no existing row is changed, and rows of
      batches that are gone are removed when the two counts differ. The tables then agree
      exactly if the empty id was not a stale row; if it was, only the first chunk of stale rows
      goes, and the empty id stays.
    */
    method Sync() returns (inserted: nat)
      requires Remembers()
      modifies this
      ensures Remembers() && synchronized
      ensures old(synchronized) || !supported ==> inserted == 0 && metadata == old(metadata)
      ensures !old(synchronized) && supported ==>
                && inserted == |source.Keys - old(metadata.Keys)|
                && Synced(config, source, old(metadata), metadata)
                && (metadata.Keys == source.Keys <==> 0 in source || 0 !in old(metadata))
                && (0 !in source && 0 in old(metadata) ==>
                      OneChunkRemoved(old(metadata) + Rows(config, source, source.Keys - old(metadata.Keys)), source.Keys, metadata))
    {
      inserted := 0;
      if synchronized {
        return;
      }
      if !supported {
        synchronized := true;
        return;
      }
      hide Synced, Rows, Kept, Memory, OneChunkRemoved;
      ghost var before := metadata;
      inserted := InsertMissing();
      ghost var filled := metadata;
      FillSyncs(config, source, before, filled);
      FillKeys(config, source, before, filled);
      CountTestIsExact(before.Keys, source.Keys);
      if |metadata| > |source| {
        RemoveStaleMetadata();
        RemovalSyncs(config, source, before, filled, metadata);
      }
      synchronized := true;
    }
  }

  /** Every batch has its row, an existing one unchanged, and rows without a batch are old ones. */
  ghost predicate Synced(c: Config, source: map<Id, Stated>, before: map<Id, Row>, after: map<Id, Row>) {
    && (forall id :: id in source ==> id in after)
    && (forall id :: id in source && id in after ==> if id in before then after[id] == before[id] else Says(c, source[id], after[id]))
    && (forall id :: id in after && id !in source ==> id in before && after[id] == before[id])
  }

  lemma FillSyncs(c: Config, source: map<Id, Stated>, before: map<Id, Row>, after: map<Id, Row>)
    requires after == before + Rows(c, source, source.Keys - before.Keys)
    ensures Synced(c, source, before, after)
  {
    hide Resolved, Says;
    forall id | id in source
      ensures id in after && if id in before then after[id] == before[id] else Says(c, source[id], after[id])
    {
      ResolvedSays(c, source[id], Resolved(c, source[id]));
    }
  }

  lemma FillKeys(c: Config, source: map<Id, Stated>, before: map<Id, Row>, after: map<Id, Row>)
    requires after == before + Rows(c, source, source.Keys - before.Keys)
    ensures after.Keys == before.Keys + source.Keys && |after| == |before.Keys + source.Keys| && |source| == |source.Keys|
    ensures before.Keys <= source.Keys ==> after.Keys == source.Keys
  {
    hide Resolved;
    assert after.Keys == before.Keys + source.Keys;
  }

  lemma RemovalSyncs(c: Config, source: map<Id, Stated>, before: map<Id, Row>, filled: map<Id, Row>, after: map<Id, Row>)
    requires Synced(c, source, before, filled) && filled.Keys == before.Keys + source.Keys && !(before.Keys <= source.Keys)
    requires forall id :: id in after ==> id in filled && after[id] == filled[id]
    requires forall id :: id in filled && (id in source || id == 0) ==> id in after
    requires 0 in source || 0 !in filled ==> after == Kept(filled, source.Keys)
    ensures Synced(c, source, before, after)
    ensures after.Keys == source.Keys <==> 0 in source || 0 !in before
  {
  }

  /** The missing rows of `done` have been added, and every other missing id lies beyond the last chunk. */
  ghost predicate Filled(c: Config, source: map<Id, Stated>, before: map<Id, Row>, now: map<Id, Row>, lastId: Option<Id>, done: set<Id>) {
    && done <= source.Keys - before.Keys && now == before + Rows(c, source, done)
    && forall id :: id in source && id !in before && id !in done ==> lastId.None? || id > lastId.value
  }

  ghost predicate Counted(inserted: nat, done: set<Id>) {
    inserted == |done|
  }

  lemma CountedMore(inserted: nat, done: set<Id>, chunk: seq<Id>, total: nat)
    requires Counted(inserted, done) && Ascending(chunk) && done !! Elements(chunk) && total == inserted + |chunk|
    ensures Counted(total, done + Elements(chunk))
  {
    AscendingSize(chunk);
    UnionSize(done, Elements(chunk));
  }

  lemma CountedAll(inserted: nat, done: set<Id>)
    requires Counted(inserted, done)
    ensures inserted == |done|
  {
  }

  lemma FilledNothing(c: Config, source: map<Id, Stated>, m: map<Id, Row>)
    ensures Filled(c, source, m, m, None, {}) && Counted(0, {})
  {
    NoRows(c, source, m);
  }

  lemma QueryIs(c: Config, source: map<Id, Stated>, before: map<Id, Row>, now: map<Id, Row>, lastId: Option<Id>, done: set<Id>,
                query: set<Id>)
    requires Filled(c, source, before, now, lastId, done)
    requires query == set id | id in source && id !in now && (lastId.None? || id > lastId.value)
    ensures query == source.Keys - before.Keys - done
    ensures query == {} ==> done == source.Keys - before.Keys
  {
    forall id | id in source && id !in before && id !in done
      ensures id in query
    {
    }
  }

  lemma FilledMore(c: Config, source: map<Id, Stated>, before: map<Id, Row>, now: map<Id, Row>, lastId: Option<Id>, done: set<Id>,
                   query: set<Id>, chunk: seq<Id>)
    requires Filled(c, source, before, now, lastId, done) && query == source.Keys - before.Keys - done && chunk != []
    requires Elements(chunk) <= query && (|chunk| < CHUNK_SIZE ==> Elements(chunk) == query) && Elements(chunk) != {}
    requires forall id :: id in query - Elements(chunk) ==> id > chunk[|chunk| - 1]
    ensures Filled(c, source, before, now + Rows(c, source, Elements(chunk)), Some(chunk[|chunk| - 1]), done + Elements(chunk))
    ensures Elements(chunk) <= source.Keys && done !! Elements(chunk) && forall id :: id in chunk ==> id !in now
    ensures source.Keys - (done + Elements(chunk)) < source.Keys - done
    ensures |chunk| < CHUNK_SIZE ==> done + Elements(chunk) == source.Keys - before.Keys
  {
    RowsMore(c, source, before, done, Elements(chunk));
    var id :| id in Elements(chunk);
    assert id in source.Keys - done && id !in source.Keys - (done + Elements(chunk));
    forall x | x in source && x !in before && x !in done + Elements(chunk)
      ensures x > chunk[|chunk| - 1]
    {
      assert x in query - Elements(chunk);
    }
  }

  lemma FilledAll(c: Config, source: map<Id, Stated>, before: map<Id, Row>, now: map<Id, Row>, lastId: Option<Id>, done: set<Id>)
    requires Filled(c, source, before, now, lastId, done) && done == source.Keys - before.Keys
    ensures now == before + Rows(c, source, source.Keys - before.Keys)
  {
  }

  function Rows(c: Config, source: map<Id, Stated>, ids: set<Id>): (r: map<Id, Row>)
    ensures r.Keys == ids * source.Keys
    ensures forall id :: id in r ==> r[id] == Resolved(c, source[id])
  {
    map id | id in ids && id in source :: Resolved(c, source[id])
  }

  function Kept(m: map<Id, Row>, ids: set<Id>): map<Id, Row> {
    map id | id in m && id in ids :: m[id]
  }

  function NonEmpty(ids: seq<Id>): seq<Id> {
    if ids == [] then [] else if ids[0] == 0 then NonEmpty(ids[1..]) else [ids[0]] + NonEmpty(ids[1..])
  }

  lemma NoRows(c: Config, source: map<Id, Stated>, m: map<Id, Row>)
    ensures m + Rows(c, source, {}) == m && Elements<Id>([]) == {}
  {
  }

  lemma OneRow(c: Config, source: map<Id, Stated>, m: map<Id, Row>, ids: set<Id>, id: Id)
    requires id in source
    ensures (m + Rows(c, source, ids))[id := Resolved(c, source[id])] == m + Rows(c, source, ids + {id})
  {
  }

  lemma RowsMore(c: Config, source: map<Id, Stated>, m: map<Id, Row>, a: set<Id>, b: set<Id>)
    ensures (m + Rows(c, source, a)) + Rows(c, source, b) == m + Rows(c, source, a + b)
  {
  }

  /** What the callers of a chunk query use. */
  lemma ChunkFacts(ids: set<Id>, chunk: seq<Id>)
    requires IsChunk(ids, chunk)
    ensures Ascending(chunk)
    ensures Elements(chunk) <= ids && |chunk| <= CHUNK_SIZE
    ensures |chunk| < CHUNK_SIZE ==> Elements(chunk) == ids
    ensures chunk != [] ==> Elements(chunk) != {} && forall id :: id in ids - Elements(chunk) ==> id > chunk[|chunk| - 1]
  {
    assert chunk != [] ==> chunk[0] in Elements(chunk);
  }

  lemma {:induction false} NonEmptyFacts(ids: seq<Id>)
    ensures forall id :: id in NonEmpty(ids) <==> id in ids && id != 0
    ensures |NonEmpty(ids)| <= |ids|
    decreases |ids|
  {
    if ids != [] {
      NonEmptyFacts(ids[1..]);
      assert forall id :: id in ids <==> id == ids[0] || id in ids[1..];
    }
  }

  lemma {:induction false} AllNonEmpty(ids: seq<Id>)
    requires 0 !in ids
    ensures NonEmpty(ids) == ids
    decreases |ids|
  {
    if ids != [] {
      assert ids[0] in ids;
      AllNonEmpty(ids[1..]);
    }
  }

  /** With the missing rows in place, there are more rows than batches exactly when some row has no batch. */
  lemma CountTestIsExact(rows: set<Id>, batches: set<Id>)
    ensures |rows + batches| > |batches| <==> !(rows <= batches)
  {
    UnionSize(batches, rows - batches);
    assert rows + batches == batches + (rows - batches);
    assert rows - batches == {} <==> rows <= batches;
  }

  /** Deleting a chunk's non-empty ids keeps every row with a batch; a chunk that was not full had all stale rows. */
  lemma StaleChunk(m: map<Id, Row>, batches: set<Id>, fetched: seq<Id>)
    requires Elements(fetched) <= m.Keys - batches && NonEmpty(fetched) != []
    requires |fetched| < CHUNK_SIZE ==> Elements(fetched) == m.Keys - batches
    ensures var r := m - Elements(NonEmpty(fetched));
            && r.Keys < m.Keys
            && (forall id :: id in r ==> id in m && r[id] == m[id])
            && (forall id :: id in m && (id in batches || id == 0) ==> id in r)
            && (|NonEmpty(fetched)| != CHUNK_SIZE && |fetched| <= CHUNK_SIZE && (0 in batches || 0 !in m) ==> r.Keys <= batches)
  {
    NonEmptyFacts(fetched);
    var id := NonEmpty(fetched)[0];
    assert id in Elements(NonEmpty(fetched));
    if 0 in batches || 0 !in m {
      assert 0 !in Elements(fetched);
      AllNonEmpty(fetched);
    }
  }

  /** The first chunk of the rows without a batch has gone, except for the empty id. */
  ghost predicate OneChunkRemoved(before: map<Id, Row>, batches: set<Id>, after: map<Id, Row>) {
    exists chunk :: IsChunk(before.Keys - batches, chunk) && after == before - (Elements(chunk) - {0})
  }

  /** A stale empty id heads the first chunk, which is then not full of non-empty ids. */
  lemma EmptyIdEndsRemoval(m: map<Id, Row>, batches: set<Id>, fetched: seq<Id>)
    requires IsChunk(m.Keys - batches, fetched) && 0 in m && 0 !in batches
    ensures |NonEmpty(fetched)| < CHUNK_SIZE
    ensures OneChunkRemoved(m, batches, m - Elements(NonEmpty(fetched)))
    ensures NonEmpty(fetched) == [] ==> OneChunkRemoved(m, batches, m)
  {
    NonEmptyFacts(fetched);
    ChunkFacts(m.Keys - batches, fetched);
    assert 0 in m.Keys - batches;
    assert 0 in Elements(fetched);
    FewerNonEmpty(fetched);
    assert Elements(NonEmpty(fetched)) == Elements(fetched) - {0};
    if NonEmpty(fetched) == [] {
      assert Elements(NonEmpty(fetched)) == {} && m - {} == m;
    }
  }

  lemma {:induction false} FewerNonEmpty(ids: seq<Id>)
    requires 0 in ids
    ensures |NonEmpty(ids)| < |ids|
    decreases |ids|
  {
    if ids[0] == 0 {
      NonEmptyFacts(ids[1..]);
    } else {
      assert 0 in ids[1..];
      FewerNonEmpty(ids[1..]);
    }
  }

  lemma LongIsNonEmpty(ids: seq<Id>)
    requires Ascending(ids)
    ensures |ids| > 1 ==> NonEmpty(ids) != []
  {
    NonEmptyFacts(ids);
    if |ids| > 1 {
      assert ids[1] in ids && ids[1] != 0;
    }
  }

  lemma StaleLeft(rows: set<Id>, batches: set<Id>, fetched: seq<Id>)
    requires NonEmpty(fetched) == [] && (|fetched| < CHUNK_SIZE ==> Elements(fetched) == rows - batches)
    requires Ascending(fetched)
    ensures 0 in batches || 0 !in rows ==> rows <= batches
  {
    LongIsNonEmpty(fetched);
    NonEmptyFacts(fetched);
    forall id | id in rows && (0 in batches || 0 !in rows)
      ensures id in batches
    {
      assert id in rows - batches ==> id in Elements(fetched);
    }
  }
}
