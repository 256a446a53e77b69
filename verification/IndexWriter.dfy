/**
  The writer that brings a working slot in line with a source snapshot. The writer may stop
  before any command, and other processes may change the shared metadata hash between any
  two of its commands; the slot itself is the writer's alone.
*/
module IndexWriter {
  import opened Collections
  import opened FacetSlot
  import IndexChecks

  /** What happens at one moment: the writer stops, or others drop and add metadata. */
  datatype Event = Event(crash: bool, forgotten: set<Id>, learned: set<Id>)

  const SOURCE_CHUNK_SIZE := 1000

  const CATALOG_SCAN_CHUNK_SIZE := 500

  const GRACE_SECONDS := 5.0

  const FACET_DIMENSIONS := [JobName, Queue, Connection, Tag, Target]

  function Restricted(m: map<Id, Score>, ids: set<Id>): (r: map<Id, Score>)
    ensures r.Keys == m.Keys * ids
  {
    map id | id in m && id in ids :: m[id]
  }

  /** HMGET of the metadata hash. */
  function Found(metadata: map<Id, Metadata>, ids: set<Id>): (r: map<Id, Metadata>)
    ensures r.Keys == ids * metadata.Keys
    ensures forall id :: id in r ==> r[id] == metadata[id]
  {
    map id | id in ids && id in metadata :: metadata[id]
  }

  /** The records of jobs that Horizon still has. */
  function Read(w: World, ids: set<Id>): (r: map<Id, Metadata>)
    ensures r.Keys == ids && Knows(w, r)
  {
    map id | id in ids :: w.record(id)
  }

  /** The references that have been without a readable job for the grace period: scores are negated times. */
  function Overdue(scores: map<Id, Score>, ids: set<Id>, checkedAt: Id -> real): (r: map<Id, Score>)
    ensures r.Keys <= scores.Keys * ids
  {
    map id | id in scores && id in ids && -scores[id] <= checkedAt(id) - GRACE_SECONDS :: scores[id]
  }

  ghost predicate AllSound(w: World, slots: seq<Slot>) {
    forall s :: s in slots ==> Sound(w, s)
  }

  /** The trail leads from the slot that was found to the slot as it is, over sound states. */
  ghost predicate Leads(w: World, found: Slot, trail: seq<Slot>, slot: Slot) {
    AllSound(w, trail) && slot == if trail == [] then found else trail[|trail| - 1]
  }

  ghost predicate MayStop(schedule: nat -> Event) {
    exists k :: schedule(k).crash
  }

  class Writer {
    const world: World
    const readable: set<Id>
    const retained: set<Id>
    const checkedAt: Id -> real
    const hydrationChunkSize: nat
    const schedule: nat -> Event
    var clock: nat
    var crashed: bool
    var metadata: map<Id, Metadata>
    var slot: Slot
    ghost const found: Slot
    ghost var trail: seq<Slot>

    constructor (world: World, readable: set<Id>, retained: set<Id>, checkedAt: Id -> real, hydrationChunkSize: nat, schedule: nat -> Event,
                 metadata: map<Id, Metadata>, slot: Slot)
      ensures this.world == world && this.readable == readable && this.retained == retained && this.checkedAt == checkedAt
      ensures this.schedule == schedule && this.metadata == metadata && this.slot == slot && found == slot && trail == [] && !crashed
    {
      this.world, this.readable, this.retained, this.checkedAt := world, readable, retained, checkedAt;
      this.hydrationChunkSize, this.schedule := hydrationChunkSize, schedule;
      this.clock, this.crashed, this.metadata, this.slot := 0, false, metadata, slot;
      this.found, this.trail := slot, [];
    }

    /** What the metadata hash says is true, and the writer stops only where its schedule lets it. */
    ghost predicate Informed()
      reads this
    {
      Knows(world, metadata) && (crashed ==> MayStop(schedule))
    }

    /** The slot is sound, and so is every state that a command of this writer has left it in. */
    ghost predicate Valid()
      reads this
    {
      Informed() && Sound(world, slot) && Leads(world, found, trail, slot)
    }

    /** Time passes: the writer may stop here, and others use the metadata hash. */
    method Pass()
      requires Informed()
      modifies `clock, `crashed, `metadata
      ensures Informed()
    {
      var e := schedule(clock);
      clock := clock + 1;
      crashed := e.crash;
      metadata := (metadata - e.forgotten) + Read(world, e.learned);
    }

    /** One command on the slot, unless the writer has stopped before it. */
    method Execute(next: Slot)
      requires Valid() && Sound(world, next)
      modifies this
      ensures Valid()
      ensures slot == if crashed then old(slot) else next
      ensures trail == if crashed then old(trail) else old(trail) + [next]
    {
      hide MayStop, Sound, Knows;
      Pass();
      if !crashed {
        slot, trail := next, trail + [next];
      }
    }

    // ----- Adding -----

    /** Metadata already known, then the rest read from Horizon in chunks. */
    method Hydrate(ids: set<Id>) returns (known: map<Id, Metadata>)
      requires Informed() && !crashed
      modifies `clock, `crashed, `metadata
      ensures Informed() && Knows(world, known) && known.Keys <= ids
      ensures !crashed ==> ids * readable <= known.Keys
    {
      hide MayStop, Found, Read, Knows, Sound;
      FoundIsKnown(world, metadata, ids);
      known := Found(metadata, ids);
      var left := ids - known.Keys;
      var size := if hydrationChunkSize < 1 then 1 else hydrationChunkSize;
      while left != {} && !crashed
        invariant Informed() && Knows(world, known) && known.Keys <= ids
        invariant left <= ids && ids * readable <= known.Keys + left
        decreases left
      {
        var chunk := First(left, size);
        KnowsBoth(world, known, Read(world, chunk * readable));
        known := known + Read(world, chunk * readable);
        left := left - chunk;
        Pass();
      }
    }

    /** A chunk of missing jobs: those whose metadata is found are indexed, overdue ones are set aside. */
    method HydrateAndStore(scores: map<Id, Score>) returns (ghost resolved: set<Id>)
      requires Valid() && !crashed
      requires scores.Keys !! slot.projection.Keys && scores.Keys !! slot.unresolved.Keys
      modifies this
      ensures Valid() && slot.initialized == old(slot.initialized)
      ensures resolved <= scores.Keys && (!crashed ==> scores.Keys * readable <= resolved)
      ensures !crashed ==>
                && slot.projection == old(slot.projection) + Restricted(scores, resolved)
                && slot.unresolved == old(slot.unresolved) + Overdue(scores, scores.Keys - resolved, checkedAt)
                && Placed(readable, checkedAt, scores, old(slot), slot, resolved)
      ensures Clean(old(slot)) ==> Clean(slot)
      ensures Exact(old(slot)) ==> Exact(slot)
    {
      hide Placed, MayStop, Leads, Sound, Clean, Exact, Knows, StoreHydrated, StoreUnresolved, Found, Restricted, Overdue;
      resolved := {};
      ghost var before := slot;
      var known := Hydrate(scores.Keys);
      if crashed {
        return;
      }
      resolved := known.Keys;
      var unresolved := Overdue(scores, scores.Keys - known.Keys, checkedAt);
      StoreUnresolvedKeeps(world, slot, unresolved);
      if unresolved != map[] {
        Execute(StoreUnresolved(slot, unresolved));
        if crashed {
          return;
        }
      } else {
        NothingUnresolved(slot);
      }
      var found := Restricted(scores, known.Keys);
      StoreHydratedKeeps(world, slot, found, known);
      if Exact(slot) {
        StoreHydratedIsExact(world, slot, found, known);
      }
      StoredParts(world.jobType, slot, found, known);
      if found != map[] {
        Execute(StoreHydrated(world.jobType, slot, found, known));
      } else {
        NothingFound(slot.projection);
      }
      if !crashed {
        ArePlaced(readable, checkedAt, scores, before, slot, resolved);
      }
    }

    /** Every source member that is neither projected nor set aside is hydrated, chunk by chunk. */
    method AddMissingJobs(source: map<Id, Score>) returns (missingCount: nat, ghost resolved: set<Id>)
      requires Valid() && !crashed
      modifies this
      ensures Valid() && slot.initialized == old(slot.initialized)
      ensures missingCount == |Missing(source, old(slot))| && resolved <= Missing(source, old(slot))
      ensures !crashed ==>
                && Added(readable, checkedAt, source, old(slot), slot, resolved, Missing(source, old(slot)))
                && Placed(readable, checkedAt, source, old(slot), slot, resolved)
                && KeptAsIs(source, old(slot), slot)
      ensures Missing(source, old(slot)) == {} ==> slot == old(slot) && !crashed
      ensures Clean(old(slot)) ==> Clean(slot)
      ensures Exact(old(slot)) ==> Exact(slot)
    {
      hide Placed, KeptAsIs, MayStop, Leads, Sound, Clean, Exact, Knows, Restricted, Overdue, Added, Missing;
      var missing := Missing(source, slot);
      missingCount := |missing|;
      resolved := {};
      ghost var done: set<Id> := {};
      ghost var before := slot;
      AddedNothing(readable, checkedAt, source, slot);
      ghost var none := missing == {};
      var left, reading := missing, true;
      while reading && !crashed
        invariant Valid() && slot.initialized == before.initialized
        invariant left <= missing && done == missing - left && resolved <= missing
        invariant !crashed ==> (reading || left == {}) && Added(readable, checkedAt, source, before, slot, resolved, done)
        invariant none ==> slot == before && !crashed
        invariant Clean(before) ==> Clean(slot)
        invariant Exact(before) ==> Exact(slot)
        decreases reading, left
      {
        var window := First(left, SOURCE_CHUNK_SIZE);
        reading := |window| == SOURCE_CHUNK_SIZE;
        if !reading {
          assert window == left;
          assert left - window == {};
        }
        left := left - window;
        assert none ==> window == {};
        if window != {} {
          ghost var s := slot;
          AddedApart(readable, checkedAt, source, before, s, resolved, done, window);
          ghost var more := HydrateAndStore(Restricted(source, window));
          if !crashed {
            AddedMore(readable, checkedAt, source, before, s, slot, resolved, done, window, more);
            resolved := resolved + more;
          }
          done := done + window;
        }
      }
      if !crashed {
        assert done == missing;
        AddedIsPlaced(readable, checkedAt, source, before, slot, resolved);
      }
    }

    // ----- Removing -----

    /** Takes ids out of every facet that one dimension's catalog lists, and drops the facets this leaves empty. */
    method RemoveUnknownIn(d: Dimension, ids: set<Id>)
      requires Valid() && !crashed && ids !! slot.projection.Keys
      modifies this
      ensures Valid() && SameJobs(old(slot), slot) && Shrunk(old(slot), slot)
      ensures !crashed ==> forall f: Facet :: f.Dim() == d ==> Cleared(slot, f, ids)
      ensures forall f: Facet :: f.Dim() != d && Cleared(old(slot), f, ids) ==> Cleared(slot, f, ids)
    {
      hide MayStop, Leads, Sound, Knows, Members, RemoveFrom, Unlist, DeleteFacets, CatalogOf, Cleared, Shrunk;
      ghost var before := slot;
      var left := CatalogOf(slot, d);
      ScanStarts(world, slot, d, left, ids);
      ShrunkSelf(slot);
      while left != {} && !crashed
        invariant Valid() && SameJobs(before, slot) && Shrunk(before, slot)
        invariant left <= CatalogOf(before, d)
        invariant !crashed ==> forall f: Facet :: f.Dim() == d ==> Cleared(slot, f, ids) || f in left
        invariant forall f: Facet :: f.Dim() != d && Cleared(before, f, ids) ==> Cleared(slot, f, ids)
        decreases left
      {
        var chunk := First(left, CATALOG_SCAN_CHUNK_SIZE);
        ghost var s := slot;
        PurgeKeeps(world, s, chunk, ids, before, d);
        Execute(RemoveFrom(slot, chunk, ids));
        if !crashed {
          var empty := EmptyOf(slot, chunk);
          if empty != {} {
            Execute(Unlist(DeleteFacets(slot, empty), empty));
          }
        }
        left := left - chunk;
      }
    }

    /** Jobs whose metadata is gone are looked for in every catalogued facet. */
    method RemoveUnknownFacetMemberships(ids: set<Id>)
      requires Valid() && !crashed && ids !! slot.projection.Keys
      modifies this
      ensures Valid() && SameJobs(old(slot), slot) && Shrunk(old(slot), slot)
      ensures !crashed ==> forall f: Facet :: Cleared(slot, f, ids)
    {
      hide MayStop, Leads, Sound, Knows, Members, Cleared, Shrunk;
      ghost var before := slot;
      ShrunkSelf(slot);
      var i := 0;
      while i < |FACET_DIMENSIONS| && !crashed
        invariant 0 <= i <= |FACET_DIMENSIONS|
        invariant Valid() && SameJobs(before, slot) && Shrunk(before, slot)
        invariant !crashed ==> forall f: Facet :: f.Dim() in FACET_DIMENSIONS[..i] ==> Cleared(slot, f, ids)
        decreases |FACET_DIMENSIONS| - i
      {
        ghost var s := slot;
        RemoveUnknownIn(FACET_DIMENSIONS[i], ids);
        ShrunkTwice(before, s, slot);
        i := i + 1;
      }
      if !crashed {
        forall f: Facet
          ensures Cleared(slot, f, ids)
        {
          EveryDimension(f);
          assert FACET_DIMENSIONS[..i] == FACET_DIMENSIONS;
        }
      }
    }

    /** Catalog values whose last member a removal has taken: unlisted first, then deleted. */
    method DropEmptied(affected: set<Facet>, counted: set<Facet>)
      requires Valid() && !crashed
      modifies this
      ensures Valid() && SameJobs(old(slot), slot) && Shrunk(old(slot), slot)
      ensures !crashed && (forall f :: f in old(slot).catalog && Members(old(slot), f) == map[] ==> f in affected && f in counted)
              ==> Exact(slot)
    {
      hide MayStop, Leads, Sound, Knows, Shrunk, Exact, Members;
      ghost var before := slot;
      ShrunkSelf(slot);
      var left := affected;
      while left != {} && !crashed
        invariant Valid() && SameJobs(before, slot) && Shrunk(before, slot)
        invariant left <= affected
        invariant !crashed ==> Settled(before, slot, affected - left, counted)
        decreases left
      {
        var f :| f in left;
        ghost var s := slot;
        DropKeeps(world, before, s, affected - left, counted, f);
        if Members(slot, f) == map[] && f in counted {
          Execute(Unlist(slot, {f}));
          if !crashed {
            Execute(DeleteFacets(slot, {f}));
          }
        }
        assert affected - (left - {f}) == (affected - left) + {f};
        left := left - {f};
      }
      if !crashed {
        assert affected - left == affected;
        SettledIsExact(before, slot, affected, counted);
      }
    }

    /**
      A chunk of stale jobs goes: from the projection and, by its metadata or by a search of
      every catalogued facet, from the index; metadata goes once no source retains the job.
    */
    method RemoveStaleChunk(ids: set<Id>)
      requires Valid() && !crashed && ids <= slot.projection.Keys
      modifies this
      ensures Valid() && slot.initialized == old(slot.initialized) && slot.unresolved == old(slot.unresolved)
      ensures slot.projection == old(slot.projection) - ids || (crashed && slot.projection == old(slot.projection))
      ensures !crashed && Clean(old(slot)) ==> Clean(slot)
      ensures !crashed && Clean(old(slot)) && Exact(old(slot)) ==> Exact(slot)
    {
      hide MayStop, Leads, Sound, Knows, Shrunk, Clean, Exact, Members, Cleared, Removed, RemoveKnown, Found, Touched;
      ghost var before := slot;
      Pass();
      if crashed {
        return;
      }
      var known := Found(metadata, ids);
      FoundIsKnown(world, metadata, ids);
      var unknown := ids - known.Keys;
      var affected := Touched(world.jobType, ids, known);
      var counted := affected - EmptyOf(slot, affected);
      RemovedParts(world, slot, ids, known);
      Execute(RemoveKnown(world.jobType, slot, ids, known));
      if crashed {
        return;
      }
      ghost var removed := slot;
      ShrunkSelf(slot);
      if unknown != {} {
        RemoveUnknownFacetMemberships(unknown);
        if crashed {
          return;
        }
      }
      ghost var cleared := slot;
      RemovalEmpties(world, before, removed, cleared, ids, known, affected, counted);
      DropEmptied(affected, counted);
      if crashed {
        return;
      }
      RemovalCleans(before, removed, cleared, slot, ids, known);
      ForgetUnretained(ids - retained);
    }

    /** HDEL of the metadata that no source needs any more. */
    method ForgetUnretained(ids: set<Id>)
      requires Informed() && !crashed
      modifies `clock, `crashed, `metadata
      ensures Informed()
    {
      var left := ids;
      while left != {} && !crashed
        invariant Informed()
        decreases left
      {
        var id :| id in left;
        Pass();
        if !crashed {
          metadata := metadata - {id};
        }
        left := left - {id};
      }
    }

    /** Every projected job that the source no longer has is removed, chunk by chunk. */
    method RemoveStaleJobs(source: map<Id, Score>)
      requires Valid() && !crashed
      modifies this
      ensures Valid() && slot.initialized == old(slot.initialized) && slot.unresolved == old(slot.unresolved)
      ensures !crashed ==> slot.projection == Restricted(old(slot.projection), source.Keys)
      ensures !crashed && Clean(old(slot)) ==> Clean(slot)
      ensures !crashed && Clean(old(slot)) && Exact(old(slot)) ==> Exact(slot)
    {
      hide MayStop, Leads, Sound, Knows, Clean, Exact, Restricted, Dropping;
      ghost var before := slot;
      var left := slot.projection.Keys - source.Keys;
      RemovalStarts(slot.projection, source.Keys);
      while left != {} && !crashed
        invariant Valid() && slot.initialized == before.initialized && slot.unresolved == before.unresolved
        invariant !crashed ==> Dropping(before.projection, source.Keys, left, slot.projection)
        invariant !crashed && Clean(before) ==> Clean(slot)
        invariant !crashed && Clean(before) && Exact(before) ==> Exact(slot)
        decreases left
      {
        var ids := First(left, SOURCE_CHUNK_SIZE);
        RemovalGoesOn(before.projection, source.Keys, left, slot.projection, ids);
        RemoveStaleChunk(ids);
        left := left - ids;
      }
      if !crashed {
        RemovalEnds(before.projection, source.Keys, slot.projection);
      }
    }

    method RemoveStaleUnresolvedReferences(source: map<Id, Score>)
      requires Valid() && !crashed
      modifies this
      ensures Valid() && slot.initialized == old(slot.initialized) && slot.projection == old(slot.projection)
      ensures !crashed ==> slot.unresolved == Restricted(old(slot.unresolved), source.Keys)
      ensures Clean(old(slot)) ==> Clean(slot)
      ensures Exact(old(slot)) ==> Exact(slot)
    {
      hide MayStop, Leads, Sound, Knows, Clean, Exact, Restricted, Dropping;
      ghost var before := slot;
      var left := slot.unresolved.Keys - source.Keys;
      RemovalStarts(slot.unresolved, source.Keys);
      while left != {} && !crashed
        invariant Valid() && slot.initialized == before.initialized && slot.projection == before.projection
        invariant !crashed ==> Dropping(before.unresolved, source.Keys, left, slot.unresolved)
        invariant (Clean(before) ==> Clean(slot)) && (Exact(before) ==> Exact(slot))
        decreases left
      {
        var ids := First(left, SOURCE_CHUNK_SIZE);
        RemovalGoesOn(before.unresolved, source.Keys, left, slot.unresolved, ids);
        JobsOnlyKeeps(world, slot, slot.projection, slot.unresolved - ids);
        Execute(slot.(unresolved := slot.unresolved - ids));
        left := left - ids;
      }
      if !crashed {
        RemovalEnds(before.unresolved, source.Keys, slot.unresolved);
      }
    }

    /**
      Against a fixed source: what is missing is added, and what is stale is removed when the
      counts say that there is anything stale.
    */
    method ReconcileProjection(source: map<Id, Score>) returns (ghost resolved: set<Id>)
      requires Valid() && !crashed
      modifies this
      ensures Valid() && slot.initialized == old(slot.initialized)
      ensures !crashed ==>
                && Reconciled(readable, checkedAt, source, old(slot), slot, resolved)
                && Placed(readable, checkedAt, source, old(slot), slot, resolved)
                && KeptWithin(source, old(slot), slot)
      ensures IndexChecks.Covers(old(slot), source) ==> slot == old(slot) && !crashed
      ensures !crashed && Clean(old(slot)) ==> Clean(slot)
      ensures !crashed && Clean(old(slot)) && Exact(old(slot)) ==> Exact(slot)
    {
      hide Placed, KeptAsIs, KeptWithin, MayStop, Leads, Sound, Knows, Clean, Exact, Restricted, Overdue, Added, Missing, Reconciled;
      hide IndexChecks.Covers;
      ghost var before := slot;
      SoundIsDisjoint(world, slot);
      if IndexChecks.Covers(slot, source) {
        CoveredMissesNothing(source, slot);
      }
      var sourceCount, projectionCount, unresolvedCount := |source|, |slot.projection|, |slot.unresolved|;
      var missingCount: nat;
      missingCount, resolved := AddMissingJobs(source);
      if crashed {
        return;
      }
      ghost var added := slot;
      CountTestIsExact(source, before);
      AddedThenRemoved(readable, checkedAt, source, before, added, resolved);
      if projectionCount + unresolvedCount + missingCount > sourceCount {
        RemoveStaleJobs(source);
        if !crashed && unresolvedCount > 0 {
          RemoveStaleUnresolvedReferences(source);
        }
      }
      if !crashed {
        ReconciledIsPlaced(readable, checkedAt, source, before, slot, resolved);
      }
    }

    // ----- Starting over -----

    /** Deletes the facets that one dimension's catalog lists, then the catalog. */
    method DeleteDimension(d: Dimension)
      requires Valid() && !crashed && (slot.initialized ==> slot.projection == map[])
      modifies this
      ensures Valid() && SameJobs(old(slot), slot) && Shrunk(old(slot), slot)
      ensures !crashed ==> forall f: Facet :: f.Dim() == d ==> Members(slot, f) == map[] && f !in slot.catalog
    {
      hide MayStop, Leads, Sound, Knows, Members, Shrunk, DeleteFacets, Unlist, CatalogOf;
      ghost var before := slot;
      var listed := CatalogOf(slot, d);
      var left := listed;
      UnlistedIsEmpty(world, slot, d);
      ShrunkSelf(slot);
      while left != {} && !crashed
        invariant Valid() && SameJobs(before, slot) && Shrunk(before, slot)
        invariant left <= listed && (!crashed ==> slot.catalog == before.catalog)
        invariant !crashed ==> forall f: Facet :: f.Dim() == d ==> Members(slot, f) == map[] || f in left
        decreases left
      {
        var chunk := First(left, CATALOG_SCAN_CHUNK_SIZE);
        WipeKeeps(world, before, slot, chunk);
        Execute(DeleteFacets(slot, chunk));
        left := left - chunk;
      }
      if !crashed {
        UnlistWipedKeeps(world, before, slot, d);
        Execute(Unlist(slot, CatalogOf(slot, d)));
      }
    }

    method DeleteFacetKeys()
      requires Valid() && !crashed && (slot.initialized ==> slot.projection == map[])
      modifies this
      ensures Valid() && SameJobs(old(slot), slot)
      ensures !crashed ==> forall f :: Members(slot, f) == map[] && f !in slot.catalog
    {
      hide MayStop, Leads, Sound, Knows, Members, Shrunk;
      ghost var before := slot;
      var i := 0;
      while i < |FACET_DIMENSIONS| && !crashed
        invariant 0 <= i <= |FACET_DIMENSIONS|
        invariant Valid() && SameJobs(before, slot)
        invariant !crashed ==> forall f: Facet :: f.Dim() in FACET_DIMENSIONS[..i] ==> Members(slot, f) == map[] && f !in slot.catalog
        decreases |FACET_DIMENSIONS| - i
      {
        ghost var s := slot;
        DeleteDimension(FACET_DIMENSIONS[i]);
        ShrunkStaysEmpty(s, slot);
        i := i + 1;
      }
      if !crashed {
        forall f: Facet
          ensures Members(slot, f) == map[] && f !in slot.catalog
        {
          EveryDimension(f);
          assert FACET_DIMENSIONS[..i] == FACET_DIMENSIONS;
        }
      }
    }

    /** Rebuilding empties the slot and indexes the whole source again, whatever an earlier writer has left behind. */
    method RebuildTypeIndex(source: map<Id, Score>, requiredFacets: set<Facet>) returns (ghost resolved: set<Id>)
      requires Valid() && !crashed
      modifies this
      ensures Valid() && slot.initialized == old(slot.initialized)
      ensures !crashed ==>
                && source.Keys * readable <= resolved <= source.Keys
                && slot.projection == Restricted(source, resolved)
                && slot.unresolved == Overdue(source, source.Keys - resolved, checkedAt)
                && Placed(readable, checkedAt, source, DeleteJobs(old(slot)), slot, resolved)
                && KeptAsIs(source, DeleteJobs(old(slot)), slot)
                && Clean(slot) && Exact(slot)
    {
      hide Placed, KeptAsIs, MayStop, Leads, Sound, Knows, Clean, Exact, Members, Restricted, Overdue, Added;
      ghost var start := slot;
      resolved := {};
      JobsOnlyKeeps(world, slot, map[], map[]);
      Execute(DeleteJobs(slot));
      if crashed {
        return;
      }
      DeleteFacetKeys();
      if crashed {
        return;
      }
      DeleteFacetsKeeps(world, slot, requiredFacets);
      EmptyIsExact(slot);
      EmptyIsExact(DeleteFacets(slot, requiredFacets));
      Execute(DeleteFacets(slot, requiredFacets));
      if crashed {
        return;
      }
      ghost var emptied := slot;
      var _, more := AddMissingJobs(source);
      resolved := more;
      if !crashed {
        AddedToNothing(readable, checkedAt, source, emptied, slot, resolved);
        SamePlaces(readable, checkedAt, source, emptied, DeleteJobs(start), slot, resolved);
      }
    }

    /** A slot that is not initialized is emptied, given the published references, and only then marked as usable. */
    method PrepareWorkingGeneration(published: map<Id, Score>)
      requires Valid() && !crashed
      modifies this
      ensures Valid()
      ensures old(slot.initialized) ==> slot == old(slot) && !crashed
      ensures !crashed ==> slot.initialized
      ensures !crashed && !old(slot.initialized) ==>
                slot.projection == map[] && slot.unresolved == published && Clean(slot) && Exact(slot)
    {
      hide MayStop, Leads, Sound, Knows, Clean, Exact, Members;
      if slot.initialized {
        return;
      }
      DeleteFacetKeys();
      if crashed {
        return;
      }
      EmptiedKeeps(world, slot, published);
      Execute(slot.(projection := map[], unresolved := map[], initialized := false));
      if !crashed {
        Execute(slot.(unresolved := published));
      }
      if !crashed {
        Execute(slot.(initialized := true));
      }
    }

    // ----- A whole synchronization -----

    /**
      Reconciles, rebuilds a slot whose structure is damaged, and reports success only for a
      slot that covers the source and passes the structural checks. A run that is not
      interrupted succeeds whenever no unreadable job of the source is still young. A slot that
      covers the source and passes already is left as it is.
    */
    method SynchronizeUnderLock(source: map<Id, Score>, requiredFacets: seq<Facet>, partitions: seq<Dimension>, allowIncomplete: bool)
      returns (ok: bool)
      requires Valid() && !crashed && slot.initialized
      modifies this
      ensures Valid() && slot.initialized
      ensures ok ==> !crashed
      ensures ok && !allowIncomplete ==>
                IndexChecks.Covers(slot, source) && IndexChecks.StructureHolds(slot, world.jobType, requiredFacets, partitions)
      ensures !crashed && Clean(old(slot)) && Exact(old(slot)) ==> Clean(slot) && Exact(slot)
      ensures !crashed && NoneYoung(readable, checkedAt, source) && Checkable(world.jobType, partitions)
              ==> ok && IndexChecks.Covers(slot, source)
      ensures IndexChecks.Covers(old(slot), source) && IndexChecks.StructureHolds(old(slot), world.jobType, requiredFacets, partitions)
              ==> ok && slot == old(slot)
      ensures !crashed ==> Served(readable, checkedAt, source, old(slot.unresolved), slot)
    {
      hide Placed, KeptAsIs, KeptWithin, Served;
      hide MayStop, Leads, Sound, Knows, Clean, Exact, Reconciled, NoneYoung, Checkable, Restricted, Overdue;
      hide IndexChecks.Covers, IndexChecks.StructureHolds;
      ghost var before := slot;
      ghost var passing := IndexChecks.Covers(slot, source) && IndexChecks.StructureHolds(slot, world.jobType, requiredFacets, partitions);
      ghost var resolved := ReconcileProjection(source);
      if crashed {
        return false;
      }
      ReconcileServes(readable, checkedAt, source, before.unresolved, before, slot, resolved);
      ReconciledCovers(world, readable, checkedAt, source, before, slot, resolved);
      var structured := IndexChecks.IndexStructureIsConsistent(slot, world.jobType, requiredFacets, partitions);
      if !structured {
        ghost var damaged := slot;
        resolved := RebuildTypeIndex(source, Elements(requiredFacets));
        if crashed {
          return false;
        }
        RebuildServes(readable, checkedAt, source, before.unresolved, damaged, slot, resolved);
        RebuiltCovers(readable, checkedAt, source, slot, resolved);
        IntactPasses(world, slot, requiredFacets, partitions);
      }
      var consistent := IndexChecks.IndexIsConsistent(slot, world.jobType, source, requiredFacets, partitions);
      ghost var settled := NoneYoung(readable, checkedAt, source) && Checkable(world.jobType, partitions);
      assert settled ==> consistent;
      var attempt := 0;
      while attempt < 2 && !consistent
        invariant Valid() && !crashed && slot.initialized && (settled ==> consistent)
        invariant consistent <==>
                    IndexChecks.Covers(slot, source) && IndexChecks.StructureHolds(slot, world.jobType, requiredFacets, partitions)
        invariant Clean(before) && Exact(before) ==> Clean(slot) && Exact(slot)
        invariant passing ==> consistent && slot == before
        invariant Served(readable, checkedAt, source, before.unresolved, slot)
      {
        ghost var earlier := slot;
        resolved := ReconcileProjection(source);
        if crashed {
          return false;
        }
        ReconcileServes(readable, checkedAt, source, before.unresolved, earlier, slot, resolved);
        consistent := IndexChecks.IndexIsConsistent(slot, world.jobType, source, requiredFacets, partitions);
        attempt := attempt + 1;
      }
      ok := consistent || allowIncomplete;
    }

    /**
      Takes a slot over, in whatever state the last writer has left it, and brings it in line with the source.
      A run that is not interrupted keeps facets and catalogs free of debris, and starts without any in a slot
      that is not initialized; debris that passes the checks stays.
    */
    method Synchronize(source: map<Id, Score>, published: map<Id, Score>, requiredFacets: seq<Facet>, partitions: seq<Dimension>)
      returns (ok: bool)
      requires Valid() && !crashed
      modifies this
      ensures Valid() && (ok ==> slot.initialized)
      ensures ok ==> IndexChecks.Covers(slot, source) && IndexChecks.StructureHolds(slot, world.jobType, requiredFacets, partitions)
      ensures !crashed && (!old(slot.initialized) || (Clean(old(slot)) && Exact(old(slot)))) ==> Clean(slot) && Exact(slot)
      ensures ok ==> !crashed
      ensures !crashed ==> Served(readable, checkedAt, source, if old(slot.initialized) then old(slot.unresolved) else published, slot)
      ensures old(slot.initialized) && IndexChecks.Covers(old(slot), source)
              && IndexChecks.StructureHolds(old(slot), world.jobType, requiredFacets, partitions)
              ==> ok && slot == old(slot)
    {
      hide Served, MayStop, Leads, Sound, Knows, Clean, Exact, NoneYoung, Checkable, IndexChecks.Covers, IndexChecks.StructureHolds;
      PrepareWorkingGeneration(published);
      if crashed {
        return false;
      }
      ok := SynchronizeUnderLock(source, requiredFacets, partitions, false);
    }
  }

  /** One synchronization: what the writer finds and what happens to it. */
  datatype Attempt = Attempt(
    readable: set<Id>,
    retained: set<Id>,
    checkedAt: Id -> real,
    schedule: nat -> Event,
    learned: set<Id>,
    source: map<Id, Score>,
    published: map<Id, Score>,
    requiredFacets: seq<Facet>,
    partitions: seq<Dimension>)

  /**
    Writers follow one another on one slot, each of them stopping wherever it may: the slot stays sound.
    As long as none of them stops, it also stays free of debris.
  */
  method Successors(world: World, hydrationChunkSize: nat, attempts: seq<Attempt>) returns (slot: Slot)
    ensures Sound(world, slot)
    ensures (forall i :: 0 <= i < |attempts| ==> !MayStop(attempts[i].schedule)) ==> Clean(slot) && Exact(slot)
  {
    hide MayStop, Knows, NoneYoung, Checkable, IndexChecks.Covers, IndexChecks.StructureHolds;
    slot := Slot(map[], map[], map[], {}, false);
    EmptyIsExact(slot);
    hide Clean, Exact;
    for i := 0 to |attempts|
      invariant Sound(world, slot)
      invariant (forall k :: 0 <= k < i ==> !MayStop(attempts[k].schedule)) ==> Clean(slot) && Exact(slot)
    {
      var a := attempts[i];
      ReadIsKnown(world, a.learned);
      var w := new Writer(world, a.readable, a.retained, a.checkedAt, hydrationChunkSize, a.schedule, Read(world, a.learned), slot);
      var _ := w.Synchronize(a.source, a.published, a.requiredFacets, a.partitions);
      slot := w.slot;
    }
  }

  /** A job left out because it was young is projected by the next reconciliation that can read it. */
  method ReconcileAgain(first: Writer, source: map<Id, Score>, next: Attempt) returns (second: Writer)
    requires first.Valid() && !first.crashed
    modifies first
    ensures fresh(second) && second.Valid()
    ensures !first.crashed && !second.crashed ==>
              forall id ::
                && id in source && id !in old(first.slot.projection) && id !in old(first.slot.unresolved) && id !in first.slot.projection
                && -source[id] > first.checkedAt(id) - 5.0 && id in next.source && id in next.readable
                ==> id in second.slot.projection && second.slot.projection[id] == next.source[id]
  {
    hide MayStop, Leads, Sound, Knows, Clean, Exact, Reconciled, IndexChecks.Covers;
    var _ := first.ReconcileProjection(source);
    ReadIsKnown(first.world, next.learned);
    second := new Writer(first.world, next.readable, next.retained, next.checkedAt, first.hydrationChunkSize, next.schedule,
                         Read(first.world, next.learned), first.slot);
    StartsLeading(first.world, first.slot);
    if !first.crashed {
      var _ := second.ReconcileProjection(next.source);
    }
  }

  lemma StartsLeading(w: World, s: Slot)
    ensures Leads(w, s, [], s)
  {
  }

  lemma ReadIsKnown(w: World, ids: set<Id>)
    ensures Knows(w, Read(w, ids))
  {
  }

  /** Every source job can be read or has been unreadable for the grace period. */
  ghost predicate NoneYoung(readable: set<Id>, checkedAt: Id -> real, source: map<Id, Score>) {
    forall id :: id in source ==> id in readable || -source[id] <= checkedAt(id) - GRACE_SECONDS
  }

  ghost predicate Checkable(t: JobType, partitions: seq<Dimension>) {
    forall d :: d in partitions ==> IndexChecks.SingleValued(d) && (d == Target ==> t == Pending)
  }

  lemma ReconciledCovers(w: World, readable: set<Id>, checkedAt: Id -> real, source: map<Id, Score>, before: Slot, after: Slot,
                         resolved: set<Id>)
    requires Reconciled(readable, checkedAt, source, before, after, resolved) && Sound(w, before)
    ensures NoneYoung(readable, checkedAt, source) ==> IndexChecks.Covers(after, source)
  {
    SoundIsDisjoint(w, before);
    ReconciledCoversTheSource(w, readable, checkedAt, source, before, after, resolved);
    hide Reconciled, Sound;
    if NoneYoung(readable, checkedAt, source) {
      forall id | id in source
        ensures id in after.projection.Keys + after.unresolved.Keys
      {
        assert id !in Missing(source, after);
      }
    }
  }

  lemma RebuiltCovers(readable: set<Id>, checkedAt: Id -> real, source: map<Id, Score>, after: Slot, resolved: set<Id>)
    requires source.Keys * readable <= resolved <= source.Keys
    requires after.projection == Restricted(source, resolved)
    requires after.unresolved == Overdue(source, source.Keys - resolved, checkedAt)
    ensures NoneYoung(readable, checkedAt, source) ==> IndexChecks.Covers(after, source)
  {
    forall id | id in source && NoneYoung(readable, checkedAt, source)
      ensures id in after.projection || id in after.unresolved
    {
      assert id in readable ==> id in source.Keys * readable;
    }
  }

  lemma IntactPasses(w: World, s: Slot, requiredFacets: seq<Facet>, partitions: seq<Dimension>)
    requires Sound(w, s) && s.initialized && Clean(s) && Exact(s)
    ensures Checkable(w.jobType, partitions) ==> IndexChecks.StructureHolds(s, w.jobType, requiredFacets, partitions)
  {
    hide Sound, Clean, Exact, IndexChecks.StructureHolds;
    if Checkable(w.jobType, partitions) {
      IndexChecks.IntactSlotPasses(w, s, requiredFacets, partitions);
    }
  }

  /** Everything outside the source has been dropped, except what is left to drop. */
  ghost predicate Dropping(before: map<Id, Score>, source: set<Id>, left: set<Id>, now: map<Id, Score>) {
    left <= before.Keys - source && now == Restricted(before, source + left)
  }

  lemma RemovalStarts(before: map<Id, Score>, source: set<Id>)
    ensures Dropping(before, source, before.Keys - source, before)
  {
  }

  lemma RemovalGoesOn(before: map<Id, Score>, source: set<Id>, left: set<Id>, now: map<Id, Score>, ids: set<Id>)
    requires Dropping(before, source, left, now) && ids <= left
    ensures ids <= now.Keys && (now - ids).Keys <= now.Keys && Dropping(before, source, left - ids, now - ids)
  {
  }

  lemma RemovalEnds(before: map<Id, Score>, source: set<Id>, now: map<Id, Score>)
    requires Dropping(before, source, {}, now)
    ensures now == Restricted(before, source)
  {
    assert source + {} == source;
  }

  lemma SoundIsDisjoint(w: World, s: Slot)
    requires Sound(w, s)
    ensures s.projection.Keys !! s.unresolved.Keys
  {
  }

  /** Facets and catalogs do not depend on the references, nor on an emptied projection. */
  lemma JobsOnlyKeeps(w: World, s: Slot, projection: map<Id, Score>, unresolved: map<Id, Score>)
    requires Sound(w, s) && (projection == s.projection || projection == map[]) && unresolved.Keys <= s.unresolved.Keys
    ensures var r := s.(projection := projection, unresolved := unresolved);
            Sound(w, r) && (projection == s.projection && Clean(s) ==> Clean(r)) && (Exact(s) ==> Exact(r))
  {
    var r := s.(projection := projection, unresolved := unresolved);
    assert forall f :: Members(r, f) == Members(s, f);
  }

  /**
    The count test fires exactly when the slot holds something that the source does not:
    with the missing ids added, the counts add up to the union of slot and source.
  */
  lemma CountTestIsExact(source: map<Id, Score>, s: Slot)
    requires s.projection.Keys !! s.unresolved.Keys
    ensures |s.projection| + |s.unresolved| + |Missing(source, s)| > |source|
            <==> !(s.projection.Keys + s.unresolved.Keys <= source.Keys)
  {
    DifferenceTwice(source.Keys, s.projection.Keys, s.unresolved.Keys);
    var held, gap := s.projection.Keys + s.unresolved.Keys, source.Keys - (s.projection.Keys + s.unresolved.Keys);
    UnionSize(s.projection.Keys, s.unresolved.Keys);
    GapSize(held, source.Keys);
    assert |held| + |gap| > |source.Keys| <==> !(held <= source.Keys);
  }

  lemma CoveredMissesNothing(source: map<Id, Score>, s: Slot)
    requires IndexChecks.Covers(s, source)
    ensures Missing(source, s) == {} && s.projection.Keys + s.unresolved.Keys <= source.Keys
  {
  }

  lemma DifferenceTwice(source: set<Id>, a: set<Id>, b: set<Id>)
    ensures source - (a + b) == source - a - b
  {
  }

  lemma GapSize(held: set<Id>, source: set<Id>)
    ensures |held| + |source - held| > |source| <==> !(held <= source)
  {
    UnionSize(held, source - held);
    UnionSize(source, held - source);
    assert held + (source - held) == source + (held - source);
    assert held - source == {} <==> held <= source;
  }

  /**
    Against the source `S`: jobs and references outside `S` are gone, those inside it are kept,
    every missing job that could be read is projected with its source score, and of the others
    only the young ones are not set aside.
  */
  ghost predicate Reconciled(readable: set<Id>, checkedAt: Id -> real, source: map<Id, Score>, before: Slot, after: Slot,
                             resolved: set<Id>)
  {
    var missing := Missing(source, before);
    && missing * readable <= resolved <= missing
    && after.projection == Restricted(before.projection, source.Keys) + Restricted(source, resolved)
    && after.unresolved == Restricted(before.unresolved, source.Keys) + Overdue(source, missing - resolved, checkedAt)
  }

  lemma AddedThenRemoved(readable: set<Id>, checkedAt: Id -> real, source: map<Id, Score>, before: Slot, added: Slot,
                         resolved: set<Id>)
    requires Added(readable, checkedAt, source, before, added, resolved, Missing(source, before))
    ensures before.projection.Keys + before.unresolved.Keys <= source.Keys
            ==> Reconciled(readable, checkedAt, source, before, added, resolved)
    ensures forall after: Slot ::
              && after.projection == Restricted(added.projection, source.Keys)
              && after.unresolved == (if before.unresolved == map[] then added.unresolved else Restricted(added.unresolved, source.Keys))
              ==> Reconciled(readable, checkedAt, source, before, after, resolved)
  {
    KeptAndAdded(before.projection, Restricted(source, resolved), source);
    KeptAndAdded(before.unresolved, Overdue(source, Missing(source, before) - resolved, checkedAt), source);
  }

  lemma KeptAndAdded(m: map<Id, Score>, more: map<Id, Score>, source: map<Id, Score>)
    requires more.Keys <= source.Keys
    ensures Restricted(m + more, source.Keys) == Restricted(m, source.Keys) + more
    ensures m.Keys <= source.Keys ==> Restricted(m, source.Keys) == m
    ensures m == map[] ==> m + more == Restricted(m, source.Keys) + more
  {
  }

  /** What reconciling is for: two disjoint parts of the source that leave out only young jobs nobody can read. */
  lemma ReconciledCoversTheSource(w: World, readable: set<Id>, checkedAt: Id -> real, source: map<Id, Score>,
                                  before: Slot, after: Slot, resolved: set<Id>)
    requires Reconciled(readable, checkedAt, source, before, after, resolved) && before.projection.Keys !! before.unresolved.Keys
    ensures after.projection.Keys <= source.Keys && after.unresolved.Keys <= source.Keys
    ensures after.projection.Keys !! after.unresolved.Keys
    ensures forall id :: id in Missing(source, after) ==> id !in readable
    ensures forall id :: id in source ==>
              (id !in after.projection && id !in after.unresolved <==>
                 && id !in before.projection && id !in before.unresolved && id !in resolved
                 && -source[id] > checkedAt(id) - 5.0)
    ensures forall id :: id in source && id in before.projection ==> id in after.projection && after.projection[id] == before.projection[id]
  {
    forall id | id in Missing(source, after)
      ensures id !in readable && -source[id] > checkedAt(id) - GRACE_SECONDS
    {
      assert id !in Restricted(before.projection, source.Keys) && id !in Restricted(before.unresolved, source.Keys);
      assert id in Missing(source, before);
      assert id !in Restricted(source, resolved);
    }
  }

  lemma UnlistedIsEmpty(w: World, s: Slot, d: Dimension)
    requires Sound(w, s)
    ensures forall f: Facet :: f.Dim() == d ==> Members(s, f) == map[] || f in CatalogOf(s, d)
  {
    forall f: Facet | f.Dim() == d && Members(s, f) != map[]
      ensures f in CatalogOf(s, d)
    {
      var id :| id in Members(s, f);
    }
  }

  lemma WipeKeeps(w: World, before: Slot, s: Slot, chunk: set<Facet>)
    requires Sound(w, s) && (s.initialized ==> s.projection == map[]) && SameJobs(before, s) && Shrunk(before, s)
    ensures var r := DeleteFacets(s, chunk);
            && Sound(w, r) && SameJobs(before, r) && Shrunk(before, r) && r.catalog == s.catalog
            && forall f: Facet :: Members(r, f) == if f in chunk then map[] else Members(s, f)
  {
    DeleteFacetsKeeps(w, s, chunk);
  }

  lemma UnlistWipedKeeps(w: World, before: Slot, s: Slot, d: Dimension)
    requires Sound(w, s) && SameJobs(before, s) && Shrunk(before, s)
    requires forall f: Facet :: f.Dim() == d ==> Members(s, f) == map[]
    ensures var r := Unlist(s, CatalogOf(s, d));
            && Sound(w, r) && SameJobs(before, r) && Shrunk(before, r)
            && forall f: Facet :: f.Dim() == d ==> Members(r, f) == map[] && f !in r.catalog
  {
    UnlistKeeps(w, s, CatalogOf(s, d));
    var r := Unlist(s, CatalogOf(s, d));
    assert forall f :: Members(r, f) == Members(s, f);
  }

  lemma ShrunkStaysEmpty(a: Slot, b: Slot)
    requires Shrunk(a, b)
    ensures forall f: Facet :: Members(a, f) == map[] && f !in a.catalog ==> Members(b, f) == map[] && f !in b.catalog
  {
    forall f: Facet | Members(b, f) != map[]
      ensures Members(a, f) != map[]
    {
      var id :| id in Members(b, f);
      assert id in Members(a, f);
    }
  }

  lemma EmptyIsExact(s: Slot)
    requires forall f :: Members(s, f) == map[] && f !in s.catalog
    ensures Clean(s) && Exact(s)
  {
  }

  lemma AddedToNothing(readable: set<Id>, checkedAt: Id -> real, source: map<Id, Score>, s: Slot, after: Slot, resolved: set<Id>)
    requires s.projection == map[] && s.unresolved == map[]
    requires Added(readable, checkedAt, source, s, after, resolved, Missing(source, s))
    ensures source.Keys * readable <= resolved <= source.Keys
    ensures after.projection == Restricted(source, resolved)
    ensures after.unresolved == Overdue(source, source.Keys - resolved, checkedAt)
  {
    assert Missing(source, s) == source.Keys;
  }

  lemma EmptiedKeeps(w: World, s: Slot, published: map<Id, Score>)
    requires forall f :: Members(s, f) == map[] && f !in s.catalog
    ensures var r := s.(projection := map[], unresolved := map[], initialized := false);
            var t := r.(unresolved := published);
            var u := t.(initialized := true);
            Sound(w, r) && Sound(w, t) && Sound(w, u) && Clean(u) && Exact(u)
  {
    var r := s.(projection := map[], unresolved := map[], initialized := false);
    var t := r.(unresolved := published);
    var u := t.(initialized := true);
    assert forall f :: Members(r, f) == Members(s, f) && Members(t, f) == Members(s, f) && Members(u, f) == Members(s, f);
  }

  /** The projection and the references are the same; only facets and catalogs may differ. */
  predicate SameJobs(a: Slot, b: Slot) {
    a.projection == b.projection && a.unresolved == b.unresolved && a.initialized == b.initialized
  }

  /** Facets and catalogs have only lost members. */
  ghost predicate Shrunk(a: Slot, b: Slot) {
    && b.catalog <= a.catalog
    && forall f, id :: id in Members(b, f) ==> id in Members(a, f)
  }

  /** The facet holds none of the ids, and the catalog does not list it empty. */
  ghost predicate Cleared(s: Slot, f: Facet, ids: set<Id>) {
    Members(s, f).Keys !! ids && (f in s.catalog ==> Members(s, f) != map[])
  }

  lemma EveryDimension(f: Facet)
    ensures f.Dim() in FACET_DIMENSIONS
  {
    assert FACET_DIMENSIONS[0] == JobName && FACET_DIMENSIONS[1] == Queue && FACET_DIMENSIONS[2] == Connection;
    assert FACET_DIMENSIONS[3] == Tag && FACET_DIMENSIONS[4] == Target;
  }

  /** Of the facets visited, the counted ones that are empty have left the catalog. */
  ghost predicate Settled(before: Slot, s: Slot, visited: set<Facet>, counted: set<Facet>) {
    && (forall f :: Members(s, f) == Members(before, f))
    && (forall f :: f in visited && f in counted && Members(s, f) == map[] ==> f !in s.catalog)
  }

  lemma DropKeeps(w: World, before: Slot, s: Slot, visited: set<Facet>, counted: set<Facet>, f: Facet)
    requires Sound(w, s) && Shrunk(before, s) && SameJobs(before, s) && Settled(before, s, visited, counted)
    ensures Settled(before, s, visited + {f}, counted) || (Members(s, f) == map[] && f in counted)
    ensures var r := Unlist(s, {f});
            var t := DeleteFacets(r, {f});
            Members(s, f) == map[] ==>
              && Sound(w, r) && SameJobs(before, r) && Shrunk(before, r)
              && Sound(w, t) && SameJobs(before, t) && Shrunk(before, t)
              && Settled(before, t, visited + {f}, counted)
  {
    if Members(s, f) == map[] {
      UnlistKeeps(w, s, {f});
      var r := Unlist(s, {f});
      assert forall g :: Members(r, g) == Members(s, g);
      DeleteFacetsKeeps(w, r, {f});
      hide Sound, Unlist;
      var t := DeleteFacets(r, {f});
      assert forall g :: Members(t, g) == Members(s, g);
    }
  }

  lemma SettledIsExact(before: Slot, s: Slot, affected: set<Facet>, counted: set<Facet>)
    requires Shrunk(before, s) && Settled(before, s, affected, counted)
    ensures (forall f :: f in before.catalog && Members(before, f) == map[] ==> f in affected && f in counted) ==> Exact(s)
  {
  }

  /** Only jobs whose metadata was not known may still be left in a facet. */
  ghost predicate Removed(before: Slot, removed: Slot, ids: set<Id>, known: map<Id, Metadata>) {
    forall f, id :: id in Members(removed, f) ==> id in Members(before, f) && (id in ids ==> id !in known)
  }

  lemma RemovedParts(w: World, s: Slot, ids: set<Id>, known: map<Id, Metadata>)
    requires Sound(w, s) && Knows(w, known)
    ensures var r := RemoveKnown(w.jobType, s, ids, known);
            && r.projection == s.projection - ids && r.unresolved == s.unresolved && r.initialized == s.initialized
            && Sound(w, r) && Removed(s, r, ids, known)
  {
    RemoveKnownKeeps(w, s, ids, known);
  }

  /** What a chunk's removal has emptied, in a slot whose catalogs were exact, is affected and was counted. */
  lemma RemovalEmpties(w: World, before: Slot, removed: Slot, cleared: Slot, ids: set<Id>, known: map<Id, Metadata>,
                       affected: set<Facet>, counted: set<Facet>)
    requires removed == RemoveKnown(w.jobType, before, ids, known) && affected == Touched(w.jobType, ids, known)
    requires counted == affected - EmptyOf(before, affected)
    requires cleared == removed || forall f: Facet :: Cleared(cleared, f, ids - known.Keys)
    ensures Exact(before) ==> forall f :: f in cleared.catalog && Members(cleared, f) == map[] ==> f in affected && f in counted
  {
    if cleared == removed {
      forall f | f in cleared.catalog && Members(cleared, f) == map[] && Exact(before)
        ensures f in affected && f in counted
      {
        RemovedMembers(w.jobType, before, ids, known, f);
        assert Members(before, f) != map[];
        var id :| id in Members(before, f);
        assert id !in Without(w.jobType, Members(before, f), ids, known, f);
      }
    } else {
      assert forall f: Facet :: f in cleared.catalog ==> Cleared(cleared, f, ids - known.Keys);
    }
  }

  lemma RemovalCleans(before: Slot, removed: Slot, cleared: Slot, after: Slot, ids: set<Id>, known: map<Id, Metadata>)
    requires Removed(before, removed, ids, known)
    requires Shrunk(removed, cleared) && Shrunk(cleared, after) && after.projection == before.projection - ids
    requires ids - known.Keys == {} || forall f: Facet :: Cleared(cleared, f, ids - known.Keys)
    ensures Clean(before) ==> Clean(after)
  {
    forall f, id | id in Members(after, f) && Clean(before)
      ensures id in after.projection
    {
      assert id in Members(cleared, f);
      assert id in Members(removed, f);
      assert id in ids ==> id in ids - known.Keys;
      assert ids - known.Keys != {} ==> Cleared(cleared, f, ids - known.Keys);
    }
  }

  function EmptyOf(s: Slot, fs: set<Facet>): (r: set<Facet>)
    ensures r <= fs
  {
    set f | f in fs && Members(s, f) == map[]
  }

  lemma ShrunkSelf(s: Slot)
    ensures Shrunk(s, s)
  {
  }

  lemma ShrunkTwice(a: Slot, b: Slot, c: Slot)
    requires Shrunk(a, b) && Shrunk(b, c)
    ensures Shrunk(a, c)
  {
  }

  lemma ScanStarts(w: World, s: Slot, d: Dimension, left: set<Facet>, ids: set<Id>)
    requires Sound(w, s) && left == CatalogOf(s, d)
    ensures forall f: Facet :: f.Dim() == d ==> Cleared(s, f, ids) || f in left
  {
    forall f: Facet | f.Dim() == d && f !in left
      ensures Cleared(s, f, ids)
    {
      assert f !in s.catalog;
      assert Members(s, f) == map[] by {
        if id :| id in Members(s, f) {
          assert false;
        }
      }
    }
  }

  /** Taking the ids out of a chunk of facets. */
  lemma PurgeRemoves(w: World, s: Slot, chunk: set<Facet>, ids: set<Id>, before: Slot)
    requires Sound(w, s) && ids !! s.projection.Keys && Shrunk(before, s)
    ensures var r := RemoveFrom(s, chunk, ids);
            && Sound(w, r) && SameJobs(s, r) && Shrunk(before, r)
            && (EmptyOf(r, chunk) == {} ==> forall f: Facet :: f in chunk ==> Cleared(r, f, ids))
            && (forall f: Facet :: f in chunk ==> Members(r, f).Keys !! ids)
            && (forall f: Facet :: f !in chunk && Cleared(s, f, ids) ==> Cleared(r, f, ids))
  {
    RemoveFromKeeps(w, s, chunk, ids);
    var r := RemoveFrom(s, chunk, ids);
    hide Sound, Members;
    forall f: Facet | f in chunk && EmptyOf(r, chunk) == {}
      ensures Cleared(r, f, ids)
    {
      assert f !in EmptyOf(r, chunk);
    }
  }

  /** Dropping the facets of the chunk that this has emptied. */
  lemma PurgeDrops(w: World, r: Slot, chunk: set<Facet>, ids: set<Id>, before: Slot)
    requires Sound(w, r) && Shrunk(before, r) && forall f: Facet :: f in chunk ==> Members(r, f).Keys !! ids
    ensures var e := EmptyOf(r, chunk);
            var t := Unlist(DeleteFacets(r, e), e);
            && Sound(w, t) && SameJobs(r, t) && Shrunk(before, t)
            && (forall f: Facet :: f in chunk ==> Cleared(t, f, ids))
            && (forall f: Facet :: f !in chunk && Cleared(r, f, ids) ==> Cleared(t, f, ids))
  {
    var e := EmptyOf(r, chunk);
    var u := DeleteFacets(r, e);
    DeleteFacetsKeeps(w, r, e);
    UnlistKeeps(w, u, e);
    assert forall f :: Members(Unlist(u, e), f) == Members(u, f);
  }

  /** Both steps of a cleaned chunk keep the slot sound, and the second leaves the chunk cleared. */
  lemma PurgeKeeps(w: World, s: Slot, chunk: set<Facet>, ids: set<Id>, before: Slot, d: Dimension)
    requires Sound(w, s) && ids !! s.projection.Keys && Shrunk(before, s) && chunk <= CatalogOf(before, d)
    ensures var r := RemoveFrom(s, chunk, ids);
            var e := EmptyOf(r, chunk);
            var t := Unlist(DeleteFacets(r, e), e);
            && Sound(w, r) && SameJobs(s, r) && Shrunk(before, r)
            && Sound(w, t) && SameJobs(s, t) && Shrunk(before, t)
            && (forall f: Facet :: f in chunk ==> Cleared(t, f, ids))
            && (e == {} ==> forall f: Facet :: f in chunk ==> Cleared(r, f, ids))
            && (forall f: Facet :: f !in chunk && Cleared(s, f, ids) ==> Cleared(r, f, ids) && Cleared(t, f, ids))
            && (forall f: Facet :: f in chunk ==> f.Dim() == d)
  {
    hide Sound, Members, Shrunk, Cleared, RemoveFrom, DeleteFacets, Unlist, EmptyOf;
    PurgeRemoves(w, s, chunk, ids, before);
    PurgeDrops(w, RemoveFrom(s, chunk, ids), chunk, ids, before);
  }

  /**
    Id by id, where the jobs end up that the source has and the slot had not: what could be resolved is projected
    with its score, and of the rest the references that are at least five seconds old are set aside; the others
    are left out.
  */
  ghost predicate Placed(readable: set<Id>, checkedAt: Id -> real, source: map<Id, Score>, before: Slot, after: Slot, resolved: set<Id>) {
    forall id :: id in source && id !in before.projection && id !in before.unresolved ==>
      && (id in readable ==> id in resolved)
      && (id in after.projection <==> id in resolved)
      && (id in after.unresolved <==> id !in resolved && -source[id] <= checkedAt(id) - 5.0)
      && (id in after.projection ==> after.projection[id] == source[id])
      && (id in after.unresolved ==> after.unresolved[id] == source[id])
  }

  /** All other jobs of the slot are as they were. */
  ghost predicate KeptAsIs(source: map<Id, Score>, before: Slot, after: Slot) {
    forall id :: id !in source || id in before.projection || id in before.unresolved ==>
      && (id in after.projection <==> id in before.projection) && (id in after.unresolved <==> id in before.unresolved)
      && (id in before.projection ==> after.projection[id] == before.projection[id])
      && (id in before.unresolved ==> after.unresolved[id] == before.unresolved[id])
  }

  /** All other jobs of the slot are as they were, as far as the source has them. */
  ghost predicate KeptWithin(source: map<Id, Score>, before: Slot, after: Slot) {
    forall id :: id !in source || id in before.projection || id in before.unresolved ==>
      && (id in after.projection <==> id in before.projection && id in source)
      && (id in after.unresolved <==> id in before.unresolved && id in source)
      && (id in after.projection ==> after.projection[id] == before.projection[id])
      && (id in after.unresolved ==> after.unresolved[id] == before.unresolved[id])
  }

  /**
    What a synchronization owes every job: one that the source has and that can be read is projected, unless its
    reference had been set aside before; and nothing is set aside that was not before and is younger than five seconds.
  */
  ghost predicate Served(readable: set<Id>, checkedAt: Id -> real, source: map<Id, Score>, unresolved: map<Id, Score>, after: Slot) {
    && (forall id :: id in source && id in readable && id !in unresolved ==> id in after.projection)
    && (forall id :: id in after.unresolved ==> id in source && (id in unresolved || -source[id] <= checkedAt(id) - 5.0))
  }

  lemma ReconcileServes(readable: set<Id>, checkedAt: Id -> real, source: map<Id, Score>, unresolved: map<Id, Score>,
                        before: Slot, after: Slot, resolved: set<Id>)
    requires Placed(readable, checkedAt, source, before, after, resolved) && KeptWithin(source, before, after)
    requires unresolved == before.unresolved || Served(readable, checkedAt, source, unresolved, before)
    ensures Served(readable, checkedAt, source, unresolved, after)
  {
  }

  lemma RebuildServes(readable: set<Id>, checkedAt: Id -> real, source: map<Id, Score>, unresolved: map<Id, Score>,
                      before: Slot, after: Slot, resolved: set<Id>)
    requires Placed(readable, checkedAt, source, DeleteJobs(before), after, resolved) && KeptAsIs(source, DeleteJobs(before), after)
    ensures Served(readable, checkedAt, source, unresolved, after)
  {
  }

  lemma ArePlaced(readable: set<Id>, checkedAt: Id -> real, scores: map<Id, Score>, before: Slot, after: Slot, resolved: set<Id>)
    requires scores.Keys !! before.projection.Keys && scores.Keys !! before.unresolved.Keys
    requires resolved <= scores.Keys && scores.Keys * readable <= resolved
    requires after.projection == before.projection + Restricted(scores, resolved)
    requires after.unresolved == before.unresolved + Overdue(scores, scores.Keys - resolved, checkedAt)
    ensures Placed(readable, checkedAt, scores, before, after, resolved)
  {
    forall id | id in scores
      ensures id in readable ==> id in resolved
      ensures id in after.projection <==> id in resolved
      ensures id in after.unresolved <==> id !in resolved && -scores[id] <= checkedAt(id) - 5.0
    {
      assert id in readable ==> id in scores.Keys * readable;
    }
  }

  lemma AddedIsPlaced(readable: set<Id>, checkedAt: Id -> real, source: map<Id, Score>, before: Slot, after: Slot, resolved: set<Id>)
    requires Added(readable, checkedAt, source, before, after, resolved, Missing(source, before))
    ensures Placed(readable, checkedAt, source, before, after, resolved) && KeptAsIs(source, before, after)
  {
    forall id | id in source && id !in before.projection && id !in before.unresolved
      ensures id in readable ==> id in resolved
    {
      assert id in Missing(source, before);
      assert id in readable ==> id in Missing(source, before) * readable;
    }
  }

  lemma ReconciledIsPlaced(readable: set<Id>, checkedAt: Id -> real, source: map<Id, Score>, before: Slot, after: Slot, resolved: set<Id>)
    requires Reconciled(readable, checkedAt, source, before, after, resolved)
    ensures Placed(readable, checkedAt, source, before, after, resolved) && KeptWithin(source, before, after)
  {
    forall id | id in source && id !in before.projection && id !in before.unresolved
      ensures id in readable ==> id in resolved
    {
      assert id in Missing(source, before);
      assert id in readable ==> id in Missing(source, before) * readable;
    }
  }

  lemma SamePlaces(readable: set<Id>, checkedAt: Id -> real, source: map<Id, Score>, before: Slot, other: Slot, after: Slot, resolved: set<Id>)
    requires Placed(readable, checkedAt, source, before, after, resolved)
    requires other.projection == before.projection && other.unresolved == before.unresolved && KeptAsIs(source, before, after)
    ensures Placed(readable, checkedAt, source, other, after, resolved) && KeptAsIs(source, other, after)
  {
  }

  /** ZDIFFSTORE of the source, the projection and the unresolved references. */
  function Missing(source: map<Id, Score>, s: Slot): set<Id> {
    source.Keys - s.projection.Keys - s.unresolved.Keys
  }

  /** The jobs of `done` have been handled: the resolved ones are projected, the overdue ones of the others set aside. */
  ghost predicate Added(readable: set<Id>, checkedAt: Id -> real, source: map<Id, Score>, before: Slot, after: Slot,
                        resolved: set<Id>, done: set<Id>)
  {
    && done * readable <= resolved <= done <= Missing(source, before)
    && after.projection == before.projection + Restricted(source, resolved)
    && after.unresolved == before.unresolved + Overdue(source, done - resolved, checkedAt)
  }

  lemma AddedNothing(readable: set<Id>, checkedAt: Id -> real, source: map<Id, Score>, s: Slot)
    ensures Added(readable, checkedAt, source, s, s, {}, {})
  {
    assert s.projection + Restricted(source, {}) == s.projection;
    assert s.unresolved + Overdue(source, {} - {}, checkedAt) == s.unresolved;
  }

  lemma AddedApart(readable: set<Id>, checkedAt: Id -> real, source: map<Id, Score>, before: Slot, s: Slot,
                   resolved: set<Id>, done: set<Id>, window: set<Id>)
    requires Added(readable, checkedAt, source, before, s, resolved, done)
    requires window <= Missing(source, before) && window !! done
    ensures Restricted(source, window).Keys == window && window !! s.projection.Keys && window !! s.unresolved.Keys
  {
  }

  lemma AddedMore(readable: set<Id>, checkedAt: Id -> real, source: map<Id, Score>, before: Slot, s: Slot, after: Slot,
                  resolved: set<Id>, done: set<Id>, window: set<Id>, more: set<Id>)
    requires Added(readable, checkedAt, source, before, s, resolved, done)
    requires window <= Missing(source, before) && window !! done && window * readable <= more <= window
    requires after.projection == s.projection + Restricted(Restricted(source, window), more)
    requires after.unresolved == s.unresolved + Overdue(Restricted(source, window), window - more, checkedAt)
    ensures Added(readable, checkedAt, source, before, after, resolved + more, done + window)
  {
    RestrictedJoin(before.projection, source, resolved, window, more);
    OverdueJoin(before.unresolved, source, done - resolved, window, window - more, checkedAt);
    hide Restricted, Overdue;
    assert (done + window) - (resolved + more) == (done - resolved) + (window - more);
  }

  lemma RestrictedJoin(m: map<Id, Score>, source: map<Id, Score>, a: set<Id>, window: set<Id>, b: set<Id>)
    requires b <= window
    ensures (m + Restricted(source, a)) + Restricted(Restricted(source, window), b) == m + Restricted(source, a + b)
  {
  }

  lemma OverdueJoin(m: map<Id, Score>, source: map<Id, Score>, a: set<Id>, window: set<Id>, b: set<Id>, checkedAt: Id -> real)
    requires b <= window
    ensures (m + Overdue(source, a, checkedAt)) + Overdue(Restricted(source, window), b, checkedAt)
         == m + Overdue(source, a + b, checkedAt)
  {
  }

  lemma NothingFound(m: map<Id, Score>)
    ensures m + map[] == m
  {
  }

  lemma FoundIsKnown(w: World, metadata: map<Id, Metadata>, ids: set<Id>)
    requires Knows(w, metadata)
    ensures Knows(w, Found(metadata, ids))
  {
  }

  lemma KnowsBoth(w: World, a: map<Id, Metadata>, b: map<Id, Metadata>)
    requires Knows(w, a) && Knows(w, b)
    ensures Knows(w, a + b) && (a + b).Keys == a.Keys + b.Keys
  {
  }

  lemma StoreUnresolvedKeeps(w: World, s: Slot, chunk: map<Id, Score>)
    requires Sound(w, s) && chunk.Keys !! s.projection.Keys
    ensures var r := StoreUnresolved(s, chunk);
            && Sound(w, r) && (Clean(s) ==> Clean(r)) && (Exact(s) ==> Exact(r))
            && r.unresolved == s.unresolved + chunk && r.projection == s.projection && r.initialized == s.initialized
  {
    var r := StoreUnresolved(s, chunk);
    assert forall f :: Members(r, f) == Members(s, f);
    assert r.unresolved.Keys == s.unresolved.Keys + chunk.Keys;
  }

  lemma NothingUnresolved(s: Slot)
    ensures StoreUnresolved(s, map[]) == s
  {
  }

  lemma StoredParts(t: JobType, s: Slot, chunk: map<Id, Score>, known: map<Id, Metadata>)
    requires chunk.Keys !! s.unresolved.Keys
    ensures var r := StoreHydrated(t, s, chunk, known);
            r.projection == s.projection + chunk && r.unresolved == s.unresolved && r.initialized == s.initialized
  {
  }
}
