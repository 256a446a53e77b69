/**
  One slot of the retained-job index: the projected jobs, the references that could not be
  resolved yet, one scored set per facet value, and the catalog of facet values in use.
  Every function of this module is one atomic Redis command or transaction on the slot.
*/
module FacetSlot {
  type Id = string

  type Score = real

  datatype JobType = Pending | Completed | Silenced | Failed

  datatype Dimension = JobName | Queue | Connection | Tag | Target

  datatype Facet =
    | JobNameIs(name: string)
    | QueueIs(queue: string)
    | ConnectionIs(connection: string)
    | TagIs(tag: string)
    | TargetIs(target: (string, string))
  {
    function Dim(): Dimension {
      match this
      case JobNameIs(_) => JobName
      case QueueIs(_) => Queue
      case ConnectionIs(_) => Connection
      case TagIs(_) => Tag
      case TargetIs(_) => Target
    }
  }

  /** What a job's record says about it; the record of an id never changes. */
  datatype Metadata = Metadata(name: string, queue: string, connection: string, tags: seq<string>)

  /** Tags are indexed for failed jobs only, targets for pending jobs only. */
  function FacetsOf(t: JobType, m: Metadata): set<Facet> {
    {JobNameIs(m.name), QueueIs(m.queue), ConnectionIs(m.connection)}
    + (if t == Failed then set tag | tag in m.tags :: TagIs(tag) else {})
    + (if t == Pending then {TargetIs((m.connection, m.queue))} else {})
  }

  datatype World = World(jobType: JobType, record: Id -> Metadata) {
    function Facets(id: Id): set<Facet> {
      FacetsOf(jobType, record(id))
    }
  }

  /** What a filter by a value asks of a job, said of the job type and of the record alone. */
  predicate Carries(w: World, id: Id, f: Facet) {
    var m := w.record(id);
    match f
    case JobNameIs(name) => m.name == name
    case QueueIs(queue) => m.queue == queue
    case ConnectionIs(connection) => m.connection == connection
    case TagIs(tag) => w.jobType == Failed && exists i :: 0 <= i < |m.tags| && m.tags[i] == tag
    case TargetIs((connection, queue)) => w.jobType == Pending && m.connection == connection && m.queue == queue
  }

  /** The facets a job is indexed under are those a filter asks for: tags of failed jobs, targets of pending ones. */
  lemma FacetsAreCarried(w: World, id: Id, f: Facet)
    ensures f in w.Facets(id) <==> Carries(w, id, f)
  {
    var m := w.record(id);
    match f
    case TagIs(tag) =>
      assert tag in m.tags <==> exists i :: 0 <= i < |m.tags| && m.tags[i] == tag;
    case _ =>
  }

  datatype Slot = Slot(
    projection: map<Id, Score>,
    unresolved: map<Id, Score>,
    facets: map<Facet, map<Id, Score>>,
    catalog: set<Facet>,
    initialized: bool)

  /** A facet's sorted set; Redis has no key for an empty one. */
  function Members(s: Slot, f: Facet): map<Id, Score> {
    if f in s.facets then s.facets[f] else map[]
  }

  /** What the index is for: the projected jobs that carry the facet, with their scores. */
  function Filtered(w: World, s: Slot, f: Facet): map<Id, Score> {
    map id | id in s.projection && f in w.Facets(id) :: s.projection[id]
  }

  // ----- Invariants -----

  /** A facet holds only jobs that do carry its value. */
  ghost predicate Truthful(w: World, s: Slot) {
    forall f, id :: id in Members(s, f) ==> f in w.Facets(id)
  }

  /** A facet with members is in its catalog. */
  ghost predicate Listed(s: Slot) {
    forall f, id :: id in Members(s, f) ==> f in s.catalog
  }

  /** A projected job is in every facet that its record names, under its own score. */
  ghost predicate Complete(w: World, s: Slot) {
    forall id, f :: id in s.projection && f in w.Facets(id) ==> id in Members(s, f) && Members(s, f)[id] == s.projection[id]
  }

  /** What holds of a slot at every moment, wherever a writer may have stopped. */
  ghost predicate Sound(w: World, s: Slot) {
    && Truthful(w, s) && Listed(s)
    && s.projection.Keys !! s.unresolved.Keys
    && (s.initialized ==> Complete(w, s))
  }

  /** No facet holds a job that is not projected. */
  ghost predicate Clean(s: Slot) {
    forall f, id :: id in Members(s, f) ==> id in s.projection
  }

  /** No catalog lists a facet without members. */
  ghost predicate Exact(s: Slot) {
    forall f :: f in s.catalog ==> Members(s, f) != map[]
  }

  /** A facet all of whose members are projected is the naive filter of the projection. */
  lemma MirrorsFacet(w: World, s: Slot, f: Facet)
    requires Sound(w, s) && s.initialized && forall id :: id in Members(s, f) ==> id in s.projection
    ensures Members(s, f) == Filtered(w, s, f)
    ensures Filtered(w, s, f) != map[] ==> f in s.catalog
  {
    hide Members, FacetsOf;
    assert forall id :: id in Members(s, f) <==> id in Filtered(w, s, f);
    if Filtered(w, s, f) != map[] {
      var id :| id in Filtered(w, s, f);
      assert id in Members(s, f);
    }
  }

  /** A sound and clean slot is the naive filter of its projection, facet by facet; an exact one lists just these. */
  lemma MirrorsTheProjection(w: World, s: Slot)
    requires Sound(w, s) && s.initialized && Clean(s)
    ensures forall f :: Members(s, f) == Filtered(w, s, f)
    ensures Exact(s) ==> forall f :: f in s.catalog <==> Filtered(w, s, f) != map[]
  {
    forall f
      ensures Members(s, f) == Filtered(w, s, f)
      ensures Filtered(w, s, f) != map[] ==> f in s.catalog
    {
      MirrorsFacet(w, s, f);
    }
  }

  // ----- Commands -----

  /** ZADD of references whose job could not be read. */
  function StoreUnresolved(s: Slot, chunk: map<Id, Score>): Slot {
    s.(unresolved := s.unresolved + chunk)
  }

  function Touched(t: JobType, ids: set<Id>, known: map<Id, Metadata>): set<Facet> {
    set id, f | id in ids && id in known && f in FacetsOf(t, known[id]) :: f
  }

  function Carriers(t: JobType, chunk: map<Id, Score>, known: map<Id, Metadata>, f: Facet): map<Id, Score> {
    map id | id in chunk && id in known && f in FacetsOf(t, known[id]) :: chunk[id]
  }

  /** The transaction that indexes a chunk of jobs: facets, catalogs, projection, unresolved. */
  function StoreHydrated(t: JobType, s: Slot, chunk: map<Id, Score>, known: map<Id, Metadata>): Slot {
    var touched := Touched(t, chunk.Keys, known);
    Slot(s.projection + chunk,
         s.unresolved - chunk.Keys,
         map f | f in s.facets.Keys + touched :: Members(s, f) + Carriers(t, chunk, known, f),
         s.catalog + touched,
         s.initialized)
  }

  function Without(t: JobType, m: map<Id, Score>, ids: set<Id>, known: map<Id, Metadata>, f: Facet): map<Id, Score> {
    map id | id in m && !(id in ids && id in known && f in FacetsOf(t, known[id])) :: m[id]
  }

  /** The transaction that drops a chunk of stale jobs from the projection and from the facets their metadata names. */
  function RemoveKnown(t: JobType, s: Slot, ids: set<Id>, known: map<Id, Metadata>): Slot {
    s.(projection := s.projection - ids,
       facets := map f | f in s.facets :: Without(t, s.facets[f], ids, known, f))
  }

  /** ZREM of ids from each of the facets. */
  function RemoveFrom(s: Slot, fs: set<Facet>, ids: set<Id>): Slot {
    s.(facets := map f | f in s.facets :: if f in fs then s.facets[f] - ids else s.facets[f])
  }

  /** DEL of the projection and of the references. */
  function DeleteJobs(s: Slot): Slot {
    s.(projection := map[], unresolved := map[])
  }

  function DeleteFacets(s: Slot, fs: set<Facet>): Slot {
    s.(facets := s.facets - fs)
  }

  function Unlist(s: Slot, fs: set<Facet>): Slot {
    s.(catalog := s.catalog - fs)
  }

  function CatalogOf(s: Slot, d: Dimension): set<Facet> {
    set f | f in s.catalog && f.Dim() == d
  }

  // ----- What each command keeps -----

  ghost predicate Knows(w: World, known: map<Id, Metadata>) {
    forall id :: id in known ==> known[id] == w.record(id)
  }

  lemma StoredMembers(t: JobType, s: Slot, chunk: map<Id, Score>, known: map<Id, Metadata>, f: Facet)
    ensures Members(StoreHydrated(t, s, chunk, known), f) == Members(s, f) + Carriers(t, chunk, known, f)
  {
    if f !in s.facets && f !in Touched(t, chunk.Keys, known) {
      assert forall id :: id in chunk && id in known ==> f !in FacetsOf(t, known[id]);
      assert Carriers(t, chunk, known, f) == map[];
    }
  }

  lemma StoredIsTruthful(w: World, s: Slot, chunk: map<Id, Score>, known: map<Id, Metadata>, f: Facet, id: Id)
    requires Truthful(w, s) && Listed(s) && Knows(w, known) && chunk.Keys <= known.Keys
    requires id in Members(StoreHydrated(w.jobType, s, chunk, known), f)
    ensures f in w.Facets(id) && f in StoreHydrated(w.jobType, s, chunk, known).catalog
    ensures id in Members(s, f) || id in chunk
  {
    StoredMembers(w.jobType, s, chunk, known, f);
    hide Members, FacetsOf;
  }

  lemma StoredIsComplete(w: World, s: Slot, chunk: map<Id, Score>, known: map<Id, Metadata>, id: Id, f: Facet)
    requires Complete(w, s) && Knows(w, known) && chunk.Keys <= known.Keys
    requires id in s.projection + chunk && f in w.Facets(id)
    ensures var r := StoreHydrated(w.jobType, s, chunk, known);
            id in Members(r, f) && Members(r, f)[id] == (s.projection + chunk)[id]
  {
    StoredMembers(w.jobType, s, chunk, known, f);
    hide Members, FacetsOf, StoreHydrated;
    assert id in chunk <==> id in Carriers(w.jobType, chunk, known, f);
  }

  lemma StoreHydratedKeeps(w: World, s: Slot, chunk: map<Id, Score>, known: map<Id, Metadata>)
    requires Sound(w, s) && Knows(w, known) && chunk.Keys <= known.Keys
    ensures Sound(w, StoreHydrated(w.jobType, s, chunk, known))
    ensures Clean(s) ==> Clean(StoreHydrated(w.jobType, s, chunk, known))
  {
    var r := StoreHydrated(w.jobType, s, chunk, known);
    hide Members, FacetsOf;
    forall f, id | id in Members(r, f)
      ensures f in w.Facets(id) && (id in Members(s, f) || id in chunk)
    {
      StoredIsTruthful(w, s, chunk, known, f, id);
    }
    forall f, id | id in Members(r, f)
      ensures f in r.catalog
    {
      StoredIsTruthful(w, s, chunk, known, f, id);
    }
    forall id, f | s.initialized && id in r.projection && f in w.Facets(id)
      ensures id in Members(r, f) && Members(r, f)[id] == r.projection[id]
    {
      StoredIsComplete(w, s, chunk, known, id, f);
    }
    assert forall id :: id in r.projection <==> id in s.projection || id in chunk;
    assert forall id :: id in r.unresolved <==> id in s.unresolved && id !in chunk;
  }

  lemma StoreHydratedIsExact(w: World, s: Slot, chunk: map<Id, Score>, known: map<Id, Metadata>)
    requires Exact(s)
    ensures Exact(StoreHydrated(w.jobType, s, chunk, known))
  {
    var t, r := w.jobType, StoreHydrated(w.jobType, s, chunk, known);
    forall f | f in r.catalog
      ensures Members(r, f) != map[]
    {
      StoredMembers(t, s, chunk, known, f);
      hide StoreHydrated;
      if f in s.catalog {
        var id :| id in Members(s, f);
        assert id in Members(r, f);
      } else {
        var id :| id in chunk && id in known && f in FacetsOf(t, known[id]);
        assert id in Carriers(t, chunk, known, f);
        assert id in Members(r, f);
      }
    }
  }

  lemma RemovedMembers(t: JobType, s: Slot, ids: set<Id>, known: map<Id, Metadata>, f: Facet)
    ensures Members(RemoveKnown(t, s, ids, known), f) == Without(t, Members(s, f), ids, known, f)
  {
  }

  lemma RemoveKnownKeeps(w: World, s: Slot, ids: set<Id>, known: map<Id, Metadata>)
    requires Sound(w, s) && Knows(w, known)
    ensures Sound(w, RemoveKnown(w.jobType, s, ids, known))
    ensures forall f, id :: id in Members(RemoveKnown(w.jobType, s, ids, known), f) ==>
              id in Members(s, f) && (id in ids ==> id !in known)
  {
    var t, r := w.jobType, RemoveKnown(w.jobType, s, ids, known);
    forall f
      ensures Members(r, f) == Without(t, Members(s, f), ids, known, f)
    {
      RemovedMembers(t, s, ids, known, f);
    }
    hide Members;
    forall f, id | id in Members(r, f)
      ensures id in Members(s, f) && f in w.Facets(id) && (id in ids ==> id !in known)
    {
      assert id in Without(t, Members(s, f), ids, known, f);
    }
    forall id, f | s.initialized && id in r.projection && f in w.Facets(id)
      ensures id in Members(r, f) && Members(r, f)[id] == r.projection[id]
    {
      assert id in Members(s, f);
      assert id in Without(t, Members(s, f), ids, known, f);
    }
  }

  lemma RemoveFromKeeps(w: World, s: Slot, fs: set<Facet>, ids: set<Id>)
    requires Sound(w, s) && ids !! s.projection.Keys
    ensures Sound(w, RemoveFrom(s, fs, ids))
    ensures forall f :: Members(RemoveFrom(s, fs, ids), f) == if f in fs then Members(s, f) - ids else Members(s, f)
  {
    var r := RemoveFrom(s, fs, ids);
    assert forall f :: Members(r, f) == if f in fs then Members(s, f) - ids else Members(s, f);
  }

  lemma UnlistKeeps(w: World, s: Slot, fs: set<Facet>)
    requires Sound(w, s) && forall f :: f in fs ==> Members(s, f) == map[]
    ensures Sound(w, Unlist(s, fs))
  {
    var r := Unlist(s, fs);
    assert forall f :: Members(r, f) == Members(s, f);
  }

  lemma DeleteFacetsKeeps(w: World, s: Slot, fs: set<Facet>)
    requires Sound(w, s)
    requires s.initialized ==> s.projection == map[] || forall f :: f in fs ==> Members(s, f) == map[]
    ensures Sound(w, DeleteFacets(s, fs))
    ensures forall f :: Members(DeleteFacets(s, fs), f) == if f in fs then map[] else Members(s, f)
  {
    var r := DeleteFacets(s, fs);
    assert forall f :: Members(r, f) == if f in fs then map[] else Members(s, f);
    if s.initialized {
      assert forall id, f :: id in r.projection && f in w.Facets(id) ==> id in Members(s, f);
    }
  }
}
