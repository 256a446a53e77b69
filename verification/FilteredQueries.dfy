/**
  Filtered and searched lists. The index answers with intersections and unions of sorted sets;
  the answer is to be what a plain pass over the source would select.
*/
module FilteredQueries {
  import opened Collections
  import opened FacetSlot
  import opened IndexChecks
  import IndexWriter
  import opened Options

  // ----- What a query asks for -----

  datatype Query = Query(facets: seq<Facet>, search: string, additional: Option<set<Id>>)

  predicate OccursAt(text: string, term: string, i: nat) {
    i + |term| <= |text| && text[i..i + |term|] == term
  }

  predicate Contains(text: string, term: string) {
    term != "" && exists i :: 0 <= i <= |text| && OccursAt(text, term, i)
  }

  /** A term matches a job class that contains it, in whatever case. */
  predicate NameMatches(fold: string -> string, f: Facet, search: string) {
    f.JobNameIs? && Contains(fold(f.name), fold(search))
  }

  /** The term selects the job by its class or by its id. */
  predicate Found(w: World, fold: string -> string, id: Id, search: string) {
    NameMatches(fold, JobNameIs(w.record(id).name), search) || id == search
  }

  /** Somewhere in the text stands the term. */
  predicate Around(text: string, a: string, term: string, b: string) {
    text == a + term + b
  }

  /** Containing a term is being put together from it and what stands around it. */
  lemma ContainsIs(text: string, term: string)
    ensures Contains(text, term) <==> term != "" && exists a, b :: Around(text, a, term, b)
  {
    if Contains(text, term) {
      var i :| 0 <= i <= |text| && OccursAt(text, term, i);
      assert Around(text, text[..i], term, text[i + |term|..]);
    }
    if term != "" && exists a, b :: Around(text, a, term, b) {
      var a, b :| Around(text, a, term, b);
      assert text[|a|..|a| + |term|] == term;
      assert OccursAt(text, term, |a|);
    }
  }

  /**
    A search term finds a class that has it inside in any spelling that folds alike, for a fold that
    works piece by piece; and it finds no class whose fold does not have the folded term inside.
  */
  lemma TermIsFoundInWhateverCase(fold: string -> string, name: string, search: string)
    ensures (exists a, spelling, b :: Around(name, a, spelling, b) && Around(fold(name), fold(a), fold(spelling), fold(b))
                                      && fold(spelling) == fold(search) != "")
            ==> NameMatches(fold, JobNameIs(name), search)
    ensures NameMatches(fold, JobNameIs(name), search)
            <==> fold(search) != "" && exists a, b :: Around(fold(name), a, fold(search), b)
  {
    ContainsIs(fold(name), fold(search));
    if a, spelling, b :| Around(name, a, spelling, b) && Around(fold(name), fold(a), fold(spelling), fold(b))
                         && fold(spelling) == fold(search) != "" {
      assert Around(fold(name), fold(a), fold(search), fold(b));
    }
  }

  predicate Selected(w: World, fold: string -> string, q: Query, id: Id) {
    && (forall f :: f in q.facets ==> f in w.Facets(id))
    && (q.search != "" ==> Found(w, fold, id, q.search))
    && (q.additional.Some? ==> id in q.additional.value)
  }

  /** A plain filter over the jobs of the source that are projected, with the scores of the source. */
  function NaiveFilter(w: World, fold: string -> string, s: Slot, source: map<Id, Score>, q: Query): map<Id, Score> {
    map id | id in source && id in s.projection && Selected(w, fold, q, id) :: source[id]
  }

  // ----- Sorted-set commands -----

  function WeightedSum(keys: seq<map<Id, Score>>, weights: seq<real>, id: Id): Score
    requires |keys| == |weights| && forall k :: k in keys ==> id in k
  {
    if keys == [] then 0.0 else weights[0] * keys[0][id] + WeightedSum(keys[1..], weights[1..], id)
  }

  /** ZINTERSTORE with weights and summed scores. */
  function Intersect(keys: seq<map<Id, Score>>, weights: seq<real>): map<Id, Score>
    requires keys != [] && |keys| == |weights|
  {
    map id | id in keys[0] && forall k :: k in keys ==> id in k :: WeightedSum(keys, weights, id)
  }

  /** The score of the first key counts, those of the others do not. */
  function FirstOnly(n: nat): (r: seq<real>)
    requires n > 0
    ensures |r| == n
  {
    [1.0] + seq(n - 1, _ => 0.0)
  }

  lemma {:induction false} ZeroWeights(keys: seq<map<Id, Score>>, weights: seq<real>, id: Id)
    requires |keys| == |weights| && (forall k :: k in keys ==> id in k) && forall i :: 0 <= i < |weights| ==> weights[i] == 0.0
    ensures WeightedSum(keys, weights, id) == 0.0
    decreases |keys|
  {
    if keys != [] {
      ZeroWeights(keys[1..], weights[1..], id);
    }
  }

  /** Such an intersection narrows the first key and keeps its scores. */
  lemma IntersectNarrows(keys: seq<map<Id, Score>>)
    requires keys != []
    ensures Intersect(keys, FirstOnly(|keys|)) == map id | id in keys[0] && (forall k :: k in keys ==> id in k) :: keys[0][id]
  {
    var weights := FirstOnly(|keys|);
    forall id | id in keys[0] && forall k :: k in keys ==> id in k
      ensures WeightedSum(keys, weights, id) == keys[0][id]
    {
      ZeroWeights(keys[1..], weights[1..], id);
    }
  }

  function Unscored(ids: set<Id>): (r: map<Id, Score>)
    ensures r.Keys == ids
  {
    map id | id in ids :: 0.0
  }

  // ----- The snapshot that a query reads -----

  function Snapshot(s: Slot, source: map<Id, Score>): (r: map<Id, Score>)
    ensures r.Keys == source.Keys * s.projection.Keys
  {
    map id | id in source && id in s.projection :: source[id]
  }

  /** The projected part of the source, unless the source has an id that the slot knows nothing of. */
  method InspectableSourceSnapshot(s: Slot, source: map<Id, Score>) returns (snapshot: Option<map<Id, Score>>)
    ensures snapshot == if source.Keys <= s.projection.Keys + s.unresolved.Keys then Some(Snapshot(s, source)) else None
  {
    var keys := [source, s.projection];
    var inspected := Intersect(keys, [1.0, 0.0]);
    IntersectNarrows(keys);
    assert FirstOnly(2) == [1.0, 0.0];
    assert inspected == Snapshot(s, source);
    var gap := source.Keys - s.projection.Keys - s.unresolved.Keys;
    if gap != {} {
      return None;
    }
    forall id | id in source
      ensures id in s.projection.Keys + s.unresolved.Keys
    {
      assert id !in gap;
    }
    return Some(inspected);
  }

  /** The catalog values that some job of the snapshot carries. */
  method AvailableCatalogValues(s: Slot, d: Dimension, snapshot: map<Id, Score>) returns (available: seq<Facet>)
    ensures forall f :: f in available <==> f in CatalogOf(s, d) && Members(s, f).Keys * snapshot.Keys != {}
  {
    hide CatalogOf, Members;
    available := [];
    var values := Listing(CatalogOf(s, d));
    for i := 0 to |values|
      invariant forall f :: f in available <==> f in values[..i] && Members(s, f).Keys * snapshot.Keys != {}
    {
      if |Members(s, values[i]).Keys * snapshot.Keys| != 0 {
        available := available + [values[i]];
      } else {
        assert Members(s, values[i]).Keys * snapshot.Keys == {};
      }
    }
    assert values[..|values|] == values;
  }

  // ----- Search -----

  /** The available classes that match, or nothing when there are classes and every one of them matches. */
  method MatchingJobNames(s: Slot, fold: string -> string, search: string, snapshot: map<Id, Score>) returns (names: Option<seq<Facet>>)
    ensures names.None? ==> forall f :: Available(s, snapshot, f) ==> NameMatches(fold, f, search)
    ensures names.Some? ==> forall f :: f in names.value <==> Available(s, snapshot, f) && NameMatches(fold, f, search)
  {
    hide Members, NameMatches;
    var matching: seq<Facet> := [];
    var sawNonMatching := false;
    var jobNames := AvailableCatalogValues(s, JobName, snapshot);
    for i := 0 to |jobNames|
      invariant forall f :: f in matching <==> f in jobNames[..i] && NameMatches(fold, f, search)
      invariant sawNonMatching <==> exists k :: 0 <= k < i && !NameMatches(fold, jobNames[k], search)
    {
      if !NameMatches(fold, jobNames[i], search) {
        sawNonMatching := true;
      } else if jobNames[i] !in matching {
        matching := matching + [jobNames[i]];
      }
    }
    assert jobNames[..|jobNames|] == jobNames;
    if jobNames != [] && !sawNonMatching {
      return None;
    }
    return Some(matching);
  }

  /** A class value in use within the snapshot. */
  predicate Available(s: Slot, snapshot: map<Id, Score>, f: Facet) {
    f in CatalogOf(s, JobName) && Members(s, f).Keys * snapshot.Keys != {}
  }

  /** The sorted set a search intersects with, or nothing when it does not narrow the snapshot. */
  method SearchKey(s: Slot, fold: string -> string, search: string, snapshot: map<Id, Score>) returns (key: Option<set<Id>>)
    ensures key.None? ==> forall f :: Available(s, snapshot, f) ==> NameMatches(fold, f, search)
    ensures key.Some? ==> forall id :: id in key.value <==>
              || (exists f :: Available(s, snapshot, f) && NameMatches(fold, f, search) && id in Members(s, f))
              || (id == search && id in snapshot)
  {
    hide Members, NameMatches, Available, UnionOf;
    var names := MatchingJobNames(s, fold, search, snapshot);
    if names.None? {
      return None;
    }
    var keys := FacetKeys(s, names.value);
    var byName := keys;
    if search in snapshot {
      keys := keys + [{search}];
    }
    UnionOfMembers(byName);
    UnionOfConcat(byName, [{search}]);
    SingleUnion({search});
    var union := UnionOf(byName) + if search in snapshot then {search} else {};
    assert UnionOf(keys) == union;
    forall id
      ensures id in UnionOf(byName) <==>
                exists f :: Available(s, snapshot, f) && NameMatches(fold, f, search) && id in Members(s, f)
    {
      NamesUnite(s, fold, search, snapshot, names.value, id);
    }
    if keys == [] {
      EmptyUnion();
      return Some({});
    }
    if |keys| == 1 {
      SingleUnion(keys[0]);
      assert keys == [keys[0]];
      return Some(keys[0]);
    }
    key := UnionKeysInChunks(keys);
  }

  lemma EmptyUnion()
    ensures UnionOf([]) == {}
  {
  }

  lemma SingleUnion(a: set<Id>)
    ensures UnionOf([a]) == a
  {
    assert [a][1..] == [] && a + {} == a;
  }

  lemma NamesUnite(s: Slot, fold: string -> string, search: string, snapshot: map<Id, Score>, names: seq<Facet>, id: Id)
    requires forall f :: f in names <==> Available(s, snapshot, f) && NameMatches(fold, f, search)
    ensures id in UnionOf(FacetKeys(s, names)) <==>
              exists f :: Available(s, snapshot, f) && NameMatches(fold, f, search) && id in Members(s, f)
  {
    var keys := FacetKeys(s, names);
    UnionOfMembers(keys);
    hide UnionOf, Members, Available, NameMatches;
    if id in UnionOf(keys) {
      var i :| 0 <= i < |keys| && id in keys[i];
      assert names[i] in names;
    }
    if f :| Available(s, snapshot, f) && NameMatches(fold, f, search) && id in Members(s, f) {
      assert f in names;
      var i :| 0 <= i < |names| && names[i] == f;
      assert id in keys[i];
    }
  }

  /** Within the snapshot the search key selects exactly the jobs whose class contains the term or whose id it is. */
  lemma SearchSelects(w: World, s: Slot, fold: string -> string, search: string, snapshot: map<Id, Score>, key: Option<set<Id>>)
    requires Sound(w, s) && s.initialized && snapshot.Keys <= s.projection.Keys
    requires key.None? ==> forall f :: Available(s, snapshot, f) ==> NameMatches(fold, f, search)
    requires key.Some? ==> forall id :: id in key.value <==>
               || (exists f :: Available(s, snapshot, f) && NameMatches(fold, f, search) && id in Members(s, f))
               || (id == search && id in snapshot)
    ensures forall id :: id in snapshot ==> (key.None? || id in key.value <==> Found(w, fold, id, search))
  {
    hide NameMatches, Members, Available;
    forall id | id in snapshot
      ensures key.None? || id in key.value <==> Found(w, fold, id, search)
    {
      var f := JobNameIs(w.record(id).name);
      NameIsAvailable(w, s, snapshot, id);
      forall g | Available(s, snapshot, g) && id in Members(s, g)
        ensures g == f
      {
        OnlyName(w, s, snapshot, id, g);
      }
    }
  }

  lemma NameIsAvailable(w: World, s: Slot, snapshot: map<Id, Score>, id: Id)
    requires Sound(w, s) && s.initialized && id in snapshot && id in s.projection
    ensures var f := JobNameIs(w.record(id).name); Available(s, snapshot, f) && id in Members(s, f)
  {
    var f := JobNameIs(w.record(id).name);
    assert f in w.Facets(id);
    assert id in Members(s, f);
    assert id in Members(s, f).Keys * snapshot.Keys;
  }

  lemma OnlyName(w: World, s: Slot, snapshot: map<Id, Score>, id: Id, f: Facet)
    requires Sound(w, s) && Available(s, snapshot, f) && id in Members(s, f)
    ensures f == JobNameIs(w.record(id).name)
  {
    assert f in w.Facets(id);
    OneValue(w, id, JobName, f);
  }

  // ----- The whole query -----

  /** What a query asks of a job, said of the job type, the id and the record alone. */
  ghost predicate Asked(w: World, fold: string -> string, q: Query, id: Id) {
    && (forall i :: 0 <= i < |q.facets| ==> Carries(w, id, q.facets[i]))
    && (q.search != "" ==>
          || id == q.search
          || (fold(q.search) != "" && exists a, b :: Around(fold(w.record(id).name), a, fold(q.search), b)))
    && (q.additional.Some? ==> id in q.additional.value)
  }

  lemma NaiveFilterIsAsked(w: World, fold: string -> string, s: Slot, source: map<Id, Score>, q: Query)
    ensures forall id :: id in NaiveFilter(w, fold, s, source, q) <==> id in source && id in s.projection && Asked(w, fold, q, id)
  {
    hide FacetsOf, Contains, Carries, NameMatches;
    forall id
      ensures Selected(w, fold, q, id) <==> Asked(w, fold, q, id)
    {
      SelectedIsAsked(w, fold, q, id);
    }
  }

  lemma SelectedIsAsked(w: World, fold: string -> string, q: Query, id: Id)
    ensures Selected(w, fold, q, id) <==> Asked(w, fold, q, id)
  {
    hide FacetsOf, Contains, Carries, NameMatches;
    TermIsFoundInWhateverCase(fold, w.record(id).name, q.search);
    forall f
      ensures f in w.Facets(id) <==> Carries(w, id, f)
    {
      FacetsAreCarried(w, id, f);
    }
    assert forall i :: 0 <= i < |q.facets| ==> q.facets[i] in q.facets;
  }

  /**
    The candidates of a query: the snapshot, narrowed by each facet, by the search key and by
    the additional ids. They are the naive filter, whatever an interrupted writer has left in
    the slot; no answer is given while the slot does not account for every id of the source.
  */
  method CandidateKey(w: World, s: Slot, fold: string -> string, source: map<Id, Score>, q: Query)
    returns (candidates: Option<map<Id, Score>>)
    requires Sound(w, s) && s.initialized
    ensures candidates == if source.Keys <= s.projection.Keys + s.unresolved.Keys then Some(NaiveFilter(w, fold, s, source, q)) else None
    ensures candidates.Some? ==> forall id :: id in candidates.value <==> id in source && id in s.projection && Asked(w, fold, q, id)
    ensures candidates.Some? ==> forall id :: id in candidates.value ==> candidates.value[id] == source[id]
  {
    hide Sound, Members, Found, Available, NameMatches, Intersect, Asked;
    NaiveFilterIsAsked(w, fold, s, source, q);
    var snapshot := InspectableSourceSnapshot(s, source);
    if snapshot.None? {
      return None;
    }
    var keys := [snapshot.value];
    for i := 0 to |q.facets|
      invariant |keys| == i + 1 && keys[0] == snapshot.value
      invariant forall k :: 0 <= k < i ==> keys[k + 1] == Members(s, q.facets[k])
    {
      keys := keys + [Members(s, q.facets[i])];
    }
    ghost var narrowed := keys;
    ghost var searched: Option<set<Id>> := None;
    if q.search != "" {
      var searchKey := SearchKey(s, fold, q.search, snapshot.value);
      SearchSelects(w, s, fold, q.search, snapshot.value, searchKey);
      searched := searchKey;
      if searchKey.Some? {
        keys := keys + [Unscored(searchKey.value)];
      }
    }
    if q.additional.Some? {
      keys := keys + [Unscored(q.additional.value)];
    }
    assert keys == narrowed + Optional(searched) + Optional(q.additional);
    IntersectionIsNaive(w, s, fold, source, q, narrowed, searched);
    candidates := Some(Intersect(keys, FirstOnly(|keys|)));
  }

  function Optional(ids: Option<set<Id>>): seq<map<Id, Score>> {
    if ids.Some? then [Unscored(ids.value)] else []
  }

  /** Intersecting the snapshot with every key leaves the naive filter. */
  lemma IntersectionIsNaive(w: World, s: Slot, fold: string -> string, source: map<Id, Score>, q: Query,
                            narrowed: seq<map<Id, Score>>, searched: Option<set<Id>>)
    requires Sound(w, s) && s.initialized
    requires |narrowed| == |q.facets| + 1 && narrowed[0] == Snapshot(s, source)
    requires forall k :: 0 <= k < |q.facets| ==> narrowed[k + 1] == Members(s, q.facets[k])
    requires q.search == "" ==> searched.None?
    requires q.search != "" ==>
               forall id :: id in Snapshot(s, source) ==> (searched.None? || id in searched.value <==> Found(w, fold, id, q.search))
    ensures var keys := narrowed + Optional(searched) + Optional(q.additional);
            Intersect(keys, FirstOnly(|keys|)) == NaiveFilter(w, fold, s, source, q)
  {
    var keys := narrowed + Optional(searched) + Optional(q.additional);
    IntersectNarrows(keys);
    forall id | id in Snapshot(s, source)
      ensures (forall k :: k in keys ==> id in k) <==> Selected(w, fold, q, id)
    {
      InFacetKeys(w, s, q.facets, narrowed, id);
      hide Sound, Members, Found, Intersect;
      InAllKeys(narrowed, searched, q.additional, id);
    }
    hide Sound, Members, Found, Intersect, Selected, Optional;
    assert keys[0] == Snapshot(s, source);
  }

  lemma InAllKeys(narrowed: seq<map<Id, Score>>, searched: Option<set<Id>>, additional: Option<set<Id>>, id: Id)
    ensures (forall k :: k in narrowed + Optional(searched) + Optional(additional) ==> id in k)
       <==> (forall k :: k in narrowed ==> id in k)
            && (searched.Some? ==> id in searched.value) && (additional.Some? ==> id in additional.value)
  {
    var keys := narrowed + Optional(searched) + Optional(additional);
    assert searched.Some? ==> Unscored(searched.value) in keys;
    assert additional.Some? ==> Unscored(additional.value) in keys;
    assert forall k :: k in keys <==> k in narrowed || k in Optional(searched) || k in Optional(additional);
  }

  /** A projected job is in all facets of a query exactly when its record names them all. */
  lemma InFacetKeys(w: World, s: Slot, facets: seq<Facet>, keys: seq<map<Id, Score>>, id: Id)
    requires Sound(w, s) && s.initialized && id in s.projection
    requires |keys| == |facets| + 1 && id in keys[0] && forall k :: 0 <= k < |facets| ==> keys[k + 1] == Members(s, facets[k])
    ensures (forall k :: k in keys ==> id in k) <==> (forall f :: f in facets ==> f in w.Facets(id))
  {
    hide Members, FacetsOf;
    assert forall f :: f in w.Facets(id) <==> id in Members(s, f);
    if forall k :: k in keys ==> id in k {
      forall f | f in facets
        ensures f in w.Facets(id)
      {
        var i :| 0 <= i < |facets| && facets[i] == f;
        assert keys[i + 1] in keys;
      }
    }
    if forall f :: f in facets ==> f in w.Facets(id) {
      forall k | k in keys
        ensures id in k
      {
        var i :| 0 <= i < |keys| && keys[i] == k;
        assert i > 0 ==> facets[i - 1] in facets;
      }
    }
  }

  // ----- Reads of the published slot alone -----

  /** A published list takes its scores from the first facet, or from the projection when no facet is asked for. */
  function PublishedCandidates(s: Slot, facets: seq<Facet>, additional: Option<set<Id>>): map<Id, Score> {
    var first := if facets == [] then s.projection else Members(s, facets[0]);
    map id | id in first && (forall f :: f in facets ==> id in Members(s, f)) && (additional.Some? ==> id in additional.value)
      :: first[id]
  }

  function PublishedFilter(w: World, s: Slot, facets: seq<Facet>, additional: Option<set<Id>>): map<Id, Score> {
    map id | id in s.projection && (forall f :: f in facets ==> f in w.Facets(id)) && (additional.Some? ==> id in additional.value)
      :: s.projection[id]
  }

  /**
    Published lists, which do not look at the source, are the naive filter of the projection for
    every query exactly when no facet holds a job that is not projected.
  */
  lemma PublishedListsAreNaiveExactlyWhenClean(w: World, s: Slot)
    requires Sound(w, s) && s.initialized
    ensures Clean(s) <==> forall facets, additional :: PublishedCandidates(s, facets, additional) == PublishedFilter(w, s, facets, additional)
  {
    if Clean(s) {
      MirrorsTheProjection(w, s);
      hide Members, FacetsOf, Sound;
      forall facets: seq<Facet>, additional: Option<set<Id>>
        ensures PublishedCandidates(s, facets, additional) == PublishedFilter(w, s, facets, additional)
      {
        PublishedIsNaive(w, s, facets, additional);
      }
    } else {
      var f, id :| id in Members(s, f) && id !in s.projection;
      hide Members, FacetsOf, Sound;
      assert id in PublishedCandidates(s, [f], None);
      assert id !in PublishedFilter(w, s, [f], None);
    }
  }

  lemma PublishedIsNaive(w: World, s: Slot, facets: seq<Facet>, additional: Option<set<Id>>)
    requires forall f :: Members(s, f) == Filtered(w, s, f)
    ensures PublishedCandidates(s, facets, additional) == PublishedFilter(w, s, facets, additional)
  {
    hide Members, FacetsOf;
    forall id
      ensures id in PublishedCandidates(s, facets, additional) <==> id in PublishedFilter(w, s, facets, additional)
    {
      assert forall f :: id in Members(s, f) <==> id in s.projection && f in w.Facets(id);
      if facets != [] {
        assert facets[0] in facets;
      }
    }
  }

  /**
    A rebuild that stops after its first command leaves every former facet member behind. Such a slot
    covers an empty source and passes the checks without required facets and partitions, and yet some
    published list is not the naive filter.
  */
  lemma InterruptedRebuildLeavesDebris(w: World, s: Slot, f: Facet, id: Id)
    requires Sound(w, s) && id in Members(s, f)
    ensures var r := DeleteJobs(s);
            && Sound(w, r) && !Clean(r)
            && Covers(r, map[]) && StructureHolds(r, w.jobType, [], [])
            && PublishedCandidates(r, [f], None) != PublishedFilter(w, r, [f], None)
  {
    var r := DeleteJobs(s);
    assert forall g :: Members(r, g) == Members(s, g);
    hide Members, FacetsOf;
    assert id in Members(r, f) && id !in r.projection;
    assert id in PublishedCandidates(r, [f], None) && id !in PublishedFilter(w, r, [f], None);
  }

  /** The next writer reports success over that debris, so that the slot is published with it. */
  method SynchronizeOverDebris(writer: IndexWriter.Writer, ghost s: Slot, ghost f: Facet, ghost id: Id) returns (ok: bool)
    requires Sound(writer.world, s) && s.initialized && id in Members(s, f)
    requires writer.Valid() && !writer.crashed && writer.slot == DeleteJobs(s)
    modifies writer
    ensures ok && writer.slot == DeleteJobs(s) && !Clean(writer.slot)
  {
    InterruptedRebuildLeavesDebris(writer.world, s, f, id);
    hide Members, Sound, Clean, Covers, StructureHolds;
    ok := writer.Synchronize(map[], map[], [], []);
  }
}
