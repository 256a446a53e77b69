/**
  How the index is checked by counting: whether projection and unresolved references partition
  the source, and whether the facets of a dimension partition the projection. The slot is not
  written meanwhile, so the commands of a check read one value.
*/
module IndexChecks {
  import opened Collections
  import opened FacetSlot
  import opened Options

  const CATALOG_SCAN_CHUNK_SIZE := 500

  predicate SingleValued(d: Dimension) {
    d in {JobName, Queue, Connection, Target}
  }

  function RequiredCatalogDimensions(t: JobType): seq<Dimension> {
    if t == Pending then [JobName, Queue, Connection, Target] else [JobName, Queue, Connection]
  }

  // ----- Unions in chunks -----

  function UnionOf(keys: seq<set<Id>>): set<Id> {
    if keys == [] then {} else keys[0] + UnionOf(keys[1..])
  }

  function Sizes(keys: seq<set<Id>>): nat {
    if keys == [] then 0 else |keys[0]| + Sizes(keys[1..])
  }

  ghost predicate PairwiseDisjoint(keys: seq<set<Id>>) {
    forall i, j :: 0 <= i < j < |keys| ==> keys[i] !! keys[j]
  }

  lemma {:induction false} UnionOfConcat(a: seq<set<Id>>, b: seq<set<Id>>)
    ensures UnionOf(a + b) == UnionOf(a) + UnionOf(b)
    decreases |a|
  {
    if a == [] {
      assert a + b == b;
    } else {
      assert (a + b)[1..] == a[1..] + b;
      UnionOfConcat(a[1..], b);
    }
  }

  lemma {:induction false} UnionOfMembers(keys: seq<set<Id>>)
    ensures forall id :: id in UnionOf(keys) <==> exists i :: 0 <= i < |keys| && id in keys[i]
    decreases |keys|
  {
    if keys != [] {
      UnionOfMembers(keys[1..]);
      forall id | id in UnionOf(keys)
        ensures exists i :: 0 <= i < |keys| && id in keys[i]
      {
        if id !in keys[0] {
          assert id in UnionOf(keys[1..]);
          var i :| 0 <= i < |keys[1..]| && id in keys[1..][i];
          assert id in keys[i + 1];
        }
      }
      forall id, i | 0 <= i < |keys| && id in keys[i]
        ensures id in UnionOf(keys)
      {
        assert i > 0 ==> keys[i] == keys[1..][i - 1];
      }
    }
  }

  /** The sizes add up to the size of the union exactly when no two sets share a member. */
  lemma {:induction false} SizesOfDisjoint(keys: seq<set<Id>>)
    ensures Sizes(keys) >= |UnionOf(keys)|
    ensures Sizes(keys) == |UnionOf(keys)| <==> PairwiseDisjoint(keys)
    decreases |keys|
  {
    if keys != [] {
      var rest := keys[1..];
      SizesOfDisjoint(rest);
      OverlapSize(keys[0], UnionOf(rest));
      UnionOfMembers(rest);
      hide UnionOf, Sizes;
      assert forall j :: 0 < j < |keys| ==> keys[j] == rest[j - 1];
      assert keys[0] !! UnionOf(rest) <==> forall j :: 0 < j < |keys| ==> keys[0] !! keys[j] by {
        DisjointFromUnion(keys[0], rest);
      }
      DisjointCons(keys);
    }
  }

  lemma DisjointFromUnion(a: set<Id>, rest: seq<set<Id>>)
    ensures a !! UnionOf(rest) <==> forall i :: 0 <= i < |rest| ==> a !! rest[i]
  {
    UnionOfMembers(rest);
  }

  lemma DisjointCons(keys: seq<set<Id>>)
    requires keys != []
    ensures PairwiseDisjoint(keys) <==> PairwiseDisjoint(keys[1..]) && forall j :: 0 < j < |keys| ==> keys[0] !! keys[j]
  {
    assert forall j :: 0 < j < |keys| ==> keys[j] == keys[1..][j - 1];
  }

  lemma OverlapSize(a: set<Id>, b: set<Id>)
    ensures |a + b| <= |a| + |b|
    ensures |a + b| == |a| + |b| <==> a !! b
  {
    if a !! b {
      assert a * b == {};
    } else {
      var x :| x in a && x in b;
      assert x in a * b;
    }
  }

  /** Unions of at most 500 keys at a time, level by level, until one key is left. */
  method UnionKeysInChunks(keys: seq<set<Id>>) returns (union: Option<set<Id>>)
    ensures union == if keys == [] then None else Some(UnionOf(keys))
  {
    var level := keys;
    while |level| > 1
      invariant UnionOf(level) == UnionOf(keys) && (level == [] <==> keys == [])
      decreases |level|
    {
      var next: seq<set<Id>> := [];
      var i := 0;
      while i < |level|
        invariant 0 <= i <= |level| && |next| <= i
        invariant i > 0 ==> next != [] && (|next| < i || i == 1)
        invariant i == 1 ==> |level| == 1
        invariant UnionOf(level) == UnionOf(next) + UnionOf(level[i..])
      {
        var end := if i + CATALOG_SCAN_CHUNK_SIZE < |level| then i + CATALOG_SCAN_CHUNK_SIZE else |level|;
        var chunk := level[i..end];
        assert level[i..] == chunk + level[end..];
        UnionOfConcat(chunk, level[end..]);
        UnionOfConcat(next, [UnionOf(chunk)]);
        next := next + [UnionOf(chunk)];
        i := end;
      }
      level := next;
    }
    if level == [] {
      return None;
    }
    assert level[1..] == [] && level[0] + {} == level[0];
    return Some(level[0]);
  }

  // ----- One dimension -----

  /** The dimension's facets are not empty, have no job in common, and hold exactly the projected jobs. */
  ghost predicate Partitioned(s: Slot, d: Dimension) {
    && (forall f :: f in CatalogOf(s, d) ==> Members(s, f) != map[])
    && (forall f, g :: f in CatalogOf(s, d) && g in CatalogOf(s, d) && f != g ==> Members(s, f).Keys !! Members(s, g).Keys)
    && (forall id :: id in s.projection <==> exists f :: f in CatalogOf(s, d) && id in Members(s, f))
  }

  function FacetKeys(s: Slot, values: seq<Facet>): (r: seq<set<Id>>)
    ensures |r| == |values| && forall i :: 0 <= i < |values| ==> r[i] == Members(s, values[i]).Keys
  {
    seq(|values|, i requires 0 <= i < |values| => Members(s, values[i]).Keys)
  }

  /** The partition in terms of the listed values. */
  lemma PartitionByList(s: Slot, d: Dimension, values: seq<Facet>)
    requires forall f :: f in values <==> f in CatalogOf(s, d)
    requires NoRepeats(values)
    ensures Partitioned(s, d) <==>
              && (forall i :: 0 <= i < |values| ==> Members(s, values[i]) != map[])
              && PairwiseDisjoint(FacetKeys(s, values))
              && UnionOf(FacetKeys(s, values)) == s.projection.Keys
  {
    var keys := FacetKeys(s, values);
    UnionOfMembers(keys);
    hide UnionOf, CatalogOf;
    UnionByValue(s, d, values);
    DisjointByValue(s, d, values);
    assert (forall f :: f in CatalogOf(s, d) ==> Members(s, f) != map[])
      <==> (forall i :: 0 <= i < |values| ==> Members(s, values[i]) != map[]);
    hide Members, PairwiseDisjoint, FacetKeys;
    assert UnionOf(keys) == s.projection.Keys
      <==> forall id :: id in s.projection <==> exists f :: f in CatalogOf(s, d) && id in Members(s, f);
  }

  lemma UnionByValue(s: Slot, d: Dimension, values: seq<Facet>)
    requires forall f :: f in values <==> f in CatalogOf(s, d)
    ensures forall id :: id in UnionOf(FacetKeys(s, values)) <==> exists f :: f in CatalogOf(s, d) && id in Members(s, f)
  {
    var keys := FacetKeys(s, values);
    UnionOfMembers(keys);
    hide UnionOf, CatalogOf, Members;
    forall id | id in UnionOf(keys)
      ensures exists f :: f in CatalogOf(s, d) && id in Members(s, f)
    {
      var i :| 0 <= i < |keys| && id in keys[i];
      assert values[i] in CatalogOf(s, d);
    }
    forall id, f | f in CatalogOf(s, d) && id in Members(s, f)
      ensures id in UnionOf(keys)
    {
      var i :| 0 <= i < |values| && values[i] == f;
      assert id in keys[i];
    }
  }

  lemma DisjointByValue(s: Slot, d: Dimension, values: seq<Facet>)
    requires forall f :: f in values <==> f in CatalogOf(s, d)
    requires NoRepeats(values)
    ensures PairwiseDisjoint(FacetKeys(s, values))
       <==> forall f, g :: f in CatalogOf(s, d) && g in CatalogOf(s, d) && f != g ==> Members(s, f).Keys !! Members(s, g).Keys
  {
    hide CatalogOf, Members;
    var keys := FacetKeys(s, values);
    if PairwiseDisjoint(keys) {
      forall f, g | f in CatalogOf(s, d) && g in CatalogOf(s, d) && f != g
        ensures Members(s, f).Keys !! Members(s, g).Keys
      {
        var i :| 0 <= i < |values| && values[i] == f;
        var j :| 0 <= j < |values| && values[j] == g;
        assert keys[i] == Members(s, f).Keys && keys[j] == Members(s, g).Keys;
        assert if i < j then keys[i] !! keys[j] else keys[j] !! keys[i];
      }
    } else {
      var i, j :| 0 <= i < j < |keys| && !(keys[i] !! keys[j]);
      assert values[i] in CatalogOf(s, d) && values[j] in CatalogOf(s, d) && values[i] != values[j];
    }
  }

  /** ZCARD of each listed facet: their sum, unless one of them is empty. */
  method MembershipCount(s: Slot, values: seq<Facet>) returns (allFilled: bool, count: nat)
    ensures allFilled <==> forall i :: 0 <= i < |values| ==> Members(s, values[i]) != map[]
    ensures allFilled ==> count == Sizes(FacetKeys(s, values))
  {
    hide Members;
    ghost var facetKeys := FacetKeys(s, values);
    count := 0;
    for i := 0 to |values|
      invariant forall k :: 0 <= k < i ==> Members(s, values[k]) != map[]
      invariant Sizes(facetKeys) == count + Sizes(facetKeys[i..])
    {
      var size := |Members(s, values[i])|;
      if size == 0 {
        assert Members(s, values[i]) == map[];
        return false, count;
      }
      assert |facetKeys[i]| == size;
      count := count + size;
    }
    allFilled := true;
  }

  /** Counting decides whether a dimension's facets partition the projection. */
  method CatalogPartitionIsExact(s: Slot, d: Dimension) returns (exact: bool)
    ensures exact <==> Partitioned(s, d)
  {
    hide CatalogOf, Members, PairwiseDisjoint, Partitioned, UnionOf, FacetKeys, Sizes;
    var values := Listing(CatalogOf(s, d));
    PartitionByList(s, d, values);
    if values == [] {
      NoFacets(s, values);
      return s.projection == map[];
    }
    var allFilled, membershipCount := MembershipCount(s, values);
    if !allFilled {
      return false;
    }
    var facetKeys := FacetKeys(s, values);
    SizesOfDisjoint(facetKeys);
    KeyCount(s.projection);
    if membershipCount != |s.projection| {
      return false;
    }
    var union := UnionKeysInChunks(facetKeys);
    var outside := union.value - s.projection.Keys;
    var missing := s.projection.Keys - union.value;
    NoDifference(union.value, s.projection.Keys);
    exact := outside == {} && missing == {};
  }

  lemma NoFacets(s: Slot, values: seq<Facet>)
    requires values == []
    ensures PairwiseDisjoint(FacetKeys(s, values)) && UnionOf(FacetKeys(s, values)) == {}
    ensures s.projection.Keys == {} <==> s.projection == map[]
  {
  }

  lemma KeyCount(m: map<Id, Score>)
    ensures |m| == |m.Keys|
  {
  }

  lemma NoDifference(a: set<Id>, b: set<Id>)
    ensures a - b == {} && b - a == {} <==> a == b
  {
    if a - b == {} && b - a == {} {
      forall x
        ensures x in a <==> x in b
      {
        assert x !in a - b && x !in b - a;
      }
    }
  }

  // ----- The whole index -----

  /**
    A slot with jobs lists some class, some queue, some connection and, for pending jobs, some target;
    the asked for dimensions, tags not being one, partition the projection; a required facet is listed just while it has members.
  */
  ghost predicate StructureHolds(s: Slot, t: JobType, requiredFacets: seq<Facet>, partitions: seq<Dimension>) {
    && (s.projection != map[] ==>
          && CatalogOf(s, JobName) != {} && CatalogOf(s, Queue) != {} && CatalogOf(s, Connection) != {}
          && (t == Pending ==> CatalogOf(s, Target) != {}))
    && (forall d :: d in partitions ==> d != Tag && Partitioned(s, d))
    && (forall f :: f in requiredFacets ==> (Members(s, f) != map[] <==> f in s.catalog))
  }

  /** Projection and references are disjoint and make up the source. */
  ghost predicate Covers(s: Slot, source: map<Id, Score>) {
    s.projection.Keys !! s.unresolved.Keys && s.projection.Keys + s.unresolved.Keys == source.Keys
  }

  method IndexStructureIsConsistent(s: Slot, t: JobType, requiredFacets: seq<Facet>, partitions: seq<Dimension>) returns (ok: bool)
    ensures ok <==> StructureHolds(s, t, requiredFacets, partitions)
  {
    hide CatalogOf, Members, Partitioned;
    var dimensions := RequiredCatalogDimensions(t);
    assert t == Pending ==> dimensions[3] == Target;
    assert dimensions[0] == JobName && dimensions[1] == Queue && dimensions[2] == Connection;
    if |s.projection| > 0 {
      for i := 0 to |dimensions|
        invariant forall k :: 0 <= k < i ==> CatalogOf(s, dimensions[k]) != {}
      {
        if |CatalogOf(s, dimensions[i])| == 0 {
          assert CatalogOf(s, dimensions[i]) == {};
          return false;
        }
      }
    }
    for i := 0 to |partitions|
      invariant forall k :: 0 <= k < i ==> SingleValued(partitions[k]) && Partitioned(s, partitions[k])
    {
      var exact := CatalogPartitionIsExact(s, partitions[i]);
      if !SingleValued(partitions[i]) || !exact {
        return false;
      }
    }
    for i := 0 to |requiredFacets|
      invariant forall k :: 0 <= k < i ==> (Members(s, requiredFacets[k]) != map[] <==> requiredFacets[k] in s.catalog)
    {
      var facetHasMembers := |Members(s, requiredFacets[i])| > 0;
      var catalogHasMember := requiredFacets[i] in s.catalog;
      if facetHasMembers != catalogHasMember {
        return false;
      }
    }
    return true;
  }

  method IndexIsConsistent(s: Slot, t: JobType, source: map<Id, Score>, requiredFacets: seq<Facet>, partitions: seq<Dimension>)
    returns (ok: bool)
    ensures ok <==> Covers(s, source) && StructureHolds(s, t, requiredFacets, partitions)
  {
    hide StructureHolds, Covers;
    var gap := source.Keys - s.projection.Keys - s.unresolved.Keys;
    CoverByCounting(s.projection.Keys, s.unresolved.Keys, source.Keys);
    CoversIs(s, source);
    if gap != {} || |s.projection| + |s.unresolved| != |source| {
      return false;
    }
    ok := IndexStructureIsConsistent(s, t, requiredFacets, partitions);
  }

  lemma CoversIs(s: Slot, source: map<Id, Score>)
    ensures Covers(s, source) <==> s.projection.Keys !! s.unresolved.Keys && s.projection.Keys + s.unresolved.Keys == source.Keys
    ensures |s.projection| == |s.projection.Keys| && |s.unresolved| == |s.unresolved.Keys| && |source| == |source.Keys|
  {
  }

  /** No gap and as many ids as the source: that is a partition of the source, and every partition passes. */
  lemma CoverByCounting(p: set<Id>, u: set<Id>, source: set<Id>)
    ensures source - p - u == {} && |p| + |u| == |source| <==> p !! u && p + u == source
  {
    OverlapSize(p, u);
    if source - p - u == {} && |p| + |u| == |source| {
      forall id | id in source
        ensures id in p + u
      {
        assert id !in source - p - u;
      }
      SubsetSize(source, p + u);
    }
  }

  // ----- What the checks mean for the facets -----

  /** Where a dimension's facets partition the projection, each of them is the naive filter. */
  lemma PartitionMirrors(w: World, s: Slot, d: Dimension)
    requires Sound(w, s) && s.initialized && Partitioned(s, d)
    ensures forall f: Facet :: f.Dim() == d ==> Members(s, f) == Filtered(w, s, f)
    ensures forall f: Facet :: f.Dim() == d ==> (f in s.catalog <==> Filtered(w, s, f) != map[])
  {
    forall f: Facet | f.Dim() == d
      ensures Members(s, f) == Filtered(w, s, f)
      ensures f in s.catalog <==> Filtered(w, s, f) != map[]
    {
      PartitionHoldsProjected(w, s, d, f);
      hide Sound;
      MirrorsFacet(w, s, f);
    }
  }

  lemma PartitionHoldsProjected(w: World, s: Slot, d: Dimension, f: Facet)
    requires Sound(w, s) && Partitioned(s, d) && f.Dim() == d
    ensures forall id :: id in Members(s, f) ==> id in s.projection
    ensures f in s.catalog ==> Members(s, f) != map[]
  {
    hide Members, FacetsOf;
    assert f in s.catalog <==> f in CatalogOf(s, d);
  }

  function ValueIn(w: World, id: Id, d: Dimension): Facet {
    var m := w.record(id);
    match d
    case JobName => JobNameIs(m.name)
    case Queue => QueueIs(m.queue)
    case Connection => ConnectionIs(m.connection)
    case Tag => TagIs("")
    case Target => TargetIs((m.connection, m.queue))
  }

  /** A job has exactly one value in a single-valued dimension. */
  lemma OneValue(w: World, id: Id, d: Dimension, f: Facet)
    requires SingleValued(d) && (d == Target ==> w.jobType == Pending) && f.Dim() == d
    ensures f in w.Facets(id) <==> f == ValueIn(w, id, d)
  {
  }

  /** A slot without debris passes every structural check, so only damage can make a check fail. */
  lemma IntactSlotPasses(w: World, s: Slot, requiredFacets: seq<Facet>, partitions: seq<Dimension>)
    requires Sound(w, s) && s.initialized && Clean(s) && Exact(s)
    requires forall d :: d in partitions ==> SingleValued(d) && (d == Target ==> w.jobType == Pending)
    ensures StructureHolds(s, w.jobType, requiredFacets, partitions)
  {
    forall d | SingleValued(d) && (d == Target ==> w.jobType == Pending)
      ensures Partitioned(s, d) && (s.projection != map[] ==> CatalogOf(s, d) != {})
    {
      IntactPartition(w, s, d);
    }
    forall f
      ensures Members(s, f) != map[] <==> f in s.catalog
    {
      if Members(s, f) != map[] {
        var id :| id in Members(s, f);
      }
    }
    hide Sound, Exact, Clean, Partitioned, CatalogOf;
    forall d | d in RequiredCatalogDimensions(w.jobType)
      ensures SingleValued(d) && (d == Target ==> w.jobType == Pending)
    {
    }
  }

  lemma IntactPartition(w: World, s: Slot, d: Dimension)
    requires Sound(w, s) && s.initialized && Clean(s) && Exact(s)
    requires SingleValued(d) && (d == Target ==> w.jobType == Pending)
    ensures Partitioned(s, d) && (s.projection != map[] ==> CatalogOf(s, d) != {})
  {
    hide *;
    forall f | f in CatalogOf(s, d)
      ensures Members(s, f) != map[]
    {
      CataloguedIsFilled(s, d, f);
    }
    forall f, g | f in CatalogOf(s, d) && g in CatalogOf(s, d) && f != g
      ensures Members(s, f).Keys !! Members(s, g).Keys
    {
      ValuesApart(w, s, d, f, g);
    }
    forall id
      ensures id in s.projection <==> exists f :: f in CatalogOf(s, d) && id in Members(s, f)
    {
      if id in s.projection {
        HasValue(w, s, d, id);
        assert ValueIn(w, id, d) in CatalogOf(s, d);
      }
      forall f | id in Members(s, f)
        ensures id in s.projection
      {
        MemberIsProjected(s, f, id);
      }
    }
    PartitionedIs(s, d);
    if s.projection != map[] {
      var id :| id in s.projection;
      HasValue(w, s, d, id);
    }
  }

  lemma PartitionedIs(s: Slot, d: Dimension)
    requires forall f :: f in CatalogOf(s, d) ==> Members(s, f) != map[]
    requires forall f, g :: f in CatalogOf(s, d) && g in CatalogOf(s, d) && f != g ==> Members(s, f).Keys !! Members(s, g).Keys
    requires forall id :: id in s.projection <==> exists f :: f in CatalogOf(s, d) && id in Members(s, f)
    ensures Partitioned(s, d)
  {
    hide CatalogOf, Members;
  }

  lemma CataloguedIsFilled(s: Slot, d: Dimension, f: Facet)
    requires Exact(s) && f in CatalogOf(s, d)
    ensures Members(s, f) != map[]
  {
    hide Members;
  }

  lemma ValuesApart(w: World, s: Slot, d: Dimension, f: Facet, g: Facet)
    requires Sound(w, s) && SingleValued(d) && (d == Target ==> w.jobType == Pending)
    requires f in CatalogOf(s, d) && g in CatalogOf(s, d) && f != g
    ensures Members(s, f).Keys !! Members(s, g).Keys
  {
    hide Members, FacetsOf;
    forall id | id in Members(s, f)
      ensures id !in Members(s, g)
    {
      OneValue(w, id, d, f);
      OneValue(w, id, d, g);
    }
  }

  lemma HasValue(w: World, s: Slot, d: Dimension, id: Id)
    requires Sound(w, s) && s.initialized && SingleValued(d) && (d == Target ==> w.jobType == Pending)
    requires id in s.projection
    ensures ValueIn(w, id, d) in CatalogOf(s, d) && id in Members(s, ValueIn(w, id, d))
  {
    ValueDim(w, id, d);
    OneValue(w, id, d, ValueIn(w, id, d));
    hide Members, FacetsOf, ValueIn;
    var f := ValueIn(w, id, d);
    assert f in w.Facets(id);
    assert id in Members(s, f);
    assert f in s.catalog;
  }

  lemma MemberIsProjected(s: Slot, f: Facet, id: Id)
    requires Clean(s) && id in Members(s, f)
    ensures id in s.projection
  {
    hide Members;
  }

  lemma ValueDim(w: World, id: Id, d: Dimension)
    ensures ValueIn(w, id, d).Dim() == d
  {
  }
}
