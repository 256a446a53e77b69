/**
  The pending job list: reserved jobs first, then the rest, in which a delayed job takes the
  place of its availability instead of its enqueue time. A page is put together from up to
  three sources (the reserved jobs, the other jobs without the delayed ones, the delayed
  ones), and the cursor carries the phase in which the list goes on.
*/
module PendingPaging {
  import opened Collections
  import opened KeysetPaging
  import opened Options

  datatype Phase = Default | Reserved | Rest

  datatype CursorState = CursorState(position: Option<Position>, phase: Phase)

  datatype ListPage = ListPage(ids: seq<Id>, next: Option<CursorState>)

  /** Pending jobs are walked from the highest score down. */
  const REVERSE := true

  /**
    What one request sees: the sorted set of the query's candidates, the scores of Horizon's
    source, the reserved ids, and the delayed ids with the time each becomes available.
  */
  datatype View = View(
    candidates: seq<Entry>,
    source: map<Id, Score>,
    reserved: seq<Id>,
    availability: seq<Entry>,
    unfiltered: bool,
    published: bool)

  // ----- The pieces of a page -----

  function IdSet(t: seq<Entry>): set<Id> {
    set e | e in t :: e.id
  }

  /** The entries whose id is in the set, in the order given. */
  function Within(t: seq<Entry>, ids: set<Id>): seq<Entry> {
    if t == [] then []
    else if t[0].id in ids then [t[0]] + Within(t[1..], ids)
    else Within(t[1..], ids)
  }

  /** The listed ids with their source scores; an id that the source no longer retains drops out. */
  function Scored(ids: seq<Id>, source: map<Id, Score>): seq<Entry> {
    if ids == [] then []
    else if ids[0] in source then [Entry(source[ids[0]], ids[0])] + Scored(ids[1..], source)
    else Scored(ids[1..], source)
  }

  /** The delayed ids outside the exclusion set, with availability mapped into the space of source scores. */
  function Delayed(availability: seq<Entry>, exclude: set<Id>): seq<Entry> {
    if availability == [] then []
    else if availability[0].id in exclude then Delayed(availability[1..], exclude)
    else [Entry(-availability[0].score, availability[0].id)] + Delayed(availability[1..], exclude)
  }

  /** Every delayed job outside the exclusion set is ordered by its availability, and no other job is. */
  method DelayedOrderingScores(availability: seq<Entry>, exclude: set<Id>) returns (scores: seq<Entry>)
    ensures scores == Delayed(availability, exclude)
    ensures forall at, id :: Entry(-at, id) in scores <==> Entry(at, id) in availability && id !in exclude
    ensures DistinctIds(availability) ==> DistinctIds(scores)
  {
    hide DistinctIds;
    scores := [];
    for i := 0 to |availability|
      invariant Delayed(availability, exclude) == scores + Delayed(availability[i..], exclude)
    {
      if availability[i].id !in exclude {
        scores := scores + [Entry(-availability[i].score, availability[i].id)];
      }
    }
    DelayedListing(availability, exclude);
  }

  /** The delayed entries that page: retained by the source and, for a filtered query, among its candidates. */
  function DelayedMembers(v: View, exclude: set<Id>): seq<Entry> {
    var retained := Within(Delayed(v.availability, exclude), v.source.Keys);
    if v.unfiltered then retained else Within(retained, IdSet(v.candidates))
  }

  function PageExcluding(v: View, exclude: set<Id>, after: Option<Position>, limit: nat): Page {
    if limit == 0 then Page([], 0, OffsetOf(after), None)
    else if exclude == {} then PageOf(Walk(v.candidates, REVERSE), after, limit, REVERSE)
    else ExcludingPageOf(Walk(v.candidates, REVERSE), exclude, after, limit, REVERSE)
  }

  /** The page of the delayed stream, as entries. */
  function DelayedRows(v: View, exclude: set<Id>, after: Option<Position>, limit: nat): seq<Entry> {
    Take(Beyond(Sorted(DelayedMembers(v, exclude), REVERSE), after, REVERSE), limit)
  }

  /** Both streams in one order, cut to the page. */
  function MergedPage(nonDelayed: seq<Entry>, delayed: seq<Entry>, after: Option<Position>, limit: nat): Page {
    var pairs := Sorted(nonDelayed + delayed, REVERSE);
    Page(Ids(Take(pairs, limit)), 0, OffsetOf(after), NextOf(pairs, OffsetOf(after), limit))
  }

  method MergePendingRestStreams(nonDelayedIds: seq<Id>, source: map<Id, Score>, delayed: seq<Entry>, after: Option<Position>, limit: nat)
    returns (page: Page)
    requires limit > 0
    ensures page == MergedPage(Scored(nonDelayedIds, source), delayed, after, limit)
  {
    var pairs: seq<Entry> := [];
    for i := 0 to |nonDelayedIds|
      invariant Scored(nonDelayedIds, source) == pairs + Scored(nonDelayedIds[i..], source)
    {
      if nonDelayedIds[i] in source {
        pairs := pairs + [Entry(source[nonDelayedIds[i]], nonDelayedIds[i])];
      }
    }
    for i := 0 to |delayed|
      invariant pairs == Scored(nonDelayedIds, source) + delayed[..i]
    {
      pairs := pairs + [delayed[i]];
    }
    assert delayed[..|delayed|] == delayed;
    pairs := Sorted(pairs, REVERSE);
    var shown := Take(pairs, limit);
    var offset := OffsetOf(after);
    page := Page(Ids(shown), 0, offset,
                 if |pairs| > limit && shown != []
                 then Some(Position(shown[|shown| - 1].score, shown[|shown| - 1].id, offset + |shown|))
                 else None);
  }

  /** The jobs that are not reserved: one stream when none is delayed, two merged streams otherwise. */
  function PagePendingRest(v: View, exclude: set<Id>, after: Option<Position>, limit: nat): Page {
    var delayed := Delayed(v.availability, exclude);
    if limit == 0 then Page([], 0, OffsetOf(after), None)
    else if delayed == [] then PageExcluding(v, exclude, after, limit)
    else
      var nonDelayed := PageExcluding(v, exclude + IdSet(delayed), after, limit + 1);
      MergedPage(Scored(nonDelayed.ids, v.source), DelayedRows(v, exclude, after, limit + 1), after, limit)
  }

  /** The reserved candidates: source scores of the listed ids, or the listed ids within the candidates. */
  function ReservedWalk(v: View): seq<Entry> {
    if v.unfiltered && !v.published then Sorted(Scored(v.reserved, v.source), REVERSE)
    else Within(Walk(v.candidates, REVERSE), Elements(v.reserved))
  }

  function PageReservedLead(v: View, after: Option<Position>, size: nat): ListPage {
    var exclude := Elements(v.reserved);
    var lead := PageOf(ReservedWalk(v), after, size, REVERSE);
    if lead.next.Some? then ListPage(lead.ids, Some(CursorState(lead.next, Reserved)))
    else if |lead.ids| < size then
      var fill := PagePendingRest(v, exclude, None, size - |lead.ids|);
      ListPage(lead.ids + fill.ids, if fill.next.Some? then Some(CursorState(fill.next, Rest)) else None)
    else
      var probe := PagePendingRest(v, exclude, None, 1);
      ListPage(lead.ids, if probe.ids != [] then Some(CursorState(None, Rest)) else None)
  }

  function PagePendingReservedFirst(v: View, cursor: Option<CursorState>, size: nat): ListPage {
    var position := if cursor.Some? then cursor.value.position else None;
    if v.reserved == [] then
      var page := PagePendingRest(v, {}, position, size);
      ListPage(page.ids, if page.next.Some? then Some(CursorState(page.next, Default)) else None)
    else if cursor.None? || cursor.value.phase == Reserved then PageReservedLead(v, position, size)
    else
      var rest := PagePendingRest(v, Elements(v.reserved), position, size);
      ListPage(rest.ids, if rest.next.Some? then Some(CursorState(rest.next, Rest)) else None)
  }

  // ----- The same pages, read by the loops -----

  method ReadExcluding(v: View, exclude: set<Id>, after: Option<Position>, limit: nat) returns (page: Page)
    requires Ordered(v.candidates, false) && DistinctIds(v.candidates)
    ensures page == PageExcluding(v, exclude, after, limit)
  {
    if limit == 0 {
      page := Page([], 0, OffsetOf(after), None);
    } else if exclude == {} {
      page := SourcePage(v.candidates, after, limit, REVERSE);
    } else {
      ghost var rawPages;
      page, rawPages := SourcePageExcluding(v.candidates, exclude, after, limit, REVERSE);
    }
  }

  method ReadPendingRest(v: View, exclude: set<Id>, after: Option<Position>, limit: nat) returns (page: Page)
    requires Ordered(v.candidates, false) && DistinctIds(v.candidates)
    ensures page == PagePendingRest(v, exclude, after, limit)
  {
    hide Ordered, DistinctIds, PageExcluding, MergedPage, DelayedRows, Delayed, IdSet;
    var delayed := DelayedOrderingScores(v.availability, exclude);
    if limit == 0 {
      page := Page([], 0, OffsetOf(after), None);
    } else if delayed == [] {
      page := ReadExcluding(v, exclude, after, limit);
    } else {
      var nonDelayed := ReadExcluding(v, exclude + IdSet(delayed), after, limit + 1);
      page := MergePendingRestStreams(nonDelayed.ids, v.source, DelayedRows(v, exclude, after, limit + 1), after, limit);
    }
  }

  method ReadReservedLead(v: View, after: Option<Position>, size: nat) returns (page: ListPage)
    requires Ordered(v.candidates, false) && DistinctIds(v.candidates)
    ensures page == PageReservedLead(v, after, size)
  {
    hide Ordered, DistinctIds, PagePendingRest, PageOf, ReservedWalk;
    var exclude := Elements(v.reserved);
    var lead := PageOf(ReservedWalk(v), after, size, REVERSE);
    if lead.next.Some? {
      page := ListPage(lead.ids, Some(CursorState(lead.next, Reserved)));
    } else if |lead.ids| < size {
      var fill := ReadPendingRest(v, exclude, None, size - |lead.ids|);
      page := ListPage(lead.ids + fill.ids, if fill.next.Some? then Some(CursorState(fill.next, Rest)) else None);
    } else {
      var probe := ReadPendingRest(v, exclude, None, 1);
      page := ListPage(lead.ids, if probe.ids != [] then Some(CursorState(None, Rest)) else None);
    }
  }

  /** The page that a request reads is the page whose order and completeness are proved below. */
  method ReadPendingReservedFirst(v: View, cursor: Option<CursorState>, size: nat) returns (page: ListPage)
    requires Ordered(v.candidates, false) && DistinctIds(v.candidates)
    ensures page == PagePendingReservedFirst(v, cursor, size)
    ensures Valid(v) && Retained(v) && size > 0 ==> NextInOrder(v, cursor, size, page)
  {
    hide Ordered, DistinctIds, PagePendingRest, PageReservedLead, Valid, Retained, NextInOrder;
    if Valid(v) && Retained(v) && size > 0 {
      PageIsNextInOrder(v, cursor, size);
    }
    var position := if cursor.Some? then cursor.value.position else None;
    if v.reserved == [] {
      var rest := ReadPendingRest(v, {}, position, size);
      page := ListPage(rest.ids, if rest.next.Some? then Some(CursorState(rest.next, Default)) else None);
    } else if cursor.None? || cursor.value.phase == Reserved {
      page := ReadReservedLead(v, position, size);
    } else {
      var rest := ReadPendingRest(v, Elements(v.reserved), position, size);
      page := ListPage(rest.ids, if rest.next.Some? then Some(CursorState(rest.next, Rest)) else None);
    }
  }

  // ----- The list that the pages are to show -----

  /** Two ordered walks merged into one. */
  function Merge(a: seq<Entry>, b: seq<Entry>): seq<Entry>
    decreases |a| + |b|
  {
    if a == [] then b
    else if b == [] then a
    else if Before(a[0], b[0], REVERSE) then [a[0]] + Merge(a[1..], b)
    else [b[0]] + Merge(a, b[1..])
  }

  /** The rest in order: candidates by score, delayed ones by availability. */
  function RestWalk(v: View, exclude: set<Id>): seq<Entry> {
    var delayed := Delayed(v.availability, exclude);
    if delayed == [] then Kept(Walk(v.candidates, REVERSE), exclude)
    else Merge(Kept(Walk(v.candidates, REVERSE), exclude + IdSet(delayed)), Sorted(DelayedMembers(v, exclude), REVERSE))
  }

  function FullList(v: View): seq<Id> {
    if v.reserved == [] then Ids(RestWalk(v, {}))
    else Ids(ReservedWalk(v)) + Ids(RestWalk(v, Elements(v.reserved)))
  }

  /** The part of the list that a cursor has left. */
  function Remaining(v: View, cursor: Option<CursorState>): seq<Id> {
    var position := if cursor.Some? then cursor.value.position else None;
    if v.reserved == [] then Ids(Beyond(RestWalk(v, {}), position, REVERSE))
    else if cursor.None? || cursor.value.phase == Reserved
    then Ids(Beyond(ReservedWalk(v), position, REVERSE)) + Ids(RestWalk(v, Elements(v.reserved)))
    else Ids(Beyond(RestWalk(v, Elements(v.reserved)), position, REVERSE))
  }

  // ----- Well-formed views -----

  /** Redis lists members once and in order; a live query's candidates carry the source's scores. */
  ghost predicate Valid(v: View) {
    && Ordered(v.candidates, false) && DistinctIds(v.candidates) && DistinctIds(v.availability)
    && (forall i, j :: 0 <= i < j < |v.reserved| ==> v.reserved[i] != v.reserved[j])
    && (forall e :: e in v.candidates && e.id in v.source ==> v.source[e.id] == e.score)
    && (!v.published ==> forall e :: e in v.candidates ==> e.id in v.source)
    && (!v.published && v.unfiltered ==> forall id :: id in v.source ==> Entry(v.source[id], id) in v.candidates)
  }

  /** No merge takes place, or the source still retains every candidate that a merge has to place. */
  ghost predicate Retained(v: View) {
    || (forall e :: e in v.availability ==> e.id in v.reserved)
    || (forall e :: e in v.candidates && e.id !in v.reserved ==> e.id in v.source)
  }

  lemma RetainedIs(v: View)
    ensures var exclude := Elements(v.reserved);
            Retained(v) <==>
            Delayed(v.availability, exclude) == [] || forall e :: e in v.candidates && e.id !in exclude ==> e.id in v.source
  {
    NothingIsDelayed(v.availability, Elements(v.reserved));
  }

  // ----- Merging ordered walks -----

  /** No entry of one walk has an id of the other. */
  ghost predicate Apart(a: seq<Entry>, b: seq<Entry>) {
    forall e, f :: e in a && f in b ==> e.id != f.id
  }

  lemma {:induction false} MergeMembers(a: seq<Entry>, b: seq<Entry>)
    ensures |Merge(a, b)| == |a| + |b|
    ensures forall e :: e in Merge(a, b) <==> e in a || e in b
    decreases |a| + |b|
  {
    if a != [] && b != [] {
      if Before(a[0], b[0], REVERSE) {
        MergeMembers(a[1..], b);
      } else {
        MergeMembers(a, b[1..]);
      }
    }
  }

  lemma OrderedCons(e: Entry, t: seq<Entry>)
    requires Ordered(t, REVERSE) && forall f :: f in t ==> Before(e, f, REVERSE)
    ensures Ordered([e] + t, REVERSE)
  {
    forall i | 0 <= i < |t|
      ensures Before(e, t[i], REVERSE)
    {
      assert t[i] in t;
    }
  }

  lemma OrderedHead(t: seq<Entry>)
    requires Ordered(t, REVERSE) && t != []
    ensures Ordered(t[1..], REVERSE) && forall f :: f in t[1..] ==> Before(t[0], f, REVERSE)
  {
  }

  lemma {:induction false} MergeIsOrdered(a: seq<Entry>, b: seq<Entry>)
    requires Ordered(a, REVERSE) && Ordered(b, REVERSE) && Apart(a, b)
    ensures Ordered(Merge(a, b), REVERSE)
    decreases |a| + |b|
  {
    if a != [] && b != [] {
      OrderedHead(a);
      OrderedHead(b);
      assert a[0] in a && b[0] in b;
      if Before(a[0], b[0], REVERSE) {
        MergeIsOrdered(a[1..], b);
        MergeMembers(a[1..], b);
        assert forall f :: f in b ==> f == b[0] || f in b[1..];
        hide Ordered;
        OrderedCons(a[0], Merge(a[1..], b));
      } else {
        MergeIsOrdered(a, b[1..]);
        MergeMembers(a, b[1..]);
        assert forall f :: f in a ==> f == a[0] || f in a[1..];
        hide Ordered;
        OrderedCons(b[0], Merge(a, b[1..]));
      }
    }
  }

  /** The first `k` entries of a merge come from the first `k` entries of each walk, or more of them. */
  lemma {:induction false} MergeTakes(a: seq<Entry>, b: seq<Entry>, m: nat, n: nat, k: nat)
    requires k <= m && k <= n
    ensures Take(Merge(Take(a, m), Take(b, n)), k) == Take(Merge(a, b), k)
    decreases |a| + |b|
  {
    if k > 0 && a != [] && b != [] {
      if Before(a[0], b[0], REVERSE) {
        MergeTakes(a[1..], b, m - 1, n, k - 1);
        assert Take(a, m)[1..] == Take(a[1..], m - 1);
        TakeCons(a[0], Merge(a[1..], b), k);
        TakeCons(a[0], Merge(Take(a[1..], m - 1), Take(b, n)), k);
      } else {
        MergeTakes(a, b[1..], m, n - 1, k - 1);
        assert Take(b, n)[1..] == Take(b[1..], n - 1);
        TakeCons(b[0], Merge(a, b[1..]), k);
        TakeCons(b[0], Merge(Take(a, m), Take(b[1..], n - 1)), k);
      }
    }
  }

  lemma TakeCons(e: Entry, t: seq<Entry>, k: nat)
    requires k > 0
    ensures Take([e] + t, k) == [e] + Take(t, k - 1)
  {
  }

  lemma BeyondSkips(t: seq<Entry>, c: Position)
    requires t != [] && !Before(EntryOf(c), t[0], REVERSE)
    ensures Beyond(t, Some(c), REVERSE) == Beyond(t[1..], Some(c), REVERSE)
  {
  }

  lemma BeyondKeeps(t: seq<Entry>, c: Position)
    requires t != [] ==> Before(EntryOf(c), t[0], REVERSE)
    ensures Beyond(t, Some(c), REVERSE) == t
  {
  }

  /** Cutting at a cursor and merging may be done in either order. */
  lemma {:induction false} MergeBeyond(a: seq<Entry>, b: seq<Entry>, c: Position)
    requires Ordered(a, REVERSE) && Ordered(b, REVERSE)
    ensures Beyond(Merge(a, b), Some(c), REVERSE) == Merge(Beyond(a, Some(c), REVERSE), Beyond(b, Some(c), REVERSE))
    decreases |a| + |b|
  {
    hide Beyond;
    var e := EntryOf(c);
    if a == [] || b == [] {
      BeyondKeeps([], c);
    } else {
      OrderedTail(a, REVERSE);
      OrderedTail(b, REVERSE);
      hide Ordered;
      if Before(e, a[0], REVERSE) && Before(e, b[0], REVERSE) {
        BeyondKeeps(a, c);
        BeyondKeeps(b, c);
        BeyondKeeps(Merge(a, b), c);
      } else if Before(a[0], b[0], REVERSE) {
        BeyondSkips(a, c);
        BeyondSkips(Merge(a, b), c);
        MergeBeyond(a[1..], b, c);
      } else {
        BeyondSkips(b, c);
        BeyondSkips(Merge(a, b), c);
        MergeBeyond(a, b[1..], c);
      }
    }
  }

  lemma SortedIsMerge(a: seq<Entry>, b: seq<Entry>)
    requires Ordered(a, REVERSE) && Ordered(b, REVERSE) && Apart(a, b) && DistinctIds(a) && DistinctIds(b)
    ensures Sorted(a + b, REVERSE) == Merge(a, b)
  {
    DistinctConcat(a, b);
    SortedIsOrdered(a + b, REVERSE);
    MergeIsOrdered(a, b);
    MergeMembers(a, b);
    hide Ordered, DistinctIds, Sorted, Merge;
    WalkIsUnique(Sorted(a + b, REVERSE), Merge(a, b), REVERSE);
  }

  lemma DistinctConcat(a: seq<Entry>, b: seq<Entry>)
    requires Apart(a, b) && DistinctIds(a) && DistinctIds(b)
    ensures DistinctIds(a + b)
  {
    assert forall i :: 0 <= i < |a| ==> a[i] in a;
    assert forall i :: 0 <= i < |b| ==> b[i] in b;
  }

  // ----- Walks without the excluded ids -----

  lemma {:induction false} KeptBeyond(t: seq<Entry>, exclude: set<Id>, after: Option<Position>)
    requires Ordered(t, REVERSE)
    ensures Kept(Beyond(t, after, REVERSE), exclude) == Beyond(Kept(t, exclude), after, REVERSE)
    decreases |t|
  {
    if after.Some? && t != [] {
      OrderedTail(t, REVERSE);
      if Before(EntryOf(after.value), t[0], REVERSE) {
        KeptAreMembers(t, exclude);
        OrderedHead(t);
        assert forall f :: f in t ==> f == t[0] || f in t[1..];
        hide Ordered, Kept;
        assert Kept(t, exclude) != [] ==> Kept(t, exclude)[0] in Kept(t, exclude);
        assert Cut(Kept(t, exclude), EntryOf(after.value), REVERSE) == 0;
      } else {
        hide Ordered;
        KeptBeyond(t[1..], exclude, after);
      }
    }
  }

  lemma {:induction false} KeptIsOrdered(t: seq<Entry>, exclude: set<Id>)
    requires Ordered(t, REVERSE)
    ensures Ordered(Kept(t, exclude), REVERSE)
    decreases |t|
  {
    if t != [] {
      OrderedHead(t);
      KeptIsOrdered(t[1..], exclude);
      KeptAreMembers(t[1..], exclude);
      hide Ordered;
      if t[0].id !in exclude {
        OrderedCons(t[0], Kept(t[1..], exclude));
      }
    }
  }

  lemma {:induction false} KeptIsDistinct(t: seq<Entry>, exclude: set<Id>)
    requires DistinctIds(t)
    ensures DistinctIds(Kept(t, exclude))
    decreases |t|
  {
    if t != [] {
      var rest := t[1..];
      assert forall i :: 0 <= i < |rest| ==> rest[i] == t[i + 1];
      KeptIsDistinct(rest, exclude);
      KeptAreMembers(rest, exclude);
      var r := Kept(rest, exclude);
      forall i | 0 <= i < |r|
        ensures r[i].id != t[0].id
      {
        assert r[i] in r;
      }
    }
  }

  lemma {:induction false} KeptOfNothing(t: seq<Entry>)
    ensures Kept(t, {}) == t
    decreases |t|
  {
    if t != [] {
      KeptOfNothing(t[1..]);
    }
  }

  lemma {:induction false} WithinIsKept(t: seq<Entry>, ids: set<Id>, all: set<Id>)
    requires forall e :: e in t ==> e.id in all
    ensures Within(t, ids) == Kept(t, all - ids)
    decreases |t|
  {
    if t != [] {
      assert t[0] in t;
      WithinIsKept(t[1..], ids, all);
    }
  }

  lemma {:induction false} ScoredRestores(t: seq<Entry>, source: map<Id, Score>)
    requires forall e :: e in t ==> e.id in source && source[e.id] == e.score
    ensures Scored(Ids(t), source) == t
    decreases |t|
  {
    if t != [] {
      assert t[0] in t;
      assert Ids(t)[1..] == Ids(t[1..]);
      ScoredRestores(t[1..], source);
    }
  }

  // ----- One page of the rest -----

  /** The page shows the next entries of the walk, and its cursor stands at the last one shown. */
  ghost predicate Shows(t: seq<Entry>, after: Option<Position>, limit: nat, ids: seq<Id>, next: Option<Position>) {
    var rest := Beyond(t, after, REVERSE);
    && ids == Ids(Take(rest, limit))
    && (next.None? ==> |rest| <= limit)
    && (next.Some? ==> 0 < limit <= |rest| && EntryOf(next.value) == rest[limit - 1])
  }

  lemma DelayedMembersAreDistinct(v: View, exclude: set<Id>)
    requires Valid(v)
    ensures DistinctIds(DelayedMembers(v, exclude))
    ensures forall e :: e in DelayedMembers(v, exclude) ==>
              e.id in v.source && e.id in IdSet(Delayed(v.availability, exclude)) && e.id !in exclude
    ensures forall e :: e in DelayedMembers(v, exclude) <==>
              && e in Delayed(v.availability, exclude) && e.id in v.source
              && (v.unfiltered || e.id in IdSet(v.candidates))
  {
    DelayedIsDistinct(v.availability, exclude);
    var d := Delayed(v.availability, exclude);
    DelayedAre(v.availability, exclude);
    WithinMembers(d, v.source.Keys);
    WithinIsDistinct(d, v.source.Keys);
    var r := Within(d, v.source.Keys);
    WithinMembers(r, IdSet(v.candidates));
    WithinIsDistinct(r, IdSet(v.candidates));
  }

  lemma {:induction false} DelayedHas(availability: seq<Entry>, exclude: set<Id>, e: Entry)
    ensures e in Delayed(availability, exclude) <==> Entry(-e.score, e.id) in availability && e.id !in exclude
    decreases |availability|
  {
    if availability != [] {
      DelayedHas(availability[1..], exclude, e);
      var first := Entry(-availability[0].score, availability[0].id);
      assert e == first <==> Entry(-e.score, e.id) == availability[0];
    }
  }

  lemma DelayedAre(availability: seq<Entry>, exclude: set<Id>)
    ensures forall e :: e in Delayed(availability, exclude) <==> Entry(-e.score, e.id) in availability && e.id !in exclude
  {
    forall e
      ensures e in Delayed(availability, exclude) <==> Entry(-e.score, e.id) in availability && e.id !in exclude
    {
      DelayedHas(availability, exclude, e);
    }
  }

  /** Every delayed job outside the exclusion set is listed by its availability, and no other job is. */
  lemma DelayedListing(availability: seq<Entry>, exclude: set<Id>)
    ensures var scores := Delayed(availability, exclude);
            && (forall at, id :: Entry(-at, id) in scores <==> Entry(at, id) in availability && id !in exclude)
            && (DistinctIds(availability) ==> DistinctIds(scores))
  {
    forall at, id
      ensures Entry(-at, id) in Delayed(availability, exclude) <==> Entry(at, id) in availability && id !in exclude
    {
      DelayedHas(availability, exclude, Entry(-at, id));
    }
    if DistinctIds(availability) {
      DelayedIsDistinct(availability, exclude);
    }
  }

  /** There is a second stream as soon as a job is delayed that the page does not exclude. */
  lemma NothingIsDelayed(availability: seq<Entry>, exclude: set<Id>)
    ensures Delayed(availability, exclude) == [] <==> forall e :: e in availability ==> e.id in exclude
  {
    DelayedAre(availability, exclude);
    var d := Delayed(availability, exclude);
    if d != [] {
      assert d[0] in d;
    }
    forall e | e in availability && e.id !in exclude
      ensures d != []
    {
      assert Entry(-e.score, e.id) in d;
    }
  }

  lemma {:induction false} DelayedIsDistinct(availability: seq<Entry>, exclude: set<Id>)
    requires DistinctIds(availability)
    ensures DistinctIds(Delayed(availability, exclude))
    decreases |availability|
  {
    if availability != [] {
      var rest := availability[1..];
      assert forall i :: 0 <= i < |rest| ==> rest[i] == availability[i + 1];
      DelayedIsDistinct(rest, exclude);
      DelayedAre(rest, exclude);
      var d := Delayed(rest, exclude);
      forall i | 0 <= i < |d|
        ensures d[i].id != availability[0].id
      {
        assert d[i] in d;
      }
    }
  }

  lemma {:induction false} WithinMembers(t: seq<Entry>, ids: set<Id>)
    ensures forall e :: e in Within(t, ids) <==> e in t && e.id in ids
    decreases |t|
  {
    if t != [] {
      WithinMembers(t[1..], ids);
    }
  }

  lemma WithinIsDistinct(t: seq<Entry>, ids: set<Id>)
    requires DistinctIds(t)
    ensures DistinctIds(Within(t, ids))
  {
    var all := IdSet(t) + ids;
    WithinIsKept(t, ids, all);
    KeptIsDistinct(t, all - ids);
  }

  lemma WithinIsOrdered(t: seq<Entry>, ids: set<Id>)
    requires Ordered(t, REVERSE)
    ensures Ordered(Within(t, ids), REVERSE)
  {
    var all := IdSet(t) + ids;
    WithinIsKept(t, ids, all);
    KeptIsOrdered(t, all - ids);
  }

  /** The walk of the candidates, as every page reads it. */
  lemma CandidateWalk(v: View)
    requires Valid(v)
    ensures var w := Walk(v.candidates, REVERSE);
            Ordered(w, REVERSE) && DistinctIds(w) && forall e :: e in w <==> e in v.candidates
  {
    WalkIsOrdered(v.candidates, REVERSE);
    var w := Walk(v.candidates, REVERSE);
    assert forall i :: 0 <= i < |w| ==> w[i] in v.candidates;
    assert forall i :: 0 <= i < |w| ==> w[|w| - 1 - i] == v.candidates[i];
    forall e | e in v.candidates
      ensures e in w
    {
      var i :| 0 <= i < |v.candidates| && v.candidates[i] == e;
      assert w[|w| - 1 - i] == e;
    }
  }

  /** The two streams of the rest are ordered and have no id in common. */
  lemma Streams(v: View, exclude: set<Id>)
    requires Valid(v)
    ensures var d := Delayed(v.availability, exclude);
            var a := Kept(Walk(v.candidates, REVERSE), exclude + IdSet(d));
            var b := Sorted(DelayedMembers(v, exclude), REVERSE);
            && Ordered(a, REVERSE) && DistinctIds(a) && Ordered(b, REVERSE) && DistinctIds(b) && Apart(a, b)
            && (forall e :: e in a <==> e in v.candidates && e.id !in exclude && e.id !in IdSet(d))
            && (forall e :: e in b <==> e in DelayedMembers(v, exclude))
  {
    var d := Delayed(v.availability, exclude);
    var w := Walk(v.candidates, REVERSE);
    CandidateWalk(v);
    KeptIsOrdered(w, exclude + IdSet(d));
    KeptIsDistinct(w, exclude + IdSet(d));
    KeptAreMembers(w, exclude + IdSet(d));
    DelayedMembersAreDistinct(v, exclude);
    SortedIsOrdered(DelayedMembers(v, exclude), REVERSE);
    SortedIsDistinct(DelayedMembers(v, exclude));
  }

  lemma SortedIsDistinct(t: seq<Entry>)
    requires DistinctIds(t)
    ensures DistinctIds(Sorted(t, REVERSE))
  {
    SortedIsOrdered(t, REVERSE);
    var r := Sorted(t, REVERSE);
    forall i, j | 0 <= i < j < |r|
      ensures r[i].id != r[j].id
    {
      assert Before(r[i], r[j], REVERSE);
      assert r[i] in t && r[j] in t;
    }
  }

  lemma RestWalkIsOrdered(v: View, exclude: set<Id>)
    requires Valid(v)
    ensures Ordered(RestWalk(v, exclude), REVERSE)
  {
    Streams(v, exclude);
    CandidateWalk(v);
    KeptIsOrdered(Walk(v.candidates, REVERSE), exclude);
    hide Ordered, DistinctIds, Apart, Walk, Kept, Sorted, Merge, Delayed, DelayedMembers;
    var d := Delayed(v.availability, exclude);
    MergeIsOrdered(Kept(Walk(v.candidates, REVERSE), exclude + IdSet(d)), Sorted(DelayedMembers(v, exclude), REVERSE));
  }

  /** A page of the rest shows the next entries of the rest, provided the source retains what a merge places. */
  lemma RestPageShows(v: View, after: Option<Position>, limit: nat)
    requires Valid(v) && Retained(v) && limit > 0
    ensures var page := PagePendingRest(v, Elements(v.reserved), after, limit);
            Shows(RestWalk(v, Elements(v.reserved)), after, limit, page.ids, page.next)
  {
    var exclude := Elements(v.reserved);
    CandidateWalk(v);
    if Delayed(v.availability, exclude) == [] {
      SingleStreamShows(v, exclude, after, limit);
    } else {
      MergedStreamsShow(v, after, limit);
    }
  }

  lemma SingleStreamShows(v: View, exclude: set<Id>, after: Option<Position>, limit: nat)
    requires Ordered(Walk(v.candidates, REVERSE), REVERSE) && limit > 0
    ensures var page := PageExcluding(v, exclude, after, limit);
            Shows(Kept(Walk(v.candidates, REVERSE), exclude), after, limit, page.ids, page.next)
  {
    var w := Walk(v.candidates, REVERSE);
    KeptBeyond(w, exclude, after);
    if exclude == {} {
      KeptOfNothing(w);
    } else {
      ExcludingCovers(w, exclude, after, limit);
    }
  }

  /** Without a cursor, the page that skips the excluded ids has shown every entry that is left. */
  lemma ExcludingCovers(w: seq<Entry>, exclude: set<Id>, after: Option<Position>, limit: nat)
    requires Ordered(w, REVERSE) && limit > 0
    ensures var kept, page := Kept(Beyond(w, after, REVERSE), exclude), ExcludingPageOf(w, exclude, after, limit, REVERSE);
            && page.ids == Ids(Take(kept, limit))
            && (page.next.None? ==> |kept| <= limit)
            && (page.next.Some? ==> limit <= |kept| && EntryOf(page.next.value) == kept[limit - 1])
  {
    var rest := Beyond(w, after, REVERSE);
    var kept := Kept(rest, exclude);
    if limit < |kept| && kept[limit - 1] == rest[|rest| - 1] {
      BeyondIsOrdered(w, after, REVERSE);
      KeptIsOrdered(rest, exclude);
      KeptAreMembers(rest, exclude);
      assert kept[limit] in rest;
      assert Before(kept[limit - 1], kept[limit], REVERSE);
      NothingAfterLast(rest, kept[limit]);
      assert false;
    }
  }

  lemma NothingAfterLast(t: seq<Entry>, e: Entry)
    requires Ordered(t, REVERSE) && e in t
    ensures !Before(t[|t| - 1], e, REVERSE)
  {
    var i :| 0 <= i < |t| && t[i] == e;
    assert i == |t| - 1 || Before(t[i], t[|t| - 1], REVERSE);
  }

  lemma MergedStreamsShow(v: View, after: Option<Position>, limit: nat)
    requires Valid(v) && Retained(v) && limit > 0 && Delayed(v.availability, Elements(v.reserved)) != []
    ensures var page := PagePendingRest(v, Elements(v.reserved), after, limit);
            Shows(RestWalk(v, Elements(v.reserved)), after, limit, page.ids, page.next)
  {
    var exclude := Elements(v.reserved);
    var d := Delayed(v.availability, exclude);
    var w := Walk(v.candidates, REVERSE);
    var a := Kept(w, exclude + IdSet(d));
    var b := Sorted(DelayedMembers(v, exclude), REVERSE);
    Streams(v, exclude);
    CandidateWalk(v);
    assert d[0] in d && exclude + IdSet(d) != {};
    ExcludingCovers(w, exclude + IdSet(d), after, limit + 1);
    KeptBeyond(w, exclude + IdSet(d), after);
    StreamPart(v, a, after, limit);
    MergedPageShows(a, b, after, limit);
  }

  /** The non-delayed part of a merge keeps its scores when the source retains it. */
  lemma StreamPart(v: View, a: seq<Entry>, after: Option<Position>, limit: nat)
    requires Valid(v) && Retained(v) && Delayed(v.availability, Elements(v.reserved)) != []
    requires forall e :: e in a ==> e in v.candidates && e.id !in Elements(v.reserved)
    ensures var part := Take(Beyond(a, after, REVERSE), limit + 1); Scored(Ids(part), v.source) == part
  {
    var part := Take(Beyond(a, after, REVERSE), limit + 1);
    RetainedIs(v);
    forall e | e in part
      ensures e.id in v.source && v.source[e.id] == e.score
    {
      assert e in Beyond(a, after, REVERSE);
      assert e in a;
    }
    ScoredRestores(part, v.source);
  }

  /** One entry more from each stream is enough to page their merge. */
  lemma MergedPageShows(a: seq<Entry>, b: seq<Entry>, after: Option<Position>, limit: nat)
    requires Ordered(a, REVERSE) && Ordered(b, REVERSE) && Apart(a, b) && DistinctIds(a) && DistinctIds(b) && limit > 0
    ensures var page := MergedPage(Take(Beyond(a, after, REVERSE), limit + 1), Take(Beyond(b, after, REVERSE), limit + 1), after, limit);
            Shows(Merge(a, b), after, limit, page.ids, page.next)
  {
    var x, y := Beyond(a, after, REVERSE), Beyond(b, after, REVERSE);
    var p, q := Take(x, limit + 1), Take(y, limit + 1);
    PartsStayApart(a, b, x, y, p, q);
    hide Apart, DistinctIds, Ordered;
    SortedIsMerge(p, q);
    if after.Some? {
      MergeBeyond(a, b, after.value);
    }
    MergeTakes(x, y, limit + 1, limit + 1, limit + 1);
    hide Beyond, Merge, Sorted;
    SameTopSamePage(Merge(p, q), Merge(x, y), limit);
  }

  lemma SameTopSamePage(t: seq<Entry>, u: seq<Entry>, limit: nat)
    requires limit > 0 && Take(t, limit + 1) == Take(u, limit + 1)
    ensures Take(t, limit) == Take(u, limit) && (limit < |t| <==> limit < |u|)
    ensures limit < |t| ==> t[limit - 1] == u[limit - 1]
  {
    assert Take(Take(t, limit + 1), limit) == Take(t, limit);
    assert Take(Take(u, limit + 1), limit) == Take(u, limit);
    assert limit < |t| ==> Take(t, limit)[limit - 1] == t[limit - 1];
    assert limit < |u| ==> Take(u, limit)[limit - 1] == u[limit - 1];
  }

  lemma PartsStayApart(a: seq<Entry>, b: seq<Entry>, x: seq<Entry>, y: seq<Entry>, p: seq<Entry>, q: seq<Entry>)
    requires Ordered(a, REVERSE) && Ordered(b, REVERSE) && Apart(a, b) && DistinctIds(a) && DistinctIds(b)
    requires |x| <= |a| && x == a[|a| - |x|..] && |y| <= |b| && y == b[|b| - |y|..]
    requires |p| <= |x| && p == x[..|p|] && |q| <= |y| && q == y[..|q|]
    ensures Ordered(p, REVERSE) && Ordered(q, REVERSE) && Apart(p, q) && DistinctIds(p) && DistinctIds(q)
  {
    assert forall e :: e in p ==> e in a;
    assert forall e :: e in q ==> e in b;
  }

  // ----- Following the cursors -----

  lemma IdsConcat(a: seq<Entry>, b: seq<Entry>)
    ensures Ids(a + b) == Ids(a) + Ids(b)
  {
  }

  /** What a page shows and what its cursor leaves make up what was left before. */
  lemma ShowsSplits(t: seq<Entry>, after: Option<Position>, limit: nat, ids: seq<Id>, next: Option<Position>)
    requires Ordered(t, REVERSE) && limit > 0 && Shows(t, after, limit, ids, next)
    ensures Ids(Beyond(t, after, REVERSE)) == ids + if next.Some? then Ids(Beyond(t, next, REVERSE)) else []
    ensures |ids| <= limit && (next.Some? ==> |ids| == limit)
  {
    var rest := Beyond(t, after, REVERSE);
    if next.Some? {
      CursorWithin(t, after, limit, next.value, REVERSE);
      hide Beyond, Ordered;
      assert rest == rest[..limit] + rest[limit..];
      IdsConcat(rest[..limit], rest[limit..]);
    } else {
      assert Take(rest, limit) == rest;
    }
  }

  lemma {:induction false} ScoredMembers(ids: seq<Id>, source: map<Id, Score>)
    requires forall i, j :: 0 <= i < j < |ids| ==> ids[i] != ids[j]
    ensures DistinctIds(Scored(ids, source))
    ensures forall e :: e in Scored(ids, source) <==> e.id in ids && e.id in source && source[e.id] == e.score
    decreases |ids|
  {
    if ids != [] {
      var rest := ids[1..];
      assert forall i :: 0 <= i < |rest| ==> rest[i] == ids[i + 1];
      ScoredMembers(rest, source);
      var r := Scored(rest, source);
      assert forall i :: 0 <= i < |rest| ==> rest[i] != ids[0];
      forall i | 0 <= i < |r|
        ensures r[i].id != ids[0]
      {
        assert r[i] in r;
      }
    }
  }

  /** The reserved part of the list: exactly the reserved candidates, in the order of the source. */
  lemma ReservedWalkIsOrdered(v: View)
    requires Valid(v)
    ensures Ordered(ReservedWalk(v), REVERSE) && DistinctIds(ReservedWalk(v))
    ensures forall e :: e in ReservedWalk(v) <==> e in v.candidates && e.id in v.reserved
  {
    if v.unfiltered && !v.published {
      ScoredMembers(v.reserved, v.source);
      SortedIsOrdered(Scored(v.reserved, v.source), REVERSE);
      SortedIsDistinct(Scored(v.reserved, v.source));
    } else {
      CandidateWalk(v);
      var w := Walk(v.candidates, REVERSE);
      WithinIsOrdered(w, Elements(v.reserved));
      WithinIsDistinct(w, Elements(v.reserved));
      WithinMembers(w, Elements(v.reserved));
    }
  }

  lemma LeadShows(v: View, after: Option<Position>, size: nat)
    requires size > 0
    ensures var lead := PageOf(ReservedWalk(v), after, size, REVERSE);
            Shows(ReservedWalk(v), after, size, lead.ids, lead.next)
  {
  }

  /** A page of the rest, read with no cursor of its own, starts the rest. */
  lemma RestAdvances(v: View, after: Option<Position>, limit: nat)
    requires Valid(v) && Retained(v) && limit > 0
    ensures var t, page := RestWalk(v, Elements(v.reserved)), PagePendingRest(v, Elements(v.reserved), after, limit);
            && Ids(Beyond(t, after, REVERSE)) == page.ids + (if page.next.Some? then Ids(Beyond(t, page.next, REVERSE)) else [])
            && |page.ids| <= limit && (page.next.Some? ==> |page.ids| == limit)
            && (page.ids == [] ==> page.next.None?)
  {
    RestPageShows(v, after, limit);
    RestWalkIsOrdered(v, Elements(v.reserved));
    hide PagePendingRest, RestWalk, Valid, Retained, Ordered, Shows;
    var page := PagePendingRest(v, Elements(v.reserved), after, limit);
    ShowsSplits(RestWalk(v, Elements(v.reserved)), after, limit, page.ids, page.next);
  }

  /** The reserved jobs go on. */
  lemma LeadGoesOn(v: View, after: Option<Position>, size: nat)
    requires Valid(v) && size > 0 && v.reserved != [] && PageOf(ReservedWalk(v), after, size, REVERSE).next.Some?
    ensures var page := PageReservedLead(v, after, size);
            && Ids(Beyond(ReservedWalk(v), after, REVERSE)) + Ids(RestWalk(v, Elements(v.reserved)))
               == page.ids + Remaining(v, page.next)
            && |page.ids| == size && page.next.Some?
  {
    var lead := PageOf(ReservedWalk(v), after, size, REVERSE);
    LeadShows(v, after, size);
    ReservedWalkIsOrdered(v);
    hide PagePendingRest, RestWalk, ReservedWalk, Valid, Ordered, Shows, PageOf, Beyond, Elements, Ids;
    ShowsSplits(ReservedWalk(v), after, size, lead.ids, lead.next);
    var left := Ids(Beyond(ReservedWalk(v), lead.next, REVERSE));
    var rest := Ids(RestWalk(v, Elements(v.reserved)));
    assert (lead.ids + left) + rest == lead.ids + (left + rest);
  }

  /** The reserved jobs end on this page, and the rest fills it. */
  lemma LeadFills(v: View, after: Option<Position>, size: nat)
    requires Valid(v) && Retained(v) && size > 0 && v.reserved != []
    requires var lead := PageOf(ReservedWalk(v), after, size, REVERSE); lead.next.None? && |lead.ids| < size
    ensures var page := PageReservedLead(v, after, size);
            && Ids(Beyond(ReservedWalk(v), after, REVERSE)) + Ids(RestWalk(v, Elements(v.reserved)))
               == page.ids + (if page.next.Some? then Remaining(v, page.next) else [])
            && |page.ids| <= size && (page.next.Some? ==> |page.ids| == size)
  {
    hide *;
    var lead := PageOf(ReservedWalk(v), after, size, REVERSE);
    var rest := RestWalk(v, Elements(v.reserved));
    LeadShows(v, after, size);
    ReservedWalkIsOrdered(v);
    ShowsSplits(ReservedWalk(v), after, size, lead.ids, lead.next);
    LeadPageIs(v, after, size);
    var fill := PagePendingRest(v, Elements(v.reserved), None, size - |lead.ids|);
    RestAdvances(v, None, size - |lead.ids|);
    BeyondNothing(rest);
    if fill.next.Some? {
      RestCursorLeaves(v, fill.next);
      assert (lead.ids + fill.ids) + Ids(Beyond(rest, fill.next, REVERSE)) == lead.ids + (fill.ids + Ids(Beyond(rest, fill.next, REVERSE)));
    }
  }

  lemma LeadPageIs(v: View, after: Option<Position>, size: nat)
    requires var lead := PageOf(ReservedWalk(v), after, size, REVERSE); lead.next.None? && |lead.ids| < size
    ensures var lead := PageOf(ReservedWalk(v), after, size, REVERSE);
            var fill := PagePendingRest(v, Elements(v.reserved), None, size - |lead.ids|);
            PageReservedLead(v, after, size)
            == ListPage(lead.ids + fill.ids, if fill.next.Some? then Some(CursorState(fill.next, Rest)) else None)
  {
    hide PagePendingRest, ReservedWalk, PageOf, Elements;
  }

  lemma RestCursorLeaves(v: View, next: Option<Position>)
    requires v.reserved != []
    ensures Remaining(v, Some(CursorState(next, Rest))) == Ids(Beyond(RestWalk(v, Elements(v.reserved)), next, REVERSE))
  {
    hide RestWalk, ReservedWalk, Elements, Beyond;
  }

  /** The reserved jobs end with this page, and a probe tells whether there is a rest. */
  lemma LeadProbes(v: View, after: Option<Position>, size: nat)
    requires Valid(v) && Retained(v) && size > 0 && v.reserved != []
    requires var lead := PageOf(ReservedWalk(v), after, size, REVERSE); lead.next.None? && |lead.ids| >= size
    ensures var page := PageReservedLead(v, after, size);
            && Ids(Beyond(ReservedWalk(v), after, REVERSE)) + Ids(RestWalk(v, Elements(v.reserved)))
               == page.ids + (if page.next.Some? then Remaining(v, page.next) else [])
            && |page.ids| <= size && (page.next.Some? ==> |page.ids| == size)
  {
    var lead := PageOf(ReservedWalk(v), after, size, REVERSE);
    LeadShows(v, after, size);
    ReservedWalkIsOrdered(v);
    var rest := RestWalk(v, Elements(v.reserved));
    BeyondNothing(rest);
    hide PagePendingRest, RestWalk, ReservedWalk, Valid, Retained, Ordered, Shows, PageOf, Beyond, Elements, Ids;
    ShowsSplits(ReservedWalk(v), after, size, lead.ids, lead.next);
    RestAdvances(v, None, 1);
    var probe := PagePendingRest(v, Elements(v.reserved), None, 1);
    assert probe.ids == [] ==> Ids(rest) == [];
  }

  lemma BeyondNothing(t: seq<Entry>)
    ensures Beyond(t, None, REVERSE) == t
  {
  }

  lemma LeadAdvances(v: View, after: Option<Position>, size: nat)
    requires Valid(v) && Retained(v) && size > 0 && v.reserved != []
    ensures var page := PageReservedLead(v, after, size);
            && Ids(Beyond(ReservedWalk(v), after, REVERSE)) + Ids(RestWalk(v, Elements(v.reserved)))
               == page.ids + (if page.next.Some? then Remaining(v, page.next) else [])
            && |page.ids| <= size && (page.next.Some? ==> |page.ids| == size)
  {
    hide *;
    if PageOf(ReservedWalk(v), after, size, REVERSE).next.Some? {
      LeadGoesOn(v, after, size);
    } else if |PageOf(ReservedWalk(v), after, size, REVERSE).ids| < size {
      LeadFills(v, after, size);
    } else {
      LeadProbes(v, after, size);
    }
  }

  /** Every page, from any cursor, shows the head of what that cursor has left and leaves its tail. */
  lemma PageAdvances(v: View, cursor: Option<CursorState>, size: nat)
    requires Valid(v) && Retained(v) && size > 0
    ensures var page := PagePendingReservedFirst(v, cursor, size);
            && Remaining(v, cursor) == page.ids + (if page.next.Some? then Remaining(v, page.next) else [])
            && |page.ids| <= size && (page.next.Some? ==> |page.ids| == size)
  {
    hide PagePendingRest, RestWalk, ReservedWalk, Valid, Retained, PageReservedLead;
    var position := if cursor.Some? then cursor.value.position else None;
    if v.reserved == [] {
      assert Elements(v.reserved) == {};
      RestAdvances(v, position, size);
    } else if cursor.None? || cursor.value.phase == Reserved {
      LeadAdvances(v, position, size);
    } else {
      RestAdvances(v, position, size);
    }
  }

  /** A reader opens the first page and follows `next` until there is none; nothing changes meanwhile. */
  ghost predicate Followed(v: View, cursors: seq<Option<CursorState>>, size: nat) {
    && |cursors| > 1 && cursors[0].None? && cursors[|cursors| - 1].None?
    && (forall k :: 0 < k < |cursors| - 1 ==> cursors[k].Some?)
    && (forall k :: 0 <= k < |cursors| - 1 ==> cursors[k + 1] == PagePendingReservedFirst(v, cursors[k], size).next)
  }

  /** The ids of the pages from the k-th on. */
  ghost function ShownFrom(v: View, cursors: seq<Option<CursorState>>, k: nat, size: nat): seq<Id>
    requires k < |cursors|
    decreases |cursors| - k
  {
    if k == |cursors| - 1 then [] else PagePendingReservedFirst(v, cursors[k], size).ids + ShownFrom(v, cursors, k + 1, size)
  }

  lemma {:induction false} ShownIsRemaining(v: View, cursors: seq<Option<CursorState>>, k: nat, size: nat)
    requires Valid(v) && Retained(v) && size > 0 && Followed(v, cursors, size) && k < |cursors| - 1
    ensures ShownFrom(v, cursors, k, size) == Remaining(v, cursors[k])
    decreases |cursors| - k
  {
    PageAdvances(v, cursors[k], size);
    hide PagePendingReservedFirst, Remaining, Valid, Retained;
    if k + 1 < |cursors| - 1 {
      ShownIsRemaining(v, cursors, k + 1, size);
    } else {
      assert ShownFrom(v, cursors, k + 1, size) == [];
    }
  }

  /** Following the cursors shows the full list: every entry once, in order. */
  lemma FollowingCursorsShowsTheList(v: View, cursors: seq<Option<CursorState>>, size: nat)
    requires Valid(v) && Retained(v) && size > 0 && Followed(v, cursors, size)
    ensures ShownFrom(v, cursors, 0, size) == FullList(v)
  {
    ShownIsRemaining(v, cursors, 0, size);
  }

  /** The cursors do come to an end. */
  lemma {:induction false} CursorsEnd(v: View, cursor: Option<CursorState>, size: nat) returns (cursors: seq<Option<CursorState>>)
    requires Valid(v) && Retained(v) && size > 0
    ensures |cursors| > 1 && cursors[0] == cursor && cursors[|cursors| - 1].None?
    ensures forall k :: 0 < k < |cursors| - 1 ==> cursors[k].Some?
    ensures forall k :: 0 <= k < |cursors| - 1 ==> cursors[k + 1] == PagePendingReservedFirst(v, cursors[k], size).next
    decreases |Remaining(v, cursor)|
  {
    PageAdvances(v, cursor, size);
    hide PagePendingReservedFirst, Remaining, Valid, Retained;
    var next := PagePendingReservedFirst(v, cursor, size).next;
    if next.None? {
      cursors := [cursor, None];
    } else {
      var rest := CursorsEnd(v, next, size);
      cursors := [cursor] + rest;
    }
  }

  // ----- What the list contains -----

  lemma IdsMembers(t: seq<Entry>)
    ensures forall id :: id in Ids(t) <==> id in IdSet(t)
  {
    forall e | e in t
      ensures e.id in Ids(t)
    {
      var i :| 0 <= i < |t| && t[i] == e;
      assert Ids(t)[i] == e.id;
    }
    forall id | id in Ids(t)
      ensures id in IdSet(t)
    {
      var i :| 0 <= i < |Ids(t)| && Ids(t)[i] == id;
      assert t[i] in t;
    }
  }

  /** The rest consists of the other candidates with their scores, and of the delayed members by availability. */
  lemma RestMembers(v: View)
    requires Valid(v)
    ensures var exclude := Elements(v.reserved);
            && (forall e :: e in RestWalk(v, exclude) <==>
                  || (e in v.candidates && e.id !in exclude && e.id !in IdSet(Delayed(v.availability, exclude)))
                  || e in DelayedMembers(v, exclude))
            && DistinctIds(RestWalk(v, exclude))
  {
    var exclude := Elements(v.reserved);
    var d := Delayed(v.availability, exclude);
    var w := Walk(v.candidates, REVERSE);
    Streams(v, exclude);
    CandidateWalk(v);
    KeptAreMembers(w, exclude);
    KeptIsDistinct(w, exclude);
    DelayedMembersAreDistinct(v, exclude);
    var a, b := Kept(w, exclude + IdSet(d)), Sorted(DelayedMembers(v, exclude), REVERSE);
    MergeMembers(a, b);
    MergeIsOrdered(a, b);
    MergeIsDistinct(a, b);
  }

  lemma MergeIsDistinct(a: seq<Entry>, b: seq<Entry>)
    requires Ordered(a, REVERSE) && Ordered(b, REVERSE) && Apart(a, b) && DistinctIds(a) && DistinctIds(b)
    ensures DistinctIds(Merge(a, b))
  {
    DistinctConcat(a, b);
    SortedIsMerge(a, b);
    SortedIsDistinct(a + b);
  }

  /** Every candidate is to be listed; an unfiltered list also takes in the delayed jobs that the source retains. */
  ghost predicate Listed(v: View, id: Id) {
    || (exists e :: e in v.candidates && e.id == id)
    || (v.unfiltered && id !in v.reserved && id in v.source && exists e :: e in v.availability && e.id == id)
  }

  /** The list holds just the ids that are to be listed, and each of them once. */
  lemma FullListIsComplete(v: View)
    requires Valid(v) && Retained(v)
    ensures forall id :: id in FullList(v) <==> Listed(v, id)
    ensures forall i, j :: 0 <= i < j < |FullList(v)| ==> FullList(v)[i] != FullList(v)[j]
  {
    var exclude := Elements(v.reserved);
    var lead, rest := ReservedWalk(v), RestWalk(v, exclude);
    assert v.reserved == [] ==> exclude == {};
    ReservedWalkIsOrdered(v);
    RestMembers(v);
    DelayedMembersAreDistinct(v, exclude);
    IdsMembers(lead);
    IdsMembers(rest);
    forall id | Listed(v, id)
      ensures id in FullList(v)
    {
      if e :| e in v.candidates && e.id == id {
        CandidateIsListed(v, e);
      } else {
        var e :| e in v.availability && e.id == id;
        DelayedIsListed(v, e);
      }
    }
    forall id | id in FullList(v)
      ensures Listed(v, id)
    {
      ListedIsCandidate(v, id);
    }
    DistinctApart(v);
  }

  lemma DelayedIsListed(v: View, e: Entry)
    requires Valid(v) && e in v.availability && e.id !in v.reserved && e.id in v.source && v.unfiltered
    ensures e.id in FullList(v)
  {
    var exclude := Elements(v.reserved);
    assert v.reserved == [] ==> exclude == {};
    var f := Entry(-e.score, e.id);
    IdsMembers(RestWalk(v, exclude));
    RestMembers(v);
    DelayedMembersAreDistinct(v, exclude);
    DelayedHas(v.availability, exclude, f);
    hide RestWalk, Delayed, DelayedMembers, Valid, ReservedWalk, Elements;
    assert f in RestWalk(v, exclude);
    assert f.id in IdSet(RestWalk(v, exclude));
  }

  lemma CandidateIsListed(v: View, e: Entry)
    requires Valid(v) && Retained(v) && e in v.candidates
    ensures e.id in FullList(v)
  {
    var exclude := Elements(v.reserved);
    assert v.reserved == [] ==> exclude == {};
    IdsMembers(ReservedWalk(v));
    IdsMembers(RestWalk(v, exclude));
    if e.id in v.reserved {
      ReservedWalkIsOrdered(v);
      assert e in ReservedWalk(v);
    } else {
      RestMembers(v);
      RetainedIs(v);
      var d := Delayed(v.availability, exclude);
      if e.id in IdSet(d) {
        var f :| f in d && f.id == e.id;
        DelayedMembersAreDistinct(v, exclude);
        assert f in RestWalk(v, exclude);
      } else {
        assert e in RestWalk(v, exclude);
      }
    }
  }

  lemma ListedIsCandidate(v: View, id: Id)
    requires Valid(v) && id in FullList(v)
    ensures Listed(v, id)
  {
    var exclude := Elements(v.reserved);
    assert v.reserved == [] ==> exclude == {};
    IdsMembers(ReservedWalk(v));
    IdsMembers(RestWalk(v, exclude));
    ReservedWalkIsOrdered(v);
    RestMembers(v);
    DelayedMembersAreDistinct(v, exclude);
    hide RestWalk, Delayed, DelayedMembers, Valid, ReservedWalk;
    if v.reserved != [] && id in IdSet(ReservedWalk(v)) {
      var e :| e in ReservedWalk(v) && e.id == id;
    } else {
      var e :| e in RestWalk(v, exclude) && e.id == id;
      DelayedHas(v.availability, exclude, e);
      if e !in v.candidates && v.unfiltered {
        assert Entry(-e.score, e.id) in v.availability;
      }
    }
  }

  lemma DistinctApart(v: View)
    requires Valid(v)
    ensures forall i, j :: 0 <= i < j < |FullList(v)| ==> FullList(v)[i] != FullList(v)[j]
  {
    var exclude := Elements(v.reserved);
    assert v.reserved == [] ==> exclude == {};
    ReservedWalkIsOrdered(v);
    RestMembers(v);
    DelayedMembersAreDistinct(v, exclude);
    var lead, rest := ReservedWalk(v), RestWalk(v, exclude);
    forall e, f | e in lead && f in rest
      ensures e.id != f.id
    {
      assert e.id in exclude;
      assert f in v.candidates || f in DelayedMembers(v, exclude);
    }
    hide ReservedWalk, RestWalk, Valid, DelayedMembers;
    DistinctConcat(lead, rest);
    IdsConcat(lead, rest);
    if v.reserved != [] {
      assert FullList(v) == Ids(lead + rest);
    } else {
      assert FullList(v) == Ids(rest);
    }
  }

  // ----- The order of the list -----

  /**
    What a job is ordered by: a job that is delayed and not reserved by its availability, as a score,
    and every other one by its score as a candidate.
  */
  ghost predicate Place(v: View, id: Id, key: Score) {
    if id !in v.reserved && exists e :: e in v.availability && e.id == id
    then Entry(-key, id) in v.availability
    else Entry(key, id) in v.candidates
  }

  lemma PlaceIsUnique(v: View, id: Id, k: Score, l: Score)
    requires Valid(v) && Place(v, id, k) && Place(v, id, l)
    ensures k == l
  {
    if id !in v.reserved && exists e :: e in v.availability && e.id == id {
      SameEntry(v.availability, Entry(-k, id), Entry(-l, id));
    } else {
      SameEntry(v.candidates, Entry(k, id), Entry(l, id));
    }
  }

  lemma SameEntry(t: seq<Entry>, e: Entry, f: Entry)
    requires DistinctIds(t) && e in t && f in t && e.id == f.id
    ensures e == f
  {
    var i :| 0 <= i < |t| && t[i] == e;
    var j :| 0 <= j < |t| && t[j] == f;
    assert i == j;
  }

  /** Reserved jobs come first; among the reserved ones and among the others the higher key does, then the higher id. */
  ghost predicate InFront(v: View, a: Id, b: Id) {
    && (b in v.reserved ==> a in v.reserved)
    && ((a in v.reserved <==> b in v.reserved) ==>
          exists k, l :: Place(v, a, k) && Place(v, b, l) && (k > l || (k == l && a > b)))
  }

  ghost predicate InOrder(v: View, ids: seq<Id>) {
    forall i, j :: 0 <= i < j < |ids| ==> InFront(v, ids[i], ids[j])
  }

  /** The entries of the list stand at their places. */
  lemma EntriesHavePlaces(v: View)
    requires Valid(v)
    ensures forall e :: e in ReservedWalk(v) ==> e.id in v.reserved && Place(v, e.id, e.score)
    ensures forall e :: e in RestWalk(v, Elements(v.reserved)) ==> e.id !in v.reserved && Place(v, e.id, e.score)
  {
    hide *;
    ReservedWalkIsOrdered(v);
    forall e | e in ReservedWalk(v)
      ensures Place(v, e.id, e.score)
    {
      CandidateHasPlace(v, e);
    }
    forall e | e in RestWalk(v, Elements(v.reserved))
      ensures e.id !in v.reserved && Place(v, e.id, e.score)
    {
      RestHasPlace(v, e);
    }
  }

  lemma CandidateHasPlace(v: View, e: Entry)
    requires e in v.candidates && (e.id in v.reserved || forall f :: f in v.availability ==> f.id != e.id)
    ensures Place(v, e.id, e.score)
  {
  }

  lemma DelayedHasPlace(v: View, e: Entry)
    requires Entry(-e.score, e.id) in v.availability && e.id !in v.reserved
    ensures Place(v, e.id, e.score)
  {
  }

  lemma RestHasPlace(v: View, e: Entry)
    requires Valid(v) && e in RestWalk(v, Elements(v.reserved))
    ensures e.id !in v.reserved && Place(v, e.id, e.score)
  {
    hide RestWalk, Delayed, DelayedMembers, Valid, Place;
    var exclude := Elements(v.reserved);
    RestMembers(v);
    DelayedMembersAreDistinct(v, exclude);
    DelayedHas(v.availability, exclude, e);
    if e in DelayedMembers(v, exclude) {
      DelayedHasPlace(v, e);
    } else {
      forall f | f in v.availability
        ensures f.id != e.id
      {
        DelayedHas(v.availability, exclude, Entry(-f.score, f.id));
      }
      CandidateHasPlace(v, e);
    }
  }

  lemma WalkIsInOrder(v: View, t: seq<Entry>)
    requires Ordered(t, REVERSE)
    requires forall e :: e in t ==> Place(v, e.id, e.score)
    requires forall e, f :: e in t && f in t ==> (e.id in v.reserved <==> f.id in v.reserved)
    ensures InOrder(v, Ids(t))
  {
    hide Place;
    forall i, j | 0 <= i < j < |t|
      ensures InFront(v, Ids(t)[i], Ids(t)[j])
    {
      assert t[i] in t && t[j] in t && Before(t[i], t[j], REVERSE);
    }
  }

  /** The list is in order, whatever the candidates, the source, the reserved and the delayed jobs are. */
  lemma FullListIsInOrder(v: View)
    requires Valid(v)
    ensures InOrder(v, FullList(v))
  {
    var exclude := Elements(v.reserved);
    assert v.reserved == [] ==> exclude == {};
    var lead, rest := ReservedWalk(v), RestWalk(v, exclude);
    ReservedWalkIsOrdered(v);
    RestWalkIsOrdered(v, exclude);
    EntriesHavePlaces(v);
    hide ReservedWalk, RestWalk, Place, Valid, Ordered;
    WalkIsInOrder(v, lead);
    WalkIsInOrder(v, rest);
    assert forall i :: 0 <= i < |lead| ==> lead[i] in lead;
    assert forall i :: 0 <= i < |rest| ==> rest[i] in rest;
  }

  /** The job lies beyond a cursor position. */
  ghost predicate Past(v: View, position: Option<Position>, id: Id) {
    position.None? || exists k :: Place(v, id, k) && (k < position.value.score || (k == position.value.score && id < position.value.id))
  }

  /** What a cursor has left: in the reserved phase it points into the reserved jobs, else into the others. */
  ghost predicate Ahead(v: View, cursor: Option<CursorState>, id: Id) {
    var position := if cursor.Some? then cursor.value.position else None;
    if v.reserved != [] && (cursor.None? || cursor.value.phase == Reserved)
    then id !in v.reserved || Past(v, position, id)
    else id !in v.reserved && Past(v, position, id)
  }

  lemma BeyondIsPast(v: View, t: seq<Entry>, position: Option<Position>, id: Id)
    requires Valid(v) && Ordered(t, REVERSE) && forall e :: e in t ==> Place(v, e.id, e.score)
    ensures id in Ids(Beyond(t, position, REVERSE)) <==> id in Ids(t) && Past(v, position, id)
  {
    var left := Beyond(t, position, REVERSE);
    IdsMembers(t);
    IdsMembers(left);
    assert forall e :: e in left ==> e in t;
    hide Beyond, Ordered, Valid, Place;
    forall e | e in t
      ensures e in left <==> Past(v, position, e.id)
    {
      BeyondCovers(t, position, e, REVERSE);
      forall k | Place(v, e.id, k)
        ensures k == e.score
      {
        PlaceIsUnique(v, e.id, k, e.score);
      }
    }
  }

  /** A cursor leaves the listed jobs that lie ahead of it. */
  lemma RemainingIsAhead(v: View, cursor: Option<CursorState>)
    requires Valid(v)
    ensures forall id :: id in Remaining(v, cursor) <==> id in FullList(v) && Ahead(v, cursor, id)
  {
    var exclude := Elements(v.reserved);
    assert v.reserved == [] ==> exclude == {};
    hide ReservedWalk, RestWalk, Valid, Ordered, Place, Past, Beyond, Ids, Elements;
    var position := if cursor.Some? then cursor.value.position else None;
    var lead, rest := ReservedWalk(v), RestWalk(v, exclude);
    ReservedWalkIsOrdered(v);
    RestWalkIsOrdered(v, exclude);
    EntriesHavePlaces(v);
    IdsMembers(lead);
    IdsMembers(rest);
    forall id
      ensures id in Ids(Beyond(lead, position, REVERSE)) <==> id in Ids(lead) && Past(v, position, id)
      ensures id in Ids(Beyond(rest, position, REVERSE)) <==> id in Ids(rest) && Past(v, position, id)
    {
      BeyondIsPast(v, lead, position, id);
      BeyondIsPast(v, rest, position, id);
    }
  }

  /** And what it leaves is a tail of the list. */
  lemma RemainingIsATail(v: View, cursor: Option<CursorState>) returns (from: nat)
    ensures from <= |FullList(v)| && Remaining(v, cursor) == FullList(v)[from..]
  {
    hide ReservedWalk, RestWalk, Elements;
    from := |FullList(v)| - |Remaining(v, cursor)|;
  }

  /**
    The page that belongs behind a cursor: jobs to be listed that lie ahead of it, in order, and in front
    of whatever else lies ahead; its own cursor leaves just the others, and without one there are none.
  */
  ghost predicate NextInOrder(v: View, cursor: Option<CursorState>, size: nat, page: ListPage) {
    && InOrder(v, page.ids) && NoRepeats(page.ids) && |page.ids| <= size
    && (forall id :: id in page.ids ==> Listed(v, id) && Ahead(v, cursor, id))
    && (forall a, b :: a in page.ids && Listed(v, b) && Ahead(v, cursor, b) && b !in page.ids ==> InFront(v, a, b))
    && (page.next.None? ==> forall id :: Listed(v, id) && Ahead(v, cursor, id) ==> id in page.ids)
    && (page.next.Some? ==> |page.ids| == size)
    && (page.next.Some? ==> forall id :: Listed(v, id) ==> (Ahead(v, page.next, id) <==> Ahead(v, cursor, id) && id !in page.ids))
  }

  /** Every page, from any cursor, shows the next jobs in order and leaves the others. */
  lemma PageIsNextInOrder(v: View, cursor: Option<CursorState>, size: nat)
    requires Valid(v) && Retained(v) && size > 0
    ensures NextInOrder(v, cursor, size, PagePendingReservedFirst(v, cursor, size))
  {
    hide PagePendingReservedFirst, Remaining, Valid, Retained, FullList, InFront, Ahead, Listed;
    var page, list, left := PagePendingReservedFirst(v, cursor, size), FullList(v), Remaining(v, cursor);
    PageAdvances(v, cursor, size);
    FullListIsInOrder(v);
    FullListIsComplete(v);
    RemainingIsAhead(v, cursor);
    RemainingIsAhead(v, page.next);
    var from := RemainingIsATail(v, cursor);
    TailSplits(v, list, from, page.ids, if page.next.Some? then Remaining(v, page.next) else []);
  }

  /** What heads a tail of a list in order is in order, and in front of the rest of that tail. */
  lemma TailSplits(v: View, list: seq<Id>, from: nat, head: seq<Id>, rest: seq<Id>)
    requires InOrder(v, list) && NoRepeats(list) && from <= |list| && list[from..] == head + rest
    ensures InOrder(v, head) && NoRepeats(head)
    ensures forall b :: b in rest <==> b in list[from..] && b !in head
    ensures forall a, b :: a in head && b in rest ==> InFront(v, a, b)
  {
    hide InFront;
    var left := head + rest;
    assert forall i :: 0 <= i < |left| ==> left[i] == list[from + i];
    assert forall i :: 0 <= i < |head| ==> head[i] == left[i];
    assert forall i :: 0 <= i < |rest| ==> rest[i] == left[|head| + i];
    forall a, b | a in head && b in rest
      ensures InFront(v, a, b) && a != b
    {
      var i :| 0 <= i < |head| && head[i] == a;
      var j :| 0 <= j < |rest| && rest[j] == b;
      assert left[i] == a && left[|head| + j] == b;
    }
  }

  // ----- When the published list is complete -----

  /** A live list never has to merge what the source has dropped. */
  lemma LiveListsAreRetained(v: View)
    requires Valid(v) && !v.published
    ensures Retained(v)
  {
  }

  lemma {:induction false} SortedMembers(t: seq<Entry>)
    ensures forall e :: e in Sorted(t, REVERSE) ==> e in t
    decreases |t|
  {
    if t != [] {
      SortedMembers(t[1..]);
      InsertedMembers(Sorted(t[1..], REVERSE), t[0]);
    }
  }

  lemma {:induction false} InsertedMembers(t: seq<Entry>, e: Entry)
    ensures forall f :: f in Inserted(t, e, REVERSE) ==> f == e || f in t
    decreases |t|
  {
    if t != [] && !Before(e, t[0], REVERSE) {
      InsertedMembers(t[1..], e);
    }
  }

  lemma {:induction false} ScoredAreRetained(ids: seq<Id>, source: map<Id, Score>)
    ensures forall e :: e in Scored(ids, source) ==> e.id in source
    decreases |ids|
  {
    if ids != [] {
      ScoredAreRetained(ids[1..], source);
    }
  }

  /** A merged page shows only what the source retains. */
  lemma MergedPageIsRetained(v: View, exclude: set<Id>, after: Option<Position>, limit: nat, id: Id)
    requires Delayed(v.availability, exclude) != [] && id in PagePendingRest(v, exclude, after, limit).ids
    ensures id in v.source
  {
    var d := Delayed(v.availability, exclude);
    var nonDelayed := PageExcluding(v, exclude + IdSet(d), after, limit + 1);
    var a := Scored(nonDelayed.ids, v.source);
    var b := DelayedRows(v, exclude, after, limit + 1);
    ScoredAreRetained(nonDelayed.ids, v.source);
    SortedMembers(DelayedMembers(v, exclude));
    WithinMembers(d, v.source.Keys);
    WithinMembers(Within(d, v.source.Keys), IdSet(v.candidates));
    SortedMembers(a + b);
    var pairs := Sorted(a + b, REVERSE);
    IdsMembers(Take(pairs, limit));
    var e :| e in Take(pairs, limit) && e.id == id;
    assert e in pairs;
    if e in b {
      assert e in Beyond(Sorted(DelayedMembers(v, exclude), REVERSE), after, REVERSE);
    }
  }

  /** With delayed jobs about, no page shows an unreserved id that the source has dropped. */
  lemma PageIsRetained(v: View, cursor: Option<CursorState>, size: nat, id: Id)
    requires Valid(v) && Delayed(v.availability, Elements(v.reserved)) != []
    requires id in PagePendingReservedFirst(v, cursor, size).ids
    ensures id in v.reserved || id in v.source
  {
    assert v.reserved == [] ==> Elements(v.reserved) == {};
    hide Elements, Ordered, DistinctIds, Valid;
    var exclude := Elements(v.reserved);
    var position := if cursor.Some? then cursor.value.position else None;
    var lead := PageOf(ReservedWalk(v), position, size, REVERSE);
    if v.reserved != [] && (cursor.None? || cursor.value.phase == Reserved) {
      ReservedWalkIsOrdered(v);
      IdsMembers(Take(Beyond(ReservedWalk(v), position, REVERSE), size));
      if id in lead.ids {
        var e :| e in Take(Beyond(ReservedWalk(v), position, REVERSE), size) && e.id == id;
        assert e in Beyond(ReservedWalk(v), position, REVERSE);
        assert e in ReservedWalk(v);
      } else {
        MergedPageIsRetained(v, exclude, None, size - |lead.ids|, id);
      }
    } else {
      MergedPageIsRetained(v, exclude, position, size, id);
    }
  }

  lemma {:induction false} DroppedIsNeverShown(v: View, cursors: seq<Option<CursorState>>, k: nat, size: nat, id: Id)
    requires Valid(v) && Delayed(v.availability, Elements(v.reserved)) != [] && k < |cursors|
    requires id !in v.reserved && id !in v.source
    ensures id !in ShownFrom(v, cursors, k, size)
    decreases |cursors| - k
  {
    if k < |cursors| - 1 {
      DroppedIsNeverShown(v, cursors, k + 1, size, id);
      if id in PagePendingReservedFirst(v, cursors[k], size).ids {
        PageIsRetained(v, cursors[k], size, id);
        assert false;
      }
    }
  }

  /**
    Following the cursors shows every candidate exactly when no merge meets a candidate that
    the source has dropped; a live list always meets the condition, a published one need not.
  */
  lemma FollowingCursorsIsCompleteExactlyWhenRetained(v: View, cursors: seq<Option<CursorState>>, size: nat)
    requires Valid(v) && size > 0 && Followed(v, cursors, size)
    ensures (forall e :: e in v.candidates ==> e.id in ShownFrom(v, cursors, 0, size)) <==> Retained(v)
  {
    if Retained(v) {
      FollowingCursorsShowsTheList(v, cursors, size);
      FullListIsComplete(v);
    } else {
      RetainedIs(v);
      var e :| e in v.candidates && e.id !in v.reserved && e.id !in v.source;
      DroppedIsNeverShown(v, cursors, 0, size, e.id);
    }
  }

  /**
    What goes wrong is more than the dropped ids: two of them at the head of a published list
    end it before a job that the source still retains, as soon as any job is delayed.
  */
  lemma DroppedIdsEndThePublishedList() returns (v: View, cursors: seq<Option<CursorState>>)
    ensures Valid(v) && Followed(v, cursors, 1)
    ensures Entry(1.0, 3) in v.candidates && 3 in v.source && 3 !in ShownFrom(v, cursors, 0, 1)
  {
    v := View([Entry(1.0, 3), Entry(2.0, 2), Entry(3.0, 1)], map[3 := 1.0], [], [Entry(0.0, 9)], true, true);
    cursors := [None, None];
    assert v.candidates[0] in v.candidates;
    DroppedViewIsValid(v);
    DroppedHeadPage(v);
    hide *;
    NothingShown(v, cursors);
    assert 3 !in ShownFrom(v, cursors, 0, 1);
  }

  lemma DroppedViewIsValid(v: View)
    requires v == View([Entry(1.0, 3), Entry(2.0, 2), Entry(3.0, 1)], map[3 := 1.0], [], [Entry(0.0, 9)], true, true)
    ensures Valid(v)
  {
  }

  lemma NothingShown(v: View, cursors: seq<Option<CursorState>>)
    requires v.reserved == [] && cursors == [None, None]
    requires PagePendingRest(v, {}, None, 1).ids == [] && PagePendingRest(v, {}, None, 1).next.None?
    ensures Followed(v, cursors, 1) && ShownFrom(v, cursors, 0, 1) == []
  {
    hide PagePendingRest;
    assert PagePendingReservedFirst(v, None, 1) == ListPage([], None);
    hide PagePendingReservedFirst;
    assert ShownFrom(v, cursors, 1, 1) == [];
  }

  /** A merged page is empty, and the last one, when the source retains neither its candidates nor any delayed job. */
  lemma NothingToMerge(v: View, limit: nat)
    requires limit > 0 && Delayed(v.availability, {}) != [] && DelayedMembers(v, {}) == []
    requires Scored(PageExcluding(v, {} + IdSet(Delayed(v.availability, {})), None, limit + 1).ids, v.source) == []
    ensures PagePendingRest(v, {}, None, limit).ids == [] && PagePendingRest(v, {}, None, limit).next.None?
  {
    hide PageExcluding, DelayedMembers, Delayed, Scored, IdSet;
    assert DelayedRows(v, {}, None, limit + 1) == [];
  }

  lemma DroppedHeadPage(v: View)
    requires v == View([Entry(1.0, 3), Entry(2.0, 2), Entry(3.0, 1)], map[3 := 1.0], [], [Entry(0.0, 9)], true, true)
    ensures PagePendingRest(v, {}, None, 1).ids == [] && PagePendingRest(v, {}, None, 1).next.None?
  {
    var soon := [Entry(0.0, 9)];
    assert Delayed(soon, {}) == soon by {
      assert soon[1..] == [];
    }
    assert IdSet(soon) == {9};
    assert {} + IdSet(soon) == {9};
    hide IdSet;
    DroppedWalk(v);
    assert Within(soon, v.source.Keys) == [] by {
      assert soon[1..] == [];
    }
    hide Delayed, PageExcluding;
    NothingToMerge(v, 1);
  }

  lemma DroppedWalk(v: View)
    requires v == View([Entry(1.0, 3), Entry(2.0, 2), Entry(3.0, 1)], map[3 := 1.0], [], [Entry(0.0, 9)], true, true)
    ensures Scored(PageExcluding(v, {9}, None, 2).ids, v.source) == []
  {
    var w := [Entry(3.0, 1), Entry(2.0, 2), Entry(1.0, 3)];
    assert Walk(v.candidates, REVERSE) == w;
    KeptAll(w, {9});
    hide Kept, Walk, Scored;
    assert PageExcluding(v, {9}, None, 2).ids == Ids(Take(w, 2));
    assert Ids(Take(w, 2)) == [1, 2];
    hide PageExcluding, Ids, Take;
    ScoredNothing(v);
  }

  lemma ScoredNothing(v: View)
    requires v.source == map[3 := 1.0]
    ensures Scored([1, 2], v.source) == []
  {
    assert [1, 2][1..] == [2] && [2][1..] == [];
    assert Scored([2], v.source) == [];
  }

  lemma {:induction false} KeptAll(t: seq<Entry>, exclude: set<Id>)
    requires forall e :: e in t ==> e.id !in exclude
    ensures Kept(t, exclude) == t
    decreases |t|
  {
    if t != [] {
      assert t[0] in t;
      KeptAll(t[1..], exclude);
    }
  }
}
