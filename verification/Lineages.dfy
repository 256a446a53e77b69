/**
  Retry lineages of a batch's failed jobs. Retained jobs and the jobs they were retried from
  or retried as form an undirected graph; each connected component becomes at most one row.
*/
module Lineages {
  import opened Collections

  type Id = string

  datatype Retry = Retry(id: Id, status: string)

  /** A retained failed job; an empty `retryOf` or retry id names no job. */
  datatype Job = Job(id: Id, attempts: int, failedAt: real, index: int, retryOf: Id, retries: seq<Retry>)

  datatype Row = Row(job: Job, attempts: nat, attemptsComplete: bool)

  // ----- The graph that the jobs describe -----

  function References(j: Job): set<Id> {
    (if j.retryOf != "" then {j.retryOf} else {}) + set r | r in j.retries && r.id != "" :: r.id
  }

  ghost predicate Links(j: Job, x: Id, y: Id) {
    j.id != "" && ((x == j.id && y in References(j)) || (y == j.id && x in References(j)))
  }

  ghost predicate Linked(jobs: seq<Job>, x: Id, y: Id) {
    exists j :: j in jobs && Links(j, x, y)
  }

  /** An id that the jobs know of: retained, or referred to by a retained job. */
  ghost predicate Mentioned(jobs: seq<Job>, x: Id) {
    exists j :: j in jobs && j.id != "" && (x == j.id || x in References(j))
  }

  ghost predicate IsPath(jobs: seq<Job>, p: seq<Id>) {
    p != [] && forall i :: 0 <= i < |p| - 1 ==> Linked(jobs, p[i], p[i + 1])
  }

  ghost predicate Connected(jobs: seq<Job>, a: Id, b: Id) {
    exists p :: IsPath(jobs, p) && p[0] == a && p[|p| - 1] == b
  }

  ghost predicate Closed(jobs: seq<Job>, ids: set<Id>) {
    forall x, y :: x in ids && Linked(jobs, x, y) ==> y in ids
  }

  lemma ConnectedToItself(jobs: seq<Job>, a: Id)
    ensures Connected(jobs, a, a)
  {
    assert IsPath(jobs, [a]);
  }

  lemma ConnectedFurther(jobs: seq<Job>, a: Id, b: Id, c: Id)
    requires Connected(jobs, a, b) && Linked(jobs, b, c)
    ensures Connected(jobs, a, c)
  {
    hide Linked;
    var p :| IsPath(jobs, p) && p[0] == a && p[|p| - 1] == b;
    assert IsPath(jobs, p + [c]);
  }

  lemma LinkedBack(jobs: seq<Job>, x: Id, y: Id)
    requires Linked(jobs, x, y)
    ensures Linked(jobs, y, x)
  {
    var j :| j in jobs && Links(j, x, y);
    assert Links(j, y, x);
  }

  lemma {:induction false} ConnectedBack(jobs: seq<Job>, a: Id, b: Id)
    requires Connected(jobs, a, b)
    ensures Connected(jobs, b, a)
  {
    hide Linked;
    var p :| IsPath(jobs, p) && p[0] == a && p[|p| - 1] == b;
    var q := seq(|p|, i requires 0 <= i < |p| => p[|p| - 1 - i]);
    forall i | 0 <= i < |q| - 1
      ensures Linked(jobs, q[i], q[i + 1])
    {
      LinkedBack(jobs, p[|p| - 2 - i], p[|p| - 1 - i]);
    }
    assert IsPath(jobs, q);
  }

  lemma ConnectedThrough(jobs: seq<Job>, a: Id, b: Id, c: Id)
    requires Connected(jobs, a, b) && Connected(jobs, b, c)
    ensures Connected(jobs, a, c)
  {
    hide Linked;
    var p :| IsPath(jobs, p) && p[0] == a && p[|p| - 1] == b;
    var q :| IsPath(jobs, q) && q[0] == b && q[|q| - 1] == c;
    var r := p + q[1..];
    forall i | 0 <= i < |r| - 1
      ensures Linked(jobs, r[i], r[i + 1])
    {
      if i >= |p| - 1 {
        assert r[i] == q[i - |p| + 1] && r[i + 1] == q[i - |p| + 2];
      }
    }
    assert IsPath(jobs, r);
  }

  lemma {:induction false} PathStays(jobs: seq<Job>, ids: set<Id>, p: seq<Id>)
    requires Closed(jobs, ids) && IsPath(jobs, p) && p[0] in ids
    ensures p[|p| - 1] in ids
    decreases |p|
  {
    if |p| > 1 {
      assert Linked(jobs, p[0], p[1]);
      assert IsPath(jobs, p[1..]);
      PathStays(jobs, ids, p[1..]);
    }
  }

  lemma ClosedHoldsConnected(jobs: seq<Job>, ids: set<Id>, a: Id, b: Id)
    requires Closed(jobs, ids) && a in ids && Connected(jobs, a, b)
    ensures b in ids
  {
    var p :| IsPath(jobs, p) && p[0] == a && p[|p| - 1] == b;
    PathStays(jobs, ids, p);
  }

  // ----- Building the graph -----

  /** The neighbours of each id, each listed once. */
  type Adjacency = map<Id, seq<Id>>

  predicate Edge(adjacency: Adjacency, x: Id, y: Id) {
    x in adjacency && y in adjacency[x]
  }

  function Neighbour(adjacency: Adjacency, x: Id, y: Id): Adjacency
    requires x in adjacency
  {
    if y in adjacency[x] then adjacency else adjacency[x := adjacency[x] + [y]]
  }

  function Known(adjacency: Adjacency, x: Id): Adjacency {
    if x in adjacency then adjacency else adjacency[x := []]
  }

  function Connect(adjacency: Adjacency, left: Id, right: Id): (r: Adjacency)
    ensures r.Keys == adjacency.Keys + {left, right}
    ensures forall x, y :: Edge(r, x, y) <==> Edge(adjacency, x, y) || (x == left && y == right) || (x == right && y == left)
  {
    Neighbour(Neighbour(Known(Known(adjacency, left), right), left, right), right, left)
  }

  ghost predicate IsGraph(jobs: seq<Job>, adjacency: Adjacency) {
    && (forall x :: x in adjacency <==> Mentioned(jobs, x))
    && (forall x, y :: Edge(adjacency, x, y) <==> Linked(jobs, x, y))
  }

  /** Retained jobs by id; a later job replaces an earlier one of the same id. */
  ghost predicate IsNodes(jobs: seq<Job>, nodes: map<Id, Job>) {
    && (forall j :: j in jobs && j.id != "" ==> j.id in nodes)
    && (forall id :: id in nodes ==> nodes[id] in jobs && nodes[id].id == id != "")
  }

  ghost predicate Reported(jobs: seq<Job>, x: Id, status: string) {
    exists j :: j in jobs && j.id != "" && x != "" && Retry(x, status) in j.retries
  }

  ghost predicate RetriedFrom(jobs: seq<Job>, x: Id) {
    exists j :: j in jobs && j.id != "" && j.retryOf == x != ""
  }

  /** A reported status, or a failed job when an id is only known as the origin of a retry. */
  ghost predicate IsStatuses(jobs: seq<Job>, statuses: map<Id, string>) {
    && (forall x, v :: Reported(jobs, x, v) ==> x in statuses)
    && (forall x :: RetriedFrom(jobs, x) ==> x in statuses)
    && (forall x :: x in statuses ==>
          || Reported(jobs, x, statuses[x])
          || (statuses[x] == "failed" && RetriedFrom(jobs, x) && forall v :: !Reported(jobs, x, v)))
  }

  ghost predicate ReportedBy(j: Job, x: Id, status: string) {
    x != "" && Retry(x, status) in j.retries
  }

  /** One job's references: its own reports win, an origin without a status counts as failed. */
  ghost predicate StatusesAfter(j: Job, before: map<Id, string>, after: map<Id, string>) {
    && (forall x, v :: ReportedBy(j, x, v) ==> x in after && ReportedBy(j, x, after[x]))
    && (forall x :: (forall v :: !ReportedBy(j, x, v)) ==>
          if x == j.retryOf != "" && x !in before then x in after && after[x] == "failed"
          else (x in after <==> x in before) && (x in before ==> after[x] == before[x]))
  }

  method AddReferences(j: Job, adjacency: Adjacency, statuses: map<Id, string>)
    returns (adjacency': Adjacency, statuses': map<Id, string>)
    requires j.id != ""
    ensures adjacency'.Keys == adjacency.Keys + {j.id} + References(j)
    ensures forall x, y :: Edge(adjacency', x, y) <==> Edge(adjacency, x, y) || Links(j, x, y)
    ensures StatusesAfter(j, statuses, statuses')
  {
    hide Connect, Known, Joined, Noted, Links, StatusesAfter;
    adjacency', statuses' := Known(adjacency, j.id), statuses;
    JoinedNone(j.id, adjacency);
    if j.retryOf != "" {
      JoinedMore(j.id, {}, adjacency, adjacency', j.retryOf);
      adjacency' := Connect(adjacency', j.id, j.retryOf);
      if j.retryOf !in statuses' {
        statuses' := statuses'[j.retryOf := "failed"];
      }
    }
    ghost var origin := if j.retryOf != "" then {j.retryOf} else {};
    assert {} + {j.retryOf} == {j.retryOf};
    ghost var reported: set<Id> := {};
    NotedNone(j, statuses);
    assert origin + reported == origin;
    for i := 0 to |j.retries|
      invariant reported == Named(j.retries[..i])
      invariant Joined(j.id, origin + reported, adjacency, adjacency')
      invariant Noted(j, reported, statuses, statuses')
    {
      var retry := j.retries[i];
      assert j.retries[..i + 1] == j.retries[..i] + [retry];
      NamedMore(j.retries[..i], retry);
      if retry.id != "" {
        JoinedMore(j.id, origin + reported, adjacency, adjacency', retry.id);
        NotedMore(j, reported, statuses, statuses', retry);
        adjacency' := Connect(adjacency', j.id, retry.id);
        statuses' := statuses'[retry.id := retry.status];
        assert origin + reported + {retry.id} == origin + (reported + {retry.id});
        reported := reported + {retry.id};
      }
    }
    assert j.retries[..|j.retries|] == j.retries;
    JoinedAll(j, adjacency, adjacency');
    NotedAll(j, statuses, statuses');
  }

  function Named(retries: seq<Retry>): set<Id> {
    set r | r in retries && r.id != "" :: r.id
  }

  lemma NamedMore(retries: seq<Retry>, r: Retry)
    ensures Named(retries + [r]) == Named(retries) + if r.id != "" then {r.id} else {}
  {
  }

  ghost predicate Joined(id: Id, refs: set<Id>, a: Adjacency, b: Adjacency) {
    && b.Keys == a.Keys + {id} + refs
    && forall x, y :: Edge(b, x, y) <==> Edge(a, x, y) || (x == id && y in refs) || (y == id && x in refs)
  }

  lemma JoinedNone(id: Id, a: Adjacency)
    ensures Joined(id, {}, a, Known(a, id))
  {
  }

  lemma JoinedMore(id: Id, refs: set<Id>, a: Adjacency, b: Adjacency, r: Id)
    requires Joined(id, refs, a, b)
    ensures Joined(id, refs + {r}, a, Connect(b, id, r))
  {
    hide Connect, Edge;
  }

  lemma JoinedAll(j: Job, a: Adjacency, b: Adjacency)
    requires j.id != "" && Joined(j.id, (if j.retryOf != "" then {j.retryOf} else {}) + Named(j.retries), a, b)
    ensures b.Keys == a.Keys + {j.id} + References(j)
    ensures forall x, y :: Edge(b, x, y) <==> Edge(a, x, y) || Links(j, x, y)
  {
    hide Edge;
    assert References(j) == (if j.retryOf != "" then {j.retryOf} else {}) + Named(j.retries);
  }

  /** Of the job's reports, those about `reported` are noted; its origin is. */
  ghost predicate Noted(j: Job, reported: set<Id>, before: map<Id, string>, after: map<Id, string>) {
    && (forall x :: x in reported ==> x in after && ReportedBy(j, x, after[x]))
    && (forall x :: x !in reported ==>
          if x == j.retryOf != "" && x !in before then x in after && after[x] == "failed"
          else (x in after <==> x in before) && (x in before ==> after[x] == before[x]))
  }

  lemma NotedNone(j: Job, before: map<Id, string>)
    ensures Noted(j, {}, before, if j.retryOf != "" && j.retryOf !in before then before[j.retryOf := "failed"] else before)
  {
  }

  lemma NotedMore(j: Job, reported: set<Id>, before: map<Id, string>, after: map<Id, string>, r: Retry)
    requires Noted(j, reported, before, after) && r in j.retries && r.id != ""
    ensures Noted(j, reported + {r.id}, before, after[r.id := r.status])
  {
    assert Retry(r.id, r.status) == r;
  }

  lemma NotedAll(j: Job, before: map<Id, string>, after: map<Id, string>)
    requires Noted(j, Named(j.retries), before, after)
    ensures StatusesAfter(j, before, after)
  {
    forall x, v | ReportedBy(j, x, v)
      ensures x in Named(j.retries)
    {
      assert Retry(x, v).id == x;
    }
    forall x | x in Named(j.retries)
      ensures exists v :: ReportedBy(j, x, v)
    {
      assert ReportedBy(j, x, after[x]);
    }
    hide ReportedBy, Named;
  }

  lemma GraphGrows(jobs: seq<Job>, j: Job, before: Adjacency, after: Adjacency)
    requires IsGraph(jobs, before) && j.id != ""
    requires after.Keys == before.Keys + {j.id} + References(j)
    requires forall x, y :: Edge(after, x, y) <==> Edge(before, x, y) || Links(j, x, y)
    ensures IsGraph(jobs + [j], after)
  {
    hide References, Links, Edge;
    forall x
      ensures x in after <==> Mentioned(jobs + [j], x)
    {
      assert j in jobs + [j];
    }
    forall x, y
      ensures Linked(jobs + [j], x, y) <==> Linked(jobs, x, y) || Links(j, x, y)
    {
      assert j in jobs + [j];
    }
  }

  lemma StatusesGrow(jobs: seq<Job>, j: Job, before: map<Id, string>, after: map<Id, string>)
    requires IsStatuses(jobs, before) && j.id != "" && StatusesAfter(j, before, after)
    ensures IsStatuses(jobs + [j], after)
  {
    assert j in jobs + [j];
    forall x, v
      ensures Reported(jobs + [j], x, v) <==> Reported(jobs, x, v) || ReportedBy(j, x, v)
    {
    }
    forall x
      ensures RetriedFrom(jobs + [j], x) <==> RetriedFrom(jobs, x) || x == j.retryOf != ""
    {
    }
    hide Reported, RetriedFrom, ReportedBy;
  }

  lemma NothingAdded(jobs: seq<Job>, j: Job, nodes: map<Id, Job>, adjacency: Adjacency, statuses: map<Id, string>)
    requires j.id == "" && IsNodes(jobs, nodes) && IsGraph(jobs, adjacency) && IsStatuses(jobs, statuses)
    ensures IsNodes(jobs + [j], nodes) && IsGraph(jobs + [j], adjacency) && IsStatuses(jobs + [j], statuses)
  {
    forall x
      ensures Mentioned(jobs + [j], x) <==> Mentioned(jobs, x)
      ensures RetriedFrom(jobs + [j], x) <==> RetriedFrom(jobs, x)
    {
    }
    forall x, y
      ensures Linked(jobs + [j], x, y) <==> Linked(jobs, x, y)
    {
    }
    forall x, v
      ensures Reported(jobs + [j], x, v) <==> Reported(jobs, x, v)
    {
    }
  }

  /** One pass over the retained jobs collects nodes, edges and statuses; nodes keep the order of their first job. */
  method Collect(jobs: seq<Job>) returns (order: seq<Id>, nodes: map<Id, Job>, adjacency: Adjacency, statuses: map<Id, string>)
    ensures IsNodes(jobs, nodes) && IsGraph(jobs, adjacency) && IsStatuses(jobs, statuses)
    ensures LastCounts(jobs, nodes) && LastReportCounts(jobs, statuses)
    ensures forall id :: id in order <==> id in nodes
    ensures NoRepeats(order)
  {
    hide IsGraph, IsStatuses, LastCounts, LastReportCounts;
    order, nodes, adjacency, statuses := [], map[], map[], map[];
    NothingCollected();
    for i := 0 to |jobs|
      invariant IsNodes(jobs[..i], nodes) && IsGraph(jobs[..i], adjacency) && IsStatuses(jobs[..i], statuses)
      invariant LastCounts(jobs[..i], nodes) && LastReportCounts(jobs[..i], statuses)
      invariant forall id :: id in order <==> id in nodes
      invariant NoRepeats(order)
    {
      var j := jobs[i];
      assert jobs[..i + 1] == jobs[..i] + [j];
      LastCountsMore(jobs[..i], nodes, j);
      if j.id == "" {
        NothingAdded(jobs[..i], j, nodes, adjacency, statuses);
        LastReportCountsMore(jobs[..i], j, statuses, statuses);
      } else {
        if j.id !in nodes {
          order := order + [j.id];
        }
        nodes := nodes[j.id := j];
        ghost var before, known := adjacency, statuses;
        adjacency, statuses := AddReferences(j, adjacency, statuses);
        GraphGrows(jobs[..i], j, before, adjacency);
        StatusesGrow(jobs[..i], j, known, statuses);
        LastReportCountsMore(jobs[..i], j, known, statuses);
      }
    }
    assert jobs[..|jobs|] == jobs;
  }

  lemma NothingCollected()
    ensures IsNodes([], map[]) && LastCounts([], map[]) && LastReportCounts([], map[]) && IsGraph([], map[]) && IsStatuses([], map[])
  {
  }

  /** No later job has the id of this one. */
  ghost predicate LastOfItsId(jobs: seq<Job>, i: int) {
    0 <= i < |jobs| && jobs[i].id != "" && forall k :: i < k < |jobs| ==> jobs[k].id != jobs[i].id
  }

  /** Of several jobs with one id, the last is the node. */
  ghost predicate LastCounts(jobs: seq<Job>, nodes: map<Id, Job>) {
    forall i :: LastOfItsId(jobs, i) ==> jobs[i].id in nodes && nodes[jobs[i].id] == jobs[i]
  }

  lemma StillLast(jobs: seq<Job>, j: Job, i: int)
    requires LastOfItsId(jobs + [j], i) && i < |jobs|
    ensures LastOfItsId(jobs, i) && jobs[i].id != j.id
  {
    var more := jobs + [j];
    assert more[|jobs|] == j;
    assert forall k :: i <= k < |jobs| ==> more[k] == jobs[k];
  }

  lemma LastCountsMore(jobs: seq<Job>, nodes: map<Id, Job>, j: Job)
    requires LastCounts(jobs, nodes)
    ensures LastCounts(jobs + [j], if j.id == "" then nodes else nodes[j.id := j])
  {
    forall i | LastOfItsId(jobs + [j], i) && i < |jobs|
      ensures LastOfItsId(jobs, i) && jobs[i].id != j.id
    {
      StillLast(jobs, j, i);
    }
  }

  ghost predicate Reports(j: Job, x: Id) {
    j.id != "" && exists status :: ReportedBy(j, x, status)
  }

  /** The job reports the id, and no later job does. */
  ghost predicate ReportsLast(jobs: seq<Job>, i: int, x: Id) {
    0 <= i < |jobs| && Reports(jobs[i], x) && forall k :: i < k < |jobs| ==> !Reports(jobs[k], x)
  }

  /** Of several jobs that report an id, the last one's report counts. */
  ghost predicate LastReportCounts(jobs: seq<Job>, statuses: map<Id, string>) {
    forall i, x :: ReportsLast(jobs, i, x) ==> x in statuses && ReportedBy(jobs[i], x, statuses[x])
  }

  lemma LastReportCountsMore(jobs: seq<Job>, j: Job, before: map<Id, string>, after: map<Id, string>)
    requires LastReportCounts(jobs, before) && if j.id == "" then after == before else StatusesAfter(j, before, after)
    ensures LastReportCounts(jobs + [j], after)
  {
    hide ReportedBy;
    var more := jobs + [j];
    forall i, x | ReportsLast(more, i, x)
      ensures x in after && ReportedBy(more[i], x, after[x])
    {
      if i < |jobs| {
        assert more[|jobs|] == j;
        assert forall k :: i <= k < |jobs| ==> more[k] == jobs[k];
        assert ReportsLast(jobs, i, x) && !Reports(j, x);
      }
    }
  }

  // ----- One component -----

  /** A list of ids is one connected component of the graph, each id once. */
  ghost predicate IsComponent(jobs: seq<Job>, ids: seq<Id>) {
    ids != [] && NoRepeats(ids) && forall y :: y in ids <==> Connected(jobs, ids[0], y)
  }

  /** What has been reached: everything visited has its neighbours visited or waiting. */
  ghost predicate Exploring(jobs: seq<Job>, start: Id, before: set<Id>, component: seq<Id>, pending: seq<Id>) {
    && NoRepeats(component) && (forall x :: x in component ==> x !in before)
    && (component == [] ==> pending == [start]) && (component != [] ==> component[0] == start)
    && (forall x :: x in component || x in pending ==> Connected(jobs, start, x))
    && (forall x, y :: x in component && Linked(jobs, x, y) ==> y in before || y in component || y in pending)
  }

  /** Depth-first search from an id, over a stack of ids still to be visited. */
  method Component(ghost jobs: seq<Job>, start: Id, adjacency: Adjacency, visited: set<Id>)
    returns (component: seq<Id>, visited': set<Id>)
    requires IsGraph(jobs, adjacency) && Closed(jobs, visited) && start !in visited && start in adjacency
    ensures IsComponent(jobs, component) && component != [] && component[0] == start
    ensures visited' == visited + Elements(component) && Closed(jobs, visited') && visited !! Elements(component)
  {
    hide Linked, Connected, Mentioned, Closed, Exploring;
    var pending := [start];
    component, visited' := [], visited;
    ExplorationStarts(jobs, start, visited);
    while pending != []
      invariant visited' == visited + Elements(component)
      invariant Exploring(jobs, start, visited, component, pending)
      decreases adjacency.Keys - visited', |pending|
    {
      var id := pending[|pending| - 1];
      ghost var stack := pending;
      pending := pending[..|pending| - 1];
      if id in visited' {
        ExplorationSkips(jobs, start, visited, component, stack);
      } else {
        ghost var s := component;
        PendingIsKnown(jobs, start, visited, component, stack, adjacency);
        visited' := visited' + {id};
        component := component + [id];
        var related := if id in adjacency then adjacency[id] else [];
        var rest := pending;
        for i := 0 to |related|
          invariant forall y :: y in pending <==> y in rest || (y in related[..i] && y !in visited')
        {
          if related[i] !in visited' {
            pending := pending + [related[i]];
          }
        }
        assert related[..|related|] == related;
        ExplorationVisits(jobs, start, visited, s, stack, pending, adjacency);
      }
    }
    ExplorationEnds(jobs, start, visited, component);
  }

  lemma ExplorationStarts(jobs: seq<Job>, start: Id, before: set<Id>)
    ensures Exploring(jobs, start, before, [], [start])
  {
    ConnectedToItself(jobs, start);
  }

  lemma ExplorationSkips(jobs: seq<Job>, start: Id, before: set<Id>, component: seq<Id>, stack: seq<Id>)
    requires Exploring(jobs, start, before, component, stack) && stack != [] && start !in before && Closed(jobs, before)
    requires stack[|stack| - 1] in before + Elements(component)
    ensures Exploring(jobs, start, before, component, stack[..|stack| - 1])
  {
    hide Linked, Connected, Closed;
    assert stack == stack[..|stack| - 1] + [stack[|stack| - 1]];
  }

  lemma PendingIsKnown(jobs: seq<Job>, start: Id, before: set<Id>, component: seq<Id>, stack: seq<Id>, adjacency: Adjacency)
    requires IsGraph(jobs, adjacency) && start in adjacency && Exploring(jobs, start, before, component, stack) && stack != []
    ensures stack[|stack| - 1] in adjacency
  {
    var id := stack[|stack| - 1];
    hide Linked, Mentioned;
    assert Closed(jobs, adjacency.Keys) by {
      forall x, y | x in adjacency && Linked(jobs, x, y)
        ensures y in adjacency
      {
        LinkedBack(jobs, x, y);
        assert Edge(adjacency, y, x);
      }
    }
    hide Connected, IsGraph, Closed;
    ClosedHoldsConnected(jobs, adjacency.Keys, start, id);
  }

  lemma ExplorationVisits(jobs: seq<Job>, start: Id, before: set<Id>, component: seq<Id>, stack: seq<Id>, pending: seq<Id>,
                          adjacency: Adjacency)
    requires IsGraph(jobs, adjacency) && Exploring(jobs, start, before, component, stack) && stack != []
    requires var id := stack[|stack| - 1];
             && id !in before && id !in component
             && forall y :: y in pending <==>
                  || y in stack[..|stack| - 1]
                  || (Edge(adjacency, id, y) && y !in before && y !in component && y != id)
    ensures Exploring(jobs, start, before, component + [stack[|stack| - 1]], pending)
  {
    hide Linked, Connected, Mentioned;
    var id := stack[|stack| - 1];
    assert stack == stack[..|stack| - 1] + [id];
    assert component == [] ==> stack == [start] && id == start;
    forall y | Edge(adjacency, id, y)
      ensures Connected(jobs, start, y)
    {
      assert Linked(jobs, id, y);
      ConnectedFurther(jobs, start, id, y);
    }
  }

  lemma ExplorationEnds(jobs: seq<Job>, start: Id, before: set<Id>, component: seq<Id>)
    requires Closed(jobs, before) && start !in before && Exploring(jobs, start, before, component, [])
    ensures IsComponent(jobs, component) && component[0] == start
    ensures Closed(jobs, before + Elements(component)) && before !! Elements(component)
  {
    hide Linked, Connected;
    var all := before + Elements(component);
    assert Closed(jobs, all);
    forall y | Connected(jobs, start, y)
      ensures y in component
    {
      ClosedHoldsConnected(jobs, all, start, y);
      if y in before {
        ConnectedBack(jobs, start, y);
        ClosedHoldsConnected(jobs, before, y, start);
        assert false;
      }
    }
  }

  // ----- One row per component -----

  function StatusOf(statuses: map<Id, string>, id: Id): string {
    if id in statuses then statuses[id] else "failed"
  }

  /** A retained job counts its own attempts, at least one; a reference counts one unless its retry is pending. */
  function Weight(nodes: map<Id, Job>, statuses: map<Id, string>, id: Id): nat {
    if id in nodes then (if nodes[id].attempts > 1 then nodes[id].attempts else 1)
    else if StatusOf(statuses, id) == "pending" then 0 else 1
  }

  function Attempts(nodes: map<Id, Job>, statuses: map<Id, string>, ids: seq<Id>): nat {
    if ids == [] then 0 else Weight(nodes, statuses, ids[0]) + Attempts(nodes, statuses, ids[1..])
  }

  /** Nothing had to be guessed: every id is retained or waits for its retry. */
  predicate AllKnown(nodes: map<Id, Job>, statuses: map<Id, string>, ids: seq<Id>) {
    forall id :: id in ids ==> id in nodes || StatusOf(statuses, id) == "pending"
  }

  predicate WasCompleted(statuses: map<Id, string>, ids: seq<Id>) {
    exists id :: id in ids && id in statuses && statuses[id] == "completed"
  }

  function Retained(nodes: map<Id, Job>, ids: seq<Id>): (r: seq<Job>)
    ensures forall j :: j in r <==> exists id :: id in ids && id in nodes && nodes[id] == j
  {
    if ids == [] then []
    else if ids[0] in nodes then [nodes[ids[0]]] + Retained(nodes, ids[1..])
    else Retained(nodes, ids[1..])
  }

  predicate Later(a: Job, b: Job) {
    a.failedAt > b.failedAt || (a.failedAt == b.failedAt && a.index > b.index)
  }

  /** The job that heads the list once it is sorted from the latest failure to the earliest. */
  function Latest(jobs: seq<Job>): (j: Job)
    requires jobs != []
    ensures j in jobs && forall k :: k in jobs ==> !Later(k, j)
  {
    if |jobs| == 1 then jobs[0]
    else
      var rest := Latest(jobs[1..]);
      assert forall k :: k in jobs <==> k == jobs[0] || k in jobs[1..];
      if Later(rest, jobs[0]) then rest else jobs[0]
  }

  /** The rows that a list of components yields; a completed lineage yields none. */
  function RowsOf(nodes: map<Id, Job>, statuses: map<Id, string>, presentable: Job -> bool, components: seq<seq<Id>>): seq<Row> {
    if components == [] then []
    else
      var c := components[0];
      var retained := Retained(nodes, c);
      var rest := RowsOf(nodes, statuses, presentable, components[1..]);
      if retained == [] || WasCompleted(statuses, c) || !presentable(Latest(retained)) then rest
      else [Row(Latest(retained), Attempts(nodes, statuses, c), AllKnown(nodes, statuses, c))] + rest
  }

  function Flat(components: seq<seq<Id>>): seq<Id> {
    if components == [] then [] else components[0] + Flat(components[1..])
  }

  /** Components that share no id, have none twice, and leave none of the mentioned ids out. */
  ghost predicate IsPartition(jobs: seq<Job>, components: seq<seq<Id>>) {
    && (forall c :: c in components ==> IsComponent(jobs, c))
    && NoRepeats(Flat(components))
    && (forall x :: x in Flat(components) <==> Mentioned(jobs, x))
  }

  lemma {:induction false} RowsOfMore(nodes: map<Id, Job>, statuses: map<Id, string>, presentable: Job -> bool,
                                      components: seq<seq<Id>>, c: seq<Id>)
    ensures RowsOf(nodes, statuses, presentable, components + [c])
         == RowsOf(nodes, statuses, presentable, components) + RowsOf(nodes, statuses, presentable, [c])
    decreases |components|
  {
    if components == [] {
      assert components + [c] == [c];
    } else {
      assert (components + [c])[0] == components[0] && (components + [c])[1..] == components[1..] + [c];
      RowsOfMore(nodes, statuses, presentable, components[1..], c);
    }
  }

  lemma {:induction false} FlatMore(components: seq<seq<Id>>, c: seq<Id>)
    ensures Flat(components + [c]) == Flat(components) + c
    decreases |components|
  {
    if components == [] {
      assert components + [c] == [c] && [c][1..] == [];
    } else {
      assert (components + [c])[0] == components[0] && (components + [c])[1..] == components[1..] + [c];
      FlatMore(components[1..], c);
    }
  }

  method CountAttempts(nodes: map<Id, Job>, statuses: map<Id, string>, component: seq<Id>) returns (attempts: nat, complete: bool)
    ensures attempts == Attempts(nodes, statuses, component) && (complete <==> AllKnown(nodes, statuses, component))
  {
    attempts, complete := 0, true;
    for i := 0 to |component|
      invariant Attempts(nodes, statuses, component) == attempts + Attempts(nodes, statuses, component[i..])
      invariant complete <==> forall k :: 0 <= k < i ==> component[k] in nodes || StatusOf(statuses, component[k]) == "pending"
    {
      var id := component[i];
      if id in nodes {
        attempts := attempts + (if nodes[id].attempts > 1 then nodes[id].attempts else 1);
      } else if StatusOf(statuses, id) != "pending" {
        attempts := attempts + 1;
        complete := false;
      }
    }
  }

  /** Rows from the latest failure to the earliest. */
  function SortedIn(rows: seq<Row>, r: Row): (t: seq<Row>)
    ensures multiset(t) == multiset(rows) + multiset{r}
    ensures LatestFirst(rows) ==> LatestFirst(t)
  {
    if rows == [] then [r]
    else if r.job.failedAt > rows[0].job.failedAt then [r] + rows
    else
      var rest := SortedIn(rows[1..], r);
      assert rows == [rows[0]] + rows[1..];
      SortedInHead(rows, r, rest);
      [rows[0]] + rest
  }

  ghost predicate LatestFirst(rows: seq<Row>) {
    forall i, k :: 0 <= i < k < |rows| ==> rows[i].job.failedAt >= rows[k].job.failedAt
  }

  lemma SortedInHead(rows: seq<Row>, r: Row, rest: seq<Row>)
    requires rows != [] && r.job.failedAt <= rows[0].job.failedAt
    requires multiset(rest) == multiset(rows[1..]) + multiset{r} && (LatestFirst(rows[1..]) ==> LatestFirst(rest))
    ensures LatestFirst(rows) ==> LatestFirst([rows[0]] + rest)
  {
    if LatestFirst(rows) {
      forall i | 0 <= i < |rest|
        ensures rows[0].job.failedAt >= rest[i].job.failedAt
      {
        assert rest[i] in multiset(rest);
        assert rest[i] == r || rest[i] in rows[1..];
      }
    }
  }

  /** The rows whose job failed at one time, in the order given. */
  ghost function FailedAt(rows: seq<Row>, time: real): seq<Row> {
    if rows == [] then []
    else if rows[0].job.failedAt == time then [rows[0]] + FailedAt(rows[1..], time)
    else FailedAt(rows[1..], time)
  }

  lemma {:induction false} NoneFailedAt(rows: seq<Row>, time: real)
    requires forall k :: 0 <= k < |rows| ==> rows[k].job.failedAt != time
    ensures FailedAt(rows, time) == []
    decreases |rows|
  {
    if rows != [] {
      NoneFailedAt(rows[1..], time);
    }
  }

  lemma {:induction false} FailedAtMore(rows: seq<Row>, r: Row, time: real)
    ensures FailedAt(rows + [r], time) == FailedAt(rows, time) + if r.job.failedAt == time then [r] else []
    decreases |rows|
  {
    if rows == [] {
      assert rows + [r] == [r] && [r][1..] == [];
    } else {
      assert (rows + [r])[1..] == rows[1..] + [r];
      FailedAtMore(rows[1..], r, time);
    }
  }

  /** A row goes behind the rows of its time. */
  lemma {:induction false} SortedInIsStable(rows: seq<Row>, r: Row, time: real)
    requires LatestFirst(rows)
    ensures FailedAt(SortedIn(rows, r), time) == FailedAt(rows, time) + if r.job.failedAt == time then [r] else []
    decreases |rows|
  {
    hide *;
    if rows == [] || r.job.failedAt > rows[0].job.failedAt {
      SortedInFront(rows, r);
      FailedAtFirst(r, rows, time);
      if r.job.failedAt == time {
        NoneFailedAt(rows, time);
      }
    } else {
      var h, rest := FailedAt([rows[0]], time), rows[1..];
      LatestFirstTail(rows);
      SortedInIsStable(rest, r, time);
      SortedInBehind(rows, r);
      FailedAtFirst(rows[0], SortedIn(rest, r), time);
      FailedAtFirst(rows[0], rest, time);
      assert rows == [rows[0]] + rest;
      var own := if r.job.failedAt == time then [r] else [];
      assert h + (FailedAt(rest, time) + own) == (h + FailedAt(rest, time)) + own;
    }
  }

  lemma SortedInFront(rows: seq<Row>, r: Row)
    requires LatestFirst(rows) && (rows == [] || r.job.failedAt > rows[0].job.failedAt)
    ensures SortedIn(rows, r) == [r] + rows && forall k :: 0 <= k < |rows| ==> rows[k].job.failedAt != r.job.failedAt
  {
  }

  lemma SortedInBehind(rows: seq<Row>, r: Row)
    requires rows != [] && r.job.failedAt <= rows[0].job.failedAt
    ensures SortedIn(rows, r) == [rows[0]] + SortedIn(rows[1..], r)
  {
  }

  lemma FailedAtFirst(r: Row, rows: seq<Row>, time: real)
    ensures FailedAt([r] + rows, time) == FailedAt([r], time) + FailedAt(rows, time)
    ensures FailedAt([r], time) == if r.job.failedAt == time then [r] else []
  {
    assert ([r] + rows)[1..] == rows && [r][1..] == [];
  }

  lemma LatestFirstTail(rows: seq<Row>)
    requires LatestFirst(rows) && rows != []
    ensures LatestFirst(rows[1..])
  {
  }

  /** Rows of one time keep their order. */
  method SortRows(rows: seq<Row>) returns (sorted: seq<Row>)
    ensures multiset(sorted) == multiset(rows) && LatestFirst(sorted)
    ensures forall time :: FailedAt(sorted, time) == FailedAt(rows, time)
  {
    hide FailedAt;
    sorted := [];
    for i := 0 to |rows|
      invariant multiset(sorted) == multiset(rows[..i]) && LatestFirst(sorted)
      invariant forall time :: FailedAt(sorted, time) == FailedAt(rows[..i], time)
    {
      assert rows[..i + 1] == rows[..i] + [rows[i]];
      forall time
        ensures FailedAt(SortedIn(sorted, rows[i]), time) == FailedAt(rows[..i + 1], time)
      {
        SortedInIsStable(sorted, rows[i], time);
        FailedAtMore(rows[..i], rows[i], time);
      }
      sorted := SortedIn(sorted, rows[i]);
    }
    assert rows[..|rows|] == rows;
  }

  /**
    The summary: the components partition every id the jobs mention, each component that is
    not completed yields its row, and the summary is complete when it covers the failed ids
    and no row had to guess.
  */
  method Summarize(jobs: seq<Job>, failedIds: seq<Id>, presentable: Job -> bool)
    returns (rows: seq<Row>, complete: bool, ghost components: seq<seq<Id>>, ghost nodes: map<Id, Job>, ghost statuses: map<Id, string>)
    ensures IsNodes(jobs, nodes) && IsStatuses(jobs, statuses) && IsPartition(jobs, components)
    ensures LastCounts(jobs, nodes) && LastReportCounts(jobs, statuses)
    ensures multiset(rows) == multiset(RowsOf(nodes, statuses, presentable, components)) && LatestFirst(rows)
    ensures forall time :: FailedAt(rows, time) == FailedAt(RowsOf(nodes, statuses, presentable, components), time)
    ensures complete <==> (forall id :: id in failedIds ==> Mentioned(jobs, id)) && (forall r :: r in rows ==> r.attemptsComplete)
    ensures forall r :: r in rows ==> exists c :: c in components && IsRowOf(nodes, statuses, presentable, c, r)
    ensures forall c :: c in components && HasRow(nodes, statuses, presentable, c) ==>
              exists r :: r in rows && IsRowOf(nodes, statuses, presentable, c, r)
    ensures forall r, q :: r in rows && q in rows && r.job.id == q.job.id ==> r == q && multiset(rows)[r] == 1
  {
    hide IsRowOf, HasRow, FailedAt, LastCounts, LastReportCounts;
    hide IsNodes, IsStatuses, IsGraph, Closed, IsComponent, Mentioned, NoRepeats, Connected, WasCompleted, AllKnown, Flat, RowsOf, LatestFirst;
    var order, nodeMap, adjacency, statusMap := Collect(jobs);
    nodes, statuses := nodeMap, statusMap;
    components := [];
    var unsorted: seq<Row> := [];
    var visited: set<Id> := {};
    var allAttemptsComplete := true;
    NothingVisited(jobs, nodes, statuses, presentable);
    for i := 0 to |order|
      invariant Visiting(jobs, components, visited) && forall k :: 0 <= k < i ==> order[k] in visited
      invariant unsorted == RowsOf(nodes, statuses, presentable, components)
      invariant allAttemptsComplete <==> forall r :: r in unsorted ==> r.attemptsComplete
    {
      var id := order[i];
      if id !in visited {
        NodeIsKnown(jobs, nodes, adjacency, id);
        ghost var before, former := visited, components;
        var component;
        component, visited := Component(jobs, id, adjacency, visited);
        components := components + [component];
        VisitingMore(jobs, former, before, component);
        RowsOfMore(nodes, statuses, presentable, former, component);
        RowsOfOne(nodes, statuses, presentable, component);
        var retained := Retained(nodeMap, component);
        if retained != [] && !WasCompleted(statusMap, component) {
          var lead := Latest(retained);
          var attempts, attemptsComplete := CountAttempts(nodeMap, statusMap, component);
          if presentable(lead) {
            unsorted := unsorted + [Row(lead, attempts, attemptsComplete)];
            allAttemptsComplete := allAttemptsComplete && attemptsComplete;
          }
        }
      }
    }
    VisitedAll(jobs, nodes, components, visited);
    rows := SortRows(unsorted);
    var covered := forall id :: id in failedIds ==> id in visited;
    complete := covered && allAttemptsComplete;
    assert forall r :: r in rows <==> r in multiset(rows);
    assert forall r :: r in unsorted <==> r in multiset(unsorted);
    RowsAreRight(jobs, nodes, statuses, presentable, components);
  }

  // ----- What a row says -----

  /** The attempts of the retained jobs among the ids, each of which was tried at least once. */
  ghost function Tries(nodes: map<Id, Job>, ids: seq<Id>): nat {
    if ids == [] then 0
    else
      var rest := Tries(nodes, ids[1..]);
      if ids[0] !in nodes then rest
      else if nodes[ids[0]].attempts < 1 then rest + 1
      else rest + nodes[ids[0]].attempts
  }

  /** The ids that are only referred to, but for those whose retry is still pending. */
  ghost function Reruns(nodes: map<Id, Job>, statuses: map<Id, string>, ids: seq<Id>): set<Id> {
    set id | id in ids && id !in nodes && !(id in statuses && statuses[id] == "pending")
  }

  /** No retained job of the lineage failed later, or at the same time under a higher index. */
  ghost predicate FailedLast(nodes: map<Id, Job>, c: seq<Id>, j: Job) {
    forall id :: id in c && id in nodes ==>
      nodes[id].failedAt < j.failedAt || (nodes[id].failedAt == j.failedAt && nodes[id].index <= j.index)
  }

  /**
    A row shows a job of the lineage that failed last, counts every retained try and every rerun, and
    says whether it had to guess; no lineage in which some job is reported completed has a row.
  */
  ghost predicate IsRowOf(nodes: map<Id, Job>, statuses: map<Id, string>, presentable: Job -> bool, c: seq<Id>, r: Row) {
    && r.job.id in c && r.job.id in nodes && nodes[r.job.id] == r.job
    && FailedLast(nodes, c, r.job)
    && (forall id :: id in c && id in statuses ==> statuses[id] != "completed")
    && presentable(r.job)
    && r.attempts == Tries(nodes, c) + |Reruns(nodes, statuses, c)|
    && (r.attemptsComplete <==> forall id :: id in c ==> id in nodes || (id in statuses && statuses[id] == "pending"))
  }

  /** Some job of the lineage is retained, none is reported completed, and whichever failed last can be presented. */
  ghost predicate HasRow(nodes: map<Id, Job>, statuses: map<Id, string>, presentable: Job -> bool, c: seq<Id>) {
    && (exists id :: id in c && id in nodes)
    && (forall id :: id in c && id in statuses ==> statuses[id] != "completed")
    && (forall id :: id in c && id in nodes && FailedLast(nodes, c, nodes[id]) ==> presentable(nodes[id]))
  }

  lemma {:induction false} AttemptsAreTriesAndReruns(nodes: map<Id, Job>, statuses: map<Id, string>, ids: seq<Id>)
    requires NoRepeats(ids)
    ensures Attempts(nodes, statuses, ids) == Tries(nodes, ids) + |Reruns(nodes, statuses, ids)|
    decreases |ids|
  {
    if ids == [] {
      assert Reruns(nodes, statuses, ids) == {};
    } else {
      AttemptsAreTriesAndReruns(nodes, statuses, ids[1..]);
      RerunsOfMore(nodes, statuses, ids);
      hide Reruns, NoRepeats;
    }
  }

  lemma RerunsOfMore(nodes: map<Id, Job>, statuses: map<Id, string>, ids: seq<Id>)
    requires NoRepeats(ids) && ids != []
    ensures var more := ids[0] !in nodes && !(ids[0] in statuses && statuses[ids[0]] == "pending");
            |Reruns(nodes, statuses, ids)| == |Reruns(nodes, statuses, ids[1..])| + if more then 1 else 0
  {
    var rest := Reruns(nodes, statuses, ids[1..]);
    assert ids[0] !in ids[1..];
    assert forall id :: id in ids <==> id == ids[0] || id in ids[1..];
    assert Reruns(nodes, statuses, ids)
        == if ids[0] !in nodes && !(ids[0] in statuses && statuses[ids[0]] == "pending") then rest + {ids[0]} else rest;
  }

  lemma OneRow(nodes: map<Id, Job>, statuses: map<Id, string>, presentable: Job -> bool, c: seq<Id>)
    requires NoRepeats(c) && forall id :: id in nodes ==> nodes[id].id == id
    ensures forall r :: r in RowsOf(nodes, statuses, presentable, [c]) ==> IsRowOf(nodes, statuses, presentable, c, r)
    ensures |RowsOf(nodes, statuses, presentable, [c])| <= 1
    ensures HasRow(nodes, statuses, presentable, c) ==> RowsOf(nodes, statuses, presentable, [c]) != []
  {
    RowsOfOne(nodes, statuses, presentable, c);
    AttemptsAreTriesAndReruns(nodes, statuses, c);
    hide RowsOf, Attempts, Tries, Reruns, NoRepeats;
    var retained := Retained(nodes, c);
    if id :| id in c && id in nodes {
      assert nodes[id] in retained;
    }
    if retained != [] {
      var lead := Latest(retained);
      assert lead in retained;
      assert FailedLast(nodes, c, lead) by {
        forall id | id in c && id in nodes
          ensures !Later(nodes[id], lead)
        {
          assert nodes[id] in retained;
        }
      }
    }
  }

  lemma {:induction false} RowsComeFrom(nodes: map<Id, Job>, statuses: map<Id, string>, presentable: Job -> bool, components: seq<seq<Id>>)
    requires NoRepeats(Flat(components)) && (forall c :: c in components ==> NoRepeats(c)) && forall id :: id in nodes ==> nodes[id].id == id
    ensures var rows := RowsOf(nodes, statuses, presentable, components);
            && (forall r :: r in rows ==>
                  r.job.id in Flat(components) && exists c :: c in components && IsRowOf(nodes, statuses, presentable, c, r))
            && (forall c :: c in components && HasRow(nodes, statuses, presentable, c) ==>
                  exists r :: r in rows && IsRowOf(nodes, statuses, presentable, c, r))
            && (forall i, k :: 0 <= i < k < |rows| ==> rows[i].job.id != rows[k].job.id)
    decreases |components|
  {
    if components != [] {
      var c, others := components[0], components[1..];
      assert components == [c] + others && Flat(components) == c + Flat(others);
      FlatParts(c, Flat(others));
      RowsComeFrom(nodes, statuses, presentable, others);
      OneRow(nodes, statuses, presentable, c);
      RowsOfSplit(nodes, statuses, presentable, components);
      hide RowsOf, Flat, NoRepeats, HasRow;
      var first, rest := RowsOf(nodes, statuses, presentable, [c]), RowsOf(nodes, statuses, presentable, others);
      assert first != [] ==> first[0] in first;
      assert forall r :: r in first ==> r.job.id in c by {
        assert forall r :: IsRowOf(nodes, statuses, presentable, c, r) ==> r.job.id in c;
      }
      hide IsRowOf;
      forall k | 0 <= k < |rest| && first != []
        ensures first[0].job.id != rest[k].job.id
      {
        assert rest[k] in rest;
      }
    }
  }

  lemma FlatParts(c: seq<Id>, rest: seq<Id>)
    requires NoRepeats(c + rest)
    ensures NoRepeats(rest) && forall x :: x in c ==> x !in rest
  {
    assert forall i :: 0 <= i < |rest| ==> rest[i] == (c + rest)[|c| + i];
    assert forall i :: 0 <= i < |c| ==> c[i] == (c + rest)[i];
  }

  lemma RowsOfSplit(nodes: map<Id, Job>, statuses: map<Id, string>, presentable: Job -> bool, components: seq<seq<Id>>)
    requires components != []
    ensures RowsOf(nodes, statuses, presentable, components)
         == RowsOf(nodes, statuses, presentable, [components[0]]) + RowsOf(nodes, statuses, presentable, components[1..])
  {
    RowsOfOne(nodes, statuses, presentable, components[0]);
  }

  lemma RowsAreRight(jobs: seq<Job>, nodes: map<Id, Job>, statuses: map<Id, string>, presentable: Job -> bool, components: seq<seq<Id>>)
    requires IsNodes(jobs, nodes) && IsPartition(jobs, components)
    ensures var rows := RowsOf(nodes, statuses, presentable, components);
            && (forall r :: r in rows ==> exists c :: c in components && IsRowOf(nodes, statuses, presentable, c, r))
            && (forall c :: c in components && HasRow(nodes, statuses, presentable, c) ==>
                  exists r :: r in rows && IsRowOf(nodes, statuses, presentable, c, r))
            && (forall r, q :: r in multiset(rows) && q in multiset(rows) && r.job.id == q.job.id ==> r == q && multiset(rows)[r] == 1)
  {
    forall c | c in components
      ensures NoRepeats(c)
    {
      ComponentRepeatsNothing(jobs, c);
    }
    RowsComeFrom(nodes, statuses, presentable, components);
    hide *;
    OneRowEach(RowsOf(nodes, statuses, presentable, components));
  }

  lemma OneRowEach(rows: seq<Row>)
    requires forall i, k :: 0 <= i < k < |rows| ==> rows[i].job.id != rows[k].job.id
    ensures forall r, q :: r in multiset(rows) && q in multiset(rows) && r.job.id == q.job.id ==> r == q && multiset(rows)[r] == 1
  {
    forall r: Row, q: Row | r in multiset(rows) && q in multiset(rows) && r.job.id == q.job.id
      ensures r == q && multiset(rows)[r] == 1
    {
      var i :| 0 <= i < |rows| && rows[i] == r;
      var k :| 0 <= k < |rows| && rows[k] == q;
      assert i == k;
      assert rows == rows[..i] + [r] + rows[i + 1..];
      assert r !in rows[..i] && r !in rows[i + 1..];
    }
  }

  /** The components found so far are components, apart from each other, and make up what has been visited. */
  ghost predicate Visiting(jobs: seq<Job>, components: seq<seq<Id>>, visited: set<Id>) {
    && Closed(jobs, visited) && NoRepeats(Flat(components)) && visited == Elements(Flat(components))
    && (forall c :: c in components ==> IsComponent(jobs, c))
    && (forall x :: x in visited ==> Mentioned(jobs, x))
  }

  lemma NothingVisited(jobs: seq<Job>, nodes: map<Id, Job>, statuses: map<Id, string>, presentable: Job -> bool)
    ensures Visiting(jobs, [], {}) && RowsOf(nodes, statuses, presentable, []) == []
  {
  }

  lemma NodeIsKnown(jobs: seq<Job>, nodes: map<Id, Job>, adjacency: Adjacency, id: Id)
    requires IsNodes(jobs, nodes) && IsGraph(jobs, adjacency) && id in nodes
    ensures id in adjacency && Mentioned(jobs, id)
  {
    assert nodes[id] in jobs;
  }

  lemma RowsOfOne(nodes: map<Id, Job>, statuses: map<Id, string>, presentable: Job -> bool, c: seq<Id>)
    ensures RowsOf(nodes, statuses, presentable, [c]) ==
              var retained := Retained(nodes, c);
              if retained == [] || WasCompleted(statuses, c) || !presentable(Latest(retained)) then []
              else [Row(Latest(retained), Attempts(nodes, statuses, c), AllKnown(nodes, statuses, c))]
  {
    assert [c][1..] == [];
    assert RowsOf(nodes, statuses, presentable, [c][1..]) == [];
  }

  lemma VisitingMore(jobs: seq<Job>, components: seq<seq<Id>>, visited: set<Id>, c: seq<Id>)
    requires Visiting(jobs, components, visited) && IsComponent(jobs, c) && Mentioned(jobs, c[0])
    requires visited !! Elements(c) && Closed(jobs, visited + Elements(c))
    ensures Visiting(jobs, components + [c], visited + Elements(c))
  {
    FlatMore(components, c);
    hide Closed, Flat;
    forall x | x in c
      ensures Mentioned(jobs, x)
    {
      ConnectedIsMentioned(jobs, c[0], x);
    }
    hide IsComponent, Mentioned;
    var f := Flat(components);
    forall i, k | 0 <= i < k < |f + c|
      ensures (f + c)[i] != (f + c)[k]
    {
      ComponentRepeatsNothing(jobs, c);
      if i < |f| <= k {
        assert f[i] in visited && c[k - |f|] in Elements(c);
      }
    }
  }

  lemma ComponentRepeatsNothing(jobs: seq<Job>, c: seq<Id>)
    requires IsComponent(jobs, c)
    ensures NoRepeats(c)
  {
  }

  lemma {:induction false} ConnectedIsMentioned(jobs: seq<Job>, a: Id, b: Id)
    requires Mentioned(jobs, a) && Connected(jobs, a, b)
    ensures Mentioned(jobs, b)
  {
    var p :| IsPath(jobs, p) && p[0] == a && p[|p| - 1] == b;
    if |p| > 1 {
      assert Linked(jobs, p[|p| - 2], p[|p| - 2 + 1]);
      var j :| j in jobs && Links(j, p[|p| - 2], p[|p| - 1]);
    }
  }

  /** Once every retained job has been visited, so has every id that one of them refers to. */
  lemma VisitedAll(jobs: seq<Job>, nodes: map<Id, Job>, components: seq<seq<Id>>, visited: set<Id>)
    requires Visiting(jobs, components, visited) && IsNodes(jobs, nodes) && forall id :: id in nodes ==> id in visited
    ensures IsPartition(jobs, components) && forall x :: x in visited <==> Mentioned(jobs, x)
  {
    hide NoRepeats, Flat, IsComponent;
    forall x | Mentioned(jobs, x)
      ensures x in visited
    {
      var j :| j in jobs && j.id != "" && (x == j.id || x in References(j));
      if x != j.id {
        assert Links(j, j.id, x);
        assert Linked(jobs, j.id, x);
      }
    }
  }

  // ----- Conservation -----

  lemma {:induction false} AttemptsAppend(nodes: map<Id, Job>, statuses: map<Id, string>, a: seq<Id>, b: seq<Id>)
    ensures Attempts(nodes, statuses, a + b) == Attempts(nodes, statuses, a) + Attempts(nodes, statuses, b)
    decreases |a|
  {
    if a == [] {
      assert a + b == b;
    } else {
      assert (a + b)[1..] == a[1..] + b;
      AttemptsAppend(nodes, statuses, a[1..], b);
    }
  }

  lemma {:induction false} AttemptsIgnoreOrder(nodes: map<Id, Job>, statuses: map<Id, string>, a: seq<Id>, b: seq<Id>)
    requires NoRepeats(a) && NoRepeats(b) && forall x :: x in a <==> x in b
    ensures Attempts(nodes, statuses, a) == Attempts(nodes, statuses, b)
    decreases |a|
  {
    if a == [] && b == [] {
    } else if a == [] {
      HasFirst(b);
      assert false;
    } else {
      assert a[0] in a;
      var k :| 0 <= k < |b| && b[k] == a[0];
      var c := b[..k] + b[k + 1..];
      assert b == b[..k] + ([b[k]] + b[k + 1..]);
      AttemptsAppend(nodes, statuses, b[..k], [b[k]] + b[k + 1..]);
      AttemptsAppend(nodes, statuses, b[..k], b[k + 1..]);
      RestHasTheSame(a, b, k);
      AttemptsIgnoreOrder(nodes, statuses, a[1..], c);
    }
  }

  lemma HasFirst(ids: seq<Id>)
    requires ids != []
    ensures exists x :: x in ids
  {
    assert ids[0] in ids;
  }

  lemma RestHasTheSame(a: seq<Id>, b: seq<Id>, k: nat)
    requires NoRepeats(a) && NoRepeats(b) && (forall x :: x in a <==> x in b) && a != [] && k < |b| && b[k] == a[0]
    ensures NoRepeats(a[1..]) && NoRepeats(b[..k] + b[k + 1..])
    ensures forall x :: x in a[1..] <==> x in b[..k] + b[k + 1..]
  {
    var c := b[..k] + b[k + 1..];
    forall x
      ensures x in a[1..] <==> x in c
    {
      assert x in a <==> x == a[0] || x in a[1..];
      assert b == b[..k] + [b[k]] + b[k + 1..];
      assert x in b <==> x == b[k] || x in c;
      assert a[0] !in a[1..];
      assert b[k] !in c;
    }
  }

  function Total(nodes: map<Id, Job>, statuses: map<Id, string>, components: seq<seq<Id>>): nat {
    if components == [] then 0
    else Attempts(nodes, statuses, components[0]) + Total(nodes, statuses, components[1..])
  }

  lemma {:induction false} TotalIsFlat(nodes: map<Id, Job>, statuses: map<Id, string>, components: seq<seq<Id>>)
    ensures Total(nodes, statuses, components) == Attempts(nodes, statuses, Flat(components))
    decreases |components|
  {
    if components != [] {
      TotalIsFlat(nodes, statuses, components[1..]);
      AttemptsAppend(nodes, statuses, components[0], Flat(components[1..]));
    }
  }

  /** The components' attempts add up to one count per mentioned id, whatever list names each of these once. */
  lemma AttemptsAreConserved(jobs: seq<Job>, nodes: map<Id, Job>, statuses: map<Id, string>, components: seq<seq<Id>>, all: seq<Id>)
    requires IsPartition(jobs, components) && NoRepeats(all) && forall x :: x in all <==> Mentioned(jobs, x)
    ensures Total(nodes, statuses, components) == Attempts(nodes, statuses, all)
  {
    hide Mentioned, NoRepeats, IsComponent;
    TotalIsFlat(nodes, statuses, components);
    AttemptsIgnoreOrder(nodes, statuses, Flat(components), all);
  }

  // ----- The order of the input -----

  ghost predicate SameJobs(jobs: seq<Job>, others: seq<Job>) {
    forall j :: j in jobs <==> j in others
  }

  ghost predicate DistinctJobs(jobs: seq<Job>) {
    forall j, k :: j in jobs && k in jobs && j.id == k.id != "" ==> j == k
  }

  /** No retry is reported with two statuses. */
  ghost predicate OneStatusEach(jobs: seq<Job>) {
    forall x, v, u :: Reported(jobs, x, v) && Reported(jobs, x, u) ==> v == u
  }

  lemma NodesAreUnique(jobs: seq<Job>, others: seq<Job>, nodes: map<Id, Job>, nodes': map<Id, Job>)
    requires SameJobs(jobs, others) && DistinctJobs(jobs) && IsNodes(jobs, nodes) && IsNodes(others, nodes')
    ensures nodes == nodes'
  {
    forall id
      ensures id in nodes <==> id in nodes'
      ensures id in nodes && id in nodes' ==> nodes[id] == nodes'[id]
    {
      assert id in nodes ==> nodes[id] in others;
      assert id in nodes' ==> nodes'[id] in jobs;
    }
  }

  lemma StatusesAreUnique(jobs: seq<Job>, others: seq<Job>, statuses: map<Id, string>, statuses': map<Id, string>)
    requires SameJobs(jobs, others) && OneStatusEach(jobs) && IsStatuses(jobs, statuses) && IsStatuses(others, statuses')
    ensures statuses == statuses'
  {
    forall x, v
      ensures Reported(jobs, x, v) <==> Reported(others, x, v)
    {
    }
    forall x
      ensures RetriedFrom(jobs, x) <==> RetriedFrom(others, x)
    {
    }
    hide SameJobs, Reported, RetriedFrom;
    forall x
      ensures x in statuses <==> x in statuses'
      ensures x in statuses && x in statuses' ==> statuses[x] == statuses'[x]
    {
    }
  }

  lemma ConnectionsAgree(jobs: seq<Job>, others: seq<Job>, a: Id, b: Id)
    requires SameJobs(jobs, others) && Connected(jobs, a, b)
    ensures Connected(others, a, b)
  {
    var p :| IsPath(jobs, p) && p[0] == a && p[|p| - 1] == b;
    forall i | 0 <= i < |p| - 1
      ensures Linked(others, p[i], p[i + 1])
    {
      assert Linked(jobs, p[i], p[i + 1]);
      var j :| j in jobs && Links(j, p[i], p[i + 1]);
      assert j in others;
    }
    assert IsPath(others, p);
  }

  /** Two components are the same set of ids as soon as they share one. */
  lemma SharedIdSharedComponent(jobs: seq<Job>, others: seq<Job>, c: seq<Id>, d: seq<Id>, x: Id)
    requires SameJobs(jobs, others) && IsComponent(jobs, c) && IsComponent(others, d) && x in c && x in d
    ensures forall y :: y in c <==> y in d
  {
    hide SameJobs, Connected, NoRepeats;
    forall y
      ensures y in c <==> y in d
    {
      if y in c {
        ConnectedBack(jobs, c[0], x);
        ConnectedThrough(jobs, x, c[0], y);
        ConnectionsAgree(jobs, others, x, y);
        ConnectedThrough(others, d[0], x, y);
      }
      if y in d {
        ConnectedBack(others, d[0], x);
        ConnectedThrough(others, x, d[0], y);
        SameJobsBack(jobs, others);
        ConnectionsAgree(others, jobs, x, y);
        ConnectedThrough(jobs, c[0], x, y);
      }
    }
  }

  lemma SameJobsBack(jobs: seq<Job>, others: seq<Job>)
    requires SameJobs(jobs, others)
    ensures SameJobs(others, jobs)
  {
  }

  lemma {:induction false} FlatHas(components: seq<seq<Id>>, x: Id)
    ensures x in Flat(components) <==> exists c :: c in components && x in c
    decreases |components|
  {
    if components != [] {
      FlatHas(components[1..], x);
      assert forall c :: c in components <==> c == components[0] || c in components[1..];
    }
  }

  /** No two jobs failed at the same time under the same index. */
  ghost predicate DistinctTimes(jobs: seq<Job>) {
    forall j, k :: j in jobs && k in jobs && j.failedAt == k.failedAt && j.index == k.index ==> j == k
  }

  lemma SameLead(jobs: seq<Job>, nodes: map<Id, Job>, c: seq<Id>, d: seq<Id>)
    requires DistinctTimes(jobs) && (forall id :: id in nodes ==> nodes[id] in jobs) && forall x :: x in c <==> x in d
    ensures Retained(nodes, c) == [] <==> Retained(nodes, d) == []
    ensures Retained(nodes, c) != [] && Retained(nodes, d) != [] ==> Latest(Retained(nodes, c)) == Latest(Retained(nodes, d))
  {
    var a, b := Retained(nodes, c), Retained(nodes, d);
    assert forall j :: j in a <==> j in b;
    assert a != [] ==> a[0] in b;
    assert b != [] ==> b[0] in a;
    if a != [] && b != [] {
      var j, k := Latest(a), Latest(b);
      assert !Later(j, k) && !Later(k, j);
    }
  }

  /**
    The grouping, its attempts and its completeness do not depend on the order in which the
    retained jobs arrive, provided ids are distinct and each retry has one reported status.
    Neither does a component's row when no two jobs failed at the same time under the same index.
  */
  lemma OrderDoesNotMatter(jobs: seq<Job>, others: seq<Job>, components: seq<seq<Id>>, components': seq<seq<Id>>,
                           nodes: map<Id, Job>, nodes': map<Id, Job>, statuses: map<Id, string>, statuses': map<Id, string>, c: seq<Id>)
    returns (d: seq<Id>)
    requires SameJobs(jobs, others) && DistinctJobs(jobs) && OneStatusEach(jobs)
    requires IsPartition(jobs, components) && IsPartition(others, components')
    requires IsNodes(jobs, nodes) && IsNodes(others, nodes') && IsStatuses(jobs, statuses) && IsStatuses(others, statuses')
    requires c in components
    ensures d in components' && (forall x :: x in c <==> x in d)
    ensures Attempts(nodes, statuses, c) == Attempts(nodes', statuses', d)
    ensures AllKnown(nodes, statuses, c) == AllKnown(nodes', statuses', d)
    ensures WasCompleted(statuses, c) == WasCompleted(statuses', d)
    ensures DistinctTimes(jobs) ==> forall presentable :: RowsOf(nodes, statuses, presentable, [c]) == RowsOf(nodes', statuses', presentable, [d])
  {
    NodesAreUnique(jobs, others, nodes, nodes');
    StatusesAreUnique(jobs, others, statuses, statuses');
    hide DistinctJobs, OneStatusEach, IsNodes, IsStatuses, Connected;
    var x := c[0];
    ConnectedToItself(jobs, x);
    FlatHas(components, x);
    assert Mentioned(others, x) by {
      assert Mentioned(jobs, x);
    }
    FlatHas(components', x);
    hide SameJobs, Mentioned, Flat, NoRepeats;
    d :| d in components' && x in d;
    SharedIdSharedComponent(jobs, others, c, d, x);
    AttemptsIgnoreOrder(nodes, statuses, c, d);
    hide Attempts, AllKnown, WasCompleted;
    forall presentable: Job -> bool | DistinctTimes(jobs)
      ensures RowsOf(nodes, statuses, presentable, [c]) == RowsOf(nodes', statuses', presentable, [d])
    {
      RowsOfOne(nodes, statuses, presentable, c);
      RowsOfOne(nodes, statuses, presentable, d);
      SameLead(jobs, nodes, c, d);
    }
  }
}
