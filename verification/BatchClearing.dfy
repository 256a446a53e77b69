/**
  Clearing retained batches straight from the database. Candidates are read page by page in
  the order of their ids while the batches found so far are being deleted, and a batch is
  cleared only when each of its failed jobs is known to have no active retry.
*/
module BatchClearing {
  import opened Collections
  import opened Options

  /** A batch id stands for its rank in the order of the database; rank 0 is the empty id. */
  type Id = nat

  type JobId = string

  datatype Scope = Incomplete | Complete | Finished | Cancelled

  /** The column of failed job ids: absent, not decodable as a list, or a list of entries. */
  datatype Encoded = Absent | Undecodable | Entries(ids: seq<JobId>)

  datatype Row = Row(id: Id, cancelled: bool, finished: bool, pendingJobs: int, failedJobs: int, failedJobIds: Encoded)

  datatype Candidate = Candidate(id: Id, scope: Scope, failedJobIds: Option<seq<JobId>>)

  datatype Retry = Retry(id: JobId, status: string)

  /** What a job says about its retries. */
  datatype RetriedBy = NoProperty | NeverRetried | NotAList | Retries(entries: seq<Retry>)

  datatype Record = Record(id: JobId, retriedBy: RetriedBy)

  /** Horizon's answer to a request for jobs; none when the request fails. */
  type Repository = seq<JobId> -> Option<seq<Record>>

  const CLEAR_CANDIDATE_CHUNK_SIZE := 500

  const FAILED_JOB_CHUNK_SIZE := 500

  const DELETE_CHUNK_SIZE := 100

  // ----- What may be cleared -----

  /** Cancelled batches without pending jobs, finished ones, and those with nothing but failed jobs pending. */
  predicate IsCandidate(r: Row) {
    && r.id != 0
    && (if r.cancelled then r.pendingJobs == 0
        else r.finished || (r.failedJobs > 0 && r.pendingJobs <= r.failedJobs))
  }

  function ScopeOf(r: Row): Scope {
    if r.cancelled then Cancelled else if r.finished then Complete else Incomplete
  }

  predicate ScopeMatches(requested: Scope, candidate: Scope) {
    if requested == Finished then candidate == Complete || candidate == Incomplete else requested == candidate
  }

  /** The failed ids a batch states; none when they cannot be trusted. */
  function FailedIds(r: Row, proper: JobId -> bool): Option<seq<JobId>> {
    match r.failedJobIds
    case Absent => if r.failedJobs <= 0 then Some([]) else None
    case Undecodable => None
    case Entries(ids) =>
      if (forall id :: id in ids ==> proper(id)) && NoRepeats(ids) && !(r.failedJobs > 0 && ids == []) then Some(ids) else None
  }

  predicate NoActiveRetry(r: Record) {
    match r.retriedBy
    case NoProperty => false
    case NeverRetried => true
    case NotAList => false
    case Retries(entries) => forall e :: e in entries ==> e.id != "" && e.status in {"completed", "failed"}
  }

  function RecordsOf(records: seq<Record>, id: JobId): seq<Record> {
    if records == [] then []
    else if records[0].id == id then [records[0]] + RecordsOf(records[1..], id)
    else RecordsOf(records[1..], id)
  }

  /** The job came back exactly once, and every retry of it is over. */
  predicate Confirmed(records: seq<Record>) {
    |records| == 1 && NoActiveRetry(records[0])
  }

  /** A candidate is clearable when its failed ids are readable and each of them is confirmed. */
  predicate Clearable(c: Candidate, stored: JobId -> seq<Record>) {
    c.failedJobIds.Some? && forall id :: id in c.failedJobIds.value ==> Confirmed(stored(id))
  }

  /** An answer holds, for each requested job, just what is stored about it, whatever else was requested. */
  ghost predicate Answers(repository: Repository, stored: JobId -> seq<Record>) {
    forall ids, id :: id in ids && repository(ids).Some? ==> RecordsOf(repository(ids).value, id) == stored(id)
  }

  ghost predicate NeverFails(repository: Repository) {
    forall ids :: repository(ids).Some?
  }

  /** Some request for the job fails. */
  ghost predicate Unanswered(repository: Repository, f: JobId) {
    exists request :: f in request && repository(request).None?
  }

  /** The job is confirmed by whichever request asks for it. */
  ghost predicate Sure(repository: Repository, stored: JobId -> seq<Record>, f: JobId) {
    Confirmed(stored(f)) && !Unanswered(repository, f)
  }

  ghost predicate SurelyClearable(repository: Repository, stored: JobId -> seq<Record>, c: Candidate) {
    c.failedJobIds.Some? && forall id :: id in c.failedJobIds.value ==> Sure(repository, stored, id)
  }

  function CandidateOf(r: Row, proper: JobId -> bool): Candidate {
    Candidate(r.id, ScopeOf(r), FailedIds(r, proper))
  }

  // ----- Verifying failed jobs -----

  method HasNoActiveRetry(r: Record) returns (over: bool)
    ensures over <==> NoActiveRetry(r)
  {
    match r.retriedBy
    case NoProperty => return false;
    case NeverRetried => return true;
    case NotAList => return false;
    case Retries(entries) =>
      for i := 0 to |entries|
        invariant forall k :: 0 <= k < i ==> entries[k].id != "" && entries[k].status in {"completed", "failed"}
      {
        if entries[i].id == "" || entries[i].status !in {"completed", "failed"} {
          return false;
        }
      }
      return true;
  }

  lemma {:induction false} RecordsOfMore(records: seq<Record>, r: Record, id: JobId)
    ensures RecordsOf(records + [r], id) == RecordsOf(records, id) + if r.id == id then [r] else []
    decreases |records|
  {
    if records == [] {
      assert records + [r] == [r] && [r][1..] == [];
    } else {
      assert (records + [r])[0] == records[0] && (records + [r])[1..] == records[1..] + [r];
      RecordsOfMore(records[1..], r, id);
    }
  }

  /** The requested jobs that come back once and without an active retry; none when the request fails. */
  method VerifiedFailedParents(repository: Repository, failedJobIds: seq<JobId>) returns (verified: set<JobId>)
    ensures forall id :: id in verified <==>
              id in failedJobIds && repository(failedJobIds).Some? && Confirmed(RecordsOf(repository(failedJobIds).value, id))
    ensures forall id :: id in verified <==>
              id in failedJobIds && repository(failedJobIds).Some? && BackOnce(repository(failedJobIds).value, id)
  {
    hide RecordsOf, NoActiveRetry, BackOnce;
    var answer := repository(failedJobIds);
    if answer.None? {
      return {};
    }
    var jobs := answer.value;
    var seen: set<JobId>, duplicates: set<JobId> := {}, {};
    verified := {};
    NothingRecorded();
    for i := 0 to |jobs|
      invariant forall id :: Sorted(jobs[..i], id, failedJobIds, id in seen, id in duplicates, id in verified)
    {
      var job := jobs[i];
      assert jobs[..i + 1] == jobs[..i] + [job];
      forall id
        ensures RecordsOf(jobs[..i + 1], id) == RecordsOf(jobs[..i], id) + if job.id == id then [job] else []
      {
        RecordsOfMore(jobs[..i], job, id);
      }
      if job.id in failedJobIds {
        if job.id in seen {
          duplicates := duplicates + {job.id};
        } else {
          seen := seen + {job.id};
          var over := HasNoActiveRetry(job);
          if over {
            verified := verified + {job.id};
          }
        }
      }
    }
    assert jobs[..|jobs|] == jobs;
    verified := verified - duplicates;
    forall id
      ensures Confirmed(RecordsOf(jobs, id)) <==> BackOnce(jobs, id)
    {
      ConfirmedIsBackOnce(jobs, id);
    }
  }

  /** How a requested job is sorted after some records: seen, seen twice, and by its first record. */
  ghost predicate Sorted(records: seq<Record>, id: JobId, requested: seq<JobId>, seen: bool, duplicate: bool, verified: bool) {
    var own := RecordsOf(records, id);
    if id !in requested then !seen && !duplicate && !verified
    else
      && (seen <==> |own| > 0) && (duplicate <==> |own| > 1) && (verified <==> |own| > 0 && NoActiveRetry(own[0]))
  }

  lemma NothingRecorded()
    ensures forall id :: RecordsOf([], id) == []
  {
  }

  /** Some candidate of that id states the failed job. */
  ghost predicate States(candidates: seq<Candidate>, f: JobId, id: Id) {
    exists c :: c in candidates && c.id == id && c.failedJobIds.Some? && f in c.failedJobIds.value
  }

  lemma StatesMore(candidates: seq<Candidate>, c: Candidate)
    ensures forall f, id :: States(candidates + [c], f, id) <==>
              States(candidates, f, id) || (c.id == id && c.failedJobIds.Some? && f in c.failedJobIds.value)
  {
    assert c in candidates + [c];
  }

  lemma OnlyItsOwn(candidates: seq<Candidate>, c: Candidate)
    requires c in candidates && forall i, j :: 0 <= i < j < |candidates| ==> candidates[i].id != candidates[j].id
    ensures forall f :: States(candidates, f, c.id) <==> c.failedJobIds.Some? && f in c.failedJobIds.value
    ensures forall d :: d in candidates && d.id == c.id ==> d == c
  {
  }

  predicate Lists(m: map<JobId, set<Id>>, f: JobId, id: Id) {
    f in m && id in m[f]
  }

  function Indexed(m: map<JobId, set<Id>>, failedJobIds: seq<JobId>, id: Id): (r: map<JobId, set<Id>>)
    ensures forall f, x :: Lists(r, f, x) <==> Lists(m, f, x) || (f in failedJobIds && x == id)
    decreases |failedJobIds|
  {
    if failedJobIds == [] then m
    else
      var f := failedJobIds[0];
      var n := m[f := (if f in m then m[f] else {}) + {id}];
      assert forall g, x :: Lists(n, g, x) <==> Lists(m, g, x) || (g == f && x == id);
      assert forall g :: g in failedJobIds <==> g == f || g in failedJobIds[1..];
      Indexed(n, failedJobIds[1..], id)
  }

  lemma ChunkIsVerified(repository: Repository, stored: JobId -> seq<Record>, chunk: seq<JobId>, verified: set<JobId>)
    requires Answers(repository, stored)
    requires forall id :: id in verified <==>
               id in chunk && repository(chunk).Some? && Confirmed(RecordsOf(repository(chunk).value, id))
    ensures forall f :: f in verified ==> f in chunk && Confirmed(stored(f))
    ensures forall f :: f in chunk && Sure(repository, stored, f) ==> f in verified
  {
    hide Confirmed, RecordsOf;
    assert forall f :: f in chunk && repository(chunk).None? ==> Unanswered(repository, f);
  }

  /** The readable candidates, and the candidates by the failed jobs they state. */
  method IndexCandidates(candidates: seq<Candidate>) returns (readable: set<Id>, byFailedJob: map<JobId, set<Id>>)
    requires forall i, j :: 0 <= i < j < |candidates| ==> candidates[i].id != candidates[j].id
    ensures forall c :: c in candidates ==> (c.id in readable <==> c.failedJobIds.Some?)
    ensures forall f, id :: Lists(byFailedJob, f, id) <==> States(candidates, f, id)
  {
    hide States, Indexed;
    readable, byFailedJob := {}, map[];
    assert forall f, id :: !States([], f, id) by {
      NothingStated();
    }
    for i := 0 to |candidates|
      invariant forall k :: 0 <= k < i ==> (candidates[k].id in readable <==> candidates[k].failedJobIds.Some?)
      invariant forall id :: id in readable ==> exists k :: 0 <= k < i && candidates[k].id == id
      invariant forall f, id :: Lists(byFailedJob, f, id) <==> States(candidates[..i], f, id)
    {
      var c := candidates[i];
      assert candidates[..i + 1] == candidates[..i] + [c];
      StatesMore(candidates[..i], c);
      if c.failedJobIds.Some? {
        readable := readable + {c.id};
        byFailedJob := Indexed(byFailedJob, c.failedJobIds.value, c.id);
      }
    }
    assert candidates[..|candidates|] == candidates;
  }

  lemma NothingStated()
    ensures forall f, id :: !States([], f, id)
  {
  }

  /** A candidate is struck out by each of its failed jobs that is not verified, in whichever chunk that job is asked for. */
  method StrikeUnverified(repository: Repository, ghost stored: JobId -> seq<Record>, readable: set<Id>, byFailedJob: map<JobId, set<Id>>)
    returns (clearable: set<Id>)
    requires Answers(repository, stored)
    ensures clearable <= readable
    ensures forall id, f :: id in clearable && Lists(byFailedJob, f, id) ==> Confirmed(stored(f))
    ensures forall id :: id in readable && (forall f :: Lists(byFailedJob, f, id) ==> Sure(repository, stored, f)) ==> id in clearable
  {
    hide Confirmed, Answers, Sure, RecordsOf;
    clearable := readable;
    var keys := Listing(byFailedJob.Keys);
    var i := 0;
    while i < |keys|
      invariant 0 <= i <= |keys| && clearable <= readable
      invariant forall id, k :: id in clearable && 0 <= k < i && Lists(byFailedJob, keys[k], id) ==> Confirmed(stored(keys[k]))
      invariant forall id :: id in readable && id !in clearable ==>
                  exists k :: 0 <= k < i && Lists(byFailedJob, keys[k], id) && !Sure(repository, stored, keys[k])
    {
      var end := if i + FAILED_JOB_CHUNK_SIZE < |keys| then i + FAILED_JOB_CHUNK_SIZE else |keys|;
      var chunk := keys[i..end];
      var verified := VerifiedFailedParents(repository, chunk);
      ChunkIsVerified(repository, stored, chunk, verified);
      ghost var former := clearable;
      for j := 0 to |chunk|
        invariant clearable <= former
        invariant forall id, k :: id in clearable && 0 <= k < j && Lists(byFailedJob, chunk[k], id) ==> chunk[k] in verified
        invariant forall id :: id in former && id !in clearable ==>
                    exists k :: 0 <= k < j && Lists(byFailedJob, chunk[k], id) && chunk[k] !in verified
      {
        if chunk[j] !in verified {
          clearable := clearable - byFailedJob[chunk[j]];
        }
      }
      ChunkStrikes(repository, stored, byFailedJob, keys, i, end, verified, readable, former, clearable);
      i := end;
    }
  }

  lemma ChunkStrikes(repository: Repository, stored: JobId -> seq<Record>, byFailedJob: map<JobId, set<Id>>, keys: seq<JobId>,
                     i: nat, end: nat, verified: set<JobId>, readable: set<Id>, former: set<Id>, clearable: set<Id>)
    requires i <= end <= |keys| && (forall k :: 0 <= k < |keys| ==> keys[k] in byFailedJob) && clearable <= former
    requires forall f :: f in verified ==> Confirmed(stored(f))
    requires forall f :: f in keys[i..end] && Sure(repository, stored, f) ==> f in verified
    requires forall id, k :: id in former && 0 <= k < i && Lists(byFailedJob, keys[k], id) ==> Confirmed(stored(keys[k]))
    requires forall id :: id in readable && id !in former ==>
               exists k :: 0 <= k < i && Lists(byFailedJob, keys[k], id) && !Sure(repository, stored, keys[k])
    requires forall id, k :: id in clearable && 0 <= k < end - i && Lists(byFailedJob, keys[i..end][k], id) ==> keys[i..end][k] in verified
    requires forall id :: id in former && id !in clearable ==>
               exists k :: 0 <= k < end - i && Lists(byFailedJob, keys[i..end][k], id) && keys[i..end][k] !in verified
    ensures forall id, k :: id in clearable && 0 <= k < end && Lists(byFailedJob, keys[k], id) ==> Confirmed(stored(keys[k]))
    ensures forall id :: id in readable && id !in clearable ==>
              exists k :: 0 <= k < end && Lists(byFailedJob, keys[k], id) && !Sure(repository, stored, keys[k])
  {
    hide Confirmed, Sure;
    var chunk := keys[i..end];
    assert forall k :: i <= k < end ==> keys[k] == chunk[k - i];
    forall id | id in readable && id !in clearable
      ensures exists k :: 0 <= k < end && Lists(byFailedJob, keys[k], id) && !Sure(repository, stored, keys[k])
    {
      if id in former {
        var k :| 0 <= k < end - i && Lists(byFailedJob, chunk[k], id) && chunk[k] !in verified;
        assert chunk[k] == keys[i + k] && chunk[k] in chunk;
      }
    }
  }

  /** The candidates of a page that may be cleared: a candidate is withheld only for a failed job of its own. */
  method ClearableCandidateIds(repository: Repository, ghost stored: JobId -> seq<Record>, candidates: seq<Candidate>)
    returns (clearable: set<Id>)
    requires forall i, j :: 0 <= i < j < |candidates| ==> candidates[i].id != candidates[j].id
    requires Answers(repository, stored)
    ensures forall c :: c in candidates && c.id in clearable ==> Clearable(c, stored)
    ensures forall c :: c in candidates && SurelyClearable(repository, stored, c) ==> c.id in clearable
  {
    hide Confirmed, Answers, Sure, States;
    var readable, byFailedJob := IndexCandidates(candidates);
    clearable := StrikeUnverified(repository, stored, readable, byFailedJob);
    forall c | c in candidates
      ensures c.id in clearable ==> Clearable(c, stored)
      ensures SurelyClearable(repository, stored, c) ==> c.id in clearable
    {
      OnlyItsOwn(candidates, c);
    }
  }

  // ----- The table and its pages -----

  /** What the caller knows besides the rows: which entries count as job ids, and what Horizon stores. */
  datatype Knowledge = Knowledge(proper: JobId -> bool, stored: JobId -> seq<Record>)

  /** A batch that clearing a scope is to delete. */
  predicate Wanted(k: Knowledge, scope: Scope, r: Row) {
    IsCandidate(r) && ScopeMatches(scope, ScopeOf(r)) && Clearable(CandidateOf(r, k.proper), k.stored)
  }

  function ClearableIn(k: Knowledge, scope: Scope, rows: map<Id, Row>): set<Id> {
    set id | id in rows && Wanted(k, scope, rows[id])
  }

  ghost predicate Keyed(rows: map<Id, Row>) {
    forall id :: id in rows ==> rows[id].id == id
  }

  /** The candidate rows beyond an id, by ascending id, at most a page of them; no row has id 0. */
  ghost predicate IsPage(rows: map<Id, Row>, lastId: Id, page: seq<Row>) {
    && |page| <= CLEAR_CANDIDATE_CHUNK_SIZE
    && (forall i :: 0 <= i < |page| ==>
          page[i].id in rows && rows[page[i].id] == page[i] && IsCandidate(page[i]) && page[i].id > lastId)
    && (forall i, j :: 0 <= i < j < |page| ==> page[i].id < page[j].id)
    && (forall id :: id in rows && IsCandidate(rows[id]) && id > lastId ==>
          rows[id] in page || (|page| == CLEAR_CANDIDATE_CHUNK_SIZE && id > page[|page| - 1].id))
  }

  method SelectPage(rows: map<Id, Row>, lastId: Id) returns (page: seq<Row>)
    requires Keyed(rows)
    ensures IsPage(rows, lastId, page)
  {
    hide IsCandidate;
    var left := set id | id in rows && IsCandidate(rows[id]) && id > lastId;
    page := [];
    while left != {} && |page| < CLEAR_CANDIDATE_CHUNK_SIZE
      invariant |page| <= CLEAR_CANDIDATE_CHUNK_SIZE
      invariant forall id :: id in left ==> id in rows && IsCandidate(rows[id]) && id > lastId
      invariant forall i :: 0 <= i < |page| ==>
                  page[i].id in rows && rows[page[i].id] == page[i] && IsCandidate(page[i]) && page[i].id > lastId
      invariant forall i, j :: 0 <= i < j < |page| ==> page[i].id < page[j].id
      invariant forall i, id :: 0 <= i < |page| && id in left ==> page[i].id < id
      invariant forall id :: id in rows && IsCandidate(rows[id]) && id > lastId ==> rows[id] in page || id in left
      decreases left
    {
      var id := Smallest(left);
      page := page + [rows[id]];
      left := left - {id};
    }
  }

  /** A wanted batch none of whose failed jobs some request fails for. */
  ghost predicate Expected(repository: Repository, k: Knowledge, scope: Scope, r: Row) {
    Wanted(k, scope, r) && SurelyClearable(repository, k.stored, CandidateOf(r, k.proper))
  }

  /** Wanted batches up to an id, by ascending id, and all of them that may be expected to go. */
  ghost predicate Gathered(repository: Repository, k: Knowledge, scope: Scope, rows: map<Id, Row>, upTo: Id, done: seq<Id>) {
    && Ascending(done)
    && (forall id :: id in done ==> id in rows && Wanted(k, scope, rows[id]) && id <= upTo)
    && (forall id :: id in rows && Expected(repository, k, scope, rows[id]) && id <= upTo ==> id in done)
  }

  /** The id up to which the first `n` rows of a page have been dealt with. */
  function Reached(page: seq<Row>, lastId: Id, n: nat): Id
    requires n <= |page|
  {
    if n == 0 then lastId else page[n - 1].id
  }

  /** One more row of a page: its id is appended if it is clearable and in scope. */
  lemma GatherMore(repository: Repository, k: Knowledge, scope: Scope, rows: map<Id, Row>, gone: set<Id>, page: seq<Row>, lastId: Id,
                   n: nat, done: seq<Id>, taken: bool)
    requires Keyed(rows) && n < |page| && IsPage(rows - gone, lastId, page) && (forall id :: id in gone ==> id <= lastId)
    requires Gathered(repository, k, scope, rows, Reached(page, lastId, n), done)
    requires taken ==> Wanted(k, scope, page[n])
    requires Expected(repository, k, scope, page[n]) ==> taken
    ensures Gathered(repository, k, scope, rows, page[n].id, if taken then done + [page[n].id] else done)
  {
    var id := page[n].id;
    assert id > Reached(page, lastId, n);
    assert id in rows && rows[id] == page[n];
    forall x | x in rows && IsCandidate(rows[x]) && x <= id && x > Reached(page, lastId, n)
      ensures x == id
    {
      NothingSkipped(rows, gone, page, lastId, n, x);
    }
    WantedIsCandidate(k, scope);
    hide IsPage, Wanted, IsCandidate, Keyed, SurelyClearable;
    GatherOne(repository, k, scope, rows, Reached(page, lastId, n), id, done, taken);
  }

  /** Between the last id gathered and the next one there is nothing wanted. */
  lemma GatherOne(repository: Repository, k: Knowledge, scope: Scope, rows: map<Id, Row>, upTo: Id, id: Id, done: seq<Id>, taken: bool)
    requires Gathered(repository, k, scope, rows, upTo, done) && upTo < id && id in rows
    requires forall x :: x in rows && Wanted(k, scope, rows[x]) && upTo < x <= id ==> x == id
    requires (taken ==> Wanted(k, scope, rows[id])) && (Expected(repository, k, scope, rows[id]) ==> taken)
    ensures Gathered(repository, k, scope, rows, id, if taken then done + [id] else done)
  {
    if taken {
      AscendingMore(done, id);
    }
    hide Wanted, Ascending, SurelyClearable;
    var longer := done + [id];
    assert forall x :: x in longer <==> x in done || x == id;
  }

  lemma AscendingMore(ids: seq<Id>, id: Id)
    requires Ascending(ids) && forall x :: x in ids ==> x < id
    ensures Ascending(ids + [id])
  {
    assert forall i :: 0 <= i < |ids| ==> ids[i] in ids;
  }

  lemma WantedIsCandidate(k: Knowledge, scope: Scope)
    ensures forall r :: Wanted(k, scope, r) ==> IsCandidate(r)
  {
  }

  lemma NothingSkipped(rows: map<Id, Row>, gone: set<Id>, page: seq<Row>, lastId: Id, n: nat, x: Id)
    requires Keyed(rows) && n < |page| && IsPage(rows - gone, lastId, page) && (forall id :: id in gone ==> id <= lastId)
    requires x in rows && IsCandidate(rows[x]) && Reached(page, lastId, n) < x <= page[n].id
    ensures x == page[n].id
  {
    hide IsCandidate;
    assert x > lastId && x !in gone by {
      assert n > 0 ==> page[n - 1].id > lastId;
    }
    assert x in rows - gone && (rows - gone)[x] == rows[x];
    assert n < |page| - 1 ==> page[n].id < page[|page| - 1].id;
    assert rows[x] in page;
    var i :| 0 <= i < |page| && page[i] == rows[x];
    assert page[i].id == x;
  }

  /** A short page leaves nothing beyond it. */
  lemma ShortPageEnds(repository: Repository, k: Knowledge, scope: Scope, rows: map<Id, Row>, gone: set<Id>, page: seq<Row>, lastId: Id,
                      done: seq<Id>)
    requires Keyed(rows) && IsPage(rows - gone, lastId, page) && (forall id :: id in gone ==> id <= lastId)
    requires |page| < CLEAR_CANDIDATE_CHUNK_SIZE && Gathered(repository, k, scope, rows, Reached(page, lastId, |page|), done)
    ensures ListedAll(repository, k, scope, rows, done)
  {
    forall x | x in rows && IsCandidate(rows[x])
      ensures x <= Reached(page, lastId, |page|)
    {
      if x > lastId {
        assert (rows - gone)[x] == rows[x];
        var i :| 0 <= i < |page| && page[i] == rows[x];
        assert i < |page| - 1 ==> page[i].id < page[|page| - 1].id;
      } else if |page| > 0 {
        assert page[|page| - 1].id > lastId;
      }
    }
    WantedIsCandidate(k, scope);
    hide IsPage, Wanted, Reached, IsCandidate, SurelyClearable;
  }

  lemma GatheredNothing(repository: Repository, k: Knowledge, scope: Scope, rows: map<Id, Row>)
    requires Keyed(rows)
    ensures Gathered(repository, k, scope, rows, 0, []) && rows - {} == rows && Elements<Id>([]) == {}
  {
    assert forall r :: Wanted(k, scope, r) ==> r.id != 0;
    assert forall id :: id in rows && Wanted(k, scope, rows[id]) ==> rows[id].id == id;
  }

  /** The candidates of a page, and which of them may be cleared. */
  method ClassifyPage(repository: Repository, k: Knowledge, rows: map<Id, Row>, lastId: Id) returns (page: seq<Row>, clearable: set<Id>)
    requires Keyed(rows) && Answers(repository, k.stored)
    ensures IsPage(rows, lastId, page) && |page| <= CLEAR_CANDIDATE_CHUNK_SIZE
    ensures forall i :: 0 <= i < |page| && page[i].id in clearable ==> Clearable(CandidateOf(page[i], k.proper), k.stored)
    ensures forall i :: 0 <= i < |page| && SurelyClearable(repository, k.stored, CandidateOf(page[i], k.proper)) ==> page[i].id in clearable
  {
    hide Answers, IsCandidate, Clearable, SurelyClearable;
    page := SelectPage(rows, lastId);
    clearable := {};
    if page != [] {
      var candidates := seq(|page|, i requires 0 <= i < |page| => CandidateOf(page[i], k.proper));
      assert forall i :: 0 <= i < |page| ==> candidates[i] in candidates && candidates[i].id == page[i].id;
      clearable := ClearableCandidateIds(repository, k.stored, candidates);
    }
  }

  class BatchTable {
    var rows: map<Id, Row>

    constructor (rows: map<Id, Row>)
      ensures this.rows == rows
    {
      this.rows := rows;
    }

    /** One repository transaction deletes a chunk. */
    method DeleteAll(chunk: seq<Id>)
      modifies this
      ensures rows == old(rows) - Elements(chunk)
    {
      ghost var before := rows;
      for i := 0 to |chunk|
        invariant rows == before - Elements(chunk[..i])
      {
        rows := rows - {chunk[i]};
        assert Elements(chunk[..i + 1]) == Elements(chunk[..i]) + {chunk[i]};
      }
      assert chunk[..|chunk|] == chunk;
    }

    /**
      Clears a scope: while the pages are still being read, chunks of the ids found so far are
      deleted. Each batch that was clearable at the start goes exactly once, and no other.
    */
    method ClearBatches(repository: Repository, k: Knowledge, scope: Scope) returns (cleared: nat, ghost deleted: seq<Id>)
      requires Keyed(rows) && Answers(repository, k.stored)
      modifies this
      ensures Ascending(deleted) && cleared == |deleted| && rows == old(rows) - Elements(deleted)
      ensures forall id :: id in deleted ==> id in old(rows) && MayGo(k, scope, old(rows)[id])
      ensures forall id :: id in old(rows) && MustGo(repository, k, scope, old(rows)[id]) ==> id in deleted
      ensures NeverFails(repository) ==>
                Elements(deleted) == ClearableIn(k, scope, old(rows)) && cleared == |ClearableIn(k, scope, old(rows))|
    {
      hide Answers, NeverFails, IsPage, Keyed, Gathered, Wanted, IsCandidate, Clearable, ClearableIn, CandidateOf, Ascending, Elements;
      hide SurelyClearable, Expected, MayGo, MustGo, ListedAll;
      ghost var before := rows;
      var buffer: seq<Id> := [];
      var lastId, more := 0, true;
      cleared, deleted := 0, [];
      GatheredNothing(repository, k, scope, rows);
      assert deleted + buffer == [];
      while more
        invariant Keyed(before) && |buffer| < DELETE_CHUNK_SIZE && cleared == |deleted|
        invariant rows == before - Elements(deleted)
        invariant more ==> Gathered(repository, k, scope, before, lastId, deleted + buffer)
        invariant !more ==> ListedAll(repository, k, scope, before, deleted + buffer)
        decreases more, Beyond(before, lastId)
      {
        KeyedRest(before, Elements(deleted));
        ghost var gone := deleted;
        var page, clearable := ClassifyPage(repository, k, rows, lastId);
        PageBasics(repository, k, scope, before, gone + buffer, Elements(gone), lastId);
        for i := 0 to |page|
          invariant |buffer| < DELETE_CHUNK_SIZE && cleared == |deleted|
          invariant rows == before - Elements(deleted)
          invariant Gathered(repository, k, scope, before, Reached(page, lastId, i), deleted + buffer)
        {
          var r := page[i];
          var taken := r.id in clearable && ScopeMatches(scope, ScopeOf(r));
          TakenIsWanted(repository, k, scope, before - Elements(gone), page, lastId, i, clearable);
          GatherMore(repository, k, scope, before, Elements(gone), page, lastId, i, deleted + buffer, taken);
          if taken {
            assert deleted + (buffer + [r.id]) == (deleted + buffer) + [r.id];
            buffer := buffer + [r.id];
            if |buffer| == DELETE_CHUNK_SIZE {
              ElementsConcat(deleted, buffer);
              LessTwice(before, Elements(deleted), Elements(buffer));
              DeleteAll(buffer);
              assert deleted + buffer == (deleted + buffer) + [];
              cleared, deleted, buffer := cleared + |buffer|, deleted + buffer, [];
            }
          }
        }
        more := |page| == CLEAR_CANDIDATE_CHUNK_SIZE;
        if more {
          BeyondShrinks(before, Elements(gone), page, lastId);
          lastId := page[|page| - 1].id;
        } else {
          ShortPageEnds(repository, k, scope, before, Elements(gone), page, lastId, deleted + buffer);
        }
      }
      if buffer != [] {
        ElementsConcat(deleted, buffer);
        LessTwice(before, Elements(deleted), Elements(buffer));
        DeleteAll(buffer);
        cleared, deleted := cleared + |buffer|, deleted + buffer;
      } else {
        assert deleted + buffer == deleted;
      }
      AllListed(repository, k, scope, before, deleted);
    }
  }

  /** Counts the clearable batches of each scope without touching them. */
  method DatabaseCounts(repository: Repository, k: Knowledge, rows: map<Id, Row>) returns (complete: nat, incomplete: nat, cancelled: nat)
    requires Keyed(rows) && Answers(repository, k.stored)
    ensures NeverFails(repository) ==>
              && complete == |ClearableIn(k, Complete, rows)| && incomplete == |ClearableIn(k, Incomplete, rows)|
              && cancelled == |ClearableIn(k, Cancelled, rows)|
              && complete + incomplete == |ClearableIn(k, Finished, rows)|
    ensures complete <= |ClearableIn(k, Complete, rows)| && incomplete <= |ClearableIn(k, Incomplete, rows)|
    ensures cancelled <= |ClearableIn(k, Cancelled, rows)|
  {
    hide Answers, NeverFails, IsPage, Keyed, Gathered, Wanted, IsCandidate, Clearable, ClearableIn, CandidateOf, Ascending, Elements, ListedAll;
    hide SurelyClearable, Expected;
    ghost var c: seq<Id>, i: seq<Id>, x: seq<Id> := [], [], [];
    complete, incomplete, cancelled := 0, 0, 0;
    var lastId: Id, more := 0, true;
    GatheredNothing(repository, k, Complete, rows);
    GatheredNothing(repository, k, Incomplete, rows);
    GatheredNothing(repository, k, Cancelled, rows);
    while more
      invariant complete == |c| && incomplete == |i| && cancelled == |x|
      invariant more ==> Gathered(repository, k, Complete, rows, lastId, c) && Gathered(repository, k, Incomplete, rows, lastId, i)
                         && Gathered(repository, k, Cancelled, rows, lastId, x)
      invariant !more ==> ListedAll(repository, k, Complete, rows, c) && ListedAll(repository, k, Incomplete, rows, i)
                          && ListedAll(repository, k, Cancelled, rows, x)
      decreases more, Beyond(rows, lastId)
    {
      var page, clearable := ClassifyPage(repository, k, rows, lastId);
      for n := 0 to |page|
        invariant complete == |c| && incomplete == |i| && cancelled == |x|
        invariant Gathered(repository, k, Complete, rows, Reached(page, lastId, n), c)
        invariant Gathered(repository, k, Incomplete, rows, Reached(page, lastId, n), i)
        invariant Gathered(repository, k, Cancelled, rows, Reached(page, lastId, n), x)
      {
        var scope := ScopeOf(page[n]);
        var taken := page[n].id in clearable;
        c := CountRow(repository, k, Complete, rows, page, lastId, n, clearable, c);
        i := CountRow(repository, k, Incomplete, rows, page, lastId, n, clearable, i);
        x := CountRow(repository, k, Cancelled, rows, page, lastId, n, clearable, x);
        if taken {
          match scope
          case Complete => complete := complete + 1;
          case Incomplete => incomplete := incomplete + 1;
          case Cancelled => cancelled := cancelled + 1;
          case Finished =>
        }
      }
      more := |page| == CLEAR_CANDIDATE_CHUNK_SIZE;
      if more {
        assert rows - {} == rows;
        BeyondShrinks(rows, {}, page, lastId);
        lastId := page[|page| - 1].id;
      } else {
        CountEnds(repository, k, Complete, rows, page, lastId, c);
        CountEnds(repository, k, Incomplete, rows, page, lastId, i);
        CountEnds(repository, k, Cancelled, rows, page, lastId, x);
      }
    }
    ListedCount(repository, k, Complete, rows, c);
    ListedCount(repository, k, Incomplete, rows, i);
    ListedCount(repository, k, Cancelled, rows, x);
    FinishedIsBoth(k, rows);
  }

  lemma CountRow(repository: Repository, k: Knowledge, scope: Scope, rows: map<Id, Row>, page: seq<Row>, lastId: Id, n: nat,
                 clearable: set<Id>, done: seq<Id>) returns (more: seq<Id>)
    requires Keyed(rows) && n < |page| && IsPage(rows, lastId, page) && scope != Finished
    requires page[n].id in clearable ==> Clearable(CandidateOf(page[n], k.proper), k.stored)
    requires SurelyClearable(repository, k.stored, CandidateOf(page[n], k.proper)) ==> page[n].id in clearable
    requires Gathered(repository, k, scope, rows, Reached(page, lastId, n), done)
    ensures Gathered(repository, k, scope, rows, page[n].id, more)
    ensures |more| == |done| + if page[n].id in clearable && ScopeOf(page[n]) == scope then 1 else 0
  {
    var taken := page[n].id in clearable && ScopeMatches(scope, ScopeOf(page[n]));
    TakenIsWanted(repository, k, scope, rows, page, lastId, n, clearable);
    hide IsPage, Wanted, Clearable, CandidateOf, Gathered, SurelyClearable;
    assert rows - {} == rows;
    GatherMore(repository, k, scope, rows, {}, page, lastId, n, done, taken);
    more := if taken then done + [page[n].id] else done;
  }

  lemma CountEnds(repository: Repository, k: Knowledge, scope: Scope, rows: map<Id, Row>, page: seq<Row>, lastId: Id, done: seq<Id>)
    requires Keyed(rows) && IsPage(rows, lastId, page) && |page| < CLEAR_CANDIDATE_CHUNK_SIZE
    requires Gathered(repository, k, scope, rows, Reached(page, lastId, |page|), done)
    ensures ListedAll(repository, k, scope, rows, done)
  {
    hide IsPage, Wanted, Gathered, Keyed, Reached;
    assert rows - {} == rows;
    ShortPageEnds(repository, k, scope, rows, {}, page, lastId, done);
  }

  lemma ListedCount(repository: Repository, k: Knowledge, scope: Scope, rows: map<Id, Row>, done: seq<Id>)
    requires ListedAll(repository, k, scope, rows, done)
    ensures |done| <= |ClearableIn(k, scope, rows)| && (NeverFails(repository) ==> |done| == |ClearableIn(k, scope, rows)|)
  {
    ListedWithoutFailure(repository, k, scope, rows, done);
    hide ClearableIn;
    AscendingSize(done);
    SubsetSize(Elements(done), ClearableIn(k, scope, rows));
  }

  /** Without failed requests every wanted batch is to be expected. */
  lemma ListedWithoutFailure(repository: Repository, k: Knowledge, scope: Scope, rows: map<Id, Row>, done: seq<Id>)
    requires ListedAll(repository, k, scope, rows, done)
    ensures NeverFails(repository) ==> Elements(done) == ClearableIn(k, scope, rows)
  {
    hide Confirmed, IsCandidate, CandidateOf;
    if NeverFails(repository) {
      forall r | Wanted(k, scope, r)
        ensures Expected(repository, k, scope, r)
      {
      }
    }
  }

  /** A finished batch is a complete or an incomplete one, never both. */
  lemma FinishedIsBoth(k: Knowledge, rows: map<Id, Row>)
    ensures |ClearableIn(k, Finished, rows)| == |ClearableIn(k, Complete, rows)| + |ClearableIn(k, Incomplete, rows)|
  {
    hide Clearable, IsCandidate, CandidateOf;
    var a, b := ClearableIn(k, Complete, rows), ClearableIn(k, Incomplete, rows);
    assert a !! b;
    assert ClearableIn(k, Finished, rows) == a + b;
  }

  ghost predicate ListedAll(repository: Repository, k: Knowledge, scope: Scope, rows: map<Id, Row>, done: seq<Id>) {
    && Ascending(done) && Elements(done) <= ClearableIn(k, scope, rows)
    && (forall id :: id in rows && Expected(repository, k, scope, rows[id]) ==> id in done)
  }

  lemma AllListed(repository: Repository, k: Knowledge, scope: Scope, rows: map<Id, Row>, done: seq<Id>)
    requires ListedAll(repository, k, scope, rows, done)
    ensures Ascending(done)
    ensures forall id :: id in done ==> id in rows && MayGo(k, scope, rows[id])
    ensures forall id :: id in rows && MustGo(repository, k, scope, rows[id]) ==> id in done
    ensures NeverFails(repository) ==> Elements(done) == ClearableIn(k, scope, rows) && |done| == |ClearableIn(k, scope, rows)|
  {
    hide Wanted, Expected, MayGo, MustGo, NeverFails;
    AscendingSize(done);
    ListedWithoutFailure(repository, k, scope, rows, done);
    forall r
      ensures Wanted(k, scope, r) <==> MayGo(k, scope, r)
      ensures MustGo(repository, k, scope, r) ==> Expected(repository, k, scope, r)
    {
      WantedMayGo(repository, k, scope, r);
    }
    assert forall id :: id in done ==> id in Elements(done);
  }

  // ----- Which batches may go -----

  /** No retry of the job is still under way, as far as the record tells. */
  ghost predicate Settled(r: Record) {
    || r.retriedBy == NeverRetried
    || exists entries :: r.retriedBy == Retries(entries) && AllOver(entries)
  }

  ghost predicate AllOver(entries: seq<Retry>) {
    forall i :: 0 <= i < |entries| ==> entries[i].id != "" && (entries[i].status == "completed" || entries[i].status == "failed")
  }

  /** The failed jobs of the batch: none without failures, else those it lists, each a proper id and no id twice. */
  ghost predicate FailedJobsAre(r: Row, proper: JobId -> bool, ids: seq<JobId>) {
    || (r.failedJobIds == Absent && r.failedJobs <= 0 && ids == [])
    || (r.failedJobIds == Entries(ids) && NoRepeats(ids) && (ids == [] ==> r.failedJobs <= 0)
        && forall i :: 0 <= i < |ids| ==> proper(ids[i]))
  }

  /**
    The batch is over and in scope, and each of its failed jobs is stored once and settled: a cancelled batch is
    over when nothing is pending, any other when it is finished or only failed jobs are pending.
  */
  ghost predicate IsOver(k: Knowledge, scope: Scope, r: Row, failed: seq<JobId>) {
    && r.id != 0 && FailedJobsAre(r, k.proper, failed)
    && (r.cancelled ==> r.pendingJobs == 0)
    && (!r.cancelled && !r.finished ==> 0 < r.failedJobs && r.pendingJobs <= r.failedJobs)
    && (match scope
        case Cancelled => r.cancelled
        case Complete => !r.cancelled && r.finished
        case Incomplete => !r.cancelled && !r.finished
        case Finished => !r.cancelled)
    && (forall i :: 0 <= i < |failed| ==> |k.stored(failed[i])| == 1 && Settled(k.stored(failed[i])[0]))
  }

  ghost predicate MayGo(k: Knowledge, scope: Scope, r: Row) {
    exists failed :: IsOver(k, scope, r, failed)
  }

  /** The same, and no request for one of its failed jobs fails. */
  ghost predicate MustGo(repository: Repository, k: Knowledge, scope: Scope, r: Row) {
    exists failed :: IsOver(k, scope, r, failed) && forall i :: 0 <= i < |failed| ==> !Unanswered(repository, failed[i])
  }

  lemma SettledIs(r: Record)
    ensures Settled(r) <==> NoActiveRetry(r)
  {
    if NoActiveRetry(r) && r.retriedBy.Retries? {
      var entries := r.retriedBy.entries;
      assert forall i :: 0 <= i < |entries| ==> entries[i] in entries;
      assert r.retriedBy == Retries(entries);
    }
  }

  lemma FailedIdsAre(r: Row, proper: JobId -> bool)
    ensures forall ids :: FailedJobsAre(r, proper, ids) <==> FailedIds(r, proper) == Some(ids)
  {
    forall ids
      ensures FailedJobsAre(r, proper, ids) <==> FailedIds(r, proper) == Some(ids)
    {
      assert (forall id :: id in ids ==> proper(id)) <==> forall i :: 0 <= i < |ids| ==> proper(ids[i]);
    }
  }

  lemma AllConfirmed(k: Knowledge, failed: seq<JobId>)
    ensures (forall f :: f in failed ==> Confirmed(k.stored(f)))
       <==> forall i :: 0 <= i < |failed| ==> |k.stored(failed[i])| == 1 && Settled(k.stored(failed[i])[0])
  {
    hide Settled, NoActiveRetry;
    forall r
      ensures Settled(r) <==> NoActiveRetry(r)
    {
      SettledIs(r);
    }
    assert forall i :: 0 <= i < |failed| ==> failed[i] in failed;
  }

  lemma WantedMayGo(repository: Repository, k: Knowledge, scope: Scope, r: Row)
    ensures Wanted(k, scope, r) <==> MayGo(k, scope, r)
    ensures MustGo(repository, k, scope, r) <==> Expected(repository, k, scope, r)
  {
    hide Settled, Confirmed, Unanswered, FailedIds, FailedJobsAre;
    FailedIdsAre(r, k.proper);
    var c := CandidateOf(r, k.proper);
    forall failed
      ensures IsOver(k, scope, r, failed) <==> Wanted(k, scope, r) && c.failedJobIds == Some(failed)
    {
      AllConfirmed(k, failed);
    }
    if c.failedJobIds.Some? {
      var failed := c.failedJobIds.value;
      assert (forall f :: f in failed ==> !Unanswered(repository, f)) <==> forall i :: 0 <= i < |failed| ==> !Unanswered(repository, failed[i]);
    }
  }

  /** The answer holds the job once, and its record is settled. */
  ghost predicate BackOnce(records: seq<Record>, id: JobId) {
    exists i :: 0 <= i < |records| && records[i].id == id && Settled(records[i]) && OnlyAt(records, i, id)
  }

  ghost predicate OnlyAt(records: seq<Record>, i: int, id: JobId) {
    forall j :: 0 <= j < |records| && j != i ==> records[j].id != id
  }

  lemma {:induction false} NoneOf(records: seq<Record>, id: JobId)
    ensures RecordsOf(records, id) == [] <==> forall j :: 0 <= j < |records| ==> records[j].id != id
    decreases |records|
  {
    if records != [] {
      NoneOf(records[1..], id);
      assert forall j :: 0 < j < |records| ==> records[j] == records[1..][j - 1];
    }
  }

  lemma {:induction false} ConfirmedIsBackOnce(records: seq<Record>, id: JobId)
    ensures Confirmed(RecordsOf(records, id)) <==> BackOnce(records, id)
    decreases |records|
  {
    hide NoActiveRetry, Settled;
    if records != [] {
      var rest := records[1..];
      assert forall j :: 0 < j < |records| ==> records[j] == rest[j - 1];
      if records[0].id == id {
        SettledIs(records[0]);
        NoneOf(rest, id);
        if BackOnce(records, id) {
          var i :| 0 <= i < |records| && records[i].id == id && Settled(records[i]) && OnlyAt(records, i, id);
          assert i == 0;
        }
        if Confirmed(RecordsOf(records, id)) {
          assert OnlyAt(records, 0, id);
        }
      } else {
        ConfirmedIsBackOnce(rest, id);
        if BackOnce(rest, id) {
          var i :| 0 <= i < |rest| && rest[i].id == id && Settled(rest[i]) && OnlyAt(rest, i, id);
          assert records[i + 1] == rest[i] && OnlyAt(records, i + 1, id);
        }
        if BackOnce(records, id) {
          var i :| 0 <= i < |records| && records[i].id == id && Settled(records[i]) && OnlyAt(records, i, id);
          assert rest[i - 1] == records[i] && OnlyAt(rest, i - 1, id);
        }
      }
    }
  }

  function Beyond(rows: map<Id, Row>, lastId: Id): set<Id> {
    set id | id in rows && id > lastId
  }

  lemma KeyedRest(rows: map<Id, Row>, gone: set<Id>)
    requires Keyed(rows)
    ensures Keyed(rows - gone)
  {
  }

  lemma PageBasics(repository: Repository, k: Knowledge, scope: Scope, rows: map<Id, Row>, done: seq<Id>, gone: set<Id>, lastId: Id)
    requires Gathered(repository, k, scope, rows, lastId, done) && gone <= Elements(done)
    ensures forall id :: id in gone ==> id <= lastId
  {
  }

  lemma TakenIsWanted(repository: Repository, k: Knowledge, scope: Scope, rows: map<Id, Row>, page: seq<Row>, lastId: Id, i: nat,
                      clearable: set<Id>)
    requires IsPage(rows, lastId, page) && i < |page|
    requires page[i].id in clearable ==> Clearable(CandidateOf(page[i], k.proper), k.stored)
    requires SurelyClearable(repository, k.stored, CandidateOf(page[i], k.proper)) ==> page[i].id in clearable
    ensures page[i].id in clearable && ScopeMatches(scope, ScopeOf(page[i])) ==> Wanted(k, scope, page[i])
    ensures Expected(repository, k, scope, page[i]) ==> page[i].id in clearable && ScopeMatches(scope, ScopeOf(page[i]))
  {
  }

  lemma ElementsConcat(a: seq<Id>, b: seq<Id>)
    ensures Elements(a + b) == Elements(a) + Elements(b) && Elements(a) <= Elements(a + b)
  {
  }

  lemma LessTwice(rows: map<Id, Row>, a: set<Id>, b: set<Id>)
    ensures (rows - a) - b == rows - (a + b)
  {
  }

  lemma BeyondShrinks(rows: map<Id, Row>, gone: set<Id>, page: seq<Row>, lastId: Id)
    requires IsPage(rows - gone, lastId, page) && page != []
    ensures Beyond(rows, page[|page| - 1].id) < Beyond(rows, lastId)
  {
    var id := page[|page| - 1].id;
    assert id in Beyond(rows, lastId) && id !in Beyond(rows, id);
  }
}
