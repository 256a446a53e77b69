/**
  Bulk operations over a frozen sorted set of targets. A worker peeks the first hundred, acts on
  each of them, counts it and only then acknowledges it; a worker that is interrupted anywhere
  leaves the rest to the next one. `targets` is the sorted set in rank order, and the ghost `log`
  holds the commands of all workers, from which the rest of the state follows.
*/
module BulkOperations {
  import opened Collections
  import opened Options

  type Id = string

  datatype Job = Job(id: Id, connection: string, queue: string)

  datatype Outcome = Completed(total: nat) | Continuing(total: nat) | Interrupted | MissingState

  const CHUNK_SIZE := 100

  /** The jobs that came back, by id; a later one replaces an earlier one, and one without an id is dropped. */
  function Hydrated(jobs: seq<Job>): map<Id, Job> {
    if jobs == [] then map[]
    else
      var last := jobs[|jobs| - 1];
      var before := Hydrated(jobs[..|jobs| - 1]);
      if last.id == "" then before else before[last.id := last]
  }

  method Hydrate(jobs: seq<Job>) returns (hydrated: map<Id, Job>)
    ensures hydrated == Hydrated(jobs)
  {
    hydrated := map[];
    for i := 0 to |jobs|
      invariant hydrated == Hydrated(jobs[..i])
    {
      assert jobs[..i + 1][..i] == jobs[..i];
      if jobs[i].id != "" {
        hydrated := hydrated[jobs[i].id := jobs[i]];
      }
    }
    assert jobs[..|jobs|] == jobs;
  }

  /** A target is skipped for good when its job is gone or does not match the filters. */
  predicate Skips(jobs: map<Id, Job>, connection: Option<string>, queue: Option<string>, id: Id) {
    || id !in jobs
    || (connection.Some? && jobs[id].connection != connection.value)
    || (queue.Some? && jobs[id].queue != queue.value)
  }

  /** The last of the jobs with this id. */
  ghost predicate IsLastOf(jobs: seq<Job>, k: int, id: Id) {
    0 <= k < |jobs| && jobs[k].id == id && forall m :: k < m < |jobs| ==> jobs[m].id != id
  }

  /** A job came back for the id, and the last one that did is of the connection and the queue asked for. */
  ghost predicate BroughtBack(jobs: seq<Job>, connection: Option<string>, queue: Option<string>, id: Id) {
    id != "" && exists k :: IsLastOf(jobs, k, id) && Matches(jobs[k], connection, queue)
  }

  predicate Matches(j: Job, connection: Option<string>, queue: Option<string>) {
    (connection.Some? ==> j.connection == connection.value) && (queue.Some? ==> j.queue == queue.value)
  }

  lemma {:induction false} HydratedHasTheLast(jobs: seq<Job>, id: Id) returns (k: int)
    requires id in Hydrated(jobs)
    ensures id != "" && IsLastOf(jobs, k, id) && Hydrated(jobs)[id] == jobs[k]
    decreases |jobs|
  {
    hide IsLastOf;
    k := |jobs| - 1;
    if id == "" {
      k := HydratedHasTheLast(jobs[..k], id);
      assert false;
    } else if jobs[k].id != id {
      k := HydratedHasTheLast(jobs[..k], id);
      StillTheLast(jobs, k, id);
    } else {
      EndIsLast(jobs, id);
    }
  }

  lemma StillTheLast(jobs: seq<Job>, k: int, id: Id)
    requires jobs != [] && IsLastOf(jobs[..|jobs| - 1], k, id) && jobs[|jobs| - 1].id != id
    ensures IsLastOf(jobs, k, id) && jobs[k] == jobs[..|jobs| - 1][k]
  {
    assert forall m :: 0 <= m < |jobs| - 1 ==> jobs[m] == jobs[..|jobs| - 1][m];
  }

  lemma EndIsLast(jobs: seq<Job>, id: Id)
    requires jobs != [] && jobs[|jobs| - 1].id == id
    ensures IsLastOf(jobs, |jobs| - 1, id)
  {
  }

  lemma {:induction false} HydratedHasAll(jobs: seq<Job>, k: nat)
    requires k < |jobs| && jobs[k].id != ""
    ensures jobs[k].id in Hydrated(jobs)
    decreases |jobs|
  {
    if k < |jobs| - 1 {
      HydratedHasAll(jobs[..|jobs| - 1], k);
    }
  }

  lemma OneIsLast(jobs: seq<Job>, i: int, k: int, id: Id)
    requires IsLastOf(jobs, i, id) && IsLastOf(jobs, k, id)
    ensures i == k
  {
  }

  /** A target is acted on just when a matching job came back for it. */
  lemma SkipsIs(jobs: seq<Job>, connection: Option<string>, queue: Option<string>, id: Id)
    ensures Skips(Hydrated(jobs), connection, queue, id) <==> !BroughtBack(jobs, connection, queue, id)
  {
    if id in Hydrated(jobs) {
      var i := HydratedHasTheLast(jobs, id);
      forall k | IsLastOf(jobs, k, id)
        ensures k == i
      {
        OneIsLast(jobs, i, k, id);
      }
    } else if id != "" {
      forall k | IsLastOf(jobs, k, id)
        ensures false
      {
        HydratedHasAll(jobs, k);
      }
    }
  }

  // ----- Targets -----

  /** The ids that are not gone, in their order. */
  function Remaining(ids: seq<Id>, gone: set<Id>): seq<Id> {
    if ids == [] then [] else (if ids[0] in gone then [] else [ids[0]]) + Remaining(ids[1..], gone)
  }

  lemma {:induction false} RemainingIs(ids: seq<Id>, gone: set<Id>)
    ensures Elements(Remaining(ids, gone)) == Elements(ids) - gone
    ensures NoRepeats(ids) ==> NoRepeats(Remaining(ids, gone))
    decreases |ids|
  {
    if ids != [] {
      RemainingIs(ids[1..], gone);
      assert ids == [ids[0]] + ids[1..];
      var rest := Remaining(ids[1..], gone);
      assert Remaining(ids, gone) == if ids[0] in gone then rest else [ids[0]] + rest;
      if NoRepeats(ids) {
        assert ids[0] !in Elements(ids[1..]) && ids[0] !in Elements(rest);
      }
    }
  }

  lemma {:induction false} RemainingTwice(ids: seq<Id>, a: set<Id>, b: set<Id>)
    ensures Remaining(Remaining(ids, a), b) == Remaining(ids, a + b)
    decreases |ids|
  {
    if ids != [] {
      var rest := Remaining(ids[1..], a);
      RemainingTwice(ids[1..], a, b);
      assert Remaining(ids, a) == if ids[0] in a then rest else [ids[0]] + rest;
      assert ([ids[0]] + rest)[1..] == rest;
    }
  }

  lemma {:induction false} RemainingShrinks(ids: seq<Id>, a: set<Id>, b: set<Id>)
    requires a <= b
    ensures |Remaining(ids, b)| <= |Remaining(ids, a)|
    ensures (exists id :: id in ids && id in b && id !in a) ==> |Remaining(ids, b)| < |Remaining(ids, a)|
    decreases |ids|
  {
    if ids != [] {
      RemainingShrinks(ids[1..], a, b);
      assert forall id :: id in ids <==> id == ids[0] || id in ids[1..];
    }
  }

  lemma {:induction false} NothingGone(ids: seq<Id>)
    ensures Remaining(ids, {}) == ids
    decreases |ids|
  {
    if ids != [] {
      NothingGone(ids[1..]);
    }
  }

  predicate AreDigits(text: string) {
    text != "" && forall i :: 0 <= i < |text| ==> '0' <= text[i] <= '9'
  }

  /** PHP turns such a text into an integer when it is the key of an array. */
  predicate IsIntegerKey(id: Id) {
    var digits := if id != "" && id[0] == '-' then id[1..] else id;
    && AreDigits(digits)
    && (digits[0] == '0' ==> id == "0")
    && DecimalValue(digits) <= (if digits == id then 0x7FFF_FFFF_FFFF_FFFF else 0x8000_0000_0000_0000)
  }

  function DecimalValue(digits: string): int
    requires forall i :: 0 <= i < |digits| ==> '0' <= digits[i] <= '9'
  {
    if digits == "" then 0
    else 10 * DecimalValue(digits[..|digits| - 1]) + (digits[|digits| - 1] as int - '0' as int)
  }

  function DigitOf(n: int): (c: char)
    requires 0 <= n < 10
    ensures '0' <= c <= '9' && c as int - '0' as int == n
  {
    ('0' as int + n) as char
  }

  /** The decimal text of a number, without leading zeros. */
  ghost function Decimal(n: nat): string {
    if n < 10 then [DigitOf(n)] else Decimal(n / 10) + [DigitOf(n % 10)]
  }

  lemma {:induction false} DecimalReadsBack(n: nat)
    ensures AreDigits(Decimal(n)) && DecimalValue(Decimal(n)) == n && (Decimal(n)[0] == '0' ==> n == 0)
    decreases n
  {
    var text := Decimal(n);
    if n < 10 {
      assert text[..0] == "" && DecimalValue("") == 0;
    } else {
      DecimalReadsBack(n / 10);
      assert text[..|text| - 1] == Decimal(n / 10);
    }
  }

  lemma {:induction false} DigitsAreDecimal(text: string)
    requires AreDigits(text) && (text[0] == '0' ==> text == "0")
    ensures DecimalValue(text) >= 0 && Decimal(DecimalValue(text)) == text
    ensures text[0] != '0' ==> DecimalValue(text) > 0
    decreases |text|
  {
    var last := |text| - 1;
    if last == 0 {
      assert text[..0] == "" && DecimalValue("") == 0 && text == [text[0]];
    } else {
      DigitsAreDecimal(text[..last]);
      DecimalMore(DecimalValue(text[..last]), text[last] as int - '0' as int);
      assert text == text[..last] + [text[last]];
    }
  }

  lemma DecimalMore(n: nat, digit: int)
    requires n > 0 && 0 <= digit < 10
    ensures Decimal(10 * n + digit) == Decimal(n) + [DigitOf(digit)]
  {
    assert (10 * n + digit) / 10 == n && (10 * n + digit) % 10 == digit;
  }

  /** The members that become integers are the decimal texts of the 64-bit integers, and no others. */
  lemma IntegerKeysAreIntegers(id: Id)
    ensures IsIntegerKey(id)
       <==> || (exists n: nat :: n <= 0x7FFF_FFFF_FFFF_FFFF && id == Decimal(n))
            || (exists n: nat :: 0 < n <= 0x8000_0000_0000_0000 && id == "-" + Decimal(n))
  {
    var digits := if id != "" && id[0] == '-' then id[1..] else id;
    if IsIntegerKey(id) {
      DigitsAreDecimal(digits);
      assert digits != id ==> id == "-" + digits;
    }
    if n: nat :| n <= 0x7FFF_FFFF_FFFF_FFFF && id == Decimal(n) {
      DecimalReadsBack(n);
      if n == 0 {
        assert id == "0";
      }
    }
    if n: nat :| 0 < n <= 0x8000_0000_0000_0000 && id == "-" + Decimal(n) {
      DecimalReadsBack(n);
      assert digits == Decimal(n);
    }
  }

  /** The members that keep their type as keys of an array. */
  function TextKeys(members: seq<Id>): (r: seq<Id>)
    ensures forall id :: id in r <==> id in members && !IsIntegerKey(id)
    ensures NoRepeats(members) ==> NoRepeats(r)
  {
    if members == [] then []
    else
      var last := members[|members| - 1];
      var before := TextKeys(members[..|members| - 1]);
      assert members == members[..|members| - 1] + [last];
      if IsIntegerKey(last) then before else before + [last]
  }

  /** Ids added under rising scores: an id that comes again moves to the end. */
  function Rescored(ids: seq<Id>): (r: seq<Id>)
    ensures NoRepeats(r) && Elements(r) == Elements(ids) - {""}
  {
    if ids == [] then []
    else
      var last := ids[|ids| - 1];
      var before := Rescored(ids[..|ids| - 1]);
      assert ids == ids[..|ids| - 1] + [last];
      RemainingIs(before, {last});
      if last == "" then before else Remaining(before, {last}) + [last]
  }

  /** The non-empty ids, each where it comes last. */
  ghost function LastPlaces(ids: seq<Id>): seq<Id> {
    if ids == [] then []
    else if ids[0] == "" || ids[0] in ids[1..] then LastPlaces(ids[1..])
    else [ids[0]] + LastPlaces(ids[1..])
  }

  lemma {:induction false} LastPlacesMore(ids: seq<Id>, id: Id)
    ensures LastPlaces(ids + [id]) == Remaining(LastPlaces(ids), {id}) + if id == "" then [] else [id]
    decreases |ids|
  {
    if ids == [] {
      assert ids + [id] == [id] && [id][1..] == [];
      assert LastPlaces([id][1..]) == [];
    } else {
      var rest := LastPlaces(ids[1..]);
      assert (ids + [id])[0] == ids[0] && (ids + [id])[1..] == ids[1..] + [id];
      LastPlacesMore(ids[1..], id);
      assert ([ids[0]] + rest)[1..] == rest;
    }
  }

  lemma {:induction false} WithoutEmptyIds(ids: seq<Id>)
    requires "" !in ids
    ensures Remaining(ids, {""}) == ids
    decreases |ids|
  {
    if ids != [] {
      WithoutEmptyIds(ids[1..]);
    }
  }

  lemma {:induction false} NoEmptyPlaces(ids: seq<Id>)
    ensures "" !in LastPlaces(ids)
    decreases |ids|
  {
    if ids != [] {
      NoEmptyPlaces(ids[1..]);
    }
  }

  /** The targets stand in the order in which their ids came last. */
  lemma {:induction false} RescoredIsInLastOrder(ids: seq<Id>)
    ensures Rescored(ids) == LastPlaces(ids)
    decreases |ids|
  {
    if ids != [] {
      var before, last := ids[..|ids| - 1], ids[|ids| - 1];
      RescoredIsInLastOrder(before);
      assert ids == before + [last];
      LastPlacesMore(before, last);
      if last == "" {
        NoEmptyPlaces(before);
        WithoutEmptyIds(LastPlaces(before));
      }
    }
  }

  lemma {:induction false} RemainingMore(ids: seq<Id>, id: Id, gone: set<Id>)
    ensures Remaining(ids + [id], gone) == Remaining(ids, gone) + if id in gone then [] else [id]
    decreases |ids|
  {
    if ids == [] {
      assert ids + [id] == [id] && [id][1..] == [];
    } else {
      assert (ids + [id])[0] == ids[0] && (ids + [id])[1..] == ids[1..] + [id];
      RemainingMore(ids[1..], id, gone);
    }
  }

  /** The other members keep their rank order. */
  lemma {:induction false} TextKeysKeepOrder(members: seq<Id>, integers: set<Id>)
    requires forall id :: id in members ==> (id in integers <==> IsIntegerKey(id))
    ensures TextKeys(members) == Remaining(members, integers)
    decreases |members|
  {
    hide IsIntegerKey;
    if members != [] {
      var before, last := members[..|members| - 1], members[|members| - 1];
      assert members == before + [last];
      TextKeysKeepOrder(before, integers);
      RemainingMore(before, last, integers);
    }
  }

  // ----- What the workers have done -----

  datatype Event =
    | Deleted(id: Id)
    | Forgotten(id: Id)
    | Retried(id: Id, request: seq<Id>, success: bool)
    | Passed(id: Id, request: seq<Id>)
    | Counted(id: Id)
    | Acknowledged(id: Id)

  /**
    What must come right before an event: a target is forgotten after it was deleted, counted after it
    was forgotten or retried with success, and acknowledged after it was counted, retried without
    success, or passed over.
  */
  predicate Justified(log: seq<Event>, e: Event) {
    if e.Deleted? || e.Retried? || e.Passed? then true
    else if log == [] || log[|log| - 1].id != e.id then false
    else
      var last := log[|log| - 1];
      match e
      case Forgotten(_) => last.Deleted?
      case Counted(_) => last.Forgotten? || (last.Retried? && last.success)
      case Acknowledged(_) => last.Counted? || last.Passed? || (last.Retried? && !last.success)
  }

  ghost predicate InOrder(log: seq<Event>) {
    forall k :: 0 <= k < |log| ==> Justified(log[..k], log[k])
  }

  function AcknowledgedIn(log: seq<Event>): set<Id> {
    if log == [] then {}
    else
      var last := log[|log| - 1];
      AcknowledgedIn(log[..|log| - 1]) + if last.Acknowledged? then {last.id} else {}
  }

  /** The ids acknowledged right after they were counted. */
  function ConfirmedIn(log: seq<Event>): (r: set<Id>)
    ensures r <= AcknowledgedIn(log)
  {
    if log == [] then {}
    else
      var last := log[|log| - 1];
      ConfirmedIn(log[..|log| - 1]) + if last.Acknowledged? && |log| > 1 && log[|log| - 2] == Counted(last.id) then {last.id} else {}
  }

  function CountedIn(log: seq<Event>): nat {
    if log == [] then 0
    else CountedIn(log[..|log| - 1]) + if log[|log| - 1].Counted? then 1 else 0
  }

  /** An event that mutates a target: a deletion, or a retry that works. */
  predicate Succeeds(e: Event) {
    e.Deleted? || (e.Retried? && e.success)
  }

  function SuccessesIn(log: seq<Event>): nat {
    if log == [] then 0
    else SuccessesIn(log[..|log| - 1]) + if Succeeds(log[|log| - 1]) then 1 else 0
  }

  lemma Appended(log: seq<Event>, e: Event)
    ensures AcknowledgedIn(log + [e]) == AcknowledgedIn(log) + if e.Acknowledged? then {e.id} else {}
    ensures ConfirmedIn(log + [e]) == ConfirmedIn(log) + if e.Acknowledged? && log != [] && log[|log| - 1] == Counted(e.id) then {e.id} else {}
    ensures CountedIn(log + [e]) == CountedIn(log) + if e.Counted? then 1 else 0
    ensures SuccessesIn(log + [e]) == SuccessesIn(log) + if Succeeds(e) then 1 else 0
  {
    var more := log + [e];
    assert more[..|more| - 1] == log;
  }

  /** Whatever was confirmed was counted, and whatever was counted had succeeded. */
  lemma {:induction false} CountedBetween(log: seq<Event>)
    requires InOrder(log)
    ensures |ConfirmedIn(log)| + (if log != [] && log[|log| - 1].Counted? then 1 else 0) <= CountedIn(log)
    ensures CountedIn(log) + (if log != [] && (Succeeds(log[|log| - 1]) || log[|log| - 1].Forgotten?) then 1 else 0) <= SuccessesIn(log)
    decreases |log|
  {
    if log != [] {
      var before := log[..|log| - 1];
      forall k | 0 <= k < |before|
        ensures Justified(before[..k], before[k])
      {
        assert before[..k] == log[..k];
      }
      CountedBetween(before);
      assert Justified(before, log[|log| - 1]);
    }
  }

  lemma AppendedInOrder(log: seq<Event>, e: Event)
    requires InOrder(log) && Justified(log, e)
    ensures InOrder(log + [e])
  {
    hide Justified;
    var more := log + [e];
    assert log[..|log|] == log;
    forall k | 0 <= k < |more|
      ensures Justified(more[..k], more[k])
    {
      assert more[..k] == log[..k];
    }
  }

  lemma {:induction false} AcknowledgedIsLogged(log: seq<Event>, id: Id)
    ensures id in AcknowledgedIn(log) <==> exists k :: 0 <= k < |log| && log[k] == Acknowledged(id)
    decreases |log|
  {
    if log != [] {
      AcknowledgedIsLogged(log[..|log| - 1], id);
    }
  }

  /** The commands on one target of a clearing, and of a retry. */
  function ClearSteps(id: Id): (r: seq<Event>)
    ensures |r| == 4
  {
    [Deleted(id), Forgotten(id), Counted(id), Acknowledged(id)]
  }

  function RetrySteps(id: Id, request: seq<Id>, skips: bool, success: bool): seq<Event> {
    if skips then [Passed(id, request), Acknowledged(id)]
    else if success then [Retried(id, request, true), Counted(id), Acknowledged(id)]
    else [Retried(id, request, false), Acknowledged(id)]
  }

  lemma {:induction false} StepsAcknowledge(log: seq<Event>, steps: seq<Event>, m: nat, id: Id)
    requires m <= |steps| && steps != [] && steps[|steps| - 1] == Acknowledged(id)
    requires forall k :: 0 <= k < |steps| - 1 ==> !steps[k].Acknowledged?
    ensures AcknowledgedIn(log + steps[..m]) == AcknowledgedIn(log) + if m == |steps| then {id} else {}
    decreases m
  {
    hide *;
    if m == 0 {
      assert log + steps[..0] == log;
    } else {
      StepsAcknowledge(log, steps, m - 1, id);
      assert log + steps[..m] == (log + steps[..m - 1]) + [steps[m - 1]];
      Appended(log + steps[..m - 1], steps[m - 1]);
    }
  }

  /** From position `from` on, a target is acknowledged only when it has just been deleted, forgotten and counted. */
  ghost predicate ClearedInFull(log: seq<Event>, from: nat) {
    forall k :: from <= k < |log| && log[k].Acknowledged? ==>
      from + 3 <= k && log[k - 3..k + 1] == ClearSteps(log[k].id)
  }

  lemma ClearStepsKeep(log: seq<Event>, from: nat, id: Id, m: nat)
    requires from <= |log| && ClearedInFull(log, from) && m <= 4
    ensures ClearedInFull(log + ClearSteps(id)[..m], from)
    ensures AcknowledgedIn(log + ClearSteps(id)[..m]) == AcknowledgedIn(log) + if m == 4 then {id} else {}
  {
    hide AcknowledgedIn;
    StepsAcknowledge(log, ClearSteps(id), m, id);
    var more := log + ClearSteps(id)[..m];
    forall k | from <= k < |more| && more[k].Acknowledged?
      ensures from + 3 <= k && more[k - 3..k + 1] == ClearSteps(more[k].id)
    {
      if k < |log| {
        assert more[k - 3..k + 1] == log[k - 3..k + 1];
      } else {
        assert m == 4 && k == |log| + 3;
        assert ClearSteps(id)[..m] == ClearSteps(id) && more[|log|..] == ClearSteps(id) && more[k - 3..k + 1] == more[|log|..];
      }
    }
  }

  lemma {:induction false} ClearedIsConfirmed(log: seq<Event>)
    requires ClearedInFull(log, 0)
    ensures ConfirmedIn(log) == AcknowledgedIn(log)
    decreases |log|
  {
    if log != [] {
      var before := log[..|log| - 1];
      forall k | 0 <= k < |before| && before[k].Acknowledged?
        ensures 3 <= k && before[k - 3..k + 1] == ClearSteps(before[k].id)
      {
        assert before[k - 3..k + 1] == log[k - 3..k + 1];
      }
      ClearedIsConfirmed(before);
      var n := |log| - 1;
      if log[n].Acknowledged? {
        assert log[n - 1] == log[n - 3..n + 1][2] == Counted(log[n].id);
      }
    }
  }

  /** From position `from` on, a target is passed over or retried according to what its own request brought back. */
  ghost predicate Judged(repository: seq<Id> -> seq<Job>, connection: Option<string>, queue: Option<string>, log: seq<Event>, from: nat) {
    forall k :: from <= k < |log| && (log[k].Passed? || log[k].Retried?) ==> JudgedRightly(repository, connection, queue, log[k])
  }

  ghost predicate JudgedRightly(repository: seq<Id> -> seq<Job>, connection: Option<string>, queue: Option<string>, e: Event)
    requires e.Passed? || e.Retried?
  {
    e.id in e.request && (e.Retried? <==> BroughtBack(repository(e.request), connection, queue, e.id))
  }

  /** From position `from` on, a target is acknowledged only when it has just been passed over, or retried and, if that worked, counted. */
  ghost predicate RetriedInFull(log: seq<Event>, from: nat) {
    forall k :: from <= k < |log| && log[k].Acknowledged? ==> HandledAt(log, from, k)
  }

  ghost predicate HandledAt(log: seq<Event>, from: nat, k: nat)
    requires k < |log|
  {
    || (from < k && log[k - 1].id == log[k].id && (log[k - 1].Passed? || (log[k - 1].Retried? && !log[k - 1].success)))
    || (from + 1 < k && log[k - 1] == Counted(log[k].id) && log[k - 2].Retried? && log[k - 2].id == log[k].id && log[k - 2].success)
  }

  lemma RetryStepsKeep(repository: seq<Id> -> seq<Job>, connection: Option<string>, queue: Option<string>, log: seq<Event>, from: nat,
                       request: seq<Id>, id: Id, skips: bool, success: bool, m: nat)
    requires from <= |log| && RetriedInFull(log, from) && Judged(repository, connection, queue, log, from)
    requires id in request && (skips <==> !BroughtBack(repository(request), connection, queue, id))
    requires m <= |RetrySteps(id, request, skips, success)|
    ensures var steps := RetrySteps(id, request, skips, success);
            && RetriedInFull(log + steps[..m], from) && Judged(repository, connection, queue, log + steps[..m], from)
            && AcknowledgedIn(log + steps[..m]) == AcknowledgedIn(log) + if m == |steps| then {id} else {}
  {
    var steps := RetrySteps(id, request, skips, success);
    hide BroughtBack, AcknowledgedIn, ConfirmedIn;
    var more := log + steps[..m];
    StepsAcknowledge(log, steps, m, id);
    forall k | from <= k < |more| && more[k].Acknowledged?
      ensures HandledAt(more, from, k)
    {
      if k < |log| {
        assert HandledAt(log, from, k);
      } else {
        assert k == |log| + |steps| - 1 && more[k - 1] == steps[|steps| - 2];
      }
    }
  }

  /** Whoever is acknowledged while its own request has a matching job for it was retried by the same worker before. */
  lemma MatchingTargetsAreRetried(repository: seq<Id> -> seq<Job>, connection: Option<string>, queue: Option<string>, log: seq<Event>,
                                  from: nat, id: Id)
    requires from <= |log| && RetriedInFull(log, from) && Judged(repository, connection, queue, log, from)
    requires id in AcknowledgedIn(log) && id !in AcknowledgedIn(log[..from])
    ensures exists k :: from <= k < |log| && log[k].id == id && (log[k].Passed? || log[k].Retried?) && JudgedRightly(repository, connection, queue, log[k])
  {
    AcknowledgedIsLogged(log, id);
    AcknowledgedIsLogged(log[..from], id);
    hide AcknowledgedIn, BroughtBack;
    assert forall j :: 0 <= j < from ==> log[..from][j] == log[j];
    var k :| 0 <= k < |log| && log[k] == Acknowledged(id);
    assert HandledAt(log, from, k);
    var j := if log[k - 1].Counted? then k - 2 else k - 1;
    assert from <= j < |log| && log[j].id == id && (log[j].Retried? || log[j].Passed?);
  }

  lemma StepsGrow(log: seq<Event>, steps: seq<Event>)
    ensures log + steps[..0] == log
    ensures forall m :: 0 <= m < |steps| ==> log + steps[..m + 1] == (log + steps[..m]) + [steps[m]]
  {
    forall m | 0 <= m < |steps|
      ensures log + steps[..m + 1] == (log + steps[..m]) + [steps[m]]
    {
    }
  }

  /** An event's effect on the number of successes that are not confirmed. */
  function LagOf(log: seq<Event>, e: Event): int {
    if Succeeds(e) then 1
    else if e.Acknowledged? && log != [] && log[|log| - 1] == Counted(e.id) then -1
    else 0
  }

  ghost predicate OnlyTargets(order: seq<Id>, log: seq<Event>) {
    forall k :: 0 <= k < |log| ==> log[k].id in order && log[k].id != ""
  }

  /** What one more event does to all that follows from the log. */
  lemma EventKeeps(order: seq<Id>, targets: seq<Id>, log: seq<Event>, e: Event)
    requires targets == Remaining(order, AcknowledgedIn(log)) && e.id in targets && e.id != ""
    requires InOrder(log) && Justified(log, e) && OnlyTargets(order, log)
    ensures InOrder(log + [e]) && OnlyTargets(order, log + [e])
    ensures Remaining(order, AcknowledgedIn(log + [e])) == if e.Acknowledged? then Remaining(targets, {e.id}) else targets
    ensures e.id !in AcknowledgedIn(log)
  {
    hide InOrder, Justified, Remaining, AcknowledgedIn, ConfirmedIn, CountedIn, SuccessesIn, Succeeds;
    Appended(log, e);
    AppendedInOrder(log, e);
    RemainingIs(order, AcknowledgedIn(log));
    RemainingTwice(order, AcknowledgedIn(log), {e.id});
    var left, gone := Elements(targets), AcknowledgedIn(log);
    assert e.id in left && left == Elements(order) - gone;
    assert gone + {} == gone;
  }

  lemma EventCounts(log: seq<Event>, e: Event)
    requires e.id !in AcknowledgedIn(log)
    ensures CountedIn(log + [e]) == CountedIn(log) + if e.Counted? then 1 else 0
    ensures SuccessesIn(log + [e]) - |ConfirmedIn(log + [e])| == SuccessesIn(log) - |ConfirmedIn(log)| + LagOf(log, e)
  {
    hide AcknowledgedIn, ConfirmedIn, CountedIn, SuccessesIn;
    Appended(log, e);
    assert ConfirmedIn(log) <= AcknowledgedIn(log) && e.id !in ConfirmedIn(log) && ConfirmedIn(log) + {} == ConfirmedIn(log);
  }

  function FirstHundred(targets: seq<Id>): seq<Id> {
    if |targets| < 100 then targets else targets[..100]
  }

  class Operation {
    ghost const order: seq<Id>
    const stops: nat -> bool
    var clock: nat
    var present: bool
    var targets: seq<Id>
    var affected: nat
    ghost var log: seq<Event>
    ghost var interruptions: nat

    /** The members of a sorted set, in rank order, become the targets; nothing has been affected yet. */
    constructor FromSortedSet(members: seq<Id>, stops: nat -> bool)
      requires NoRepeats(members)
      ensures Valid() && present && order == targets == TextKeys(members) && this.stops == stops
      ensures affected == 0 && log == [] && interruptions == 0
    {
      this.order, this.stops := TextKeys(members), stops;
      this.clock, this.present, this.targets, this.affected := 0, true, TextKeys(members), 0;
      this.log, this.interruptions := [], 0;
      new;
      NothingGone(order);
    }

    /** A stream of ids becomes the targets, each non-empty id once, where it came last. */
    constructor FromIds(ids: seq<Id>, stops: nat -> bool)
      ensures Valid() && present && order == targets == Rescored(ids) == LastPlaces(ids) && this.stops == stops
      ensures affected == 0 && log == [] && interruptions == 0
    {
      var members: seq<Id> := [];
      for i := 0 to |ids|
        invariant members == Rescored(ids[..i])
      {
        assert ids[..i + 1][..i] == ids[..i];
        if ids[i] != "" {
          members := Remaining(members, {ids[i]}) + [ids[i]];
        }
      }
      assert ids[..|ids|] == ids;
      RescoredIsInLastOrder(ids);
      this.order, this.stops := members, stops;
      this.clock, this.present, this.targets, this.affected := 0, true, members, 0;
      this.log, this.interruptions := [], 0;
      new;
      NothingGone(order);
    }

    /** The state is what the log says: only targets occur in it, and those not acknowledged are still there. */
    ghost predicate Consistent()
      reads this
    {
      && NoRepeats(order) && InOrder(log) && OnlyTargets(order, log)
      && (present ==> targets == Remaining(order, AcknowledgedIn(log)))
      && affected == CountedIn(log)
    }

    /** How many successes were not counted and acknowledged right afterwards. */
    ghost function Lag(): int
      reads this
    {
      SuccessesIn(log) - |ConfirmedIn(log)|
    }

    /** Between two workers these are no more than the interruptions. */
    ghost predicate Valid()
      reads this
    {
      Consistent() && Lag() <= interruptions
    }

    ghost predicate Stops() {
      exists k :: stops(k)
    }

    /** One command, unless the worker is interrupted before it. */
    method Do(e: Event) returns (stopped: bool)
      requires Consistent() && present && e.id in targets && e.id != "" && Justified(log, e)
      modifies this
      ensures Consistent() && present && clock == old(clock) + 1 && (stopped ==> Stops())
      ensures log == (if stopped then old(log) else old(log) + [e])
      ensures targets == if !stopped && e.Acknowledged? then Remaining(old(targets), {e.id}) else old(targets)
      ensures interruptions == old(interruptions) + if stopped then 1 else 0
      ensures Lag() == old(Lag()) + if stopped then 0 else LagOf(old(log), e)
    {
      hide InOrder, OnlyTargets, Justified, Remaining, NoRepeats, AcknowledgedIn, ConfirmedIn, CountedIn, SuccessesIn, LagOf;
      stopped := stops(clock);
      clock := clock + 1;
      if stopped {
        interruptions := interruptions + 1;
        return;
      }
      EventKeeps(order, targets, log, e);
      EventCounts(log, e);
      if e.Counted? {
        affected := affected + 1;
      } else if e.Acknowledged? {
        targets := Remaining(targets, {e.id});
      }
      log := log + [e];
    }

    /** The first hundred targets, none of them removed; an empty id is left out. */
    method NextChunk() returns (ids: seq<Id>)
      requires NoRepeats(targets)
      ensures ids == Remaining(FirstHundred(targets), {""})
      ensures Elements(ids) == Elements(FirstHundred(targets)) - {""}
      ensures NoRepeats(ids) && Elements(ids) <= Elements(targets) - {""}
      ensures ids == [] ==> Elements(targets) <= {""}
    {
      var page := targets[..if |targets| < CHUNK_SIZE then |targets| else CHUNK_SIZE];
      assert page == FirstHundred(targets);
      assert |page| > 1 ==> page[0] != page[1];
      RemainingIs(page, {""});
      ids := Remaining(page, {""});
      assert forall i :: 0 <= i < |page| ==> page[i] in Elements(page);
    }

    /** Removes the operation's keys and reports the total. */
    method Finish() returns (total: nat)
      requires Valid()
      modifies `present, `targets
      ensures Valid() && !present && targets == [] && total == affected
    {
      hide InOrder, OnlyTargets, NoRepeats, Remaining, AcknowledgedIn, ConfirmedIn, CountedIn, SuccessesIn;
      total := affected;
      present, targets := false, [];
    }

    /** What a chunk has brought about, by its outcome. */
    ghost predicate Progressed(present: bool, targets: seq<Id>, log: seq<Event>, interruptions: nat, r: Outcome)
      reads this
    {
      && Valid() && log <= this.log
      && match r
         case MissingState => !present && this.log == log && this.interruptions == interruptions
         case Interrupted => present && this.present && this.interruptions == interruptions + 1 && Stops()
         case Continuing(total) =>
           && present && this.present && total == affected && this.interruptions == interruptions
           && |this.targets| < |targets|
         case Completed(total) =>
           && present && !this.present && total == affected && this.interruptions == interruptions
           && Elements(order) - AcknowledgedIn(this.log) <= {""}
    }

    /** After the targets of a chunk: the total, and whether any target is left. */
    method FinishOrGoOn(ghost before: seq<Id>, ghost earlier: seq<Event>) returns (r: Outcome)
      requires Valid() && present && |targets| < |before| && earlier <= log
      modifies this
      ensures log == old(log) && Progressed(true, before, earlier, old(interruptions), r)
      ensures r.Completed? <==> !r.Interrupted? && old(targets) == []
    {
      hide InOrder, OnlyTargets, Remaining, AcknowledgedIn, ConfirmedIn, CountedIn, SuccessesIn, NoRepeats;
      var total := affected;
      var more := targets != [];
      var stopped := stops(clock);
      clock := clock + 1;
      if stopped {
        interruptions := interruptions + 1;
        return Interrupted;
      }
      if more {
        return Continuing(total);
      }
      RemainingIs(order, AcknowledgedIn(log));
      total := Finish();
      return Completed(total);
    }

    /** A worker's steps on one target: all of them, or those before an interruption. */
    ghost predicate Did(before: seq<Event>, steps: seq<Event>, interruptions: nat, stopped: bool)
      reads this
    {
      && this.interruptions == interruptions + (if stopped then 1 else 0) && (stopped ==> Stops())
      && exists m :: 0 <= m <= |steps| && log == before + steps[..m] && (stopped <==> m < |steps|)
    }

    /** Deletes a failed job, forgets it, counts it and acknowledges it. */
    method ClearOne(id: Id) returns (stopped: bool)
      requires Valid() && present && id in targets && id != ""
      modifies this
      ensures Valid() && present && Did(old(log), ClearSteps(id), old(interruptions), stopped)
    {
      hide Consistent, Lag;
      ghost var before, steps := log, ClearSteps(id);
      StepsGrow(before, steps);
      stopped := Do(Deleted(id));
      if stopped {
        return;
      }
      assert log == before + steps[..1];
      stopped := Do(Forgotten(id));
      if stopped {
        return;
      }
      assert log == before + steps[..2];
      stopped := Do(Counted(id));
      if stopped {
        return;
      }
      assert log == before + steps[..3];
      stopped := Do(Acknowledged(id));
      assert !stopped ==> log == before + steps[..4];
    }

    /** Retries a job and counts it if that worked, then acknowledges it. */
    method RetryMatching(id: Id, request: seq<Id>, success: bool) returns (stopped: bool)
      requires Valid() && present && id in targets && id != ""
      modifies this
      ensures Valid() && present && Did(old(log), RetrySteps(id, request, false, success), old(interruptions), stopped)
    {
      hide Consistent, Lag, InOrder, AcknowledgedIn, ConfirmedIn;
      ghost var before, steps := log, RetrySteps(id, request, false, success);
      StepsGrow(before, steps);
      stopped := Do(Retried(id, request, success));
      if stopped {
        return;
      }
      assert log == before + steps[..1];
      if success {
        stopped := Do(Counted(id));
        if stopped {
          return;
        }
        assert log == before + steps[..2];
      }
      stopped := Do(Acknowledged(id));
      assert !stopped ==> log == before + steps[..|steps|];
    }

    /** A target without a matching job is acknowledged untouched; the others are retried. */
    method RetryOne(jobs: map<Id, Job>, succeeds: nat -> bool, connection: Option<string>, queue: Option<string>, request: seq<Id>, id: Id)
      returns (stopped: bool)
      requires Valid() && present && id in targets && id != ""
      modifies this
      ensures Valid() && present
      ensures Did(old(log), RetrySteps(id, request, Skips(jobs, connection, queue, id), succeeds(old(clock))), old(interruptions), stopped)
    {
      hide Consistent, Lag, Skips;
      if Skips(jobs, connection, queue, id) {
        ghost var before, steps := log, [Passed(id, request), Acknowledged(id)];
        StepsGrow(before, steps);
        stopped := Do(Passed(id, request));
        if !stopped {
          assert log == before + steps[..1];
          stopped := Do(Acknowledged(id));
          assert !stopped ==> log == before + steps[..2];
        }
      } else {
        stopped := RetryMatching(id, request, succeeds(clock));
      }
    }

    /** The rest of a chunk is still to be done. */
    ghost predicate AtTarget(ids: seq<Id>, i: nat, earlier: seq<Event>, interruptions: nat)
      requires i <= |ids|
      reads this
    {
      && Valid() && present && this.interruptions == interruptions && earlier <= log
      && AcknowledgedIn(log) == AcknowledgedIn(earlier) + Elements(ids[..i])
      && forall k :: i <= k < |ids| ==> ids[k] in targets && ids[k] != ""
    }

    ghost predicate Halted(earlier: seq<Event>, interruptions: nat)
      reads this
    {
      Valid() && present && this.interruptions == interruptions + 1 && earlier <= log && Stops()
    }

    lemma FirstTarget(ids: seq<Id>)
      requires Valid() && present && Elements(ids) <= Elements(targets) - {""}
      ensures AtTarget(ids, 0, log, interruptions)
    {
      hide Consistent, Lag, AcknowledgedIn;
      assert ids[..0] == [] && Elements<Id>([]) == {};
      assert forall k :: 0 <= k < |ids| ==> ids[k] in Elements(ids);
    }

    lemma LastTarget(ids: seq<Id>, before: seq<Id>, earlier: seq<Event>, interruptions: nat)
      requires AtTarget(ids, |ids|, earlier, interruptions) && before == Remaining(order, AcknowledgedIn(earlier))
      requires ids != [] && ids[0] in before
      ensures Valid() && present && this.interruptions == interruptions && earlier <= log && |targets| < |before|
      ensures AcknowledgedIn(log) == AcknowledgedIn(earlier) + Elements(ids[..|ids|])
    {
      hide InOrder, OnlyTargets, Remaining, AcknowledgedIn, ConfirmedIn, CountedIn, SuccessesIn;
      RemainingIs(order, AcknowledgedIn(earlier));
      ChunkIsDone(order, ids, AcknowledgedIn(earlier));
    }

    lemma NextTarget(ids: seq<Id>, i: nat, earlier: seq<Event>, interruptions: nat, log0: seq<Event>, targets0: seq<Id>)
      requires i < |ids| && NoRepeats(ids) && earlier <= log0 <= log && Valid() && present && this.interruptions == interruptions
      requires targets0 == Remaining(order, AcknowledgedIn(log0)) && forall k :: i <= k < |ids| ==> ids[k] in targets0 && ids[k] != ""
      requires AcknowledgedIn(log0) == AcknowledgedIn(earlier) + Elements(ids[..i]) && AcknowledgedIn(log) == AcknowledgedIn(log0) + {ids[i]}
      ensures AtTarget(ids, i + 1, earlier, interruptions)
    {
      hide InOrder, OnlyTargets, Remaining, AcknowledgedIn, ConfirmedIn, CountedIn, SuccessesIn;
      assert ids[..i + 1] == ids[..i] + [ids[i]];
      assert Elements(ids[..i + 1]) == Elements(ids[..i]) + {ids[i]};
      RemainingIs(order, AcknowledgedIn(log0));
      RemainingIs(order, AcknowledgedIn(log));
      forall k | i + 1 <= k < |ids|
        ensures ids[k] in targets
      {
        assert ids[k] in Elements(targets0) && ids[k] != ids[i];
        assert ids[k] in Elements(targets);
      }
    }

    /** Clears one target of a chunk. */
    method ClearNext(ids: seq<Id>, i: nat, ghost from: nat, ghost earlier: seq<Event>, ghost interruptions0: nat) returns (stopped: bool)
      requires i < |ids| && NoRepeats(ids) && AtTarget(ids, i, earlier, interruptions0) && from <= |log| && ClearedInFull(log, from)
      modifies this
      ensures ClearedInFull(log, from) && from <= |log|
      ensures if stopped then Halted(earlier, interruptions0) else AtTarget(ids, i + 1, earlier, interruptions0)
    {
      hide InOrder, OnlyTargets, NoRepeats, Remaining, AcknowledgedIn, ConfirmedIn, CountedIn, SuccessesIn, ClearedInFull, ClearSteps, Lag;
      ghost var log0, targets0 := log, targets;
      stopped := ClearOne(ids[i]);
      ghost var m :| 0 <= m <= 4 && log == log0 + ClearSteps(ids[i])[..m] && (stopped <==> m < 4);
      ClearStepsKeep(log0, from, ids[i], m);
      if !stopped {
        NextTarget(ids, i, earlier, interruptions0, log0, targets0);
      }
    }

    /** Clearing: the targets of a chunk one by one, each acknowledged only after it has been deleted, forgotten and counted. */
    method ClearChunk(ghost from: nat) returns (r: Outcome)
      requires Valid() && from <= |log| && ClearedInFull(log, from)
      modifies this
      ensures Progressed(old(present), old(targets), old(log), old(interruptions), r)
      ensures r.Continuing? || r.Completed? ==>
                AcknowledgedIn(log) == AcknowledgedIn(old(log)) + (Elements(FirstHundred(old(targets))) - {""})
      ensures from <= |log| && ClearedInFull(log, from)
    {
      hide InOrder, OnlyTargets, Remaining, AcknowledgedIn, ConfirmedIn, CountedIn, SuccessesIn, ClearedInFull, AtTarget;
      if !present {
        return MissingState;
      }
      RemainingIs(order, AcknowledgedIn(log));
      var ids := NextChunk();
      if ids == [] {
        var total := Finish();
        return Completed(total);
      }
      ghost var before, earlier, interruptions0 := targets, log, interruptions;
      FirstTarget(ids);
      assert ids[0] in Elements(ids);
      hide NoRepeats, Consistent, Lag;
      for i := 0 to |ids|
        invariant AtTarget(ids, i, earlier, interruptions0) && from <= |log| && ClearedInFull(log, from)
      {
        var stopped := ClearNext(ids, i, from, earlier, interruptions0);
        if stopped {
          return Interrupted;
        }
      }
      LastTarget(ids, before, earlier, interruptions0);
      assert ids[..|ids|] == ids;
      r := FinishOrGoOn(before, earlier);
    }

    /** Retries one target of a chunk, or passes over it. */
    method RetryNext(repository: seq<Id> -> seq<Job>, jobs: map<Id, Job>, succeeds: nat -> bool, connection: Option<string>, queue: Option<string>,
                     ids: seq<Id>, i: nat, ghost from: nat, ghost earlier: seq<Event>, ghost interruptions0: nat)
      returns (stopped: bool)
      requires i < |ids| && NoRepeats(ids) && AtTarget(ids, i, earlier, interruptions0) && jobs == Hydrated(repository(ids))
      requires from <= |log| && RetriedInFull(log, from) && Judged(repository, connection, queue, log, from)
      modifies this
      ensures from <= |log| && RetriedInFull(log, from) && Judged(repository, connection, queue, log, from)
      ensures if stopped then Halted(earlier, interruptions0) else AtTarget(ids, i + 1, earlier, interruptions0)
    {
      hide InOrder, OnlyTargets, NoRepeats, Remaining, AcknowledgedIn, ConfirmedIn, CountedIn, SuccessesIn, RetriedInFull, Judged, Skips, BroughtBack, RetrySteps, Lag;
      ghost var log0, targets0 := log, targets;
      ghost var skips, success := Skips(jobs, connection, queue, ids[i]), succeeds(clock);
      ghost var steps := RetrySteps(ids[i], ids, skips, success);
      SkipsIs(repository(ids), connection, queue, ids[i]);
      stopped := RetryOne(jobs, succeeds, connection, queue, ids, ids[i]);
      ghost var m :| 0 <= m <= |steps| && log == log0 + steps[..m] && (stopped <==> m < |steps|);
      RetryStepsKeep(repository, connection, queue, log0, from, ids, ids[i], skips, success, m);
      if !stopped {
        NextTarget(ids, i, earlier, interruptions0, log0, targets0);
      }
    }

    /** Retrying a chunk: a target is retried exactly when its job came back and matches, and is acknowledged only afterwards. */
    method RetryChunk(repository: seq<Id> -> seq<Job>, succeeds: nat -> bool, connection: Option<string>, queue: Option<string>, ghost from: nat)
      returns (r: Outcome)
      requires Valid() && from <= |log| && RetriedInFull(log, from) && Judged(repository, connection, queue, log, from)
      modifies this
      ensures Progressed(old(present), old(targets), old(log), old(interruptions), r)
      ensures r.Continuing? || r.Completed? ==>
                AcknowledgedIn(log) == AcknowledgedIn(old(log)) + (Elements(FirstHundred(old(targets))) - {""})
      ensures from <= |log| && RetriedInFull(log, from) && Judged(repository, connection, queue, log, from)
    {
      hide InOrder, OnlyTargets, Remaining, AcknowledgedIn, ConfirmedIn, CountedIn, SuccessesIn, RetriedInFull, Judged, AtTarget;
      if !present {
        return MissingState;
      }
      RemainingIs(order, AcknowledgedIn(log));
      var ids := NextChunk();
      if ids == [] {
        var total := Finish();
        return Completed(total);
      }
      var jobs := Hydrate(repository(ids));
      ghost var before, earlier, interruptions0 := targets, log, interruptions;
      FirstTarget(ids);
      assert ids[0] in Elements(ids);
      hide NoRepeats, Consistent, Lag;
      for i := 0 to |ids|
        invariant AtTarget(ids, i, earlier, interruptions0)
        invariant from <= |log| && RetriedInFull(log, from) && Judged(repository, connection, queue, log, from)
      {
        var stopped := RetryNext(repository, jobs, succeeds, connection, queue, ids, i, from, earlier, interruptions0);
        if stopped {
          return Interrupted;
        }
      }
      LastTarget(ids, before, earlier, interruptions0);
      assert ids[..|ids|] == ids;
      r := FinishOrGoOn(before, earlier);
    }
  }

  lemma ChunkIsDone(order: seq<Id>, ids: seq<Id>, gone: set<Id>)
    requires ids != [] && ids[0] in order && ids[0] !in gone
    ensures |Remaining(order, gone + Elements(ids[..|ids|]))| < |Remaining(order, gone)|
  {
    assert ids[..|ids|][0] == ids[0] && ids[0] in Elements(ids[..|ids|]);
    RemainingShrinks(order, gone, gone + Elements(ids[..|ids|]));
  }

  lemma {:induction false} OnlyTargetsAcknowledged(order: seq<Id>, log: seq<Event>)
    requires OnlyTargets(order, log)
    ensures AcknowledgedIn(log) <= Elements(order) - {""}
    decreases |log|
  {
    if log != [] {
      OnlyTargetsAcknowledged(order, log[..|log| - 1]);
    }
  }

  /**
    Clearing from its start, one chunk after the other, however often the workers are interrupted: each
    target is acknowledged only when it has just been deleted, forgotten and counted; a completed operation
    has acknowledged every non-empty target, and no other id occurs in it; the counter lies between the
    confirmed targets and the deletions, which differ by no more than the interruptions. Without
    interruptions it does complete.
  */
  method ClearAll(op: Operation, attempts: nat) returns (r: Outcome)
    requires op.Valid() && op.present && ClearedInFull(op.log, 0)
    modifies op
    ensures op.Valid() && ClearedInFull(op.log, 0) && ConfirmedIn(op.log) == AcknowledgedIn(op.log)
    ensures |AcknowledgedIn(op.log)| <= op.affected <= SuccessesIn(op.log) <= |AcknowledgedIn(op.log)| + op.interruptions
    ensures r.Completed? ==> AcknowledgedIn(op.log) == Elements(op.order) - {""} && r.total == op.affected
    ensures !op.Stops() && attempts > |old(op.targets)| ==> r.Completed?
  {
    hide InOrder, OnlyTargets, Remaining, NoRepeats, AcknowledgedIn, ConfirmedIn, CountedIn, SuccessesIn, ClearedInFull;
    r := Continuing(op.affected);
    var n := 0;
    while n < attempts && !r.Completed?
      invariant op.Valid() && ClearedInFull(op.log, 0) && (!r.Completed? ==> op.present)
      invariant r.Completed? ==> r.total == op.affected && Elements(op.order) - AcknowledgedIn(op.log) <= {""}
      invariant !op.Stops() && !r.Completed? ==> |op.targets| + n <= |old(op.targets)|
      decreases attempts - n
    {
      r := op.ClearChunk(0);
      n := n + 1;
    }
    ClearedIsConfirmed(op.log);
    CountedBetween(op.log);
    OnlyTargetsAcknowledged(op.order, op.log);
    if r.Completed? {
      assert AcknowledgedIn(op.log) == Elements(op.order) - {""};
    }
  }

  /**
    Retrying in the same way: a target is retried if the request of its chunk brought back a matching job,
    and is passed over otherwise; it is acknowledged only after that; and the counter lies between the
    confirmed targets and the successful retries, which differ by no more than the interruptions.
  */
  method RetryAll(op: Operation, repository: seq<Id> -> seq<Job>, succeeds: nat -> bool, connection: Option<string>, queue: Option<string>,
                  attempts: nat)
    returns (r: Outcome)
    requires op.Valid() && op.present && RetriedInFull(op.log, 0) && Judged(repository, connection, queue, op.log, 0)
    modifies op
    ensures op.Valid() && RetriedInFull(op.log, 0) && Judged(repository, connection, queue, op.log, 0)
    ensures |ConfirmedIn(op.log)| <= op.affected <= SuccessesIn(op.log) <= |ConfirmedIn(op.log)| + op.interruptions
    ensures r.Completed? ==> AcknowledgedIn(op.log) == Elements(op.order) - {""} && r.total == op.affected
    ensures !op.Stops() && attempts > |old(op.targets)| ==> r.Completed?
  {
    hide InOrder, OnlyTargets, Remaining, NoRepeats, AcknowledgedIn, ConfirmedIn, CountedIn, SuccessesIn, RetriedInFull, Judged;
    r := Continuing(op.affected);
    var n := 0;
    while n < attempts && !r.Completed?
      invariant op.Valid() && (!r.Completed? ==> op.present)
      invariant RetriedInFull(op.log, 0) && Judged(repository, connection, queue, op.log, 0)
      invariant r.Completed? ==> r.total == op.affected && Elements(op.order) - AcknowledgedIn(op.log) <= {""}
      invariant !op.Stops() && !r.Completed? ==> |op.targets| + n <= |old(op.targets)|
      decreases attempts - n
    {
      r := op.RetryChunk(repository, succeeds, connection, queue, 0);
      n := n + 1;
    }
    CountedBetween(op.log);
    OnlyTargetsAcknowledged(op.order, op.log);
    if r.Completed? {
      assert AcknowledgedIn(op.log) == Elements(op.order) - {""};
    }
  }
}
