/**
  The queue summary: counts of the four retained job types, read one after the other from
  generations that writers replace meanwhile. Two passes over the words in effect bracket the
  reads, and the finished summary is cached under the words it was read at.

  `history[type]` is what Redis holds for a type at each instant, and `clock(k)` is the instant
  at which the k-th command of the request runs; any number of other actions may lie between.
  The functions say what a request reads, command by command; the methods are its loops.
*/
module SummarySnapshots {
  import opened Options
  import opened GenerationProtocol

  datatype JobType = PendingJobs | CompletedJobs | SilencedJobs | FailedJobs

  const REVISION_ORDER: seq<JobType> := [PendingJobs, CompletedJobs, SilencedJobs, FailedJobs]
  const SUMMARY_ORDER: seq<JobType> := [PendingJobs, CompletedJobs, FailedJobs, SilencedJobs]

  type History<!C> = JobType -> seq<State<C>>

  /** The jobs of a queue in one generation: all of them, and those since the cutoffs of the request. */
  datatype Counts = Counts(total: nat, hour: nat, day: nat)

  datatype Summary = Summary(revisions: map<JobType, Word>, counts: map<JobType, Counts>)

  /** What a sequence of commands yields, if it does, and the number of the next command. */
  datatype Reading<+T> = Reading(value: Option<T>, next: nat)

  /** Each type's states follow one another by actions, over the same instants. */
  ghost predicate IsHistory<C(!new)>(h: History<C>, instants: nat) {
    instants > 0 && forall j: JobType :: IsTimeline(h(j)) && |h(j)| == instants
  }

  ghost predicate IsTimeline<C(!new)>(t: seq<State<C>>) {
    t != [] && Invariant(t[0]) && forall i :: 0 < i < |t| ==> Follows(t[i - 1], t[i])
  }

  ghost predicate Follows<C(!new)>(s: State<C>, t: State<C>) {
    exists a :: t == Step(s, a)
  }

  ghost predicate IsClock(clock: nat -> nat, instants: nat) {
    && (forall k: nat :: clock(k) < instants)
    && (forall k: nat, l: nat :: k <= l ==> clock(k) <= clock(l))
  }

  /** Every command of the request falls into the history. */
  ghost predicate Spans<C>(h: History<C>, clock: nat -> nat) {
    forall j: JobType, k: nat :: clock(k) < |h(j)|
  }

  lemma ClockMoves<C(!new)>(h: History<C>, instants: nat, clock: nat -> nat, k: nat, l: nat)
    requires IsHistory(h, instants) && IsClock(clock, instants) && k <= l
    ensures Spans(h, clock) && clock(k) <= clock(l) < instants
  {
  }

  // ----- What a request reads -----

  /** The word in effect: the published key, or the legacy revision when that key is absent. */
  ghost function ReadWord<C>(h: History<C>, clock: nat -> nat, j: JobType, tick: nat): (r: Reading<Word>)
    requires Spans(h, clock)
    ensures tick < r.next
  {
    var published := h(j)[clock(tick)].published;
    if published.Some? then Reading(published, tick + 1) else Reading(LegacyWord(h(j)[clock(tick + 1)]), tick + 2)
  }

  ghost function CountsAt<C>(h: History<C>, clock: nat -> nat, count: C -> Counts, j: JobType, g: Generation, tick: nat): Counts
    requires Spans(h, clock)
  {
    Counts(count(h(j)[clock(tick)].slots.At(g).content).total,
           count(h(j)[clock(tick + 1)].slots.At(g).content).hour,
           count(h(j)[clock(tick + 2)].slots.At(g).content).day)
  }

  /** Three counts of the generation in effect, between two checks of its word. */
  ghost function ReadCounts<C>(h: History<C>, clock: nat -> nat, count: C -> Counts, j: JobType, tick: nat): Reading<Counts>
    requires Spans(h, clock)
  {
    var first := ReadWord(h, clock, j, tick);
    if first.value.None? then Reading(None, first.next)
    else
      var second := ReadWord(h, clock, j, first.next + 3);
      Reading(if second.value == first.value
              then Some(CountsAt(h, clock, count, j, first.value.value.generation, first.next))
              else None,
              second.next)
  }

  /** One pass over the words of the listed types, which ends at the first missing one. */
  ghost function ReadPass<C>(h: History<C>, clock: nat -> nat, order: seq<JobType>, tick: nat): Reading<map<JobType, Word>>
    requires Spans(h, clock)
  {
    if order == [] then Reading(Some(map[]), tick)
    else
      var r := ReadWord(h, clock, order[0], tick);
      if r.value.None? then Reading(None, r.next)
      else Joined(map[order[0] := r.value.value], ReadPass(h, clock, order[1..], r.next))
  }

  ghost function ReadTotals<C>(h: History<C>, clock: nat -> nat, count: C -> Counts, order: seq<JobType>, tick: nat)
    : Reading<map<JobType, Counts>>
    requires Spans(h, clock)
  {
    if order == [] then Reading(Some(map[]), tick)
    else
      var r := ReadCounts(h, clock, count, order[0], tick);
      if r.value.None? then Reading(None, r.next)
      else Joined(map[order[0] := r.value.value], ReadTotals(h, clock, count, order[1..], r.next))
  }

  function Joined<T>(m: map<JobType, T>, r: Reading<map<JobType, T>>): Reading<map<JobType, T>> {
    if r.value.None? then r else Reading(Some(m + r.value.value), r.next)
  }

  lemma JoinedTwice<T>(a: map<JobType, T>, b: map<JobType, T>, r: Reading<map<JobType, T>>)
    ensures Joined(a, Joined(b, r)) == Joined(a + b, r)
  {
    if r.value.Some? {
      assert a + (b + r.value.value) == (a + b) + r.value.value;
    }
  }

  lemma JoinedToNothing<T>(m: map<JobType, T>, r: Reading<map<JobType, T>>)
    ensures Joined(map[], r) == r && Joined(m, Reading(Some(map[]), r.next)) == Reading(Some(m), r.next)
  {
    if r.value.Some? {
      assert map[] + r.value.value == r.value.value;
    }
    assert m + map[] == m;
  }

  /** How an attempt ends after its first pass: a summary, a changed word, or a missing one while counting. */
  datatype Attempt = Taken(summary: Summary) | Changed | Cold

  /** The counts and the second pass of an attempt whose first pass has read `revisions`. */
  ghost function Attempted<C>(h: History<C>, clock: nat -> nat, count: C -> Counts, revisions: map<JobType, Word>, tick: nat): Attempt
    requires Spans(h, clock)
  {
    var totals := ReadTotals(h, clock, count, SUMMARY_ORDER, tick);
    if totals.value.None? then Cold
    else if ReadPass(h, clock, REVISION_ORDER, totals.next).value == Some(revisions)
    then Taken(Summary(revisions, totals.value.value))
    else Changed
  }

  ghost function AttemptEnd<C>(h: History<C>, clock: nat -> nat, count: C -> Counts, tick: nat): nat
    requires Spans(h, clock)
  {
    var totals := ReadTotals(h, clock, count, SUMMARY_ORDER, tick);
    if totals.value.None? then totals.next else ReadPass(h, clock, REVISION_ORDER, totals.next).next
  }

  // ----- What a summary is to mean -----

  /** At instant `i` the word of type `j` is in effect and its generation has the counts `n`. */
  ghost predicate HoldsAt<C>(h: History<C>, count: C -> Counts, j: JobType, i: nat, w: Word, n: Counts) {
    i < |h(j)| && EffectiveWord(h(j)[i]) == Some(w) && count(h(j)[i].slots.At(w.generation).content) == n
  }

  /** The whole summary is true at instant `i`. */
  ghost predicate TrueAt<C>(h: History<C>, count: C -> Counts, s: Summary, i: nat) {
    forall j: JobType :: j in s.revisions && j in s.counts && HoldsAt(h, count, j, i, s.revisions[j], s.counts[j])
  }

  ghost predicate TrueWithin<C>(h: History<C>, count: C -> Counts, s: Summary, first: nat, last: nat) {
    exists i :: first <= i <= last && TrueAt(h, count, s, i)
  }

  /** Every word was in use by instant `i`. */
  ghost predicate Known<C>(h: History<C>, revisions: map<JobType, Word>, i: nat) {
    forall j: JobType :: j in revisions && i < |h(j)| && revisions[j].revision < h(j)[i].next
  }

  /** No word is a legacy word that is still to be stored at instant `i`. */
  ghost predicate NoneReturns<C>(h: History<C>, revisions: map<JobType, Word>, i: nat) {
    forall j: JobType :: j in revisions && i < |h(j)| && !Returns(h(j)[i], revisions[j])
  }

  // ----- Words between two instants -----

  lemma {:induction false} Segment<C(!new)>(t: seq<State<C>>, i: nat, j: nat) returns (actions: seq<Action<C>>)
    requires i <= j < |t| && IsTimeline(t)
    ensures |actions| == j - i && forall k :: 0 <= k <= j - i ==> Run(t[i], actions[..k]) == t[i + k]
    decreases j
  {
    if i == j {
      actions := [];
    } else {
      var rest := Segment(t, i, j - 1);
      assert Follows(t[j - 1], t[j]);
      var a :| t[j] == Step(t[j - 1], a);
      actions := rest + [a];
      assert rest[..j - 1 - i] == rest;
      RunSnoc(t[i], rest, a);
      forall k | 0 <= k <= j - i
        ensures Run(t[i], actions[..k]) == t[i + k]
      {
        if k < j - i {
          assert actions[..k] == rest[..k];
        } else {
          assert actions[..k] == actions;
        }
      }
    }
  }

  /** The action sequence between two instants, and the invariant at the first. */
  lemma Between<C(!new)>(t: seq<State<C>>, i: nat, j: nat) returns (actions: seq<Action<C>>)
    requires i <= j < |t| && IsTimeline(t)
    ensures Invariant(t[i]) && Invariant(t[j]) && Run(t[i], actions) == t[j]
    ensures |actions| == j - i && forall k :: 0 <= k <= j - i ==> Run(t[i], actions[..k]) == t[i + k]
  {
    var before := Segment(t, 0, i);
    assert before[..i] == before;
    RunKeepsInvariant(t[0], before);
    actions := Segment(t, i, j);
    assert actions[..j - i] == actions;
    RunKeepsInvariant(t[i], actions);
  }

  /** A word in effect at two instants, that could not return, was in effect with the same content at all between. */
  lemma WordHeldBetween<C(!new)>(t: seq<State<C>>, i: nat, k: nat, j: nat, w: Word)
    requires i <= k <= j < |t| && IsTimeline(t)
    requires EffectiveWord(t[i]) == Some(w) && !Returns(t[i], w) && EffectiveWord(t[j]) == Some(w)
    ensures EffectiveWord(t[k]) == Some(w) && t[k].slots.At(w.generation) == t[i].slots.At(w.generation)
  {
    var actions := Between(t, i, j);
    EffectiveWordIsStable(t[i], actions, w);
    assert Run(t[i], actions[..k - i]) == t[k];
    EffectiveWordIsStable(t[i], actions[..k - i], w);
  }

  /** A word that is read later, and could not return, is in effect now, and is so at the read. */
  lemma ReadWordWasInEffect<C(!new)>(h: History<C>, instants: nat, clock: nat -> nat, j: JobType, start: nat, tick: nat, w: Word)
    requires IsHistory(h, instants) && IsClock(clock, instants) && start <= clock(tick) && ReadWord(h, clock, j, tick).value == Some(w)
    requires w.revision < h(j)[start].next && !Returns(h(j)[start], w)
    ensures EffectiveWord(h(j)[start]) == Some(w) && EffectiveWord(h(j)[clock(tick)]) == Some(w)
  {
    var t := h(j);
    assert IsTimeline(t);
    var i, k := clock(tick), clock(tick + 1);
    var actions := Between(t, start, i);
    if t[i].published.None? {
      var later := Between(t, i, k);
      var all := Between(t, start, k);
      if t[i].legacyRevision != Some(w.revision) {
        RevisionsGrow(t[start], actions);
        LegacyRevisionIsGone(t[i], later, w.revision);
        assert false;
      }
    }
    if EffectiveWord(t[start]) != Some(w) {
      ReplacedWordIsGone(t[start], actions, w);
      assert false;
    }
  }

  lemma {:induction false} RevisionsGrow<C>(s: State<C>, actions: seq<Action<C>>)
    requires Invariant(s)
    ensures s.next <= Run(s, actions).next
    decreases |actions|
  {
    if actions != [] {
      WordsMove(s, actions[0]);
      StepKeepsInvariant(s, actions[0]);
      hide Invariant, Step;
      RevisionsGrow(Step(s, actions[0]), actions[1..]);
    }
  }

  /** A word has been in use when it is read. */
  lemma ReadWordIsKnown<C(!new)>(h: History<C>, instants: nat, clock: nat -> nat, j: JobType, tick: nat, i: nat)
    requires IsHistory(h, instants) && IsClock(clock, instants) && ReadWord(h, clock, j, tick).value.Some?
    requires clock(ReadWord(h, clock, j, tick).next - 1) <= i < instants
    ensures i < |h(j)| && ReadWord(h, clock, j, tick).value.value.revision < h(j)[i].next
  {
    var t := h(j);
    assert IsTimeline(t);
    var at := clock(ReadWord(h, clock, j, tick).next - 1);
    var actions := Between(t, at, i);
    RevisionsGrow(t[at], actions);
  }

  // ----- An accepted summary -----

  lemma EveryTypeIsListed(j: JobType)
    ensures j in REVISION_ORDER && j in SUMMARY_ORDER
  {
    assert REVISION_ORDER[0] == PendingJobs && REVISION_ORDER[1] == CompletedJobs;
    assert REVISION_ORDER[2] == SilencedJobs && REVISION_ORDER[3] == FailedJobs;
    assert SUMMARY_ORDER[0] == PendingJobs && SUMMARY_ORDER[1] == CompletedJobs;
    assert SUMMARY_ORDER[2] == FailedJobs && SUMMARY_ORDER[3] == SilencedJobs;
  }

  /** The command at which a pass reads the word of a type. */
  lemma {:induction false} PassReads<C>(h: History<C>, clock: nat -> nat, order: seq<JobType>, tick: nat, j: JobType)
    returns (at: nat)
    requires Spans(h, clock) && j in order && ReadPass(h, clock, order, tick).value.Some?
    ensures tick <= at && ReadWord(h, clock, j, at).next <= ReadPass(h, clock, order, tick).next
    ensures j in ReadPass(h, clock, order, tick).value.value
    ensures ReadWord(h, clock, j, at).value == Some(ReadPass(h, clock, order, tick).value.value[j])
    decreases |order|
  {
    var r := ReadWord(h, clock, order[0], tick);
    PassAdvances(h, clock, order[1..], r.next);
    if j in order[1..] {
      at := PassReads(h, clock, order[1..], r.next, j);
    } else {
      at := tick;
      PassKeys(h, clock, order[1..], r.next);
    }
  }

  lemma {:induction false} PassKeys<C>(h: History<C>, clock: nat -> nat, order: seq<JobType>, tick: nat)
    requires Spans(h, clock) && ReadPass(h, clock, order, tick).value.Some?
    ensures ReadPass(h, clock, order, tick).value.value.Keys == set j | j in order
    decreases |order|
  {
    if order != [] {
      PassKeys(h, clock, order[1..], ReadWord(h, clock, order[0], tick).next);
    }
  }

  lemma {:induction false} PassAdvances<C>(h: History<C>, clock: nat -> nat, order: seq<JobType>, tick: nat)
    requires Spans(h, clock)
    ensures tick <= ReadPass(h, clock, order, tick).next
    decreases |order|
  {
    if order != [] {
      PassAdvances(h, clock, order[1..], ReadWord(h, clock, order[0], tick).next);
    }
  }

  /** The command at which the counting of a type starts. */
  lemma {:induction false} TotalsRead<C>(h: History<C>, clock: nat -> nat, count: C -> Counts, order: seq<JobType>, tick: nat,
                                         j: JobType) returns (at: nat)
    requires Spans(h, clock) && j in order && ReadTotals(h, clock, count, order, tick).value.Some?
    ensures tick <= at && ReadCounts(h, clock, count, j, at).next <= ReadTotals(h, clock, count, order, tick).next
    ensures j in ReadTotals(h, clock, count, order, tick).value.value
    ensures ReadCounts(h, clock, count, j, at).value == Some(ReadTotals(h, clock, count, order, tick).value.value[j])
    decreases |order|
  {
    var r := ReadCounts(h, clock, count, order[0], tick);
    TotalsAdvance(h, clock, count, order[1..], r.next);
    if j in order[1..] {
      at := TotalsRead(h, clock, count, order[1..], r.next, j);
    } else {
      at := tick;
      TotalsKeys(h, clock, count, order[1..], r.next);
    }
  }

  lemma {:induction false} TotalsKeys<C>(h: History<C>, clock: nat -> nat, count: C -> Counts, order: seq<JobType>, tick: nat)
    requires Spans(h, clock) && ReadTotals(h, clock, count, order, tick).value.Some?
    ensures ReadTotals(h, clock, count, order, tick).value.value.Keys == set j | j in order
    decreases |order|
  {
    if order != [] {
      TotalsKeys(h, clock, count, order[1..], ReadCounts(h, clock, count, order[0], tick).next);
    }
  }

  lemma {:induction false} TotalsAdvance<C>(h: History<C>, clock: nat -> nat, count: C -> Counts, order: seq<JobType>, tick: nat)
    requires Spans(h, clock)
    ensures tick <= ReadTotals(h, clock, count, order, tick).next
    decreases |order|
  {
    if order != [] {
      TotalsAdvance(h, clock, count, order[1..], ReadCounts(h, clock, count, order[0], tick).next);
    }
  }

  /** While one word is in effect and cannot return, a count is the count of its generation. */
  lemma CountedUnderOneWord<C(!new)>(h: History<C>, instants: nat, clock: nat -> nat, count: C -> Counts, j: JobType,
                                     start: nat, tick: nat, last: nat, w: Word)
    requires IsHistory(h, instants) && IsClock(clock, instants) && start <= clock(tick)
    requires EffectiveWord(h(j)[start]) == Some(w) && !Returns(h(j)[start], w)
    requires last < instants && EffectiveWord(h(j)[last]) == Some(w)
    requires ReadCounts(h, clock, count, j, tick).value.Some? && clock(ReadCounts(h, clock, count, j, tick).next) <= last
    ensures ReadCounts(h, clock, count, j, tick).value.value == count(h(j)[start].slots.At(w.generation).content)
  {
    var t := h(j);
    var first := ReadWord(h, clock, j, tick);
    assert IsTimeline(t);
    forall k | tick <= k <= first.next + 2
      ensures EffectiveWord(t[clock(k)]) == Some(w) && t[clock(k)].slots.At(w.generation) == t[start].slots.At(w.generation)
    {
      WordHeldBetween(t, start, clock(k), last, w);
    }
    assert first.value.value.generation == w.generation;
  }

  /**
    The counts and the second pass accept only what was true when they began: if the words of the
    first pass were in use by `start` and none could return then, the summary is true at `start`.
  */
  lemma AcceptedIsTrue<C(!new)>(h: History<C>, instants: nat, clock: nat -> nat, count: C -> Counts, s: Summary, tick: nat, start: nat)
    requires IsHistory(h, instants) && IsClock(clock, instants) && start <= clock(tick)
    requires Known(h, s.revisions, start) && NoneReturns(h, s.revisions, start)
    requires Attempted(h, clock, count, s.revisions, tick) == Taken(s)
    ensures TrueAt(h, count, s, start)
  {
    var totals := ReadTotals(h, clock, count, SUMMARY_ORDER, tick);
    TotalsAdvance(h, clock, count, SUMMARY_ORDER, tick);
    forall j: JobType
      ensures j in s.counts && HoldsAt(h, count, j, start, s.revisions[j], s.counts[j])
    {
      EveryTypeIsListed(j);
      var counted := TotalsRead(h, clock, count, SUMMARY_ORDER, tick, j);
      var read := PassReads(h, clock, REVISION_ORDER, totals.next, j);
      var w := s.revisions[j];
      ReadWordWasInEffect(h, instants, clock, j, start, read, w);
      CountedUnderOneWord(h, instants, clock, count, j, start, counted, clock(read), w);
    }
  }

  // ----- While the words rest -----

  /** The same word is in effect, in the same key, over the same content. */
  ghost predicate SameWord<C>(t: State<C>, s: State<C>) {
    && EffectiveWord(s).Some? && EffectiveWord(t) == EffectiveWord(s) && (t.published.Some? <==> s.published.Some?)
    && t.slots.At(EffectiveWord(s).value.generation).content == s.slots.At(EffectiveWord(s).value.generation).content
  }

  /** Every command from number `a` to before number `b` finds the words and contents of the states `g`. */
  ghost predicate AtRest<C>(h: History<C>, clock: nat -> nat, g: JobType -> State<C>, a: nat, b: nat)
    requires Spans(h, clock)
  {
    forall j: JobType, k: nat :: a <= k < b ==> SameWord(h(j)[clock(k)], g(j))
  }

  ghost function CountOf<C>(s: State<C>, count: C -> Counts): Counts
    requires EffectiveWord(s).Some?
  {
    count(s.slots.At(EffectiveWord(s).value.generation).content)
  }

  ghost function StatesAt<C>(h: History<C>, i: nat): JobType -> State<C>
    requires forall j: JobType :: i < |h(j)|
  {
    (j: JobType) => h(j)[i]
  }

  /** The commands it takes to count the listed types of resting states. */
  ghost function Ticks<C>(g: JobType -> State<C>, order: seq<JobType>): nat {
    if order == [] then 0 else (if g(order[0]).published.Some? then 5 else 7) + Ticks(g, order[1..])
  }

  lemma WordAtRest<C>(h: History<C>, clock: nat -> nat, g: JobType -> State<C>, j: JobType, tick: nat, b: nat)
    requires Spans(h, clock) && AtRest(h, clock, g, tick, b)
    requires ReadWord(h, clock, j, tick).next <= b || tick + (if g(j).published.Some? then 1 else 2) <= b
    ensures ReadWord(h, clock, j, tick) == Reading(EffectiveWord(g(j)), tick + if g(j).published.Some? then 1 else 2)
    ensures EffectiveWord(g(j)).Some?
  {
    assert SameWord(h(j)[clock(tick)], g(j));
    if g(j).published.None? {
      assert SameWord(h(j)[clock(tick + 1)], g(j));
    }
  }

  lemma CountsAtRest<C>(h: History<C>, clock: nat -> nat, count: C -> Counts, g: JobType -> State<C>, j: JobType, tick: nat, b: nat)
    requires Spans(h, clock) && AtRest(h, clock, g, tick, b)
    requires ReadCounts(h, clock, count, j, tick).next <= b || tick + (if g(j).published.Some? then 5 else 7) <= b
    ensures EffectiveWord(g(j)).Some?
    ensures ReadCounts(h, clock, count, j, tick) == Reading(Some(CountOf(g(j), count)), tick + if g(j).published.Some? then 5 else 7)
  {
    var first := ReadWord(h, clock, j, tick);
    WordAtRest(h, clock, g, j, tick, b);
    WordAtRest(h, clock, g, j, first.next + 3, b);
    assert SameWord(h(j)[clock(first.next)], g(j)) && SameWord(h(j)[clock(first.next + 1)], g(j)) && SameWord(h(j)[clock(first.next + 2)], g(j));
  }

  lemma {:induction false} TotalsOfRest<C>(h: History<C>, clock: nat -> nat, count: C -> Counts, g: JobType -> State<C>, order: seq<JobType>,
                                           tick: nat, b: nat)
    requires Spans(h, clock) && AtRest(h, clock, g, tick, b) && forall j: JobType :: EffectiveWord(g(j)).Some?
    requires ReadTotals(h, clock, count, order, tick).next <= b || tick + Ticks(g, order) <= b
    ensures var r := ReadTotals(h, clock, count, order, tick);
            && r.next == tick + Ticks(g, order) && r.value.Some?
            && forall j :: j in order ==> j in r.value.value && r.value.value[j] == CountOf(g(j), count)
    decreases |order|
  {
    hide ReadCounts, EffectiveWord, CountOf, SameWord, Spans;
    if order != [] {
      var r := ReadCounts(h, clock, count, order[0], tick);
      TotalsAdvance(h, clock, count, order[1..], r.next);
      CountsAdvance(h, clock, count, order[0], tick);
      CountsAtRest(h, clock, count, g, order[0], tick, b);
      TotalsOfRest(h, clock, count, g, order[1..], r.next, b);
      TotalsKeys(h, clock, count, order[1..], r.next);
      assert forall j :: j in order ==> j == order[0] || j in order[1..];
    }
  }

  lemma {:induction false} PassOfRest<C>(h: History<C>, clock: nat -> nat, g: JobType -> State<C>, order: seq<JobType>, tick: nat, b: nat)
    requires Spans(h, clock) && AtRest(h, clock, g, tick, b) && forall j: JobType :: EffectiveWord(g(j)).Some?
    requires ReadPass(h, clock, order, tick).next <= b
    ensures var r := ReadPass(h, clock, order, tick);
            && r.value.Some?
            && forall j :: j in order ==> j in r.value.value && Some(r.value.value[j]) == EffectiveWord(g(j))
    decreases |order|
  {
    hide ReadWord, EffectiveWord, SameWord, Spans;
    if order != [] {
      var r := ReadWord(h, clock, order[0], tick);
      PassAdvances(h, clock, order[1..], r.next);
      WordAtRest(h, clock, g, order[0], tick, b);
      PassOfRest(h, clock, g, order[1..], r.next, b);
      PassKeys(h, clock, order[1..], r.next);
      assert forall j :: j in order ==> j == order[0] || j in order[1..];
    }
  }

  // ----- Exactly when an accepted summary is true -----

  /** A request whose first pass ended in the states `g` with the words of `s` goes on to accept `s`. */
  ghost predicate Accepts<C(!new)>(h: History<C>, instants: nat, clock: nat -> nat, count: C -> Counts, g: JobType -> State<C>, s: Summary) {
    && IsHistory(h, instants) && IsClock(clock, instants)
    && (forall j: JobType :: h(j)[0] == g(j))
    && Attempted(h, clock, count, s.revisions, 0) == Taken(s)
  }

  /** The words have been read from each type's state, or before it. */
  ghost predicate ReadBefore<C>(g: JobType -> State<C>, revisions: map<JobType, Word>) {
    forall j: JobType :: Invariant(g(j)) && j in revisions && revisions[j].revision < g(j).next
  }

  /** Not all contents have the same counts. */
  ghost predicate Distinguishes<C(!new)>(count: C -> Counts) {
    exists c, d :: count(c) != count(d)
  }

  /** Storing the legacy word on its way, if there is one; otherwise an action without effect. */
  ghost function Comeback<C>(s: State<C>, w: Word): Action<C> {
    if Returns(s, w) then
      var q :| q in s.procs && s.procs[q] == EnsuringStored(w.revision);
      Store(q)
    else Idle(s)
  }

  ghost function Idle<C>(s: State<C>): Action<C> {
    if 0 in s.procs then StartWriter(0) else Get(0)
  }

  /** The actions run, the state rests until instant `m`, and the word comes back at the last instant. */
  ghost function Story<C>(s: State<C>, actions: seq<Action<C>>, m: nat, w: Word): seq<State<C>>
    requires |actions| <= m
  {
    seq(m + 2, k requires 0 <= k < m + 2 =>
      if k <= m then Run(s, actions[..if k < |actions| then k else |actions|]) else Step(Run(s, actions), Comeback(s, w)))
  }

  lemma StoryIsTimeline<C(!new)>(s: State<C>, actions: seq<Action<C>>, m: nat, w: Word)
    requires |actions| <= m && Invariant(s)
    ensures IsTimeline(Story(s, actions, m, w)) && Story(s, actions, m, w)[0] == s && Story(s, actions, m, w)[m] == Run(s, actions)
  {
    var t := Story(s, actions, m, w);
    assert actions[..|actions|] == actions;
    assert Run(s, actions[..0]) == s;
    forall k | 0 < k < |t|
      ensures Follows(t[k - 1], t[k])
    {
      if k <= |actions| {
        assert actions[..k] == actions[..k - 1] + [actions[k - 1]];
        RunSnoc(s, actions[..k - 1], actions[k - 1]);
        assert t[k] == Step(t[k - 1], actions[k - 1]);
      } else if k <= m {
        assert t[k] == Step(t[k - 1], Idle(t[k - 1]));
      } else {
        assert t[k] == Step(t[k - 1], Comeback(s, w));
      }
    }
  }

  /** A story ends on its word, and on the way there some word is in effect. */
  lemma StoryEndsOnWord<C(!new)>(s: State<C>, actions: seq<Action<C>>, m: nat, w: Word)
    requires |actions| <= m && Invariant(s) && w.revision < s.next && !Gone(s, w)
    requires actions != [] ==>
               && Returns(s, w) && EffectiveWord(Run(s, actions)).Some?
               && forall q :: q in s.procs && s.procs[q].EnsuringStored? ==> q in Run(s, actions).procs && Run(s, actions).procs[q] == s.procs[q]
    ensures EffectiveWord(Run(s, actions)).Some? && EffectiveWord(Story(s, actions, m, w)[m + 1]) == Some(w)
  {
    var t, a := Run(s, actions), Comeback(s, w);
    assert Story(s, actions, m, w)[m + 1] == Step(t, a);
    if Returns(s, w) {
      assert a.Store? && a.p in s.procs && s.procs[a.p] == EnsuringStored(w.revision);
      assert ProcessOk(s, a.p, s.procs[a.p]);
      assert t.procs[a.p] == s.procs[a.p];
    } else {
      assert t == s && Step(t, a) == s;
    }
  }

  function Prelude<T>(j: JobType, j0: JobType, actions: seq<T>): seq<T> {
    if j == j0 then actions else []
  }

  /** Type `j0` first runs `actions`; at the last instant every word on its way comes back. */
  ghost function Comebacks<C>(g: JobType -> State<C>, revisions: map<JobType, Word>, j0: JobType, actions: seq<Action<C>>): History<C>
    requires forall j: JobType :: j in revisions
  {
    (j: JobType) => Story(g(j), Prelude(j, j0, actions), |actions|, revisions[j])
  }

  /** The runs of every type may go on to a comeback: the words on their way survive `actions`. */
  ghost predicate MayComeBack<C>(g: JobType -> State<C>, revisions: map<JobType, Word>, j0: JobType, actions: seq<Action<C>>) {
    && ReadBefore(g, revisions) && (forall j: JobType :: !Gone(g(j), revisions[j]))
    && Returns(g(j0), revisions[j0]) && EffectiveWord(Run(g(j0), actions)).Some?
    && forall q :: q in g(j0).procs && g(j0).procs[q].EnsuringStored? ==>
         q in Run(g(j0), actions).procs && Run(g(j0), actions).procs[q] == g(j0).procs[q]
  }

  /** From state `s` on, some word is in effect at instant `m`, and `w` is at the last instant. */
  ghost predicate RestsIn<C(!new)>(t: seq<State<C>>, m: nat, s: State<C>, w: Word) {
    && IsTimeline(t) && |t| == m + 2 && t[0] == s
    && EffectiveWord(t[m]).Some? && EffectiveWord(t[m + 1]) == Some(w)
  }

  ghost predicate Rests<C(!new)>(h: History<C>, m: nat, g: JobType -> State<C>, revisions: map<JobType, Word>) {
    forall j: JobType :: j in revisions && RestsIn(h(j), m, g(j), revisions[j])
  }

  lemma ComebackRests<C(!new)>(g: JobType -> State<C>, revisions: map<JobType, Word>, j0: JobType, actions: seq<Action<C>>, j: JobType)
    requires MayComeBack(g, revisions, j0, actions)
    ensures var t, m := Comebacks(g, revisions, j0, actions)(j), |actions|;
            RestsIn(t, m, g(j), revisions[j]) && t[m] == Run(g(j), Prelude(j, j0, actions))
  {
    hide EffectiveWord, Invariant, Returns, Gone, Step, IsTimeline;
    StoryIsTimeline(g(j), Prelude(j, j0, actions), |actions|, revisions[j]);
    StoryEndsOnWord(g(j), Prelude(j, j0, actions), |actions|, revisions[j]);
  }

  lemma RestingHistory<C(!new)>(h: History<C>, m: nat, g: JobType -> State<C>, revisions: map<JobType, Word>)
    requires Rests(h, m, g, revisions)
    ensures IsHistory(h, m + 2)
    ensures forall j: JobType ::
              && j in revisions && |h(j)| == m + 2 && h(j)[0] == g(j)
              && EffectiveWord(h(j)[m]).Some? && EffectiveWord(h(j)[m + 1]) == Some(revisions[j])
  {
    hide EffectiveWord, IsTimeline;
    assert forall j: JobType :: RestsIn(h(j), m, g(j), revisions[j]);
  }

  lemma RestingPass<C(!new)>(h: History<C>, m: nat, g: JobType -> State<C>, revisions: map<JobType, Word>, clock: nat -> nat, tick: nat)
    requires Spans(h, clock) && Rests(h, m, g, revisions) && forall k :: tick <= k ==> clock(k) == m + 1
    ensures ReadPass(h, clock, REVISION_ORDER, tick).value == Some(revisions)
  {
    hide ReadPass, EffectiveWord, IsTimeline, Rests, IsHistory, Invariant;
    RestingHistory(h, m, g, revisions);
    var pass := ReadPass(h, clock, REVISION_ORDER, tick);
    PassOfRest(h, clock, StatesAt(h, m + 1), REVISION_ORDER, tick, pass.next);
    forall j: JobType
      ensures j in pass.value.value && pass.value.value[j] == revisions[j]
    {
      EveryTypeIsListed(j);
    }
    assert pass.value.value == revisions;
  }

  lemma RestingTotals<C(!new)>(h: History<C>, m: nat, g: JobType -> State<C>, revisions: map<JobType, Word>, clock: nat -> nat, count: C -> Counts)
    requires Spans(h, clock) && Rests(h, m, g, revisions)
    requires (forall j: JobType :: m < |h(j)|) && forall k :: 0 <= k < Ticks(StatesAt(h, m), SUMMARY_ORDER) ==> clock(k) == m
    ensures var r := ReadTotals(h, clock, count, SUMMARY_ORDER, 0);
            && r.next == Ticks(StatesAt(h, m), SUMMARY_ORDER) && r.value.Some?
            && forall j: JobType :: j in r.value.value && EffectiveWord(h(j)[m]).Some? && r.value.value[j] == CountOf(h(j)[m], count)
  {
    hide ReadTotals, Ticks, CountOf, EffectiveWord, IsTimeline, Rests, IsHistory, Invariant;
    RestingHistory(h, m, g, revisions);
    TotalsOfRest(h, clock, count, StatesAt(h, m), SUMMARY_ORDER, 0, Ticks(StatesAt(h, m), SUMMARY_ORDER));
    var totals := ReadTotals(h, clock, count, SUMMARY_ORDER, 0);
    forall j: JobType
      ensures j in totals.value.value && EffectiveWord(h(j)[m]).Some? && totals.value.value[j] == CountOf(h(j)[m], count)
    {
      EveryTypeIsListed(j);
    }
  }

  /** The commands before number `n` run at instant `m`, the others right afterwards. */
  ghost function TwoInstants(n: nat, m: nat): (clock: nat -> nat)
    ensures IsClock(clock, m + 2) && forall k: nat :: clock(k) == if k < n then m else m + 1
  {
    (k: nat) => if k < n then m else m + 1
  }

  /** Counts of states that rest at instant `m`, with the awaited words in effect right afterwards, are accepted. */
  lemma RestingCountsAreAccepted<C(!new)>(h: History<C>, m: nat, g: JobType -> State<C>, count: C -> Counts, revisions: map<JobType, Word>)
    returns (clock: nat -> nat, s: Summary)
    requires Rests(h, m, g, revisions)
    ensures Accepts(h, m + 2, clock, count, g, s) && s.revisions == revisions
    ensures forall j: JobType :: j in s.counts && m < |h(j)| && EffectiveWord(h(j)[m]).Some? && s.counts[j] == CountOf(h(j)[m], count)
  {
    hide Ticks, ReadTotals, ReadPass, IsTimeline, Rests, IsClock, CountOf, EffectiveWord;
    RestingHistory(h, m, g, revisions);
    var counted := Ticks(StatesAt(h, m), SUMMARY_ORDER);
    clock := TwoInstants(counted, m);
    RestingTotals(h, m, g, revisions, clock, count);
    RestingPass(h, m, g, revisions, clock, counted);
    s := Summary(revisions, ReadTotals(h, clock, count, SUMMARY_ORDER, 0).value.value);
  }

  /** In the end every word of the first pass is back, but what was counted in between is other content. */
  lemma ComebacksAreFalse<C(!new)>(h: History<C>, instants: nat, count: C -> Counts, s: Summary, j0: JobType)
    requires IsHistory(h, instants) && j0 in s.revisions && j0 in s.counts && s.revisions[j0].generation == Legacy
    requires s.counts[j0] != count(h(j0)[0].slots.legacy.content)
    ensures forall i :: 0 <= i < instants ==> !TrueAt(h, count, s, i)
  {
    forall i | 0 <= i < instants
      ensures !TrueAt(h, count, s, i)
    {
      var t := h(j0);
      assert IsTimeline(t);
      var between := Between(t, 0, i);
      LegacySlotIsFrozen(t[0], between);
      assert !HoldsAt(h, count, j0, i, s.revisions[j0], s.counts[j0]);
    }
  }

  /** If a word of the first pass can return and none is gone, a summary can be accepted that is true at no instant. */
  lemma ReturningWordAllowsAFalseSummary<C(!new)>(g: JobType -> State<C>, revisions: map<JobType, Word>, count: C -> Counts, j0: JobType)
    returns (h: History<C>, instants: nat, clock: nat -> nat, s: Summary)
    requires ReadBefore(g, revisions) && forall j: JobType :: !Gone(g(j), revisions[j])
    requires Returns(g(j0), revisions[j0]) && Distinguishes(count)
    ensures Accepts(h, instants, clock, count, g, s) && s.revisions == revisions
    ensures forall i :: 0 <= i < instants ==> !TrueAt(h, count, s, i)
  {
    var start := g(j0);
    var c :| count(c) != count(start.slots.legacy.content);
    var writer := UnusedPid(start.procs.Keys);
    var actions := PublishesContent(start, writer, c);
    h, instants := Comebacks(g, revisions, j0, actions), |actions| + 2;
    forall j: JobType
      ensures j in revisions && RestsIn(h(j), |actions|, g(j), revisions[j])
    {
      ComebackRests(g, revisions, j0, actions, j);
    }
    ComebackRests(g, revisions, j0, actions, j0);
    clock, s := RestingCountsAreAccepted(h, |actions|, g, count, revisions);
    assert s.counts[j0] == count(c);
    hide Comebacks, TrueAt, Run, Rests;
    ComebacksAreFalse(h, instants, count, s, j0);
  }

  /** An accepted summary never contradicts a word that is gone: then the passes cannot agree. */
  lemma GoneWordIsNotAccepted<C(!new)>(h: History<C>, instants: nat, clock: nat -> nat, count: C -> Counts, g: JobType -> State<C>, s: Summary,
                                       j: JobType)
    requires Accepts(h, instants, clock, count, g, s) && j in s.revisions
    ensures !Gone(g(j), s.revisions[j])
  {
    if Gone(g(j), s.revisions[j]) {
      var totals := ReadTotals(h, clock, count, SUMMARY_ORDER, 0);
      EveryTypeIsListed(j);
      var read := PassReads(h, clock, REVISION_ORDER, totals.next, j);
      ReadWordWasInEffect(h, instants, clock, j, 0, read, s.revisions[j]);
      assert false;
    }
  }

  /**
    Exactly when two agreeing passes are enough. A first pass has read `revisions` by the instant at
    which the states are `g`. Whatever happens from there and whenever the request goes on, a summary
    it accepts was true at some instant, if and only if no word read is a legacy word still on its way
    to publication, or some word read is gone for good, so that nothing can be accepted.
  */
  lemma SummariesAreTrueExactlyWhenNoWordReturns<C(!new)>(g: JobType -> State<C>, revisions: map<JobType, Word>, count: C -> Counts)
    requires ReadBefore(g, revisions) && Distinguishes(count)
    ensures (forall h: History<C>, instants: nat, clock: nat -> nat, s: Summary ::
               Accepts(h, instants, clock, count, g, s) && s.revisions == revisions ==> TrueWithin(h, count, s, 0, instants - 1))
       <==> (forall j: JobType :: !Returns(g(j), revisions[j])) || (exists j: JobType :: Gone(g(j), revisions[j]))
  {
    if j0: JobType :| Returns(g(j0), revisions[j0]) && forall j: JobType :: !Gone(g(j), revisions[j]) {
      var h, instants, clock, s := ReturningWordAllowsAFalseSummary(g, revisions, count, j0);
      assert !TrueWithin(h, count, s, 0, instants - 1);
    } else {
      forall h: History<C>, instants: nat, clock: nat -> nat, s: Summary | Accepts(h, instants, clock, count, g, s) && s.revisions == revisions
        ensures TrueWithin(h, count, s, 0, instants - 1)
      {
        forall j: JobType
          ensures !Gone(g(j), revisions[j])
        {
          GoneWordIsNotAccepted(h, instants, clock, count, g, s, j);
        }
        AcceptedIsTrue(h, instants, clock, count, s, 0, 0);
      }
    }
  }

  // ----- The request -----

  /** The word in effect, from one or two commands. */
  method PublishedState<C(!new)>(h: History<C>, clock: nat -> nat, j: JobType, tick: nat) returns (word: Option<Word>, next: nat)
    requires Spans(h, clock)
    ensures Reading(word, next) == ReadWord(h, clock, j, tick)
  {
    word := h(j)[clock(tick)].published;
    next := tick + 1;
    if word.None? {
      word := LegacyWord(h(j)[clock(next)]);
      next := next + 1;
    }
  }

  /** The instant at which the word of a type has been read. */
  ghost function ReadAt<C>(h: History<C>, clock: nat -> nat, j: JobType, tick: nat): nat
    requires Spans(h, clock)
  {
    clock(ReadWord(h, clock, j, tick).next - 1)
  }

  /** Counts between two reads of one word are its generation's, unless the word can return. */
  lemma CountsAreTheGenerations<C(!new)>(h: History<C>, instants: nat, clock: nat -> nat, count: C -> Counts, j: JobType, tick: nat)
    requires IsHistory(h, instants) && IsClock(clock, instants) && ReadCounts(h, clock, count, j, tick).value.Some?
    ensures var w, i := ReadWord(h, clock, j, tick).value.value, ReadAt(h, clock, j, tick);
            !Returns(h(j)[i], w) ==> HoldsAt(h, count, j, i, w, ReadCounts(h, clock, count, j, tick).value.value)
  {
    var t, first, i := h(j), ReadWord(h, clock, j, tick), ReadAt(h, clock, j, tick);
    var w := first.value.value;
    assert IsTimeline(t);
    if !Returns(t[i], w) {
      ReadWordIsKnown(h, instants, clock, j, tick, i);
      ReadWordWasInEffect(h, instants, clock, j, i, first.next + 3, w);
      forall k | first.next <= k <= first.next + 2
        ensures t[clock(k)].slots.At(w.generation) == t[i].slots.At(w.generation)
      {
        WordHeldBetween(t, i, clock(k), clock(first.next + 3), w);
      }
    }
  }

  /** Counts the generation in effect of one type between two checks of its word. */
  method CountPublished<C(!new)>(h: History<C>, ghost instants: nat, clock: nat -> nat, count: C -> Counts, j: JobType, tick: nat)
    returns (counts: Option<Counts>, next: nat)
    requires IsHistory(h, instants) && IsClock(clock, instants)
    ensures Reading(counts, next) == ReadCounts(h, clock, count, j, tick)
    ensures counts.Some? ==>
              var w, i := ReadWord(h, clock, j, tick).value.value, ReadAt(h, clock, j, tick);
              !Returns(h(j)[i], w) ==> HoldsAt(h, count, j, i, w, counts.value)
  {
    hide IsHistory, IsTimeline, IsClock, Invariant, Returns, HoldsAt, ReadWord, ReadAt;
    ClockMoves(h, instants, clock, tick, tick);
    var first;
    first, next := PublishedState(h, clock, j, tick);
    if first.None? {
      return None, next;
    }
    var g := first.value.generation;
    var total := count(h(j)[clock(next)].slots.At(g).content).total;
    var hour := count(h(j)[clock(next + 1)].slots.At(g).content).hour;
    var day := count(h(j)[clock(next + 2)].slots.At(g).content).day;
    var second;
    second, next := PublishedState(h, clock, j, next + 3);
    if second != first {
      return None, next;
    }
    CountsAreTheGenerations(h, instants, clock, count, j, tick);
    counts := Some(Counts(total, hour, day));
  }

  lemma WordOfPassIsKnown<C(!new)>(h: History<C>, instants: nat, clock: nat -> nat, tick: nat, j: JobType, w: Word, i: nat)
    requires IsHistory(h, instants) && IsClock(clock, instants)
    requires var r := ReadPass(h, clock, REVISION_ORDER, tick);
             r.value.Some? && r.next > 0 && i == clock(r.next - 1) && (j in r.value.value ==> w == r.value.value[j])
    ensures j in ReadPass(h, clock, REVISION_ORDER, tick).value.value && i < |h(j)| && w.revision < h(j)[i].next
  {
    hide ReadPass, ReadWord, IsTimeline;
    EveryTypeIsListed(j);
    var at := PassReads(h, clock, REVISION_ORDER, tick, j);
    ReadWordIsKnown(h, instants, clock, j, at, i);
  }

  /** Words read by the end of a pass were in use by then. */
  lemma PassIsKnown<C(!new)>(h: History<C>, instants: nat, clock: nat -> nat, tick: nat)
    requires IsHistory(h, instants) && IsClock(clock, instants) && ReadPass(h, clock, REVISION_ORDER, tick).value.Some?
    requires ReadPass(h, clock, REVISION_ORDER, tick).next > 0
    ensures var r := ReadPass(h, clock, REVISION_ORDER, tick); Known(h, r.value.value, clock(r.next - 1))
  {
    var r := ReadPass(h, clock, REVISION_ORDER, tick);
    var i := clock(r.next - 1);
    hide ReadPass, IsTimeline, IsClock, IsHistory, Spans;
    forall j: JobType
      ensures j in r.value.value && i < |h(j)| && r.value.value[j].revision < h(j)[i].next
    {
      WordOfPassIsKnown(h, instants, clock, tick, j, if j in r.value.value then r.value.value[j] else Word(Legacy, 0), i);
    }
  }

  /** One pass over the words in effect, in enumeration order. */
  method PublishedRevisions<C(!new)>(h: History<C>, ghost instants: nat, clock: nat -> nat, tick: nat)
    returns (revisions: Option<map<JobType, Word>>, next: nat)
    requires IsHistory(h, instants) && IsClock(clock, instants)
    ensures tick < next && Reading(revisions, next) == ReadPass(h, clock, REVISION_ORDER, tick)
    ensures revisions.Some? ==> Known(h, revisions.value, clock(next - 1))
  {
    next := tick;
    var words: map<JobType, Word> := map[];
    ClockMoves(h, instants, clock, tick, tick);
    hide Known, IsTimeline, IsClock, IsHistory, Spans, ReadWord;
    JoinedToNothing(words, ReadPass(h, clock, REVISION_ORDER, tick));
    assert REVISION_ORDER[0..] == REVISION_ORDER;
    for k := 0 to |REVISION_ORDER|
      invariant tick <= next && (k > 0 ==> tick < next)
      invariant ReadPass(h, clock, REVISION_ORDER, tick) == Joined(words, ReadPass(h, clock, REVISION_ORDER[k..], next))
    {
      var word;
      word, next := PublishedState(h, clock, REVISION_ORDER[k], next);
      assert REVISION_ORDER[k..][1..] == REVISION_ORDER[k + 1..];
      if word.None? {
        return None, next;
      }
      JoinedTwice(words, map[REVISION_ORDER[k] := word.value], ReadPass(h, clock, REVISION_ORDER[k + 1..], next));
      words := words + map[REVISION_ORDER[k] := word.value];
    }
    JoinedToNothing(words, Reading(None, next));
    revisions := Some(words);
    PassIsKnown(h, instants, clock, tick);
  }

  /** The counts of all four types, in the order of the summary. */
  method BuildSummary<C(!new)>(h: History<C>, ghost instants: nat, clock: nat -> nat, count: C -> Counts, tick: nat)
    returns (totals: Option<map<JobType, Counts>>, next: nat)
    requires IsHistory(h, instants) && IsClock(clock, instants)
    ensures tick <= next && Reading(totals, next) == ReadTotals(h, clock, count, SUMMARY_ORDER, tick)
  {
    next := tick;
    var sums: map<JobType, Counts> := map[];
    JoinedToNothing(sums, ReadTotals(h, clock, count, SUMMARY_ORDER, tick));
    assert SUMMARY_ORDER[0..] == SUMMARY_ORDER;
    for k := 0 to |SUMMARY_ORDER|
      invariant tick <= next
      invariant ReadTotals(h, clock, count, SUMMARY_ORDER, tick) == Joined(sums, ReadTotals(h, clock, count, SUMMARY_ORDER[k..], next))
    {
      hide ReadCounts, HoldsAt, Returns, IsTimeline, ReadAt;
      var counts;
      counts, next := CountPublished(h, instants, clock, count, SUMMARY_ORDER[k], next);
      assert SUMMARY_ORDER[k..][1..] == SUMMARY_ORDER[k + 1..];
      if counts.None? {
        return None, next;
      }
      JoinedTwice(sums, map[SUMMARY_ORDER[k] := counts.value], ReadTotals(h, clock, count, SUMMARY_ORDER[k + 1..], next));
      sums := sums + map[SUMMARY_ORDER[k] := counts.value];
    }
    JoinedToNothing(sums, Reading(None, next));
    totals := Some(sums);
  }

  /** What up to `attempts` attempts yield. */
  ghost function Snapshot<C>(h: History<C>, clock: nat -> nat, count: C -> Counts, attempts: nat, tick: nat): Reading<Summary>
    requires Spans(h, clock)
  {
    if attempts == 0 then Reading(None, tick)
    else
      var first := ReadPass(h, clock, REVISION_ORDER, tick);
      if first.value.None? then Reading(None, first.next)
      else
        var end := AttemptEnd(h, clock, count, first.next);
        match Attempted(h, clock, count, first.value.value, first.next)
        case Taken(s) => Reading(Some(s), end)
        case Cold => Reading(None, end)
        case Changed => Snapshot(h, clock, count, attempts - 1, end)
  }

  /** The summary says what is in effect in the states `g`. */
  ghost predicate Describes<C>(s: Summary, g: JobType -> State<C>, count: C -> Counts) {
    forall j: JobType ::
      && j in s.revisions && j in s.counts
      && EffectiveWord(g(j)) == Some(s.revisions[j]) && s.counts[j] == CountOf(g(j), count)
  }

  lemma {:induction false} SnapshotAdvances<C>(h: History<C>, clock: nat -> nat, count: C -> Counts, attempts: nat, tick: nat)
    requires Spans(h, clock)
    ensures tick <= Snapshot(h, clock, count, attempts, tick).next
    decreases attempts
  {
    hide ReadPass, ReadTotals, Attempted, AttemptEnd;
    if attempts > 0 {
      var first := ReadPass(h, clock, REVISION_ORDER, tick);
      PassAdvances(h, clock, REVISION_ORDER, tick);
      if first.value.Some? {
        AttemptAdvances(h, clock, count, first.next);
        SnapshotAdvances(h, clock, count, attempts - 1, AttemptEnd(h, clock, count, first.next));
      }
    }
  }

  lemma AttemptAdvances<C>(h: History<C>, clock: nat -> nat, count: C -> Counts, tick: nat)
    requires Spans(h, clock)
    ensures var totals := ReadTotals(h, clock, count, SUMMARY_ORDER, tick);
            tick <= totals.next <= AttemptEnd(h, clock, count, tick)
  {
    TotalsAdvance(h, clock, count, SUMMARY_ORDER, tick);
    PassAdvances(h, clock, REVISION_ORDER, ReadTotals(h, clock, count, SUMMARY_ORDER, tick).next);
  }

  /** An attempt over resting states succeeds, and says what is in effect. */
  lemma AttemptOfRest<C>(h: History<C>, clock: nat -> nat, count: C -> Counts, g: JobType -> State<C>, tick: nat, b: nat)
    requires Spans(h, clock) && AtRest(h, clock, g, tick, b) && forall j: JobType :: EffectiveWord(g(j)).Some?
    requires var first := ReadPass(h, clock, REVISION_ORDER, tick);
             first.next <= b && (first.value.Some? ==> AttemptEnd(h, clock, count, first.next) <= b)
    ensures var first := ReadPass(h, clock, REVISION_ORDER, tick);
            && first.value.Some?
            && var a := Attempted(h, clock, count, first.value.value, first.next);
               a.Taken? && Describes(a.summary, g, count)
  {
    hide ReadPass, ReadTotals, EffectiveWord, CountOf;
    var first := ReadPass(h, clock, REVISION_ORDER, tick);
    PassAdvances(h, clock, REVISION_ORDER, tick);
    PassOfRest(h, clock, g, REVISION_ORDER, tick, b);
    var totals := ReadTotals(h, clock, count, SUMMARY_ORDER, first.next);
    AttemptAdvances(h, clock, count, first.next);
    TotalsOfRest(h, clock, count, g, SUMMARY_ORDER, first.next, b);
    var second := ReadPass(h, clock, REVISION_ORDER, totals.next);
    PassOfRest(h, clock, g, REVISION_ORDER, totals.next, b);
    forall j: JobType
      ensures j in first.value.value && j in second.value.value && second.value.value[j] == first.value.value[j]
      ensures EffectiveWord(g(j)) == Some(first.value.value[j]) && j in totals.value.value && totals.value.value[j] == CountOf(g(j), count)
    {
      EveryTypeIsListed(j);
    }
    assert first.value.value == second.value.value;
  }

  /** So does the first of some attempts. */
  lemma SnapshotOfRest<C>(h: History<C>, clock: nat -> nat, count: C -> Counts, g: JobType -> State<C>, attempts: nat, tick: nat)
    requires Spans(h, clock) && attempts > 0 && forall j: JobType :: EffectiveWord(g(j)).Some?
    requires AtRest(h, clock, g, tick, Snapshot(h, clock, count, attempts, tick).next)
    ensures var r := Snapshot(h, clock, count, attempts, tick).value; r.Some? && Describes(r.value, g, count)
  {
    hide ReadPass, Attempted, AttemptEnd, AtRest, EffectiveWord, Describes;
    var first := ReadPass(h, clock, REVISION_ORDER, tick);
    if first.value.Some? {
      AttemptAdvances(h, clock, count, first.next);
      SnapshotAdvances(h, clock, count, attempts - 1, AttemptEnd(h, clock, count, first.next));
    }
    AttemptOfRest(h, clock, count, g, tick, Snapshot(h, clock, count, attempts, tick).next);
  }

  /** So does the second of two, after words have changed during the first. */
  lemma SecondAttemptOfRest<C>(h: History<C>, clock: nat -> nat, count: C -> Counts, g: JobType -> State<C>, tick: nat)
    requires Spans(h, clock) && forall j: JobType :: EffectiveWord(g(j)).Some?
    requires var first := ReadPass(h, clock, REVISION_ORDER, tick);
             && first.value.Some? && Attempted(h, clock, count, first.value.value, first.next).Changed?
             && AtRest(h, clock, g, AttemptEnd(h, clock, count, first.next), Snapshot(h, clock, count, 2, tick).next)
    ensures var r := Snapshot(h, clock, count, 2, tick).value; r.Some? && Describes(r.value, g, count)
  {
    hide ReadPass, Attempted, AttemptEnd, AtRest, EffectiveWord, Describes;
    var first := ReadPass(h, clock, REVISION_ORDER, tick);
    SnapshotOfRest(h, clock, count, g, 1, AttemptEnd(h, clock, count, first.next));
  }

  /** From command `a` to before command `b` every type keeps the word and the content that command `a` finds. */
  ghost predicate RestsFrom<C>(h: History<C>, clock: nat -> nat, a: nat, b: nat)
    requires Spans(h, clock)
  {
    a < b && AtRest(h, clock, StatesAt(h, clock(a)), a, b)
  }

  lemma RestsHaveWords<C>(h: History<C>, clock: nat -> nat, a: nat, b: nat)
    requires Spans(h, clock) && RestsFrom(h, clock, a, b)
    ensures forall j: JobType :: EffectiveWord(StatesAt(h, clock(a))(j)).Some?
  {
    forall j: JobType
      ensures EffectiveWord(StatesAt(h, clock(a))(j)).Some?
    {
      assert SameWord(h(j)[clock(a)], StatesAt(h, clock(a))(j));
    }
  }

  // ----- Why there is no summary -----

  /** Some type has no word, in commands from number `a` to before number `b`. */
  ghost predicate WordMissing<C>(h: History<C>, clock: nat -> nat, a: nat, b: nat)
    requires Spans(h, clock)
  {
    exists j: JobType, k: nat :: MissingAt(h, clock, j, k) && a <= k && k + 1 < b
  }

  ghost predicate MissingAt<C>(h: History<C>, clock: nat -> nat, j: JobType, k: nat)
    requires Spans(h, clock)
  {
    h(j)[clock(k)].published.None? && h(j)[clock(k + 1)].legacyRevision.None?
  }

  /** Two reads of one type's word differ. */
  ghost predicate WordChanged<C>(h: History<C>, clock: nat -> nat, a: nat, b: nat)
    requires Spans(h, clock)
  {
    exists j: JobType, k: nat, l: nat :: a <= k < l && ChangedBetween(h, clock, j, k, l) && ReadWord(h, clock, j, l).next <= b
  }

  ghost predicate ChangedBetween<C>(h: History<C>, clock: nat -> nat, j: JobType, k: nat, l: nat)
    requires Spans(h, clock)
  {
    ReadWord(h, clock, j, k).value != ReadWord(h, clock, j, l).value
  }

  /** The word of a type changes around its own three counts. */
  ghost predicate ChangedWhileCounting<C>(h: History<C>, clock: nat -> nat, a: nat, b: nat)
    requires Spans(h, clock)
  {
    exists j: JobType, k: nat ::
      a <= k && ChangedBetween(h, clock, j, k, ReadWord(h, clock, j, k).next + 3) && ReadWord(h, clock, j, ReadWord(h, clock, j, k).next + 3).next <= b
  }

  lemma {:induction false} PassFails<C>(h: History<C>, clock: nat -> nat, order: seq<JobType>, tick: nat)
    requires Spans(h, clock) && ReadPass(h, clock, order, tick).value.None?
    ensures WordMissing(h, clock, tick, ReadPass(h, clock, order, tick).next)
    decreases |order|
  {
    var r := ReadWord(h, clock, order[0], tick);
    if r.value.None? {
      assert MissingAt(h, clock, order[0], tick);
    } else {
      PassFails(h, clock, order[1..], r.next);
      var j: JobType, k: nat :| MissingAt(h, clock, j, k) && r.next <= k && k + 1 < ReadPass(h, clock, order[1..], r.next).next;
      assert MissingAt(h, clock, j, k);
    }
  }

  lemma {:induction false} TotalsFail<C>(h: History<C>, clock: nat -> nat, count: C -> Counts, order: seq<JobType>, tick: nat)
    requires Spans(h, clock) && ReadTotals(h, clock, count, order, tick).value.None?
    ensures var b := ReadTotals(h, clock, count, order, tick).next;
            WordMissing(h, clock, tick, b) || ChangedWhileCounting(h, clock, tick, b)
    decreases |order|
  {
    var r := ReadCounts(h, clock, count, order[0], tick);
    if r.value.None? {
      CountsFail(h, clock, count, order[0], tick);
    } else {
      TotalsFail(h, clock, count, order[1..], r.next);
      hide ReadCounts, MissingAt, ChangedBetween, ReadWord;
      CountsAdvance(h, clock, count, order[0], tick);
      var b := ReadTotals(h, clock, count, order, tick).next;
      ReasonsStay(h, clock, r.next, b, tick, b);
    }
  }

  lemma CountsAdvance<C>(h: History<C>, clock: nat -> nat, count: C -> Counts, j: JobType, tick: nat)
    requires Spans(h, clock)
    ensures tick < ReadCounts(h, clock, count, j, tick).next
  {
  }

  lemma CountsFail<C>(h: History<C>, clock: nat -> nat, count: C -> Counts, j: JobType, tick: nat)
    requires Spans(h, clock) && ReadCounts(h, clock, count, j, tick).value.None?
    ensures var b := ReadCounts(h, clock, count, j, tick).next;
            WordMissing(h, clock, tick, b) || ChangedWhileCounting(h, clock, tick, b)
  {
    var first := ReadWord(h, clock, j, tick);
    if first.value.None? {
      assert MissingAt(h, clock, j, tick);
    } else {
      assert ChangedBetween(h, clock, j, tick, first.next + 3);
    }
  }

  lemma ReasonsStay<C>(h: History<C>, clock: nat -> nat, a: nat, b: nat, c: nat, d: nat)
    requires Spans(h, clock) && c <= a && b <= d
    ensures WordMissing(h, clock, a, b) ==> WordMissing(h, clock, c, d)
    ensures WordChanged(h, clock, a, b) ==> WordChanged(h, clock, c, d)
    ensures ChangedWhileCounting(h, clock, a, b) ==> ChangedWhileCounting(h, clock, c, d)
  {
    hide MissingAt, ChangedBetween, ReadWord;
  }

  /** There is no summary: a word was missing, or one changed while its type was counted, or some word changed in each of two attempts. */
  ghost predicate NoneForAReason<C>(h: History<C>, clock: nat -> nat, a: nat, b: nat)
    requires Spans(h, clock)
  {
    || WordMissing(h, clock, a, b)
    || ChangedWhileCounting(h, clock, a, b)
    || exists m: nat :: a < m < b && WordChanged(h, clock, a, m) && WordChanged(h, clock, m, b)
  }

  /** Two passes that differ: a word was missing, or one has changed. */
  lemma PassesDiffer<C>(h: History<C>, clock: nat -> nat, tick: nat, later: nat)
    requires Spans(h, clock)
    requires var first, second := ReadPass(h, clock, REVISION_ORDER, tick), ReadPass(h, clock, REVISION_ORDER, later);
             first.value.Some? && first.next <= later && second.value != first.value
    ensures var b := ReadPass(h, clock, REVISION_ORDER, later).next;
            WordMissing(h, clock, tick, b) || WordChanged(h, clock, tick, b)
  {
    hide ReadPass;
    var first, second := ReadPass(h, clock, REVISION_ORDER, tick), ReadPass(h, clock, REVISION_ORDER, later);
    PassAdvances(h, clock, REVISION_ORDER, tick);
    PassAdvances(h, clock, REVISION_ORDER, later);
    if second.value.None? {
      PassFails(h, clock, REVISION_ORDER, later);
      ReasonsStay(h, clock, later, second.next, tick, second.next);
    } else {
      PassKeys(h, clock, REVISION_ORDER, tick);
      PassKeys(h, clock, REVISION_ORDER, later);
      assert second.value.value != first.value.value && second.value.value.Keys == first.value.value.Keys;
      var j: JobType :| j in first.value.value && second.value.value[j] != first.value.value[j];
      EveryTypeIsListed(j);
      var k := PassReads(h, clock, REVISION_ORDER, tick, j);
      var l := PassReads(h, clock, REVISION_ORDER, later, j);
      assert ChangedBetween(h, clock, j, k, l);
    }
  }

  lemma AttemptFails<C>(h: History<C>, clock: nat -> nat, count: C -> Counts, tick: nat)
    requires Spans(h, clock) && ReadPass(h, clock, REVISION_ORDER, tick).value.Some?
    ensures var first := ReadPass(h, clock, REVISION_ORDER, tick);
            var a, b := Attempted(h, clock, count, first.value.value, first.next), AttemptEnd(h, clock, count, first.next);
            && tick < b
            && (a.Cold? ==> WordMissing(h, clock, tick, b) || ChangedWhileCounting(h, clock, tick, b))
            && (a.Changed? ==> WordMissing(h, clock, tick, b) || WordChanged(h, clock, tick, b))
  {
    hide ReadTotals;
    var first := ReadPass(h, clock, REVISION_ORDER, tick);
    var totals := ReadTotals(h, clock, count, SUMMARY_ORDER, first.next);
    PassAdvances(h, clock, REVISION_ORDER[1..], ReadWord(h, clock, REVISION_ORDER[0], tick).next);
    AttemptAdvances(h, clock, count, first.next);
    hide ReadPass, WordMissing, WordChanged, ChangedWhileCounting;
    if totals.value.None? {
      TotalsFail(h, clock, count, SUMMARY_ORDER, first.next);
      ReasonsStay(h, clock, first.next, totals.next, tick, totals.next);
    } else if ReadPass(h, clock, REVISION_ORDER, totals.next).value != first.value {
      PassesDiffer(h, clock, tick, totals.next);
    }
  }

  /** Two attempts fail only for a reason. */
  lemma SnapshotFailsForAReason<C>(h: History<C>, clock: nat -> nat, count: C -> Counts, tick: nat)
    requires Spans(h, clock) && Snapshot(h, clock, count, 2, tick).value.None?
    ensures NoneForAReason(h, clock, tick, Snapshot(h, clock, count, 2, tick).next)
  {
    hide ReadPass, Attempted, AttemptEnd, WordMissing, WordChanged, ChangedWhileCounting;
    var first, end := ReadPass(h, clock, REVISION_ORDER, tick), Snapshot(h, clock, count, 2, tick).next;
    if first.value.None? {
      PassFails(h, clock, REVISION_ORDER, tick);
    } else {
      var m := AttemptEnd(h, clock, count, first.next);
      AttemptFails(h, clock, count, tick);
      assert Snapshot(h, clock, count, 0, m).next == m;
      if Attempted(h, clock, count, first.value.value, first.next).Changed? {
        var second := ReadPass(h, clock, REVISION_ORDER, m);
        SnapshotAdvances(h, clock, count, 1, m);
        ReasonsStay(h, clock, tick, m, tick, end);
        if second.value.None? {
          PassFails(h, clock, REVISION_ORDER, m);
        } else {
          AttemptFails(h, clock, count, m);
        }
        ReasonsStay(h, clock, m, end, tick, end);
      }
    }
  }

  /** If no word of the summary could return when its first pass ended, the whole summary was true at that instant. */
  ghost predicate TrueUnlessReturning<C>(h: History<C>, count: C -> Counts, s: Summary, i: nat) {
    NoneReturns(h, s.revisions, i) ==> TrueAt(h, count, s, i)
  }

  lemma SnapshotIsAccountedFor<C>(h: History<C>, clock: nat -> nat, count: C -> Counts, tick: nat)
    requires Spans(h, clock)
    ensures var r := Snapshot(h, clock, count, 2, tick);
            && (RestsFrom(h, clock, tick, r.next) ==> r.value.Some? && Describes(r.value.value, StatesAt(h, clock(tick)), count))
            && (r.value.None? ==> NoneForAReason(h, clock, tick, r.next))
  {
    hide Snapshot, Describes, NoneForAReason;
    var r := Snapshot(h, clock, count, 2, tick);
    if r.value.None? {
      SnapshotFailsForAReason(h, clock, count, tick);
    }
    if RestsFrom(h, clock, tick, r.next) {
      RestsHaveWords(h, clock, tick, r.next);
      SnapshotOfRest(h, clock, count, StatesAt(h, clock(tick)), 2, tick);
    }
  }

  /**
    Two attempts at a summary whose words agree before and after; `instant` is the end of the first pass.
    While words and contents rest there is a summary, and it says what is in effect; if there is none, a word
    was missing, or changed around its own counts, or words changed in both attempts.
  */
  method PublishedSummarySnapshot<C(!new)>(h: History<C>, ghost instants: nat, clock: nat -> nat, count: C -> Counts, tick: nat)
    returns (summary: Option<Summary>, next: nat, ghost instant: nat)
    requires IsHistory(h, instants) && IsClock(clock, instants)
    ensures tick <= next && Reading(summary, next) == Snapshot(h, clock, count, 2, tick)
    ensures summary.Some? ==> clock(tick) <= instant <= clock(next) && TrueUnlessReturning(h, count, summary.value, instant)
    ensures RestsFrom(h, clock, tick, next) ==> summary.Some? && Describes(summary.value, StatesAt(h, clock(tick)), count)
    ensures summary.None? ==> NoneForAReason(h, clock, tick, next)
  {
    hide ReadPass, ReadTotals, IsTimeline, IsHistory, IsClock, Spans, Known, NoneReturns, TrueAt, RestsFrom, Describes, NoneForAReason;
    ClockMoves(h, instants, clock, tick, tick);
    SnapshotIsAccountedFor(h, clock, count, tick);
    next := tick;
    instant := clock(tick);
    for attempt := 0 to 2
      invariant tick <= next && Snapshot(h, clock, count, 2, tick) == Snapshot(h, clock, count, 2 - attempt, next)
    {
      var before, totals, after;
      before, next := PublishedRevisions(h, instants, clock, next);
      if before.None? {
        return None, next, instant;
      }
      ghost var middle := next;
      instant := clock(middle - 1);
      totals, next := BuildSummary(h, instants, clock, count, next);
      if totals.None? {
        return None, next, instant;
      }
      after, next := PublishedRevisions(h, instants, clock, next);
      if after == before {
        summary := Some(Summary(before.value, totals.value));
        ClockMoves(h, instants, clock, tick, middle - 1);
        ClockMoves(h, instants, clock, middle - 1, middle);
        ClockMoves(h, instants, clock, middle - 1, next);
        if NoneReturns(h, before.value, instant) {
          AcceptedIsTrue(h, instants, clock, count, summary.value, middle, instant);
        }
        return;
      }
    }
    summary := None;
  }

  // ----- The cache -----

  /** What a request shows: a summary of this request, an older one, or none. */
  datatype Shown = Current(summary: Summary) | Older(summary: Summary) | Nothing

  ghost function Fallback(cached: Option<Summary>): Shown {
    if cached.Some? then Older(cached.value) else Nothing
  }

  /** The cached summary while its words are still in effect, otherwise a new one, otherwise the old one. */
  ghost function Shows<C>(h: History<C>, clock: nat -> nat, count: C -> Counts, tick: nat, cached: Option<Summary>): Shown
    requires Spans(h, clock)
  {
    var words := ReadPass(h, clock, REVISION_ORDER, tick);
    if words.value.None? then Fallback(cached)
    else if cached.Some? && cached.value.revisions == words.value.value then Current(cached.value)
    else
      var renewed := Snapshot(h, clock, count, 2, words.next).value;
      if renewed.Some? then Current(renewed.value) else Fallback(cached)
  }

  /** The words of the cached summary were read by instant `read`, which lies before `i`. */
  ghost predicate CacheOk<C>(h: History<C>, count: C -> Counts, i: nat, cached: Option<Summary>, read: nat) {
    cached.Some? ==> read <= i && TrueUnlessReturning(h, count, cached.value, read)
  }

  /** A summary true at `k`, none of whose words could return, is still true at every instant before its words are read again. */
  lemma MatchingWordsKeepSummaryTrue<C(!new)>(h: History<C>, instants: nat, clock: nat -> nat, count: C -> Counts,
                                              s: Summary, k: nat, tick: nat, i: nat)
    requires IsHistory(h, instants) && IsClock(clock, instants) && k <= i <= clock(tick)
    requires TrueAt(h, count, s, k) && NoneReturns(h, s.revisions, k)
    requires ReadPass(h, clock, REVISION_ORDER, tick).value == Some(s.revisions)
    ensures TrueAt(h, count, s, i)
  {
    hide ReadPass, ReadWord, IsTimeline;
    forall j: JobType
      ensures HoldsAt(h, count, j, i, s.revisions[j], s.counts[j])
    {
      var w := s.revisions[j];
      EveryTypeIsListed(j);
      var at := PassReads(h, clock, REVISION_ORDER, tick, j);
      assert IsTimeline(h(j)) && HoldsAt(h, count, j, k, w, s.counts[j]);
      EffectiveWordIsKnown(h(j), k, w);
      ReadWordWasInEffect(h, instants, clock, j, k, at, w);
      WordHeldBetween(h(j), k, i, clock(at), w);
    }
  }

  lemma EffectiveWordIsKnown<C(!new)>(t: seq<State<C>>, k: nat, w: Word)
    requires k < |t| && IsTimeline(t) && EffectiveWord(t[k]) == Some(w)
    ensures w.revision < t[k].next
  {
    var actions := Between(t, k, k);
  }

  /** The words are those in effect in the states `g`. */
  ghost predicate NamesWords<C>(revisions: map<JobType, Word>, g: JobType -> State<C>) {
    forall j: JobType :: j in revisions && EffectiveWord(g(j)) == Some(revisions[j])
  }

  lemma NamedWordsAreEqual<C>(a: map<JobType, Word>, b: map<JobType, Word>, g: JobType -> State<C>)
    requires NamesWords(a, g)
    ensures a == b <==> NamesWords(b, g)
  {
    if NamesWords(b, g) {
      assert forall j: JobType :: j in a && j in b && a[j] == b[j];
    }
  }

  /** While words and contents rest, a pass reads the words in effect, and a snapshot after it says what is in effect. */
  lemma RequestAtRest<C>(h: History<C>, clock: nat -> nat, count: C -> Counts, tick: nat, b: nat)
    requires Spans(h, clock) && RestsFrom(h, clock, tick, b)
    ensures var words, g := ReadPass(h, clock, REVISION_ORDER, tick), StatesAt(h, clock(tick));
            && (words.next <= b ==> words.value.Some? && NamesWords(words.value.value, g))
            && (Snapshot(h, clock, count, 2, words.next).next <= b ==>
                  var r := Snapshot(h, clock, count, 2, words.next).value; r.Some? && Describes(r.value, g, count))
  {
    hide ReadPass, Snapshot, EffectiveWord, CountOf, Describes;
    var words, g := ReadPass(h, clock, REVISION_ORDER, tick), StatesAt(h, clock(tick));
    RestsHaveWords(h, clock, tick, b);
    PassAdvances(h, clock, REVISION_ORDER, tick);
    if words.next <= b {
      PassOfRest(h, clock, g, REVISION_ORDER, tick, b);
      forall j: JobType
        ensures j in words.value.value && EffectiveWord(g(j)) == Some(words.value.value[j])
      {
        EveryTypeIsListed(j);
      }
    }
    if Snapshot(h, clock, count, 2, words.next).next <= b {
      SnapshotOfRest(h, clock, count, g, 2, words.next);
    }
  }

  lemma ReasonStays<C>(h: History<C>, clock: nat -> nat, a: nat, b: nat, c: nat)
    requires Spans(h, clock) && c <= a && NoneForAReason(h, clock, a, b)
    ensures NoneForAReason(h, clock, c, b)
  {
    hide WordMissing, WordChanged, ChangedWhileCounting;
    ReasonsStay(h, clock, a, b, c, b);
    if m: nat :| a < m < b && WordChanged(h, clock, a, m) && WordChanged(h, clock, m, b) {
      ReasonsStay(h, clock, a, m, c, m);
    }
  }

  /**
    Shows the cached summary while its words are still in effect, and a new snapshot otherwise. What is
    shown as current was true at one instant of this very request, cached or not, unless a legacy word
    could still return when the words were read; `taken` is that earlier instant. While words and contents
    rest something current is shown; an old summary, or none, is shown only when there is no new one.
  */
  method RetainedSummaryWithCache<C(!new)>(h: History<C>, ghost instants: nat, clock: nat -> nat, count: C -> Counts, tick: nat,
                                           cached: Option<Summary>, ghost read: nat, refreshDue: bool)
    returns (shown: Shown, stored: Option<Summary>, next: nat, ghost taken: nat, ghost storedRead: nat)
    requires IsHistory(h, instants) && IsClock(clock, instants) && CacheOk(h, count, clock(tick), cached, read)
    ensures tick <= next && shown == Shows(h, clock, count, tick, cached)
    ensures shown.Current? ==>
              && taken <= clock(next) && (taken == read || clock(tick) <= taken)
              && (NoneReturns(h, shown.summary.revisions, taken) ==> TrueWithin(h, count, shown.summary, clock(tick), clock(next)))
    ensures RestsFrom(h, clock, tick, next) ==>
              var g := StatesAt(h, clock(tick));
              && shown.Current? && NamesWords(shown.summary.revisions, g)
              && (if cached.Some? && NamesWords(cached.value.revisions, g)
                  then shown.summary == cached.value && (refreshDue ==> stored.Some? && Describes(stored.value, g, count))
                  else Describes(shown.summary, g, count))
    ensures !shown.Current? ==> NoneForAReason(h, clock, tick, next) && shown == if cached.Some? then Older(cached.value) else Nothing
    ensures CacheOk(h, count, clock(next), stored, storedRead)
    ensures !refreshDue && shown.Current? && cached == Some(shown.summary) ==> stored == cached
    ensures stored != cached ==> stored.Some? && shown.Current?
    ensures shown.Current? && cached != Some(shown.summary) ==> stored == Some(shown.summary)
  {
    hide Snapshot, RestsFrom, Describes, NamesWords, NoneForAReason, WordMissing, ReadPass;
    stored, taken, storedRead := cached, read, read;
    var fallback := if cached.Some? then Older(cached.value) else Nothing;
    var revisions;
    revisions, next := PublishedRevisions(h, instants, clock, tick);
    ghost var first := next;
    if revisions.None? {
      PassFails(h, clock, REVISION_ORDER, tick);
      MissingIsAReason(h, clock, tick, next);
      if RestsFrom(h, clock, tick, next) {
        RequestAtRest(h, clock, count, tick, next);
      }
      return fallback, stored, next, taken, storedRead;
    }
    var renewed;
    ghost var instant;
    if cached.Some? && cached.value.revisions == revisions.value {
      shown := Current(cached.value);
      if NoneReturns(h, cached.value.revisions, read) {
        MatchingWordsKeepSummaryTrue(h, instants, clock, count, cached.value, read, tick, clock(tick));
      }
      if refreshDue {
        renewed, next, instant := PublishedSummarySnapshot(h, instants, clock, count, next);
        if renewed.Some? {
          stored, storedRead := renewed, instant;
        }
      }
      if RestsFrom(h, clock, tick, next) {
        RequestAtRest(h, clock, count, tick, next);
      }
      return;
    }
    renewed, next, instant := PublishedSummarySnapshot(h, instants, clock, count, next);
    if RestsFrom(h, clock, tick, next) {
      RequestAtRest(h, clock, count, tick, next);
      if cached.Some? {
        NamedWordsAreEqual(revisions.value, cached.value.revisions, StatesAt(h, clock(tick)));
      }
      DescribedWordsAreNamed(renewed.value, StatesAt(h, clock(tick)), count);
    }
    if renewed.None? {
      ReasonStays(h, clock, first, next, tick);
      return fallback, stored, next, taken, storedRead;
    }
    return Current(renewed.value), renewed, next, instant, instant;
  }

  lemma MissingIsAReason<C>(h: History<C>, clock: nat -> nat, a: nat, b: nat)
    requires Spans(h, clock) && WordMissing(h, clock, a, b)
    ensures NoneForAReason(h, clock, a, b)
  {
  }

  lemma DescribedWordsAreNamed<C>(s: Summary, g: JobType -> State<C>, count: C -> Counts)
    requires Describes(s, g, count)
    ensures NamesWords(s.revisions, g)
  {
  }
}
