/**
  The generation protocol of one retained job type.

  Redis holds two alternating slots (`A`, `B`) beside the slot of the previous
  release (`Legacy`), a token lock, and the published `generation:revision` word.
  Writers mutate only a slot that is not published and then swap the word; a request
  may also publish the legacy word without holding the lock; readers compare the word
  before and after they read. Each single command, MULTI/EXEC block and Lua script is
  one action, so a run is a sequence of actions of any number of processes, each of
  which may crash between any two of its own.
*/
module GenerationProtocol {
  import opened Options

  datatype Generation = Legacy | A | B

  type Revision = nat

  type Pid = nat

  datatype Word = Word(generation: Generation, revision: Revision)

  /** The content of a slot, with the number of writes it has received. */
  datatype Version<+C> = Version(writes: nat, content: C)

  datatype Slots<+C> = Slots(legacy: Version<C>, a: Version<C>, b: Version<C>) {
    function At(g: Generation): Version<C> {
      match g
      case Legacy => legacy
      case A => a
      case B => b
    }
  }

  datatype Observation<+C> = Observation(generation: Generation, version: Version<C>)

  /** What a live reader has gathered: its first word, and every slot it looked at. */
  datatype View<+C> = View(
    word: Option<Word>,
    exposed: bool,
    begun: Version<C>,
    resolved: set<Generation>,
    seen: seq<Observation<C>>)

  datatype Process<+C> =
    | Finished
      // a writer, from taking the lock to releasing it
    | Preparing
    | PreparingFallback
    | Working(slot: Generation)
    | Cleaning
      // the unlocked publish of the legacy word
    | Ensuring
    | EnsuringFallback
    | EnsuringAbsent
    | EnsuringStored(revision: Revision)
      // a reader of the published generation, which it fixes once
    | PinnedStart
    | PinnedStartFallback
    | Pinned(pinned: Word, begun: Version<C>, seen: seq<Version<C>>)
    | PinnedEndFallback(pinned: Word, begun: Version<C>, seen: seq<Version<C>>)
    | PinnedDone(pinned: Word, begun: Version<C>, seen: seq<Version<C>>, ended: Version<C>)
      // a live reader, which resolves the current generation for every key
    | LiveStart
    | LiveStartFallback
    | LiveLocked(view: View<C>)
    | Live(view: View<C>)
    | LiveResolveFallback(view: View<C>)
    | LiveEnd(view: View<C>)
    | LiveEndFallback(view: View<C>)
    | LiveDone(view: View<C>, ended: Version<C>)

  datatype State<+C> = State(
    published: Option<Word>,
    legacyRevision: Option<Revision>,
    lock: Option<Pid>,
    next: Revision,
    slots: Slots<C>,
    procs: map<Pid, Process<C>>)

  datatype Action<+C> =
    | StartWriter(p: Pid)
    | StartEnsure(p: Pid)
    | StartPinned(p: Pid)
    | StartLive(p: Pid)
    | Get(p: Pid)
    | Mutate(p: Pid, content: C)
    | Publish(p: Pid)
    | Store(p: Pid)
    | Read(p: Pid, generation: Generation)
    | CheckLock(p: Pid)
    | Release(p: Pid)
    | Crash(p: Pid)
    | Expire

  // ----- The actions -----

  function WorkingSlot(published: Generation): Generation {
    if published == A then B else A
  }

  function GenerationOf(word: Option<Word>): Generation {
    if word.Some? then word.value.generation else Legacy
  }

  predicate HoldsLock<C>(q: Process<C>) {
    q.Preparing? || q.PreparingFallback? || q.Working? || q.Cleaning?
  }

  /** Some process has stored the legacy revision `r` but not yet the word that carries it. */
  ghost predicate Pending<C>(s: State<C>, r: Revision) {
    PendingIn(s.procs, r)
  }

  ghost predicate PendingIn<C>(procs: map<Pid, Process<C>>, r: Revision) {
    exists p :: p in procs && procs[p] == EnsuringStored(r)
  }

  function Become<C>(s: State<C>, p: Pid, q: Process<C>): State<C> {
    s.(procs := s.procs[p := q])
  }

  function Written<C>(slots: Slots<C>, g: Generation, content: C): Slots<C> {
    var v := Version(slots.At(g).writes + 1, content);
    match g
    case Legacy => slots.(legacy := v)
    case A => slots.(a := v)
    case B => slots.(b := v)
  }

  function Begin<C>(s: State<C>, word: Word): Process<C> {
    Pinned(word, s.slots.At(word.generation), [])
  }

  ghost function BeginLive<C>(s: State<C>, word: Option<Word>, exposed: bool): Process<C> {
    LiveLocked(View(word, exposed, s.slots.At(GenerationOf(word)), {}, []))
  }

  function EndLive<C>(s: State<C>, view: View<C>, word: Option<Word>): Process<C> {
    if word == view.word then LiveDone(view, s.slots.At(GenerationOf(word))) else Finished
  }

  function LegacyWord<C>(s: State<C>): Option<Word> {
    if s.legacyRevision.Some? then Some(Word(Legacy, s.legacyRevision.value)) else None
  }

  /** The next GET of process `q`: the published key first, the legacy revision when it is absent. */
  ghost function AfterGet<C>(s: State<C>, q: Process<C>): Process<C> {
    match q
    case Preparing =>
      if s.published.Some? then Working(WorkingSlot(s.published.value.generation)) else PreparingFallback
    case PreparingFallback => Working(WorkingSlot(Legacy))
    case Ensuring => if s.published.Some? then Finished else EnsuringFallback
    case EnsuringFallback => if s.legacyRevision.Some? then Finished else EnsuringAbsent
    case PinnedStart => if s.published.Some? then Begin(s, s.published.value) else PinnedStartFallback
    case PinnedStartFallback => if s.legacyRevision.Some? then Begin(s, LegacyWord(s).value) else Finished
    case Pinned(w, begun, seen) =>
      if s.published.None? then PinnedEndFallback(w, begun, seen)
      else if s.published == Some(w) then PinnedDone(w, begun, seen, s.slots.At(w.generation))
      else Finished
    case PinnedEndFallback(w, begun, seen) =>
      if LegacyWord(s) == Some(w) then PinnedDone(w, begun, seen, s.slots.At(w.generation)) else Finished
    case LiveStart => if s.published.Some? then BeginLive(s, s.published, false) else LiveStartFallback
    case LiveStartFallback =>
      BeginLive(s, LegacyWord(s), s.legacyRevision.Some? && Pending(s, s.legacyRevision.value))
    case Live(view) =>
      if s.published.Some? then Live(view.(resolved := view.resolved + {s.published.value.generation}))
      else LiveResolveFallback(view)
    case LiveResolveFallback(view) => Live(view.(resolved := view.resolved + {Legacy}))
    case LiveEnd(view) => if s.published.Some? then EndLive(s, view, s.published) else LiveEndFallback(view)
    case LiveEndFallback(view) => EndLive(s, view, LegacyWord(s))
    case _ => q
  }

  /** Lock expiry. The heartbeats are taken to stop the owner: it performs no action afterwards. */
  function Expired<C>(s: State<C>): State<C> {
    if s.lock.Some? && s.lock.value in s.procs && HoldsLock(s.procs[s.lock.value])
    then Become(s, s.lock.value, Finished).(lock := None)
    else s.(lock := None)
  }

  /** One action. An action its process cannot take now changes nothing. */
  ghost function Step<C>(s: State<C>, a: Action<C>): State<C> {
    match a
    case Expire => Expired(s)
    case StartWriter(p) =>
      if p in s.procs then s
      else if s.lock.None? then Become(s, p, Preparing).(lock := Some(p))
      else Become(s, p, Finished)
    case StartEnsure(p) => if p in s.procs then s else Become(s, p, Ensuring)
    case StartPinned(p) => if p in s.procs then s else Become(s, p, PinnedStart)
    case StartLive(p) => if p in s.procs then s else Become(s, p, LiveStart)
    case _ => if a.p in s.procs then StepOf(s, a.p, s.procs[a.p], a) else s
  }

  ghost function StepOf<C>(s: State<C>, p: Pid, q: Process<C>, a: Action<C>): State<C>
    requires p in s.procs && s.procs[p] == q
  {
    match a
    case Get(_) => Become(s, p, AfterGet(s, q))
    case Mutate(_, content) => if q.Working? then s.(slots := Written(s.slots, q.slot, content)) else s
    case Publish(_) =>
      if q.Working?
      then Become(s, p, Cleaning).(published := Some(Word(q.slot, s.next)), next := s.next + 1)
      else s
    case Store(_) =>
      (match q
       case EnsuringAbsent =>
         Become(s, p, EnsuringStored(s.next)).(legacyRevision := Some(s.next), next := s.next + 1)
       case EnsuringStored(r) => Become(s, p, Finished).(published := Some(Word(Legacy, r)))
       case _ => s)
    case Read(_, g) =>
      (match q
       case Pinned(w, begun, seen) => Become(s, p, Pinned(w, begun, seen + [s.slots.At(w.generation)]))
       case Live(view) =>
         if g in view.resolved
         then Become(s, p, Live(view.(seen := view.seen + [Observation(g, s.slots.At(g))])))
         else s
       case _ => s)
    case CheckLock(_) =>
      (match q
       case LiveLocked(view) => Become(s, p, if s.lock.None? then Live(view) else Finished)
       case Live(view) => Become(s, p, if s.lock.None? then LiveEnd(view) else Finished)
       case _ => s)
    case Release(_) =>
      if HoldsLock(q)
      then Become(s, p, Finished).(lock := if s.lock == Some(p) then None else s.lock)
      else s
    case Crash(_) => Become(s, p, Finished)
    case _ => s
  }

  /** The state after a sequence of actions: every interleaving of every set of processes is one. */
  ghost function Run<C>(s: State<C>, actions: seq<Action<C>>): State<C>
    decreases |actions|
  {
    if actions == [] then s else Run(Step(s, actions[0]), actions[1..])
  }

  // ----- The invariant -----

  /** Redis before the first process: any words already stored carry revisions that were used. */
  ghost predicate Initial<C>(s: State<C>) {
    && s.procs == map[]
    && (s.published.Some? ==> s.published.value.revision < s.next)
    && (s.legacyRevision.Some? ==> s.legacyRevision.value < s.next)
  }

  ghost predicate Fresh<C>(s: State<C>, word: Option<Word>) {
    word.Some? ==> word.value.revision < s.next
  }

  ghost predicate PinnedOk<C>(s: State<C>, w: Word, begun: Version<C>, seen: seq<Version<C>>) {
    && w.revision < s.next
    && (w.generation == Legacy || s.published == Some(w) ==>
          s.slots.At(w.generation) == begun && forall v :: v in seen ==> v == begun)
  }

  /** The view so far touched one generation, and that generation is as it was. */
  ghost predicate Single<C>(view: View<C>) {
    && view.resolved <= {GenerationOf(view.word)}
    && forall o :: o in view.seen ==> o == Observation(GenerationOf(view.word), view.begun)
  }

  /** The words a reader that started with `view.word` can still accept at its end. */
  ghost predicate MayReturn<C>(s: State<C>, view: View<C>) {
    s.published == view.word || (s.published.None? && GenerationOf(view.word) == Legacy)
  }

  ghost predicate LiveOk<C>(s: State<C>, view: View<C>) {
    && Fresh(s, view.word)
    && (GenerationOf(view.word) != Legacy ==> s.published.Some?)
    && (GenerationOf(view.word) == Legacy ==> s.slots.At(Legacy) == view.begun)
    && (!view.exposed && GenerationOf(view.word) == Legacy && view.word.Some? ==> !Pending(s, view.word.value.revision))
    && (!view.exposed && MayReturn(s, view) ==> s.slots.At(GenerationOf(view.word)) == view.begun && Single(view))
  }

  /** The end check of a reader that found no published word can only still accept a legacy view. */
  ghost predicate LiveEndOk<C>(s: State<C>, view: View<C>) {
    LiveOk(s, view) && (!view.exposed && GenerationOf(view.word) == Legacy ==> Single(view))
  }

  ghost predicate ProcessOk<C>(s: State<C>, p: Pid, q: Process<C>) {
    match q
    case PreparingFallback => GenerationOf(s.published) == Legacy
    case Working(slot) => slot != Legacy && GenerationOf(s.published) != slot
    case EnsuringStored(r) => r < s.next && s.published != Some(Word(Legacy, r)) && s.legacyRevision.Some?
    case Pinned(w, begun, seen) => PinnedOk(s, w, begun, seen)
    case PinnedEndFallback(w, begun, seen) => PinnedOk(s, w, begun, seen)
    case PinnedDone(w, begun, seen, ended) => ended == begun && forall v :: v in seen ==> v == begun
    case LiveLocked(view) => LiveOk(s, view)
    case Live(view) => LiveOk(s, view)
    case LiveResolveFallback(view) => LiveOk(s, view) && GenerationOf(view.word) == Legacy
    case LiveEnd(view) => LiveOk(s, view)
    case LiveEndFallback(view) => LiveEndOk(s, view)
    case LiveDone(view, ended) => !view.exposed ==> ended == view.begun && Single(view)
    case _ => true
  }

  ghost predicate Invariant<C>(s: State<C>) {
    && Fresh(s, s.published)
    && Fresh(s, LegacyWord(s))
    && (forall p :: p in s.procs && HoldsLock(s.procs[p]) ==> s.lock == Some(p))
    && (forall p, p' :: p in s.procs && p' in s.procs && s.procs[p].EnsuringStored? && s.procs[p] == s.procs[p'] ==> p == p')
    && (forall p :: p in s.procs ==> ProcessOk(s, p, s.procs[p]))
  }

  // ----- Every action keeps it -----

  lemma NothingNewPending<C>(procs: map<Pid, Process<C>>, p: Pid, q: Process<C>)
    ensures forall r: Revision :: PendingIn(procs[p := q], r) && q != EnsuringStored(r) ==> PendingIn(procs, r)
  {
    forall r: Revision | PendingIn(procs[p := q], r) && q != EnsuringStored(r)
      ensures PendingIn(procs, r)
    {
      var o :| o in procs[p := q] && procs[p := q][o] == EnsuringStored(r);
      assert o in procs && procs[o] == EnsuringStored(r);
    }
  }

  /** Replacing one process by another that meets its part, with no new pending revision. */
  lemma BecomeKeeps<C>(s: State<C>, p: Pid, q: Process<C>)
    requires Invariant(s)
    requires ProcessOk(s, p, q) && !q.EnsuringStored?
    requires HoldsLock(q) ==> s.lock == Some(p)
    ensures Invariant(Become(s, p, q))
  {
    var t := Become(s, p, q);
    NothingNewPending(s.procs, p, t.procs[p]);
    forall o | o in t.procs
      ensures ProcessOk(t, o, t.procs[o])
    {
      if o != p {
        assert ProcessOk(s, o, s.procs[o]);
      }
    }
  }

  lemma GetKeeps<C>(s: State<C>, p: Pid)
    requires Invariant(s) && p in s.procs
    ensures Invariant(Become(s, p, AfterGet(s, s.procs[p])))
  {
    var q := s.procs[p];
    assert ProcessOk(s, p, q);
    if q.EnsuringStored? {
      assert Become(s, p, q).procs == s.procs;
    } else {
      BecomeKeeps(s, p, AfterGet(s, q));
    }
  }

  lemma PublishKeeps<C>(s: State<C>, p: Pid)
    requires Invariant(s) && p in s.procs && s.procs[p].Working?
    ensures Invariant(Step(s, Publish(p)))
  {
    var q := s.procs[p];
    var t := Step(s, Publish(p));
    NothingNewPending(s.procs, p, t.procs[p]);
    forall o | o in t.procs
      ensures ProcessOk(t, o, t.procs[o])
    {
      if o != p {
        assert ProcessOk(s, o, s.procs[o]);
      }
    }
  }

  lemma StoreRevisionKeeps<C>(s: State<C>, p: Pid)
    requires Invariant(s) && p in s.procs && s.procs[p].EnsuringAbsent?
    ensures Invariant(Step(s, Store(p)))
  {
    var t := Step(s, Store(p));
    assert t == s.(procs := s.procs[p := EnsuringStored(s.next)], legacyRevision := Some(s.next), next := s.next + 1);
    NothingNewPending(s.procs, p, t.procs[p]);
    assert forall r: Revision :: r < s.next && Pending(t, r) ==> Pending(s, r);
    hide Step, Pending, PendingIn;
    forall o | o in t.procs
      ensures ProcessOk(t, o, t.procs[o])
    {
      if o != p {
        assert ProcessOk(s, o, s.procs[o]);
      }
    }
  }

  lemma StoreWordKeeps<C>(s: State<C>, p: Pid)
    requires Invariant(s) && p in s.procs && s.procs[p].EnsuringStored?
    ensures Invariant(Step(s, Store(p)))
  {
    var t := Step(s, Store(p));
    NothingNewPending(s.procs, p, t.procs[p]);
    assert Pending(s, s.procs[p].revision);
    forall o | o in t.procs
      ensures ProcessOk(t, o, t.procs[o])
    {
      if o != p {
        assert ProcessOk(s, o, s.procs[o]);
      }
    }
  }

  lemma StoreKeeps<C>(s: State<C>, p: Pid)
    requires Invariant(s) && p in s.procs
    ensures Invariant(Step(s, Store(p)))
  {
    if s.procs[p].EnsuringAbsent? {
      StoreRevisionKeeps(s, p);
    } else if s.procs[p].EnsuringStored? {
      StoreWordKeeps(s, p);
    }
  }

  lemma MutateKeeps<C>(s: State<C>, p: Pid, content: C)
    requires Invariant(s) && p in s.procs && s.procs[p].Working?
    ensures Invariant(Step(s, Mutate(p, content)))
  {
    var t := Step(s, Mutate(p, content));
    assert ProcessOk(s, p, s.procs[p]);
    assert forall g :: g != s.procs[p].slot ==> t.slots.At(g) == s.slots.At(g);
    forall o | o in t.procs
      ensures ProcessOk(t, o, t.procs[o])
    {
      assert ProcessOk(s, o, s.procs[o]);
    }
  }

  /** The lock may pass on whenever no process holds it. */
  lemma LockKeeps<C>(s: State<C>, lock: Option<Pid>)
    requires Invariant(s)
    requires forall p :: p in s.procs ==> !HoldsLock(s.procs[p])
    ensures Invariant(s.(lock := lock))
  {
    var t := s.(lock := lock);
    assert forall r: Revision :: Pending(t, r) ==> Pending(s, r);
    forall o | o in t.procs
      ensures ProcessOk(t, o, t.procs[o])
    {
      assert ProcessOk(s, o, s.procs[o]);
    }
  }

  lemma LeaveKeeps<C>(s: State<C>, p: Pid)
    requires Invariant(s) && p in s.procs && HoldsLock(s.procs[p])
    ensures Invariant(Become(s, p, Finished).(lock := None))
  {
    BecomeKeeps(s, p, Finished);
    LockKeeps(Become(s, p, Finished), None);
  }

  lemma StartKeeps<C>(s: State<C>, a: Action<C>)
    requires Invariant(s)
    requires a.StartWriter? || a.StartEnsure? || a.StartPinned? || a.StartLive?
    ensures Invariant(Step(s, a))
  {
    if a.p !in s.procs {
      if a.StartWriter? && s.lock.None? {
        LockKeeps(s, Some(a.p));
        BecomeKeeps(s.(lock := Some(a.p)), a.p, Preparing);
      } else {
        BecomeKeeps(s, a.p, Step(s, a).procs[a.p]);
      }
    }
  }

  lemma ObserveKeeps<C>(s: State<C>, a: Action<C>)
    requires Invariant(s)
    requires a.Read? || a.CheckLock?
    ensures Invariant(Step(s, a))
  {
    if a.p in s.procs && Step(s, a) != s {
      assert ProcessOk(s, a.p, s.procs[a.p]);
      BecomeKeeps(s, a.p, Step(s, a).procs[a.p]);
    }
  }

  lemma LeavingKeeps<C>(s: State<C>, a: Action<C>)
    requires Invariant(s)
    requires a.Expire? || a.Release? || a.Crash?
    ensures Invariant(Step(s, a))
  {
    match a
    case Expire =>
      if s.lock.Some? && s.lock.value in s.procs && HoldsLock(s.procs[s.lock.value]) {
        LeaveKeeps(s, s.lock.value);
      } else {
        LockKeeps(s, None);
      }
    case Release(p) => if p in s.procs && HoldsLock(s.procs[p]) { LeaveKeeps(s, p); }
    case Crash(p) => if p in s.procs { BecomeKeeps(s, p, Finished); }
  }

  lemma StepKeepsInvariant<C>(s: State<C>, a: Action<C>)
    requires Invariant(s)
    ensures Invariant(Step(s, a))
  {
    match a
    case StartWriter(_) => StartKeeps(s, a);
    case StartEnsure(_) => StartKeeps(s, a);
    case StartPinned(_) => StartKeeps(s, a);
    case StartLive(_) => StartKeeps(s, a);
    case Read(_, _) => ObserveKeeps(s, a);
    case CheckLock(_) => ObserveKeeps(s, a);
    case Expire => LeavingKeeps(s, a);
    case Release(_) => LeavingKeeps(s, a);
    case Crash(_) => LeavingKeeps(s, a);
    case Get(p) => if p in s.procs { GetKeeps(s, p); }
    case Store(p) => if p in s.procs { StoreKeeps(s, p); }
    case Publish(p) => if p in s.procs && s.procs[p].Working? { PublishKeeps(s, p); }
    case Mutate(p, content) => if p in s.procs && s.procs[p].Working? { MutateKeeps(s, p, content); }
  }

  /** The invariant holds after every run of any number of processes. */
  lemma {:induction false} RunKeepsInvariant<C>(s: State<C>, actions: seq<Action<C>>)
    requires Invariant(s)
    ensures Invariant(Run(s, actions))
    decreases |actions|
  {
    if actions != [] {
      StepKeepsInvariant(s, actions[0]);
      RunKeepsInvariant(Step(s, actions[0]), actions[1..]);
    }
  }

  // ----- What every run guarantees -----

  /** A live writer's slot is never the published one, and no other writer is at work beside it. */
  lemma WorkingSlotIsNeverPublished<C>(s: State<C>, actions: seq<Action<C>>, p: Pid)
    requires Initial(s)
    requires var t := Run(s, actions); p in t.procs && t.procs[p].Working?
    ensures var t := Run(s, actions);
            && t.procs[p].slot != Legacy
            && (t.published.Some? ==> t.published.value.generation != t.procs[p].slot)
            && forall o :: o in t.procs && t.procs[o].Working? ==> o == p
  {
    RunKeepsInvariant(s, actions);
    assert ProcessOk(Run(s, actions), p, Run(s, actions).procs[p]);
  }

  /** A reader of the published generation that passes both checks read that one slot, unwritten between them. */
  lemma PinnedReaderReadsOneGeneration<C>(s: State<C>, actions: seq<Action<C>>, p: Pid)
    requires Initial(s)
    requires var t := Run(s, actions); p in t.procs && t.procs[p].PinnedDone?
    ensures var q := Run(s, actions).procs[p];
            q.begun == q.ended && forall i :: 0 <= i < |q.seen| ==> q.seen[i] == q.begun
  {
    RunKeepsInvariant(s, actions);
    var t := Run(s, actions);
    assert ProcessOk(t, p, t.procs[p]);
    var q := t.procs[p];
    assert forall i :: 0 <= i < |q.seen| ==> q.seen[i] in q.seen;
  }

  /** A live reader read one generation, unless its first word was a legacy revision still on its way to publication. */
  lemma LiveReaderReadsOneGeneration<C>(s: State<C>, actions: seq<Action<C>>, p: Pid)
    requires Initial(s)
    requires var t := Run(s, actions); p in t.procs && t.procs[p].LiveDone? && !t.procs[p].view.exposed
    ensures var q := Run(s, actions).procs[p];
            && q.view.begun == q.ended
            && forall i :: 0 <= i < |q.view.seen| ==>
                 q.view.seen[i] == Observation(GenerationOf(q.view.word), q.view.begun)
  {
    RunKeepsInvariant(s, actions);
    var t := Run(s, actions);
    assert ProcessOk(t, p, t.procs[p]);
    var view := t.procs[p].view;
    assert forall i :: 0 <= i < |view.seen| ==> view.seen[i] in view.seen;
  }

  lemma {:induction false} RunAppend<C>(s: State<C>, first: seq<Action<C>>, second: seq<Action<C>>)
    ensures Run(s, first + second) == Run(Run(s, first), second)
    decreases |first|
  {
    if first == [] {
      assert first + second == second;
    } else {
      assert (first + second)[1..] == first[1..] + second;
      RunAppend(Step(s, first[0]), first[1..], second);
    }
  }

  lemma RunSnoc<C>(s: State<C>, actions: seq<Action<C>>, a: Action<C>)
    ensures Run(s, actions + [a]) == Step(Run(s, actions), a)
  {
    RunAppend(s, actions, [a]);
    assert Run(Run(s, actions), [a]) == Run(Step(Run(s, actions), a), []);
  }

  /** The write counter only grows, and equal counters mean that nothing was written between. */
  lemma {:induction false} WritesAreCounted<C>(s: State<C>, actions: seq<Action<C>>, g: Generation)
    ensures var before, after := s.slots.At(g), Run(s, actions).slots.At(g);
            before.writes <= after.writes && (before.writes == after.writes ==> before == after)
    decreases |actions|
  {
    if actions != [] {
      WritesAreCounted(Step(s, actions[0]), actions[1..], g);
    }
  }

  /** The word that a reader arriving now finds: the published one, or else the legacy revision's. */
  function EffectiveWord<C>(s: State<C>): Option<Word> {
    if s.published.Some? then s.published else LegacyWord(s)
  }

  /** A legacy word may still be stored by the process that made its revision; a slot's word never returns. */
  ghost predicate Returns<C>(s: State<C>, w: Word) {
    w.generation == Legacy && Pending(s, w.revision)
  }

  /** What one action does to the words: new ones are fresh, or are a legacy word that was on its way. */
  lemma WordsMove<C>(s: State<C>, a: Action<C>)
    requires Invariant(s)
    ensures var t := Step(s, a);
            && s.next <= t.next
            && (s.published.Some? ==> t.published.Some?)
            && (t.published == s.published || (t.published.Some? && (t.published.value.revision >= s.next || Returns(s, t.published.value))))
            && (t.legacyRevision == s.legacyRevision || t.legacyRevision == Some(s.next))
  {
    if a.Store? && a.p in s.procs && s.procs[a.p].EnsuringStored? {
      assert Pending(s, s.procs[a.p].revision);
    }
  }

  lemma NothingOldBecomesPending<C>(s: State<C>, a: Action<C>)
    ensures forall r: Revision :: r < s.next && Pending(Step(s, a), r) ==> Pending(s, r)
  {
    var t := Step(s, a);
    forall r: Revision | r < s.next && Pending(t, r)
      ensures Pending(s, r)
    {
      var o :| o in t.procs && t.procs[o] == EnsuringStored(r);
      assert o in s.procs && s.procs[o] == EnsuringStored(r);
    }
  }

  /** No action writes the legacy slot, nor the slot that is published. */
  lemma PublishedSlotIsFrozen<C>(s: State<C>, a: Action<C>)
    requires Invariant(s)
    ensures Step(s, a).slots.legacy == s.slots.legacy
    ensures s.published.Some? ==> Step(s, a).slots.At(s.published.value.generation) == s.slots.At(s.published.value.generation)
  {
    if a.Mutate? && a.p in s.procs {
      assert ProcessOk(s, a.p, s.procs[a.p]);
    }
  }

  /** The word is not in effect, was used before, and cannot return. */
  ghost predicate Gone<C>(s: State<C>, w: Word) {
    Invariant(s) && w.revision < s.next && !Returns(s, w) && EffectiveWord(s) != Some(w)
  }

  lemma GoneStaysGone<C>(s: State<C>, a: Action<C>, w: Word)
    requires Gone(s, w)
    ensures Gone(Step(s, a), w)
  {
    StepKeepsInvariant(s, a);
    WordsMove(s, a);
    NothingOldBecomesPending(s, a);
    hide Invariant, Step, Pending;
  }

  /** A word that has been replaced never takes effect again, unless it is a legacy word still on its way. */
  lemma {:induction false} ReplacedWordIsGone<C>(s: State<C>, actions: seq<Action<C>>, w: Word)
    requires Gone(s, w)
    ensures Gone(Run(s, actions), w)
    decreases |actions|
  {
    if actions != [] {
      GoneStaysGone(s, actions[0], w);
      hide Gone, Step;
      ReplacedWordIsGone(Step(s, actions[0]), actions[1..], w);
    }
  }

  lemma {:induction false} LegacyRevisionIsGone<C>(s: State<C>, actions: seq<Action<C>>, r: Revision)
    requires Invariant(s) && r < s.next && s.legacyRevision != Some(r)
    ensures Run(s, actions).legacyRevision != Some(r)
    decreases |actions|
  {
    if actions != [] {
      WordsMove(s, actions[0]);
      StepKeepsInvariant(s, actions[0]);
      hide Invariant, Step;
      LegacyRevisionIsGone(Step(s, actions[0]), actions[1..], r);
    }
  }

  lemma {:induction false} LegacySlotIsFrozen<C>(s: State<C>, actions: seq<Action<C>>)
    requires Invariant(s)
    ensures Run(s, actions).slots.legacy == s.slots.legacy
    decreases |actions|
  {
    if actions != [] {
      PublishedSlotIsFrozen(s, actions[0]);
      StepKeepsInvariant(s, actions[0]);
      hide Invariant, Step;
      LegacySlotIsFrozen(Step(s, actions[0]), actions[1..]);
    }
  }

  /** One action under which a word stays in effect does not touch its slot. */
  lemma EffectiveSlotIsFrozen<C>(s: State<C>, a: Action<C>, w: Word)
    requires Invariant(s) && EffectiveWord(s) == Some(w)
    ensures Step(s, a).slots.At(w.generation) == s.slots.At(w.generation)
    ensures w.revision < s.next && w.revision < Step(s, a).next
    ensures !Returns(s, w) ==> !Returns(Step(s, a), w)
  {
    PublishedSlotIsFrozen(s, a);
    WordsMove(s, a);
    NothingOldBecomesPending(s, a);
    hide Step, Pending;
  }

  /** A word in effect at both ends of a run, that could not return, was in effect throughout, over an unwritten slot. */
  lemma {:induction false} EffectiveWordIsStable<C>(s: State<C>, actions: seq<Action<C>>, w: Word)
    requires Invariant(s) && EffectiveWord(s) == Some(w) && !Returns(s, w) && EffectiveWord(Run(s, actions)) == Some(w)
    ensures Run(s, actions).slots.At(w.generation) == s.slots.At(w.generation)
    ensures forall k :: 0 <= k <= |actions| ==> EffectiveWord(Run(s, actions[..k])) == Some(w)
    decreases |actions|
  {
    if actions == [] {
      assert actions[..0] == actions;
    } else {
      var t := Step(s, actions[0]);
      StepKeepsInvariant(s, actions[0]);
      EffectiveSlotIsFrozen(s, actions[0], w);
      if EffectiveWord(t) != Some(w) {
        ReplacedWordIsGone(t, actions[1..], w);
        assert false;
      }
      hide Invariant, Step, Returns, EffectiveWord;
      EffectiveWordIsStable(t, actions[1..], w);
      forall k | 0 <= k <= |actions|
        ensures EffectiveWord(Run(s, actions[..k])) == Some(w)
      {
        if k > 0 {
          assert actions[..k][1..] == actions[1..][..k - 1];
        } else {
          assert actions[..0] == [];
        }
      }
    }
  }

  // ----- Where the guarantee stops -----

  /** One more action at the end of a run. */
  lemma Extend<C>(s: State<C>, actions: seq<Action<C>>, t: State<C>, a: Action<C>) returns (more: seq<Action<C>>, u: State<C>)
    requires Run(s, actions) == t
    ensures more == actions + [a] && u == Step(t, a) && Run(s, more) == u
  {
    more := actions + [a];
    u := Step(t, a);
    RunSnoc(s, actions, a);
  }

  /** A writer that finds nothing published publishes slot `A` and releases the lock. */
  lemma FirstPublication<C>(s: State<C>, w: Pid) returns (actions: seq<Action<C>>)
    requires s.published.None? && s.lock.None? && w !in s.procs
    ensures Run(s, actions) ==
            Become(s, w, Finished).(published := Some(Word(A, s.next)), next := s.next + 1)
  {
    var t := s;
    actions := [];
    actions, t := Extend(s, actions, t, StartWriter(w));
    actions, t := Extend(s, actions, t, Get(w));
    actions, t := Extend(s, actions, t, Get(w));
    assert t == Become(s, w, Working(A)).(lock := Some(w));
    actions, t := Extend(s, actions, t, Publish(w));
    actions, t := Extend(s, actions, t, Release(w));
  }

  /** From any state a new writer can publish any content in a slot; processes on the way to a legacy word are left alone. */
  lemma PublishesContent<C>(s: State<C>, w: Pid, content: C) returns (actions: seq<Action<C>>)
    requires w !in s.procs
    ensures var t := Run(s, actions);
            && t.published.Some? && t.published.value.generation != Legacy
            && t.slots.At(t.published.value.generation).content == content && t.slots.legacy == s.slots.legacy
            && forall q :: q in s.procs && s.procs[q].EnsuringStored? ==> q in t.procs && t.procs[q] == s.procs[q]
  {
    var first := TakesSlot(s, w);
    var t := Run(s, first);
    var slot := t.procs[w].slot;
    var u := Step(t, Mutate(w, content));
    RunSnoc(s, first, Mutate(w, content));
    assert u == t.(slots := Written(t.slots, slot, content));
    RunSnoc(s, first + [Mutate(w, content)], Publish(w));
    actions := first + [Mutate(w, content)] + [Publish(w)];
  }

  lemma TakesSlot<C>(s: State<C>, w: Pid) returns (actions: seq<Action<C>>)
    requires w !in s.procs
    ensures var t := Run(s, actions);
            && w in t.procs && t.procs[w].Working? && t.procs[w].slot != Legacy && t.slots == s.slots
            && forall q :: q in s.procs && s.procs[q].EnsuringStored? ==> q in t.procs && t.procs[q] == s.procs[q]
  {
    var t := s;
    actions := [];
    actions, t := Extend(s, actions, t, Expire);
    assert t.lock.None? && w !in t.procs && t.slots == s.slots && t.published == s.published;
    assert forall q :: q in s.procs && s.procs[q].EnsuringStored? ==> q in t.procs && t.procs[q] == s.procs[q];
    actions, t := Extend(s, actions, t, StartWriter(w));
    actions, t := Extend(s, actions, t, Get(w));
    if s.published.None? {
      actions, t := Extend(s, actions, t, Get(w));
    }
  }

  /** Unlike a slot's word, a legacy word can give way to a slot's word and come back. */
  lemma LegacyWordCanComeBack<C>(s: State<C>, q: Pid, w: Pid) returns (away: seq<Action<C>>, back: seq<Action<C>>)
    requires s.published.None? && s.lock.None? && s.legacyRevision.Some?
    requires q in s.procs && w !in s.procs && s.procs[q] == EnsuringStored(s.legacyRevision.value)
    ensures Run(s, away).published == Some(Word(A, s.next))
    ensures Run(s, away + back).published == LegacyWord(s)
  {
    away := FirstPublication(s, w);
    back := [Store(q)];
    RunSnoc(s, away, Store(q));
  }

  /** A live reader reads the legacy slot while nothing is published. */
  lemma ReadsLegacy<C>(s: State<C>, p: Pid) returns (actions: seq<Action<C>>)
    requires s.published.None? && p in s.procs && s.procs[p].Live?
    ensures var view := s.procs[p].view;
            Run(s, actions) == Become(s, p, Live(view.(resolved := view.resolved + {Legacy},
                                                       seen := view.seen + [Observation(Legacy, s.slots.legacy)])))
  {
    var t := s;
    actions := [];
    actions, t := Extend(s, actions, t, Get(p));
    actions, t := Extend(s, actions, t, Get(p));
    actions, t := Extend(s, actions, t, Read(p, Legacy));
  }

  /** A live reader reads slot `A` while it is published. */
  lemma ReadsA<C>(s: State<C>, p: Pid) returns (actions: seq<Action<C>>)
    requires s.published.Some? && s.published.value.generation == A && p in s.procs && s.procs[p].Live?
    ensures var view := s.procs[p].view;
            Run(s, actions) == Become(s, p, Live(view.(resolved := view.resolved + {A},
                                                       seen := view.seen + [Observation(A, s.slots.a)])))
  {
    var t := s;
    actions := [];
    actions, t := Extend(s, actions, t, Get(p));
    actions, t := Extend(s, actions, t, Read(p, A));
  }

  /** A live reader passes its end check when its first word has just been stored again. */
  lemma EndsOnStoredWord<C>(s: State<C>, p: Pid, q: Pid) returns (actions: seq<Action<C>>)
    requires s.lock.None? && p in s.procs && q in s.procs && s.procs[q].EnsuringStored? && s.procs[p].Live?
    requires s.procs[p].view.word == Some(Word(Legacy, s.procs[q].revision))
    ensures var t := Run(s, actions); p in t.procs && t.procs[p].LiveDone? && t.procs[p].view == s.procs[p].view
  {
    var t := s;
    actions := [];
    actions, t := Extend(s, actions, t, Store(q));
    assert t.published == s.procs[p].view.word && t.lock.None? && t.procs[p] == s.procs[p];
    actions, t := Extend(s, actions, t, CheckLock(p));
    actions, t := Extend(s, actions, t, Get(p));
  }

  /** A live reader reads slot `A` before a delayed legacy word arrives, and then passes its end check. */
  lemma ReadsAThenSeesLegacyWord<C>(s: State<C>, p: Pid, q: Pid) returns (actions: seq<Action<C>>)
    requires s.published.Some? && s.published.value.generation == A && s.lock.None?
    requires p in s.procs && q in s.procs && s.procs[q].EnsuringStored? && s.procs[p].Live?
    requires s.procs[p].view.word == Some(Word(Legacy, s.procs[q].revision))
    ensures var t := Run(s, actions);
            && p in t.procs && t.procs[p].LiveDone?
            && t.procs[p].view.seen == s.procs[p].view.seen + [Observation(A, s.slots.a)]
  {
    var first := ReadsA(s, p);
    var t := Run(s, first);
    var second := EndsOnStoredWord(t, p, q);
    hide Step;
    RunAppend(s, first, second);
    actions := first + second;
  }

  /**
    An exposed live reader can mix generations: a writer publishes slot `A` while the legacy
    word is still on its way, and the delayed legacy word then makes the end check succeed.
  */
  lemma ExposedLiveReaderCanMixGenerations<C>(s: State<C>, p: Pid, q: Pid, w: Pid) returns (actions: seq<Action<C>>)
    requires Invariant(s) && s.published.None? && s.lock.None? && s.legacyRevision.Some?
    requires p in s.procs && q in s.procs && w !in s.procs
    requires s.procs[q] == EnsuringStored(s.legacyRevision.value)
    requires s.procs[p] == Live(View(LegacyWord(s), true, s.slots.legacy, {}, []))
    ensures var t := Run(s, actions);
            && p in t.procs && t.procs[p].LiveDone?
            && t.procs[p].view.seen == [Observation(Legacy, s.slots.legacy), Observation(A, s.slots.a)]
  {
    var first := ReadsLegacy(s, p);
    var t := Run(s, first);
    var second := FirstPublication(t, w);
    RunAppend(s, first, second);
    var u := Run(s, first + second);
    var third := ReadsAThenSeesLegacyWord(u, p, q);
    RunAppend(s, first + second, third);
    actions := first + second + third;
  }

  ghost predicate SafeAfter<C>(s: State<C>, actions: seq<Action<C>>, p: Pid) {
    var t := Run(s, actions);
    p in t.procs && t.procs[p].LiveDone? ==> Single(t.procs[p].view)
  }

  lemma {:induction false} UnusedPid(used: set<Pid>) returns (w: Pid)
    ensures forall p :: p in used ==> p < w
    decreases used
  {
    w := 0;
    if used != {} {
      var p :| p in used;
      var v := UnusedPid(used - {p});
      w := v + p + 1;
      assert forall o :: o in used ==> o == p || o in used - {p};
    }
  }

  /** A live reader has fetched its first word from the legacy revision, at once, and found no lock. */
  ghost function LiveStarted<C>(s: State<C>, p: Pid): State<C> {
    Run(s, [StartLive(p), Get(p), Get(p), CheckLock(p)])
  }

  lemma LiveStartedIs<C>(s: State<C>, p: Pid)
    requires s.published.None? && s.lock.None? && p !in s.procs
    ensures LiveStarted(s, p) == Become(s, p, Live(View(LegacyWord(s),
                                                        s.legacyRevision.Some? && Pending(s, s.legacyRevision.value),
                                                        s.slots.legacy, {}, [])))
  {
    var first, second := [StartLive(p), Get(p)], [Get(p), CheckLock(p)];
    assert first + second == [StartLive(p), Get(p), Get(p), CheckLock(p)];
    RunAppend(s, first, second);
    LiveFallsBack(s, p);
    LiveBeginsOnLegacy(s, p);
  }

  lemma LiveFallsBack<C>(s: State<C>, p: Pid)
    requires s.published.None? && p !in s.procs
    ensures Run(s, [StartLive(p), Get(p)]) == Become(s, p, LiveStartFallback)
  {
    RunSnoc(s, [StartLive(p)], Get(p));
    assert Run(Step(s, StartLive(p)), []) == Step(s, StartLive(p));
    assert Run(s, [StartLive(p)] + [Get(p)]) == Run(s, [StartLive(p), Get(p)]);
  }

  lemma LiveBeginsOnLegacy<C>(s: State<C>, p: Pid)
    requires s.published.None? && s.lock.None? && p !in s.procs
    ensures Run(Become(s, p, LiveStartFallback), [Get(p), CheckLock(p)])
         == Become(s, p, Live(View(LegacyWord(s), s.legacyRevision.Some? && Pending(s, s.legacyRevision.value), s.slots.legacy, {}, [])))
  {
    var t := Become(s, p, LiveStartFallback);
    SamePending(s, p, LiveStartFallback);
    hide Pending;
    RunSnoc(t, [Get(p)], CheckLock(p));
    assert Run(Step(t, Get(p)), []) == Step(t, Get(p));
    assert Run(t, [Get(p)] + [CheckLock(p)]) == Run(t, [Get(p), CheckLock(p)]);
  }

  lemma SamePending<C>(s: State<C>, p: Pid, q: Process<C>)
    requires p !in s.procs && !q.EnsuringStored?
    ensures forall r: Revision :: Pending(Become(s, p, q), r) <==> Pending(s, r)
  {
    NothingNewPending(s.procs, p, q);
    forall r: Revision | Pending(s, r)
      ensures Pending(Become(s, p, q), r)
    {
      var o :| o in s.procs && s.procs[o] == EnsuringStored(r);
      assert Become(s, p, q).procs[o] == EnsuringStored(r);
    }
  }

  /** A live reader that starts while nothing is published is safe in every continuation exactly when its revision is not on its way. */
  lemma LiveReadIsSafeExactlyWhenNothingIsPending<C(!new)>(s: State<C>, p: Pid)
    requires Invariant(s) && s.published.None? && s.lock.None? && p !in s.procs
    ensures (forall actions :: SafeAfter(LiveStarted(s, p), actions, p))
       <==> !(s.legacyRevision.Some? && Pending(s, s.legacyRevision.value))
  {
    var t := LiveStarted(s, p);
    LiveStartedIs(s, p);
    RunKeepsInvariant(s, [StartLive(p), Get(p), Get(p), CheckLock(p)]);
    if s.legacyRevision.Some? && Pending(s, s.legacyRevision.value) {
      var q :| q in s.procs && s.procs[q] == EnsuringStored(s.legacyRevision.value);
      var w := UnusedPid(t.procs.Keys);
      var actions := ExposedLiveReaderCanMixGenerations(t, p, q, w);
      var seen := Run(t, actions).procs[p].view.seen;
      assert Observation(A, s.slots.a) in seen && Observation(Legacy, s.slots.legacy) in seen;
      assert !SafeAfter(t, actions, p);
    } else {
      forall actions
        ensures SafeAfter(t, actions, p)
      {
        RunKeepsInvariant(t, actions);
        UnexposedStays(t, actions, p);
        var u := Run(t, actions);
        assert ProcessOk(u, p, u.procs[p]);
      }
    }
  }

  ghost predicate UnexposedLive<C>(q: Process<C>) {
    match q
    case Live(view) => !view.exposed
    case LiveResolveFallback(view) => !view.exposed
    case LiveEnd(view) => !view.exposed
    case LiveEndFallback(view) => !view.exposed
    case LiveDone(view, _) => !view.exposed
    case _ => q.Finished?
  }

  lemma {:induction false} UnexposedStays<C>(s: State<C>, actions: seq<Action<C>>, p: Pid)
    requires p in s.procs && UnexposedLive(s.procs[p])
    ensures p in Run(s, actions).procs && UnexposedLive(Run(s, actions).procs[p])
    decreases |actions|
  {
    if actions != [] {
      UnexposedStays(Step(s, actions[0]), actions[1..], p);
    }
  }

  lemma StoresLegacyRevision<C>(s: State<C>, q: Pid) returns (actions: seq<Action<C>>)
    requires s.published.None? && s.legacyRevision.None? && q !in s.procs
    ensures Run(s, actions) ==
            Become(s, q, EnsuringStored(s.next)).(legacyRevision := Some(s.next), next := s.next + 1)
  {
    var t := s;
    actions := [];
    actions, t := Extend(s, actions, t, StartEnsure(q));
    actions, t := Extend(s, actions, t, Get(q));
    actions, t := Extend(s, actions, t, Get(q));
    assert t == Become(s, q, EnsuringAbsent);
    actions, t := Extend(s, actions, t, Store(q));
  }

  /** The exposed case does arise: an empty Redis, one unlocked legacy publish and one live reader. */
  lemma EmptyRedisAllowsAMixedLiveRead<C>(s: State<C>) returns (actions: seq<Action<C>>)
    requires Initial(s) && s.published.None? && s.legacyRevision.None? && s.lock.None?
    ensures var t := Run(s, actions);
            && 1 in t.procs && t.procs[1].LiveDone?
            && t.procs[1].view.seen == [Observation(Legacy, s.slots.legacy), Observation(A, s.slots.a)]
  {
    var store := StoresLegacyRevision(s, 0);
    var t := Run(s, store);
    var start := [StartLive(1), Get(1), Get(1), CheckLock(1)];
    assert t.procs[0] == EnsuringStored(t.legacyRevision.value);
    LiveStartedIs(t, 1);
    RunAppend(s, store, start);
    RunKeepsInvariant(s, store + start);
    var rest := ExposedLiveReaderCanMixGenerations(Run(t, start), 1, 0, 2);
    RunAppend(s, store + start, rest);
    actions := store + start + rest;
  }

  /**
    The fencing assumption is needed: if expiry merely freed the lock, the lapsed writer and
    its successor would share a slot, which the successor publishes under the lapsed one.
  */
  lemma UnfencedExpiryPublishesAWorkingSlot<C>(s: State<C>, p: Pid, w: Pid) returns (actions: seq<Action<C>>)
    requires Invariant(s)
    requires p in s.procs && w !in s.procs && s.procs[p] == Working(WorkingSlot(GenerationOf(s.published)))
    ensures var t := Run(s.(lock := None), actions);
            && p in t.procs && t.procs[p].Working?
            && t.published.Some? && t.published.value.generation == t.procs[p].slot
  {
    var unfenced := s.(lock := None);
    var t := unfenced;
    actions := [];
    actions, t := Extend(unfenced, actions, t, StartWriter(w));
    actions, t := Extend(unfenced, actions, t, Get(w));
    if s.published.None? {
      actions, t := Extend(unfenced, actions, t, Get(w));
    }
    actions, t := Extend(unfenced, actions, t, Publish(w));
  }
}
