/**
  Index slots under the generation protocol: what a reader of a published slot has read is a sound
  slot that covered one of the sources the writers were given. Writers act on their working slot by
  the commands of `IndexWriter`, and publish it only after a synchronization that reported success.
*/
module PublishedSlots {
  import opened GenerationProtocol
  import opened Options
  import F = FacetSlot
  import IndexChecks
  import IndexWriter

  type Content = F.Slot

  type Source = map<F.Id, F.Score>

  /** What a successful synchronization leaves: a sound slot in use that covers one of the sources. */
  ghost predicate Fit(w: F.World, sources: set<Source>, c: Content) {
    F.Sound(w, c) && c.initialized && exists source :: source in sources && IndexChecks.Covers(c, source)
  }

  /** A writer leaves its slot sound with every command, and publishes it only when it is fit. */
  ghost predicate Own(w: F.World, sources: set<Source>, s: State<Content>, a: Action<Content>) {
    && (a.Mutate? ==> F.Sound(w, a.content))
    && (a.Publish? && a.p in s.procs && s.procs[a.p].Working? ==> Fit(w, sources, s.slots.At(s.procs[a.p].slot).content))
  }

  ghost predicate OwnRun(w: F.World, sources: set<Source>, s: State<Content>, actions: seq<Action<Content>>)
    decreases |actions|
  {
    actions == [] || (Own(w, sources, s, actions[0]) && OwnRun(w, sources, Step(s, actions[0]), actions[1..]))
  }

  // ----- A synchronization is such a run -----

  function Mutations(p: Pid, contents: seq<Content>): seq<Action<Content>> {
    seq(|contents|, i requires 0 <= i < |contents| => Mutate(p, contents[i]))
  }

  /** The states that a writer's commands leave behind, one after the other, make a run of its own actions. */
  lemma {:induction false} TrailIsOwnRun(w: F.World, sources: set<Source>, s: State<Content>, p: Pid, trail: seq<Content>)
    requires p in s.procs && s.procs[p].Working? && IndexWriter.AllSound(w, trail)
    ensures var t := Run(s, Mutations(p, trail));
            && OwnRun(w, sources, s, Mutations(p, trail))
            && t == s.(slots := t.slots)
            && t.slots.At(s.procs[p].slot).content == if trail == [] then s.slots.At(s.procs[p].slot).content else trail[|trail| - 1]
    decreases |trail|
  {
    var actions := Mutations(p, trail);
    if trail != [] {
      var t := Step(s, actions[0]);
      assert actions[0] == Mutate(p, trail[0]) && trail[0] in trail;
      assert actions[1..] == Mutations(p, trail[1..]);
      assert t == s.(slots := Written(s.slots, s.procs[p].slot, trail[0]));
      assert IndexWriter.AllSound(w, trail[1..]);
      hide IndexWriter.AllSound, Step, F.Sound;
      TrailIsOwnRun(w, sources, t, p, trail[1..]);
    }
  }

  /** A writer at work on its slot synchronizes it; its commands are its own, and a success leaves the slot fit. */
  method SynchronizeWorkingSlot(writer: IndexWriter.Writer, ghost s: State<Content>, ghost p: Pid, source: Source, published: Source,
                                requiredFacets: seq<F.Facet>, partitions: seq<F.Dimension>)
    returns (ok: bool, ghost t: State<Content>)
    requires writer.Valid() && !writer.crashed && writer.trail == []
    requires p in s.procs && s.procs[p].Working? && s.slots.At(s.procs[p].slot).content == writer.slot
    modifies writer
    ensures writer.Valid() && t == Run(s, Mutations(p, writer.trail)) && OwnRun(writer.world, {source}, s, Mutations(p, writer.trail))
    ensures t == s.(slots := t.slots) && t.slots.At(s.procs[p].slot).content == writer.slot
    ensures ok ==> Own(writer.world, {source}, t, Publish(p))
  {
    hide F.Sound, IndexChecks.Covers, IndexChecks.StructureHolds, F.Clean, F.Exact, IndexWriter.MayStop;
    ok := writer.Synchronize(source, published, requiredFacets, partitions);
    TrailIsOwnRun(writer.world, {source}, s, p, writer.trail);
    t := Run(s, Mutations(p, writer.trail));
    assert source in {source};
  }

  // ----- What readers get -----

  ghost predicate FitFor(w: F.World, sources: set<Source>, word: Option<Word>, c: Content) {
    word.Some? && word.value.generation != Legacy ==> Fit(w, sources, c)
  }

  ghost predicate ReaderOk(w: F.World, sources: set<Source>, q: Process<Content>) {
    match q
    case Pinned(word, begun, _) => FitFor(w, sources, Some(word), begun.content)
    case PinnedEndFallback(word, begun, _) => FitFor(w, sources, Some(word), begun.content)
    case PinnedDone(word, begun, _, _) => FitFor(w, sources, Some(word), begun.content)
    case LiveLocked(view) => FitFor(w, sources, view.word, view.begun.content)
    case Live(view) => FitFor(w, sources, view.word, view.begun.content)
    case LiveResolveFallback(view) => FitFor(w, sources, view.word, view.begun.content)
    case LiveEnd(view) => FitFor(w, sources, view.word, view.begun.content)
    case LiveEndFallback(view) => FitFor(w, sources, view.word, view.begun.content)
    case LiveDone(view, _) => FitFor(w, sources, view.word, view.begun.content)
    case _ => true
  }

  /** Both slots are sound, the published one is fit, and so is what every reader started on. */
  ghost predicate Carries(w: F.World, sources: set<Source>, s: State<Content>) {
    && F.Sound(w, s.slots.a.content) && F.Sound(w, s.slots.b.content)
    && FitFor(w, sources, s.published, s.slots.At(GenerationOf(s.published)).content)
    && forall p :: p in s.procs ==> ReaderOk(w, sources, s.procs[p])
  }

  /** A reader starts on what is published, and nobody else's observations change. */
  lemma GetCarries(w: F.World, sources: set<Source>, s: State<Content>, p: Pid)
    requires Carries(w, sources, s) && p in s.procs
    ensures Carries(w, sources, Step(s, Get(p)))
  {
    hide Fit, F.Sound, Pending;
    var q := s.procs[p];
    assert ReaderOk(w, sources, q);
    assert ReaderOk(w, sources, AfterGet(s, q));
    assert Step(s, Get(p)) == Become(s, p, AfterGet(s, q));
    hide AfterGet, ReaderOk, Step;
  }

  lemma MutateCarries(w: F.World, sources: set<Source>, s: State<Content>, p: Pid, content: Content)
    requires Invariant(s) && Carries(w, sources, s) && F.Sound(w, content)
    ensures Carries(w, sources, Step(s, Mutate(p, content)))
  {
    hide Fit, F.Sound, ReaderOk;
    if p in s.procs {
      assert ProcessOk(s, p, s.procs[p]);
    }
  }

  lemma StepCarries(w: F.World, sources: set<Source>, s: State<Content>, a: Action<Content>)
    requires Invariant(s) && Carries(w, sources, s) && Own(w, sources, s, a)
    ensures Carries(w, sources, Step(s, a))
  {
    hide Fit, F.Sound, Invariant;
    match a
    case Mutate(p, content) => MutateCarries(w, sources, s, p, content);
    case Get(p) => if p in s.procs { GetCarries(w, sources, s, p); }
    case _ =>
      var t := Step(s, a);
      assert t.slots == s.slots;
      assert FitFor(w, sources, t.published, t.slots.At(GenerationOf(t.published)).content);
      forall p | p in t.procs
        ensures ReaderOk(w, sources, t.procs[p])
      {
        assert p in s.procs ==> ReaderOk(w, sources, s.procs[p]);
      }
  }

  lemma {:induction false} RunCarries(w: F.World, sources: set<Source>, s: State<Content>, actions: seq<Action<Content>>)
    requires Invariant(s) && Carries(w, sources, s) && OwnRun(w, sources, s, actions)
    ensures Carries(w, sources, Run(s, actions))
    decreases |actions|
  {
    if actions != [] {
      StepCarries(w, sources, s, actions[0]);
      StepKeepsInvariant(s, actions[0]);
      hide Invariant, Carries, Own, Step;
      RunCarries(w, sources, Step(s, actions[0]), actions[1..]);
    }
  }

  /** A reader of the published generation that returns has read one fit slot, unless it read the slot of the previous release. */
  lemma PublishedReaderReadsAFitSlot(w: F.World, sources: set<Source>, s: State<Content>, actions: seq<Action<Content>>, p: Pid)
    requires Initial(s) && Carries(w, sources, s) && OwnRun(w, sources, s, actions)
    requires var t := Run(s, actions); p in t.procs && t.procs[p].PinnedDone? && t.procs[p].pinned.generation != Legacy
    ensures var q := Run(s, actions).procs[p];
            Fit(w, sources, q.begun.content) && forall i :: 0 <= i < |q.seen| ==> q.seen[i].content == q.begun.content
  {
    PinnedReaderReadsOneGeneration(s, actions, p);
    RunCarries(w, sources, s, actions);
    hide Fit, F.Sound;
    assert ReaderOk(w, sources, Run(s, actions).procs[p]);
  }

  /** So has a live reader, unless its first word was a legacy revision or none. */
  lemma LiveReaderReadsAFitSlot(w: F.World, sources: set<Source>, s: State<Content>, actions: seq<Action<Content>>, p: Pid)
    requires Initial(s) && Carries(w, sources, s) && OwnRun(w, sources, s, actions)
    requires var t := Run(s, actions);
             p in t.procs && t.procs[p].LiveDone? && !t.procs[p].view.exposed && GenerationOf(t.procs[p].view.word) != Legacy
    ensures var q := Run(s, actions).procs[p];
            && Fit(w, sources, q.view.begun.content)
            && forall i :: 0 <= i < |q.view.seen| ==> q.view.seen[i].version.content == q.view.begun.content
  {
    LiveReaderReadsOneGeneration(s, actions, p);
    RunCarries(w, sources, s, actions);
    hide Fit, F.Sound;
    assert ReaderOk(w, sources, Run(s, actions).procs[p]);
  }
}
